/** Whole documents: cJSON_ParseWithOpts, and what printing and parsing promise each other. */
module JsonDocument {
  import opened Bytes
  import opened Numbers
  import opened StringCodec
  import opened Json
  import opened JsonParser
  import opened JsonRoundTrip

  /** The buffer the parser builds over a C string. */
  function Buffer(text: bytes): (c: bytes)
    requires NulFree(text)
    ensures Terminated(c) && c[..|c| - 1] == text
  {
    text + [NUL]
  }

  datatype Document = Document(value: Value, end: nat) | Rejected(where: nat)

  /** The byte order mark is skipped only when at least five bytes, terminator included, are there. */
  function SkipMark(c: bytes): (o: nat)
    requires |c| > 0
    ensures o < |c|
  {
    if 4 < |c| && c[..3] == [0xEF, 0xBB, 0xBF] then 3 else 0
  }

  /** cJSON_ParseWithOpts: the tree and the end offset, or the error position. */
  function ParseDocument(text: bytes, requireEnd: bool): (d: Document)
    requires NulFree(text)
    ensures d.Rejected? ==> d.where <= |text|
  {
    var c := Buffer(text);
    match Parse(c, SkipBlanks(c, SkipMark(c)), 0) {
      case Failed(at) => Rejected(if at < |c| then at else |c| - 1)
      case Parsed(v, at) =>
        var end := if requireEnd then SkipBlanks(c, at) else at;
        if requireEnd && c[end] != NUL then Rejected(end) else Document(v, end)
    }
  }

  // ----- Printed text is a C string

  lemma {:induction false} DigitsNulFree(n: int)
    ensures NulFree(IntText(n))
  {
    IntTextRead(n);
  }

  lemma ByteNulFree()
    ensures NulFree([LBRACKET]) && NulFree([RBRACKET]) && NulFree([RBRACE]) && NulFree([])
    ensures NulFree(NULL_TEXT) && NulFree(FALSE_TEXT) && NulFree(TRUE_TEXT)
  {
  }

  lemma PartsNulFree(fmt: bool, depth: nat, last: bool)
    ensures NulFree(Opening(fmt)) && NulFree(Indent(fmt, depth)) && NulFree(ItemSeparator(fmt))
    ensures NulFree(KeySeparator(fmt)) && NulFree(MemberEnd(fmt, last))
  {
  }

  lemma QuotedNulFree(s: bytes)
    requires NulFree(s)
    ensures NulFree(Quoted(s))
  {
    EscapeNulFree(s);
  }

  lemma HeadNulFree(m: Member, fmt: bool, depth: nat)
    requires NulFree(m.key)
    ensures NulFree(MemberHead(m, fmt, depth))
  {
    hide NulFree, Quoted, Indent, KeySeparator;
    QuotedNulFree(m.key);
    PartsNulFree(fmt, depth, true);
    NulFreeJoin(Indent(fmt, depth), Quoted(m.key));
    NulFreeJoin(Indent(fmt, depth) + Quoted(m.key), KeySeparator(fmt));
  }

  lemma {:induction false} SerialNulFree(v: Value, fmt: bool, depth: nat)
    requires Printable(v)
    ensures NulFree(Serial(v, fmt, depth))
    decreases v, 1
  {
    hide NulFree, ItemsSerial, MembersSerial, Escape, IntText, Indent, PrintableItems, PrintableMembers;
    ByteNulFree();
    match v {
      case Number(x) => DigitsNulFree(x.Floor);
      case Text(s) => QuotedNulFree(s);
      case Array(items) =>
        ItemsNulFree(items, fmt, depth + 1);
        NulFreeJoin([LBRACKET], ItemsSerial(items, fmt, depth + 1));
        NulFreeJoin([LBRACKET] + ItemsSerial(items, fmt, depth + 1), [RBRACKET]);
      case Object(members) =>
        MembersNulFree(members, fmt, depth + 1);
        var open, body, ind := Opening(fmt), MembersSerial(members, fmt, depth + 1), Indent(fmt, depth);
        PartsNulFree(fmt, depth, true);
        NulFreeJoin(open, body);
        NulFreeJoin(open + body, ind);
        NulFreeJoin(open + body + ind, [RBRACE]);
      case _ =>
    }
  }

  lemma {:induction false} ItemsNulFree(items: seq<Value>, fmt: bool, depth: nat)
    requires PrintableItems(items)
    ensures NulFree(ItemsSerial(items, fmt, depth))
    decreases items, 0
  {
    hide NulFree, Serial, Printable, ItemSeparator;
    ByteNulFree();
    if items != [] {
      SerialNulFree(items[0], fmt, depth);
      ItemsNulFree(items[1..], fmt, depth);
      PartsNulFree(fmt, depth, true);
      NulFreeJoin(Serial(items[0], fmt, depth), ItemSeparator(fmt));
      NulFreeJoin(Serial(items[0], fmt, depth) + ItemSeparator(fmt), ItemsSerial(items[1..], fmt, depth));
    }
  }

  lemma {:induction false} MembersNulFree(members: seq<Member>, fmt: bool, depth: nat)
    requires PrintableMembers(members)
    ensures NulFree(MembersSerial(members, fmt, depth))
    decreases members, 0
  {
    hide NulFree, Serial, Printable, MemberHead, MemberEnd;
    ByteNulFree();
    if members != [] {
      var head, value := MemberHead(members[0], fmt, depth), Serial(members[0].value, fmt, depth);
      var end := MemberEnd(fmt, |members| == 1);
      HeadNulFree(members[0], fmt, depth);
      SerialNulFree(members[0].value, fmt, depth);
      MembersNulFree(members[1..], fmt, depth);
      PartsNulFree(fmt, depth, |members| == 1);
      NulFreeJoin(head, value);
      NulFreeJoin(head + value, end);
      NulFreeJoin(head + value + end, MembersSerial(members[1..], fmt, depth));
    }
  }

  // ----- The document round trip

  /** Parsing either printed form of a tree gives the tree back and stops exactly at the end of the
      text, if and only if the tree has at most 1000 container levels; deeper trees are rejected. */
  lemma DocumentRoundTrip(v: Value, fmt: bool, requireEnd: bool)
    requires Printable(v)
    ensures NulFree(Serial(v, fmt, 0))
    ensures Levels(v) <= NESTING_LIMIT ==>
              ParseDocument(Serial(v, fmt, 0), requireEnd) == Document(v, |Serial(v, fmt, 0)|)
    ensures Levels(v) > NESTING_LIMIT ==> ParseDocument(Serial(v, fmt, 0), requireEnd).Rejected?
  {
    hide Serial, Parse, Printable, Levels, SkipBlanks;
    SerialNulFree(v, fmt, 0);
    SerialStart(v, fmt, 0);
    var t := Serial(v, fmt, 0);
    var c := Buffer(t);
    assert At(c, 0, t);
    assert c[0] == t[0];
    assert |c| > 3 ==> c[..3][0] == c[0];
    assert SkipMark(c) == 0;
    SkipTo(c, 0, 0);
    RoundTripAt(c, 0, v, fmt, 0, 0);
    assert c[|t|] == NUL;
    StaysOnNul(c);
  }

  lemma StaysOnNul(c: bytes)
    requires Terminated(c)
    ensures SkipBlanks(c, |c| - 1) == |c| - 1
  {
  }

  /** So a printed text determines its tree, whichever format it was printed in. */
  lemma SerialInjective(v: Value, w: Value, vfmt: bool, wfmt: bool)
    requires Printable(v) && Printable(w) && Levels(v) <= NESTING_LIMIT && Levels(w) <= NESTING_LIMIT
    requires Serial(v, vfmt, 0) == Serial(w, wfmt, 0)
    ensures v == w
  {
    hide Serial, ParseDocument;
    DocumentRoundTrip(v, vfmt, true);
    DocumentRoundTrip(w, wfmt, true);
  }

  // ----- Accepted texts

  predicate PlainNumbers(v: Value) {
    match v {
      case Number(x) => PlainInteger(x)
      case Array(items) => PlainItems(items)
      case Object(members) => PlainMembers(members)
      case _ => true
    }
  }
  predicate PlainItems(items: seq<Value>) {
    items == [] || (PlainNumbers(items[0]) && PlainItems(items[1..]))
  }
  predicate PlainMembers(members: seq<Member>) {
    members == [] || (PlainNumbers(members[0].value) && PlainMembers(members[1..]))
  }

  /** Every tree the parser builds stays within the nesting limit and holds C strings only. */
  lemma {:induction false} ParsedShape(c: bytes, o: nat, nesting: nat)
    requires Terminated(c) && o < |c| && nesting <= NESTING_LIMIT
    ensures match Parse(c, o, nesting) {
              case Failed(_) => true
              case Parsed(v, _) => nesting + Levels(v) <= NESTING_LIMIT && (Printable(v) <==> PlainNumbers(v))
            }
    decreases |c| - o, 1
  {
    hide ParseText, ParseNumber, ParseName, ParseItems, ParseMembers, SkipBlanks, NESTING_LIMIT;
    ShapeOfScalars(c, o);
    if c[o] == LBRACKET && nesting < NESTING_LIMIT {
      ItemsShape(c, o, nesting + 1);
    } else if c[o] == LBRACE && nesting < NESTING_LIMIT {
      MembersShape(c, o, nesting + 1);
    }
  }

  lemma ShapeOfScalars(c: bytes, o: nat)
    requires Terminated(c) && o < |c|
    ensures ParseText(c, o).Parsed? ==> ParseText(c, o).value.Text? && NulFree(ParseText(c, o).value.text)
    ensures ParseNumber(c, o).Parsed? ==> ParseNumber(c, o).value.Number?
    ensures ParseName(c, o).Parsed? ==> ParseName(c, o).value in {Null, False, True}
  {
  }

  lemma {:induction false} ItemsShape(c: bytes, o: nat, nesting: nat)
    requires Terminated(c) && o < |c| && c[o] != NUL && nesting <= NESTING_LIMIT
    ensures match ParseItems(c, o, nesting) {
              case NoItems(_) => true
              case Items(items, _) =>
                nesting + ItemsLevels(items) <= NESTING_LIMIT && (PrintableItems(items) <==> PlainItems(items))
            }
    decreases |c| - o, 0
  {
    hide Parse, SkipBlanks, NESTING_LIMIT, Printable, PlainNumbers, Levels;
    var p := SkipBlanks(c, o + 1);
    ParsedShape(c, p, nesting);
    match Parse(c, p, nesting) {
      case Failed(_) =>
      case Parsed(v, at) =>
        var next := SkipBlanks(c, at);
        if c[next] == COMMA {
          ItemsShape(c, next, nesting);
          if ParseItems(c, next, nesting).Items? { ConsItems(v, ParseItems(c, next, nesting)); }
        } else {
          ConsItems(v, Items([], next));
        }
    }
  }

  lemma ConsItems(v: Value, rest: Items)
    requires rest.Items?
    ensures ItemsLevels([v] + rest.items) == Max(Levels(v), ItemsLevels(rest.items))
    ensures PrintableItems([v] + rest.items) <==> Printable(v) && PrintableItems(rest.items)
    ensures PlainItems([v] + rest.items) <==> PlainNumbers(v) && PlainItems(rest.items)
  {
    assert ([v] + rest.items)[1..] == rest.items;
  }

  lemma {:induction false} MembersShape(c: bytes, o: nat, nesting: nat)
    requires Terminated(c) && o < |c| && c[o] != NUL && nesting <= NESTING_LIMIT
    ensures match ParseMembers(c, o, nesting) {
              case NoMembers(_) => true
              case Members(members, _) =>
                nesting + MembersLevels(members) <= NESTING_LIMIT &&
                (PrintableMembers(members) <==> PlainMembers(members))
            }
    decreases |c| - o, 0
  {
    hide Parse, SkipBlanks, NESTING_LIMIT, Printable, PlainNumbers, Levels, ReadString;
    match ReadString(c, SkipBlanks(c, o + 1)) {
      case StringFailed(_) =>
      case StringRead(k, keyEnd) =>
        var colon := SkipBlanks(c, keyEnd);
        if c[colon] == COLON {
          var p := SkipBlanks(c, colon + 1);
          ParsedShape(c, p, nesting);
          match Parse(c, p, nesting) {
            case Failed(_) =>
            case Parsed(v, at) =>
              var next, m := SkipBlanks(c, at), Member(CString(k), v);
              if c[next] == COMMA {
                MembersShape(c, next, nesting);
                if ParseMembers(c, next, nesting).Members? { ConsMembers(m, ParseMembers(c, next, nesting)); }
              } else {
                ConsMembers(m, Members([], next));
              }
          }
        }
    }
  }

  lemma ConsMembers(m: Member, rest: Members)
    requires rest.Members? && NulFree(m.key)
    ensures MembersLevels([m] + rest.members) == Max(Levels(m.value), MembersLevels(rest.members))
    ensures PrintableMembers([m] + rest.members) <==> Printable(m.value) && PrintableMembers(rest.members)
    ensures PlainMembers([m] + rest.members) <==> PlainNumbers(m.value) && PlainMembers(rest.members)
  {
    assert ([m] + rest.members)[1..] == rest.members;
  }

  /** Any text whatsoever that is accepted, with plain integers for its numbers, survives being
      printed and parsed again: printing normalises the text without changing what it means. */
  lemma ReprintStable(text: bytes, requireEnd: bool, fmt: bool)
    requires NulFree(text) && ParseDocument(text, requireEnd).Document?
    requires PlainNumbers(ParseDocument(text, requireEnd).value)
    ensures var v := ParseDocument(text, requireEnd).value;
            && Printable(v) && NulFree(Serial(v, fmt, 0))
            && ParseDocument(Serial(v, fmt, 0), true) == Document(v, |Serial(v, fmt, 0)|)
  {
    hide Serial, Parse, SkipBlanks, Printable, Levels;
    var c := Buffer(text);
    ParsedShape(c, SkipBlanks(c, SkipMark(c)), 0);
    DocumentRoundTrip(ParseDocument(text, requireEnd).value, fmt, true);
  }
}
