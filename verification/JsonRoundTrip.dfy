/** Printing and parsing are inverse: a printed text is parsed back wherever it stands in a buffer. */
module JsonRoundTrip {
  import opened Bytes
  import opened Numbers
  import opened StringCodec
  import opened Json
  import opened JsonParser

  predicate Blank(c: bytes, i: nat, j: nat) {
    i <= j <= |c| && forall k :: i <= k < j ==> c[k] <= SPACE
  }

  lemma {:induction false} SkipTo(c: bytes, i: nat, j: nat)
    requires Blank(c, i, j) && j < |c| && c[j] > SPACE
    ensures SkipBlanks(c, i) == j
  {
  }

  lemma BlankAt(c: bytes, o: nat, w: bytes)
    requires At(c, o, w) && forall k :: 0 <= k < |w| ==> w[k] <= SPACE
    ensures Blank(c, o, o + |w|)
  {
    forall k | o <= k < o + |w| ensures c[k] <= SPACE { AtIndex(c, o, w, k - o); }
  }

  /** The bytes a printed value can start with; none is blank, a bracket that closes, or a separator. */
  predicate Opens(b: byte) {
    b == 110 || b == 102 || b == 116 || b == QUOTE || b == MINUS || IsDigit(b) || b == LBRACKET || b == LBRACE
  }

  lemma SerialStart(v: Value, fmt: bool, depth: nat)
    ensures |Serial(v, fmt, depth)| > 0 && Opens(Serial(v, fmt, depth)[0])
  {
    if v.Number? { IntTextRead(v.number.Floor); }
  }

  /** What stands behind a printed value: a separator, a closing bracket, a newline or the terminator. */
  predicate Ends(b: byte) { !NumberByte(b) }

  lemma NameIsNot(c: bytes, o: nat)
    requires Terminated(c) && o < |c| && c[o] != 110 && c[o] != 102 && c[o] != 116
    ensures ParseName(c, o) == Failed(o)
  {
    if At(c, o, NULL_TEXT) { AtIndex(c, o, NULL_TEXT, 0); }
    if At(c, o, FALSE_TEXT) { AtIndex(c, o, FALSE_TEXT, 0); }
    if At(c, o, TRUE_TEXT) { AtIndex(c, o, TRUE_TEXT, 0); }
  }

  lemma NameRoundTrip(c: bytes, o: nat, v: Value, nesting: nat)
    requires Terminated(c) && (v.Null? || v.False? || v.True?) && At(c, o, Serial(v, false, 0)) && o < |c|
    ensures Parse(c, o, nesting) == Parsed(v, o + |Serial(v, false, 0)|)
  {
    AtIndex(c, o, Serial(v, false, 0), 0);
    if At(c, o, NULL_TEXT) { AtIndex(c, o, NULL_TEXT, 0); }
    if At(c, o, FALSE_TEXT) { AtIndex(c, o, FALSE_TEXT, 0); }
  }

  lemma NumberRoundTrip(c: bytes, o: nat, x: real, nesting: nat)
    requires Terminated(c) && PlainInteger(x) && At(c, o, IntText(x.Floor))
    requires o + |IntText(x.Floor)| < |c| && Ends(c[o + |IntText(x.Floor)|])
    ensures Parse(c, o, nesting) == Parsed(Number(x), o + |IntText(x.Floor)|)
  {
    hide IntText, Strtod, Span, NumberByte, ParseName;
    var t := IntText(x.Floor);
    IntTextRead(x.Floor);
    IntTextLength(x.Floor);
    forall k | o <= k < o + |t| ensures c[k] == t[k - o] { AtIndex(c, o, t, k - o); }
    assert c[o] == t[0];
    NameIsNot(c, o);
    SpanIs(c, o, |t|, 63);
  }

  lemma TextRoundTrip(c: bytes, o: nat, s: bytes, nesting: nat)
    requires Terminated(c) && NulFree(s) && At(c, o, Quoted(s)) && o < |c|
    ensures Parse(c, o, nesting) == Parsed(Text(s), o + |Quoted(s)|)
  {
    StringRoundTrip(c, o, s);
    NameIsNot(c, o);
  }

  /** A printed value followed by something that cannot extend a number is parsed back to the same
      tree, ending exactly behind it, if and only if the nesting limit is respected. */
  lemma {:induction false} RoundTripAt(c: bytes, o: nat, v: Value, fmt: bool, depth: nat, nesting: nat)
    requires Terminated(c) && Printable(v) && At(c, o, Serial(v, fmt, depth))
    requires o + |Serial(v, fmt, depth)| < |c| && Ends(c[o + |Serial(v, fmt, depth)|])
    ensures nesting + Levels(v) <= NESTING_LIMIT || Levels(v) == 0 ==>
              Parse(c, o, nesting) == Parsed(v, o + |Serial(v, fmt, depth)|)
    ensures nesting + Levels(v) > NESTING_LIMIT && Levels(v) > 0 ==> Parse(c, o, nesting).Failed?
    decreases v, 1
  {
    hide Parse, At, PrintableItems, PrintableMembers, NumberByte, Quoted, IntText, ItemsSerial, MembersSerial;
    match v {
      case Null => NameRoundTrip(c, o, v, nesting);
      case False => NameRoundTrip(c, o, v, nesting);
      case True => NameRoundTrip(c, o, v, nesting);
      case Number(x) => NumberRoundTrip(c, o, x, nesting);
      case Text(s) => TextRoundTrip(c, o, s, nesting);
      case Array(items) =>
        ArrayPieces(c, o, items, fmt, depth);
        ArrayRoundTrip(c, o, items, fmt, depth + 1, nesting);
      case Object(members) =>
        var p, e := ObjectPieces(c, o, members, fmt, depth);
        ObjectRoundTrip(c, o, p, e, members, fmt, depth + 1, nesting);
    }
  }

  lemma ArrayPieces(c: bytes, o: nat, items: seq<Value>, fmt: bool, depth: nat)
    requires At(c, o, Serial(Array(items), fmt, depth))
    ensures o < |c| && c[o] == LBRACKET && At(c, o + 1, ItemsSerial(items, fmt, depth + 1))
    ensures var e := o + 1 + |ItemsSerial(items, fmt, depth + 1)|;
            e < |c| && c[e] == RBRACKET && e + 1 == o + |Serial(Array(items), fmt, depth)|
  {
    var body := ItemsSerial(items, fmt, depth + 1);
    AtSplit3(c, o, [LBRACKET], body, [RBRACKET]);
    AtIndex(c, o, [LBRACKET], 0);
    AtIndex(c, o + 1 + |body|, [RBRACKET], 0);
  }

  lemma ArrayRoundTrip(c: bytes, o: nat, items: seq<Value>, fmt: bool, depth: nat, nesting: nat)
    requires Terminated(c) && PrintableItems(items)
    requires o < |c| && c[o] == LBRACKET && At(c, o + 1, ItemsSerial(items, fmt, depth))
    requires var e := o + 1 + |ItemsSerial(items, fmt, depth)|; e < |c| && c[e] == RBRACKET
    ensures nesting + 1 + ItemsLevels(items) <= NESTING_LIMIT ==>
              Parse(c, o, nesting) == Parsed(Array(items), o + 2 + |ItemsSerial(items, fmt, depth)|)
    ensures nesting + 1 + ItemsLevels(items) > NESTING_LIMIT ==> Parse(c, o, nesting).Failed?
    decreases items, 2
  {
    hide Parse, ItemsSerial, ItemsLevels, ParseItems, SkipBlanks;
    ArrayStep(c, o, nesting);
    if items == [] {
      NoItemsSerial(fmt, depth);
      SkipTo(c, o + 1, o + 1);
    } else if nesting < NESTING_LIMIT {
      ItemsStart(c, o + 1, items, fmt, depth);
      SkipTo(c, o + 1, o + 1);
      ItemsRoundTrip(c, o, o + 1, items, fmt, depth, nesting + 1);
    }
  }

  lemma NoItemsSerial(fmt: bool, depth: nat)
    ensures ItemsSerial([], fmt, depth) == [] && ItemsLevels([]) == 0
  {
  }

  lemma ArrayStep(c: bytes, o: nat, nesting: nat)
    requires Terminated(c) && o < |c| && c[o] == LBRACKET
    ensures Parse(c, o, nesting) == ParseArray(c, o, nesting)
  {
    NameIsNot(c, o);
  }

  lemma ItemsStart(c: bytes, p: nat, items: seq<Value>, fmt: bool, depth: nat)
    requires items != [] && At(c, p, ItemsSerial(items, fmt, depth))
    ensures At(c, p, Serial(items[0], fmt, depth)) && p < |c| && Opens(c[p])
  {
    var first := Serial(items[0], fmt, depth);
    SerialStart(items[0], fmt, depth);
    if |items| > 1 {
      AtSplit3(c, p, first, ItemSeparator(fmt), ItemsSerial(items[1..], fmt, depth));
    }
    AtIndex(c, p, first, 0);
  }

  /** One turn of the element loop, for an element that starts right at `p` and is followed by no blank. */
  lemma ItemsStep(c: bytes, o: nat, p: nat, depth: nat)
    requires Terminated(c) && o < |c| && c[o] != NUL && o < p < |c| && Blank(c, o + 1, p) && c[p] > SPACE
    ensures match Parse(c, p, depth) {
              case Failed(_) => ParseItems(c, o, depth).NoItems?
              case Parsed(v, q) =>
                c[q] > SPACE ==>
                ParseItems(c, o, depth) ==
                  if c[q] == COMMA then ParseItems(c, q, depth).Prepend([v]) else Items([v], q)
            }
  {
    SkipTo(c, o + 1, p);
    if Parse(c, p, depth).Parsed? {
      var q := Parse(c, p, depth).offset;
      if c[q] > SPACE { SkipTo(c, q, q); }
    }
  }

  /** What is behind the first of several printed elements. */
  lemma ItemsTail(c: bytes, p: nat, items: seq<Value>, fmt: bool, depth: nat) returns (q: nat, next: nat)
    requires |items| > 1 && At(c, p, ItemsSerial(items, fmt, depth))
    ensures q == p + |Serial(items[0], fmt, depth)| && q < next && q < |c| && c[q] == COMMA
    ensures Blank(c, q + 1, next) && At(c, next, ItemsSerial(items[1..], fmt, depth))
    ensures next + |ItemsSerial(items[1..], fmt, depth)| == p + |ItemsSerial(items, fmt, depth)|
  {
    var first, sep := Serial(items[0], fmt, depth), ItemSeparator(fmt);
    var rest := ItemsSerial(items[1..], fmt, depth);
    AtSplit3(c, p, first, sep, rest);
    q, next := p + |first|, p + |first| + |sep|;
    AtIndex(c, q, sep, 0);
    if fmt { AtIndex(c, q, sep, 1); }
  }

  lemma {:induction false} ItemsRoundTrip(c: bytes, o: nat, p: nat, items: seq<Value>, fmt: bool, depth: nat,
                                          nesting: nat)
    requires Terminated(c) && items != [] && PrintableItems(items)
    requires o < |c| && c[o] != NUL && o < p && Blank(c, o + 1, p)
    requires At(c, p, ItemsSerial(items, fmt, depth))
    requires p + |ItemsSerial(items, fmt, depth)| < |c| && c[p + |ItemsSerial(items, fmt, depth)|] == RBRACKET
    requires 0 < nesting <= NESTING_LIMIT
    ensures nesting + ItemsLevels(items) <= NESTING_LIMIT ==>
              ParseItems(c, o, nesting) == Items(items, p + |ItemsSerial(items, fmt, depth)|)
    ensures nesting + ItemsLevels(items) > NESTING_LIMIT ==> ParseItems(c, o, nesting).NoItems?
    decreases items, 0
  {
    hide Parse, ParseItems, SkipBlanks, Serial, Printable, At, Levels;
    ItemsStart(c, p, items, fmt, depth);
    ItemsStep(c, o, p, nesting);
    if |items| == 1 {
      RoundTripAt(c, p, items[0], fmt, depth, nesting);
      assert items == [items[0]];
    } else {
      var q, next := ItemsTail(c, p, items, fmt, depth);
      RoundTripAt(c, p, items[0], fmt, depth, nesting);
      ItemsRoundTrip(c, q, next, items[1..], fmt, depth, nesting);
      assert [items[0]] + items[1..] == items;
    }
  }

  lemma ObjectPieces(c: bytes, o: nat, members: seq<Member>, fmt: bool, depth: nat) returns (p: nat, e: nat)
    requires At(c, o, Serial(Object(members), fmt, depth))
    ensures o < p <= |c| && c[o] == LBRACE && Blank(c, o + 1, p)
    ensures At(c, p, MembersSerial(members, fmt, depth + 1))
    ensures p + |MembersSerial(members, fmt, depth + 1)| <= e < |c| && c[e] == RBRACE
    ensures Blank(c, p + |MembersSerial(members, fmt, depth + 1)|, e)
    ensures e + 1 == o + |Serial(Object(members), fmt, depth)|
  {
    hide At, Blank, MembersSerial;
    var open, body, ind := Opening(fmt), MembersSerial(members, fmt, depth + 1), Indent(fmt, depth);
    AtSplit4(c, o, open, body, ind, [RBRACE]);
    p := o + |open|;
    e := p + |body| + |ind|;
    AtIndex(c, o, open, 0);
    OpeningBlank(c, o, fmt);
    BlankAt(c, p + |body|, ind);
    AtIndex(c, e, [RBRACE], 0);
  }

  lemma OpeningBlank(c: bytes, o: nat, fmt: bool)
    requires At(c, o, Opening(fmt))
    ensures Blank(c, o + 1, o + |Opening(fmt)|)
  {
    if fmt { AtIndex(c, o, Opening(fmt), 1); }
  }

  lemma ObjectStep(c: bytes, o: nat, nesting: nat)
    requires Terminated(c) && o < |c| && c[o] == LBRACE
    ensures Parse(c, o, nesting) == ParseObject(c, o, nesting)
  {
    NameIsNot(c, o);
  }

  lemma NoMembersSerial(fmt: bool, depth: nat)
    ensures MembersSerial([], fmt, depth) == [] && MembersLevels([]) == 0
  {
  }

  lemma BlankByte(c: bytes, i: nat, j: nat)
    requires Blank(c, i, j) && j < |c| && c[j] == RBRACE
    ensures i < |c| && Ends(c[i])
  {
  }

  lemma BlankJoin(c: bytes, i: nat, j: nat, k: nat)
    requires Blank(c, i, j) && Blank(c, j, k)
    ensures Blank(c, i, k)
  {
  }

  lemma ObjectRoundTrip(c: bytes, o: nat, p: nat, e: nat, members: seq<Member>, fmt: bool, depth: nat, nesting: nat)
    requires Terminated(c) && PrintableMembers(members)
    requires o < p <= |c| && c[o] == LBRACE && Blank(c, o + 1, p)
    requires At(c, p, MembersSerial(members, fmt, depth))
    requires p + |MembersSerial(members, fmt, depth)| <= e < |c| && c[e] == RBRACE
    requires Blank(c, p + |MembersSerial(members, fmt, depth)|, e)
    ensures nesting + 1 + MembersLevels(members) <= NESTING_LIMIT ==>
              Parse(c, o, nesting) == Parsed(Object(members), e + 1)
    ensures nesting + 1 + MembersLevels(members) > NESTING_LIMIT ==> Parse(c, o, nesting).Failed?
    decreases members, 2
  {
    hide Parse, MembersSerial, MembersLevels, ParseMembers, SkipBlanks, Blank, At;
    ObjectStep(c, o, nesting);
    if members == [] {
      NoMembersSerial(fmt, depth);
      BlankJoin(c, o + 1, p, e);
      SkipTo(c, o + 1, e);
    } else if nesting < NESTING_LIMIT {
      MembersStart(c, p, members, fmt, depth);
      BlankJoin(c, o + 1, p, p + |Indent(fmt, depth)|);
      SkipTo(c, o + 1, p + |Indent(fmt, depth)|);
      MembersRoundTrip(c, o, p, e, members, fmt, depth, nesting + 1);
    }
  }

  lemma MembersPieces(c: bytes, p: nat, members: seq<Member>, fmt: bool, depth: nat)
    requires members != [] && At(c, p, MembersSerial(members, fmt, depth))
    ensures var head, value := MemberHead(members[0], fmt, depth), Serial(members[0].value, fmt, depth);
            var end, rest := MemberEnd(fmt, |members| == 1), MembersSerial(members[1..], fmt, depth);
            && At(c, p, head) && At(c, p + |head|, value) && At(c, p + |head| + |value|, end)
            && At(c, p + |head| + |value| + |end|, rest)
            && |MembersSerial(members, fmt, depth)| == |head| + |value| + |end| + |rest|
            && p + |MembersSerial(members, fmt, depth)| <= |c|
  {
    hide At, Serial, MemberHead, MemberEnd;
    AtSplit4(c, p, MemberHead(members[0], fmt, depth), Serial(members[0].value, fmt, depth),
             MemberEnd(fmt, |members| == 1), MembersSerial(members[1..], fmt, depth));
  }

  lemma HeadPieces(c: bytes, p: nat, m: Member, fmt: bool, depth: nat)
    requires At(c, p, MemberHead(m, fmt, depth))
    ensures var key := p + |Indent(fmt, depth)|;
            && Blank(c, p, key) && key < |c| && c[key] == QUOTE && At(c, key, Quoted(m.key))
            && At(c, key + |Quoted(m.key)|, KeySeparator(fmt))
            && key + |Quoted(m.key)| + |KeySeparator(fmt)| == p + |MemberHead(m, fmt, depth)| <= |c|
  {
    hide At, Blank, Quoted;
    AtSplit3(c, p, Indent(fmt, depth), Quoted(m.key), KeySeparator(fmt));
    BlankAt(c, p, Indent(fmt, depth));
    QuotedStart(m.key);
    AtIndex(c, p + |Indent(fmt, depth)|, Quoted(m.key), 0);
  }

  /** The first member's indentation is blank and its key follows. */
  lemma MembersStart(c: bytes, p: nat, members: seq<Member>, fmt: bool, depth: nat)
    requires members != [] && At(c, p, MembersSerial(members, fmt, depth))
    ensures At(c, p, MemberHead(members[0], fmt, depth))
    ensures Blank(c, p, p + |Indent(fmt, depth)|) && p + |Indent(fmt, depth)| < |c|
    ensures c[p + |Indent(fmt, depth)|] == QUOTE
  {
    hide At, Blank, Serial, MembersSerial, MemberHead;
    MembersPieces(c, p, members, fmt, depth);
    HeadPieces(c, p, members[0], fmt, depth);
  }

  lemma QuotedStart(s: bytes)
    ensures |Quoted(s)| >= 2 && Quoted(s)[0] == QUOTE
  {
  }

  lemma ColonBlank(c: bytes, q: nat, fmt: bool)
    requires At(c, q, KeySeparator(fmt))
    ensures Blank(c, q + 1, q + |KeySeparator(fmt)|)
  {
    if fmt { AtIndex(c, q, KeySeparator(fmt), 1); }
  }

  /** A member's key and colon are read back, leaving the reader in front of its value. */
  lemma KeyRoundTrip(c: bytes, p: nat, m: Member, fmt: bool, depth: nat)
    requires Terminated(c) && NulFree(m.key) && At(c, p, MemberHead(m, fmt, depth))
    ensures var key := p + |Indent(fmt, depth)|;
            var colon := key + |Quoted(m.key)|;
            && key < |c| && colon < |c| && c[colon] == COLON
            && ReadString(c, key) == StringRead(m.key, colon)
            && colon < p + |MemberHead(m, fmt, depth)|
            && Blank(c, colon + 1, p + |MemberHead(m, fmt, depth)|)
  {
    hide Quoted, At, Blank, ReadString, MemberHead, Indent;
    HeadPieces(c, p, m, fmt, depth);
    var key := p + |Indent(fmt, depth)|;
    StringRoundTrip(c, key, m.key);
    AtIndex(c, key + |Quoted(m.key)|, KeySeparator(fmt), 0);
    ColonBlank(c, key + |Quoted(m.key)|, fmt);
  }

  /** One turn of the member loop: key at `key`, colon right behind it, value at `p`. */
  lemma MembersStep(c: bytes, o: nat, key: nat, k: bytes, colon: nat, p: nat, depth: nat)
    requires Terminated(c) && o < |c| && c[o] != NUL && o < key < |c| && Blank(c, o + 1, key) && c[key] == QUOTE
    requires ReadString(c, key) == StringRead(k, colon) && NulFree(k) && colon < |c| && c[colon] == COLON
    requires colon < p < |c| && Blank(c, colon + 1, p) && c[p] > SPACE
    ensures match Parse(c, p, depth) {
              case Failed(_) => ParseMembers(c, o, depth).NoMembers?
              case Parsed(v, q) =>
                ParseMembers(c, o, depth) ==
                  if c[SkipBlanks(c, q)] == COMMA then ParseMembers(c, SkipBlanks(c, q), depth).Prepend([Member(k, v)])
                  else Members([Member(k, v)], SkipBlanks(c, q))
            }
  {
    hide Parse, SkipBlanks, ReadString;
    SkipTo(c, o + 1, key);
    SkipTo(c, colon, colon);
    SkipTo(c, colon + 1, p);
  }

  lemma MemberEndBlank(c: bytes, q: nat, fmt: bool, last: bool)
    requires At(c, q, MemberEnd(fmt, last))
    ensures !last ==> q < |c| && c[q] == COMMA && Blank(c, q + 1, q + |MemberEnd(fmt, last)|)
    ensures last ==> Blank(c, q, q + |MemberEnd(fmt, last)|)
  {
    var end := MemberEnd(fmt, last);
    if |end| > 0 { AtIndex(c, q, end, 0); }
    if |end| > 1 { AtIndex(c, q, end, 1); }
  }

  /** What is behind the value of the first printed member. */
  lemma MembersTail(c: bytes, p: nat, members: seq<Member>, fmt: bool, depth: nat) returns (v: nat, q: nat, next: nat)
    requires members != [] && At(c, p, MembersSerial(members, fmt, depth))
    ensures v == p + |MemberHead(members[0], fmt, depth)|
    ensures At(c, v, Serial(members[0].value, fmt, depth)) && v < |c| && Opens(c[v])
    ensures q == v + |Serial(members[0].value, fmt, depth)| && q <= next <= |c|
    ensures |members| > 1 ==> q < next && c[q] == COMMA && Blank(c, q + 1, next)
    ensures |members| == 1 ==> Blank(c, q, next)
    ensures At(c, next, MembersSerial(members[1..], fmt, depth))
    ensures next + |MembersSerial(members[1..], fmt, depth)| == p + |MembersSerial(members, fmt, depth)|
  {
    hide At, Blank, Serial, MemberHead, MemberEnd, MembersSerial, Opens;
    MembersPieces(c, p, members, fmt, depth);
    v := p + |MemberHead(members[0], fmt, depth)|;
    q := v + |Serial(members[0].value, fmt, depth)|;
    next := q + |MemberEnd(fmt, |members| == 1)|;
    SerialStart(members[0].value, fmt, depth);
    AtIndex(c, v, Serial(members[0].value, fmt, depth), 0);
    MemberEndBlank(c, q, fmt, |members| == 1);
  }

  /** The printed members start at `p` behind the byte at `o`, and the brace at `e` closes them. */
  predicate MembersBetween(c: bytes, o: nat, p: nat, e: nat, members: seq<Member>, fmt: bool, depth: nat) {
    && o < |c| && c[o] != NUL && o < p && Blank(c, o + 1, p)
    && At(c, p, MembersSerial(members, fmt, depth))
    && Blank(c, p + |MembersSerial(members, fmt, depth)|, e) && e < |c| && c[e] == RBRACE
  }

  lemma MemberRoundTrip(c: bytes, o: nat, p: nat, e: nat, members: seq<Member>, fmt: bool, depth: nat, nesting: nat)
    returns (v: nat, q: nat, next: nat)
    requires Terminated(c) && members != [] && NulFree(members[0].key)
    requires MembersBetween(c, o, p, e, members, fmt, depth)
    ensures At(c, v, Serial(members[0].value, fmt, depth)) && v < |c|
    ensures q == v + |Serial(members[0].value, fmt, depth)| && q < |c| && c[q] != NUL && Ends(c[q])
    ensures |members| > 1 ==> MembersBetween(c, q, next, e, members[1..], fmt, depth)
    ensures match Parse(c, v, nesting) {
              case Failed(_) => ParseMembers(c, o, nesting).NoMembers?
              case Parsed(x, at) =>
                at == q ==>
                ParseMembers(c, o, nesting) ==
                  if |members| > 1 then ParseMembers(c, q, nesting).Prepend([Member(members[0].key, x)])
                  else Members([Member(members[0].key, x)], e)
            }
  {
    hide Parse, ParseMembers, SkipBlanks, Serial, At, Blank, MemberHead, MembersSerial, ReadString, Quoted, Indent;
    var m := members[0];
    MembersStart(c, p, members, fmt, depth);
    KeyRoundTrip(c, p, m, fmt, depth);
    var key := p + |Indent(fmt, depth)|;
    v, q, next := MembersTail(c, p, members, fmt, depth);
    BlankJoin(c, o + 1, p, key);
    MembersStep(c, o, key, m.key, key + |Quoted(m.key)|, v, nesting);
    if |members| == 1 {
      NoMembersSerial(fmt, depth);
      assert members[1..] == [];
      BlankJoin(c, q, next, e);
      BlankByte(c, q, e);
      SkipTo(c, q, e);
    } else {
      BlankJoin(c, q, q, q);
      SkipTo(c, q, q);
    }
  }

  lemma {:induction false} MembersRoundTrip(c: bytes, o: nat, p: nat, e: nat, members: seq<Member>, fmt: bool,
                                            depth: nat, nesting: nat)
    requires Terminated(c) && members != [] && PrintableMembers(members)
    requires MembersBetween(c, o, p, e, members, fmt, depth)
    requires 0 < nesting <= NESTING_LIMIT
    ensures nesting + MembersLevels(members) <= NESTING_LIMIT ==>
              ParseMembers(c, o, nesting) == Members(members, e)
    ensures nesting + MembersLevels(members) > NESTING_LIMIT ==> ParseMembers(c, o, nesting).NoMembers?
    decreases members, 0
  {
    hide Parse, ParseMembers, Serial, At, MembersBetween, Printable, Levels;
    var m := members[0];
    var v, q, next := MemberRoundTrip(c, o, p, e, members, fmt, depth, nesting);
    RoundTripAt(c, v, m.value, fmt, depth, nesting);
    if |members| == 1 {
      assert members == [m] && members[1..] == [];
      assert MembersLevels(members) == Levels(m.value);
    } else {
      MembersRoundTrip(c, q, next, e, members[1..], fmt, depth, nesting);
      assert [m] + members[1..] == members;
    }
  }
}
