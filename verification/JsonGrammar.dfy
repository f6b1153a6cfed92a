/** The grammar of JSON texts as a relation, and how the parser follows it: brackets, commas
    and colons where section 2 of RFC 8259 has them, blanks of any kind between tokens, at most
    NESTING_LIMIT levels. */
module JsonGrammar {
  import opened Bytes
  import opened Numbers
  import opened NumberTexts
  import opened NumberValues
  import opened StringCodec
  import opened Literals
  import opened Json
  import opened JsonParser
  import opened JsonRoundTrip

  /** The bytes parse_number looks at. */
  const NUMBER_ROOM: nat := 63

  /** The longest number text that starts at `i` and fits the room, with its value. */
  ghost predicate NumberToken(c: bytes, i: nat, j: nat, x: real) {
    && i < j <= |c| && j - i <= NUMBER_ROOM && (c[i] == MINUS || IsDigit(c[i]))
    && Worth(c[i..j], x)
    && forall m: nat :: j < m <= |c| && m - i <= NUMBER_ROOM ==> !NumberText(c[i..m])
  }

  /** A string literal; the value is the C string in what it denotes. */
  ghost predicate TextToken(c: bytes, i: nat, j: nat, text: bytes) {
    exists s :: Denotes(c, i, j, s) && CString(s) == text
  }

  /** Literal names, numbers, and string literals. */
  ghost predicate Token(c: bytes, i: nat, j: nat, v: Value)
    requires Terminated(c) && i < |c|
  {
    match v
    case Null => At(c, i, NULL_TEXT) && j == i + |NULL_TEXT|
    case False => At(c, i, FALSE_TEXT) && j == i + |FALSE_TEXT|
    case True => At(c, i, TRUE_TEXT) && j == i + |TRUE_TEXT|
    case Number(x) => NumberToken(c, i, j, x)
    case Text(text) => TextToken(c, i, j, text)
    case _ => false
  }

  /** c[i..j] is a text of `v`, inside `depth` open containers. */
  ghost predicate Derives(c: bytes, i: nat, j: nat, v: Value, depth: nat)
    requires Terminated(c)
    decreases v, 1
  {
    && i < j < |c|
    && match v
       case Array(items) =>
         && Enclosed(c, i, j, LBRACKET, RBRACKET) && depth < NESTING_LIMIT
         && if items == [] then Blank(c, i + 1, j - 1) else DerivesItems(c, i + 1, j - 1, items, depth + 1)
       case Object(members) =>
         && Enclosed(c, i, j, LBRACE, RBRACE) && depth < NESTING_LIMIT
         && if members == [] then Blank(c, i + 1, j - 1) else DerivesMembers(c, i + 1, j - 1, members, depth + 1)
       case _ => Token(c, i, j, v)
  }

  predicate Enclosed(c: bytes, i: nat, j: nat, open: byte, close: byte) {
    i + 1 < j < |c| && c[i] == open && c[j - 1] == close
  }

  /** c[i..j] is blanks, a value at p..q, blanks, and, unless it is the last, a comma at r and the rest. */
  ghost predicate DerivesItems(c: bytes, i: nat, j: nat, items: seq<Value>, depth: nat)
    requires Terminated(c)
    decreases items, 1
  {
    items != [] &&
    exists p: nat, q: nat, r: nat :: DerivesFirst(c, i, p, q, r, j, items, depth)
  }

  ghost predicate DerivesFirst(c: bytes, i: nat, p: nat, q: nat, r: nat, j: nat, items: seq<Value>, depth: nat)
    requires Terminated(c) && items != []
    decreases items, 0
  {
    && Blank(c, i, p) && Derives(c, p, q, items[0], depth) && Blank(c, q, r)
    && if |items| == 1 then r == j else Follows(c, r, j) && DerivesItems(c, r + 1, j, items[1..], depth)
  }

  /** A comma with something behind it. */
  predicate Follows(c: bytes, r: nat, j: nat) { r < j < |c| && c[r] == COMMA }

  ghost predicate DerivesMembers(c: bytes, i: nat, j: nat, members: seq<Member>, depth: nat)
    requires Terminated(c)
    decreases members, 1
  {
    members != [] &&
    exists k: nat, p: nat, q: nat, r: nat :: DerivesMember(c, i, k, p, q, r, j, members, depth)
  }

  /** The same for a member whose name starts at k, and its value at p. */
  ghost predicate DerivesMember(c: bytes, i: nat, k: nat, p: nat, q: nat, r: nat, j: nat, members: seq<Member>,
                                depth: nat)
    requires Terminated(c) && members != []
    decreases members, 0
  {
    && Blank(c, i, k) && Names(c, k, members[0].key, p)
    && Derives(c, p, q, members[0].value, depth) && Blank(c, q, r)
    && if |members| == 1 then r == j else Follows(c, r, j) && DerivesMembers(c, r + 1, j, members[1..], depth)
  }

  /** A string literal for the name at k, a colon, and blanks up to p. */
  ghost predicate Names(c: bytes, k: nat, key: bytes, p: nat) {
    exists e: nat, l: nat :: NameEnds(c, k, e, l, key, p)
  }

  /** The same, with the literal ending at e and the colon at l. */
  ghost predicate NameEnds(c: bytes, k: nat, e: nat, l: nat, key: bytes, p: nat) {
    k < |c| && c[k] == QUOTE && TextToken(c, k, e, key) && e < |c| && ColonBetween(c, e, l, p)
  }

  predicate ColonBetween(c: bytes, i: nat, l: nat, p: nat) {
    Blank(c, i, l) && l < |c| && c[l] == COLON && Blank(c, l + 1, p) && p < |c|
  }

  // ----- What is parsed is derivable

  lemma SkippedBlank(c: bytes, o: nat)
    requires Terminated(c) && o < |c|
    ensures Blank(c, o, SkipBlanks(c, o))
  {
  }

  lemma {:induction false} ParseDerives(c: bytes, o: nat, depth: nat)
    requires Terminated(c) && o < |c| && Parse(c, o, depth).Parsed?
    ensures Derives(c, o, Parse(c, o, depth).offset, Parse(c, o, depth).value, depth)
    decreases |c| - o, 2
  {
    hide Token, Parse, DerivesItems, DerivesMembers, ParseItems, ParseMembers;
    if c[o] == LBRACKET {
      ArrayStep(c, o, depth);
      SkippedBlank(c, o + 1);
      if c[SkipBlanks(c, o + 1)] != RBRACKET { ItemsDerive(c, o, depth + 1); }
    } else if c[o] == LBRACE {
      ObjectStep(c, o, depth);
      SkippedBlank(c, o + 1);
      if c[SkipBlanks(c, o + 1)] != RBRACE { MembersDerive(c, o, depth + 1); }
    } else {
      TokenDerives(c, o, depth);
    }
  }

  lemma TokenDerives(c: bytes, o: nat, depth: nat)
    requires Terminated(c) && o < |c| && Parse(c, o, depth).Parsed? && c[o] != LBRACKET && c[o] != LBRACE
    ensures var v := Parse(c, o, depth).value;
            !v.Array? && !v.Object? && Token(c, o, Parse(c, o, depth).offset, v)
  {
    hide ReadString, CString, ParseNumber, NumberToken, TextToken;
    if ParseName(c, o).Failed? {
      if c[o] == QUOTE {
        TextTokenIff(c, o, Parse(c, o, depth).offset, Parse(c, o, depth).value);
      } else {
        NumberTokenIff(c, o, Parse(c, o, depth).offset, Parse(c, o, depth).value);
      }
    }
  }

  lemma TextTokenIff(c: bytes, i: nat, j: nat, v: Value)
    requires Terminated(c) && i < |c|
    ensures ParseText(c, i) == Parsed(v, j) <==> v.Text? && TextToken(c, i, j, v.text)
  {
    hide ReadString, Denotes, CString;
    if ReadString(c, i).StringRead? { ReadsIffDenotes(c, i, ReadString(c, i).text, ReadString(c, i).offset); }
    if v.Text? && TextToken(c, i, j, v.text) {
      var s :| Denotes(c, i, j, s) && CString(s) == v.text;
      ReadsIffDenotes(c, i, s, j);
    }
  }

  lemma NumberTokenIff(c: bytes, i: nat, j: nat, v: Value)
    requires Terminated(c) && i < |c| && (c[i] == MINUS || IsDigit(c[i]))
    ensures ParseNumber(c, i) == Parsed(v, j) <==> v.Number? && NumberToken(c, i, j, v.number)
  {
    hide Strtod, NumberText, Worth, NumberByte, Span;
    if v.Number? && i < j <= |c| { ConvertsIffWorth(c[i..j], v.number); }
    var n := Span(c, i, NUMBER_ROOM);
    var w := c[i..i + n];
    forall m: nat | i <= m <= |c| && m - i <= NUMBER_ROOM && NumberText(c[i..m])
      ensures m <= i + n && c[i..m] == w[..m - i]
    {
      TokenInSpan(c, i, m);
    }
    forall m: nat | i <= m <= i + n ensures c[i..m] == w[..m - i] {}
    var k := Strtod(w).length;
    StrtodIsLongest(w, k);
    if k > 0 { StrtodPrefix(w); }
    if v.Number? && NumberToken(c, i, j, v.number) {
      WorthIsText(c[i..j], v.number);
      assert c[i..j] == w[..j - i];
      forall m: nat | j - i < m <= |w| ensures !NumberText(w[..m]) { assert c[i..i + m] == w[..m]; }
      StrtodIsLongest(w, j - i);
    }
  }

  /** The bytes of a number text are those parse_number collects. */
  lemma TokenInSpan(c: bytes, i: nat, m: nat)
    requires i <= m <= |c| && m - i <= NUMBER_ROOM && NumberText(c[i..m])
    ensures m <= i + Span(c, i, NUMBER_ROOM)
  {
    hide NumberText, Span, NumberByte;
    NumberTextBytes(c[i..m]);
    forall k | i <= k < m ensures NumberByte(c[k]) { assert c[i..m][k - i] == c[k]; }
  }

  lemma {:induction false} ItemsDerive(c: bytes, o: nat, depth: nat)
    requires Terminated(c) && o < |c| && c[o] != NUL && ParseItems(c, o, depth).Items?
    ensures ParseItems(c, o, depth).items != []
    ensures DerivesItems(c, o + 1, ParseItems(c, o, depth).offset, ParseItems(c, o, depth).items, depth)
    decreases |c| - o, 0
  {
    hide Parse, SkipBlanks, Derives;
    var p := SkipBlanks(c, o + 1);
    SkippedBlank(c, o + 1);
    ParseDerives(c, p, depth);
    var v, q := Parse(c, p, depth).value, Parse(c, p, depth).offset;
    SkippedBlank(c, q);
    var r := SkipBlanks(c, q);
    var all := ParseItems(c, o, depth);
    if c[r] == COMMA {
      ItemsDerive(c, r, depth);
      assert all.items[1..] == ParseItems(c, r, depth).items;
    }
    assert DerivesFirst(c, o + 1, p, q, r, all.offset, all.items, depth);
  }

  lemma {:induction false} MembersDerive(c: bytes, o: nat, depth: nat)
    requires Terminated(c) && o < |c| && c[o] != NUL && ParseMembers(c, o, depth).Members?
    ensures ParseMembers(c, o, depth).members != []
    ensures DerivesMembers(c, o + 1, ParseMembers(c, o, depth).offset, ParseMembers(c, o, depth).members, depth)
    decreases |c| - o, 0
  {
    hide Parse, SkipBlanks, Derives, ReadString, CString, Names, Blank;
    var k := SkipBlanks(c, o + 1);
    SkippedBlank(c, o + 1);
    var end := ReadString(c, k).offset;
    var l := SkipBlanks(c, end);
    var p := SkipBlanks(c, l + 1);
    NameDerives(c, k);
    ParseDerives(c, p, depth);
    var q := Parse(c, p, depth).offset;
    SkippedBlank(c, q);
    var r := SkipBlanks(c, q);
    var all := ParseMembers(c, o, depth);
    if c[r] == COMMA {
      MembersDerive(c, r, depth);
      assert all.members[1..] == ParseMembers(c, r, depth).members;
    }
    assert DerivesMember(c, o + 1, k, p, q, r, all.offset, all.members, depth);
  }

  lemma NameDerives(c: bytes, k: nat)
    requires Terminated(c) && k < |c| && ReadString(c, k).StringRead? &&
             c[SkipBlanks(c, ReadString(c, k).offset)] == COLON
    ensures var l := SkipBlanks(c, ReadString(c, k).offset);
            l + 1 < |c| && Names(c, k, CString(ReadString(c, k).text), SkipBlanks(c, l + 1))
  {
    hide SkipBlanks, ReadString, CString, Denotes;
    QuoteStarts(c, k);
    var end := ReadString(c, k).offset;
    ReadsIffDenotes(c, k, ReadString(c, k).text, end);
    SkippedBlank(c, end);
    var l := SkipBlanks(c, end);
    SkippedBlank(c, l + 1);
    assert NameEnds(c, k, end, l, CString(ReadString(c, k).text), SkipBlanks(c, l + 1));
  }

  lemma QuoteStarts(c: bytes, k: nat)
    requires Terminated(c) && k < |c| && ReadString(c, k).StringRead?
    ensures c[k] == QUOTE
  {
  }

  // ----- What is derivable is parsed

  /** A value starts with a byte that is neither blank nor a separator nor a closing bracket. */
  lemma DerivesStart(c: bytes, i: nat, j: nat, v: Value, depth: nat)
    requires Terminated(c) && Derives(c, i, j, v, depth)
    ensures Opens(c[i])
  {
    hide DerivesItems, DerivesMembers, TextToken, NumberText;
    match v
    case Null => AtIndex(c, i, NULL_TEXT, 0);
    case False => AtIndex(c, i, FALSE_TEXT, 0);
    case True => AtIndex(c, i, TRUE_TEXT, 0);
    case Text(text) => TextStarts(c, i, j, text);
    case _ =>
  }

  lemma TokenParses(c: bytes, i: nat, j: nat, v: Value, depth: nat)
    requires Terminated(c) && i < |c| && Token(c, i, j, v)
    ensures Parse(c, i, depth) == Parsed(v, j)
  {
    hide Denotes, CString, ParseText, ParseNumber, ParseName, NumberText;
    match v {
      case Null => NameRoundTrip(c, i, v, depth);
      case False => NameRoundTrip(c, i, v, depth);
      case True => NameRoundTrip(c, i, v, depth);
      case Number(_) =>
        NumberTokenIff(c, i, j, v);
        NameIsNot(c, i);
      case Text(_) =>
        TextTokenIff(c, i, j, v);
        TextStarts(c, i, j, v.text);
        NameIsNot(c, i);
    }
  }

  lemma TextStarts(c: bytes, i: nat, j: nat, text: bytes)
    requires TextToken(c, i, j, text)
    ensures i < j <= |c| && c[i] == QUOTE
  {
    hide Closed, Writes, Meaning;
  }

  lemma {:induction false} DerivesParses(c: bytes, i: nat, j: nat, v: Value, depth: nat)
    requires Terminated(c) && Derives(c, i, j, v, depth)
    ensures Parse(c, i, depth) == Parsed(v, j)
    decreases v, 1
  {
    hide ReadString, CString, Token, Parse, DerivesItems, DerivesMembers, ParseItems, ParseMembers, SkipBlanks;
    match v {
      case Array(items) =>
        ArrayStep(c, i, depth);
        if items == [] {
          SkipTo(c, i + 1, j - 1);
        } else {
          ItemsStartOpen(c, i + 1, j - 1, items, depth + 1);
          ItemsParse(c, i, j - 1, items, depth + 1);
        }
      case Object(members) =>
        ObjectStep(c, i, depth);
        if members == [] {
          SkipTo(c, i + 1, j - 1);
        } else {
          MembersStartOpen(c, i + 1, j - 1, members, depth + 1);
          MembersParse(c, i, j - 1, members, depth + 1);
        }
      case _ => TokenParses(c, i, j, v, depth);
    }
  }

  lemma ItemsStartOpen(c: bytes, i: nat, j: nat, items: seq<Value>, depth: nat)
    requires Terminated(c) && i < |c| && DerivesItems(c, i, j, items, depth)
    ensures c[SkipBlanks(c, i)] != RBRACKET
  {
    hide Derives, SkipBlanks;
    var p: nat, q: nat, r: nat :| DerivesFirst(c, i, p, q, r, j, items, depth);
    DerivesStart(c, p, q, items[0], depth);
    assert p < |c| by { DerivesInside(c, p, q, items[0], depth); }
    SkipTo(c, i, p);
  }

  lemma DerivesInside(c: bytes, i: nat, j: nat, v: Value, depth: nat)
    requires Terminated(c) && Derives(c, i, j, v, depth)
    ensures i < j < |c|
  {
  }

  lemma MembersStartOpen(c: bytes, i: nat, j: nat, members: seq<Member>, depth: nat)
    requires Terminated(c) && i < |c| && DerivesMembers(c, i, j, members, depth)
    ensures c[SkipBlanks(c, i)] != RBRACE
  {
    hide Derives, SkipBlanks, ReadString;
    var k: nat, p: nat, q: nat, r: nat :| DerivesMember(c, i, k, p, q, r, j, members, depth);
    SkipTo(c, i, k);
  }

  lemma {:induction false} ItemsParse(c: bytes, o: nat, j: nat, items: seq<Value>, depth: nat)
    requires Terminated(c) && o < j < |c| && c[o] != NUL && DerivesItems(c, o + 1, j, items, depth)
    requires c[j] > SPACE && c[j] != COMMA
    ensures ParseItems(c, o, depth) == Items(items, j)
    decreases items, 0
  {
    hide Derives, SkipBlanks, Parse;
    var p: nat, q: nat, r: nat :| DerivesFirst(c, o + 1, p, q, r, j, items, depth);
    DerivesInside(c, p, q, items[0], depth);
    DerivesStart(c, p, q, items[0], depth);
    DerivesParses(c, p, q, items[0], depth);
    SkipTo(c, o + 1, p);
    SkipTo(c, q, r);
    if |items| > 1 {
      ItemsParse(c, r, j, items[1..], depth);
      assert items == [items[0]] + items[1..];
    } else {
      assert items == [items[0]];
    }
  }

  lemma {:induction false} MembersParse(c: bytes, o: nat, j: nat, members: seq<Member>, depth: nat)
    requires Terminated(c) && o < j < |c| && c[o] != NUL && DerivesMembers(c, o + 1, j, members, depth)
    requires c[j] > SPACE && c[j] != COMMA
    ensures ParseMembers(c, o, depth) == Members(members, j)
    decreases members, 0
  {
    hide Derives, SkipBlanks, Parse, ReadString, CString, Names, ParseMembers, Blank;
    var k: nat, p: nat, q: nat, r: nat :| DerivesMember(c, o + 1, k, p, q, r, j, members, depth);
    DerivesInside(c, p, q, members[0].value, depth);
    DerivesStart(c, p, q, members[0].value, depth);
    DerivesParses(c, p, q, members[0].value, depth);
    MemberParses(c, o, k, p, q, r, members[0], depth);
    if |members| > 1 {
      MembersParse(c, r, j, members[1..], depth);
      assert members == [members[0]] + members[1..];
    } else {
      assert members == [members[0]];
    }
  }

  /** One turn of the member loop. */
  lemma MemberParses(c: bytes, o: nat, k: nat, p: nat, q: nat, r: nat, m: Member, depth: nat)
    requires Terminated(c) && o + 1 < |c| && c[o] != NUL && Blank(c, o + 1, k) && Names(c, k, m.key, p)
    requires p < |c| && c[p] > SPACE && Parse(c, p, depth) == Parsed(m.value, q)
    requires q < |c| && Blank(c, q, r) && r < |c| && c[r] > SPACE
    ensures ParseMembers(c, o, depth) ==
            if c[r] == COMMA then ParseMembers(c, r, depth).Prepend([m]) else Members([m], r)
  {
    hide SkipBlanks, Parse, ReadString, CString, Names, Blank;
    NameParses(c, k, m.key, p);
    SkipTo(c, o + 1, k);
    SkipTo(c, q, r);
  }

  lemma NameParses(c: bytes, k: nat, key: bytes, p: nat)
    requires Terminated(c) && p < |c| && c[p] > SPACE && Names(c, k, key, p)
    ensures k < |c| && c[k] == QUOTE && ReadString(c, k).StringRead? && CString(ReadString(c, k).text) == key
    ensures var end := ReadString(c, k).offset;
            end < |c| && c[SkipBlanks(c, end)] == COLON && SkipBlanks(c, end) + 1 < |c| &&
            SkipBlanks(c, SkipBlanks(c, end) + 1) == p
  {
    hide SkipBlanks, ReadString, CString, Denotes;
    var end: nat, l: nat :| NameEnds(c, k, end, l, key, p);
    var s :| Denotes(c, k, end, s) && CString(s) == key;
    ReadsIffDenotes(c, k, s, end);
    SkipTo(c, end, l);
    SkipTo(c, l + 1, p);
  }
}
