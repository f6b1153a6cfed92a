/** Where parsing stops: the positions at which a text leaves the grammar, as a relation, and the parser as
    the procedure that finds them. */
module JsonErrors {
  import opened Bytes
  import opened Numbers
  import opened NumberTexts
  import opened StringCodec
  import opened LiteralErrors
  import opened Json
  import opened JsonParser
  import opened JsonDocument
  import opened JsonGrammar
  import opened JsonAcceptance

  predicate Named(c: bytes, i: nat) {
    At(c, i, Ascii("null")) || At(c, i, Ascii("false")) || At(c, i, Ascii("true"))
  }

  /** No number text starts at i. */
  ghost predicate NoNumber(c: bytes, i: nat) {
    forall m: nat :: i < m <= |c| && m - i <= 63 ==> !NumberText(c[i..m])
  }

  /** Behind the bracket or brace at o there is nothing but blanks before `close`. */
  ghost predicate Empty(c: bytes, o: nat, close: byte) {
    exists p: nat :: EmptyUpTo(c, o, p, close)
  }

  predicate EmptyUpTo(c: bytes, o: nat, p: nat, close: byte) { Passes(c, o + 1, p) && c[p] == close }

  /** No value can be read at i, inside `depth` open containers, and `at` is where that shows. */
  ghost predicate Stuck(c: bytes, i: nat, at: nat, depth: nat)
    requires Terminated(c)
    decreases |c| - i, 2
  {
    && i < |c| && !Named(c, i)
    && if c[i] == QUOTE then TextStuck(c, i, at)
       else if c[i] == MINUS || IsDigit(c[i]) then at == i && NoNumber(c, i)
       else if c[i] == LBRACKET && depth < 1000 then !Empty(c, i, RBRACKET) && ItemsStuck(c, i, at, depth + 1)
       else if c[i] == LBRACE && depth < 1000 then !Empty(c, i, RBRACE) && MembersStuck(c, i, at, depth + 1)
       else at == i
  }

  /** The elements behind the bracket or comma at o go wrong. */
  ghost predicate ItemsStuck(c: bytes, o: nat, at: nat, depth: nat)
    requires Terminated(c)
    decreases |c| - o, 1
  {
    exists p: nat :: o < p && Passes(c, o + 1, p) && ItemStuck(c, p, at, depth)
  }

  /** The element at p goes wrong, or what is behind it. */
  ghost predicate ItemStuck(c: bytes, p: nat, at: nat, depth: nat)
    requires Terminated(c)
    decreases |c| - p, 3
  {
    || Stuck(c, p, at, depth)
    || exists v: Value, q: nat, r: nat ::
         && ValueFollows(c, p, v, q, r, depth) && p < r < |c|
         && if c[r] == COMMA then ItemsStuck(c, r, at, depth) else c[r] != RBRACKET && at == r
  }

  /** A value from p to q, and blanks up to r. */
  ghost predicate ValueFollows(c: bytes, p: nat, v: Value, q: nat, r: nat, depth: nat)
    requires Terminated(c)
  {
    Derives(c, p, q, v, depth) && Passes(c, q, r)
  }

  /** The members behind the brace or comma at o go wrong. */
  ghost predicate MembersStuck(c: bytes, o: nat, at: nat, depth: nat)
    requires Terminated(c)
    decreases |c| - o, 1
  {
    exists k: nat :: o < k && Passes(c, o + 1, k) && MemberStuck(c, k, at, depth)
  }

  /** The name at k goes wrong, or the colon behind it is missing, or what is behind the colon goes wrong. */
  ghost predicate MemberStuck(c: bytes, k: nat, at: nat, depth: nat)
    requires Terminated(c)
    decreases |c| - k, 4
  {
    || TextStuck(c, k, at)
    || exists key: bytes, e: nat, l: nat ::
         && NameFollows(c, k, key, e, l) && k < l < |c|
         && if c[l] == COLON then ColonStuck(c, l, at, depth) else at == l
  }

  ghost predicate ColonStuck(c: bytes, l: nat, at: nat, depth: nat)
    requires Terminated(c)
    decreases |c| - l, 4
  {
    exists p: nat :: l < p && Passes(c, l + 1, p) && MemberValueStuck(c, p, at, depth)
  }

  /** A name from k to e, and blanks up to l. */
  ghost predicate NameFollows(c: bytes, k: nat, key: bytes, e: nat, l: nat) {
    TextToken(c, k, e, key) && Passes(c, e, l)
  }

  ghost predicate MemberValueStuck(c: bytes, p: nat, at: nat, depth: nat)
    requires Terminated(c)
    decreases |c| - p, 3
  {
    || Stuck(c, p, at, depth)
    || exists v: Value, q: nat, r: nat ::
         && ValueFollows(c, p, v, q, r, depth) && p < r < |c|
         && if c[r] == COMMA then MembersStuck(c, r, at, depth) else c[r] != RBRACE && at == r
  }

  // ----- The parser finds these positions

  /** What parsing the elements behind o, up to a closing bracket, ends in when it fails. */
  predicate ItemsFail(c: bytes, o: nat, at: nat, depth: nat)
    requires Terminated(c) && o < |c| && c[o] != NUL
  {
    var r := ParseItems(c, o, depth);
    r == NoItems(at) || (r.Items? && c[r.offset] != RBRACKET && r.offset == at)
  }

  predicate MembersFail(c: bytes, o: nat, at: nat, depth: nat)
    requires Terminated(c) && o < |c| && c[o] != NUL
  {
    var r := ParseMembers(c, o, depth);
    r == NoMembers(at) || (r.Members? && c[r.offset] != RBRACE && r.offset == at)
  }

  lemma EmptyIff(c: bytes, o: nat, close: byte)
    requires Terminated(c) && o < |c| && c[o] != NUL
    ensures o + 1 < |c| && (Empty(c, o, close) <==> c[SkipBlanks(c, o + 1)] == close)
  {
    hide SkipBlanks, Passes;
    PassesOnly(c, o + 1);
    if c[SkipBlanks(c, o + 1)] == close { assert EmptyUpTo(c, o, SkipBlanks(c, o + 1), close); }
  }

  lemma NoNumberIff(c: bytes, i: nat, depth: nat)
    requires Terminated(c) && i < |c| && (c[i] == MINUS || IsDigit(c[i]))
    ensures ParseNumber(c, i).Failed? <==> NoNumber(c, i)
    ensures ParseNumber(c, i).Failed? ==> ParseNumber(c, i) == Failed(i)
  {
    hide Strtod, NumberText, Span;
    var n := Span(c, i, 63);
    var w := c[i..i + n];
    var k := Strtod(w).length;
    StrtodIsLongest(w, k);
    if k > 0 {
      assert c[i..i + k] == w[..k];
    } else {
      forall m: nat | i < m <= |c| && m - i <= 63 ensures !NumberText(c[i..m]) {
        if m <= i + n { assert c[i..m] == w[..m - i]; }
        if NumberText(c[i..m]) { TokenInSpan(c, i, m); }
      }
    }
  }

  lemma NamedIff(c: bytes, i: nat)
    requires Terminated(c) && i < |c|
    ensures ParseName(c, i).Failed? <==> !Named(c, i)
    ensures ParseName(c, i).Failed? ==> ParseName(c, i) == Failed(i)
  {
    assert NULL_TEXT == Ascii("null") && FALSE_TEXT == Ascii("false") && TRUE_TEXT == Ascii("true");
  }

  lemma {:induction false} StuckIff(c: bytes, i: nat, at: nat, depth: nat)
    requires Terminated(c) && i < |c|
    ensures Parse(c, i, depth) == Failed(at) <==> Stuck(c, i, at, depth)
    decreases |c| - i, 2
  {
    hide ReadString, TextStuck, CString, ParseNumber, NoNumber, Named, ParseName, Empty, ItemsStuck, MembersStuck,
         ParseItems, ParseMembers, SkipBlanks;
    NamedIff(c, i);
    if ParseName(c, i).Failed? {
      if c[i] == QUOTE {
        StringFailsIff(c, i, at);
      } else if c[i] == MINUS || IsDigit(c[i]) {
        NoNumberIff(c, i, depth);
      } else if c[i] == LBRACKET && depth < 1000 {
        EmptyIff(c, i, RBRACKET);
        ItemsStuckIff(c, i, at, depth + 1);
      } else if c[i] == LBRACE && depth < 1000 {
        EmptyIff(c, i, RBRACE);
        MembersStuckIff(c, i, at, depth + 1);
      }
    }
  }

  lemma {:induction false} ItemsStuckIff(c: bytes, o: nat, at: nat, depth: nat)
    requires Terminated(c) && o < |c| && c[o] != NUL
    ensures ItemsFail(c, o, at, depth) <==> ItemsStuck(c, o, at, depth)
    decreases |c| - o, 1
  {
    hide SkipBlanks, Passes, Stuck, ItemStuck, Parse, Derives;
    NotLast(c, o);
    var p := SkipBlanks(c, o + 1);
    PassesOnly(c, o + 1);
    ItemStuckIff(c, o, p, at, depth);
  }

  /** One turn of the element loop. */
  lemma ItemsFailStep(c: bytes, o: nat, at: nat, depth: nat)
    requires Terminated(c) && o + 1 < |c| && c[o] != NUL
    ensures ItemsFail(c, o, at, depth) <==> TurnFails(c, Parse(c, SkipBlanks(c, o + 1), depth), at, depth)
  {
    hide SkipBlanks, Parse;
  }

  predicate TurnFails(c: bytes, first: Parsed, at: nat, depth: nat)
    requires Terminated(c) && (first.Parsed? ==> first.offset < |c|)
  {
    if first.Failed? then first.offset == at
    else
      var r := SkipBlanks(c, first.offset);
      if c[r] == COMMA then ItemsFail(c, r, at, depth) else c[r] != RBRACKET && r == at
  }

  lemma {:induction false} ItemStuckIff(c: bytes, o: nat, p: nat, at: nat, depth: nat)
    requires Terminated(c) && o + 1 < |c| && c[o] != NUL && p == SkipBlanks(c, o + 1)
    ensures ItemsFail(c, o, at, depth) <==> ItemStuck(c, p, at, depth)
    decreases |c| - p, 3
  {
    hide SkipBlanks, Passes, Stuck, Parse, Derives, ItemsStuck, ItemsFail;
    ItemsFailStep(c, o, at, depth);
    StuckIff(c, p, at, depth);
    var first := Parse(c, p, depth);
    if first.Parsed? {
      var r := SkipBlanks(c, first.offset);
      FollowsIff(c, p, depth);
      assert ValueFollows(c, p, first.value, first.offset, r, depth);
      if c[r] == COMMA { ItemsStuckIff(c, r, at, depth); }
    } else {
      NothingFollows(c, p, depth);
    }
  }

  lemma FollowsIff(c: bytes, p: nat, depth: nat)
    requires Terminated(c) && p < |c| && Parse(c, p, depth).Parsed?
    ensures var first := Parse(c, p, depth);
            forall v: Value, q: nat, r: nat ::
              ValueFollows(c, p, v, q, r, depth) <==> first == Parsed(v, q) && r == SkipBlanks(c, q)
  {
    hide SkipBlanks, Passes, Parse, Derives;
    forall v: Value, q: nat, r: nat
      ensures ValueFollows(c, p, v, q, r, depth) <==> Parse(c, p, depth) == Parsed(v, q) && r == SkipBlanks(c, q)
    {
      ParsesIffDerives(c, p, q, v, depth);
      if Parse(c, p, depth) == Parsed(v, q) { PassesIff(c, q, r); }
    }
  }

  lemma NothingFollows(c: bytes, p: nat, depth: nat)
    requires Terminated(c) && p < |c| && Parse(c, p, depth).Failed?
    ensures forall v: Value, q: nat, r: nat :: !ValueFollows(c, p, v, q, r, depth)
  {
    hide SkipBlanks, Passes, Parse, Derives;
    forall v: Value, q: nat, r: nat ensures !ValueFollows(c, p, v, q, r, depth) { ParsesIffDerives(c, p, q, v, depth); }
  }

  lemma {:induction false} MembersStuckIff(c: bytes, o: nat, at: nat, depth: nat)
    requires Terminated(c) && o < |c| && c[o] != NUL
    ensures MembersFail(c, o, at, depth) <==> MembersStuck(c, o, at, depth)
    decreases |c| - o, 1
  {
    hide SkipBlanks, Passes, Stuck, MemberStuck, Parse, Derives, ReadString;
    NotLast(c, o);
    var k := SkipBlanks(c, o + 1);
    PassesOnly(c, o + 1);
    MemberStuckIff(c, o, k, at, depth);
  }

  lemma {:induction false} MemberStuckIff(c: bytes, o: nat, k: nat, at: nat, depth: nat)
    requires Terminated(c) && o + 1 < |c| && c[o] != NUL && k == SkipBlanks(c, o + 1)
    ensures MembersFail(c, o, at, depth) <==> MemberStuck(c, k, at, depth)
    decreases |c| - k, 4
  {
    hide SkipBlanks, Passes, Stuck, Parse, Derives, MembersStuck, ColonStuck, TextStuck, ReadString, CString,
         MembersFail, ValueFails;
    MembersFailStep(c, o, at, depth);
    StringFailsIff(c, k, at);
    NameFollowsIff(c, k);
    var name := ReadString(c, k);
    if name.StringRead? {
      NotAtEnd(c, name.offset);
      var l := SkipBlanks(c, name.offset);
      assert NameFollows(c, k, CString(name.text), name.offset, l);
      if c[l] == COLON { ColonStuckIff(c, l, at, depth); }
    }
  }

  lemma {:induction false} ColonStuckIff(c: bytes, l: nat, at: nat, depth: nat)
    requires Terminated(c) && l + 1 < |c|
    ensures ValueFails(c, Parse(c, SkipBlanks(c, l + 1), depth), at, depth) <==> ColonStuck(c, l, at, depth)
    decreases |c| - l, 3
  {
    hide SkipBlanks, Passes, Parse, MemberValueStuck, ValueFails;
    PassesOnly(c, l + 1);
    MemberValueStuckIff(c, SkipBlanks(c, l + 1), at, depth);
  }

  /** One turn of the member loop. */
  lemma MembersFailStep(c: bytes, o: nat, at: nat, depth: nat)
    requires Terminated(c) && o + 1 < |c| && c[o] != NUL
    ensures MembersFail(c, o, at, depth) <==> MemberFails(c, SkipBlanks(c, o + 1), at, depth)
  {
    hide SkipBlanks, Parse, ReadString, CString;
  }

  predicate MemberFails(c: bytes, k: nat, at: nat, depth: nat)
    requires Terminated(c) && k < |c|
  {
    var name := ReadString(c, k);
    if name.StringFailed? then name.offset == at
    else
      NotAtEnd(c, name.offset);
      var l := SkipBlanks(c, name.offset);
      if c[l] != COLON then l == at
      else
        NotLast(c, l);
        ValueFails(c, Parse(c, SkipBlanks(c, l + 1), depth), at, depth)
  }

  predicate ValueFails(c: bytes, value: Parsed, at: nat, depth: nat)
    requires Terminated(c) && (value.Parsed? ==> value.offset < |c|)
  {
    if value.Failed? then value.offset == at
    else
      var r := SkipBlanks(c, value.offset);
      if c[r] == COMMA then MembersFail(c, r, at, depth) else c[r] != RBRACE && r == at
  }

  lemma NameFollowsIff(c: bytes, k: nat)
    requires Terminated(c) && k < |c|
    ensures forall key: bytes, e: nat, l: nat ::
              NameFollows(c, k, key, e, l) <==>
              && ReadString(c, k).StringRead? && CString(ReadString(c, k).text) == key
              && ReadString(c, k).offset == e && e < |c| && l == SkipBlanks(c, e)
  {
    hide SkipBlanks, Passes, ReadString, CString, TextToken;
    forall key: bytes, e: nat, l: nat
      ensures NameFollows(c, k, key, e, l) <==>
              && ReadString(c, k).StringRead? && CString(ReadString(c, k).text) == key
              && ReadString(c, k).offset == e && e < |c| && l == SkipBlanks(c, e)
    {
      TextTokenIff(c, k, e, Text(key));
      if e < |c| { PassesIff(c, e, l); } else { PassesInside(c, e, l); }
    }
  }

  lemma PassesInside(c: bytes, i: nat, p: nat)
    ensures Passes(c, i, p) ==> i < |c|
  {
  }

  lemma {:induction false} MemberValueStuckIff(c: bytes, p: nat, at: nat, depth: nat)
    requires Terminated(c) && p < |c|
    ensures ValueFails(c, Parse(c, p, depth), at, depth) <==> MemberValueStuck(c, p, at, depth)
    decreases |c| - p, 3
  {
    hide SkipBlanks, Passes, Stuck, Parse, Derives, MembersStuck, MembersFail;
    StuckIff(c, p, at, depth);
    var value := Parse(c, p, depth);
    if value.Parsed? {
      var r := SkipBlanks(c, value.offset);
      FollowsIff(c, p, depth);
      assert ValueFollows(c, p, value.value, value.offset, r, depth);
      if c[r] == COMMA { MembersStuckIff(c, r, at, depth); }
    } else {
      NothingFollows(c, p, depth);
    }
  }

  // ----- Documents

  /** The position of a rejected document: where its value goes wrong, but not behind the terminator, or,
      where the end is required, the first thing behind the value that is no blank. */
  ghost predicate StopsAt(c: bytes, requireEnd: bool, where: nat)
    requires Terminated(c)
  {
    exists start: nat :: Starts(c, start) &&
      (|| (exists at: nat :: Stuck(c, start, at, 0) && where == if at < |c| then at else |c| - 1)
       || (requireEnd && exists v: Value, q: nat :: ValueFollows(c, start, v, q, where, 0) && c[where] != NUL))
  }

  /** A document is rejected exactly where its text leaves the grammar. */
  lemma RejectsIff(text: bytes, requireEnd: bool, where: nat)
    requires NulFree(text)
    ensures ParseDocument(text, requireEnd) == Rejected(where) <==> StopsAt(Buffer(text), requireEnd, where)
  {
    hide Stuck, Parse, Buffer, SkipBlanks, Passes, ValueFollows;
    var c := Buffer(text);
    var start := SkipBlanks(c, SkipMark(c));
    StartIs(c);
    assert Starts(c, start);
    forall at: nat ensures Parse(c, start, 0) == Failed(at) <==> Stuck(c, start, at, 0) { StuckIff(c, start, at, 0); }
    if Parse(c, start, 0).Parsed? {
      FollowsIff(c, start, 0);
    } else {
      NothingFollows(c, start, 0);
      assert Stuck(c, start, Parse(c, start, 0).offset, 0);
    }
    if requireEnd && Parse(c, start, 0).Parsed? {
      var q := Parse(c, start, 0).offset;
      assert ValueFollows(c, start, Parse(c, start, 0).value, q, SkipBlanks(c, q), 0);
    }
  }
}
