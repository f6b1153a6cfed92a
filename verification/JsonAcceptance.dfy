/** The parser as the decision procedure of the grammar. */
module JsonAcceptance {
  import opened Bytes
  import opened Json
  import opened JsonParser
  import opened JsonRoundTrip
  import opened JsonDocument
  import opened JsonGrammar

  /** The parser accepts exactly the texts of the grammar, with exactly the tree they are texts of. */
  lemma ParsesIffDerives(c: bytes, o: nat, e: nat, v: Value, depth: nat)
    requires Terminated(c) && o < |c|
    ensures Parse(c, o, depth) == Parsed(v, e) <==> Derives(c, o, e, v, depth)
  {
    hide Derives, Parse;
    if Parse(c, o, depth) == Parsed(v, e) { ParseDerives(c, o, depth); }
    if Derives(c, o, e, v, depth) { DerivesParses(c, o, e, v, depth); }
  }

  // ----- Blanks and the byte order mark

  /** From i on the blanks go up to p, where something else or the end of the text stands. */
  predicate Passes(c: bytes, i: nat, p: nat) {
    Blank(c, i, p) && p < |c| && (c[p] > SPACE || c[p] == NUL)
  }

  lemma PassesIff(c: bytes, i: nat, p: nat)
    requires Terminated(c) && i < |c|
    ensures Passes(c, i, p) <==> p == SkipBlanks(c, i)
  {
    if Passes(c, i, p) {
      if c[p] > SPACE { SkipTo(c, i, p); } else { BlankToEnd(c, i); }
    }
  }

  lemma PassesOnly(c: bytes, i: nat)
    requires Terminated(c) && i < |c|
    ensures forall p: nat :: Passes(c, i, p) <==> p == SkipBlanks(c, i)
  {
    hide Passes, SkipBlanks;
    forall p: nat ensures Passes(c, i, p) <==> p == SkipBlanks(c, i) { PassesIff(c, i, p); }
  }

  /** A byte order mark is passed over only with at least two bytes behind it, the terminator included. */
  predicate Starts(c: bytes, start: nat) {
    Passes(c, if |c| > 4 && At(c, 0, [0xEF, 0xBB, 0xBF]) then 3 else 0, start)
  }

  lemma StartIs(c: bytes)
    requires Terminated(c)
    ensures forall start: nat :: Starts(c, start) <==> start == SkipBlanks(c, SkipMark(c))
  {
    hide SkipBlanks, Passes;
    PassesOnly(c, SkipMark(c));
  }

  // ----- Documents

  /** A whole buffer: a byte order mark that may be skipped, blanks up to `start`, a value up to `e`, and, where
      the end is required, nothing but blanks behind it. */
  ghost predicate Whole(c: bytes, start: nat, e: nat, v: Value, requireEnd: bool, end: nat)
    requires Terminated(c)
  {
    && Starts(c, start) && Derives(c, start, e, v, 0)
    && if requireEnd then end == |c| - 1 && Blank(c, e, end) else end == e
  }

  /** A document is accepted if and only if its text is one of the grammar, with that tree and end. */
  lemma AcceptsIff(text: bytes, requireEnd: bool, v: Value, end: nat)
    requires NulFree(text)
    ensures ParseDocument(text, requireEnd) == Document(v, end) <==>
            exists start: nat, e: nat :: Whole(Buffer(text), start, e, v, requireEnd, end)
  {
    hide Derives, Parse, Buffer, SkipMark, SkipBlanks, Starts;
    var c := Buffer(text);
    var start := SkipBlanks(c, SkipMark(c));
    StartIs(c);
    if ParseDocument(text, requireEnd) == Document(v, end) {
      var e := Parse(c, start, 0).offset;
      ParsesIffDerives(c, start, e, v, 0);
      SkippedBlank(c, e);
      assert Whole(c, start, e, v, requireEnd, end);
    }
    if start': nat, e: nat :| Whole(c, start', e, v, requireEnd, end) {
      ParsesIffDerives(c, start, e, v, 0);
      DerivesInside(c, start, e, v, 0);
      if requireEnd { BlankToEnd(c, e); }
    }
  }

  lemma BlankToEnd(c: bytes, e: nat)
    requires Terminated(c) && e < |c| && Blank(c, e, |c| - 1)
    ensures SkipBlanks(c, e) == |c| - 1
  {
  }
}
