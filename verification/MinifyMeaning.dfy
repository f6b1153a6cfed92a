/** What cJSON_Minify keeps of a text, as a relation: the parts a text is made of, and which of them stay. */
module MinifyMeaning {
  import opened Bytes
  import opened Minify

  /** A byte that stays, a blank, a comment of either kind, a string literal, and a slash that opens no
      comment. What is not closed runs to the end of the text. */
  datatype Part =
    | Solid(symbol: byte)
    | Blank(symbol: byte)
    | Line(text: bytes, closed: bool)
    | Block(text: bytes, closed: bool)
    | Literal(text: bytes, closed: bool)
    | Slash

  const BLANKS: bytes := Ascii(" \t\r\n")

  function Spelling(p: Part): (t: bytes)
    ensures t != []
  {
    match p
    case Solid(b) => [b]
    case Blank(b) => [b]
    case Line(text, closed) => Ascii("//") + text + if closed then Ascii("\n") else []
    case Block(text, closed) => Ascii("/*") + text + if closed then Ascii("*/") else []
    case Literal(text, closed) => Ascii("\"") + text + if closed then Ascii("\"") else []
    case Slash => Ascii("/")
  }

  /** A literal is closed by the first quotation mark that has no backslash right before it. */
  predicate Unquoted(text: bytes) {
    forall k :: 0 <= k < |text| && text[k] == QUOTE ==> k > 0 && text[k - 1] == BACKSLASH
  }

  /** A block comment is closed by the first star with a slash right behind it. */
  predicate Unstarred(text: bytes) {
    forall k :: 0 <= k < |text| - 1 && text[k] == STAR ==> text[k + 1] != SLASH
  }

  /** The part is spelled as it should be, seen from what follows it. */
  predicate Fits(p: Part, rest: bytes) {
    match p
    case Solid(b) => b !in BLANKS && b != QUOTE && b != SLASH
    case Blank(b) => b in BLANKS
    case Line(text, closed) => NEWLINE !in text && (closed || rest == [])
    case Block(text, closed) => Unstarred(text) && (closed || rest == [])
    case Literal(text, closed) =>
      Unquoted(text) && if closed then text == [] || text[|text| - 1] != BACKSLASH else rest == []
    case Slash => rest == [] || (rest[0] != SLASH && rest[0] != STAR)
  }

  function Text(ps: seq<Part>): bytes {
    if ps == [] then [] else Spelling(ps[0]) + Text(ps[1..])
  }

  predicate Proper(ps: seq<Part>) {
    ps == [] || (Fits(ps[0], Text(ps[1..])) && Proper(ps[1..]))
  }

  /** Solid bytes and literals stay, in order and unchanged. */
  function Kept(ps: seq<Part>): bytes {
    if ps == [] then []
    else (if ps[0].Solid? || ps[0].Literal? then Spelling(ps[0]) else []) + Kept(ps[1..])
  }

  lemma BlankIs(b: byte)
    ensures IsBlank(b) <==> b in BLANKS
  {
    var t := BLANKS;
    assert t[0] == SPACE && t[1] == TAB && t[2] == RETURN && t[3] == NEWLINE;
  }

  lemma {:induction false} LineSkipped(text: bytes, rest: bytes)
    requires NEWLINE !in text && (rest == [] || rest[0] == NEWLINE)
    ensures AfterLine(text + rest) == rest
  {
    if text == [] {
      assert text + rest == rest;
    } else {
      assert (text + rest)[1..] == text[1..] + rest;
      LineSkipped(text[1..], rest);
    }
  }

  lemma {:induction false} BlockSkipped(text: bytes, rest: bytes)
    requires Unstarred(text)
    ensures AfterBlock(text + [STAR, SLASH] + rest) == rest && AfterBlock(text) == []
  {
    var t := text + [STAR, SLASH] + rest;
    if text == [] {
      assert t[2..] == rest;
    } else {
      assert t[1..] == text[1..] + [STAR, SLASH] + rest;
      assert |text| == 1 ==> t[1] == STAR;
      BlockSkipped(text[1..], rest);
    }
  }

  /** How much of a literal's text is taken in one turn: a quotation mark together with its backslash. */
  function Turn(text: bytes): (n: nat)
    requires text != []
    ensures 0 < n <= |text|
  {
    if text[0] == BACKSLASH && |text| > 1 && text[1] == QUOTE then 2 else 1
  }

  lemma UnquotedTail(text: bytes)
    requires Unquoted(text) && text != []
    ensures Unquoted(text[Turn(text)..]) && text[0] != QUOTE
  {
  }

  lemma {:induction false} LiteralCopied(text: bytes, rest: bytes)
    requires Unquoted(text) && (text == [] || text[|text| - 1] != BACKSLASH)
    ensures Inside(text + [QUOTE] + rest) == text + [QUOTE] + Outside(rest)
    decreases |text|
  {
    hide Inside, Outside, Unquoted;
    var t := text + [QUOTE] + rest;
    LiteralByte(t, 0);
    assert t[0..] == t;
    if text == [] {
      assert t[1..] == rest;
    } else {
      UnquotedTail(text);
      var n := Turn(text);
      assert |text| > 1 ==> t[1] == text[1];
      assert t[n..] == text[n..] + [QUOTE] + rest;
      LiteralCopied(text[n..], rest);
      assert text == text[..n] + text[n..];
    }
  }

  lemma {:induction false} OpenCopied(text: bytes)
    requires Unquoted(text)
    ensures Inside(text) == text
    decreases |text|
  {
    if text != [] {
      UnquotedTail(text);
      OpenCopied(text[Turn(text)..]);
      assert text == text[..Turn(text)] + text[Turn(text)..];
    }
  }

  lemma ByteMinified(b: byte, rest: bytes)
    requires b != QUOTE && (b == SLASH ==> rest == [] || (rest[0] != SLASH && rest[0] != STAR))
    ensures Outside([b] + rest) == (if b in BLANKS || b == SLASH then [] else [b]) + Outside(rest)
  {
    BlankIs(b);
    assert ([b] + rest)[1..] == rest;
  }

  lemma LineMinified(text: bytes, closed: bool, rest: bytes)
    requires Fits(Line(text, closed), rest)
    ensures Outside(Spelling(Line(text, closed)) + rest) == Outside(rest)
  {
    var t := Spelling(Line(text, closed)) + rest;
    if closed {
      LineSkipped(text, [NEWLINE] + rest);
      assert t[2..] == text + ([NEWLINE] + rest);
      assert ([NEWLINE] + rest)[1..] == rest;
    } else {
      LineSkipped(text, []);
      assert t[2..] == text + [];
    }
  }

  lemma LiteralMinified(text: bytes, closed: bool, rest: bytes)
    requires Fits(Literal(text, closed), rest)
    ensures Outside(Spelling(Literal(text, closed)) + rest) == Spelling(Literal(text, closed)) + Outside(rest)
  {
    hide Outside, Inside;
    var t := Spelling(Literal(text, closed)) + rest;
    OpenLiteral(t, 0);
    assert t[0..] == t;
    if closed {
      LiteralCopied(text, rest);
      assert t[1..] == text + [QUOTE] + rest;
    } else {
      OpenCopied(text);
      NothingMinified();
      assert t[1..] == text;
    }
  }

  lemma BlockMinified(text: bytes, closed: bool, rest: bytes)
    requires Fits(Block(text, closed), rest)
    ensures Outside(Spelling(Block(text, closed)) + rest) == Outside(rest)
  {
    var t := Spelling(Block(text, closed)) + rest;
    BlockSkipped(text, rest);
    assert t[2..] == if closed then text + [STAR, SLASH] + rest else text;
  }

  lemma PartMinified(p: Part, rest: bytes)
    requires Fits(p, rest)
    ensures Outside(Spelling(p) + rest) == (if p.Solid? || p.Literal? then Spelling(p) else []) + Outside(rest)
  {
    hide Outside, Unquoted, Unstarred;
    match p {
      case Solid(b) => ByteMinified(b, rest);
      case Blank(b) => ByteMinified(b, rest);
      case Slash =>
        assert Spelling(p) == [SLASH];
        ByteMinified(SLASH, rest);
      case Line(text, closed) => LineMinified(text, closed, rest);
      case Block(text, closed) => BlockMinified(text, closed, rest);
      case Literal(text, closed) => LiteralMinified(text, closed, rest);
    }
  }

  /** The parts of a text decide what is kept of it. */
  lemma {:induction false} PartsMinified(ps: seq<Part>)
    requires Proper(ps)
    ensures Outside(Text(ps)) == Kept(ps)
  {
    hide Fits, Spelling, Outside;
    if ps == [] {
      NothingMinified();
    } else {
      PartMinified(ps[0], Text(ps[1..]));
      PartsMinified(ps[1..]);
    }
  }

  lemma NothingMinified()
    ensures Outside([]) == []
  {
  }

  // ----- Every text is made of such parts

  lemma {:induction false} SplitLine(s: bytes) returns (text: bytes, closed: bool, rest: bytes)
    ensures s == text + (if closed then [NEWLINE] else []) + rest
    ensures Fits(Line(text, closed), rest)
  {
    if s == [] {
      text, closed, rest := [], false, [];
    } else if s[0] == NEWLINE {
      text, closed, rest := [], true, s[1..];
    } else {
      text, closed, rest := SplitLine(s[1..]);
      text := [s[0]] + text;
    }
  }

  lemma {:induction false} SplitBlock(s: bytes) returns (text: bytes, closed: bool, rest: bytes)
    ensures s == text + (if closed then [STAR, SLASH] else []) + rest
    ensures Fits(Block(text, closed), rest)
  {
    if s == [] {
      text, closed, rest := [], false, [];
    } else if s[0] == STAR && |s| > 1 && s[1] == SLASH {
      text, closed, rest := [], true, s[2..];
    } else {
      text, closed, rest := SplitBlock(s[1..]);
      assert text != [] ==> text[0] == s[1];
      text := [s[0]] + text;
    }
  }

  lemma UnquotedGrows(first: bytes, text: bytes)
    requires Unquoted(text) && (first == [BACKSLASH, QUOTE] || (|first| == 1 && first[0] != QUOTE))
    ensures Unquoted(first + text)
  {
  }

  lemma {:induction false} SplitLiteral(s: bytes) returns (text: bytes, closed: bool, rest: bytes)
    ensures s == text + (if closed then [QUOTE] else []) + rest
    ensures Fits(Literal(text, closed), rest)
    decreases |s|
  {
    if s == [] {
      text, closed, rest := [], false, [];
    } else if s[0] == QUOTE {
      text, closed, rest := [], true, s[1..];
    } else {
      hide Unquoted;
      var n := Turn(s);
      text, closed, rest := SplitLiteral(s[n..]);
      UnquotedGrows(s[..n], text);
      assert text == [] && closed ==> s[n] == QUOTE;
      text := s[..n] + text;
    }
  }

  /** The part a text begins with. */
  lemma FirstPart(s: bytes) returns (p: Part, rest: bytes)
    requires s != []
    ensures s == Spelling(p) + rest && Fits(p, rest)
  {
    hide Unquoted, Unstarred;
    rest := s[1..];
    var next := if |s| > 1 then s[1] else NUL;
    if s[0] in BLANKS {
      p := Blank(s[0]);
    } else if s[0] == QUOTE {
      var text, closed;
      text, closed, rest := SplitLiteral(s[1..]);
      p := Literal(text, closed);
    } else if s[0] != SLASH {
      p := Solid(s[0]);
    } else if next == SLASH {
      var text, closed;
      text, closed, rest := SplitLine(s[2..]);
      p := Line(text, closed);
    } else if next == STAR {
      var text, closed;
      text, closed, rest := SplitBlock(s[2..]);
      p := Block(text, closed);
    } else {
      p := Slash;
    }
  }

  lemma {:induction false} Dissect(s: bytes) returns (ps: seq<Part>)
    ensures Proper(ps) && Text(ps) == s
    decreases |s|
  {
    hide Fits, Spelling;
    if s == [] {
      ps := [];
    } else {
      var p, rest := FirstPart(s);
      ps := Dissect(rest);
      ps := [p] + ps;
    }
  }

  /** So minifying gives exactly what the parts of the text, however it is divided, keep. */
  lemma MinifyIff(s: bytes, r: bytes)
    ensures Outside(s) == r <==> exists ps :: Proper(ps) && Text(ps) == s && Kept(ps) == r
  {
    hide Outside, Proper, Text, Kept;
    var ps := Dissect(s);
    PartsMinified(ps);
    if exists qs :: Proper(qs) && Text(qs) == s && Kept(qs) == r {
      var qs :| Proper(qs) && Text(qs) == s && Kept(qs) == r;
      PartsMinified(qs);
    }
  }

  /** Where there are no literals and no comments, the blanks go and all other bytes stay. */
  lemma {:induction false} BlanksDropped(s: bytes, b: byte)
    requires QUOTE !in s && SLASH !in s
    ensures multiset(Outside(s))[b] == if b in BLANKS then 0 else multiset(s)[b]
  {
    hide Outside;
    if s == [] {
      NothingMinified();
    } else {
      var rest := s[1..];
      assert s == [s[0]] + rest;
      ByteMinified(s[0], rest);
      BlanksDropped(rest, b);
    }
  }

  lemma {:induction false} OutsideAppend(s: bytes, t: bytes)
    requires QUOTE !in s && SLASH !in s
    ensures Outside(s + t) == Outside(s) + Outside(t)
  {
    hide Outside;
    if s == [] {
      NothingMinified();
      assert s + t == t;
    } else {
      var rest := s[1..];
      OutsideAppend(rest, t);
      ByteMinified(s[0], rest);
      ByteMinified(s[0], rest + t);
      assert s == [s[0]] + rest && s + t == [s[0]] + (rest + t);
    }
  }
}
