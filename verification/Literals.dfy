/** String literals as a relation: the pieces a literal is written with, what they mean together, and
    parse_string as the decision procedure for it. */
module Literals {
  import opened Bytes
  import opened Unicode
  import opened StringCodec

  /** A character that stands for itself, a one-letter escape, a \u group with whatever stands in the
      places of its four digits, and an escape that the closing quote cuts off. */
  datatype Piece = Plain(symbol: byte) | Short(letter: byte) | Group(digits: bytes) | Cut(rest: bytes)

  function Spelling(p: Piece): bytes {
    match p
    case Plain(b) => [b]
    case Short(letter) => [BACKSLASH, letter]
    case Group(digits) => [BACKSLASH, 117] + digits
    case Cut(rest) => [BACKSLASH] + rest
  }

  function Written(ps: seq<Piece>): bytes {
    if ps == [] then [] else Spelling(ps[0]) + Written(ps[1..])
  }

  /** Only the last piece can be cut off: behind its backslash, or inside a \u group. */
  predicate Proper(ps: seq<Piece>) {
    forall k :: 0 <= k < |ps| ==>
      match ps[k]
      case Plain(b) => b != BACKSLASH
      case Short(letter) => letter != 117
      case Group(digits) => |digits| == 4
      case Cut(rest) => k == |ps| - 1 && (rest == [] || (rest[0] == 117 && |rest| <= 4))
  }

  /** The code unit of a group; a malformed digit makes it 0. */
  function Code(p: Piece): CodeUnit
    requires p.Group? && |p.digits| == 4
  {
    Hex4(p.digits, 0)
  }

  predicate HighGroup(p: Piece) { p.Group? && |p.digits| == 4 && IsHigh(Code(p)) }
  predicate LowGroup(p: Piece) { p.Group? && |p.digits| == 4 && IsLow(Code(p)) }

  /** A surrogate without its other half right beside it. */
  predicate Unpaired(ps: seq<Piece>, k: nat)
    requires k < |ps|
  {
    || (HighGroup(ps[k]) && !(k + 1 < |ps| && LowGroup(ps[k + 1])))
    || (LowGroup(ps[k]) && !(k > 0 && HighGroup(ps[k - 1])))
  }

  /** The bytes the pieces stand for, or None if one of them stands for nothing. An escape cut off
      behind its backslash takes the closing quote for its letter. */
  function Meaning(ps: seq<Piece>): Option<bytes>
    requires Proper(ps)
  {
    if ps == [] then Some([])
    else
      match ps[0]
      case Plain(b) => Behind([b], Meaning(ps[1..]))
      case Short(letter) => if Unescape(letter).None? then None else Behind([Unescape(letter).value], Meaning(ps[1..]))
      case Cut(rest) => if rest == [] then Some([QUOTE]) else None
      case Group(_) =>
        if LowGroup(ps[0]) then None
        else if HighGroup(ps[0]) then
          if |ps| > 1 && LowGroup(ps[1]) then Behind(Utf8(PairValue(Code(ps[0]), Code(ps[1]))), Meaning(ps[2..]))
          else None
        else Behind(Utf8(Code(ps[0])), Meaning(ps[1..]))
  }

  function Behind(s: bytes, rest: Option<bytes>): Option<bytes> {
    if rest.Some? then Some(s + rest.value) else None
  }

  predicate Means(meaning: Option<bytes>, d: Decoded) {
    match meaning
    case None => d.Undecodable?
    case Some(s) => d == Decoded(s)
  }

  // ----- The decoding pass computes the meaning

  /** Some pieces of a text that is followed by a quotation mark. */
  predicate Stands(c: bytes, i: nat, end: nat, ps: seq<Piece>) {
    Proper(ps) && end == i + |Written(ps)| < |c| && At(c, i, Written(ps)) && c[end] == QUOTE
  }

  lemma StandsNext(c: bytes, i: nat, end: nat, ps: seq<Piece>)
    requires ps != [] && Stands(c, i, end, ps)
    ensures At(c, i, Spelling(ps[0])) && i + |Spelling(ps[0])| <= end
    ensures Stands(c, i + |Spelling(ps[0])|, end, ps[1..])
  {
    AtSplit(c, i, Spelling(ps[0]), Written(ps[1..]));
  }

  lemma {:induction false} DecodeMeans(c: bytes, i: nat, end: nat, ps: seq<Piece>)
    requires Stands(c, i, end, ps)
    ensures Means(Meaning(ps), Decode(c, i, end))
    decreases |ps|
  {
    hide Meaning, Means, Stands, Decode, HighGroup, LowGroup;
    if ps == [] {
      NothingMeans(c, i, end);
    } else {
      StandsNext(c, i, end, ps);
      match ps[0] {
        case Plain(_) =>
          DecodeMeans(c, i + 1, end, ps[1..]);
          PlainMeans(c, i, end, ps);
        case Short(_) =>
          DecodeMeans(c, i + 2, end, ps[1..]);
          ShortMeans(c, i, end, ps);
        case Cut(_) => CutStep(c, i, end, ps);
        case Group(_) =>
          GroupCode(c, i, end, ps);
          DecodeMeans(c, i + 6, end, ps[1..]);
          if |ps| > 1 && LowGroup(ps[1]) {
            PairBehind(c, i, end, ps);
            DecodeMeans(c, i + 12, end, ps[2..]);
          }
          GroupMeans(c, i, end, ps);
      }
    }
  }

  lemma NothingMeans(c: bytes, i: nat, end: nat)
    requires Stands(c, i, end, [])
    ensures end < |c| && Means(Meaning([]), Decode(c, i, end))
  {
  }

  lemma PairBehind(c: bytes, i: nat, end: nat, ps: seq<Piece>)
    requires |ps| > 1 && ps[0].Group? && LowGroup(ps[1]) && Stands(c, i, end, ps)
    ensures i + 12 <= end < |c| && Stands(c, i + 12, end, ps[2..])
  {
    hide Stands, At;
    GroupCode(c, i, end, ps);
    StandsNext(c, i, end, ps);
    GroupCode(c, i + 6, end, ps[1..]);
    StandsNext(c, i + 6, end, ps[1..]);
    assert ps[1..][1..] == ps[2..];
  }

  lemma PlainMeans(c: bytes, i: nat, end: nat, ps: seq<Piece>)
    requires ps != [] && ps[0].Plain? && Stands(c, i, end, ps)
    requires end < |c| && Proper(ps[1..]) && Means(Meaning(ps[1..]), Decode(c, i + 1, end))
    ensures Means(Meaning(ps), Decode(c, i, end))
  {
    hide Decode, At, Written;
    PlainStep(c, i, end, ps);
  }

  lemma ShortMeans(c: bytes, i: nat, end: nat, ps: seq<Piece>)
    requires ps != [] && ps[0].Short? && Stands(c, i, end, ps)
    requires end < |c| && Proper(ps[1..]) && Means(Meaning(ps[1..]), Decode(c, i + 2, end))
    ensures Means(Meaning(ps), Decode(c, i, end))
  {
    hide Decode, At, Written, Unescape;
    ShortStep(c, i, end, ps);
  }

  lemma GroupMeans(c: bytes, i: nat, end: nat, ps: seq<Piece>)
    requires ps != [] && ps[0].Group? && Stands(c, i, end, ps)
    requires end < |c| && Proper(ps[1..]) && Means(Meaning(ps[1..]), Decode(c, i + 6, end))
    requires |ps| > 1 && LowGroup(ps[1]) ==> Proper(ps[2..]) && Means(Meaning(ps[2..]), Decode(c, i + 12, end))
    ensures Means(Meaning(ps), Decode(c, i, end))
  {
    hide Decode, At, Written, Hex4, Utf8;
    GroupStep(c, i, end, ps);
  }

  lemma NothingStands(c: bytes, i: nat, end: nat)
    requires Stands(c, i, end, [])
    ensures end == i < |c| && Decode(c, i, end) == Decoded([])
  {
  }

  lemma PlainStep(c: bytes, i: nat, end: nat, ps: seq<Piece>)
    requires ps != [] && ps[0].Plain? && Stands(c, i, end, ps)
    ensures i < end < |c| && Decode(c, i, end) == Decode(c, i + 1, end).Prepend([ps[0].symbol])
  {
    StandsNext(c, i, end, ps);
    AtIndex(c, i, Spelling(ps[0]), 0);
  }

  lemma ShortStep(c: bytes, i: nat, end: nat, ps: seq<Piece>)
    requires ps != [] && ps[0].Short? && Stands(c, i, end, ps)
    ensures i < end < |c|
    ensures Decode(c, i, end) ==
            match Unescape(ps[0].letter) {
              case None => Undecodable(i)
              case Some(b) => Decode(c, i + 2, end).Prepend([b])
            }
  {
    StandsNext(c, i, end, ps);
    AtIndex(c, i, Spelling(ps[0]), 0);
    AtIndex(c, i, Spelling(ps[0]), 1);
  }

  lemma CutStep(c: bytes, i: nat, end: nat, ps: seq<Piece>)
    requires ps != [] && ps[0].Cut? && Stands(c, i, end, ps)
    ensures end < |c| && Means(Meaning(ps), Decode(c, i, end))
    ensures ps[0].rest != [] ==> Decode(c, i, end) == Undecodable(i)
  {
    StandsNext(c, i, end, ps);
    var t := Spelling(ps[0]);
    assert ps[1..] == [];
    AtIndex(c, i, t, 0);
    if ps[0].rest == [] {
      assert Decode(c, i + 2, end) == Decoded([]);
    } else {
      AtIndex(c, i, t, 1);
    }
  }

  lemma GroupCode(c: bytes, i: nat, end: nat, ps: seq<Piece>)
    requires ps != [] && ps[0].Group? && Stands(c, i, end, ps)
    ensures |ps[0].digits| == 4 && i + 6 <= end < |c|
    ensures c[i] == BACKSLASH && c[i + 1] == 117 && Hex4(c, i + 2) == Code(ps[0])
  {
    StandsNext(c, i, end, ps);
    var t := Spelling(ps[0]);
    forall k: nat | k < 6 ensures c[i + k] == t[k] { AtIndex(c, i, t, k); }
    assert c[i + 0] == t[0] && c[i + 1] == t[1] && c[i + 2] == t[2] && c[i + 3] == t[3] && c[i + 4] == t[4] &&
           c[i + 5] == t[5];
  }

  /** What is behind a group that could be the first half of a pair. */
  lemma BehindGroup(c: bytes, i: nat, end: nat, ps: seq<Piece>)
    requires Stands(c, i, end, ps) && !(ps != [] && ps[0].Group?)
    ensures end - i >= 6 ==> c[i] != BACKSLASH || c[i + 1] != 117
  {
    if ps != [] && end - i >= 6 {
      StandsNext(c, i, end, ps);
      AtIndex(c, i, Spelling(ps[0]), 0);
      if ps[0].Short? { AtIndex(c, i, Spelling(ps[0]), 1); }
    }
  }

  /** The character one group, or two, stand for. */
  lemma GroupLiteral(c: bytes, i: nat, end: nat, ps: seq<Piece>)
    requires ps != [] && ps[0].Group? && Stands(c, i, end, ps)
    ensures end < |c| && i + 6 <= end
    ensures Utf16Literal(c, i, end) ==
            if LowGroup(ps[0]) then BadLiteral
            else if !HighGroup(ps[0]) then Literal(6, Code(ps[0]))
            else if |ps| > 1 && LowGroup(ps[1]) then Literal(12, PairValue(Code(ps[0]), Code(ps[1])))
            else BadLiteral
  {
    hide Hex4, Stands;
    GroupCode(c, i, end, ps);
    if HighGroup(ps[0]) {
      StandsNext(c, i, end, ps);
      assert Stands(c, i + 6, end, ps[1..]);
      if |ps| > 1 && ps[1].Group? {
        assert ps[1..][0] == ps[1];
        GroupCode(c, i + 6, end, ps[1..]);
      } else {
        assert ps[1..] != [] ==> ps[1..][0] == ps[1];
        BehindGroup(c, i + 6, end, ps[1..]);
      }
    }
  }

  lemma GroupStep(c: bytes, i: nat, end: nat, ps: seq<Piece>)
    requires ps != [] && ps[0].Group? && Stands(c, i, end, ps)
    ensures i + 6 <= end < |c|
    ensures LowGroup(ps[0]) ==> Decode(c, i, end) == Undecodable(i)
    ensures !LowGroup(ps[0]) && !HighGroup(ps[0]) ==>
            Decode(c, i, end) == Decode(c, i + 6, end).Prepend(Utf8(Code(ps[0])))
    ensures HighGroup(ps[0]) ==>
              if |ps| > 1 && LowGroup(ps[1]) then
                Decode(c, i, end) == Decode(c, i + 12, end).Prepend(Utf8(PairValue(Code(ps[0]), Code(ps[1]))))
              else Decode(c, i, end) == Undecodable(i)
  {
    hide Hex4, Stands, Utf8, Utf16Literal;
    GroupCode(c, i, end, ps);
    GroupLiteral(c, i, end, ps);
  }

  // ----- Where a literal ends

  /** Every quotation mark in the text is taken by a backslash, and the one behind it is not. */
  predicate Closed(t: bytes) {
    && (forall k :: 0 <= k < |t| && t[k] == QUOTE ==> Escaped(t, 0, k))
    && !Escaped(t, 0, |t|)
  }

  lemma {:induction false} EscapedLocal(c: bytes, a: nat, t: bytes, k: nat)
    requires At(c, a, t) && k <= |t|
    ensures a + k <= |c| && Escaped(c, a, a + k) == Escaped(t, 0, k)
    decreases k
  {
    hide At;
    AtInside(c, a, t);
    if k > 0 {
      AtIndex(c, a, t, k - 1);
      EscapedLocal(c, a, t, k - 1);
    }
  }

  lemma AtInside(c: bytes, a: nat, t: bytes)
    requires At(c, a, t)
    ensures a + |t| <= |c|
  {
  }

  /** The sizing pass stops at the first quotation mark that no backslash takes. */
  lemma {:induction false} EndSkips(c: bytes, a: nat, i: nat)
    requires a <= i <= |c| && !Escaped(c, a, i)
    ensures match LiteralEnd(c, i)
            case Some(e) => !Escaped(c, a, e) && forall k :: i <= k < e && c[k] == QUOTE ==> Escaped(c, a, k)
            case None => forall k :: i <= k < |c| && c[k] == QUOTE ==> Escaped(c, a, k)
    decreases |c| - i
  {
    if i < |c| && c[i] != QUOTE {
      if c[i] == BACKSLASH {
        assert i + 1 < |c| ==> Escaped(c, a, i + 1);
        if i + 1 < |c| { EndSkips(c, a, i + 2); }
      } else {
        EndSkips(c, a, i + 1);
      }
    }
  }

  lemma EndIff(c: bytes, a: nat, t: bytes)
    requires At(c, a, t + [QUOTE])
    ensures a + |t| < |c| && (LiteralEnd(c, a) == Some(a + |t|) <==> Closed(t))
  {
    hide At, LiteralEnd;
    AtSplit(c, a, t, [QUOTE]);
    AtIndex(c, a + |t|, [QUOTE], 0);
    EndSkips(c, a, a);
    EscapedLocal(c, a, t, |t|);
    forall k | 0 <= k < |t| ensures c[a + k] == t[k] && Escaped(c, a, a + k) == Escaped(t, 0, k) {
      AtIndex(c, a, t, k);
      EscapedLocal(c, a, t, k);
    }
    var r := LiteralEnd(c, a);
    if r.Some? && a <= r.value < a + |t| { assert t[r.value - a] == QUOTE && !Escaped(t, 0, r.value - a); }
  }

  // ----- Every text is written with some pieces, and parse_string reads them

  predicate Writes(t: bytes, ps: seq<Piece>) { Proper(ps) && Written(ps) == t }

  lemma {:induction false} Dissect(t: bytes) returns (ps: seq<Piece>)
    ensures Writes(t, ps)
    decreases |t|
  {
    hide Written;
    if t == [] {
      ps := [];
      TextEmpty();
    } else {
      var p := FirstPiece(t);
      if p.Cut? {
        ps := [p];
        TextSingle(p);
      } else {
        var rest := Dissect(t[|Spelling(p)|..]);
        ps := [p] + rest;
        TextCons(p, rest);
        assert t == t[..|Spelling(p)|] + t[|Spelling(p)|..];
      }
    }
  }

  /** The piece a text begins with. */
  function FirstPiece(t: bytes): (p: Piece)
    requires t != []
    ensures Spelling(p) <= t && (p.Cut? ==> Spelling(p) == t) && Proper([p])
  {
    if t[0] != BACKSLASH then Plain(t[0])
    else if |t| == 1 then Cut([])
    else if t[1] != 117 then assert t[..2] == [BACKSLASH, t[1]]; Short(t[1])
    else if |t| < 6 then Cut(t[1..])
    else assert t[..6] == [BACKSLASH, 117] + t[2..6]; Group(t[2..6])
  }

  lemma TextEmpty()
    ensures Written([]) == []
  {
  }

  lemma TextCons(p: Piece, ps: seq<Piece>)
    ensures Written([p] + ps) == Spelling(p) + Written(ps)
  {
    assert ([p] + ps)[1..] == ps;
  }

  lemma TextSingle(p: Piece)
    ensures Written([p]) == Spelling(p)
  {
    assert [p][1..] == [];
  }

  /** What parse_string makes of a literal, whatever it is written with. */
  lemma LiteralReads(c: bytes, o: nat, t: bytes, ps: seq<Piece>)
    requires At(c, o, [QUOTE] + t + [QUOTE]) && Closed(t) && Writes(t, ps)
    ensures o < |c| && match Meaning(ps)
                       case None => ReadString(c, o).StringFailed?
                       case Some(s) => ReadString(c, o) == StringRead(s, o + |t| + 2)
  {
    hide Meaning, Decode, LiteralEnd, Closed, Written;
    LiteralPlaced(c, o, t);
    EndIff(c, o + 1, t);
    assert Stands(c, o + 1, o + 1 + |t|, ps);
    DecodeMeans(c, o + 1, o + 1 + |t|, ps);
  }

  lemma LiteralPlaced(c: bytes, o: nat, t: bytes)
    requires At(c, o, [QUOTE] + t + [QUOTE])
    ensures o + |t| + 1 < |c| && c[o] == QUOTE && c[o + 1 + |t|] == QUOTE
    ensures At(c, o + 1, t + [QUOTE]) && At(c, o + 1, t)
  {
    AtIndex(c, o, [QUOTE] + t + [QUOTE], 0);
    assert [QUOTE] + t + [QUOTE] == [QUOTE] + (t + [QUOTE]);
    AtSplit(c, o, [QUOTE], t + [QUOTE]);
    AtSplit(c, o + 1, t, [QUOTE]);
    AtIndex(c, o + 1 + |t|, [QUOTE], 0);
  }

  /** A literal of the byte string `s` from `i` to `j`. */
  ghost predicate Denotes(c: bytes, i: nat, j: nat, s: bytes) {
    && i + 2 <= j <= |c| && c[i] == QUOTE && c[j - 1] == QUOTE && Closed(c[i + 1..j - 1])
    && exists ps :: Writes(c[i + 1..j - 1], ps) && Meaning(ps) == Some(s)
  }

  /** parse_string reads exactly the literals, each as the string it denotes, and rejects all else. */
  lemma ReadsIffDenotes(c: bytes, o: nat, s: bytes, e: nat)
    requires o < |c|
    ensures ReadString(c, o) == StringRead(s, e) <==> Denotes(c, o, e, s)
  {
    hide Meaning, Closed, Written;
    if ReadString(c, o) == StringRead(s, e) {
      hide LiteralEnd, Decode;
      ReadIsClosed(c, o);
      var t := c[o + 1..e - 1];
      var ps := Dissect(t);
      LiteralReads(c, o, t, ps);
    }
    if Denotes(c, o, e, s) {
      var t := c[o + 1..e - 1];
      var ps :| Writes(t, ps) && Meaning(ps) == Some(s);
      Framed(c, o, e);
      LiteralReads(c, o, t, ps);
    }
  }

  lemma Framed(c: bytes, i: nat, j: nat)
    requires i + 2 <= j <= |c| && c[i] == QUOTE && c[j - 1] == QUOTE
    ensures At(c, i, [QUOTE] + c[i + 1..j - 1] + [QUOTE])
  {
    assert c[i..j] == [QUOTE] + c[i + 1..j - 1] + [QUOTE];
  }

  lemma ReadIsClosed(c: bytes, o: nat)
    requires o < |c| && ReadString(c, o).StringRead?
    ensures var e := ReadString(c, o).offset;
            && o + 2 <= e <= |c| && At(c, o, [QUOTE] + c[o + 1..e - 1] + [QUOTE]) && Closed(c[o + 1..e - 1])
  {
    hide Decode, LiteralEnd, Closed;
    var e := ReadString(c, o).offset;
    var t := c[o + 1..e - 1];
    Framed(c, o, e);
    LiteralPlaced(c, o, t);
    EndIff(c, o + 1, t);
  }

  // ----- Which literals are accepted

  /** A piece that stands for something where it stands. */
  predicate Sensible(ps: seq<Piece>, k: nat)
    requires k < |ps|
  {
    match ps[k]
    case Plain(_) => true
    case Short(letter) => letter in SHORT_LETTERS
    case Group(_) => !Unpaired(ps, k)
    case Cut(rest) => rest == []
  }

  /** A literal means something if and only if each of its pieces does. */
  lemma {:induction false} MeaningIff(ps: seq<Piece>)
    requires Proper(ps)
    ensures Meaning(ps).Some? <==> forall k :: 0 <= k < |ps| ==> Sensible(ps, k)
    decreases |ps|
  {
    hide Sensible, Proper, Meaning;
    if ps != [] {
      var n := FirstSensible(ps);
      SensibleBehind(ps, n);
      MeaningIff(ps[n..]);
    } else {
      EmptyMeaning();
    }
  }

  lemma EmptyMeaning()
    ensures Meaning([]) == Some([])
  {
  }

  /** The pieces that are taken together, one or two, and whether they stand for something. */
  lemma FirstSensible(ps: seq<Piece>) returns (n: nat)
    requires Proper(ps) && ps != []
    ensures 0 < n <= |ps| && !(n < |ps| && HighGroup(ps[n - 1]) && LowGroup(ps[n])) && Proper(ps[n..])
    ensures Meaning(ps).Some? <==> (forall k :: 0 <= k < n ==> Sensible(ps, k)) && Meaning(ps[n..]).Some?
  {
    hide Utf8, Unescape, Hex4;
    n := if HighGroup(ps[0]) && |ps| > 1 && LowGroup(ps[1]) then 2 else 1;
    if n == 2 {
      assert Sensible(ps, 0) && Sensible(ps, 1);
    } else {
      if ps[0].Short? { ShortEscapes(ps[0].letter, NUL); }
      assert Meaning(ps).Some? <==> Sensible(ps, 0) && Meaning(ps[1..]).Some?;
    }
  }

  lemma SensibleBehind(ps: seq<Piece>, n: nat)
    requires Proper(ps) && 0 < n <= |ps| && !(n < |ps| && HighGroup(ps[n - 1]) && LowGroup(ps[n]))
    ensures Proper(ps[n..])
    ensures (forall k :: 0 <= k < |ps| - n ==> Sensible(ps[n..], k)) <==>
            (forall k :: n <= k < |ps| ==> Sensible(ps, k))
  {
    forall k | n <= k < |ps| ensures Sensible(ps, k) <==> Sensible(ps[n..], k - n) { SensibleShift(ps, n, k); }
    forall k | 0 <= k < |ps| - n ensures Sensible(ps, k + n) <==> Sensible(ps[n..], k) {}
  }

  /** A piece behind the first ones that are taken together is judged as if they were not there. */
  lemma SensibleShift(ps: seq<Piece>, n: nat, k: nat)
    requires 0 < n <= k < |ps| && !(HighGroup(ps[n - 1]) && LowGroup(ps[n]))
    ensures Sensible(ps, k) <==> Sensible(ps[n..], k - n)
  {
    hide HighGroup, LowGroup;
    assert ps[n..][k - n] == ps[k];
    if k + 1 < |ps| { assert ps[n..][k - n + 1] == ps[k + 1]; }
    if k > n { assert ps[n..][k - n - 1] == ps[k - 1]; }
  }

  /** So parse_string accepts a literal exactly when every escape is known and every surrogate has its
      other half right beside it. */
  lemma AcceptedIff(c: bytes, o: nat, t: bytes, ps: seq<Piece>)
    requires At(c, o, [QUOTE] + t + [QUOTE]) && Closed(t) && Writes(t, ps)
    ensures o < |c| && (ReadString(c, o).StringRead? <==> forall k :: 0 <= k < |ps| ==> Sensible(ps, k))
  {
    hide Meaning, Sensible, Closed;
    LiteralReads(c, o, t, ps);
    MeaningIff(ps);
  }

  /** In particular a surrogate without its other half is rejected wherever it stands. */
  lemma LoneSurrogateRejected(c: bytes, o: nat, t: bytes, ps: seq<Piece>, k: nat)
    requires At(c, o, [QUOTE] + t + [QUOTE]) && Closed(t) && Writes(t, ps) && k < |ps| && Unpaired(ps, k)
    ensures o < |c| && ReadString(c, o).StringFailed?
  {
    hide Closed, Writes;
    AcceptedIff(c, o, t, ps);
    assert !Sensible(ps, k);
  }

  // ----- Texts in which the two passes keep step

  /** No quotation mark but behind a backslash, and neither it nor a backslash among the digits of a group. */
  predicate InStep(ps: seq<Piece>) {
    forall k :: 0 <= k < |ps| ==>
      match ps[k]
      case Plain(b) => b != QUOTE
      case Short(_) => true
      case Group(digits) => QUOTE !in digits && BACKSLASH !in digits
      case Cut(_) => false
  }

  lemma {:induction false} InStepEnd(c: bytes, i: nat, end: nat, ps: seq<Piece>)
    requires Stands(c, i, end, ps) && InStep(ps)
    ensures LiteralEnd(c, i) == Some(end)
    decreases |ps|
  {
    hide Stands;
    if ps == [] {
      NothingStands(c, i, end);
      QuoteEnds(c, i, end);
    } else {
      StandsNext(c, i, end, ps);
      InStepEnd(c, i + |Spelling(ps[0])|, end, ps[1..]);
      PieceSkipped(c, i, end, ps);
    }
  }

  lemma QuoteEnds(c: bytes, i: nat, end: nat)
    requires Stands(c, i, end, [])
    ensures LiteralEnd(c, i) == Some(end)
  {
  }

  lemma PieceSkipped(c: bytes, i: nat, end: nat, ps: seq<Piece>)
    requires ps != [] && Stands(c, i, end, ps) && InStep(ps[..1])
    ensures i + |Spelling(ps[0])| <= |c| && LiteralEnd(c, i) == LiteralEnd(c, i + |Spelling(ps[0])|)
  {
    hide At;
    assert ps[..1][0] == ps[0];
    StandsNext(c, i, end, ps);
    if ps[0].Group? {
      GroupSkipped(c, i, end, ps);
    } else {
      AtIndex(c, i, Spelling(ps[0]), 0);
      if ps[0].Short? { AtIndex(c, i, Spelling(ps[0]), 1); }
    }
  }

  lemma GroupSkipped(c: bytes, i: nat, end: nat, ps: seq<Piece>)
    requires ps != [] && ps[0].Group? && Stands(c, i, end, ps)
    requires QUOTE !in ps[0].digits && BACKSLASH !in ps[0].digits
    ensures i + 6 <= |c| && LiteralEnd(c, i) == LiteralEnd(c, i + 6) && |Spelling(ps[0])| == 6
  {
    hide Stands, At, LiteralEnd;
    StandsNext(c, i, end, ps);
    GroupCode(c, i, end, ps);
    var t := Spelling(ps[0]);
    forall k | 0 <= k < 4 ensures c[i + 2 + k] == ps[0].digits[k] {
      AtIndex(c, i, t, 2 + k);
      assert c[i + (2 + k)] == t[2 + k];
    }
    EscapeSkipped(c, i);
    DigitsSkipped(c, i + 2, ps[0].digits);
  }

  lemma EscapeSkipped(c: bytes, i: nat)
    requires i + 2 <= |c| && c[i] == BACKSLASH
    ensures LiteralEnd(c, i) == LiteralEnd(c, i + 2)
  {
  }

  lemma DigitsSkipped(c: bytes, i: nat, digits: bytes)
    requires |digits| == 4 && i + 4 <= |c| && (forall k :: 0 <= k < 4 ==> c[i + k] == digits[k])
    requires QUOTE !in digits && BACKSLASH !in digits
    ensures LiteralEnd(c, i) == LiteralEnd(c, i + 4)
  {
    assert c[i] == digits[0] && c[i + 1] == digits[1] && c[i + 2] == digits[2] && c[i + 3] == digits[3];
    assert LiteralEnd(c, i) == LiteralEnd(c, i + 1) == LiteralEnd(c, i + 2) == LiteralEnd(c, i + 3);
  }

  lemma InStepCloses(ps: seq<Piece>)
    requires Proper(ps) && InStep(ps)
    ensures Closed(Written(ps))
  {
    hide Closed, Written, InStep;
    var c := Written(ps) + [QUOTE];
    assert c[0..|c|] == c && c[..|Written(ps)|] == Written(ps);
    assert Stands(c, 0, |Written(ps)|, ps);
    InStepEnd(c, 0, |Written(ps)|, ps);
    EndIff(c, 0, Written(ps));
  }

  // ----- One-character escapes

  /** The piece stands for the single byte. */
  predicate OneByte(p: Piece, b: byte) {
    match p
    case Plain(symbol) => b == symbol && symbol != QUOTE
    case Short(letter) => ShortFor(letter, b)
    case _ => false
  }

  lemma {:induction false} BytesMean(ps: seq<Piece>, s: bytes)
    requires Proper(ps) && |ps| == |s| && forall k :: 0 <= k < |ps| ==> OneByte(ps[k], s[k])
    ensures Meaning(ps) == Some(s)
    decreases |ps|
  {
    hide ShortFor, Unescape;
    if ps == [] {
      EmptyMeaning();
    } else {
      assert OneByte(ps[0], s[0]);
      BytesMean(ps[1..], s[1..]);
      if ps[0].Short? { ShortEscapes(ps[0].letter, s[0]); }
      assert s == [s[0]] + s[1..];
    }
  }

  /** A literal of plain characters and one-character escapes is read byte for byte. */
  lemma ShortLiterals(c: bytes, o: nat, ps: seq<Piece>, s: bytes)
    requires Proper(ps) && |ps| == |s| && forall k :: 0 <= k < |ps| ==> OneByte(ps[k], s[k])
    requires At(c, o, [QUOTE] + Written(ps) + [QUOTE])
    ensures o < |c| && ReadString(c, o) == StringRead(s, o + |Written(ps)| + 2)
  {
    hide Closed, Written, Meaning, Proper, ShortFor;
    BytesMean(ps, s);
    forall k | 0 <= k < |ps| ensures OneByte(ps[k], s[k]) {}
    InStepCloses(ps);
    LiteralReads(c, o, Written(ps), ps);
  }

  // ----- \u groups

  predicate WellFormed(p: Piece) {
    p.Group? && |p.digits| == 4 && forall k :: 0 <= k < 4 ==> IsHex(p.digits[k])
  }

  predicate SpelledBy(p: Piece, u: CodeUnit) { p.Group? && |p.digits| == 4 && SpellsUnit(p.digits, 0, u) }

  lemma SpelledGroup(p: Piece, u: CodeUnit)
    requires SpelledBy(p, u)
    ensures WellFormed(p) && p.Group? && |p.digits| == 4 && Code(p) == u
  {
    hide Hex4, IsHex, HexValue;
    Hex4Spelled(p.digits, 0, u);
    forall k | 0 <= k < 4 ensures HexValue(p.digits[k]).Some? <==> IsHex(p.digits[k]) { HexOrNot(p.digits[k]); }
    HexDigits(p.digits[0], u / 4096);
    HexDigits(p.digits[1], u / 256 % 16);
    HexDigits(p.digits[2], u / 16 % 16);
    HexDigits(p.digits[3], u % 16);
  }

  lemma MalformedGroup(p: Piece)
    requires p.Group? && |p.digits| == 4 && !WellFormed(p)
    ensures Code(p) == 0
  {
    hide Hex4, IsHex, HexValue, SpellsUnit;
    Hex4Spelled(p.digits, 0, 0);
  }

  /** No digit could be mistaken for the end of the literal. */
  lemma DigitsPlain(p: Piece)
    requires WellFormed(p)
    ensures QUOTE !in p.digits && BACKSLASH !in p.digits
  {
    assert !IsHex(QUOTE) && !IsHex(BACKSLASH);
    hide IsHex;
  }

  /** The pieces spell the code units, with digits in either case. */
  predicate Spells(ps: seq<Piece>, us: seq<CodeUnit>) {
    |ps| == |us| && forall k :: 0 <= k < |ps| ==> SpelledBy(ps[k], us[k])
  }

  lemma {:induction false} SpelledMeaning(ps: seq<Piece>, us: seq<CodeUnit>)
    requires Proper(ps) && Spells(ps, us)
    ensures Meaning(ps) == if FromUtf16(us).Some? then Some(Utf8All(FromUtf16(us).value)) else None
    decreases |ps|
  {
    hide Utf8, Hex4, SpelledBy, WellFormed, IsHex;
    if ps != [] {
      SpelledGroup(ps[0], us[0]);
      if |us| > 1 { SpelledGroup(ps[1], us[1]); }
      if IsHigh(us[0]) && |us| > 1 && IsLow(us[1]) {
        SpelledMeaning(ps[2..], us[2..]);
        PrependScalar(PairValue(us[0], us[1]), us[2..]);
      } else if !IsHigh(us[0]) && !IsLow(us[0]) {
        SpelledMeaning(ps[1..], us[1..]);
        PrependScalar(us[0], us[1..]);
      }
    }
  }

  lemma PrependScalar(x: Scalar, us: seq<CodeUnit>)
    ensures FromUtf16(us).Some? ==>
              Utf8All([x] + FromUtf16(us).value) == Utf8(x) + Utf8All(FromUtf16(us).value)
  {
    if FromUtf16(us).Some? {
      assert ([x] + FromUtf16(us).value)[1..] == FromUtf16(us).value;
    }
  }

  /** A literal of \u groups is accepted exactly when the groups are well-formed UTF-16, and then its
      value is the UTF-8 form of the characters they encode. */
  lemma UnicodeLiterals(c: bytes, o: nat, ps: seq<Piece>, us: seq<CodeUnit>)
    requires Proper(ps) && Spells(ps, us) && At(c, o, [QUOTE] + Written(ps) + [QUOTE])
    ensures o < |c| && match FromUtf16(us)
                       case None => ReadString(c, o).StringFailed?
                       case Some(xs) => ReadString(c, o) == StringRead(Utf8All(xs), o + |Written(ps)| + 2)
  {
    hide Closed, Meaning, FromUtf16, Written;
    SpelledInStep(ps, us);
    InStepCloses(ps);
    SpelledMeaning(ps, us);
    LiteralReads(c, o, Written(ps), ps);
  }

  lemma SpelledInStep(ps: seq<Piece>, us: seq<CodeUnit>)
    requires Spells(ps, us)
    ensures InStep(ps)
  {
    hide SpelledBy, WellFormed;
    forall k | 0 <= k < |ps| ensures ps[k].Group? && QUOTE !in ps[k].digits && BACKSLASH !in ps[k].digits {
      SpelledGroup(ps[k], us[k]);
      DigitsPlain(ps[k]);
    }
  }

  /** Hence every sequence of Unicode scalar values written as \u groups arrives in UTF-8. */
  lemma UnicodeText(c: bytes, o: nat, ps: seq<Piece>, xs: seq<Scalar>)
    requires Proper(ps) && Spells(ps, Utf16All(xs)) && At(c, o, [QUOTE] + Written(ps) + [QUOTE])
    ensures o < |c| && ReadString(c, o) == StringRead(Utf8All(xs), o + |Written(ps)| + 2)
  {
    hide Written, Spells, Utf16All;
    Utf16RoundTrip(xs);
    UnicodeLiterals(c, o, ps, Utf16All(xs));
  }

  // ----- Malformed digits

  const ZEROS: bytes := [48, 48, 48, 48]

  function Zeroed(ps: seq<Piece>, k: nat): seq<Piece>
    requires k < |ps|
  {
    ps[k := Group(ZEROS)]
  }

  lemma {:induction false} ZeroedMeaning(ps: seq<Piece>, k: nat)
    requires Proper(ps) && k < |ps| && ps[k].Group? && !WellFormed(ps[k])
    ensures Proper(Zeroed(ps, k)) && Meaning(Zeroed(ps, k)) == Meaning(ps)
    decreases |ps|
  {
    hide Utf8, Unescape, Utf8All, WellFormed;
    MalformedGroup(ps[k]);
    assert Code(Group(ZEROS)) == 0;
    hide Hex4, HexValue;
    var qs := Zeroed(ps, k);
    if k == 0 {
      assert qs[1..] == ps[1..];
    } else {
      assert qs[1..] == Zeroed(ps[1..], k - 1);
      ZeroedMeaning(ps[1..], k - 1);
      if k > 1 {
        assert qs[2..] == Zeroed(ps[2..], k - 2);
        ZeroedMeaning(ps[2..], k - 2);
      }
    }
  }

  lemma BadGroupMeaning(p: Piece)
    requires Proper([p]) && p.Group? && !WellFormed(p)
    ensures Meaning([p]) == Some([NUL])
  {
    var ps := [p];
    assert ps[1..] == [] && Meaning([]) == Some([]);
    assert ps[0] == p && |p.digits| == 4;
    hide WellFormed, Hex4;
    MalformedGroup(p);
    var zero: Scalar := 0;
    assert Utf8(zero) == [NUL];
    assert [NUL] + [] == [NUL];
  }

  /** A malformed group is no error: the literal is read exactly as with \u0000 in its place. */
  lemma BadDigitsReadAsNul(c: bytes, o: nat, d: bytes, p: nat, ps: seq<Piece>, k: nat)
    requires Proper(ps) && k < |ps| && ps[k].Group? && !WellFormed(ps[k])
    requires At(c, o, [QUOTE] + Written(ps) + [QUOTE]) && Closed(Written(ps))
    requires At(d, p, [QUOTE] + Written(Zeroed(ps, k)) + [QUOTE]) && Closed(Written(Zeroed(ps, k)))
    ensures o < |c| && p < |d|
    ensures match ReadString(d, p)
            case StringFailed(_) => ReadString(c, o).StringFailed?
            case StringRead(s, _) => ReadString(c, o) == StringRead(s, o + |Written(ps)| + 2)
  {
    hide Closed, Written, Meaning;
    ZeroedMeaning(ps, k);
    LiteralReads(c, o, Written(ps), ps);
    LiteralReads(d, p, Written(Zeroed(ps, k)), Zeroed(ps, k));
  }

  // ----- The strings of RFC 8259

  /** What section 7 of RFC 8259 allows between the quotation marks: characters from space on, eight
      letters behind a backslash, and groups of four hexadecimal digits. */
  predicate RfcPiece(p: Piece) {
    match p
    case Plain(b) => b >= SPACE && b != QUOTE && b != BACKSLASH
    case Short(letter) => letter in SHORT_LETTERS
    case Group(_) => WellFormed(p)
    case Cut(_) => false
  }

  predicate RfcPieces(ps: seq<Piece>) { forall k :: 0 <= k < |ps| ==> RfcPiece(ps[k]) }

  ghost predicate RfcString(t: bytes) { exists ps :: Writes(t, ps) && RfcPieces(ps) }

  /** No control character stands for itself, and every digit is one. */
  predicate Tidy(ps: seq<Piece>) {
    forall k :: 0 <= k < |ps| ==> (ps[k].Plain? ==> ps[k].symbol >= SPACE) && (ps[k].Group? ==> WellFormed(ps[k]))
  }

  /** Of the literals that parse_string accepts, those without raw control characters and malformed digits
      are strings of RFC 8259, and no others. */
  lemma RfcStringIff(c: bytes, o: nat, t: bytes, ps: seq<Piece>)
    requires At(c, o, [QUOTE] + t + [QUOTE]) && Closed(t) && Writes(t, ps)
    requires o < |c| && ReadString(c, o).StringRead?
    ensures RfcString(t) <==> Tidy(ps)
  {
    hide Closed, Written, ReadString, Sensible;
    AcceptedIff(c, o, t, ps);
    if RfcString(t) {
      var qs :| Writes(t, qs) && RfcPieces(qs);
      OneSpelling(ps, qs);
    }
    if Tidy(ps) {
      TidyCloses(t, ps);
      forall k | 0 <= k < |ps| ensures RfcPiece(ps[k]) {
        assert Sensible(ps, k);
        SensibleLetter(ps, k);
      }
    }
  }

  /** Conversely every string of RFC 8259 closes where it should, and is accepted unless a surrogate is alone. */
  lemma RfcStringReads(c: bytes, o: nat, t: bytes, ps: seq<Piece>)
    requires At(c, o, [QUOTE] + t + [QUOTE]) && Writes(t, ps) && RfcPieces(ps)
    ensures Closed(t) && o < |c|
    ensures ReadString(c, o).StringRead? <==> forall k :: 0 <= k < |ps| ==> !Unpaired(ps, k)
  {
    hide Closed, Written, ReadString;
    forall k | 0 <= k < |ps| ensures RfcPiece(ps[k]) {}
    InStepCloses(ps);
    AcceptedIff(c, o, t, ps);
    forall k | 0 <= k < |ps| ensures Sensible(ps, k) <==> !Unpaired(ps, k) { assert RfcPiece(ps[k]); }
  }

  /** And no string of RFC 8259 with the same meaning is shorter than what the printer writes. */
  lemma {:induction false} PrintsShortest(ps: seq<Piece>, s: bytes)
    requires Proper(ps) && RfcPieces(ps) && Meaning(ps) == Some(s)
    ensures |Escape(s)| <= |Written(ps)|
    decreases |ps|
  {
    assert Escape([]) == [];
    hide Meaning, Proper, RfcPiece, Written, Escape;
    if ps == [] {
      EmptyMeaning();
    } else {
      var n, first, rest := FirstShortest(ps);
      PrintsShortest(ps[n..], rest);
      EscapeAppend(first, rest);
    }
  }

  lemma FirstShortest(ps: seq<Piece>) returns (n: nat, first: bytes, rest: bytes)
    requires Proper(ps) && RfcPieces(ps) && Meaning(ps).Some? && ps != []
    ensures 0 < n <= |ps| && Proper(ps[n..]) && RfcPieces(ps[n..]) && Meaning(ps[n..]) == Some(rest)
    ensures Meaning(ps) == Some(first + rest) && |Escape(first)| + |Written(ps[n..])| <= |Written(ps)|
  {
    hide Utf8, Code, WellFormed, Unescape, Escape;
    assert RfcPiece(ps[0]);
    n := if HighGroup(ps[0]) then 2 else 1;
    rest := Meaning(ps[n..]).value;
    match ps[0] {
      case Plain(b) =>
        first := [b];
        ByteWritten(b);
      case Short(letter) =>
        first := [Unescape(letter).value];
        ByteWritten(first[0]);
      case Group(_) =>
        if n == 2 {
          assert RfcPiece(ps[1]) && ps[1..][1..] == ps[2..];
          first := Utf8(PairValue(Code(ps[0]), Code(ps[1])));
          CharacterWritten(PairValue(Code(ps[0]), Code(ps[1])));
        } else {
          first := Utf8(Code(ps[0]));
          CharacterWritten(Code(ps[0]));
        }
    }
  }

  lemma ByteWritten(b: byte)
    ensures Escape([b]) == EscapeByte(b) && |EscapeByte(b)| <= 6
    ensures b >= SPACE && b != QUOTE && b != BACKSLASH ==> |EscapeByte(b)| == 1
    ensures (exists letter :: Unescape(letter) == Some(b)) ==> |EscapeByte(b)| <= 2
  {
    assert [b][1..] == [] && Escape([]) == [];
  }

  /** In UTF-8 a character is printed with no more bytes than its \u groups take. */
  lemma CharacterWritten(x: Scalar)
    ensures |Escape(Utf8(x))| <= 6
  {
    var t := Utf8(x);
    if x < 0x80 {
      ByteWritten(x);
    } else {
      assert forall k :: 0 <= k < |t| ==> t[k] >= 0x80;
      hide Utf8;
      WideWritten(t);
    }
  }

  lemma {:induction false} WideWritten(s: bytes)
    requires forall k :: 0 <= k < |s| ==> s[k] >= 0x80
    ensures Escape(s) == s
  {
    if s != [] {
      WideWritten(s[1..]);
    }
  }

  lemma SensibleLetter(ps: seq<Piece>, k: nat)
    requires k < |ps| && Sensible(ps, k)
    ensures ps[k].Short? ==> ps[k].letter in SHORT_LETTERS
    ensures ps[k].Cut? ==> ps[k].rest == []
  {
  }

  /** With well-formed digits the two passes keep step: no quotation mark stands for itself, nothing is cut off. */
  lemma TidyCloses(t: bytes, ps: seq<Piece>)
    requires Closed(t) && Writes(t, ps) && Tidy(ps) && forall k :: 0 <= k < |ps| ==> Sensible(ps, k)
    ensures forall k :: 0 <= k < |ps| ==> !ps[k].Cut? && ps[k] != Plain(QUOTE)
  {
    hide Closed, Written, Sensible;
    var c := t + [QUOTE];
    assert c[0..|c|] == c && c[..|t|] == t;
    EndIff(c, 0, t);
    forall k | 0 <= k < |ps| ensures ps[k].Cut? ==> ps[k].rest == [] {
      assert Sensible(ps, k);
      SensibleLetter(ps, k);
    }
    assert Stands(c, 0, |t|, ps);
    EndKeepsStep(c, 0, |t|, ps);
  }

  lemma {:induction false} EndKeepsStep(c: bytes, i: nat, end: nat, ps: seq<Piece>)
    requires Stands(c, i, end, ps) && LiteralEnd(c, i) == Some(end) && Tidy(ps)
    requires forall k :: 0 <= k < |ps| && ps[k].Cut? ==> ps[k].rest == []
    ensures forall k :: 0 <= k < |ps| ==> !ps[k].Cut? && ps[k] != Plain(QUOTE)
    decreases |ps|
  {
    hide Stands, LiteralEnd, Spelling, InStep, WellFormed;
    if ps != [] {
      FirstInStep(c, i, end, ps);
      StandsNext(c, i, end, ps);
      PieceSkipped(c, i, end, ps);
      EndKeepsStep(c, i + |Spelling(ps[0])|, end, ps[1..]);
    }
  }

  lemma FirstInStep(c: bytes, i: nat, end: nat, ps: seq<Piece>)
    requires ps != [] && Stands(c, i, end, ps) && LiteralEnd(c, i) == Some(end) && Tidy(ps)
    requires ps[0].Cut? ==> ps[0].rest == []
    ensures !ps[0].Cut? && ps[0] != Plain(QUOTE) && InStep(ps[..1])
  {
    hide At, WellFormed;
    if ps[0].Group? { DigitsPlain(ps[0]); }
    StandsNext(c, i, end, ps);
    AtIndex(c, i, Spelling(ps[0]), 0);
  }

  lemma FirstIs(ps: seq<Piece>)
    requires Proper(ps) && ps != []
    ensures Written(ps) != [] && FirstPiece(Written(ps)) == ps[0]
  {
    var t, s, rest := Written(ps), Spelling(ps[0]), Written(ps[1..]);
    assert t == s + rest;
    if ps[0].Cut? { assert ps[1..] == []; }
    if ps[0].Group? { assert t[2..6] == ps[0].digits; }
  }

  /** A text is written in one way only. */
  lemma {:induction false} OneSpelling(ps: seq<Piece>, qs: seq<Piece>)
    requires Proper(ps) && Proper(qs) && Written(ps) == Written(qs)
    ensures ps == qs
    decreases |ps|
  {
    if ps != [] && qs != [] {
      FirstIs(ps);
      FirstIs(qs);
      var s := Spelling(ps[0]);
      assert Written(ps)[|s|..] == Written(ps[1..]) && Written(qs)[|s|..] == Written(qs[1..]);
      OneSpelling(ps[1..], qs[1..]);
    } else if ps != [] {
      FirstIs(ps);
    } else if qs != [] {
      FirstIs(qs);
    }
  }
}
