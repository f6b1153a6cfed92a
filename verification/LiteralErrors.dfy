/** Where parse_string gives up: at the first piece of a literal that stands for nothing, or right behind
    the place of the opening quote. */
module LiteralErrors {
  import opened Bytes
  import opened Unicode
  import opened StringCodec
  import opened Literals

  /** Piece k is the first that stands for nothing. */
  predicate FirstBad(ps: seq<Piece>, k: nat) {
    k < |ps| && !Sensible(ps, k) && forall j :: 0 <= j < k ==> Sensible(ps, j)
  }

  lemma EmptyWritten()
    ensures Written([]) == []
  {
  }

  lemma {:induction false} WrittenAppend(ps: seq<Piece>, qs: seq<Piece>)
    ensures Written(ps + qs) == Written(ps) + Written(qs)
  {
    if ps == [] {
      assert ps + qs == qs;
    } else {
      assert (ps + qs)[1..] == ps[1..] + qs;
      WrittenAppend(ps[1..], qs);
      Assoc(Spelling(ps[0]), Written(ps[1..]), Written(qs));
    }
  }

  lemma WrittenOne(p: Piece)
    ensures Written([p]) == Spelling(p)
  {
    assert [p][1..] == [];
  }

  /** The first piece stands for nothing. */
  lemma BadHere(c: bytes, i: nat, end: nat, ps: seq<Piece>)
    requires Stands(c, i, end, ps) && FirstBad(ps, 0)
    ensures end < |c| && Decode(c, i, end) == Undecodable(i)
  {
    hide Decode, Stands, Meaning;
    match ps[0] {
      case Plain(_) =>
      case Short(letter) =>
        ShortEscapes(letter, NUL);
        ShortStep(c, i, end, ps);
      case Cut(_) => CutStep(c, i, end, ps);
      case Group(_) => GroupStep(c, i, end, ps);
    }
  }

  lemma GoodOne(c: bytes, i: nat, end: nat, ps: seq<Piece>) returns (s: bytes)
    requires ps != [] && Stands(c, i, end, ps) && Sensible(ps, 0) && !HighGroup(ps[0]) && !ps[0].Cut?
    ensures i + |Spelling(ps[0])| <= end < |c|
    ensures Decode(c, i, end) == Decode(c, i + |Spelling(ps[0])|, end).Prepend(s)
  {
    hide Decode, Stands, Utf8, Hex4;
    match ps[0] {
      case Plain(b) =>
        PlainStep(c, i, end, ps);
        s := [b];
      case Short(letter) =>
        ShortEscapes(letter, NUL);
        ShortStep(c, i, end, ps);
        StandsNext(c, i, end, ps);
        s := [Unescape(letter).value];
      case Group(_) =>
        GroupStep(c, i, end, ps);
        GroupCode(c, i, end, ps);
        s := Utf8(Code(ps[0]));
    }
  }

  lemma GoodPair(c: bytes, i: nat, end: nat, ps: seq<Piece>) returns (s: bytes)
    requires |ps| > 1 && Stands(c, i, end, ps) && HighGroup(ps[0]) && LowGroup(ps[1])
    ensures |Written(ps[..2])| == 12 && i + 12 <= end < |c| && Stands(c, i + 12, end, ps[2..])
    ensures Decode(c, i, end) == Decode(c, i + 12, end).Prepend(s)
  {
    hide Decode, Stands, Utf8, Hex4;
    GroupStep(c, i, end, ps);
    GroupCode(c, i, end, ps);
    s := Utf8(PairValue(Code(ps[0]), Code(ps[1])));
    StandsNext(c, i, end, ps);
    GroupCode(c, i + 6, end, ps[1..]);
    StandsNext(c, i + 6, end, ps[1..]);
    assert ps[1..][1..] == ps[2..] && ps[..2] == [ps[0]] + [ps[1]];
    WrittenOne(ps[0]);
    WrittenOne(ps[1]);
    WrittenAppend([ps[0]], [ps[1]]);
  }

  /** The first piece stands for something; as the first half of a pair it does so with the second. */
  lemma FirstGood(ps: seq<Piece>, k: nat)
    requires FirstBad(ps, k) && k > 0
    ensures Sensible(ps, 0)
    ensures HighGroup(ps[0]) ==> k > 1 && LowGroup(ps[1])
  {
    hide Code;
    assert Sensible(ps, 0);
    assert HighGroup(ps[0]) ==> Sensible(ps, 1);
  }

  /** The first pieces stand for something, and decoding goes on behind them. */
  lemma GoodHere(c: bytes, i: nat, end: nat, ps: seq<Piece>, k: nat) returns (n: nat, s: bytes)
    requires Stands(c, i, end, ps) && FirstBad(ps, k) && 0 < k < |ps|
    ensures 0 < n <= k && !(HighGroup(ps[n - 1]) && LowGroup(ps[n]))
    ensures Stands(c, i + |Written(ps[..n])|, end, ps[n..]) && i + |Written(ps[..n])| <= end < |c|
    ensures Decode(c, i, end) == Decode(c, i + |Written(ps[..n])|, end).Prepend(s)
  {
    hide Decode, Stands, Written, Sensible, FirstBad, HighGroup, LowGroup;
    FirstGood(ps, k);
    if ps[0].Cut? { CutLast(c, i, end, ps); }
    if HighGroup(ps[0]) {
      n := 2;
      LowIsNotHigh(ps[1]);
      s := GoodPair(c, i, end, ps);
    } else {
      n := 1;
      s := GoodOne(c, i, end, ps);
      StandsNext(c, i, end, ps);
      assert ps[..1] == [ps[0]];
      WrittenOne(ps[0]);
    }
  }

  lemma LowIsNotHigh(p: Piece)
    requires LowGroup(p)
    ensures !HighGroup(p)
  {
  }

  lemma CutLast(c: bytes, i: nat, end: nat, ps: seq<Piece>)
    requires ps != [] && ps[0].Cut? && Stands(c, i, end, ps)
    ensures |ps| == 1
  {
  }

  lemma {:induction false} DecodeFails(c: bytes, i: nat, end: nat, ps: seq<Piece>, k: nat)
    requires Stands(c, i, end, ps) && FirstBad(ps, k)
    ensures end < |c| && Decode(c, i, end) == Undecodable(i + |Written(ps[..k])|)
    decreases |ps|
  {
    hide Stands, Decode, Written, Sensible;
    if k == 0 {
      EmptyWritten();
      BadHere(c, i, end, ps);
    } else {
      BadPosition(ps, k);
      var n, s := GoodHere(c, i, end, ps, k);
      forall j | n <= j < |ps| ensures Sensible(ps, j) <==> Sensible(ps[n..], j - n) { SensibleShift(ps, n, j); }
      forall j | 0 <= j < |ps| - n ensures Sensible(ps, j + n) <==> Sensible(ps[n..], j) {}
      DecodeFails(c, i + |Written(ps[..n])|, end, ps[n..], k - n);
      assert ps[..k] == ps[..n] + ps[n..][..k - n];
      WrittenAppend(ps[..n], ps[n..][..k - n]);
    }
  }

  /** The literal at o is closed at e, is written with those pieces, and the first bad one stands at `at`. */
  ghost predicate BadPiece(c: bytes, o: nat, e: nat, ps: seq<Piece>, k: nat, at: nat) {
    ClosesAt(c, o, e) && Writes(c[o + 1..e], ps) && FirstBad(ps, k) && at == o + 1 + |Written(ps[..k])|
  }

  predicate ClosesAt(c: bytes, o: nat, e: nat) {
    o < e < |c| && c[o] == QUOTE && c[e] == QUOTE && Closed(c[o + 1..e])
  }

  /** No string can be read at o: its first bad piece is at `at`, or there is no closed literal at all. */
  ghost predicate TextStuck(c: bytes, o: nat, at: nat) {
    || (at == o + 1 && forall e: nat :: !ClosesAt(c, o, e))
    || exists e: nat, ps: seq<Piece>, k: nat :: BadPiece(c, o, e, ps, k, at)
  }

  lemma BadPieceFails(c: bytes, o: nat, e: nat, ps: seq<Piece>, k: nat, at: nat)
    requires BadPiece(c, o, e, ps, k, at)
    ensures ReadString(c, o) == StringFailed(at)
  {
    hide Closed, LiteralEnd, Decode, Written, Sensible;
    var t := c[o + 1..e];
    assert c[o + 1..e + 1] == t + [QUOTE];
    EndIff(c, o + 1, t);
    assert Stands(c, o + 1, e, ps);
    DecodeFails(c, o + 1, e, ps, k);
  }

  lemma EndCloses(c: bytes, o: nat)
    requires o < |c| && c[o] == QUOTE && LiteralEnd(c, o + 1).Some?
    ensures ClosesAt(c, o, LiteralEnd(c, o + 1).value)
  {
    hide Closed, LiteralEnd;
    var e := LiteralEnd(c, o + 1).value;
    assert c[o + 1..e + 1] == c[o + 1..e] + [QUOTE];
    EndIff(c, o + 1, c[o + 1..e]);
  }

  /** A literal that means nothing has a first bad piece. */
  lemma {:induction false} FindBad(ps: seq<Piece>, n: nat) returns (k: nat)
    requires n <= |ps| && (forall j :: 0 <= j < n ==> Sensible(ps, j))
    requires exists j :: 0 <= j < |ps| && !Sensible(ps, j)
    ensures FirstBad(ps, k)
    decreases |ps| - n
  {
    hide Sensible;
    if n < |ps| && Sensible(ps, n) { k := FindBad(ps, n + 1); } else { k := n; }
  }

  lemma BadPosition(ps: seq<Piece>, k: nat)
    requires FirstBad(ps, k)
    ensures k < |ps|
  {
  }

  /** parse_string fails exactly there. */
  lemma StringFailsIff(c: bytes, o: nat, at: nat)
    requires o < |c|
    ensures ReadString(c, o) == StringFailed(at) <==> TextStuck(c, o, at)
  {
    hide Closed, LiteralEnd, Decode, Written, Sensible, FirstBad, Meaning;
    forall e: nat, ps: seq<Piece>, k: nat | BadPiece(c, o, e, ps, k, at)
      ensures ReadString(c, o) == StringFailed(at)
    {
      BadPieceFails(c, o, e, ps, k, at);
    }
    if c[o] == QUOTE && LiteralEnd(c, o + 1).Some? {
      EndCloses(c, o);
      var e := LiteralEnd(c, o + 1).value;
      if ReadString(c, o).StringFailed? {
        var ps := Dissect(c[o + 1..e]);
        assert At(c, o, [QUOTE] + c[o + 1..e] + [QUOTE]) by { Framed(c, o, e + 1); }
        AcceptedIff(c, o, c[o + 1..e], ps);
        var k := FindBad(ps, 0);
        BadPosition(ps, k);
        BadPieceFails(c, o, e, ps, k, o + 1 + |Written(ps[..k])|);
      }
    } else {
      forall e: nat ensures !ClosesAt(c, o, e) {
        if ClosesAt(c, o, e) {
          assert c[o + 1..e + 1] == c[o + 1..e] + [QUOTE];
          EndIff(c, o + 1, c[o + 1..e]);
        }
      }
    }
  }
}
