/** Byte strings, the characters the JSON engine tests for, and "this text sits at that offset"; and what
    all modules share of options and sequences. */
module Bytes {
  type byte = b: int | 0 <= b < 256
  type bytes = seq<byte>

  datatype Option<+T> = None | Some(value: T)

  const NUL: byte := 0
  const TAB: byte := 9
  const NEWLINE: byte := 10
  const RETURN: byte := 13
  const SPACE: byte := 32
  const QUOTE: byte := 34
  const COMMA: byte := 44
  const SLASH: byte := 47
  const STAR: byte := 42
  const COLON: byte := 58
  const LBRACKET: byte := 91
  const BACKSLASH: byte := 92
  const RBRACKET: byte := 93
  const LBRACE: byte := 123
  const RBRACE: byte := 125

  /** The bytes of an ASCII text. */
  function Ascii(s: string): (r: bytes)
    requires forall k :: 0 <= k < |s| ==> s[k] as int < 128
    ensures |r| == |s| && forall k :: 0 <= k < |s| ==> r[k] == s[k] as int
  {
    seq(|s|, k requires 0 <= k < |s| => s[k] as int)
  }

  lemma Characters()
    ensures [SPACE, QUOTE, COMMA, SLASH, STAR, COLON, LBRACKET, BACKSLASH, RBRACKET, LBRACE, RBRACE] ==
            Ascii(" \",/*:[\\]{}")
    ensures [NUL, TAB, NEWLINE, RETURN] == [0, 9, 10, 13]
  {
  }

  /** Text `t` occupies `c` from offset `o`. */
  predicate At(c: bytes, o: nat, t: bytes) {
    o + |t| <= |c| && c[o..o + |t|] == t
  }

  function Without<T>(s: seq<T>, k: nat): seq<T>
    requires k < |s|
  {
    s[..k] + s[k + 1..]
  }

  lemma WithoutAt<T>(s: seq<T>, k: nat)
    requires k < |s|
    ensures var r := Without(s, k);
            && |r| == |s| - 1 && (forall j :: 0 <= j < k ==> r[j] == s[j])
            && forall j :: k < j < |s| ==> r[j - 1] == s[j]
  {
  }

  lemma Assoc(s: bytes, t: bytes, u: bytes)
    ensures (s + t) + u == s + (t + u)
  {
  }

  lemma AtSplit(c: bytes, o: nat, s: bytes, t: bytes)
    requires At(c, o, s + t)
    ensures At(c, o, s) && At(c, o + |s|, t) && o + |s| + |t| <= |c|
  {
    assert (s + t)[..|s|] == s && (s + t)[|s|..] == t;
    assert c[o..o + |s|] == c[o..o + |s + t|][..|s|];
    assert c[o + |s|..o + |s| + |t|] == c[o..o + |s + t|][|s|..];
  }

  lemma AtSplit3(c: bytes, o: nat, s: bytes, t: bytes, u: bytes)
    requires At(c, o, s + t + u)
    ensures At(c, o, s) && At(c, o + |s|, t) && At(c, o + |s| + |t|, u)
    ensures o + |s| + |t| + |u| <= |c|
  {
    AtSplit(c, o, s + t, u);
    AtSplit(c, o, s, t);
  }

  lemma AtSplit4(c: bytes, o: nat, s: bytes, t: bytes, u: bytes, v: bytes)
    requires At(c, o, s + t + u + v)
    ensures At(c, o, s) && At(c, o + |s|, t) && At(c, o + |s| + |t|, u) && At(c, o + |s| + |t| + |u|, v)
    ensures o + |s| + |t| + |u| + |v| <= |c|
  {
    AtSplit(c, o, s + t + u, v);
    AtSplit3(c, o, s, t, u);
  }

  lemma AtIndex(c: bytes, o: nat, t: bytes, k: nat)
    requires At(c, o, t) && k < |t|
    ensures o + k < |c| && c[o + k] == t[k]
  {
    assert c[o..o + |t|][k] == t[k];
  }

  /** A C string's bytes: none of them is the terminator. */
  predicate NulFree(s: bytes) {
    forall k :: 0 <= k < |s| ==> s[k] != NUL
  }

  lemma NulFreeJoin(s: bytes, t: bytes)
    requires NulFree(s) && NulFree(t)
    ensures NulFree(s + t)
  {
  }

  /** What a C string function sees of a buffer: the bytes before the first NUL. */
  function CString(s: bytes): (r: bytes)
    ensures NulFree(r) && |r| <= |s| && r == s[..|r|]
    ensures |r| < |s| ==> s[|r|] == NUL
    ensures NulFree(s) ==> r == s
  {
    if s == [] || s[0] == NUL then [] else
      var r := CString(s[1..]);
      assert NulFree(s) ==> NulFree(s[1..]);
      [s[0]] + r
  }
}
