/** cJSON_Minify: the in-place run, the scanner it implements, and how far it undoes formatting. */
module Minify {
  import opened Bytes

  predicate IsBlank(b: byte) { b == SPACE || b == TAB || b == RETURN || b == NEWLINE }

  /** Behind the two slashes of a line comment: from the newline on. */
  function AfterLine(s: bytes): (r: bytes)
    ensures |r| <= |s|
  {
    if s == [] || s[0] == NEWLINE then s else AfterLine(s[1..])
  }

  /** Behind the opening of a block comment: past its end. */
  function AfterBlock(s: bytes): (r: bytes)
    ensures |r| <= |s|
  {
    if s == [] then []
    else if s[0] == STAR && |s| > 1 && s[1] == SLASH then s[2..]
    else AfterBlock(s[1..])
  }

  /** What is kept of `s` outside string literals. */
  function Outside(s: bytes): bytes
    decreases |s|
  {
    if s == [] then []
    else if IsBlank(s[0]) then Outside(s[1..])
    else if s[0] == SLASH then
      if |s| > 1 && s[1] == SLASH then Outside(AfterLine(s[2..]))
      else if |s| > 1 && s[1] == STAR then Outside(AfterBlock(s[2..]))
      else Outside(s[1..])
    else if s[0] == QUOTE then [QUOTE] + Inside(s[1..])
    else [s[0]] + Outside(s[1..])
  }

  /** What is kept of `s` inside a literal: everything; a quote behind any backslash does not close it. */
  function Inside(s: bytes): bytes
    decreases |s|
  {
    if s == [] then []
    else if s[0] == QUOTE then [QUOTE] + Outside(s[1..])
    else if s[0] == BACKSLASH && |s| > 1 && s[1] == QUOTE then [BACKSLASH, QUOTE] + Inside(s[2..])
    else [s[0]] + Inside(s[1..])
  }

  // ----- Minifying twice

  lemma {:induction false} InsideKeepsFirst(s: bytes)
    ensures |Inside(s)| > 0 <==> s != []
    ensures s != [] ==> Inside(s)[0] == s[0]
  {
  }

  /** Minifying a second time changes nothing, for every text. */
  lemma {:induction false} MinifyTwice(s: bytes)
    ensures Outside(Outside(s)) == Outside(s)
    decreases |s|
  {
    if s != [] {
      if s[0] == QUOTE {
        InsideTwice(s[1..]);
        assert ([QUOTE] + Inside(s[1..]))[1..] == Inside(s[1..]);
      } else if s[0] == SLASH && |s| > 1 && s[1] == SLASH {
        MinifyTwice(AfterLine(s[2..]));
      } else if s[0] == SLASH && |s| > 1 && s[1] == STAR {
        MinifyTwice(AfterBlock(s[2..]));
      } else {
        MinifyTwice(s[1..]);
        assert ([s[0]] + Outside(s[1..]))[1..] == Outside(s[1..]);
      }
    }
  }

  lemma {:induction false} InsideTwice(s: bytes)
    ensures Inside(Inside(s)) == Inside(s)
    decreases |s|
  {
    if s != [] {
      if s[0] == QUOTE {
        MinifyTwice(s[1..]);
        assert ([QUOTE] + Outside(s[1..]))[1..] == Outside(s[1..]);
      } else if s[0] == BACKSLASH && |s| > 1 && s[1] == QUOTE {
        InsideTwice(s[2..]);
        assert ([BACKSLASH, QUOTE] + Inside(s[2..]))[2..] == Inside(s[2..]);
      } else {
        InsideTwice(s[1..]);
        InsideKeepsFirst(s[1..]);
        assert ([s[0]] + Inside(s[1..]))[1..] == Inside(s[1..]);
      }
    }
  }

  // ----- The in-place run

  /** The buffer still holds the unread rest of `s` and its terminator. */
  ghost predicate Unread(c: bytes, s: bytes, read: nat) {
    read <= |s| < |c| && c[read..|s|] == s[read..] && c[|s|] == NUL
  }

  lemma UnreadStep(c: bytes, s: bytes, read: nat)
    requires Unread(c, s, read) && NulFree(s)
    ensures c[read] == (if read < |s| then s[read] else NUL)
    ensures c[read] == NUL <==> read == |s|
    ensures read + 1 < |s| ==> c[read + 1] == s[read + 1]
    ensures read + 1 == |s| ==> c[read + 1] == NUL
    ensures read < |s| ==> Unread(c, s, read + 1)
  {
    forall k | read <= k < |s| ensures c[k] == s[k] { assert c[read..|s|][k - read] == s[read..][k - read]; }
    if read < |s| { assert c[read + 1..|s|] == s[read + 1..]; }
  }

  /** The state of the run: `total` is what the buffer holds up to the write pointer and what the
      scanner keeps of the unread rest. */
  ghost predicate Running(c: bytes, s: bytes, read: nat, write: nat, inside: bool, total: bytes) {
    && write <= read <= |s| < |c| && Unread(c, s, read)
    && total == c[..write] + if inside then Inside(s[read..]) else Outside(s[read..])
  }

  lemma RunningBounds(c: bytes, s: bytes, read: nat, write: nat, inside: bool, total: bytes)
    requires Running(c, s, read, write, inside, total) && NulFree(s)
    ensures write <= read <= |s| < |c|
    ensures c[read] == (if read < |s| then s[read] else NUL)
    ensures c[read] == NUL <==> read == |s|
    ensures read + 1 < |s| ==> c[read + 1] == s[read + 1]
    ensures read + 1 == |s| ==> c[read + 1] == NUL
  {
    hide NulFree, Unread, Inside, Outside;
    UnreadStep(c, s, read);
  }

  /** A byte is kept: what it adds to the output is what the scanner kept of it. */
  lemma Keep(c: bytes, d: bytes, s: bytes, read: nat, write: nat, inside: bool, still: bool, total: bytes)
    requires Running(c, s, read, write, inside, total) && read < |s|
    requires |d| == |c| && d == c[write := d[write]]
    requires (if inside then Inside(s[read..]) else Outside(s[read..])) ==
             [d[write]] + if still then Inside(s[read + 1..]) else Outside(s[read + 1..])
    ensures Running(d, s, read + 1, write + 1, still, total) && d[|s|..] == c[|s|..]
  {
    hide Unread, Inside, Outside;
    Stored(c, d, s, read, write);
    Assoc(c[..write], [d[write]], if still then Inside(s[read + 1..]) else Outside(s[read + 1..]));
  }

  /** minify_string, from the opening quote on. */
  method MinifyString(a: array<byte>, ghost s: bytes, ghost total: bytes, start: nat, out: nat)
    returns (read: nat, write: nat)
    requires NulFree(s) && Running(a[..], s, start, out, false, total) && start < |s| && s[start] == QUOTE
    modifies a
    ensures start < read && Running(a[..], s, read, write, false, total) && a[|s|..] == old(a[|s|..])
  {
    hide NulFree, Running, Outside, Inside;
    read, write := start, out;
    RunningBounds(a[..], s, read, write, false, total);
    OpenLiteral(s, read);
    ghost var c := a[..];
    a[write] := a[read];
    Keep(c, a[..], s, read, write, false, true, total);
    read, write := read + 1, write + 1;
    RunningBounds(a[..], s, read, write, true, total);
    while a[read] != NUL
      invariant start < read <= |s| < a.Length && Running(a[..], s, read, write, true, total)
      invariant a[|s|..] == old(a[|s|..])
      decreases |s| - read
    {
      RunningBounds(a[..], s, read, write, true, total);
      var closed: bool;
      read, write, closed := LiteralTurn(a, s, total, read, write);
      if closed { return; }
      RunningBounds(a[..], s, read, write, true, total);
    }
    RunningBounds(a[..], s, read, write, true, total);
    NothingKept(a[..], s, read, write, total);
  }

  /** One turn of minify_string's loop. */
  method LiteralTurn(a: array<byte>, ghost s: bytes, ghost total: bytes, from: nat, out: nat)
    returns (read: nat, write: nat, closed: bool)
    requires NulFree(s) && from < |s| && Running(a[..], s, from, out, true, total)
    modifies a
    ensures from < read <= |s| && Running(a[..], s, read, write, !closed, total) && a[|s|..] == old(a[|s|..])
  {
    hide NulFree, Running, Outside, Inside;
    read, write := from, out;
    RunningBounds(a[..], s, read, write, true, total);
    LiteralByte(s, read);
    ghost var c := a[..];
    if a[read] == QUOTE {
      a[write] := QUOTE;
      Keep(c, a[..], s, read, write, true, false, total);
      return read + 1, write + 1, true;
    }
    closed := false;
    if a[read] == BACKSLASH && a[read + 1] == QUOTE {
      a[write] := a[read];
      KeepEscape(c, a[..], s, read, write, total);
      c := a[..];
      a[write + 1] := a[read + 1];
      KeepQuote(c, a[..], s, read + 1, write + 1, total);
      read, write := read + 1, write + 1;
    } else {
      a[write] := a[read];
      Keep(c, a[..], s, read, write, true, true, total);
    }
    read, write := read + 1, write + 1;
  }

  /** Half of an escaped quote has been copied. */
  ghost predicate Halfway(c: bytes, s: bytes, read: nat, write: nat, total: bytes) {
    && write <= read < |s| < |c| && Unread(c, s, read)
    && total == c[..write] + ([QUOTE] + Inside(s[read + 1..]))
  }

  lemma KeepEscape(c: bytes, d: bytes, s: bytes, read: nat, write: nat, total: bytes)
    requires Running(c, s, read, write, true, total) && read + 1 < |s|
    requires |d| == |c| && d == c[write := BACKSLASH]
    requires Inside(s[read..]) == [BACKSLASH, QUOTE] + Inside(s[read + 2..]) && s[read + 1] == QUOTE
    ensures Halfway(d, s, read + 1, write + 1, total) && d[|s|..] == c[|s|..] && d[read + 1] == QUOTE
  {
    hide Inside;
    Stored(c, d, s, read, write);
    assert d[read + 1] == d[read + 1..|s|][0] == s[read + 1];
    assert [BACKSLASH, QUOTE] == [BACKSLASH] + [QUOTE];
    Assoc([BACKSLASH], [QUOTE], Inside(s[read + 2..]));
    Assoc(c[..write], [BACKSLASH], [QUOTE] + Inside(s[read + 2..]));
  }

  lemma KeepQuote(c: bytes, d: bytes, s: bytes, read: nat, write: nat, total: bytes)
    requires Halfway(c, s, read, write, total) && |d| == |c| && d == c[write := QUOTE]
    ensures Running(d, s, read + 1, write + 1, true, total) && d[|s|..] == c[|s|..]
  {
    hide Inside;
    Stored(c, d, s, read, write);
    Assoc(c[..write], [QUOTE], Inside(s[read + 1..]));
  }

  /** Storing at or before the read position leaves the unread rest alone. */
  lemma Stored(c: bytes, d: bytes, s: bytes, read: nat, write: nat)
    requires Unread(c, s, read) && read < |s| && write <= read
    requires |d| == |c| && d == c[write := d[write]]
    ensures Unread(d, s, read + 1) && d[..write + 1] == c[..write] + [d[write]] && d[|s|..] == c[|s|..]
  {
    forall k | read <= k < |s| ensures c[k] == s[k] { assert c[read..|s|][k - read] == s[read..][k - read]; }
    assert d[read + 1..|s|] == s[read + 1..];
  }

  lemma OpenLiteral(s: bytes, i: nat)
    requires i < |s| && s[i] == QUOTE
    ensures Outside(s[i..]) == [QUOTE] + Inside(s[i + 1..])
  {
    assert s[i..][1..] == s[i + 1..];
  }

  lemma LiteralByte(s: bytes, i: nat)
    requires i < |s|
    ensures Inside(s[i..]) ==
            if s[i] == QUOTE then [QUOTE] + Outside(s[i + 1..])
            else if s[i] == BACKSLASH && i + 1 < |s| && s[i + 1] == QUOTE then [BACKSLASH, QUOTE] + Inside(s[i + 2..])
            else [s[i]] + Inside(s[i + 1..])
  {
    assert s[i..][1..] == s[i + 1..];
    if i + 1 < |s| { assert s[i..][2..] == s[i + 2..]; }
  }

  lemma NothingKept(c: bytes, s: bytes, read: nat, write: nat, total: bytes)
    requires Running(c, s, read, write, true, total) && read == |s|
    ensures Running(c, s, read, write, false, total)
  {
  }

  lemma OutsideByte(s: bytes, i: nat)
    requires i < |s|
    ensures IsBlank(s[i]) ==> Outside(s[i..]) == Outside(s[i + 1..])
    ensures s[i] == SLASH && !(i + 1 < |s| && (s[i + 1] == SLASH || s[i + 1] == STAR)) ==>
            Outside(s[i..]) == Outside(s[i + 1..])
    ensures s[i] == SLASH && i + 1 < |s| && s[i + 1] == SLASH ==> Outside(s[i..]) == Outside(AfterLine(s[i + 2..]))
    ensures s[i] == SLASH && i + 1 < |s| && s[i + 1] == STAR ==> Outside(s[i..]) == Outside(AfterBlock(s[i + 2..]))
    ensures !IsBlank(s[i]) && s[i] != SLASH && s[i] != QUOTE ==> Outside(s[i..]) == [s[i]] + Outside(s[i + 1..])
  {
    assert s[i..][1..] == s[i + 1..];
    if i + 1 < |s| { assert s[i..][2..] == s[i + 2..]; }
  }

  /** Reading on without writing. */
  lemma Drop(c: bytes, s: bytes, read: nat, next: nat, write: nat, total: bytes)
    requires Running(c, s, read, write, false, total) && read <= next <= |s|
    requires Outside(s[read..]) == Outside(s[next..])
    ensures Running(c, s, next, write, false, total)
  {
    hide Outside, Inside;
    assert c[next..|s|] == c[read..|s|][next - read..] == s[read..][next - read..] == s[next..];
  }

  lemma CommentStep(s: bytes, i: nat)
    requires i < |s|
    ensures AfterLine(s[i..]) == if s[i] == NEWLINE then s[i..] else AfterLine(s[i + 1..])
    ensures AfterBlock(s[i..]) ==
            if s[i] == STAR && i + 1 < |s| && s[i + 1] == SLASH then s[i + 2..] else AfterBlock(s[i + 1..])
  {
    assert s[i..][1..] == s[i + 1..];
    if i + 1 < |s| { assert s[i..][2..] == s[i + 2..]; }
  }

  lemma CommentEnd(s: bytes, i: nat)
    requires i == |s|
    ensures AfterLine(s[i..]) == s[i..] && AfterBlock(s[i..]) == s[i..]
  {
  }

  /** skip_oneline_comment: stop on the newline, or at the terminator. */
  method SkipLine(a: array<byte>, ghost s: bytes, from: nat) returns (read: nat)
    requires NulFree(s) && from + 2 <= |s| < a.Length && Unread(a[..], s, from + 2)
    ensures from + 2 <= read <= |s| && AfterLine(s[from + 2..]) == s[read..]
  {
    hide NulFree, Unread, AfterLine, AfterBlock;
    read := from + 2;
    UnreadStep(a[..], s, read);
    while a[read] != NUL
      invariant from + 2 <= read <= |s| < a.Length && Unread(a[..], s, read)
      invariant AfterLine(s[from + 2..]) == AfterLine(s[read..])
      decreases |s| - read
    {
      UnreadStep(a[..], s, read);
      CommentStep(s, read);
      if a[read] == NEWLINE { return; }
      read := read + 1;
    }
    UnreadStep(a[..], s, read);
    CommentEnd(s, read);
  }

  /** skip_multiline_comment: stop behind the closing star and slash, or at the terminator. */
  method SkipBlock(a: array<byte>, ghost s: bytes, from: nat) returns (read: nat)
    requires NulFree(s) && from + 2 <= |s| < a.Length && Unread(a[..], s, from + 2)
    ensures from + 2 <= read <= |s| && AfterBlock(s[from + 2..]) == s[read..]
  {
    hide NulFree, Unread, AfterLine, AfterBlock;
    read := from + 2;
    UnreadStep(a[..], s, read);
    while a[read] != NUL
      invariant from + 2 <= read <= |s| < a.Length && Unread(a[..], s, read)
      invariant AfterBlock(s[from + 2..]) == AfterBlock(s[read..])
      decreases |s| - read
    {
      UnreadStep(a[..], s, read);
      CommentStep(s, read);
      if a[read] == STAR && a[read + 1] == SLASH {
        read := read + 2;
        return;
      }
      read := read + 1;
    }
    UnreadStep(a[..], s, read);
    CommentEnd(s, read);
  }

  lemma SkippedUnread(c: bytes, s: bytes, read: nat, write: nat, total: bytes)
    requires Running(c, s, read, write, false, total) && read + 2 <= |s|
    ensures Unread(c, s, read + 2)
  {
    assert c[read + 2..|s|] == c[read..|s|][2..] == s[read..][2..] == s[read + 2..];
  }

  /** cJSON_Minify over the buffer of the C string `s`: the write pointer never passes the read
      pointer, and what is left is exactly what the scanner keeps. */
  method MinifyInPlace(a: array<byte>, ghost s: bytes)
    requires NulFree(s) && |s| < a.Length && a[..|s|] == s && a[|s|] == NUL
    modifies a
    ensures |Outside(s)| <= |s| && a[..|Outside(s)| + 1] == Outside(s) + [NUL]
    ensures a[|s| + 1..] == old(a[|s| + 1..])
  {
    hide NulFree, Running, Outside, Inside;
    ghost var total := Outside(s);
    var read, into := 0, 0;
    StartRunning(a[..], s);
    RunningBounds(a[..], s, read, into, false, total);
    while a[read] != NUL
      invariant 0 <= into <= read <= |s| < a.Length && Running(a[..], s, read, into, false, total)
      invariant a[|s|..] == old(a[|s|..])
      decreases |s| - read
    {
      read, into := MinifyTurn(a, s, total, read, into);
      RunningBounds(a[..], s, read, into, false, total);
    }
    RunningBounds(a[..], s, read, into, false, total);
    AllRead(a[..], s, read, into, total);
    a[into] := NUL;
    assert a[..into + 1] == a[..into] + [NUL];
    assert a[|s| + 1..] == old(a[|s|..])[1..] == old(a[|s| + 1..]);
  }

  lemma StartRunning(c: bytes, s: bytes)
    requires |s| < |c| && c[..|s|] == s && c[|s|] == NUL
    ensures Running(c, s, 0, 0, false, Outside(s))
  {
    assert s[0..] == s && c[0..|s|] == c[..|s|];
  }

  lemma AllRead(c: bytes, s: bytes, read: nat, write: nat, total: bytes)
    requires Running(c, s, read, write, false, total) && read == |s|
    ensures c[..write] == total
  {
    assert s[read..] == [] && Outside([]) == [];
  }

  /** One turn of the main loop: its switch over the next byte. */
  method MinifyTurn(a: array<byte>, ghost s: bytes, ghost total: bytes, from: nat, out: nat)
    returns (read: nat, into: nat)
    requires NulFree(s) && from < |s| && Running(a[..], s, from, out, false, total)
    modifies a
    ensures from < read <= |s| && Running(a[..], s, read, into, false, total) && a[|s|..] == old(a[|s|..])
  {
    hide NulFree, Running, Outside, Inside, AfterLine, AfterBlock;
    read, into := from, out;
    RunningBounds(a[..], s, read, into, false, total);
    OutsideByte(s, read);
    if a[read] == SPACE || a[read] == TAB || a[read] == RETURN || a[read] == NEWLINE {
      read := read + 1;
      Drop(a[..], s, from, read, into, total);
    } else if a[read] == SLASH {
      if a[read + 1] == SLASH {
        SkippedUnread(a[..], s, read, into, total);
        read := SkipLine(a, s, read);
      } else if a[read + 1] == STAR {
        SkippedUnread(a[..], s, read, into, total);
        read := SkipBlock(a, s, read);
      } else {
        read := read + 1;
      }
      Drop(a[..], s, from, read, into, total);
    } else if a[read] == QUOTE {
      read, into := MinifyString(a, s, total, read, into);
      RunningBounds(a[..], s, read, into, false, total);
    } else {
      ghost var c := a[..];
      a[into] := a[read];
      Keep(c, a[..], s, read, into, false, false, total);
      read, into := read + 1, into + 1;
    }
  }
}
