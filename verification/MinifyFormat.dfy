/** Minifying the formatted print of a tree: exactly when it gives the unformatted print. */
module MinifyFormat {
  import opened Bytes
  import opened Numbers
  import opened StringCodec
  import opened Json
  import opened JsonRoundTrip
  import opened Minify

  /** The scanner in either of its two modes. */
  function Out(inside: bool, s: bytes): bytes {
    if inside then Inside(s) else Outside(s)
  }

  /** Starting in mode `from`, the scanner keeps `kept` of the text `t`, whatever follows, and is then in mode `to`. */
  ghost predicate Scans(from: bool, t: bytes, to: bool, kept: bytes) {
    forall k: bytes :: Out(from, t + k) == kept + Out(to, k)
  }

  /** The two texts disagree at some index both have. */
  ghost predicate Apart(x: bytes, y: bytes) {
    exists i :: 0 <= i < |x| && i < |y| && x[i] != y[i]
  }

  /** Starting in mode `from`, what is kept of `t` disagrees with `u`, whatever follows the two. */
  ghost predicate Differs(from: bool, t: bytes, u: bytes) {
    forall k: bytes, j: bytes :: Apart(Out(from, t + k), u + j)
  }

  lemma ScansAt(a: bool, t: bytes, b: bool, x: bytes, k: bytes)
    requires Scans(a, t, b, x)
    ensures Out(a, t + k) == x + Out(b, k)
  {
    hide Out;
  }

  lemma ApartAfter(p: bytes, x: bytes, y: bytes)
    requires Apart(x, y)
    ensures Apart(p + x, p + y)
  {
    var i :| 0 <= i < |x| && i < |y| && x[i] != y[i];
    assert (p + x)[|p| + i] == x[i] && (p + y)[|p| + i] == y[i];
  }

  lemma ScansJoin(a: bool, s: bytes, b: bool, x: bytes, t: bytes, c: bool, y: bytes)
    requires Scans(a, s, b, x) && Scans(b, t, c, y)
    ensures Scans(a, s + t, c, x + y)
  {
    hide Out;
    forall k: bytes ensures Out(a, s + t + k) == x + y + Out(c, k) {
      hide Scans;
      Assoc(s, t, k);
      Assoc(x, y, Out(c, k));
      ScansAt(a, s, b, x, t + k);
      ScansAt(b, t, c, y, k);
    }
  }

  lemma ScansNothing(a: bool)
    ensures Scans(a, [], a, [])
  {
    hide Out;
    forall k: bytes ensures Out(a, [] + k) == [] + Out(a, k) {
      assert [] + k == k && [] + Out(a, k) == Out(a, k);
    }
  }

  lemma DiffersAfter(a: bool, s: bytes, b: bool, x: bytes, t: bytes, u: bytes)
    requires Scans(a, s, b, x) && Differs(b, t, u)
    ensures Differs(a, s + t, x + u)
  {
    hide Out, Scans, Apart;
    forall k: bytes, j: bytes ensures Apart(Out(a, s + t + k), x + u + j) {
      Assoc(s, t, k);
      Assoc(x, u, j);
      ScansAt(a, s, b, x, t + k);
      ApartAfter(x, Out(b, t + k), u + j);
    }
  }

  lemma DiffersBefore(a: bool, s: bytes, u: bytes, t: bytes, w: bytes)
    requires Differs(a, s, u)
    ensures Differs(a, s + t, u + w)
  {
    hide Out, Apart;
    forall k: bytes, j: bytes ensures Apart(Out(a, s + t + k), u + w + j) {
      Assoc(s, t, k);
      Assoc(u, w, j);
    }
  }

  // ----- Single tokens

  predicate Ordinary(b: byte) { !IsBlank(b) && b != SLASH && b != QUOTE }

  lemma OneByte(b: byte, x: bytes)
    ensures IsBlank(b) ==> Outside([b] + x) == Outside(x)
    ensures Ordinary(b) ==> Outside([b] + x) == [b] + Outside(x)
    ensures b != QUOTE && b != BACKSLASH ==> Inside([b] + x) == [b] + Inside(x)
    ensures x != [] && x[0] != QUOTE && b != QUOTE ==> Inside([b] + x) == [b] + Inside(x)
    ensures Outside([QUOTE] + x) == [QUOTE] + Inside(x)
    ensures Inside([QUOTE] + x) == [QUOTE] + Outside(x)
  {
    assert ([b] + x)[1..] == x && ([QUOTE] + x)[1..] == x;
  }

  lemma {:induction false} BlanksDropped(t: bytes, k: bytes)
    requires forall i :: 0 <= i < |t| ==> IsBlank(t[i])
    ensures Outside(t + k) == Outside(k)
  {
    hide Outside, IsBlank;
    if t == [] {
      assert t + k == k;
    } else {
      BlanksDropped(t[1..], k);
      OneByte(t[0], t[1..] + k);
      assert t + k == [t[0]] + (t[1..] + k);
    }
  }

  lemma ScansBlanks(t: bytes)
    requires forall i :: 0 <= i < |t| ==> IsBlank(t[i])
    ensures Scans(false, t, false, [])
  {
    hide Outside, Inside, IsBlank;
    forall k: bytes ensures Out(false, t + k) == [] + Out(false, k) {
      BlanksDropped(t, k);
    }
  }

  lemma {:induction false} OrdinaryKept(t: bytes, k: bytes)
    requires forall i :: 0 <= i < |t| ==> Ordinary(t[i])
    ensures Outside(t + k) == t + Outside(k)
  {
    hide Outside, Ordinary;
    if t == [] {
      assert t + k == k && t + Outside(k) == Outside(k);
    } else {
      OrdinaryKept(t[1..], k);
      OneByte(t[0], t[1..] + k);
      assert t + k == [t[0]] + (t[1..] + k);
      assert t + Outside(k) == [t[0]] + (t[1..] + Outside(k));
    }
  }

  lemma ScansOrdinary(t: bytes)
    requires forall i :: 0 <= i < |t| ==> Ordinary(t[i])
    ensures Scans(false, t, false, t)
  {
    hide Outside, Inside, Ordinary;
    forall k: bytes ensures Out(false, t + k) == t + Out(false, k) {
      OrdinaryKept(t, k);
    }
  }

  /** In a literal any byte but a quote or a backslash is kept as it is. */
  lemma {:induction false} LiteralKept(t: bytes, k: bytes)
    requires forall i :: 0 <= i < |t| ==> t[i] != QUOTE && t[i] != BACKSLASH
    ensures Inside(t + k) == t + Inside(k)
  {
    hide Inside;
    if t == [] {
      assert t + k == k && t + Inside(k) == Inside(k);
    } else {
      LiteralKept(t[1..], k);
      OneByte(t[0], t[1..] + k);
      assert t + k == [t[0]] + (t[1..] + k);
      assert t + Inside(k) == [t[0]] + (t[1..] + Inside(k));
    }
  }

  predicate EndsInBackslash(s: bytes) {
    s != [] && s[|s| - 1] == BACKSLASH
  }

  lemma EscapedQuote(x: bytes)
    ensures Inside([BACKSLASH, QUOTE] + x) == [BACKSLASH, QUOTE] + Inside(x)
  {
    assert ([BACKSLASH, QUOTE] + x)[2..] == x;
  }

  lemma EscapedBackslash(x: bytes)
    requires x != [] && x[0] != QUOTE
    ensures Inside([BACKSLASH, BACKSLASH] + x) == [BACKSLASH, BACKSLASH] + Inside(x)
  {
    hide Inside;
    OneByte(BACKSLASH, x);
    OneByte(BACKSLASH, [BACKSLASH] + x);
    assert [BACKSLASH, BACKSLASH] + x == [BACKSLASH] + ([BACKSLASH] + x);
    assert [BACKSLASH, BACKSLASH] + Inside(x) == [BACKSLASH] + ([BACKSLASH] + Inside(x));
  }

  lemma EscapedControl(t: bytes, x: bytes)
    requires t != [] && forall i :: 0 <= i < |t| ==> t[i] != QUOTE && t[i] != BACKSLASH
    ensures Inside([BACKSLASH] + t + x) == [BACKSLASH] + t + Inside(x)
  {
    hide Inside;
    LiteralKept(t, x);
    OneByte(BACKSLASH, t + x);
    Assoc([BACKSLASH], t, x);
    Assoc([BACKSLASH], t, Inside(x));
  }

  lemma EscapeShape(b: byte)
    ensures var t := EscapeByte(b);
            if b == QUOTE || b == BACKSLASH then t == [BACKSLASH, b]
            else if |t| == 1 then t == [b]
            else |t| > 1 && t == [BACKSLASH] + t[1..] && forall i :: 1 <= i < |t| ==> t[i] != QUOTE && t[i] != BACKSLASH
  {
  }

  /** One escaped byte of a literal, followed by something that does not start with a quote unless
      the byte is no backslash. */
  lemma EscapedByteKept(b: byte, x: bytes)
    requires x != [] && (b == BACKSLASH ==> x[0] != QUOTE)
    ensures Inside(EscapeByte(b) + x) == EscapeByte(b) + Inside(x)
  {
    hide Inside, EscapeByte;
    EscapeShape(b);
    var t := EscapeByte(b);
    if b == BACKSLASH {
      EscapedBackslash(x);
    } else if b == QUOTE {
      EscapedQuote(x);
    } else if |t| == 1 {
      OneByteNot(b);
      OneByte(b, x);
    } else {
      EscapedControl(t[1..], x);
    }
  }

  lemma OneByteNot(b: byte)
    requires |EscapeByte(b)| == 1
    ensures b != QUOTE && b != BACKSLASH
  {
  }

  lemma {:induction false} EscapeStart(s: bytes)
    ensures Escape(s) + [QUOTE] != []
    ensures s != [] ==> (Escape(s) + [QUOTE])[0] != QUOTE
  {
  }

  /** The body of a printed string and its closing quote: a string that ends in a backslash swallows the quote. */
  lemma {:induction false} ScansBody(s: bytes, k: bytes)
    ensures Inside(Escape(s) + [QUOTE] + k) == Escape(s) + [QUOTE] + Out(EndsInBackslash(s), k)
  {
    hide EscapeByte, Inside, Outside;
    if s == [] {
      OneByte(QUOTE, k);
      assert Escape(s) + [QUOTE] == [QUOTE];
    } else if |s| == 1 && s[0] == BACKSLASH {
      LastBackslash(s, k);
    } else {
      var t, rest := EscapeByte(s[0]), Escape(s[1..]);
      var x := rest + [QUOTE] + k;
      EscapeStart(s[1..]);
      assert x[0] == (rest + [QUOTE])[0];
      EscapedByteKept(s[0], x);
      ScansBody(s[1..], k);
      Regroup(t, rest, k);
      Regroup(t, rest, Out(EndsInBackslash(s), k));
    }
  }

  lemma Regroup(t: bytes, rest: bytes, k: bytes)
    ensures (t + rest) + [QUOTE] + k == t + (rest + [QUOTE] + k)
  {
    Assoc(t, rest, [QUOTE]);
    Assoc(t, rest + [QUOTE], k);
  }

  lemma LastBackslash(s: bytes, k: bytes)
    requires |s| == 1 && s[0] == BACKSLASH
    ensures Inside(Escape(s) + [QUOTE] + k) == Escape(s) + [QUOTE] + Inside(k)
  {
    hide Inside;
    assert s[1..] == [] && Escape(s) == [BACKSLASH, BACKSLASH];
    EscapedQuote(k);
    OneByte(BACKSLASH, [BACKSLASH, QUOTE] + k);
    assert [BACKSLASH, BACKSLASH] + [QUOTE] + k == [BACKSLASH] + ([BACKSLASH, QUOTE] + k);
    assert [BACKSLASH, BACKSLASH] + [QUOTE] + Inside(k) == [BACKSLASH] + ([BACKSLASH, QUOTE] + Inside(k));
  }

  lemma ScansQuoted(s: bytes)
    ensures Scans(false, Quoted(s), EndsInBackslash(s), Quoted(s))
  {
    hide Inside, Outside, Escape, EndsInBackslash;
    forall k: bytes ensures Out(false, Quoted(s) + k) == Quoted(s) + Out(EndsInBackslash(s), k) {
      ScansBody(s, k);
      var e := Escape(s) + [QUOTE];
      Assoc([QUOTE], Escape(s), [QUOTE]);
      Assoc([QUOTE], e, k);
      Assoc([QUOTE], e, Out(EndsInBackslash(s), k));
      OneByte(QUOTE, e + k);
    }
  }

  /** While a literal is open, kept formatting whitespace shows against the unformatted text. */
  lemma DiffersOpen(p: bytes, w: byte, c: byte)
    requires forall i :: 0 <= i < |p| ==> p[i] != QUOTE && p[i] != BACKSLASH
    requires IsBlank(w) && c != w
    ensures Differs(true, p + [w], p + [c])
  {
    hide Inside, Outside;
    forall k: bytes, j: bytes ensures Apart(Out(true, p + [w] + k), p + [c] + j) {
      LiteralKept(p + [w], k);
      assert (p + [w] + Inside(k))[|p|] == w && (p + [c] + j)[|p|] == c;
    }
  }

  // ----- Trees

  /** No string or key in the tree ends in a backslash. */
  predicate Clean(v: Value) {
    match v {
      case Text(s) => !EndsInBackslash(s)
      case Array(items) => CleanItems(items)
      case Object(members) => CleanMembers(members)
      case _ => true
    }
  }

  predicate CleanItems(items: seq<Value>) {
    items == [] || (Clean(items[0]) && CleanItems(items[1..]))
  }

  predicate CleanMembers(members: seq<Member>) {
    members == [] || (!EndsInBackslash(members[0].key) && Clean(members[0].value) && CleanMembers(members[1..]))
  }

  /** The only string that may end in a backslash is the last thing in the tree: the tree itself,
      or the last element of an array that is in turn in such a place. */
  predicate Unformattable(v: Value) {
    match v {
      case Text(s) => true
      case Array(items) => LastUnformattable(items)
      case _ => Clean(v)
    }
  }

  predicate LastUnformattable(items: seq<Value>) {
    items == []
    || (|items| == 1 && Unformattable(items[0]))
    || (|items| > 1 && Clean(items[0]) && LastUnformattable(items[1..]))
  }

  // ----- Trees without such strings

  lemma ScansScalar(v: Value, depth: nat)
    requires Printable(v) && !v.Text? && !v.Array? && !v.Object?
    ensures Scans(false, Serial(v, true, depth), false, Serial(v, false, depth))
  {
    if v.Number? { IntTextRead(v.number.Floor); }
    ScansOrdinary(Serial(v, true, depth));
  }

  lemma ScansPunctuation(depth: nat, last: bool)
    ensures Scans(false, [LBRACKET], false, [LBRACKET]) && Scans(false, [RBRACKET], false, [RBRACKET])
    ensures Scans(false, Opening(true), false, Opening(false)) && Scans(false, [RBRACE], false, [RBRACE])
    ensures Scans(false, ItemSeparator(true), false, ItemSeparator(false))
    ensures Scans(false, KeySeparator(true), false, KeySeparator(false))
    ensures Scans(false, Indent(true, depth), false, [])
    ensures Scans(false, MemberEnd(true, last), false, MemberEnd(false, last))
  {
    hide Scans;
    ScansNothing(false);
    ScansOrdinary([LBRACKET]);
    ScansOrdinary([RBRACKET]);
    ScansOrdinary([LBRACE]);
    ScansOrdinary([RBRACE]);
    ScansOrdinary([COMMA]);
    ScansOrdinary([COLON]);
    ScansBlanks([NEWLINE]);
    ScansBlanks([SPACE]);
    ScansBlanks([TAB]);
    ScansBlanks(Indent(true, depth));
    ScansJoin(false, [LBRACE], false, [LBRACE], [NEWLINE], false, []);
    assert [LBRACE] + [NEWLINE] == Opening(true) && [LBRACE] + [] == Opening(false);
    ScansJoin(false, [COMMA], false, [COMMA], [SPACE], false, []);
    assert [COMMA] + [SPACE] == ItemSeparator(true) && [COMMA] + [] == ItemSeparator(false);
    ScansJoin(false, [COLON], false, [COLON], [TAB], false, []);
    assert [COLON] + [TAB] == KeySeparator(true) && [COLON] + [] == KeySeparator(false);
    ScansJoin(false, [COMMA], false, [COMMA], [NEWLINE], false, []);
    if last {
      assert MemberEnd(true, last) == [NEWLINE] && MemberEnd(false, last) == [];
    } else {
      assert MemberEnd(true, last) == [COMMA] + [NEWLINE] && MemberEnd(false, last) == [COMMA] + [];
    }
  }

  /** Minifying the formatted print of a clean tree keeps the unformatted print and closes every literal. */
  lemma {:induction false} CleanScans(v: Value, depth: nat)
    requires Printable(v) && Clean(v)
    ensures Scans(false, Serial(v, true, depth), false, Serial(v, false, depth))
    decreases v, 1
  {
    hide Scans, PrintableItems, PrintableMembers, CleanItems, CleanMembers, ItemsSerial, MembersSerial, Quoted,
         EndsInBackslash;
    match v {
      case Text(s) => ScansQuoted(s);
      case Array(items) =>
        CleanItemsScans(items, depth + 1);
        ScansPunctuation(depth, true);
        ArrayScans(items, depth, false);
      case Object(members) =>
        CleanMembersScans(members, depth + 1);
        ObjectScans(members, depth);
      case _ => ScansScalar(v, depth);
    }
  }

  lemma ArrayScans(items: seq<Value>, depth: nat, to: bool)
    requires Scans(false, ItemsSerial(items, true, depth + 1), to, ItemsSerial(items, false, depth + 1))
    ensures Scans(false, Serial(Array(items), true, depth), to, Serial(Array(items), false, depth))
  {
    hide Scans, ItemsSerial;
    var body, kept := ItemsSerial(items, true, depth + 1), ItemsSerial(items, false, depth + 1);
    ScansPunctuation(depth, true);
    ScansBracketOpen();
    ScansJoin(false, [LBRACKET], false, [LBRACKET], body, to, kept);
    ScansJoin(false, [LBRACKET] + body, to, [LBRACKET] + kept, [RBRACKET], to, [RBRACKET]);
  }

  lemma ScansBracketOpen()
    ensures Scans(true, [RBRACKET], true, [RBRACKET])
  {
    hide Inside, Outside;
    forall k: bytes ensures Out(true, [RBRACKET] + k) == [RBRACKET] + Out(true, k) {
      LiteralKept([RBRACKET], k);
    }
  }

  lemma ObjectScans(members: seq<Member>, depth: nat)
    requires Scans(false, MembersSerial(members, true, depth + 1), false, MembersSerial(members, false, depth + 1))
    ensures Scans(false, Serial(Object(members), true, depth), false, Serial(Object(members), false, depth))
  {
    hide Scans, MembersSerial, Opening;
    var body, kept := MembersSerial(members, true, depth + 1), MembersSerial(members, false, depth + 1);
    ScansPunctuation(depth, true);
    ScansJoin(false, Opening(true), false, Opening(false), body, false, kept);
    ScansJoin(false, Opening(true) + body, false, Opening(false) + kept, Indent(true, depth), false, []);
    ScansJoin(false, Opening(true) + body + Indent(true, depth), false, Opening(false) + kept + [],
              [RBRACE], false, [RBRACE]);
  }

  lemma {:induction false} CleanItemsScans(items: seq<Value>, depth: nat)
    requires PrintableItems(items) && CleanItems(items)
    ensures Scans(false, ItemsSerial(items, true, depth), false, ItemsSerial(items, false, depth))
    decreases items, 0
  {
    hide Scans, Printable, Clean, Serial, ItemSeparator;
    ScansNothing(false);
    if items != [] {
      CleanScans(items[0], depth);
      if |items| > 1 {
        CleanItemsScans(items[1..], depth);
        ItemsScans(items, depth, false);
      }
    }
  }

  lemma ItemsScans(items: seq<Value>, depth: nat, to: bool)
    requires |items| > 1
    requires Scans(false, Serial(items[0], true, depth), false, Serial(items[0], false, depth))
    requires Scans(false, ItemsSerial(items[1..], true, depth), to, ItemsSerial(items[1..], false, depth))
    ensures Scans(false, ItemsSerial(items, true, depth), to, ItemsSerial(items, false, depth))
  {
    hide Scans, Serial, ItemSeparator;
    var t, x := Serial(items[0], true, depth), Serial(items[0], false, depth);
    ScansPunctuation(depth, true);
    ScansJoin(false, t, false, x, ItemSeparator(true), false, ItemSeparator(false));
    ScansJoin(false, t + ItemSeparator(true), false, x + ItemSeparator(false),
              ItemsSerial(items[1..], true, depth), to, ItemsSerial(items[1..], false, depth));
  }

  lemma ScansKey(m: Member, depth: nat)
    requires !EndsInBackslash(m.key)
    ensures Scans(false, MemberHead(m, true, depth), false, MemberHead(m, false, depth))
  {
    hide Scans, Quoted, KeySeparator, EndsInBackslash;
    ScansPunctuation(depth, true);
    ScansQuoted(m.key);
    ScansJoin(false, Indent(true, depth), false, Indent(false, depth), Quoted(m.key), false, Quoted(m.key));
    ScansJoin(false, Indent(true, depth) + Quoted(m.key), false, Indent(false, depth) + Quoted(m.key),
              KeySeparator(true), false, KeySeparator(false));
  }

  lemma {:induction false} CleanMembersScans(members: seq<Member>, depth: nat)
    requires PrintableMembers(members) && CleanMembers(members)
    ensures Scans(false, MembersSerial(members, true, depth), false, MembersSerial(members, false, depth))
    decreases members, 0
  {
    hide Scans, Printable, Clean, Serial, MemberHead, MemberEnd, NulFree, EndsInBackslash;
    ScansNothing(false);
    if members != [] {
      var m, last := members[0], |members| == 1;
      var t, x := MemberHead(m, true, depth), MemberHead(m, false, depth);
      ScansKey(m, depth);
      CleanScans(m.value, depth);
      ScansPunctuation(depth, last);
      CleanMembersScans(members[1..], depth);
      var vt, vx := Serial(m.value, true, depth), Serial(m.value, false, depth);
      ScansJoin(false, t, false, x, vt, false, vx);
      ScansJoin(false, t + vt, false, x + vx, MemberEnd(true, last), false, MemberEnd(false, last));
      ScansJoin(false, t + vt + MemberEnd(true, last), false, x + vx + MemberEnd(false, last),
                MembersSerial(members[1..], true, depth), false, MembersSerial(members[1..], false, depth));
    }
  }

  // ----- Trees whose last string swallows its quote

  lemma {:induction false} OpenScans(v: Value, depth: nat)
    requires Printable(v) && Unformattable(v) && !Clean(v)
    ensures Scans(false, Serial(v, true, depth), true, Serial(v, false, depth))
    decreases v, 1
  {
    hide Scans, PrintableItems, LastUnformattable, CleanItems, ItemsSerial, Quoted, EndsInBackslash;
    match v {
      case Text(s) => ScansQuoted(s);
      case Array(items) =>
        OpenItemsScans(items, depth + 1);
        ArrayScans(items, depth, true);
    }
  }

  lemma {:induction false} OpenItemsScans(items: seq<Value>, depth: nat)
    requires PrintableItems(items) && LastUnformattable(items) && !CleanItems(items)
    ensures Scans(false, ItemsSerial(items, true, depth), true, ItemsSerial(items, false, depth))
    decreases items, 0
  {
    hide Scans, Printable, Clean, Unformattable, Serial, ItemSeparator;
    if |items| == 1 {
      assert items[1..] == [];
      OpenScans(items[0], depth);
    } else {
      CleanScans(items[0], depth);
      OpenItemsScans(items[1..], depth);
      ItemsScans(items, depth, true);
    }
  }

  // ----- All other trees

  lemma OpenBefore(p: bytes, w: byte, t: bytes, u: bytes)
    requires forall i :: 0 <= i < |p| ==> p[i] != QUOTE && p[i] != BACKSLASH
    requires IsBlank(w) && u != [] && u[0] != w
    ensures Differs(true, p + [w] + t, p + u)
  {
    hide Differs;
    DiffersOpen(p, w, u[0]);
    DiffersBefore(true, p + [w], p + [u[0]], t, u[1..]);
    assert p + [u[0]] + u[1..] == p + u;
  }

  lemma {:induction false} BadDiffers(v: Value, depth: nat)
    requires Printable(v) && !Unformattable(v)
    ensures Differs(false, Serial(v, true, depth), Serial(v, false, depth))
    decreases v, 1
  {
    hide Scans, Differs, PrintableItems, PrintableMembers, LastUnformattable, CleanMembers, ItemsSerial, MembersSerial;
    match v {
      case Array(items) =>
        BadItemsDiffer(items, depth + 1);
        ScansPunctuation(depth, true);
        var t, u := ItemsSerial(items, true, depth + 1), ItemsSerial(items, false, depth + 1);
        DiffersAfter(false, [LBRACKET], false, [LBRACKET], t, u);
        DiffersBefore(false, [LBRACKET] + t, [LBRACKET] + u, [RBRACKET], [RBRACKET]);
      case Object(members) =>
        BadMembersDiffer(members, depth + 1, Indent(true, depth) + [RBRACE]);
        ObjectDiffers(members, depth);
      case _ =>
    }
  }

  lemma ObjectDiffers(members: seq<Member>, depth: nat)
    requires Differs(false, MembersSerial(members, true, depth + 1) + (Indent(true, depth) + [RBRACE]),
                     MembersSerial(members, false, depth + 1) + [RBRACE])
    ensures Differs(false, Serial(Object(members), true, depth), Serial(Object(members), false, depth))
  {
    hide Scans, Differs, MembersSerial, Opening;
    var t, u := MembersSerial(members, true, depth + 1), MembersSerial(members, false, depth + 1);
    ScansPunctuation(depth, true);
    DiffersAfter(false, Opening(true), false, Opening(false), t + (Indent(true, depth) + [RBRACE]), u + [RBRACE]);
    Assoc(Opening(true) + t, Indent(true, depth), [RBRACE]);
    Assoc(Opening(true), t, Indent(true, depth) + [RBRACE]);
    Assoc(Opening(false), u, [RBRACE]);
    assert Opening(false) + u + Indent(false, depth) == Opening(false) + u;
  }

  lemma {:induction false} BadItemsDiffer(items: seq<Value>, depth: nat)
    requires PrintableItems(items) && !LastUnformattable(items)
    ensures Differs(false, ItemsSerial(items, true, depth), ItemsSerial(items, false, depth))
    decreases items, 0
  {
    hide Scans, Differs, Printable, Clean, Unformattable, Serial;
    if |items| == 1 {
      BadDiffers(items[0], depth);
    } else {
      var t, u := Serial(items[0], true, depth), Serial(items[0], false, depth);
      var st, su := ItemSeparator(true), ItemSeparator(false);
      var rt, ru := ItemsSerial(items[1..], true, depth), ItemsSerial(items[1..], false, depth);
      Assoc(t, st, rt);
      Assoc(u, su, ru);
      if !Unformattable(items[0]) {
        BadDiffers(items[0], depth);
        DiffersBefore(false, t, u, st + rt, su + ru);
      } else if !Clean(items[0]) {
        OpenScans(items[0], depth);
        ItemsFirst(items[1..], depth);
        OpenBefore([COMMA], SPACE, rt, ru);
        assert st == [COMMA] + [SPACE];
        DiffersAfter(false, t, true, u, st + rt, su + ru);
      } else {
        CleanScans(items[0], depth);
        BadItemsDiffer(items[1..], depth);
        ScansPunctuation(depth, true);
        ScansJoin(false, t, false, u, st, false, su);
        DiffersAfter(false, t + st, false, u + su, rt, ru);
      }
    }
  }

  lemma ItemsFirst(items: seq<Value>, depth: nat)
    requires items != []
    ensures ItemsSerial(items, false, depth) != [] && ItemsSerial(items, false, depth)[0] != SPACE
  {
    hide Serial;
    SerialStart(items[0], false, depth);
  }

  lemma MembersFirst(members: seq<Member>, depth: nat)
    requires members != []
    ensures MembersSerial(members, false, depth) != [] && MembersSerial(members, false, depth)[0] == QUOTE
  {
    hide Serial, Quoted;
    QuotedStart(members[0].key);
    assert MemberHead(members[0], false, depth)[0] == Quoted(members[0].key)[0];
  }

  lemma {:induction false} BadMembersDiffer(members: seq<Member>, depth: nat, tail: bytes)
    requires PrintableMembers(members) && !CleanMembers(members)
    ensures Differs(false, MembersSerial(members, true, depth) + tail, MembersSerial(members, false, depth) + [RBRACE])
    decreases members, 0
  {
    hide Scans, Differs, Printable, Clean, Unformattable, Serial, MemberHead, MemberEnd, NulFree, EndsInBackslash;
    var m, last := members[0], |members| == 1;
    var rt, ru := MembersSerial(members[1..], true, depth), MembersSerial(members[1..], false, depth);
    var t, u := MemberHead(m, true, depth), MemberHead(m, false, depth);
    var vt, vu := Serial(m.value, true, depth), Serial(m.value, false, depth);
    var et, eu := MemberEnd(true, last), MemberEnd(false, last);
    MembersGroups(t, vt, et, rt, tail);
    MembersGroups(u, vu, eu, ru, [RBRACE]);
    if EndsInBackslash(m.key) {
      BadKeyDiffers(m, depth);
      DiffersBefore(false, t + vt, u + vu, et + (rt + tail), eu + (ru + [RBRACE]));
    } else {
      ScansKey(m, depth);
      if !Unformattable(m.value) {
        BadDiffers(m.value, depth);
        DiffersAfter(false, t, false, u, vt, vu);
        DiffersBefore(false, t + vt, u + vu, et + (rt + tail), eu + (ru + [RBRACE]));
      } else if !Clean(m.value) {
        OpenScans(m.value, depth);
        ScansJoin(false, t, false, u, vt, true, vu);
        OpenEndDiffers(members, depth, rt + tail, ru + [RBRACE]);
        DiffersAfter(false, t + vt, true, u + vu, et + (rt + tail), eu + (ru + [RBRACE]));
      } else {
        CleanScans(m.value, depth);
        BadMembersDiffer(members[1..], depth, tail);
        ScansPunctuation(depth, last);
        ScansJoin(false, t, false, u, vt, false, vu);
        ScansJoin(false, t + vt, false, u + vu, et, false, eu);
        DiffersAfter(false, t + vt + et, false, u + vu + eu, rt + tail, ru + [RBRACE]);
        Assoc(t + vt, et, rt + tail);
        Assoc(u + vu, eu, ru + [RBRACE]);
      }
    }
  }

  lemma MembersGroups(head: bytes, value: bytes, end: bytes, rest: bytes, tail: bytes)
    ensures head + value + end + rest + tail == head + value + (end + (rest + tail))
  {
    Assoc(head + value + end, rest, tail);
    Assoc(head + value, end, rest + tail);
  }

  lemma BadKeyDiffers(m: Member, depth: nat)
    requires EndsInBackslash(m.key)
    ensures Differs(false, MemberHead(m, true, depth) + Serial(m.value, true, depth),
                    MemberHead(m, false, depth) + Serial(m.value, false, depth))
  {
    hide Scans, Differs, Quoted, Serial, EndsInBackslash;
    var it, iu, q := Indent(true, depth), Indent(false, depth), Quoted(m.key);
    var vt, vu := Serial(m.value, true, depth), Serial(m.value, false, depth);
    ScansPunctuation(depth, true);
    ScansQuoted(m.key);
    ScansJoin(false, it, false, iu, q, true, q);
    SerialStart(m.value, false, depth);
    OpenBefore([COLON], TAB, vt, vu);
    assert [COLON] + [TAB] == KeySeparator(true) && KeySeparator(false) == [COLON];
    DiffersAfter(false, it + q, true, iu + q, KeySeparator(true) + vt, KeySeparator(false) + vu);
    Assoc(it + q, KeySeparator(true), vt);
    Assoc(iu + q, KeySeparator(false), vu);
  }

  /** Behind an open literal, a member's newline is kept. */
  lemma OpenEndDiffers(members: seq<Member>, depth: nat, rest: bytes, kept: bytes)
    requires members != [] && kept == MembersSerial(members[1..], false, depth) + [RBRACE]
    ensures Differs(true, MemberEnd(true, |members| == 1) + rest, MemberEnd(false, |members| == 1) + kept)
  {
    hide Differs, MembersSerial;
    if |members| == 1 {
      assert members[1..] == [];
      NoMembersSerial(false, depth);
      OpenBefore([], NEWLINE, rest, kept);
      assert [] + [NEWLINE] == MemberEnd(true, true) && [] + kept == MemberEnd(false, true) + kept;
    } else {
      MembersFirst(members[1..], depth);
      OpenBefore([COMMA], NEWLINE, rest, kept);
      assert [COMMA] + [NEWLINE] == MemberEnd(true, false) && [COMMA] + kept == MemberEnd(false, false) + kept;
    }
  }

  // ----- The theorem

  /** Minifying the formatted print of a tree gives its unformatted print if and only if no string
      or key but the very last thing in the tree ends in a backslash. */
  lemma MinifyUndoesFormatting(v: Value)
    requires Printable(v)
    ensures Outside(Serial(v, true, 0)) == Serial(v, false, 0) <==> Unformattable(v)
  {
    hide Scans, Differs, Serial, Printable, Unformattable, Clean;
    var t, u := Serial(v, true, 0), Serial(v, false, 0);
    assert t + [] == t && u + [] == u;
    if !Unformattable(v) {
      BadDiffers(v, 0);
      DiffersAt(t, u);
    } else if Clean(v) {
      CleanScans(v, 0);
      ScansAt(false, t, false, u, []);
    } else {
      OpenScans(v, 0);
      ScansAt(false, t, true, u, []);
    }
  }

  lemma DiffersAt(t: bytes, u: bytes)
    requires Differs(false, t, u)
    ensures Outside(t) != u
  {
    hide Outside, Inside;
    assert t + [] == t && u + [] == u;
    assert Apart(Out(false, t + []), u + []);
  }

  lemma {:induction false} CleanIsUnformattable(v: Value)
    requires Clean(v)
    ensures Unformattable(v)
    decreases v, 1
  {
    if v.Array? { CleanItemsLast(v.items); }
  }

  lemma {:induction false} CleanItemsLast(items: seq<Value>)
    requires CleanItems(items)
    ensures LastUnformattable(items)
    decreases items, 0
  {
    if items != [] {
      CleanIsUnformattable(items[0]);
      CleanItemsLast(items[1..]);
    }
  }

  /** A tree for which minifying does not undo formatting: an element behind a string that ends in a backslash. */
  lemma MinifyKeepsABlank()
    ensures var v := Array([Text([BACKSLASH]), Null]);
            Printable(v) && Outside(Serial(v, true, 0)) != Serial(v, false, 0)
  {
    var items := [Text([BACKSLASH]), Null];
    var v := Array(items);
    assert items[1..] == [Null] && items[1..][1..] == [];
    assert Printable(items[0]) && Printable(Null) && PrintableItems([Null]);
    assert !Unformattable(v);
    MinifyUndoesFormatting(v);
  }
}
