/** The parser as a function of the text: which tree it builds from an offset, or where it gives up. */
module JsonParser {
  import opened Bytes
  import opened Numbers
  import opened StringCodec
  import opened Json

  const NESTING_LIMIT: nat := 1000

  /** The parse buffer's content: a C string with its terminator. */
  predicate Terminated(c: bytes) {
    |c| > 0 && c[|c| - 1] == NUL && forall k :: 0 <= k < |c| - 1 ==> c[k] != NUL
  }

  /** The first byte above space from `o` on. */
  function Blanks(c: bytes, o: nat): (r: nat)
    requires o <= |c|
    ensures o <= r <= |c|
    ensures r < |c| ==> c[r] > SPACE
    ensures forall k :: o <= k < r ==> c[k] <= SPACE
    decreases |c| - o
  {
    if o < |c| && c[o] <= SPACE then Blanks(c, o + 1) else o
  }

  /** buffer_skip_whitespace: the terminator counts as blank, and running past it steps back onto it. */
  function SkipBlanks(c: bytes, o: nat): (r: nat)
    requires |c| > 0 && o < |c|
    ensures o <= r < |c|
  {
    if Blanks(c, o) == |c| then |c| - 1 else Blanks(c, o)
  }

  datatype Parsed = Parsed(value: Value, offset: nat) | Failed(offset: nat)
  datatype Items = Items(items: seq<Value>, offset: nat) | NoItems(offset: nat)
  {
    function Prepend(s: seq<Value>): Items {
      if Items? then Items(s + items, offset) else this
    }
  }
  datatype Members = Members(members: seq<Member>, offset: nat) | NoMembers(offset: nat)
  {
    function Prepend(s: seq<Member>): Members {
      if Members? then Members(s + members, offset) else this
    }
  }

  /** The offset after a successful parse: further on, and still on a byte of the buffer. */
  predicate Advanced(c: bytes, from: nat, to: nat) { from < to < |c| }

  function ParseNumber(c: bytes, o: nat): (r: Parsed)
    requires Terminated(c) && o < |c|
    ensures r.Parsed? ==> Advanced(c, o, r.offset)
  {
    var n := Span(c, o, 63);
    var r := Strtod(c[o..o + n]);
    assert n > 0 ==> NumberByte(c[o + n - 1]);
    if r.length == 0 then Failed(o) else Parsed(Number(r.value), o + r.length)
  }

  function ParseText(c: bytes, o: nat): (r: Parsed)
    requires Terminated(c) && o < |c|
    ensures r.Parsed? ==> Advanced(c, o, r.offset)
  {
    match ReadString(c, o) {
      case StringFailed(at) => Failed(at)
      case StringRead(text, at) => Parsed(Text(CString(text)), at)
    }
  }

  /** The literal names, tried in the order null, false, true. */
  function ParseName(c: bytes, o: nat): (r: Parsed)
    requires Terminated(c) && o < |c|
    ensures r.Parsed? ==> Advanced(c, o, r.offset)
  {
    if At(c, o, NULL_TEXT) then AtKeyword(c, o, NULL_TEXT); Parsed(Null, o + 4)
    else if At(c, o, FALSE_TEXT) then AtKeyword(c, o, FALSE_TEXT); Parsed(False, o + 5)
    else if At(c, o, TRUE_TEXT) then AtKeyword(c, o, TRUE_TEXT); Parsed(True, o + 4)
    else Failed(o)
  }

  /** parse_value at `o` inside `depth` open containers. */
  function Parse(c: bytes, o: nat, depth: nat): (r: Parsed)
    requires Terminated(c) && o < |c|
    ensures r.Parsed? ==> Advanced(c, o, r.offset)
    decreases |c| - o, 2
  {
    if ParseName(c, o).Parsed? then ParseName(c, o)
    else if c[o] == QUOTE then ParseText(c, o)
    else if c[o] == MINUS || IsDigit(c[o]) then ParseNumber(c, o)
    else if c[o] == LBRACKET then ParseArray(c, o, depth)
    else if c[o] == LBRACE then ParseObject(c, o, depth)
    else Failed(o)
  }

  function ParseArray(c: bytes, o: nat, depth: nat): (r: Parsed)
    requires Terminated(c) && o < |c| && c[o] == LBRACKET
    ensures r.Parsed? ==> Advanced(c, o, r.offset)
    decreases |c| - o, 1
  {
    if depth >= NESTING_LIMIT then Failed(o)
    else
      var first := SkipBlanks(c, o + 1);
      if c[first] == RBRACKET then Parsed(Array([]), first + 1)
      else
        match ParseItems(c, o, depth + 1) {
          case NoItems(at) => Failed(at)
          case Items(items, at) =>
            if c[at] == RBRACKET then Parsed(Array(items), at + 1) else Failed(at)
        }
  }

  function ParseObject(c: bytes, o: nat, depth: nat): (r: Parsed)
    requires Terminated(c) && o < |c| && c[o] == LBRACE
    ensures r.Parsed? ==> Advanced(c, o, r.offset)
    decreases |c| - o, 1
  {
    if depth >= NESTING_LIMIT then Failed(o)
    else
      var first := SkipBlanks(c, o + 1);
      if c[first] == RBRACE then Parsed(Object([]), first + 1)
      else
        match ParseMembers(c, o, depth + 1) {
          case NoMembers(at) => Failed(at)
          case Members(members, at) =>
            if c[at] == RBRACE then Parsed(Object(members), at + 1) else Failed(at)
        }
  }

  /** The comma separated values behind the byte at `o`; the offset is where the list stops. */
  function ParseItems(c: bytes, o: nat, depth: nat): (r: Items)
    requires Terminated(c) && o < |c| && c[o] != NUL
    ensures r.Items? ==> Advanced(c, o, r.offset)
    decreases |c| - o, 0
  {
    match Parse(c, SkipBlanks(c, o + 1), depth) {
      case Failed(at) => NoItems(at)
      case Parsed(v, at) =>
        var next := SkipBlanks(c, at);
        if c[next] == COMMA then ParseItems(c, next, depth).Prepend([v])
        else Items([v], next)
    }
  }

  function ParseMembers(c: bytes, o: nat, depth: nat): (r: Members)
    requires Terminated(c) && o < |c| && c[o] != NUL
    ensures r.Members? ==> Advanced(c, o, r.offset)
    decreases |c| - o, 0
  {
    match ReadString(c, SkipBlanks(c, o + 1)) {
      case StringFailed(at) => NoMembers(at)
      case StringRead(text, keyEnd) =>
        var colon := SkipBlanks(c, keyEnd);
        if c[colon] != COLON then NoMembers(colon)
        else
          match Parse(c, SkipBlanks(c, colon + 1), depth) {
            case Failed(at) => NoMembers(at)
            case Parsed(v, at) =>
              var next := SkipBlanks(c, at);
              var m := Member(CString(text), v);
              if c[next] == COMMA then ParseMembers(c, next, depth).Prepend([m])
              else Members([m], next)
          }
    }
  }

  lemma AtKeyword(c: bytes, o: nat, t: bytes)
    requires Terminated(c) && At(c, o, t) && |t| > 0 && t[|t| - 1] != NUL
    ensures o + |t| < |c|
  {
    AtIndex(c, o, t, |t| - 1);
  }

  // ----- The turns of the loops

  lemma NotLast(c: bytes, o: nat)
    requires Terminated(c) && o < |c| && c[o] != NUL
    ensures o + 1 < |c|
  {
  }

  lemma NotAtEnd(c: bytes, o: nat)
    requires Terminated(c) && 0 < o <= |c| && c[o - 1] == QUOTE
    ensures o < |c|
  {
  }

  lemma ItemsTurn(c: bytes, o: nat, depth: nat, known: seq<Value>)
    requires Terminated(c) && o < |c| && c[o] != NUL && o + 1 < |c|
    ensures ParseItems(c, o, depth).Prepend(known) ==
            match Parse(c, SkipBlanks(c, o + 1), depth) {
              case Failed(at) => NoItems(at)
              case Parsed(v, at) =>
                var next := SkipBlanks(c, at);
                if c[next] == COMMA then ParseItems(c, next, depth).Prepend(known + [v])
                else Items(known + [v], next)
            }
  {
    hide Parse, SkipBlanks;
    match Parse(c, SkipBlanks(c, o + 1), depth) {
      case Failed(at) =>
      case Parsed(v, at) =>
        if c[SkipBlanks(c, at)] == COMMA {
          var rest := ParseItems(c, SkipBlanks(c, at), depth);
          if rest.Items? { assert known + ([v] + rest.items) == (known + [v]) + rest.items; }
        }
    }
  }

  datatype OneMember = OneMember(member: Member, offset: nat) | NoMember(offset: nat)

  /** One member at `p`: name, colon, value and the blanks behind it. */
  function ParseMember(c: bytes, p: nat, depth: nat): OneMember
    requires Terminated(c) && p < |c|
  {
    match ReadString(c, p) {
      case StringFailed(at) => NoMember(at)
      case StringRead(text, keyEnd) =>
        NotAtEnd(c, keyEnd);
        var colon := SkipBlanks(c, keyEnd);
        if c[colon] != COLON then NoMember(colon)
        else
          NotLast(c, colon);
          match Parse(c, SkipBlanks(c, colon + 1), depth) {
            case Failed(at) => NoMember(at)
            case Parsed(v, at) => OneMember(Member(CString(text), v), SkipBlanks(c, at))
          }
    }
  }

  lemma MembersTurn(c: bytes, o: nat, depth: nat, known: seq<Member>)
    requires Terminated(c) && o < |c| && c[o] != NUL && o + 1 < |c|
    ensures ParseMembers(c, o, depth).Prepend(known) ==
            match ParseMember(c, SkipBlanks(c, o + 1), depth) {
              case NoMember(at) => NoMembers(at)
              case OneMember(m, next) =>
                if next < |c| && c[next] == COMMA then ParseMembers(c, next, depth).Prepend(known + [m])
                else Members(known + [m], next)
            }
  {
    hide Parse, SkipBlanks, ReadString, CString;
    match ParseMember(c, SkipBlanks(c, o + 1), depth) {
      case NoMember(at) =>
      case OneMember(m, next) =>
        if next < |c| && c[next] == COMMA {
          var rest := ParseMembers(c, next, depth);
          if rest.Members? { assert known + ([m] + rest.members) == (known + [m]) + rest.members; }
        }
    }
  }
}
