/** JSON documents as values, and the text cJSON prints for them. */
module Json {
  import opened Bytes
  import opened Numbers
  import opened StringCodec

  datatype Value =
    | Null
    | False
    | True
    | Number(number: real)
    | Text(text: bytes)
    | Array(items: seq<Value>)
    | Object(members: seq<Member>)

  datatype Member = Member(key: bytes, value: Value)

  const NULL_TEXT: bytes := [110, 117, 108, 108]
  const FALSE_TEXT: bytes := [102, 97, 108, 115, 101]
  const TRUE_TEXT: bytes := [116, 114, 117, 101]

  /** An integer double of at most 15 digits, which %1.15g prints in plain decimal. */
  predicate PlainInteger(x: real) {
    x == x.Floor as real && -INT_LIMIT < x.Floor < INT_LIMIT
  }

  /** The trees whose printing is modelled: plain integers and C strings. */
  predicate Printable(v: Value) {
    match v {
      case Null => true
      case False => true
      case True => true
      case Number(x) => PlainInteger(x)
      case Text(s) => NulFree(s)
      case Array(items) => PrintableItems(items)
      case Object(members) => PrintableMembers(members)
    }
  }

  predicate PrintableItems(items: seq<Value>) {
    items == [] || (Printable(items[0]) && PrintableItems(items[1..]))
  }

  predicate PrintableMembers(members: seq<Member>) {
    members == [] ||
    (NulFree(members[0].key) && Printable(members[0].value) && PrintableMembers(members[1..]))
  }

  /** How many containers enclose the innermost value, counting itself. */
  function Levels(v: Value): nat {
    match v {
      case Array(items) => 1 + ItemsLevels(items)
      case Object(members) => 1 + MembersLevels(members)
      case _ => 0
    }
  }

  function Max(a: nat, b: nat): nat { if a > b then a else b }

  function ItemsLevels(items: seq<Value>): nat {
    if items == [] then 0 else Max(Levels(items[0]), ItemsLevels(items[1..]))
  }

  function MembersLevels(members: seq<Member>): nat {
    if members == [] then 0 else Max(Levels(members[0].value), MembersLevels(members[1..]))
  }

  // ----- The serialiser

  function Tabs(n: nat): (t: bytes)
    ensures |t| == n && forall k :: 0 <= k < n ==> t[k] == TAB
  {
    seq(n, i => TAB)
  }

  function ItemSeparator(fmt: bool): bytes { if fmt then [COMMA, SPACE] else [COMMA] }
  function KeySeparator(fmt: bool): bytes { if fmt then [COLON, TAB] else [COLON] }
  function Indent(fmt: bool, depth: nat): bytes { if fmt then Tabs(depth) else [] }
  function Opening(fmt: bool): bytes { if fmt then [LBRACE, NEWLINE] else [LBRACE] }
  function MemberEnd(fmt: bool, last: bool): bytes {
    (if last then [] else [COMMA]) + (if fmt then [NEWLINE] else [])
  }

  /** The text of `v` inside `depth` open containers. */
  function Serial(v: Value, fmt: bool, depth: nat): bytes
    decreases v, 1
  {
    match v {
      case Null => NULL_TEXT
      case False => FALSE_TEXT
      case True => TRUE_TEXT
      case Number(x) => IntText(x.Floor)
      case Text(s) => Quoted(s)
      case Array(items) => [LBRACKET] + ItemsSerial(items, fmt, depth + 1) + [RBRACKET]
      case Object(members) =>
        Opening(fmt) + MembersSerial(members, fmt, depth + 1) + Indent(fmt, depth) + [RBRACE]
    }
  }

  function ItemsSerial(items: seq<Value>, fmt: bool, depth: nat): bytes
    decreases items, 0
  {
    if items == [] then []
    else if |items| == 1 then Serial(items[0], fmt, depth)
    else Serial(items[0], fmt, depth) + ItemSeparator(fmt) + ItemsSerial(items[1..], fmt, depth)
  }

  function MemberHead(m: Member, fmt: bool, depth: nat): bytes {
    Indent(fmt, depth) + Quoted(m.key) + KeySeparator(fmt)
  }

  function MembersSerial(members: seq<Member>, fmt: bool, depth: nat): bytes
    decreases members, 0
  {
    if members == [] then []
    else
      MemberHead(members[0], fmt, depth) + Serial(members[0].value, fmt, depth)
      + MemberEnd(fmt, |members| == 1) + MembersSerial(members[1..], fmt, depth)
  }

  // ----- The layout

  /** The texts one after the other, with the separator between any two. */
  function Join(parts: seq<bytes>, separator: bytes): bytes {
    if parts == [] then []
    else if |parts| == 1 then parts[0]
    else parts[0] + separator + Join(parts[1..], separator)
  }

  function Tabulated(n: nat): bytes { seq(n, i => 9) }

  function Elements(items: seq<Value>, fmt: bool, depth: nat): seq<bytes> {
    seq(|items|, i requires 0 <= i < |items| => Serial(items[i], fmt, depth))
  }

  /** One member: in a formatted text on a line of its own, indented by tabs, its value behind another tab. */
  function Line(m: Member, fmt: bool, depth: nat): bytes {
    (if fmt then Tabulated(depth) else []) + Quoted(m.key) + Ascii(if fmt then ":\t" else ":") +
    Serial(m.value, fmt, depth)
  }

  function Lines(members: seq<Member>, fmt: bool, depth: nat): seq<bytes> {
    seq(|members|, i requires 0 <= i < |members| => Line(members[i], fmt, depth))
  }

  lemma {:induction false} ItemsJoined(items: seq<Value>, fmt: bool, depth: nat)
    ensures ItemsSerial(items, fmt, depth) == Join(Elements(items, fmt, depth), Ascii(if fmt then ", " else ","))
  {
    hide Serial;
    var parts := Elements(items, fmt, depth);
    assert ItemSeparator(fmt) == Ascii(if fmt then ", " else ",");
    if |items| > 1 {
      assert parts[1..] == Elements(items[1..], fmt, depth);
      ItemsJoined(items[1..], fmt, depth);
    }
  }

  lemma LineIs(m: Member, fmt: bool, depth: nat)
    ensures MemberHead(m, fmt, depth) + Serial(m.value, fmt, depth) == Line(m, fmt, depth)
  {
    hide Serial, Quoted;
    assert Tabs(depth) == Tabulated(depth);
    assert KeySeparator(fmt) == Ascii(if fmt then ":\t" else ":");
  }

  lemma EndLayout(fmt: bool, last: bool)
    ensures MemberEnd(fmt, last) == Ascii(if last then if fmt then "\n" else "" else if fmt then ",\n" else ",")
  {
  }

  lemma LinesFirst(members: seq<Member>, fmt: bool, depth: nat)
    requires members != []
    ensures var parts := Lines(members, fmt, depth);
            && parts != [] && parts[0] == Line(members[0], fmt, depth) && parts[1..] == Lines(members[1..], fmt, depth)
  {
    hide Line;
  }

  lemma {:induction false} MembersJoined(members: seq<Member>, fmt: bool, depth: nat)
    requires members != []
    ensures MembersSerial(members, fmt, depth) ==
            Join(Lines(members, fmt, depth), Ascii(if fmt then ",\n" else ",")) + Ascii(if fmt then "\n" else "")
  {
    hide Serial, Line, Lines, MemberHead, MemberEnd, Ascii;
    LineIs(members[0], fmt, depth);
    LinesFirst(members, fmt, depth);
    EndLayout(fmt, |members| == 1);
    var parts := Lines(members, fmt, depth);
    if |members| > 1 {
      MembersJoined(members[1..], fmt, depth);
      LinesFirst(members[1..], fmt, depth);
      var separator := Ascii(if fmt then ",\n" else ",");
      Assoc(parts[0] + separator, Join(parts[1..], separator), Ascii(if fmt then "\n" else ""));
    } else {
      OnlyLine(members, fmt, depth);
    }
  }

  lemma OnlyLine(members: seq<Member>, fmt: bool, depth: nat)
    requires |members| == 1
    ensures MembersSerial(members[1..], fmt, depth) == [] && |Lines(members, fmt, depth)| == 1
  {
  }

  lemma NameLayout(fmt: bool, depth: nat)
    ensures Serial(Null, fmt, depth) == Ascii("null") && Serial(False, fmt, depth) == Ascii("false")
    ensures Serial(True, fmt, depth) == Ascii("true")
  {
  }

  /** The elements of an array between brackets, with a comma and in a formatted text a space between them. */
  lemma ArrayLayout(items: seq<Value>, fmt: bool, depth: nat)
    ensures Serial(Array(items), fmt, depth) ==
            Ascii("[") + Join(Elements(items, fmt, depth + 1), Ascii(if fmt then ", " else ",")) + Ascii("]")
  {
    hide Elements, Join, ItemsSerial;
    assert Ascii("[") == [LBRACKET] && Ascii("]") == [RBRACKET];
    ItemsJoined(items, fmt, depth + 1);
  }

  lemma Braces(fmt: bool, depth: nat)
    ensures Opening(fmt) == Ascii(if fmt then "{\n" else "{") && [RBRACE] == Ascii("}")
    ensures Indent(fmt, depth) == if fmt then Tabulated(depth) else []
    ensures MembersSerial([], fmt, depth) == []
  {
  }

  /** The members of an object between braces, in a formatted text each on a line of its own, one level deeper. */
  lemma ObjectLayout(members: seq<Member>, fmt: bool, depth: nat)
    ensures Serial(Object(members), fmt, depth) ==
            Ascii(if fmt then "{\n" else "{") +
            (if members == [] then []
             else Join(Lines(members, fmt, depth + 1), Ascii(if fmt then ",\n" else ",")) +
                  Ascii(if fmt then "\n" else "")) +
            (if fmt then Tabulated(depth) else []) + Ascii("}")
  {
    hide Lines, Join, MembersSerial, Opening, Indent, Tabulated, Ascii;
    Braces(fmt, depth);
    Braces(fmt, depth + 1);
    if members != [] { MembersJoined(members, fmt, depth + 1); }
  }
}
