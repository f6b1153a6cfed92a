/** The recursive-descent parser as it runs over a parse buffer: it builds the linked nodes as it reads, and
    accounts for every block it allocates. */
module ParseBuffer {
  import opened Bytes
  import opened Numbers
  import opened StringCodec
  import opened StringReader
  import opened Unicode
  import opened Json
  import opened JsonParser
  import opened JsonDocument
  import opened NodeList
  import opened NodePool
  import opened NodeBuilder

  class Parser {
    const content: bytes
    const pool: Pool
    var offset: nat
    var depth: nat

    ghost predicate Valid()
      reads this
    {
      Terminated(content) && offset <= |content| && depth <= NESTING_LIMIT
    }

    constructor (text: bytes, pool: Pool)
      requires NulFree(text)
      ensures Valid() && content == Buffer(text) && offset == 0 && depth == 0 && this.pool == pool
    {
      content := Buffer(text);
      this.pool := pool;
      offset, depth := 0, 0;
    }

    /** A node that the parser may fill: linked, perhaps named, without a value. */
    ghost predicate Open(item: Item)
      reads this, pool, item
    {
      Bare(item) && Own(item) <= pool.live && StringBlock(item) !in pool.live
    }

    method SkipWhitespace()
      requires Valid() && offset < |content|
      modifies this`offset
      ensures Valid() && offset == SkipBlanks(content, old(offset))
    {
      while offset < |content| && content[offset] <= SPACE
        invariant Valid() && Blanks(content, offset) == Blanks(content, old(offset))
        decreases |content| - offset
      {
        offset := offset + 1;
      }
      if offset == |content| { offset := offset - 1; }
    }

    /** parse_number. */
    method ReadNumber(item: Item) returns (ok: bool)
      requires Valid() && offset < |content|
      modifies this`offset, item`content
      ensures Valid()
      ensures match ParseNumber(content, old(offset)) {
                case Failed(at) => !ok && offset == at && item.content == old(item.content)
                case Parsed(v, at) => ok && v.Number? && item.content == v && offset == at
              }
    {
      hide Strtod, NumberByte, ParseNumber;
      var buffer := new byte[64];
      var i: nat := 0;
      while i < 63 && offset + i < |content| && NumberByte(content[offset + i])
        invariant offset == old(offset) && i <= 63 && offset + i <= |content| && item.content == old(item.content)
        invariant forall k :: offset <= k < offset + i ==> NumberByte(content[k])
        invariant buffer[..i] == content[offset..offset + i]
      {
        buffer[i] := content[offset + i];
        assert content[offset..offset + i + 1] == content[offset..offset + i] + [content[offset + i]];
        i := i + 1;
      }
      buffer[i] := NUL;
      CollectedNumber(content, offset, i);
      var r := Strtod(buffer[..i]);
      if r.length == 0 { return false; }
      item.content := Number(r.value);
      offset := offset + r.length;
      return true;
    }

    /** parse_string: two passes over the literal, one allocation, released again if decoding fails. */
    method ReadText(item: Item) returns (ok: bool)
      requires Valid() && offset < |content| && StringBlock(item) !in pool.live
      modifies this`offset, pool, item`content
      ensures Valid()
      ensures match ReadString(content, old(offset)) {
                case StringFailed(at) =>
                  !ok && offset == at && pool.live == old(pool.live) && item.content == old(item.content)
                case StringRead(text, at) =>
                  && ok && offset == at && pool.live == old(pool.live) + {StringBlock(item)}
                  && item.content == Text(CString(text))
              }
    {
      hide Decode, LiteralEnd, Skips, Escaped, Terminated, CString;
      var start := offset + 1;
      if content[offset] != QUOTE {
        offset := start;
        return false;
      }
      var closed, end, skipped := SizeLiteral(content, start);
      if !closed {
        offset := start;
        return false;
      }
      Entry(content, start, end);
      var allocation := end - offset - skipped;
      pool.Allocate(StringBlock(item));
      var output := new byte[allocation + 1];
      var decoded, at, written := DecodeLiteral(content, start, end, output);
      if !decoded {
        pool.Free(StringBlock(item));
        DecodeFailure(content, start, end);
        offset := at;
        return false;
      }
      item.content := Text(CString(output[..written]));
      offset := end + 1;
      return true;
    }

    /** parse_value. */
    method ParseValue(item: Item) returns (ok: bool)
      requires Valid() && offset < |content| && Open(item)
      modifies this`offset, this`depth, pool, item`content, item`child, item`kids, item`repr
      ensures Valid() && item.Tree() && fresh(item.repr - {item}) && pool.live == old(pool.live) + Owned(item)
      ensures match Parse(content, old(offset), old(depth))
              case Failed(at) => !ok && offset == at && Bare(item)
              case Parsed(v, at) => ok && item.Document() == v && offset == at && depth == old(depth)
      decreases |content| - offset, 3
    {
      hide Terminated, ParseText, ParseNumber, ParseArray, ParseObject, Strtod, Item.Tree, Item.Document, Owned;
      OneNode(item);
      if At(content, offset, NULL_TEXT) {
        AtKeyword(content, offset, NULL_TEXT);
        item.content := Null;
        OneNode(item);
        offset := offset + 4;
        return true;
      }
      if At(content, offset, FALSE_TEXT) {
        AtKeyword(content, offset, FALSE_TEXT);
        item.content := False;
        OneNode(item);
        offset := offset + 5;
        return true;
      }
      if At(content, offset, TRUE_TEXT) {
        AtKeyword(content, offset, TRUE_TEXT);
        item.content := True;
        OneNode(item);
        offset := offset + 4;
        return true;
      }
      if content[offset] == QUOTE {
        TextStep(content, offset);
        ok := ReadText(item);
        OneNode(item);
        return;
      }
      if content[offset] == MINUS || IsDigit(content[offset]) {
        ok := ReadNumber(item);
        OneNode(item);
        return;
      }
      if content[offset] == LBRACKET {
        ok := ParseItemList(item);
        return;
      }
      ok := false;
      if content[offset] == LBRACE {
        ok := ParseMemberList(item);
      }
    }

    /** The first steps of parse_array and parse_object, behind the check of the nesting limit. */
    method EnterContainer()
      requires Valid() && offset + 1 < |content| && depth < NESTING_LIMIT
      modifies this`offset, this`depth
      ensures Valid() && depth == old(depth) + 1 && offset == SkipBlanks(content, old(offset) + 1)
    {
      hide Terminated, SkipBlanks;
      depth := depth + 1;
      offset := offset + 1;
      SkipWhitespace();
    }

    /** parse_array. */
    method ParseItemList(item: Item) returns (ok: bool)
      requires Valid() && offset < |content| && content[offset] == LBRACKET && Open(item)
      modifies this`offset, this`depth, pool, item`content, item`child, item`kids, item`repr
      ensures Valid() && item.Tree() && fresh(item.repr - {item}) && pool.live == old(pool.live) + Owned(item)
      ensures match ParseArray(content, old(offset), old(depth))
              case Failed(at) => !ok && offset == at && Bare(item)
              case Parsed(v, at) => ok && item.Document() == v && offset == at && depth == old(depth)
      decreases |content| - offset, 2
    {
      hide Terminated, ParseItems, ParseArray, SkipBlanks, ItemListRead;
      hide Item.Tree, Item.Document, Owned, Grove, Linked, Union;
      OneNode(item);
      ghost var start, nesting := offset, depth;
      ArrayCases(content, start, nesting);
      if depth >= NESTING_LIMIT { return false; }
      EnterContainer();
      var head: Item? := null;
      ghost var g := NOTHING;
      NothingBuilt();
      if content[offset] != RBRACKET {
        ok, head, g := FillArray(start);
        ArrayParsed(content, start, nesting, ok, g.values, offset);
        if !ok { return; }
      }
      depth := depth - 1;
      Adopt(item, head, Array([]), g, []);
      offset := offset + 1;
      ok := true;
    }

    /** A container that is not empty, up to its closing bracket. */
    method FillArray(ghost start: nat) returns (ok: bool, head: Item?, ghost g: Built)
      requires Valid() && start < offset < |content| && content[start] != NUL
      requires SkipBlanks(content, offset) == SkipBlanks(content, start + 1)
      modifies this`offset, this`depth, pool
      ensures Valid() && ItemListRead(ParseItems(content, start, old(depth)), content, ok, g.values, offset)
      ensures if ok then
                && depth == old(depth) && offset < |content| && head == First(g.kids)
                && Linked(g.kids) && Grove(g) && fresh(g.space) && pool.live == old(pool.live) + Union(g.subs)
              else pool.live == old(pool.live)
      decreases |content| - start, 1
    {
      hide Terminated, ParseItems, SkipBlanks, Item.Tree, Item.Document, Owned, Grove, Linked, Union;
      offset := offset - 1;
      ok, head, g := ReadItems(start);
      if ok && content[offset] != RBRACKET {
        GroveInside(g);
        DeleteGrove(pool, head, g);
        ok := false;
      }
    }

    /** The element loop of parse_array. On the first turn the offset has stepped back to just in
        front of the first element; `start` is the bracket, so both lead to the same element. */
    method ReadItems(ghost start: nat) returns (ok: bool, head: Item?, ghost g: Built)
      requires Valid() && start <= offset && offset + 1 < |content| && content[start] != NUL
      requires SkipBlanks(content, offset + 1) == SkipBlanks(content, start + 1)
      modifies this`offset, this`depth, pool
      ensures Valid()
      ensures if ok then
                && ParseItems(content, start, old(depth)) == Items(g.values, offset) && depth == old(depth)
                && offset < |content| && head == First(g.kids)
                && Linked(g.kids) && Grove(g) && fresh(g.space) && pool.live == old(pool.live) + Union(g.subs)
              else ParseItems(content, start, old(depth)) == NoItems(offset) && pool.live == old(pool.live)
      decreases |content| - start, 0
    {
      hide Terminated, ParseItems, SkipBlanks, Item.Tree, Item.Document, Owned, Grove, Linked, Union;
      ok, head, g := true, null, NOTHING;
      NothingBuilt();
      PrependNothing(content, start, depth);
      var last: Item?, more := null, true;
      ghost var sep := start;
      while more
        invariant Valid() && depth == old(depth) && head == First(g.kids) && last == Last(g.kids)
        invariant Linked(g.kids) && Grove(g) && fresh(g.space) && (last != null ==> fresh(last))
        invariant pool.live == old(pool.live) + Union(g.subs) && Union(g.subs) !! old(pool.live)
        invariant start <= sep <= offset < |content| && sep < |content|
        invariant more ==> AtTurn(content, sep, offset)
        invariant ParseItems(content, start, depth) ==
                  if more then ParseItems(content, sep, depth).Prepend(g.values) else Items(g.values, offset)
        decreases more, |content| - sep
      {
        ok, head, last, g := AddItem(head, last, g, sep, old(pool.live));
        if !ok { return; }
        sep := offset;
        more := content[offset] == COMMA;
        if more { NotLast(content, offset); }
      }
    }

    /** One turn of that loop: a node more, or the whole list released. `sep` is the byte in front of it. */
    method AddItem(head: Item?, last: Item?, ghost g: Built, ghost sep: nat, ghost base: set<Block>)
      returns (ok: bool, head': Item?, item: Item, ghost g': Built)
      requires Valid() && AtTurn(content, sep, offset) && head == First(g.kids) && last == Last(g.kids)
      requires Linked(g.kids) && Grove(g) && pool.live == base + Union(g.subs) && Union(g.subs) !! base
      modifies this`offset, this`depth, pool, Target(last)`next
      ensures Valid() && fresh(g'.space - g.space) && fresh(item)
      ensures if ok then
                && depth == old(depth) && old(offset) < offset < |content| && head' == First(g'.kids)
                && item == Last(g'.kids) && Linked(g'.kids) && Grove(g')
                && pool.live == base + Union(g'.subs) && Union(g'.subs) !! base
              else pool.live == base
      ensures ParseItems(content, sep, old(depth)).Prepend(g.values) ==
              if !ok then NoItems(offset)
              else if content[offset] == COMMA then ParseItems(content, offset, depth).Prepend(g'.values)
              else Items(g'.values, offset)
      decreases |content| - (offset + 1), 6
    {
      hide Terminated, Item.Tree, Item.Document, Owned, Grove, Linked, Parse, SkipBlanks, Union, ParseItems;
      ItemsTurn(content, sep, depth, g.values);
      ok, item, g' := ReadItem(last, g);
      OwnedInside(item);
      head' := if head == null then item else head;
      if !ok { DeleteGrove(pool, head', g'); }
    }

    /** A new node, linked behind the last. */
    method Attach(last: Item?, ghost g: Built) returns (item: Item)
      requires Linked(g.kids) && Grove(g) && last == Last(g.kids)
      modifies pool, Target(last)`next
      ensures fresh(item) && item !in g.space && Open(item) && item.key.None? && Linked(g.kids + [item]) && Grove(g)
      ensures pool.live == old(pool.live) + {NodeBlock(item)}
    {
      hide Item.Tree, Item.Document, Owned, Grove, Linked;
      item := pool.NewItem();
      GroveInside(g);
      LinkBehind(last, item, g);
    }

    /** One turn: a new node behind the last, the value behind the next byte, and the blanks after it. */
    method ReadItem(last: Item?, ghost g: Built) returns (ok: bool, item: Item, ghost g': Built)
      requires Valid() && offset + 1 < |content| && Linked(g.kids) && Grove(g) && last == Last(g.kids)
      modifies this`offset, this`depth, pool, Target(last)`next
      ensures Valid() && item.Tree() && item in item.repr && fresh(item.repr) && g' == Grown(g, item)
      ensures Linked(g'.kids) && Grove(g')
      ensures pool.live == old(pool.live) + Owned(item) && Union(g'.subs) == Union(g.subs) + Owned(item)
      ensures match Parse(content, SkipBlanks(content, old(offset) + 1), old(depth))
              case Failed(at) => !ok && offset == at
              case Parsed(v, at) =>
                && ok && item.Document() == v && depth == old(depth)
                && at < |content| && offset == SkipBlanks(content, at) && old(offset) < offset
      decreases |content| - (offset + 1), 5
    {
      hide Valid, Open, Item.Tree, Item.Document, Owned, Own, Grove, Grown, Linked, Parse, SkipBlanks, Union;
      item := Attach(last, g);
      ok := ReadSpacedValue(item);
      g' := Grow(g, item);
    }

    /** The value behind the next byte, with the blanks around it. */
    method ReadSpacedValue(item: Item) returns (ok: bool)
      requires Valid() && offset + 1 < |content| && Open(item)
      modifies this`offset, this`depth, pool, item`content, item`child, item`kids, item`repr
      ensures Valid() && item.Tree() && fresh(item.repr - {item}) && item in item.repr && NodeBlock(item) in Owned(item)
      ensures pool.live == old(pool.live) + Owned(item)
      ensures match Parse(content, SkipBlanks(content, old(offset) + 1), old(depth))
              case Failed(at) => !ok && offset == at
              case Parsed(v, at) =>
                && ok && item.Document() == v && depth == old(depth)
                && at < |content| && offset == SkipBlanks(content, at) && old(offset) < offset
      decreases |content| - (offset + 1), 4
    {
      hide Terminated, Item.Tree, Item.Document, Owned, Parse, SkipBlanks;
      offset := offset + 1;
      SkipWhitespace();
      ok := ParseValue(item);
      OwnedInside(item);
      if ok { SkipWhitespace(); }
    }

    /** parse_object. */
    method ParseMemberList(item: Item) returns (ok: bool)
      requires Valid() && offset < |content| && content[offset] == LBRACE && Open(item)
      modifies this`offset, this`depth, pool, item`content, item`child, item`kids, item`repr
      ensures Valid() && item.Tree() && fresh(item.repr - {item}) && pool.live == old(pool.live) + Owned(item)
      ensures match ParseObject(content, old(offset), old(depth))
              case Failed(at) => !ok && offset == at && Bare(item)
              case Parsed(v, at) => ok && item.Document() == v && offset == at && depth == old(depth)
      decreases |content| - offset, 2
    {
      hide Terminated, ParseMembers, ParseObject, SkipBlanks, MemberListRead;
      hide Item.Tree, Item.Document, Owned, Grove, Linked, Union, Keyed, Paired;
      OneNode(item);
      ghost var start, nesting := offset, depth;
      ObjectCases(content, start, nesting);
      if depth >= NESTING_LIMIT { return false; }
      EnterContainer();
      var head: Item? := null;
      ghost var g, keys := NOTHING, [];
      NothingBuilt();
      if content[offset] != RBRACE {
        ok, head, g, keys := FillObject(start);
        ObjectParsed(content, start, nesting, ok, keys, g.values, offset);
        if !ok { return; }
      }
      depth := depth - 1;
      Adopt(item, head, Object([]), g, keys);
      offset := offset + 1;
      ok := true;
    }

    /** A container that is not empty, up to its closing bracket. */
    method FillObject(ghost start: nat) returns (ok: bool, head: Item?, ghost g: Built, ghost keys: seq<bytes>)
      requires Valid() && start < offset < |content| && content[start] != NUL
      requires SkipBlanks(content, offset) == SkipBlanks(content, start + 1)
      modifies this`offset, this`depth, pool
      ensures Valid() && MemberListRead(ParseMembers(content, start, old(depth)), content, ok, keys, g.values, offset)
      ensures if ok then
                && depth == old(depth) && offset < |content| && head == First(g.kids)
                && Linked(g.kids) && Grove(g) && Keyed(g.kids, keys) && fresh(g.space)
                && pool.live == old(pool.live) + Union(g.subs)
              else pool.live == old(pool.live)
      decreases |content| - start, 1
    {
      hide Terminated, ParseMembers, SkipBlanks, Item.Tree, Item.Document, Owned, Grove, Linked, Union, Keyed, Paired;
      offset := offset - 1;
      ok, head, g, keys := ReadMembers(start);
      if ok && content[offset] != RBRACE {
        GroveInside(g);
        DeleteGrove(pool, head, g);
        ok := false;
      }
    }

    /** The member loop of parse_object. */
    method ReadMembers(ghost start: nat) returns (ok: bool, head: Item?, ghost g: Built, ghost keys: seq<bytes>)
      requires Valid() && start <= offset && offset + 1 < |content| && content[start] != NUL
      requires SkipBlanks(content, offset + 1) == SkipBlanks(content, start + 1)
      modifies this`offset, this`depth, pool
      ensures Valid()
      ensures if ok then
                && |keys| == |g.values|
                && ParseMembers(content, start, old(depth)) == Members(Paired(keys, g.values), offset)
                && depth == old(depth) && offset < |content| && head == First(g.kids)
                && Linked(g.kids) && Grove(g) && Keyed(g.kids, keys) && fresh(g.space)
                && pool.live == old(pool.live) + Union(g.subs)
              else ParseMembers(content, start, old(depth)) == NoMembers(offset) && pool.live == old(pool.live)
      decreases |content| - start, 0
    {
      hide Terminated, ParseMembers, ParseMember, SkipBlanks;
      hide Item.Tree, Item.Document, Owned, Grove, Linked, Union, Keyed, Paired;
      ok, head, g, keys := true, null, NOTHING, [];
      NothingBuilt();
      PrependNoMember(content, start, depth);
      var last: Item?, more := null, true;
      ghost var sep := start;
      while more
        invariant Valid() && depth == old(depth) && head == First(g.kids) && last == Last(g.kids)
        invariant Linked(g.kids) && Grove(g) && fresh(g.space) && (last != null ==> fresh(last))
        invariant pool.live == old(pool.live) + Union(g.subs) && Union(g.subs) !! old(pool.live)
        invariant Keyed(g.kids, keys) && |keys| == |g.values|
        invariant start <= sep <= offset < |content| && sep < |content|
        invariant more ==> AtTurn(content, sep, offset)
        invariant ParseMembers(content, start, depth) ==
                  if more then ParseMembers(content, sep, depth).Prepend(Paired(keys, g.values))
                  else Members(Paired(keys, g.values), offset)
        decreases more, |content| - sep
      {
        ok, head, last, g, keys := AddMember(head, last, g, keys, sep, old(pool.live));
        if !ok { return; }
        sep := offset;
        more := content[offset] == COMMA;
        if more { NotLast(content, offset); }
      }
    }

    /** One turn of that loop: a node more, or the whole list released. `sep` is the byte in front of it. */
    method AddMember(head: Item?, last: Item?, ghost g: Built, ghost keys: seq<bytes>, ghost sep: nat,
                     ghost base: set<Block>)
      returns (ok: bool, head': Item?, item: Item, ghost g': Built, ghost keys': seq<bytes>)
      requires Valid() && AtTurn(content, sep, offset) && head == First(g.kids) && last == Last(g.kids)
      requires Linked(g.kids) && Grove(g) && pool.live == base + Union(g.subs) && Union(g.subs) !! base
      requires Keyed(g.kids, keys) && |keys| == |g.values|
      modifies this`offset, this`depth, pool, Target(last)`next
      ensures Valid() && fresh(g'.space - g.space) && fresh(item)
      ensures if ok then
                && depth == old(depth) && old(offset) < offset < |content| && head' == First(g'.kids)
                && item == Last(g'.kids) && Linked(g'.kids) && Grove(g') && Keyed(g'.kids, keys')
                && pool.live == base + Union(g'.subs) && Union(g'.subs) !! base
              else pool.live == base
      ensures |keys'| == |g'.values|
      ensures ParseMembers(content, sep, old(depth)).Prepend(Paired(keys, g.values)) ==
              if !ok then NoMembers(offset)
              else if content[offset] == COMMA then
                ParseMembers(content, offset, depth).Prepend(Paired(keys', g'.values))
              else Members(Paired(keys', g'.values), offset)
      decreases |content| - (offset + 1), 6
    {
      hide Terminated, Item.Tree, Item.Document, Owned, Grove, Linked, SkipBlanks, Union, ParseMembers, ParseMember;
      hide Keyed, Paired;
      MembersTurn(content, sep, depth, Paired(keys, g.values));
      ghost var m;
      ok, item, g', m := ReadMember(last, g);
      OwnedInside(item);
      keys' := keys + [m.key];
      head' := if head == null then item else head;
      if ok {
        KeyedGrows(g.kids, keys, g.values, item, m);
      } else {
        DeleteGrove(pool, head', g');
      }
    }

    /** One turn: a new node behind the last, its name, its value, and the blanks after them. */
    method ReadMember(last: Item?, ghost g: Built) returns (ok: bool, item: Item, ghost g': Built, ghost m: Member)
      requires Valid() && offset + 1 < |content| && Linked(g.kids) && Grove(g) && last == Last(g.kids)
      modifies this`offset, this`depth, pool, Target(last)`next
      ensures Valid() && item.Tree() && item in item.repr && fresh(item.repr) && g' == Grown(g, item)
      ensures Linked(g'.kids) && Grove(g')
      ensures pool.live == old(pool.live) + Owned(item) && Union(g'.subs) == Union(g.subs) + Owned(item)
      ensures match ParseMember(content, SkipBlanks(content, old(offset) + 1), old(depth))
              case NoMember(at) => !ok && offset == at
              case OneMember(n, at) =>
                && ok && m == n && item.key == Some(n.key) && item.Document() == n.value && depth == old(depth)
                && offset == at && old(offset) < at < |content|
      decreases |content| - (offset + 1), 5
    {
      hide Terminated, Item.Tree, Item.Document, Owned, Own, Grove, Grown, Linked, ParseMember, SkipBlanks, Union;
      item := Attach(last, g);
      offset := offset + 1;
      SkipWhitespace();
      ok := ReadPair(item);
      m := Member(Name(item.key), item.Document());
      g' := Grow(g, item);
    }

    /** The name, the colon and the value of a member, with the blanks behind each. parse_string leaves the
        name in the place of the value, and it then moves. */
    method ReadPair(item: Item) returns (ok: bool)
      requires Valid() && offset < |content| && Open(item) && item.key.None?
      modifies this`offset, this`depth, pool, item`content, item`child, item`kids, item`repr, item`key
      ensures Valid() && item.Tree() && fresh(item.repr - {item}) && item in item.repr && NodeBlock(item) in Owned(item)
      ensures pool.live == old(pool.live) + Owned(item)
      ensures match ParseMember(content, old(offset), old(depth))
              case NoMember(at) => !ok && offset == at
              case OneMember(n, at) =>
                && ok && item.key == Some(n.key) && item.Document() == n.value && depth == old(depth)
                && offset == at && old(offset) < at < |content|
      decreases |content| - offset, 3
    {
      hide Terminated, Item.Tree, Item.Document, Owned, Parse, SkipBlanks, ReadString, CString;
      OneNode(item);
      ok := ReadText(item);
      if !ok { return; }
      NotAtEnd(content, offset);
      SkipWhitespace();
      pool.TakeName(item);
      OneNode(item);
      if content[offset] != COLON { return false; }
      NotLast(content, offset);
      ok := ReadSpacedValue(item);
      OwnedInside(item);
    }

    /** The root node with the value behind the mark and the blanks at the start. */
    method ReadRoot() returns (ok: bool, root: Item)
      requires Valid() && offset == depth == 0 < |content|
      modifies this`offset, this`depth, pool
      ensures Valid() && root.Tree() && root in root.repr && fresh(root.repr) && Detached(root)
      ensures pool.live == old(pool.live) + Owned(root) && Owned(root) !! old(pool.live)
      ensures match Parse(content, SkipBlanks(content, SkipMark(content)), 0)
              case Failed(at) => !ok && offset == at
              case Parsed(v, at) => ok && root.Document() == v && offset == at < |content|
    {
      hide Terminated, Item.Tree, Item.Document, Owned, Parse, SkipBlanks;
      root := pool.NewItem();
      OneNode(root);
      if 4 < |content| && content[..3] == [0xEF, 0xBB, 0xBF] { offset := 3; }
      SkipWhitespace();
      ok := ParseValue(root);
      OwnedInside(root);
    }

    /** cJSON_ParseWithOpts: the tree of the document, all of whose nodes are new, and where it ends; or
        NULL with the error position, and every block released. */
    method ParseWithOpts(ghost text: bytes, requireEnd: bool) returns (root: Item?, at: nat)
      requires Valid() && NulFree(text) && content == Buffer(text) && offset == 0 && depth == 0
      modifies this`offset, this`depth, pool
      ensures Valid()
      ensures match ParseDocument(text, requireEnd)
              case Rejected(where) => root == null && at == where && pool.live == old(pool.live)
              case Document(v, end) =>
                && root != null && root.Tree() && root.Document() == v && at == end
                && Detached(root) && fresh(root) && fresh(root.repr) && pool.live == old(pool.live) + Owned(root)
    {
      hide Terminated, Item.Tree, Item.Document, Owned, Parse, SkipBlanks, SkipMark, ParseDocument;
      ghost var r := Parse(content, SkipBlanks(content, SkipMark(content)), 0);
      var ok;
      ok, root := ReadRoot();
      if ok && requireEnd { SkipWhitespace(); }
      RootParsed(text, requireEnd, r, offset);
      if !ok || (requireEnd && content[offset] != NUL) {
        pool.DeleteItem(root);
        return null, if offset < |content| then offset else |content| - 1;
      }
      return root, offset;
    }
  }

  /** The document, once the root value and the blanks behind it have been read. */
  lemma RootParsed(text: bytes, requireEnd: bool, r: Parsed, at: nat)
    requires NulFree(text)
    requires var c := Buffer(text);
             && r == Parse(c, SkipBlanks(c, SkipMark(c)), 0)
             && at == if r.Parsed? && requireEnd then SkipBlanks(c, r.offset) else r.offset
    ensures var c := Buffer(text);
            ParseDocument(text, requireEnd) ==
            if r.Parsed? && !(requireEnd && c[at] != NUL) then Document(r.value, at)
            else Rejected(if at < |c| then at else |c| - 1)
  {
    hide Parse, SkipBlanks, SkipMark;
  }

  // ----- Facts about the parser functions the loops use

  lemma TextStep(c: bytes, o: nat)
    requires Terminated(c) && o < |c| && c[o] == QUOTE
    ensures ParseText(c, o) == match ReadString(c, o) {
                                 case StringFailed(at) => Failed(at)
                                 case StringRead(text, at) => Parsed(Text(CString(text)), at)
                               }
  {
  }

  lemma SkipAgain(c: bytes, o: nat)
    requires Terminated(c) && o < |c| && 0 < o && c[o - 1] > SPACE
    ensures SkipBlanks(c, SkipBlanks(c, o)) == SkipBlanks(c, o)
  {
  }

  lemma ArrayCases(c: bytes, o: nat, depth: nat)
    requires Terminated(c) && o < |c| && c[o] == LBRACKET
    ensures o + 1 < |c|
    ensures depth >= NESTING_LIMIT ==> ParseArray(c, o, depth) == Failed(o)
    ensures depth < NESTING_LIMIT ==>
              var first := SkipBlanks(c, o + 1);
              && o < first && SkipBlanks(c, first) == first
              && (c[first] == RBRACKET ==> first + 1 < |c| && ParseArray(c, o, depth) == Parsed(Array([]), first + 1))
  {
    hide ParseItems;
    if depth < NESTING_LIMIT { SkipAgain(c, o + 1); }
  }

  /** How far a list of elements was read: up to the closing bracket, or to the place of the error. */
  ghost predicate ItemListRead(r: Items, c: bytes, ok: bool, values: seq<Value>, at: nat) {
    if ok then r == Items(values, at) && at < |c| && c[at] == RBRACKET
    else r == NoItems(at) || (r.Items? && r.offset == at < |c| && c[at] != RBRACKET)
  }

  lemma ArrayParsed(c: bytes, o: nat, depth: nat, ok: bool, values: seq<Value>, at: nat)
    requires Terminated(c) && o < |c| && c[o] == LBRACKET && depth < NESTING_LIMIT
    requires o + 1 < |c| && c[SkipBlanks(c, o + 1)] != RBRACKET &&
             ItemListRead(ParseItems(c, o, depth + 1), c, ok, values, at)
    ensures ok ==> at + 1 < |c|
    ensures ParseArray(c, o, depth) == if ok then Parsed(Array(values), at + 1) else Failed(at)
  {
    hide ParseItems, SkipBlanks;
  }

  lemma ObjectCases(c: bytes, o: nat, depth: nat)
    requires Terminated(c) && o < |c| && c[o] == LBRACE
    ensures o + 1 < |c|
    ensures depth >= NESTING_LIMIT ==> ParseObject(c, o, depth) == Failed(o)
    ensures depth < NESTING_LIMIT ==>
              var first := SkipBlanks(c, o + 1);
              && o < first && SkipBlanks(c, first) == first
              && (c[first] == RBRACE ==> first + 1 < |c| && ParseObject(c, o, depth) == Parsed(Object([]), first + 1))
  {
    hide ParseMembers;
    if depth < NESTING_LIMIT { SkipAgain(c, o + 1); }
  }

  /** How far a list of members was read: up to the closing bracket, or to the place of the error. */
  ghost predicate MemberListRead(r: Members, c: bytes, ok: bool, keys: seq<bytes>, values: seq<Value>, at: nat) {
    if ok then |keys| == |values| && r == Members(Paired(keys, values), at) && at < |c| && c[at] == RBRACE
    else r == NoMembers(at) || (r.Members? && r.offset == at < |c| && c[at] != RBRACE)
  }

  lemma ObjectParsed(c: bytes, o: nat, depth: nat, ok: bool, keys: seq<bytes>, values: seq<Value>, at: nat)
    requires Terminated(c) && o < |c| && c[o] == LBRACE && depth < NESTING_LIMIT
    requires o + 1 < |c| && c[SkipBlanks(c, o + 1)] != RBRACE &&
             MemberListRead(ParseMembers(c, o, depth + 1), c, ok, keys, values, at)
    ensures ok ==> at + 1 < |c|
    ensures ok ==> |keys| == |values|
    ensures ParseObject(c, o, depth) == if ok then Parsed(Object(Paired(keys, values)), at + 1) else Failed(at)
  {
    hide ParseMembers, Paired, SkipBlanks;
  }

  /** In front of an element: from the separator and from the offset the same byte comes next. */
  predicate AtTurn(c: bytes, sep: nat, offset: nat) {
    sep + 1 < |c| && offset + 1 < |c| && c[sep] != NUL && SkipBlanks(c, offset + 1) == SkipBlanks(c, sep + 1)
  }

  lemma PrependNothing(c: bytes, start: nat, depth: nat)
    requires Terminated(c) && start < |c| && c[start] != NUL
    ensures ParseItems(c, start, depth) == ParseItems(c, start, depth).Prepend([])
  {
    hide ParseItems;
    var r := ParseItems(c, start, depth);
    if r.Items? { assert [] + r.items == r.items; }
  }

  lemma PrependNoMember(c: bytes, start: nat, depth: nat)
    requires Terminated(c) && start < |c| && c[start] != NUL
    ensures ParseMembers(c, start, depth) == ParseMembers(c, start, depth).Prepend([])
  {
    hide ParseMembers;
    var r := ParseMembers(c, start, depth);
    if r.Members? { assert [] + r.members == r.members; }
  }

  lemma CollectedNumber(c: bytes, o: nat, n: nat)
    requires Terminated(c) && o < |c| && n <= 63 && o + n <= |c|
    requires n == 63 || o + n == |c| || !NumberByte(c[o + n])
    requires forall k :: o <= k < o + n ==> NumberByte(c[k])
    ensures var r := Strtod(c[o..o + n]);
            ParseNumber(c, o) == if r.length == 0 then Failed(o) else Parsed(Number(r.value), o + r.length)
  {
    hide Strtod, NumberByte, Span;
    SpanIs(c, o, n, 63);
  }

  lemma DecodeFailure(c: bytes, i: nat, end: nat)
    requires end < |c| && Decode(c, i, end).Undecodable?
    ensures Decode(c, i, end).where < end
    decreases end - i
  {
    hide Utf8, Unescape, Utf16Literal;
    if c[i] != BACKSLASH {
      DecodeFailure(c, i + 1, end);
    } else if c[i + 1] == 117 {
      if Utf16Literal(c, i, end).Literal? { DecodeFailure(c, i + Utf16Literal(c, i, end).length, end); }
    } else if Unescape(c[i + 1]).Some? {
      DecodeFailure(c, i + 2, end);
    }
  }
}
