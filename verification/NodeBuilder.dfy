/** Lists and containers under construction: what the parser's loops have linked so far. */
module NodeBuilder {
  import opened Bytes
  import opened Json
  import opened NodeList
  import opened NodePool

  /** A node as cJSON_New_Item leaves it, named or not. */
  ghost predicate Bare(item: Item)
    reads item
  {
    item.kids == [] && item.repr == {item} && item.child == null && !item.content.Text?
  }

  lemma OneNode(item: Item)
    requires item.kids == [] && item.repr == {item} && item.child == null
    ensures item.Tree() && Owned(item) == Own(item)
    ensures !item.content.Array? && !item.content.Object? ==> item.Document() == item.content
    ensures item.content == Array([]) || item.content == Object([]) ==> item.Document() == item.content
  {
    assert Below(item, 0) == {};
  }

  /** A list so far: its nodes, the blocks each of their trees owns, all nodes of those trees, and the
      values they stand for. */
  datatype Built = Built(kids: seq<Item>, subs: seq<set<Block>>, space: set<Item>, values: seq<Value>)

  const NOTHING := Built([], [], {}, [])

  /** The trees share no node. */
  ghost predicate Grove(g: Built)
    reads g.kids, g.space
  {
    && Forest(g.kids, g.subs, g.space) && |g.values| == |g.kids|
    && forall i :: 0 <= i < |g.kids| ==> g.kids[i] in g.kids[i].repr && g.kids[i].Document() == g.values[i]
  }

  ghost function Grown(g: Built, item: Item): Built
    requires item.Tree()
    reads item, item.repr
  {
    Built(g.kids + [item], g.subs + [Owned(item)], g.space + item.repr, g.values + [item.Document()])
  }

  function First(kids: seq<Item>): Item? { if kids == [] then null else kids[0] }
  function Last(kids: seq<Item>): Item? { if kids == [] then null else kids[|kids| - 1] }

  lemma NothingBuilt()
    ensures Linked([]) && Grove(NOTHING) && Keyed([], []) && Paired([], []) == [] && Union([]) == {}
  {
  }

  /** Link a new node behind the last one: no tree notices it. */
  method LinkBehind(last: Item?, item: Item, ghost g: Built)
    requires Linked(g.kids) && Grove(g) && last == Last(g.kids)
    requires Detached(item) && item !in g.space && item !in g.kids
    modifies Target(last)`next, item`prev
    ensures Linked(g.kids + [item]) && Grove(g)
  {
    hide Item.Tree, Owned, Item.Document;
    ghost var kids := g.kids;
    if last != null { SuffixObject(last, item); }
    ghost var all := kids + [item];
    forall i | 0 <= i < |all| ensures LinkedAt(all, i) {
      if i < |kids| { assert old(LinkedAt(kids, i)); }
    }
    forall i | 0 <= i < |kids|
      ensures kids[i] in kids[i].repr && kids[i].Tree() && Owned(kids[i]) == g.subs[i]
      ensures kids[i].Document() == g.values[i] && kids[i].repr == old(kids[i].repr)
    {
      assert old(kids[i].repr <= g.space && kids[i] in kids[i].repr);
      if i < |kids| - 1 {
        assert old(kids[i].repr !! kids[|kids| - 1].repr && kids[|kids| - 1] in kids[|kids| - 1].repr);
      }
      assert forall o :: o in kids[i].repr - {kids[i]} ==> o != last && o != item;
    }
  }

  /** A tree more. */
  lemma GroveGrows(g: Built, item: Item)
    requires Grove(g) && item.Tree() && item.repr !! g.space
    ensures Grove(Grown(g, item)) && Union(Grown(g, item).subs) == Union(g.subs) + Owned(item)
  {
    OwnedInside(item);
    hide Item.Tree, Owned, Item.Document;
    UnionAppend(g.subs, Owned(item));
  }

  lemma Grow(g: Built, item: Item) returns (g': Built)
    requires Grove(g) && item.Tree() && item.repr !! g.space
    ensures g' == Grown(g, item) && Grove(g') && g'.kids == g.kids + [item]
    ensures Union(g'.subs) == Union(g.subs) + Owned(item)
  {
    GroveGrows(g, item);
    g' := Grown(g, item);
  }

  lemma GroveInside(g: Built)
    requires Grove(g)
    ensures (forall b :: b in Union(g.subs) ==> b.item in g.space) && forall k :: k in g.kids ==> k in g.space
  {
    UnionInside(g.kids, g.subs, g.space);
  }

  /** cJSON_Delete on the list built so far. */
  method DeleteGrove(pool: Pool, head: Item?, ghost g: Built)
    requires Linked(g.kids) && Grove(g) && head == First(g.kids) && Union(g.subs) <= pool.live
    modifies pool
    ensures pool.live == old(pool.live) - Union(g.subs)
  {
    forall i | 0 <= i < |g.kids| ensures g.kids[i].next == Behind(g.kids, i) { assert LinkedAt(g.kids, i); }
    pool.Delete(head, g.kids, g.subs, g.space);
  }

  // ----- Names

  function Paired(keys: seq<bytes>, values: seq<Value>): (r: seq<Member>)
    requires |keys| == |values|
    ensures |r| == |keys|
  {
    seq(|keys|, i requires 0 <= i < |keys| => Member(keys[i], values[i]))
  }

  ghost predicate Keyed(kids: seq<Item>, keys: seq<bytes>)
    reads kids`key
  {
    |keys| == |kids| && forall i :: 0 <= i < |kids| ==> kids[i].key == Some(keys[i])
  }

  lemma KeyedGrows(kids: seq<Item>, keys: seq<bytes>, values: seq<Value>, item: Item, m: Member)
    requires Keyed(kids, keys) && |keys| == |values| && item.key == Some(m.key)
    ensures Keyed(kids + [item], keys + [m.key])
    ensures Paired(keys + [m.key], values + [m.value]) == Paired(keys, values) + [m]
  {
  }

  // ----- A container takes over its children

  /** The stores that make a list the children of a container. */
  method Adopt(item: Item, head: Item?, content: Value, ghost g: Built, ghost keys: seq<bytes>)
    requires Linked(g.kids) && Grove(g) && item !in g.space && head == First(g.kids)
    modifies item`content, item`child, item`kids, item`repr
    ensures item.Tree() && item.repr == {item} + g.space && Owned(item) == Own(item) + Union(g.subs)
    ensures item.content == content
    ensures content == Array([]) ==> item.Document() == Array(g.values)
    ensures content == Object([]) && Keyed(g.kids, keys) ==> item.Document() == Object(Paired(keys, g.values))
  {
    hide Item.Tree, Item.Document, Owned, Union, Grove, Linked, Keyed, Paired;
    GroveInside(g);
    item.content := content;
    item.child := head;
    item.kids, item.repr := g.kids, {item} + g.space;
    Adopted(item, g, keys);
  }

  /** The node with its children is a tree: their nodes and itself. */
  lemma Adopted(item: Item, g: Built, keys: seq<bytes>)
    requires Linked(item.kids) && Grove(g) && g.kids == item.kids && item !in g.space
    requires item.child == First(item.kids) && item.repr == {item} + g.space
    ensures item.Tree() && Owned(item) == Own(item) + Union(g.subs)
    ensures item.content == Array([]) ==> item.Document() == Array(g.values)
    ensures item.content == Object([]) && Keyed(item.kids, keys) ==> item.Document() == Object(Paired(keys, g.values))
  {
    AdoptedTree(item, g);
    AdoptedNodes(item, g, |item.kids|);
    assert g.subs[..|g.subs|] == g.subs && g.values[..|g.values|] == g.values;
    ElementsAre(item, g.values, |item.kids|);
    if Keyed(item.kids, keys) {
      MembersAre(item, keys, g.values, |item.kids|);
      assert keys[..|keys|] == keys;
    }
  }

  lemma AdoptedTree(item: Item, g: Built)
    requires Linked(item.kids) && Grove(g) && g.kids == item.kids && item !in g.space
    requires item.child == First(item.kids) && item.repr == {item} + g.space
    ensures item.Tree()
  {
    hide Item.Tree, Owned, Item.Document, Linked;
    forall i | 0 <= i < |item.kids| ensures Kid(item, i) {}
    FamilyTree(item);
  }

  lemma {:induction false} AdoptedNodes(item: Item, g: Built, n: nat)
    requires item.Tree() && Grove(g) && g.kids == item.kids && n <= |item.kids|
    ensures Below(item, n) == Union(g.subs[..n])
    decreases n
  {
    hide Item.Tree, Owned, Item.Document;
    if n > 0 {
      AdoptedNodes(item, g, n - 1);
      assert g.subs[..n] == g.subs[..n - 1] + [g.subs[n - 1]];
      UnionAppend(g.subs[..n - 1], g.subs[n - 1]);
    }
  }

  lemma {:induction false} ElementsAre(item: Item, values: seq<Value>, n: nat)
    requires item.Tree() && n <= |item.kids| == |values|
    requires forall i :: 0 <= i < |item.kids| ==> item.kids[i].Tree() && item.kids[i].Document() == values[i]
    ensures item.Elements(n) == values[..n]
    decreases n
  {
    hide Item.Tree, Item.Document;
    if n > 0 {
      ElementsAre(item, values, n - 1);
      assert values[..n] == values[..n - 1] + [values[n - 1]];
    }
  }

  lemma {:induction false} MembersAre(item: Item, keys: seq<bytes>, values: seq<Value>, n: nat)
    requires item.Tree() && n <= |item.kids| == |values| && Keyed(item.kids, keys)
    requires forall i :: 0 <= i < |item.kids| ==> item.kids[i].Tree() && item.kids[i].Document() == values[i]
    ensures item.Members(n) == Paired(keys[..n], values[..n])
    decreases n
  {
    hide Item.Tree, Item.Document;
    if n > 0 {
      MembersAre(item, keys, values, n - 1);
      assert Paired(keys[..n], values[..n]) ==
             Paired(keys[..n - 1], values[..n - 1]) + [Member(keys[n - 1], values[n - 1])];
    }
  }
}
