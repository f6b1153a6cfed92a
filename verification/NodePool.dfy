/** The blocks of nodes, names and strings the allocator has handed out and not taken back, and cJSON_Delete
    over the linked structure. */
module NodePool {
  import opened Bytes
  import opened Json
  import opened NodeList

  /** A node, its name, or its string value. */
  datatype Block = NodeBlock(item: Item) | NameBlock(item: Item) | StringBlock(item: Item)

  class Pool {
    ghost var live: set<Block>

    constructor ()
      ensures live == {}
    {
      live := {};
    }

    /** cJSON_New_Item. */
    method NewItem() returns (item: Item)
      modifies this
      ensures fresh(item) && item.Tree() && item.repr == {item} && item.kids == [] && Detached(item)
      ensures item.content == Null && item.key == None && item.child == null
      ensures live == old(live) + {NodeBlock(item)}
    {
      item := new Item(Null, None);
      live := live + {NodeBlock(item)};
    }

    /** The block of a string that the node is to hold. */
    method Allocate(ghost block: Block)
      modifies this
      ensures live == old(live) + {block}
    {
      live := live + {block};
    }

    /** The string just read as the node's value becomes its name. */
    method TakeName(item: Item)
      requires item.content.Text? && item.key.None?
      modifies this, item`key, item`content
      ensures item.key == Some(old(item.content.text)) && item.content == Null
      ensures live == old(live) - {StringBlock(item)} + {NameBlock(item)}
    {
      item.key := Some(item.content.text);
      item.content := Null;
      live := live - {StringBlock(item)} + {NameBlock(item)};
    }

    /** Only a live block can be released. */
    method Free(ghost block: Block)
      requires block in live
      modifies this
      ensures live == old(live) - {block}
    {
      live := live - {block};
    }

    /** cJSON_Delete: from `item` along the chain, each node with the nodes below it. `space` bounds them. */
    method Delete(item: Item?, ghost kids: seq<Item>, ghost subs: seq<set<Block>>, ghost space: set<Item>)
      requires Forest(kids, subs, space) && item == (if kids == [] then null else kids[0]) && Onward(kids)
      requires Union(subs) <= live
      modifies this
      ensures live == old(live) - Union(subs)
      decreases space, 1
    {
      hide Item.Tree, Owned, Forest, Union, Onward;
      var item := item;
      ghost var k := 0;
      NoNodes(subs);
      ForestSize(kids, subs, space);
      while item != null
        invariant 0 <= k <= |kids| == |subs| && item == if k < |kids| then kids[k] else null
        invariant live == old(live) - Union(subs[..k])
        decreases |kids| - k
      {
        NodesApart(kids, subs, k, space);
        OnwardAt(kids, k);
        var next := item.next;
        DeleteNode(item, space);
        item := next;
        k := k + 1;
      }
      assert subs[..k] == subs;
    }

    /** One turn: the children, the string value, the name, the node itself. */
    method DeleteNode(item: Item, ghost space: set<Item>)
      requires item.Tree() && item.repr <= space && Owned(item) <= live
      modifies this
      ensures live == old(live) - Owned(item)
      decreases space, 0
    {
      hide Item.Tree, Owned, Own, Forest, Union, Onward;
      ghost var subs := OwnedChildren(item);
      if item.child != null {
        Delete(item.child, item.kids, subs, item.repr - {item});
      } else {
        ForestSize(item.kids, subs, item.repr - {item});
        NoNodes(subs);
        assert subs[..0] == subs;
      }
      FreeOwn(item);
    }

    method FreeOwn(item: Item)
      requires Own(item) <= live
      modifies this
      ensures live == old(live) - Own(item)
    {
      if item.content.Text? { Free(StringBlock(item)); }
      if item.key.Some? { Free(NameBlock(item)); }
      Free(NodeBlock(item));
    }

    /** cJSON_Delete on a node that is not in a list. */
    method DeleteItem(item: Item)
      requires item.Tree() && item.next == null && Owned(item) <= live
      modifies this
      ensures live == old(live) - Owned(item)
    {
      hide Item.Tree, Owned;
      assert Union([Owned(item)][..0]) == {};
      Delete(item, [item], [Owned(item)], item.repr);
    }

    /** cJSON_ReplaceItemViaPointer: the list has the replacement, and the nodes of the replaced item are gone. */
    method ReplaceItemViaPointer(parent: Item?, item: Item?, replacement: Item?, ghost kids: seq<Item>, ghost at: nat)
      returns (ok: bool)
      requires parent != null && item != null && replacement != null ==>
                 && Chain(parent, kids) && at < |kids| && kids[at] == item
                 && (replacement == item || (replacement !in kids && replacement !in item.repr))
                 && Separate(item, parent, kids) && Owned(item) <= live
      modifies this, Target(parent)`child, kids`next, kids`prev, Target(replacement)`next, Target(replacement)`prev
      ensures ok <==> parent != null && item != null && replacement != null
      ensures ok ==> Chain(parent, kids[at := replacement])
      ensures live == if ok && replacement != item then old(live) - old(Owned(item)) else old(live)
    {
      hide Item.Tree, Chain, Owned;
      if item != null && item.Tree() { OwnedInside(item); }
      ok := Relink(parent, item, replacement, kids, at);
      if ok && replacement != item { DeleteItem(item); }
    }

    /** cJSON_ReplaceItemInArray. */
    method ReplaceItemInArray(parent: Item, which: int, x: Item, ghost kids: seq<Item>)
      requires Chain(parent, kids) && x !in kids
      requires 0 <= which < |kids| ==>
                 Separate(kids[which], parent, kids) && x !in kids[which].repr && Owned(kids[which]) <= live
      modifies this, parent`child, kids`next, kids`prev, x`next, x`prev
      ensures Chain(parent, if 0 <= which < |kids| then kids[which := x] else kids)
      ensures live == if 0 <= which < |kids| then old(live) - old(Owned(kids[which])) else old(live)
    {
      hide Item.Tree, Chain, Owned;
      if which < 0 { return; }
      var item := GetArrayItem(parent, which, kids);
      if item == null { return; }
      var _ := ReplaceItemViaPointer(parent, item, x, kids, which);
    }

    /** cJSON_DeleteItemFromArray: the list without the child, whose nodes are gone; out of range, no change. */
    method DeleteItemFromArray(parent: Item, which: int, ghost kids: seq<Item>)
      requires Chain(parent, kids)
      requires 0 <= which < |kids| ==> Separate(kids[which], parent, kids) && Owned(kids[which]) <= live
      modifies this, parent`child, kids`next, kids`prev
      ensures Chain(parent, if 0 <= which < |kids| then Without(kids, which) else kids)
      ensures live == if 0 <= which < |kids| then old(live) - old(Owned(kids[which])) else old(live)
    {
      hide Item.Tree, Chain, Owned;
      if 0 <= which < |kids| { OwnedInside(kids[which]); }
      var item := DetachItemFromArray(parent, which, kids);
      if item != null { DeleteItem(item); }
    }
  }

  /** Trees that share no node, with their nodes, all within `space`. */
  ghost predicate Forest(kids: seq<Item>, subs: seq<set<Block>>, space: set<Item>)
    reads kids, space
  {
    && |subs| == |kids|
    && (forall i :: 0 <= i < |kids| ==> kids[i].repr <= space && kids[i].Tree() && Owned(kids[i]) == subs[i])
    && (forall i, j :: 0 <= i < j < |kids| ==> kids[i].repr !! kids[j].repr)
  }

  /** The tree below `item` has neither the parent nor a sibling. */
  ghost predicate Separate(item: Item, parent: Item, kids: seq<Item>)
    reads item`child, item`kids, item`repr, item.repr - {item}
  {
    item.Tree() && parent !in item.repr && forall i :: 0 <= i < |kids| && kids[i] != item ==> kids[i] !in item.repr
  }

  /** The next pointers go along the list and end with NULL. */
  ghost predicate Onward(kids: seq<Item>)
    reads kids`next
  {
    forall i :: 0 <= i < |kids| ==> kids[i].next == Behind(kids, i)
  }

  ghost function Union(subs: seq<set<Block>>): set<Block> {
    if subs == [] then {} else Union(subs[..|subs| - 1]) + subs[|subs| - 1]
  }

  /** The blocks of a node: itself, its name, its string value. */
  ghost function Own(item: Item): set<Block>
    reads item`content, item`key
  {
    {NodeBlock(item)} + (if item.key.Some? then {NameBlock(item)} else {})
    + if item.content.Text? then {StringBlock(item)} else {}
  }

  /** The blocks of the node and of all nodes below it. */
  ghost function Owned(item: Item): set<Block>
    requires item.Tree()
    reads item`child, item`kids, item`repr, item`content, item`key, item.repr - {item}
    decreases item.repr, |item.kids| + 1
  {
    Own(item) + Below(item, |item.kids|)
  }

  ghost function Below(item: Item, n: nat): set<Block>
    requires item.Tree() && n <= |item.kids|
    reads item`child, item`kids, item`repr, item.repr - {item}
    decreases item.repr, n
  {
    if n == 0 then {} else Below(item, n - 1) + Owned(item.kids[n - 1])
  }

  /** The node is the root of the tree or somewhere below it. */
  ghost predicate Contains(item: Item, node: Item)
    requires item.Tree()
    reads item`child, item`kids, item`repr, item.repr - {item}
    decreases item.repr
  {
    node == item || exists i :: 0 <= i < |item.kids| && Contains(item.kids[i], node)
  }

  /** Block and node belong together: the node itself, its name if it has one, its text if it holds one. */
  predicate Belongs(b: Block)
    reads b.item
  {
    match b
    case NodeBlock(_) => true
    case NameBlock(node) => node.key != None
    case StringBlock(node) => node.content.Text?
  }

  /** A tree owns the blocks that belong to its nodes, and no others. */
  lemma {:induction false} OwnedIff(item: Item, b: Block)
    requires item.Tree()
    ensures b in Owned(item) <==> Contains(item, b.item) && Belongs(b)
    decreases item.repr, |item.kids| + 1
  {
    hide Item.Tree;
    BelowIff(item, |item.kids|, b);
    assert b in Own(item) <==> b.item == item && Belongs(b);
  }

  lemma KidTree(item: Item, i: nat)
    requires item.Tree() && i < |item.kids|
    ensures item.kids[i].Tree() && item.kids[i].repr <= item.repr
    ensures item in item.repr && item !in item.kids[i].repr
  {
  }

  lemma {:induction false} BelowIff(item: Item, n: nat, b: Block)
    requires item.Tree() && n <= |item.kids|
    ensures forall i :: 0 <= i < n ==> item.kids[i].Tree()
    ensures b in Below(item, n) <==> (exists i :: 0 <= i < n && Contains(item.kids[i], b.item)) && Belongs(b)
    decreases item.repr, n
  {
    hide Item.Tree, Contains, Belongs, Owned;
    if n > 0 {
      BelowIff(item, n - 1, b);
      KidTree(item, n - 1);
      OwnedIff(item.kids[n - 1], b);
      assert b in Below(item, n) <==> b in Below(item, n - 1) || b in Owned(item.kids[n - 1]);
      if Contains(item.kids[n - 1], b.item) {
        assert exists i :: 0 <= i < n && Contains(item.kids[i], b.item);
      }
    }
  }

  lemma {:induction false} OwnedInside(item: Item)
    requires item.Tree()
    ensures item in item.repr && Own(item) <= Owned(item) && forall b :: b in Owned(item) ==> b.item in item.repr
    decreases item.repr, |item.kids| + 1
  {
    BelowInside(item, |item.kids|);
  }

  lemma {:induction false} BelowInside(item: Item, n: nat)
    requires item.Tree() && n <= |item.kids|
    ensures forall b :: b in Below(item, n) ==> b.item in item.repr - {item}
    decreases item.repr, n
  {
    if n > 0 {
      BelowInside(item, n - 1);
      OwnedInside(item.kids[n - 1]);
    }
  }

  lemma {:induction false} UnionMember(subs: seq<set<Block>>, x: Block)
    ensures x in Union(subs) <==> exists i :: 0 <= i < |subs| && x in subs[i]
  {
    if subs != [] {
      var most := subs[..|subs| - 1];
      UnionMember(most, x);
      if x in Union(most) {
        var i :| 0 <= i < |most| && x in most[i];
        assert x in subs[i];
      }
      if i :| 0 <= i < |subs| && x in subs[i] {
        if i < |most| { assert x in most[i]; }
      }
    }
  }

  lemma UnionAppend(subs: seq<set<Block>>, sub: set<Block>)
    ensures Union(subs + [sub]) == Union(subs) + sub
  {
    assert (subs + [sub])[..|subs|] == subs;
  }

  lemma NoNodes(subs: seq<set<Block>>)
    ensures Union(subs[..0]) == {}
  {
  }

  lemma OnwardAt(kids: seq<Item>, k: nat)
    requires Onward(kids) && k < |kids|
    ensures kids[k].next == Behind(kids, k)
  {
  }

  lemma ForestSize(kids: seq<Item>, subs: seq<set<Block>>, space: set<Item>)
    requires Forest(kids, subs, space)
    ensures |kids| == |subs|
  {
  }

  lemma UnionInside(kids: seq<Item>, subs: seq<set<Block>>, space: set<Item>)
    requires Forest(kids, subs, space)
    ensures forall b :: b in Union(subs) ==> b.item in space
  {
    hide Item.Tree, Owned, Union;
    forall x | x in Union(subs) ensures x.item in space {
      UnionMember(subs, x);
      var i :| 0 <= i < |subs| && x in subs[i];
      OwnedInside(kids[i]);
    }
  }

  /** The next tree of the list has none of the nodes of those before it. */
  lemma NodesApart(kids: seq<Item>, subs: seq<set<Block>>, k: nat, space: set<Item>)
    requires Forest(kids, subs, space) && k < |kids|
    ensures k < |subs| && kids[k].Tree() && kids[k].repr <= space && Owned(kids[k]) == subs[k]
    ensures Union(subs[..k]) !! subs[k] && subs[k] <= Union(subs)
    ensures Union(subs[..k + 1]) == Union(subs[..k]) + subs[k]
  {
    hide Item.Tree, Owned, Union;
    OwnedInside(kids[k]);
    forall x | x in subs[k] ensures x in Union(subs) && x !in Union(subs[..k]) {
      UnionMember(subs, x);
      UnionMember(subs[..k], x);
      forall i | 0 <= i < k ensures x !in subs[i] { OwnedInside(kids[i]); }
    }
    UnionAppend(subs[..k], subs[k]);
    assert subs[..k + 1] == subs[..k] + [subs[k]];
  }

  /** The children of a node are such a list, with the nodes below it. */
  lemma OwnedChildren(item: Item) returns (subs: seq<set<Block>>)
    requires item.Tree()
    ensures var space := item.repr - {item};
            && Forest(item.kids, subs, space) && Onward(item.kids)
            && item.child == (if item.kids == [] then null else item.kids[0])
            && Owned(item) == Own(item) + Union(subs) && Own(item) !! Union(subs) && space < item.repr
  {
    hide Item.Tree, Owned, Below, Union, Own;
    subs := OwnedBy(item, |item.kids|);
    OwnedIs(item);
    OwnBlocks(item);
    BelowInside(item, |item.kids|);
    TreeFamily(item);
    forall i | 0 <= i < |item.kids|
      ensures item.kids[i].next == Behind(item.kids, i) && item.kids[i].repr <= item.repr - {item}
    {
      assert LinkedAt(item.kids, i) && Kid(item, i);
    }
  }

  lemma OwnBlocks(item: Item)
    ensures forall b :: b in Own(item) ==> b.item == item
  {
  }

  lemma OwnedIs(item: Item)
    requires item.Tree()
    ensures Owned(item) == Own(item) + Below(item, |item.kids|)
  {
  }

  lemma {:induction false} OwnedBy(item: Item, n: nat) returns (subs: seq<set<Block>>)
    requires item.Tree() && n <= |item.kids|
    ensures |subs| == n && Union(subs) == Below(item, n)
    ensures forall i :: 0 <= i < n ==> item.kids[i].Tree() && Owned(item.kids[i]) == subs[i]
    decreases n
  {
    if n == 0 {
      subs := [];
    } else {
      subs := OwnedBy(item, n - 1);
      UnionAppend(subs, Owned(item.kids[n - 1]));
      subs := subs + [Owned(item.kids[n - 1])];
    }
  }
}
