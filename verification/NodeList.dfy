/** The pointer DOM: a node's children form a doubly linked chain, and the list operations do to the
    chain what their sequence counterparts do to a sequence. */
module NodeList {
  import opened Bytes
  import opened Json
  import opened Compare

  /** What a subtree holds, node by node: an absent name is not an empty one. */
  datatype Sketch = Sketch(content: Value, key: Option<bytes>, kids: seq<Sketch>)

  class Item {
    var next: Item?
    var prev: Item?
    var child: Item?
    var key: Option<bytes>
    /** The type and scalar payload: for containers, an empty array or object. */
    var content: Value
    /** The children in order, and every node of the subtree. */
    ghost var kids: seq<Item>
    ghost var repr: set<Item>

    constructor (content: Value, key: Option<bytes>)
      ensures next == prev == child == null && this.content == content && this.key == key
      ensures kids == [] && repr == {this}
    {
      next, prev, child, this.content, this.key := null, null, null, content, key;
      kids, repr := [], {this};
    }

    /** The subtree is a tree: chained children with subtrees of their own that share no node. */
    ghost predicate Tree()
      reads this`child, this`kids, this`repr, repr - {this}
      decreases repr
    {
      && this in repr
      && (forall i :: 0 <= i < |kids| ==> kids[i] in repr && kids[i] != this)
      && Chain(this, kids)
      && (forall i :: 0 <= i < |kids| ==> kids[i].repr <= repr && this !in kids[i].repr && kids[i].Tree())
      && (forall i, j :: 0 <= i < j < |kids| ==> kids[i].repr !! kids[j].repr)
    }

    /** The document the subtree stands for. */
    ghost function Document(): Value
      requires Tree()
      reads this`child, this`kids, this`repr, this`content, repr - {this}
      decreases repr, |kids| + 1
    {
      if content.Array? then Array(Elements(|kids|))
      else if content.Object? then Object(Members(|kids|))
      else content
    }

    /** The first `n` children as array elements. */
    ghost function Elements(n: nat): seq<Value>
      requires Tree() && n <= |kids|
      reads this`child, this`kids, this`repr, repr - {this}
      decreases repr, n
    {
      if n == 0 then [] else Elements(n - 1) + [kids[n - 1].Document()]
    }

    /** The first `n` children as object members. */
    ghost function Members(n: nat): seq<Member>
      requires Tree() && n <= |kids|
      reads this`child, this`kids, this`repr, repr - {this}
      decreases repr, n
    {
      if n == 0 then [] else Members(n - 1) + [Member(Name(kids[n - 1].key), kids[n - 1].Document())]
    }

    ghost function Outline(): Sketch
      requires Tree()
      reads this`child, this`kids, this`repr, this`content, this`key, repr - {this}
      decreases repr, |kids| + 1
    {
      Sketch(content, key, Outlines(|kids|))
    }

    ghost function Outlines(n: nat): seq<Sketch>
      requires Tree() && n <= |kids|
      reads this`child, this`kids, this`repr, repr - {this}
      decreases repr, n
    {
      if n == 0 then [] else Outlines(n - 1) + [kids[n - 1].Outline()]
    }

    lemma {:induction false} SameElements(other: Item, n: nat)
      requires Tree() && other.Tree() && n <= |kids| && n <= |other.kids|
      requires forall j :: 0 <= j < n ==>
                 kids[j].Document() == other.kids[j].Document() && kids[j].key == other.kids[j].key
      ensures Elements(n) == other.Elements(n) && Members(n) == other.Members(n)
    {
      hide Item.Document, Chain, Linked, LinkedAt;
      if n > 0 {
        assert kids[n - 1].Tree() && other.kids[n - 1].Tree();
        SameElements(other, n - 1);
      }
    }
  }

  function Name(key: Option<bytes>): bytes {
    if key.Some? then key.value else []
  }

  /** prev and next are mutually inverse along `kids` and NULL at its ends. */
  ghost predicate Linked(kids: seq<Item>)
    reads kids`next, kids`prev
  {
    && (forall i, j :: 0 <= i < j < |kids| ==> kids[i] != kids[j])
    && (forall i :: 0 <= i < |kids| ==> LinkedAt(kids, i))
  }

  ghost predicate LinkedAt(kids: seq<Item>, i: nat)
    requires i < |kids|
    reads kids`next, kids`prev
  {
    && kids[i].next == (if i + 1 < |kids| then kids[i + 1] else null)
    && kids[i].prev == (if i > 0 then kids[i - 1] else null)
  }

  /** The chain hanging from `parent` is exactly `kids`. */
  ghost predicate Chain(parent: Item, kids: seq<Item>)
    reads parent`child, kids`next, kids`prev
  {
    Linked(kids) && parent.child == if kids == [] then null else kids[0]
  }

  ghost predicate Detached(item: Item)
    reads item`next, item`prev
  {
    item.next == null && item.prev == null
  }

  function Inserted<T>(s: seq<T>, i: nat, x: T): seq<T> {
    if i <= |s| then s[..i] + [x] + s[i..] else s + [x]
  }

  lemma InsertedIs<T>(s: seq<T>, i: nat, x: T)
    ensures var r, at := Inserted(s, i, x), if i < |s| then i else |s|;
            && |r| == |s| + 1 && r[at] == x && (forall j :: 0 <= j < at ==> r[j] == s[j])
            && forall j :: at <= j < |s| ==> r[j + 1] == s[j]
  {
  }

  /** The node a pointer refers to, if any. */
  function Target(item: Item?): set<Item> {
    if item == null then {} else {item}
  }

  /** add_item_to_array: append at the end of the chain. */
  method AddItemToArray(parent: Item?, item: Item?, ghost kids: seq<Item>) returns (ok: bool)
    requires parent != null && item != null ==> Chain(parent, kids) && Detached(item) && item !in kids
    modifies Target(parent)`child, kids`next, Target(item)`prev
    ensures ok <==> parent != null && item != null
    ensures ok ==> Chain(parent, kids + [item])
    ensures !ok && parent != null ==> parent.child == old(parent.child)
    ensures !ok ==> forall k :: k in kids ==> k.next == old(k.next)
  {
    if item == null || parent == null { return false; }
    var child := parent.child;
    if child == null {
      parent.child := item;
    } else {
      ghost var k := 0;
      assert child == kids[0];
      while child.next != null
        invariant 0 <= k < |kids| && child == kids[k] && Chain(parent, kids)
        decreases |kids| - k
      {
        assert LinkedAt(kids, k);
        child := child.next;
        k := k + 1;
      }
      assert LinkedAt(kids, k);
      SuffixObject(child, item);
    }
    ghost var all := kids + [item];
    forall i | 0 <= i < |all|
      ensures LinkedAt(all, i)
    {
      if i < |kids| {
        assert all[i] == kids[i] && old(LinkedAt(kids, i));
      }
    }
    ok := true;
  }

  /** suffix_object. */
  method SuffixObject(prev: Item, item: Item)
    modifies prev`next, item`prev
    ensures prev.next == item && item.prev == prev
  {
    prev.next := item;
    item.prev := prev;
  }

  /** get_array_item: walk the chain. */
  method GetArrayItem(parent: Item?, index: nat, ghost kids: seq<Item>) returns (item: Item?)
    requires parent != null ==> Chain(parent, kids)
    ensures item == if parent != null && index < |kids| then kids[index] else null
  {
    if parent == null { return null; }
    item := parent.child;
    var left := index;
    ghost var k := 0;
    while item != null && left > 0
      invariant 0 <= k <= |kids| && k + left == index
      invariant item == if k < |kids| then kids[k] else null
      decreases left
    {
      left := left - 1;
      assert LinkedAt(kids, k);
      item := item.next;
      k := k + 1;
    }
  }

  lemma ChainHead(parent: Item, kids: seq<Item>)
    requires Chain(parent, kids)
    ensures parent.child == if kids == [] then null else kids[0]
  {
  }

  lemma ChainNext(parent: Item, kids: seq<Item>, k: nat)
    requires Chain(parent, kids) && k < |kids|
    ensures kids[k].next == if k + 1 < |kids| then kids[k + 1] else null
  {
    assert LinkedAt(kids, k);
  }

  /** There is one chain hanging from a node. */
  lemma ChainUnique(parent: Item, s: seq<Item>, t: seq<Item>)
    requires Chain(parent, s) && Chain(parent, t)
    ensures s == t
  {
    if |s| <= |t| { ChainPrefix(parent, s, t, |s|); } else { ChainPrefix(parent, t, s, |t|); }
    if 0 < |s| <= |t| { assert LinkedAt(s, |s| - 1) && LinkedAt(t, |s| - 1); }
    if 0 < |t| <= |s| { assert LinkedAt(s, |t| - 1) && LinkedAt(t, |t| - 1); }
  }

  lemma {:induction false} ChainPrefix(parent: Item, s: seq<Item>, t: seq<Item>, n: nat)
    requires Chain(parent, s) && Chain(parent, t) && n <= |s| && n <= |t|
    ensures s[..n] == t[..n]
    decreases n
  {
    if n > 0 {
      ChainPrefix(parent, s, t, n - 1);
      if n > 1 {
        assert LinkedAt(s, n - 2) && LinkedAt(t, n - 2);
        assert s[n - 2] == s[..n - 1][n - 2] == t[..n - 1][n - 2] == t[n - 2];
      }
      assert s[..n] == s[..n - 1] + [s[n - 1]] && t[..n] == t[..n - 1] + [t[n - 1]];
    }
  }

  /** The child get_object_item stops at. A nameless child ends a case-sensitive search and is
      passed over by the other one. */
  function Search(keys: seq<Option<bytes>>, name: bytes, caseSensitive: bool): (r: Option<nat>)
    ensures r.Some? ==> r.value < |keys| && keys[r.value].Some? && SameName(name, keys[r.value].value, caseSensitive)
  {
    if keys == [] then None
    else if keys[0].None? then
      if caseSensitive then None else Later(Search(keys[1..], name, caseSensitive))
    else if SameName(name, keys[0].value, caseSensitive) then Some(0)
    else Later(Search(keys[1..], name, caseSensitive))
  }

  function Later(r: Option<nat>): Option<nat> {
    if r.Some? then Some(r.value + 1) else None
  }

  /** The first child whose name agrees, behind others that have none or, in a case-sensitive search, have one. */
  predicate FirstNamed(keys: seq<Option<bytes>>, name: bytes, caseSensitive: bool, i: nat) {
    && i < |keys| && keys[i].Some? && NamesAgree(name, keys[i].value, caseSensitive)
    && forall k :: 0 <= k < i ==>
         if keys[k].None? then !caseSensitive else !NamesAgree(name, keys[k].value, caseSensitive)
  }

  lemma {:induction false} SearchIff(keys: seq<Option<bytes>>, name: bytes, caseSensitive: bool, i: nat)
    ensures Search(keys, name, caseSensitive) == Some(i) <==> FirstNamed(keys, name, caseSensitive, i)
  {
    hide SameName, NamesAgree;
    if keys != [] {
      if keys[0].Some? { SameNameIff(name, keys[0].value, caseSensitive); }
      if i > 0 {
        SearchIff(keys[1..], name, caseSensitive, i - 1);
        assert forall k :: 1 <= k < |keys| ==> keys[k] == keys[1..][k - 1];
      }
    }
  }

  /** Where every child is named, as in every parsed object, it is the first member with that name. */
  lemma {:induction false} SearchIsFind(keys: seq<Option<bytes>>, members: seq<Member>, name: bytes,
                                        caseSensitive: bool)
    requires |keys| == |members| && forall k :: 0 <= k < |keys| ==> keys[k] == Some(members[k].key)
    ensures Search(keys, name, caseSensitive) == Find(members, name, caseSensitive)
  {
    if keys != [] { SearchIsFind(keys[1..], members[1..], name, caseSensitive); }
  }

  /** The names of the children, in order. */
  ghost predicate Named(kids: seq<Item>, keys: seq<Option<bytes>>)
    reads kids`key
  {
    |keys| == |kids| && forall k :: 0 <= k < |kids| ==> keys[k] == kids[k].key
  }

  function Picked<T>(s: seq<T>, k: Option<nat>): Option<T> {
    if k.Some? && k.value < |s| then Some(s[k.value]) else None
  }

  /** get_object_item. */
  method GetObjectItem(parent: Item?, name: Option<bytes>, caseSensitive: bool, ghost kids: seq<Item>,
                       ghost keys: seq<Option<bytes>>)
    returns (item: Item?)
    requires parent != null ==> Chain(parent, kids) && Named(kids, keys)
    ensures parent == null || name.None? ==> item == null
    ensures parent != null && name.Some? ==>
              item == match Picked(kids, Search(keys, name.value, caseSensitive))
                      case None => null
                      case Some(k) => k
    ensures parent != null && name.Some? ==>
              if item == null then forall i: nat :: !FirstNamed(keys, name.value, caseSensitive, i)
              else exists i: nat :: FirstNamed(keys, name.value, caseSensitive, i) && item == kids[i]
  {
    if parent == null || name.None? { return null; }
    forall i: nat
      ensures Search(keys, name.value, caseSensitive) == Some(i) <==> FirstNamed(keys, name.value, caseSensitive, i)
    {
      SearchIff(keys, name.value, caseSensitive, i);
    }
    hide FirstNamed;
    hide Search, LowerAll, PassedOver, Chain, Linked, LinkedAt, SameName;
    ghost var k;
    item, k := FindByName(parent, name.value, caseSensitive, kids, keys);
    SearchStep(keys, name.value, caseSensitive, k);
    if item != null && item.key.None? { item := null; }
  }

  /** The loop of get_object_item: the first child that is not passed over. */
  method FindByName(parent: Item, name: bytes, caseSensitive: bool, ghost kids: seq<Item>,
                    ghost keys: seq<Option<bytes>>)
    returns (item: Item?, ghost k: nat)
    requires Chain(parent, kids) && Named(kids, keys)
    ensures k <= |kids| && item == (if k < |kids| then kids[k] else null)
    ensures k < |kids| ==> !PassedOver(keys[k], name, caseSensitive)
    ensures Search(keys, name, caseSensitive) == Shift(Search(keys[k..], name, caseSensitive), k)
  {
    hide Search, LowerAll, PassedOver, Chain, Linked, LinkedAt, SameName;
    ChainHead(parent, kids);
    item := parent.child;
    k := 0;
    ShiftNothing(keys, name, caseSensitive);
    while item != null
      invariant 0 <= k <= |kids| && item == if k < |kids| then kids[k] else null
      invariant Search(keys, name, caseSensitive) == Shift(Search(keys[k..], name, caseSensitive), k)
      decreases |kids| - k
    {
      var over := IsPassedOver(item.key, name, caseSensitive);
      if !over { return; }
      ChainNext(parent, kids, k);
      SearchStep(keys, name, caseSensitive, k);
      item := item.next;
      k := k + 1;
    }
  }

  /** The loop condition of get_object_item for one child: its name is there but differs, or, without
      regard to case, case_insensitive_strcmp does not find it equal. */
  predicate PassedOver(key: Option<bytes>, name: bytes, caseSensitive: bool) {
    if caseSensitive then key.Some? && name != key.value else key.None? || LowerAll(name) != LowerAll(key.value)
  }

  method IsPassedOver(key: Option<bytes>, name: bytes, caseSensitive: bool) returns (over: bool)
    ensures over == PassedOver(key, name, caseSensitive)
  {
    hide LowerAll;
    if caseSensitive { return key.Some? && name != key.value; }
    if key.None? { return true; }
    var same := CaseInsensitiveStrcmp(name, key.value);
    over := !same;
  }

  /** case_insensitive_strcmp, when it is asked whether two names differ. */
  method CaseInsensitiveStrcmp(s: bytes, t: bytes) returns (same: bool)
    ensures same <==> LowerAll(s) == LowerAll(t)
    ensures same <==> NamesAgree(s, t, false)
  {
    hide NamesAgree, Lower;
    SameNameIff(s, t, false);
    var k := 0;
    while k < |s| && k < |t| && Lower(s[k]) == Lower(t[k])
      invariant 0 <= k <= |s| && k <= |t|
      invariant forall j :: 0 <= j < k ==> Lower(s[j]) == Lower(t[j])
    {
      k := k + 1;
    }
    same := k == |s| == |t|;
    if k < |s| && k < |t| { assert LowerAll(s)[k] != LowerAll(t)[k]; }
  }

  lemma ShiftNothing(keys: seq<Option<bytes>>, name: bytes, caseSensitive: bool)
    ensures Shift(Search(keys[0..], name, caseSensitive), 0) == Search(keys, name, caseSensitive)
  {
    assert keys[0..] == keys;
  }

  lemma SearchStep(keys: seq<Option<bytes>>, name: bytes, caseSensitive: bool, k: nat)
    requires k <= |keys|
    ensures Search(keys[k..], name, caseSensitive) ==
            if k == |keys| then None
            else if PassedOver(keys[k], name, caseSensitive) then Later(Search(keys[k + 1..], name, caseSensitive))
            else if keys[k].None? then None
            else Some(0)
  {
    hide LowerAll;
    if k < |keys| { assert keys[k..][1..] == keys[k + 1..]; }
  }

  function Shift(r: Option<nat>, k: nat): Option<nat> {
    if r.Some? then Some(r.value + k) else None
  }

  /** cJSON_DetachItemViaPointer: unlink the child at position `at`. */
  method DetachItemViaPointer(parent: Item?, item: Item?, ghost kids: seq<Item>, ghost at: nat) returns (r: Item?)
    requires parent != null && item != null ==> Chain(parent, kids) && at < |kids| && kids[at] == item
    modifies Target(parent)`child, kids`next, kids`prev
    ensures r == if parent == null then null else item
    ensures r != null ==> Chain(parent, Without(kids, at)) && Detached(r)
    ensures r == null ==> forall k :: k in kids ==> k.next == old(k.next) && k.prev == old(k.prev)
    ensures r == null && parent != null ==> parent.child == old(parent.child)
  {
    if parent == null || item == null { return null; }
    assert LinkedAt(kids, at);
    if item.prev != null { item.prev.next := item.next; }
    if item.next != null { item.next.prev := item.prev; }
    if item == parent.child { parent.child := item.next; }
    item.prev := null;
    item.next := null;
    r := item;
    ghost var rest := Without(kids, at);
    forall i | 0 <= i < |rest|
      ensures LinkedAt(rest, i)
    {
      var j := if i < at then i else i + 1;
      assert rest[i] == kids[j];
      assert old(LinkedAt(kids, j));
    }
  }

  /** cJSON_DetachItemFromArray. */
  method DetachItemFromArray(parent: Item?, which: int, ghost kids: seq<Item>) returns (r: Item?)
    requires parent != null ==> Chain(parent, kids)
    modifies Target(parent)`child, kids`next, kids`prev
    ensures r == if parent != null && 0 <= which < |kids| then kids[which] else null
    ensures r != null ==> Chain(parent, Without(kids, which)) && Detached(r)
    ensures r == null && parent != null ==> Chain(parent, kids)
  {
    if which < 0 { return null; }
    var item := GetArrayItem(parent, which, kids);
    r := DetachItemViaPointer(parent, item, kids, which);
    if r == null && parent != null { StillLinked(kids); }
  }

  twostate lemma StillLinked(kids: seq<Item>)
    requires old(Linked(kids)) && forall k :: k in kids ==> k.next == old(k.next) && k.prev == old(k.prev)
    ensures Linked(kids)
  {
    forall i | 0 <= i < |kids|
      ensures LinkedAt(kids, i)
    {
      assert kids[i] in kids;
      assert old(LinkedAt(kids, i));
    }
  }

  /** cJSON_InsertItemInArray: before the child at `which`, or at the end when there is none. */
  method InsertItemInArray(parent: Item?, which: int, newitem: Item?, ghost kids: seq<Item>)
    requires parent != null ==> Chain(parent, kids)
    requires parent != null && newitem != null ==> Detached(newitem) && newitem !in kids
    requires parent != null && newitem == null ==> !(0 <= which < |kids|)
    modifies Target(parent)`child, kids`next, kids`prev, Target(newitem)`next, Target(newitem)`prev
    ensures parent != null && which >= 0 && newitem != null ==> Chain(parent, Inserted<Item>(kids, which, newitem))
    ensures parent != null && (which < 0 || newitem == null) ==>
              Chain(parent, kids) && (newitem != null ==> Detached(newitem))
  {
    if which < 0 { return; }
    var after := GetArrayItem(parent, which, kids);
    if after == null {
      var _ := AddItemToArray(parent, newitem, kids);
      if parent != null && newitem == null { StillLinked(kids); }
      assert newitem != null && which == |kids| ==> kids[..which] + [newitem] + kids[which..] == kids + [newitem];
      return;
    }
    InsertBefore(parent, which, newitem, kids, after);
  }

  method InsertBefore(parent: Item, ghost which: nat, newitem: Item, ghost kids: seq<Item>, after: Item)
    requires Chain(parent, kids) && Detached(newitem) && newitem !in kids && which < |kids| && after == kids[which]
    modifies parent`child, kids`next, kids`prev, newitem`next, newitem`prev
    ensures Chain(parent, Inserted(kids, which, newitem))
  {
    assert LinkedAt(kids, which);
    newitem.next := after;
    newitem.prev := after.prev;
    after.prev := newitem;
    if after == parent.child {
      parent.child := newitem;
    } else {
      newitem.prev.next := newitem;
    }
    forall j | 0 <= j < |kids|
      ensures kids[j].next == (if j + 1 == which then newitem else Behind(kids, j))
      ensures kids[j].prev == (if j == which then newitem else Ahead(kids, j))
    {
      assert old(LinkedAt(kids, j));
    }
    InsertedLinked(kids, which, newitem);
  }

  function Behind(s: seq<Item>, i: nat): Item? { if i + 1 < |s| then s[i + 1] else null }

  function Ahead(s: seq<Item>, i: nat): Item? { if 0 < i <= |s| then s[i - 1] else null }

  /** The links after an insertion, seen from the old list. */
  ghost predicate Spliced(kids: seq<Item>, which: nat, x: Item)
    requires which < |kids|
    reads kids`next, kids`prev, x`next, x`prev
  {
    && x.next == kids[which] && x.prev == Ahead(kids, which)
    && (forall j :: 0 <= j < |kids| ==> kids[j].next == (if j + 1 == which then x else Behind(kids, j)))
    && (forall j :: 0 <= j < |kids| ==> kids[j].prev == (if j == which then x else Ahead(kids, j)))
  }

  lemma InsertedLinked(kids: seq<Item>, which: nat, x: Item)
    requires which < |kids| && x !in kids && forall i, j :: 0 <= i < j < |kids| ==> kids[i] != kids[j]
    requires Spliced(kids, which, x)
    ensures Linked(Inserted(kids, which, x))
  {
    hide Inserted, Spliced, LinkedAt;
    var all := Inserted(kids, which, x);
    InsertedAt(kids, which, x, which);
    forall i | 0 <= i < |all| ensures LinkedAt(all, i) { InsertedLinkedAt(kids, which, x, i); }
    forall i, j | 0 <= i < j < |all| ensures all[i] != all[j] {
      InsertedAt(kids, which, x, i);
      InsertedAt(kids, which, x, j);
    }
  }

  lemma InsertedLinkedAt(kids: seq<Item>, which: nat, x: Item, i: nat)
    requires which < |kids| && i <= |kids| && Spliced(kids, which, x)
    ensures i < |Inserted(kids, which, x)| && LinkedAt(Inserted(kids, which, x), i)
  {
    hide Inserted;
    InsertedAt(kids, which, x, i);
    if i > 0 { InsertedAt(kids, which, x, i - 1); }
    if i < |kids| { InsertedAt(kids, which, x, i + 1); }
  }

  lemma InsertedAt<T>(s: seq<T>, which: nat, x: T, i: nat)
    requires which < |s| && i <= |s|
    ensures |Inserted(s, which, x)| == |s| + 1
    ensures Inserted(s, which, x)[i] == if i < which then s[i] else if i == which then x else s[i - 1]
  {
  }

  /** The relinking of cJSON_ReplaceItemViaPointer. The replaced node ends up detached, so that deleting
      it, as is done next, releases its own subtree and no sibling. */
  method Relink(parent: Item?, item: Item?, replacement: Item?, ghost kids: seq<Item>, ghost at: nat)
    returns (ok: bool)
    requires parent != null && item != null && replacement != null ==>
               Chain(parent, kids) && at < |kids| && kids[at] == item && (replacement == item || replacement !in kids)
    modifies Target(parent)`child, kids`next, kids`prev, Target(replacement)`next, Target(replacement)`prev
    ensures ok <==> parent != null && item != null && replacement != null
    ensures ok ==> Chain(parent, kids[at := replacement]) && (replacement != item ==> Detached(item))
  {
    if parent == null || replacement == null || item == null { return false; }
    ghost var all := kids[at := replacement];
    if replacement == item {
      assert all == kids;
      return true;
    }
    assert LinkedAt(kids, at);
    replacement.next := item.next;
    replacement.prev := item.prev;
    if replacement.next != null { replacement.next.prev := replacement; }
    if replacement.prev != null { replacement.prev.next := replacement; }
    if parent.child == item { parent.child := replacement; }
    item.next := null;
    item.prev := null;
    forall i | 0 <= i < |all|
      ensures LinkedAt(all, i)
    {
      assert old(LinkedAt(kids, i));
    }
    ok := true;
  }

  // ----- Runs of list operations

  datatype Edit =
    | Append(item: Item)
    | InsertAt(which: int, item: Item)
    | DetachAt(which: int)
    | ReplaceAt(which: int, item: Item)

  function NewItem(e: Edit): Item? { if e.DetachAt? then null else e.item }

  /** What an operation does to the list of children. */
  function Edited(s: seq<Item>, e: Edit): seq<Item> {
    match e
    case Append(x) => s + [x]
    case InsertAt(which, x) => if which < 0 then s else Inserted(s, which, x)
    case DetachAt(which) => if 0 <= which < |s| then Without(s, which) else s
    case ReplaceAt(which, x) => if 0 <= which < |s| then s[which := x] else s
  }

  function EditedAll(s: seq<Item>, es: seq<Edit>): seq<Item> {
    if es == [] then s else Edited(EditedAll(s, es[..|es| - 1]), es[|es| - 1])
  }

  method Apply(parent: Item, e: Edit, ghost kids: seq<Item>)
    requires Chain(parent, kids) && (NewItem(e) != null ==> Detached(NewItem(e)) && NewItem(e) !in kids)
    modifies parent`child, kids`next, kids`prev, Target(NewItem(e))`next, Target(NewItem(e))`prev
    ensures Chain(parent, Edited(kids, e))
    ensures forall k :: (k in kids || k == NewItem(e)) && k !in Edited(kids, e) ==> Detached(k)
  {
    hide Chain, Linked, LinkedAt, Inserted, Without;
    match e {
      case Append(x) => var _ := AddItemToArray(parent, x, kids);
      case InsertAt(which, x) =>
        if which >= 0 { InsertKeeps(kids, which, x); }
        InsertItemInArray(parent, which, x, kids);
      case DetachAt(which) =>
        if 0 <= which < |kids| { RemoveKeeps(kids, which); }
        var _ := DetachItemFromArray(parent, which, kids);
      case ReplaceAt(which, x) =>
        if 0 <= which < |kids| { UpdateKeeps(kids, which, x); }
        RelinkInArray(parent, which, x, kids);
    }
  }

  lemma InsertKeeps<T>(s: seq<T>, which: int, x: T)
    requires which >= 0
    ensures x in Inserted(s, which, x) && forall k :: k in s ==> k in Inserted(s, which, x)
  {
    if which <= |s| { assert s == s[..which] + s[which..]; }
  }

  lemma RemoveKeeps<T>(s: seq<T>, which: int)
    requires 0 <= which < |s|
    ensures forall k :: k in s && k != s[which] ==> k in Without(s, which)
  {
    assert s == s[..which] + [s[which]] + s[which + 1..];
  }

  lemma UpdateKeeps<T>(s: seq<T>, which: int, x: T)
    requires 0 <= which < |s|
    ensures x in s[which := x] && forall k :: k in s && k != s[which] ==> k in s[which := x]
  {
    assert s == s[..which] + [s[which]] + s[which + 1..];
    assert s[which := x] == s[..which] + [x] + s[which + 1..];
  }

  /** The same for the child at an index. */
  method RelinkInArray(parent: Item, which: int, x: Item, ghost kids: seq<Item>)
    requires Chain(parent, kids) && x !in kids
    modifies parent`child, kids`next, kids`prev, x`next, x`prev
    ensures Chain(parent, if 0 <= which < |kids| then kids[which := x] else kids)
    ensures if 0 <= which < |kids| then Detached(kids[which]) else x.next == old(x.next) && x.prev == old(x.prev)
  {
    hide Chain, Linked, LinkedAt;
    if which < 0 { return; }
    var item := GetArrayItem(parent, which, kids);
    if item == null { return; }
    var _ := Relink(parent, item, x, kids, which);
  }

  /** Every operation brings a node of its own that is in no list yet. */
  ghost predicate Ready(kids: seq<Item>, es: seq<Edit>) {
    && (forall i :: 0 <= i < |es| && NewItem(es[i]) != null ==> NewItem(es[i]) !in kids)
    && (forall i, j :: 0 <= i < j < |es| && NewItem(es[i]) != null ==> NewItem(es[i]) != NewItem(es[j]))
  }

  ghost function Nodes(kids: seq<Item>, es: seq<Edit>): set<Item> {
    (set k | k in kids) + (set i | 0 <= i < |es| && NewItem(es[i]) != null :: NewItem(es[i]))
  }

  /** Any run of them: the chain is the list the same run makes of a sequence, a node that is not in it at
      the end has null links, and no other node changes. */
  method ApplyAll(parent: Item, es: seq<Edit>, ghost kids: seq<Item>)
    requires Chain(parent, kids) && Ready(kids, es)
    requires forall i :: 0 <= i < |es| && NewItem(es[i]) != null ==> Detached(NewItem(es[i]))
    modifies parent`child, Nodes(kids, es)`next, Nodes(kids, es)`prev
    ensures Chain(parent, EditedAll(kids, es))
    ensures forall k :: k in Nodes(kids, es) && k !in EditedAll(kids, es) ==> Detached(k)
  {
    hide Chain, Linked, LinkedAt, Edited, EditedAll, Ready, Reached, Detached;
    var i := 0;
    RunStart(kids, es);
    ghost var now := kids;
    while i < |es|
      invariant 0 <= i <= |es| && now == EditedAll(kids, es[..i]) && Chain(parent, now) && Reached(kids, es, i)
      invariant forall k :: k in Nodes(kids, es) && k !in now ==> Detached(k)
    {
      RunStep(kids, es, i);
      ReachedMeans(kids, es, i);
      Apply(parent, es[i], now);
      now := EditedAll(kids, es[..i + 1]);
      i := i + 1;
    }
    assert es[..|es|] == es;
  }

  lemma ReachedMeans(kids: seq<Item>, es: seq<Edit>, i: nat)
    requires Reached(kids, es, i)
    ensures forall k :: k in EditedAll(kids, es[..i]) ==> k in Nodes(kids, es)
  {
  }

  /** Half way through, the list holds nodes from the start or brought so far, none of those to come. */
  ghost predicate Reached(kids: seq<Item>, es: seq<Edit>, i: nat) {
    && i <= |es|
    && (forall k :: k in EditedAll(kids, es[..i]) ==> k in Nodes(kids, es))
    && (forall j :: i <= j < |es| && NewItem(es[j]) != null ==> NewItem(es[j]) !in EditedAll(kids, es[..i]))
  }

  lemma RunStart(kids: seq<Item>, es: seq<Edit>)
    requires Ready(kids, es)
    ensures Reached(kids, es, 0) && EditedAll(kids, es[..0]) == kids
  {
  }

  lemma RunStep(kids: seq<Item>, es: seq<Edit>, i: nat)
    requires Ready(kids, es) && i < |es| && Reached(kids, es, i)
    ensures EditedAll(kids, es[..i + 1]) == Edited(EditedAll(kids, es[..i]), es[i])
    ensures Reached(kids, es, i + 1)
    ensures NewItem(es[i]) != null ==> NewItem(es[i]) in Nodes(kids, es) && NewItem(es[i]) !in EditedAll(kids, es[..i])
  {
    assert es[..i + 1][..i] == es[..i];
    hide EditedAll;
    EditedFrom(EditedAll(kids, es[..i]), es[i]);
  }

  lemma EditedFrom(s: seq<Item>, e: Edit)
    ensures forall k :: k in Edited(s, e) ==> k in s || k == NewItem(e)
  {
  }

  /** cJSON_Duplicate, when every allocation succeeds: the same nodes all over again, and so the same document,
      on nodes that did not exist before. */
  method Duplicate(item: Item?, recurse: bool) returns (copy: Item?)
    requires item != null ==> item.Tree()
    ensures copy == null <==> item == null
    ensures copy != null ==>
            copy.Tree() && fresh(copy.repr) && Detached(copy) && copy.key == item.key && copy.content == item.content
    ensures copy != null ==> if recurse then copy.Outline() == item.Outline() else copy.kids == []
    ensures copy != null && recurse ==> item.Tree() && copy.Document() == item.Document()
  {
    if item == null { return null; }
    copy := DuplicateNode(item, recurse);
    if recurse { SameDocument(copy, item); }
  }

  method DuplicateNode(item: Item, recurse: bool) returns (copy: Item)
    requires item.Tree()
    ensures copy.Tree() && fresh(copy.repr) && Detached(copy) && copy.key == item.key && copy.content == item.content
    ensures if recurse then item.Tree() && copy.Outline() == item.Outline() else copy.kids == []
    decreases item.repr, 1, 0
  {
    hide Item.Tree, Item.Outline, Chain, Linked, LinkedAt, Agrees;
    copy := new Item(item.content, item.key);
    Childless(copy, item);
    if recurse {
      CopyChildren(copy, item);
      ChildrenAgree(copy, item);
    }
  }

  /** The loop of cJSON_Duplicate over the original's children. */
  method CopyChildren(copy: Item, item: Item)
    requires item.Tree() && copy.Tree() && copy.repr !! item.repr && Agrees(copy, item, 0) && copy.kids == []
    modifies copy`child, copy`kids, copy`repr
    ensures item.Tree() && copy.Tree() && Agrees(copy, item, |item.kids|) && fresh(copy.repr - old(copy.repr))
    decreases item.repr, 0, 1
  {
    hide Item.Tree, Item.Outline, Chain, Linked, LinkedAt, Agrees;
    var child := item.child;
    var last: Item? := null;
    ghost var k := 0;
    FirstChild(item);
    while child != null
      invariant item.Tree() && k <= |item.kids| && child == if k < |item.kids| then item.kids[k] else null
      invariant copy.Tree() && fresh(copy.repr - old(copy.repr)) && copy.repr !! item.repr
      invariant Copying(copy, item, k, last) && (last != null ==> fresh(last))
      decreases |item.kids| - k
    {
      last := CopyChild(copy, last, item, k, child);
      NextChild(item, k);
      child := child.next;
      k := k + 1;
    }
  }

  ghost predicate Copying(copy: Item, item: Item, k: nat, last: Item?)
    requires copy.Tree() && item.Tree()
    reads copy, copy.repr, item, item.repr
  {
    |copy.kids| == k && Agrees(copy, item, k) && last == if k == 0 then null else copy.kids[k - 1]
  }

  /** The copy has the first `k` children of the original. */
  ghost predicate Agrees(copy: Item, item: Item, k: nat)
    requires copy.Tree() && item.Tree()
    reads copy, copy.repr, item, item.repr
  {
    && |copy.kids| == k <= |item.kids|
    && forall j :: 0 <= j < k ==>
         copy.kids[j].Outline() == item.kids[j].Outline()
  }

  lemma {:induction false} ElementsOf(item: Item, n: nat)
    requires item.Tree() && n <= |item.kids|
    ensures |item.Elements(n)| == n && forall i :: 0 <= i < n ==>
            item.kids[i].Tree() && item.Elements(n)[i] == item.kids[i].Document()
    decreases n
  {
    hide Item.Document;
    if n > 0 { ElementsOf(item, n - 1); }
  }

  lemma {:induction false} MembersOf(item: Item, n: nat)
    requires item.Tree() && n <= |item.kids|
    ensures |item.Members(n)| == n
    ensures forall i :: 0 <= i < n ==>
              item.kids[i].Tree() && item.Members(n)[i] == Member(Name(item.kids[i].key), item.kids[i].Document())
    decreases n
  {
    hide Item.Document;
    if n > 0 { MembersOf(item, n - 1); }
  }

  lemma FirstChild(item: Item)
    requires item.Tree()
    ensures item.child == if item.kids == [] then null else item.kids[0]
  {
  }

  lemma NextChild(item: Item, k: nat)
    requires item.Tree() && k < |item.kids|
    ensures item.kids[k].next == if k + 1 < |item.kids| then item.kids[k + 1] else null
    ensures item.kids[k].Tree() && item.kids[k].repr < item.repr
  {
    assert LinkedAt(item.kids, k);
    assert item in item.repr && item !in item.kids[k].repr;
  }

  /** One turn of the copying loop. */
  method CopyChild(copy: Item, last: Item?, ghost item: Item, ghost k: nat, child: Item) returns (newchild: Item)
    requires item.Tree() && copy.Tree() && copy.repr !! item.repr && Copying(copy, item, k, last)
    requires k < |item.kids| && child == item.kids[k]
    modifies copy`child, copy`kids, copy`repr, Target(last)`next
    ensures item.Tree() && copy.Tree() && fresh(copy.repr - old(copy.repr)) && Copying(copy, item, k + 1, newchild)
    ensures fresh(newchild)
    decreases item.repr, 0, 0
  {
    hide Item.Tree, Item.Outline, Chain, Linked;
    NextChild(item, k);
    TreeFamily(item);
    newchild := DuplicateNode(child, true);
    TreeFamily(newchild);
    TreeFamily(copy);
    ghost var before := copy.kids;
    assert last != null ==> Kid(copy, k - 1);
    forall j | 0 <= j < |item.kids|
      ensures item.kids[j] != copy && item.kids[j].repr !! copy.repr
    {
      assert Kid(item, j);
    }
    AppendCopy(copy, last, newchild);
    TreeFamily(copy);
    TreeFamily(item);
    forall j | 0 <= j < k + 1
      ensures copy.kids[j].Outline() == item.kids[j].Outline()
    {
      if j < k { assert copy.kids[j] == before[j]; }
    }
  }

  /** What being a tree says of the children, and the children of the node. */
  ghost predicate Family(item: Item)
    reads item`child, item`kids, item`repr, item.kids`next, item.kids`prev, item.kids`repr
  {
    && item in item.repr && Chain(item, item.kids)
    && (forall i :: 0 <= i < |item.kids| ==> Kid(item, i))
    && (forall i, j :: 0 <= i < j < |item.kids| ==> item.kids[i].repr !! item.kids[j].repr)
  }

  ghost predicate Kid(item: Item, i: nat)
    requires i < |item.kids|
    reads item`kids, item`repr, item.kids`repr
  {
    var kid := item.kids[i];
    kid in item.repr && kid != item && kid.repr <= item.repr && item !in kid.repr && kid in kid.repr
  }

  lemma TreeFamily(item: Item)
    requires item.Tree()
    ensures Family(item) && forall i :: 0 <= i < |item.kids| ==> item.kids[i].Tree()
  {
  }

  lemma FamilyTree(item: Item)
    requires Family(item) && forall i :: 0 <= i < |item.kids| ==> item.kids[i].Tree()
    ensures item.Tree()
  {
    forall i | 0 <= i < |item.kids|
      ensures item.kids[i] in item.repr && item.kids[i] != item && item.kids[i].repr <= item.repr &&
              item !in item.kids[i].repr
    {
      assert Kid(item, i);
    }
  }

  lemma Childless(copy: Item, item: Item)
    requires copy.kids == [] && copy.child == null && copy.repr == {copy} && item.Tree()
    ensures copy.Tree() && Agrees(copy, item, 0)
  {
  }

  lemma ChildrenAgree(copy: Item, item: Item)
    requires copy.Tree() && item.Tree() && Agrees(copy, item, |item.kids|)
    requires copy.content == item.content && copy.key == item.key
    ensures copy.Outline() == item.Outline()
  {
    hide Item.Tree;
    OutlinesAre(copy, |item.kids|);
    OutlinesAre(item, |item.kids|);
    assert copy.Outlines(|item.kids|) == item.Outlines(|item.kids|);
  }

  lemma {:induction false} OutlinesAre(item: Item, n: nat)
    requires item.Tree() && n <= |item.kids|
    ensures |item.Outlines(n)| == n
    ensures forall j :: 0 <= j < n ==> item.kids[j].Tree() && item.Outlines(n)[j] == item.kids[j].Outline()
    decreases n
  {
    hide Item.Outline;
    if n > 0 { OutlinesAre(item, n - 1); }
  }

  lemma OutlineContent(a: Item, b: Item)
    requires a.Tree() && b.Tree() && a.Outline() == b.Outline()
    ensures |a.kids| == |b.kids| && a.content == b.content && a.key == b.key
  {
    OutlinesAre(a, |a.kids|);
    OutlinesAre(b, |b.kids|);
  }

  /** The nodes determine the document. */
  lemma {:induction false} SameDocument(a: Item, b: Item)
    requires a.Tree() && b.Tree() && a.Outline() == b.Outline()
    ensures a.Document() == b.Document()
    decreases a.repr
  {
    OutlineContent(a, b);
    hide Item.Elements, Item.Members, Item.Outline, Item.Outlines, Item.Tree;
    forall j | 0 <= j < |a.kids|
      ensures a.kids[j].Document() == b.kids[j].Document() && a.kids[j].key == b.kids[j].key
    {
      SameOutline(a, b, j);
      NextChild(a, j);
      SameDocument(a.kids[j], b.kids[j]);
    }
    a.SameElements(b, |a.kids|);
  }

  lemma SameOutline(a: Item, b: Item, j: nat)
    requires a.Tree() && b.Tree() && a.Outline() == b.Outline() && j < |a.kids|
    ensures |a.kids| == |b.kids| && a.content == b.content && a.key == b.key
    ensures a.kids[j].Tree() && b.kids[j].Tree() && a.kids[j].Outline() == b.kids[j].Outline()
    ensures a.kids[j].key == b.kids[j].key
  {
    OutlinesAre(a, |a.kids|);
    OutlinesAre(b, |b.kids|);
    hide Item.Outlines, Item.Tree;
    assert a.Outlines(|a.kids|) == b.Outlines(|b.kids|);
    assert a.kids[j].Outline().key == a.kids[j].key;
  }

  /** One turn of the copying loop: link the new child behind the last one. */
  method AppendCopy(copy: Item, last: Item?, newchild: Item)
    requires copy.Tree() && newchild.Tree() && Detached(newchild) && copy.repr !! newchild.repr
    requires last == if copy.kids == [] then null else copy.kids[|copy.kids| - 1]
    modifies copy`child, copy`kids, copy`repr, Target(last)`next, newchild`prev
    ensures copy.Tree() && copy.kids == old(copy.kids) + [newchild] && copy.repr == old(copy.repr) + newchild.repr
    ensures forall j :: 0 <= j < |old(copy.kids)| ==> copy.kids[j].Outline() == old(copy.kids[j].Outline())
    ensures newchild.Outline() == old(newchild.Outline()) && newchild.repr == old(newchild.repr)
  {
    hide Item.Tree, Item.Outline, Linked;
    ghost var before := copy.kids;
    TreeFamily(newchild);
    LinkCopy(copy, last, newchild);
    copy.kids := before + [newchild];
    copy.repr := copy.repr + newchild.repr;
    forall i | 0 <= i < |copy.kids| ensures Kid(copy, i) && copy.kids[i].Tree() {
      assert copy.kids[i] == if i < |before| then before[i] else newchild;
    }
    forall i, j | 0 <= i < j < |copy.kids| ensures copy.kids[i].repr !! copy.kids[j].repr {
      assert copy.kids[i] == before[i];
    }
    FamilyTree(copy);
  }

  /** The stores of that turn: no subtree notices them. */
  method LinkCopy(copy: Item, last: Item?, newchild: Item)
    requires copy.Tree() && newchild.Tree() && Detached(newchild) && copy.repr !! newchild.repr
    requires last == if copy.kids == [] then null else copy.kids[|copy.kids| - 1]
    modifies copy`child, Target(last)`next, newchild`prev
    ensures Chain(copy, copy.kids + [newchild]) && copy in copy.repr
    ensures forall j :: 0 <= j < |copy.kids| ==>
              Kid(copy, j) && copy.kids[j].Tree() && copy.kids[j].Outline() == old(copy.kids[j].Outline())
    ensures forall i, j :: 0 <= i < j < |copy.kids| ==> copy.kids[i].repr !! copy.kids[j].repr
    ensures newchild.Tree() && newchild.Outline() == old(newchild.Outline())
  {
    hide Item.Tree, Item.Outline;
    TreeFamily(copy);
    TreeFamily(newchild);
    ghost var all := copy.kids + [newchild];
    if last != null {
      assert Kid(copy, |copy.kids| - 1);
      SuffixObject(last, newchild);
    } else {
      copy.child := newchild;
    }
    forall i | 0 <= i < |all| ensures LinkedAt(all, i) {
      if i < |copy.kids| { assert old(LinkedAt(copy.kids, i)); }
    }
    forall j | 0 <= j < |copy.kids|
      ensures Kid(copy, j) && copy.kids[j].Tree() && copy.kids[j].Outline() == old(copy.kids[j].Outline())
    {
      assert old(Kid(copy, j));
      assert newchild !in copy.kids[j].repr;
    }
  }

  // ----- Adding to an object

  /** cJSON_AddItemToObject: the item under its new name is the last member, and nothing else changes. */
  method AddItemToObject(parent: Item, name: bytes, item: Item)
    requires parent.Tree() && item.Tree() && Detached(item) && parent.repr !! item.repr && parent.content.Object?
    modifies parent`child, parent`kids, parent`repr, parent.kids`next, item`prev, item`key
    ensures parent.Tree() && parent.kids == old(parent.kids) + [item]
    ensures parent.repr == old(parent.repr) + item.repr && item.key == Some(name)
    ensures parent.Document() == Object(old(parent.Members(|parent.kids|)) + [Member(name, old(item.Document()))])
  {
    hide Item.Tree, Item.Document, Item.Members, Chain;
    ghost var kids, members, v := parent.kids, parent.Members(|parent.kids|), item.Document();
    MembersOf(parent, |kids|);
    TreeFamily(parent);
    TreeFamily(item);
    item.key := Some(name);
    forall j | 0 <= j < |kids|
      ensures kids[j] != item && kids[j].Tree() && members[j] == Member(Name(kids[j].key), kids[j].Document())
    {
      assert Kid(parent, j) && item !in kids[j].repr;
    }
    AddLast(parent, item);
    MembersOf(parent, |kids| + 1);
    forall j | 0 <= j < |kids| ensures parent.Members(|kids| + 1)[j] == members[j] {
      assert parent.kids[j] == kids[j];
    }
    assert parent.Members(|kids| + 1) == members + [Member(name, v)];
    ObjectDocument(parent);
  }

  lemma ObjectDocument(parent: Item)
    requires parent.Tree() && parent.content.Object?
    ensures parent.Document() == Object(parent.Members(|parent.kids|))
  {
  }

  method AddLast(parent: Item, item: Item)
    requires parent.Tree() && item.Tree() && Detached(item) && parent.repr !! item.repr
    modifies parent`child, parent`kids, parent`repr, parent.kids`next, item`prev
    ensures parent.Tree() && parent.kids == old(parent.kids) + [item]
    ensures parent.repr == old(parent.repr) + item.repr && item.repr == old(item.repr)
    ensures item.Tree() && item.Document() == old(item.Document())
    ensures forall j :: 0 <= j < |old(parent.kids)| ==>
              old(parent.kids[j].Tree()) && parent.kids[j].Tree() &&
              parent.kids[j].Document() == old(parent.kids[j].Document())
  {
    hide Item.Tree, Item.Document, Linked;
    ghost var before := parent.kids;
    TreeFamily(item);
    LinkLast(parent, item);
    parent.kids := before + [item];
    parent.repr := parent.repr + item.repr;
    forall i | 0 <= i < |parent.kids| ensures Kid(parent, i) && parent.kids[i].Tree() {
      assert parent.kids[i] == if i < |before| then before[i] else item;
    }
    forall i, j | 0 <= i < j < |parent.kids| ensures parent.kids[i].repr !! parent.kids[j].repr {
      assert parent.kids[i] == before[i];
    }
    FamilyTree(parent);
  }

  /** The stores of add_item_to_array: no subtree notices them. */
  method LinkLast(parent: Item, item: Item)
    requires parent.Tree() && item.Tree() && Detached(item) && parent.repr !! item.repr
    modifies parent`child, parent.kids`next, item`prev
    ensures Chain(parent, parent.kids + [item]) && parent in parent.repr
    ensures forall j :: 0 <= j < |parent.kids| ==>
              Kid(parent, j) && old(parent.kids[j].Tree()) && parent.kids[j].Tree() &&
              parent.kids[j].Document() == old(parent.kids[j].Document())
    ensures forall i, j :: 0 <= i < j < |parent.kids| ==> parent.kids[i].repr !! parent.kids[j].repr
    ensures item.Tree() && item.Document() == old(item.Document())
  {
    hide Item.Tree, Item.Document, Linked, LinkedAt;
    TreeFamily(parent);
    TreeFamily(item);
    ghost var kids := parent.kids;
    forall j | 0 <= j < |kids| ensures kids[j] != item && kids[j] !in item.repr { assert Kid(parent, j); }
    var _ := AddItemToArray(parent, item, kids);
    forall j | 0 <= j < |kids|
      ensures Kid(parent, j) && kids[j].Tree() && kids[j].Document() == old(parent.kids[j].Document())
    {
      assert old(Kid(parent, j));
      assert item !in kids[j].repr;
      forall i | 0 <= i < |kids| && i != j ensures kids[i] !in kids[j].repr { assert old(Kid(parent, i)); }
    }
  }

  /** A node just created. */
  lemma NewTree(item: Item)
    requires item.kids == [] && item.child == null && item.repr == {item}
    ensures item.Tree() && item.Members(0) == []
    ensures !item.content.Array? && !item.content.Object? ==> item.Document() == item.content
  {
  }
}
