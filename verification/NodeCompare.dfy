/** cJSON_Compare over the linked nodes: it decides the comparison of the documents. */
module NodeCompare {
  import opened Bytes
  import opened Json
  import opened Compare
  import opened NodeList

  /** Every member of every object has a name, as after parsing. */
  ghost predicate AllNamed(item: Item)
    requires item.Tree()
    reads item`child, item`kids, item`repr, item`content, item.repr - {item}
    decreases item.repr, 1
  {
    item.content.Array? || item.content.Object? ==> forall i :: 0 <= i < |item.kids| ==> KidNamed(item, i)
  }

  ghost predicate KidNamed(item: Item, i: nat)
    requires item.Tree() && i < |item.kids|
    reads item`child, item`kids, item`repr, item`content, item.repr - {item}
    decreases item.repr, 0
  {
    (item.content.Object? ==> item.kids[i].key.Some?) && AllNamed(item.kids[i])
  }

  ghost predicate Same(a: Item, b: Item, cs: bool)
    requires a.Tree() && b.Tree()
    reads a`child, a`kids, a`repr, a`content, a.repr - {a}, b`child, b`kids, b`repr, b`content, b.repr - {b}
  {
    AllNamed(a) && AllNamed(b) && Compare.Compare(a.Document(), b.Document(), cs)
  }

  /** What one pass over the first `n` members of `a` finds out. */
  ghost predicate Covered(a: Item, n: nat, b: Item, cs: bool)
    requires a.Tree() && b.Tree() && n <= |a.kids|
    reads a`child, a`kids, a`repr, a`content, a.repr - {a}, b`child, b`kids, b`repr, b`content, b.repr - {b}
  {
    forall i :: 0 <= i < n ==> Found(a, i, b, cs)
  }

  ghost predicate KidsNamed(item: Item, n: nat)
    requires item.Tree() && n <= |item.kids|
    reads item`child, item`kids, item`repr, item`content, item.repr - {item}
  {
    forall i :: 0 <= i < n ==> KidNamed(item, i)
  }

  /** What `b` holds first under the name of the child compares equal to it. */
  ghost predicate Found(a: Item, i: nat, b: Item, cs: bool)
    requires a.Tree() && b.Tree() && i < |a.kids|
    reads a`child, a`kids, a`repr, a`content, a.repr - {a}, b`child, b`kids, b`repr, b`content, b.repr - {b}
  {
    var j := Find(b.Members(|b.kids|), Name(a.kids[i].key), cs);
    j.Some? && j.value < |b.kids| && Compare.Compare(a.kids[i].Document(), b.kids[j.value].Document(), cs)
  }

  ghost function Keys(kids: seq<Item>): (keys: seq<Option<bytes>>)
    reads kids`key
    ensures Named(kids, keys)
  {
    if kids == [] then [] else [kids[0].key] + Keys(kids[1..])
  }

  ghost predicate Inside(x: Item, y: Item)
    requires y.Tree()
    reads y`child, y`kids, y`repr, y.repr - {y}
    decreases y.repr
  {
    x == y || exists m :: 0 <= m < |y.kids| && Inside(x, y.kids[m])
  }

  /** Two nodes of one tree, or of two trees that share no node. */
  ghost predicate Related(a: Item, b: Item)
    requires a.Tree() && b.Tree()
    reads a`child, a`kids, a`repr, a.repr - {a}, b`child, b`kids, b`repr, b.repr - {b}
  {
    a.repr !! b.repr || Inside(a, b) || Inside(b, a)
  }

  ghost function TreeNodes(item: Item?): set<Item>
    reads item
  {
    if item == null then {} else item.repr
  }

  /** A node is equal to itself, whatever it holds; different trees are compared by their documents. A
      member without a name is never found. */
  method CompareItems(a: Item?, b: Item?, cs: bool) returns (equal: bool)
    requires (a != null ==> a.Tree()) && (b != null ==> b.Tree())
    requires a != null && b != null && a != b ==> Related(a, b)
    ensures equal <==> a != null && b != null && (a == b || Same(a, b, cs))
    decreases TreeNodes(a) + TreeNodes(b), 2
  {
    hide Item.Tree, Item.Elements, Item.Members, Compare.Compare, AllNamed;
    if a == null || b == null { return false; }
    if a == b { return true; }
    match (a.content, b.content) {
      case (Array(_), Array(_)) => equal := CompareElements(a, b, cs);
      case (Object(_), Object(_)) =>
        equal := CompareOneWay(a, b, cs);
        if equal { equal := CompareOneWay(b, a, cs); }
        ObjectsSame(a, b, cs);
      case (Number(x), Number(y)) => equal := x == y;
      case (Text(s), Text(t)) => equal := s == t;
      case (Null, Null) => equal := true;
      case (False, False) => equal := true;
      case (True, True) => equal := true;
      case _ => equal := false;
    }
    ScalarsSame(a, b, cs);
  }

  lemma ScalarsSame(a: Item, b: Item, cs: bool)
    requires a.Tree() && b.Tree()
    ensures !(a.content.Array? && b.content.Array?) && !(a.content.Object? && b.content.Object?) ==>
              (Same(a, b, cs) <==> a.content == b.content)
  {
    hide Item.Tree, Item.Elements, Item.Members;
  }

  /** The two chains in step. */
  method CompareElements(a: Item, b: Item, cs: bool) returns (equal: bool)
    requires a.Tree() && b.Tree() && Related(a, b) && a != b && a.content.Array? && b.content.Array?
    ensures equal <==> Same(a, b, cs)
    decreases a.repr + b.repr, 1
  {
    hide Item.Tree, Same, Chain, Alike;
    NoneAlike(a, b, cs);
    Offspring(a);
    Offspring(b);
    var x, y := a.child, b.child;
    ghost var i := 0;
    while x != null && y != null
      invariant 0 <= i <= |a.kids| && i <= |b.kids|
      invariant x == (if i < |a.kids| then a.kids[i] else null) && y == (if i < |b.kids| then b.kids[i] else null)
      invariant Alike(a, b, i, cs)
      decreases |a.kids| - i
    {
      Apart(a, b, i, i);
      OneMoreAlike(a, b, i, cs);
      equal := CompareItems(x, y, cs);
      if !equal { return; }
      ChainNext(a, a.kids, i);
      ChainNext(b, b.kids, i);
      x, y := x.next, y.next;
      i := i + 1;
    }
    equal := x == y;
    ArraysSame(a, b, cs);
  }

  /** The first `n` elements compare equal pair by pair. */
  ghost predicate Alike(a: Item, b: Item, n: nat, cs: bool)
    requires a.Tree() && b.Tree() && n <= |a.kids| && n <= |b.kids|
    reads a`child, a`kids, a`repr, a`content, a.repr - {a}, b`child, b`kids, b`repr, b`content, b.repr - {b}
  {
    forall i :: 0 <= i < n ==> Same(a.kids[i], b.kids[i], cs)
  }

  lemma NoneAlike(a: Item, b: Item, cs: bool)
    requires a.Tree() && b.Tree()
    ensures Alike(a, b, 0, cs)
  {
  }

  lemma OneMoreAlike(a: Item, b: Item, i: nat, cs: bool)
    requires a.Tree() && b.Tree() && i < |a.kids| && i < |b.kids| && a.content.Array? && b.content.Array?
    ensures a.kids[i].Tree() && b.kids[i].Tree()
    ensures Alike(a, b, i, cs) && Same(a.kids[i], b.kids[i], cs) ==> Alike(a, b, i + 1, cs)
    ensures !Same(a.kids[i], b.kids[i], cs) ==> !Same(a, b, cs)
  {
    Offspring(a);
    Offspring(b);
    ArraysSame(a, b, cs);
    hide Same, Item.Tree;
  }

  /** One pass over the members of an object, each looked up in the other. */
  method CompareOneWay(a: Item, b: Item, cs: bool) returns (equal: bool)
    requires a.Tree() && b.Tree() && Related(a, b) && a != b && a.content.Object? && b.content.Object?
    ensures equal ==> AllNamed(a)
    ensures AllNamed(a) && AllNamed(b) ==> (equal <==> Covered(a, |a.kids|, b, cs))
    decreases a.repr + b.repr, 1
  {
    hide Item.Tree, Same, Chain, AllNamed, KidNamed, Covered, KidsNamed, Found;
    NoneCovered(a, b, cs);
    Offspring(a);
    var x := a.child;
    ghost var i := 0;
    while x != null
      invariant 0 <= i <= |a.kids| && x == if i < |a.kids| then a.kids[i] else null
      invariant KidsNamed(a, i) && (AllNamed(a) && AllNamed(b) ==> Covered(a, i, b, cs))
      decreases |a.kids| - i
    {
      OneMore(a, i, b, cs);
      ChainNext(a, a.kids, i);
      equal := CompareMember(a, i, x, b, cs);
      if !equal { return; }
      x := x.next;
      i := i + 1;
    }
    equal := true;
    MembersNamed(a);
  }

  method CompareMember(a: Item, ghost i: nat, x: Item, b: Item, cs: bool) returns (equal: bool)
    requires a.Tree() && b.Tree() && Related(a, b) && a != b && a.content.Object? && b.content.Object?
    requires i < |a.kids| && a.kids[i] == x
    ensures equal ==> KidNamed(a, i)
    ensures AllNamed(a) && AllNamed(b) ==> (equal <==> Found(a, i, b, cs))
    decreases a.repr + b.repr, 0
  {
    hide Item.Tree, Same, Chain, AllNamed, KidNamed, Search, Found;
    Offspring(a);
    Offspring(b);
    KidFound(a, i, b, cs);
    ghost var keys := Keys(b.kids);
    var y := GetObjectItem(b, x.key, cs, b.kids, keys);
    if y == null { return false; }
    ghost var j := Search(keys, x.key.value, cs).value;
    Apart(a, b, i, j);
    equal := CompareItems(x, y, cs);
  }

  lemma NoneCovered(a: Item, b: Item, cs: bool)
    requires a.Tree() && b.Tree()
    ensures Covered(a, 0, b, cs) && KidsNamed(a, 0)
  {
  }

  lemma OneMore(a: Item, i: nat, b: Item, cs: bool)
    requires a.Tree() && b.Tree() && i < |a.kids|
    ensures Covered(a, i, b, cs) && Found(a, i, b, cs) ==> Covered(a, i + 1, b, cs)
    ensures KidsNamed(a, i) && KidNamed(a, i) ==> KidsNamed(a, i + 1)
    ensures !Found(a, i, b, cs) ==> !Covered(a, |a.kids|, b, cs)
  {
    hide Found, KidNamed, Item.Tree;
  }

  lemma MembersNamed(item: Item)
    requires item.Tree() && KidsNamed(item, |item.kids|)
    ensures AllNamed(item)
  {
    hide KidNamed, Item.Tree;
  }

  /** What a lookup tells about the comparison of one member. */
  lemma KidFound(a: Item, i: nat, b: Item, cs: bool)
    requires a.Tree() && b.Tree() && i < |a.kids| && a.content.Object? && b.content.Object?
    ensures a.kids[i].Tree() && forall j :: 0 <= j < |b.kids| ==> b.kids[j].Tree()
    ensures a.kids[i].key.None? ==> !AllNamed(a)
    ensures var name, keys := a.kids[i].key, Keys(b.kids);
            name.Some? ==>
              match Search(keys, name.value, cs)
              case None => AllNamed(b) ==> !Found(a, i, b, cs)
              case Some(j) =>
                && (Same(a.kids[i], b.kids[j], cs) ==> KidNamed(a, i))
                && (AllNamed(a) && AllNamed(b) ==> (Found(a, i, b, cs) <==> Same(a.kids[i], b.kids[j], cs)))
  {
    hide Search, Compare.Compare, Find, Item.Members, Item.Document;
    Offspring(a);
    Offspring(b);
    if AllNamed(a) { assert KidNamed(a, i); }
    var keys := Keys(b.kids);
    if AllNamed(b) {
      forall j | 0 <= j < |b.kids| ensures keys[j].Some? && AllNamed(b.kids[j]) { assert KidNamed(b, j); }
      MembersOf(b, |b.kids|);
      if a.kids[i].key.Some? { SearchIsFind(keys, b.Members(|b.kids|), a.kids[i].key.value, cs); }
    }
  }

  lemma ObjectsSame(a: Item, b: Item, cs: bool)
    requires a.Tree() && b.Tree() && a.content.Object? && b.content.Object?
    ensures Same(a, b, cs) <==> AllNamed(a) && AllNamed(b) && Covered(a, |a.kids|, b, cs) && Covered(b, |b.kids|, a, cs)
  {
    hide AllNamed, Covered, Item.Tree;
    CoveredIs(a, b, cs);
    CoveredIs(b, a, cs);
  }

  lemma CoveredIs(a: Item, b: Item, cs: bool)
    requires a.Tree() && b.Tree()
    ensures Covered(a, |a.kids|, b, cs) <==> Covers(a.Members(|a.kids|), b.Members(|b.kids|), cs)
  {
    MembersOf(a, |a.kids|);
    MembersOf(b, |b.kids|);
    hide Item.Members, Item.Tree, Item.Document, Find;
    var ms, ns := a.Members(|a.kids|), b.Members(|b.kids|);
    forall i | 0 <= i < |a.kids| ensures Found(a, i, b, cs) <==> MembersAt(ms, ns, i, cs) {}
  }

  lemma Offspring(item: Item)
    requires item.Tree()
    ensures Chain(item, item.kids)
    ensures item.child == if item.kids == [] then null else item.kids[0]
    ensures forall i :: 0 <= i < |item.kids| ==> item.kids[i].Tree() && item.kids[i].repr < item.repr
  {
  }

  /** The children of two different nodes are again different, and related. */
  lemma Apart(a: Item, b: Item, i: nat, j: nat)
    requires a.Tree() && b.Tree() && Related(a, b) && a != b && i < |a.kids| && j < |b.kids|
    ensures a.kids[i].Tree() && b.kids[j].Tree()
    ensures a.kids[i] != b.kids[j] && Related(a.kids[i], b.kids[j])
    ensures a.kids[i].repr + b.kids[j].repr < a.repr + b.repr
  {
    TreeFamily(a);
    TreeFamily(b);
    hide Item.Tree, Linked;
    assert Kid(a, i) && Kid(b, j);
    if Inside(a, b) {
      ApartInside(a, b, i, j);
    } else if Inside(b, a) {
      ApartInside(b, a, j, i);
    }
  }

  lemma ApartInside(a: Item, b: Item, i: nat, j: nat)
    requires a.Tree() && b.Tree() && Inside(a, b) && a != b && i < |a.kids| && j < |b.kids|
    ensures a.kids[i].Tree() && b.kids[j].Tree()
    ensures a.kids[i] != b.kids[j] && Related(a.kids[i], b.kids[j])
    ensures a.kids[i].repr + b.kids[j].repr < a.repr + b.repr
  {
    TreeFamily(a);
    TreeFamily(b);
    var m :| 0 <= m < |b.kids| && Inside(a, b.kids[m]);
    hide Item.Tree, Linked, Inside;
    InsideTree(a, b.kids[m]);
    assert Kid(a, i) && Kid(b, j) && Kid(b, m);
    if j == m { InsideKid(a, b.kids[m], i); }
  }

  lemma {:induction false} InsideTree(x: Item, y: Item)
    requires y.Tree() && Inside(x, y)
    ensures x.Tree() && x.repr <= y.repr
    decreases y.repr
  {
    if x != y {
      TreeFamily(y);
      var m :| 0 <= m < |y.kids| && Inside(x, y.kids[m]);
      hide Item.Tree;
      assert Kid(y, m);
      InsideTree(x, y.kids[m]);
    }
  }

  lemma {:induction false} InsideKid(x: Item, y: Item, i: nat)
    requires y.Tree() && Inside(x, y) && x.Tree() && i < |x.kids|
    ensures Inside(x.kids[i], y)
    decreases y.repr
  {
    if x != y {
      TreeFamily(y);
      var m :| 0 <= m < |y.kids| && Inside(x, y.kids[m]);
      hide Item.Tree;
      assert Kid(y, m);
      InsideKid(x, y.kids[m], i);
    } else {
      TreeFamily(x);
      assert Inside(x.kids[i], x.kids[i]);
    }
  }

  lemma ArraysSame(a: Item, b: Item, cs: bool)
    requires a.Tree() && b.Tree() && a.content.Array? && b.content.Array?
    ensures Same(a, b, cs) <==> |a.kids| == |b.kids| && Alike(a, b, |a.kids|, cs)
  {
    hide Item.Tree, Item.Document, AllNamed;
    if |a.kids| == |b.kids| {
      if Same(a, b, cs) {
        ElementsSame(a, b, cs);
      } else if Alike(a, b, |a.kids|, cs) {
        SameElements(a, b, cs);
      }
    } else if Same(a, b, cs) {
      ElementsOf(a, |a.kids|);
      ElementsOf(b, |b.kids|);
      Elementwise(a, b, cs);
    }
  }

  /** Array documents are compared child by child. */
  lemma Elementwise(a: Item, b: Item, cs: bool)
    requires a.Tree() && b.Tree() && a.content.Array? && b.content.Array?
    ensures var xs, ys := a.Elements(|a.kids|), b.Elements(|b.kids|);
            Compare.Compare(a.Document(), b.Document(), cs) <==> Compare.Compare(Array(xs), Array(ys), cs)
  {
  }

  lemma ElementsSame(a: Item, b: Item, cs: bool)
    requires a.Tree() && b.Tree() && a.content.Array? && b.content.Array? && |a.kids| == |b.kids| && Same(a, b, cs)
    ensures Alike(a, b, |a.kids|, cs)
  {
    Elementwise(a, b, cs);
    ElementsOf(a, |a.kids|);
    ElementsOf(b, |b.kids|);
    Offspring(a);
    Offspring(b);
    hide Item.Elements, Item.Document, Item.Tree, Compare.Compare;
    ElementsCompare(a.Elements(|a.kids|), b.Elements(|b.kids|), cs);
    forall i | 0 <= i < |a.kids| ensures AllNamed(a.kids[i]) && AllNamed(b.kids[i]) {
      assert KidNamed(a, i) && KidNamed(b, i);
    }
  }

  lemma SameElements(a: Item, b: Item, cs: bool)
    requires a.Tree() && b.Tree() && a.content.Array? && b.content.Array? && |a.kids| == |b.kids|
    requires Alike(a, b, |a.kids|, cs)
    ensures Same(a, b, cs)
  {
    Elementwise(a, b, cs);
    ElementsOf(a, |a.kids|);
    ElementsOf(b, |b.kids|);
    Offspring(a);
    Offspring(b);
    hide Item.Elements, Item.Document, Item.Tree, AllNamed, Compare.Compare;
    ElementsCompare(a.Elements(|a.kids|), b.Elements(|b.kids|), cs);
    ElementsNamed(a);
    ElementsNamed(b);
  }

  lemma ElementsCompare(xs: seq<Value>, ys: seq<Value>, cs: bool)
    requires |xs| == |ys|
    ensures Compare.Compare(Array(xs), Array(ys), cs) <==> EachSame(xs, ys, cs)
  {
    if Compare.Compare(Array(xs), Array(ys), cs) {
      forall i | 0 <= i < |xs| ensures Compare.Compare(xs[i], ys[i], cs) { assert ElementsAt(xs, ys, i, cs); }
    }
    if EachSame(xs, ys, cs) {
      forall i | 0 <= i < |xs| ensures ElementsAt(xs, ys, i, cs) {}
    }
  }

  ghost predicate EachSame(xs: seq<Value>, ys: seq<Value>, cs: bool)
    requires |xs| == |ys|
  {
    forall i :: 0 <= i < |xs| ==> Compare.Compare(xs[i], ys[i], cs)
  }

  lemma ElementsNamed(item: Item)
    requires item.Tree() && item.content.Array?
    requires forall i :: 0 <= i < |item.kids| ==> item.kids[i].Tree() && AllNamed(item.kids[i])
    ensures AllNamed(item)
  {
    forall i | 0 <= i < |item.kids| ensures KidNamed(item, i) {}
  }

  // ----- A duplicate

  /** Names are part of what is duplicated. */
  lemma {:induction false} SameNames(a: Item, b: Item)
    requires a.Tree() && b.Tree() && a.Outline() == b.Outline() && AllNamed(a)
    ensures AllNamed(b)
    decreases a.repr
  {
    hide Item.Outline, Linked;
    OutlineContent(a, b);
    if b.content.Array? || b.content.Object? {
      forall i | 0 <= i < |b.kids| ensures KidNamed(b, i) {
        assert KidNamed(a, i);
        SameOutline(a, b, i);
        NextChild(a, i);
        SameNames(a.kids[i], b.kids[i]);
      }
    }
  }

  lemma DuplicateSame(a: Item, b: Item, cs: bool)
    requires a.Tree() && b.Tree() && a.Outline() == b.Outline()
    ensures Same(a, b, cs) <==> AllNamed(a) && Consistent(a.Document(), cs)
  {
    hide Item.Outline, AllNamed, Compare.Compare, Consistent;
    SameDocument(a, b);
    if AllNamed(a) { SameNames(a, b); }
    CompareReflexive(a.Document(), cs);
  }

  /** cJSON_Compare on a tree and its duplicate: they are equal if and only if every member has a name and
      duplicate names agree on their values, as when the names in every object are distinct. */
  method CompareWithDuplicate(x: Item, cs: bool) returns (equal: bool)
    requires x.Tree()
    ensures equal <==> AllNamed(x) && Consistent(x.Document(), cs)
    ensures AllNamed(x) && DistinctKeys(x.Document(), cs) ==> equal
  {
    hide Item.Tree, Item.Outline, AllNamed, Consistent, DistinctKeys, Same;
    var copy := Duplicate(x, true);
    equal := CompareItems(x, copy, cs);
    DuplicateSame(x, copy, cs);
    if DistinctKeys(x.Document(), cs) { DistinctReflexive(x.Document(), cs); }
  }
}
