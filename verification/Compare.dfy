/** The relation on documents that cJSON_Compare decides, and its laws. */
module Compare {
  import opened Bytes
  import opened Json

  /** tolower in the C locale. */
  function Lower(b: byte): byte {
    if 65 <= b <= 90 then b + 32 else b
  }

  function LowerAll(s: bytes): (r: bytes)
    ensures |r| == |s| && forall k :: 0 <= k < |s| ==> r[k] == Lower(s[k])
  {
    seq(|s|, k requires 0 <= k < |s| => Lower(s[k]))
  }

  /** strcmp, or case_insensitive_strcmp, finds the two names equal. */
  predicate SameName(s: bytes, t: bytes, caseSensitive: bool) {
    if caseSensitive then s == t else LowerAll(s) == LowerAll(t)
  }

  /** Two names that are equal or, without regard to case, differ only in the case of ASCII letters. */
  predicate NamesAgree(s: bytes, t: bytes, caseSensitive: bool) {
    |s| == |t| && forall k :: 0 <= k < |s| ==> s[k] == t[k] || (!caseSensitive && OtherCase(s[k], t[k]))
  }

  predicate OtherCase(a: byte, b: byte) {
    exists k ::
      && 0 <= k < 26
      && ((a == UPPER_CASE[k] && b == LOWER_CASE[k]) || (a == LOWER_CASE[k] && b == UPPER_CASE[k]))
  }

  const UPPER_CASE: bytes := Ascii("ABCDEFGHIJKLMNOPQRSTUVWXYZ")
  const LOWER_CASE: bytes := Ascii("abcdefghijklmnopqrstuvwxyz")

  lemma LowerSame(a: byte, b: byte)
    ensures Lower(a) == Lower(b) <==> a == b || OtherCase(a, b)
  {
    Alphabet();
    if 65 <= a <= 90 && b == a + 32 { assert a == UPPER_CASE[a - 65]; }
    if 65 <= b <= 90 && a == b + 32 { assert b == UPPER_CASE[b - 65]; }
  }

  lemma Alphabet()
    ensures |UPPER_CASE| == |LOWER_CASE| == 26
    ensures forall k :: 0 <= k < 26 ==> UPPER_CASE[k] == 65 + k && LOWER_CASE[k] == 97 + k
  {
  }

  lemma SameNameIff(s: bytes, t: bytes, caseSensitive: bool)
    ensures SameName(s, t, caseSensitive) <==> NamesAgree(s, t, caseSensitive)
  {
    hide Lower, OtherCase;
    forall k | 0 <= k < |s| && k < |t|
      ensures Lower(s[k]) == Lower(t[k]) <==> s[k] == t[k] || OtherCase(s[k], t[k])
    {
      LowerSame(s[k], t[k]);
    }
    if LowerAll(s) == LowerAll(t) {
      forall k | 0 <= k < |s| ensures Lower(s[k]) == Lower(t[k]) { assert LowerAll(s)[k] == LowerAll(t)[k]; }
    }
  }

  /** get_object_item: the first member with that name. */
  function Find(members: seq<Member>, name: bytes, caseSensitive: bool): (r: Option<nat>)
    ensures r.Some? ==> r.value < |members| && SameName(name, members[r.value].key, caseSensitive)
    ensures r.Some? ==> forall k :: 0 <= k < r.value ==> !SameName(name, members[k].key, caseSensitive)
    ensures r.None? ==> forall k :: 0 <= k < |members| ==> !SameName(name, members[k].key, caseSensitive)
  {
    if members == [] then None
    else if SameName(name, members[0].key, caseSensitive) then Some(0)
    else
      var rest := Find(members[1..], name, caseSensitive);
      assert rest.None? ==> forall k :: 1 <= k < |members| ==> members[k] == members[1..][k - 1];
      if rest.Some? then Some(rest.value + 1) else None
  }

  /** What a lookup finds, in terms of the letters of the names. */
  lemma FindIff(members: seq<Member>, name: bytes, caseSensitive: bool, i: nat)
    ensures Find(members, name, caseSensitive) == Some(i) <==>
            && i < |members| && NamesAgree(name, members[i].key, caseSensitive)
            && forall k :: 0 <= k < i ==> !NamesAgree(name, members[k].key, caseSensitive)
  {
    hide SameName, NamesAgree;
    forall k | 0 <= k < |members|
      ensures SameName(name, members[k].key, caseSensitive) <==> NamesAgree(name, members[k].key, caseSensitive)
    {
      SameNameIff(name, members[k].key, caseSensitive);
    }
  }

  lemma {:induction false} ItemLevel(items: seq<Value>, i: nat)
    requires i < |items|
    ensures Levels(items[i]) < Levels(Array(items))
  {
    if i > 0 { ItemLevel(items[1..], i - 1); }
  }

  lemma {:induction false} MemberLevel(members: seq<Member>, i: nat)
    requires i < |members|
    ensures Levels(members[i].value) < Levels(Object(members))
  {
    if i > 0 { MemberLevel(members[1..], i - 1); }
  }

  /** Two documents compare equal. */
  predicate Compare(a: Value, b: Value, caseSensitive: bool)
    decreases Levels(a) + Levels(b), 2
  {
    match (a, b) {
      case (Null, Null) => true
      case (False, False) => true
      case (True, True) => true
      case (Number(x), Number(y)) => x == y
      case (Text(s), Text(t)) => s == t
      case (Array(xs), Array(ys)) =>
        |xs| == |ys| && forall i :: 0 <= i < |xs| ==> ElementsAt(xs, ys, i, caseSensitive)
      case (Object(ms), Object(ns)) => Covers(ms, ns, caseSensitive) && Covers(ns, ms, caseSensitive)
      case _ => false
    }
  }

  predicate ElementsAt(xs: seq<Value>, ys: seq<Value>, i: nat, caseSensitive: bool)
    requires i < |xs| && i < |ys|
    decreases Levels(Array(xs)) + Levels(Array(ys)), 0
  {
    ItemLevel(xs, i);
    ItemLevel(ys, i);
    Compare(xs[i], ys[i], caseSensitive)
  }

  /** Every member of `ms` compares equal to what `ns` holds first under its name. */
  predicate Covers(ms: seq<Member>, ns: seq<Member>, caseSensitive: bool)
    decreases Levels(Object(ms)) + Levels(Object(ns)), 1
  {
    forall i :: 0 <= i < |ms| ==> MembersAt(ms, ns, i, caseSensitive)
  }

  predicate MembersAt(ms: seq<Member>, ns: seq<Member>, i: nat, caseSensitive: bool)
    requires i < |ms|
    decreases Levels(Object(ms)) + Levels(Object(ns)), 0
  {
    var j := Find(ns, ms[i].key, caseSensitive);
    j.Some? && (MemberLevel(ms, i); MemberLevel(ns, j.value); Compare(ms[i].value, ns[j.value].value, caseSensitive))
  }

  // ----- Symmetry and transitivity, duplicate keys or not

  lemma {:induction false} CompareSymmetric(a: Value, b: Value, cs: bool)
    ensures Compare(a, b, cs) <==> Compare(b, a, cs)
    decreases Levels(a) + Levels(b)
  {
    if a.Array? && b.Array? && |a.items| == |b.items| {
      forall i | 0 <= i < |a.items|
        ensures ElementsAt(a.items, b.items, i, cs) <==> ElementsAt(b.items, a.items, i, cs)
      {
        ItemLevel(a.items, i);
        ItemLevel(b.items, i);
        CompareSymmetric(a.items[i], b.items[i], cs);
      }
    }
  }

  /** Names that are found equal are interchangeable in lookups. */
  lemma {:induction false} FindSame(members: seq<Member>, s: bytes, t: bytes, cs: bool)
    requires SameName(s, t, cs)
    ensures Find(members, s, cs) == Find(members, t, cs)
  {
    if members != [] { FindSame(members[1..], s, t, cs); }
  }

  lemma {:induction false} CompareTransitive(a: Value, b: Value, c: Value, cs: bool)
    requires Compare(a, b, cs) && Compare(b, c, cs)
    ensures Compare(a, c, cs)
    decreases Levels(a) + Levels(b) + Levels(c), 1
  {
    match a {
      case Array(xs) =>
        var ys, zs := b.items, c.items;
        forall i | 0 <= i < |xs| ensures ElementsAt(xs, zs, i, cs) {
          ItemLevel(xs, i);
          ItemLevel(ys, i);
          ItemLevel(zs, i);
          assert ElementsAt(xs, ys, i, cs) && ElementsAt(ys, zs, i, cs);
          CompareTransitive(xs[i], ys[i], zs[i], cs);
        }
      case Object(ms) =>
        CoversTransitive(ms, b.members, c.members, cs);
        CoversTransitive(c.members, b.members, ms, cs);
      case _ =>
    }
  }

  lemma {:induction false} CoversTransitive(ms: seq<Member>, ns: seq<Member>, os: seq<Member>, cs: bool)
    requires Covers(ms, ns, cs) && Covers(ns, os, cs)
    ensures Covers(ms, os, cs)
    decreases Levels(Object(ms)) + Levels(Object(ns)) + Levels(Object(os)), 0
  {
    forall i | 0 <= i < |ms| ensures MembersAt(ms, os, i, cs) {
      assert MembersAt(ms, ns, i, cs);
      var j := Find(ns, ms[i].key, cs).value;
      assert MembersAt(ns, os, j, cs);
      var k := Find(os, ns[j].key, cs).value;
      FindSame(os, ms[i].key, ns[j].key, cs);
      MemberLevel(ms, i);
      MemberLevel(ns, j);
      MemberLevel(os, k);
      CompareTransitive(ms[i].value, ns[j].value, os[k].value, cs);
    }
  }

  // ----- Reflexivity

  /** Members that answer to the same name hold equal values, throughout the tree. */
  predicate Consistent(v: Value, cs: bool)
    decreases Levels(v), 1
  {
    match v {
      case Array(items) => forall i :: 0 <= i < |items| ==> ConsistentItem(items, i, cs)
      case Object(members) =>
        && (forall i :: 0 <= i < |members| ==> ConsistentMember(members, i, cs))
        && forall i, j :: 0 <= i < |members| && 0 <= j < |members| ==> ConsistentPair(members, i, j, cs)
      case _ => true
    }
  }

  predicate ConsistentItem(items: seq<Value>, i: nat, cs: bool)
    requires i < |items|
    decreases Levels(Array(items)), 0
  {
    ItemLevel(items, i);
    Consistent(items[i], cs)
  }

  predicate ConsistentMember(members: seq<Member>, i: nat, cs: bool)
    requires i < |members|
    decreases Levels(Object(members)), 0
  {
    MemberLevel(members, i);
    Consistent(members[i].value, cs)
  }

  predicate ConsistentPair(members: seq<Member>, i: nat, j: nat, cs: bool)
    requires i < |members| && j < |members|
  {
    i < j && SameName(members[i].key, members[j].key, cs) ==> Compare(members[i].value, members[j].value, cs)
  }

  /** A tree and a copy of it compare equal if and only if duplicate names agree on their values. */
  lemma {:induction false} CompareReflexive(v: Value, cs: bool)
    ensures Compare(v, v, cs) <==> Consistent(v, cs)
    decreases Levels(v)
  {
    match v {
      case Array(items) =>
        forall i | 0 <= i < |items| ensures ElementsAt(items, items, i, cs) <==> ConsistentItem(items, i, cs) {
          ItemLevel(items, i);
          CompareReflexive(items[i], cs);
        }
      case Object(members) =>
        forall i | 0 <= i < |members|
          ensures ConsistentMember(members, i, cs) <==> Compare(members[i].value, members[i].value, cs)
        {
          MemberLevel(members, i);
          CompareReflexive(members[i].value, cs);
        }
        if Consistent(v, cs) { ConsistentCovers(members, cs); }
        if Covers(members, members, cs) { CoversConsistent(members, cs); }
      case _ =>
    }
  }

  lemma ConsistentCovers(members: seq<Member>, cs: bool)
    requires Consistent(Object(members), cs)
    requires forall i :: 0 <= i < |members| ==>
             (ConsistentMember(members, i, cs) <==> Compare(members[i].value, members[i].value, cs))
    ensures Covers(members, members, cs)
  {
    hide Compare, ConsistentMember;
    forall i | 0 <= i < |members| ensures MembersAt(members, members, i, cs) {
      assert ConsistentMember(members, i, cs);
      var j := Find(members, members[i].key, cs).value;
      if j < i {
        SameNameSymmetric(members[i].key, members[j].key, cs);
        assert ConsistentPair(members, j, i, cs);
        CompareSymmetric(members[j].value, members[i].value, cs);
      }
    }
  }

  lemma SameNameSymmetric(s: bytes, t: bytes, cs: bool)
    ensures SameName(s, t, cs) <==> SameName(t, s, cs)
    ensures SameName(s, s, cs)
  {
  }

  lemma CoversConsistent(members: seq<Member>, cs: bool)
    requires Covers(members, members, cs)
    requires forall i :: 0 <= i < |members| ==>
             (ConsistentMember(members, i, cs) <==> Compare(members[i].value, members[i].value, cs))
    ensures Consistent(Object(members), cs)
  {
    hide Compare, ConsistentMember;
    forall i | 0 <= i < |members| ensures ConsistentMember(members, i, cs) {
      CoversPair(members, i, i, cs);
    }
    forall i, j | 0 <= i < |members| && 0 <= j < |members| ensures ConsistentPair(members, i, j, cs) {
      if SameName(members[i].key, members[j].key, cs) { CoversPair(members, i, j, cs); }
    }
  }

  lemma CoversPair(members: seq<Member>, i: nat, j: nat, cs: bool)
    requires i < |members| && j < |members| && SameName(members[i].key, members[j].key, cs)
    requires Covers(members, members, cs)
    ensures Compare(members[i].value, members[j].value, cs)
  {
    hide Compare;
    assert MembersAt(members, members, i, cs) && MembersAt(members, members, j, cs);
    FindSame(members, members[i].key, members[j].key, cs);
    var k := Find(members, members[i].key, cs).value;
    CompareSymmetric(members[j].value, members[k].value, cs);
    CompareTransitive(members[i].value, members[k].value, members[j].value, cs);
  }

  predicate DistinctKeys(v: Value, cs: bool)
    decreases Levels(v), 1
  {
    match v {
      case Array(items) => forall i :: 0 <= i < |items| ==> DistinctItem(items, i, cs)
      case Object(members) =>
        DistinctNames(members, cs) && forall i :: 0 <= i < |members| ==> DistinctMember(members, i, cs)
      case _ => true
    }
  }

  predicate DistinctNames(members: seq<Member>, cs: bool) {
    forall i, j :: 0 <= i < j < |members| ==> !SameName(members[i].key, members[j].key, cs)
  }

  predicate DistinctItem(items: seq<Value>, i: nat, cs: bool)
    requires i < |items|
    decreases Levels(Array(items)), 0
  {
    ItemLevel(items, i);
    DistinctKeys(items[i], cs)
  }

  predicate DistinctMember(members: seq<Member>, i: nat, cs: bool)
    requires i < |members|
    decreases Levels(Object(members)), 0
  {
    MemberLevel(members, i);
    DistinctKeys(members[i].value, cs)
  }

  /** With distinct names, comparison is reflexive. */
  lemma {:induction false} DistinctReflexive(v: Value, cs: bool)
    requires DistinctKeys(v, cs)
    ensures Compare(v, v, cs) && Consistent(v, cs)
    decreases Levels(v)
  {
    match v {
      case Array(items) =>
        forall i | 0 <= i < |items| ensures ConsistentItem(items, i, cs) {
          ItemLevel(items, i);
          assert DistinctItem(items, i, cs);
          DistinctReflexive(items[i], cs);
        }
      case Object(members) =>
        forall i | 0 <= i < |members| ensures ConsistentMember(members, i, cs) {
          MemberLevel(members, i);
          assert DistinctMember(members, i, cs);
          DistinctReflexive(members[i].value, cs);
        }
      case _ =>
    }
    CompareReflexive(v, cs);
  }

  // ----- What equality it is

  /** What a name is looked up by. */
  function Fold(name: bytes, cs: bool): bytes {
    if cs then name else LowerAll(name)
  }

  lemma FoldTwice(name: bytes, cs: bool)
    ensures Fold(Fold(name, cs), cs) == Fold(name, cs) && SameName(name, Fold(name, cs), cs)
  {
  }

  lemma FoldSame(s: bytes, t: bytes, cs: bool)
    ensures SameName(s, t, cs) <==> Fold(s, cs) == Fold(t, cs)
  {
    hide LowerAll;
  }

  /** Names are looked up by the same thing exactly when they agree. */
  lemma FoldIff(s: bytes, t: bytes, cs: bool)
    ensures Fold(s, cs) == Fold(t, cs) <==> NamesAgree(s, t, cs)
  {
    FoldSame(s, t, cs);
    SameNameIff(s, t, cs);
  }

  /** A document without the order of its members, and with names as they are looked up. */
  datatype Unordered =
    | UNull
    | UFalse
    | UTrue
    | UNumber(number: real)
    | UText(text: bytes)
    | UArray(items: seq<Unordered>)
    | UObject(members: map<bytes, Unordered>)

  ghost function Unorder(v: Value, cs: bool): Unordered
    decreases Levels(v), 2
  {
    match v {
      case Null => UNull
      case False => UFalse
      case True => UTrue
      case Number(x) => UNumber(x)
      case Text(s) => UText(s)
      case Array(items) => UArray(UnorderItems(items, cs))
      case Object(members) =>
        UObject(map k | k in Names(members, cs) :: UnorderMember(members, Find(members, k, cs).value, cs))
    }
  }

  ghost function UnorderItems(items: seq<Value>, cs: bool): (r: seq<Unordered>)
    ensures |r| == |items| && forall i :: 0 <= i < |r| ==> r[i] == UnorderItem(items, i, cs)
    decreases Levels(Array(items)), 1
  {
    seq(|items|, i requires 0 <= i < |items| => UnorderItem(items, i, cs))
  }

  ghost function UnorderItem(items: seq<Value>, i: nat, cs: bool): Unordered
    requires i < |items|
    decreases Levels(Array(items)), 0
  {
    ItemLevel(items, i);
    Unorder(items[i], cs)
  }

  ghost function UnorderMember(members: seq<Member>, i: nat, cs: bool): Unordered
    requires i < |members|
    decreases Levels(Object(members)), 0
  {
    MemberLevel(members, i);
    Unorder(members[i].value, cs)
  }

  /** The names an object answers to. */
  function Names(members: seq<Member>, cs: bool): (r: set<bytes>)
    ensures forall k :: k in r ==> Fold(k, cs) == k && Find(members, k, cs).Some?
  {
    if members == [] then {}
    else
      FoldTwice(members[0].key, cs);
      FoldSame(Fold(members[0].key, cs), members[0].key, cs);
      {Fold(members[0].key, cs)} + Names(members[1..], cs)
  }

  lemma {:induction false} NamesFound(members: seq<Member>, name: bytes, cs: bool)
    ensures Find(members, name, cs).Some? <==> Fold(name, cs) in Names(members, cs)
  {
    hide LowerAll, SameName;
    if members != [] {
      FoldSame(name, members[0].key, cs);
      NamesFound(members[1..], name, cs);
    }
  }

  /** Comparison holds exactly between trees that are equal up to the order of members, and up to the
      case of names where it is ignored, and in which members of one name agree on their values. */
  lemma {:induction false} CompareMeaning(a: Value, b: Value, cs: bool)
    ensures Compare(a, b, cs) <==> Consistent(a, cs) && Consistent(b, cs) && Unorder(a, cs) == Unorder(b, cs)
    decreases Levels(a) + Levels(b)
  {
    if a.Array? && b.Array? {
      ArrayMeaning(a.items, b.items, cs);
    } else if a.Object? && b.Object? {
      ObjectMeaning(a.members, b.members, cs);
    }
  }

  lemma {:induction false} ArrayMeaning(xs: seq<Value>, ys: seq<Value>, cs: bool)
    ensures Compare(Array(xs), Array(ys), cs) <==>
            Consistent(Array(xs), cs) && Consistent(Array(ys), cs) && Unorder(Array(xs), cs) == Unorder(Array(ys), cs)
    decreases Levels(Array(xs)) + Levels(Array(ys)), 0
  {
    ItemsEqual(xs, ys, cs);
    if |xs| == |ys| {
      forall i | 0 <= i < |xs|
        ensures ElementsAt(xs, ys, i, cs) <==>
                ConsistentItem(xs, i, cs) && ConsistentItem(ys, i, cs) &&
                UnorderItem(xs, i, cs) == UnorderItem(ys, i, cs)
      {
        ItemLevel(xs, i);
        ItemLevel(ys, i);
        CompareMeaning(xs[i], ys[i], cs);
        ItemMeaning(xs, ys, i, cs);
      }
      ArraysAgree(xs, ys, cs);
    }
  }

  /** The elements are pairwise equal up to order and case. */
  ghost predicate SameItems(xs: seq<Value>, ys: seq<Value>, cs: bool) {
    |xs| == |ys| && forall i :: 0 <= i < |xs| ==> UnorderItem(xs, i, cs) == UnorderItem(ys, i, cs)
  }

  lemma ArraysAgree(xs: seq<Value>, ys: seq<Value>, cs: bool)
    requires |xs| == |ys|
    requires forall i :: 0 <= i < |xs| ==>
      (ElementsAt(xs, ys, i, cs) <==>
       ConsistentItem(xs, i, cs) && ConsistentItem(ys, i, cs) && UnorderItem(xs, i, cs) == UnorderItem(ys, i, cs))
    ensures Compare(Array(xs), Array(ys), cs) <==>
            Consistent(Array(xs), cs) && Consistent(Array(ys), cs) && SameItems(xs, ys, cs)
  {
    if Compare(Array(xs), Array(ys), cs) {
      forall i | 0 <= i < |xs|
        ensures ConsistentItem(xs, i, cs) && ConsistentItem(ys, i, cs) &&
                UnorderItem(xs, i, cs) == UnorderItem(ys, i, cs)
      {
        assert ElementsAt(xs, ys, i, cs);
      }
      ItemsConsistent(xs, cs);
      ItemsConsistent(ys, cs);
    }
    if Consistent(Array(xs), cs) && Consistent(Array(ys), cs) && SameItems(xs, ys, cs) {
      forall i | 0 <= i < |xs| ensures ElementsAt(xs, ys, i, cs) {
        assert ConsistentItem(xs, i, cs) && ConsistentItem(ys, i, cs) &&
               UnorderItem(xs, i, cs) == UnorderItem(ys, i, cs);
      }
      ItemsCompare(xs, ys, cs);
    }
  }

  lemma ItemsConsistent(xs: seq<Value>, cs: bool)
    requires forall i :: 0 <= i < |xs| ==> ConsistentItem(xs, i, cs)
    ensures Consistent(Array(xs), cs)
  {
  }

  lemma ItemsCompare(xs: seq<Value>, ys: seq<Value>, cs: bool)
    requires |xs| == |ys| && forall i :: 0 <= i < |xs| ==> ElementsAt(xs, ys, i, cs)
    ensures Compare(Array(xs), Array(ys), cs)
  {
  }

  lemma ItemMeaning(xs: seq<Value>, ys: seq<Value>, i: nat, cs: bool)
    requires i < |xs| && i < |ys|
    requires Compare(xs[i], ys[i], cs) <==>
             Consistent(xs[i], cs) && Consistent(ys[i], cs) && Unorder(xs[i], cs) == Unorder(ys[i], cs)
    ensures ElementsAt(xs, ys, i, cs) <==>
            ConsistentItem(xs, i, cs) && ConsistentItem(ys, i, cs) && UnorderItem(xs, i, cs) == UnorderItem(ys, i, cs)
  {
    hide Compare, Consistent, Unorder;
  }

  lemma ItemsEqual(xs: seq<Value>, ys: seq<Value>, cs: bool)
    ensures Unorder(Array(xs), cs) == Unorder(Array(ys), cs) <==> SameItems(xs, ys, cs)
  {
    var us, ws := UnorderItems(xs, cs), UnorderItems(ys, cs);
    if us == ws {
      forall i | 0 <= i < |xs| ensures UnorderItem(xs, i, cs) == UnorderItem(ys, i, cs) { assert us[i] == ws[i]; }
    }
    if SameItems(xs, ys, cs) {
      forall i | 0 <= i < |us| ensures us[i] == ws[i] { assert UnorderItem(xs, i, cs) == UnorderItem(ys, i, cs); }
    }
  }

  lemma {:induction false} ObjectMeaning(ms: seq<Member>, ns: seq<Member>, cs: bool)
    ensures Compare(Object(ms), Object(ns), cs) <==>
            Consistent(Object(ms), cs) && Consistent(Object(ns), cs) &&
            Unorder(Object(ms), cs) == Unorder(Object(ns), cs)
    decreases Levels(Object(ms)) + Levels(Object(ns)), 0
  {
    hide Unorder, UnorderMember, ConsistentMember, Consistent, Covers, Matched;
    MatchedObjects(ms, ns, cs);
    if Compare(Object(ms), Object(ns), cs) {
      CompareSymmetric(Object(ms), Object(ns), cs);
      CompareTransitive(Object(ms), Object(ns), Object(ms), cs);
      CompareTransitive(Object(ns), Object(ms), Object(ns), cs);
      CompareReflexive(Object(ms), cs);
      CompareReflexive(Object(ns), cs);
      SameUnordered(ms, ns, cs);
    }
    if Consistent(Object(ms), cs) && Consistent(Object(ns), cs) && Unorder(Object(ms), cs) == Unorder(Object(ns), cs) {
      UnorderedCovers(ms, ns, cs);
      UnorderedCovers(ns, ms, cs);
    }
  }

  lemma {:induction false} MatchedObjects(ms: seq<Member>, ns: seq<Member>, cs: bool)
    ensures Matched(ms, ns, cs)
    decreases Levels(Object(ms)) + Levels(Object(ns)), 0, 0
  {
    hide Compare, Consistent, Unorder;
    forall i, j | 0 <= i < |ms| && 0 <= j < |ns| ensures MembersMatch(ms, i, ns, j, cs) {
      MemberLevel(ms, i);
      MemberLevel(ns, j);
      CompareMeaning(ms[i].value, ns[j].value, cs);
    }
  }

  ghost predicate MembersMatch(ms: seq<Member>, i: nat, ns: seq<Member>, j: nat, cs: bool)
    requires i < |ms| && j < |ns|
  {
    Compare(ms[i].value, ns[j].value, cs) <==>
    ConsistentMember(ms, i, cs) && ConsistentMember(ns, j, cs) && UnorderMember(ms, i, cs) == UnorderMember(ns, j, cs)
  }

  ghost predicate Matched(ms: seq<Member>, ns: seq<Member>, cs: bool) {
    forall i, j :: 0 <= i < |ms| && 0 <= j < |ns| ==> MembersMatch(ms, i, ns, j, cs)
  }

  /** Looking a name up in the unordered object is looking it up in the object. */
  lemma Lookup(members: seq<Member>, name: bytes, cs: bool)
    ensures Unorder(Object(members), cs).UObject?
    ensures var m, j := Unorder(Object(members), cs).members, Find(members, name, cs);
            (Fold(name, cs) in m <==> j.Some?) && (j.Some? ==> m[Fold(name, cs)] == UnorderMember(members, j.value, cs))
    ensures forall k :: k in Unorder(Object(members), cs).members ==> Fold(k, cs) == k
  {
    hide UnorderMember, LowerAll, SameName;
    NamesFound(members, name, cs);
    FoldTwice(name, cs);
    FindSame(members, name, Fold(name, cs), cs);
  }

  lemma SameUnordered(ms: seq<Member>, ns: seq<Member>, cs: bool)
    requires Matched(ms, ns, cs) && Covers(ms, ns, cs) && Covers(ns, ms, cs)
    ensures Unorder(Object(ms), cs) == Unorder(Object(ns), cs)
  {
    hide Compare, ConsistentMember, UnorderMember, Unorder, SameName, Fold, Matched;
    Lookup(ms, [], cs);
    Lookup(ns, [], cs);
    var us, ws := Unorder(Object(ms), cs).members, Unorder(Object(ns), cs).members;
    forall k | k in us ensures k in ws && us[k] == ws[k] { CoveredLookup(ms, ns, k, cs); }
    forall k | k in ws ensures k in us {
      Lookup(ms, k, cs);
      Lookup(ns, k, cs);
      CoveredFound(ns, ms, k, cs);
    }
    assert us == ws;
  }

  /** A name the first object answers to is answered by the second. */
  lemma CoveredFound(ms: seq<Member>, ns: seq<Member>, k: bytes, cs: bool)
    requires Covers(ms, ns, cs) && Find(ms, k, cs).Some?
    ensures var i, j := Find(ms, k, cs).value, Find(ns, k, cs); j.Some? && Compare(ms[i].value, ns[j.value].value, cs)
  {
    hide Compare, LowerAll;
    var i := Find(ms, k, cs).value;
    assert MembersAt(ms, ns, i, cs);
    FindSame(ns, ms[i].key, k, cs);
  }

  lemma CoveredLookup(ms: seq<Member>, ns: seq<Member>, k: bytes, cs: bool)
    requires Matched(ms, ns, cs) && Covers(ms, ns, cs)
    requires Unorder(Object(ms), cs).UObject? && k in Unorder(Object(ms), cs).members
    ensures Unorder(Object(ns), cs).UObject? && k in Unorder(Object(ns), cs).members
    ensures Unorder(Object(ms), cs).members[k] == Unorder(Object(ns), cs).members[k]
  {
    hide Compare, ConsistentMember, UnorderMember, Unorder, SameName, Fold, Covers;
    Lookup(ms, k, cs);
    Lookup(ns, k, cs);
    CoveredFound(ms, ns, k, cs);
    assert MembersMatch(ms, Find(ms, k, cs).value, ns, Find(ns, k, cs).value, cs);
  }

  lemma UnorderedCovers(ms: seq<Member>, ns: seq<Member>, cs: bool)
    requires Consistent(Object(ms), cs) && Consistent(Object(ns), cs) &&
             Unorder(Object(ms), cs) == Unorder(Object(ns), cs)
    requires Matched(ms, ns, cs) || Matched(ns, ms, cs)
    ensures Covers(ms, ns, cs)
  {
    hide Compare, UnorderMember, Unorder, Consistent, ConsistentMember, MembersAt, Matched;
    forall i | 0 <= i < |ms| ensures MembersAt(ms, ns, i, cs) { UnorderedAt(ms, ns, i, cs); }
  }

  lemma UnorderedAt(ms: seq<Member>, ns: seq<Member>, i: nat, cs: bool)
    requires Consistent(Object(ms), cs) && Consistent(Object(ns), cs) &&
             Unorder(Object(ms), cs) == Unorder(Object(ns), cs)
    requires (Matched(ms, ns, cs) || Matched(ns, ms, cs)) && i < |ms|
    ensures MembersAt(ms, ns, i, cs)
  {
    hide Compare, UnorderMember, Unorder, Consistent, ConsistentMember, LowerAll, Fold;
    ConsistentParts(ms, cs);
    ConsistentParts(ns, cs);
    var k := ms[i].key;
    Lookup(ms, k, cs);
    Lookup(ns, k, cs);
    var f, j := Find(ms, k, cs).value, Find(ns, k, cs).value;
    CompareSymmetric(ms[f].value, ns[j].value, cs);
    assert Matched(ms, ns, cs) ==> MembersMatch(ms, f, ns, j, cs);
    assert Matched(ns, ms, cs) ==> MembersMatch(ns, j, ms, f, cs);
    assert Compare(ms[f].value, ns[j].value, cs);
    if f != i {
      SameNameSymmetric(k, ms[f].key, cs);
      assert ConsistentPair(ms, f, i, cs);
      CompareSymmetric(ms[f].value, ms[i].value, cs);
      CompareTransitive(ms[i].value, ms[f].value, ns[j].value, cs);
    }
  }

  lemma ConsistentParts(members: seq<Member>, cs: bool)
    requires Consistent(Object(members), cs)
    ensures forall i :: 0 <= i < |members| ==> ConsistentMember(members, i, cs)
    ensures forall i, j :: 0 <= i < |members| && 0 <= j < |members| ==> ConsistentPair(members, i, j, cs)
  {
  }

  /** Members with distinct names can be put in any order. */
  lemma ReorderedMembers(ms: seq<Member>, ns: seq<Member>, cs: bool)
    requires multiset(ms) == multiset(ns) && DistinctKeys(Object(ms), cs) && DistinctKeys(Object(ns), cs)
    ensures Compare(Object(ms), Object(ns), cs)
  {
    ReorderedCovers(ms, ns, cs);
    ReorderedCovers(ns, ms, cs);
  }

  lemma ReorderedCovers(ms: seq<Member>, ns: seq<Member>, cs: bool)
    requires multiset(ms) == multiset(ns) && DistinctKeys(Object(ms), cs) && DistinctKeys(Object(ns), cs)
    ensures Covers(ms, ns, cs)
  {
    hide Compare, LowerAll;
    forall i | 0 <= i < |ms| ensures MembersAt(ms, ns, i, cs) {
      assert ms[i] in multiset(ns);
      var j :| 0 <= j < |ns| && ns[j] == ms[i];
      FoundDistinct(ns, j, cs);
      assert DistinctMember(ms, i, cs);
      DistinctReflexive(ms[i].value, cs);
    }
  }

  lemma FoundDistinct(members: seq<Member>, j: nat, cs: bool)
    requires j < |members| && DistinctNames(members, cs)
    ensures Find(members, members[j].key, cs) == Some(j)
  {
    var f := Find(members, members[j].key, cs);
    SameNameSymmetric(members[j].key, members[j].key, cs);
    if f.Some? { SameNameSymmetric(members[j].key, members[f.value].key, cs); }
  }

  /** Two members of one name with different values: the tree does not compare equal to its copy. */
  lemma UnequalToItself(cs: bool)
    ensures var v := Object([Member([], Null), Member([], True)]); !Compare(v, v, cs)
  {
    var members := [Member([], Null), Member([], True)];
    assert SameName(members[0].key, members[1].key, cs);
    assert !Compare(members[0].value, members[1].value, cs);
    assert !ConsistentPair(members, 0, 1, cs);
    CompareReflexive(Object(members), cs);
  }
}
