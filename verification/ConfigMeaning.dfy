/** What the configuration map saves and loads, said of the table and the variables alone: the values of
    C's integer types, the member a name finds, and the default where there is none. */
module ConfigMeaning {
  import opened Bytes
  import opened Json
  import opened Compare
  import opened JsonDocument
  import opened JsonAcceptance
  import opened ConfigMap

  predicate Numeric(kind: Kind) { !kind.Str? && !kind.Other? }

  /** v is x reduced to the values of the type. */
  predicate Wraps(kind: Kind, x: int, v: int) {
    match kind
    case U32 => 0 <= v <= 4294967295 && (x - v) % 4294967296 == 0
    case U16 => 0 <= v <= 65535 && (x - v) % 65536 == 0
    case U8 => 0 <= v <= 255 && (x - v) % 256 == 0
    case S32 => -2147483648 <= v <= 2147483647 && (x - v) % 4294967296 == 0
    case S16 => -32768 <= v <= 32767 && (x - v) % 65536 == 0
    case S8 => -128 <= v <= 127 && (x - v) % 256 == 0
    case _ => false
  }

  lemma CastIff(kind: Kind, x: int, v: int)
    requires Numeric(kind)
    ensures Cast(kind, x) == v <==> Wraps(kind, x, v)
  {
    Congruent(x, v, Width(kind));
    if v < 0 { Congruent(x, v + Width(kind), Width(kind)); }
    Shifted(x - v, Width(kind));
  }

  lemma Congruent(x: int, r: int, m: int)
    requires m == 0x1_0000_0000 || m == 0x1_0000 || m == 0x100
    ensures 0 <= r < m ==> (x % m == r <==> (x - r) % m == 0)
  {
  }

  lemma Shifted(x: int, m: int)
    requires m == 0x1_0000_0000 || m == 0x1_0000 || m == 0x100
    ensures (x - m) % m == x % m
  {
  }

  /** n is x without its fraction, or the nearest end of the range of an int. */
  predicate Truncates(x: real, n: int) {
    if x >= 2147483647.0 then n == 2147483647
    else if x <= -2147483648.0 then n == -2147483648
    else if x >= 0.0 then n as real <= x < n as real + 1.0
    else n as real - 1.0 < x <= n as real
  }

  /** The valueint of a node. */
  predicate IntOf(v: Value, n: int) {
    match v
    case Number(x) => Truncates(x, n)
    case True => n == 1
    case _ => n == 0
  }

  lemma ValueIntIff(v: Value, n: int)
    ensures ValueInt(v) == n <==> IntOf(v, n)
  {
  }

  /** The first member of an object whose name agrees, apart from case, holds v. */
  ghost predicate HasItem(json: Option<Value>, name: bytes, v: Value) {
    && json.Some? && json.value.Object?
    && exists i: nat ::
         && i < |json.value.members| && json.value.members[i].value == v
         && NamesAgree(name, json.value.members[i].key, false)
         && forall k :: 0 <= k < i ==> !NamesAgree(name, json.value.members[k].key, false)
  }

  lemma GetItemIff(json: Option<Value>, name: bytes, v: Value)
    ensures GetItem(json, name) == Some(v) <==> HasItem(json, name, v)
  {
    hide NamesAgree;
    if json.Some? && json.value.Object? {
      forall i: nat
        ensures Find(json.value.members, name, false) == Some(i) <==>
                && i < |json.value.members| && NamesAgree(name, json.value.members[i].key, false)
                && forall k :: 0 <= k < i ==> !NamesAgree(name, json.value.members[k].key, false)
      {
        FindIff(json.value.members, name, false, i);
      }
    }
  }

  /** What is saved of a variable: its text; its value as an int, or the default if that is out of range. */
  ghost predicate SavesAs(e: Entry, c: Cell, v: Value) {
    if e.kind.Str? then v.Text? && c == Chars(v.text)
    else
      && c.Int? && v.Number?
      && exists n :: Wraps(S32, c.value, n) && v.number == (if e.min <= n as real <= e.max then n else e.number) as real
  }

  // ----- Loading

  /** The int a variable is loaded from: its member's if it has one and that is in range, else the default. */
  ghost predicate LoadsInt(e: Entry, json: Option<Value>, n: int) {
    if exists v, m :: HasItem(json, e.name, v) && IntOf(v, m) && e.min <= m as real <= e.max
    then exists v :: HasItem(json, e.name, v) && IntOf(v, n)
    else n == e.number
  }

  /** The text a string is loaded from: its member's if it has one, else the default. */
  ghost predicate LoadsText(e: Entry, json: Option<Value>, t: bytes) {
    if exists v :: HasItem(json, e.name, v) then HasItem(json, e.name, Text(t)) else t == e.text
  }

  /** What becomes of the variable of an entry. */
  ghost predicate LoadsAs(e: Entry, json: Option<Value>, was: Cell, c: Cell) {
    if Numeric(e.kind) then c.Int? && exists n :: LoadsInt(e, json, n) && Wraps(e.kind, n, c.value)
    else if e.kind.Str? && e.max > 1.0 then c.Chars? && LoadsText(e, json, c.text)
    else c == was
  }

  lemma LoadedCellMeans(e: Entry, json: Option<Value>, was: Cell)
    requires e.kind.Str? ==> TextAt(e, json)
    ensures LoadsAs(e, json, was, LoadedCell(e, GetItem(json, e.name), was))
  {
    hide Cast, ValueInt, GetItem, HasItem, IntOf, Wraps;
    var js := GetItem(json, e.name);
    forall v ensures js == Some(v) <==> HasItem(json, e.name, v) { GetItemIff(json, e.name, v); }
    if Numeric(e.kind) {
      var x := if js.Some? && InRange(e, ValueInt(js.value)) then ValueInt(js.value) else e.number;
      if js.Some? {
        forall m ensures ValueInt(js.value) == m <==> IntOf(js.value, m) { ValueIntIff(js.value, m); }
        assert HasItem(json, e.name, js.value) && IntOf(js.value, ValueInt(js.value));
      }
      CastIff(e.kind, x, Cast(e.kind, x));
    }
  }

  /** Loading a table: each of its variables is loaded from its member or its default; no other changes. */
  lemma LoadedMeans(table: seq<Entry>, json: Option<Value>, data: seq<Cell>)
    requires Texts(table, json) && DistinctAddresses(table)
    requires forall i :: 0 <= i < |table| ==> table[i].address < |data|
    ensures var r := Loaded(table, json, data, |table|);
            && (forall i :: 0 <= i < |table| ==>
                  LoadsAs(table[i], json, data[table[i].address], r[table[i].address]))
            && (forall a :: 0 <= a < |data| && (forall i :: 0 <= i < |table| ==> table[i].address != a) ==>
                  r[a] == data[a])
  {
    hide LoadedCell, GetItem, LoadsAs, Loaded;
    LoadedAt(table, json, data, |table|);
    var r := Loaded(table, json, data, |table|);
    forall i | 0 <= i < |table| ensures LoadsAs(table[i], json, data[table[i].address], r[table[i].address]) {
      assert LoadedOne(table[i], json, data, r);
      LoadedCellMeans(table[i], json, data[table[i].address]);
    }
  }

  /** The variable of an entry holds its default; where there is none, or no room for it, what it held. */
  predicate DefaultAt(e: Entry, was: Cell, c: Cell) {
    if Numeric(e.kind) then c.Int? && Wraps(e.kind, e.number, c.value)
    else if e.kind.Str? && e.max > 1.0 then c == Chars(e.text)
    else c == was
  }

  /** The first start: without a file, or with one that does not parse, every variable gets its default. */
  lemma NoFile(table: seq<Entry>, file: Option<bytes>, data: seq<Cell>)
    requires file.Some? ==> NulFree(file.value) && ParseDocument(file.value, false).Rejected?
    requires DistinctAddresses(table) && forall i :: 0 <= i < |table| ==> table[i].address < |data|
    ensures Texts(table, TreeOf(file))
    ensures var r := Loaded(table, TreeOf(file), data, |table|);
            && (forall i :: 0 <= i < |table| ==> DefaultAt(table[i], data[table[i].address], r[table[i].address]))
            && (forall a :: 0 <= a < |data| && (forall i :: 0 <= i < |table| ==> table[i].address != a) ==>
                  r[a] == data[a])
  {
    hide ParseDocument, Loaded, LoadsInt, LoadsText, Wraps;
    LoadedMeans(table, None, data);
    var r := Loaded(table, None, data, |table|);
    forall i | 0 <= i < |table| ensures DefaultAt(table[i], data[table[i].address], r[table[i].address]) {
      assert LoadsAs(table[i], None, data[table[i].address], r[table[i].address]);
      NothingLoaded(table[i]);
    }
  }

  lemma NothingLoaded(e: Entry)
    ensures forall n :: LoadsInt(e, None, n) <==> n == e.number
    ensures forall t :: LoadsText(e, None, t) <==> t == e.text
  {
  }

  /** A file is loaded as the tree of which it is a text, whatever may follow that. */
  lemma FileTree(file: bytes, v: Value)
    requires NulFree(file)
    ensures TreeOf(Some(file)) == Some(v) <==>
            exists start: nat, e: nat, end: nat :: Whole(Buffer(file), start, e, v, false, end)
  {
    hide ParseDocument, Whole, Buffer;
    var d := ParseDocument(file, false);
    if d.Document? { AcceptsIff(file, false, v, d.end); }
    if start: nat, e: nat, end: nat :| Whole(Buffer(file), start, e, v, false, end) {
      AcceptsIff(file, false, v, end);
    }
  }

  // ----- Saving

  /** The file is the formatted text of the saved members: one a line, indented by a tab. */
  lemma FileLayout(table: seq<Entry>, data: seq<Cell>)
    requires Fits(table, data)
    ensures var ms := SavedMembers(table, data);
            FileText(table, data) ==
            Ascii("{\n") + (if ms == [] then [] else Join(Lines(ms, true, 1), Ascii(",\n")) + Ascii("\n")) + Ascii("}")
  {
    hide Saved, Lines, Join, Serial, Ascii;
    ObjectLayout(SavedMembers(table, data), true, 0);
    assert Tabulated(0) == [];
  }

  lemma SavedValueMeans(e: Entry, c: Cell)
    requires Holds(e.kind, c) && !e.kind.Other?
    ensures SavesAs(e, c, SavedValue(e, c))
  {
    hide ToInt, Wraps;
    if !e.kind.Str? { ToIntWraps(c.value); }
  }

  lemma ToIntWraps(x: int)
    ensures Wraps(S32, x, ToInt(x))
  {
    CastIff(S32, x, ToInt(x));
  }

  /** How many of the first `n` entries are saved. */
  function Counted(table: seq<Entry>, n: nat): nat
    requires n <= |table|
  {
    if n == 0 then 0 else Counted(table, n - 1) + if table[n - 1].kind.Other? then 0 else 1
  }

  ghost predicate SavedThere(ms: seq<Member>, k: nat, e: Entry, c: Cell) {
    k < |ms| && ms[k].key == e.name && SavesAs(e, c, ms[k].value)
  }

  lemma SavedBehind(ms: seq<Member>, ns: seq<Member>, k: nat, e: Entry, c: Cell)
    requires SavedThere(ms, k, e, c)
    ensures SavedThere(ms + ns, k, e, c)
  {
    hide SavesAs;
  }

  lemma LastSaved(ms: seq<Member>, m: Member, e: Entry, c: Cell)
    requires m.key == e.name && SavesAs(e, c, m.value)
    ensures SavedThere(ms + [m], |ms|, e, c)
  {
    hide SavesAs;
  }

  /** One member for every entry of a known type, in the order of the table. */
  ghost predicate SavedUpTo(table: seq<Entry>, data: seq<Cell>, n: nat, ms: seq<Member>) {
    && n <= |table| && |ms| == Counted(table, n)
    && forall i :: 0 <= i < n && !table[i].kind.Other? ==>
         table[i].address < |data| && SavedThere(ms, Counted(table, i), table[i], data[table[i].address])
  }

  lemma NothingSaved(table: seq<Entry>, data: seq<Cell>)
    ensures SavedUpTo(table, data, 0, [])
  {
  }

  lemma SavedNext(table: seq<Entry>, data: seq<Cell>, n: nat, ms: seq<Member>, more: seq<Member>)
    requires n < |table| && SavedUpTo(table, data, n, ms) && table[n].address < |data|
    requires if table[n].kind.Other? then more == []
             else
               && |more| == 1 && more[0].key == table[n].name
               && SavesAs(table[n], data[table[n].address], more[0].value)
    ensures SavedUpTo(table, data, n + 1, ms + more)
  {
    hide SavesAs, SavedThere;
    forall i | 0 <= i < n && !table[i].kind.Other?
      ensures SavedThere(ms + more, Counted(table, i), table[i], data[table[i].address])
    {
      SavedBehind(ms, more, Counted(table, i), table[i], data[table[i].address]);
    }
    if !table[n].kind.Other? {
      LastSaved(ms, more[0], table[n], data[table[n].address]);
      assert more == [more[0]];
    }
  }

  lemma {:induction false} SavedMeans(table: seq<Entry>, data: seq<Cell>, n: nat)
    requires Fits(table, data) && n <= |table|
    ensures SavedUpTo(table, data, n, Saved(table, data, n))
    decreases n
  {
    hide SavedUpTo, SavedValue, SavesAs, Holds, Saved, Counted, Fits;
    if n == 0 {
      NoneSaved(table, data);
      NothingSaved(table, data);
    } else {
      SavedMeans(table, data, n - 1);
      OneSaved(table, data, n - 1);
      var e, ms := table[n - 1], Saved(table, data, n - 1);
      if e.kind.Other? {
        SavedNext(table, data, n - 1, ms, []);
      } else {
        SavedValueMeans(e, data[e.address]);
        SavedNext(table, data, n - 1, ms, [Member(e.name, SavedValue(e, data[e.address]))]);
      }
    }
  }
}
