/** The typed configuration map: program variables saved as a JSON object and loaded from one. */
module ConfigMap {
  import opened Bytes
  import opened Json
  import opened Compare
  import opened JsonDocument
  import opened NodeList
  import PrintBuffer

  const INT_MAX: int := 0x7FFF_FFFF
  const INT_MIN: int := -0x8000_0000

  type int32 = x: int | -0x8000_0000 <= x <= 0x7FFF_FFFF

  datatype Kind = U32 | U16 | U8 | S32 | S16 | S8 | Str | Other

  /** config_map_t. `number` is the int that strtoul or strtol, and the assignment to an int, make of
      the default text. */
  datatype Entry = Entry(name: bytes, address: nat, kind: Kind, text: bytes, number: int32, min: real, max: real)

  /** The variable at an address: an integer of its width, or a character buffer holding a C string. */
  datatype Cell = Int(value: int) | Chars(text: bytes)

  /** How many values the integer type has. */
  function Width(kind: Kind): int {
    match kind
    case U32 => 0x1_0000_0000
    case S32 => 0x1_0000_0000
    case U16 => 0x1_0000
    case S16 => 0x1_0000
    case _ => 0x100
  }

  predicate SignedKind(kind: Kind) { kind.S32? || kind.S16? || kind.S8? }

  /** The cast of an int to the variable's type. */
  function Cast(kind: Kind, x: int): int {
    var r := x % Width(kind);
    if SignedKind(kind) && r >= Width(kind) / 2 then r - Width(kind) else r
  }

  /** The assignment of the variable to an int. */
  function ToInt(x: int): int32 {
    var r := x % 0x1_0000_0000;
    if r >= 0x8000_0000 then r - 0x1_0000_0000 else r
  }

  /** The variable holds a value of its type. */
  predicate Holds(kind: Kind, c: Cell) {
    match kind
    case Other => true
    case Str => c.Chars? && NulFree(c.text)
    case _ => c.Int? && c.value == Cast(kind, c.value)
  }

  predicate InRange(e: Entry, x: int) { e.min <= x as real <= e.max }

  // ----- Saving

  /** The value data_to_json_by_map writes for an entry. */
  function SavedValue(e: Entry, c: Cell): Value
    requires Holds(e.kind, c) && !e.kind.Other?
  {
    if e.kind.Str? then Text(c.text)
    else
      var x := ToInt(c.value);
      Number((if InRange(e, x) then x else e.number) as real)
  }

  predicate Fits(table: seq<Entry>, data: seq<Cell>) {
    forall i :: 0 <= i < |table| ==> table[i].address < |data| && Holds(table[i].kind, data[table[i].address])
  }

  /** What the first `n` entries write. */
  function Saved(table: seq<Entry>, data: seq<Cell>, n: nat): seq<Member>
    requires Fits(table, data) && n <= |table|
  {
    if n == 0 then []
    else
      var e := table[n - 1];
      Saved(table, data, n - 1) + if e.kind.Other? then [] else [Member(e.name, SavedValue(e, data[e.address]))]
  }

  // ----- Loading

  /** valueint: a number saturated and truncated toward zero, 1 for true, 0 for everything else. */
  function ValueInt(v: Value): int32 {
    match v
    case Number(x) =>
      if x >= INT_MAX as real then INT_MAX
      else if x <= INT_MIN as real then INT_MIN
      else if x >= 0.0 then x.Floor else -((-x).Floor)
    case True => 1
    case _ => 0
  }

  /** cJSON_GetObjectItem on a tree, or on NULL. */
  function GetItem(json: Option<Value>, name: bytes): Option<Value> {
    if json.Some? && json.value.Object? then
      var k := Find(json.value.members, name, false);
      if k.Some? then Some(json.value.members[k.value].value) else None
    else None
  }

  /** The variable after cjson_to_data_by_map has treated its entry. A string entry whose upper limit is
      not above 1 is left alone. */
  function LoadedCell(e: Entry, js: Option<Value>, c: Cell): Cell
    requires e.kind.Str? && e.max > 1.0 && js.Some? ==> js.value.Text?
  {
    match e.kind
    case Other => c
    case Str => if e.max <= 1.0 then c else Chars(if js.Some? then js.value.text else e.text)
    case _ =>
      var x := if js.Some? && InRange(e, ValueInt(js.value)) then ValueInt(js.value) else e.number;
      Int(Cast(e.kind, x))
  }

  /** The strings the map asks for are strings. */
  predicate Texts(table: seq<Entry>, json: Option<Value>) {
    forall i :: 0 <= i < |table| && table[i].kind.Str? ==> TextAt(table[i], json)
  }

  predicate TextAt(e: Entry, json: Option<Value>) {
    var js := GetItem(json, e.name);
    js.Some? ==> js.value.Text?
  }

  /** The variables after the first `n` entries. */
  function Loaded(table: seq<Entry>, json: Option<Value>, data: seq<Cell>, n: nat): (r: seq<Cell>)
    requires n <= |table| && Texts(table, json) && forall i :: 0 <= i < |table| ==> table[i].address < |data|
    ensures |r| == |data|
  {
    if n == 0 then data
    else
      var before := Loaded(table, json, data, n - 1);
      var e := table[n - 1];
      before[e.address := LoadedCell(e, GetItem(json, e.name), before[e.address])]
  }

  /** load_json. */
  function TreeOf(file: Option<bytes>): Option<Value>
    requires file.Some? ==> NulFree(file.value)
  {
    if file.None? then None
    else match ParseDocument(file.value, false) {
      case Rejected(_) => None
      case Document(v, _) => Some(v)
    }
  }

  function SavedMembers(table: seq<Entry>, data: seq<Cell>): seq<Member>
    requires Fits(table, data)
  {
    Saved(table, data, |table|)
  }

  /** The object saved from a table. */
  function SavedTree(table: seq<Entry>, data: seq<Cell>): Value
    requires Fits(table, data)
  {
    Object(SavedMembers(table, data))
  }

  /** What the file for a table contains. */
  function FileText(table: seq<Entry>, data: seq<Cell>): bytes
    requires Fits(table, data)
  {
    Serial(SavedTree(table, data), true, 0)
  }

  /** The names in a map are C strings. */
  predicate NamesNulFree(table: seq<Entry>) {
    forall i :: 0 <= i < |table| ==> NulFree(table[i].name)
  }

  // ----- The code; `cells` are the program's variables

  /** data_to_json_by_map: add a member for every entry. */
  method DataToJsonByMap(cells: array<Cell>, table: seq<Entry>, root: Item)
    requires Fits(table, cells[..]) && root.Tree() && root.content.Object?
    modifies root`child, root`kids, root`repr, root.kids`next
    ensures root.Tree()
    ensures root.Document() == Object(old(root.Members(|root.kids|)) + SavedMembers(table, cells[..]))
  {
    hide Holds, InRange, Cast, Item.Tree, Item.Members, Item.Document, Saved;
    ghost var members := root.Members(|root.kids|);
    var i := 0;
    NoneSaved(table, cells[..]);
    ObjectDocument(root);
    while i < |table|
      invariant 0 <= i <= |table| && root.Tree() && root.content.Object?
      invariant root.Document() == Object(members + Saved(table, cells[..], i))
      invariant forall j :: 0 <= j < |root.kids| ==> root.kids[j] in old(root.kids) || fresh(root.kids[j])
    {
      var e := table[i];
      OneSaved(table, cells[..], i);
      if !e.kind.Other? {
        var value := ValueToSave(cells, e);
        var item := new Item(value, None);
        NewTree(item);
        ObjectDocument(root);
        AddItemToObject(root, e.name, item);
        Joined(members, Saved(table, cells[..], i), Member(e.name, value));
      }
      i := i + 1;
    }
  }

  lemma NoneSaved(table: seq<Entry>, data: seq<Cell>)
    requires Fits(table, data)
    ensures Saved(table, data, 0) == []
  {
  }

  lemma OneSaved(table: seq<Entry>, data: seq<Cell>, i: nat)
    requires Fits(table, data) && i < |table|
    ensures var e := table[i];
            && e.address < |data| && Holds(e.kind, data[e.address])
            && Saved(table, data, i + 1) ==
               Saved(table, data, i) + if e.kind.Other? then [] else [Member(e.name, SavedValue(e, data[e.address]))]
  {
    hide SavedValue;
  }

  lemma Joined(s: seq<Member>, t: seq<Member>, m: Member)
    ensures (s + t) + [m] == s + (t + [m])
  {
  }

  method ValueToSave(cells: array<Cell>, e: Entry) returns (v: Value)
    requires e.address < cells.Length && Holds(e.kind, cells[e.address]) && !e.kind.Other?
    ensures v == SavedValue(e, cells[e.address])
  {
    hide Cast, ToInt;
    if e.kind.Str? { return Text(cells[e.address].text); }
    var tmp := ToInt(cells[e.address].value);
    if tmp as real > e.max || (tmp as real) < e.min { tmp := e.number; }
    v := Number(tmp as real);
  }

  /** cjson_to_data_by_map. */
  method CjsonToDataByMap(cells: array<Cell>, table: seq<Entry>, json: Option<Value>) returns (ret: int)
    requires Texts(table, json) && forall i :: 0 <= i < |table| ==> table[i].address < cells.Length
    modifies cells
    ensures cells[..] == Loaded(table, json, old(cells[..]), |table|)
    ensures ret == if exists i :: 0 <= i < |table| && table[i].kind.Other? then 1 else 0
  {
    hide Cast, InRange, GetItem, ValueInt;
    ghost var data := cells[..];
    ret := 0;
    var i := 0;
    while i < |table|
      invariant 0 <= i <= |table| && cells[..] == Loaded(table, json, data, i)
      invariant ret == if exists k :: 0 <= k < i && table[k].kind.Other? then 1 else 0
    {
      var e := table[i];
      if e.kind.Str? { assert TextAt(e, json); }
      var js := GetItem(json, e.name);
      LoadEntry(cells, e, js);
      if e.kind.Other? { ret := 1; }
      i := i + 1;
    }
  }

  /** write_config_file: the text that goes to the file; none if the printer has none. */
  method WriteConfigFile(cells: array<Cell>, table: seq<Entry>) returns (text: Option<bytes>)
    requires Fits(table, cells[..]) && NamesNulFree(table)
    ensures var t := FileText(table, cells[..]); text == if |t| + 2 <= INT_MAX then Some(t) else None
  {
    hide Item.Tree, Item.Members, Item.Document, Saved, Serial, Printable;
    var root := new Item(Object([]), None);
    NewTree(root);
    DataToJsonByMap(cells, table, root);
    assert [] + SavedMembers(table, cells[..]) == SavedMembers(table, cells[..]);
    TreePrintable(table, cells[..]);
    text := PrintBuffer.Print(root, true);
  }

  /** read_config_file; without a file, or with one that does not parse, there is no tree. */
  method ReadConfigFile(cells: array<Cell>, table: seq<Entry>, file: Option<bytes>) returns (ret: int)
    requires file.Some? ==> NulFree(file.value)
    requires Texts(table, TreeOf(file)) && forall i :: 0 <= i < |table| ==> table[i].address < cells.Length
    modifies cells
    ensures cells[..] == Loaded(table, TreeOf(file), old(cells[..]), |table|)
    ensures ret == if exists i :: 0 <= i < |table| && table[i].kind.Other? then -1 else 0
  {
    hide Texts, Loaded, ParseDocument;
    var json := TreeOf(file);
    ret := CjsonToDataByMap(cells, table, json);
    if ret != 0 { ret := -1; }
  }

  method LoadEntry(cells: array<Cell>, e: Entry, js: Option<Value>)
    requires e.address < cells.Length && (e.kind.Str? && e.max > 1.0 && js.Some? ==> js.value.Text?)
    modifies cells
    ensures cells[..] == old(cells[..])[e.address := LoadedCell(e, js, old(cells[e.address]))]
  {
    hide Cast, ValueInt;
    match e.kind {
      case Other =>
      case Str =>
        if e.max > 1.0 { cells[e.address] := Chars(if js.Some? then js.value.text else e.text); }
      case _ =>
        var tmp := if js.Some? then ValueInt(js.value) else 0;
        if js.None? || tmp as real > e.max || (tmp as real) < e.min { tmp := e.number; }
        cells[e.address] := Int(Cast(e.kind, tmp));
    }
  }

  // ----- Saving and loading again

  /** cJSON_GetObjectItem looks names up without regard to case. */
  ghost predicate DistinctEntries(table: seq<Entry>) {
    forall i, j :: 0 <= i < j < |table| ==> !SameName(table[i].name, table[j].name, false)
  }

  ghost predicate DistinctAddresses(table: seq<Entry>) {
    forall i, j :: 0 <= i < j < |table| ==> table[i].address != table[j].address
  }

  lemma {:induction false} FindAppend(ms: seq<Member>, m: Member, name: bytes)
    ensures Find(ms + [m], name, false) ==
            if Find(ms, name, false).Some? then Find(ms, name, false)
            else if SameName(name, m.key, false) then Some(|ms|) else None
    decreases |ms|
  {
    hide SameName;
    if ms != [] {
      assert (ms + [m])[1..] == ms[1..] + [m];
      FindAppend(ms[1..], m, name);
    } else {
      assert ([m])[1..] == [];
    }
  }

  /** What a saved object holds under the name of entry `i`. */
  lemma {:induction false} SavedFound(table: seq<Entry>, data: seq<Cell>, n: nat, i: nat)
    requires Fits(table, data) && DistinctEntries(table) && n <= |table| && i < |table|
    ensures var e, ms := table[i], Saved(table, data, n);
            var k := Find(ms, e.name, false);
            if i < n && !e.kind.Other? then k.Some? && ms[k.value].value == SavedValue(e, data[e.address])
            else k.None?
    decreases n
  {
    hide SavedValue, SameName, Find, Holds;
    if n == 0 {
      NothingFound(table[i].name);
    } else {
      SavedFound(table, data, n - 1, i);
      var e := table[n - 1];
      assert Holds(e.kind, data[e.address]);
      NamesApart(table, n - 1, i);
      if !e.kind.Other? {
        FindAppend(Saved(table, data, n - 1), Member(e.name, SavedValue(e, data[e.address])), table[i].name);
      } else {
        assert Saved(table, data, n) == Saved(table, data, n - 1);
      }
    }
  }

  lemma NothingFound(name: bytes)
    ensures Find([], name, false).None?
  {
  }

  lemma NamesApart(table: seq<Entry>, j: nat, i: nat)
    requires DistinctEntries(table) && i < |table| && j < |table|
    ensures SameName(table[i].name, table[j].name, false) <==> i == j
  {
    hide LowerAll;
    if i < j { assert !SameName(table[i].name, table[j].name, false); }
    if j < i { assert !SameName(table[j].name, table[i].name, false); }
  }

  /** Loading is done entry by entry. */
  lemma {:induction false} LoadedAt(table: seq<Entry>, json: Option<Value>, data: seq<Cell>, n: nat)
    requires n <= |table| && Texts(table, json) && DistinctAddresses(table)
    requires forall i :: 0 <= i < |table| ==> table[i].address < |data|
    ensures var r := Loaded(table, json, data, n);
            && (forall i :: 0 <= i < n ==> LoadedOne(table[i], json, data, r))
            && (forall a :: 0 <= a < |data| && (forall i :: 0 <= i < n ==> table[i].address != a) ==> r[a] == data[a])
    decreases n
  {
    hide LoadedCell, GetItem;
    if n > 0 {
      LoadedAt(table, json, data, n - 1);
      assert table[n - 1].kind.Str? ==> TextAt(table[n - 1], json);
    }
  }

  ghost predicate LoadedOne(e: Entry, json: Option<Value>, data: seq<Cell>, r: seq<Cell>) {
    && e.address < |data| == |r|
    && (e.kind.Str? ==> TextAt(e, json))
    && r[e.address] == LoadedCell(e, GetItem(json, e.name), data[e.address])
  }

  /** A variable after a round trip: kept if its value is in range, else set to the default. */
  function Settle(e: Entry, c: Cell): Cell {
    if c.Int? && !e.kind.Other? && !e.kind.Str? && !InRange(e, ToInt(c.value)) then Int(Cast(e.kind, e.number)) else c
  }

  lemma CastBack(kind: Kind, x: int)
    requires x == Cast(kind, x)
    ensures Cast(kind, ToInt(x)) == x
  {
  }

  lemma CastTwice(kind: Kind, x: int)
    ensures Cast(kind, Cast(kind, x)) == Cast(kind, x)
  {
  }

  lemma CellReload(e: Entry, c: Cell)
    requires Holds(e.kind, c) && !e.kind.Other?
    ensures LoadedCell(e, Some(SavedValue(e, c)), c) == Settle(e, c)
    ensures Holds(e.kind, Settle(e, c)) && Settle(e, Settle(e, c)) == Settle(e, c)
  {
    if !e.kind.Str? {
      CastBack(e.kind, c.value);
      CastTwice(e.kind, e.number);
      hide Cast, ToInt;
      var x := ToInt(c.value);
      assert ValueInt(Number(x as real)) == x && ValueInt(Number(e.number as real)) == e.number;
    }
  }

  lemma TreeItem(table: seq<Entry>, data: seq<Cell>, i: nat)
    requires Fits(table, data) && DistinctEntries(table) && i < |table|
    ensures Holds(table[i].kind, data[table[i].address])
    ensures GetItem(Some(SavedTree(table, data)), table[i].name) ==
            if table[i].kind.Other? then None else Some(SavedValue(table[i], data[table[i].address]))
    ensures table[i].kind.Str? ==> TextAt(table[i], Some(SavedTree(table, data)))
  {
    hide Find, Saved;
    SavedFound(table, data, |table|, i);
  }

  lemma TreeTexts(table: seq<Entry>, data: seq<Cell>)
    requires Fits(table, data) && DistinctEntries(table)
    ensures Texts(table, Some(SavedTree(table, data)))
  {
    hide SavedTree, TextAt;
    forall i | 0 <= i < |table| && table[i].kind.Str? ensures TextAt(table[i], Some(SavedTree(table, data))) {
      TreeItem(table, data, i);
    }
  }

  /** The variables after saving them to a tree and loading that tree. */
  function Reloaded(table: seq<Entry>, data: seq<Cell>): seq<Cell>
    requires Fits(table, data) && DistinctEntries(table)
  {
    TreeTexts(table, data);
    Loaded(table, Some(SavedTree(table, data)), data, |table|)
  }

  /** Save then load: every variable of the table is kept if it is in range and otherwise set to its
      default, and no other variable changes. */
  lemma SaveLoad(table: seq<Entry>, data: seq<Cell>)
    requires Fits(table, data) && DistinctEntries(table) && DistinctAddresses(table)
    ensures |Reloaded(table, data)| == |data| && Fits(table, Reloaded(table, data))
    ensures forall i :: 0 <= i < |table| ==> Settled(table[i], data, Reloaded(table, data))
    ensures forall a :: 0 <= a < |data| && (forall i :: 0 <= i < |table| ==> table[i].address != a) ==>
              Reloaded(table, data)[a] == data[a]
  {
    hide Holds, Settle, LoadedCell, SavedTree, GetItem, SavedValue;
    TreeTexts(table, data);
    var json := Some(SavedTree(table, data));
    LoadedAt(table, json, data, |table|);
    forall i | 0 <= i < |table| ensures Settled(table[i], data, Reloaded(table, data)) {
      TreeItem(table, data, i);
      assert LoadedOne(table[i], json, data, Reloaded(table, data));
      if table[i].kind.Other? {
        OtherCell(table[i], data[table[i].address]);
      } else {
        CellReload(table[i], data[table[i].address]);
      }
    }
  }

  ghost predicate Settled(e: Entry, data: seq<Cell>, r: seq<Cell>) {
    e.address < |data| == |r| && r[e.address] == Settle(e, data[e.address]) && Holds(e.kind, r[e.address])
  }

  lemma OtherCell(e: Entry, c: Cell)
    requires e.kind.Other?
    ensures LoadedCell(e, None, c) == c == Settle(e, c) && Holds(e.kind, c)
  {
  }

  /** Doing it twice changes nothing more. */
  lemma SaveLoadTwice(table: seq<Entry>, data: seq<Cell>)
    requires Fits(table, data) && DistinctEntries(table) && DistinctAddresses(table)
    ensures Fits(table, Reloaded(table, data))
    ensures Reloaded(table, Reloaded(table, data)) == Reloaded(table, data)
  {
    hide Reloaded, Holds, Settle;
    SaveLoad(table, data);
    var once := Reloaded(table, data);
    SaveLoad(table, once);
    var twice := Reloaded(table, once);
    forall a | 0 <= a < |once| ensures twice[a] == once[a] {
      if exists i :: 0 <= i < |table| && table[i].address == a {
        var i :| 0 <= i < |table| && table[i].address == a;
        assert Settled(table[i], data, once) && Settled(table[i], once, twice);
        SettleTwice(table[i], data[a]);
      }
    }
  }

  lemma SettleTwice(e: Entry, c: Cell)
    ensures Settle(e, Settle(e, c)) == Settle(e, c)
  {
    hide Cast, ToInt, InRange;
  }

  lemma {:induction false} AppendPrintable(ms: seq<Member>, m: Member)
    requires PrintableMembers(ms) && NulFree(m.key) && Printable(m.value) && MembersLevels(ms) == 0 &&
             Levels(m.value) == 0
    ensures PrintableMembers(ms + [m]) && MembersLevels(ms + [m]) == 0
    decreases |ms|
  {
    hide Printable, Levels;
    if ms != [] {
      assert (ms + [m])[1..] == ms[1..] + [m];
      AppendPrintable(ms[1..], m);
    } else {
      assert ms + [m] == [m] && [m][1..] == [];
    }
  }

  lemma {:induction false} SavedPrintable(table: seq<Entry>, data: seq<Cell>, n: nat)
    requires Fits(table, data) && n <= |table| && NamesNulFree(table)
    ensures PrintableMembers(Saved(table, data, n)) && MembersLevels(Saved(table, data, n)) == 0
    decreases n
  {
    hide SavedValue, Holds, PrintableMembers, MembersLevels, Printable, Levels;
    if n == 0 {
      NoMembers();
    } else {
      SavedPrintable(table, data, n - 1);
      var e := table[n - 1];
      assert Holds(e.kind, data[e.address]);
      if !e.kind.Other? {
        ValuePrintable(e, data[e.address]);
        AppendPrintable(Saved(table, data, n - 1), Member(e.name, SavedValue(e, data[e.address])));
      } else {
        assert Saved(table, data, n) == Saved(table, data, n - 1);
      }
    }
  }

  lemma NoMembers()
    ensures PrintableMembers([]) && MembersLevels([]) == 0
  {
  }

  lemma ValuePrintable(e: Entry, c: Cell)
    requires Holds(e.kind, c) && !e.kind.Other?
    ensures Printable(SavedValue(e, c)) && Levels(SavedValue(e, c)) == 0
  {
    hide ToInt;
  }

  lemma TreePrintable(table: seq<Entry>, data: seq<Cell>)
    requires Fits(table, data) && NamesNulFree(table)
    ensures Printable(SavedTree(table, data)) && Levels(SavedTree(table, data)) == 1
  {
    hide Saved;
    SavedPrintable(table, data, |table|);
  }

  /** The text written for the variables reads back as the tree they were saved to. */
  lemma FileRoundTrip(table: seq<Entry>, data: seq<Cell>)
    requires Fits(table, data) && NamesNulFree(table)
    ensures NulFree(FileText(table, data)) && TreeOf(Some(FileText(table, data))) == Some(SavedTree(table, data))
  {
    hide Serial, SavedTree, ParseDocument, Printable, Levels;
    TreePrintable(table, data);
    DocumentRoundTrip(SavedTree(table, data), true, false);
  }

  /** Entries whose variable comes back from a file. A string entry without room is left alone. */
  predicate Stored(e: Entry) { !e.kind.Other? && (e.kind.Str? ==> e.max > 1.0) }

  ghost predicate Restored(e: Entry, data: seq<Cell>, before: seq<Cell>, r: seq<Cell>) {
    && e.address < |data| && e.address < |before| == |r|
    && r[e.address] == if Stored(e) then Settle(e, data[e.address]) else before[e.address]
  }

  /** Through the file, across a restart: whatever the variables are when the file is loaded, those of the
      table get back what was saved, or the default where that was out of range; no other changes. */
  lemma FileReload(table: seq<Entry>, data: seq<Cell>, before: seq<Cell>)
    requires Fits(table, data) && DistinctEntries(table) && DistinctAddresses(table) && NamesNulFree(table)
    requires forall i :: 0 <= i < |table| ==> table[i].address < |before|
    ensures NulFree(FileText(table, data)) && Texts(table, TreeOf(Some(FileText(table, data))))
    ensures var r := Loaded(table, TreeOf(Some(FileText(table, data))), before, |table|);
            && (forall i :: 0 <= i < |table| ==> Restored(table[i], data, before, r))
            && (forall a :: 0 <= a < |before| && (forall i :: 0 <= i < |table| ==> table[i].address != a) ==>
                  r[a] == before[a])
  {
    hide Holds, Settle, LoadedCell, SavedTree, GetItem, SavedValue, TreeOf, FileText, NamesNulFree;
    FileRoundTrip(table, data);
    TreeTexts(table, data);
    var json := Some(SavedTree(table, data));
    LoadedAt(table, json, before, |table|);
    var r := Loaded(table, json, before, |table|);
    forall i | 0 <= i < |table| ensures Restored(table[i], data, before, r) {
      TreeItem(table, data, i);
      assert LoadedOne(table[i], json, before, r);
      CellRestored(table[i], data[table[i].address], before[table[i].address]);
    }
  }

  lemma CellRestored(e: Entry, c: Cell, was: Cell)
    requires Holds(e.kind, c)
    ensures LoadedCell(e, if e.kind.Other? then None else Some(SavedValue(e, c)), was) ==
            if Stored(e) then Settle(e, c) else was
  {
    if !e.kind.Other? {
      CellReload(e, c);
      hide Cast, ToInt, ValueInt;
    }
  }
}
