/** The open-addressed `hashtable_t` behind every kernel table, and the finite map it implements. */
module HashTable {
  import opened Common

  datatype Entry<T> = Entry(key: int, item: T)

  /** The table's cells: `used`, `keys` and `data` read together. */
  type Cells<T> = c: seq<Option<Entry<T>>> | |c| == TABLE_CAPACITY
    witness seq(TABLE_CAPACITY, _ => None)

  /** The `i`-th cell probed for a key. */
  function Probe(key: int, i: nat): (r: nat)
    ensures r < TABLE_CAPACITY
  {
    (key % TABLE_CAPACITY + i) % TABLE_CAPACITY
  }

  /** `hash` converts a signed key to an unsigned word first, which does not move its first cell. */
  lemma {:induction false} HashOfWord(key: int)
    ensures (key % WORD) % TABLE_CAPACITY == key % TABLE_CAPACITY
  {
    var k := key / WORD;
    assert key == k * WORD + key % WORD;
    assert k * WORD == (k * (WORD / TABLE_CAPACITY)) * TABLE_CAPACITY;
  }

  /** The wrapped probe visits every cell, each exactly once. */
  lemma {:induction false} ProbeVisits(key: int, cell: nat) returns (i: nat)
    requires cell < TABLE_CAPACITY
    ensures i < TABLE_CAPACITY && Probe(key, i) == cell
    ensures forall j :: 0 <= j < TABLE_CAPACITY && Probe(key, j) == cell ==> j == i
  {
    i := (cell - key % TABLE_CAPACITY) % TABLE_CAPACITY;
  }

  // ---------- Searches ----------

  /** The cell of the first unused probe from the `i`-th on. */
  function FindFree<T>(c: Cells<T>, key: int, i: nat): (r: Option<nat>)
    requires i <= TABLE_CAPACITY
    ensures r.Some? ==> r.value < TABLE_CAPACITY && c[r.value].None?
    ensures r.None? ==> forall j :: i <= j < TABLE_CAPACITY ==> c[Probe(key, j)].Some?
    decreases TABLE_CAPACITY - i
  {
    if i == TABLE_CAPACITY then None
    else if c[Probe(key, i)].None? then Some(Probe(key, i))
    else FindFree(c, key, i + 1)
  }

  /** The cell of the first probe from the `i`-th on that holds the key. */
  function FindKey<T>(c: Cells<T>, key: int, i: nat): (r: Option<nat>)
    requires i <= TABLE_CAPACITY
    ensures r.Some? ==> r.value < TABLE_CAPACITY && c[r.value].Some? && c[r.value].value.key == key
    ensures r.None? ==> forall j :: i <= j < TABLE_CAPACITY ==>
                          c[Probe(key, j)].None? || c[Probe(key, j)].value.key != key
    decreases TABLE_CAPACITY - i
  {
    if i == TABLE_CAPACITY then None
    else
      var cell := c[Probe(key, i)];
      if cell.Some? && cell.value.key == key then Some(Probe(key, i)) else FindKey(c, key, i + 1)
  }

  function Added<T>(c: Cells<T>, key: int, item: T): Cells<T> {
    match FindFree(c, key, 0)
    case None => c
    case Some(cell) => c[cell := Some(Entry(key, item))]
  }

  function Removed<T>(c: Cells<T>, key: int): Cells<T> {
    match FindKey(c, key, 0)
    case None => c
    case Some(cell) => c[cell := None]
  }

  /** A search misses only what is nowhere in the table. */
  lemma {:induction false} SearchesAreComplete<T>(c: Cells<T>, key: int)
    ensures FindFree(c, key, 0).None? <==> forall i :: 0 <= i < TABLE_CAPACITY ==> c[i].Some?
    ensures FindKey(c, key, 0).None? <==>
            forall i :: 0 <= i < TABLE_CAPACITY && c[i].Some? ==> c[i].value.key != key
  {
    forall cell | 0 <= cell < TABLE_CAPACITY
      ensures FindFree(c, key, 0).None? ==> c[cell].Some?
      ensures FindKey(c, key, 0).None? && c[cell].Some? ==> c[cell].value.key != key
    {
      var i := ProbeVisits(key, cell);
    }
  }

  // ---------- The map a table stands for ----------

  /** No key is stored twice. */
  ghost predicate Distinct<T>(c: seq<Option<Entry<T>>>) {
    forall i, j :: 0 <= i < j < |c| && c[i].Some? && c[j].Some? ==> c[i].value.key != c[j].value.key
  }

  /** The entries in cell order, the order in which `nth` counts. */
  function Listed<T>(c: seq<Option<Entry<T>>>): seq<Entry<T>> {
    if c == [] then []
    else Listed(c[..|c| - 1]) + if c[|c| - 1].Some? then [c[|c| - 1].value] else []
  }

  function Abs<T>(c: seq<Option<Entry<T>>>): map<int, T> {
    if c == [] then map[]
    else
      var m, last := Abs(c[..|c| - 1]), c[|c| - 1];
      if last.Some? then m[last.value.key := last.value.item] else m
  }

  ghost predicate Stores<T>(c: seq<Option<Entry<T>>>, key: int, item: T) {
    Some(Entry(key, item)) in c
  }

  lemma {:induction false} AbsMeaning<T>(c: seq<Option<Entry<T>>>, key: int)
    requires Distinct(c)
    ensures key in Abs(c) ==> Stores(c, key, Abs(c)[key])
    ensures forall i :: 0 <= i < |c| && c[i].Some? && c[i].value.key == key ==>
              key in Abs(c) && Abs(c)[key] == c[i].value.item
  {
    if c != [] {
      var front, last := c[..|c| - 1], c[|c| - 1];
      AbsMeaning(front, key);
      assert c == front + [last];
      if last.Some? && last.value.key == key {
        assert last in c;
      }
    }
  }

  /** The listing has one entry for each key. */
  lemma {:induction false} ListedMeaning<T>(c: seq<Option<Entry<T>>>)
    requires Distinct(c)
    ensures |Listed(c)| == |Abs(c)|
    ensures forall i :: 0 <= i < |Listed(c)| ==>
              Listed(c)[i].key in Abs(c) && Abs(c)[Listed(c)[i].key] == Listed(c)[i].item
    ensures forall i, j :: 0 <= i < j < |Listed(c)| ==> Listed(c)[i].key != Listed(c)[j].key
  {
    if c != [] {
      var front, last := c[..|c| - 1], c[|c| - 1];
      ListedMeaning(front);
      assert c == front + [last];
      if last.Some? {
        AbsMeaning(front, last.value.key);
        assert last.value.key !in Abs(front);
      }
    }
  }

  /** Writing one cell of a table adds to, or takes from, the map just that key. */
  lemma {:induction false} AbsFill<T>(c: seq<Option<Entry<T>>>, cell: nat, e: Entry<T>)
    requires cell < |c| && c[cell].None? && Distinct(c) && e.key !in Abs(c)
    ensures Distinct(c[cell := Some(e)]) && Abs(c[cell := Some(e)]) == Abs(c)[e.key := e.item]
  {
    var d := c[cell := Some(e)];
    AbsMeaning(c, e.key);
    var front := c[..|c| - 1];
    if cell == |c| - 1 {
      assert d[..|c| - 1] == front;
    } else {
      assert d[..|c| - 1] == front[cell := Some(e)];
      AbsMeaning(front, e.key);
      AbsFill(front, cell, e);
    }
  }

  lemma {:induction false} AbsClear<T>(c: seq<Option<Entry<T>>>, cell: nat)
    requires cell < |c| && c[cell].Some? && Distinct(c)
    ensures Distinct(c[cell := None]) && Abs(c[cell := None]) == Abs(c) - {c[cell].value.key}
  {
    var d, e := c[cell := None], c[cell].value;
    AbsMeaning(d, e.key);
    assert e.key !in Abs(d);
    assert d[cell := Some(e)] == c;
    AbsFill(d, cell, e);
  }

  /** As long as keys are fresh, adding is a map update that fails exactly on a full table. */
  lemma {:induction false} AddRefines<T>(c: Cells<T>, key: int, item: T)
    requires Distinct(c) && key !in Abs(c)
    ensures |Abs(c)| <= 256
    ensures FindFree(c, key, 0).None? <==> |Abs(c)| == 256
    ensures Distinct(Added(c, key, item)) && Abs(Added(c, key, item)) == TableAdd(Abs(c), key, item)
  {
    SearchesAreComplete(c, key);
    ListedMeaning(c);
    ListedLength(c);
    match FindFree(c, key, 0)
    case None =>
    case Some(cell) => AbsFill(c, cell, Entry(key, item));
  }

  lemma {:induction false} ListedLength<T>(c: seq<Option<Entry<T>>>)
    ensures |Listed(c)| <= |c|
    ensures |Listed(c)| == |c| <==> forall i :: 0 <= i < |c| ==> c[i].Some?
  {
    if c != [] {
      var front, last := c[..|c| - 1], c[|c| - 1];
      ListedLength(front);
      assert c == front + [last];
    }
  }

  /** Adding to a table with room keeps keys distinct exactly when the key is fresh. */
  lemma {:induction false} AddNeedsFreshKey<T>(c: Cells<T>, key: int, item: T)
    requires Distinct(c) && FindFree(c, key, 0).Some?
    ensures Distinct(Added(c, key, item)) <==> key !in Abs(c)
  {
    if key !in Abs(c) {
      AddRefines(c, key, item);
    } else {
      AbsMeaning(c, key);
      var i :| 0 <= i < |c| && c[i] == Some(Entry(key, Abs(c)[key]));
      var cell := FindFree(c, key, 0).value;
      assert Added(c, key, item)[i] == c[i] && Added(c, key, item)[cell] == Some(Entry(key, item));
    }
  }

  lemma {:induction false} GetRefines<T>(c: Cells<T>, key: int)
    requires Distinct(c)
    ensures FindKey(c, key, 0).Some? <==> key in Abs(c)
    ensures key in Abs(c) ==> c[FindKey(c, key, 0).value].value.item == Abs(c)[key]
  {
    SearchesAreComplete(c, key);
    AbsMeaning(c, key);
  }

  lemma {:induction false} RemoveRefines<T>(c: Cells<T>, key: int)
    requires Distinct(c)
    ensures Distinct(Removed(c, key)) && Abs(Removed(c, key)) == Abs(c) - {key}
  {
    GetRefines(c, key);
    match FindKey(c, key, 0)
    case None =>
    case Some(cell) => AbsClear(c, cell);
  }

  /** Writing through the address `get` returned updates the map at that key. */
  lemma {:induction false} UpdateRefines<T>(c: Cells<T>, key: int, item: T)
    requires Distinct(c) && key in Abs(c)
    ensures FindKey(c, key, 0).Some?
    ensures var c' := c[FindKey(c, key, 0).value := Some(Entry(key, item))];
            Distinct(c') && Abs(c') == Abs(c)[key := item]
  {
    GetRefines(c, key);
    var cell := FindKey(c, key, 0).value;
    AbsClear(c, cell);
    var cleared := c[cell := None];
    AbsFill(cleared, cell, Entry(key, item));
    assert cleared[cell := Some(Entry(key, item))] == c[cell := Some(Entry(key, item))];
  }

  // ---------- Histories ----------

  datatype Op<T> = Add(key: int, item: T) | Remove(key: int) | Get(key: int) | Size

  datatype Answer<T> = Done(ok: bool) | Found(item: T) | Absent | Count(n: nat)

  function TableStep<T>(c: Cells<T>, op: Op<T>): (Cells<T>, Answer<T>) {
    match op
    case Add(key, item) => (Added(c, key, item), Done(FindFree(c, key, 0).Some?))
    case Remove(key) => (Removed(c, key), Done(FindKey(c, key, 0).Some?))
    case Get(key) =>
      (c, match FindKey(c, key, 0) case None => Absent case Some(cell) => Found(c[cell].value.item))
    case Size => (c, Count(|Listed(c)|))
  }

  function MapStep<T>(m: map<int, T>, op: Op<T>): (map<int, T>, Answer<T>) {
    match op
    case Add(key, item) => (TableAdd(m, key, item), Done(|m| < TABLE_CAPACITY))
    case Remove(key) => (m - {key}, Done(key in m))
    case Get(key) => (m, if key in m then Found(m[key]) else Absent)
    case Size => (m, Count(|m|))
  }

  function TableRun<T>(c: Cells<T>, ops: seq<Op<T>>): seq<Answer<T>>
    decreases |ops|
  {
    if ops == [] then [] else [TableStep(c, ops[0]).1] + TableRun(TableStep(c, ops[0]).0, ops[1..])
  }

  function MapRun<T>(m: map<int, T>, ops: seq<Op<T>>): seq<Answer<T>>
    decreases |ops|
  {
    if ops == [] then [] else [MapStep(m, ops[0]).1] + MapRun(MapStep(m, ops[0]).0, ops[1..])
  }

  /** Every key is fresh when it is added, as with the kernel's counters. */
  predicate FreshAdds<T>(m: map<int, T>, ops: seq<Op<T>>)
    decreases |ops|
  {
    ops == [] || ((ops[0].Add? ==> ops[0].key !in m) && FreshAdds(MapStep(m, ops[0]).0, ops[1..]))
  }

  lemma {:induction false} StepRefines<T>(c: Cells<T>, op: Op<T>)
    requires Distinct(c) && (op.Add? ==> op.key !in Abs(c))
    ensures TableStep(c, op).1 == MapStep(Abs(c), op).1
    ensures Distinct(TableStep(c, op).0) && Abs(TableStep(c, op).0) == MapStep(Abs(c), op).0
  {
    match op
    case Add(key, item) => AddRefines(c, key, item);
    case Remove(key) => GetRefines(c, key); RemoveRefines(c, key);
    case Get(key) => GetRefines(c, key);
    case Size => ListedMeaning(c);
  }

  /** Under any history of fresh adds, removes and lookups the table answers as the finite map does. */
  lemma {:induction false} TableRefinesMap<T>(c: Cells<T>, ops: seq<Op<T>>)
    requires Distinct(c) && FreshAdds(Abs(c), ops)
    ensures TableRun(c, ops) == MapRun(Abs(c), ops)
    decreases |ops|
  {
    if ops != [] {
      StepRefines(c, ops[0]);
      TableRefinesMap(TableStep(c, ops[0]).0, ops[1..]);
    }
  }

  // ---------- The table ----------

  function CellsOf<T>(used: seq<bool>, keys: seq<int>, data: seq<T>): (c: Cells<T>)
    requires |used| == |keys| == |data| == TABLE_CAPACITY
    ensures forall i :: 0 <= i < TABLE_CAPACITY ==> c[i] == if used[i] then Some(Entry(keys[i], data[i])) else None
  {
    seq(TABLE_CAPACITY, i requires 0 <= i < TABLE_CAPACITY =>
          if used[i] then Some(Entry(keys[i], data[i])) else None)
  }

  lemma {:induction false} ListedFill<T>(c: seq<Option<Entry<T>>>, cell: nat, e: Entry<T>)
    requires cell < |c| && c[cell].None?
    ensures |Listed(c[cell := Some(e)])| == |Listed(c)| + 1
  {
    var front := c[..|c| - 1];
    if cell == |c| - 1 {
      assert c[cell := Some(e)][..|c| - 1] == front;
    } else {
      assert c[cell := Some(e)][..|c| - 1] == front[cell := Some(e)];
      ListedFill(front, cell, e);
    }
  }

  class Table<T(0)> {
    const used: array<bool>
    const keys: array<int>
    const data: array<T>
    var itemCount: nat

    ghost predicate Shaped() {
      && used.Length == keys.Length == data.Length == TABLE_CAPACITY
      && (data as object) != used && (data as object) != keys && (used as object) != keys
    }

    ghost function View(): Cells<T>
      requires Shaped()
      reads used, keys, data
    {
      CellsOf(used[..], keys[..], data[..])
    }

    ghost predicate Valid()
      reads this, used, keys, data
    {
      Shaped() && itemCount == |Listed(View())|
    }

    constructor ()
      ensures Valid() && fresh(used) && fresh(keys) && fresh(data)
      ensures View() == seq(TABLE_CAPACITY, _ => None)
    {
      used := new bool[TABLE_CAPACITY](_ => false);
      keys := new int[TABLE_CAPACITY];
      data := new T[TABLE_CAPACITY];
      itemCount := 0;
      new;
      assert View() == seq(TABLE_CAPACITY, _ => None);
      NothingListed<T>(TABLE_CAPACITY);
    }

    method Size() returns (n: nat)
      requires Valid()
      ensures n == |Listed(View())|
    {
      n := itemCount;
    }

    /** What `add` writes into the cell it found. */
    method Fill(index: nat, key: int, item: T)
      requires Valid() && index < TABLE_CAPACITY && View()[index].None?
      modifies this, used, keys, data
      ensures Valid() && View() == old(View())[index := Some(Entry(key, item))]
    {
      ListedFill(View(), index, Entry(key, item));
      used[index] := true;
      keys[index] := key;
      data[index] := item;
      itemCount := itemCount + 1;
      assert View() == old(View())[index := Some(Entry(key, item))];
    }

    method Add(key: int, item: T) returns (ok: bool)
      requires Valid()
      modifies this, used, keys, data
      ensures Valid() && View() == Added(old(View()), key, item)
      ensures ok == FindFree(old(View()), key, 0).Some?
    {
      var offset := key % TABLE_CAPACITY;
      ghost var c := View();
      for i := 0 to TABLE_CAPACITY
        invariant Valid() && View() == c
        invariant FindFree(c, key, 0) == FindFree(c, key, i)
      {
        var index := (offset + i) % TABLE_CAPACITY;
        assert index == Probe(key, i) && (c[index].Some? <==> used[index]);
        if !used[index] {
          Fill(index, key, item);
          return true;
        }
      }
      return false;
    }

    /** What `remove` does to the cell it found. */
    method Clear(index: nat)
      requires Valid() && index < TABLE_CAPACITY && View()[index].Some?
      modifies this, used
      ensures Valid() && View() == old(View())[index := None]
    {
      used[index] := false;
      assert View() == old(View())[index := None];
      assert old(View()) == View()[index := Some(Entry(keys[index], data[index]))];
      ListedFill(View(), index, Entry(keys[index], data[index]));
      itemCount := itemCount - 1;
    }

    method Remove(key: int) returns (ok: bool)
      requires Valid()
      modifies this, used
      ensures Valid() && View() == Removed(old(View()), key)
      ensures ok == FindKey(old(View()), key, 0).Some?
    {
      var offset := key % TABLE_CAPACITY;
      for i := 0 to TABLE_CAPACITY
        invariant unchanged(this, used)
        invariant FindKey(View(), key, 0) == FindKey(View(), key, i)
      {
        var index := (offset + i) % TABLE_CAPACITY;
        if keys[index] == key && used[index] {
          Clear(index);
          return true;
        }
      }
      return false;
    }

    /** The cell of the entry whose address the source returns. */
    method Get(key: int) returns (cell: Option<nat>)
      requires Valid()
      ensures cell == FindKey(View(), key, 0)
    {
      var offset := key % TABLE_CAPACITY;
      for i := 0 to TABLE_CAPACITY
        invariant FindKey(View(), key, 0) == FindKey(View(), key, i)
      {
        var index := (offset + i) % TABLE_CAPACITY;
        if keys[index] == key && used[index] {
          return Some(index);
        }
      }
      return None;
    }

    method Nth(index: nat) returns (item: Option<T>)
      requires Valid()
      ensures item == if index < |Listed(View())| then Some(Listed(View())[index].item) else None
    {
      var count := 0;
      for i := 0 to TABLE_CAPACITY
        invariant count == |Listed(View()[..i])| <= index
      {
        assert View()[..i + 1][..i] == View()[..i];
        if used[i] {
          if count == index {
            ListedPrefix(View(), i + 1);
            return Some(data[i]);
          } else {
            count := count + 1;
          }
        }
      }
      assert View()[..TABLE_CAPACITY] == View();
      return None;
    }
  }

  lemma {:induction false} ListedPrefix<T>(c: seq<Option<Entry<T>>>, n: nat)
    requires n <= |c|
    ensures Listed(c[..n]) <= Listed(c)
    decreases |c|
  {
    if n == |c| {
      assert c[..n] == c;
    } else {
      assert c[..|c| - 1][..n] == c[..n];
      ListedPrefix(c[..|c| - 1], n);
    }
  }

  lemma {:induction false} NothingListed<T>(n: nat)
    ensures Listed(seq<Option<Entry<T>>>(n, _ => None)) == []
  {
    if n > 0 {
      assert seq<Option<Entry<T>>>(n, _ => None)[..n - 1] == seq<Option<Entry<T>>>(n - 1, _ => None);
      NothingListed<T>(n - 1);
    }
  }
}
