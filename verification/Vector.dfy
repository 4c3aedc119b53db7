/** The growable `vector_t` and its capacity discipline. */
module Vector {
  import opened Common

  /** The capacities a vector can have: none, or a power of two. */
  predicate IsCapacity(n: nat)
    decreases n
  {
    n <= 1 || (n % 2 == 0 && IsCapacity(n / 2))
  }

  /** Capacity after a push or a pop, from the size and capacity before it. */
  function PushCapacity(size: nat, capacity: nat): nat {
    if size < capacity then capacity else if capacity == 0 then 1 else 2 * capacity
  }

  function PopCapacity(size: nat, capacity: nat): nat
    requires size > 0
  {
    if size - 1 <= capacity / 2 then capacity / 2 else capacity
  }

  /** More than half of the storage is in use, and all of it when it has never grown. */
  predicate Tight(size: nat, capacity: nat) {
    size <= capacity && IsCapacity(capacity) && (capacity < 2 * size || size == capacity == 0)
  }

  /** Pushing and popping keep storage tight, so it never exceeds twice the size. */
  lemma {:induction false} StaysTight(size: nat, capacity: nat)
    requires Tight(size, capacity)
    ensures Tight(size + 1, PushCapacity(size, capacity))
    ensures size > 0 ==> Tight(size - 1, PopCapacity(size, capacity))
  {
    assert IsCapacity(2 * capacity) <== capacity > 0;
    if size > 0 {
      assert IsCapacity(capacity / 2);
      assert capacity > 1 ==> capacity % 2 == 0;
    }
  }

  /** A pop that gives storage back leaves the vector exactly full, so the next push grows it again. */
  lemma {:induction false} ShrinkLeavesFull(size: nat, capacity: nat)
    requires Tight(size, capacity) && size > 0 && PopCapacity(size, capacity) < capacity
    ensures PopCapacity(size, capacity) == size - 1
    ensures PushCapacity(size - 1, PopCapacity(size, capacity)) > PopCapacity(size, capacity)
  {
    assert capacity > 1 ==> capacity % 2 == 0;
  }

  // ---------- Reallocations over a history ----------

  datatype Op = Push | Pop

  /** Size and capacity after a history; a pop of an empty vector panics and is not part of one. */
  function Sizes(size: nat, capacity: nat, ops: seq<Op>): (nat, nat)
    decreases |ops|
  {
    if ops == [] then (size, capacity)
    else if ops[0].Push? then Sizes(size + 1, PushCapacity(size, capacity), ops[1..])
    else if size == 0 then (size, capacity)
    else Sizes(size - 1, PopCapacity(size, capacity), ops[1..])
  }

  function Reallocations(size: nat, capacity: nat, ops: seq<Op>): nat
    decreases |ops|
  {
    if ops == [] || (ops[0].Pop? && size == 0) then 0
    else
      var after := if ops[0].Push? then PushCapacity(size, capacity) else PopCapacity(size, capacity);
      (if after != capacity then 1 else 0)
      + Reallocations(if ops[0].Push? then size + 1 else size - 1, after, ops[1..])
  }

  lemma {:induction false} HistoryStaysTight(size: nat, capacity: nat, ops: seq<Op>)
    requires Tight(size, capacity)
    ensures Tight(Sizes(size, capacity, ops).0, Sizes(size, capacity, ops).1)
    decreases |ops|
  {
    if ops != [] {
      StaysTight(size, capacity);
      if ops[0].Push? {
        HistoryStaysTight(size + 1, PushCapacity(size, capacity), ops[1..]);
      } else if size > 0 {
        HistoryStaysTight(size - 1, PopCapacity(size, capacity), ops[1..]);
      }
    }
  }

  function Alternating(k: nat): seq<Op> {
    if k == 0 then [] else [Push, Pop] + Alternating(k - 1)
  }

  /** Pushing and popping in turn moves the whole storage every single time at a full vector, a new one
      included, and never at any other: the cost is not amortized. */
  lemma {:induction false} Thrashing(size: nat, capacity: nat, k: nat)
    requires Tight(size, capacity)
    ensures Reallocations(size, capacity, Alternating(k)) == if size == capacity then 2 * k else 0
  {
    if k > 0 {
      var ops := Alternating(k);
      assert ops[1..][0] == Pop && ops[1..][1..] == Alternating(k - 1);
      assert capacity > 1 ==> capacity % 2 == 0;
      Thrashing(size, capacity, k - 1);
    }
  }

  // ---------- The vector ----------

  class Vec<T(0)> {
    var arr: array<T>
    var ccapacity: nat
    var csize: nat

    ghost predicate Valid()
      reads this
    {
      arr.Length == ccapacity && Tight(csize, ccapacity)
    }

    ghost function Contents(): (s: seq<T>)
      requires csize <= arr.Length
      reads this, arr
      ensures |s| == csize
    {
      arr[..csize]
    }

    constructor ()
      ensures Valid() && fresh(arr) && Contents() == []
    {
      arr := new T[0];
      ccapacity, csize := 0, 0;
    }

    /** `__copy`: own storage of the same capacity, or none for an empty vector. */
    constructor Copy(other: Vec<T>)
      requires other.Valid()
      ensures Valid() && fresh(arr) && Contents() == other.Contents()
    {
      var size := other.csize;
      var capacity := if size > 0 then other.ccapacity else 0;
      var storage := new T[capacity];
      for i := 0 to size
        invariant storage[..i] == other.Contents()[..i]
      {
        storage[i] := other.arr[i];
      }
      arr, ccapacity, csize := storage, capacity, size;
      new;
      assert arr[..csize] == other.Contents();
    }

    /** The new storage must have room for the items: the source copies all of them. */
    method Resize(size: nat)
      requires csize <= arr.Length && csize <= size
      modifies this
      ensures fresh(arr) && arr.Length == size == ccapacity
      ensures csize == old(csize) && Contents() == old(Contents())
    {
      var storage := new T[size];
      ghost var items := Contents();
      for i := 0 to csize
        invariant csize == old(csize) && arr == old(arr) && Contents() == items
        invariant storage[..i] == items[..i]
      {
        storage[i] := arr[i];
      }
      arr, ccapacity := storage, size;
      assert Contents() == items;
    }

    method Push(item: T)
      requires Valid()
      modifies this, arr
      ensures Valid() && (arr == old(arr) || fresh(arr))
      ensures Contents() == old(Contents()) + [item]
      ensures ccapacity == PushCapacity(old(csize), old(ccapacity))
    {
      StaysTight(csize, ccapacity);
      if csize >= ccapacity {
        Resize(if ccapacity * 2 > 1 then ccapacity * 2 else 1);
      }
      ghost var items := Contents();
      arr[csize] := item;
      csize := csize + 1;
      assert arr[..csize - 1] == items;
    }

    /** Popping an empty vector panics. */
    method Pop() returns (item: Option<T>)
      requires Valid()
      modifies this
      ensures Valid() && (arr == old(arr) || fresh(arr))
      ensures old(csize) == 0 ==> item == None && Contents() == []
      ensures old(csize) > 0 ==>
                && item == Some(old(Contents()[csize - 1])) && Contents() == old(Contents()[..csize - 1])
                && ccapacity == PopCapacity(old(csize), old(ccapacity))
    {
      if csize <= 0 {
        return None;
      }
      StaysTight(csize, ccapacity);
      item := Some(arr[csize - 1]);
      csize := csize - 1;
      if csize <= ccapacity / 2 {
        Resize(ccapacity / 2);
      }
    }
  }
}
