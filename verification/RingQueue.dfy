/** The fixed-capacity ring buffer `_queue_t` and the bounded list it implements. */
module RingQueue {
  import opened Common

  /** The list model: pushing on a full queue loses the oldest item. */
  function Pushed<T>(s: seq<T>, item: T, capacity: nat): (r: seq<T>)
    requires |s| <= capacity && capacity > 0
    ensures |r| <= capacity
  {
    if |s| < capacity then s + [item] else s[1..] + [item]
  }

  /** The index `i` cells after `tail`, going round once. */
  function Around(tail: nat, i: nat, n: nat): (r: nat)
    requires tail < n && i <= n
    ensures r < n
  {
    if tail + i < n then tail + i else tail + i - n
  }

  lemma {:induction false} StepAround(a: nat, n: nat)
    requires a < n
    ensures (a + 1) % n == Around(a, 1, n)
  {
    if a + 1 == n {
      assert (a + 1) % n == 0;
    }
  }

  /** The `length` cells of a ring that start at `tail`. */
  function Window<T>(cells: seq<T>, tail: nat, length: nat): (w: seq<T>)
    requires tail < |cells| && length <= |cells|
    ensures |w| == length
  {
    seq(length, i requires 0 <= i < length => cells[Around(tail, i, |cells|)])
  }

  lemma {:induction false} WindowGrows<T>(cells: seq<T>, tail: nat, length: nat, item: T)
    requires tail < |cells| && length < |cells|
    ensures Window(cells[Around(tail, length, |cells|) := item], tail, length + 1) == Window(cells, tail, length) + [item]
  {
  }

  lemma {:induction false} WindowTurns<T>(cells: seq<T>, tail: nat, item: T)
    requires tail < |cells|
    ensures Window(cells[tail := item], Around(tail, 1, |cells|), |cells|)
            == Window(cells, tail, |cells|)[1..] + [item]
  {
  }

  lemma {:induction false} WindowPush<T>(cells: seq<T>, tail: nat, length: nat, item: T)
    requires tail < |cells| && length <= |cells|
    ensures var n := |cells|;
            if length < n then
              Window(cells[Around(tail, length, n) := item], tail, length + 1)
              == Pushed(Window(cells, tail, length), item, n)
            else
              Window(cells[tail := item], Around(tail, 1, n), n)
              == Pushed(Window(cells, tail, length), item, n)
  {
    if length < |cells| {
      WindowGrows(cells, tail, length, item);
    } else {
      WindowTurns(cells, tail, item);
    }
  }

  lemma {:induction false} WindowPop<T>(cells: seq<T>, tail: nat, length: nat)
    requires tail < |cells| && 0 < length <= |cells|
    ensures Window(cells, tail, length)[0] == cells[tail]
    ensures Window(cells, Around(tail, 1, |cells|), length - 1) == Window(cells, tail, length)[1..]
  {
  }

  class Queue<T(0)> {
    const items: array<T>
    var head: nat
    var tail: nat
    var length: nat

    /** `head` is the newest item; an empty queue has `head == tail`. */
    ghost predicate Valid()
      reads this
    {
      && length <= items.Length
      && tail < items.Length
      && head == if length == 0 then tail else Around(tail, length - 1, items.Length)
    }

    ghost function Contents(): (s: seq<T>)
      requires Valid()
      reads this, items
      ensures |s| == length
    {
      Window(items[..], tail, length)
    }

    constructor (capacity: nat)
      requires capacity > 0
      ensures Valid() && fresh(items) && items.Length == capacity && Contents() == []
    {
      items := new T[capacity];
      head, tail, length := 0, 0, 0;
    }

    method Push(item: T)
      requires Valid()
      modifies this, items
      ensures Valid()
      ensures Contents() == Pushed(old(Contents()), item, items.Length)
    {
      WindowPush(items[..], tail, length, item);
      if length != 0 {
        StepAround(head, items.Length);
        head := (head + 1) % items.Length;
        assert head == Around(tail, length, items.Length);
        if head == tail {
          StepAround(tail, items.Length);
          tail := (tail + 1) % items.Length;
        }
      }
      items[head] := item;
      assert items[..] == old(items[..])[head := item];
      if length < items.Length {
        length := length + 1;
      }
    }

    /** The caller must not pop an empty queue: `length` would wrap around. */
    method Pop() returns (item: T)
      requires Valid() && |Contents()| > 0
      modifies this
      ensures Valid()
      ensures item == old(Contents()[0]) && Contents() == old(Contents()[1..])
    {
      WindowPop(items[..], tail, length);
      length := length - 1;
      item := items[tail];
      if length != 0 {
        StepAround(tail, items.Length);
        tail := (tail + 1) % items.Length;
      }
    }

    method Len() returns (n: nat)
      requires Valid()
      ensures n == |Contents()|
    {
      n := length;
    }
  }

  // ---------- Histories ----------

  datatype Op<T> = Push(item: T) | Pop

  /** What a history leaves behind: the queue, what was popped, how many items a full queue lost. */
  datatype Outcome<T> = Outcome(contents: seq<T>, popped: seq<T>, lost: nat)

  function Pushes<T>(ops: seq<Op<T>>): seq<T> {
    if ops == [] then []
    else Pushes(ops[..|ops| - 1]) + if ops[|ops| - 1].Push? then [ops[|ops| - 1].item] else []
  }

  /** One operation after outcome `o`. */
  function After<T>(o: Outcome<T>, op: Op<T>, capacity: nat): (r: Option<Outcome<T>>)
    requires capacity > 0 && |o.contents| <= capacity
    ensures r.Some? ==> |r.value.contents| <= capacity
  {
    match op
    case Push(x) => Some(Outcome(Pushed(o.contents, x, capacity), o.popped,
                                 if |o.contents| < capacity then o.lost else o.lost + 1))
    case Pop => if o.contents == [] then None
                else Some(Outcome(o.contents[1..], o.popped + [o.contents[0]], o.lost))
  }

  /** `a` is `b` with some items left out. */
  ghost predicate Within<T>(a: seq<T>, b: seq<T>)
    decreases |b|
  {
    a == [] || (b != [] && (Within(a, b[..|b| - 1])
                            || (a[|a| - 1] == b[|b| - 1] && Within(a[..|a| - 1], b[..|b| - 1]))))
  }

  lemma {:induction false} WithinMore<T>(a: seq<T>, b: seq<T>, x: T)
    requires Within(a, b)
    ensures Within(a, b + [x]) && Within(a + [x], b + [x])
  {
    assert (b + [x])[..|b|] == b && (a + [x])[..|a|] == a;
  }

  /** `o` is a first-in first-out account of the pushed items `p`: the queue is what was pushed last, and
      what was popped is what was pushed before, in order, with the lost items left out. */
  ghost predicate IsFifo<T>(o: Outcome<T>, p: seq<T>) {
    && |o.popped| + o.lost + |o.contents| == |p|
    && o.contents == p[|p| - |o.contents|..]
    && Within(o.popped, p[..|p| - |o.contents|])
    && (o.lost == 0 ==> o.popped + o.contents == p)
  }

  /** Moving the boundary between what is settled and what is queued by one item. */
  lemma {:induction false} BoundaryMoves<T>(p: seq<T>, i: nat)
    requires i < |p|
    ensures p[i..][1..] == p[i + 1..] && p[i..] == [p[i]] + p[i + 1..]
    ensures p[..i + 1] == p[..i] + [p[i]]
  {
  }

  lemma {:induction false} FifoFits<T>(o: Outcome<T>, p: seq<T>, item: T)
    requires IsFifo(o, p)
    ensures IsFifo(o.(contents := o.contents + [item]), p + [item])
  {
    var i := |p| - |o.contents|;
    assert (p + [item])[..i] == p[..i] && (p + [item])[i..] == p[i..] + [item];
    assert o.popped + (o.contents + [item]) == o.popped + o.contents + [item];
  }

  lemma {:induction false} FifoLoses<T>(o: Outcome<T>, p: seq<T>, item: T)
    requires IsFifo(o, p) && o.contents != []
    ensures IsFifo(o.(contents := o.contents[1..] + [item], lost := o.lost + 1), p + [item])
  {
    var q, i := p + [item], |p| - |o.contents|;
    BoundaryMoves(p, i);
    WithinMore(o.popped, p[..i], p[i]);
    assert q[..i + 1] == p[..i + 1] && q[i + 1..] == p[i + 1..] + [item];
  }

  lemma {:induction false} FifoPush<T>(o: Outcome<T>, p: seq<T>, item: T, capacity: nat)
    requires capacity > 0 && |o.contents| <= capacity && IsFifo(o, p)
    ensures IsFifo(After(o, Push(item), capacity).value, p + [item])
  {
    if |o.contents| < capacity {
      FifoFits(o, p, item);
    } else {
      FifoLoses(o, p, item);
    }
  }

  lemma {:induction false} FifoPop<T>(o: Outcome<T>, p: seq<T>, capacity: nat)
    requires capacity > 0 && |o.contents| <= capacity && IsFifo(o, p) && o.contents != []
    ensures IsFifo(After(o, Pop, capacity).value, p)
  {
    var i := |p| - |o.contents|;
    BoundaryMoves(p, i);
    WithinMore(o.popped, p[..i], p[i]);
    assert o.popped + [o.contents[0]] + o.contents[1..] == o.popped + o.contents;
  }

  /** The history's outcome; None when some operation pops an empty queue. */
  function Run<T>(ops: seq<Op<T>>, capacity: nat): (r: Option<Outcome<T>>)
    requires capacity > 0
    ensures r.Some? ==> |r.value.contents| <= capacity
  {
    if ops == [] then Some(Outcome([], [], 0))
    else
      match Run(ops[..|ops| - 1], capacity)
      case None => None
      case Some(o) => After(o, ops[|ops| - 1], capacity)
  }

  /** Over any history the queue holds the newest pushed items in order, nothing is duplicated, and
      as long as no push met a full queue the items come out exactly as they went in. */
  lemma {:induction false} HistoryIsFifo<T>(ops: seq<Op<T>>, capacity: nat)
    requires capacity > 0 && Run(ops, capacity).Some?
    ensures IsFifo(Run(ops, capacity).value, Pushes(ops))
  {
    if ops != [] {
      var before := ops[..|ops| - 1];
      HistoryIsFifo(before, capacity);
      var o, p := Run(before, capacity).value, Pushes(before);
      match ops[|ops| - 1] {
        case Push(item) => FifoPush(o, p, item, capacity);
        case Pop =>
          FifoPop(o, p, capacity);
          assert p + [] == p;
      }
    }
  }
}
