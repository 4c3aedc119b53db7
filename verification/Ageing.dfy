/** The ageing loop of `scheduler_increment` on its queue of tasks, and what it computes. */
module Ageing {

  /** A schedulable task: its thread, its priority, and the countdown `cpriority`. */
  datatype Task = Task(thread: int, priority: int, cpriority: int)

  /** The task chosen, the queue left behind, and the number of pops it took. */
  datatype Pick = Pick(task: Task, rest: seq<Task>, pops: nat)

  /** Storing an `int` in a `short`. */
  function ToShort(x: int): (r: int)
    ensures -0x8000 <= r < 0x8000 && (r - x) % 0x1_0000 == 0
  {
    (x + 0x8000) % 0x1_0000 - 0x8000
  }

  /** Turns the task still has to wait; a negative countdown counts as zero. */
  function Wait(t: Task): nat {
    if t.cpriority <= 0 then 0 else t.cpriority
  }

  function TotalWait(q: seq<Task>): nat {
    if q == [] then 0 else Wait(q[0]) + TotalWait(q[1..])
  }

  lemma {:induction false} TotalWaitAppend(q: seq<Task>, t: Task)
    ensures TotalWait(q + [t]) == TotalWait(q) + Wait(t)
  {
    if q == [] {
      assert [] + [t] == [t];
    } else {
      assert (q + [t])[1..] == q[1..] + [t];
      TotalWaitAppend(q[1..], t);
    }
  }

  function Tick(t: Task): Task {
    t.(cpriority := t.cpriority - 1)
  }

  function Requeued(q: seq<Task>): seq<Task>
    requires q != []
  {
    q[1..] + [Tick(q[0])]
  }

  /** The loop: pop, and either stop or count down and push back. */
  function Age(q: seq<Task>): Pick
    requires q != []
    decreases TotalWait(q)
  {
    if q[0].cpriority <= 0 then Pick(q[0], q[1..], 1)
    else
      TotalWaitAppend(q[1..], Tick(q[0]));
      var p := Age(Requeued(q));
      p.(pops := p.pops + 1)
  }

  // ---------- Closed form ----------

  function LowerBy(t: Task, n: int): Task {
    t.(cpriority := t.cpriority - n)
  }

  function Lower(q: seq<Task>, n: nat): (r: seq<Task>)
    ensures |r| == |q|
  {
    seq(|q|, i requires 0 <= i < |q| => LowerBy(q[i], n))
  }

  /** `k` is the leftmost task with the least wait. */
  ghost predicate IsNext(q: seq<Task>, k: nat) {
    && k < |q|
    && (forall j :: 0 <= j < |q| ==> Wait(q[k]) <= Wait(q[j]))
    && (forall j :: 0 <= j < k ==> Wait(q[k]) < Wait(q[j]))
  }

  lemma {:induction false} NextExists(q: seq<Task>) returns (k: nat)
    requires q != []
    ensures IsNext(q, k)
  {
    if |q| == 1 {
      k := 0;
    } else {
      var last := |q| - 1;
      k := NextExists(q[..last]);
      assert forall j :: 0 <= j < last ==> q[..last][j] == q[j];
      if Wait(q[last]) < Wait(q[k]) {
        k := last;
      }
    }
  }

  /** The queue `r` full rounds and `i` pops into the loop. */
  function Turned(q: seq<Task>, r: nat, i: nat): (t: seq<Task>)
    requires i <= |q|
    ensures |t| == |q|
    ensures forall x :: 0 <= x < |q| - i ==> t[x] == LowerBy(q[i + x], r)
    ensures forall x :: |q| - i <= x < |q| ==> t[x] == LowerBy(q[x - (|q| - i)], r + 1)
  {
    Lower(q[i..], r) + Lower(q[..i], r + 1)
  }

  lemma {:induction false} TurnOnce(q: seq<Task>, r: nat, i: nat)
    requires i + 1 < |q|
    ensures Requeued(Turned(q, r, i)) == Turned(q, r, i + 1)
  {
    var a, b := Requeued(Turned(q, r, i)), Turned(q, r, i + 1);
    forall x | 0 <= x < |q|
      ensures a[x] == b[x]
    {
    }
  }

  lemma {:induction false} TurnRound(q: seq<Task>, r: nat)
    requires q != []
    ensures Requeued(Turned(q, r, |q| - 1)) == Turned(q, r + 1, 0)
  {
    var a, b := Requeued(Turned(q, r, |q| - 1)), Turned(q, r + 1, 0);
    forall x | 0 <= x < |q|
      ensures a[x] == b[x]
    {
    }
  }

  /** The queue left when the `k`-th task is chosen after `m` rounds. */
  function Settled(q: seq<Task>, k: nat, m: nat): seq<Task>
    requires k < |q|
  {
    Lower(q[k + 1..], m) + Lower(q[..k], m + 1)
  }

  lemma {:induction false} TurnedSettles(q: seq<Task>, k: nat, m: nat)
    requires k < |q|
    ensures Turned(q, m, k)[1..] == Settled(q, k, m)
  {
    var t, s := Turned(q, m, k)[1..], Settled(q, k, m);
    assert |t| == |s|;
    forall x | 0 <= x < |q| - 1
      ensures t[x] == s[x]
    {
    }
  }

  /** The pops of whole rounds through `n` tasks. */
  function PopsOf(rounds: nat, n: nat): nat {
    if rounds == 0 then 0 else PopsOf(rounds - 1, n) + n
  }

  lemma {:induction false} PopsAreProduct(rounds: nat, n: nat)
    ensures PopsOf(rounds, n) == rounds * n
  {
    if rounds > 0 {
      PopsAreProduct(rounds - 1, n);
      assert rounds * n == (rounds - 1) * n + n;
    }
  }

  lemma {:induction false} AgeOnce(t: seq<Task>)
    requires t != []
    ensures t[0].cpriority <= 0 ==> Age(t) == Pick(t[0], t[1..], 1)
    ensures t[0].cpriority > 0 ==>
              Age(t) == Age(Requeued(t)).(pops := Age(Requeued(t)).pops + 1)
  {
  }

  /** At `r` rounds and `i` pops the front task is chosen exactly when it is the next. */
  lemma {:induction false} FrontWaits(q: seq<Task>, k: nat, r: nat, i: nat)
    requires IsNext(q, k) && i < |q|
    requires r < Wait(q[k]) || (r == Wait(q[k]) && i <= k)
    ensures Turned(q, r, i)[0] == LowerBy(q[i], r)
    ensures Turned(q, r, i)[0].cpriority <= 0 <==> r == Wait(q[k]) && i == k
  {
  }

  lemma {:induction false} AgeFrom(q: seq<Task>, k: nat, r: nat, i: nat)
    requires IsNext(q, k) && i < |q|
    requires r < Wait(q[k]) || (r == Wait(q[k]) && i <= k)
    ensures var p := Age(Turned(q, r, i));
            && p.task == LowerBy(q[k], Wait(q[k])) && p.rest == Settled(q, k, Wait(q[k]))
            && p.pops + i == PopsOf(Wait(q[k]) - r, |q|) + k + 1
    decreases Wait(q[k]) - r, |q| - i
  {
    var t, m := Turned(q, r, i), Wait(q[k]);
    FrontWaits(q, k, r, i);
    AgeOnce(t);
    if r == m && i == k {
      TurnedSettles(q, k, m);
    } else if i + 1 < |q| {
      TurnOnce(q, r, i);
      AgeFrom(q, k, r, i + 1);
    } else {
      TurnRound(q, r);
      AgeFrom(q, k, r + 1, 0);
    }
  }

  /** The loop terminates on every non-empty queue, chooses the leftmost task of least wait `m`, and
      lowers the tasks behind it by `m` and those before it, now at the back, by `m + 1`. */
  lemma {:induction false} ClosedForm(q: seq<Task>, k: nat)
    requires IsNext(q, k)
    ensures var m := Wait(q[k]);
            Age(q) == Pick(LowerBy(q[k], m), Lower(q[k + 1..], m) + Lower(q[..k], m + 1), m * |q| + k + 1)
  {
    assert Turned(q, 0, 0) == q;
    AgeFrom(q, k, 0, 0);
    PopsAreProduct(Wait(q[k]), |q|);
  }

  // ---------- Conservation ----------

  function Threads(q: seq<Task>): (r: seq<int>)
    ensures |r| == |q|
  {
    seq(|q|, i requires 0 <= i < |q| => q[i].thread)
  }

  lemma {:induction false} ThreadsSplit(q: seq<Task>, r: seq<Task>)
    ensures Threads(q + r) == Threads(q) + Threads(r)
  {
  }

  lemma {:induction false} ThreadsHead(q: seq<Task>)
    requires q != []
    ensures multiset(Threads(q)) == multiset{q[0].thread} + multiset(Threads(q[1..]))
  {
    assert q == [q[0]] + q[1..];
    ThreadsSplit([q[0]], q[1..]);
    assert Threads([q[0]]) == [q[0].thread];
  }

  lemma {:induction false} ThreadsTurn(q: seq<Task>)
    requires q != []
    ensures multiset(Threads(Requeued(q))) == multiset(Threads(q))
  {
    ThreadsHead(q);
    ThreadsSplit(q[1..], [Tick(q[0])]);
    assert Threads([Tick(q[0])]) == [q[0].thread];
  }

  /** No task is lost or duplicated by a choice. */
  lemma {:induction false} AgeConserves(q: seq<Task>)
    requires q != []
    ensures multiset(Threads(Age(q).rest)) + multiset{Age(q).task.thread} == multiset(Threads(q))
    ensures |Age(q).rest| + 1 == |q|
    decreases TotalWait(q)
  {
    if q[0].cpriority <= 0 {
      ThreadsHead(q);
    } else {
      TotalWaitAppend(q[1..], Tick(q[0]));
      ThreadsTurn(q);
      AgeConserves(Requeued(q));
    }
  }

  // ---------- Starvation ----------

  /** Position of thread `t`'s first task. */
  function Position(q: seq<Task>, t: int): (i: nat)
    requires t in Threads(q)
    ensures i < |q| && q[i].thread == t
    ensures forall j :: 0 <= j < i ==> q[j].thread != t
  {
    if q[0].thread == t then 0
    else
      assert Threads(q)[1..] == Threads(q[1..]);
      assert t in Threads(q)[1..];
      1 + Position(q[1..], t)
  }

  /** An upper bound on the pops before thread `t` is chosen, in a queue of at most 256 tasks. */
  function Rank(q: seq<Task>, t: int): nat
    requires t in Threads(q)
  {
    Wait(q[Position(q, t)]) * 256 + Position(q, t)
  }

  lemma {:induction false} PositionIs(q: seq<Task>, t: int, i: nat)
    requires i < |q| && q[i].thread == t && (forall j :: 0 <= j < i ==> q[j].thread != t)
    ensures t in Threads(q) && Position(q, t) == i
  {
    assert Threads(q)[i] == t;
  }

  lemma {:induction false} PositionAppend(q: seq<Task>, t: int, more: seq<Task>)
    requires t in Threads(q)
    ensures t in Threads(q + more) && Rank(q + more, t) == Rank(q, t)
  {
    PositionIs(q + more, t, Position(q, t));
  }

  /** A pop either chooses `t` or brings it nearer. */
  lemma {:induction false} TurnLowersRank(q: seq<Task>, t: int)
    requires t in Threads(q) && multiset(Threads(q))[t] <= 1 && |q| <= 256
    requires q[0].cpriority > 0 || q[0].thread != t
    ensures q[0].cpriority > 0 ==>
              var next := Requeued(q);
              t in Threads(next) && Rank(next, t) < Rank(q, t)
    ensures q[0].cpriority <= 0 ==> t in Threads(q[1..]) && Rank(q[1..], t) < Rank(q, t)
  {
    var i := Position(q, t);
    if i > 0 {
      PositionIs(q[1..], t, i - 1);
      PositionAppend(q[1..], t, [Tick(q[0])]);
    } else {
      ThreadsHead(q);
      var next := Requeued(q);
      forall j | 0 <= j < |q| - 1
        ensures next[j].thread != t
      {
        assert Threads(q[1..])[j] == next[j].thread;
      }
      PositionIs(next, t, |q| - 1);
    }
  }

  lemma {:induction false} AgeLowersRank(q: seq<Task>, t: int)
    requires t in Threads(q) && multiset(Threads(q))[t] <= 1 && |q| <= 256
    ensures Age(q).task.thread == t
            || (t in Threads(Age(q).rest) && Rank(Age(q).rest, t) + Age(q).pops <= Rank(q, t))
    decreases TotalWait(q)
  {
    if q[0].cpriority > 0 {
      TurnLowersRank(q, t);
      TotalWaitAppend(q[1..], Tick(q[0]));
      ThreadsTurn(q);
      AgeLowersRank(q[1..] + [Tick(q[0])], t);
    } else if q[0].thread != t {
      TurnLowersRank(q, t);
    }
  }
}
