/** The xchg spinlock as a protocol of any number of threads, with the calls that rely on it:
    `create_inode`, which hands out identifiers, and `is_locked`. */
module Spinlock {
  datatype Call = CreateInode | IsLocked

  /** Where a thread is. `rax` is the register that `xchg` exchanges with the lock word. */
  datatype Pc =
    | Outside
    | Trying(call: Call, rax: nat)  // about to exchange
    | Testing(call: Call, rax: nat)  // about to test what it got
    | Reading  // `create_inode`, about to read the counter
    | Bumping(nid: nat)  // about to write the counter back
    | Adding(nid: nat)  // about to enter the inode into the table
    | Unlocking(nid: nat)  // about to exchange 0
    | Peeking  // `is_locked`, about to read the lock word
    | TryingAgain(rax: nat)  // in its second call of `lock`
    | TestingAgain(rax: nat)

  /** `issued` lists the identifiers in the order in which calls of `create_inode` returned them. */
  datatype State = State(word: nat, counter: nat, table: seq<nat>, issued: seq<nat>, pcs: seq<Pc>)

  function Initial(threads: nat): State {
    State(0, 0, [], [], seq(threads, _ => Outside))
  }

  function Goes(s: State, t: nat, pc: Pc): State
    requires t < |s.pcs|
  {
    s.(pcs := s.pcs[t := pc])
  }

  /** One atomic step of thread `t`; a thread outside starts the given call. */
  function Step(s: State, t: nat, call: Call): (s': State)
    requires t < |s.pcs|
    ensures |s'.pcs| == |s.pcs|
  {
    match s.pcs[t]
    case Outside => Goes(s, t, Trying(call, 1))
    case Trying(c, rax) => Goes(s, t, Testing(c, s.word)).(word := rax)
    case Testing(c, rax) =>
      Goes(s, t, if rax != 0 then Trying(c, rax) else if c.CreateInode? then Reading else Peeking)
    case Reading => Goes(s, t, Bumping(s.counter))
    case Bumping(nid) => Goes(s, t, Adding(nid)).(counter := nid + 1)
    case Adding(nid) => Goes(s, t, Unlocking(nid)).(table := s.table + [nid])
    case Unlocking(nid) => Goes(s, t, Outside).(word := 0, issued := s.issued + [nid])
    case Peeking => Goes(s, t, TryingAgain(1))
    case TryingAgain(rax) => Goes(s, t, TestingAgain(s.word)).(word := rax)
    case TestingAgain(rax) => Goes(s, t, if rax != 0 then TryingAgain(rax) else Outside)
  }

  datatype Turn = Turn(thread: nat, call: Call)

  predicate Schedule(s: State, turns: seq<Turn>) {
    forall i :: 0 <= i < |turns| ==> turns[i].thread < |s.pcs|
  }

  function Exec(s: State, turns: seq<Turn>): (s': State)
    requires Schedule(s, turns)
    ensures |s'.pcs| == |s.pcs|
    decreases |turns|
  {
    if turns == [] then s else Exec(Step(s, turns[0].thread, turns[0].call), turns[1..])
  }

  /** The thread owns the lock. */
  predicate Holds(pc: Pc) {
    match pc
    case Testing(_, rax) => rax == 0
    case Outside => false
    case Trying(_, _) => false
    case _ => true
  }

  const NOBODY: int := -1

  /** `h` is the one holder, if there is one. */
  ghost predicate HeldBy(s: State, h: int) {
    && NOBODY <= h < |s.pcs|
    && s.word == (if h == NOBODY then 0 else 1)
    && (forall t :: 0 <= t < |s.pcs| ==> (Holds(s.pcs[t]) <==> t == h))
  }

  /** A thread always exchanges a 1, and what it gets is 0 or 1. */
  predicate Exchanges(pc: Pc) {
    match pc
    case Trying(_, rax) => rax == 1
    case TryingAgain(rax) => rax == 1
    case Testing(_, rax) => rax <= 1
    case TestingAgain(rax) => rax == 1
    case _ => true
  }

  ghost predicate Exclusive(s: State, h: int) {
    HeldBy(s, h) && forall t :: 0 <= t < |s.pcs| ==> Exchanges(s.pcs[t])
  }

  predicate Distinct(ids: seq<nat>) {
    forall i, j :: 0 <= i < j < |ids| ==> ids[i] != ids[j]
  }

  predicate Below(ids: seq<nat>, n: nat) {
    forall i :: 0 <= i < |ids| ==> ids[i] < n
  }

  /** How the identifiers handed out, the table and the counter are related, given what the holder
      is doing. */
  predicate Counted(s: State, doing: Pc) {
    && Distinct(s.issued) && Distinct(s.table) && Below(s.issued, s.counter) && Below(s.table, s.counter)
    && (forall i :: 0 <= i < |s.issued| ==> s.issued[i] in s.table)
    && match doing
       case Bumping(nid) => nid == s.counter
       case Adding(nid) => nid < s.counter && nid !in s.issued && nid !in s.table
       case Unlocking(nid) => nid < s.counter && nid !in s.issued && nid in s.table
       case _ => true
  }

  function Doing(s: State, h: int): Pc
    requires NOBODY <= h < |s.pcs|
  {
    if h == NOBODY then Outside else s.pcs[h]
  }

  ghost predicate Good(s: State, h: int) {
    Exclusive(s, h) && Counted(s, Doing(s, h))
  }

  /** Who holds the lock after thread `t`'s step. */
  function NextHolder(s: State, h: int, t: nat): int
    requires t < |s.pcs|
  {
    match s.pcs[t]
    case Trying(_, _) => if s.word == 0 then t else h
    case Unlocking(_) => NOBODY
    case _ => h
  }

  lemma {:induction false} StepExclusive(s: State, h: int, t: nat, call: Call)
    requires Exclusive(s, h) && t < |s.pcs|
    ensures Exclusive(Step(s, t, call), NextHolder(s, h, t))
  {
    var s', h' := Step(s, t, call), NextHolder(s, h, t);
    forall u | 0 <= u < |s.pcs|
      ensures (Holds(s'.pcs[u]) <==> u == h') && Exchanges(s'.pcs[u])
    {
      assert Exchanges(s.pcs[u]) && Exchanges(s.pcs[t]);
      assert Holds(s.pcs[u]) <==> u == h;
      assert Holds(s.pcs[t]) <==> t == h;
    }
  }

  lemma {:induction false} StepCounted(s: State, h: int, t: nat, call: Call)
    requires Good(s, h) && t < |s.pcs|
    ensures Counted(Step(s, t, call), Doing(Step(s, t, call), NextHolder(s, h, t)))
  {
    assert Holds(s.pcs[t]) <==> t == h;
    assert Exchanges(s.pcs[t]);
  }

  lemma {:induction false} RunIsGood(s: State, h: int, turns: seq<Turn>) returns (h': int)
    requires Good(s, h) && Schedule(s, turns)
    ensures Good(Exec(s, turns), h')
    decreases |turns|
  {
    if turns == [] {
      h' := h;
    } else {
      StepExclusive(s, h, turns[0].thread, turns[0].call);
      StepCounted(s, h, turns[0].thread, turns[0].call);
      h' := RunIsGood(Step(s, turns[0].thread, turns[0].call), NextHolder(s, h, turns[0].thread), turns[1..]);
    }
  }

  /** For any number of threads and any interleaving: two threads never hold the lock together, the
      word is 1 exactly when one holds it, and no two calls of `create_inode` return the same identifier. */
  lemma {:induction false} MutualExclusion(threads: nat, turns: seq<Turn>)
    requires Schedule(Initial(threads), turns)
    ensures var s := Exec(Initial(threads), turns);
            && (forall t, u :: 0 <= t < |s.pcs| && 0 <= u < |s.pcs| && Holds(s.pcs[t]) && Holds(s.pcs[u]) ==> t == u)
            && (s.word == 0 <==> forall t :: 0 <= t < |s.pcs| ==> !Holds(s.pcs[t]))
            && Distinct(s.issued)
            && (forall i :: 0 <= i < |s.issued| ==> s.issued[i] in s.table)
  {
    var h := RunIsGood(Initial(threads), NOBODY, turns);
    var s := Exec(Initial(threads), turns);
    assert h != NOBODY ==> Holds(s.pcs[h]);
  }

  // ---------- No call is lost ----------

  /** Between the first step of `create_inode` and its return. */
  predicate CallsCreateInode(pc: Pc) {
    match pc
    case Outside => false
    case Trying(call, _) => call.CreateInode?
    case Testing(call, _) => call.CreateInode?
    case Peeking => false
    case TryingAgain(_) => false
    case TestingAgain(_) => false
    case _ => true
  }

  function One(b: bool): nat { if b then 1 else 0 }

  /** How many threads are in `create_inode`. */
  function Calling(pcs: seq<Pc>): nat {
    if pcs == [] then 0 else Calling(pcs[..|pcs| - 1]) + One(CallsCreateInode(pcs[|pcs| - 1]))
  }

  lemma {:induction false} CallingUpdate(pcs: seq<Pc>, t: nat, pc: Pc)
    requires t < |pcs|
    ensures Calling(pcs[t := pc]) + One(CallsCreateInode(pcs[t])) == Calling(pcs) + One(CallsCreateInode(pc))
    decreases |pcs|
  {
    var last := |pcs| - 1;
    if t < last {
      assert pcs[t := pc][..last] == pcs[..last][t := pc];
      CallingUpdate(pcs[..last], t, pc);
    } else {
      assert pcs[t := pc][..last] == pcs[..last];
    }
  }

  /** How many calls of `create_inode` begin. */
  function Begun(s: State, turns: seq<Turn>): nat
    requires Schedule(s, turns)
    decreases |turns|
  {
    if turns == [] then 0
    else
      var t, call := turns[0].thread, turns[0].call;
      One(s.pcs[t].Outside? && call.CreateInode?) + Begun(Step(s, t, call), turns[1..])
  }

  lemma {:induction false} StepLosesNone(s: State, t: nat, call: Call)
    requires t < |s.pcs|
    ensures var s' := Step(s, t, call);
            |s'.issued| + Calling(s'.pcs) == |s.issued| + Calling(s.pcs) + One(s.pcs[t].Outside? && call.CreateInode?)
  {
    var s' := Step(s, t, call);
    assert s'.pcs == s.pcs[t := s'.pcs[t]];
    CallingUpdate(s.pcs, t, s'.pcs[t]);
  }

  lemma {:induction false} RunLosesNone(s: State, turns: seq<Turn>)
    requires Schedule(s, turns)
    ensures |Exec(s, turns).issued| + Calling(Exec(s, turns).pcs) == |s.issued| + Calling(s.pcs) + Begun(s, turns)
    decreases |turns|
  {
    if turns != [] {
      StepLosesNone(s, turns[0].thread, turns[0].call);
      RunLosesNone(Step(s, turns[0].thread, turns[0].call), turns[1..]);
    }
  }

  lemma {:induction false} NobodyCalls(threads: nat)
    ensures Calling(seq(threads, _ => Outside)) == 0
  {
    if threads > 0 {
      assert seq(threads, _ => Outside)[..threads - 1] == seq(threads - 1, _ => Outside);
      NobodyCalls(threads - 1);
    }
  }

  /** For any number of threads and any interleaving, every call of `create_inode` that began has returned an
      identifier or is still under way: a thread that finds the lock taken does not give up. */
  lemma {:induction false} NoCallIsLost(threads: nat, turns: seq<Turn>)
    requires Schedule(Initial(threads), turns)
    ensures var s := Exec(Initial(threads), turns);
            |s.issued| + Calling(s.pcs) == Begun(Initial(threads), turns)
  {
    RunLosesNone(Initial(threads), turns);
    NobodyCalls(threads);
  }

  // ---------- The lock is given back ----------

  /** Steps the holder still has to take before it gives the lock back. */
  function StepsLeft(pc: Pc): nat {
    match pc
    case Testing(_, _) => 5
    case Reading => 4
    case Bumping(_) => 3
    case Adding(_) => 2
    case Unlocking(_) => 1
    case _ => 0
  }

  function TurnsOf(turns: seq<Turn>, t: int): nat {
    if turns == [] then 0 else (if turns[0].thread == t then 1 else 0) + TurnsOf(turns[1..], t)
  }

  predicate EverFree(s: State, turns: seq<Turn>)
    requires Schedule(s, turns)
    decreases |turns|
  {
    s.word == 0 || (turns != [] && EverFree(Step(s, turns[0].thread, turns[0].call), turns[1..]))
  }

  predicate InCreateInode(pc: Pc) {
    Holds(pc) && ((pc.Testing? && pc.call.CreateInode?) || pc.Reading? || pc.Bumping? || pc.Adding? || pc.Unlocking?)
  }

  /** A `create_inode` that has the lock gives it back within five of its own steps, however many
      steps the others take meanwhile. */
  lemma {:induction false} CreateInodeReleases(s: State, h: nat, turns: seq<Turn>)
    requires Good(s, h) && h < |s.pcs| && Schedule(s, turns)
    requires InCreateInode(s.pcs[h]) && TurnsOf(turns, h) >= StepsLeft(s.pcs[h])
    ensures EverFree(s, turns)
    decreases |turns|
  {
    var t, call := turns[0].thread, turns[0].call;
    var s' := Step(s, t, call);
    StepExclusive(s, h, t, call);
    StepCounted(s, h, t, call);
    if s'.word != 0 {
      assert NextHolder(s, h, t) == h;
      CreateInodeReleases(s', h, turns[1..]);
    }
  }

  /** `n` turns of thread `t`, in each of which it would call `create_inode` if it were outside. */
  function Alone(t: nat, n: nat): seq<Turn> {
    if n == 0 then [] else [Turn(t, CreateInode)] + Alone(t, n - 1)
  }

  lemma {:induction false} AloneStep(s: State, t: nat, n: nat)
    requires t < |s.pcs| && n > 0
    ensures Schedule(s, Alone(t, n)) && Schedule(Step(s, t, CreateInode), Alone(t, n - 1))
    ensures Exec(s, Alone(t, n)) == Exec(Step(s, t, CreateInode), Alone(t, n - 1))
    decreases n
  {
    AloneFits(s, t, n);
    AloneFits(Step(s, t, CreateInode), t, n - 1);
    assert Alone(t, n)[1..] == Alone(t, n - 1);
  }

  lemma {:induction false} AloneFits(s: State, t: nat, n: nat)
    requires t < |s.pcs|
    ensures Schedule(s, Alone(t, n))
  {
    if n > 0 {
      AloneFits(s, t, n - 1);
    }
  }

  /** The state after a call of `create_inode` that ran to its end. */
  function CalledOnce(s: State): State {
    s.(counter := s.counter + 1, table := s.table + [s.counter], issued := s.issued + [s.counter])
  }

  /** A thread that finds the lock free, and takes its seven steps, takes the lock, hands out the counter's
      value, raises the counter by one, enters the inode and gives the lock back; nothing else changes. */
  lemma {:induction false} CreateInodeReturns(s: State, t: nat)
    requires t < |s.pcs| && s.pcs[t] == Outside && s.word == 0
    ensures Schedule(s, Alone(t, 7)) && Exec(s, Alone(t, 7)) == CalledOnce(s)
  {
    AloneFits(s, t, 7);
    var s1 := Step(s, t, CreateInode);
    var s2 := Step(s1, t, CreateInode);
    var s3 := Step(s2, t, CreateInode);
    assert s3 == Goes(s, t, Reading).(word := 1);
    ReadingReturns(s3, t);
    AloneStep(s, t, 7);
    AloneStep(s1, t, 6);
    AloneStep(s2, t, 5);
    assert s.pcs[t := Outside] == s.pcs;
  }

  /** The four steps with the lock. */
  lemma {:induction false} ReadingReturns(s: State, t: nat)
    requires t < |s.pcs| && s.pcs[t] == Reading
    ensures Schedule(s, Alone(t, 4)) && Exec(s, Alone(t, 4)) == CalledOnce(Goes(s, t, Outside).(word := 0))
  {
    AloneFits(s, t, 4);
    var s1 := Step(s, t, CreateInode);
    var s2 := Step(s1, t, CreateInode);
    var s3 := Step(s2, t, CreateInode);
    var s4 := Step(s3, t, CreateInode);
    AloneStep(s, t, 4);
    AloneStep(s1, t, 3);
    AloneStep(s2, t, 2);
    AloneStep(s3, t, 1);
    assert Exec(s4, Alone(t, 0)) == s4;
  }

  // ---------- The lock is not given back ----------

  /** In `is_locked`, with the lock. */
  predicate InIsLocked(pc: Pc) {
    Holds(pc) && ((pc.Testing? && pc.call.IsLocked?) || pc.Peeking? || pc.TryingAgain? || pc.TestingAgain?)
  }

  /** Anywhere between the first step of `is_locked` and its return. */
  predicate CallsIsLocked(pc: Pc) {
    InIsLocked(pc) || (pc.Trying? && pc.call.IsLocked?) || (pc.Testing? && pc.call.IsLocked?)
  }

  /** A holder is in exactly one of the two calls. */
  lemma {:induction false} HoldersCall(pc: Pc)
    ensures Holds(pc) <==> InCreateInode(pc) || InIsLocked(pc)
    ensures !(InCreateInode(pc) && InIsLocked(pc))
  {
  }

  /** A thread that has called `is_locked` never comes back from it, whatever anyone does. */
  lemma {:induction false} IsLockedNeverReturns(s: State, h: int, t: nat, turns: seq<Turn>)
    requires Exclusive(s, h) && t < |s.pcs| && Schedule(s, turns) && CallsIsLocked(s.pcs[t])
    ensures CallsIsLocked(Exec(s, turns).pcs[t])
    decreases |turns|
  {
    if turns != [] {
      var u, call := turns[0].thread, turns[0].call;
      StepExclusive(s, h, u, call);
      assert Exchanges(s.pcs[t]);
      IsLockedNeverReturns(Step(s, u, call), NextHolder(s, h, u), t, turns[1..]);
    }
  }

  /** Once `is_locked` has the lock, it stays taken, nobody else gets it, and no identifier is handed out. */
  lemma {:induction false} IsLockedKeepsLock(s: State, h: nat, turns: seq<Turn>)
    requires Exclusive(s, h) && h < |s.pcs| && Schedule(s, turns) && InIsLocked(s.pcs[h])
    ensures Exclusive(Exec(s, turns), h) && InIsLocked(Exec(s, turns).pcs[h])
    ensures !EverFree(s, turns) && Exec(s, turns).issued == s.issued
    decreases |turns|
  {
    if turns != [] {
      var t, call := turns[0].thread, turns[0].call;
      StepExclusive(s, h, t, call);
      assert Holds(s.pcs[t]) <==> t == h;
      assert Exchanges(s.pcs[h]);
      assert NextHolder(s, h, t) == h;
      IsLockedKeepsLock(Step(s, t, call), h, turns[1..]);
    }
  }

  /** Exactly when a held lock is given back: the holder, given its five steps, does so if and only if it is
      in `create_inode`. */
  lemma {:induction false} GivenBack(s: State, h: nat, turns: seq<Turn>)
    requires Good(s, h) && h < |s.pcs| && Schedule(s, turns) && TurnsOf(turns, h) >= 5
    ensures EverFree(s, turns) <==> InCreateInode(s.pcs[h])
  {
    assert Holds(s.pcs[h]);
    HoldersCall(s.pcs[h]);
    if InCreateInode(s.pcs[h]) {
      CreateInodeReleases(s, h, turns);
    } else {
      IsLockedKeepsLock(s, h, turns);
    }
  }

  lemma {:induction false} ExecJoin(s: State, a: seq<Turn>, b: seq<Turn>)
    requires Schedule(s, a) && Schedule(s, b)
    ensures Schedule(s, a + b) && Exec(s, a + b) == Exec(Exec(s, a), b)
    decreases |a|
  {
    if a == [] {
      assert a + b == b;
    } else {
      assert (a + b)[1..] == a[1..] + b;
      ExecJoin(Step(s, a[0].thread, a[0].call), a[1..], b);
    }
  }

  /** Three steps of any one thread on a new lock are enough for `is_locked` to take it for good: no call of
      `create_inode` that needs this lock ever returns after them. */
  lemma {:induction false} OneCallBlocksAll(threads: nat, t: nat, turns: seq<Turn>)
    requires t < threads && Schedule(Initial(threads), turns)
    ensures var call := [Turn(t, IsLocked), Turn(t, IsLocked), Turn(t, IsLocked)];
            && Schedule(Initial(threads), call + turns)
            && Exec(Initial(threads), call).pcs[t] == Peeking
            && Exec(Initial(threads), call + turns).word == 1
            && Exec(Initial(threads), call + turns).issued == []
  {
    var s, turn := Initial(threads), Turn(t, IsLocked);
    var s1 := Step(s, t, IsLocked);
    var s2 := Step(s1, t, IsLocked);
    var s3 := Step(s2, t, IsLocked);
    assert [turn, turn, turn][1..] == [turn, turn] && [turn, turn][1..] == [turn] && [turn][1..] == [];
    assert Exec(s2, [turn]) == Exec(s3, []) == s3;
    assert Exec(s1, [turn, turn]) == s3;
    assert Exec(s, [turn, turn, turn]) == s3;
    StepExclusive(s, NOBODY, t, IsLocked);
    StepExclusive(s1, NOBODY, t, IsLocked);
    StepExclusive(s2, t, t, IsLocked);
    ExecJoin(s, [turn, turn, turn], turns);
    IsLockedKeepsLock(s3, t, turns);
  }
}
