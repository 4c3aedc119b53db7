/** The pool's block map as a sequence of statuses: first fit, release, and the ledger of live
    allocations that the map stands for. */
module Blocks {

  datatype Status = Error | Unused | Tail | Head

  type Map = seq<Status>

  /** `n` unused blocks from `i` on. */
  ghost predicate Fits(m: Map, i: nat, n: nat) {
    i + n <= |m| && forall j :: i <= j < i + n ==> m[j] == Unused
  }

  /** The map with one allocation of `n` blocks entered at `start`. */
  function Claimed(m: Map, start: nat, n: nat): (r: Map)
    requires n > 0 && start + n <= |m|
    ensures |r| == |m|
    ensures forall j :: 0 <= j < |m| ==>
              r[j] == if j == start then Head else if start < j < start + n then Tail else m[j]
  {
    m[..start] + [Head] + seq(n - 1, _ => Tail) + m[start + n..]
  }

  /** How far the run of tails from `i` on reaches. */
  function TailEnd(m: Map, i: nat): (e: nat)
    requires i <= |m|
    ensures i <= e <= |m|
    ensures forall j :: i <= j < e ==> m[j] == Tail
    ensures e < |m| ==> m[e] != Tail
    decreases |m| - i
  {
    if i < |m| && m[i] == Tail then TailEnd(m, i + 1) else i
  }

  /** The map with blocks `from` to `to` unused. */
  function Cleared(m: Map, from: nat, to: nat): (r: Map)
    requires from <= to <= |m|
    ensures |r| == |m|
    ensures forall j :: 0 <= j < |m| ==> r[j] == if from <= j < to then Unused else m[j]
  {
    m[..from] + seq(to - from, _ => Unused) + m[to..]
  }

  function Released(m: Map, start: nat): Map
    requires start < |m|
  {
    Cleared(m, start, TailEnd(m, start + 1))
  }

  // ---------- The ledger ----------

  /** Live allocations: first block to number of blocks. */
  type Ledger = map<nat, nat>

  ghost predicate Covers(l: Ledger, start: nat, j: nat) {
    start in l && start <= j < start + l[start]
  }

  ghost predicate Covered(l: Ledger, j: nat) {
    exists s :: Covers(l, s, j)
  }

  /** Allocations are not empty, lie inside the pool, and are pairwise disjoint. */
  ghost predicate Disjoint(l: Ledger, size: nat) {
    && (forall s :: s in l ==> l[s] > 0 && s + l[s] <= size)
    && (forall s, t :: s in l && t in l && s < t ==> s + l[s] <= t)
  }

  ghost function ShownAt(l: Ledger, j: nat): Status {
    if j in l then Head else if Covered(l, j) then Tail else Unused
  }

  /** The map shows HEAD at each start, TAIL on the rest of each allocation, UNUSED elsewhere. */
  ghost predicate Shows(m: Map, l: Ledger) {
    Disjoint(l, |m|) && forall j :: 0 <= j < |m| ==> m[j] == ShownAt(l, j)
  }

  lemma {:induction false} CoveredWhere(l: Ledger, s: nat, j: nat)
    requires Covers(l, s, j)
    ensures Covered(l, j)
  {
  }

  lemma {:induction false} EmptyShows(size: nat)
    ensures Shows(seq(size, _ => Unused), map[])
  {
  }

  lemma {:induction false} ClaimShows(m: Map, l: Ledger, start: nat, n: nat)
    requires Shows(m, l) && n > 0 && Fits(m, start, n)
    ensures start !in l && Shows(Claimed(m, start, n), l[start := n])
  {
    var l', m' := l[start := n], Claimed(m, start, n);
    assert m[start] == Unused;
    forall s | s in l
      ensures s + l[s] <= start || start + n <= s
    {
      assert m[s] == Head;
      if s < start < s + l[s] {
        CoveredWhere(l, s, start);
      }
    }
    forall j | 0 <= j < |m|
      ensures m'[j] == ShownAt(l', j)
    {
      if start <= j < start + n {
        CoveredWhere(l', start, j);
        assert j in l ==> j == start;
      } else {
        ClaimCovers(l, start, n, j);
      }
    }
  }

  lemma {:induction false} ClaimCovers(l: Ledger, start: nat, n: nat, j: nat)
    requires start !in l && !(start <= j < start + n)
    ensures Covered(l[start := n], j) <==> Covered(l, j)
  {
    var l' := l[start := n];
    if s :| Covers(l, s, j) {
      CoveredWhere(l', s, j);
    }
    if s :| Covers(l', s, j) {
      CoveredWhere(l, s, j);
    }
  }

  lemma {:induction false} TailEndIs(m: Map, i: nat, e: nat)
    requires i <= e <= |m| && (forall j :: i <= j < e ==> m[j] == Tail) && (e < |m| ==> m[e] != Tail)
    ensures TailEnd(m, i) == e
  {
  }

  lemma {:induction false} NextOwner(l: Ledger, size: nat, start: nat, s: nat)
    requires Disjoint(l, size) && start in l && Covers(l, s, start + l[start])
    ensures s == start + l[start]
  {
  }

  /** The run of tails after a head is the rest of its allocation. */
  lemma {:induction false} TailsReach(m: Map, l: Ledger, start: nat)
    requires Shows(m, l) && start in l
    ensures TailEnd(m, start + 1) == start + l[start]
  {
    var end := start + l[start];
    forall j | start < j < end
      ensures m[j] == Tail
    {
      CoveredWhere(l, start, j);
    }
    if end < |m| && Covered(l, end) {
      var s :| Covers(l, s, end);
      NextOwner(l, |m|, start, s);
    }
    TailEndIs(m, start + 1, end);
  }

  lemma {:induction false} NotCoveredAfter(l: Ledger, size: nat, start: nat, j: nat)
    requires Disjoint(l, size) && Covers(l, start, j)
    ensures !Covered(l - {start}, j)
  {
    forall s
      ensures !Covers(l - {start}, s, j)
    {
    }
  }

  /** Releasing an allocation frees exactly its blocks. */
  lemma {:induction false} ReleaseShows(m: Map, l: Ledger, start: nat)
    requires Shows(m, l) && start in l
    ensures Released(m, start) == Cleared(m, start, start + l[start])
    ensures Shows(Released(m, start), l - {start})
  {
    TailsReach(m, l, start);
    var l', m', n := l - {start}, Released(m, start), l[start];
    assert l'[start := n] == l;
    forall j | 0 <= j < |m|
      ensures m'[j] == ShownAt(l', j)
    {
      if start <= j < start + n {
        NotCoveredAfter(l, |m|, start, j);
      } else {
        ClaimCovers(l', start, n, j);
      }
    }
  }

  /** The ledger determines the map, so a map can be recovered from its live allocations alone. */
  lemma {:induction false} LedgerDeterminesMap(m: Map, m': Map, l: Ledger)
    requires Shows(m, l) && Shows(m', l) && |m| == |m'|
    ensures m == m'
  {
  }

  /** The map determines the ledger as well. */
  lemma {:induction false} MapDeterminesLedger(m: Map, l: Ledger, l': Ledger)
    requires Shows(m, l) && Shows(m, l')
    ensures l == l'
  {
    forall s
      ensures s in l <==> s in l'
      ensures s in l && s in l' ==> l[s] == l'[s]
    {
      if s in l {
        assert m[s] == Head;
      }
      if s in l' {
        assert m[s] == Head;
      }
      if s in l && s in l' {
        TailsReach(m, l, s);
        TailsReach(m, l', s);
      }
    }
  }

  /** Releasing what was just allocated restores the map. */
  lemma {:induction false} ReleaseInvertsClaim(m: Map, l: Ledger, start: nat, n: nat)
    requires Shows(m, l) && n > 0 && Fits(m, start, n)
    ensures Released(Claimed(m, start, n), start) == m
  {
    var m', l' := Claimed(m, start, n), l[start := n];
    assert Shows(m', l') by {
      ClaimShows(m, l, start, n);
    }
    assert Released(m', start) == Cleared(m', start, start + n) by {
      ReleaseShows(m', l', start);
    }
  }

  /** The same for the block that a search chose. */
  lemma {:induction false} ReleaseInvertsGrant(m: Map, l: Ledger, blocks: nat)
    requires Shows(m, l) && Search(m, 0, blocks).At?
    ensures var start := Search(m, 0, blocks).start;
            && start + Length(blocks) <= |m|
            && Claimed(m, start, Length(blocks))[start] == Head
            && Released(Claimed(m, start, Length(blocks)), start) == m
  {
    ZeroActsAsOne(m, 0);
    FirstFit(m, Length(blocks));
    ReleaseInvertsClaim(m, l, Search(m, 0, blocks).start, Length(blocks));
  }

  lemma {:induction false} ClearedMore(m: Map, from: nat, i: nat)
    requires from <= i < |m|
    ensures Cleared(m, from, i)[i := Unused] == Cleared(m, from, i + 1)
    ensures Cleared(m, from, i)[i] == m[i]
  {
  }

  // ---------- Used blocks ----------

  function UsedBlocks(m: Map): nat {
    if m == [] then 0 else UsedBlocks(m[..|m| - 1]) + if m[|m| - 1] == Unused then 0 else 1
  }

  /** The sum of the lengths of the allocations that start before block `size`. */
  function TotalLength(l: Ledger, size: nat): nat {
    if size == 0 then 0 else TotalLength(l, size - 1) + if size - 1 in l then l[size - 1] else 0
  }

  lemma {:induction false} UsedRun(m: Map, from: nat)
    requires from <= |m| && forall j :: from <= j < |m| ==> m[j] != Unused
    ensures UsedBlocks(m) == UsedBlocks(m[..from]) + |m| - from
    decreases |m|
  {
    if from == |m| {
      assert m[..from] == m;
    } else {
      UsedRun(m[..|m| - 1], from);
      assert m[..|m| - 1][..from] == m[..from];
    }
  }

  lemma {:induction false} NoStartsWithin(l: Ledger, from: nat, to: nat)
    requires from <= to && forall j :: from <= j < to ==> j !in l
    ensures TotalLength(l, to) == TotalLength(l, from)
  {
    if from < to {
      NoStartsWithin(l, from, to - 1);
    }
  }

  /** An allocation that covers the block before `k` ends at `k`, unless another begins inside it. */
  lemma {:induction false} EndsAt(m: Map, l: Ledger, s: nat, k: nat)
    requires Shows(m, l) && 0 < k <= |m| && Covers(l, s, k - 1)
    requires k < |m| ==> k in l || !Covered(l, k)
    ensures s + l[s] == k
    ensures forall j :: s <= j < k ==> m[j] != Unused && (j in l ==> j == s)
  {
    if s + l[s] > k {
      CoveredWhere(l, s, k);
    }
    forall j | s <= j < k
      ensures m[j] != Unused && (j in l ==> j == s)
    {
      CoveredWhere(l, s, j);
    }
  }

  /** The last allocation before block `k` adds its length to both counts. */
  lemma {:induction false} LastAllocation(m: Map, l: Ledger, s: nat, k: nat)
    requires Shows(m, l) && 0 < k <= |m| && Covers(l, s, k - 1)
    requires k < |m| ==> k in l || !Covered(l, k)
    ensures UsedBlocks(m[..k]) == UsedBlocks(m[..s]) + k - s
    ensures TotalLength(l, k) == TotalLength(l, s) + k - s
  {
    EndsAt(m, l, s, k);
    UsedRun(m[..k], s);
    assert m[..k][..s] == m[..s];
    NoStartsWithin(l, s + 1, k);
  }

  lemma {:induction false} UsedBefore(m: Map, l: Ledger, k: nat)
    requires Shows(m, l) && k <= |m|
    requires k < |m| ==> k in l || !Covered(l, k)
    ensures UsedBlocks(m[..k]) == TotalLength(l, k)
  {
    if k > 0 {
      var last := k - 1;
      if m[last] == Unused {
        assert last !in l && !Covered(l, last);
        UsedBefore(m, l, last);
        assert m[..k][..last] == m[..last];
      } else {
        var s := Owner(m, l, last);
        LastAllocation(m, l, s, k);
        UsedBefore(m, l, s);
      }
    }
  }

  lemma {:induction false} Owner(m: Map, l: Ledger, j: nat) returns (s: nat)
    requires Shows(m, l) && j < |m| && m[j] != Unused
    ensures Covers(l, s, j)
  {
    if j in l {
      s := j;
    } else {
      s :| Covers(l, s, j);
    }
  }

  /** The used blocks are as many as the live allocations need together. */
  lemma {:induction false} Conservation(m: Map, l: Ledger)
    requires Shows(m, l)
    ensures UsedBlocks(m) == TotalLength(l, |m|)
  {
    UsedBefore(m, l, |m|);
    assert m[..|m|] == m;
  }

  // ---------- First fit ----------

  /** What a request ends in: a panic, a null pointer, or the first block of its allocation. */
  datatype Choice = Panic | Null | At(start: nat)

  /** The search of `pool_alloc` from block `i` on, for `n` blocks. */
  function Search(m: Map, i: nat, n: nat): (c: Choice)
    requires i <= |m|
    ensures c.At? ==> i <= c.start < |m|
    decreases |m| - i
  {
    if i == |m| then Null
    else if m[i] != Unused then Search(m, i + 1, n)
    else
      var stop := Scan(m, i, i + n);
      if stop >= i + n then At(i)
      else if stop == |m| then Panic
      else Search(m, stop + 1, n)
  }

  /** The inner loop: how far blocks are unused, from `i` up to `limit` or the end of the map. */
  function Scan(m: Map, i: nat, limit: nat): (stop: nat)
    requires i <= |m|
    ensures i <= stop <= |m|
    ensures forall j :: i <= j < stop ==> m[j] == Unused
    ensures stop < |m| && stop < limit ==> m[stop] != Unused
    ensures i <= limit ==> stop <= limit
    decreases |m| - i
  {
    if i < limit && i < |m| && m[i] == Unused then Scan(m, i + 1, limit) else i
  }

  /** First fit is sound and complete: it finds the least start with enough room whenever there is
      one; otherwise it panics if the last block is unused and returns null if it is not. */
  lemma {:induction false} SearchFrom(m: Map, i: nat, n: nat)
    requires i <= |m| && n > 0
    ensures match Search(m, i, n)
            case At(start) => Fits(m, start, n) && forall k :: i <= k < start ==> !Fits(m, k, n)
            case Panic => m != [] && m[|m| - 1] == Unused && forall k :: i <= k ==> !Fits(m, k, n)
            case Null => (i < |m| ==> m[|m| - 1] != Unused) && forall k :: i <= k ==> !Fits(m, k, n)
    decreases |m| - i
  {
    if i < |m| {
      if m[i] != Unused {
        assert !Fits(m, i, n);
        SearchFrom(m, i + 1, n);
      } else {
        var stop := Scan(m, i, i + n);
        if stop < i + n {
          forall k | i <= k <= stop
            ensures !Fits(m, k, n)
          {
          }
          if stop < |m| {
            SearchFrom(m, stop + 1, n);
          }
        }
      }
    }
  }

  lemma {:induction false} FirstFit(m: Map, n: nat)
    requires n > 0
    ensures Search(m, 0, n).At? <==> exists k :: Fits(m, k, n)
    ensures Search(m, 0, n).At? ==>
              Fits(m, Search(m, 0, n).start, n) && forall k :: 0 <= k < Search(m, 0, n).start ==> !Fits(m, k, n)
    ensures Search(m, 0, n).Panic? <==> (!exists k :: Fits(m, k, n)) && m != [] && m[|m| - 1] == Unused
  {
    SearchFrom(m, 0, n);
  }

  /** A request for zero blocks is served like one for a single block. */
  lemma {:induction false} ZeroActsAsOne(m: Map, i: nat)
    requires i <= |m|
    ensures Search(m, i, 0) == Search(m, i, 1)
    decreases |m| - i
  {
    if i < |m| && m[i] != Unused {
      ZeroActsAsOne(m, i + 1);
    }
  }

  // ---------- Runs ----------

  datatype Op = Alloc(blocks: nat) | Free(block: nat)

  /** The blocks an allocation takes. */
  function Length(blocks: nat): nat {
    if blocks == 0 then 1 else blocks
  }

  function MapStep(m: Map, op: Op): (r: Map)
    ensures |r| == |m|
  {
    match op
    case Alloc(n) =>
      var c := Search(m, 0, n);
      if c.At? && c.start + Length(n) <= |m| then Claimed(m, c.start, Length(n)) else m
    case Free(block) => if block < |m| && m[block] == Head then Released(m, block) else m
  }

  /** `n` blocks from `k` on that no live allocation touches. */
  ghost predicate Gap(l: Ledger, size: nat, k: nat, n: nat) {
    k + n <= size && forall j :: k <= j < k + n ==> !Covered(l, j)
  }

  /** One step of the ledger: an allocation enters the least gap there is, if there is one; a release
      removes the allocation that starts at the block, if there is one. */
  ghost predicate LedgerStep(l: Ledger, size: nat, op: Op, l': Ledger) {
    match op
    case Alloc(n) =>
      if exists k :: Gap(l, size, k, Length(n)) then
        exists k: nat :: Gap(l, size, k, Length(n)) && (forall i :: 0 <= i < k ==> !Gap(l, size, i, Length(n)))
                    && l' == l[k := Length(n)]
      else l' == l
    case Free(block) => l' == l - {block}
  }

  lemma {:induction false} FitsIsGap(m: Map, l: Ledger, k: nat, n: nat)
    requires Shows(m, l)
    ensures Fits(m, k, n) <==> Gap(l, |m|, k, n)
  {
    forall j | 0 <= j < |m|
      ensures m[j] == Unused <==> !Covered(l, j)
    {
      if j in l {
        CoveredWhere(l, j, j);
      }
    }
  }

  lemma {:induction false} StepRefines(m: Map, l: Ledger, op: Op) returns (l': Ledger)
    requires Shows(m, l)
    ensures Shows(MapStep(m, op), l') && LedgerStep(l, |m|, op, l')
  {
    l' := l;
    match op
    case Alloc(n) =>
      forall k: nat
        ensures Fits(m, k, Length(n)) <==> Gap(l, |m|, k, Length(n))
      {
        FitsIsGap(m, l, k, Length(n));
      }
      ZeroActsAsOne(m, 0);
      FirstFit(m, Length(n));
      var c := Search(m, 0, Length(n));
      if c.At? {
        ClaimShows(m, l, c.start, Length(n));
        l' := l[c.start := Length(n)];
      }
    case Free(block) =>
      if block in l {
        ReleaseShows(m, l, block);
        l' := l - {block};
      } else {
        assert l - {block} == l;
      }
  }

  lemma {:induction false} GapAvoids(l: Ledger, size: nat, k: nat, n: nat, s: nat)
    requires Gap(l, size, k, n) && n > 0 && s in l && l[s] > 0
    ensures k != s
  {
    CoveredWhere(l, s, s);
    assert !Covered(l, k);
  }

  /** A step leaves every live allocation as it is but the one it releases. */
  lemma {:induction false} OthersStay(l: Ledger, size: nat, op: Op, l': Ledger, s: nat)
    requires LedgerStep(l, size, op, l') && s in l && l[s] > 0 && op != Free(s)
    ensures s in l' && l'[s] == l[s]
  {
    if op.Alloc? && l' != l {
      var k: nat :| Gap(l, size, k, Length(op.blocks)) && l' == l[k := Length(op.blocks)];
      GapAvoids(l, size, k, Length(op.blocks), s);
    }
  }

  ghost predicate LedgerRun(l: Ledger, size: nat, ops: seq<Op>, l': Ledger)
    decreases |ops|
  {
    if ops == [] then l' == l
    else exists mid :: LedgerStep(l, size, ops[0], mid) && LedgerRun(mid, size, ops[1..], l')
  }

  function MapRun(m: Map, ops: seq<Op>): (r: Map)
    ensures |r| == |m|
    decreases |ops|
  {
    if ops == [] then m else MapRun(MapStep(m, ops[0]), ops[1..])
  }

  /** Over any run the map shows a ledger of disjoint live allocations that evolves by first fit and
      exact release, and the used blocks are as many as those allocations need together. */
  lemma {:induction false} RunRefines(m: Map, l: Ledger, ops: seq<Op>) returns (l': Ledger)
    requires Shows(m, l)
    ensures LedgerRun(l, |m|, ops, l') && Shows(MapRun(m, ops), l')
    ensures UsedBlocks(MapRun(m, ops)) == TotalLength(l', |m|)
    decreases |ops|
  {
    if ops == [] {
      l' := l;
      Conservation(m, l);
    } else {
      var mid := StepRefines(m, l, ops[0]);
      l' := RunRefines(MapStep(m, ops[0]), mid, ops[1..]);
    }
  }

  /** When nothing is live any more, the pool is as it was when new. */
  lemma {:induction false} NothingLeaks(m: Map)
    requires Shows(m, map[])
    ensures m == seq(|m|, _ => Unused)
  {
    EmptyShows(|m|);
    LedgerDeterminesMap(m, seq(|m|, _ => Unused), map[]);
  }
}
