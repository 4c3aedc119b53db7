/** The boot page tables of the 32-bit kernel, and the processor's walk of them (Intel SDM volume 3A,
    section 4.3). */
module Paging32 {
  import opened Arith
  import opened Common

  const ENTRIES: nat := 1024
  const P1_TABLES: nat := 128
  const PAGE: nat := 4096
  const FILLED: nat := 512 * 128

  /** Where `p1_table` starts, in dwords after `p2_table`. */
  const P1: nat := ENTRIES
  const DWORDS: nat := ENTRIES + P1_TABLES * ENTRIES

  /** 256 MiB: what the filled entries of the last level cover. */
  const WINDOW: nat := 0x1000_0000

  /** `or $0b11`: present and writable. */
  function Or3(x: nat): nat {
    x - x % 4 + 3
  }

  // ---------- The walk ----------

  datatype Translation = Fault | Unknown | Maps(physical: nat, writable: bool)

  predicate Present(e: nat) { e % 2 == 1 }
  predicate Writable(e: nat) { e / 2 % 2 == 1 }

  /** Bits 31 to 12 of an entry, as an address. */
  function Frame(e: nat): nat {
    e / PAGE % 0x10_0000 * PAGE
  }

  function Index1(v: nat): nat { v / PAGE % ENTRIES }
  function Index2(v: nat): nat { v / PAGE / ENTRIES }

  function Fetch(t: seq<nat>, base: nat, table: nat, index: nat): Option<nat> {
    var a := table + 4 * index;
    if base <= a < base + 4 * |t| && (a - base) % 4 == 0 then Some(t[(a - base) / 4]) else None
  }

  /** Large pages are off, so every directory entry names a table. */
  function Walk(t: seq<nat>, base: nat, v: nat): Translation {
    match Fetch(t, base, base, Index2(v))
    case None => Unknown
    case Some(d) => if !Present(d) then Fault else Walk1(t, base, v, Frame(d), Writable(d))
  }

  function Walk1(t: seq<nat>, base: nat, v: nat, table: nat, w: bool): Translation {
    match Fetch(t, base, table, Index1(v))
    case None => Unknown
    case Some(e) => if !Present(e) then Fault else Maps(Frame(e) + v % PAGE, w && Writable(e))
  }

  // ---------- The tables ----------

  ghost predicate Linked(base: nat) {
    base % PAGE == 0 && base + 4 * DWORDS <= 0x8000_0000
  }

  function Table(base: nat, i: nat): nat {
    base + 4 * P1 + PAGE * i
  }

  /** The `k`-th dword that the set-up code leaves. */
  function Entry(base: nat, k: nat): nat {
    if k < P1_TABLES then Table(base, k) + 3
    else if 768 <= k < 768 + P1_TABLES then Table(base, k - 768) + 3
    else if P1 <= k < P1 + FILLED then PAGE * (k - P1) + 3
    else 0
  }

  ghost predicate Built(t: seq<nat>, base: nat) {
    |t| == DWORDS && forall k :: 0 <= k < DWORDS ==> t[k] == Entry(base, k)
  }

  /** The directory's loop has filled `n` entries of each half; the other loop `m` entries. */
  ghost predicate BuiltUpTo(t: seq<nat>, base: nat, n: nat, m: nat) {
    |t| == DWORDS && forall k :: 0 <= k < DWORDS ==>
      t[k] == if k < n || 768 <= k < 768 + n || P1 <= k < P1 + m then Entry(base, k) else 0
  }

  lemma {:induction false} BuildDirectory(t: seq<nat>, base: nat, n: nat)
    requires BuiltUpTo(t, base, n, 0) && n < P1_TABLES
    ensures BuiltUpTo(t[n := Table(base, n) + 3][768 + n := Table(base, n) + 3], base, n + 1, 0)
  {
  }

  lemma {:induction false} BuildPage(t: seq<nat>, base: nat, m: nat)
    requires BuiltUpTo(t, base, P1_TABLES, m) && m < FILLED
    ensures BuiltUpTo(t[P1 + m := PAGE * m + 3], base, P1_TABLES, m + 1)
  {
  }

  method Store(mem: array<nat>, base: nat, a: nat, value: nat)
    requires base <= a < base + 4 * mem.Length && (a - base) % 4 == 0
    modifies mem
    ensures mem[..] == old(mem[..])[(a - base) / 4 := value]
  {
    mem[(a - base) / 4] := value;
  }

  /** `map_p2_loop`: every entry is stored for the identity map and for the higher half. */
  method MapP2(mem: array<nat>, base: nat)
    requires Linked(base) && BuiltUpTo(mem[..], base, 0, 0)
    modifies mem
    ensures BuiltUpTo(mem[..], base, P1_TABLES, 0)
  {
    var p2, p1 := base, base + 4 * P1;
    var ecx := 0;
    while ecx != P1_TABLES
      invariant 0 <= ecx <= P1_TABLES
      invariant BuiltUpTo(mem[..], base, ecx, 0)
    {
      BuildDirectory(mem[..], base, ecx);
      var eax := Or3(1024 * 4 * ecx) + p1;
      var edx := 4 * ecx + p2;
      Store(mem, base, edx, eax);
      edx := 4 * ecx + p2 + 768 * 4;
      Store(mem, base, edx, eax);
      ecx := ecx + 1;
    }
  }

  /** `map_p1_loop`. */
  method MapP1(mem: array<nat>, base: nat)
    requires Linked(base) && BuiltUpTo(mem[..], base, P1_TABLES, 0)
    modifies mem
    ensures BuiltUpTo(mem[..], base, P1_TABLES, FILLED)
  {
    var p1 := base + 4 * P1;
    var ecx := 0;
    while ecx != 512 * 128
      invariant 0 <= ecx <= FILLED
      invariant BuiltUpTo(mem[..], base, P1_TABLES, ecx)
    {
      BuildPage(mem[..], base, ecx);
      var eax := Or3(4096 * ecx);
      var edx := 4 * ecx + p1;
      Store(mem, base, edx, eax);
      ecx := ecx + 1;
    }
  }

  /** The set-up code, register by register, on zeroed memory. */
  method SetupPaging(mem: array<nat>, base: nat)
    requires Linked(base) && mem[..] == seq(DWORDS, _ => 0)
    modifies mem
    ensures Built(mem[..], base)
  {
    MapP2(mem, base);
    MapP1(mem, base);
  }

  // ---------- The walk of these tables ----------

  lemma {:induction false} FetchAt(t: seq<nat>, base: nat, table: nat, index: nat)
    requires Built(t, base) && table + index < DWORDS
    ensures Fetch(t, base, base + 4 * table, index) == Some(Entry(base, table + index))
  {
    DivIs(4 * (table + index), 4, table + index, 0);
  }

  lemma {:induction false} FrameAt(n: nat)
    requires n < 0x10_0000
    ensures var e := PAGE * n + 3;
            Present(e) && Writable(e) && Frame(e) == PAGE * n
  {
    PageEntryBits(n);
    DivIs(n, 0x10_0000, 0, n);
  }

  lemma {:induction false} FrameOf(f: nat)
    requires f % PAGE == 0 && f < 0x1_0000_0000
    ensures Present(f + 3) && Writable(f + 3) && Frame(f + 3) == f
  {
    DivMod(f, PAGE);
    FrameAt(f / PAGE);
  }

  /** The `i`-th table starts on a page boundary. */
  lemma {:induction false} TableAligned(base: nat, i: nat)
    requires Linked(base)
    ensures Table(base, i) == base + 4 * (P1 + ENTRIES * i) && Table(base, i) % PAGE == 0
  {
    DivMod(base, PAGE);
    DivIs(Table(base, i), PAGE, base / PAGE + 1 + i, 0);
  }

  /** Only the first 64 tables are filled. */
  lemma {:induction false} Walk1Is(t: seq<nat>, base: nat, v: nat, i: nat)
    requires Built(t, base) && i < P1_TABLES
    ensures Walk1(t, base, v, base + 4 * (P1 + ENTRIES * i), true)
            == if i < 64 then Maps(PAGE * (ENTRIES * i + Index1(v)) + v % PAGE, true) else Fault
  {
    DivMod(v / PAGE, ENTRIES);
    var n := ENTRIES * i + Index1(v);
    FetchAt(t, base, P1 + ENTRIES * i, Index1(v));
    if i < 64 {
      assert Entry(base, P1 + n) == PAGE * n + 3;
      FrameAt(n);
    } else {
      assert Entry(base, P1 + n) == 0;
    }
  }

  /** A directory entry leads to the `i`-th table. */
  lemma {:induction false} WalkTable(t: seq<nat>, base: nat, v: nat, i: nat)
    requires Built(t, base) && Linked(base) && v < 0x1_0000_0000 && i < P1_TABLES
    requires Index2(v) == i || Index2(v) == 768 + i
    ensures Walk(t, base, v)
            == if i < 64 then Maps(PAGE * (ENTRIES * i + Index1(v)) + v % PAGE, true) else Fault
  {
    FetchAt(t, base, 0, Index2(v));
    assert Entry(base, Index2(v)) == Table(base, i) + 3;
    TableAligned(base, i);
    FrameOf(Table(base, i));
    Walk1Is(t, base, v, i);
  }

  lemma {:induction false} Digits(v: nat)
    requires v < 0x1_0000_0000
    ensures v == PAGE * (Index1(v) + ENTRIES * Index2(v)) + v % PAGE && Index1(v) < ENTRIES && Index2(v) < ENTRIES
  {
    var a := v / PAGE;
    assert v == PAGE * a + v % PAGE && a == ENTRIES * Index2(v) + Index1(v);
  }

  predicate InWindow(v: nat, w: nat) {
    w in {0, 0xC000_0000} && w <= v < w + WINDOW
  }

  /** The tables map, writable, exactly the identity window and the higher half, each onto the first
      256 MiB of memory: half of the directory's entries lead to empty tables. */
  lemma {:induction false} TablesAreExact(t: seq<nat>, base: nat, v: nat)
    requires Built(t, base) && Linked(base) && v < 0x1_0000_0000
    ensures forall w :: InWindow(v, w) ==> Walk(t, base, v) == Maps(v - w, true)
    ensures (forall w :: !InWindow(v, w)) ==> Walk(t, base, v) == Fault
  {
    Digits(v);
    assert !InWindow(v, 0) ==> v >= WINDOW;
    assert !InWindow(v, 0xC000_0000) ==> v < 0xC000_0000 || v >= 0xC000_0000 + WINDOW;
    if Index2(v) < P1_TABLES {
      WalkTable(t, base, v, Index2(v));
    } else if 768 <= Index2(v) < 768 + P1_TABLES {
      WalkTable(t, base, v, Index2(v) - 768);
    } else {
      FetchAt(t, base, 0, Index2(v));
    }
  }
}
