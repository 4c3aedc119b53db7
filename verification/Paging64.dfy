/** The boot page tables of the 64-bit kernel, and the processor's walk of them (Intel SDM volume 3A,
    section 4.5). */
module Paging64 {
  import opened Arith
  import opened Common

  const ENTRIES: nat := 512
  const P1_TABLES: nat := 128
  const PAGE: nat := 4096

  /** Where `p3_lo_table`, `p2_lo_table` and `p1_lo_tables` start, in qwords after `p4_table`. */
  const P3: nat := ENTRIES
  const P2: nat := 2 * ENTRIES
  const P1: nat := 3 * ENTRIES
  const QWORDS: nat := 3 * ENTRIES + P1_TABLES * ENTRIES

  /** What the tables of the last level cover: 256 MiB. */
  const WINDOW: nat := 0x1000_0000

  /** `or $0b11`: present and writable. */
  function Or3(x: nat): nat {
    x - x % 4 + 3
  }

  // ---------- The walk ----------

  /** Where an address leads: a page fault, memory outside the tables, or a physical address. */
  datatype Translation = Fault | Unknown | Maps(physical: nat, writable: bool)

  predicate Present(e: nat) { e % 2 == 1 }
  predicate Writable(e: nat) { e / 2 % 2 == 1 }
  predicate Large(e: nat) { e / 128 % 2 == 1 }

  /** Bits 51 to 12 of an entry, as an address. */
  function Frame(e: nat): nat {
    e / PAGE % 0x100_0000_0000 * PAGE
  }

  predicate Canonical(v: nat) {
    v < 0x8000_0000_0000 || 0xFFFF_8000_0000_0000 <= v < WORD
  }

  /** The page number and the indices that an address selects, level by level. */
  function Index1(v: nat): nat { v / PAGE % ENTRIES }
  function Index2(v: nat): nat { v / PAGE / ENTRIES % ENTRIES }
  function Index3(v: nat): nat { v / PAGE / ENTRIES / ENTRIES % ENTRIES }
  function Index4(v: nat): nat { v / PAGE / ENTRIES / ENTRIES / ENTRIES % ENTRIES }

  /** The entry with number `index` of the table at physical address `table`. */
  function Fetch(t: seq<nat>, base: nat, table: nat, index: nat): Option<nat> {
    var a := table + 8 * index;
    if base <= a < base + 8 * |t| && (a - base) % 8 == 0 then Some(t[(a - base) / 8]) else None
  }

  function Walk(t: seq<nat>, base: nat, v: nat): Translation {
    if !Canonical(v) then Fault
    else
      match Fetch(t, base, base, Index4(v))
      case None => Unknown
      case Some(e) => if !Present(e) then Fault else Walk3(t, base, v, Frame(e), Writable(e))
  }

  function Walk3(t: seq<nat>, base: nat, v: nat, table: nat, w: bool): Translation {
    match Fetch(t, base, table, Index3(v))
    case None => Unknown
    case Some(e) =>
      if !Present(e) then Fault
      else if Large(e) then Maps(Frame(e) / 0x4000_0000 * 0x4000_0000 + v % 0x4000_0000, w && Writable(e))
      else Walk2(t, base, v, Frame(e), w && Writable(e))
  }

  function Walk2(t: seq<nat>, base: nat, v: nat, table: nat, w: bool): Translation {
    match Fetch(t, base, table, Index2(v))
    case None => Unknown
    case Some(e) =>
      if !Present(e) then Fault
      else if Large(e) then Maps(Frame(e) / 0x20_0000 * 0x20_0000 + v % 0x20_0000, w && Writable(e))
      else Walk1(t, base, v, Frame(e), w && Writable(e))
  }

  function Walk1(t: seq<nat>, base: nat, v: nat, table: nat, w: bool): Translation {
    match Fetch(t, base, table, Index1(v))
    case None => Unknown
    case Some(e) => if !Present(e) then Fault else Maps(Frame(e) + v % PAGE, w && Writable(e))
  }

  // ---------- The tables ----------

  /** The linker puts the tables on a page boundary, in the reach of a 32-bit immediate. */
  ghost predicate Linked(base: nat) {
    base % PAGE == 0 && base + 8 * QWORDS <= 0x8000_0000
  }

  /** The `k`-th qword that the set-up code leaves. */
  function Entry(base: nat, k: nat): nat {
    if k < P3 then (if k == 0 || k == 511 then base + 8 * P3 + 3 else 0)
    else if k < P2 then (if k == P3 || k == P3 + 510 then base + 8 * P2 + 3 else 0)
    else if k < P1 then (if k < P2 + P1_TABLES then base + 8 * P1 + PAGE * (k - P2) + 3 else 0)
    else PAGE * (k - P1) + 3
  }

  ghost predicate Built(t: seq<nat>, base: nat) {
    |t| == QWORDS && forall k :: 0 <= k < QWORDS ==> t[k] == Entry(base, k)
  }

  /** The four windows: the identity map, the higher half, and the two mixtures of their indices. */
  predicate InWindow(v: nat, w: nat) {
    w in {0, 0x7F_8000_0000, 0xFFFF_FF80_0000_0000, 0xFFFF_FFFF_8000_0000} && w <= v < w + WINDOW
  }

  /** A store of `value` at physical address `a`. */
  method Store(mem: array<nat>, base: nat, a: nat, value: nat)
    requires base <= a < base + 8 * mem.Length && (a - base) % 8 == 0
    modifies mem
    ensures mem[..] == old(mem[..])[(a - base) / 8 := value]
  {
    mem[(a - base) / 8] := value;
  }

  /** Memory holds the first `n` qwords of the tables and zeros after them. */
  ghost predicate BuiltUpTo(t: seq<nat>, base: nat, n: nat) {
    && |t| == QWORDS && n <= QWORDS
    && (forall k :: 0 <= k < n ==> t[k] == Entry(base, k))
    && (forall k :: n <= k < QWORDS ==> t[k] == 0)
  }

  lemma {:induction false} BuildOne(t: seq<nat>, base: nat, n: nat)
    requires BuiltUpTo(t, base, n) && n < QWORDS
    ensures BuiltUpTo(t[n := Entry(base, n)], base, n + 1)
  {
  }

  /** The unused entries of the second level stay zero. */
  lemma {:induction false} SkipUnused(t: seq<nat>, base: nat)
    requires BuiltUpTo(t, base, P2 + P1_TABLES)
    ensures BuiltUpTo(t, base, P1)
  {
  }

  /** `map_p2_lo_loop`. */
  method MapP2(mem: array<nat>, base: nat)
    requires Linked(base) && BuiltUpTo(mem[..], base, P2)
    modifies mem
    ensures BuiltUpTo(mem[..], base, P1)
  {
    var p2, p1 := base + 8 * P2, base + 8 * P1;
    var rcx := 0;
    while rcx != P1_TABLES
      invariant 0 <= rcx <= P1_TABLES
      invariant BuiltUpTo(mem[..], base, P2 + rcx)
    {
      BuildOne(mem[..], base, P2 + rcx);
      var rax := Or3(512 * 8 * rcx) + p1;
      var rdx := 8 * rcx + p2;
      Store(mem, base, rdx, rax);
      rcx := rcx + 1;
    }
    SkipUnused(mem[..], base);
  }

  lemma {:induction false} PageEntry(base: nat, i: nat)
    requires i < ENTRIES * P1_TABLES
    ensures Or3(4096 * i) == Entry(base, P1 + i) && (8 * i + (base + 8 * P1) - base) / 8 == P1 + i
  {
    DivIs(4096 * i, 4, 1024 * i, 0);
    DivIs(8 * (P1 + i), 8, P1 + i, 0);
  }

  /** `map_p1_lo_loop`. */
  method MapP1(mem: array<nat>, base: nat)
    requires Linked(base) && BuiltUpTo(mem[..], base, P1)
    modifies mem
    ensures BuiltUpTo(mem[..], base, QWORDS)
  {
    var p1 := base + 8 * P1;
    var rcx := 0;
    while rcx != ENTRIES * P1_TABLES
      invariant 0 <= rcx <= ENTRIES * P1_TABLES
      invariant BuiltUpTo(mem[..], base, P1 + rcx)
    {
      BuildOne(mem[..], base, P1 + rcx);
      var rax := Or3(4096 * rcx);
      var rdx := 8 * rcx + p1;
      PageEntry(base, rcx);
      Store(mem, base, rdx, rax);
      rcx := rcx + 1;
    }
  }

  lemma {:induction false} UpperLevels(zero: seq<nat>, t: seq<nat>, base: nat)
    requires zero == seq(QWORDS, _ => 0)
    requires t == zero[0 := Entry(base, 0)][511 := Entry(base, 511)][P3 := Entry(base, P3)][P3 + 510 := Entry(base, P3 + 510)]
    ensures BuiltUpTo(t, base, P2)
  {
    forall k | 0 <= k < QWORDS
      ensures t[k] == if k < P2 then Entry(base, k) else 0
    {
    }
  }

  lemma {:induction false} AlignedBase(base: nat, n: nat)
    requires base % PAGE == 0
    ensures (base + PAGE * n) % PAGE == 0 && Or3(base + PAGE * n) == base + PAGE * n + 3
  {
    DivMod(base, PAGE);
    var q := base / PAGE + n;
    DivIs(base + PAGE * n, PAGE, q, 0);
    DivIs(base + PAGE * n, 4, 1024 * q, 0);
  }

  lemma {:induction false} UpperEntries(base: nat)
    requires Linked(base)
    ensures Or3(base + 8 * P3) == Entry(base, 0) == Entry(base, 511)
    ensures Or3(base + 8 * P2) == Entry(base, P3) == Entry(base, P3 + 510)
  {
    AlignedBase(base, 1);
    AlignedBase(base, 2);
  }

  /** The four stores into the upper levels. */
  method MapUpper(mem: array<nat>, base: nat)
    requires Linked(base) && mem[..] == seq(QWORDS, _ => 0)
    modifies mem
    ensures BuiltUpTo(mem[..], base, P2)
  {
    ghost var zero := mem[..];
    var p3, p2 := base + 8 * P3, base + 8 * P2;
    UpperEntries(base);
    Store(mem, base, base, Or3(p3));
    Store(mem, base, base + 511 * 8, Or3(p3));
    Store(mem, base, p3, Or3(p2));
    Store(mem, base, p3 + 510 * 8, Or3(p2));
    UpperLevels(zero, mem[..], base);
  }

  /** The set-up code, register by register, on zeroed memory. */
  method SetupPaging64(mem: array<nat>, base: nat)
    requires Linked(base) && mem[..] == seq(QWORDS, _ => 0)
    modifies mem
    ensures Built(mem[..], base)
  {
    MapUpper(mem, base);
    MapP2(mem, base);
    MapP1(mem, base);
  }

  // ---------- The walk of these tables ----------

  lemma {:induction false} FetchAt(t: seq<nat>, base: nat, table: nat, index: nat)
    requires Built(t, base) && table <= QWORDS && index < ENTRIES && table + index < QWORDS
    ensures Fetch(t, base, base + 8 * table, index) == Some(Entry(base, table + index))
  {
    DivIs(8 * (table + index), 8, table + index, 0);
  }

  /** An entry made of the number of a page below 4 GiB and the two low bits. */
  lemma {:induction false} FrameAt(n: nat)
    requires n < 0x10_0000
    ensures var e := PAGE * n + 3;
            Present(e) && Writable(e) && !Large(e) && Frame(e) == PAGE * n
  {
    PageEntryBits(n);
    DivIs(n, 0x100_0000_0000, 0, n);
  }

  lemma {:induction false} FrameOf(f: nat)
    requires f % PAGE == 0 && f < 0x1_0000_0000
    ensures Present(f + 3) && Writable(f + 3) && !Large(f + 3) && Frame(f + 3) == f
  {
    DivMod(f, PAGE);
    FrameAt(f / PAGE);
  }

  lemma {:induction false} IndicesBelow(v: nat)
    ensures Index1(v) < ENTRIES && Index2(v) < ENTRIES && Index3(v) < ENTRIES && Index4(v) < ENTRIES
  {
    DivMod(v / PAGE, ENTRIES);
    DivMod(v / PAGE / ENTRIES, ENTRIES);
    DivMod(v / PAGE / ENTRIES / ENTRIES, ENTRIES);
    DivMod(v / PAGE / ENTRIES / ENTRIES / ENTRIES, ENTRIES);
  }

  lemma {:induction false} Walk1Is(t: seq<nat>, base: nat, v: nat, i: nat)
    requires Built(t, base) && Linked(base) && i < P1_TABLES
    ensures Walk1(t, base, v, base + 8 * (P1 + ENTRIES * i), true)
            == Maps(PAGE * (ENTRIES * i + Index1(v)) + v % PAGE, true)
  {
    IndicesBelow(v);
    var n := ENTRIES * i + Index1(v);
    FetchAt(t, base, P1 + ENTRIES * i, Index1(v));
    assert Entry(base, P1 + n) == PAGE * n + 3;
    FrameAt(n);
  }

  lemma {:induction false} Walk2Is(t: seq<nat>, base: nat, v: nat)
    requires Built(t, base) && Linked(base)
    ensures Walk2(t, base, v, base + 8 * P2, true)
            == if Index2(v) < P1_TABLES then Maps(PAGE * (ENTRIES * Index2(v) + Index1(v)) + v % PAGE, true)
               else Fault
  {
    IndicesBelow(v);
    FetchAt(t, base, P2, Index2(v));
    if Index2(v) < P1_TABLES {
      AlignedBase(base, 3 + Index2(v));
      FrameOf(base + PAGE * (3 + Index2(v)));
      Walk1Is(t, base, v, Index2(v));
    }
  }

  lemma {:induction false} Walk3Is(t: seq<nat>, base: nat, v: nat)
    requires Built(t, base) && Linked(base)
    ensures Walk3(t, base, v, base + 8 * P3, true)
            == if Index3(v) in {0, 510} then Walk2(t, base, v, base + 8 * P2, true) else Fault
  {
    IndicesBelow(v);
    FetchAt(t, base, P3, Index3(v));
    AlignedBase(base, 2);
    FrameOf(base + 8 * P2);
  }

  lemma {:induction false} WalkIs(t: seq<nat>, base: nat, v: nat)
    requires Built(t, base) && Linked(base)
    ensures Walk(t, base, v)
            == if Canonical(v) && Index4(v) in {0, 511} then Walk3(t, base, v, base + 8 * P3, true) else Fault
  {
    IndicesBelow(v);
    FetchAt(t, base, 0, Index4(v));
    AlignedBase(base, 1);
    FrameOf(base + 8 * P3);
  }

  /** The indices are the base-512 digits of the page number. */
  lemma {:induction false} Digits(v: nat) returns (high: nat)
    requires v < WORD
    ensures v == PAGE * (Index1(v) + ENTRIES * (Index2(v) + ENTRIES * (Index3(v) + ENTRIES * (Index4(v) + ENTRIES * high))))
                 + v % PAGE
    ensures Index1(v) < ENTRIES && Index2(v) < ENTRIES && Index3(v) < ENTRIES && Index4(v) < ENTRIES && high < 0x1_0000
  {
    var a := v / PAGE;
    var b := a / ENTRIES;
    var c := b / ENTRIES;
    var d := c / ENTRIES;
    high := d / ENTRIES;
    assert v == PAGE * a + v % PAGE && a == ENTRIES * b + Index1(v) && b == ENTRIES * c + Index2(v);
    assert c == ENTRIES * d + Index3(v) && d == ENTRIES * high + Index4(v);
  }

  /** The windows in terms of indices. */
  lemma {:induction false} WindowIndices(v: nat, w: nat)
    requires v < WORD && w in {0, 0x7F_8000_0000, 0xFFFF_FF80_0000_0000, 0xFFFF_FFFF_8000_0000}
    ensures InWindow(v, w) <==>
            && Canonical(v) && Index2(v) < P1_TABLES
            && Index4(v) == (if w >= 0xFFFF_FF80_0000_0000 then 511 else 0)
            && Index3(v) == (if w == 0 || w == 0xFFFF_FF80_0000_0000 then 0 else 510)
    ensures InWindow(v, w) ==> PAGE * (ENTRIES * Index2(v) + Index1(v)) + v % PAGE == v - w
  {
    var high := Digits(v);
  }

  /** The tables map, writable, exactly the four windows, each onto the first 256 MiB of memory. */
  lemma {:induction false} TablesAreExact(t: seq<nat>, base: nat, v: nat)
    requires Built(t, base) && Linked(base) && v < WORD
    ensures forall w :: InWindow(v, w) ==> Walk(t, base, v) == Maps(v - w, true)
    ensures (forall w :: !InWindow(v, w)) ==> Walk(t, base, v) == Fault
  {
    WalkIs(t, base, v);
    Walk3Is(t, base, v);
    Walk2Is(t, base, v);
    WindowIndices(v, 0);
    WindowIndices(v, 0x7F_8000_0000);
    WindowIndices(v, 0xFFFF_FF80_0000_0000);
    WindowIndices(v, 0xFFFF_FFFF_8000_0000);
  }

  /** The identity map and the higher half at the kernel's offset. */
  lemma {:induction false} IdentityAndHigherHalf(t: seq<nat>, base: nat, v: nat)
    requires Built(t, base) && Linked(base) && v < WINDOW
    ensures Walk(t, base, v) == Maps(v, true)
    ensures Walk(t, base, 0xFFFF_FFFF_8000_0000 + v) == Maps(v, true)
  {
    TablesAreExact(t, base, v);
    TablesAreExact(t, base, 0xFFFF_FFFF_8000_0000 + v);
    assert InWindow(v, 0) && InWindow(0xFFFF_FFFF_8000_0000 + v, 0xFFFF_FFFF_8000_0000);
  }
}
