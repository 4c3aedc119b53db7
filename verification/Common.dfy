/** Vocabulary shared by the models of the kernel's components. */
module Common {

  /** An optional value: what the kernel expresses with a null pointer. */
  datatype Option<+T> = None | Some(value: T)

  /** A machine byte. */
  type Byte = x: int | 0 <= x < 256

  /** A C string: the bytes before the terminating NUL. */
  type CString = s: seq<Byte> | 0 !in s

  /** `ID_INVALID`, the reserved identifier. */
  const ID_INVALID: int := -1

  /** One more than the largest 64-bit `size_t`. */
  const WORD: nat := 0x1_0000_0000_0000_0000

  /** `HASHTABLE_CAPACITY`: every kernel table holds at most this many entries. */
  const TABLE_CAPACITY: nat := 256

  /** `add` on a table seen as a finite map: a full table is left alone. */
  function TableAdd<T>(m: map<int, T>, key: int, item: T): map<int, T> {
    if |m| < TABLE_CAPACITY then m[key := item] else m
  }

  /** The byte that `str_equal` and the path scanners read at index `i`. */
  function At(s: CString, i: nat): Byte
    requires i <= |s|
  {
    if i < |s| then s[i] else 0
  }

  lemma {:induction false} AddRemoveSize<T>(m: map<int, T>, key: int)
    requires key in m
    ensures |m - {key}| == |m| - 1
  {
    assert (m - {key}).Keys == m.Keys - {key};
    assert |m.Keys - {key}| == |m.Keys| - 1;
  }

  lemma {:induction false} AddThenDrop<T>(m: map<int, T>, key: int, item: T)
    requires key !in m
    ensures m[key := item] - {key} == m
  {
  }

  lemma {:induction false} JoinsAssociate<T>(a: seq<T>, b: seq<T>, c: seq<T>)
    ensures a + (b + c) == a + b + c
  {
  }

  lemma SomeKey<K, V>(m: map<K, V>) returns (key: K)
    requires |m| != 0
    ensures key in m
  {
    key :| key in m;
  }

  /** `align_ceiling`: zero is rounded up to one whole unit. */
  function AlignCeiling(n: nat, align: nat): (r: nat)
    requires align > 0
  {
    if n == 0 then align else align + align * ((n - 1) / align)
  }

  /** The least number of units of size `align`, but at least one, that hold `n` bytes. */
  function Units(n: nat, align: nat): nat
    requires align > 0
  {
    if n == 0 then 1 else (n - 1) / align + 1
  }

  lemma {:induction false} AlignCeilingIsLeast(n: nat, align: nat)
    requires align > 0
    ensures AlignCeiling(n, align) == align * Units(n, align)
    ensures AlignCeiling(n, align) >= n && AlignCeiling(n, align) >= align
    ensures n > 0 ==> AlignCeiling(n, align) < n + align
  {
    if n > 0 {
      var q := (n - 1) / align;
      assert n - 1 == align * q + (n - 1) % align;
      assert align * (q + 1) == align * q + align;
    }
  }
}
