/** The kernel's memory pool: the packed two-bit map, its geometry, and allocation over whole runs. */
module Pool {
  import opened Arith
  import opened Common
  import opened Blocks

  // ---------- The packed map ----------

  function Code(s: Status): bv8 {
    match s
    case Error => 0
    case Unused => 1
    case Tail => 2
    case Head => 3
  }

  function Decode(b: bv8): Status {
    if b == 0 then Error else if b == 1 then Unused else if b == 2 then Tail else Head
  }

  /** The two bits of a byte at `shift`, and the byte with them replaced. */
  function Field(b: bv8, shift: nat): bv8
    requires shift in {0, 2, 4, 6}
  {
    if shift == 0 then b & 3 else if shift == 2 then (b >> 2) & 3 else if shift == 4 then (b >> 4) & 3 else (b >> 6) & 3
  }

  function WithField(b: bv8, shift: nat, v: bv8): bv8
    requires shift in {0, 2, 4, 6}
  {
    if shift == 0 then (b & !3) | v
    else if shift == 2 then (b & !(3 << 2)) | (v << 2)
    else if shift == 4 then (b & !(3 << 4)) | (v << 4)
    else (b & !(3 << 6)) | (v << 6)
  }

  /** Setting one field of a byte sets that field and no other. */
  lemma {:induction false} FieldLaw(b: bv8, k: nat, i: nat, s: Status)
    requires k in {0, 2, 4, 6} && i in {0, 2, 4, 6}
    ensures Decode(Field(WithField(b, k, Code(s)), i)) == if i == k then s else Decode(Field(b, i))
  {
  }

  function SlotAt(bytes: seq<bv8>, i: nat): Status
    requires i < 4 * |bytes|
  {
    Decode(Field(bytes[i / 4], i % 4 * 2))
  }

  lemma {:induction false} SetSlot(bytes: seq<bv8>, k: nat, s: Status, i: nat)
    requires k < 4 * |bytes| && i < 4 * |bytes|
    ensures SlotAt(bytes[k / 4 := WithField(bytes[k / 4], k % 4 * 2, Code(s))], i) == if i == k then s else SlotAt(bytes, i)
  {
    FieldLaw(bytes[k / 4], k % 4 * 2, i % 4 * 2, s);
    assert i == 4 * (i / 4) + i % 4 && k == 4 * (k / 4) + k % 4;
  }

  // ---------- Geometry ----------

  /** Where `pool_construct` puts the body, and how many blocks it counts. */
  function BodyOf(start: nat): nat {
    (start + (start - AlignCeiling(start, 16)) % WORD) % WORD
  }

  function SizeOf(start: nat, size: nat): nat {
    (size - (start - AlignCeiling(start, 16)) % WORD) % WORD
  }

  function CountOf(size: nat, blockSize: nat): nat {
    (4 * size % WORD) / ((4 * blockSize + 1) % WORD)
  }

  /** The bytes a map of `count` two-bit slots takes. */
  function PackedMap(count: nat): nat {
    (count + 3) / 4
  }

  /** Adding a difference that wrapped below zero takes it off again. */
  lemma {:induction false} WrapBack(start: nat, d: nat)
    requires start < WORD && d <= 16
    ensures (start + (0 - d) % WORD) % WORD == if d <= start then start - d else WORD + start - d
  {
    if d > 0 {
      assert (0 - d) % WORD == WORD - d;
    }
  }

  /** How far the start of a region is from the aligned address the source rounds it up to. */
  function Gap16(start: nat): nat {
    if start == 0 then 16 else if start % 16 == 0 then 0 else 16 - start % 16
  }

  lemma {:induction false} BodyIs(start: nat)
    requires start < WORD
    ensures BodyOf(start) == if Gap16(start) <= start then start - Gap16(start) else WORD + start - Gap16(start)
  {
    AlignCeilingIsLeast(start, 16);
    assert AlignCeiling(start, 16) == start + Gap16(start);
    WrapBack(start, Gap16(start));
  }

  /** The body starts where the region does exactly when the region is aligned and does not start at zero.
      Otherwise the source moves it the wrong way, as far down as the next aligned address is up, below the
      region or round to the top of memory, and to an aligned address only when `start` is a multiple of 8. */
  lemma {:induction false} BodyInRegion(start: nat)
    requires start < WORD
    ensures BodyOf(start) == start <==> start > 0 && start % 16 == 0
    ensures BodyOf(start) < start <==> start >= 8 && start % 16 != 0
    ensures BodyOf(start) % 16 == 0 <==> start % 8 == 0
    ensures (BodyOf(start) + AlignCeiling(start, 16)) % WORD == 2 * start % WORD
  {
    BodyIs(start);
    Mirrored(start, BodyOf(start));
    Halfway(start, BodyOf(start));
  }

  lemma {:induction false} Mirrored(start: nat, body: nat)
    requires start < WORD
    requires body == if Gap16(start) <= start then start - Gap16(start) else WORD + start - Gap16(start)
    ensures (body + AlignCeiling(start, 16)) % WORD == 2 * start % WORD
  {
    AlignCeilingIsLeast(start, 16);
    assert AlignCeiling(start, 16) == start + Gap16(start);
  }

  lemma {:induction false} Halfway(start: nat, body: nat)
    requires start < WORD
    requires body == if Gap16(start) <= start then start - Gap16(start) else WORD + start - Gap16(start)
    ensures body % 16 == 0 <==> start % 8 == 0
  {
    var q, r := start / 16, start % 16;
    var top := if Gap16(start) <= start then 0 else WORD / 16;
    if start > 0 {
      if r < 8 {
        DivIs(start, 8, 2 * q, r);
        if r > 0 {
          DivIs(body, 16, top + q - 1, 2 * r);
        }
      } else {
        DivIs(start, 8, 2 * q + 1, r - 8);
        DivIs(body, 16, top + q, 2 * r - 16);
      }
    }
  }

  /** However the body is moved, it is taken to end where the region does. */
  lemma {:induction false} RegionEndsSame(start: nat, size: nat)
    requires start < WORD && size < WORD
    ensures (BodyOf(start) + SizeOf(start, size)) % WORD == (start + size) % WORD
  {
    var diff := (start - AlignCeiling(start, 16)) % WORD;
    WrapSum(start, size, diff);
  }

  lemma {:induction false} WrapSum(start: nat, size: nat, diff: nat)
    requires start < WORD && size < WORD && diff < WORD
    ensures ((start + diff) % WORD + (size - diff) % WORD) % WORD == (start + size) % WORD
  {
    assert (start + diff) % WORD == if start + diff < WORD then start + diff else start + diff - WORD;
    assert (size - diff) % WORD == if size >= diff then size - diff else size - diff + WORD;
  }

  /** Without overflow the count is the quotient of four times the size by `4 * blockSize + 1`. */
  lemma {:induction false} CountIsQuotient(size: nat, blockSize: nat) returns (whole: nat, left: nat)
    requires 0 < blockSize && 4 * size < WORD && 4 * blockSize + 1 < WORD
    ensures left == 4 * size % (4 * blockSize + 1) && left <= 4 * blockSize
    ensures whole == CountOf(size, blockSize) * (4 * blockSize + 1) && 4 * size == whole + left
  {
    var x, d := 4 * size, 4 * blockSize + 1;
    assert x % WORD == x && d % WORD == d;
    DivMod(x, d);
    left := x % d;
    whole := x / d * d;
  }

  lemma {:induction false} Product(c: nat, blockSize: nat)
    ensures c * (4 * blockSize + 1) == 4 * (blockSize * c) + c
  {
  }

  lemma {:induction false} MapFits(x: nat, c: nat, size: nat)
    ensures x + PackedMap(c) <= size <==> 4 * x + c <= 4 * size
  {
  }

  lemma {:induction false} MultipleFits(c: nat, n: nat, d: nat, left: nat)
    requires left < d
    ensures c * d <= n * d + left <==> c <= n
  {
    if c <= n {
      MulMono(c, n, d);
    } else {
      MulMono(n + 1, c, d);
      assert (n + 1) * d == n * d + d;
    }
  }

  /** On an aligned region the block count is the largest whose blocks and packed map fit. */
  lemma {:induction false} CountIsLargest(start: nat, size: nat, blockSize: nat, c: nat)
    requires 16 <= start < WORD - 16 && start % 16 == 0 && 0 < blockSize
    requires 4 * size < WORD && 4 * blockSize + 1 < WORD
    ensures SizeOf(start, size) == size
    ensures blockSize * c + PackedMap(c) <= size <==> c <= CountOf(size, blockSize)
  {
    AlignedKeepsSize(start, size);
    var whole, left := CountIsQuotient(size, blockSize);
    Product(c, blockSize);
    MapFits(blockSize * c, c, size);
    MultipleFits(c, CountOf(size, blockSize), 4 * blockSize + 1, left);
  }

  lemma {:induction false} AlignedKeepsSize(start: nat, size: nat)
    requires 16 <= start < WORD - 16 && start % 16 == 0 && size < WORD
    ensures SizeOf(start, size) == size
  {
    AlignCeilingIsLeast(start, 16);
    assert AlignCeiling(start, 16) == start;
  }

  /** The clearing loop writes one byte, not two bits, for each block: it stays inside the region
      exactly when the division leaves a remainder of at least three for each block. */
  lemma {:induction false} ClearingLoopFits(size: nat, blockSize: nat)
    requires 0 < blockSize && 4 * size < WORD && 4 * blockSize + 1 < WORD
    ensures var n := CountOf(size, blockSize);
            blockSize * n + n <= size <==> 3 * n <= 4 * size % (4 * blockSize + 1)
  {
    var whole, left := CountIsQuotient(size, blockSize);
    Product(CountOf(size, blockSize), blockSize);
  }

  /** The kernel's own pool, 16 MiB in blocks of 64 bytes, is cleared past its end. */
  lemma {:induction false} KernelPoolOverrun()
    ensures var size, n := 4096 * 4096, CountOf(4096 * 4096, 64);
            && n == 261123
            && 64 * n + PackedMap(n) <= size < 64 * n + n
  {
  }

  // ---------- The pool ----------

  /** The blocks `pool_alloc` looks for, in `size_t` arithmetic. */
  function BlocksNeeded(n: nat, blockSize: nat): nat
    requires blockSize > 0
  {
    AlignCeiling(n, blockSize) % WORD / blockSize
  }

  /** A request that rounds up past a word comes to no block at all, and is larger than one. */
  lemma {:induction false} RoundsOver(n: nat, blockSize: nat)
    requires 0 < blockSize < WORD && n < WORD && AlignCeiling(n, blockSize) >= WORD
    ensures BlocksNeeded(n, blockSize) == 0 && blockSize < n
  {
    AlignCeilingIsLeast(n, blockSize);
    var a, u := AlignCeiling(n, blockSize), Units(n, blockSize);
    assert a % WORD == a - WORD;
    DivIs(a - WORD, blockSize, 0, a - WORD);
    assert u >= 2;
    MulMono(2, u, blockSize);
  }

  /** The blocks granted hold the request exactly when rounding up does not wrap around; when it does, a
      single block is granted for all of them. */
  lemma {:induction false} BlocksNeededSuffice(n: nat, blockSize: nat)
    requires 0 < blockSize < WORD && n < WORD
    ensures Length(BlocksNeeded(n, blockSize)) * blockSize >= n <==> AlignCeiling(n, blockSize) < WORD
    ensures AlignCeiling(n, blockSize) < WORD ==> BlocksNeeded(n, blockSize) == Units(n, blockSize)
    ensures AlignCeiling(n, blockSize) >= WORD ==> BlocksNeeded(n, blockSize) == 0
  {
    var a, u := AlignCeiling(n, blockSize), Units(n, blockSize);
    if a < WORD {
      AlignCeilingIsLeast(n, blockSize);
      assert a == u * blockSize && a % WORD == a;
      DivIs(a, blockSize, u, 0);
      assert Length(u) == u;
    } else {
      RoundsOver(n, blockSize);
      assert Length(0) * blockSize == blockSize;
    }
  }

  /** The largest request, in blocks of the kernel's size, comes to a single block. */
  lemma {:induction false} LargestRequest()
    ensures BlocksNeeded(WORD - 1, 64) == 0 && Length(BlocksNeeded(WORD - 1, 64)) * 64 == 64 < WORD - 1
  {
    assert (WORD - 2) / 64 == WORD / 64 - 1;
    RoundsOver(WORD - 1, 64);
  }

  // ---------- The search in words ----------

  /** The search as the source computes it, with the end of the inner loop in a word. */
  function WordSearch(m: Map, i: nat, n: nat): (c: Choice)
    requires i <= |m|
    decreases |m| - i
  {
    if i == |m| then Null
    else if m[i] != Unused then WordSearch(m, i + 1, n)
    else
      var limit := (i + n) % WORD;
      var stop := Scan(m, i, limit);
      if stop >= limit then At(i)
      else if stop == |m| then Panic
      else WordSearch(m, stop + 1, n)
  }

  /** The same as `Search` while that end does not wrap around. */
  lemma {:induction false} WordSearchIs(m: Map, i: nat, n: nat)
    requires i <= |m| && |m| + n <= WORD
    ensures WordSearch(m, i, n) == Search(m, i, n)
    decreases |m| - i
  {
    if i < |m| {
      assert (i + n) % WORD == i + n;
      var stop := Scan(m, i, i + n);
      if m[i] != Unused {
        WordSearchIs(m, i + 1, n);
      } else if stop < i + n && stop < |m| {
        WordSearchIs(m, stop + 1, n);
      }
    }
  }

  /** When it wraps, which takes blocks of a single byte, a block is granted that has no room: the tails are
      then written past the end of the map. */
  lemma {:induction false} OneByteOverrun()
    ensures BlocksNeeded(WORD - 1, 1) == WORD - 1
    ensures WordSearch([Head, Unused], 0, WORD - 1) == At(1) && 1 + Length(WORD - 1) > |[Head, Unused]|
  {
    DivIs(WORD - 2, 1, WORD - 2, 0);
    DivIs(WORD - 1, 1, WORD - 1, 0);
    assert (1 + (WORD - 1)) % WORD == 0;
    assert WordSearch([Head, Unused], 1, WORD - 1) == At(1);
  }

  datatype Grant = Panicked | Refused | Granted(address: nat)

  /** The clearing loop of `pool_construct`, a byte for each block. */
  method ClearMap(count: nat) returns (bytes: array<bv8>)
    ensures fresh(bytes) && bytes.Length == count && IsClear(bytes[..])
  {
    bytes := new bv8[count];
    for i := 0 to count
      invariant IsClear(bytes[..i])
    {
      bytes[i] := 1 | (1 << 2) | (1 << 4) | (1 << 6);
    }
    assert bytes[..] == bytes[..count];
  }

  ghost predicate IsClear(bytes: seq<bv8>) {
    forall k :: 0 <= k < |bytes| ==> bytes[k] == 0x55
  }

  lemma {:induction false} ClearSlots(bytes: seq<bv8>)
    requires IsClear(bytes)
    ensures forall i {:trigger SlotAt(bytes, i)} :: 0 <= i < 4 * |bytes| ==> SlotAt(bytes, i) == Unused
  {
    forall i {:trigger SlotAt(bytes, i)} | 0 <= i < 4 * |bytes|
      ensures SlotAt(bytes, i) == Unused
    {
      assert bytes[i / 4] == 0x55;
      ClearField(i % 4 * 2);
    }
  }

  lemma {:induction false} ClearField(shift: nat)
    requires shift in {0, 2, 4, 6}
    ensures Decode(Field(0x55, shift)) == Unused
  {
  }

  class MemoryPool {
    const mapBytes: array<bv8>
    const body: nat
    const blockSize: nat
    const blockCount: nat

    /** The statuses that the packed map holds. */
    ghost var blocks: Map

    ghost predicate Valid()
      reads this, mapBytes
    {
      && 0 < blockSize < WORD
      && mapBytes.Length == blockCount == |blocks|
      && forall i {:trigger SlotAt(mapBytes[..], i)} :: 0 <= i < blockCount ==> SlotAt(mapBytes[..], i) == blocks[i]
    }

    /** The body lies in memory, so that block addresses do not wrap around. */
    ghost predicate Placed() {
      body + blockCount * blockSize < WORD
    }

    constructor (start: nat, size: nat, blockSize: nat)
      requires 0 < blockSize < WORD && start < WORD && size < WORD
      ensures Valid() && fresh(mapBytes)
      ensures body == BodyOf(start) && this.blockSize == blockSize
      ensures blockCount == CountOf(SizeOf(start, size), blockSize)
      ensures Shows(blocks, map[])
    {
      var diff := (start - AlignCeiling(start, 16)) % WORD;
      var begin := (start + diff) % WORD;
      var length := (size - diff) % WORD;
      var count := 4 * (length + begin - begin) % WORD / ((4 * blockSize + 1) % WORD);
      assert begin == BodyOf(start) && length == SizeOf(start, size) && count == CountOf(length, blockSize);
      var bytes := ClearMap(count);
      this.blockSize := blockSize;
      body := begin;
      blockCount := count;
      mapBytes := bytes;
      blocks := seq(count, _ => Unused);
      EmptyShows(count);
      ClearSlots(bytes[..]);
    }

    /** The map is backed by a byte for each block, so the slot after the last block can be read too. */
    method Get(index: nat) returns (s: Status)
      requires Valid() && index < 4 * blockCount
      ensures index < blockCount ==> s == blocks[index]
    {
      var byteIndex, bitOffset := index / 4, (index % 4) * 2;
      s := Decode(Field(mapBytes[byteIndex], bitOffset));
      assert s == SlotAt(mapBytes[..], index);
    }

    method Set(index: nat, s: Status)
      requires Valid() && index < blockCount
      modifies this`blocks, mapBytes
      ensures Valid()
      ensures blocks == old(blocks)[index := s]
    {
      var byteIndex, bitOffset := index / 4, (index % 4) * 2;
      ghost var was := mapBytes[..];
      blocks := blocks[index := s];
      mapBytes[byteIndex] := WithField(mapBytes[byteIndex], bitOffset, Code(s));
      assert mapBytes[..] == was[index / 4 := WithField(was[index / 4], index % 4 * 2, Code(s))];
      forall k | 0 <= k < blockCount
        ensures SlotAt(mapBytes[..], k) == if k == index then s else SlotAt(was, k)
      {
        SetSlot(was, index, s, k);
      }
    }

    /** The inner loop of `pool_alloc`: it moves on from an unused block until `limit` or a used block,
        and panics at the end of the map. */
    method Measure(start: nat, limit: nat) returns (i: nat, panics: bool)
      requires Valid() && start < blockCount
      ensures i == Scan(blocks, start, limit)
      ensures panics <==> i < limit && i == blockCount
    {
      i := start;
      while i < limit
        invariant start <= i <= blockCount && (start <= limit ==> i <= limit)
        invariant Scan(blocks, start, limit) == Scan(blocks, i, limit)
      {
        if i == blockCount {
          return i, true;
        }
        var s := Get(i);
        if s != Unused {
          return i, false;
        }
        i := i + 1;
      }
      return i, false;
    }

    /** The end of `pool_alloc`: HEAD at the first block, TAIL on the rest. */
    method Claim(start: nat, needed: nat)
      requires Valid() && start + Length(needed) <= blockCount
      modifies this`blocks, mapBytes
      ensures Valid()
      ensures blocks == Claimed(old(blocks), start, Length(needed))
    {
      ghost var m := blocks;
      Set(start, Head);
      var k := 1;
      while k < needed
        invariant 1 <= k <= Length(needed)
        invariant Valid() && blocks == Claimed(m, start, k)
      {
        Set(start + k, Tail);
        k := k + 1;
      }
    }

    /** The search loop of `pool_alloc`. */
    method Find(needed: nat) returns (c: Choice)
      requires Valid()
      ensures c == WordSearch(blocks, 0, needed)
    {
      var i := 0;
      while i < blockCount
        invariant i <= blockCount
        invariant WordSearch(blocks, 0, needed) == WordSearch(blocks, i, needed)
        decreases blockCount - i
      {
        var s := Get(i);
        if s == Unused {
          var start, limit, panics := i, (i + needed) % WORD, false;
          i, panics := Measure(start, limit);
          if panics {
            return Panic;
          }
          if i >= limit {
            return At(start);
          }
        }
        i := i + 1;
      }
      return Null;
    }

    /** A request is a word, and with blocks of a single byte must not reach round the top of memory. */
    ghost predicate Asks(n: nat) {
      n < WORD && (blockSize == 1 ==> blockCount + n < WORD)
    }

    /** The address of something aligned lies in the pool, because the source reads its map at that
        address's block. */
    ghost predicate Answers(address: nat)
      requires blockSize > 0
    {
      address < WORD && ((address - body) % WORD % blockSize == 0 ==> body <= address < body + blockCount * blockSize)
    }

    ghost predicate Serves(r: Request)
      requires blockSize > 0
    {
      match r
      case Get(n) => Asks(n)
      case Give(address) => Answers(address)
    }

    method Alloc(n: nat) returns (g: Grant)
      requires Valid() && Placed() && Asks(n)
      modifies this`blocks, mapBytes
      ensures Valid() && blocks == MapStep(old(blocks), Op.Alloc(BlocksNeeded(n, blockSize)))
      ensures var c, length := Search(old(blocks), 0, BlocksNeeded(n, blockSize)), Length(BlocksNeeded(n, blockSize));
              if c.At? then
                && c.start + length <= blockCount
                && g == Granted(body + c.start * blockSize)
                && (length * blockSize >= n <==> AlignCeiling(n, blockSize) < WORD)
                && blocks == Claimed(old(blocks), c.start, length)
              else
                g == (if c.Panic? then Panicked else Refused) && blocks == old(blocks)
    {
      var needed := AlignCeiling(n, blockSize) % WORD / blockSize;
      BlocksNeededSuffice(n, blockSize);
      NoWrap(n, blockSize, blockCount);
      var c := Find(needed);
      WordSearchIs(blocks, 0, needed);
      SearchHasRoom(blocks, needed);
      match c
      case Panic => return Panicked;
      case Null => return Refused;
      case At(start) =>
        Claim(start, needed);
        return Granted(body + start * blockSize);
    }

    /** The end of `pool_dealloc`: the head and the run of tails after it become unused. */
    method Release(index: nat)
      requires Valid() && index < blockCount
      modifies this`blocks, mapBytes
      ensures Valid()
      ensures blocks == Released(old(blocks), index)
    {
      ghost var m := blocks;
      Set(index, Unused);
      ClearedMore(m, index, index);
      assert Cleared(m, index, index) == m;
      var i := index + 1;
      var t := Get(i);
      assert i < blockCount ==> blocks[i] == m[i];
      while t == Tail && i < blockCount
        invariant index < i <= blockCount
        invariant i < blockCount ==> t == m[i]
        invariant Valid() && blocks == Cleared(m, index, i)
        invariant TailEnd(m, index + 1) == TailEnd(m, i)
        decreases blockCount - i
      {
        ClearedMore(m, index, i);
        Set(i, Unused);
        i := i + 1;
        t := Get(i);
      }
    }

    /** An address of anything but the first block of an allocation panics. */
    method Dealloc(address: nat) returns (done: bool)
      requires Valid() && Placed() && Answers(address)
      modifies this`blocks, mapBytes
      ensures Valid()
      ensures blocks == match OpAt(address, body, blockSize)
                        case None => old(blocks)
                        case Some(op) => MapStep(old(blocks), op)
      ensures match OpAt(address, body, blockSize)
              case None => !done
              case Some(op) => op.block < blockCount && (done <==> old(blocks)[op.block] == Head)
    {
      var index := (address - body) % WORD;
      if index % blockSize != 0 {
        return false;
      }
      DivLess(index, blockSize, blockCount);
      index := index / blockSize;
      var s := Get(index);
      if s != Head {
        return false;
      }
      Release(index);
      return true;
    }
  }

  /** The release that an address stands for: none when it is not the start of a block. */
  function OpAt(address: nat, body: nat, blockSize: nat): (op: Option<Op>)
    requires blockSize > 0
    ensures op.Some? ==> op.value.Free?
  {
    var index := (address - body) % WORD;
    if index % blockSize != 0 then None else Some(Free(index / blockSize))
  }

  lemma {:induction false} SearchHasRoom(m: Map, n: nat)
    ensures Search(m, 0, n).At? ==> Search(m, 0, n).start + Length(n) <= |m|
  {
    ZeroActsAsOne(m, 0);
    FirstFit(m, Length(n));
  }

  /** With larger blocks, or a request that is not too long, the end of the inner loop does not wrap. */
  lemma {:induction false} NoWrap(n: nat, blockSize: nat, blockCount: nat)
    requires 0 < blockSize && n < WORD && blockCount * blockSize < WORD
    requires blockSize == 1 ==> blockCount + n < WORD
    ensures blockCount + BlocksNeeded(n, blockSize) <= WORD
  {
    var needed := BlocksNeeded(n, blockSize);
    if blockSize == 1 {
      AlignCeilingIsLeast(n, 1);
      BlocksNeededSuffice(n, 1);
    } else {
      DivMod(AlignCeiling(n, blockSize) % WORD, blockSize);
      MulMono(2, blockSize, needed);
      MulMono(2, blockSize, blockCount);
    }
  }

  /** The address granted for a block names that block again. */
  lemma {:induction false} AddressNamesBlock(body: nat, block: nat, blockSize: nat, blockCount: nat)
    requires blockSize > 0 && block < blockCount && body + blockCount * blockSize < WORD
    ensures body <= body + block * blockSize < body + blockCount * blockSize
    ensures OpAt(body + block * blockSize, body, blockSize) == Some(Free(block))
  {
    DivIs(block * blockSize, blockSize, block, 0);
    MulMono(block + 1, blockCount, blockSize);
    assert (block + 1) * blockSize == block * blockSize + blockSize;
  }

  /** The address granted leads back to the block that was chosen, and releasing it restores the map. */
  lemma {:induction false} GrantReturns(m: Map, live: Ledger, needed: nat, address: nat, body: nat, blockSize: nat)
    requires Shows(m, live) && Search(m, 0, needed).At? && blockSize > 0 && body + |m| * blockSize < WORD
    requires address == body + Search(m, 0, needed).start * blockSize
    ensures body <= address < body + |m| * blockSize
    ensures var claimed := MapStep(m, Op.Alloc(needed));
            match OpAt(address, body, blockSize)
            case None => false
            case Some(op) => op.block < |m| && claimed[op.block] == Head && MapStep(claimed, op) == m
  {
    ReleaseInvertsGrant(m, live, needed);
    AddressNamesBlock(body, Search(m, 0, needed).start, blockSize, |m|);
  }

  /** Releasing a granted pointer restores the map, whatever else is allocated. */
  method AllocThenDealloc(p: MemoryPool, n: nat, ghost live: Ledger) returns (g: Grant, done: bool)
    requires p.Valid() && p.Placed() && p.Asks(n) && Shows(p.blocks, live)
    modifies p`blocks, p.mapBytes
    ensures p.Valid() && (done <==> g.Granted?)
    ensures p.blocks == old(p.blocks)
  {
    ghost var m := p.blocks;
    g := p.Alloc(n);
    done := false;
    if g.Granted? {
      GrantReturns(m, live, BlocksNeeded(n, p.blockSize), g.address, p.body, p.blockSize);
      done := p.Dealloc(g.address);
    }
  }

  // ---------- Runs in bytes and addresses ----------

  /** What callers ask of a pool. */
  datatype Request = Get(bytes: nat) | Give(address: nat)

  /** The block operation that a request comes to; a pointer that is not the start of a block comes to none. */
  function OpOf(r: Request, body: nat, blockSize: nat): (ops: seq<Op>)
    requires blockSize > 0
    ensures |ops| <= 1
  {
    match r
    case Get(n) => [Op.Alloc(BlocksNeeded(n, blockSize))]
    case Give(address) => match OpAt(address, body, blockSize)
                          case None => []
                          case Some(op) => [op]
  }

  function OpsOf(requests: seq<Request>, body: nat, blockSize: nat): seq<Op>
    requires blockSize > 0
  {
    if requests == [] then [] else OpOf(requests[0], body, blockSize) + OpsOf(requests[1..], body, blockSize)
  }

  lemma {:induction false} OpsStep(m: Map, r: Request, requests: seq<Request>, body: nat, blockSize: nat)
    requires blockSize > 0 && requests != [] && requests[0] == r
    ensures MapRun(m, OpsOf(requests, body, blockSize))
            == MapRun(MapRun(m, OpOf(r, body, blockSize)), OpsOf(requests[1..], body, blockSize))
  {
    var a, b := OpOf(r, body, blockSize), OpsOf(requests[1..], body, blockSize);
    if a == [] {
      assert a + b == b;
    } else {
      assert (a + b)[1..] == b && a[1..] == [];
      assert MapRun(m, a) == MapStep(m, a[0]);
    }
  }

  /** The bytes of live allocations are pairwise disjoint and inside the pool's body. */
  ghost predicate BytesApart(live: Ledger, body: nat, blockSize: nat, blockCount: nat) {
    && (forall s :: s in live ==> body + (s + live[s]) * blockSize <= body + blockCount * blockSize)
    && (forall s, t :: s in live && t in live && s < t ==>
          body + (s + live[s]) * blockSize <= body + t * blockSize)
  }

  lemma {:induction false} DisjointBytes(live: Ledger, body: nat, blockSize: nat, blockCount: nat)
    requires Disjoint(live, blockCount)
    ensures BytesApart(live, body, blockSize, blockCount)
  {
    forall s, t | s in live && t in live && s < t
      ensures (s + live[s]) * blockSize <= t * blockSize
    {
      MulMono(s + live[s], t, blockSize);
    }
    forall s | s in live
      ensures (s + live[s]) * blockSize <= blockCount * blockSize
    {
      MulMono(s + live[s], blockCount, blockSize);
    }
  }

  /** What a caller gets: the answer to a request for bytes, or whether a release went through. */
  datatype Answer = Got(grant: Grant) | Took(done: bool)

  /** The allocation that a granted request stands for is live: it starts at the address granted, and has room
      for the bytes requested exactly when rounding them up did not wrap around. */
  ghost predicate Held(r: Request, a: Answer, live: Ledger, body: nat, blockSize: nat)
    requires blockSize > 0
  {
    r.Get? && a.Got? && a.grant.Granted? ==>
      exists s :: s in live && Holds(r.bytes, a.grant.address, s, live, body, blockSize)
  }

  ghost predicate Holds(bytes: nat, address: nat, s: nat, live: Ledger, body: nat, blockSize: nat)
    requires blockSize > 0 && s in live
  {
    && address == body + s * blockSize && live[s] == Length(BlocksNeeded(bytes, blockSize))
    && (live[s] * blockSize >= bytes <==> AlignCeiling(bytes, blockSize) < WORD)
  }

  /** Everything live stays as it is but what a release names. */
  ghost predicate Spares(r: Request, live: Ledger, live': Ledger, body: nat, blockSize: nat) {
    forall s :: s in live && r != Give(body + s * blockSize) ==> s in live' && live'[s] == live[s]
  }

  lemma {:induction false} StepSpares(live: Ledger, size: nat, op: Op, live': Ledger, r: Request, body: nat, blockSize: nat)
    requires Disjoint(live, size) && LedgerStep(live, size, op, live')
    requires op.Free? ==> r == Give(body + op.block * blockSize)
    ensures Spares(r, live, live', body, blockSize)
  {
    forall s | s in live && r != Give(body + s * blockSize)
      ensures s in live' && live'[s] == live[s]
    {
      assert live[s] > 0 && op != Free(s);
      OthersStay(live, size, op, live', s);
    }
  }

  /** An address in the pool that names a block is that block's. */
  lemma {:induction false} NamedBlock(address: nat, body: nat, blockSize: nat)
    requires blockSize > 0 && body <= address < WORD && OpAt(address, body, blockSize).Some?
    ensures address == body + OpAt(address, body, blockSize).value.block * blockSize
  {
    DivMod(address - body, blockSize);
  }

  method GetOne(p: MemoryPool, n: nat, ghost live: Ledger) returns (g: Grant, ghost live': Ledger)
    requires p.Valid() && p.Placed() && p.Asks(n) && Shows(p.blocks, live)
    modifies p`blocks, p.mapBytes
    ensures p.Valid() && Shows(p.blocks, live')
    ensures p.blocks == MapStep(old(p.blocks), Op.Alloc(BlocksNeeded(n, p.blockSize)))
    ensures Held(Get(n), Got(g), live', p.body, p.blockSize) && Spares(Get(n), live, live', p.body, p.blockSize)
  {
    ghost var m, needed := p.blocks, BlocksNeeded(n, p.blockSize);
    g := p.Alloc(n);
    live' := StepRefines(m, live, Op.Alloc(needed));
    StepSpares(live, |m|, Op.Alloc(needed), live', Get(n), p.body, p.blockSize);
    if g.Granted? {
      ghost var s := Search(m, 0, needed).start;
      GrantShown(m, live, live', needed);
      assert Holds(n, g.address, s, live', p.body, p.blockSize);
    }
  }

  /** The ledger after a granted search has the allocation that the search chose. */
  lemma {:induction false} GrantShown(m: Map, live: Ledger, live': Ledger, n: nat)
    requires Shows(m, live) && Search(m, 0, n).At? && Shows(MapStep(m, Op.Alloc(n)), live')
    ensures var s := Search(m, 0, n).start;
            s in live' && live'[s] == Length(n)
  {
    var s := Search(m, 0, n).start;
    ZeroActsAsOne(m, 0);
    FirstFit(m, Length(n));
    ClaimShows(m, live, s, Length(n));
    MapDeterminesLedger(MapStep(m, Op.Alloc(n)), live', live[s := Length(n)]);
  }

  method GiveOne(p: MemoryPool, address: nat, ghost live: Ledger) returns (done: bool, ghost live': Ledger)
    requires p.Valid() && p.Placed() && p.Answers(address) && Shows(p.blocks, live)
    modifies p`blocks, p.mapBytes
    ensures p.Valid() && Shows(p.blocks, live')
    ensures p.blocks == MapRun(old(p.blocks), OpOf(Give(address), p.body, p.blockSize))
    ensures Spares(Give(address), live, live', p.body, p.blockSize)
  {
    ghost var m, op := p.blocks, OpAt(address, p.body, p.blockSize);
    done := p.Dealloc(address);
    live' := live;
    if op.Some? {
      NamedBlock(address, p.body, p.blockSize);
      live' := StepRefines(m, live, op.value);
      StepSpares(live, |m|, op.value, live', Give(address), p.body, p.blockSize);
      assert [op.value][1..] == [];
    }
  }

  method ServeOne(p: MemoryPool, r: Request, ghost live: Ledger) returns (a: Answer, ghost live': Ledger)
    requires p.Valid() && p.Placed() && p.Serves(r) && Shows(p.blocks, live)
    modifies p`blocks, p.mapBytes
    ensures p.Valid() && Shows(p.blocks, live')
    ensures p.blocks == MapRun(old(p.blocks), OpOf(r, p.body, p.blockSize))
    ensures Held(r, a, live', p.body, p.blockSize) && Spares(r, live, live', p.body, p.blockSize)
  {
    match r {
      case Get(n) =>
        var g;
        g, live' := GetOne(p, n, live);
        a := Got(g);
        assert OpOf(r, p.body, p.blockSize)[1..] == [];
      case Give(address) =>
        var done;
        done, live' := GiveOne(p, address, live);
        a := Took(done);
    }
  }

  /** Every granted request that was not given back is held. */
  ghost predicate AllHeld(requests: seq<Request>, answers: seq<Answer>, live: Ledger, body: nat, blockSize: nat)
    requires blockSize > 0 && |answers| <= |requests|
  {
    forall i :: 0 <= i < |answers| && Kept(requests, answers, i) ==> Held(requests[i], answers[i], live, body, blockSize)
  }

  /** The address granted to the `i`-th request, if any, is not among those given back after it, as far as
      there are answers. */
  predicate Kept(requests: seq<Request>, answers: seq<Answer>, i: nat)
    requires i < |answers| <= |requests|
  {
    answers[i].Got? && answers[i].grant.Granted? ==>
      forall j :: i < j < |answers| ==> requests[j] != Give(answers[i].grant.address)
  }

  lemma {:induction false} HeldOn(requests: seq<Request>, answers: seq<Answer>, a: Answer, live: Ledger, live': Ledger,
                                  body: nat, blockSize: nat)
    requires blockSize > 0 && |answers| < |requests| && AllHeld(requests, answers, live, body, blockSize)
    requires var r := requests[|answers|];
             Held(r, a, live', body, blockSize) && Spares(r, live, live', body, blockSize)
    ensures AllHeld(requests, answers + [a], live', body, blockSize)
  {
    var longer, r := answers + [a], requests[|answers|];
    forall i | 0 <= i < |longer| && Kept(requests, longer, i)
      ensures Held(requests[i], longer[i], live', body, blockSize)
    {
      if i < |answers| && requests[i].Get? && longer[i].Got? && longer[i].grant.Granted? {
        assert Kept(requests, answers, i) && Held(requests[i], answers[i], live, body, blockSize);
        var address := longer[i].grant.address;
        var s :| s in live && Holds(requests[i].bytes, address, s, live, body, blockSize);
        assert r != Give(address);
        assert Holds(requests[i].bytes, address, s, live', body, blockSize);
      }
    }
  }

  /** Over any run of requests the pool holds a ledger of live allocations that evolves by first fit and exact
      release, whose bytes are disjoint and inside the body. Whatever was granted and not given back is live
      at the end, at the address that was returned. */
  method Serve(p: MemoryPool, requests: seq<Request>, ghost live: Ledger) returns (answers: seq<Answer>, ghost live': Ledger)
    requires p.Valid() && p.Placed() && Shows(p.blocks, live)
    requires forall r :: r in requests ==> p.Serves(r)
    modifies p`blocks, p.mapBytes
    ensures p.Valid() && Shows(p.blocks, live')
    ensures LedgerRun(live, p.blockCount, OpsOf(requests, p.body, p.blockSize), live')
    ensures BytesApart(live', p.body, p.blockSize, p.blockCount)
    ensures |answers| == |requests| && AllHeld(requests, answers, live', p.body, p.blockSize)
  {
    ghost var m, ops := p.blocks, OpsOf(requests, p.body, p.blockSize);
    answers, live' := [], live;
    assert requests[0..] == requests;
    for i := 0 to |requests|
      invariant p.Valid() && |answers| == i && Shows(p.blocks, live')
      invariant MapRun(m, ops) == MapRun(p.blocks, OpsOf(requests[i..], p.body, p.blockSize))
      invariant AllHeld(requests, answers, live', p.body, p.blockSize)
    {
      assert requests[i] in requests && requests[i..][1..] == requests[i + 1..];
      OpsStep(p.blocks, requests[i], requests[i..], p.body, p.blockSize);
      ghost var before := live';
      var a;
      a, live' := ServeOne(p, requests[i], live');
      HeldOn(requests, answers, a, before, live', p.body, p.blockSize);
      answers := answers + [a];
    }
    ghost var shown := RunRefines(m, live, ops);
    MapDeterminesLedger(p.blocks, live', shown);
    DisjointBytes(live', p.body, p.blockSize, p.blockCount);
  }
}
