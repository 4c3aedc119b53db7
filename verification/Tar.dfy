/** ustar archives in memory ("ustar Interchange Format", pax, IEEE Std 1003.1-2017) and the kernel's
    walk over them. */
module Tar {
  import opened Common

  const BLOCK: nat := 512
  const SIZE_AT: nat := 124
  const SIZE_LENGTH: nat := 12
  const TYPE_AT: nat := 156
  const DIGIT_ZERO: Byte := 48

  // ---------- What the kernel reads ----------

  /** The C string at an address. */
  function StringAt(mem: seq<Byte>, a: nat): CString
    requires a <= |mem|
    decreases |mem| - a
  {
    if a == |mem| || mem[a] == 0 then [] else [mem[a]] + StringAt(mem, a + 1)
  }

  /** A `char` is signed. */
  function SignedChar(c: Byte): int {
    if c < 128 then c else c - 256
  }

  /** The digits of a size field read on from `acc`, in `size_t` arithmetic. */
  function Octal(field: seq<Byte>, acc: nat): nat {
    if field == [] || field[0] == 0 then acc
    else Octal(field[1..], (acc * 8 + SignedChar(field[0]) - DIGIT_ZERO) % WORD)
  }

  function SizeField(mem: seq<Byte>, header: nat): seq<Byte>
    requires header + BLOCK <= |mem|
  {
    mem[header + SIZE_AT..header + SIZE_AT + SIZE_LENGTH]
  }

  function SizeOf(mem: seq<Byte>, header: nat): nat
    requires header + BLOCK <= |mem|
  {
    Octal(SizeField(mem, header), 0)
  }

  function DataOf(header: nat): nat {
    header + BLOCK
  }

  function NextHeader(mem: seq<Byte>, header: nat): nat
    requires header + BLOCK <= |mem|
  {
    header + AlignCeiling(BLOCK + SizeOf(mem, header), BLOCK)
  }

  method TarSize(mem: seq<Byte>, header: nat) returns (size: nat)
    requires header + BLOCK <= |mem|
    ensures size == SizeOf(mem, header)
  {
    size := 0;
    var i := 0;
    ghost var field := SizeField(mem, header);
    while i < 12 && mem[header + SIZE_AT + i] != 0
      invariant 0 <= i <= 12
      invariant Octal(field, 0) == Octal(field[i..], size)
    {
      assert field[i] == mem[header + SIZE_AT + i];
      size := (size * 8 + SignedChar(mem[header + SIZE_AT + i]) - DIGIT_ZERO) % WORD;
      i := i + 1;
    }
  }

  /** `tar_next`: the next header, or null when its name is empty. It must lie in memory. */
  method TarNext(mem: seq<Byte>, header: nat) returns (next: Option<nat>)
    requires header + BLOCK <= |mem| && NextHeader(mem, header) < |mem|
    ensures next == if mem[NextHeader(mem, header)] == 0 then None else Some(NextHeader(mem, header))
  {
    var size := TarSize(mem, header);
    var nheader := header + AlignCeiling(512 + size, 512);
    next := if mem[nheader] == 0 then None else Some(nheader);
  }

  // ---------- The format ----------

  /** A member of an archive. */
  datatype Entry = Entry(name: CString, typeflag: Byte, data: seq<Byte>)

  /** Space for `n` bytes of data: whole blocks. */
  function Padded(n: nat): nat {
    (n + 511) / 512 * 512
  }

  /** A number in `width` octal digits, with leading zeros. */
  function OctalDigits(n: nat, width: nat): (s: seq<Byte>)
    ensures |s| == width
  {
    if width == 0 then [] else OctalDigits(n / 8, width - 1) + [DIGIT_ZERO + n % 8]
  }

  function Pow8(k: nat): nat {
    if k == 0 then 1 else 8 * Pow8(k - 1)
  }

  /** A member's header and data, with the fields where the format has them: the name at byte 0, the size at
      124, the type at 156, and the data behind the header's 512 bytes. The largest sizes take eleven digits
      and a terminating NUL. */
  ghost predicate EntryAt(mem: seq<Byte>, header: nat, e: Entry) {
    && header + 512 + Padded(|e.data|) <= |mem|
    && 0 < |e.name| < 100
    && mem[header..header + |e.name|] == e.name && mem[header + |e.name|] == 0
    && |e.data| < Pow8(11)
    && mem[header + 124..header + 136] == OctalDigits(|e.data|, 11) + [0]
    && mem[header + 156] == e.typeflag
    && mem[header + 512..header + 512 + |e.data|] == e.data
  }

  /** The entries lie one after another; two blocks of zeros end the archive. */
  ghost predicate ArchiveAt(mem: seq<Byte>, header: nat, entries: seq<Entry>)
    decreases |entries|
  {
    if entries == [] then
      header + 1024 <= |mem| && forall i :: header <= i < header + 1024 ==> mem[i] == 0
    else
      EntryAt(mem, header, entries[0]) && ArchiveAt(mem, header + 512 + Padded(|entries[0].data|), entries[1..])
  }

  /** The address of the `k`-th entry. */
  function AddressOf(header: nat, entries: seq<Entry>, k: nat): nat
    requires k <= |entries|
    decreases k
  {
    if k == 0 then header else AddressOf(header + 512 + Padded(|entries[0].data|), entries[1..], k - 1)
  }

  // ---------- The walk reads the format ----------

  lemma {:induction false} OctalAppend(s: seq<Byte>, c: Byte, acc: nat)
    requires 0 !in s
    ensures Octal(s + [c], acc)
            == if c == 0 then Octal(s, acc) else (Octal(s, acc) * 8 + SignedChar(c) - DIGIT_ZERO) % WORD
  {
    if s == [] {
      assert (s + [c])[1..] == [];
    } else {
      assert (s + [c])[1..] == s[1..] + [c];
      OctalAppend(s[1..], c, (acc * 8 + SignedChar(s[0]) - DIGIT_ZERO) % WORD);
    }
  }

  /** Eleven octal digits stay far below the word size. */
  lemma {:induction false} Eleven(width: nat)
    requires width <= 11
    ensures Pow8(width) <= 0x2_0000_0000
    decreases 11 - width
  {
    if width < 11 {
      Eleven(width + 1);
    }
  }

  lemma {:induction false} OctalStep(n: nat, high: seq<Byte>)
    requires 0 !in high && n < 0x2_0000_0000 && Octal(high, 0) == n / 8
    ensures Octal(high + [DIGIT_ZERO + n % 8], 0) == n
  {
    OctalAppend(high, DIGIT_ZERO + n % 8, 0);
  }

  lemma {:induction false} OctalReads(n: nat, width: nat)
    requires width <= 11 && n < Pow8(width)
    ensures 0 !in OctalDigits(n, width) && Octal(OctalDigits(n, width), 0) == n
  {
    Eleven(width);
    if width > 0 {
      OctalReads(n / 8, width - 1);
      OctalStep(n, OctalDigits(n / 8, width - 1));
    }
  }

  /** The kernel reads back the size that the format's octal field encodes. */
  lemma {:induction false} SizeReads(mem: seq<Byte>, header: nat, e: Entry)
    requires EntryAt(mem, header, e)
    ensures SizeOf(mem, header) == |e.data|
    ensures NextHeader(mem, header) == header + BLOCK + Padded(|e.data|)
  {
    OctalReads(|e.data|, 11);
    OctalAppend(OctalDigits(|e.data|, 11), 0, 0);
  }

  /** Reading a space as a digit gives another number. */
  lemma {:induction false} SpaceMisreads(n: nat)
    requires 8 * n < WORD
    ensures (n * 8 + 32 - DIGIT_ZERO) % WORD != n
  {
    if n < 2 {
      assert (8 * n - 16) % WORD == WORD + 8 * n - 16;
    } else {
      assert (8 * n - 16) % WORD == 8 * n - 16;
    }
  }

  /** The format lets a space end the field as well; the kernel reads the right size from eleven digits
      exactly when they end in NUL. */
  lemma {:induction false} TerminatorMatters(n: nat, c: Byte)
    requires n < Pow8(11) && c in {0, 32}
    ensures Octal(OctalDigits(n, 11) + [c], 0) == n <==> c == 0
  {
    OctalReads(n, 11);
    OctalAppend(OctalDigits(n, 11), c, 0);
    Eleven(11);
    SpaceMisreads(n);
  }

  /** What a single byte is read as: below '0', and from 128 on, where it is negative, it wraps around. */
  lemma {:induction false} ByteReads(c: Byte)
    requires c != 0
    ensures Octal([c], 0) == if '0' as int <= c < 128 then c - '0' as int
                             else if c < 128 then WORD + c - '0' as int
                             else WORD + c - 256 - '0' as int
  {
    assert [c][1..] == [];
    var d := SignedChar(c) - DIGIT_ZERO;
    if d >= 0 {
      assert d % WORD == d;
    } else {
      assert d % WORD == WORD + d;
    }
    assert Octal([], d % WORD) == d % WORD;
  }

  lemma {:induction false} StringReads(mem: seq<Byte>, a: nat, s: CString)
    requires a + |s| < |mem| && mem[a..a + |s|] == s && mem[a + |s|] == 0
    ensures StringAt(mem, a) == s
    decreases |s|
  {
    if s != [] {
      assert mem[a] == s[0];
      assert mem[a + 1..a + 1 + |s[1..]|] == s[1..];
      StringReads(mem, a + 1, s[1..]);
    }
  }

  /** The name at a header is empty exactly where the archive ends. */
  lemma {:induction false} EndIsEmpty(mem: seq<Byte>, header: nat, entries: seq<Entry>)
    requires ArchiveAt(mem, header, entries)
    ensures header < |mem| && (mem[header] == 0 <==> entries == [])
  {
    if entries != [] {
      assert mem[header..header + |entries[0].name|][0] == entries[0].name[0];
    }
  }

  /** From an entry the walk goes to the next one, and stops after the last. */
  lemma {:induction false} WalkReads(mem: seq<Byte>, header: nat, entries: seq<Entry>)
    requires ArchiveAt(mem, header, entries) && entries != []
    ensures StringAt(mem, header) == entries[0].name && SizeOf(mem, header) == |entries[0].data|
    ensures NextHeader(mem, header) == AddressOf(header, entries, 1) < |mem|
    ensures mem[NextHeader(mem, header)] == 0 <==> |entries| == 1
  {
    SizeReads(mem, header, entries[0]);
    StringReads(mem, header, entries[0].name);
    EndIsEmpty(mem, AddressOf(header, entries, 1), entries[1..]);
  }

  /** An archive without entries is one header with an empty name. */
  lemma {:induction false} EmptyArchive(mem: seq<Byte>, header: nat)
    requires ArchiveAt(mem, header, [])
    ensures StringAt(mem, header) == [] && NextHeader(mem, header) == header + BLOCK && mem[header + BLOCK] == 0
  {
    assert SizeField(mem, header)[0] == 0;
  }
}
