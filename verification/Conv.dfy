/** Printing integers: `compose_integer`, an independent reader of what it prints, and the round trip. */
module Conv {
  import opened Arith
  import opened Common

  /** The integer types the printer is instantiated with. */
  datatype IntType = IntType(bits: nat, signed: bool) {
    predicate Valid() {
      bits in {8, 16, 32, 64}
    }

    function Max(): nat
      requires Valid()
    {
      match bits
      case 8 => if signed then 0x7F else 0xFF
      case 16 => if signed then 0x7FFF else 0xFFFF
      case 32 => if signed then 0x7FFF_FFFF else 0xFFFF_FFFF
      case _ => if signed then 0x7FFF_FFFF_FFFF_FFFF else 0xFFFF_FFFF_FFFF_FFFF
    }

    function Min(): int
      requires Valid()
    {
      if signed then 0 - Max() - 1 else 0
    }

    predicate Holds(val: int)
      requires Valid()
    {
      Min() <= val <= Max()
    }

    /** `abs` in the type itself: the most negative value has no counterpart and stays as it is. */
    function Abs(val: int): int
      requires Valid()
    {
      if val >= 0 then val else if val == Min() then val else -val
    }
  }

  const MINUS: Byte := 45
  const ZERO: Byte := 48

  // ---------- What is printed ----------

  function Digit(d: nat): Byte
    requires d < 16
  {
    if d >= 10 then 65 + d - 10 else ZERO + d
  }

  /** The digits of a value, none for zero and below. */
  function Digits(v: int, base: nat): (s: seq<Byte>)
    requires 2 <= base <= 16
    decreases if v > 0 then v else 0
  {
    if v <= 0 then [] else Digits(v / base, base) + [Digit(v % base)]
  }

  function Sign(val: int): seq<Byte> {
    if val < 0 then [MINUS] else []
  }

  function Prefix(base: nat): seq<Byte> {
    match base
    case 2 => [ZERO, 98]
    case 8 => [ZERO, 111]
    case 16 => [ZERO, 120]
    case _ => []
  }

  /** The width asked for: -1 stands for the type's full width in base 2 and 16. */
  function Width(t: IntType, base: nat, pad: int): (w: nat)
    requires t.Valid()
    ensures 1 <= w <= t.bits
  {
    var full := if pad == -1 && base == 2 then t.bits
                else if pad == -1 && base == 16 then t.bits / 4
                else pad;
    if full < 1 then 1 else if full > t.bits then t.bits else full
  }

  function Zeros(n: int): seq<Byte> {
    if n <= 0 then [] else seq(n, _ => ZERO)
  }

  function Printed(t: IntType, val: int, base: nat, pad: int): seq<Byte>
    requires t.Valid() && t.Holds(val) && 2 <= base <= 16
  {
    var digits := Digits(t.Abs(val), base);
    Sign(val) + Prefix(base) + Zeros(Width(t, base, pad) - |digits|) + digits
  }

  // ---------- Reading it back ----------

  function DigitValue(c: Byte): nat {
    if 48 <= c <= 57 then c - 48 else if 65 <= c <= 70 then c - 55 else 99
  }

  /** The value of a digit string, least significant digit last; None for anything else. */
  function ReadDigits(s: seq<Byte>, base: nat): Option<nat>
    requires 2 <= base <= 16
  {
    if s == [] then Some(0)
    else
      var d := DigitValue(s[|s| - 1]);
      match ReadDigits(s[..|s| - 1], base)
      case None => None
      case Some(v) => if d < base then Some(v * base + d) else None
  }

  function ReadMagnitude(s: seq<Byte>, base: nat): Option<nat>
    requires 2 <= base <= 16
  {
    if Prefix(base) <= s && |s| > |Prefix(base)| then ReadDigits(s[|Prefix(base)|..], base) else None
  }

  /** Reads an optional sign, the base's prefix, and at least one digit. */
  function Read(s: seq<Byte>, base: nat): Option<int>
    requires 2 <= base <= 16
  {
    if s != [] && s[0] == MINUS then
      match ReadMagnitude(s[1..], base)
      case None => None
      case Some(v) => Some(0 - v)
    else
      match ReadMagnitude(s, base)
      case None => None
      case Some(v) => Some(v)
  }

  lemma {:induction false} ReadsLast(s: seq<Byte>, d: nat, base: nat)
    requires 2 <= base <= 16 && d < base && ReadDigits(s, base).Some?
    ensures ReadDigits(s + [Digit(d)], base) == Some(ReadDigits(s, base).value * base + d)
  {
    assert (s + [Digit(d)])[..|s|] == s;
    assert DigitValue(Digit(d)) == d;
  }

  lemma {:induction false} ReadsDigits(v: nat, base: nat)
    requires 2 <= base <= 16
    ensures ReadDigits(Digits(v, base), base) == Some(v)
    decreases v
  {
    if v > 0 {
      var q, d := LastDigit(v, base);
      ReadsDigits(q, base);
      ReadsLast(Digits(q, base), d, base);
    }
  }

  /** A value's last digit, and the value without it. */
  lemma {:induction false} LastDigit(v: nat, base: nat) returns (q: nat, d: nat)
    requires 2 <= base <= 16 && v > 0
    ensures d < base && q < v && v == q * base + d
    ensures Digits(v, base) == Digits(q, base) + [Digit(d)]
  {
    DivMod(v, base);
    MulMono(2, base, v);
    DivLess(v, base, v);
    q, d := v / base, v % base;
  }

  lemma {:induction false} ReadsPadded(n: nat, s: seq<Byte>, base: nat)
    requires 2 <= base <= 16
    ensures ReadDigits(seq(n, _ => ZERO) + s, base) == ReadDigits(s, base)
  {
    var zeros: seq<Byte> := seq(n, _ => ZERO);
    if s != [] {
      assert (zeros + s)[..n + |s| - 1] == zeros + s[..|s| - 1];
      ReadsPadded(n, s[..|s| - 1], base);
    } else if n > 0 {
      assert (zeros + s)[..n - 1] == seq(n - 1, _ => ZERO) + s;
      ReadsPadded(n - 1, s, base);
    }
  }

  /** What follows the sign. */
  function Magnitude(t: IntType, v: nat, base: nat, pad: int): (m: seq<Byte>)
    requires t.Valid() && 2 <= base <= 16
    ensures |m| >= |Prefix(base)| && m[..|Prefix(base)|] == Prefix(base)
  {
    Prefix(base) + (Zeros(Width(t, base, pad) - |Digits(v, base)|) + Digits(v, base))
  }

  lemma {:induction false} ReadsMagnitude(t: IntType, v: nat, base: nat, pad: int)
    requires t.Valid() && 2 <= base <= 16
    ensures ReadMagnitude(Magnitude(t, v, base, pad), base) == Some(v)
  {
    var digits := Digits(v, base);
    var zeros := Zeros(Width(t, base, pad) - |digits|);
    assert Magnitude(t, v, base, pad)[|Prefix(base)|..] == zeros + digits;
    ReadsDigits(v, base);
    ReadsPadded(|zeros|, digits, base);
    assert zeros == seq(|zeros|, _ => ZERO);
  }

  lemma {:induction false} MagnitudeStart(t: IntType, v: nat, base: nat, pad: int)
    requires t.Valid() && 2 <= base <= 16
    ensures Magnitude(t, v, base, pad) != [] && Magnitude(t, v, base, pad)[0] != MINUS
  {
    DigitBytes(v, base);
    var rest := Zeros(Width(t, base, pad) - |Digits(v, base)|) + Digits(v, base);
    assert rest[0] == ZERO || rest[0] in Digits(v, base);
  }

  /** The printed text is a sign and a magnitude. */
  lemma {:induction false} PrintedShape(t: IntType, val: int, base: nat, pad: int) returns (v: nat)
    requires t.Valid() && t.Holds(val) && 2 <= base <= 16
    ensures v == if t.Abs(val) < 0 then 0 else t.Abs(val)
    ensures Printed(t, val, base, pad) == Sign(val) + Magnitude(t, v, base, pad)
  {
    v := if t.Abs(val) < 0 then 0 else t.Abs(val);
    assert Digits(v, base) == Digits(t.Abs(val), base);
    Rejoin(Sign(val), Prefix(base), Zeros(Width(t, base, pad) - |Digits(v, base)|), Digits(v, base));
  }

  lemma {:induction false} Rejoin(a: seq<Byte>, b: seq<Byte>, c: seq<Byte>, d: seq<Byte>)
    ensures a + b + c + d == a + (b + (c + d))
  {
  }

  lemma {:induction false} ReadsSigned(val: int, m: seq<Byte>, v: nat, base: nat)
    requires 2 <= base <= 16 && m != [] && m[0] != MINUS && ReadMagnitude(m, base) == Some(v)
    ensures Read(Sign(val) + m, base) == Some(if val < 0 then 0 - v else v)
  {
    if val < 0 {
      assert (Sign(val) + m)[1..] == m;
    } else {
      assert Sign(val) + m == m;
    }
  }

  /** Printing round-trips for every value but the most negative one, which prints as zero. */
  lemma {:induction false} RoundTrip(t: IntType, val: int, base: nat, pad: int)
    requires t.Valid() && t.Holds(val) && 2 <= base <= 16
    ensures Read(Printed(t, val, base, pad), base) == Some(if t.signed && val == t.Min() then 0 else val)
    ensures Read(Printed(t, val, base, pad), base) == Some(val) <==> !(t.signed && val == t.Min())
  {
    var v := PrintedShape(t, val, base, pad);
    ReadsMagnitude(t, v, base, pad);
    MagnitudeStart(t, v, base, pad);
    ReadsSigned(val, Magnitude(t, v, base, pad), v, base);
  }

  lemma {:induction false} DigitBytes(v: int, base: nat)
    requires 2 <= base <= 16
    ensures MINUS !in Digits(v, base) && 0 !in Digits(v, base)
  {
    if v > 0 {
      DigitBytes(v / base, base);
    }
  }

  // ---------- The shape of what is printed ----------

  function Power(base: nat, n: nat): nat {
    if n == 0 then 1 else base * Power(base, n - 1)
  }

  /** `v` takes `n` digits in the base; zero takes none. */
  ghost predicate Takes(v: nat, base: nat, n: nat) {
    if n == 0 then v == 0 else Power(base, n - 1) <= v < Power(base, n)
  }

  lemma {:induction false} PowerStep(base: nat, q: nat, d: nat, n: nat)
    requires d < base && n > 0
    ensures q < Power(base, n - 1) <==> q * base + d < Power(base, n)
  {
    var p := Power(base, n - 1);
    if q < p {
      MulMono(q + 1, p, base);
      assert (q + 1) * base == q * base + base;
    } else {
      MulMono(p, q, base);
    }
  }

  lemma {:induction false} DigitsTaken(v: nat, base: nat)
    requires 2 <= base <= 16
    ensures Takes(v, base, |Digits(v, base)|)
    decreases v
  {
    if v > 0 {
      var q, d := LastDigit(v, base);
      DigitsTaken(q, base);
      var n := |Digits(v, base)|;
      PowerStep(base, q, d, n);
      if n > 1 {
        PowerStep(base, q, d, n - 1);
      }
    }
  }

  /** What stands in front of the digits, in characters. */
  function Before(negative: bool, base: nat): seq<Byte> {
    (if negative then ['-' as int] else [])
    + (if base == 2 then ['0' as int, 'b' as int] else if base == 8 then ['0' as int, 'o' as int]
       else if base == 16 then ['0' as int, 'x' as int] else [])
  }

  /** The width a caller asks for with this padding. */
  function Asked(bits: nat, base: nat, pad: int): int {
    if pad == -1 && base == 2 then bits else if pad == -1 && base == 16 then bits / 4 else pad
  }

  /** The same within the bounds: at least one, and at most as many as the type has bits. */
  function Clipped(asked: int, bits: nat): int {
    if asked < 1 then 1 else if asked > bits then bits else asked
  }

  /** The value that is spelled out: the most negative one has no counterpart and comes out as zero. */
  function Spelled(t: IntType, val: int): nat
    requires t.Valid() && t.Holds(val)
  {
    if t.signed && val == t.Min() then 0 else if val < 0 then -val else val
  }

  lemma {:induction false} PrintedParts(t: IntType, val: int, base: nat, pad: int) returns (zeros: seq<Byte>)
    requires t.Valid() && t.Holds(val) && 2 <= base <= 16
    ensures zeros == Zeros(Clipped(Asked(t.bits, base, pad), t.bits) - |Digits(Spelled(t, val), base)|)
    ensures Printed(t, val, base, pad) == Before(val < 0, base) + (zeros + Digits(Spelled(t, val), base))
  {
    var v := PrintedShape(t, val, base, pad);
    SpelledIs(t, val);
    WidthIs(t, base, pad);
    HeadIs(val, base);
    zeros := Zeros(Width(t, base, pad) - |Digits(v, base)|);
    JoinsAssociate(Sign(val), Prefix(base), zeros + Digits(v, base));
  }

  lemma {:induction false} SpelledIs(t: IntType, val: int)
    requires t.Valid() && t.Holds(val)
    ensures Spelled(t, val) == if t.Abs(val) < 0 then 0 else t.Abs(val)
  {
  }

  lemma {:induction false} WidthIs(t: IntType, base: nat, pad: int)
    requires t.Valid()
    ensures Width(t, base, pad) == Clipped(Asked(t.bits, base, pad), t.bits)
  {
  }

  lemma {:induction false} HeadIs(val: int, base: nat)
    ensures Before(val < 0, base) == Sign(val) + Prefix(base)
  {
  }

  lemma {:induction false} PartsOf(text: seq<Byte>, head: seq<Byte>, zeros: seq<Byte>, digits: seq<Byte>)
    requires text == head + (zeros + digits) && forall i :: 0 <= i < |zeros| ==> zeros[i] == '0' as int
    ensures head <= text && |text| == |head| + |zeros| + |digits|
    ensures text[|head| + |zeros|..] == digits
    ensures forall i :: |head| <= i < |head| + |zeros| ==> text[i] == '0' as int
  {
  }

  /** Behind the sign and the base's prefix there are as many bytes as the value takes digits, or as many as
      asked for, at least one and at most as many as the type has bits, if that is more. Those in front of the
      value's own digits are zeros, and the others spell the value out. */
  lemma {:induction false} PaddingLaw(t: IntType, val: int, base: nat, pad: int) returns (n: nat, zeros: nat)
    requires t.Valid() && t.Holds(val) && 2 <= base <= 16
    ensures Takes(Spelled(t, val), base, n)
    ensures var asked := Clipped(Asked(t.bits, base, pad), t.bits);
            zeros + n == if n > asked then n else asked
    ensures var head, text := Before(val < 0, base), Printed(t, val, base, pad);
            && head <= text && |text| == |head| + zeros + n
            && (forall i :: |head| <= i < |head| + zeros ==> text[i] == '0' as int)
            && ReadDigits(text[|head| + zeros..], base) == Some(Spelled(t, val))
  {
    var pads := PrintedParts(t, val, base, pad);
    var digits := Digits(Spelled(t, val), base);
    n, zeros := |digits|, |pads|;
    DigitsTaken(Spelled(t, val), base);
    ReadsDigits(Spelled(t, val), base);
    PartsOf(Printed(t, val, base, pad), Before(val < 0, base), pads, digits);
  }

  // ---------- The buffer bound ----------

  function Power2(n: nat): nat {
    if n == 0 then 1 else 2 * Power2(n - 1)
  }

  lemma {:induction false} QuotientBelow(q: nat, base: nat, v: nat, n: nat)
    requires base >= 2 && n > 0 && q * base <= v < Power2(n)
    ensures q < Power2(n - 1)
  {
    MulMono(2, base, q);
  }

  lemma {:induction false} DigitsBound(v: int, base: nat, n: nat)
    requires 2 <= base <= 16 && v < Power2(n)
    ensures |Digits(v, base)| <= n
    decreases n
  {
    if v > 0 {
      var q, d := LastDigit(v, base);
      QuotientBelow(q, base, v, n);
      DigitsBound(q, base, n - 1);
    }
  }

  lemma {:induction false} MaxBelowPower(t: IntType)
    requires t.Valid()
    ensures t.Max() < Power2(if t.signed then t.bits - 1 else t.bits)
  {
    Powers();
  }

  lemma {:induction false} Powers()
    ensures Power2(7) == 0x80 && Power2(8) == 0x100 && Power2(15) == 0x8000 && Power2(16) == 0x1_0000
    ensures Power2(31) == 0x8000_0000 && Power2(32) == 0x1_0000_0000
    ensures Power2(63) == 0x8000_0000_0000_0000 && Power2(64) == 0x1_0000_0000_0000_0000
  {
    PowerSum(7, 8);
    PowerSum(8, 8);
    PowerSum(15, 16);
    PowerSum(16, 16);
    PowerSum(31, 32);
    PowerSum(32, 32);
  }

  lemma {:induction false} PowerSum(m: nat, n: nat)
    ensures Power2(m + n) == Power2(m) * Power2(n)
  {
    if m > 0 {
      PowerSum(m - 1, n);
    }
  }

  /** With its terminator the text takes at most four bytes more than the type has bits, and a full
      binary print of a negative value takes exactly that. */
  lemma {:induction false} BufferBound(t: IntType, val: int, base: nat, pad: int)
    requires t.Valid() && t.Holds(val) && 2 <= base <= 16
    ensures |Printed(t, val, base, pad)| + 1 <= t.bits + 4
    ensures val < 0 && base == 2 && pad == -1 ==> |Printed(t, val, base, pad)| + 1 == t.bits + 4
  {
    MaxBelowPower(t);
    DigitsBound(t.Abs(val), base, if t.signed then t.bits - 1 else t.bits);
  }

  // ---------- The printer ----------

  /** The divisions by `base` that take a value to zero. */
  function DigitCount(v: int, base: nat): nat
    requires base >= 2
    decreases if v > 0 then v else 0
  {
    if v <= 0 then 0 else DigitCount(Quotient(v, base), base) + 1
  }

  function Quotient(v: nat, base: nat): (q: nat)
    requires base >= 2
    ensures q == v / base && (v > 0 ==> q < v)
  {
    MulMono(2, base, v);
    DivLess(v, base, v);
    v / base
  }

  lemma {:induction false} DigitCountIsLength(v: int, base: nat)
    requires 2 <= base <= 16
    ensures DigitCount(v, base) == |Digits(v, base)|
    decreases if v > 0 then v else 0
  {
    if v > 0 {
      DigitCountIsLength(Quotient(v, base), base);
    }
  }

  method CountDigits(v: int, base: nat) returns (digits: nat)
    requires base >= 2 || (base == 1 && v <= 0)
    ensures base >= 2 ==> digits == DigitCount(v, base)
    ensures v <= 0 ==> digits == 0
  {
    digits := 0;
    var test := v;
    while test > 0
      invariant base >= 2 ==> digits + DigitCount(test, base) == DigitCount(v, base)
      invariant v <= 0 ==> digits == 0 && test == v
      decreases test
    {
      test := Quotient(test, base);
      digits := digits + 1;
    }
  }

  ghost predicate Padded(now: seq<Byte>, before: seq<Byte>, at: nat, end: nat) {
    && at <= end <= |now| == |before|
    && (forall k :: 0 <= k < at || end <= k < |now| ==> now[k] == before[k])
    && (forall k :: at <= k < end ==> now[k] == ZERO)
  }

  lemma {:induction false} PaddedIs(now: seq<Byte>, before: seq<Byte>, at: nat, end: nat)
    requires Padded(now, before, at, end)
    ensures now == before[..at] + Zeros(end - at) + before[end..]
  {
  }

  method WriteZeros(buff: array<Byte>, at: nat, count: int) returns (end: nat)
    requires at + (if count > 0 then count else 0) <= buff.Length
    modifies buff
    ensures end == at + |Zeros(count)|
    ensures buff[..] == old(buff[..at]) + Zeros(count) + old(buff[end..])
  {
    end := at;
    var i := 0;
    while i < count
      invariant 0 <= i && (i <= count || i == 0) && end == at + i
      invariant Padded(buff[..], old(buff[..]), at, end)
    {
      buff[end] := ZERO;
      end := end + 1;
      i := i + 1;
    }
    PaddedIs(buff[..], old(buff[..]), at, end);
  }

  /** The source's `val % base` and `val /= base`. */
  method DivideOnce(v: nat, base: nat) returns (q: nat, d: nat)
    requires 2 <= base <= 16 && v > 0
    ensures d < base && Digits(v, base) == Digits(q, base) + [Digit(d)]
  {
    q, d := v / base, v % base;
    ghost var r, e := LastDigit(v, base);
    DivIs(v, base, r, e);
  }

  /** A digit that moves from the value to the front of the digits already written. */
  lemma {:induction false} DigitMoves(v: seq<Byte>, q: seq<Byte>, digit: Byte, tail: seq<Byte>)
    requires v == q + [digit]
    ensures q + ([digit] + tail) == v + tail
  {
  }

  method WriteDigits(buff: array<Byte>, end: nat, digits: nat, v: int, base: nat)
    requires 2 <= base <= 16 && digits == |Digits(v, base)| && digits <= end <= buff.Length
    modifies buff
    ensures buff[..] == old(buff[..end - digits]) + Digits(v, base) + old(buff[end..])
  {
    var val := v;
    for i := 0 to digits
      invariant |Digits(val, base)| == digits - i
      invariant buff[..end - i] == old(buff[..end - i]) && buff[end..] == old(buff[end..])
      invariant Digits(val, base) + buff[end - i..end] == Digits(v, base)
    {
      ghost var tail, was := buff[end - i..end], Digits(val, base);
      var q, d := DivideOnce(val, base);
      var digit := if base <= 10 || d < 10 then ZERO + d else 65 + d - 10;
      buff[end - i - 1] := digit;
      assert buff[end - i - 1..end] == [digit] + tail;
      DigitMoves(was, Digits(q, base), digit, tail);
      val := q;
    }
    assert buff[..] == buff[..end - digits] + buff[end - digits..end] + buff[end..];
  }

  /** The buffer holds `text` in front of what it held before. */
  ghost predicate Wrote(now: seq<Byte>, before: seq<Byte>, text: seq<Byte>) {
    |text| <= |now| == |before| && now == text + before[|text|..]
  }

  lemma {:induction false} WroteMore(now: seq<Byte>, mid: seq<Byte>, before: seq<Byte>, text: seq<Byte>, more: seq<Byte>)
    requires Wrote(mid, before, text) && |text| + |more| <= |mid|
    requires now == mid[..|text|] + more + mid[|text| + |more|..]
    ensures Wrote(now, before, text + more)
  {
    assert mid[|text| + |more|..] == before[|text| + |more|..];
  }

  lemma {:induction false} WroteKeeps(now: seq<Byte>, before: seq<Byte>, text: seq<Byte>, k: nat)
    requires Wrote(now, before, text) && |text| <= k <= |now|
    ensures now[k..] == before[k..]
  {
  }

  method WriteHead(buff: array<Byte>, negative: bool, base: nat) returns (count: nat)
    requires buff.Length >= 3
    modifies buff
    ensures var head := (if negative then [MINUS] else []) + Prefix(base);
            count == |head| && Wrote(buff[..], old(buff[..]), head)
  {
    count := 0;
    if negative {
      buff[count] := MINUS;
      count := count + 1;
    }
    match base {
      case 2 =>
        buff[count], buff[count + 1] := ZERO, 98;
        count := count + 2;
      case 8 =>
        buff[count], buff[count + 1] := ZERO, 111;
        count := count + 2;
      case 16 =>
        buff[count], buff[count + 1] := ZERO, 120;
        count := count + 2;
      case _ =>
    }
  }

  /** Everything before the digits: sign, prefix and padding. */
  method WriteFront(buff: array<Byte>, negative: bool, base: nat, gap: int) returns (end: nat)
    requires buff.Length >= 3 + |Zeros(gap)|
    modifies buff
    ensures var text := (if negative then [MINUS] else []) + Prefix(base) + Zeros(gap);
            end == |text| && Wrote(buff[..], old(buff[..]), text)
  {
    ghost var before := buff[..];
    var count := WriteHead(buff, negative, base);
    ghost var head := (if negative then [MINUS] else []) + Prefix(base);
    ghost var mid := buff[..];
    end := WriteZeros(buff, count, gap);
    WroteMore(buff[..], mid, before, head, Zeros(gap));
  }

  method WriteEnd(buff: array<Byte>, ghost before: seq<Byte>, ghost text: seq<Byte>, end: nat)
    requires end == |text| < buff.Length && Wrote(buff[..], before, text)
    modifies buff
    ensures Wrote(buff[..], before, text + [0])
  {
    ghost var mid := buff[..];
    buff[end] := 0;
    assert buff[..] == mid[..end] + [0] + mid[end + 1..];
    WroteMore(buff[..], mid, before, text, [0]);
  }

  /** The digits and the terminator, after the text already written. */
  method WriteBack(buff: array<Byte>, ghost before: seq<Byte>, ghost text: seq<Byte>, end: nat, digits: nat, v: int, base: nat)
    requires 2 <= base <= 16 && digits == |Digits(v, base)| && end == |text| && end + digits < buff.Length
    requires Wrote(buff[..], before, text)
    modifies buff
    ensures Wrote(buff[..], before, text + Digits(v, base) + [0])
  {
    ghost var mid := buff[..];
    WriteDigits(buff, end + digits, digits, v, base);
    WroteMore(buff[..], mid, before, text, Digits(v, base));
    WriteEnd(buff, before, text + Digits(v, base), end + digits);
  }

  /** `n` is the caller's promise of the buffer's size. In base 1 the source's first loop only ends
      when there is nothing to divide. */
  method ComposeInteger(t: IntType, val: int, buff: array<Byte>, n: nat, base: int, pad: int) returns (ok: bool)
    requires t.Valid() && t.Holds(val) && n <= buff.Length
    requires base == 1 ==> t.Abs(val) <= 0
    modifies buff
    ensures ok <==> n >= t.bits + 4 && 2 <= base <= 16
    ensures ok ==> Wrote(buff[..], old(buff[..]), Printed(t, val, base, pad) + [0])
    ensures n < t.bits + 4 || base <= 0 ==> buff[..] == old(buff[..])
    ensures n >= t.bits + 4 ==> buff[t.bits + 4..] == old(buff[t.bits + 4..])
  {
    if n < t.bits + 4 || base <= 0 {
      return false;
    }
    ghost var before := buff[..];
    var digits := CountDigits(t.Abs(val), base);
    var gap: int := Width(t, base, pad) as int - digits as int;
    var end := WriteFront(buff, val < 0, base, gap);
    ghost var text := Sign(val) + Prefix(base) + Zeros(gap);
    if !(2 <= base <= 16) {
      WroteKeeps(buff[..], before, text, t.bits + 4);
      return false;
    }
    DigitCountIsLength(t.Abs(val), base);
    BufferBound(t, val, base, pad);
    assert text + Digits(t.Abs(val), base) == Printed(t, val, base, pad);
    WriteBack(buff, before, text, end, digits, t.Abs(val), base);
    WroteKeeps(buff[..], before, Printed(t, val, base, pad) + [0], t.bits + 4);
    return true;
  }
}
