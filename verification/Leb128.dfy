/** The little-endian base-128 numbers of exception tables (include/libcxxrt/dwarf_eh.h; section 7.6 of
    DWARF 4), read with the source's 32-bit shifts into 64-bit accumulators. */
module Leb128 {

  const TWO31 := 0x8000_0000
  const TWO32 := 0x1_0000_0000
  const TWO64 := 0x1_0000_0000_0000_0000

  type Byte = b: int | 0 <= b < 256

  function Pow2(n: nat): (p: nat)
    ensures p > 0
  {
    if n == 0 then 1 else 2 * Pow2(n - 1)
  }

  /** The value of a 32-bit `int` with the low bits of `x`. */
  function ToInt32(x: int): int {
    var low := x % TWO32;
    if low < TWO31 then low else low - TWO32
  }

  /** `digit << bit`: the digit is promoted to `int`, so the shift is a 32-bit one, whose count the i686
      takes modulo 32 (from 32 on, C leaves it undefined). */
  function ShiftDigit(digit: int, bit: nat): int {
    ToInt32(digit * Pow2(bit % 32))
  }

  datatype Option<T> = None | Some(value: T)

  /** A number read: the sum of the shifted digits, and the octets used. */
  datatype Raw = Raw(sum: int, used: nat)

  /** Reads from shift `bit` on; None when the octets run out or the assertion on the shift fails. */
  function ReadFrom(bytes: seq<Byte>, bit: nat): Option<Raw> {
    if bytes == [] || bit >= 64 then None
    else
      var term := ShiftDigit(bytes[0] % 128, bit);
      if bytes[0] < 128 then Some(Raw(term, 1))
      else match ReadFrom(bytes[1..], bit + 7)
        case None => None
        case Some(r) => Some(Raw(term + r.sum, r.used + 1))
  }

  // ---------------------------------------------------------------- the readers

  /** `read_leb128` at `pos`: the value modulo 2^64, the bits read, and the new position. */
  method ReadLeb128(data: seq<Byte>, pos: nat) returns (ok: bool, uleb: int, bits: nat, next: nat)
    requires pos <= |data|
    ensures ok == ReadFrom(data[pos..], 0).Some?
    ensures ok ==> var r := ReadFrom(data[pos..], 0).value;
                   uleb == r.sum % TWO64 && bits == 7 * r.used && next == pos + r.used <= |data|
  {
    hide ShiftDigit;
    uleb, bits, next := 0, 0, pos;
    ghost var sum := 0;
    while true
      invariant pos <= next <= |data| && bits == 7 * (next - pos) && uleb == sum % TWO64
      invariant match ReadFrom(data[next..], bits)
                case None => ReadFrom(data[pos..], 0).None?
                case Some(r) => ReadFrom(data[pos..], 0) == Some(Raw(sum + r.sum, next - pos + r.used))
      decreases |data| - next
    {
      if next == |data| || bits >= 64 { return false, 0, 0, pos; }
      var digit := data[next] % 128;
      assert data[next..][0] == data[next] && data[next..][1..] == data[next + 1..];
      AddModulo(sum, ShiftDigit(digit, bits));
      sum := sum + ShiftDigit(digit, bits);
      uleb := (uleb + ShiftDigit(digit, bits)) % TWO64;
      bits := bits + 7;
      next := next + 1;
      if data[next - 1] == digit { return true, uleb, bits, next; }
    }
  }

  lemma AddModulo(a: int, b: int)
    ensures (a % TWO64 + b) % TWO64 == (a + b) % TWO64
  {}

  /** The signed reader's result: when the top bit read is 1, all bits above are set. */
  function SignExtended(uleb: int, bits: nat): int
    requires 0 < bits && 0 <= uleb < TWO64
  {
    ToInt64(if uleb / Pow2(bits - 1) == 1 then uleb + TWO64 - Pow2(bits) else uleb)
  }

  function ToInt64(x: int): int {
    var low := x % TWO64;
    if low < TWO64 / 2 then low else low - TWO64
  }

  function Signed(r: Raw): int
    requires r.used > 0
  {
    SignExtended(r.sum % TWO64, 7 * r.used)
  }

  /** `read_uleb128`: an `int64_t`, whatever the digits were. */
  method ReadUleb128(data: seq<Byte>, pos: nat) returns (ok: bool, value: int, next: nat)
    requires pos <= |data|
    ensures ok == ReadFrom(data[pos..], 0).Some?
    ensures ok ==> var r := ReadFrom(data[pos..], 0).value;
                   value == ToInt64(r.sum) && next == pos + r.used <= |data|
  {
    var uleb, bits;
    ok, uleb, bits, next := ReadLeb128(data, pos);
    value := ToInt64(uleb);
  }

  /** `read_sleb128`. */
  method ReadSleb128(data: seq<Byte>, pos: nat) returns (ok: bool, value: int, next: nat)
    requires pos <= |data|
    ensures ok == ReadFrom(data[pos..], 0).Some?
    ensures ok ==> var r := ReadFrom(data[pos..], 0).value;
                   r.used > 0 && value == Signed(r) && next == pos + r.used <= |data|
  {
    hide SignExtended, ToInt64;
    var uleb, bits;
    ok, uleb, bits, next := ReadLeb128(data, pos);
    if !ok { return false, 0, pos; }
    value := SignExtended(uleb, bits);
  }

  // ---------------------------------------------------------------- the encoders, from the standard

  function Encode(v: nat): seq<Byte> {
    if v < 128 then [v] else [v % 128 + 128] + Encode(v / 128)
  }

  function EncodeSigned(v: int): seq<Byte>
    decreases if v < 0 then -v else v + 1
  {
    if -64 <= v < 64 then [v % 128] else [v % 128 + 128] + EncodeSigned(v / 128)
  }

  // ---------------------------------------------------------------- what reading an encoding yields

  function Pow128(n: nat): (p: int)
    ensures p > 0
  {
    if n == 0 then 1 else 128 * Pow128(n - 1)
  }

  /** `u` in exactly n octets. */
  function Octets(u: nat, n: nat): seq<Byte>
    requires n > 0
  {
    if n == 1 then [u % 128] else [u % 128 + 128] + Octets(u / 128, n - 1)
  }

  lemma SmallPowers()
    ensures Pow2(7) == 128 && Pow2(14) == 0x4000 && Pow2(21) == 0x20_0000 && Pow2(28) == 0x1000_0000
  {
    assert Pow2(7) == 8 * Pow2(4);
    assert Pow2(14) == 128 * Pow2(7);
    assert Pow2(21) == 128 * Pow2(14);
    assert Pow2(28) == 128 * Pow2(21);
  }

  /** The shift of the digit at place k, 0 to 4. */
  function Scale(k: nat): nat
    requires k <= 4
  {
    match k case 0 => 1 case 1 => 0x80 case 2 => 0x4000 case 3 => 0x20_0000 case 4 => 0x1000_0000
  }

  /** The one `int` congruent to x modulo 2^32. */
  lemma IsInt32(x: int, y: int, q: int)
    requires x == y + TWO32 * q && -TWO31 <= y < TWO31
    ensures ToInt32(x) == y
  {}

  lemma Int32Of(x: int) returns (y: int, q: int)
    ensures x == y + TWO32 * q && -TWO31 <= y < TWO31 && ToInt32(x) == y
  {
    y, q := ToInt32(x), x / TWO32;
    if y < 0 { q := q + 1; }
  }

  /** What lies below a multiple of a scale adds to it without a carry into the sign. */
  lemma LowPart(low: int, h: int, k: nat)
    requires 0 < k <= 4 && 0 <= low < Scale(k)
    ensures ToInt32(low + Scale(k) * h) == low + ToInt32(Scale(k) * h)
  {
    hide ToInt32;
    var y, q := Int32Of(Scale(k) * h);
    match k {
      case 1 => assert y == 0x80 * (h - 0x200_0000 * q) && h - 0x200_0000 * q <= 0xFF_FFFF;
      case 2 => assert y == 0x4000 * (h - 0x4_0000 * q) && h - 0x4_0000 * q <= 0x1_FFFF;
      case 3 => assert y == 0x20_0000 * (h - 0x800 * q) && h - 0x800 * q <= 0x3FF;
      case 4 => assert y == 0x1000_0000 * (h - 16 * q) && h - 16 * q <= 7;
    }
    IsInt32(low + Scale(k) * h, low + y, q);
  }

  lemma ShiftIsScale(d: int, k: nat)
    requires k <= 4
    ensures ShiftDigit(d, 7 * k) == ToInt32(d * Scale(k))
  {
    SmallPowers();
  }

  /** A digit below the last place adds its own value. */
  lemma DigitsAdd(u: nat, k: nat)
    requires k < 4
    ensures ShiftDigit(u % 128, 7 * k) + ToInt32(u / 128 * Scale(k + 1)) == ToInt32(u * Scale(k))
  {
    var d, q := u % 128, u / 128;
    ShiftIsScale(d, k);
    assert 0 <= d * Scale(k) < Scale(k + 1) <= 0x1000_0000;
    IsInt32(d * Scale(k), d * Scale(k), 0);
    LowPart(d * Scale(k), q, k + 1);
    assert u * Scale(k) == d * Scale(k) + Scale(k + 1) * q;
  }

  lemma QuotientBelow(u: nat, n: nat)
    requires u < Pow128(n + 1)
    ensures u / 128 < Pow128(n)
  {}

  lemma OctetsFirst(u: nat, n: nat, rest: seq<Byte>)
    requires n > 0
    ensures var bytes := Octets(u, n) + rest;
            && bytes != [] && bytes[0] % 128 == u % 128
            && (bytes[0] < 128 <==> n == 1)
            && (n > 1 ==> bytes[1..] == Octets(u / 128, n - 1) + rest)
  {}

  lemma ReadStep(bytes: seq<Byte>, bit: nat)
    requires bytes != [] && bit < 64
    ensures var term := ShiftDigit(bytes[0] % 128, bit);
            ReadFrom(bytes, bit) ==
            if bytes[0] < 128 then Some(Raw(term, 1))
            else match ReadFrom(bytes[1..], bit + 7)
              case None => None
              case Some(r) => Some(Raw(term + r.sum, r.used + 1))
  {
    hide ShiftDigit;
  }

  lemma LastDigit(u: nat, k: nat)
    requires k <= 4 && u < Pow128(1)
    ensures ShiftDigit(u % 128, 7 * k) == ToInt32(u * Scale(k))
  {
    assert Pow128(1) == 128 && u % 128 == u;
    ShiftIsScale(u, k);
  }

  lemma {:induction false} ReadOctets(u: nat, n: nat, k: nat, rest: seq<Byte>)
    requires 0 < n && k + n <= 5
    requires u < Pow128(n)
    ensures ReadFrom(Octets(u, n) + rest, 7 * k) == Some(Raw(ToInt32(u * Scale(k)), n))
    decreases n
  {
    hide ShiftDigit, ToInt32, Scale, Pow128, ReadFrom, Octets;
    var bytes := Octets(u, n) + rest;
    OctetsFirst(u, n, rest);
    ReadStep(bytes, 7 * k);
    if n == 1 {
      LastDigit(u, k);
    } else {
      QuotientBelow(u, n - 1);
      ReadOctets(u / 128, n - 1, k + 1, rest);
      DigitsAdd(u, k);
    }
  }

  lemma {:induction false} EncodeIsOctets(v: nat)
    ensures var n := |Encode(v)|; n > 0 && v < Pow128(n) && (n > 1 ==> v >= Pow128(n - 1)) && Encode(v) == Octets(v, n)
  {
    if v >= 128 {
      EncodeIsOctets(v / 128);
      var m := |Encode(v / 128)|;
      assert Encode(v) == [v % 128 + 128] + Encode(v / 128);
      assert Pow128(m + 1) == 128 * Pow128(m) && Pow128(m) == 128 * Pow128(m - 1);
    } else {
      assert Pow128(1) == 128 && Encode(v) == [v];
    }
  }

  lemma {:induction false} Pow128Grows(m: nat, n: nat)
    requires m <= n
    ensures Pow128(m) <= Pow128(n)
    decreases n
  {
    if m < n { Pow128Grows(m, n - 1); }
  }

  lemma FivePlaces()
    ensures Pow128(1) == 0x80 && Pow128(2) == 0x4000 && Pow128(3) == 0x20_0000 && Pow128(4) == 0x1000_0000
    ensures Pow128(5) == 0x8_0000_0000
  {
    assert Pow128(2) == 128 * Pow128(1);
    assert Pow128(3) == 128 * Pow128(2);
    assert Pow128(4) == 128 * Pow128(3);
    assert Pow128(5) == 128 * Pow128(4);
  }

  /** Up to five octets the unsigned reader yields the low 32 bits as an `int`, and stops at the end of the
      encoding: the value itself exactly below 2^31. */
  lemma UnsignedRead(v: nat, rest: seq<Byte>)
    requires v < 0x8_0000_0000
    ensures ReadFrom(Encode(v) + rest, 0) == Some(Raw(ToInt32(v), |Encode(v)|))
    ensures ToInt32(v) == v <==> v < TWO31
  {
    hide Encode, Octets, ReadFrom, Pow128, ToInt32;
    EncodeIsOctets(v);
    FivePlaces();
    var n := |Encode(v)|;
    if n > 5 { Pow128Grows(5, n - 1); }
    ReadOctets(v, n, 0, rest);
    FixedByInt32(v);
  }

  /** The octets of a signed number, read as an unsigned one. */
  function Unsigned(v: int, n: nat): int { if v < 0 then v + Pow128(n) else v }

  /** The two's complement of v one octet wider starts with the low digit of v. */
  lemma UnsignedStep(v: int, m: nat)
    ensures Unsigned(v, m + 1) % 128 == v % 128 && Unsigned(v, m + 1) / 128 == Unsigned(v / 128, m)
  {
    assert Pow128(m + 1) == 128 * Pow128(m);
  }

  predicate Fits(v: int, n: nat) { -Pow128(n) <= 2 * v < Pow128(n) }

  lemma FitsStep(v: int, m: nat)
    ensures Fits(v, m + 2) <==> Fits(v / 128, m + 1)
  {
    var a := 64 * Pow128(m);
    assert Pow128(m + 1) == 2 * a && Pow128(m + 2) == 256 * a;
    QuotientBounds(v, a);
  }

  lemma QuotientBounds(v: int, a: int)
    ensures -a <= v / 128 < a <==> -128 * a <= v < 128 * a
  {}

  lemma SignedStep(v: int, m: nat)
    requires !(-64 <= v < 64) && m > 0 && Fits(v / 128, m) && (m > 1 ==> !Fits(v / 128, m - 1))
    requires m == |EncodeSigned(v / 128)| && 0 <= Unsigned(v / 128, m) && EncodeSigned(v / 128) == Octets(Unsigned(v / 128, m), m)
    ensures Fits(v, m + 1) && !Fits(v, m) && 0 <= Unsigned(v, m + 1) < Pow128(m + 1)
    ensures EncodeSigned(v) == Octets(Unsigned(v, m + 1), m + 1)
  {
    hide Pow128, Unsigned, Fits;
    FitsStep(v, m - 1);
    UnsignedStep(v, m);
    UnsignedRange(v, m + 1);
    if m > 1 { FitsStep(v, m - 2); } else { NotInOne(v); }
  }

  lemma {:induction false} EncodeSignedIsOctets(v: int)
    ensures var n := |EncodeSigned(v)|;
            && n > 0 && Fits(v, n) && (n > 1 ==> !Fits(v, n - 1))
            && 0 <= Unsigned(v, n) < Pow128(n) && EncodeSigned(v) == Octets(Unsigned(v, n), n)
    decreases if v < 0 then -v else v + 1
  {
    assert Pow128(1) == 128;
    if -64 <= v < 64 {
      assert Octets(Unsigned(v, 1), 1) == [v % 128];
    } else {
      EncodeSignedIsOctets(v / 128);
      var m := |EncodeSigned(v / 128)|;
      SignedStep(v, m);
    }
  }

  lemma UnsignedRange(v: int, n: nat)
    requires Fits(v, n)
    ensures 0 <= Unsigned(v, n) < Pow128(n)
  {}

  lemma NotInOne(v: int)
    ensures Fits(v, 1) <==> -64 <= v < 64
  {
    assert Pow128(1) == 128;
  }

  lemma SignPowers()
    ensures Pow2(6) == 0x40 && Pow2(13) == 0x2000 && Pow2(20) == 0x10_0000 && Pow2(27) == 0x800_0000
    ensures Pow2(34) == 0x4_0000_0000
  {
    SmallPowers();
    assert Pow2(7) == 2 * Pow2(6) && Pow2(14) == 2 * Pow2(13) && Pow2(21) == 2 * Pow2(20) && Pow2(28) == 2 * Pow2(27);
    assert Pow2(34) == 64 * Pow2(28);
  }

  lemma Multiples(d: int, q: int)
    requires d > 0
    ensures (q >= 2 ==> d * q >= 2 * d) && (q < 0 ==> d * q <= -d)
  {}

  lemma TopBit(u: int, half: int)
    requires 0 <= u < 2 * half
    ensures u / half == if u < half then 0 else 1
  {
    var q, r := u / half, u % half;
    assert u == half * q + r && 0 <= r < half;
    Multiples(half, q);
    assert q == 0 || q == 1;
  }

  /** Sign extension at a width of which `half` is the top bit. */
  lemma ExtendsAt(u: int, bits: nat, half: int)
    requires bits > 0 && Pow2(bits - 1) == half && Pow2(bits) == 2 * half
    requires 0 <= u < 2 * half <= TWO64 / 2
    ensures SignExtended(u, bits) == if u < half then u else u - 2 * half
  {
    hide Pow2, ToInt64;
    TopBit(u, half);
    if u < half { Int64Of(u, u, 0); } else { Int64Of(u + TWO64 - 2 * half, u - 2 * half, 1); }
  }

  lemma Int64Of(x: int, y: int, q: int)
    requires x == y + TWO64 * q && -TWO64 / 2 <= y < TWO64 / 2
    ensures ToInt64(x) == y
  {}

  /** The sign extension of what at most four octets hold gives the number back. */
  lemma ExtendShort(v: int, n: nat)
    requires 0 < n <= 4 && Fits(v, n)
    ensures -TWO31 <= v < TWO31 && 0 <= Unsigned(v, n) < TWO31 && SignExtended(Unsigned(v, n), 7 * n) == v
  {
    hide Pow2, Pow128, SignExtended;
    FivePlaces();
    SmallPowers();
    SignPowers();
    ExtendsAt(Unsigned(v, n), 7 * n, Pow128(n) / 2);
  }

  /** Five octets leave the top bit out of reach: the 32-bit shift has already extended the sign. */
  lemma ExtendLong(v: int)
    requires Fits(v, 5)
    ensures ToInt32(Unsigned(v, 5)) == ToInt32(v)
    ensures SignExtended(ToInt32(v) % TWO64, 35) == ToInt32(v)
  {
    hide Pow2, Pow128;
    FivePlaces();
    SignPowers();
  }

  /** Up to five octets the signed reader is right exactly for the numbers an `int` holds. */
  lemma SignedRead(v: int, rest: seq<Byte>)
    requires -0x4_0000_0000 <= v < 0x4_0000_0000
    ensures var r := ReadFrom(EncodeSigned(v) + rest, 0);
            && r.Some? && r.value.used == |EncodeSigned(v)| > 0
            && Signed(r.value) == ToInt32(v)
    ensures ToInt32(v) == v <==> -TWO31 <= v < TWO31
  {
    hide ToInt32, SignExtended, Pow128, Unsigned, Encode;
    EncodeSignedIsOctets(v);
    var n := |EncodeSigned(v)|;
    AtMostFive(v, n);
    ReadOctets(Unsigned(v, n), n, 0, rest);
    if n == 5 { ExtendLong(v); } else { ExtendShort(v, n); FixedByInt32(Unsigned(v, n)); }
    FixedByInt32(v);
  }

  lemma AtMostFive(v: int, n: nat)
    requires -0x4_0000_0000 <= v < 0x4_0000_0000 && n > 0 && (n > 1 ==> !Fits(v, n - 1))
    ensures n <= 5
  {
    FivePlaces();
    if n > 5 { Pow128Grows(5, n - 1); }
  }

  lemma FixedByInt32(x: int)
    ensures ToInt32(x) == x <==> -TWO31 <= x < TWO31
  {}

  // ---------------------------------------------------------------- numbers of any size

  /** Ten 32-bit digits at most: what a reader can yield at all. */
  lemma {:induction false} SumIsSmall(bytes: seq<Byte>, bit: nat)
    ensures match ReadFrom(bytes, bit)
            case None => true
            case Some(r) => r.used > 0 && bit + 7 * r.used <= 70 && -TWO31 * r.used <= r.sum <= TWO31 * r.used
    decreases |bytes|
  {
    hide Pow2;
    if bytes != [] && bit < 64 && bytes[0] >= 128 { SumIsSmall(bytes[1..], bit + 7); }
  }

  /** The reader stops at the first octet below 128, and takes ten octets at most: the eleventh would fail the
      assertion on the shift. */
  lemma {:induction false} StopsWithinTen(bytes: seq<Byte>, i: nat, k: nat)
    requires i <= 10 && k < |bytes| && bytes[k] < 128 && forall j :: 0 <= j < k ==> bytes[j] >= 128
    ensures ReadFrom(bytes, 7 * i).Some? <==> i + k < 10
    ensures ReadFrom(bytes, 7 * i).Some? ==> ReadFrom(bytes, 7 * i).value.used == k + 1
    decreases k
  {
    hide ShiftDigit;
    if k > 0 && i < 10 { StopsWithinTen(bytes[1..], i + 1, k - 1); }
  }

  /** From the sixth octet on, the 32-bit shift starts over: a digit there counts as one of the low digits does,
      which is why longer numbers are misread. */
  lemma ShiftStartsOver(digit: int, bit: nat)
    requires 0 <= digit < 128
    ensures ShiftDigit(digit, bit + 32) == ShiftDigit(digit, bit)
    ensures ShiftDigit(digit, 35) == 8 * digit
  {
    assert (bit + 32) % 32 == bit % 32;
    assert Pow2(3) == 8;
  }

  predicate UnsignedReadsBack(v: nat, rest: seq<Byte>) {
    match ReadFrom(Encode(v) + rest, 0)
    case None => false
    case Some(r) => ToInt64(r.sum) == v && r.used == |Encode(v)|
  }

  predicate SignedReadsBack(v: int, rest: seq<Byte>) {
    match ReadFrom(EncodeSigned(v) + rest, 0)
    case None => false
    case Some(r) => r.used == |EncodeSigned(v)| > 0 && Signed(r) == v
  }

  /** The unsigned reader inverts the standard's encoding exactly below 2^31. */
  lemma UnsignedRoundTrip(v: nat, rest: seq<Byte>)
    ensures UnsignedReadsBack(v, rest) <==> v < TWO31
  {
    hide Encode, ReadFrom;
    if v < 0x8_0000_0000 { UnsignedRead(v, rest); } else { SumIsSmall(Encode(v) + rest, 0); }
  }

  /** The signed reader inverts the standard's encoding exactly for the numbers of an `int`. */
  lemma SignedRoundTrip(v: int, rest: seq<Byte>)
    ensures SignedReadsBack(v, rest) <==> -TWO31 <= v < TWO31
  {
    hide EncodeSigned, ReadFrom, SignExtended, ToInt32;
    if -0x4_0000_0000 <= v < 0x4_0000_0000 {
      SignedRead(v, rest);
    } else {
      SumIsSmall(EncodeSigned(v) + rest, 0);
      if SignedReadsBack(v, rest) { TooLong(v, ReadFrom(EncodeSigned(v) + rest, 0).value); }
    }
  }

  /** From six octets on the sign is never extended, and the sum stays below every number that needs them. */
  lemma TooLong(v: int, r: Raw)
    requires !(-0x4_0000_0000 <= v < 0x4_0000_0000)
    requires 0 < r.used <= 10 && -TWO31 * r.used <= r.sum <= TWO31 * r.used
    requires r.used == |EncodeSigned(v)|
    ensures Signed(r) != v
  {
    hide EncodeSigned, Pow128, Fits, SignExtended, ToInt64;
    EncodeSignedIsOctets(v);
    var n := r.used;
    FivePlaces();
    FitsMeans(v, n);
    if n <= 5 { Pow128Grows(n, 5); assert false; }
    FitsMeans(v, n - 1);
    if n > 6 {
      Pow128Grows(6, n - 1);
      assert Pow128(6) == 128 * Pow128(5) by { SixPlaces(); }
    }
    Unextended(r);
  }

  lemma SixPlaces() ensures Pow128(6) == 128 * Pow128(5) {}

  lemma FitsMeans(v: int, n: nat)
    ensures Fits(v, n) <==> -Pow128(n) <= 2 * v < Pow128(n)
  {}

  lemma Unextended(r: Raw)
    requires 6 <= r.used <= 10 && -TWO31 * r.used <= r.sum <= TWO31 * r.used
    ensures Signed(r) == r.sum
  {
    hide Pow2;
    LongPowers();
    if r.sum >= 0 { assert r.sum % TWO64 == r.sum; } else { assert r.sum % TWO64 == r.sum + TWO64; }
  }

  lemma LongPowers()
    ensures Pow2(41) == 0x200_0000_0000 && Pow2(48) == 0x1_0000_0000_0000 && Pow2(55) == 0x80_0000_0000_0000
    ensures Pow2(62) == 0x4000_0000_0000_0000 && Pow2(69) == 0x20_0000_0000_0000_0000
  {
    SignPowers();
    assert Pow2(41) == 128 * Pow2(34);
    assert Pow2(48) == 128 * Pow2(41);
    assert Pow2(55) == 128 * Pow2(48);
    assert Pow2(62) == 128 * Pow2(55);
    assert Pow2(69) == 128 * Pow2(62);
  }
}
