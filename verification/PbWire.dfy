/** Base 128 varints, zigzag and little-endian fixed words, as the nanopb codec
    reads and writes them.  Integer widths are written out: a C |uint64_t| is a
    natural number below TWO64 and every place where C wraps carries a modulus. */
module PbWire {
  import opened Common
  import opened Bits

  const TWO31: nat := 0x8000_0000
  const TWO32: nat := 0x1_0000_0000
  const TWO63: nat := 0x8000_0000_0000_0000
  const TWO64: nat := 0x1_0000_0000_0000_0000

  /** Outcome of reading something off the front of a byte string: the value and
      the bytes left over, or a decoding error. */
  datatype Res<+T> = Bad | Ok(v: T, rest: seq<byte>)

  lemma Pow2Values()
    ensures Pow2(7) == 128 && Pow2(28) == 0x1000_0000 && Pow2(31) == TWO31
    ensures Pow2(32) == TWO32 && Pow2(63) == TWO63 && Pow2(64) == TWO64
  {
    assert Pow2(7) == 128;
    assert Pow2(14) == 0x4000 by { Pow2Add(7, 7); }
    assert Pow2(28) == 0x1000_0000 by { Pow2Add(14, 14); }
    assert Pow2(3) == 8;
    assert Pow2(31) == TWO31 by { Pow2Add(28, 3); }
    assert Pow2(32) == 2 * Pow2(31);
    assert Pow2(63) == TWO63 by { Pow2Add(32, 31); }
    assert Pow2(64) == 2 * Pow2(63);
  }

  /** Bits or-ed in above the ones already there are bits added: the reason the
      decoders may write the |= of the source as an addition. */
  lemma {:induction false} OrIsAdd(low: nat, digit: nat, n: nat)
    requires low < Pow2(n)
    ensures Or(low, Shl(digit, n)) == low + Shl(digit, n)
  {
    if n > 0 && low != 0 && Shl(digit, n) != 0 {
      assert Shl(digit, n) / 2 == Shl(digit, n - 1);
      OrIsAdd(low / 2, digit, n - 1);
    }
  }

  // ----- varints -----

  function EncodeVarint(v: nat): (bs: seq<byte>)
    ensures |bs| >= 1
  {
    if v < 128 then [v] else [v % 128 + 128] + EncodeVarint(v / 128)
  }

  /** 2^(64 - 7n): what the groups from number n on can still hold of a |uint64_t|. */
  function Room64(n: nat): nat
    requires n <= 9
  {
    match n
    case 0 => TWO64
    case 1 => 0x200_0000_0000_0000
    case 2 => 0x4_0000_0000_0000
    case 3 => 0x800_0000_0000
    case 4 => 0x10_0000_0000
    case 5 => 0x2000_0000
    case 6 => 0x40_0000
    case 7 => 0x8000
    case 8 => 0x100
    case _ => 2
  }

  /** 2^(32 - 7n), the same for a |uint32_t|. */
  function Room32(n: nat): nat
    requires n <= 4
  {
    match n
    case 0 => TWO32
    case 1 => 0x200_0000
    case 2 => 0x4_0000
    case 3 => 0x800
    case _ => 0x10
  }

  /** The value pb_decode_varint reads off the front of |bs|. */
  function Varint64(bs: seq<byte>): (r: Res<nat>)
    ensures r.Ok? ==> |r.rest| < |bs| && r.v < TWO64
  {
    Groups64(bs, 0)
  }

  /** Seven-bit groups number n, n+1, ...: at most ten, the tenth contributing one bit. */
  function Groups64(bs: seq<byte>, n: nat): (r: Res<nat>)
    requires n <= 10
    decreases |bs|
    ensures r.Ok? ==> |r.rest| < |bs| && n <= 9 && r.v < Room64(n)
  {
    if n == 10 || bs == [] then Bad
    else
      var digit := bs[0] % if n == 9 then 2 else 128;
      if bs[0] < 128 then Ok(digit, bs[1..])
      else
        match Groups64(bs[1..], n + 1)
        case Bad => Bad
        case Ok(v, rest) => Ok(digit + 128 * v, rest)
  }

  /** The value pb_decode_varint32 reads off the front of |bs|. */
  function Varint32(bs: seq<byte>): (r: Res<nat>)
    ensures r.Ok? ==> |r.rest| < |bs| && r.v < TWO32
  {
    Groups32(bs, 0)
  }

  /** Groups n .. 4 fill the 32 bits; what follows the fifth must be an extension. */
  function Groups32(bs: seq<byte>, n: nat): (r: Res<nat>)
    requires n <= 4
    decreases |bs|
    ensures r.Ok? ==> |r.rest| < |bs| && r.v < Room32(n)
  {
    if bs == [] then Bad
    else if bs[0] < 128 then
      if n == 4 && bs[0] >= 16 then Bad else Ok(bs[0], bs[1..])
    else if n == 4 then
      match Extension(bs[1..], 35, bs[0] / 8 % 2 == 1)
      case Bad => Bad
      case Ok(_, rest) => Ok(bs[0] % 16, rest)
    else
      match Groups32(bs[1..], n + 1)
      case Bad => Bad
      case Ok(v, rest) => Ok(bs[0] % 128 + 128 * v, rest)
  }

  /** Whether a byte past bit 32 is neither empty nor the sign extension of a negative value. */
  predicate BadExtension(b: byte, bitpos: nat, negative: bool) {
    b % 128 != 0 && (!negative || b != if bitpos < 63 then 0xFF else 0x01)
  }

  function Extension(bs: seq<byte>, bitpos: nat, negative: bool): (r: Res<()>)
    decreases |bs|
    ensures r.Ok? ==> |r.rest| < |bs|
  {
    if bs == [] || BadExtension(bs[0], bitpos, negative) then Bad
    else if bs[0] < 128 then Ok((), bs[1..])
    else Extension(bs[1..], bitpos + 7, negative)
  }

  // ----- zigzag and two's complement -----

  function U64(n: int): (u: nat)
    ensures u < TWO64
  {
    n % TWO64
  }

  function ZigZag(n: int): (u: nat)
    ensures u < TWO64
  {
    var shifted := (U64(n) * 2) % TWO64;
    if n < 0 then TWO64 - 1 - shifted else shifted
  }

  function UnZigZag(u: nat): int
    requires u < TWO64
  {
    if u % 2 == 1 then Int64(TWO64 - 1 - u / 2) else Int64(u / 2)
  }

  function Int64(u: nat): int
    requires u < TWO64
  {
    if u < TWO63 then u else u - TWO64
  }

  /** Zigzag is a bijection between |int64_t| and |uint64_t|. */
  lemma ZigZagBijection(n: int, u: nat)
    requires -0x8000_0000_0000_0000 <= n < 0x8000_0000_0000_0000
    requires u < TWO64
    ensures UnZigZag(ZigZag(n)) == n
    ensures -0x8000_0000_0000_0000 <= UnZigZag(u) < 0x8000_0000_0000_0000 && ZigZag(UnZigZag(u)) == u
    ensures ZigZag(n) == if n < 0 then -2 * n - 1 else 2 * n
  {
    if n < 0 {
      assert U64(n) == n + TWO64;
      assert (U64(n) * 2) % TWO64 == 2 * n + TWO64;
    }
    var m := UnZigZag(u);
    if m < 0 {
      assert U64(m) == m + TWO64;
      assert (U64(m) * 2) % TWO64 == 2 * m + TWO64;
    }
  }

  // ----- fixed words -----

  function LittleEndian(v: nat, len: nat): (bs: seq<byte>)
    ensures |bs| == len
  {
    if len == 0 then [] else [v % 256] + LittleEndian(v / 256, len - 1)
  }

  function FromLittleEndian(bs: seq<byte>): nat {
    if bs == [] then 0 else bs[0] + 256 * FromLittleEndian(bs[1..])
  }

  lemma {:induction false} LittleEndianRoundTrip(v: nat, len: nat)
    requires v < Pow2(8 * len)
    ensures FromLittleEndian(LittleEndian(v, len)) == v
  {
    if len != 0 {
      Pow2Add(8 * (len - 1), 8);
      assert Pow2(8) == 256;
      assert v / 256 < Pow2(8 * (len - 1));
      LittleEndianRoundTrip(v / 256, len - 1);
      assert LittleEndian(v, len)[1..] == LittleEndian(v / 256, len - 1);
    } else {
      assert Pow2(0) == 1;
    }
  }

  // ----- varint theorems -----

  lemma NextGroup(v: nat, n: nat)
    requires n <= 9 && 128 <= v < Room64(n)
    ensures n < 9 && v / 128 < Room64(n + 1)
  {
    assert v == 128 * (v / 128) + v % 128;
  }

  lemma {:induction false} Groups64Reads(v: nat, tail: seq<byte>, n: nat)
    requires n <= 9 && v < Room64(n)
    ensures Groups64(EncodeVarint(v) + tail, n) == Ok(v, tail)
  {
    if v < 128 {
      assert ([v] + tail)[1..] == tail;
      assert n == 9 ==> v < 2;
    } else {
      NextGroup(v, n);
      Groups64Reads(v / 128, tail, n + 1);
      GroupInFront(v, EncodeVarint(v / 128) + tail, n);
      assert EncodeVarint(v) + tail == [v % 128 + 128] + (EncodeVarint(v / 128) + tail);
    }
  }

  lemma GroupInFront(v: nat, more: seq<byte>, n: nat)
    requires n < 9 && Groups64(more, n + 1).Ok? && Groups64(more, n + 1).v == v / 128
    ensures Groups64([v % 128 + 128] + more, n) == Ok(v, Groups64(more, n + 1).rest)
  {
    var bs := [v % 128 + 128] + more;
    assert bs[1..] == more;
  }

  /** Encoding and decoding are inverse on every 64-bit value, whatever follows. */
  lemma Varint64RoundTrip(v: nat, tail: seq<byte>)
    requires v < TWO64
    ensures Varint64(EncodeVarint(v) + tail) == Ok(v, tail)
  {
    Groups64Reads(v, tail, 0);
  }

  /** The encoding is the minimal one: at most k bytes exactly for the values of k groups. */
  lemma {:induction false} VarintMinimal(v: nat, k: nat)
    requires k >= 1
    ensures |EncodeVarint(v)| <= k <==> v < Pow2(7 * k)
  {
    assert Pow2(7) == 128;
    if k > 1 {
      assert Pow2(7 * k) == 128 * Pow2(7 * (k - 1)) by { Pow2Add(7, 7 * (k - 1)); }
      VarintMinimal(v / 128, k - 1);
    }
  }

  lemma VarintAtMostTenBytes(v: nat)
    requires v < TWO64
    ensures 1 <= |EncodeVarint(v)| <= 10
  {
    assert Pow2(70) == Pow2(64) * Pow2(6) by { Pow2Add(64, 6); }
    assert Pow2(64) == TWO64 by { Pow2Values(); }
    VarintMinimal(v, 10);
  }

  lemma LowDigit0(digit: nat, high: nat)
    requires digit < 128
    ensures (digit + 128 * high) % 0x1_0000_0000 == digit + 128 * (high % 0x200_0000)
  {
    var q, r := high / 0x200_0000, high % 0x200_0000;
    assert digit + 128 * high == (digit + 128 * r) + 0x1_0000_0000 * q;
  }

  lemma LowDigit1(digit: nat, high: nat)
    requires digit < 128
    ensures (digit + 128 * high) % 0x200_0000 == digit + 128 * (high % 0x4_0000)
  {
    var q, r := high / 0x4_0000, high % 0x4_0000;
    assert digit + 128 * high == (digit + 128 * r) + 0x200_0000 * q;
  }

  lemma LowDigit2(digit: nat, high: nat)
    requires digit < 128
    ensures (digit + 128 * high) % 0x4_0000 == digit + 128 * (high % 0x800)
  {
    var q, r := high / 0x800, high % 0x800;
    assert digit + 128 * high == (digit + 128 * r) + 0x4_0000 * q;
  }

  lemma LowDigit3(digit: nat, high: nat)
    requires digit < 128
    ensures (digit + 128 * high) % 0x800 == digit + 128 * (high % 0x10)
  {
    var q, r := high / 0x10, high % 0x10;
    assert digit + 128 * high == (digit + 128 * r) + 0x800 * q;
  }

  /** Putting a digit in front multiplies value and modulus alike. */
  lemma LowDigit(digit: nat, high: nat, n: nat)
    requires n <= 3 && digit < 128
    ensures (digit + 128 * high) % Room32(n) == digit + 128 * (high % Room32(n + 1))
  {
    match n
    case 0 => LowDigit0(digit, high);
    case 1 => LowDigit1(digit, high);
    case 2 => LowDigit2(digit, high);
    case 3 => LowDigit3(digit, high);
  }

  lemma LowNibble(digit: nat, high: nat)
    ensures (digit + 128 * high) % 16 == digit % 16
  {
    var q, r := digit / 16, digit % 16;
    assert digit + 128 * high == r + 16 * (q + 8 * high);
    NibbleOf(r, q + 8 * high);
  }

  lemma NibbleOf(r: nat, k: nat)
    requires r < 16
    ensures (r + 16 * k) % 16 == r
  {
  }

  predicate AgreeOnLowBits(r: Res<nat>, w: Res<nat>, m: nat)
    requires m > 0
  {
    r.Ok? && w.Ok? && w.rest == r.rest && w.v % m == r.v
  }

  lemma {:induction false} Groups32AreLowBits(bs: seq<byte>, n: nat)
    requires n <= 4 && Groups32(bs, n).Ok?
    requires n + |bs| - |Groups32(bs, n).rest| <= 10
    ensures AgreeOnLowBits(Groups32(bs, n), Groups64(bs, n), Room32(n))
  {
    if bs[0] < 128 {
      LastGroupAgrees(bs, n);
    } else if n == 4 {
      FifthGroupAgrees(bs);
    } else {
      Groups32AreLowBits(bs[1..], n + 1);
      var high := Groups64(bs[1..], n + 1).v;
      LowDigit(bs[0] % 128, high, n);
      assert Groups64(bs, n).v == bs[0] % 128 + 128 * high;
    }
  }

  lemma LastGroupAgrees(bs: seq<byte>, n: nat)
    requires n <= 4 && bs != [] && bs[0] < 128 && Groups32(bs, n).Ok?
    ensures AgreeOnLowBits(Groups32(bs, n), Groups64(bs, n), Room32(n))
  {
    assert bs[0] < Room32(n);
  }

  lemma FifthGroupAgrees(bs: seq<byte>)
    requires bs != [] && bs[0] >= 128 && Groups32(bs, 4).Ok?
    requires 4 + |bs| - |Groups32(bs, 4).rest| <= 10
    ensures AgreeOnLowBits(Groups32(bs, 4), Groups64(bs, 4), 16)
  {
    ExtensionReads(bs[1..], 5, bs[0] / 8 % 2 == 1);
    var high := Groups64(bs[1..], 5).v;
    assert Groups64(bs, 4).v == bs[0] % 128 + 128 * high;
    LowNibble(bs[0] % 128, high);
    SameNibble(bs[0]);
  }

  lemma SameNibble(b: byte)
    ensures b % 128 % 16 == b % 16
  {
  }

  lemma {:induction false} ExtensionReads(bs: seq<byte>, n: nat, negative: bool)
    requires 5 <= n <= 10 && Extension(bs, 7 * n, negative).Ok?
    requires n + |bs| - |Extension(bs, 7 * n, negative).rest| <= 10
    ensures Groups64(bs, n).Ok? && Groups64(bs, n).rest == Extension(bs, 7 * n, negative).rest
  {
    if bs[0] >= 128 {
      ExtensionReads(bs[1..], n + 1, negative);
    }
  }

  /** Whenever the 32-bit decoder accepts a varint of at most ten bytes, it returns
      the low 32 bits of what the 64-bit decoder returns, and stops at the same byte. */
  lemma Varint32IsLowBits(bs: seq<byte>)
    requires Varint32(bs).Ok? && |bs| - |Varint32(bs).rest| <= 10
    ensures Varint64(bs).Ok? && Varint64(bs).rest == Varint32(bs).rest
    ensures Varint64(bs).v % TWO32 == Varint32(bs).v
  {
    Groups32AreLowBits(bs, 0);
  }

  lemma {:induction false} Groups32Reads(v: nat, tail: seq<byte>, n: nat)
    requires n <= 4 && v < Room32(n)
    ensures Groups32(EncodeVarint(v) + tail, n) == Ok(v, tail)
  {
    var bs := EncodeVarint(v) + tail;
    if v < 128 {
      assert bs[1..] == tail;
    } else {
      assert bs[1..] == EncodeVarint(v / 128) + tail;
      Groups32Reads(v / 128, tail, n + 1);
    }
  }

  /** The 32-bit decoder accepts the encoding of every value below 2^32 ... */
  lemma Varint32RoundTrip(v: nat, tail: seq<byte>)
    requires v < TWO32
    ensures Varint32(EncodeVarint(v) + tail) == Ok(v, tail)
  {
    Groups32Reads(v, tail, 0);
  }

  lemma {:induction false} ExtensionRejects(v: nat, tail: seq<byte>, n: nat, negative: bool)
    requires 5 <= n <= 8 && 0 < v && 2 * v < Room64(n)
    ensures Extension(EncodeVarint(v) + tail, 7 * n, negative).Bad?
  {
    var bs := EncodeVarint(v) + tail;
    if v >= 128 {
      assert bs[1..] == EncodeVarint(v / 128) + tail;
      ExtensionRejects(v / 128, tail, n + 1, negative);
    }
  }

  lemma {:induction false} Groups32Reject(v: nat, tail: seq<byte>, n: nat)
    requires n <= 4 && Room32(n) <= v && 2 * v < Room64(n)
    ensures Groups32(EncodeVarint(v) + tail, n).Bad?
  {
    var bs := EncodeVarint(v) + tail;
    if v >= 128 {
      assert bs[1..] == EncodeVarint(v / 128) + tail;
      if n == 4 {
        ExtensionRejects(v / 128, tail, 5, bs[0] / 8 % 2 == 1);
      } else {
        Groups32Reject(v / 128, tail, n + 1);
      }
    }
  }

  /** ... and rejects the encoding of every value from 2^32 up to 2^63. */
  lemma Varint32Rejects(v: nat, tail: seq<byte>)
    requires TWO32 <= v < TWO63
    ensures Varint32(EncodeVarint(v) + tail).Bad?
  {
    Groups32Reject(v, tail, 0);
  }
}
