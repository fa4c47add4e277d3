/** Machine integers and little-endian byte encoding, as `main.c` uses them:
    `unsigned char` buffer cells, `unsigned int` counters and the
    `unsigned long` (64-bit) addresses and values. */
module Bytes {

  const BYTE_RANGE: nat := 0x100
  const UINT32_RANGE: nat := 0x1_0000_0000
  const UINT64_RANGE: nat := 0x1_0000_0000_0000_0000

  type byte = b: int | 0 <= b < 0x100
  type u32 = x: int | 0 <= x < 0x1_0000_0000
  type u64 = x: int | 0 <= x < 0x1_0000_0000_0000_0000

  /** `a += b` on an `unsigned int`, for an increment b below 2^32. */
  function Add32(a: u32, b: nat): u32
    requires b < UINT32_RANGE
  {
    if a + b < UINT32_RANGE then a + b else a + b - UINT32_RANGE
  }

  /** `++a` on an `unsigned long`. */
  function Succ64(a: u64): u64
  {
    if a == UINT64_RANGE - 1 then 0 else a + 1
  }

  /** 256 to the power k, the weight of byte k. */
  function Pow256(k: nat): (p: nat)
    ensures p >= 1
  {
    if k == 0 then 1 else 256 * Pow256(k - 1)
  }

  /** `(v >> (k * 8)) & 0xff`: byte k of v, counting from the low end. */
  function ByteOf(v: nat, k: nat): byte
  {
    if k == 0 then v % 256 else ByteOf(v / 256, k - 1)
  }

  /** The low `width` bytes of v, least significant byte first. */
  function LittleEndian(v: nat, width: nat): (bs: seq<byte>)
    ensures |bs| == width
  {
    if width == 0 then [] else [v % 256] + LittleEndian(v / 256, width - 1)
  }

  /** The number whose little-endian encoding is bs. */
  function FromLittleEndian(bs: seq<byte>): nat
  {
    if bs == [] then 0 else bs[0] + 256 * FromLittleEndian(bs[1..])
  }

  /** Division is determined by a quotient and a remainder in range. */
  lemma DivUnique(v: nat, d: nat, q: nat, r: nat)
    requires d > 0 && r < d && v == d * q + r
    ensures v / d == q && v % d == r
  {
    var q', r' := v / d, v % d;
    assert v == d * q' + r';
    if q' < q {
      assert d * q' + d <= d * q by { MulMono(d, q' + 1, q); }
    } else if q' > q {
      assert d * q + d <= d * q' by { MulMono(d, q + 1, q'); }
    }
  }

  lemma MulMono(d: nat, a: nat, b: nat)
    requires a <= b
    ensures d * a <= d * b
  {}

  /** Incrementing a residue p of x: the residue of x + 1, which wraps to 0
      at the modulus. */
  lemma ModIncrement(x: nat, p: nat, m: nat)
    requires m > 0 && p == x % m
    ensures (if p + 1 == m then 0 else p + 1) == (x + 1) % m
  {
    var q := x / m;
    if p + 1 < m {
      DivUnique(x + 1, m, q, p + 1);
    } else {
      DivUnique(x + 1, m, q + 1, 0);
    }
  }

  /** The wrapping addition is addition modulo 2^32. */
  lemma Add32IsMod(a: u32, b: nat)
    requires b < UINT32_RANGE
    ensures Add32(a, b) == (a + b) % UINT32_RANGE
  {
    if a + b < UINT32_RANGE {
      DivUnique(a + b, UINT32_RANGE, 0, a + b);
    } else {
      DivUnique(a + b, UINT32_RANGE, 1, a + b - UINT32_RANGE);
    }
  }

  /** The increment is addition of one modulo 2^64. */
  lemma Succ64IsMod(a: u64)
    ensures Succ64(a) == (a + 1) % UINT64_RANGE
  {
    if a + 1 < UINT64_RANGE {
      DivUnique(a + 1, UINT64_RANGE, 0, a + 1);
    } else {
      DivUnique(a + 1, UINT64_RANGE, 1, 0);
    }
  }

  /** Wrapping at 2^32 does not disturb the low byte. */
  lemma Add32LowByte(a: u32, b: nat)
    requires b < UINT32_RANGE
    ensures Add32(a, b) % 256 == (a + b) % 256
  {
    if a + b >= UINT32_RANGE {
      var v := a + b - UINT32_RANGE;
      DivUnique(a + b, 256, v / 256 + 0x100_0000, v % 256);
    }
  }

  /** Splitting one byte off the bottom of a quotient and of a remainder. */
  lemma SplitLowByte(v: nat, p: nat)
    requires p > 0
    ensures v / 256 / p == v / (256 * p)
    ensures v % (256 * p) == 256 * (v / 256 % p) + v % 256
  {
    var a := v / 256;
    var q := a / p;
    var r := a % p;
    assert v == 256 * (p * q + r) + v % 256;
    assert 256 * r + v % 256 < 256 * p by { MulMono(256, r + 1, p); }
    assert v == (256 * p) * q + (256 * r + v % 256);
    DivUnique(v, 256 * p, q, 256 * r + v % 256);
  }

  /** Byte j of the encoding is byte j of the number: the encoding is what
      the nested loop of `PUT_ADDR` writes byte by byte. */
  lemma {:induction false} LittleEndianAt(v: nat, width: nat, j: nat)
    requires j < width
    ensures LittleEndian(v, width)[j] == ByteOf(v, j)
  {
    if j > 0 {
      LittleEndianAt(v / 256, width - 1, j - 1);
    }
  }

  /** Byte k is the quotient by 256^k, reduced modulo 256: the shift and
      mask of the source. */
  lemma {:induction false} ByteOfIsShiftAndMask(v: nat, k: nat)
    ensures ByteOf(v, k) == v / Pow256(k) % 256
  {
    if k > 0 {
      ByteOfIsShiftAndMask(v / 256, k - 1);
      SplitLowByte(v, Pow256(k - 1));
    }
  }

  /** Decoding the encoding gives back the number truncated to `width` bytes. */
  lemma {:induction false} LittleEndianRoundTrip(v: nat, width: nat)
    ensures FromLittleEndian(LittleEndian(v, width)) == v % Pow256(width)
  {
    if width > 0 {
      var bs := LittleEndian(v, width);
      assert bs[1..] == LittleEndian(v / 256, width - 1);
      LittleEndianRoundTrip(v / 256, width - 1);
      SplitLowByte(v, Pow256(width - 1));
    }
  }

  /** Encoding a number that fits in `width` bytes loses nothing. */
  lemma LittleEndianInjective(v: nat, w: nat, width: nat)
    requires v < Pow256(width) && w < Pow256(width)
    ensures LittleEndian(v, width) == LittleEndian(w, width) <==> v == w
  {
    LittleEndianRoundTrip(v, width);
    LittleEndianRoundTrip(w, width);
  }
}
