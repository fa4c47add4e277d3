/** The payload that `main.c` builds, as a pure function of the decoded
    options. The imperative generator in `Generator.dfy` is proved to fill its
    buffer with exactly these bytes; the lemmas here say what the bytes mean. */
module FormatString {
  import opened Bytes
  import opened DecimalText

  /** Capacity of the global `buffer`. */
  const BUFFER_SIZE: nat := 4096

  // ---------------------------------------------------------------------
  // Text pieces

  /** Bytes of a string whose characters are all below 256. */
  function Ascii(s: string): (bs: seq<byte>)
    requires forall i :: 0 <= i < |s| ==> s[i] as int < 256
    ensures |bs| == |s|
    ensures forall i :: 0 <= i < |s| ==> bs[i] == s[i] as int
  {
    seq(|s|, i requires 0 <= i < |s| => s[i] as int)
  }

  /** The characters of a byte string. */
  function TextOf(bs: seq<byte>): (s: string)
    ensures |s| == |bs|
    ensures forall i :: 0 <= i < |bs| ==> s[i] as int == bs[i]
  {
    seq(|bs|, i requires 0 <= i < |bs| => bs[i] as char)
  }

  /** The filler string `memcpy` takes its first bytes from. */
  const FILLER: string := "ffffffff"

  /** Smallest count the padding conversion `%<r>x` is used for; below it the
      literal filler is copied instead. */
  const CONVERSION_THRESHOLD: nat := 8

  /** The forward distance on the 8-bit wheel from the low byte of the
      running count `soFar` to `needed`: the value `calc_remaining` returns. */
  function Remaining(needed: byte, soFar: nat): (r: nat)
    ensures r < 256
  {
    if needed >= soFar % 256 then needed - soFar % 256
    else 256 - (soFar % 256 - needed)
  }

  /** The padding piece for a count r: `r` filler bytes, or `%<r>x`. */
  function Padding(r: nat): (bs: seq<byte>)
    requires r < 256
    ensures |bs| <= 7
  {
    if r < CONVERSION_THRESHOLD then Ascii(FILLER[..r])
    else
      DecimalLength(r, 3);
      Ascii("%" + Decimal(r) + "x")
  }

  /** The write directive: a plain `%n` when `values_pop` equals
      `idx_stack_g`, `%<idx>$n` otherwise. */
  function WriteDirective(valuesPop: nat, idx: u32): (bs: seq<byte>)
    ensures 2 <= |bs| <= 14
  {
    if valuesPop == idx then Ascii("%n")
    else Ascii("%" + FormatInt32(idx) + "$n")
  }

  // ---------------------------------------------------------------------
  // The per-byte encoding loop

  /** The counters of the encoding loop: `written`, `values_pop` and the
      global `idx_stack_g`, all `unsigned int`. The first two are counted
      without wrapping: `AfterBound` shows they stay far below 2^32. */
  datatype Counters = Counters(written: nat, valuesPop: nat, idx: u32)

  /** `values_pop` after the padding piece of count r. */
  function PoppedByPadding(valuesPop: nat, r: nat): nat
  {
    if r < CONVERSION_THRESHOLD then valuesPop else valuesPop + 1
  }

  /** The bytes one iteration appends: padding, then the write directive. */
  function Piece(c: Counters, needed: byte): seq<byte>
  {
    var r := Remaining(needed, c.written);
    Padding(r) + WriteDirective(PoppedByPadding(c.valuesPop, r), c.idx)
  }

  /** The counters after one iteration. */
  function Next(c: Counters, needed: byte): Counters
  {
    var r := Remaining(needed, c.written);
    var popped := PoppedByPadding(c.valuesPop, r);
    Counters(c.written + r, if popped == c.idx then popped + 1 else popped, Add32(c.idx, 1))
  }

  /** Counters and output of the encoding loop. */
  datatype Progress = Progress(counters: Counters, out: seq<byte>)

  /** Counters and bytes after the first s passes for the value `with`.
      `Run`, `Pass` and `Advance` recurse through one another, so the
      verifier unfolds a pass only where `RunStep` is called. */
  function Run(with: u64, c0: Counters, s: nat): Progress
    decreases s, 0
  {
    if s == 0 then Progress(c0, []) else Pass(with, c0, s - 1)
  }

  /** Pass k: advancing by byte k of `with`. */
  function Pass(with: u64, c0: Counters, k: nat): Progress
    decreases k, 2
  {
    Advance(with, c0, k, ByteOf(with, k))
  }

  /** The progress after k passes, advanced by one pass for byte `needed`. */
  function Advance(with: u64, c0: Counters, k: nat, needed: byte): Progress
    decreases k, 1
  {
    var p := Run(with, c0, k);
    Progress(Next(p.counters, needed), p.out + Piece(p.counters, needed))
  }

  /** Pass k appends the piece for byte k of `with` and advances the
      counters by `Next`. */
  lemma RunStep(with: u64, c0: Counters, k: nat)
    ensures Run(with, c0, k + 1)
            == Progress(Next(Run(with, c0, k).counters, ByteOf(with, k)),
                        Run(with, c0, k).out + Piece(Run(with, c0, k).counters, ByteOf(with, k)))
  {
    assert Run(with, c0, k + 1) == Pass(with, c0, k);
    assert Pass(with, c0, k) == Advance(with, c0, k, ByteOf(with, k));
  }

  /** The counters after the first s passes. */
  function After(with: u64, c0: Counters, s: nat): Counters
  {
    Run(with, c0, s).counters
  }

  /** The bytes the first s passes append. */
  function Emitted(with: u64, c0: Counters, s: nat): seq<byte>
  {
    Run(with, c0, s).out
  }

  // ---------------------------------------------------------------------
  // The address table

  /** The address after k increments of `base`. */
  function AddressAt(base: u64, k: nat): u64
  {
    if k == 0 then base else Succ64(AddressAt(base, k - 1))
  }

  /** `count` addresses of `width` bytes each, the k-th being `addr` after k
      increments, each little-endian. */
  function AddressTable(addr: u64, width: nat, count: nat): seq<byte>
  {
    if count == 0 then []
    else AddressTable(addr, width, count - 1) + LittleEndian(AddressAt(addr, count - 1), width)
  }

  /** The counters when the encoding loop starts. */
  function Initial(width: nat, stackIdx: u32): Counters
    requires width <= 8
  {
    Counters(width * width, 0, stackIdx)
  }

  /** The whole payload `main` writes to standard output. */
  function Payload(overrideAddr: u64, with: u64, stackIdx: u32, width: nat): seq<byte>
    requires 1 <= width <= 8
  {
    AddressTable(overrideAddr, width, width) + Emitted(with, Initial(width, stackIdx), width)
  }

  // ---------------------------------------------------------------------
  // Properties

  /** Remaining is the unique, hence the least, count in [0, 256) that brings
      the low byte of the running count to `needed`. */
  lemma RemainingIsLeast(needed: byte, soFar: nat, r: nat)
    requires r < 256
    ensures (soFar + r) % 256 == needed <==> r == Remaining(needed, soFar)
  {
    var r0 := Remaining(needed, soFar);
    RemainingLands(needed, soFar);
    if (soFar + r) % 256 == needed {
      var a, b := (soFar + r) / 256, (soFar + r0) / 256;
      assert soFar + r == 256 * a + needed;
      assert soFar + r0 == 256 * b + needed;
    }
  }

  /** Adding Remaining brings the low byte of the running count to `needed`. */
  lemma RemainingLands(needed: byte, soFar: nat)
    ensures (soFar + Remaining(needed, soFar)) % 256 == needed
  {
    var q, m := soFar / 256, soFar % 256;
    if needed >= m {
      DivUnique(soFar + Remaining(needed, soFar), 256, q, needed);
    } else {
      DivUnique(soFar + Remaining(needed, soFar), 256, q + 1, needed);
    }
  }

  /** width * count, built up without multiplication. */
  function BlocksLength(width: nat, count: nat): nat
  {
    if count == 0 then 0 else BlocksLength(width, count - 1) + width
  }

  lemma {:induction false} BlocksLengthIsProduct(width: nat, count: nat)
    ensures BlocksLength(width, count) == width * count
  {
    if count > 0 {
      BlocksLengthIsProduct(width, count - 1);
    }
  }

  /** k increments of `base` give `base + k`, wrapping at 2^64. */
  lemma {:induction false} AddressAtIsSum(base: u64, k: nat)
    ensures AddressAt(base, k) == (base + k) % UINT64_RANGE
  {
    if k > 0 {
      var prev := AddressAt(base, k - 1);
      AddressAtIsSum(base, k - 1);
      ModIncrement(base + k - 1, prev, UINT64_RANGE);
    }
  }

  /** Appending block `count` extends the table by one address. */
  lemma AddressTableStep(prefix: seq<byte>, addr: u64, width: nat, count: nat)
    ensures prefix + AddressTable(addr, width, count) + LittleEndian(AddressAt(addr, count), width)
            == prefix + AddressTable(addr, width, count + 1)
  {
  }

  /** A table of at most 8 addresses of at most 8 bytes takes at most 64 bytes. */
  lemma TableSize(width: nat, count: nat)
    requires width <= 8 && count <= 8
    ensures BlocksLength(width, count) <= 64
  {
    BlocksLengthIsProduct(width, count);
    MulMono(width, count, 8);
    MulMono(8, width, 8);
  }

  lemma {:induction false} AddressTableLength(addr: u64, width: nat, count: nat)
    ensures |AddressTable(addr, width, count)| == BlocksLength(width, count)
  {
    if count > 0 {
      AddressTableLength(addr, width, count - 1);
    }
  }

  lemma SliceOfPrefix<X>(p: seq<X>, q: seq<X>, lo: nat, hi: nat)
    requires lo <= hi <= |p|
    ensures (p + q)[lo..hi] == p[lo..hi]
  {}

  /** Block k of the table is the little-endian encoding of `addr + k`. */
  lemma {:induction false} AddressTableBlock(addr: u64, width: nat, count: nat, k: nat)
    requires k < count
    ensures BlocksLength(width, k + 1) <= BlocksLength(width, count) == |AddressTable(addr, width, count)|
    ensures AddressTable(addr, width, count)[BlocksLength(width, k)..BlocksLength(width, k + 1)]
            == LittleEndian(AddressAt(addr, k), width)
  {
    AddressTableLength(addr, width, count);
    AddressTableLength(addr, width, count - 1);
    var prefix := AddressTable(addr, width, count - 1);
    var last := LittleEndian(AddressAt(addr, count - 1), width);
    assert AddressTable(addr, width, count) == prefix + last;
    if k < count - 1 {
      AddressTableBlock(addr, width, count - 1, k);
      SliceOfPrefix(prefix, last, BlocksLength(width, k), BlocksLength(width, k + 1));
    } else {
      assert (prefix + last)[|prefix|..|prefix| + |last|] == last;
    }
  }

  /** After iteration s the low byte of `written` is byte s of `with`: the
      write directive of iteration s stores that byte. */
  lemma WrittenAfter(with: u64, c0: Counters, s: nat)
    ensures After(with, c0, s + 1).written % 256 == ByteOf(with, s)
  {
    var c := After(with, c0, s);
    RunStep(with, c0, s);
    RemainingLands(ByteOf(with, s), c.written);
  }

  /** Iteration s writes through stack slot `stackidx + s`: every iteration
      advances `idx_stack_g` by exactly one. */
  lemma {:induction false} IndexAfter(with: u64, c0: Counters, s: nat)
    requires s < UINT32_RANGE
    ensures After(with, c0, s).idx == Add32(c0.idx, s)
  {
    if s > 0 {
      IndexAfter(with, c0, s - 1);
      RunStep(with, c0, s - 1);
    }
  }

  /** Each pass adds less than 256 to `written` and at most 2 to
      `values_pop`. */
  lemma {:induction false} AfterBound(with: u64, c0: Counters, s: nat)
    ensures After(with, c0, s).written <= c0.written + 255 * s
    ensures After(with, c0, s).valuesPop <= c0.valuesPop + 2 * s
  {
    if s > 0 {
      AfterBound(with, c0, s - 1);
      RunStep(with, c0, s - 1);
    }
  }

  /** One iteration appends at most 21 bytes. */
  lemma {:induction false} EmittedLength(with: u64, c0: Counters, s: nat)
    ensures |Emitted(with, c0, s)| <= 21 * s
  {
    if s > 0 {
      EmittedLength(with, c0, s - 1);
      RunStep(with, c0, s - 1);
    }
  }

  /** The payload is the table followed by one piece per byte, and it always
      fits the 4096-byte buffer. */
  lemma SizeBound(width: nat)
    requires width <= 8
    ensures width * width + 21 * width <= 232
  {
    MulMono(width, width, 8);
  }

  lemma PayloadLayout(overrideAddr: u64, with: u64, stackIdx: u32, width: nat)
    requires 1 <= width <= 8
    ensures width * width <= |Payload(overrideAddr, with, stackIdx, width)| <= width * width + 21 * width <= 232
    ensures Payload(overrideAddr, with, stackIdx, width)[..width * width]
            == AddressTable(overrideAddr, width, width)
  {
    var table := AddressTable(overrideAddr, width, width);
    var rest := Emitted(with, Initial(width, stackIdx), width);
    AddressTableLength(overrideAddr, width, width);
    EmittedLength(with, Initial(width, stackIdx), width);
    var n := BlocksLength(width, width);
    BlocksLengthIsProduct(width, width);
    assert |table| == n == width * width;
    SizeBound(width);
    assert (table + rest)[..n] == table;
  }

  /** Block k of the payload decodes, little-endian, to `override + k`
      truncated to the address width. */
  lemma PayloadAddress(overrideAddr: u64, with: u64, stackIdx: u32, width: nat, k: nat)
    requires 1 <= width <= 8 && k < width
    ensures (k + 1) * width <= |Payload(overrideAddr, with, stackIdx, width)|
    ensures FromLittleEndian(Payload(overrideAddr, with, stackIdx, width)[k * width..(k + 1) * width])
            == (overrideAddr + k) % UINT64_RANGE % Pow256(width)
  {
    var table := AddressTable(overrideAddr, width, width);
    var rest := Emitted(with, Initial(width, stackIdx), width);
    AddressTableBlock(overrideAddr, width, width, k);
    AddressTableLength(overrideAddr, width, width);
    var lo, hi := BlocksLength(width, k), BlocksLength(width, k + 1);
    BlocksLengthIsProduct(width, k);
    BlocksLengthIsProduct(width, k + 1);
    BlocksLengthIsProduct(width, width);
    assert lo == k * width && hi == (k + 1) * width;
    SliceOfPrefix(table, rest, lo, hi);
    LittleEndianRoundTrip(AddressAt(overrideAddr, k), width);
    AddressAtIsSum(overrideAddr, k);
  }

  // ---------------------------------------------------------------------
  // What the pieces say to a formatted-output routine

  /** Characters a padding piece makes `printf` emit when the value it
      consumes (if any) has `hexDigits` hex digits: a `%<w>x` conversion
      emits max(w, hexDigits), literal text emits itself. */
  function PrintedByPadding(piece: seq<byte>, hexDigits: nat): nat
  {
    var t := TextOf(piece);
    if |t| >= 2 && t[0] == '%' && t[|t| - 1] == 'x'
       && (forall i :: 1 <= i < |t| - 1 ==> IsDigit(t[i])) then
      var w := DecimalValue(t[1..|t| - 1]);
      if w < hexDigits then hexDigits else w
    else |t|
  }

  /** Whichever form is chosen, the padding piece for r makes an `unsigned
      int` argument (1 to 8 hex digits) print exactly r characters: this is
      why counts below 8 use literal filler. */
  lemma PaddingPrintsRemaining(r: nat, hexDigits: nat)
    requires r < 256 && 1 <= hexDigits <= 8
    ensures PrintedByPadding(Padding(r), hexDigits) == r
  {
    var t := TextOf(Padding(r));
    if r < CONVERSION_THRESHOLD {
      assert t == FILLER[..r];
      assert r >= 2 ==> t[0] == 'f';
    } else {
      assert t == "%" + Decimal(r) + "x";
      assert t[1..|t| - 1] == Decimal(r);
      DecimalRoundTrip(r);
    }
  }

  /** Argument a write directive stores through. */
  datatype WriteTarget = Sequential | Positional(slot: int) | NoWrite

  function TargetOf(piece: seq<byte>): WriteTarget
  {
    var t := TextOf(piece);
    if t == "%n" then Sequential
    else if |t| >= 3 && t[0] == '%' && t[|t| - 2..] == "$n" then Positional(SignedValue(t[1..|t| - 2]))
    else NoWrite
  }

  /** The write directive names slot `idx` (as `%d` prints it) unless
      `values_pop` equals `idx`; then it is a plain `%n`, which names no slot
      and takes whichever argument comes next in sequence. */
  lemma WriteDirectiveTarget(valuesPop: nat, idx: u32)
    ensures TargetOf(WriteDirective(valuesPop, idx))
            == if valuesPop == idx then Sequential else Positional(Signed32(idx))
  {
    var t := TextOf(WriteDirective(valuesPop, idx));
    if valuesPop != idx {
      var d := FormatInt32(idx);
      assert t == "%" + d + "$n";
      assert t[1..|t| - 2] == d;
      assert t != "%n";
      FormatInt32RoundTrip(idx);
    }
  }

  /** One pass with a count of 1 (the one-byte table), byte 0x41 and stack
      slot 6: `%64x` brings the count to 65 = 0x41 and consumes one
      argument, and `%6$n` stores the count through slot 6. */
  lemma PieceExample()
    ensures Piece(Counters(1, 0, 6), 0x41) == Ascii("%64x%6$n")
    ensures Next(Counters(1, 0, 6), 0x41) == Counters(65, 1, 7)
  {
    assert Remaining(0x41, 1) == 64;
    assert Decimal(64) == "64";
    assert FormatInt32(6) == "6";
    assert Ascii("%64x") + Ascii("%6$n") == Ascii("%64x%6$n");
  }

  /** The same pass with `idx_stack_g` at 1: after `%64x` has advanced
      `values_pop` to 1 it equals `idx_stack_g`, so the plain `%n` branch is
      taken and `values_pop` is advanced a second time. */
  lemma CollisionExample()
    ensures Piece(Counters(1, 0, 1), 0x41) == Ascii("%64x%n")
    ensures Next(Counters(1, 0, 1), 0x41) == Counters(65, 2, 2)
  {
    assert Remaining(0x41, 1) == 64;
    assert Decimal(64) == "64";
    assert Ascii("%64x") + Ascii("%n") == Ascii("%64x%n");
  }
}
