/** The imperative program of `main.c`: its globals and its 4096-byte buffer
    as a class, `calc_remaining`, the `PUT_ADDR` table loop, the per-byte
    encoding loop and `main`, each proved to produce the bytes `Payload`
    describes. */
module Generator {
  import opened Bytes
  import opened DecimalText
  import opened FormatString
  import opened Options

  /** `EX_USAGE` of `sysexits.h`: the status `usage` exits with. */
  const EX_USAGE: int := 64

  /** `r` more characters bring the low byte of the count `soFar` to `needed`. */
  predicate Lands(soFar: nat, r: nat, needed: nat)
  {
    (soFar + r) % 256 == needed
  }

  /** `calc_remaining`: the least count that makes the low byte of the running
      count `*so_far` equal `needed`, added to the counter (which wraps as
      an `unsigned int`). */
  method CalcRemaining(needed: u32, soFar: u32) returns (ret: int, newSoFar: u32)
    requires needed <= 0xff
    ensures 0 <= ret <= 0xff
    ensures Lands(soFar, ret, needed)
    ensures forall r :: 0 <= r < ret ==> !Lands(soFar, r, needed)
    ensures newSoFar == Add32(soFar, ret) && newSoFar % 256 == needed
    ensures ret == Remaining(needed, soFar)
  {
    if needed >= soFar % 0x100 {
      ret := needed - soFar % 0x100;
    } else {
      ret := 0x100 - (soFar % 0x100 - needed);
    }
    newSoFar := Add32(soFar, ret);
    Add32LowByte(soFar, ret);
    RemainingLands(needed, soFar);
    forall r | 0 <= r < ret
      ensures !Lands(soFar, r, needed)
    {
      RemainingIsLeast(needed, soFar, r);
    }
  }

  lemma {:induction false} BlocksLengthMono(width: nat, a: nat, b: nat)
    requires a <= b
    ensures BlocksLength(width, a) <= BlocksLength(width, b)
  {
    if a < b {
      BlocksLengthMono(width, a, b - 1);
    }
  }

  /** The process: the globals of `main.c` and its output buffer. */
  class Process {
    var buffer: array<byte>
    var overrideAddr: u64
    var jmpAddr: u64
    var idxStack: u32
    var addressSize: i32

    /** The four globals as one value. */
    function State(): Globals
      reads this
    {
      Globals(overrideAddr, jmpAddr, idxStack, addressSize)
    }

    /** Static initialisation: a zeroed buffer, zero globals, address size 4. */
    constructor ()
      ensures fresh(buffer) && buffer.Length == BUFFER_SIZE
      ensures forall j :: 0 <= j < buffer.Length ==> buffer[j] == 0
      ensures State() == DEFAULT_GLOBALS
    {
      buffer := new byte[BUFFER_SIZE](_ => 0);
      overrideAddr, jmpAddr, idxStack, addressSize := 0, 0, 0, 4;
    }

    /** `memcpy(buffer + at, text, |text|)`. */
    method Memcpy(at: nat, text: seq<byte>)
      requires at + |text| <= buffer.Length
      modifies buffer
      ensures buffer[..at + |text|] == old(buffer[..at]) + text
      ensures buffer[at + |text|..] == old(buffer[at + |text|..])
    {
      var k := 0;
      while k < |text|
        invariant 0 <= k <= |text|
        invariant buffer[..at + k] == old(buffer[..at]) + text[..k]
        invariant forall j :: at + k <= j < buffer.Length ==> buffer[j] == old(buffer[j])
      {
        buffer[at + k] := text[k];
        assert text[..k + 1] == text[..k] + [text[k]];
        k := k + 1;
      }
      assert text[..k] == text;
    }

    /** `sprintf(buffer + at, …)` producing `text`: the text and a NUL
        terminator are stored, and the length of the text is returned. */
    method Sprintf(at: nat, text: seq<byte>) returns (n: nat)
      requires at + |text| < buffer.Length
      modifies buffer
      ensures n == |text|
      ensures buffer[..at + n] == old(buffer[..at]) + text
      ensures buffer[at + n] == 0
      ensures buffer[at + n + 1..] == old(buffer[at + n + 1..])
    {
      Memcpy(at, text + [0]);
      n := |text|;
      assert buffer[..at + n] == buffer[..at + n + 1][..at + n];
      assert buffer[at + n] == buffer[..at + n + 1][at + n];
    }

    /** `parse_arguments` over the decoded options: returns 0 and leaves the
        globals `Parse` describes, or returns -1. */
    method ParseArguments(opts: seq<CliOption>, operandsLeft: nat) returns (status: int)
      modifies this`overrideAddr, this`jmpAddr, this`idxStack, this`addressSize
      ensures status == 0 || status == -1
      ensures status == 0 <==> Parse(old(State()), opts, operandsLeft).Some?
      ensures status == 0 ==> State() == Parse(old(State()), opts, operandsLeft).value
    {
      var overrideSet, stackIdxSet, withSet := false, false, false;
      ghost var s0 := ScanState(State(), false, false, false);
      var k := 0;
      while k < |opts|
        invariant 0 <= k <= |opts|
        invariant ScanOptions(s0, opts[..k]) == Some(ScanState(State(), overrideSet, withSet, stackIdxSet))
      {
        assert opts[..k + 1][..k] == opts[..k];
        match opts[k] {
          case OverrideOpt(a) =>
            overrideAddr := a;
            overrideSet := true;
          case WithOpt(a) =>
            jmpAddr := a;
            withSet := true;
          case StackIdxOpt(n) =>
            idxStack := ToUnsigned32(n);
            stackIdxSet := true;
          case AddrSizeOpt(n) =>
            addressSize := n;
            if addressSize < 1 || addressSize > 8 {
              ScanOptionsRejectStays(s0, opts, k + 1);
              return -1;
            }
        }
        k := k + 1;
      }
      assert opts[..k] == opts;
      if operandsLeft > 0 {
        return -1;
      }
      if !overrideSet || !stackIdxSet || !withSet {
        return -1;
      }
      return 0;
    }

    /** The inner loop of `PUT_ADDR`: the low `width` bytes of `addr`, low
        byte first, stored through the cursor, each counted in `written`. */
    method PutWord(addr: u64, width: nat, i0: nat, written0: u32) returns (i: nat, written: u32)
      requires width <= 8 && i0 + width <= buffer.Length
      modifies buffer
      ensures i == i0 + width
      ensures buffer[..i] == old(buffer[..i0]) + LittleEndian(addr, width)
      ensures written == Add32(written0, width)
    {
      i, written := i0, written0;
      var shift := 0;
      while shift < width
        invariant 0 <= shift <= width
        invariant i == i0 + shift
        invariant written == Add32(written0, shift)
        invariant buffer[..i] == old(buffer[..i0]) + LittleEndian(addr, width)[..shift]
      {
        buffer[i] := ByteOf(addr, shift);
        LittleEndianAt(addr, width, shift);
        assert LittleEndian(addr, width)[..shift + 1]
            == LittleEndian(addr, width)[..shift] + [ByteOf(addr, shift)];
        i := i + 1;
        written := Add32(written, 1);
        shift := shift + 1;
      }
      assert LittleEndian(addr, width)[..width] == LittleEndian(addr, width);
    }

    /** `PUT_ADDR(0)`: `addressSize` addresses starting at `override_addr_g`,
        each one more than the one before, stored little-endian through the
        cursor, counting every byte. */
    method PutAddr(i0: nat, written0: u32) returns (i: nat, written: u32)
      requires 1 <= addressSize <= 8
      requires i0 + BlocksLength(addressSize, addressSize) <= buffer.Length
      modifies buffer
      ensures i == i0 + BlocksLength(addressSize, addressSize) <= i0 + 64
      ensures buffer[..i] == old(buffer[..i0]) + AddressTable(overrideAddr, addressSize, addressSize)
      ensures written == Add32(written0, BlocksLength(addressSize, addressSize))
    {
      var w: nat := addressSize;
      var addr: u64 := overrideAddr;
      ghost var base := addr;
      ghost var prefix := buffer[..i0];
      i, written := i0, written0;
      var sh := 0;
      while sh < w
        invariant 0 <= sh <= w
        invariant addr == AddressAt(base, sh)
        invariant BlocksLength(w, sh) <= 64
        invariant i == i0 + BlocksLength(w, sh) <= buffer.Length
        invariant written == Add32(written0, BlocksLength(w, sh))
        invariant buffer[..i] == prefix + AddressTable(base, w, sh)
      {
        BlocksLengthMono(w, sh + 1, w);
        TableSize(w, w);
        i, written := PutWord(addr, w, i, written);
        AddressTableStep(prefix, base, w, sh);
        addr := Succ64(addr);
        sh := sh + 1;
      }
    }

    /** The padding piece of one pass: `remaining` filler bytes copied with
        `memcpy`, or `%<remaining>x` printed with `sprintf`, which consumes one
        argument and so advances `values_pop`. */
    method PutPadding(remaining: nat, i0: nat, valuesPop0: u32) returns (i: nat, valuesPop: u32)
      requires remaining < 256 && i0 + 7 < buffer.Length
      requires valuesPop0 + 1 < UINT32_RANGE
      modifies buffer
      ensures i <= i0 + 7
      ensures buffer[..i] == old(buffer[..i0]) + Padding(remaining)
      ensures valuesPop == PoppedByPadding(valuesPop0, remaining)
    {
      DecimalLength(remaining, 3);
      if remaining < 8 {
        Memcpy(i0, Ascii(FILLER[..remaining]));
        i, valuesPop := i0 + remaining, valuesPop0;
      } else {
        var n := Sprintf(i0, Ascii("%" + Decimal(remaining) + "x"));
        i := i0 + n;
        valuesPop := valuesPop0 + 1;
      }
    }

    /** The write directive of one pass: a plain `%n` when `values_pop`
        equals `idx_stack_g` (counting one more consumed argument),
        `%<idx>$n` otherwise; then `idx_stack_g` moves to the next slot. */
    method PutWrite(i0: nat, valuesPop0: u32) returns (i: nat, valuesPop: u32)
      requires i0 + 14 < buffer.Length && valuesPop0 + 1 < UINT32_RANGE
      modifies this`idxStack, buffer
      ensures i <= i0 + 14
      ensures buffer[..i] == old(buffer[..i0]) + WriteDirective(valuesPop0, old(idxStack))
      ensures valuesPop == if valuesPop0 == old(idxStack) then valuesPop0 + 1 else valuesPop0
      ensures idxStack == Add32(old(idxStack), 1)
    {
      if valuesPop0 == idxStack {
        var n := Sprintf(i0, Ascii("%n"));
        i := i0 + n;
        valuesPop := valuesPop0 + 1;
      } else {
        var n := Sprintf(i0, Ascii("%" + FormatInt32(idxStack) + "$n"));
        i := i0 + n;
        valuesPop := valuesPop0;
      }
      idxStack := Add32(idxStack, 1);
    }

    /** One pass of the loop of `main`: `calc_remaining` for byte `needed` of
        the value, the padding piece, then the write directive. */
    method EncodeByte(needed: byte, i0: nat, written0: u32, valuesPop0: u32)
      returns (i: nat, written: u32, valuesPop: u32)
      requires i0 + 21 < buffer.Length
      requires written0 + 255 < UINT32_RANGE && valuesPop0 + 2 < UINT32_RANGE
      modifies this`idxStack, buffer
      ensures i <= i0 + 21
      ensures buffer[..i] == old(buffer[..i0]) + Piece(Counters(written0, valuesPop0, old(idxStack)), needed)
      ensures Counters(written, valuesPop, idxStack) == Next(Counters(written0, valuesPop0, old(idxStack)), needed)
    {
      var remaining;
      remaining, written := CalcRemaining(needed, written0);
      i, valuesPop := PutPadding(remaining, i0, valuesPop0);
      ghost var padded := buffer[..i];
      i, valuesPop := PutWrite(i, valuesPop);
      assert buffer[..i] == padded + WriteDirective(PoppedByPadding(valuesPop0, remaining), old(idxStack));
    }

    /** Pass `shift` of the loop of `main`, from the counters and output
        `Payload` describes after `shift` passes to those after one more. */
    method EncodeStep(ghost c0: Counters, ghost prefix: seq<byte>, shift: nat, i0: nat, written0: u32, valuesPop0: u32)
      returns (i: nat, written: u32, valuesPop: u32)
      requires i0 + 21 < buffer.Length
      requires Counters(written0, valuesPop0, idxStack) == After(jmpAddr, c0, shift)
      requires buffer[..i0] == prefix + Emitted(jmpAddr, c0, shift)
      requires written0 + 255 < UINT32_RANGE && valuesPop0 + 2 < UINT32_RANGE
      modifies this`idxStack, buffer
      ensures i <= i0 + 21 && written <= written0 + 255 && valuesPop <= valuesPop0 + 2
      ensures Counters(written, valuesPop, idxStack) == After(jmpAddr, c0, shift + 1)
      ensures buffer[..i] == prefix + Emitted(jmpAddr, c0, shift + 1)
    {
      i, written, valuesPop := EncodeByte(ByteOf(jmpAddr, shift), i0, written0, valuesPop0);
      RunStep(jmpAddr, c0, shift);
    }

    /** The loop of `main` over the bytes of `jmp_addr_g`, low byte first: a
        padding piece and a write directive per byte, advancing `written`,
        `values_pop` and `idx_stack_g` as it goes. */
    method EncodeValue(i0: nat, written0: u32, valuesPop0: u32) returns (i: nat)
      requires 1 <= addressSize <= 8
      requires i0 + 21 * addressSize < buffer.Length
      requires written0 + 255 * addressSize < UINT32_RANGE
      requires valuesPop0 + 2 * addressSize < UINT32_RANGE
      modifies this`idxStack, buffer
      ensures i <= i0 + 21 * addressSize
      ensures buffer[..i] == old(buffer[..i0])
                + Emitted(jmpAddr, Counters(written0, valuesPop0, old(idxStack)), addressSize)
      ensures idxStack == Add32(old(idxStack), addressSize)
    {
      var w: nat := addressSize;
      var written: u32, valuesPop: u32 := written0, valuesPop0;
      ghost var c0 := Counters(written0, valuesPop0, idxStack);
      ghost var prefix := buffer[..i0];
      i := i0;
      var shift := 0;
      while shift < w
        invariant 0 <= shift <= w
        invariant Counters(written, valuesPop, idxStack) == After(jmpAddr, c0, shift)
        invariant written <= written0 + 255 * shift
        invariant valuesPop <= valuesPop0 + 2 * shift
        invariant i <= i0 + 21 * shift
        invariant buffer[..i] == prefix + Emitted(jmpAddr, c0, shift)
      {
        i, written, valuesPop := EncodeStep(c0, prefix, shift, i, written, valuesPop);
        shift := shift + 1;
      }
      IndexAfter(jmpAddr, c0, w);
    }

    /** The body of `main` after option parsing: `PUT_ADDR(0)` from a fresh
        cursor and count, then the encoding loop; the bytes before the cursor
        are the payload of the current globals. */
    method Build() returns (i: nat)
      requires 1 <= addressSize <= 8 && buffer.Length == BUFFER_SIZE
      modifies this`idxStack, buffer
      ensures i <= buffer.Length
      ensures buffer[..i] == Payload(overrideAddr, jmpAddr, old(idxStack), addressSize)
      ensures idxStack == Add32(old(idxStack), addressSize)
    {
      var w: nat := addressSize;
      var written: u32 := 0;
      var valuesPop: u32 := 0;
      i := 0;
      TableSize(w, w);
      BlocksLengthIsProduct(w, w);
      i, written := PutAddr(i, written);
      assert Counters(written, valuesPop, old(idxStack)) == Initial(w, old(idxStack));
      ghost var table := buffer[..i];
      assert table == AddressTable(overrideAddr, w, w);
      i := EncodeValue(i, written, valuesPop);
    }
  }

  /** `main`: parse the options into fresh globals; on failure exit with
      `EX_USAGE` and no output, otherwise build the payload in the buffer
      and write `buffer[..i]` to standard output. */
  method Execute(opts: seq<CliOption>, operandsLeft: nat) returns (status: int, output: seq<byte>)
    ensures match Parse(DEFAULT_GLOBALS, opts, operandsLeft)
            case None => status == EX_USAGE && output == []
            case Some(g) =>
              && status == 0 && 1 <= g.addressSize <= 8
              && output == Payload(g.overrideAddr, g.jmpAddr, g.idxStack, g.addressSize)
  {
    var p := new Process();
    var parsed := p.ParseArguments(opts, operandsLeft);
    if parsed < 0 {
      return EX_USAGE, [];
    }
    ParsedAddressSize(DEFAULT_GLOBALS, opts, operandsLeft);
    var i := p.Build();
    output := p.buffer[..i];
    status := 0;
  }
}
