# ufs_gen: a verified model of the format-string payload generator

`ufs_gen` builds a format-string exploit payload. It takes:

- a target address (`--override`),
- the value to write there (`--with`),
- the stack slot at which the payload itself is seen by the victim's `printf` (`--stackidx`),
- an address width (`--addrsize`, 1 to 8, default 4).

It fills a 4096-byte buffer and writes it to standard output. The buffer holds two parts:

- **The address table.** It is written by the `PUT_ADDR` macro. It holds `addrsize` addresses, each `addrsize` bytes wide and little-endian. The first is the target; each following one is one more than the previous.
- **One pass per byte of the value, low byte first.** Each pass has two pieces:
  - A padding piece. It is literal `f` filler for fewer than 8 characters, and a `%<r>x` conversion otherwise. It brings the low byte of the running count of printed characters to the byte wanted; `calc_remaining` computes that count.
  - A write directive. It is `%<idx>$n`, or a plain `%n` when `values_pop`, the number of arguments the passes so far have consumed, equals `idx`. The source gives no reason for that branch beyond calling it unlikely.

The project has five modules:

- `Bytes` covers machine integers (`unsigned int` and `unsigned long` wrap-around) and little-endian encoding.
- `DecimalText` covers what `%d` prints.
- `Options` covers the accept/reject logic of `parse_arguments`, over options that have already been decoded.
- `FormatString` is the payload as a pure function (`Payload`) plus what its bytes mean:
  - where each table block points,
  - which byte each pass stores,
  - which stack slot each write uses,
  - how many characters each padding piece makes `printf` emit,
  - that the payload always fits the buffer.
- `Generator` is the program itself: a `Process` class holding the globals and the `buffer` array, with:
  - `calc_remaining`,
  - the two nested loops of `PUT_ADDR`,
  - the encoding loop,
  - `main`.

  Each method is proved to leave in the buffer exactly the bytes `Payload` describes.

`Generator.Execute` is the end-to-end statement:

- When the options are rejected, the exit status is `EX_USAGE` (64) and there is no output.
- Otherwise the status is 0 and the output is `Payload` of the parsed globals.

The address table follows the code. The k-th address is `override + k` (modulo 2^64): `++override_addr` advances by one. The `_offset * 0x10` at main.c:152 might suggest addresses 16 bytes apart, but it only scales the macro's offset argument, and `main` always passes 0.

## Model

| member | source | states |
|---|---|---|
| `Bytes.Add32` | main.c:143 | definition: `+=` on an `unsigned int` (also `++idx_stack_g`, main.c:194), the sum less 2^32 when it overflows; `Add32IsMod` states its meaning |
| `Bytes.Succ64` | main.c:159 | definition: `++` on an `unsigned long`, wrapping from 2^64 - 1 to 0; `Succ64IsMod` states its meaning |
| `Bytes.ByteOf` | main.c:156 | definition: byte k of a value, from the low end (also the `needed` of main.c:177); `ByteOfIsShiftAndMask` states its meaning |
| `Bytes.Add32IsMod` | main.c:143 | the `unsigned int` addition used for the counters is addition modulo 2^32 |
| `Bytes.Succ64IsMod` | main.c:159 | `++override_addr` on an `unsigned long` is addition of one modulo 2^64 |
| `Bytes.Add32LowByte` | main.c:143 | wrapping the count at 2^32 leaves its low byte unchanged, so the byte a `%n` stores is still right |
| `Bytes.ByteOfIsShiftAndMask` | main.c:156 | byte k of a value is `v / 256^k % 256`, i.e. `(v >> (k*8)) & 0xff` |
| `Bytes.LittleEndian` | main.c:155-158 | the inner loop's bytes for an address: exactly `width` of them |
| `Bytes.LittleEndianAt` | main.c:155-158 | byte j of the little-endian encoding is byte j of the value, as the inner loop stores it |
| `Bytes.LittleEndianRoundTrip` | main.c:154-160 | decoding the `width` bytes gives back the value truncated to `width` bytes |
| `Bytes.LittleEndianInjective` | main.c:154-160 | two values below 256^width have the same encoding exactly when they are equal |
| `DecimalText.Decimal` | main.c:181 | `%d` of a non-negative count is a non-empty string of decimal digits |
| `DecimalText.DecimalRoundTrip` | main.c:181 | the digits `%d` prints for the padding count read back as that count |
| `DecimalText.DecimalCanonical` | main.c:181 | the rendering begins with `0` only for zero (no leading zeros) |
| `DecimalText.DecimalLength` | main.c:181 | a number below 10^k takes at most k digits |
| `DecimalText.FormatInt32` | main.c:191 | `%d` of the 32-bit `idx_stack_g` is 1 to 11 characters, each a digit or `-` |
| `DecimalText.Signed32` | main.c:191 | definition: the `int` that `%d` reads from the `unsigned int` `idx_stack_g`, the pattern less 2^32 from 2^31 up |
| `DecimalText.FormatInt32RoundTrip` | main.c:191 | the text `%d` prints for `idx_stack_g` denotes its value read as a signed `int` |
| `Options.ToUnsigned32` | main.c:93 | definition: `atoi`'s `int` stored into the `unsigned int` `idx_stack_g`, i.e. taken modulo 2^32 |
| `Options.ApplyOption` | main.c:83-113 | definition: one pass of the switch, setting a global and its flag, or the early rejection of an `--addrsize` outside [1, 8] |
| `Options.ScanOptions` | main.c:60-114 | definition: the option loop, one `ApplyOption` per option in order, stopping at the first rejection; `ScanOptionsSpec` and `ScanOptionsLastOf` state its meaning |
| `Options.Parse` | main.c:54-125 | definition: the loop, then the operand check and the check that the three required options were set; `ParseAccepts` states its meaning |
| `Options.ScanOptionsSpec` | main.c:60-114 | the option loop finishes exactly when every `--addrsize` is in [1, 8]; each `*_set` flag then ends up true exactly when its option occurred |
| `Options.ParseAccepts` | main.c:54-125 | `parse_arguments` returns 0 exactly when every address size is in range, no operand follows the options, and `--override`, `--with` and `--stackidx` all occurred |
| `Options.OverrideLastWins` | main.c:84-87 | after the loop `override_addr_g` is the argument of the last `--override`, or its old value when there is none |
| `Options.AddrSizeLastWins` | main.c:96-103 | after the loop `address_size_g` is the argument of the last `--addrsize`, or its old value when there is none |
| `Options.WithLastWins` | main.c:88-91 | after the loop `jmp_addr_g` is the argument of the last `--with`, or its old value when there is none |
| `Options.StackIdxLastWins` | main.c:92-95 | after the loop `idx_stack_g` is the argument of the last `--stackidx`, stored modulo 2^32, or its old value when there is none |
| `Options.LastOf` | main.c:83-103 | the last option of a kind, when there is one, is of that kind |
| `Options.LastOfSpec` | main.c:83-103 | `LastOf` finds an option exactly when one of that kind occurs, and no option of that kind comes after the one it finds |
| `Options.ScanOptionsLastOf` | main.c:60-114 | after the loop each of the four globals holds the argument of the last option that sets it, or its old value when there is none |
| `Options.ParsedAddressSize` | main.c:96-101 | a successful parse leaves an address size in [1, 8] |
| `Options.ScanOptionsRejectStays` | main.c:99-101 | after the early `return -1`, later options change nothing: the parse stays rejected |
| `Options.UsageErrors` | main.c:96-124 | a missing `--with`, `--addrsize 9` and a stray operand are each rejected; a complete option list is accepted with address size 4 |
| `FormatString.AddressAt` | main.c:152-159 | definition: `override_addr_g` after k executions of `++override_addr`; `AddressAtIsSum` states its meaning |
| `FormatString.AddressTable` | main.c:150-161 | definition: the little-endian encodings of addresses 0 to count - 1, in order; `AddressTableBlock` and `AddressTableLength` state its meaning |
| `FormatString.Initial` | main.c:163-171 | definition: the counters when the encoding loop starts. `written` has counted the w² table bytes, `values_pop` is 0, and the index is the one `--stackidx` set |
| `FormatString.PoppedByPadding` | main.c:177-183 | definition: `values_pop` after the padding piece, one more exactly when `%<r>x` is used (r at least 8) |
| `FormatString.Piece` | main.c:174-195 | definition: the bytes one pass appends, its padding piece followed by its write directive; `PieceExample` and `CollisionExample` work two passes out |
| `FormatString.Next` | main.c:174-195 | definition: the counters after one pass. `written` grows by the remaining count, `values_pop` by the padding and by the `%n` branch, and the index by one with 32-bit wrap |
| `FormatString.Run` | main.c:174-195 | definition: counters and output after the first s passes over the bytes of `jmp_addr_g`; `RunStep` states one step of it |
| `FormatString.Pass` | main.c:174-195 | definition: pass k takes byte k of `jmp_addr_g`, through `Advance` |
| `FormatString.Advance` | main.c:174-195 | definition: the progress after k passes, advanced by `Next` and extended by `Piece` for one byte |
| `FormatString.After` | main.c:174-195 | definition: the counters after the first s passes |
| `FormatString.Emitted` | main.c:174-195 | definition: the bytes the first s passes append |
| `FormatString.Payload` | main.c:150-198 | definition: what `main` writes, the address table for `override_addr_g` and then the `addrsize` passes for `jmp_addr_g` from `Initial`. `PayloadLayout`, `PayloadAddress`, `WrittenAfter`, `IndexAfter` and `Generator.Execute` state its meaning |
| `FormatString.Remaining` | main.c:137-141 | the count `calc_remaining` computes is below 256 |
| `FormatString.Padding` | main.c:177-183 | the padding piece takes at most 7 bytes: up to 7 filler bytes, or `%` with up to 3 digits and `x` |
| `FormatString.WriteDirective` | main.c:185-192 | the write directive takes 2 to 14 bytes |
| `FormatString.RemainingLands` | main.c:137-143 | adding the count `calc_remaining` returns brings the low byte of `written` to `needed` |
| `FormatString.RemainingIsLeast` | main.c:131-146 | among counts in [0, 256), the returned one is the only one that lands on `needed`, hence the least |
| `FormatString.AddressAtIsSum` | main.c:152-159 | the k-th address of `PUT_ADDR` is `override_addr_g + k` modulo 2^64 |
| `FormatString.AddressTableLength` | main.c:154-160 | the table is `width` bytes per address |
| `FormatString.TableSize` | main.c:154-155 | at most 8 addresses of at most 8 bytes take at most 64 bytes |
| `FormatString.AddressTableBlock` | main.c:154-160 | block k of the table, bytes `[k*width, (k+1)*width)`, is the little-endian encoding of address k |
| `FormatString.RunStep` | main.c:174-195 | pass k appends the padding piece and write directive for byte k of `jmp_addr_g` and advances the counters by one pass |
| `FormatString.WrittenAfter` | main.c:177-192 | after pass s the low byte of `written` is byte s of `jmp_addr_g`: the value the pass's `%n` stores |
| `FormatString.IndexAfter` | main.c:191-194 | after s passes `idx_stack_g` is its starting value plus s modulo 2^32, so the write directive of pass s names slot `stackidx + s` unless it takes the `%n` branch |
| `FormatString.AfterBound` | main.c:143-189 | each pass adds at most 255 to `written` and at most 2 to `values_pop`, so neither gets near 2^32 |
| `FormatString.EmittedLength` | main.c:174-195 | each pass appends at most 21 bytes |
| `FormatString.PayloadLayout` | main.c:27-198 | the payload starts with the table and is between w² and w² + 21·w ≤ 232 bytes long, well inside the 4096-byte buffer |
| `FormatString.PayloadAddress` | main.c:150-171 | block k of the payload decodes, little-endian, to `override_addr_g + k` truncated to the address width |
| `FormatString.PaddingPrintsRemaining` | main.c:177-183 | for any `unsigned int` argument (1 to 8 hex digits), the padding piece for r makes `printf` emit exactly r characters, whichever form is used |
| `FormatString.WriteDirectiveTarget` | main.c:185-192 | when `values_pop == idx_stack_g` the write directive is a plain `%n`, which names no slot; otherwise it names slot `idx_stack_g` as `%d` prints it |
| `FormatString.PieceExample` | main.c:174-195 | with count 1, byte 0x41 and slot 6, one pass emits `%64x%6$n` and leaves the counters at 65, 1, 7 |
| `FormatString.CollisionExample` | main.c:185-189 | with count 1, byte 0x41 and `idx_stack_g` 1, the pass emits `%64x%n` and counts two consumed arguments |
| `Generator.CalcRemaining` | main.c:131-146 | the result is in [0, 255]; adding it makes the low byte of the count `needed`; no smaller count does; the counter is advanced by it with 32-bit wrap |
| `Generator.Process.constructor` | main.c:27-39 | a zeroed 4096-byte buffer and the static globals: zero addresses and index, address size 4 |
| `Generator.Process.Memcpy` | main.c:178 | the bytes are stored at the cursor and nothing before it changes |
| `Generator.Process.Sprintf` | main.c:181-191 | the text and a NUL are stored at the cursor, and the text's length is returned |
| `Generator.Process.ParseArguments` | main.c:54-125 | returns 0 or -1; 0 exactly when `Options.Parse` accepts, and then the globals are the parsed ones |
| `Generator.Process.PutWord` | main.c:155-158 | the inner loop stores the little-endian encoding of the address and counts each byte |
| `Generator.Process.PutAddr` | main.c:150-161 | `PUT_ADDR(0)` appends the address table and counts its w² bytes |
| `Generator.Process.PutPadding` | main.c:177-183 | appends the padding piece for the count and advances `values_pop` when `%<r>x` is used |
| `Generator.Process.PutWrite` | main.c:185-194 | appends the write directive, advances `values_pop` in the `%n` case, and increments `idx_stack_g` with wrap |
| `Generator.Process.EncodeByte` | main.c:175-194 | one pass appends the piece of the pass and moves the counters as one pass does |
| `Generator.Process.EncodeStep` | main.c:174-195 | pass `shift` takes the buffer and counters from those of `shift` passes to those of `shift + 1` |
| `Generator.Process.EncodeValue` | main.c:174-195 | the whole loop appends one piece per byte of `jmp_addr_g` and advances `idx_stack_g` by the address size |
| `Generator.Process.Build` | main.c:163-195 | from a fresh cursor and count, the bytes before the cursor are exactly `Payload` of the globals |
| `Generator.Execute` | main.c:148-201 | rejected options exit with `EX_USAGE` and no output; accepted ones exit 0 with `Payload` of the parsed globals as the output |

## Left out

- Decoding of the argument text is not modelled: `getopt_long`, `strtoul(_, 16)` and `atoi`. The model starts from the recognised options with their decoded values (`Options.CliOption`). `strtoul`'s saturation on overflow and `atoi`'s undefined overflow behaviour are therefore not represented. The `atoi` result is stored into the `unsigned int` modulo 2^32.
- The `default:` branch of the option switch (`assert(false)` on an option `getopt_long` does not recognise) is not modelled, since only recognised options are modelled.
- The usage text on standard error and the `fwrite` to standard output are I/O. `Execute` returns the exit status and the written bytes as values.
- `calc_remaining`'s `assert(needed <= 0xff)` becomes a precondition. Its only caller passes a masked byte.
- `PUT_ADDR`'s `_offset` argument (scaled by 0x10) is fixed at 0, the only value `main` passes.
- FormatString.Next counts `written` and `values_pop` without 32-bit wrap-around. `FormatString.AfterBound` shows each pass adds at most 255 and 2, so with at most 8 passes after a 64-byte table they stay below 2,200. The imperative code keeps them as `unsigned int` and requires this headroom. `idx_stack_g`, which the user sets, does wrap.
- The cursor `i` is a natural number, not an `unsigned int`. It never exceeds 232 (`FormatString.PayloadLayout`).
- The collision branch (main.c:185-189) is modelled by its literal condition `values_pop == idx_stack_g`. What it achieves is not established. After `values_pop` arguments have been consumed in sequence, a plain `%n` takes argument `values_pop + 1`, which is not slot `idx_stack_g`. The model does not claim which table entry that `%n` stores through.
- The victim's side is not modelled beyond two lemmas, `PaddingPrintsRemaining` and `WriteDirectiveTarget`. These say how many characters a padding piece prints and which argument a write directive uses. `printf` itself, its mix of positional and sequential arguments, and the memory it overwrites are not modelled.
