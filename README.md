# LZO1X-1 codec, modelled and proved in Dafny

This project models the `LZO` class of `src/index.ts`, a TypeScript port of
the LZO1X-1 compressor (minilzo). It covers two halves:

- The **decoder**. `decompressBuffer` and its helpers `match`, `matchNext`,
  `matchDone`, `copyMatch`, `copyFromBuffer` and `extendBuffer` are methods of
  a Dafny class with the source's fields: `out`, `cbl`, `t`, `inputPointer`,
  `outputPointer`, `matchPosition`, `minNewSize`, `blockSize` and
  `skipToFirstLiteralFunc`. Each method is proved to compute what a
  functional decoder computes (`Decoding.Decode`, `Decoding.DecodeLoop`,
  `Decoding.DecodeMatch`, `Decoding.AfterMatch`), branch for branch.
- The **encoder**. `compressBuffer` and `compressCore` are methods over the
  same class, including the 16384-slot `dictionary`. While they write `out`,
  they keep a ghost list of *pieces*: literal run, match length, match
  distance. The proofs show that:
  - the pieces rebuild the input;
  - the bytes written are the serialization of those pieces;
  - every write stays inside the `maxSize` bytes reserved at line 414.

The two halves meet in `Stream.DecodeSerialize`: decoding the serialization
of any well-formed piece list gives back what the pieces expand to. So
`Codec.Compress` is proved to produce a stream that `Decoding.Decode`, and so
`Codec.Decompress`, turns back into the input.

Modules:

- `Format` (format.dfy): the instruction encodings, in the order the format
  defines them:
  - the literal-length instruction (control byte below 16, continued by zero
    bytes);
  - M2 (control byte of 64 or more);
  - M3 (32 to 63, length base 31, two offset bytes);
  - M4 (16 to 31, offset bit 14 in bit 3, length base 7, distance less
    0x4000);
  - the end marker `17 0 0`;
  - the two-bit literal count carried in the low bits of the byte two before
    a match instruction's end;
  - the overlapping forward copy;
  - the piece list and its serialization.
- `Decoding` (decoding.dfy): the functional decoder.
- `DecoderSteps` (steps.dfy): one lemma per branch of the decoder, in the
  order the source's statements take them.
- `RoundTrip` (roundtrip.dfy): each instruction the encoder writes decodes to
  what it encodes.
- `Stream` (stream.dfy): the whole stream round trip.
- `Encoding` (encoding.dfy): the encoder's invariants and size bounds.
- `Codec` (lzo.dfy): the `LZO` class, and the static `compress` and
  `decompress`.

Byte arrays are `seq<byte>`, with `byte = x: int | 0 <= x < 256`. The
`Uint8Array` stores `off << 2` and `off >> 6` truncate to 8 bits; the model
writes out that truncation. The dictionary's hash keeps every intermediate
value below 2^31, so its `>>>` and `&` are division and remainder. The
4-byte comparison at lines 295-301 mixes signed 32-bit shifts with an
addition. `Encoding.SameWord` proves that comparison holds exactly when the
four bytes are equal.

## Model

| member | source | states |
|---|---|---|
| Codec.GrownSize | src/index.ts:61-63 | the new array length is more than minNewSize and at most one block more |
| Codec.GrownSizeMultiple | src/index.ts:60-69 | the new array length extendBuffer allocates is a whole number of blocks |
| Codec.LZO.constructor | src/index.ts:10-58 | the initial state: 128 KiB block size, a 256 KiB `out`, a 16384-slot dictionary, inputPointer, outputPointer and matchPosition 0, `skipToFirstLiteralFunc` false |
| Codec.LZO.SetBlockSize | src/index.ts:16-20 | a value of 0 or less is refused with an error and leaves blockSize unchanged; a positive value is stored |
| Codec.LZO.ExtendBuffer | src/index.ts:60-69 | `out` becomes a fresh array of GrownSize bytes that starts with the old contents and is zero after them; `cbl` is its length |
| Codec.LZO.Reserve | src/index.ts:72-74 | after the capacity check, `out` has room for n more bytes and the bytes decoded so far are unchanged (the same check appears at lines 96-99, 107-110, 174-178 and 251-255) |
| Codec.LZO.MatchNext | src/index.ts:71-86 | succeeds exactly when the t literals and the next control byte are in the input; it appends those t input bytes to the output, reads the next control byte into t, and advances the input by t + 1 |
| Codec.LZO.MatchDone | src/index.ts:88-92 | the result and t are the low two bits of the input byte two before inputPointer |
| Codec.LZO.CopyMatch | src/index.ts:94-104 | the output grows by t + 2 bytes copied forward from matchPosition (overlap allowed: CopyForward); both pointers advance by t + 2 and t ends at 0 |
| Codec.LZO.CopyByte | src/index.ts:102 | one turn of copyMatch's copy loop: the output after k + 1 bytes copied is CopyForward of the output before the copy, so each byte repeats the one `distance` back |
| Codec.LZO.CopyFromBuffer | src/index.ts:106-115 | succeeds exactly when t bytes are left in the input; it appends exactly those t input bytes to the output |
| Codec.LZO.CopyLiteralByte | src/index.ts:113 | one turn of copyFromBuffer's copy loop (also line 76 of matchNext): the output is the output before the copy followed by the input bytes read so far; both pointers advance by one |
| Codec.LZO.CopyShort | src/index.ts:180-181 | a 2- or 3-byte forward copy from matchPosition; the 3-byte form is at lines 257-259 |
| Codec.LZO.ReadM2 | src/index.ts:119-124 | reading an M2 instruction leaves the rest of the decode as DecodeMatch says: fail on a truncated input, otherwise copy t/32 + 1 bytes from the decoded position |
| Codec.LZO.ReadM3 | src/index.ts:125-144 | the same for an M3 instruction, including its continued length field |
| Codec.LZO.ReadM3Offset | src/index.ts:137-142 | the two offset bytes of an M3 instruction give the match position that DecodeMatch uses |
| Codec.LZO.ReadM4 | src/index.ts:145-169 | the same for an M4 instruction or the end marker |
| Codec.LZO.ReadM4Offset | src/index.ts:159-169 | the M4 offset bytes: a distance of 0 ends the decode with the output so far, otherwise the match starts 0x4000 further back |
| Codec.LZO.ReadM1 | src/index.ts:170-172 | reading an M1 instruction: a two-byte match from at most 1024 bytes back |
| Codec.LZO.ReadInstruction | src/index.ts:118-172 | dispatch on t: M2, M3, M4 or M1, each leaving the decode as DecodeMatch says |
| Codec.LZO.Instruction | src/index.ts:119-182 | one instruction read and copied: the rest of the decode equals AfterMatch at the new position, or the decode has ended or failed as DecodeMatch says |
| Codec.LZO.EndTurn | src/index.ts:184-188 | a zero literal count returns to the main loop; otherwise matchNext copies the 1 to 3 literals and the loop goes on, as AfterMatch says |
| Codec.LZO.Match | src/index.ts:117-190 | the whole of match(): it returns the output, returns to the main loop, or fails, exactly as DecodeMatch does on the same input and output |
| Codec.LZO.TopOfLoop | src/index.ts:222-243 | the top of the main loop: a control byte of 16 or more goes to match(); anything less is a literal run copied as DecodeLoop says |
| Codec.LZO.LiteralRun | src/index.ts:231-241 | a literal run of length field + 3 bytes is copied, or the decode fails with TruncatedInput when DecodeLoop fails |
| Codec.LZO.FarCopy | src/index.ts:246-259 | after a literal run, a byte below 16 is a 3-byte match from 2049 or more bytes back, as DecodeLoop says |
| Codec.LZO.AfterLiteralRun | src/index.ts:244-267 | the rest of a main-loop turn after a literal run ends as DecodeLoop says |
| Codec.LZO.Start | src/index.ts:206-219 | a first byte above 17 starts with a literal run of that byte less 17; otherwise the main loop starts; the decode then goes on as Decode says |
| Codec.LZO.StartShort | src/index.ts:209-214 | a first run of 1 to 3 literals is copied by matchNext, then match() runs |
| Codec.LZO.StartLong | src/index.ts:215-218 | a first run of 4 or more literals is copied, then the loop skips to after its literal copy |
| Codec.LZO.DecompressBuffer | src/index.ts:192-269 | the result is exactly Decode(input): the decoded bytes, or the reason a malformed input fails |
| Codec.LZO.LengthField | src/index.ts:128-135 | a zero t is extended by 255 per zero byte, then base plus the ending byte, as ExtendedLength says; it fails when the input ends inside the run (also lines 150-157 and 231-237) |
| Codec.LZO.EmitZeroRun | src/index.ts:321-326 | appends exactly ZeroRun(m): a zero byte per 255, then the non-zero remainder |
| Codec.LZO.Put | src/index.ts:315 | a store `out[outputPointer++] = b`, as every byte the encoder writes is stored: the output gains exactly b at its end |
| Codec.LZO.EmitLongField | src/index.ts:365-374 | a length that does not fit its control byte: the bare control byte, then the continuation bytes of the rest (the same at lines 320-326, 386-394 and 447-455) |
| Codec.LZO.EmitLengthField | src/index.ts:318-327 | appends exactly Format.LengthField: n inline when it fits the control byte, otherwise the control byte and the continuation of n - base (the same code is at lines 364-375, 382-395 and 445-456) |
| Codec.LZO.CopyRun | src/index.ts:314-316 | appends exactly the input bytes from `from` up to `to` (the same loop is at lines 329-331 and 458-460) |
| Codec.LZO.ClearDictionary | src/index.ts:427 | every dictionary slot is 0 |
| Codec.LZO.Probe | src/index.ts:284-304 | the slot Hash picks for the four bytes at inputPointer gives the candidate matchPosition and is set to inputPointer - ipStart; a match is reported exactly when the four bytes at the candidate equal those at inputPointer |
| Codec.LZO.MatchLength | src/index.ts:335-349 | the match length is at least 4; the input repeats for that many bytes; the match ends on the first differing byte or once it reaches ipEnd |
| Codec.LZO.EmitOffset | src/index.ts:377-378 | appends the two offset bytes `off << 2` and `off >> 6` as a byte array stores them |
| Codec.LZO.EmitM2 | src/index.ts:355-360 | appends exactly the M2 encoding of (length, distance) |
| Codec.LZO.EmitM3 | src/index.ts:361-378 | appends exactly the M3 encoding of (length, distance) |
| Codec.LZO.EmitM4 | src/index.ts:379-399 | appends exactly the M4 encoding of (length, distance) |
| Codec.LZO.EmitMatch | src/index.ts:355-399 | appends exactly MatchBytes(length, distance, 0): M2 when length <= 8 and distance <= 0x800, M3 when distance <= 0x4000, M4 beyond |
| Codec.LZO.OrIntoLastMatch | src/index.ts:312 | OR-ing v (1 to 3) into the byte two before the end turns the bytes of the pieces into their form with v literals announced (the same at line 444) |
| Codec.LZO.EmitLiteralHeader | src/index.ts:310-327 | what precedes v literals: the count OR-ed into the last match for 1 to 3, otherwise a literal-length instruction |
| Codec.LZO.EmitPending | src/index.ts:306-333 | the literals since the last match are appended after their header; the output is the serialization so far |
| Codec.LZO.EmitRun | src/index.ts:317-332 | a run of at least one literal after its header |
| Codec.LZO.EncodeMatch | src/index.ts:306-399 | a match found: the pieces grow by one and still rebuild the input up to the new inputPointer; the output is their serialization; inputPointer advances by at least 4 |
| Codec.LZO.EmitMatchStep | src/index.ts:306-399 | the pending literals, then the match found at p: both written and added to the pieces, which now rebuild the input up to p + length; encoding resumes there with nothing pending |
| Codec.LZO.RecordMatch | src/index.ts:351-353 | the piece (literals, length, distance) is added to the pieces, which rebuild the input up to p + length, and encoding resumes there |
| Codec.LZO.EmitMatchAfter | src/index.ts:355-399 | the match bytes follow the literals; the output is the serialization of the extended pieces |
| Codec.LZO.CompressCore | src/index.ts:271-403 | one block: the encoder invariant (pieces rebuild the input, output is their serialization, within maxSize) is kept; t is the number of input bytes the pieces leave unwritten |
| Codec.LZO.BeginBlock | src/index.ts:272-279 | the block set-up establishes the scan invariant: the search starts at least 4 bytes into the literals and one byte further |
| Codec.LZO.ScanBlock | src/index.ts:281-400 | the loop of compressCore keeps the scan invariant |
| Codec.LZO.ScanStep | src/index.ts:282-399 | one probe keeps the scan invariant and strictly advances inputPointer, whether it misses or matches |
| Codec.LZO.CompressBuffer | src/index.ts:405-468 | the pieces are well formed and, with the unwritten tail, rebuild the input; the result is their serialization; it is at most (17n + 68)/16 bytes; an input under 32 bytes yields no match |
| Codec.LZO.CompressBlocks | src/index.ts:420-438 | the block loop keeps the encoder invariant; afterwards t counts every input byte the pieces do not cover |
| Codec.LZO.BeginCompress | src/index.ts:406-418 | the set-up: nothing read, written or pending; `out` is replaced by a fresh array of maxSize bytes exactly when it is shorter |
| Codec.LZO.CompressBlock | src/index.ts:421-435 | one block after a cleared dictionary: inputPointer advances by ll and the invariant holds |
| Codec.LZO.FinishStream | src/index.ts:438-467 | the result is the pieces' bytes, the final run and the end marker |
| Codec.LZO.EmitFinalRun | src/index.ts:440-461 | the final literal run after its count |
| Codec.LZO.EmitRunCount | src/index.ts:441-456 | the count of the final run: 17 + v as the first byte when nothing was written and v <= 238, otherwise as before any literal run |
| Codec.LZO.EmitEndMarker | src/index.ts:463-465 | appends the end marker 17 0 0 |
| Codec.Compress | src/index.ts:475-478 | the stream decodes back to the input; it is at most (17n + 68)/16 bytes; empty input gives `17 0 0`; an input of 1 to 31 bytes gives 17 + n, the bytes, `17 0 0` |
| Codec.Decompress | src/index.ts:485-488 | the result is Decode(input) |
| Format.Hash | src/index.ts:287-289 | the dictionary index of four bytes lies in [0, 16384) |
| Format.ZeroRun | src/index.ts:320-326 | the continuation of m is zeros followed by one non-zero byte, and 255 times the zeros plus that byte is m |
| Format.LengthField | src/index.ts:364-375 | the first byte lies in [high, high + base]; the field is one byte when n fits |
| Format.LiteralLength | src/index.ts:317-327 | a literal-length instruction starts with a byte below 16, so it is read as a literal run |
| Format.OrLow | src/index.ts:312 | OR-ing a two-bit v keeps the upper six bits and adds v when the low bits are clear |
| Format.MatchBytes | src/index.ts:355-399 | a match instruction has at least 2 bytes and fewer than its length, starts with a byte of 16 or more, and carries the literal count in the low bits of the byte two before its end |
| Format.OffsetBytes | src/index.ts:377-378 | the two offset bytes carry the literal count in the low bits of the first |
| Format.M3Header | src/index.ts:364-375 | an M3 control byte lies in [32, 64) |
| Format.M4Header | src/index.ts:382-395 | an M4 control byte lies in [16, 32) |
| Format.CopyForward | src/index.ts:101-103 | the forward copy extends the output by n bytes and keeps what was there |
| Format.CopyForwardPeriodic | src/index.ts:101-103 | every copied byte equals the one `distance` before it, also when the copy overlaps itself |
| Decoding.CountZeros | src/index.ts:129-132 | the bytes counted are all zero, and the next one (if any) is not |
| Decoding.ExtendedLength | src/index.ts:128-135 | a length field read ends within the input, and strictly after its start when continued |
| Decoding.CopyLiteral | src/index.ts:106-115 | a successful literal copy appends exactly the next n input bytes and moves past them |
| Decoding.MatchNext | src/index.ts:71-86 | a successful matchNext advances the input by t + 1 |
| Decoding.LiteralRun | src/index.ts:231-241 | a successful literal run advances strictly within the input |
| DecoderSteps.DecodeStart | src/index.ts:206 | unfolding lemma of the decoder functions, a proof step for the class methods and not a separate property: a first byte of 17 or less, or none, goes straight to the main loop |
| DecoderSteps.DecodeStartShort | src/index.ts:209-214 | unfolding lemma of the decoder functions, a proof step for the class methods and not a separate property: a first byte of 18 to 20 copies 1 to 3 literals, then match(); it fails when they are missing |
| DecoderSteps.DecodeStartLong | src/index.ts:215-218 | unfolding lemma of the decoder functions, a proof step for the class methods and not a separate property: a first byte of 21 or more copies that many less 17 literals, then skips to after the literal copy; it fails when they are missing |
| DecoderSteps.LoopLiteral | src/index.ts:231-241 | unfolding lemma of the decoder functions, a proof step for the class methods and not a separate property: a literal run at the top of the loop copies length + 3 bytes and goes on after the literal copy |
| DecoderSteps.LoopShortMatch | src/index.ts:246-259 | unfolding lemma of the decoder functions, a proof step for the class methods and not a separate property: after a literal run, a byte below 16 is a 3-byte copy from 2049 + t/4 + 4·next bytes back, or a failure before the output's start |
| DecoderSteps.MatchDoneStep | src/index.ts:184-188 | unfolding lemma of the decoder functions, a proof step for the class methods and not a separate property: a zero literal count goes back to the main loop; otherwise the 1 to 3 literals follow, then the next instruction |
| RoundTrip.ZeroRunDecodes | src/index.ts:129-134 | a zero run written by the encoder is read back as the count it encodes |
| RoundTrip.LengthFieldDecodes | src/index.ts:128-135 | a length field written by the encoder is read back as n |
| RoundTrip.M2Fields | src/index.ts:358-359 | the M2 control byte is 64 or more and gives back length - 1 and the low three offset bits |
| RoundTrip.M3Fields | src/index.ts:137-141 | an M3 instruction is read back as its length and distance |
| RoundTrip.M4Fields | src/index.ts:146-160 | an M4 instruction is read back as its length and a distance above 0x4000 |
| RoundTrip.TrailerFields | src/index.ts:89 | the byte two before a match instruction's end carries the literal count the decoder reads |
| RoundTrip.LiteralRunDecodes | src/index.ts:231-241 | a literal run of 4 or more bytes written by the encoder decodes to exactly those bytes |
| RoundTrip.M2Decodes | src/index.ts:119-124 | an M2 instruction written by the encoder decodes to the forward copy of (length, distance) |
| RoundTrip.M3Decodes | src/index.ts:125-144 | the same for M3 |
| RoundTrip.M4Decodes | src/index.ts:145-169 | the same for M4 |
| RoundTrip.EndMarkerDecodes | src/index.ts:163-165 | the end marker ends the decode with the output so far |
| RoundTrip.MatchDecodes | src/index.ts:117-182 | every match instruction the encoder chooses decodes to its forward copy, then the loop goes on after it |
| Stream.TailFirstDecodes | src/index.ts:206-219 | a stream holding only a first literal run (of any length) and the end marker decodes to that run |
| Stream.ResumeDecodes | src/index.ts:184-189 | the rest of a serialized stream after piece k decodes to the rest of the expansion |
| Stream.DecodeSerialize | src/index.ts:192-269 | decoding the serialization of any well-formed piece list and final run gives their expansion: the round trip |
| Encoding.AppendPiece | src/index.ts:351-353 | adding a piece keeps the list well formed; its expansion is the old one, the literals, and the forward copy |
| Encoding.EmittedAppend | src/index.ts:306-399 | the bytes of a longer piece list are the old ones, the literal header, the literals and the match bytes |
| Encoding.EmittedTrailer | src/index.ts:311-312 | OR-ing the count into the byte two before the end is exactly announcing 1 to 3 literals after the last match |
| Encoding.EmittedRest | src/index.ts:306-465 | the bytes written up to piece k followed by the rest of the stream are the whole serialization |
| Encoding.SerializeEmitted | src/index.ts:438-465 | the stream is the pieces' bytes followed by the final run and the end marker |
| Encoding.StartScan | src/index.ts:272-279 | the block set-up establishes the scan invariant |
| Encoding.SkipScan | src/index.ts:302-303 | a dictionary miss keeps the invariant and moves inputPointer on by 1 + (inputPointer - index2)/32 |
| Encoding.MatchScan | src/index.ts:351-353 | a match emitted keeps the invariant with nothing pending |
| Encoding.CopyMatchesInput | src/index.ts:337-349 | when the input repeats at distance d, the forward copy rebuilds the input |
| Encoding.EmittedSize | src/index.ts:414 | the bytes of the pieces are at most 17/16 of the input they cover |
| Encoding.TailSize | src/index.ts:414 | the final run and end marker are at most 17/16 of the run plus 68/16 bytes |
| Encoding.FinalRunRoom | src/index.ts:438-465 | the final run and end marker fit in `out` |
| Encoding.Finishing | src/index.ts:438 | after the block loop, the pieces and the unwritten tail rebuild the input |
| Encoding.StreamDone | src/index.ts:463-467 | the bytes written are the serialization, within the size bound |
| Encoding.MaxSize | src/index.ts:414 | maxSize is at least (17n + 68)/16 |
| Encoding.AppendMatch | src/index.ts:351-353 | a match found in the input extends the pieces so that they rebuild the input up to its end |
| Encoding.AppendMatchBytes | src/index.ts:355-399 | the bytes of the extended pieces are the old ones, the literals and the match |
| Encoding.Int32 | src/index.ts:296 | a value read as a signed 32-bit integer is the value itself or the value less 2^32 |
| Encoding.Word | src/index.ts:297-300 | four bytes read little-endian give a value in [0, 2^32) |
| Encoding.WordDigits | src/index.ts:297-300 | each of the four bytes is recovered from the word |
| Encoding.SameWord | src/index.ts:295-301 | the signed 32-bit comparison holds exactly when the four bytes are equal |

## Left out

- Codec.LZO.SetBlockSize: the block size is modelled as an integer. The
  source's setter takes any JavaScript number and refuses only `value <= 0`.
  So it also stores non-integer values such as 1.5, and `NaN`, despite its
  "positive integer" message. Those values, and what `%` in extendBuffer
  then makes of them, are not modelled.
- Malformed input to the decoder. The source reads past the end of its input
  or before the start of its output and gets `undefined`. JavaScript
  arithmetic turns that into `NaN` or 0, so the source may return garbage or
  keep looping. The model stops instead: `Fail(TruncatedInput)` for a read
  past the input, `Fail(DistanceBeforeStart)` for a match reaching before the
  output. On every stream that decodes without such reads, the two agree.
- `Buffer.from` in the static `compress` and `decompress` (lines 476 and 486).
  The model takes a byte sequence directly; strings, number arrays and
  Buffers are not modelled.
- `subarray` at lines 165 and 467 returns a view that shares `out`. The model
  returns a copy of `out[..outputPointer]`. Aliasing between results and
  later calls on the same object is not modelled.
- The `blockSize` getter (lines 12-14) returns the field; there is nothing to
  state.
- `ip_end` and `op_end` in the decoder (lines 195-196) are set but never read.
- Fields the source uses as scratch variables are locals of the methods that
  use them: `bufferLength`, `previousInputPointer`, `index`, `tt`, `v`,
  `matchLength`, `matchOffset`, `dv_lo`, `dv_hi` and `dindex`. The values the
  source leaves in them after a call are not modelled.
- `emptyDictionary` (line 47) is only copied into the dictionary.
  Codec.LZO.ClearDictionary writes zeros directly.
- Codec.LZO.CopyRun counts down a local copy of the run length. So after the
  final run `t` is not set to 0 as at line 460; `t` is not read again.
- Codec.LZO.CompressBlocks: `(this.t + this.ll) >> 5` at line 423 is a 32-bit
  signed shift; the model divides by 32. The two differ only for inputs of
  2 GiB or more.
- The dictionary is a `Uint32Array`. Its entries are positions inside a
  block of at most 49152 bytes, so they are modelled as unbounded integers.
- Codec.LZO.CompressBuffer states only that the stream is the serialization
  of some well-formed pieces that rebuild the input. It does not state which
  matches the dictionary search picks. The method body follows the search
  step for step, and Codec.LZO.Probe, Codec.LZO.MatchLength and
  Codec.LZO.ScanStep state each step.
- Codec.LZO.ScanBlock and Codec.LZO.CompressCore state the invariant they
  keep, not the exact piece list.
- Compression ratios, timing, the unit tests and `build/bundle.ts` are
  outside the codec.
