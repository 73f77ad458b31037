/** The LZO1X-1 instruction encodings shared by the encoder and the decoder of
    src/index.ts, and an abstract view of a compressed stream as a list of
    pieces (a literal run followed by one match), closed by a final literal run
    and the end marker 17, 0, 0. */
module Format {

  /** One element of a Uint8Array. */
  type byte = x: int | 0 <= x < 256

  datatype Error =
    | NonPositiveBlockSize   // the blockSize setter rejects a value <= 0
    | TruncatedInput         // the decoder needs a byte past the end of its input
    | DistanceBeforeStart    // a match would copy from before the first output byte

  datatype Result<T> = Ok(value: T) | Fail(error: Error)

  /** Slots of the encoder's dictionary. */
  const DICTIONARY_SIZE := 16384
  /** The encoder clears its dictionary every MAX_BLOCK input bytes. */
  const MAX_BLOCK := 49152
  /** The instruction that ends every stream. */
  const END_MARKER: seq<byte> := [17, 0, 0]

  /** The 14-bit multiplicative hash of four input bytes, given as two
      little-endian 16-bit halves. Every intermediate value stays below 2^31,
      so the JavaScript shifts and mask are plain division and remainder. */
  function Hash(lo: int, hi: int): (r: int)
    requires 0 <= lo < 65536 && 0 <= hi < 65536
    ensures 0 <= r < DICTIONARY_SIZE
  {
    (((lo * 0x429d) / 65536 + hi * 0x429d + lo * 0x1824) % 65536) / 4
  }

  /** Continuation encoding of a count m >= 1: one zero byte for every 255 that
      has to be skipped, then a non-zero remainder. */
  function ZeroRun(m: int): (r: seq<byte>)
    requires m >= 1
    ensures 1 <= |r| <= m && r[|r| - 1] != 0
    ensures forall i | 0 <= i < |r| - 1 :: r[i] == 0
    ensures 255 * (|r| - 1) + r[|r| - 1] == m
    decreases m
  {
    if m > 255 then [0] + ZeroRun(m - 255) else [m]
  }

  /** A length field: n inline in the low bits of a control byte whose high
      bits are `high`, when n fits in them (n <= base); otherwise those bits are
      zero and the continuation bytes of n - base follow. */
  function LengthField(high: int, n: int, base: int): (r: seq<byte>)
    requires 1 <= n && 1 <= base && 0 <= high && high + base < 256
    ensures |r| >= 1 && high <= r[0] <= high + base
    ensures |r| <= if n <= base then 1 else 1 + n - base
  {
    if n <= base then [high + n] else [high] + ZeroRun(n - base)
  }

  /** The literal-length instruction for a run of v >= 4 bytes: v - 3 inline,
      or 0 followed by the continuation of v - 18. */
  function LiteralLength(v: int): (r: seq<byte>)
    requires v >= 4
    ensures |r| >= 1 && r[0] < 16
  {
    LengthField(0, v - 3, 15)
  }

  /** What precedes a run of v literals after a match: nothing when v < 4 (a
      count of 1 to 3 rides in the low bits of the previous match). */
  function LiteralHeader(v: int): seq<byte>
  {
    if v < 4 then [] else LiteralLength(v)
  }

  /** The count a match carries in its low two bits for the literals after it. */
  function Trailer(next: int): int
  {
    if 0 <= next < 4 then next else 0
  }

  /** The byte b with a two-bit v OR-ed into its low bits. */
  function OrLow(b: byte, v: int): (r: byte)
    requires 0 <= v < 4
    ensures r - r % 4 == b - b % 4
    ensures b % 4 == 0 ==> r == b + v
    ensures v == 0 ==> r == b
  {
    var low := b % 4;
    b - low + (if low == v || v == 0 then low else if low == 0 then v else 3)
  }

  /** The matches the encoder emits: at least 4 bytes long, from a distance
      inside the current 49152-byte block. */
  predicate ValidMatch(length: int, distance: int)
  {
    4 <= length && 1 <= distance < MAX_BLOCK
  }

  /** The bytes of the match instruction the encoder chooses for a match: M2
      (two bytes, length <= 8, distance <= 0x800), M3 (distance <= 0x4000) or
      M4 (the rest), with the count tr of the literals that follow in the low
      two bits of the second-to-last byte. A Uint8Array store keeps the low 8
      bits, so the offset bytes are reduced mod 256; this drops bit 14 of an M4
      offset, which the control byte carries instead. The bit fields OR-ed
      together never overlap, so the ORs are sums. */
  function MatchBytes(length: int, distance: int, tr: int): (r: seq<byte>)
    requires ValidMatch(length, distance) && 0 <= tr < 4
    ensures 2 <= |r| < length
    ensures r[0] >= 16 && r[|r| - 2] % 4 == tr
  {
    if length <= 8 && distance <= 0x0800 then
      var off := distance - 1;
      [(length - 1) * 32 + (off % 8) * 4 + tr, off / 8]
    else if distance <= 0x4000 then
      M3Header(length) + OffsetBytes(distance - 1, tr)
    else
      M4Header(length, distance) + OffsetBytes(distance - 0x4000, tr)
  }

  /** The two offset bytes of M3 and M4, offset << 2 | tr and offset >> 6, as
      a Uint8Array stores them. */
  function OffsetBytes(off: int, tr: int): (r: seq<byte>)
    requires 0 <= off && 0 <= tr < 4
    ensures |r| == 2 && r[0] % 4 == tr
  {
    LowOffsetByte(off);
    [(off * 4) % 256 + tr, (off / 64) % 256]
  }

  /** offset << 2 stored in a byte leaves the low two bits free. */
  lemma LowOffsetByte(off: int)
    ensures (off * 4) % 256 % 4 == 0 && (off * 4) % 256 <= 252
  {
    var q := (off * 4) / 256;
    assert (off * 4) % 256 == 4 * (off - 64 * q);
  }

  /** The control byte of an M3 match, 32 | (length - 2), with the length
      continued in zero bytes when it does not fit in five bits. */
  function M3Header(length: int): (r: seq<byte>)
    requires length >= 4
    ensures |r| >= 1 && 32 <= r[0] < 64
  {
    LengthField(32, length - 2, 31)
  }

  /** Bit 14 of an M4 offset, moved to bit 3 of the control byte. */
  function M4Bit(distance: int): int
  {
    ((distance - 0x4000) / 2048) / 8 % 2 * 8
  }

  /** The control byte of an M4 match, 16 | bit 14 of the offset moved to bit 3
      | (length - 2), with the length continued when it does not fit in three
      bits. */
  function M4Header(length: int, distance: int): (r: seq<byte>)
    requires length >= 4 && 0x4000 < distance < MAX_BLOCK
    ensures |r| >= 1 && 16 <= r[0] < 32
  {
    LengthField(16 + M4Bit(distance), length - 2, 7)
  }

  /** A forward byte-by-byte copy of n bytes from `distance` bytes back: each
      new byte repeats the one `distance` before it, so an overlapping copy
      repeats a period. */
  function CopyForward(s: seq<byte>, distance: int, n: nat): (r: seq<byte>)
    requires 1 <= distance <= |s|
    ensures |r| == |s| + n && r[..|s|] == s
  {
    if n == 0 then s
    else
      var p := CopyForward(s, distance, n - 1);
      p + [p[|p| - distance]]
  }

  /** Every copied byte repeats the one `distance` before it. */
  lemma {:induction false} CopyForwardPeriodic(s: seq<byte>, distance: int, n: nat, k: int)
    requires 1 <= distance <= |s| && |s| <= k < |s| + n
    ensures CopyForward(s, distance, n)[k] == CopyForward(s, distance, n)[k - distance]
    decreases n
  {
    var p := CopyForward(s, distance, n - 1);
    if k < |s| + n - 1 {
      CopyForwardPeriodic(s, distance, n - 1, k);
      assert CopyForward(s, distance, n)[..|p|] == p;
    }
  }

  /** One step of the compressed stream: a literal run, then a match. */
  datatype Piece = Piece(literals: seq<byte>, length: nat, distance: nat)

  /** The number of bytes a list of pieces expands to. */
  function Produced(ps: seq<Piece>): nat
  {
    if ps == [] then 0
    else Produced(ps[..|ps| - 1]) + |ps[|ps| - 1].literals| + ps[|ps| - 1].length
  }

  /** The discipline the encoder keeps: every match is encodable and copies only
      bytes produced before it, and the stream opens with at least four
      literals (a match or a short run first would be misread). */
  predicate Wellformed(ps: seq<Piece>)
  {
    && (|ps| > 0 ==> |ps[0].literals| >= 4)
    && forall i {:trigger ps[i].distance} | 0 <= i < |ps| ::
         && ValidMatch(ps[i].length, ps[i].distance)
         && ps[i].distance <= Produced(ps[..i]) + |ps[i].literals|
  }

  lemma WellformedPrefix(ps: seq<Piece>, k: nat)
    requires Wellformed(ps) && k <= |ps|
    ensures Wellformed(ps[..k])
  {
    forall i | 0 <= i < k
      ensures ps[..k][..i] == ps[..i]
    {
    }
  }

  /** The bytes a list of pieces decodes to. */
  function Expand(ps: seq<Piece>): (r: seq<byte>)
    requires Wellformed(ps)
    ensures |r| == Produced(ps)
  {
    if ps == [] then []
    else
      var last := ps[|ps| - 1];
      WellformedPrefix(ps, |ps| - 1);
      CopyForward(Expand(ps[..|ps| - 1]) + last.literals, last.distance, last.length)
  }

  /** The count of literals after piece k - 1: those of piece k, or the final run. */
  function NextLiterals(ps: seq<Piece>, k: nat, tail: seq<byte>): nat
  {
    if k < |ps| then |ps[k].literals| else |tail|
  }

  /** The bytes the encoder has written once it has emitted ps, when `next`
      literals follow the last match. */
  function Emitted(ps: seq<Piece>, next: int): seq<byte>
    requires Wellformed(ps)
  {
    if ps == [] then []
    else
      var last := ps[|ps| - 1];
      WellformedPrefix(ps, |ps| - 1);
      Emitted(ps[..|ps| - 1], |last.literals|) + LiteralHeader(|last.literals|) + last.literals
        + MatchBytes(last.length, last.distance, Trailer(next))
  }

  /** What precedes the final run of n literals: nothing for an empty run; with
      nothing emitted before it, the one-byte form 17 + n for n <= 238; otherwise
      what precedes any run after a match. */
  function TailHeader(n: nat, first: bool): seq<byte>
  {
    if n == 0 then []
    else if first && n <= 238 then [17 + n]
    else LiteralHeader(n)
  }

  /** The final literal run and the end marker. */
  function Tail(tail: seq<byte>, first: bool): seq<byte>
  {
    TailHeader(|tail|, first) + tail + END_MARKER
  }

  /** The stream from piece k on. */
  function RestBytes(ps: seq<Piece>, k: nat, tail: seq<byte>): seq<byte>
    requires Wellformed(ps) && k <= |ps|
    decreases |ps| - k
  {
    if k == |ps| then Tail(tail, k == 0)
    else
      LiteralHeader(|ps[k].literals|) + ps[k].literals
      + MatchBytes(ps[k].length, ps[k].distance, Trailer(NextLiterals(ps, k + 1, tail)))
      + RestBytes(ps, k + 1, tail)
  }

  /** The whole compressed stream for pieces ps and final literal run `tail`. */
  function Serialize(ps: seq<Piece>, tail: seq<byte>): seq<byte>
    requires Wellformed(ps)
  {
    RestBytes(ps, 0, tail)
  }
}
