/** The decoder of src/index.ts (decompressBuffer, match and their helpers) as
    functions over the input bytes, an input position and the output produced
    so far. Each function returns the result of the whole remaining decode.

    Every read past the end of the input fails with TruncatedInput and every
    match that reaches before the first output byte fails with
    DistanceBeforeStart. The original checks neither (JavaScript yields
    `undefined` for such reads); the checks are a hardening of this model and
    never fire on a stream the encoder produced. */
module Decoding {
  import opened Format

  /** The zero bytes at s[i..], as counted by the loops at lines 129, 151, 232. */
  function CountZeros(s: seq<byte>, i: nat): (r: nat)
    requires i <= |s|
    ensures i + r <= |s|
    ensures forall k | i <= k < i + r :: s[k] == 0
    ensures i + r < |s| ==> s[i + r] != 0
    decreases |s| - i
  {
    if i < |s| && s[i] == 0 then 1 + CountZeros(s, i + 1) else 0
  }

  /** A length field t: when it is zero, the continuation bytes at ip follow,
      worth 255 per zero byte plus `base` plus the terminating byte. Returns the
      length and the position after the field. */
  function ExtendedLength(s: seq<byte>, ip: nat, t: int, base: int): (r: Result<(int, nat)>)
    requires ip <= |s|
    ensures r.Ok? ==> ip <= r.value.1 <= |s|
    ensures r.Ok? && t == 0 ==> r.value.1 > ip
  {
    if t != 0 then Ok((t, ip))
    else
      var z := CountZeros(s, ip);
      if ip + z == |s| then Fail(TruncatedInput)
      else Ok((255 * z + base + s[ip + z], ip + z + 1))
  }

  /** copyFromBuffer: n >= 1 literal bytes from the input to the output. */
  function CopyLiteral(s: seq<byte>, ip: nat, out: seq<byte>, n: int): (r: Result<(nat, seq<byte>)>)
    requires ip <= |s| && n >= 1
    ensures r.Ok? ==> r.value.0 == ip + n <= |s| && r.value.1 == out + s[ip..ip + n]
  {
    if ip + n <= |s| then Ok((ip + n, out + s[ip..ip + n])) else Fail(TruncatedInput)
  }

  /** matchNext: t (1 to 3) literal bytes, then the next control byte. */
  function MatchNext(s: seq<byte>, ip: nat, out: seq<byte>, t: int): (r: Result<(nat, seq<byte>, byte)>)
    requires ip <= |s| && 1 <= t <= 3
    ensures r.Ok? ==> r.value.0 == ip + t + 1 <= |s|
  {
    if ip + t < |s| then Ok((ip + t + 1, out + s[ip..ip + t], s[ip + t])) else Fail(TruncatedInput)
  }

  /** copyMatch: n bytes copied forward from output position mp. */
  function BackCopy(out: seq<byte>, mp: int, n: nat): Result<seq<byte>>
    requires mp < |out|
  {
    if mp < 0 then Fail(DistanceBeforeStart) else Ok(CopyForward(out, |out| - mp, n))
  }

  /** A literal-length instruction with control byte t0 < 16 (lines 231-241). */
  function LiteralRun(s: seq<byte>, ip: nat, out: seq<byte>, t0: int): (r: Result<(nat, seq<byte>)>)
    requires ip <= |s| && 0 <= t0 < 16
    ensures r.Ok? ==> ip < r.value.0 <= |s|
  {
    match ExtendedLength(s, ip, t0, 15)
    case Fail(e) => Fail(e)
    case Ok((n, ip1)) => CopyLiteral(s, ip1, out, n + 3)
  }

  /** The main loop of decompressBuffer (lines 221-268), entered at its top, or
      after the literal copy when `skip` is set (skipToFirstLiteralFunc). */
  function DecodeLoop(s: seq<byte>, ip: nat, out: seq<byte>, skip: bool): Result<seq<byte>>
    requires ip <= |s|
    decreases |s| - ip, 0
  {
    if !skip && ip == |s| then Fail(TruncatedInput)
    else if !skip && s[ip] >= 16 then DecodeMatch(s, ip + 1, out, s[ip])
    else
      var lit: Result<(nat, seq<byte>)> := if skip then Ok((ip, out)) else LiteralRun(s, ip + 1, out, s[ip]);
      match lit
      case Fail(e) => Fail(e)
      case Ok((ip1, out1)) =>
        assert ip1 >= ip;
        if ip1 == |s| then Fail(TruncatedInput)
        else if s[ip1] >= 16 then DecodeMatch(s, ip1 + 1, out1, s[ip1])
        else if ip1 + 1 == |s| then Fail(TruncatedInput)
        else
          var mp := |out1| - (1 + 0x0800) - s[ip1] / 4 - (s[ip1 + 1] as int) * 4;
          match BackCopy(out1, mp, 3)
          case Fail(e) => Fail(e)
          case Ok(out2) => AfterMatch(s, ip1 + 2, out2)
  }

  /** The end of one turn of match's loop (lines 184-188): the low two bits of
      the byte two back (matchDone) say how many literals follow before the next
      match; none sends the decoder back to the main loop. */
  function AfterMatch(s: seq<byte>, ip: nat, out: seq<byte>): Result<seq<byte>>
    requires 2 <= ip <= |s|
    decreases |s| - ip, 1
  {
    var t := s[ip - 2] % 4;
    if t == 0 then DecodeLoop(s, ip, out, false)
    else
      match MatchNext(s, ip, out, t)
      case Fail(e) => Fail(e)
      case Ok((ip1, out1, t1)) => DecodeMatch(s, ip1, out1, t1)
  }

  /** One match instruction with control byte t, read at ip - 1 (lines 118-182):
      its top bits choose the kind of match. */
  function DecodeMatch(s: seq<byte>, ip: nat, out: seq<byte>, t: byte): Result<seq<byte>>
    requires 1 <= ip <= |s|
    decreases |s| - ip, 3
  {
    if t >= 64 then MatchM2(s, ip, out, t)
    else if t >= 32 then MatchM3(s, ip, out, t)
    else if t >= 16 then MatchM4(s, ip, out, t)
    else MatchM1(s, ip, out, t)
  }

  /** t >= 64 (lines 119-124): length and low offset bits in t, one more offset
      byte. */
  function MatchM2(s: seq<byte>, ip: nat, out: seq<byte>, t: byte): Result<seq<byte>>
    requires 1 <= ip <= |s| && t >= 64
    decreases |s| - ip, 2
  {
    if ip == |s| then Fail(TruncatedInput)
    else
      var mp := |out| - 1 - t / 4 % 8 - (s[ip] as int) * 8;
      match BackCopy(out, mp, t / 32 - 1 + 2)
      case Fail(e) => Fail(e)
      case Ok(out1) => AfterMatch(s, ip + 1, out1)
  }

  /** 32 <= t < 64 (lines 125-144): a length field, then two offset bytes. */
  function MatchM3(s: seq<byte>, ip: nat, out: seq<byte>, t: byte): Result<seq<byte>>
    requires 1 <= ip <= |s| && 32 <= t < 64
    decreases |s| - ip, 2
  {
    match ExtendedLength(s, ip, t % 32, 31)
    case Fail(e) => Fail(e)
    case Ok((n, ip1)) =>
      if ip1 + 2 > |s| then Fail(TruncatedInput)
      else
        var mp := |out| - 1 - s[ip1] / 4 - (s[ip1 + 1] as int) * 64;
        match BackCopy(out, mp, n + 2)
        case Fail(e) => Fail(e)
        case Ok(out1) => AfterMatch(s, ip1 + 2, out1)
  }

  /** 16 <= t < 32 (lines 145-169): bit 14 of the offset in bit 3 of t, a
      length field, then two offset bytes. A source position equal to the
      output position is the end marker and ends the decode with the output so
      far. */
  function MatchM4(s: seq<byte>, ip: nat, out: seq<byte>, t: byte): Result<seq<byte>>
    requires 1 <= ip <= |s| && 16 <= t < 32
    decreases |s| - ip, 2
  {
    var mp0 := |out| - (t / 8 % 2) * 16384;
    match ExtendedLength(s, ip, t % 8, 7)
    case Fail(e) => Fail(e)
    case Ok((n, ip1)) =>
      if ip1 + 2 > |s| then Fail(TruncatedInput)
      else
        var mp := mp0 - (s[ip1] / 4 + (s[ip1 + 1] as int) * 64);
        if mp == |out| then Ok(out)
        else
          match BackCopy(out, mp - 0x4000, n + 2)
          case Fail(e) => Fail(e)
          case Ok(out1) => AfterMatch(s, ip1 + 2, out1)
  }

  /** t < 16 after a match (lines 170-182): a two-byte copy from at most 1024
      bytes back. */
  function MatchM1(s: seq<byte>, ip: nat, out: seq<byte>, t: byte): Result<seq<byte>>
    requires 1 <= ip <= |s| && t < 16
    decreases |s| - ip, 2
  {
    if ip == |s| then Fail(TruncatedInput)
    else
      var mp := |out| - 1 - t / 4 - (s[ip] as int) * 4;
      match BackCopy(out, mp, 2)
      case Fail(e) => Fail(e)
      case Ok(out1) => AfterMatch(s, ip + 1, out1)
  }

  /** decompressBuffer: a first byte above 17 is an initial literal run of
      byte - 17 bytes; a run shorter than 4 goes straight on to a match. */
  function Decode(s: seq<byte>): Result<seq<byte>>
  {
    if |s| > 0 && s[0] > 17 then
      var t := s[0] - 17;
      if t < 4 then
        match MatchNext(s, 1, [], t)
        case Fail(e) => Fail(e)
        case Ok((ip, out, t1)) => DecodeMatch(s, ip, out, t1)
      else
        match CopyLiteral(s, 1, [], t)
        case Fail(e) => Fail(e)
        case Ok((ip, out)) => DecodeLoop(s, ip, out, true)
    else DecodeLoop(s, 0, [], false)
  }
}
