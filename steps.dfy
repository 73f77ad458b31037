/** One step of the decoder functions at a time, in the order the statements
    of decompressBuffer and match (src/index.ts, lines 117-269) take them:
    each lemma says what the rest of the decode becomes after the statements
    of one branch, or how it fails. The decoder methods of the LZO class keep
    the rest of the decode unchanged with these. */
module DecoderSteps {
  import opened Format
  import opened Decoding

  // The start of decompressBuffer (lines 206-219).

  /** A first byte of 17 or less, or none: the main loop at its top. */
  lemma {:induction false} DecodeStart(s: seq<byte>)
    requires |s| == 0 || s[0] <= 17
    ensures Decode(s) == DecodeLoop(s, 0, [], false)
  {
  }

  /** A first byte 17 + t with t < 4: matchNext, then match. */
  lemma {:induction false} DecodeStartShort(s: seq<byte>)
    requires |s| > 0 && 17 < s[0] < 21
    ensures 1 + s[0] - 17 >= |s| ==> Decode(s) == Fail(TruncatedInput)
    ensures 1 + s[0] - 17 < |s| ==>
      Decode(s) == DecodeMatch(s, s[0] - 17 + 2, s[1..s[0] - 17 + 1], s[s[0] - 17 + 1])
  {
    if 1 + s[0] - 17 < |s| {
      assert [] + s[1..s[0] - 17 + 1] == s[1..s[0] - 17 + 1];
    }
  }

  /** A first byte 17 + t with t >= 4: t literals, then the main loop after
      its literal copy. */
  lemma {:induction false} DecodeStartLong(s: seq<byte>)
    requires |s| > 0 && s[0] >= 21
    ensures 1 + s[0] - 17 > |s| ==> Decode(s) == Fail(TruncatedInput)
    ensures 1 + s[0] - 17 <= |s| ==> Decode(s) == DecodeLoop(s, s[0] - 17 + 1, s[1..s[0] - 17 + 1], true)
  {
    if 1 + s[0] - 17 <= |s| {
      assert [] + s[1..s[0] - 17 + 1] == s[1..s[0] - 17 + 1];
    }
  }

  // The main loop (lines 221-268).

  lemma {:induction false} LoopEnd(s: seq<byte>, out: seq<byte>, skip: bool)
    ensures DecodeLoop(s, |s|, out, skip) == Fail(TruncatedInput)
  {
  }

  /** A literal-length byte at the top whose length field cannot be read. */
  lemma {:induction false} LoopLengthFails(s: seq<byte>, ip: nat, out: seq<byte>, e: Error)
    requires ip < |s| && s[ip] < 16 && ExtendedLength(s, ip + 1, s[ip], 15) == Fail(e)
    ensures DecodeLoop(s, ip, out, false) == Fail(e)
  {
  }

  /** A literal run at the top: n + 3 literals are copied, and the loop goes on
      as after the first literal run. */
  lemma {:induction false} LoopLiteral(s: seq<byte>, ip: nat, out: seq<byte>, n: int, ip1: nat)
    requires ip < |s| && s[ip] < 16 && ExtendedLength(s, ip + 1, s[ip], 15) == Ok((n, ip1))
    ensures ip1 + n + 3 > |s| ==> DecodeLoop(s, ip, out, false) == Fail(TruncatedInput)
    ensures ip1 + n + 3 <= |s| ==>
      DecodeLoop(s, ip, out, false) == DecodeLoop(s, ip1 + n + 3, out + s[ip1..ip1 + n + 3], true)
  {
    assert n >= 1;
  }

  /** After a literal run, a byte below 16 is a three-byte match from at least
      2049 bytes back (lines 246-259). */
  lemma {:induction false} LoopShortMatch(s: seq<byte>, ip: nat, out: seq<byte>, mp: int)
    requires ip < |s| && s[ip] < 16
    ensures ip + 1 == |s| ==> DecodeLoop(s, ip, out, true) == Fail(TruncatedInput)
    ensures ip + 1 < |s| && mp == |out| - (1 + 0x0800) - s[ip] / 4 - (s[ip + 1] as int) * 4 ==>
      && (mp < 0 ==> DecodeLoop(s, ip, out, true) == Fail(DistanceBeforeStart))
      && (mp >= 0 ==> DecodeLoop(s, ip, out, true) == AfterMatch(s, ip + 2, CopyForward(out, |out| - mp, 3)))
  {
  }

  // match (lines 117-190).

  /** How a call of match() ends: the end marker with the output, back to the
      main loop of decompressBuffer, or a malformed input. */
  datatype MatchEnd = Finished(output: seq<byte>) | Resume | Failed(error: Error)

  /** How the rest of a decode g goes on once a match instruction has been
      read, with the input s, the input position ip and the output o as they
      are then: r says whether the decode ended, failed, or goes on after n
      bytes copied forward from output position mp. */
  ghost predicate Pending(g: Result<seq<byte>>, r: MatchEnd, s: seq<byte>, ip: int, o: seq<byte>, mp: int, n: int)
  {
    match r
    case Finished(v) => g == Ok(v)
    case Failed(e) => g == Fail(e)
    case Resume => 0 <= mp < |o| && 2 <= ip <= |s| && n >= 2 && g == AfterMatch(s, ip, CopyForward(o, |o| - mp, n))
  }

  /** How the rest of a decode g goes on once a match instruction has been
      carried out: ended, failed, or the end of the turn (AfterMatch) at
      input position ip with the output o. */
  ghost predicate Settled(g: Result<seq<byte>>, r: MatchEnd, s: seq<byte>, ip: int, o: seq<byte>)
  {
    match r
    case Finished(v) => g == Ok(v)
    case Failed(e) => g == Fail(e)
    case Resume => 2 <= ip <= |s| && g == AfterMatch(s, ip, o)
  }

  /** How a call of match() ends for the rest of a decode g: with the
      result of the decode, or back at the top of the main loop at input
      position ip with the output o. */
  ghost predicate Ended(g: Result<seq<byte>>, r: MatchEnd, s: seq<byte>, ip: int, o: seq<byte>)
  {
    match r
    case Finished(v) => g == Ok(v)
    case Failed(e) => g == Fail(e)
    case Resume => 0 <= ip <= |s| && g == DecodeLoop(s, ip, o, false)
  }

  /** How the rest of a decode g goes on after the end of a turn of match's
      loop: another instruction t at ip (more), or match() ends as r says. */
  ghost predicate Turned(g: Result<seq<byte>>, more: bool, r: MatchEnd, s: seq<byte>, ip: int, o: seq<byte>, t: int)
  {
    if more then 1 <= ip <= |s| && 0 <= t < 256 && g == DecodeMatch(s, ip, o, t as byte)
    else !r.Finished? && Ended(g, r, s, ip, o)
  }

  /** How the start of decompressBuffer leaves the rest of a decode g:
      ended, failed, or at the top of the main loop at input position ip
      with the output o, a literal copy skipped or not. */
  ghost predicate Begun(g: Result<seq<byte>>, r: MatchEnd, s: seq<byte>, ip: int, o: seq<byte>, skip: bool)
  {
    match r
    case Finished(v) => g == Ok(v)
    case Failed(e) => g == Fail(e)
    case Resume => 0 <= ip <= |s| && g == DecodeLoop(s, ip, o, skip)
  }

  /** The result of a decode that a call of match() ended. */
  function Outcome(e: MatchEnd): (r: Result<seq<byte>>)
    requires !e.Resume?
    ensures e.Finished? <==> r.Ok?
    ensures r == if e.Finished? then Ok(e.output) else Fail(e.error)
  {
    if e.Finished? then Ok(e.output) else Fail(e.error)
  }

  /** How the rest of a decode g goes on after the top of the main loop
      (lines 223-243): a literal run was copied (copied), or the control byte
      was a match and match() ended as r says. */
  ghost predicate ToppedOff(g: Result<seq<byte>>, copied: bool, r: MatchEnd, s: seq<byte>, ip: int, o: seq<byte>)
  {
    if copied then 0 <= ip <= |s| && g == DecodeLoop(s, ip, o, true)
    else Ended(g, r, s, ip, o)
  }

  /** Reading an M2 instruction (lines 119-122) at ip, with the source
      position mp it computes. */
  lemma {:induction false} ReadM2Step(g: Result<seq<byte>>, s: seq<byte>, ip: nat, o: seq<byte>, t: byte, mp: int, r: MatchEnd, ipEnd: int, nEnd: int)
    requires 1 <= ip <= |s| && t >= 64 && g == DecodeMatch(s, ip, o, t)
    requires ip < |s| ==> mp == |o| - 1 - t / 4 % 8 - (s[ip] as int) * 8
    requires r == if ip == |s| then Failed(TruncatedInput) else if mp < 0 then Failed(DistanceBeforeStart) else Resume
    requires r.Resume? ==> ipEnd == ip + 1 && nEnd == t / 32 + 1
    ensures Pending(g, r, s, ipEnd, o, mp, nEnd)
  {
    MatchM2Step(s, ip, o, t, mp);
  }

  /** Reading the offset bytes of an M3 instruction (lines 137-142) read at
      ip0, whose length field n ends at ip: they give mp. */
  lemma {:induction false} ReadM3Step(g: Result<seq<byte>>, s: seq<byte>, ip0: nat, o: seq<byte>, t: byte, n: int, ip: nat, mp: int,
                                      r: MatchEnd, ipEnd: int, nEnd: int)
    requires 1 <= ip0 <= |s| && 32 <= t < 64 && ip <= |s| && g == DecodeMatch(s, ip0, o, t)
    requires ExtendedLength(s, ip0, t % 32, 31) == Ok((n, ip))
    requires ip + 2 <= |s| ==> mp == |o| - 1 - s[ip] / 4 - (s[ip + 1] as int) * 64
    requires r == if ip + 2 > |s| then Failed(TruncatedInput)
                  else if mp < 0 then Failed(DistanceBeforeStart) else Resume
    requires r.Resume? ==> ipEnd == ip + 2 && nEnd == n + 2
    ensures Pending(g, r, s, ipEnd, o, mp, nEnd)
  {
    MatchM3Step(s, ip0, o, t, n, ip, mp);
  }

  /** Reading the offset bytes of an M4 instruction (lines 159-169) read at
      ip0, whose length field n ends at ip: they give mp; mp at the output
      position is the end marker, otherwise the copy starts 0x4000 further
      back, at mpEnd. */
  lemma {:induction false} ReadM4Step(g: Result<seq<byte>>, s: seq<byte>, ip0: nat, o: seq<byte>, t: byte, n: int, ip: nat, mp: int,
                                            r: MatchEnd, ipEnd: int, mpEnd: int, nEnd: int)
    requires 1 <= ip0 <= |s| && 16 <= t < 32 && ip <= |s| && g == DecodeMatch(s, ip0, o, t)
    requires ExtendedLength(s, ip0, t % 8, 7) == Ok((n, ip))
    requires ip + 2 <= |s| ==> mp == |o| - (t / 8 % 2) * 16384 - (s[ip] / 4 + (s[ip + 1] as int) * 64)
    requires r == if ip + 2 > |s| then Failed(TruncatedInput)
                  else if mp == |o| then Finished(o)
                  else if mp - 0x4000 < 0 then Failed(DistanceBeforeStart) else Resume
    requires r.Resume? ==> ipEnd == ip + 2 && mpEnd == mp - 0x4000 && nEnd == n + 2
    ensures Pending(g, r, s, ipEnd, o, mpEnd, nEnd)
  {
    MatchM4Step(s, ip0, o, t, n, ip, mp);
    if ip + 2 > |s| {
    } else if mp == |o| {
      assert r == Finished(o);
    } else if mp - 0x4000 < 0 {
      assert r == Failed(DistanceBeforeStart);
    } else {
      assert r == Resume;
    }
  }

  /** Reading an M1 instruction after a match (lines 171-172) at ip. */
  lemma {:induction false} ReadM1Step(g: Result<seq<byte>>, s: seq<byte>, ip: nat, o: seq<byte>, t: byte, mp: int, r: MatchEnd, ipEnd: int)
    requires 1 <= ip <= |s| && t < 16 && g == DecodeMatch(s, ip, o, t)
    requires ip < |s| ==> mp == |o| - 1 - t / 4 - (s[ip] as int) * 4
    requires r == if ip == |s| then Failed(TruncatedInput) else if mp < 0 then Failed(DistanceBeforeStart) else Resume
    requires r.Resume? ==> ipEnd == ip + 1
    ensures Pending(g, r, s, ipEnd, o, mp, 2)
  {
    MatchM1Step(s, ip, o, t, mp);
  }

  /** The end of a turn: the low two bits of the byte two back. */
  lemma {:induction false} MatchDoneStep(s: seq<byte>, ip: nat, out: seq<byte>)
    requires 2 <= ip <= |s|
    ensures s[ip - 2] % 4 == 0 ==> AfterMatch(s, ip, out) == DecodeLoop(s, ip, out, false)
    ensures s[ip - 2] % 4 != 0 && ip + s[ip - 2] % 4 >= |s| ==> AfterMatch(s, ip, out) == Fail(TruncatedInput)
    ensures s[ip - 2] % 4 != 0 && ip + s[ip - 2] % 4 < |s| ==>
      AfterMatch(s, ip, out)
      == DecodeMatch(s, ip + s[ip - 2] % 4 + 1, out + s[ip..ip + s[ip - 2] % 4], s[ip + s[ip - 2] % 4])
  {
  }

  /** t >= 64: M2 (lines 119-124). */
  lemma {:induction false} MatchM2Step(s: seq<byte>, ip: nat, out: seq<byte>, t: byte, mp: int)
    requires 1 <= ip <= |s| && t >= 64
    ensures ip == |s| ==> DecodeMatch(s, ip, out, t) == Fail(TruncatedInput)
    ensures ip < |s| && mp == |out| - 1 - t / 4 % 8 - (s[ip] as int) * 8 ==>
      && (mp < 0 ==> DecodeMatch(s, ip, out, t) == Fail(DistanceBeforeStart))
      && (mp >= 0 ==> DecodeMatch(s, ip, out, t) == AfterMatch(s, ip + 1, CopyForward(out, |out| - mp, t / 32 + 1)))
  {
  }

  /** A length field that cannot be read fails M3 and M4. */
  lemma {:induction false} MatchLengthFails(s: seq<byte>, ip: nat, out: seq<byte>, t: byte, e: Error)
    requires 1 <= ip <= |s| && 16 <= t < 64
    requires ExtendedLength(s, ip, if t >= 32 then t % 32 else t % 8, if t >= 32 then 31 else 7) == Fail(e)
    ensures DecodeMatch(s, ip, out, t) == Fail(e)
  {
  }

  /** 32 <= t < 64: M3 (lines 125-144). */
  lemma {:induction false} MatchM3Step(s: seq<byte>, ip: nat, out: seq<byte>, t: byte, n: int, ip1: nat, mp: int)
    requires 1 <= ip <= |s| && 32 <= t < 64 && ExtendedLength(s, ip, t % 32, 31) == Ok((n, ip1))
    ensures ip1 + 2 > |s| ==> DecodeMatch(s, ip, out, t) == Fail(TruncatedInput)
    ensures ip1 + 2 <= |s| && mp == |out| - 1 - s[ip1] / 4 - (s[ip1 + 1] as int) * 64 ==>
      && (mp < 0 ==> DecodeMatch(s, ip, out, t) == Fail(DistanceBeforeStart))
      && (mp >= 0 ==> DecodeMatch(s, ip, out, t) == AfterMatch(s, ip1 + 2, CopyForward(out, |out| - mp, n + 2)))
  {
  }

  /** 16 <= t < 32: M4 or the end marker (lines 145-169). */
  lemma {:induction false} MatchM4Step(s: seq<byte>, ip: nat, out: seq<byte>, t: byte, n: int, ip1: nat, mp: int)
    requires 1 <= ip <= |s| && 16 <= t < 32 && ExtendedLength(s, ip, t % 8, 7) == Ok((n, ip1))
    ensures ip1 + 2 > |s| ==> DecodeMatch(s, ip, out, t) == Fail(TruncatedInput)
    ensures ip1 + 2 <= |s| && mp == |out| - (t / 8 % 2) * 16384 - (s[ip1] / 4 + (s[ip1 + 1] as int) * 64) ==>
      && (mp == |out| ==> DecodeMatch(s, ip, out, t) == Ok(out))
      && (mp != |out| && mp - 0x4000 < 0 ==> DecodeMatch(s, ip, out, t) == Fail(DistanceBeforeStart))
      && (mp != |out| && mp - 0x4000 >= 0 ==>
            DecodeMatch(s, ip, out, t) == AfterMatch(s, ip1 + 2, CopyForward(out, |out| - (mp - 0x4000), n + 2)))
  {
  }

  /** t < 16: M1, two bytes (lines 170-182). */
  lemma {:induction false} MatchM1Step(s: seq<byte>, ip: nat, out: seq<byte>, t: byte, mp: int)
    requires 1 <= ip <= |s| && t < 16
    ensures ip == |s| ==> DecodeMatch(s, ip, out, t) == Fail(TruncatedInput)
    ensures ip < |s| && mp == |out| - 1 - t / 4 - (s[ip] as int) * 4 ==>
      && (mp < 0 ==> DecodeMatch(s, ip, out, t) == Fail(DistanceBeforeStart))
      && (mp >= 0 ==> DecodeMatch(s, ip, out, t) == AfterMatch(s, ip + 1, CopyForward(out, |out| - mp, 2)))
  {
  }

  // The helpers' loops.

  /** The zero bytes from i on: one more when s[i] is zero. */
  lemma {:induction false} CountZerosStep(s: seq<byte>, i: nat)
    requires i < |s| && s[i] == 0
    ensures CountZeros(s, i) == 1 + CountZeros(s, i + 1)
  {
  }

  /** One more byte copied forward. */
  lemma {:induction false} CopyForwardStep(s: seq<byte>, d: int, n: nat)
    requires 1 <= d <= |s|
    ensures CopyForward(s, d, n + 1) == CopyForward(s, d, n) + [CopyForward(s, d, n)[|s| + n - d]]
  {
  }
}
