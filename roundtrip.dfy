/** What the decoder makes of the instructions the encoder writes: one lemma
    per instruction encoding, then the whole stream.

    The lemmas come in three layers. Those named ...Fields read the bytes of
    an instruction held in the input and say what its fields hold; those named
    ...Step say what the decoder does with such fields; the rest put the two
    together. Keeping the input's bytes and the decoder's functions out of
    each other's lemmas keeps every proof small. */
module RoundTrip {
  import opened Format
  import opened Decoding

  /** s holds the bytes w from position ip on. */
  predicate HoldsAt(s: seq<byte>, ip: nat, w: seq<byte>)
  {
    ip + |w| <= |s| && s[ip..ip + |w|] == w
  }

  /** A slice equal to a concatenation splits into slices equal to its parts. */
  lemma {:induction false} SplitAt(s: seq<byte>, ip: nat, a: seq<byte>, b: seq<byte>)
    requires ip + |a| + |b| <= |s| && s[ip..ip + |a| + |b|] == a + b
    ensures s[ip..ip + |a|] == a && s[ip + |a|..ip + |a| + |b|] == b
  {
    assert s[ip..ip + |a|] == s[ip..ip + |a| + |b|][..|a|];
    assert s[ip + |a|..ip + |a| + |b|] == s[ip..ip + |a| + |b|][|a|..];
  }

  /** Bytes held at ip that are a concatenation: each part is held in turn. */
  lemma {:induction false} HoldsAtSplit(s: seq<byte>, ip: nat, a: seq<byte>, b: seq<byte>)
    requires HoldsAt(s, ip, a + b)
    ensures HoldsAt(s, ip, a) && HoldsAt(s, ip + |a|, b)
  {
    SplitAt(s, ip, a, b);
  }

  // Fields: what the bytes of an instruction hold.

  /** The continuation bytes of m decode, after a zero length field, to
      m + base, and the decoder stops right after them. */
  lemma {:induction false} ZeroRunDecodes(s: seq<byte>, i: nat, m: int, base: int)
    requires m >= 1
    requires i + |ZeroRun(m)| <= |s| && s[i..i + |ZeroRun(m)|] == ZeroRun(m)
    ensures ExtendedLength(s, i, 0, base) == Ok((m + base, i + |ZeroRun(m)|))
  {
    var z := ZeroRun(m);
    var c := CountZeros(s, i);
    forall k | 0 <= k < |z| ensures s[i + k] == z[k] {
      assert s[i..i + |z|][k] == s[i + k];
    }
  }

  /** A length field read back: its first byte holds `high` plus the inline
      value x (zero when continuation bytes follow), and x with the
      continuation gives n back; the decoder stops right after the field. */
  lemma {:induction false} LengthFieldDecodes(s: seq<byte>, ip: nat, high: int, n: int, base: int)
    requires 1 <= n && 1 <= base && 0 <= high && high + base < 256
    requires var f := LengthField(high, n, base); ip + |f| <= |s| && s[ip..ip + |f|] == f
    ensures var x := if n <= base then n else 0;
      && s[ip] == high + x
      && ExtendedLength(s, ip + 1, x, base) == Ok((n, ip + |LengthField(high, n, base)|))
  {
    var f := LengthField(high, n, base);
    assert s[ip] == f[0];
    if n > base {
      var z := ZeroRun(n - base);
      assert s[ip + 1..ip + |f|] == f[1..] == z;
      ZeroRunDecodes(s, ip + 1, n - base, base);
    }
  }

  /** The header of a run of v >= 4 literals reads back as v - 3, and the
      literals follow it. */
  lemma {:induction false} LiteralFields(s: seq<byte>, ip: nat, lits: seq<byte>)
    requires |lits| >= 4 && HoldsAt(s, ip, LiteralLength(|lits|) + lits)
    ensures var ip1 := ip + |LiteralLength(|lits|)|;
      && s[ip] < 16 && ExtendedLength(s, ip + 1, s[ip], 15) == Ok((|lits| - 3, ip1))
      && ip1 + |lits| <= |s| && s[ip1..ip1 + |lits|] == lits
  {
    var h := LiteralLength(|lits|);
    SplitAt(s, ip, h, lits);
    LengthFieldDecodes(s, ip, 0, |lits| - 3, 15);
  }

  /** The fields of an M2 control byte, (length - 1) << 5 | (offset & 7) << 2 | tr. */
  lemma {:induction false} M2Fields(length: int, off: int, tr: int)
    requires 4 <= length <= 8 && 0 <= off < 0x0800 && 0 <= tr < 4
    ensures var t := (length - 1) * 32 + (off % 8) * 4 + tr;
      t >= 64 && t / 32 == length - 1 && t / 4 % 8 == off % 8
  {
    var t := (length - 1) * 32 + (off % 8) * 4 + tr;
    assert t / 4 == (length - 1) * 8 + off % 8;
  }

  /** The two offset bytes of M3 and M4 give back the offset's low 14 bits. */
  lemma {:induction false} OffsetFields(off: int, tr: int)
    requires 0 <= off && 0 <= tr < 4
    ensures var o := OffsetBytes(off, tr); o[0] / 4 + (o[1] as int) * 64 == off % 16384
  {
    LowOffsetBits(off, tr);
    OffsetBitsJoin(off);
  }

  /** The first offset byte holds the offset's low six bits above tr. */
  lemma {:induction false} LowOffsetBits(off: int, tr: int)
    requires 0 <= off && 0 <= tr < 4
    ensures OffsetBytes(off, tr)[0] / 4 == off % 64
  {
    var a, q := off % 64, off / 64;
    assert off * 4 == 256 * q + 4 * a;
    assert (off * 4) % 256 == 4 * a;
  }

  /** Six low bits and eight more above them make the low fourteen bits. */
  lemma {:induction false} OffsetBitsJoin(off: int)
    requires 0 <= off
    ensures off % 64 + ((off / 64) % 256) * 64 == off % 16384
  {
    var a, q := off % 64, off / 64;
    var low, high := q % 256, q / 256;
    assert off == 64 * q + a;
    assert q == 256 * high + low;
    assert off == 16384 * high + (64 * low + a);
    assert 0 <= 64 * low + a < 16384;
  }

  /** A match instruction held at ip, split into its header and its last two
      bytes. */
  lemma {:induction false} SplitInstruction(s: seq<byte>, ip: nat, h: seq<byte>, o: seq<byte>)
    requires |o| == 2 && HoldsAt(s, ip, h + o)
    ensures ip + |h| + 2 <= |s| && s[ip..ip + |h|] == h
    ensures s[ip + |h|] == o[0] && s[ip + |h| + 1] == o[1]
  {
    SplitAt(s, ip, h, o);
    assert s[ip + |h|] == s[ip + |h|..ip + |h| + 2][0];
    assert s[ip + |h| + 1] == s[ip + |h|..ip + |h| + 2][1];
  }

  /** The two bytes of an M2 instruction as the decoder reads them. */
  lemma {:induction false} M2Bytes(s: seq<byte>, ip: nat, length: int, distance: int, tr: int)
    requires 4 <= length <= 8 && 1 <= distance <= 0x0800 && 0 <= tr < 4
    requires HoldsAt(s, ip, MatchBytes(length, distance, tr))
    ensures ip + 2 <= |s| && |MatchBytes(length, distance, tr)| == 2
    ensures s[ip] == (length - 1) * 32 + ((distance - 1) % 8) * 4 + tr
    ensures s[ip + 1] == (distance - 1) / 8
  {
    var w := MatchBytes(length, distance, tr);
    assert s[ip] == s[ip..ip + 2][0] && s[ip + 1] == s[ip..ip + 2][1];
  }

  /** The fields of an M3 instruction as the decoder reads them: the length
      field gives length - 2, the offset bytes distance - 1. */
  lemma {:induction false} M3Fields(s: seq<byte>, ip: nat, length: int, distance: int, tr: int)
    requires 4 <= length && 1 <= distance <= 0x4000 && 0 <= tr < 4
    requires HoldsAt(s, ip, M3Header(length) + OffsetBytes(distance - 1, tr))
    ensures var ip1 := ip + |M3Header(length)|;
      && ip1 + 2 <= |s| && 32 <= s[ip] < 64
      && ExtendedLength(s, ip + 1, s[ip] % 32, 31) == Ok((length - 2, ip1))
      && 1 + s[ip1] / 4 + (s[ip1 + 1] as int) * 64 == distance
  {
    var h, o := M3Header(length), OffsetBytes(distance - 1, tr);
    SplitInstruction(s, ip, h, o);
    M3Distance(distance, tr);
    assert h == LengthField(32, length - 2, 31);
    LengthFieldDecodes(s, ip, 32, length - 2, 31);
    M3Control(s[ip], length);
  }

  /** The offset bytes of an M3 instruction give distance - 1 back. */
  lemma {:induction false} M3Distance(distance: int, tr: int)
    requires 1 <= distance <= 0x4000 && 0 <= tr < 4
    ensures var o := OffsetBytes(distance - 1, tr); 1 + o[0] / 4 + (o[1] as int) * 64 == distance
  {
    OffsetFields(distance - 1, tr);
    SmallOffset(distance - 1);
  }

  /** An offset below 0x4000 is its own low fourteen bits. */
  lemma {:induction false} SmallOffset(off: int)
    requires 0 <= off < 0x4000
    ensures off % 16384 == off
  {
  }

  /** The control byte 32 + x of an M3 instruction: x is its low five bits. */
  lemma {:induction false} M3Control(b: byte, length: int)
    requires length >= 4 && b == 32 + if length - 2 <= 31 then length - 2 else 0
    ensures 32 <= b < 64 && b % 32 == if length - 2 <= 31 then length - 2 else 0
  {
  }

  /** The control byte of an M4 instruction: bit 3 is bit 14 of the offset,
      the low three bits the inline length. */
  lemma {:induction false} M4Control(distance: int, x: int, t: int)
    requires 0x4000 < distance < MAX_BLOCK && 0 <= x < 8 && t == 16 + M4Bit(distance) + x
    ensures 16 <= t < 32 && t % 8 == x && t / 8 % 2 == (distance - 0x4000) / 16384
  {
    var off := distance - 0x4000;
    assert M4Bit(distance) == 8 * (off / 16384);
  }

  /** Bit 14 of an M4 offset and the two offset bytes give the offset back. */
  lemma {:induction false} M4Offset(distance: int, tr: int)
    requires 0x4000 < distance < MAX_BLOCK && 0 <= tr < 4
    ensures var o := OffsetBytes(distance - 0x4000, tr);
      distance == 0x4000 + ((distance - 0x4000) / 16384) * 16384 + o[0] / 4 + (o[1] as int) * 64
  {
    var off := distance - 0x4000;
    OffsetFields(off, tr);
    assert (off / 16384) * 16384 + off % 16384 == off;
  }

  /** The fields of an M4 instruction as the decoder reads them: bit 3 of the
      control byte gives bit 14 of the offset, the length field length - 2, the
      offset bytes the low 14 bits of distance - 0x4000. */
  lemma {:induction false} M4Fields(s: seq<byte>, ip: nat, length: int, distance: int, tr: int)
    requires 4 <= length && 0x4000 < distance < MAX_BLOCK && 0 <= tr < 4
    requires HoldsAt(s, ip, M4Header(length, distance) + OffsetBytes(distance - 0x4000, tr))
    ensures var ip1 := ip + |M4Header(length, distance)|;
      && ip1 + 2 <= |s| && 16 <= s[ip] < 32
      && ExtendedLength(s, ip + 1, s[ip] % 8, 7) == Ok((length - 2, ip1))
      && distance == 0x4000 + (s[ip] / 8 % 2) * 16384 + s[ip1] / 4 + (s[ip1 + 1] as int) * 64
  {
    SplitInstruction(s, ip, M4Header(length, distance), OffsetBytes(distance - 0x4000, tr));
    LengthFieldDecodes(s, ip, 16 + M4Bit(distance), length - 2, 7);
    M4Control(distance, if length - 2 <= 7 then length - 2 else 0, s[ip]);
    M4Offset(distance, tr);
  }

  /** The low two bits of a match instruction's second-to-last byte are the
      count OR-ed in for the literals that follow: what matchDone reads. */
  lemma {:induction false} TrailerFields(s: seq<byte>, ip: nat, length: int, distance: int, tr: int, e: nat)
    requires ValidMatch(length, distance) && 0 <= tr < 4
    requires HoldsAt(s, ip, MatchBytes(length, distance, tr)) && e == ip + |MatchBytes(length, distance, tr)|
    ensures ip + 2 <= e <= |s| && s[ip] >= 16 && s[e - 2] % 4 == tr
  {
    var w := MatchBytes(length, distance, tr);
    assert s[ip] == s[ip..ip + |w|][0];
    assert s[ip + |w| - 2] == s[ip..ip + |w|][|w| - 2];
  }

  /** The bytes of the end marker. */
  lemma {:induction false} EndMarkerFields(s: seq<byte>, ip: nat)
    requires HoldsAt(s, ip, END_MARKER)
    ensures ip + 3 <= |s| && s[ip] == 17 && s[ip + 1] == 0 && s[ip + 2] == 0
  {
    assert s[ip] == s[ip..ip + 3][0];
    assert s[ip + 1] == s[ip..ip + 3][1];
    assert s[ip + 2] == s[ip..ip + 3][2];
  }

  // Steps: what the decoder does with fields it has read.

  /** A literal-length instruction with its fields read (lines 231-241). */
  lemma {:induction false} LiteralStep(s: seq<byte>, ip: nat, out: seq<byte>, lits: seq<byte>, ip1: nat)
    requires ip < |s| && s[ip] < 16 && |lits| >= 4
    requires ExtendedLength(s, ip + 1, s[ip], 15) == Ok((|lits| - 3, ip1))
    requires ip1 + |lits| <= |s| && s[ip1..ip1 + |lits|] == lits
    ensures LiteralRun(s, ip + 1, out, s[ip]) == Ok((ip1 + |lits|, out + lits))
  {
  }

  /** The decoder's view of a 64-255 control byte with its fields read. */
  lemma {:induction false} M2Step(s: seq<byte>, ip: nat, out: seq<byte>, length: int, distance: int, tr: int)
    requires 4 <= length <= 8 && 1 <= distance <= 0x0800
    requires distance <= |out| && 0 <= tr < 4
    requires ip + 2 <= |s|
    requires s[ip] == (length - 1) * 32 + ((distance - 1) % 8) * 4 + tr
    requires s[ip + 1] == (distance - 1) / 8
    ensures DecodeMatch(s, ip + 1, out, s[ip]) == AfterMatch(s, ip + 2, CopyForward(out, distance, length))
  {
    M2Fields(length, distance - 1, tr);
    assert DecodeMatch(s, ip + 1, out, s[ip]) == MatchM2(s, ip + 1, out, s[ip]);
  }

  /** The decoder's view of a 32-63 control byte with its fields read. */
  lemma {:induction false} M3Step(s: seq<byte>, ip: nat, out: seq<byte>, distance: int, ip1: nat, length: int)
    requires ip < ip1 && ip1 + 2 <= |s| && 32 <= s[ip] < 64 && length >= 2
    requires ExtendedLength(s, ip + 1, s[ip] % 32, 31) == Ok((length - 2, ip1))
    requires 1 <= distance <= |out| && 1 + s[ip1] / 4 + (s[ip1 + 1] as int) * 64 == distance
    ensures DecodeMatch(s, ip + 1, out, s[ip]) == AfterMatch(s, ip1 + 2, CopyForward(out, distance, length))
  {
    assert DecodeMatch(s, ip + 1, out, s[ip]) == MatchM3(s, ip + 1, out, s[ip]);
  }

  /** The decoder's view of a 16-31 control byte with its fields read, when
      the source position is not the output position. */
  lemma {:induction false} M4Step(s: seq<byte>, ip: nat, out: seq<byte>, distance: int, ip1: nat, length: int)
    requires ip < ip1 && ip1 + 2 <= |s| && 16 <= s[ip] < 32 && length >= 2
    requires ExtendedLength(s, ip + 1, s[ip] % 8, 7) == Ok((length - 2, ip1))
    requires 0x4000 < distance <= |out|
    requires distance == 0x4000 + (s[ip] / 8 % 2) * 16384 + s[ip1] / 4 + (s[ip1 + 1] as int) * 64
    ensures DecodeMatch(s, ip + 1, out, s[ip]) == AfterMatch(s, ip1 + 2, CopyForward(out, distance, length))
  {
    assert DecodeMatch(s, ip + 1, out, s[ip]) == MatchM4(s, ip + 1, out, s[ip]);
  }

  /** The decoder's view of the end marker: a 16-31 control byte whose source
      position is the output position. */
  lemma {:induction false} EndMarkerStep(s: seq<byte>, ip: nat, out: seq<byte>)
    requires ip + 3 <= |s| && s[ip] == 17 && s[ip + 1] == 0 && s[ip + 2] == 0
    ensures DecodeMatch(s, ip + 1, out, s[ip]) == Ok(out)
  {
    assert DecodeMatch(s, ip + 1, out, s[ip]) == MatchM4(s, ip + 1, out, s[ip]);
  }

  // Round trips: the instructions as written, as read.

  /** Literal-length round trip: the header written for v >= 4 literals
      (v - 3, or 0 and the continuation of v - 18) makes the decoder copy
      exactly those v literals. */
  lemma {:induction false} LiteralRunDecodes(s: seq<byte>, ip: nat, out: seq<byte>, lits: seq<byte>)
    requires |lits| >= 4 && HoldsAt(s, ip, LiteralLength(|lits|) + lits)
    ensures ip < |s| && s[ip] < 16
    ensures LiteralRun(s, ip + 1, out, s[ip])
         == Ok((ip + |LiteralLength(|lits|)| + |lits|, out + lits))
  {
    LiteralFields(s, ip, lits);
    var ip1 := ip + |LiteralLength(|lits|)|;
    LiteralStep(s, ip, out, lits, ip1);
  }

  /** M2 round trip: the two bytes written at lines 354-359 decode at lines
      119-124 to the same length and distance. */
  lemma {:induction false} M2Decodes(s: seq<byte>, ip: nat, out: seq<byte>, length: int, distance: int, tr: int, e: nat)
    requires 4 <= length <= 8 && 1 <= distance <= 0x0800 && distance <= |out| && 0 <= tr < 4
    requires HoldsAt(s, ip, MatchBytes(length, distance, tr)) && e == ip + |MatchBytes(length, distance, tr)|
    ensures DecodeMatch(s, ip + 1, out, s[ip]) == AfterMatch(s, e, CopyForward(out, distance, length))
  {
    M2Bytes(s, ip, length, distance, tr);
    assert e == ip + 2;
    M2Step(s, ip, out, length, distance, tr);
  }

  /** M3 round trip: the instruction written at lines 360-376, read at lines
      125-144, copies the same length from the same distance. */
  lemma {:induction false} M3Decodes(s: seq<byte>, ip: nat, out: seq<byte>, length: int, distance: int, tr: int, e: nat)
    requires ValidMatch(length, distance) && !(length <= 8 && distance <= 0x0800) && distance <= 0x4000
    requires distance <= |out| && 0 <= tr < 4
    requires HoldsAt(s, ip, MatchBytes(length, distance, tr)) && e == ip + |MatchBytes(length, distance, tr)|
    ensures DecodeMatch(s, ip + 1, out, s[ip]) == AfterMatch(s, e, CopyForward(out, distance, length))
  {
    var w := MatchBytes(length, distance, tr);
    assert w == M3Header(length) + OffsetBytes(distance - 1, tr);
    M3Fields(s, ip, length, distance, tr);
    var ip1 := ip + |M3Header(length)|;
    assert e == ip1 + 2;
    M3Step(s, ip, out, distance, ip1, length);
  }

  /** M4 round trip: the instruction written at lines 377-398, read at lines
      145-169, copies the same length from the same distance. The distance is
      above 0x4000, so the end test does not fire. */
  lemma {:induction false} M4Decodes(s: seq<byte>, ip: nat, out: seq<byte>, length: int, distance: int, tr: int, e: nat)
    requires ValidMatch(length, distance) && distance > 0x4000
    requires distance <= |out| && 0 <= tr < 4
    requires HoldsAt(s, ip, MatchBytes(length, distance, tr)) && e == ip + |MatchBytes(length, distance, tr)|
    ensures DecodeMatch(s, ip + 1, out, s[ip]) == AfterMatch(s, e, CopyForward(out, distance, length))
  {
    var w := MatchBytes(length, distance, tr);
    assert w == M4Header(length, distance) + OffsetBytes(distance - 0x4000, tr);
    M4Fields(s, ip, length, distance, tr);
    var ip1 := ip + |M4Header(length, distance)|;
    assert e == ip1 + 2;
    M4Step(s, ip, out, distance, ip1, length);
  }

  /** The end marker 17, 0, 0 ends the decode with the output so far. */
  lemma {:induction false} EndMarkerDecodes(s: seq<byte>, ip: nat, out: seq<byte>)
    requires HoldsAt(s, ip, END_MARKER)
    ensures ip < |s| && s[ip] == 17
    ensures DecodeMatch(s, ip + 1, out, s[ip]) == Ok(out)
  {
    EndMarkerFields(s, ip);
    EndMarkerStep(s, ip, out);
  }

  /** Any match the encoder writes decodes to the copy it stands for, and the
      low two bits of its second-to-last byte read back as the count of
      literals after it. */
  lemma {:induction false} MatchDecodes(s: seq<byte>, ip: nat, out: seq<byte>, length: int, distance: int, tr: int, e: nat)
    requires ValidMatch(length, distance) && distance <= |out| && 0 <= tr < 4
    requires HoldsAt(s, ip, MatchBytes(length, distance, tr)) && e == ip + |MatchBytes(length, distance, tr)|
    ensures ip + 2 <= e <= |s| && s[ip] >= 16 && s[e - 2] % 4 == tr
    ensures DecodeMatch(s, ip + 1, out, s[ip]) == AfterMatch(s, e, CopyForward(out, distance, length))
  {
    TrailerFields(s, ip, length, distance, tr, e);
    if length <= 8 && distance <= 0x0800 {
      M2Decodes(s, ip, out, length, distance, tr, e);
    } else if distance <= 0x4000 {
      M3Decodes(s, ip, out, length, distance, tr, e);
    } else {
      M4Decodes(s, ip, out, length, distance, tr, e);
    }
  }
}
