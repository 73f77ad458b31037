/** The LZO class of src/index.ts: one object whose fields the decoder and
    the encoder update as they go. The decoder methods are proved to compute
    what the decoder functions of module Decoding compute; the encoder methods
    keep a ghost list of the pieces they have emitted, which the decoder is
    proved to turn back into the input. */
module Codec {
  import opened Format
  import opened Decoding
  import opened DecoderSteps
  import opened Stream
  import opened Encoding

  /** The length of the array extendBuffer allocates (lines 61-63):
      minNewSize rounded up past the next multiple of blockSize. */
  function GrownSize(minNewSize: int, blockSize: int): (r: int)
    requires minNewSize >= 0 && blockSize > 0
    ensures minNewSize < r <= minNewSize + blockSize
  {
    minNewSize + (blockSize - minNewSize % blockSize)
  }

  /** The grown length is a whole number of blocks. */
  lemma GrownSizeMultiple(minNewSize: int, blockSize: int)
    requires minNewSize >= 0 && blockSize > 0
    ensures GrownSize(minNewSize, blockSize) % blockSize == 0
  {
    var q := minNewSize / blockSize;
    assert minNewSize == blockSize * q + minNewSize % blockSize;
    assert GrownSize(minNewSize, blockSize) == blockSize * (q + 1);
    MultipleMod(blockSize, q + 1);
  }

  lemma MultipleMod(b: int, k: int)
    requires b > 0
    ensures (b * k) % b == 0
  {
    var r, m := (b * k) % b, k - (b * k) / b;
    assert b * m == r by {
      assert b * k == b * ((b * k) / b) + r;
    }
  }

  class LZO {
    var blockSize: int
    var minNewSize: int
    var maxSize: int
    var out: array<byte>
    var cbl: int
    var t: int
    var inputPointer: int
    var outputPointer: int
    var matchPosition: int
    var dictionary: array<int>
    var skipToFirstLiteralFunc: bool
    var buffer: seq<byte>
    var ipStart: int
    var ipEnd: int
    var index2: int
    var ti: int
    var ll: int
    /** The pieces the encoder has emitted so far. */
    ghost var pieces: seq<Piece>

    /** The field initializers (lines 10-58). */
    constructor ()
      ensures blockSize == 128 * 1024 && minNewSize == blockSize && maxSize == 0
      ensures fresh(out) && out.Length == 256 * 1024 && cbl == 0 && t == 0
      ensures inputPointer == 0 && outputPointer == 0 && matchPosition == 0
      ensures fresh(dictionary) && dictionary.Length == DICTIONARY_SIZE
      ensures !skipToFirstLiteralFunc && pieces == []
    {
      blockSize := 128 * 1024;
      minNewSize := 128 * 1024;
      maxSize := 0;
      out := new byte[256 * 1024](_ => 0);
      cbl := 0;
      t := 0;
      inputPointer := 0;
      outputPointer := 0;
      matchPosition := 0;
      dictionary := new int[DICTIONARY_SIZE](_ => 0);
      skipToFirstLiteralFunc := false;
      pieces := [];
    }

    /** The blockSize setter (lines 16-20): a value of 0 or less is refused
        and leaves the block size as it was. */
    method SetBlockSize(value: int) returns (r: Result<()>)
      modifies this`blockSize
      ensures value <= 0 ==> r == Fail(NonPositiveBlockSize) && blockSize == old(blockSize)
      ensures value > 0 ==> r == Ok(()) && blockSize == value
    {
      if value <= 0 {
        return Fail(NonPositiveBlockSize);
      }
      blockSize := value;
      r := Ok(());
    }

    // The decoder.

    /** What the decoder methods need of the state. */
    predicate Ready()
      reads this
    {
      && blockSize > 0
      && cbl == out.Length
      && 0 <= inputPointer <= |buffer|
      && 0 <= outputPointer <= out.Length
    }

    /** The bytes decoded so far. */
    function Output(): seq<byte>
      reads this`out, this`outputPointer, out
      requires 0 <= outputPointer <= out.Length
    {
      out[..outputPointer]
    }

    /** extendBuffer (lines 60-69): a zero-filled array of GrownSize bytes
        that starts with the old contents replaces out. */
    method ExtendBuffer()
      requires blockSize > 0 && minNewSize >= 0 && out.Length <= GrownSize(minNewSize, blockSize)
      modifies this`out, this`cbl
      ensures fresh(out) && out.Length == GrownSize(minNewSize, blockSize) && cbl == out.Length
      ensures out[..old(out.Length)] == old(out[..])
      ensures forall i | old(out.Length) <= i < out.Length :: out[i] == 0
    {
      var newBuffer := new byte[GrownSize(minNewSize, blockSize)](_ => 0);
      forall i | 0 <= i < out.Length {
        newBuffer[i] := out[i];
      }
      out := newBuffer;
      cbl := out.Length;
    }

    /** The capacity check before every run of writes (lines 72-74, 96-99,
        107-110, 174-178, 251-255): minNewSize is set to the output position
        plus n, and out grows when that exceeds cbl. */
    method Reserve(n: int)
      requires Ready() && n >= 0
      modifies this`minNewSize, this`out, this`cbl
      ensures Ready() && (out == old(out) || fresh(out))
      ensures minNewSize == outputPointer + n <= out.Length
      ensures Output() == old(Output())
    {
      minNewSize := outputPointer + n;
      if minNewSize > cbl {
        ExtendBuffer();
        assert out[..outputPointer] == old(out[..outputPointer]);
      }
    }

    /** The input byte at inputPointer appended to the output: one more literal of
        a run that started at input position i0, on the output o0. */
    method CopyLiteralByte(ghost o0: seq<byte>, ghost i0: int)
      requires Ready() && outputPointer < out.Length && 0 <= i0 <= inputPointer < |buffer|
      requires Output() == o0 + buffer[i0..inputPointer]
      modifies this`outputPointer, this`inputPointer, out
      ensures Ready() && outputPointer == old(outputPointer) + 1 && inputPointer == old(inputPointer) + 1
      ensures Output() == o0 + buffer[i0..inputPointer]
    {
      out[outputPointer] := buffer[inputPointer];
      assert Output() + [buffer[inputPointer]] == out[..outputPointer + 1];
      assert buffer[i0..inputPointer + 1] == buffer[i0..inputPointer] + [buffer[inputPointer]];
      outputPointer, inputPointer := outputPointer + 1, inputPointer + 1;
    }

    /** matchNext (lines 71-86): the t (1 to 3) literals after a match, then
        the next control byte into t. It fails when the input ends first. */
    method MatchNext() returns (ok: bool)
      requires Ready() && 1 <= t <= 3
      modifies this`minNewSize, this`out, this`cbl, this`outputPointer, this`inputPointer, this`t, out
      ensures Ready() && (out == old(out) || fresh(out))
      ensures ok <==> old(inputPointer + t) < |buffer|
      ensures ok ==>
        && inputPointer == old(inputPointer + t) + 1
        && Output() == old(Output()) + buffer[old(inputPointer)..old(inputPointer + t)]
        && t == buffer[old(inputPointer + t)]
    {
      if inputPointer + t >= |buffer| {
        return false;
      }
      ghost var o0, i0 := Output(), inputPointer;
      Reserve(3);
      assert Output() == o0 + buffer[i0..inputPointer];
      CopyLiteralByte(o0, i0);
      if t > 1 {
        CopyLiteralByte(o0, i0);
        if t > 2 {
          CopyLiteralByte(o0, i0);
        }
      }
      t := buffer[inputPointer];
      inputPointer := inputPointer + 1;
      ok := true;
    }

    /** matchDone (lines 88-92): the literal count in the low two bits of the
        byte two back. */
    method MatchDone() returns (r: int)
      requires 2 <= inputPointer <= |buffer|
      modifies this`t
      ensures r == t == buffer[inputPointer - 2] % 4
    {
      t := buffer[inputPointer - 2] % 4;
      return t;
    }

    /** copyMatch (lines 94-104): t + 2 bytes copied forward, one at a time,
        from matchPosition; an overlapping copy repeats the period. */
    method CopyMatch()
      requires Ready() && 0 <= matchPosition < outputPointer && t >= 0
      modifies this`t, this`minNewSize, this`out, this`cbl, this`outputPointer, this`matchPosition, out
      ensures Ready() && (out == old(out) || fresh(out))
      ensures Output() == CopyForward(old(Output()), old(outputPointer - matchPosition), old(t) + 2)
      ensures outputPointer == old(outputPointer + t) + 2 && matchPosition == old(matchPosition + t) + 2
      ensures t == 0
    {
      ghost var o0, d := Output(), outputPointer - matchPosition;
      t := t + 2;
      Reserve(t);
      ghost var k: nat := 0;
      while t > 0
        modifies this`outputPointer, this`matchPosition, this`t, out
        invariant Ready() && 0 <= t && outputPointer + t <= out.Length
        invariant k + t == old(t) + 2 && outputPointer == |o0| + k && matchPosition == outputPointer - d
        invariant Output() == CopyForward(o0, d, k)
        decreases t
      {
        CopyByte(o0, d, k);
        matchPosition, t, k := matchPosition + 1, t - 1, k + 1;
      }
    }

    /** copyFromBuffer (lines 106-115): t literals from the input. It fails
        when the input ends first. */
    method CopyFromBuffer() returns (ok: bool)
      requires Ready() && t >= 1
      modifies this`t, this`minNewSize, this`out, this`cbl, this`outputPointer, this`inputPointer, out
      ensures Ready() && (out == old(out) || fresh(out))
      ensures ok <==> old(inputPointer + t) <= |buffer|
      ensures ok ==>
        && inputPointer == old(inputPointer + t)
        && Output() == old(Output()) + buffer[old(inputPointer)..inputPointer]
        && t == 0
    {
      if inputPointer + t > |buffer| {
        return false;
      }
      ghost var o0, i0 := Output(), inputPointer;
      Reserve(t);
      assert Output() == o0 + buffer[i0..inputPointer];
      while t > 0
        modifies this`outputPointer, this`inputPointer, this`t, out
        invariant Ready() && 0 <= t && outputPointer + t <= out.Length && inputPointer + t == i0 + old(t)
        invariant i0 <= inputPointer && Output() == o0 + buffer[i0..inputPointer]
        decreases t
      {
        CopyLiteralByte(o0, i0);
        t := t - 1;
      }
      ok := true;
    }

    /** The output byte at matchPosition appended to the output: one more byte of a copy
        from d back that started on the output s. */
    method CopyByte(ghost s: seq<byte>, ghost d: int, ghost k: nat)
      requires Ready() && outputPointer < out.Length && 1 <= d <= |s| && matchPosition == outputPointer - d
      requires out[..outputPointer] == CopyForward(s, d, k)
      modifies this`outputPointer, out
      ensures Ready() && outputPointer == old(outputPointer) + 1
      ensures out[..outputPointer] == CopyForward(s, d, k + 1)
    {
      CopyForwardStep(s, d, k);
      out[outputPointer] := out[matchPosition];
      outputPointer := outputPointer + 1;
    }

    /** The short copies of lines 180-181 and 257-259, after the capacity
        check: n (2 or 3) bytes copied forward from matchPosition, which ends
        on the last byte copied. */
    method CopyShort(n: int)
      requires Ready() && 0 <= matchPosition < outputPointer && 2 <= n <= 3 && outputPointer + n <= out.Length
      modifies this`outputPointer, this`matchPosition, out
      ensures Ready()
      ensures Output() == CopyForward(old(Output()), old(outputPointer - matchPosition), n)
      ensures outputPointer == old(outputPointer) + n && matchPosition == old(matchPosition) + n - 1
    {
      ghost var o0, d := Output(), outputPointer - matchPosition;
      CopyByte(o0, d, 0);
      matchPosition := matchPosition + 1;
      CopyByte(o0, d, 1);
      if n == 3 {
        matchPosition := matchPosition + 1;
        CopyByte(o0, d, 2);
      }
    }

    /** An M2 instruction, t >= 64 (lines 119-124): three length bits and
        three offset bits in t, eight more offset bits in the next byte. */
    method ReadM2(ghost g: Result<seq<byte>>) returns (r: MatchEnd)
      requires Ready() && 1 <= inputPointer && 64 <= t < 256
      requires g == DecodeMatch(buffer, inputPointer, Output(), t as byte)
      modifies this`t, this`matchPosition, this`inputPointer
      ensures Ready() && !r.Finished?
      ensures r.Resume? ==> inputPointer > old(inputPointer)
      ensures Pending(g, r,
                      buffer, inputPointer, Output(), matchPosition, t + 2)
    {
      var ip, mp, n := inputPointer, matchPosition, t;
      var ipEnd := ip;
      if ip == |buffer| {
        r := Failed(TruncatedInput);
      } else {
        mp := outputPointer - 1 - t / 4 % 8 - (buffer[ip] as int) * 8;
        ipEnd := ip + 1;
        n := t / 32 - 1;
        r := if mp < 0 then Failed(DistanceBeforeStart) else Resume;
      }
      ReadM2Step(g, buffer, ip, Output(), t as byte, mp, r, ipEnd, n + 2);
      matchPosition, inputPointer, t := mp, ipEnd, n;
    }

    /** An M3 instruction, 32 <= t < 64 (lines 125-144): a length field in the
        low five bits of t, then fourteen offset bits in two bytes. */
    method ReadM3(ghost g: Result<seq<byte>>) returns (r: MatchEnd)
      requires Ready() && 1 <= inputPointer && 32 <= t < 64
      requires g == DecodeMatch(buffer, inputPointer, Output(), t as byte)
      modifies this`t, this`matchPosition, this`inputPointer
      ensures Ready()
      ensures r.Resume? ==> inputPointer > old(inputPointer)
      ensures Pending(g, r, buffer, inputPointer, Output(), matchPosition, t + 2)
    {
      ghost var ip0, t0 := inputPointer, t as byte;
      t := t % 32;
      var ok := LengthField(31);
      if ok {
        r := ReadM3Offset(g, ip0, t0);
      } else {
        MatchLengthFails(buffer, ip0, Output(), t0, TruncatedInput);
        r := Failed(TruncatedInput);
      }
    }

    /** The two offset bytes of an M3 instruction t0 read at ip0, after its
        length field (lines 137-142). */
    method ReadM3Offset(ghost g: Result<seq<byte>>, ghost ip0: nat, ghost t0: byte) returns (r: MatchEnd)
      requires Ready() && 1 <= ip0 <= inputPointer && 32 <= t0 < 64
      requires g == DecodeMatch(buffer, ip0, Output(), t0)
      requires ExtendedLength(buffer, ip0, t0 % 32, 31) == Ok((t, inputPointer))
      modifies this`matchPosition, this`inputPointer
      ensures Ready()
      ensures r.Resume? ==> inputPointer > old(inputPointer)
      ensures Pending(g, r, buffer, inputPointer, Output(), matchPosition, t + 2)
    {
      var ip, mp := inputPointer, matchPosition;
      var ipEnd := ip;
      if ip + 2 > |buffer| {
        r := Failed(TruncatedInput);
      } else {
        mp := outputPointer - 1 - buffer[ip] / 4 - (buffer[ip + 1] as int) * 64;
        ipEnd := ip + 2;
        r := if mp < 0 then Failed(DistanceBeforeStart) else Resume;
      }
      ReadM3Step(g, buffer, ip0, Output(), t0, t, ip, mp, r, ipEnd, t + 2);
      matchPosition, inputPointer := mp, ipEnd;
    }

    /** An M4 instruction, 16 <= t < 32 (lines 145-169): offset bit 14 in bit
        3 of t, a length field in its low three bits, fourteen more offset
        bits in two bytes. An offset of zero is the end marker: the output so
        far is the result. */
    method ReadM4(ghost g: Result<seq<byte>>) returns (r: MatchEnd)
      requires Ready() && 1 <= inputPointer && 16 <= t < 32
      requires g == DecodeMatch(buffer, inputPointer, Output(), t as byte)
      modifies this`t, this`matchPosition, this`inputPointer
      ensures Ready()
      ensures r.Resume? ==> inputPointer > old(inputPointer)
      ensures Pending(g, r, buffer, inputPointer, Output(), matchPosition, t + 2)
    {
      ghost var ip0, t0 := inputPointer, t as byte;
      matchPosition := outputPointer - (t / 8 % 2) * 16384;
      t := t % 8;
      var ok := LengthField(7);
      if ok {
        r := ReadM4Offset(g, ip0, t0);
      } else {
        MatchLengthFails(buffer, ip0, Output(), t0, TruncatedInput);
        r := Failed(TruncatedInput);
      }
    }

    /** The two offset bytes of an M4 instruction t0 read at ip0, after its
        length field (lines 159-169). */
    method ReadM4Offset(ghost g: Result<seq<byte>>, ghost ip0: nat, ghost t0: byte) returns (r: MatchEnd)
      requires Ready() && 1 <= ip0 <= inputPointer && 16 <= t0 < 32
      requires g == DecodeMatch(buffer, ip0, Output(), t0)
      requires ExtendedLength(buffer, ip0, t0 % 8, 7) == Ok((t, inputPointer))
      requires matchPosition == outputPointer - (t0 / 8 % 2) * 16384
      modifies this`matchPosition, this`inputPointer
      ensures Ready()
      ensures r.Resume? ==> inputPointer > old(inputPointer)
      ensures Pending(g, r, buffer, inputPointer, Output(), matchPosition, t + 2)
    {
      var ip, mp := inputPointer, matchPosition;
      var ipEnd, mpEnd := ip, mp;
      if ip + 2 > |buffer| {
        r := Failed(TruncatedInput);
      } else {
        mp := mp - (buffer[ip] / 4 + (buffer[ip + 1] as int) * 64);
        ipEnd, mpEnd := ip + 2, mp;
        if mp == outputPointer {
          r := Finished(out[..outputPointer]);
        } else {
          mpEnd := mp - 0x4000;
          r := if mpEnd < 0 then Failed(DistanceBeforeStart) else Resume;
        }
      }
      ReadM4Step(g, buffer, ip0, Output(), t0, t, ip, mp, r, ipEnd, mpEnd, t + 2);
      matchPosition, inputPointer := mpEnd, ipEnd;
    }

    /** An M1 instruction after a match, t < 16 (lines 171-172): a two-byte
        copy from at most 1024 back. */
    method ReadM1(ghost g: Result<seq<byte>>) returns (r: MatchEnd)
      requires Ready() && 1 <= inputPointer && 0 <= t < 16
      requires g == DecodeMatch(buffer, inputPointer, Output(), t as byte)
      modifies this`matchPosition, this`inputPointer
      ensures Ready() && !r.Finished?
      ensures r.Resume? ==> inputPointer > old(inputPointer)
      ensures Pending(g, r,
                      buffer, inputPointer, Output(), matchPosition, 2)
    {
      var ip, mp := inputPointer, matchPosition;
      var ipEnd := ip;
      if ip == |buffer| {
        r := Failed(TruncatedInput);
      } else {
        mp := outputPointer - 1 - t / 4 - (buffer[ip] as int) * 4;
        ipEnd := ip + 1;
        r := if mp < 0 then Failed(DistanceBeforeStart) else Resume;
      }
      ReadM1Step(g, buffer, ip, Output(), t as byte, mp, r, ipEnd);
      matchPosition, inputPointer := mp, ipEnd;
    }

    /** The instruction t read by its kind (lines 118-172): the reader
        chosen by its top bits. */
    method ReadInstruction(ghost g: Result<seq<byte>>) returns (r: MatchEnd, ghost n: int)
      requires Ready() && 1 <= inputPointer && 0 <= t < 256
      requires g == DecodeMatch(buffer, inputPointer, Output(), t as byte)
      modifies this`t, this`matchPosition, this`inputPointer
      ensures Ready()
      ensures r.Resume? ==> inputPointer > old(inputPointer)
      ensures n == if old(t) < 16 then 2 else t + 2
      ensures Pending(g, r, buffer, inputPointer, Output(), matchPosition, n)
    {
      if t >= 64 {
        r := ReadM2(g);
        n := t + 2;
      } else if t >= 32 {
        r := ReadM3(g);
        n := t + 2;
      } else if t >= 16 {
        r := ReadM4(g);
        n := t + 2;
      } else {
        r := ReadM1(g);
        n := 2;
      }
    }

    /** One turn of match's loop up to matchDone (lines 119-182): the
        instruction t is read and its bytes copied forward. */
    method Instruction(ghost g: Result<seq<byte>>) returns (r: MatchEnd)
      requires Ready() && 1 <= inputPointer && 0 <= t < 256
      requires g == DecodeMatch(buffer, inputPointer, Output(), t as byte)
      modifies this`t, this`minNewSize, this`out, this`cbl, this`outputPointer, this`matchPosition, this`inputPointer, out
      ensures Ready() && (out == old(out) || fresh(out))
      ensures r.Resume? ==> inputPointer > old(inputPointer)
      ensures Settled(g, r, buffer, inputPointer, Output())
    {
      var short := t < 16;
      ghost var n;
      r, n := ReadInstruction(g);
      ghost var o1, d := Output(), outputPointer - matchPosition;
      if r.Resume? {
        if short {
          Reserve(2);
          CopyShort(2);
        } else {
          CopyMatch();
        }
        assert g == AfterMatch(buffer, inputPointer, CopyForward(o1, d, n));
      }
    }

    /** The end of a turn of match's loop (lines 184-188): matchDone, then
        the next instruction unless no literals follow. */
    method EndTurn() returns (more: bool, r: MatchEnd)
      requires Ready() && 2 <= inputPointer
      modifies this`t, this`minNewSize, this`out, this`cbl, this`outputPointer, this`inputPointer, out
      ensures Ready() && (out == old(out) || fresh(out))
      ensures more ==> inputPointer > old(inputPointer)
      ensures r.Resume? ==> inputPointer >= old(inputPointer)
      ensures Turned(old(AfterMatch(buffer, inputPointer, Output())), more, r, buffer, inputPointer, Output(), t)
    {
      ghost var s1, ip1, o1 := buffer, inputPointer, Output();
      MatchDoneStep(s1, ip1, o1);
      var n := MatchDone();
      if n == 0 {
        return false, Resume;
      }
      var ok := MatchNext();
      if !ok {
        return false, Failed(TruncatedInput);
      }
      assert inputPointer == ip1 + n + 1 && Output() == o1 + s1[ip1..ip1 + n] && t == s1[ip1 + n];
      more, r := true, Resume;
    }

    /** match (lines 117-190): instructions one after another, each followed
        by the literals its last byte announces, until one with no literals
        after it returns to the main loop of decompressBuffer, or the end
        marker ends the decode. */
    method Match() returns (r: MatchEnd)
      requires Ready() && 1 <= inputPointer && 0 <= t < 256
      modifies this`t, this`minNewSize, this`out, this`cbl, this`outputPointer, this`matchPosition, this`inputPointer, out
      ensures Ready() && (out == old(out) || fresh(out))
      ensures r.Resume? ==> inputPointer > old(inputPointer)
      ensures Ended(old(DecodeMatch(buffer, inputPointer, Output(), t as byte)), r, buffer, inputPointer, Output())
    {
      ghost var g := DecodeMatch(buffer, inputPointer, Output(), t as byte);
      while true
        invariant Ready() && 1 <= inputPointer && 0 <= t < 256
        invariant out == old(out) || fresh(out)
        invariant inputPointer >= old(inputPointer)
        invariant g == DecodeMatch(buffer, inputPointer, Output(), t as byte)
        decreases |buffer| - inputPointer
      {
        r := Instruction(g);
        if !r.Resume? {
          return;
        }
        var more;
        more, r := EndTurn();
        if !more {
          return;
        }
      }
    }

    /** The top of decompressBuffer's main loop when no literal copy is
        pending (lines 222-243): a control byte of 16 or more is a match,
        anything less a literal run, whose length field continues when it is
        zero; the run is copied. */
    method TopOfLoop() returns (copied: bool, r: MatchEnd)
      requires Ready()
      modifies this`t, this`minNewSize, this`out, this`cbl, this`outputPointer, this`matchPosition, this`inputPointer, out
      ensures Ready() && (out == old(out) || fresh(out))
      ensures copied || r.Resume? ==> inputPointer > old(inputPointer)
      ensures ToppedOff(old(DecodeLoop(buffer, inputPointer, Output(), false)), copied, r, buffer, inputPointer, Output())
    {
      ghost var ip0, o0 := inputPointer, Output();
      if inputPointer == |buffer| {
        LoopEnd(buffer, o0, false);
        return false, Failed(TruncatedInput);
      }
      t := buffer[inputPointer];
      inputPointer := inputPointer + 1;
      if t >= 16 {
        LoopToMatch(buffer, ip0, o0, false);
        copied := false;
        r := Match();
        return;
      }
      copied := LiteralRun(ip0, o0);
      r := if copied then Resume else Failed(TruncatedInput);
    }

    /** A literal run at the top of the main loop (lines 231-241): the length
        field after the control byte t read at ip0, then t + 3 input bytes
        copied; false when the input ends first. */
    method LiteralRun(ghost ip0: nat, ghost o0: seq<byte>) returns (copied: bool)
      requires Ready() && inputPointer == ip0 + 1 && ip0 < |buffer| && t == buffer[ip0] < 16 && o0 == Output()
      modifies this`t, this`minNewSize, this`out, this`cbl, this`outputPointer, this`inputPointer, out
      ensures Ready() && (out == old(out) || fresh(out))
      ensures copied ==> inputPointer > old(inputPointer)
      ensures ToppedOff(DecodeLoop(buffer, ip0, o0, false), copied, Failed(TruncatedInput), buffer, inputPointer, Output())
    {
      var ok := LengthField(15);
      if !ok {
        LoopLengthFails(buffer, ip0, o0, TruncatedInput);
        return false;
      }
      LoopLiteral(buffer, ip0, o0, t, inputPointer);
      t := t + 3;
      copied := CopyFromBuffer();
    }

    /** The three-byte match from more than 2048 back that a control byte
        below 16 stands for right after a literal run (lines 246-259); the
        control byte t was read at inputPointer - 1. */
    method FarCopy(ghost g: Result<seq<byte>>) returns (r: MatchEnd)
      requires Ready() && 1 <= inputPointer && t < 16 && t == buffer[inputPointer - 1]
      requires g == DecodeLoop(buffer, inputPointer - 1, Output(), true)
      modifies this`minNewSize, this`out, this`cbl, this`outputPointer, this`matchPosition, this`inputPointer, out
      ensures Ready() && (out == old(out) || fresh(out))
      ensures r.Resume? ==> inputPointer > old(inputPointer)
      ensures !r.Finished? && Settled(g, r, buffer, inputPointer, Output())
    {
      ghost var ip0, o0 := inputPointer - 1, Output();
      if inputPointer == |buffer| {
        LoopShortMatch(buffer, ip0, o0, 0);
        return Failed(TruncatedInput);
      }
      var mp := outputPointer - (1 + 0x0800);
      mp := mp - t / 4;
      mp := mp - (buffer[inputPointer] as int) * 4;
      LoopShortMatch(buffer, ip0, o0, mp);
      matchPosition, inputPointer := mp, inputPointer + 1;
      if matchPosition < 0 {
        return Failed(DistanceBeforeStart);
      }
      ghost var d := outputPointer - matchPosition;
      Reserve(3);
      CopyShort(3);
      assert g == AfterMatch(buffer, inputPointer, CopyForward(o0, d, 3));
      r := Resume;
    }

    /** The rest of a turn of decompressBuffer's main loop once a literal run
        has been copied (lines 244-267): a control byte below 16 is a far
        three-byte copy, then the literals it announces; then match(). */
    method AfterLiteralRun(ghost g: Result<seq<byte>>) returns (r: MatchEnd)
      requires Ready() && g == DecodeLoop(buffer, inputPointer, Output(), true)
      modifies this`t, this`minNewSize, this`out, this`cbl, this`outputPointer, this`matchPosition, this`inputPointer, out
      ensures Ready() && (out == old(out) || fresh(out))
      ensures r.Resume? ==> inputPointer > old(inputPointer)
      ensures Ended(g, r, buffer, inputPointer, Output())
    {
      if inputPointer == |buffer| {
        LoopEnd(buffer, Output(), true);
        return Failed(TruncatedInput);
      }
      ghost var ip0, o0 := inputPointer, Output();
      t := buffer[inputPointer];
      inputPointer := inputPointer + 1;
      if t < 16 {
        r := FarCopy(g);
        if !r.Resume? {
          return;
        }
        var more;
        more, r := EndTurn();
        if !more {
          return;
        }
      } else {
        LoopToMatch(buffer, ip0, o0, true);
      }
      r := Match();
    }

    /** The start of decompressBuffer (lines 206-219): a first byte above
        17 is a first literal run of that minus 17 bytes; fewer than four
        are followed at once by match(). */
    method Start(ghost g: Result<seq<byte>>) returns (r: MatchEnd)
      requires Ready() && inputPointer == 0 && Output() == [] && !skipToFirstLiteralFunc
      requires g == Decode(buffer)
      modifies this`t, this`inputPointer, this`outputPointer, this`matchPosition,
               this`skipToFirstLiteralFunc, this`minNewSize, this`out, this`cbl, out
      ensures Ready() && (out == old(out) || fresh(out))
      ensures Begun(g, r, buffer, inputPointer, Output(), skipToFirstLiteralFunc)
    {
      if |buffer| > 0 && buffer[inputPointer] > 17 {
        t := buffer[inputPointer] - 17;
        inputPointer := inputPointer + 1;
        if t < 4 {
          r := StartShort(g);
        } else {
          r := StartLong(g);
        }
      } else {
        DecodeStart(buffer);
        r := Resume;
      }
    }

    /** A first run of one to three literals (lines 209-214): copied by
        matchNext(), then match() at once. */
    method StartShort(ghost g: Result<seq<byte>>) returns (r: MatchEnd)
      requires Ready() && inputPointer == 1 && Output() == [] && !skipToFirstLiteralFunc
      requires |buffer| > 0 && 17 < buffer[0] < 21 && t == buffer[0] - 17
      requires g == Decode(buffer)
      modifies this`t, this`inputPointer, this`outputPointer, this`matchPosition,
               this`minNewSize, this`out, this`cbl, out
      ensures Ready() && (out == old(out) || fresh(out))
      ensures Begun(g, r, buffer, inputPointer, Output(), skipToFirstLiteralFunc)
    {
      DecodeStartShort(buffer);
      var ok := MatchNext();
      if !ok {
        return Failed(TruncatedInput);
      }
      r := Match();
    }

    /** A first run of four literals or more (lines 215-218): copied by
        copyFromBuffer(), and the main loop skips its literal step once. */
    method StartLong(ghost g: Result<seq<byte>>) returns (r: MatchEnd)
      requires Ready() && inputPointer == 1 && Output() == [] && !skipToFirstLiteralFunc
      requires |buffer| > 0 && buffer[0] >= 21 && t == buffer[0] - 17
      requires g == Decode(buffer)
      modifies this`t, this`inputPointer, this`outputPointer, this`skipToFirstLiteralFunc,
               this`minNewSize, this`out, this`cbl, out
      ensures Ready() && (out == old(out) || fresh(out))
      ensures Begun(g, r, buffer, inputPointer, Output(), skipToFirstLiteralFunc)
    {
      DecodeStartLong(buffer);
      var ok := CopyFromBuffer();
      if !ok {
        return Failed(TruncatedInput);
      }
      skipToFirstLiteralFunc := true;
      r := Resume;
    }

    /** decompressBuffer (lines 192-269): the whole input decoded into out,
        from a fresh start; the result is what Decode says, the decoded
        bytes or how the input is malformed. */
    method DecompressBuffer(input: seq<byte>) returns (r: Result<seq<byte>>)
      requires blockSize > 0
      modifies this`buffer, this`ipEnd, this`cbl, this`t, this`inputPointer, this`outputPointer, this`matchPosition,
               this`skipToFirstLiteralFunc, this`minNewSize, this`out, out
      ensures r == Decode(input)
    {
      buffer := input;
      ipEnd := |buffer|;
      cbl := out.Length;
      t := 0;
      inputPointer := 0;
      outputPointer := 0;
      matchPosition := 0;
      skipToFirstLiteralFunc := false;
      ghost var g := Decode(buffer);
      var e := Start(g);
      if !e.Resume? {
        return Outcome(e);
      }
      while true
        invariant Ready() && buffer == input
        invariant out == old(out) || fresh(out)
        invariant g == DecodeLoop(buffer, inputPointer, Output(), skipToFirstLiteralFunc)
        decreases |buffer| - inputPointer
      {
        if !skipToFirstLiteralFunc {
          var copied;
          copied, e := TopOfLoop();
          if !copied {
            if !e.Resume? {
              return Outcome(e);
            }
            continue;
          }
        } else {
          skipToFirstLiteralFunc := false;
        }
        e := AfterLiteralRun(DecodeLoop(buffer, inputPointer, Output(), true));
        if !e.Resume? {
          return Outcome(e);
        }
      }
    }

    /** A length field (lines 128-135, 150-157 and 231-237): a t of zero is
        continued by 255 for every zero byte, then base plus the byte that
        ends the run. It fails when the input ends inside the run. */
    method LengthField(base: int) returns (ok: bool)
      requires 0 <= inputPointer <= |buffer| && t >= 0 && base >= 1
      modifies this`t, this`inputPointer
      ensures old(inputPointer) <= inputPointer <= |buffer|
      ensures ok ==> t >= 1
      ensures ExtendedLength(buffer, old(inputPointer), old(t), base)
           == if ok then Ok((t, inputPointer)) else Fail(TruncatedInput)
    {
      if t != 0 {
        return true;
      }
      while inputPointer < |buffer| && buffer[inputPointer] == 0
        invariant old(inputPointer) <= inputPointer <= |buffer|
        invariant t == 255 * (inputPointer - old(inputPointer))
        invariant CountZeros(buffer, old(inputPointer)) == inputPointer - old(inputPointer) + CountZeros(buffer, inputPointer)
        decreases |buffer| - inputPointer
      {
        CountZerosStep(buffer, inputPointer);
        t := t + 255;
        inputPointer := inputPointer + 1;
      }
      if inputPointer == |buffer| {
        return false;
      }
      t := t + base + buffer[inputPointer];
      inputPointer := inputPointer + 1;
      ok := true;
    }

    // The encoder.

    /** The encoder state: the pieces, the input and out up to outputPointer
        are Encoded. */
    ghost predicate Compressing()
      reads this`pieces, this`buffer, this`outputPointer, this`out, out
    {
      0 <= outputPointer <= out.Length && Encoded(pieces, buffer, out[..outputPointer], out.Length)
    }

    /** The byte b written at outputPointer, which moves on by one. */
    method Put(b: byte)
      requires 0 <= outputPointer < out.Length
      modifies this`outputPointer, out
      ensures outputPointer == old(outputPointer) + 1
      ensures Output() == old(Output()) + [b]
    {
      out[outputPointer] := b;
      outputPointer := outputPointer + 1;
    }

    /** The continuation bytes of a length (lines 321-326, 367-374, 387-394,
        448-455): a zero for every 255 taken off, then the remainder. */
    method EmitZeroRun(m: int)
      requires m >= 1 && 0 <= outputPointer && outputPointer + |ZeroRun(m)| <= out.Length
      modifies this`outputPointer, out
      ensures outputPointer == old(outputPointer) + |ZeroRun(m)|
      ensures Output() == old(Output()) + ZeroRun(m)
    {
      var tt := m;
      while tt > 255
        invariant 1 <= tt
        invariant 0 <= outputPointer && outputPointer + |ZeroRun(tt)| == old(outputPointer) + |ZeroRun(m)|
        invariant Output() + ZeroRun(tt) == old(Output()) + ZeroRun(m)
        decreases tt
      {
        assert ZeroRun(tt) == [0] + ZeroRun(tt - 255);
        assert Output() + ZeroRun(tt) == (Output() + [0]) + ZeroRun(tt - 255);
        tt := tt - 255;
        Put(0);
      }
      Put(tt);
    }

    /** A control byte `high` followed by the continuation bytes of m. */
    method EmitLongField(high: byte, m: int)
      requires m >= 1 && 0 <= outputPointer && outputPointer + 1 + |ZeroRun(m)| <= out.Length
      modifies this`outputPointer, out
      ensures outputPointer == old(outputPointer) + 1 + |ZeroRun(m)|
      ensures Output() == old(Output()) + ([high] + ZeroRun(m))
    {
      Put(high);
      EmitZeroRun(m);
    }

    /** A length field: n in the low bits of a control byte with high bits
        `high` when it fits, otherwise the control byte `high` and the
        continuation of n - base (lines 318-327, 364-375, 382-395, 445-456). */
    method EmitLengthField(high: int, n: int, base: int)
      requires 1 <= n && 1 <= base && 0 <= high && high + base < 256
      requires 0 <= outputPointer && outputPointer + |Format.LengthField(high, n, base)| <= out.Length
      modifies this`outputPointer, out
      ensures outputPointer == old(outputPointer) + |Format.LengthField(high, n, base)|
      ensures Output() == old(Output()) + Format.LengthField(high, n, base)
    {
      if n <= base {
        Put(high + n);
      } else {
        assert Format.LengthField(high, n, base) == [high as byte] + ZeroRun(n - base);
        EmitLongField(high, n - base);
      }
    }

    /** The copy, one byte at a time while a count n >= 1 runs down, of a
        literal run of n bytes from input position `from` up to `to`
        (lines 314-316, 329-331, 458-460). */
    method CopyRun(from: int, n: int, ghost to: int, ghost prefix: seq<byte>)
      requires 0 <= from && 1 <= n && to == from + n <= |buffer|
      requires 0 <= outputPointer && outputPointer + n <= out.Length && Output() == prefix
      modifies this`outputPointer, out
      ensures outputPointer == old(outputPointer) + n
      ensures Output() == prefix + buffer[from..to]
    {
      var i, k := from, n;
      while k > 0
        invariant 0 <= k && i == from + n - k
        invariant outputPointer == old(outputPointer) + (i - from)
        invariant Output() == prefix + buffer[from..i]
        decreases k
      {
        assert buffer[from..i + 1] == buffer[from..i] + [buffer[i]];
        Put(buffer[i]);
        i, k := i + 1, k - 1;
      }
    }

    /** The dictionary reset from the empty one (line 427): every slot
        back to 0. */
    method ClearDictionary()
      modifies dictionary
      ensures forall i | 0 <= i < dictionary.Length :: dictionary[i] == 0
    {
      forall i | 0 <= i < dictionary.Length {
        dictionary[i] := 0;
      }
    }

    /** The dictionary lookup of compressCore (lines 284-304): the hash of
        the four bytes at inputPointer picks a slot, whose entry (relative to
        ipStart) is the candidate matchPosition and is replaced by
        inputPointer; a match is found exactly when the four bytes at the
        candidate are the same. */
    method Probe() returns (found: bool)
      requires dictionary.Length == DICTIONARY_SIZE
      requires 0 <= ipStart < inputPointer && inputPointer + 4 <= |buffer|
      requires forall i | 0 <= i < DICTIONARY_SIZE :: 0 <= dictionary[i] < inputPointer - ipStart
      modifies this`matchPosition, dictionary
      ensures ipStart <= matchPosition < inputPointer
      ensures found <==> buffer[matchPosition..matchPosition + 4] == buffer[inputPointer..inputPointer + 4]
      ensures forall i | 0 <= i < DICTIONARY_SIZE :: 0 <= dictionary[i] <= inputPointer - ipStart
      ensures var h := Hash(buffer[inputPointer] as int + buffer[inputPointer + 1] as int * 256,
                            buffer[inputPointer + 2] as int + buffer[inputPointer + 3] as int * 256);
        && matchPosition == ipStart + old(dictionary[h])
        && dictionary[..] == old(dictionary[..])[h := inputPointer - ipStart]
    {
      var dvLo := buffer[inputPointer] as int + buffer[inputPointer + 1] as int * 256;
      var dvHi := buffer[inputPointer + 2] as int + buffer[inputPointer + 3] as int * 256;
      var dindex := Hash(dvLo, dvHi);
      matchPosition := ipStart + dictionary[dindex];
      dictionary[dindex] := inputPointer - ipStart;
      SameWord(buffer[inputPointer..inputPointer + 4], buffer[matchPosition..matchPosition + 4]);
      found := Int32(dvHi * 65536) + dvLo == Int32(Word(buffer[matchPosition..matchPosition + 4]));
    }

    /** The length of a match (lines 335-349): from 4, one more while the
        next bytes agree, stopping once the match reaches ipEnd. */
    method MatchLength() returns (length: int)
      requires 0 <= matchPosition < inputPointer < ipEnd && ipEnd + 20 <= |buffer|
      requires buffer[matchPosition..matchPosition + 4] == buffer[inputPointer..inputPointer + 4]
      ensures 4 <= length && inputPointer + length <= |buffer| - 15
      ensures length > 5 ==> inputPointer + length <= ipEnd
      ensures Repeats(buffer, matchPosition, inputPointer, length)
      ensures buffer[inputPointer + length] != buffer[matchPosition + length] || (length > 4 && inputPointer + length >= ipEnd)
    {
      length := 4;
      while buffer[inputPointer + length] == buffer[matchPosition + length]
        invariant 4 <= length && (length == 4 || inputPointer + length < ipEnd)
        invariant buffer[matchPosition..matchPosition + length] == buffer[inputPointer..inputPointer + length]
        decreases |buffer| - length
      {
        assert buffer[matchPosition..matchPosition + length + 1] == buffer[matchPosition..matchPosition + length] + [buffer[matchPosition + length]];
        assert buffer[inputPointer..inputPointer + length + 1] == buffer[inputPointer..inputPointer + length] + [buffer[inputPointer + length]];
        length := length + 1;
        if buffer[inputPointer + length] != buffer[matchPosition + length] || inputPointer + length >= ipEnd {
          break;
        }
      }
    }

    /** The two offset bytes of M3 and M4, off << 2 and off >> 6 as a
        Uint8Array keeps them (lines 377-378, 397-398). */
    method EmitOffset(off: int)
      requires 0 <= off && 0 <= outputPointer && outputPointer + 2 <= out.Length
      modifies this`outputPointer, out
      ensures outputPointer == old(outputPointer) + 2
      ensures Output() == old(Output()) + OffsetBytes(off, 0)
    {
      LowOffsetByte(off);
      Put((off * 4) % 256);
      Put((off / 64) % 256);
      assert old(Output()) + [((off * 4) % 256) as byte] + [((off / 64) % 256) as byte] == old(Output()) + OffsetBytes(off, 0);
    }

    /** An M2 match (lines 355-360): length - 1 and the low three bits of
        the offset in the control byte, the rest of the offset after it. */
    method EmitM2(length: int, distance: int)
      requires ValidMatch(length, distance) && length <= 8 && distance <= 0x0800
      requires 0 <= outputPointer && outputPointer + 2 <= out.Length
      modifies this`outputPointer, out
      ensures 0 <= outputPointer <= out.Length
      ensures Output() == old(Output()) + MatchBytes(length, distance, 0)
    {
      var matchOffset := distance - 1;
      Put((length - 1) * 32 + (matchOffset % 8) * 4);
      Put(matchOffset / 8);
      assert Output() == old(Output()) + [((length - 1) * 32 + (matchOffset % 8) * 4) as byte, (matchOffset / 8) as byte];
    }

    /** An M3 match (lines 361-378): the length field with high bits 32,
        then the two offset bytes of distance - 1. */
    method EmitM3(length: int, distance: int)
      requires ValidMatch(length, distance) && !(length <= 8 && distance <= 0x0800) && distance <= 0x4000
      requires 0 <= outputPointer && outputPointer + |MatchBytes(length, distance, 0)| <= out.Length
      modifies this`outputPointer, out
      ensures 0 <= outputPointer <= out.Length
      ensures Output() == old(Output()) + MatchBytes(length, distance, 0)
    {
      var matchOffset := distance - 1;
      EmitLengthField(32, length - 2, 31);
      EmitOffset(matchOffset);
      assert old(Output()) + M3Header(length) + OffsetBytes(matchOffset, 0)
          == old(Output()) + (M3Header(length) + OffsetBytes(matchOffset, 0));
    }

    /** An M4 match (lines 379-399): the length field with high bits 16 and
        bit 14 of the offset, then the two offset bytes of distance - 0x4000. */
    method EmitM4(length: int, distance: int)
      requires ValidMatch(length, distance) && distance > 0x4000
      requires 0 <= outputPointer && outputPointer + |MatchBytes(length, distance, 0)| <= out.Length
      modifies this`outputPointer, out
      ensures 0 <= outputPointer <= out.Length
      ensures Output() == old(Output()) + MatchBytes(length, distance, 0)
    {
      var matchOffset := distance - 0x4000;
      EmitLengthField(16 + M4Bit(distance), length - 2, 7);
      EmitOffset(matchOffset);
      assert old(Output()) + M4Header(length, distance) + OffsetBytes(matchOffset, 0)
          == old(Output()) + (M4Header(length, distance) + OffsetBytes(matchOffset, 0));
    }

    /** The match instruction (lines 355-399): M2 for a short match at most
        0x800 back, M3 up to 0x4000 back, M4 beyond. */
    method EmitMatch(length: int, distance: int)
      requires ValidMatch(length, distance)
      requires 0 <= outputPointer && outputPointer + |MatchBytes(length, distance, 0)| <= out.Length
      modifies this`outputPointer, out
      ensures 0 <= outputPointer <= out.Length
      ensures Output() == old(Output()) + MatchBytes(length, distance, 0)
    {
      if length <= 8 && distance <= 0x0800 {
        EmitM2(length, distance);
      } else if distance <= 0x4000 {
        EmitM3(length, distance);
      } else {
        EmitM4(length, distance);
      }
    }

    /** The OR into the output byte two before outputPointer (lines 311-312, 444): the count v (1 to
        3) of the literals after the last match, in its low bits. */
    method OrIntoLastMatch(v: int)
      requires Wellformed(pieces) && pieces != [] && 1 <= v <= 3
      requires 0 <= outputPointer <= out.Length && Output() == Emitted(pieces, 0)
      modifies out
      ensures Output() == Emitted(pieces, v)
    {
      EmittedTrailer(pieces, v);
      out[outputPointer - 2] := OrLow(out[outputPointer - 2], v);
      assert Output() == old(Output())[outputPointer - 2 := OrLow(old(Output())[outputPointer - 2], v)];
    }

    /** What precedes a literal run of v >= 1 bytes after a match (lines
        310-327): nothing but the count in the match for 1 to 3, a length
        instruction for more. */
    method EmitLiteralHeader(v: int)
      requires Wellformed(pieces) && 0 <= outputPointer <= out.Length && Output() == Emitted(pieces, 0)
      requires 1 <= v && (pieces == [] ==> v >= 4)
      requires 16 * (outputPointer + |LiteralHeader(v)| + v) <= 16 * out.Length
      modifies this`outputPointer, out
      ensures outputPointer == old(outputPointer) + |LiteralHeader(v)| && outputPointer + v <= out.Length
      ensures Output() == Emitted(pieces, v) + LiteralHeader(v)
    {
      if v <= 3 {
        OrIntoLastMatch(v);
      } else {
        EmittedNoTrailer(pieces, v);
        EmitLengthField(0, v - 3, 15);
      }
    }

    /** The literals before a match (lines 306-333): the input bytes from
        `from`, the first not yet emitted, up to p, after their header;
        nothing for no literals. */
    method EmitPending(from: int, p: int)
      requires Wellformed(pieces) && from == Produced(pieces) && 0 <= outputPointer <= out.Length && Output() == Emitted(pieces, 0)
      requires from <= p && p + 20 <= |buffer| && (pieces == [] ==> p - from >= 4)
      requires 17 * |buffer| + 68 <= 16 * out.Length
      modifies this`outputPointer, out
      ensures 0 <= outputPointer <= out.Length
      ensures Output() == Emitted(pieces, p - from) + LiteralHeader(p - from) + buffer[from..p]
    {
      if p == from {
        NoLiterals(pieces, buffer, from, p);
      } else {
        EmittedSize(pieces, 0);
        EmitRun(from, p);
      }
    }

    /** A run of the p - from >= 1 literals from `from`, after its header. */
    method EmitRun(from: int, p: int)
      requires Wellformed(pieces) && from == Produced(pieces) && 0 <= outputPointer <= out.Length && Output() == Emitted(pieces, 0)
      requires from < p && p + 20 <= |buffer| && (pieces == [] ==> p - from >= 4)
      requires 16 * outputPointer <= 17 * from && 17 * |buffer| + 68 <= 16 * out.Length
      modifies this`outputPointer, out
      ensures 0 <= outputPointer <= out.Length
      ensures Output() == Emitted(pieces, p - from) + LiteralHeader(p - from) + buffer[from..p]
    {
      LiteralHeaderSize(p - from);
      EmitLiteralHeader(p - from);
      CopyRun(from, p - from, p, Emitted(pieces, p - from) + LiteralHeader(p - from));
    }

    /** One match found at inputPointer (lines 306-399): the literals since
        the last match, then the match, as long as the input repeats, added
        to the pieces. */
    method EncodeMatch()
      requires Compressing() && 0 <= ti && Produced(pieces) == index2 - ti && index2 <= inputPointer
      requires 0 <= ipStart <= matchPosition < inputPointer < ipEnd <= ipStart + MAX_BLOCK && ipEnd + 20 <= |buffer|
      requires buffer[matchPosition..matchPosition + 4] == buffer[inputPointer..inputPointer + 4]
      requires pieces == [] ==> inputPointer >= 4
      modifies this`index2, this`ti, this`inputPointer, this`outputPointer, this`pieces, out
      ensures Compressing() && ti == 0 && Produced(pieces) == index2 == inputPointer
      ensures old(inputPointer) + 4 <= inputPointer < ipEnd + 5 && pieces != []
    {
      var p, mp := inputPointer, matchPosition;
      var length := MatchLength();
      EmitMatchStep(index2 - ti, p, mp, length);
    }

    /** The literals from `from` up to p, then the match of the given length
        at p: both emitted and added to the pieces. */
    method EmitMatchStep(from: int, p: int, mp: int, length: int)
      requires Compressing() && from == Produced(pieces) <= p && 4 <= length
      requires p + 20 <= |buffer| && p + length <= |buffer| && (pieces == [] ==> p - from >= 4)
      requires 0 <= mp < p < mp + MAX_BLOCK && Repeats(buffer, mp, p, length)
      modifies this`index2, this`ti, this`inputPointer, this`outputPointer, this`pieces, out
      ensures Compressing() && ti == 0 && Produced(pieces) == index2 == inputPointer == p + length && pieces != []
    {
      EmitPending(from, p);
      RecordMatch(from, p, mp, length);
    }

    /** The match of the given length at p, after the literals from `from`
        (lines 351-399): it joins the pieces, its bytes follow theirs, and
        encoding resumes after it. */
    method RecordMatch(from: int, p: int, mp: int, length: int)
      requires Wellformed(pieces) && from == Produced(pieces) <= p && 4 <= length && p + length <= |buffer|
      requires Expand(pieces) == buffer[..Produced(pieces)] && 17 * |buffer| + 68 <= 16 * out.Length
      requires 0 <= outputPointer <= out.Length && Output() == Emitted(pieces, p - from) + LiteralHeader(p - from) + buffer[from..p]
      requires 0 <= mp < p < mp + MAX_BLOCK && (pieces == [] ==> p >= 4)
      requires Repeats(buffer, mp, p, length)
      modifies this`index2, this`ti, this`inputPointer, this`outputPointer, this`pieces, out
      ensures Compressing() && ti == 0 && Produced(pieces) == index2 == inputPointer == p + length && pieces != []
    {
      var distance := p - mp;
      ghost var qs := pieces + [Piece(buffer[from..p], length, distance)];
      AppendMatch(buffer, pieces, qs, from, p, mp, length, distance);
      EmitMatchAfter(from, p, length, distance, qs);
      MatchRecorded(qs, buffer, Output(), out.Length, p + length);
      inputPointer := p + length;
      index2, ti := inputPointer, 0;
    }

    /** The match (length, distance) after the literals from `from` up to p
        (lines 355-399): its bytes follow theirs, and those emitted are now
        the bytes of qs, the pieces with the match added. */
    method EmitMatchAfter(from: int, p: int, length: nat, distance: nat, ghost qs: seq<Piece>)
      requires Wellformed(pieces) && 0 <= from <= p <= |buffer|
      requires 0 <= outputPointer <= out.Length && Output() == Emitted(pieces, p - from) + LiteralHeader(p - from) + buffer[from..p]
      requires qs == pieces + [Piece(buffer[from..p], length, distance)] && Wellformed(qs)
      requires 17 * Produced(qs) + 68 <= 16 * out.Length
      modifies this`outputPointer, this`pieces, out
      ensures pieces == qs && 0 <= outputPointer <= out.Length && Output() == Emitted(pieces, 0)
    {
      AppendMatchBytes(buffer, pieces, qs, from, p, length, distance);
      EmittedSize(qs, 0);
      EmitMatch(length, distance);
      pieces := qs;
    }

    /** compressCore (lines 271-403): one block of ll input bytes from
        inputPointer, t literals before it still unwritten. Every match the
        dictionary finds is written after the literals before it and added
        to the pieces; t is left as the count of the literals still
        unwritten at the end of the block. */
    method CompressCore()
      requires Compressing() && 0 <= t && Produced(pieces) == inputPointer - t
      requires 20 < ll <= MAX_BLOCK && inputPointer + ll <= |buffer|
      requires dictionary.Length == DICTIONARY_SIZE
      requires forall i | 0 <= i < DICTIONARY_SIZE :: dictionary[i] == 0
      modifies this`ipStart, this`ipEnd, this`index2, this`ti, this`inputPointer, this`matchPosition,
               this`outputPointer, this`t, this`pieces, out, dictionary
      ensures Compressing() && 0 <= t && Produced(pieces) == old(inputPointer) + ll - t
    {
      BeginBlock();
      ScanBlock();
      t := ll - (index2 - ipStart - ti);
    }

    /** The loop of compressCore (lines 281-400): probes from inputPointer
        on until ipEnd, each one keeping Scanning. */
    method ScanBlock()
      requires Scanning()
      modifies this`index2, this`ti, this`inputPointer, this`matchPosition, this`outputPointer, this`pieces, out, dictionary
      ensures Scanning()
    {
      while inputPointer < ipEnd
        invariant Scanning() && ipStart == old(ipStart) && ipEnd == old(ipEnd)
        invariant out == old(out) && dictionary == old(dictionary)
        decreases ipEnd - inputPointer
      {
        ScanStep();
      }
    }

    /** The set-up of compressCore (lines 272-279): the block starts at
        inputPointer, its last 20 bytes are not searched, the t literals
        before it are counted in ti, and the search starts at least four
        bytes into the literals and one byte further. */
    method BeginBlock()
      requires Compressing() && 0 <= t && Produced(pieces) == inputPointer - t
      requires 20 < ll <= MAX_BLOCK && inputPointer + ll <= |buffer|
      requires dictionary.Length == DICTIONARY_SIZE
      requires forall i | 0 <= i < DICTIONARY_SIZE :: dictionary[i] == 0
      modifies this`ipStart, this`ipEnd, this`index2, this`ti, this`inputPointer
      ensures Scanning() && ipStart == old(inputPointer)
    {
      var start, skip := inputPointer, if t < 4 then 4 - t else 0;
      var ip := start + skip + 1 + skip / 32;
      StartScan(pieces, buffer, out[..outputPointer], out.Length, dictionary[..], start, ll, t, ip);
      ipStart, ipEnd, index2, ti, inputPointer := start, start + ll - 20, start, t, ip;
    }

    /** What holds at the top of the loop of compressCore: the pieces are
        those of the input up to index2 - ti, the literals from there up to
        inputPointer are still unwritten, and every dictionary entry is a
        position of the block before inputPointer. */
    ghost predicate Scanning()
      reads this, out, dictionary
    {
      && 0 <= outputPointer <= out.Length && dictionary.Length == DICTIONARY_SIZE
      && Scanned(pieces, buffer, out[..outputPointer], out.Length, dictionary[..], ipStart, ipEnd, ll, index2, ti, inputPointer)
    }

    /** One turn of the loop of compressCore (lines 282-399): a dictionary
        probe at inputPointer, then either a skip ahead, longer the longer
        the run of unmatched bytes since index2, or the match found. */
    method ScanStep()
      requires Scanning() && inputPointer < ipEnd
      modifies this`index2, this`ti, this`inputPointer, this`matchPosition, this`outputPointer, this`pieces, out, dictionary
      ensures Scanning() && old(inputPointer) < inputPointer
    {
      var found := Probe();
      if !found {
        var ip := inputPointer + 1 + (inputPointer - index2) / 32;
        SkipScan(pieces, buffer, out[..outputPointer], out.Length, dictionary[..], ipStart, ipEnd, ll, index2, ti, inputPointer, ip);
        inputPointer := ip;
        return;
      }
      ghost var ps0, i0, t0, ip0 := pieces, index2, ti, inputPointer;
      EncodeMatch();
      MatchScan(ps0, pieces, buffer, out[..outputPointer], out.Length, dictionary[..], ipStart, ipEnd, ll, i0, t0, ip0, inputPointer);
    }

    /** compressBuffer (lines 405-468): the input in blocks of at most
        MAX_BLOCK bytes while more than 20 are left (and the block with the
        literals before it holds at least 32), then the unwritten literals
        and the end marker. The stream is the serialization of the pieces
        found and decodes back to the input. */
    method CompressBuffer(input: seq<byte>) returns (r: seq<byte>)
      requires dictionary.Length == DICTIONARY_SIZE
      modifies this`buffer, this`inputPointer, this`outputPointer, this`t, this`maxSize, this`out, this`ll,
               this`ipStart, this`ipEnd, this`index2, this`ti, this`matchPosition, this`pieces, out, dictionary
      ensures Wellformed(pieces) && Produced(pieces) <= |input|
      ensures Expand(pieces) + input[Produced(pieces)..] == input
      ensures r == Serialize(pieces, input[Produced(pieces)..])
      ensures 16 * |r| <= 17 * |input| + 68
      ensures |input| < 32 ==> pieces == []
    {
      BeginCompress(input);
      CompressBlocks();
      Finishing(pieces, buffer, Output(), out.Length, t);
      r := FinishStream();
      StreamDone(pieces, buffer, r, t);
    }

    /** The loop of compressBuffer (lines 420-436) and the literals it
        leaves (line 438): blocks of at most MAX_BLOCK bytes while more than
        20 are left and the block with the t literals before it holds at
        least 32; t is then every byte the pieces do not cover. */
    method CompressBlocks()
      requires Compressing() && inputPointer == 0 && t == 0 && pieces == [] && dictionary.Length == DICTIONARY_SIZE
      modifies this`inputPointer, this`t, this`ll, this`ipStart, this`ipEnd, this`index2, this`ti,
               this`matchPosition, this`outputPointer, this`pieces, out, dictionary
      ensures Compressing() && 0 <= t && Produced(pieces) + t == |buffer|
      ensures |buffer| < 32 ==> pieces == []
    {
      var bufferLength := |buffer|;
      while bufferLength > 20
        invariant Compressing()
        invariant 0 <= bufferLength && inputPointer + bufferLength == |buffer|
        invariant 0 <= t && Produced(pieces) == inputPointer - t
        invariant |buffer| < 32 ==> pieces == [] && inputPointer == 0
        decreases bufferLength
      {
        ll := if bufferLength <= MAX_BLOCK then bufferLength else MAX_BLOCK;
        if (t + ll) / 32 <= 0 {
          break;
        }
        CompressBlock();
        bufferLength := bufferLength - ll;
      }
      t := t + bufferLength;
    }

    /** The end of compressBuffer (lines 438-467): the final run of the t
        literals left, the end marker, and the bytes written. */
    method FinishStream() returns (r: seq<byte>)
      requires Compressing() && 0 <= t && Produced(pieces) + t == |buffer|
      modifies this`outputPointer, out
      ensures r == Emitted(pieces, t) + TailHeader(t, pieces == []) + buffer[Produced(pieces)..] + END_MARKER
    {
      FinalRunRoom(pieces, buffer, Output(), out.Length, t);
      EmitFinalRun(pieces == []);
      EmitEndMarker();
      r := out[..outputPointer];
    }

    /** The set-up of compressBuffer (lines 406-418): the input is taken as
        the buffer, nothing is read, written or pending yet, and out is
        replaced by a fresh array when it is shorter than maxSize. */
    method BeginCompress(input: seq<byte>)
      modifies this`buffer, this`inputPointer, this`outputPointer, this`t, this`maxSize, this`out, this`pieces
      ensures buffer == input && inputPointer == 0 && t == 0 && pieces == []
      ensures maxSize == MaxSize(|input|) && maxSize <= out.Length
      ensures out == old(out) || (fresh(out) && out.Length == maxSize)
      ensures Compressing()
    {
      buffer := input;
      inputPointer, outputPointer, t := 0, 0, 0;
      maxSize := MaxSize(|buffer|);
      if maxSize > out.Length {
        out := new byte[maxSize](_ => 0);
      }
      pieces := [];
    }

    /** One turn of the loop of compressBuffer (lines 421-435): a cleared
        dictionary, compressCore on the next ll bytes, and inputPointer
        moved past them; the literals compressCore left unwritten stay
        pending in t. */
    method CompressBlock()
      requires Compressing() && 0 <= t && Produced(pieces) == inputPointer - t
      requires 20 < ll <= MAX_BLOCK && inputPointer + ll <= |buffer| && dictionary.Length == DICTIONARY_SIZE
      modifies this`ipStart, this`ipEnd, this`index2, this`ti, this`inputPointer, this`matchPosition,
               this`outputPointer, this`t, this`pieces, out, dictionary
      ensures Compressing() && 0 <= t && Produced(pieces) == inputPointer - t
      ensures inputPointer == old(inputPointer) + ll
    {
      ClearDictionary();
      var previousInputPointer := inputPointer;
      CompressCore();
      inputPointer := previousInputPointer + ll;
    }

    /** The final literal run (lines 440-461): its count, then the run. */
    method EmitFinalRun(ghost first: bool)
      requires first == (pieces == [])
      requires Wellformed(pieces) && 0 <= t && Produced(pieces) + t == |buffer|
      requires 0 <= outputPointer <= out.Length && Output() == Emitted(pieces, 0) && (outputPointer == 0 <==> first)
      requires outputPointer + |TailHeader(t, first)| + t + 3 <= out.Length
      modifies this`outputPointer, out
      ensures 0 <= outputPointer && outputPointer + 3 <= out.Length
      ensures Output() == Emitted(pieces, t) + TailHeader(t, first) + buffer[Produced(pieces)..]
    {
      if t == 0 {
        NoFinalRun(pieces, buffer, t, first);
        return;
      }
      var index := |buffer| - t;
      EmitRunCount(t, first);
      CopyRun(index, t, |buffer|, Emitted(pieces, t) + TailHeader(t, first));
      FinalRunSlice(buffer, Produced(pieces), index, t);
    }

    /** The count of the final run of v literals (lines 441-456): the byte
        17 + v when nothing has been written yet and v <= 238, OR-ed into
        the last match for 1 to 3, otherwise a length instruction, as
        before any literal run. */
    method EmitRunCount(v: int, ghost first: bool)
      requires first == (pieces == [])
      requires Wellformed(pieces) && 1 <= v && 0 <= outputPointer <= out.Length && Output() == Emitted(pieces, 0)
      requires outputPointer == 0 <==> pieces == []
      requires outputPointer + |TailHeader(v, first)| + v <= out.Length
      modifies this`outputPointer, out
      ensures outputPointer == old(outputPointer) + |TailHeader(v, first)|
      ensures Output() == Emitted(pieces, v) + TailHeader(v, first)
    {
      if outputPointer == 0 && v <= 238 {
        Put(17 + v);
      } else {
        EmitLiteralHeader(v);
      }
    }

    /** The end marker (lines 463-465): an M4 instruction of distance 0. */
    method EmitEndMarker()
      requires 0 <= outputPointer && outputPointer + 3 <= out.Length
      modifies this`outputPointer, out
      ensures outputPointer == old(outputPointer) + 3
      ensures Output() == old(Output()) + END_MARKER
    {
      Put(17);
      Put(0);
      Put(0);
    }
  }

  /** The static compress (lines 475-478): a fresh LZO object per call. The
      stream decodes back to the input, is at most 17/16 of it plus 68/16
      bytes, and an input of fewer than 32 bytes is stored as one literal
      run: 17 + its length, the bytes, and the end marker. */
  method Compress(input: seq<byte>) returns (r: seq<byte>)
    ensures Decode(r) == Ok(input)
    ensures 16 * |r| <= 17 * |input| + 68
    ensures input == [] ==> r == [17, 0, 0]
    ensures 0 < |input| < 32 ==> r == [17 + |input|] + input + [17, 0, 0]
  {
    var lzo := new LZO();
    r := lzo.CompressBuffer(input);
    DecodeSerialize(lzo.pieces, input[Produced(lzo.pieces)..]);
  }

  /** The static decompress (lines 485-488): a fresh LZO object per call. */
  method Decompress(input: seq<byte>) returns (r: Result<seq<byte>>)
    ensures r == Decode(input)
  {
    var lzo := new LZO();
    r := lzo.DecompressBuffer(input);
  }
}
