/** What the encoder of src/index.ts (compressCore and compressBuffer) keeps
    true while it writes: the pieces it has emitted stay wellformed and expand
    to the input consumed so far, the bytes written are the emitted pieces, the
    output never outgrows 17/16 of the input, and the finished stream is the
    serialization of its pieces. */
module Encoding {
  import opened Format

  // Growing the list of pieces.

  lemma {:induction false} PrefixOfAppend(ps: seq<Piece>, p: Piece)
    ensures (ps + [p])[..|ps|] == ps && (ps + [p])[|ps|] == p
  {
  }

  /** A match found by the encoder may be appended to the pieces emitted
      so far: it stays wellformed and expands one more copy. */
  lemma {:induction false} AppendPiece(ps: seq<Piece>, p: Piece)
    requires Wellformed(ps) && ValidMatch(p.length, p.distance)
    requires p.distance <= Produced(ps) + |p.literals|
    requires ps == [] ==> |p.literals| >= 4
    ensures Wellformed(ps + [p])
    ensures Produced(ps + [p]) == Produced(ps) + |p.literals| + p.length
    ensures Expand(ps + [p]) == CopyForward(Expand(ps) + p.literals, p.distance, p.length)
  {
    var qs := ps + [p];
    PrefixOfAppend(ps, p);
    forall i | 0 <= i < |qs|
      ensures ValidMatch(qs[i].length, qs[i].distance)
      ensures qs[i].distance <= Produced(qs[..i]) + |qs[i].literals|
    {
      if i < |ps| {
        assert qs[..i] == ps[..i];
      }
    }
    assert |qs| > 0 ==> |qs[0].literals| >= 4 by {
      if |ps| > 0 {
        assert qs[0] == ps[0];
      }
    }
  }

  /** The bytes emitted for one more piece follow those of the pieces before
      it, whose last match now announces this piece's literal count. */
  lemma {:induction false} EmittedAppend(ps: seq<Piece>, p: Piece, next: int)
    requires Wellformed(ps + [p])
    ensures Wellformed(ps) && ValidMatch(p.length, p.distance)
    ensures Emitted(ps + [p], next)
         == Emitted(ps, |p.literals|) + LiteralHeader(|p.literals|) + p.literals
            + MatchBytes(p.length, p.distance, Trailer(next))
  {
    PrefixOfAppend(ps, p);
    WellformedPrefix(ps + [p], |ps|);
    assert ValidMatch((ps + [p])[|ps|].length, (ps + [p])[|ps|].distance);
  }

  /** Nothing is emitted for no pieces; at least a match for some. */
  lemma {:induction false} EmittedEmpty(ps: seq<Piece>, next: int)
    requires Wellformed(ps)
    ensures Emitted(ps, next) == [] <==> ps == []
  {
    if ps != [] {
      var last := ps[|ps| - 1];
      WellformedPrefix(ps, |ps| - 1);
      assert |MatchBytes(last.length, last.distance, Trailer(next))| >= 2;
    }
  }

  // The count of the literals after a match, OR-ed into its low two bits.

  /** The match bytes with a literal count tr are those with count 0 and tr
      added to the second-to-last byte, whose low two bits were zero. */
  lemma {:induction false} MatchBytesTrailer(length: int, distance: int, tr: int)
    requires ValidMatch(length, distance) && 0 <= tr < 4
    ensures var w := MatchBytes(length, distance, 0);
      && w[|w| - 2] % 4 == 0
      && MatchBytes(length, distance, tr) == w[|w| - 2 := OrLow(w[|w| - 2], tr)]
  {
  }

  /** OR-ing v into the second-to-last byte of pre + w changes that byte
      of w. */
  lemma {:induction false} UpdateLast2(pre: seq<byte>, w: seq<byte>, v: int)
    requires |w| >= 2 && 0 <= v < 4
    ensures var e := pre + w;
      && |e| >= 2 && e[|e| - 2] == w[|w| - 2]
      && e[|e| - 2 := OrLow(e[|e| - 2], v)] == pre + w[|w| - 2 := OrLow(w[|w| - 2], v)]
  {
    var e := pre + w;
    assert e[|e| - 2] == w[|w| - 2];
    assert e[|e| - 2 := OrLow(e[|e| - 2], v)] == pre + w[|w| - 2 := OrLow(w[|w| - 2], v)];
  }

  /** OR-ing v into the byte two before the end turns the bytes emitted with no literals after the
      last match into those with v (1 to 3) literals after it
      (lines 311-312 and 444). */
  lemma {:induction false} EmittedTrailer(ps: seq<Piece>, v: int)
    requires Wellformed(ps) && ps != [] && 1 <= v <= 3
    ensures |Emitted(ps, 0)| >= 2 && Emitted(ps, 0)[|Emitted(ps, 0)| - 2] % 4 == 0
    ensures Emitted(ps, v) == Emitted(ps, 0)[|Emitted(ps, 0)| - 2 := OrLow(Emitted(ps, 0)[|Emitted(ps, 0)| - 2], v)]
  {
    var init := ps[..|ps| - 1];
    var last := ps[|ps| - 1];
    WellformedPrefix(ps, |ps| - 1);
    assert ValidMatch(last.length, last.distance);
    var pre: seq<byte> := Emitted(init, |last.literals|) + LiteralHeader(|last.literals|) + last.literals;
    var w: seq<byte> := MatchBytes(last.length, last.distance, 0);
    var wv: seq<byte> := MatchBytes(last.length, last.distance, v);
    MatchBytesTrailer(last.length, last.distance, v);
    assert Emitted(ps, 0) == pre + w;
    assert Emitted(ps, v) == pre + wv;
    UpdateLast2(pre, w, v);
  }

  /** No literals, or four or more, leave the last match's low bits zero. */
  lemma {:induction false} EmittedNoTrailer(ps: seq<Piece>, v: int)
    requires Wellformed(ps) && (v == 0 || v >= 4)
    ensures Emitted(ps, v) == Emitted(ps, 0)
  {
  }

  // The whole stream.

  /** The bytes emitted for the first k pieces, followed by the stream from
      piece k on, make the whole stream. */
  lemma {:induction false} EmittedRest(ps: seq<Piece>, tail: seq<byte>, k: nat)
    requires Wellformed(ps) && k <= |ps|
    ensures Wellformed(ps[..k])
    ensures Emitted(ps[..k], NextLiterals(ps, k, tail)) + RestBytes(ps, k, tail) == Serialize(ps, tail)
    decreases k
  {
    WellformedPrefix(ps, k);
    if k > 0 {
      EmittedRest(ps, tail, k - 1);
      var p := ps[k - 1];
      var a := Emitted(ps[..k - 1], |p.literals|);
      var h := LiteralHeader(|p.literals|);
      var w := MatchBytes(p.length, p.distance, Trailer(NextLiterals(ps, k, tail)));
      var r := RestBytes(ps, k, tail);
      assert Emitted(ps[..k], NextLiterals(ps, k, tail)) == a + h + p.literals + w by {
        TakeLast(ps, k);
        EmittedAppend(ps[..k - 1], p, NextLiterals(ps, k, tail));
      }
      assert a + RestBytes(ps, k - 1, tail) == Serialize(ps, tail) by {
        assert NextLiterals(ps, k - 1, tail) == |p.literals|;
      }
      assert RestBytes(ps, k - 1, tail) == h + p.literals + w + r;
      Regroup(a, h, p.literals, w, r);
    }
  }

  /** No literals before a match: the bytes emitted stay as they are. */
  lemma {:induction false} NoLiterals(ps: seq<Piece>, input: seq<byte>, from: int, p: int)
    requires Wellformed(ps) && 0 <= from == p <= |input|
    ensures Emitted(ps, p - from) + LiteralHeader(p - from) + input[from..p] == Emitted(ps, 0)
  {
    assert input[from..p] == [];
  }

  /** No final run: nothing follows the bytes emitted for the pieces. */
  lemma {:induction false} NoFinalRun(ps: seq<Piece>, input: seq<byte>, n: int, first: bool)
    requires Wellformed(ps) && n == 0 && Produced(ps) == |input|
    ensures Emitted(ps, 0) == Emitted(ps, n) + TailHeader(n, first) + input[Produced(ps)..]
  {
    assert input[Produced(ps)..] == [];
  }

  /** The last n input bytes, counted from the end or from the start. */
  lemma {:induction false} FinalRunSlice(input: seq<byte>, produced: int, index: int, n: int)
    requires 0 <= produced == index && 0 <= n && index + n == |input|
    ensures input[index..|input|] == input[produced..]
  {
  }

  /** The pieces with a match just added, and their bytes emitted, are an
      encoding of the input so far. */
  lemma {:induction false} MatchRecorded(qs: seq<Piece>, input: seq<byte>, output: seq<byte>, size: int, produced: int)
    requires Wellformed(qs) && Produced(qs) == produced <= |input| && Expand(qs) == input[..produced]
    requires output == Emitted(qs, 0) && 17 * |input| + 68 <= 16 * size
    ensures Encoded(qs, input, output, size)
  {
  }

  lemma {:induction false} TakeLast<T>(s: seq<T>, k: nat)
    requires 0 < k <= |s|
    ensures s[..k] == s[..k - 1] + [s[k - 1]]
  {
  }

  lemma {:induction false} Regroup(a: seq<byte>, h: seq<byte>, l: seq<byte>, w: seq<byte>, r: seq<byte>)
    ensures a + (h + l + w + r) == a + h + l + w + r
  {
  }

  /** The stream the encoder finishes: everything emitted for the pieces,
      the count of the final run in the last match, then the final run. */
  lemma {:induction false} SerializeEmitted(ps: seq<Piece>, tail: seq<byte>)
    requires Wellformed(ps)
    ensures Serialize(ps, tail) == Emitted(ps, |tail|) + Tail(tail, ps == [])
  {
    EmittedRest(ps, tail, |ps|);
    assert ps[..|ps|] == ps;
  }

  // The input the pieces reproduce.

  /** What the encoder keeps true between instructions: the pieces emitted
      so far are wellformed and expand to the input they cover, their bytes
      (the last match with no literal count in it yet) are the output so far,
      and an output array of the given size has room for the worst case of
      the whole input. */
  ghost predicate Encoded(ps: seq<Piece>, input: seq<byte>, output: seq<byte>, size: int)
  {
    && Wellformed(ps)
    && Produced(ps) <= |input|
    && Expand(ps) == input[..Produced(ps)]
    && output == Emitted(ps, 0)
    && 16 * size >= 17 * |input| + 68
  }

  /** The positions compressCore keeps between probes: a block of ll input
      bytes from start, searched up to end, with the pieces covering the
      input up to index2 - ti and the literals from there up to ip still
      unwritten. */
  ghost predicate Scan(ps: seq<Piece>, size: int, start: int, end: int, ll: int, index2: int, ti: int, ip: int)
  {
    && end == start + ll - 20 && start + ll <= size && 0 <= start < ip && ll <= MAX_BLOCK
    && 0 <= ti && Produced(ps) == index2 - ti && index2 <= ip && index2 <= start + ll - 15
    && (ps == [] ==> ip >= 4)
  }

  /** Every dictionary entry is a position of the block before bound. */
  ghost predicate Below(d: seq<int>, bound: int)
  {
    forall i | 0 <= i < |d| :: 0 <= d[i] < bound
  }

  /** The encoder state inside compressCore: Encoded, Scan, and every
      dictionary entry Below ip - start. */
  ghost predicate Scanned(ps: seq<Piece>, input: seq<byte>, output: seq<byte>, size: int, dictionary: seq<int>,
                          start: int, end: int, ll: int, index2: int, ti: int, ip: int)
  {
    && Encoded(ps, input, output, size)
    && Scan(ps, |input|, start, end, ll, index2, ti, ip)
    && Below(dictionary, ip - start)
  }

  /** The start of compressCore keeps the pieces and the output, leaves the
      t literals before the block unwritten and probes first at ip, at
      least four bytes into them. */
  lemma StartScan(ps: seq<Piece>, input: seq<byte>, output: seq<byte>, size: int, dictionary: seq<int>,
                  start: int, ll: int, t: int, ip: int)
    requires Encoded(ps, input, output, size) && 0 <= t && Produced(ps) == start - t
    requires 20 < ll <= MAX_BLOCK && start + ll <= |input|
    requires forall i | 0 <= i < |dictionary| :: dictionary[i] == 0
    requires ip == start + (if t < 4 then 4 - t else 0) + 1
    ensures Scanned(ps, input, output, size, dictionary, start, start + ll - 20, ll, start, t, ip)
  {
  }

  /** A probe that finds no match keeps the pieces and the output, and the
      next probe is further on. */
  lemma SkipScan(ps: seq<Piece>, input: seq<byte>, output: seq<byte>, size: int, dictionary: seq<int>,
                 start: int, end: int, ll: int, index2: int, ti: int, ip: int, next: int)
    requires Encoded(ps, input, output, size) && Scan(ps, |input|, start, end, ll, index2, ti, ip)
    requires forall i | 0 <= i < |dictionary| :: 0 <= dictionary[i] <= ip - start
    requires next == ip + 1 + (ip - index2) / 32
    ensures Scanned(ps, input, output, size, dictionary, start, end, ll, index2, ti, next)
  {
  }

  /** A match found at ip and written out leaves no literal unwritten, and
      the next probe is right after it, at least four bytes further on. */
  lemma MatchScan(ps0: seq<Piece>, ps: seq<Piece>, input: seq<byte>, output: seq<byte>, size: int, dictionary: seq<int>,
                  start: int, end: int, ll: int, index2: int, ti: int, ip: int, next: int)
    requires Scan(ps0, |input|, start, end, ll, index2, ti, ip)
    requires Encoded(ps, input, output, size) && ps != [] && Produced(ps) == next && ip + 4 <= next < end + 5
    requires forall i | 0 <= i < |dictionary| :: 0 <= dictionary[i] <= ip - start
    ensures Scanned(ps, input, output, size, dictionary, start, end, ll, next, 0, next)
  {
  }

  /** The n input bytes at j repeat the n at i. */
  predicate Repeats(b: seq<byte>, i: int, j: int, n: int)
  {
    0 <= i && 0 <= j && 0 <= n && i + n <= |b| && j + n <= |b| && b[i..i + n] == b[j..j + n]
  }

  /** A match of n bytes from d back, found equal in the input, copies forward
      exactly the input that follows. */
  lemma {:induction false} CopyMatchesInput(b: seq<byte>, ip: nat, d: int, n: nat)
    requires 1 <= d <= ip && ip + n <= |b|
    requires b[ip - d..ip - d + n] == b[ip..ip + n]
    ensures CopyForward(b[..ip], d, n) == b[..ip + n]
    decreases n
  {
    if n > 0 {
      assert b[ip - d..ip - d + n - 1] == b[ip - d..ip - d + n][..n - 1];
      assert b[ip..ip + n - 1] == b[ip..ip + n][..n - 1];
      CopyMatchesInput(b, ip, d, n - 1);
      assert b[ip + n - 1] == b[ip..ip + n][n - 1];
      assert b[ip - d + n - 1] == b[ip - d..ip - d + n][n - 1];
      assert b[..ip + n] == b[..ip + n - 1] + [b[ip + n - 1]];
    }
  }

  // How much the encoder writes.

  /** A continuation run for m >= 1 takes one byte per 255 of m, rounded
      up. */
  lemma {:induction false} ZeroRunSize(m: int)
    requires m >= 1
    ensures 255 * (|ZeroRun(m)| - 1) <= m - 1
  {
  }

  /** A literal-length instruction for a run of v >= 4 takes at most
      (v + 20) / 16 bytes. */
  lemma {:induction false} LiteralLengthSize(v: int)
    requires v >= 4
    ensures 16 * |LiteralLength(v)| <= v + 20
  {
    if v > 18 {
      assert LiteralLength(v) == [0] + ZeroRun(v - 18);
      ZeroRunSize(v - 18);
    }
  }

  /** A literal run of v bytes with what precedes it takes at most
      (17 v + 20) / 16 bytes. */
  lemma {:induction false} LiteralHeaderSize(v: int)
    requires v >= 1
    ensures 16 * (|LiteralHeader(v)| + v) <= 17 * v + 20
  {
    if v >= 4 {
      LiteralLengthSize(v);
    }
  }

  /** A piece of v literals and a match of length l takes at most 17/16 of
      the v + l bytes it stands for. */
  lemma {:induction false} PieceSize(v: int, length: int, distance: int, tr: int)
    requires v >= 0 && ValidMatch(length, distance) && 0 <= tr < 4
    ensures 16 * (|LiteralHeader(v)| + v + |MatchBytes(length, distance, tr)|) <= 17 * (v + length)
  {
    if v >= 4 {
      LiteralLengthSize(v);
    }
  }

  /** The bytes emitted for pieces are at most 17/16 of what they expand to. */
  lemma {:induction false} EmittedSize(ps: seq<Piece>, next: int)
    requires Wellformed(ps)
    ensures 16 * |Emitted(ps, next)| <= 17 * Produced(ps)
    decreases |ps|
  {
    if ps != [] {
      var last := ps[|ps| - 1];
      WellformedPrefix(ps, |ps| - 1);
      EmittedSize(ps[..|ps| - 1], |last.literals|);
      PieceSize(|last.literals|, last.length, last.distance, Trailer(next));
    }
  }

  /** The final run and the end marker take at most 17/16 of the run, plus
      68 / 16 bytes. */
  lemma {:induction false} TailSize(tail: seq<byte>, first: bool)
    ensures 16 * |Tail(tail, first)| <= 17 * |tail| + 68
  {
    if |tail| >= 4 && !(first && |tail| <= 238) {
      LiteralLengthSize(|tail|);
    }
  }

  /** Once the pieces are Encoded, the final run of n literals, its count
      and the end marker still fit in an output array of the given size,
      and nothing has been written exactly when there are no pieces. */
  lemma FinalRunRoom(ps: seq<Piece>, input: seq<byte>, output: seq<byte>, size: int, n: int)
    requires Encoded(ps, input, output, size) && 0 <= n && Produced(ps) + n == |input|
    ensures |output| + |TailHeader(n, ps == [])| + n + 3 <= size
    ensures |output| == 0 <==> ps == []
  {
    EmittedSize(ps, 0);
    EmittedEmpty(ps, 0);
    TailSize(input[Produced(ps)..], ps == []);
  }

  /** Before the final run: the pieces reproduce the input up to the n
      literals left. */
  lemma Finishing(ps: seq<Piece>, input: seq<byte>, output: seq<byte>, size: int, n: int)
    requires Encoded(ps, input, output, size) && 0 <= n && Produced(ps) + n == |input|
    ensures Wellformed(ps) && Expand(ps) + input[Produced(ps)..] == input
  {
    var k := Produced(ps);
    assert Expand(ps) == input[..k];
    assert input[..k] + input[k..] == input;
  }

  /** The stream compressBuffer returns, the bytes of the pieces, the final
      run of n literals with its count and the end marker, is the
      serialization of the pieces with that run, and at most 17/16 of the
      input plus 68/16 bytes. */
  lemma StreamDone(ps: seq<Piece>, input: seq<byte>, r: seq<byte>, n: int)
    requires Wellformed(ps) && 0 <= n && Produced(ps) + n == |input|
    requires r == Emitted(ps, n) + TailHeader(n, ps == []) + input[Produced(ps)..] + END_MARKER
    ensures r == Serialize(ps, input[Produced(ps)..])
    ensures 16 * |r| <= 17 * |input| + 68
  {
    var tail := input[Produced(ps)..];
    var a, h := Emitted(ps, n), TailHeader(n, ps == []);
    assert Tail(tail, ps == []) == h + tail + END_MARKER;
    Regroup3(a, h, tail, END_MARKER);
    SerializeEmitted(ps, tail);
    EmittedSize(ps, n);
    TailSize(tail, ps == []);
  }

  lemma {:induction false} Regroup3(a: seq<byte>, h: seq<byte>, l: seq<byte>, w: seq<byte>)
    ensures a + (h + l + w) == a + h + l + w
  {
  }

  // The worst case the output array is sized for.

  /** maxSize of compressBuffer (line 414): the input length, one sixteenth
      of it rounded up, and 67 bytes. */
  function MaxSize(n: nat): (r: nat)
    ensures 16 * r >= 17 * n + 68
  {
    n + (n + 15) / 16 + 64 + 3
  }

  // Appending a match the encoder has found.

  /** A match found at input position ip, `distance` back at mp and
      `length` long, after the literals from Produced(ps): the pieces with it
      stay wellformed and expand to the input up to the match's end. */
  lemma {:induction false} AppendMatch(b: seq<byte>, ps: seq<Piece>, qs: seq<Piece>, from: nat, ip: nat, mp: nat, length: nat, distance: nat)
    requires Wellformed(ps) && from == Produced(ps) <= ip <= |b| && Expand(ps) == b[..Produced(ps)]
    requires ValidMatch(length, distance) && distance == ip - mp && Repeats(b, mp, ip, length)
    requires ps == [] ==> ip >= 4
    requires qs == ps + [Piece(b[from..ip], length, distance)]
    ensures Wellformed(qs) && Produced(qs) == ip + length && Expand(qs) == b[..Produced(qs)]
  {
    var p := Piece(b[from..ip], length, distance);
    assert Expand(ps) + p.literals == b[..ip];
    CopyMatchesInput(b, ip, distance, length);
    AppendPiece(ps, p);
  }

  /** The bytes written for the match follow the literal run written before
      it, the count of those literals in the previous match's low bits. */
  lemma {:induction false} AppendMatchBytes(b: seq<byte>, ps: seq<Piece>, qs: seq<Piece>, from: int, p: int, length: nat, distance: nat)
    requires 0 <= from <= p <= |b|
    requires Wellformed(qs) && qs == ps + [Piece(b[from..p], length, distance)]
    ensures Wellformed(ps) && ValidMatch(length, distance)
    ensures Emitted(qs, 0) == Emitted(ps, p - from) + LiteralHeader(p - from) + b[from..p] + MatchBytes(length, distance, 0)
  {
    EmittedAppend(ps, Piece(b[from..p], length, distance), 0);
  }

  // The four-byte comparison of compressCore (lines 295-301).

  /** ToInt32: a 32-bit pattern as the signed number a JavaScript shift or
      OR yields. */
  function Int32(x: int): (r: int)
    requires 0 <= x < 0x1_0000_0000
    ensures -0x8000_0000 <= r < 0x8000_0000 && (r == x || r == x - 0x1_0000_0000)
  {
    if x < 0x8000_0000 then x else x - 0x1_0000_0000
  }

  /** Four bytes little-endian, b0 | b1 << 8 | b2 << 16 | b3 << 24 as an
      unsigned pattern (the fields do not overlap, so the ORs are sums). */
  function Word(w: seq<byte>): (r: int)
    requires |w| == 4
    ensures 0 <= r < 0x1_0000_0000
  {
    w[0] as int + 256 * (w[1] as int + 256 * (w[2] as int + 256 * w[3] as int))
  }

  /** The bytes of a word are its base-256 digits. */
  lemma {:induction false} WordDigits(w: seq<byte>)
    requires |w| == 4
    ensures Word(w) % 256 == w[0] && Word(w) / 256 % 256 == w[1]
    ensures Word(w) / 65536 % 256 == w[2] && Word(w) / 16777216 == w[3]
  {
    var x2: int := w[2] as int + 256 * w[3] as int;
    var x1: int := w[1] as int + 256 * x2;
    assert Word(w) == w[0] as int + 256 * x1;
    assert Word(w) / 256 == x1;
    assert Word(w) / 65536 == x1 / 256 == x2;
    assert Word(w) / 16777216 == x2 / 256 == w[3];
  }

  /** (dv_hi << 16) + dv_lo, with the input's four bytes at ip split in two
      halves, equals the signed word at the candidate position exactly when
      the four bytes there are the same: the 32-bit wrap of the shifts
      changes both sides alike. */
  lemma {:induction false} SameWord(a: seq<byte>, c: seq<byte>)
    requires |a| == 4 && |c| == 4
    ensures Int32((a[2] as int + 256 * a[3] as int) * 65536) + (a[0] as int + 256 * a[1] as int) == Int32(Word(c)) <==> a == c
  {
    var hi: int, lo: int := a[2] as int + 256 * a[3] as int, a[0] as int + 256 * a[1] as int;
    assert hi * 65536 + lo == Word(a);
    assert Int32(hi * 65536) + lo == Int32(Word(a)) by {
      assert hi * 65536 < 0x8000_0000 <==> hi < 32768;
      assert Word(a) < 0x8000_0000 <==> hi < 32768;
    }
    WordDigits(a);
    WordDigits(c);
    if Word(a) == Word(c) {
      assert a == c by {
        assert a[0] == c[0] && a[1] == c[1] && a[2] == c[2] && a[3] == c[3];
      }
    }
  }
}
