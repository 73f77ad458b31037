/** What the decoder makes of a whole stream the encoder writes: a list of
    pieces, each a literal run and a match, then the final literal run and the
    end marker. The stream decodes to exactly the bytes the pieces stand for,
    followed by the final run. */
module Stream {
  import opened Format
  import opened Decoding
  import opened RoundTrip

  // The decoder between instructions.

  /** A match whose low two bits are zero sends the decoder back to the top of
      its main loop (matchDone() === 0, lines 184-186). */
  lemma {:induction false} ResumeLoop(s: seq<byte>, ip: nat, out: seq<byte>)
    requires 2 <= ip <= |s| && s[ip - 2] % 4 == 0
    ensures AfterMatch(s, ip, out) == DecodeLoop(s, ip, out, false)
  {
  }

  /** Low two bits v from 1 to 3: v literals follow, then the next control byte
      goes straight to match (matchNext, lines 71-86). */
  lemma {:induction false} ResumeNext(s: seq<byte>, ip: nat, out: seq<byte>, lits: seq<byte>)
    requires 2 <= ip && 1 <= |lits| <= 3 && ip + |lits| < |s|
    requires s[ip - 2] % 4 == |lits| && s[ip..ip + |lits|] == lits
    ensures AfterMatch(s, ip, out) == DecodeMatch(s, ip + |lits| + 1, out + lits, s[ip + |lits|])
  {
  }

  /** A control byte of 16 or more at the top of the main loop, or right after
      the first literal run, is a match (lines 225-230, 246). */
  lemma {:induction false} LoopToMatch(s: seq<byte>, ip: nat, out: seq<byte>, skip: bool)
    requires ip < |s| && s[ip] >= 16
    ensures DecodeLoop(s, ip, out, skip) == DecodeMatch(s, ip + 1, out, s[ip])
  {
  }

  /** A literal run at the top of the main loop, followed by a match. */
  lemma {:induction false} LoopLiteralStep(s: seq<byte>, ip: nat, out: seq<byte>, ip1: nat, out1: seq<byte>)
    requires ip < |s| && s[ip] < 16
    requires LiteralRun(s, ip + 1, out, s[ip]) == Ok((ip1, out1))
    requires ip1 < |s| && s[ip1] >= 16
    ensures DecodeLoop(s, ip, out, false) == DecodeMatch(s, ip1 + 1, out1, s[ip1])
  {
  }

  /** A literal run of four or more bytes at the top of the main loop: the
      decoder copies it and goes on to the match after it. */
  lemma {:induction false} LoopLiterals(s: seq<byte>, ip: nat, out: seq<byte>, lits: seq<byte>, m: nat)
    requires |lits| >= 4 && HoldsAt(s, ip, LiteralLength(|lits|) + lits)
    requires m == ip + |LiteralLength(|lits|)| + |lits| && m < |s| && s[m] >= 16
    ensures DecodeLoop(s, ip, out, false) == DecodeMatch(s, m + 1, out + lits, s[m])
  {
    LiteralRunDecodes(s, ip, out, lits);
    LoopLiteralStep(s, ip, out, m, out + lits);
  }

  // Where the parts of a stream lie.

  lemma FirstByte(s: seq<byte>, ip: nat, w: seq<byte>)
    requires |w| > 0 && HoldsAt(s, ip, w)
    ensures ip < |s| && s[ip] == w[0]
  {
    assert s[ip] == s[ip..ip + |w|][0];
  }

  /** Bytes held at ip that are a concatenation of three parts: each part is
      held in turn. */
  lemma HoldsAtSplit3(s: seq<byte>, ip: nat, a: seq<byte>, b: seq<byte>, c: seq<byte>)
    requires HoldsAt(s, ip, a + (b + c))
    ensures HoldsAt(s, ip, a) && HoldsAt(s, ip + |a|, b) && HoldsAt(s, ip + |a| + |b|, c)
  {
    HoldsAtSplit(s, ip, a, b + c);
    HoldsAtSplit(s, ip + |a|, b, c);
  }

  /** The stream from piece k on, as the piece's literal header and literals,
      its match and the stream from piece k + 1 on. */
  lemma RestUnfold(ps: seq<Piece>, k: nat, tail: seq<byte>)
    requires Wellformed(ps) && k < |ps|
    ensures var p := ps[k];
      RestBytes(ps, k, tail)
      == (LiteralHeader(|p.literals|) + p.literals)
         + (MatchBytes(p.length, p.distance, Trailer(NextLiterals(ps, k + 1, tail))) + RestBytes(ps, k + 1, tail))
  {
  }

  /** The stream from piece k on: the piece's literal header and literals, its
      match, then the stream from piece k + 1 on. */
  lemma PieceLayout(ps: seq<Piece>, k: nat, tail: seq<byte>, s: seq<byte>, ip: nat, h: seq<byte>, w: seq<byte>, m: nat)
    requires Wellformed(ps) && k < |ps| && HoldsAt(s, ip, RestBytes(ps, k, tail))
    requires h == LiteralHeader(|ps[k].literals|)
    requires w == MatchBytes(ps[k].length, ps[k].distance, Trailer(NextLiterals(ps, k + 1, tail)))
    requires m == ip + |h| + |ps[k].literals|
    ensures HoldsAt(s, ip, h + ps[k].literals)
    ensures HoldsAt(s, m, w)
    ensures HoldsAt(s, m + |w|, RestBytes(ps, k + 1, tail))
  {
    var a, r := h + ps[k].literals, RestBytes(ps, k + 1, tail);
    RestUnfold(ps, k, tail);
    assert RestBytes(ps, k, tail) == a + (w + r);
    HoldsAtSplit3(s, ip, a, w, r);
    assert ip + |a| == m;
  }

  /** The final run: its header and literals, then the end marker. */
  lemma TailLayout(s: seq<byte>, ip: nat, tail: seq<byte>, first: bool, h: seq<byte>, e: nat)
    requires HoldsAt(s, ip, Tail(tail, first))
    requires h == TailHeader(|tail|, first) && e == ip + |h| + |tail|
    ensures HoldsAt(s, ip, h + tail) && HoldsAt(s, e, END_MARKER)
    ensures e + 3 <= |s| && s[e] == 17
  {
    HoldsAtSplit(s, ip, h + tail, END_MARKER);
    EndMarkerFields(s, e);
  }

  /** A run of 1 to 3 literals with no header, held at ip. */
  lemma ShortRunBytes(s: seq<byte>, ip: nat, lits: seq<byte>)
    requires HoldsAt(s, ip, [] + lits)
    ensures ip + |lits| <= |s| && s[ip..ip + |lits|] == lits
  {
    assert [] + lits == lits;
  }

  // The decoder over a stream.

  /** Expanding one more piece copies its match onto what the pieces before it
      and its literals produced; the match reaches no further back than that. */
  lemma ExpandStep(ps: seq<Piece>, k: nat)
    requires Wellformed(ps) && k < |ps|
    ensures Wellformed(ps[..k]) && Wellformed(ps[..k + 1])
    ensures ValidMatch(ps[k].length, ps[k].distance)
    ensures ps[k].distance <= |Expand(ps[..k]) + ps[k].literals|
    ensures Expand(ps[..k + 1])
         == CopyForward(Expand(ps[..k]) + ps[k].literals, ps[k].distance, ps[k].length)
  {
    WellformedPrefix(ps, k);
    WellformedPrefix(ps, k + 1);
    assert ps[..k + 1][..k] == ps[..k];
  }

  /** No literals before the next match: its control byte is read at the top
      of the main loop. */
  lemma {:induction false} EnterNoLiterals(s: seq<byte>, ip: nat, out: seq<byte>, lits: seq<byte>, m: nat)
    requires 2 <= ip && lits == [] && m == ip && m < |s| && s[m] >= 16 && s[ip - 2] % 4 == 0
    ensures AfterMatch(s, ip, out) == DecodeMatch(s, m + 1, out + lits, s[m])
  {
    assert out + lits == out;
    ResumeLoop(s, ip, out);
    LoopToMatch(s, ip, out, false);
  }

  /** One to three literals announced by the previous match, then the next
      match's control byte. */
  lemma {:induction false} EnterShortRun(s: seq<byte>, ip: nat, out: seq<byte>, lits: seq<byte>, m: nat)
    requires 2 <= ip && 1 <= |lits| <= 3 && m == ip + |lits| && m < |s|
    requires HoldsAt(s, ip, [] + lits) && s[ip - 2] % 4 == |lits|
    ensures AfterMatch(s, ip, out) == DecodeMatch(s, m + 1, out + lits, s[m])
  {
    ShortRunBytes(s, ip, lits);
    ResumeNext(s, ip, out, lits);
  }

  /** Four or more literals with their own length instruction, then the next
      match. */
  lemma {:induction false} EnterLongRun(s: seq<byte>, ip: nat, out: seq<byte>, lits: seq<byte>, m: nat)
    requires 2 <= ip && |lits| >= 4 && HoldsAt(s, ip, LiteralLength(|lits|) + lits)
    requires m == ip + |LiteralLength(|lits|)| + |lits| && m < |s| && s[m] >= 16 && s[ip - 2] % 4 == 0
    ensures AfterMatch(s, ip, out) == DecodeMatch(s, m + 1, out + lits, s[m])
  {
    ResumeLoop(s, ip, out);
    LoopLiterals(s, ip, out, lits, m);
  }

  /** Entering piece k >= 1 after the previous match: the low two bits of that
      match announce the piece's literals, the decoder copies them and reaches
      the piece's match. */
  lemma {:induction false} EnterPiece(ps: seq<Piece>, k: nat, tail: seq<byte>, s: seq<byte>, ip: nat, out: seq<byte>, m: nat)
    requires Wellformed(ps) && 1 <= k < |ps| && 2 <= ip
    requires HoldsAt(s, ip, RestBytes(ps, k, tail))
    requires s[ip - 2] % 4 == Trailer(|ps[k].literals|)
    requires m == ip + |LiteralHeader(|ps[k].literals|)| + |ps[k].literals|
    ensures m < |s| && AfterMatch(s, ip, out) == DecodeMatch(s, m + 1, out + ps[k].literals, s[m])
  {
    var lits := ps[k].literals;
    var h := LiteralHeader(|lits|);
    var w := MatchBytes(ps[k].length, ps[k].distance, Trailer(NextLiterals(ps, k + 1, tail)));
    PieceLayout(ps, k, tail, s, ip, h, w, m);
    FirstByte(s, m, w);
    if |lits| == 0 {
      EnterNoLiterals(s, ip, out, lits, m);
    } else if |lits| < 4 {
      EnterShortRun(s, ip, out, lits, m);
    } else {
      EnterLongRun(s, ip, out, lits, m);
    }
  }

  /** Piece 0 opens the stream with at least four literals, which the decoder
      reads at the top of its main loop. */
  lemma {:induction false} EnterFirstPiece(ps: seq<Piece>, tail: seq<byte>, s: seq<byte>, m: nat)
    requires Wellformed(ps) && |ps| > 0 && s == Serialize(ps, tail)
    requires m == |LiteralHeader(|ps[0].literals|)| + |ps[0].literals|
    ensures m < |s| && Decode(s) == DecodeMatch(s, m + 1, ps[0].literals, s[m])
  {
    var lits := ps[0].literals;
    var h := LiteralHeader(|lits|);
    var w := MatchBytes(ps[0].length, ps[0].distance, Trailer(NextLiterals(ps, 1, tail)));
    assert HoldsAt(s, 0, RestBytes(ps, 0, tail));
    PieceLayout(ps, 0, tail, s, 0, h, w, m);
    FirstByte(s, m, w);
    assert h == LiteralLength(|lits|);
    FirstByte(s, 0, h + lits);
    EnterFirstRun(s, lits, m);
  }

  /** The opening run of four or more literals at the start of the input. */
  lemma {:induction false} EnterFirstRun(s: seq<byte>, lits: seq<byte>, m: nat)
    requires |lits| >= 4 && HoldsAt(s, 0, LiteralLength(|lits|) + lits) && s[0] < 16
    requires m == |LiteralLength(|lits|)| + |lits| && m < |s| && s[m] >= 16
    ensures Decode(s) == DecodeMatch(s, m + 1, lits, s[m])
  {
    assert Decode(s) == DecodeLoop(s, 0, [], false);
    LoopLiterals(s, 0, [], lits, m);
    assert [] + lits == lits;
  }

  /** The final run after a match decodes to itself and ends the decode. */
  lemma {:induction false} TailDecodes(s: seq<byte>, ip: nat, out: seq<byte>, tail: seq<byte>)
    requires 2 <= ip && HoldsAt(s, ip, Tail(tail, false)) && s[ip - 2] % 4 == Trailer(|tail|)
    ensures AfterMatch(s, ip, out) == Ok(out + tail)
  {
    var h := TailHeader(|tail|, false);
    var e := ip + |h| + |tail|;
    TailLayout(s, ip, tail, false, h, e);
    if |tail| == 0 {
      assert e == ip;
      EnterNoLiterals(s, ip, out, tail, e);
    } else if |tail| < 4 {
      assert h == [];
      EnterShortRun(s, ip, out, tail, e);
    } else {
      assert h == LiteralLength(|tail|);
      EnterLongRun(s, ip, out, tail, e);
    }
    EndMarkerDecodes(s, e, out + tail);
  }

  /** A final run of 1 to 238 literals opening the stream, in its one-byte
      form 17 + n: a run shorter than four goes straight on to the control
      byte after it, a longer one is copied and the main loop resumes after
      its literal copy (lines 205-219). */
  lemma {:induction false} OneByteRunDecodes(s: seq<byte>, lits: seq<byte>, e: nat)
    requires 1 <= |lits| <= 238 && HoldsAt(s, 0, [17 + |lits|] + lits)
    requires e == 1 + |lits| && e < |s| && s[e] >= 16
    ensures Decode(s) == DecodeMatch(s, e + 1, lits, s[e])
  {
    FirstByte(s, 0, [17 + |lits|] + lits);
    HoldsAtSplit(s, 0, [17 + |lits|], lits);
    assert [] + s[1..e] == lits;
    if |lits| >= 4 {
      LoopToMatch(s, e, lits, true);
    }
  }

  /** A stream with no match: the final run alone, in its one-byte form when it
      is short, decodes to itself. */
  lemma {:induction false} TailFirstDecodes(tail: seq<byte>)
    ensures Decode(Tail(tail, true)) == Ok(tail)
  {
    var s := Tail(tail, true);
    var h := TailHeader(|tail|, true);
    var e := |h| + |tail|;
    assert HoldsAt(s, 0, Tail(tail, true));
    TailLayout(s, 0, tail, true, h, e);
    if |tail| == 0 {
      assert e == 0 && tail == [];
      assert Decode(s) == DecodeLoop(s, 0, [], false);
      LoopToMatch(s, 0, [], false);
    } else if |tail| <= 238 {
      OneByteRunDecodes(s, tail, e);
    } else {
      assert h == LiteralLength(|tail|);
      FirstByte(s, 0, h + tail);
      EnterFirstRun(s, tail, e);
    }
    EndMarkerDecodes(s, e, tail);
  }

  /** After the match of piece k - 1, the rest of the stream decodes to the
      rest of the pieces' bytes and the final run. */
  lemma {:induction false} ResumeDecodes(ps: seq<Piece>, tail: seq<byte>, k: nat, s: seq<byte>, ip: nat)
    requires Wellformed(ps) && 1 <= k <= |ps| && 2 <= ip
    requires HoldsAt(s, ip, RestBytes(ps, k, tail))
    requires s[ip - 2] % 4 == Trailer(NextLiterals(ps, k, tail))
    ensures Wellformed(ps[..k]) && AfterMatch(s, ip, Expand(ps[..k])) == Ok(Expand(ps) + tail)
    decreases |ps| - k, 1
  {
    WellformedPrefix(ps, k);
    if k == |ps| {
      assert ps[..k] == ps;
      TailDecodes(s, ip, Expand(ps), tail);
    } else {
      var lits := ps[k].literals;
      var h := LiteralHeader(|lits|);
      var w := MatchBytes(ps[k].length, ps[k].distance, Trailer(NextLiterals(ps, k + 1, tail)));
      var m := ip + |h| + |lits|;
      PieceLayout(ps, k, tail, s, ip, h, w, m);
      EnterPiece(ps, k, tail, s, ip, Expand(ps[..k]), m);
      MatchPieceDecodes(ps, tail, k, s, m, w);
    }
  }

  /** At the match of piece k, with the bytes of the pieces before it and its
      literals produced, the rest of the stream decodes to the rest of the
      pieces' bytes and the final run. */
  lemma {:induction false} MatchPieceDecodes(ps: seq<Piece>, tail: seq<byte>, k: nat, s: seq<byte>, m: nat, w: seq<byte>)
    requires Wellformed(ps) && k < |ps|
    requires w == MatchBytes(ps[k].length, ps[k].distance, Trailer(NextLiterals(ps, k + 1, tail)))
    requires HoldsAt(s, m, w) && HoldsAt(s, m + |w|, RestBytes(ps, k + 1, tail))
    ensures Wellformed(ps[..k]) && m < |s|
    ensures DecodeMatch(s, m + 1, Expand(ps[..k]) + ps[k].literals, s[m]) == Ok(Expand(ps) + tail)
    decreases |ps| - k, 0
  {
    var p := ps[k];
    var tr := Trailer(NextLiterals(ps, k + 1, tail));
    var e := m + |w|;
    ExpandStep(ps, k);
    var out := Expand(ps[..k]) + p.literals;
    MatchDecodes(s, m, out, p.length, p.distance, tr, e);
    assert HoldsAt(s, e, RestBytes(ps, k + 1, tail));
    assert s[e - 2] % 4 == tr;
    ResumeDecodes(ps, tail, k + 1, s, e);
  }

  /** Round trip of a whole stream: the stream written for pieces ps and final
      run `tail` decodes to the bytes the pieces stand for, then `tail`. */
  lemma {:induction false} DecodeSerialize(ps: seq<Piece>, tail: seq<byte>)
    requires Wellformed(ps)
    ensures Decode(Serialize(ps, tail)) == Ok(Expand(ps) + tail)
  {
    var s := Serialize(ps, tail);
    if |ps| == 0 {
      assert s == Tail(tail, true);
      assert Expand(ps) + tail == tail;
      TailFirstDecodes(tail);
    } else {
      var lits := ps[0].literals;
      var h := LiteralHeader(|lits|);
      var w := MatchBytes(ps[0].length, ps[0].distance, Trailer(NextLiterals(ps, 1, tail)));
      var m := |h| + |lits|;
      assert HoldsAt(s, 0, RestBytes(ps, 0, tail));
      PieceLayout(ps, 0, tail, s, 0, h, w, m);
      assert ps[..0] == [];
      assert Expand(ps[..0]) + lits == lits;
      MatchPieceDecodes(ps, tail, 0, s, m, w);
      EnterFirstPiece(ps, tail, s, m);
    }
  }
}
