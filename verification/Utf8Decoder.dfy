/** The chunk decoder of script output (`Utf8Decoder` in the executor), and exactly when
    its output does not depend on where the chunks end. */
module Utf8Decoding {
  import opened Bytes
  import opened Utf8

  datatype Decoded = Decoded(text: seq<byte>, pending: seq<byte>)

  /** One `decode` call: what is emitted and what is kept for the next chunk. */
  function DecodeChunk(pending: seq<byte>, bytes: seq<byte>): (d: Decoded) {
    var all := pending + bytes;
    var c := FromUtf8(all);
    match c.stop
    case AtIllFormed => Decoded(Lossy(all), [])
    case _ => Decoded(all[..c.validUpTo], all[c.validUpTo..])
  }

  /** All `decode` calls on `chunks`, then `finish`. */
  function DecodeAll(pending: seq<byte>, chunks: seq<seq<byte>>): (text: seq<byte>)
    decreases |chunks|
  {
    if chunks == [] then Lossy(pending)
    else
      var d := DecodeChunk(pending, chunks[0]);
      d.text + DecodeAll(d.pending, chunks[1..])
  }

  class Utf8Decoder {
    var pending: seq<byte>

    constructor ()
      ensures pending == []
    {
      pending := [];
    }

    method Decode(bytes: seq<byte>) returns (text: seq<byte>)
      modifies this
      ensures Decoded(text, pending) == DecodeChunk(old(pending), bytes)
      ensures |pending| <= 3
    {
      pending := pending + bytes;
      var c := FromUtf8(pending);
      if c.stop.AtIllFormed? {
        text := Lossy(pending);
        pending := [];
        return;
      }
      text := pending[..c.validUpTo];
      pending := pending[c.validUpTo..];
    }

    method Finish() returns (text: seq<byte>)
      modifies this
      ensures text == Lossy(old(pending)) && pending == []
    {
      text := Lossy(pending);
      pending := [];
    }
  }

  /** For any bytes whatever: at most 3 stay pending, and the emitted text is well-formed. */
  lemma {:induction false} PendingIsShort(pending: seq<byte>, bytes: seq<byte>)
    ensures |DecodeChunk(pending, bytes).pending| <= 3
    ensures Valid(DecodeChunk(pending, bytes).text)
  {
    if FromUtf8(pending + bytes).stop.AtIllFormed? {
      LossyIsValid(pending + bytes);
    }
  }

  lemma {:induction false} LossyIsValid(b: seq<byte>)
    ensures Valid(Lossy(b))
  {
    if b != [] {
      var n, p := UnitLength(b), FirstPiece(b);
      if p.Good? {
        FirstCharAlone(b, n);
      } else {
        assert FirstUnit(REPLACEMENT) == Char(3);
      }
      LossyIsValid(b[n..]);
      ValidConcat(PieceText(p), Lossy(b[n..]));
    }
  }

  // ---- Exactly when the chunking does not matter ----

  /** Every unit of `b` is one byte long. */
  predicate OneByteUnits(b: seq<byte>) {
    b == [] || (UnitLength(b) == 1 && OneByteUnits(b[1..]))
  }

  /** After the first ill-formed part of `b` every unit is one byte long. */
  predicate ChunkProof(b: seq<byte>) {
    b == [] || (var rest := b[UnitLength(b)..]; if FirstUnit(b).Char? then ChunkProof(rest) else OneByteUnits(rest))
  }

  /** The decoder gives the same text for every way to cut `b` into chunks. */
  ghost predicate ChunkIndependent(b: seq<byte>) {
    forall chunks :: Concat(chunks) == b ==> DecodeAll([], chunks) == Lossy(b)
  }

  /** The decoder sees an ill-formed part in `b`. */
  predicate ShowsIllFormed(b: seq<byte>) {
    b != [] && (FirstUnit(b).IllFormed? || (FirstUnit(b).Char? && ShowsIllFormed(b[UnitLength(b)..])))
  }

  lemma {:induction false} ShowsIllFormedStops(b: seq<byte>)
    ensures ShowsIllFormed(b) <==> FromUtf8(b).stop.AtIllFormed?
  {
    if b != [] && FirstUnit(b).Char? {
      ShowsIllFormedStops(b[UnitLength(b)..]);
    }
  }

  lemma OneByteStable(a: seq<byte>, b: seq<byte>)
    requires a != [] && UnitLength(a + b) == 1
    ensures UnitLength(a) == 1 && FirstPiece(a) == FirstPiece(a + b)
  {
    assert (a + b)[..|a|] == a;
    FirstUnitOfPrefix(a + b, |a|);
  }

  /** One-byte units decode one by one, so any cut is harmless. */
  lemma {:induction false} OneByteSplit(a: seq<byte>, b: seq<byte>)
    requires OneByteUnits(a + b)
    ensures Pieces(a + b) == Pieces(a) + Pieces(b) && OneByteUnits(b)
    decreases |a|
  {
    if a == [] {
      assert a + b == b;
    } else {
      assert (a + b)[1..] == a[1..] + b;
      OneByteStable(a, b);
      OneByteSplit(a[1..], b);
      Reassociate([FirstPiece(a)], Pieces(a[1..]), Pieces(b));
    }
  }

  lemma {:induction false} OneByteChunkProof(b: seq<byte>)
    requires OneByteUnits(b)
    ensures ChunkProof(b)
  {
    if b != [] {
      OneByteChunkProof(b[1..]);
    }
  }

  lemma {:induction false} ValidChunkProof(a: seq<byte>, b: seq<byte>)
    requires Valid(a)
    ensures ChunkProof(a + b) <==> ChunkProof(b)
    decreases |a|
  {
    if a == [] {
      assert a + b == b;
    } else {
      PeelChar(a, b);
      ValidChunkProof(a[UnitLength(a)..], b);
    }
  }

  /** A chunk that shows an ill-formed part may be decoded and forgotten. */
  lemma {:induction false} IllFormedSplit(a: seq<byte>, b: seq<byte>)
    requires ChunkProof(a + b) && ShowsIllFormed(a)
    ensures Pieces(a + b) == Pieces(a) + Pieces(b) && ChunkProof(b)
    decreases |a|
  {
    var rest := a[UnitLength(a)..];
    PeelUnit(a, b);
    if FirstUnit(a).Char? {
      PeelChar(a, b);
      IllFormedSplit(rest, b);
    } else {
      IllFormedTail(a, b);
      OneByteSplit(rest, b);
      OneByteChunkProof(b);
    }
    Reassociate([FirstPiece(a)], Pieces(rest), Pieces(b));
  }

  lemma IllFormedTail(a: seq<byte>, b: seq<byte>)
    requires a != [] && FirstUnit(a).IllFormed? && ChunkProof(a + b)
    ensures OneByteUnits(a[UnitLength(a)..] + b)
  {
    FirstUnitStable(a, b);
    assert (a + b)[UnitLength(a)..] == a[UnitLength(a)..] + b;
  }

  lemma ChunkDoesNotMatter(all: seq<byte>, rest: seq<byte>)
    requires ChunkProof(all + rest)
    ensures var d := DecodeChunk([], all);
            && Lossy(all + rest) == d.text + Lossy(d.pending + rest)
            && ChunkProof(d.pending + rest)
  {
    var d := DecodeChunk([], all);
    DecodeAlone(all);
    if FromUtf8(all).stop.AtIllFormed? {
      IllFormedInFront(all, rest);
    } else {
      ValidInFront(d.text, d.pending, rest);
    }
  }

  lemma DecodeAlone(all: seq<byte>)
    ensures var d := DecodeChunk([], all);
            if FromUtf8(all).stop.AtIllFormed?
            then d == Decoded(Lossy(all), []) && forall rest :: d.pending + rest == rest
            else Valid(d.text) && d.text + d.pending == all
  {
    assert [] + all == all;
    var none: seq<byte> := [];
    forall rest: seq<byte> ensures none + rest == rest {
    }
  }

  lemma IllFormedInFront(all: seq<byte>, rest: seq<byte>)
    requires ChunkProof(all + rest) && FromUtf8(all).stop.AtIllFormed?
    ensures Lossy(all + rest) == Lossy(all) + Lossy(rest) && ChunkProof(rest)
  {
    ShowsIllFormedStops(all);
    IllFormedSplit(all, rest);
    TextConcat(Pieces(all), Pieces(rest));
  }

  lemma ValidInFront(head: seq<byte>, tail: seq<byte>, rest: seq<byte>)
    requires Valid(head) && ChunkProof(head + tail + rest)
    ensures Lossy(head + tail + rest) == head + Lossy(tail + rest)
    ensures ChunkProof(tail + rest)
  {
    Reassociate(head, tail, rest);
    ValidPieces(head, tail + rest);
    ValidChunkProof(head, tail + rest);
    TextConcat(Pieces(head), Pieces(tail + rest));
    LossyOfValid(head);
  }

  lemma {:induction false} ChunksDoNotMatter(pending: seq<byte>, chunks: seq<seq<byte>>)
    requires ChunkProof(pending + Concat(chunks))
    ensures DecodeAll(pending, chunks) == Lossy(pending + Concat(chunks))
    decreases |chunks|
  {
    if chunks == [] {
      assert pending + [] == pending;
    } else {
      var all, rest := pending + chunks[0], Concat(chunks[1..]);
      assert [] + all == all && pending + Concat(chunks) == all + rest;
      var d := DecodeChunk(pending, chunks[0]);
      ChunkDoesNotMatter(all, rest);
      ChunksDoNotMatter(d.pending, chunks[1..]);
    }
  }

  /** Length of the decoded text. */
  function LossyLength(b: seq<byte>): (n: nat) {
    if b == [] then 0
    else (if FirstUnit(b).Char? then UnitLength(b) else 3) + LossyLength(b[UnitLength(b)..])
  }

  lemma {:induction false} LossyLengthIsLength(b: seq<byte>)
    ensures |Lossy(b)| == LossyLength(b)
  {
    if b != [] {
      LossyStep(b);
      LossyLengthIsLength(b[UnitLength(b)..]);
    }
  }

  /** A cut at `at` whose right side shows itself ill-formed, and that adds to the text. */
  ghost predicate Torn(b: seq<byte>, at: nat) {
    && 0 < at <= |b|
    && ShowsIllFormed(b[at..])
    && LossyLength(b[..at]) + LossyLength(b[at..]) > LossyLength(b)
  }

  lemma OneStray(b: seq<byte>)
    requires b != [] && IsContinuation(b[0])
    ensures LossyLength(b) == 3 + LossyLength(b[1..]) && ShowsIllFormed(b)
  {
    assert FirstUnit(b) == IllFormed(1);
  }

  /** Continuation bytes without a lead byte are replaced one by one. */
  lemma {:induction false} StrayContinuations(b: seq<byte>, k: nat)
    requires k <= |b| && forall i | 0 <= i < k :: IsContinuation(b[i])
    ensures LossyLength(b) == 3 * k + LossyLength(b[k..])
    ensures k > 0 ==> ShowsIllFormed(b)
    decreases k
  {
    if k == 0 {
      assert b[0..] == b;
    } else {
      OneStray(b);
      StrayContinuations(b[1..], k - 1);
      assert b[1..][k - 1..] == b[k..];
    }
  }

  /** Past its first byte a unit has only continuation bytes. */
  lemma UnitTail(b: seq<byte>)
    requires b != []
    ensures forall i | 1 <= i < UnitLength(b) :: IsContinuation(b[i])
  {
    if Announced(b[0]) != 0 {
      assert UnitLength(b) == Follows(b, Announced(b[0]), 1);
      forall i | 1 <= i < UnitLength(b) ensures IsContinuation(b[i]) {
        assert Continues(b, i);
      }
    }
  }

  /** A wide unit is torn by cutting off its first byte. */
  lemma TearUnit(b: seq<byte>)
    requires b != [] && UnitLength(b) >= 2
    ensures Torn(b, 1)
  {
    var n, second := UnitLength(b), b[1..];
    UnitTail(b);
    forall i | 0 <= i < n - 1 ensures IsContinuation(second[i]) {
      assert second[i] == b[i + 1];
    }
    StrayContinuations(second, n - 1);
    assert second[n - 1..] == b[n..];
    FirstUnitOfPrefix(b, 1);
  }

  /** The part in front of a cut behind the first unit. */
  lemma FrontOfCut(b: seq<byte>, at: nat)
    requires b != [] && 0 < at <= |b| - UnitLength(b)
    ensures var n, front, rest := UnitLength(b), b[..UnitLength(b) + at], b[UnitLength(b)..];
            && LossyLength(front) - LossyLength(rest[..at]) == LossyLength(b) - LossyLength(rest)
            && (FirstUnit(b).IllFormed? ==> ShowsIllFormed(front))
            && (FirstUnit(b).Char? && ShowsIllFormed(rest[..at]) ==> ShowsIllFormed(front))
  {
    var n := UnitLength(b);
    var front := b[..n + at];
    FirstUnitOfPrefix(b, n + at);
    assert front[n..] == b[n..][..at];
  }

  lemma TornBehind(b: seq<byte>, at: nat)
    requires b != [] && Torn(b[UnitLength(b)..], at)
    ensures Torn(b, UnitLength(b) + at)
    ensures FirstUnit(b).IllFormed? ==> ShowsIllFormed(b[..UnitLength(b) + at])
    ensures FirstUnit(b).Char? && ShowsIllFormed(b[UnitLength(b)..][..at]) ==> ShowsIllFormed(b[..UnitLength(b) + at])
  {
    FrontOfCut(b, at);
    assert b[UnitLength(b)..][at..] == b[UnitLength(b) + at..];
  }

  lemma {:induction false} FindWide(b: seq<byte>) returns (at: nat)
    requires !OneByteUnits(b)
    ensures Torn(b, at)
  {
    if UnitLength(b) >= 2 {
      TearUnit(b);
      at := 1;
    } else {
      at := FindWide(b[1..]);
      TornBehind(b, at);
      at := at + 1;
    }
  }

  lemma {:induction false} FindTornUnit(b: seq<byte>)
    requires !ChunkProof(b)
    ensures exists at: nat :: Torn(b, at) && ShowsIllFormed(b[..at])
  {
    var n := UnitLength(b);
    if FirstUnit(b).Char? {
      FindTornUnit(b[n..]);
      var k: nat :| Torn(b[n..], k) && ShowsIllFormed(b[n..][..k]);
      TornBehind(b, k);
    } else {
      NotLastUnit(b);
      var k := FindWide(b[n..]);
      TornBehind(b, k);
    }
  }

  lemma NotLastUnit(b: seq<byte>)
    requires b != [] && !FirstUnit(b).Char? && !ChunkProof(b)
    ensures FirstUnit(b).IllFormed? && !OneByteUnits(b[UnitLength(b)..])
  {
  }

  lemma DecodeAllCons(c: seq<byte>, more: seq<seq<byte>>)
    requires ShowsIllFormed(c)
    ensures |DecodeAll([], [c] + more)| == LossyLength(c) + |DecodeAll([], more)|
    ensures Concat([c] + more) == c + Concat(more)
  {
    ShowsIllFormedStops(c);
    LossyLengthIsLength(c);
    assert ([c] + more)[1..] == more && [] + c == c;
  }

  lemma TwoChunks(a: seq<byte>, b: seq<byte>)
    requires ShowsIllFormed(a) && ShowsIllFormed(b)
    ensures Concat([a] + ([b] + [])) == a + b
    ensures |DecodeAll([], [a] + ([b] + []))| == LossyLength(a) + LossyLength(b)
  {
    DecodeAllCons(b, []);
    DecodeAllCons(a, [b] + []);
  }

  lemma TornUnitShows(b: seq<byte>, at: nat)
    requires Torn(b, at) && ShowsIllFormed(b[..at])
    ensures !ChunkIndependent(b)
  {
    assert b[..at] + b[at..] == b;
    TwoChunks(b[..at], b[at..]);
    LossyLengthIsLength(b);
    Differs(b, [b[..at]] + ([b[at..]] + []));
  }

  lemma Differs(b: seq<byte>, chunks: seq<seq<byte>>)
    requires Concat(chunks) == b && |DecodeAll([], chunks)| > |Lossy(b)|
    ensures !ChunkIndependent(b)
  {
  }

  /** The decoder is chunk-independent on exactly the streams whose units after the first
      ill-formed part are all one byte long; a valid stream is one of them. */
  lemma {:induction false} ChunkIndependentExactly(b: seq<byte>)
    ensures ChunkIndependent(b) <==> ChunkProof(b)
  {
    if ChunkProof(b) {
      forall chunks | Concat(chunks) == b
        ensures DecodeAll([], chunks) == Lossy(b)
      {
        assert [] + b == b;
        ChunksDoNotMatter([], chunks);
      }
    } else {
      FindTornUnit(b);
      var at: nat :| Torn(b, at) && ShowsIllFormed(b[..at]);
      TornUnitShows(b, at);
    }
  }

  /** A stream that is valid UTF-8 comes out byte for byte, however it was split. */
  lemma {:induction false} ValidStreamsComeBack(chunks: seq<seq<byte>>)
    requires Valid(Concat(chunks))
    ensures DecodeAll([], chunks) == Concat(chunks)
  {
    var b := Concat(chunks);
    ValidChunkProof(b, []);
    assert b + [] == b;
    assert [] + b == b;
    ChunksDoNotMatter([], chunks);
    LossyOfValid(b);
  }

  /** A broken byte in front is enough: a euro sign cut in two is lost. */
  lemma {:induction false} BrokenStreamsDependOnChunks()
    ensures Lossy([0xFF, 0xE2, 0x82, 0xAC]) == REPLACEMENT + [0xE2, 0x82, 0xAC]
    ensures !ChunkIndependent([0xFF, 0xE2, 0x82, 0xAC])
  {
    var b: seq<byte> := [0xFF, 0xE2, 0x82, 0xAC];
    var euro: seq<byte> := [0xE2, 0x82, 0xAC];
    assert FirstUnit(euro) == Char(3) && FirstPiece(euro) == Good(euro);
    assert b[1..] == euro && FirstPiece(b) == Bad([0xFF]);
    assert Pieces(euro) == [Good(euro)];
    assert Pieces(b) == [Bad([0xFF]), Good(euro)];
    assert Text(Pieces(b)[1..]) == euro;
    ChunkIndependentExactly(b);
  }
}
