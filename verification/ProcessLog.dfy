/** The output of a process on its way into the job log: standard output and standard error are
    decoded each by a decoder of its own, in the order they are read, and written one after the
    other. A process that is killed leaves what the decoders hold back unwritten. */
module ProcessLog {
  import opened Bytes
  import opened Utf8
  import opened Utf8Decoding
  import opened Scrubber
  import opened StreamScrubbing
  import opened TraceLog
  import opened TraceWriting
  import opened JobLog

  /** Bytes read from standard output or standard error. */
  datatype Read = Read(isError: bool, bytes: seq<byte>)

  /** What is written to the log for one of them. */
  datatype Write = Write(isError: bool, text: seq<byte>)

  /** The chunks of one stream. */
  function ChunksOf(input: seq<Read>, isError: bool): (chunks: seq<seq<byte>>) {
    if input == [] then []
    else if input[0].isError == isError then [input[0].bytes] + ChunksOf(input[1..], isError)
    else ChunksOf(input[1..], isError)
  }

  /** The text of one stream. */
  function TextOf(writes: seq<Write>, isError: bool): (text: seq<byte>) {
    if writes == [] then []
    else if writes[0].isError == isError then writes[0].text + TextOf(writes[1..], isError)
    else TextOf(writes[1..], isError)
  }

  function Texts(writes: seq<Write>): (texts: seq<seq<byte>>) {
    seq(|writes|, i requires 0 <= i < |writes| => writes[i].text)
  }

  // ---- The writes of a process ----

  /** What the decoders hold back, at the end of both streams. */
  function LastWrites(out: seq<byte>, err: seq<byte>, killed: bool): (writes: seq<Write>) {
    if killed then [] else [Write(false, Lossy(out)), Write(true, Lossy(err))]
  }

  /** The writes from a moment on when the decoders hold back `out` and `err`. */
  function WritesFrom(out: seq<byte>, err: seq<byte>, input: seq<Read>, killed: bool): (writes: seq<Write>)
    decreases |input|
  {
    if input == [] then LastWrites(out, err, killed)
    else if input[0].isError then
      var d := DecodeChunk(err, input[0].bytes);
      [Write(true, d.text)] + WritesFrom(out, d.pending, input[1..], killed)
    else
      var d := DecodeChunk(out, input[0].bytes);
      [Write(false, d.text)] + WritesFrom(d.pending, err, input[1..], killed)
  }

  /** The texts are well-formed, in the order of the reads, and followed by the rests of standard output and
      standard error. */
  ghost predicate InOrder(writes: seq<Write>, input: seq<Read>, killed: bool) {
    && |writes| == |input| + (if killed then 0 else 2)
    && (forall i | 0 <= i < |input| :: writes[i].isError == input[i].isError)
    && (!killed ==> !writes[|input|].isError && writes[|input| + 1].isError)
    && forall i | 0 <= i < |writes| :: Valid(writes[i].text)
  }

  /** How the text of one stream relates to the decoding of its chunks by themselves. */
  ghost predicate AsIfAlone(text: seq<byte>, decoded: seq<byte>, killed: bool) {
    if killed then IsPrefix(text, decoded) else text == decoded
  }

  lemma AppendsOne(w: Write, rest: seq<Write>, isError: bool)
    ensures TextOf([w] + rest, isError) == (if w.isError == isError then w.text else []) + TextOf(rest, isError)
  {
    assert ([w] + rest)[1..] == rest;
  }

  lemma LastText(out: seq<byte>, err: seq<byte>, killed: bool, isError: bool)
    ensures AsIfAlone(TextOf(LastWrites(out, err, killed), isError), Lossy(if isError then err else out), killed)
  {
    if !killed {
      var o, e, none: seq<Write> := Write(false, Lossy(out)), Write(true, Lossy(err)), [];
      assert [o, e] == [o] + ([e] + none);
      AppendsOne(e, none, isError);
      AppendsOne(o, [e] + none, isError);
    }
  }

  lemma ChunkIsDecoded(pending: seq<byte>, chunk: seq<byte>, rest: seq<seq<byte>>)
    ensures DecodeAll(pending, [chunk] + rest) ==
            DecodeChunk(pending, chunk).text + DecodeAll(DecodeChunk(pending, chunk).pending, rest)
  {
    assert ([chunk] + rest)[1..] == rest;
  }

  lemma AloneAfter(before: seq<byte>, text: seq<byte>, decoded: seq<byte>, killed: bool)
    requires AsIfAlone(text, decoded, killed)
    ensures AsIfAlone(before + text, before + decoded, killed)
  {
  }

  /** Each stream comes out as if it were alone, whatever stands between its chunks. */
  lemma {:induction false} EachStreamAlone(out: seq<byte>, err: seq<byte>, input: seq<Read>, killed: bool,
                                           isError: bool)
    ensures AsIfAlone(TextOf(WritesFrom(out, err, input, killed), isError),
                      DecodeAll(if isError then err else out, ChunksOf(input, isError)), killed)
    decreases |input|
  {
    if input == [] {
      LastText(out, err, killed, isError);
    } else {
      var r := input[0];
      var d := DecodeChunk(if r.isError then err else out, r.bytes);
      var out', err' := if r.isError then out else d.pending, if r.isError then d.pending else err;
      EachStreamAlone(out', err', input[1..], killed, isError);
      OneRead(if isError then err else out, r, d, ChunksOf(input[1..], isError),
              WritesFrom(out', err', input[1..], killed), killed, isError);
    }
  }

  lemma OneRead(pending: seq<byte>, r: Read, d: Decoded, chunks: seq<seq<byte>>, rest: seq<Write>,
                killed: bool, isError: bool)
    requires r.isError == isError ==> d == DecodeChunk(pending, r.bytes)
    requires AsIfAlone(TextOf(rest, isError),
                       DecodeAll(if r.isError == isError then d.pending else pending, chunks), killed)
    ensures AsIfAlone(TextOf([Write(r.isError, d.text)] + rest, isError),
                      DecodeAll(pending, if r.isError == isError then [r.bytes] + chunks else chunks), killed)
  {
    AppendsOne(Write(r.isError, d.text), rest, isError);
    if r.isError == isError {
      ChunkIsDecoded(pending, r.bytes, chunks);
      AloneAfter(d.text, TextOf(rest, isError), DecodeAll(d.pending, chunks), killed);
    }
  }

  lemma {:induction false} WritesAreInOrder(out: seq<byte>, err: seq<byte>, input: seq<Read>, killed: bool)
    ensures InOrder(WritesFrom(out, err, input, killed), input, killed)
    decreases |input|
  {
    if input == [] {
      LossyIsValid(out);
      LossyIsValid(err);
    } else {
      var r := input[0];
      var pending := if r.isError then err else out;
      var d := DecodeChunk(pending, r.bytes);
      PendingIsShort(pending, r.bytes);
      var out', err' := if r.isError then out else d.pending, if r.isError then d.pending else err;
      WritesAreInOrder(out', err', input[1..], killed);
      OneInOrder(Write(r.isError, d.text), WritesFrom(out', err', input[1..], killed), input, killed);
    }
  }

  lemma OneInOrder(w: Write, rest: seq<Write>, input: seq<Read>, killed: bool)
    requires input != [] && w.isError == input[0].isError && Valid(w.text) && InOrder(rest, input[1..], killed)
    ensures InOrder([w] + rest, input, killed)
  {
    forall i | 0 <= i < |input| ensures ([w] + rest)[i].isError == input[i].isError {
      assert i > 0 ==> input[i] == input[1..][i - 1];
    }
  }

  /** All that is lost of a process that is killed: the up to three bytes each decoder holds back. */
  lemma {:induction false} KilledLosesRests(out: seq<byte>, err: seq<byte>, input: seq<Read>)
    returns (x: seq<byte>, y: seq<byte>)
    requires |out| <= 3 && |err| <= 3
    ensures |x| <= 3 && |y| <= 3
    ensures WritesFrom(out, err, input, false)
         == WritesFrom(out, err, input, true) + [Write(false, Lossy(x)), Write(true, Lossy(y))]
    decreases |input|
  {
    x, y := out, err;
    if input != [] {
      var r := input[0];
      var pending := if r.isError then err else out;
      var d := DecodeChunk(pending, r.bytes);
      PendingIsShort(pending, r.bytes);
      var out', err' := if r.isError then out else d.pending, if r.isError then d.pending else err;
      x, y := KilledLosesRests(out', err', input[1..]);
      Reassociate([Write(r.isError, d.text)], WritesFrom(out', err', input[1..], true),
                  [Write(false, Lossy(x)), Write(true, Lossy(y))]);
    }
  }

  // ---- The loop over what is read, and the whole pipeline ----

  lemma OneWrite(writes: seq<Write>, w: Write, rest: seq<Write>)
    ensures writes + [w] + rest == writes + ([w] + rest)
  {
  }

  /** The texts of a process, as they go to the writer. */
  method DecodeProcess(input: seq<Read>, killed: bool) returns (writes: seq<Write>)
    ensures writes == WritesFrom([], [], input, killed)
  {
    var out := new Utf8Decoder();
    var err := new Utf8Decoder();
    writes := [];
    assert input[0..] == input;
    for i := 0 to |input|
      invariant writes + WritesFrom(out.pending, err.pending, input[i..], killed) == WritesFrom([], [], input, killed)
    {
      assert input[i..][0] == input[i] && input[i..][1..] == input[i + 1..];
      var text;
      if input[i].isError {
        text := err.Decode(input[i].bytes);
      } else {
        text := out.Decode(input[i].bytes);
      }
      var w := Write(input[i].isError, text);
      OneWrite(writes, w, WritesFrom(out.pending, err.pending, input[i + 1..], killed));
      writes := writes + [w];
    }
    if !killed {
      var text := out.Finish();
      var rest := err.Finish();
      writes := writes + [Write(false, text), Write(true, rest)];
    }
  }

  /** The log of a process: two streams, in whatever chunks and order they were read, are
      decoded, masked, truncated and sent. `writes` are the texts in the order they were
      written. GitLab has exactly their truncated, masked concatenation when the last flush
      reports success and no answer was an abort. Of a stream that is valid UTF-8 the texts are
      the very bytes. */
  method LogProcess(w: TraceWriter, input: seq<Read>, killed: bool) returns (complete: bool, writes: seq<Write>)
    requires w.Consistent() && w.collected == [] && w.scrubber.Current() == IDLE
    modifies w, w.scrubber, w.client, w.cancel
    ensures w.Consistent() && InOrder(writes, input, killed)
    ensures forall isError :: AsIfAlone(TextOf(writes, isError), DecodeAll([], ChunksOf(input, isError)), killed)
    ensures forall isError | Valid(Concat(ChunksOf(input, isError))) ::
              AsIfAlone(TextOf(writes, isError), Concat(ChunksOf(input, isError)), killed)
    ensures complete && !w.aborted && w.client != null && Streamable(w.scrubber.scrubber, Texts(writes)) ==>
              w.client.log == Truncate(ScrubText(w.scrubber.scrubber, Concat(Texts(writes))), w.cap)
  {
    writes := DecodeProcess(input, killed);
    WritesAreInOrder([], [], input, killed);
    forall isError: bool
      ensures AsIfAlone(TextOf(writes, isError), DecodeAll([], ChunksOf(input, isError)), killed)
    {
      EachStreamAlone([], [], input, killed, isError);
    }
    forall isError: bool | Valid(Concat(ChunksOf(input, isError)))
      ensures DecodeAll([], ChunksOf(input, isError)) == Concat(ChunksOf(input, isError))
    {
      ValidStreamsComeBack(ChunksOf(input, isError));
    }
    complete := LogText(w, Texts(writes));
  }
}
