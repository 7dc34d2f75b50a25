/** The job log from the writes on: masked, truncated and sent; what GitLab ends up with is the
    truncated, masked text of all writes, and what it never sees. */
module JobLog {
  import opened Bytes
  import opened Utf8
  import opened Scrubber
  import opened Simultaneous
  import opened StreamScrubbing
  import opened StreamMasking
  import opened PatternStreams
  import opened TraceLog
  import opened TraceWriting

  // ---- Streams, chunk after chunk ----

  /** What all pushes emit, without the final flush. */
  function Emitted(m: Masker, st: State, chunks: seq<seq<byte>>): seq<byte>
    decreases |chunks|
  {
    if chunks == [] then []
    else
      var p := PushChunk(m, st, chunks[0]);
      p.out + Emitted(m, p.state, chunks[1..])
  }

  lemma {:induction false} StreamIsEmittedAndFlushed(m: Masker, st: State, chunks: seq<seq<byte>>)
    ensures StreamFrom(m, st, chunks) == Emitted(m, st, chunks) + ScrubText(m, StateAfter(m, st, chunks).pending)
    decreases |chunks|
  {
    if chunks != [] {
      var p := PushChunk(m, st, chunks[0]);
      StreamIsEmittedAndFlushed(m, p.state, chunks[1..]);
      Reassociate(p.out, Emitted(m, p.state, chunks[1..]), ScrubText(m, StateAfter(m, st, chunks).pending));
    }
  }

  lemma TakeFirst(a: seq<seq<byte>>, b: seq<seq<byte>>)
    requires a != []
    ensures a + b != [] && (a + b)[0] == a[0] && (a + b)[1..] == a[1..] + b
  {
  }

  lemma {:induction false} StatesAppend(m: Masker, st: State, a: seq<seq<byte>>, c: seq<byte>)
    ensures StateAfter(m, st, a + [c]) == PushChunk(m, StateAfter(m, st, a), c).state
    decreases |a|
  {
    if a == [] {
      assert a + [c] == [c] && [c][1..] == a;
    } else {
      TakeFirst(a, [c]);
      StatesAppend(m, PushChunk(m, st, a[0]).state, a[1..], c);
    }
  }

  lemma {:induction false} EmittedAppends(m: Masker, st: State, a: seq<seq<byte>>, c: seq<byte>)
    ensures Emitted(m, st, a + [c]) == Emitted(m, st, a) + PushChunk(m, StateAfter(m, st, a), c).out
    decreases |a|
  {
    if a == [] {
      assert a + [c] == [c] && [c][1..] == a;
    } else {
      var p := PushChunk(m, st, a[0]);
      TakeFirst(a, [c]);
      EmittedAppends(m, p.state, a[1..], c);
      Reassociate(p.out, Emitted(m, p.state, a[1..]), PushChunk(m, StateAfter(m, st, a), c).out);
    }
  }

  /** When streaming the writes is whole-text masking. */
  ghost predicate Streamable(m: Masker, writes: seq<seq<byte>>) {
    Independent(m.secrets) && WellNested(Concat(writes), m.secrets) && Seamless(m, [], writes)
  }

  /** When it lets no secret through. */
  ghost predicate Guarded(m: Masker, writes: seq<seq<byte>>) {
    Independent(m.secrets) && WellNested(Concat(writes), m.secrets) && NothingSplit(m, IDLE, writes)
  }

  lemma OneWriteMore(m: Masker, st: State, before: seq<seq<byte>>, c: seq<byte>, after: seq<seq<byte>>, p: Pushed)
    requires after == before + [c] && p == PushChunk(m, StateAfter(m, st, before), c)
    ensures Emitted(m, st, after) == Emitted(m, st, before) + p.out && StateAfter(m, st, after) == p.state
  {
    StatesAppend(m, st, before, c);
    EmittedAppends(m, st, before, c);
  }

  lemma TakeOneMore(writes: seq<seq<byte>>, i: int)
    requires 0 <= i < |writes|
    ensures writes[..i + 1] == writes[..i] + [writes[i]]
  {
  }

  /** One write more: what is collected and held back. */
  lemma NextWrite(m: Masker, st: State, writes: seq<seq<byte>>, i: int, collected: seq<byte>, held: State)
    requires 0 <= i < |writes| && collected == Emitted(m, st, writes[..i]) && held == StateAfter(m, st, writes[..i])
    ensures collected + PushChunk(m, held, writes[i]).out == Emitted(m, st, writes[..i + 1])
    ensures PushChunk(m, held, writes[i]).state == StateAfter(m, st, writes[..i + 1])
  {
    TakeOneMore(writes, i);
    OneWriteMore(m, st, writes[..i], writes[i], writes[..i + 1], PushChunk(m, held, writes[i]));
  }

  /** The ticks of the flush timer until the next output. */
  method Ticks(w: TraceWriter)
    requires w.Consistent()
    modifies w`sent, w`lastFlush, w`updateInterval, w`aborted, w.client, w.cancel
    ensures w.Consistent() && (old(w.aborted) ==> w.aborted)
  {
    var ticks: int := *;
    while ticks > 0
      invariant w.Consistent() && (old(w.aborted) ==> w.aborted)
      decreases ticks
    {
      var now: nat := *;
      w.FlushIfDue(now);
      ticks := ticks - 1;
    }
  }

  /** All writes, with the flush timer ticking in between. */
  method WriteAll(w: TraceWriter, writes: seq<seq<byte>>)
    requires w.Consistent() && w.collected == [] && w.scrubber.Current() == IDLE
    requires forall text | text in writes :: Valid(text)
    modifies w, w.scrubber, w.client, w.cancel
    ensures w.Consistent() && w.collected == Emitted(w.scrubber.scrubber, IDLE, writes)
    ensures w.scrubber.Current() == StateAfter(w.scrubber.scrubber, IDLE, writes)
  {
    ghost var m := w.scrubber.scrubber;
    for i := 0 to |writes|
      invariant w.Consistent()
      invariant w.collected == Emitted(m, IDLE, writes[..i]) && w.scrubber.Current() == StateAfter(m, IDLE, writes[..i])
    {
      var now: nat := *;
      Ticks(w);
      NextWrite(m, IDLE, writes, i, w.collected, w.scrubber.Current());
      ValidStartsChar(writes[i]);
      w.Write(writes[i], now);
    }
    Ticks(w);
    assert writes[..|writes|] == writes;
  }

  /** Write text and finish. If the last flush reports success and GitLab never refused the
      job, GitLab has the truncated, masked text, however it was cut into writes, whatever
      was lost, delayed or delivered twice. */
  method LogText(w: TraceWriter, writes: seq<seq<byte>>) returns (complete: bool)
    requires w.Consistent() && w.collected == [] && w.scrubber.Current() == IDLE
    requires forall text | text in writes :: Valid(text)
    modifies w, w.scrubber, w.client, w.cancel
    ensures w.Consistent() && w.collected == StreamFrom(w.scrubber.scrubber, IDLE, writes)
    ensures complete && !w.aborted && w.client != null ==>
              w.client.log == Truncate(StreamFrom(w.scrubber.scrubber, IDLE, writes), w.cap)
    ensures complete && !w.aborted && w.client != null && Streamable(w.scrubber.scrubber, writes) ==>
              w.client.log == Truncate(ScrubText(w.scrubber.scrubber, Concat(writes)), w.cap)
  {
    ghost var m := w.scrubber.scrubber;
    WriteAll(w, writes);
    StreamIsEmittedAndFlushed(m, IDLE, writes);
    var flushes;
    complete, flushes := w.Finish();
    StreamableIsMasked(m, writes);
  }

  lemma StreamableIsMasked(m: Masker, writes: seq<seq<byte>>)
    requires forall text | text in writes :: Valid(text)
    ensures Streamable(m, writes) ==> StreamFrom(m, IDLE, writes) == ScrubText(m, Concat(writes))
  {
    if Streamable(m, writes) {
      StreamEqualsScrub(m, writes);
    }
  }

  // ---- What GitLab never sees ----

  lemma PrefixOccursNot(text: seq<byte>, n: nat, s: seq<byte>)
    requires n <= |text| && !Occurs(text, s)
    ensures !Occurs(text[..n], s)
  {
    forall i | OccursAt(text[..n], s, i) ensures OccursAt(text, s, i) {
      assert text[..n][i..i + |s|] == text[i..i + |s|];
    }
  }

  /** How much of a log is text; the notice follows. */
  function Kept(text: seq<byte>, cap: Cap): (n: nat)
    ensures n <= |text|
  {
    if |text| <= cap.limit then |text| else FloorBoundary(text, cap.limit)
  }

  lemma EmittedIsClean(m: Masker, writes: seq<seq<byte>>, s: seq<byte>)
    requires Guarded(m, writes) && s in m.secrets && Masked(s) && ApartFromMask(s)
    requires forall text | text in writes :: Valid(text)
    ensures !Occurs(Emitted(m, IDLE, writes), s)
  {
    StreamIsEmittedAndFlushed(m, IDLE, writes);
    StreamLeaksNoSecret(m, writes, s);
    var all, emitted := StreamFrom(m, IDLE, writes), Emitted(m, IDLE, writes);
    assert all[..|emitted|] == emitted;
    PrefixOccursNot(all, |emitted|, s);
  }

  /** At any moment of a job, not only when the log is complete, and with any patterns: no masked
      secret that no push cuts stands in what GitLab has; an occurrence would have to reach into
      the notice of a cut log. */
  lemma {:induction false} GitLabSeesNoSecret(w: TraceWriter, writes: seq<seq<byte>>, s: seq<byte>, i: int)
    requires w.Consistent() && w.client != null && w.collected == Emitted(w.scrubber.scrubber, IDLE, writes)
    requires Guarded(w.scrubber.scrubber, writes) && ApartFromMask(s)
    requires forall text | text in writes :: Valid(text)
    requires s in w.scrubber.scrubber.secrets && Masked(s) && OccursAt(w.client.log, s, i)
    ensures |w.collected| > w.cap.limit && i + |s| > Kept(w.collected, w.cap)
  {
    var kept := Kept(w.collected, w.cap);
    EmittedIsClean(w.scrubber.scrubber, writes, s);
    PrefixOccursNot(w.collected, kept, s);
    assert w.trace[..kept] == w.collected[..kept];
    LogOccursInTrace(w.client.log, w.trace, w.collected[..kept], s, i);
  }

  lemma LogOccursInTrace(log: seq<byte>, trace: seq<byte>, kept: seq<byte>, s: seq<byte>, i: int)
    requires IsPrefix(log, trace) && OccursAt(log, s, i) && IsPrefix(kept, trace)
    ensures i + |s| <= |kept| ==> OccursAt(kept, s, i)
  {
    if i + |s| <= |kept| {
      assert kept[i..i + |s|] == trace[i..i + |s|] == log[i..i + |s|];
    }
  }
}
