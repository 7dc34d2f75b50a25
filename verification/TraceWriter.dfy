/** The job's log writer (`TraceWriter`): the masked log of a job, how much of it GitLab is known
    to have, and the requests that close the gap. */
module TraceWriting {
  import opened Bytes
  import opened Utf8
  import opened StreamScrubbing
  import opened StreamOutput
  import opened TraceLog
  import opened Cancel
  import opened Scrubber
  import opened GitLabTrace

  // Durations are in milliseconds.
  const DEFAULT_UPDATE_INTERVAL: nat := 3000
  const MAX_UPDATE_INTERVAL: nat := 900_000
  const FLUSH_BYTES: nat := 256 * 1024
  const FINISH_ATTEMPTS: nat := 5

  class TraceWriter {
    const client: TraceEndpoint?
    const scrubber: StreamScrubber
    const cancel: CancelSignal
    const cap: Cap
    var trace: seq<byte>
    /** How much of the log the last understood answer claims to have. */
    var sent: nat
    var truncated: bool
    var lastFlush: nat
    var updateInterval: nat
    /** Everything the scrubber has released so far. */
    ghost var collected: seq<byte>
    /** An answer said that GitLab accepts no more output. */
    ghost var aborted: bool

    /** The log is that of everything the scrubber has released. */
    ghost predicate Recorded()
      reads this`trace, this`truncated, this`collected, scrubber
    {
      Log(trace, truncated) == Collected(collected, cap) && StartsChar(scrubber.pending)
    }

    /** GitLab has a prefix of the log; until an abort, at least what it has acknowledged. */
    ghost predicate Delivered()
      reads this`trace, this`sent, this`updateInterval, this`aborted, client, cancel
    {
      && sent <= |trace| && updateInterval <= MAX_UPDATE_INTERVAL
      && cancel.Consistent() && (aborted ==> cancel.state == Aborted)
      && (client != null ==>
            && client.Serves(trace) && (!aborted ==> sent <= |client.log|)
            && forall p | p in client.told :: AtLeast(cancel.state, p.remote) && (p.remote == Aborted ==> aborted))
    }

    ghost predicate Consistent()
      reads this, client, scrubber, cancel
    {
      Recorded() && Delivered()
    }

    constructor (client: TraceEndpoint?, masker: Masker, cancel: CancelSignal, cap: Cap, now: nat)
      requires client != null ==> client.log == [] && client.posted == {} && client.told == []
      requires cancel.Consistent()
      ensures Consistent() && collected == [] && !aborted && sent == 0 && lastFlush == now && updateInterval == 3000
      ensures this.client == client && this.cancel == cancel && this.cap == cap
      ensures fresh(scrubber) && scrubber.scrubber == masker && scrubber.Current() == IDLE
    {
      this.client, this.cancel, this.cap := client, cancel, cap;
      scrubber := new StreamScrubber(masker);
      trace, sent, truncated := [], 0, false;
      lastFlush, updateInterval := now, DEFAULT_UPDATE_INTERVAL;
      collected, aborted := [], false;
    }

    method Append(text: seq<byte>)
      requires Consistent() && StartsChar(text)
      modifies this`trace, this`truncated, this`collected
      ensures Consistent() && collected == old(collected) + text && IsPrefix(old(trace), trace)
    {
      var log := TraceLog.Append(Log(trace, truncated), text, cap, collected);
      if client != null {
        StillServed(client, trace, log.trace);
      }
      trace, truncated := log.trace, log.truncated;
      collected := collected + text;
    }

    /** After an answer that settles a request, with the signal as it was `before`: the signal, and what
        GitLab is known to have. The interval is GitLab's choice up to 15 minutes. */
    ghost predicate Heeds(a: Answer, before: RemoteState)
      requires Settles(a)
      reads this, cancel
    {
      && (SaysOver(a) ==> cancel.state == Aborted && aborted && sent == |trace|)
      && (SaysCanceling(a) ==> cancel.state == if before == Aborted then Aborted else Canceling)
      && (!SaysOver(a) && !SaysCanceling(a) ==> cancel.state == before)
      && (!SaysOver(a) && a.status == 416 ==> sent == Min(a.range.value, |trace|))
      && (!SaysOver(a) && a.status != 416 ==> sent == |trace|)
      && (a.updateInterval.Some? ==> updateInterval == Min(a.updateInterval.value, 900_000))
    }

    /** What an understood answer tells. */
    method Heed(patch: TracePatch)
      requires cancel.Consistent() && (aborted ==> cancel.state == Aborted)
      modifies this`sent, this`updateInterval, this`aborted, cancel
      ensures sent == if patch.remote == Aborted then |trace| else Min(patch.offset, |trace|)
      ensures aborted <==> old(aborted) || patch.remote == Aborted
      ensures updateInterval == match patch.updateInterval
                                { case None => old(updateInterval) case Some(i) => Min(i, MAX_UPDATE_INTERVAL) }
      ensures cancel.Consistent() && (aborted ==> cancel.state == Aborted)
      ensures AtLeast(cancel.state, old(cancel.state)) && AtLeast(cancel.state, patch.remote)
      ensures cancel.state in {old(cancel.state), patch.remote}
    {
      sent := Min(patch.offset, |trace|);
      cancel.Update(patch.remote);
      if patch.updateInterval.Some? {
        updateInterval := Min(patch.updateInterval.value, MAX_UPDATE_INTERVAL);
      }
      if patch.remote == Aborted {
        sent, aborted := |trace|, true;
      }
    }

    /** One request with all that GitLab is not known to have; does it then have the whole log? */
    method Flush(now: nat) returns (complete: bool)
      requires Delivered()
      modifies this`sent, this`lastFlush, this`updateInterval, this`aborted, client, cancel
      ensures Delivered() && lastFlush == now && (old(aborted) ==> aborted)
      ensures complete <==> sent == |trace|
      ensures client == null ==> complete
      // GitLab has everything, and exactly that.
      ensures client != null && complete && !aborted ==> client.log == trace
      // An answer that is understood tells the writer what GitLab has.
      ensures client != null ==> IsPrefix(old(client.log), client.log) && client.mishaps >= old(client.mishaps)
      ensures client != null && !complete && client.mishaps < old(client.mishaps) + 3 ==>
                sent == |client.log|
      ensures client != null && client.mishaps == old(client.mishaps) && old(sent == |client.log|) ==> complete
      // What the last answer says is done; without one that settles the request nothing changes.
      ensures client != null ==> old(client.answers) <= client.answers
      ensures client != null && |client.answers| > |old(client.answers)|
              && Settles(client.answers[|client.answers| - 1]) ==>
                && Heeds(client.answers[|client.answers| - 1], old(cancel.state))
                && (aborted <==> old(aborted) || SaysOver(client.answers[|client.answers| - 1]))
      ensures client != null
              && !(|client.answers| > |old(client.answers)| && Settles(client.answers[|client.answers| - 1])) ==>
                cancel.state == old(cancel.state) && aborted == old(aborted) && sent == old(sent)
                && updateInterval == old(updateInterval)
    {
      lastFlush := now;
      if client == null {
        sent := |trace|;
        return true;
      }
      if sent >= |trace| {
        return true;
      }
      var patch := PatchTrace(client, trace[sent..], sent, trace);
      if patch.Some? {
        Heed(patch.value);
      }
      complete := sent >= |trace|;
    }

    /** `flush_if_due`: flush once the interval is over, and leave everything as it is before. */
    method FlushIfDue(now: nat)
      requires Consistent()
      modifies this`sent, this`lastFlush, this`updateInterval, this`aborted, client, cancel
      ensures Consistent() && (old(aborted) ==> aborted)
      ensures client != null ==> IsPrefix(old(client.log), client.log)
      ensures if now >= old(lastFlush) + old(updateInterval) then lastFlush == now
              else lastFlush == old(lastFlush) && sent == old(sent) && updateInterval == old(updateInterval)
                   && (client != null ==> client.log == old(client.log)) && cancel.state == old(cancel.state)
    {
      if now >= lastFlush + updateInterval {
        var _ := Flush(now);
      }
    }

    /** Mask more output, append it, and flush when a batch is full or the interval is over. */
    method Write(text: seq<byte>, now: nat)
      requires Consistent() && StartsChar(text)
      modifies this, scrubber, client, cancel
      ensures Consistent() && (old(aborted) ==> aborted)
      ensures var p := PushChunk(scrubber.scrubber, old(scrubber.Current()), text);
              scrubber.Current() == p.state && collected == old(collected) + p.out
      ensures client != null ==> IsPrefix(old(client.log), client.log)
      // No more than a batch waits for the next flush, unless the flush that was due failed.
      ensures |trace| - sent >= 262_144 || now >= old(lastFlush) + old(updateInterval) ==> lastFlush == now
    {
      PushStartsChar(scrubber.scrubber, scrubber.Current(), text);
      var safe := scrubber.Push(text);
      Append(safe);
      if |trace| - sent >= FLUSH_BYTES {
        var _ := Flush(now);
      } else {
        FlushIfDue(now);
      }
    }

    /** The end of the job: the masker's rest is appended, and flushed until GitLab has everything
        or the attempts are used up. `complete` is what the last flush answered. */
    method Finish() returns (complete: bool, flushes: nat)
      requires Consistent()
      modifies this, scrubber, client, cancel
      ensures Consistent() && (old(aborted) ==> aborted)
      ensures scrubber.Current() == IDLE
      ensures collected == old(collected) + ScrubText(scrubber.scrubber, old(scrubber.pending))
      ensures client != null && complete && !aborted ==> client.log == trace
      // Every proper answer makes progress: two flushes, and one more for each mishap.
      ensures 1 <= flushes <= 5 && (!complete ==> flushes == 5)
      ensures client == null ==> complete
      ensures client != null ==> flushes <= 2 + (client.mishaps - old(client.mishaps))
      ensures client != null && client.mishaps - old(client.mishaps) <= 3 ==> complete
    {
      ScrubTextStartsChar(scrubber.scrubber, scrubber.pending);
      var rest := scrubber.Finish();
      Append(rest);
      complete, flushes := FlushAll();
    }

    /** The retry loop of `finish`. */
    method FlushAll() returns (complete: bool, flushes: nat)
      requires Delivered()
      modifies this`sent, this`lastFlush, this`updateInterval, this`aborted, client, cancel
      ensures Delivered() && (old(aborted) ==> aborted)
      ensures client != null && complete && !aborted ==> client.log == trace
      ensures 1 <= flushes <= 5 && (!complete ==> flushes == 5) && (client == null ==> complete)
      ensures client != null ==> flushes <= 2 + (client.mishaps - old(client.mishaps))
      ensures client != null && client.mishaps - old(client.mishaps) <= 3 ==> complete
    {
      complete, flushes := false, 0;
      while flushes < FINISH_ATTEMPTS
        invariant Delivered() && (old(aborted) ==> aborted)
        invariant flushes <= FINISH_ATTEMPTS && !complete && (flushes > 0 ==> client != null)
        invariant client != null ==> client.mishaps >= old(client.mishaps)
        invariant client != null ==>
                    flushes + (if sent == |client.log| then 0 else 1) <= 1 + client.mishaps - old(client.mishaps)
        decreases FINISH_ATTEMPTS - flushes
      {
        var now: nat := *;
        complete := Flush(now);
        flushes := flushes + 1;
        if complete {
          return;
        }
      }
    }
  }

  lemma OccursInLonger(text: seq<byte>, longer: seq<byte>, s: seq<byte>, i: int)
    requires IsPrefix(text, longer) && OccursAt(text, s, i)
    ensures OccursAt(longer, s, i)
  {
    assert text[i..i + |s|] == longer[i..i + |s|];
  }

  lemma PrefixOfPrefix(a: seq<byte>, b: seq<byte>, c: seq<byte>)
    requires IsPrefix(a, b) && IsPrefix(b, c)
    ensures IsPrefix(a, c)
  {
    assert c[..|a|] == c[..|b|][..|a|];
  }

  lemma StillServed(endpoint: TraceEndpoint, trace: seq<byte>, longer: seq<byte>)
    requires endpoint.Serves(trace) && IsPrefix(trace, longer)
    ensures endpoint.Serves(longer)
  {
    forall p | p in endpoint.posted ensures OccursAt(longer, p.data, p.offset) {
      OccursInLonger(trace, longer, p.data, p.offset);
    }
    PrefixOfPrefix(endpoint.log, trace, longer);
  }
}
