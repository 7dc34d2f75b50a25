/** Sending a job log to GitLab: the trace endpoint as an append-only log, the network as a
    bag of requests that may be lost, delayed or delivered again, and the client's attempts. */
module GitLabTrace {
  import opened Bytes
  import opened Cancel
  import opened Options

  /** A PATCH request: bytes for an offset of the trace. */
  datatype Patch = Patch(offset: nat, data: seq<byte>)

  /** A response, as far as the client reads it. */
  datatype Answer = Answer(status: nat, jobStatus: Option<string>, range: Option<nat>, updateInterval: Option<nat>)

  datatype TracePatch = TracePatch(offset: nat, remote: RemoteState, updateInterval: Option<nat>)

  const ACCEPTED := 202
  const FORBIDDEN := 403
  const RANGE_NOT_SATISFIABLE := 416
  const MAX_ATTEMPTS: nat := 3

  predicate IsSuccess(status: nat) {
    200 <= status < 300
  }

  /** `RemoteState::from_response` */
  function FromResponse(a: Answer): RemoteState {
    if a.status == FORBIDDEN then Aborted
    else if a.jobStatus == Some("canceling") then Canceling
    else if a.jobStatus == Some("canceled") || a.jobStatus == Some("failed") then Aborted
    else Running
  }

  /** What one answer means to `patch_trace`; `None` is an error that is tried again. */
  function Understand(a: Answer, p: Patch): Option<TracePatch> {
    var remote := FromResponse(a);
    if a.status == FORBIDDEN then Some(TracePatch(p.offset, remote, a.updateInterval))
    else if a.status == RANGE_NOT_SATISFIABLE then
      match a.range
      case Some(length) => Some(TracePatch(length, remote, a.updateInterval))
      case None => None
    else if IsSuccess(a.status) then Some(TracePatch(p.offset + |p.data|, remote, a.updateInterval))
    else None
  }

  // ---- What answers say, by their status line and headers ----

  /** The request is settled: the job is over, or GitLab has taken the bytes or says how many it has. */
  predicate Settles(a: Answer) {
    a.status == 403 || (a.status == 416 && a.range.Some?) || 200 <= a.status <= 299
  }

  /** GitLab takes no more output of the job. */
  predicate SaysOver(a: Answer) {
    a.status == 403 || a.jobStatus == Some("canceled") || a.jobStatus == Some("failed")
  }

  /** The job was canceled in the user interface. */
  predicate SaysCanceling(a: Answer) {
    a.status != 403 && a.jobStatus == Some("canceling")
  }

  /** `t` is what an answer to `p` says. */
  predicate Says(a: Answer, p: Patch, t: TracePatch) {
    && (t.remote == Aborted <==> SaysOver(a))
    && (t.remote == Canceling <==> SaysCanceling(a))
    && t.updateInterval == a.updateInterval
    && (a.status == 416 ==> a.range == Some(t.offset))
    && (200 <= a.status <= 299 ==> t.offset == p.offset + |p.data|)
  }

  /** The decoding of an answer: exactly those that settle the request are understood, and as what they say. */
  lemma {:induction false} UnderstandExactly(a: Answer, p: Patch)
    ensures Understand(a, p).Some? <==> Settles(a)
    ensures Settles(a) ==> Says(a, p, Understand(a, p).value)
  {
  }

  class TraceEndpoint {
    /** The trace as GitLab has it. */
    var log: seq<byte>
    /** Every request ever put on the network; each may still arrive, any number of times. */
    var posted: set<Patch>
    /** Requests that were not answered properly, and late arrivals that changed the trace. */
    ghost var mishaps: nat
    /** All answers that reached the client. */
    ghost var answers: seq<Answer>
    /** What the client has understood of them. */
    ghost var told: seq<TracePatch>

    constructor ()
      ensures log == [] && posted == {} && mishaps == 0 && answers == [] && told == []
    {
      log, posted, mishaps, answers, told := [], {}, 0, [], [];
    }

    /** GitLab has a prefix of `trace`, and nothing else can ever reach it. */
    ghost predicate Serves(trace: seq<byte>)
      reads this
    {
      IsPrefix(log, trace) && forall p | p in posted :: OccursAt(trace, p.data, p.offset)
    }

    /** GitLab appends a request that starts where its trace ends, and refuses any other. */
    method Process(p: Patch) returns (answer: Answer)
      modifies `log
      ensures p.offset == |old(log)| ==> log == old(log) + p.data && answer.status == ACCEPTED
      ensures p.offset != |old(log)| ==>
                log == old(log) && answer.status == RANGE_NOT_SATISFIABLE && answer.range == Some(|log|)
    {
      var jobStatus: Option<string>, updateInterval: Option<nat> := *, *;
      if p.offset == |log| {
        log := log + p.data;
        return Answer(ACCEPTED, jobStatus, None, updateInterval);
      }
      return Answer(RANGE_NOT_SATISFIABLE, jobStatus, Some(|log|), updateInterval);
    }

    /** Any of the requests on the network arrive, in any order and any number of times. */
    method LateArrivals(ghost trace: seq<byte>)
      requires Serves(trace)
      modifies `log, `mishaps
      ensures Serves(trace) && IsPrefix(old(log), log)
      ensures mishaps >= old(mishaps) && (mishaps == old(mishaps) ==> log == old(log))
    {
      var arrivals: int := *;
      while arrivals > 0
        invariant Serves(trace) && IsPrefix(old(log), log)
        invariant mishaps >= old(mishaps) && (mishaps == old(mishaps) ==> log == old(log))
      {
        if posted != {} {
          var p :| p in posted;
          ghost var before := log;
          AppendStaysPrefix(log, p, trace);
          var _ := Process(p);
          if log != before {
            mishaps := mishaps + 1;
          }
        }
        arrivals := arrivals - 1;
      }
    }

    /** One request: it may get lost, its answer may get lost, it may be answered with an
        error, refused because the job is over, or be answered properly. */
    method Request(p: Patch, ghost trace: seq<byte>) returns (reply: Option<Answer>)
      requires Serves(trace) && OccursAt(trace, p.data, p.offset)
      modifies `log, `posted, `mishaps, `answers
      ensures Serves(trace) && IsPrefix(old(log), log) && posted == old(posted) + {p}
      ensures answers == old(answers) + if reply.Some? then [reply.value] else []
      ensures mishaps >= old(mishaps)
      ensures reply.None? || Understand(reply.value, p).None? ==> mishaps > old(mishaps)
      ensures reply.Some? && Understand(reply.value, p).Some? && FromResponse(reply.value) != Aborted ==>
                Understand(reply.value, p).value.offset == |log|
      ensures mishaps == old(mishaps) && reply.value.status != FORBIDDEN && p.offset == |old(log)| ==>
                IsSuccess(reply.value.status)
    {
      LateArrivals(trace);
      posted := posted + {p};
      AppendStaysPrefix(log, p, trace);
      if {
        case true =>
          mishaps := mishaps + 1;
          if * {
            var _ := Process(p);
          }
          reply := None;
          if * {
            var status: nat := *;
            var jobStatus: Option<string> := *;
            if status != FORBIDDEN && !IsSuccess(status) {
              reply := Some(Answer(status, jobStatus, None, None));
            }
          }
        case true =>
          var jobStatus: Option<string>, updateInterval: Option<nat> := *, *;
          reply := Some(Answer(FORBIDDEN, jobStatus, None, updateInterval));
        case true =>
          var answer := Process(p);
          reply := Some(answer);
      }
      if reply.Some? {
        answers := answers + [reply.value];
      }
    }
  }

  lemma AppendStaysPrefix(log: seq<byte>, p: Patch, trace: seq<byte>)
    requires IsPrefix(log, trace) && OccursAt(trace, p.data, p.offset)
    ensures p.offset == |log| ==> IsPrefix(log + p.data, trace)
  {
    if p.offset == |log| {
      assert trace[..|log| + |p.data|] == trace[..|log|] + trace[|log|..|log| + |p.data|];
    }
  }

  /** `patch_trace`: up to three attempts; the answer of the first that is understood. */
  method PatchTrace(endpoint: TraceEndpoint, data: seq<byte>, offset: nat, ghost trace: seq<byte>)
    returns (patch: Option<TracePatch>)
    requires endpoint.Serves(trace) && OccursAt(trace, data, offset)
    modifies endpoint
    ensures endpoint.Serves(trace) && IsPrefix(old(endpoint.log), endpoint.log)
    ensures endpoint.mishaps >= old(endpoint.mishaps)
    ensures patch.None? ==> endpoint.mishaps >= old(endpoint.mishaps) + 3
    ensures data == [] ==> patch == Some(TracePatch(offset, Running, None)) && unchanged(endpoint)
    ensures data != [] && patch.Some? && patch.value.remote != Aborted ==> patch.value.offset == |endpoint.log|
    ensures data != [] && endpoint.mishaps == old(endpoint.mishaps) && offset == |old(endpoint.log)| ==>
              patch.Some? && (patch.value.remote == Aborted || patch.value.offset == offset + |data|)
    ensures data != [] ==>
              endpoint.told == old(endpoint.told) + if patch.Some? then [patch.value] else []
    // It is the last answer that was understood, and the only one that settles the request.
    ensures old(endpoint.answers) <= endpoint.answers && |endpoint.answers| <= |old(endpoint.answers)| + 3
    ensures forall i | |old(endpoint.answers)| <= i < |endpoint.answers| ::
              Settles(endpoint.answers[i]) <==> patch.Some? && i == |endpoint.answers| - 1
    ensures data != [] && patch.Some? ==>
              && |endpoint.answers| > |old(endpoint.answers)|
              && Says(endpoint.answers[|endpoint.answers| - 1], Patch(offset, data), patch.value)
  {
    if data == [] {
      return Some(TracePatch(offset, Running, None));
    }
    var p := Patch(offset, data);
    for attempt := 0 to MAX_ATTEMPTS
      invariant endpoint.Serves(trace) && IsPrefix(old(endpoint.log), endpoint.log)
      invariant endpoint.mishaps >= old(endpoint.mishaps) + attempt
      invariant attempt == 0 ==> endpoint.log == old(endpoint.log)
      invariant endpoint.told == old(endpoint.told) && old(endpoint.answers) <= endpoint.answers
      invariant |endpoint.answers| <= |old(endpoint.answers)| + attempt
      invariant forall i | |old(endpoint.answers)| <= i < |endpoint.answers| :: !Settles(endpoint.answers[i])
    {
      var reply := endpoint.Request(p, trace);
      if reply.Some? {
        patch := Understand(reply.value, p);
        UnderstandExactly(reply.value, p);
        if patch.Some? {
          endpoint.told := endpoint.told + [patch.value];
          return;
        }
      }
    }
    patch := None;
  }
}
