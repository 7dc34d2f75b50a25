/** The bucket's calls in the form of the code: the locked sections of the breaker and the
    attempt loop of `send`, with any other calls running in between. Every run of it is a run
    of the breaker machine, so what holds for those holds here. */
module S3Bucket {
  import opened Options
  import opened Breaker

  lemma {:induction false} OneEventMore(s: State, es: seq<Event>, e: Event, cooldown: nat)
    requires Possible(s, es, cooldown) && Enabled(Run(s, es, cooldown), e)
    ensures Possible(s, es + [e], cooldown)
    ensures Run(s, es + [e], cooldown) == Step(Run(s, es, cooldown), e, cooldown)
    decreases |es|
  {
    if es == [] {
      var none: seq<Event> := [];
      assert es + [e] == [e] && [e][1..] == none;
      OnlyEvent(s, e, cooldown);
    } else {
      assert (es + [e])[1..] == es[1..] + [e] && (es + [e])[0] == es[0];
      OneEventMore(Step(s, es[0], cooldown), es[1..], e, cooldown);
    }
  }

  lemma OnlyEvent(s: State, e: Event, cooldown: nat)
    requires Enabled(s, e)
    ensures Possible(s, [e], cooldown) && Run(s, [e], cooldown) == Step(s, e, cooldown)
  {
    var none: seq<Event> := [];
    assert [e][1..] == none;
  }

  /** The call an event belongs to. */
  function CallOf(e: Event): Option<nat> {
    if e.Tick? then None else Some(e.call)
  }

  lemma OtherCall(s: State, e: Event, c: nat, cooldown: nat)
    requires Enabled(s, e) && CallOf(e) != Some(c)
    ensures var t := Step(s, e, cooldown);
            && t.now >= s.now && s.starts <= t.starts
            && (c in t.calls <==> c in s.calls) && (c in t.calls ==> t.calls[c] == s.calls[c])
  {
  }

  /** How a call ends, as far as S3 is asked; `HostFailed` is an error of the host before an answer. */
  datatype Outcome = NotAsked | HostFailed | Reply | NoReply

  /** What becomes of an answer: its status says all, or its body is stored, or breaks off or stalls, or
      cannot be written. */
  datatype Body = Unwanted | Stored | Stalled | NotWritten

  class Bucket {
    const cooldown: nat
    /** The pause, if S3 could not be reached last time. */
    var breaker: Gate
    var now: nat
    var calls: map<nat, Call>
    var epoch: nat
    var starts: seq<Start>
    /** Everything that has happened. */
    ghost var events: seq<Event>

    function World(): State
      reads this
    {
      State(now, breaker, calls, epoch, starts)
    }

    ghost predicate Consistent()
      reads this
    {
      Possible(FRESH, events, cooldown) && World() == Run(FRESH, events, cooldown)
    }

    constructor (cooldown: nat)
      ensures Consistent() && breaker.None? && calls == map[] && this.cooldown == cooldown
    {
      this.cooldown := cooldown;
      breaker, now, calls, epoch, starts, events := None, 0, map[], 0, [], [];
    }

    method CheckBreaker(claim: bool) returns (answer: Admission)
      modifies `breaker
      ensures (answer, breaker) == Check(old(breaker), now, claim, cooldown)
    {
      if breaker.None? {
        return Admitted(false);
      }
      if breaker.value > now {
        return Skipped;
      }
      if claim {
        breaker := Some(now + cooldown);
      }
      answer := Admitted(claim);
    }

    method TripBreaker()
      modifies `breaker
      ensures breaker == Some(now + cooldown)
    {
      breaker := Some(now + cooldown);
    }

    /** Write down that `e` has happened, once the locked section that found the breaker as
        `was` has done its part. */
    method Record(e: Event, was: Gate)
      requires Possible(FRESH, events, cooldown) && Was(was) == Run(FRESH, events, cooldown)
      requires Enabled(Was(was), e) && !e.Tick? && Step(Was(was), e, cooldown).gate == breaker
      modifies `calls, `epoch, `starts, `events
      ensures Consistent() && World() == old(Step(Was(was), e, cooldown)) && events == old(events) + [e]
    {
      OneEventMore(FRESH, events, e, cooldown);
      events := events + [e];
      var after := Step(Was(was), e, cooldown);
      calls, epoch, starts := after.calls, after.epoch, after.starts;
    }

    function Was(gate: Gate): State
      reads this
    {
      State(now, gate, calls, epoch, starts)
    }

    method Advance(e: Event)
      requires Consistent() && Enabled(World(), e)
      modifies this
      ensures Consistent() && World() == Step(old(World()), e, cooldown)
    {
      OneEventMore(FRESH, events, e, cooldown);
      events := events + [e];
      var t := Step(World(), e, cooldown);
      now, breaker, calls, epoch, starts := t.now, t.gate, t.calls, t.epoch, t.starts;
    }

    /** Time passes, and any other calls do what they do. */
    method OthersRun(c: nat)
      requires Consistent()
      modifies this
      ensures Consistent() && now >= old(now) && old(starts) <= starts
      ensures c in calls <==> c in old(calls)
      ensures c in calls ==> calls[c] == old(calls)[c]
    {
      var steps: int := *;
      while steps > 0
        invariant Consistent() && now >= old(now) && old(starts) <= starts
        invariant c in calls <==> c in old(calls)
        invariant c in calls ==> calls[c] == old(calls)[c]
        decreases steps
      {
        var e: Event := *;
        if Enabled(World(), e) && CallOf(e) != Some(c) {
          OtherCall(World(), e, c, cooldown);
          Advance(e);
        }
        steps := steps - 1;
      }
    }

    /** The check before an attempt; the call `c` is over if it is skipped. */
    method Admit(c: nat) returns (answer: Admission)
      requires Consistent() && In(World(), c, Checking)
      modifies this
      ensures Consistent() && c in calls
      ensures answer.Skipped? ==> calls[c] == old(calls[c]).(phase := Over)
      ensures answer.Skipped? ==> breaker.Some? && breaker.value > now
      ensures answer.Admitted? ==> calls[c] == Call(old(calls[c]).attempts + 1, InFlight(answer.trial))
      ensures events == old(events) + [CheckAttempt(c)]
      ensures starts == old(starts) + if answer.Admitted? then [Start(now, c, answer.trial, epoch)] else []
    {
      var was := breaker;
      answer := CheckBreaker(true);
      Record(CheckAttempt(c), was);
    }

    /** A call ends because S3 cannot be reached. */
    method TripFor(c: nat, e: Event)
      requires Consistent() && c in calls && Enabled(World(), e)
      requires e in {AttemptFailed(c), Unreachable(c), BodyStalled(c)}
      requires e.AttemptFailed? ==> calls[c].phase.trial || calls[c].attempts >= ATTEMPTS
      modifies this
      ensures Consistent() && breaker == Some(now + cooldown) && events == old(events) + [e]
      ensures starts == old(starts)
      ensures c in calls && calls[c] == old(calls[c]).(phase := Over)
    {
      var was := breaker;
      TripBreaker();
      Record(e, was);
    }

    /** The host ends the call; that says nothing about S3. */
    method HostFails(c: nat)
      requires Consistent() && c in calls && Enabled(World(), LocalError(c))
      modifies `calls, `epoch, `starts, `events
      ensures Consistent() && events == old(events) + [LocalError(c)]
      ensures c in calls && calls[c] == old(calls[c]).(phase := Over)
    {
      Record(LocalError(c), breaker);
    }

    /** A failed attempt that was neither a trial nor the last one leaves the breaker as it is. */
    method TryAgain(c: nat)
      requires Consistent() && c in calls && calls[c].phase == InFlight(false) && calls[c].attempts < ATTEMPTS
      modifies `calls, `epoch, `starts, `events
      ensures Consistent() && events == old(events) + [AttemptFailed(c)]
      ensures c in calls && calls[c] == old(calls[c]).(phase := Checking)
    {
      Record(AttemptFailed(c), breaker);
    }

    /** An answer ends the pause, whatever it says. */
    method CloseFor(c: nat)
      requires Consistent() && Flying(World(), c)
      modifies this
      ensures Consistent() && breaker.None? && events == old(events) + [Answered(c)]
      ensures c in calls && calls[c] == old(calls[c]).(phase := Reading)
    {
      var was := breaker;
      breaker := None;
      Record(Answered(c), was);
    }

    /** Some attempt of `c` was a trial. */
    predicate TriedOnce(c: nat)
      reads this
    {
      exists i :: 0 <= i < |starts| && starts[i].call == c && starts[i].trial
    }

    /** `send`: up to three attempts, a trial only one. */
    method Send(c: nat) returns (r: Outcome)
      requires Consistent() && c in calls && calls[c] == Call(0, Checking)
      modifies this
      ensures Consistent() && c in calls && calls[c].attempts <= ATTEMPTS
      // An answer leaves the breaker closed, a failure leaves it open for a whole cooldown.
      ensures r.Reply? ==> breaker.None? && calls[c].phase == Reading
      ensures r.NoReply? ==> breaker == Some(now + cooldown)
      ensures r.NotAsked? ==> breaker.Some? && breaker.value > now
      ensures !r.Reply? ==> calls[c].phase == Over
      // One check and one attempt per turn: a call that was never let through asked nothing.
      ensures r.NoReply? || r.Reply? || r.HostFailed? ==> calls[c].attempts > 0
      // It ends as its last event says, and gives up on failed attempts only after three, or a trial.
      ensures events != []
      ensures var last := events[|events| - 1];
              && (r.NotAsked? ==> last == CheckAttempt(c)) && (r.HostFailed? ==> last == LocalError(c))
              && (r.Reply? ==> last == Answered(c))
              && (r.NoReply? ==>
                    || last == Unreachable(c)
                    || (last == AttemptFailed(c) && (calls[c].attempts == 3 || TriedOnce(c))))
    {
      var attempt := 0;
      while attempt < ATTEMPTS
        invariant attempt <= ATTEMPTS && Consistent() && c in calls && calls[c].attempts == attempt
        invariant attempt < ATTEMPTS ==> calls[c].phase == Checking
        invariant attempt == ATTEMPTS ==> calls[c].phase == InFlight(false)
        decreases ATTEMPTS - attempt
      {
        OthersRun(c);
        var answer := Admit(c);
        if answer.Skipped? {
          return NotAsked;
        }
        attempt := attempt + 1;
        ghost var mine := |starts| - 1;
        OthersRun(c);
        assert starts[mine].call == c && (answer.trial ==> starts[mine].trial);
        if {
          case true =>
            HostFails(c);
            return HostFailed;
          case true =>
            CloseFor(c);
            return Reply;
          case true =>
            TripFor(c, Unreachable(c));
            return NoReply;
          case true => // a 5xx, or an error after the connection was made
        }
        if answer.trial {
          break;
        }
        if attempt < ATTEMPTS {
          TryAgain(c);
        }
      }
      TripFor(c, AttemptFailed(c));
      r := NoReply;
    }

    /** The end of a call that has an answer; only a body that breaks off or stalls trips the breaker. */
    method ReadBody(c: nat) returns (body: Body)
      requires Consistent() && In(World(), c, Reading)
      modifies this
      ensures Consistent() && c in calls && calls[c] == old(calls[c]).(phase := Over)
      ensures events == old(events) + [LastEvent(c, body)]
      ensures breaker == if body.Stalled? then Some(now + cooldown) else old(breaker)
    {
      if {
        case true => body := Unwanted;
        case true => body := Stored;
        case true => body := NotWritten;
        case true =>
          TripFor(c, BodyStalled(c));
          return Stalled;
      }
      Record(LastEvent(c, body), breaker);
    }

    /** `get_to_file`: a call that reads the body of its answer. */
    method Get(c: nat) returns (r: Outcome, body: Body)
      requires Consistent() && c !in calls
      modifies this
      ensures Consistent() && c in calls && calls[c].attempts <= ATTEMPTS && calls[c].phase == Over
      ensures r.NoReply? || (r.Reply? && body.Stalled?) ==> breaker == Some(now + cooldown)
      ensures r.Reply? ==> events != [] && events[|events| - 1] == LastEvent(c, body)
    {
      Record(Begin(c, false), breaker);
      r := Send(c);
      body := Unwanted;
      if r.Reply? {
        OthersRun(c);
        body := ReadBody(c);
      }
    }

    /** `put_file`: skipped before the archive is read at all, without claiming the trial. */
    method Put(c: nat) returns (r: Outcome)
      requires Consistent() && c !in calls
      modifies this
      ensures Consistent() && c in calls && calls[c].attempts <= ATTEMPTS
      ensures r.Reply? ==> breaker.None?
      ensures r.NoReply? ==> breaker == Some(now + cooldown)
      ensures old(breaker).Some? && old(breaker.value > now) ==>
                r.NotAsked? && breaker == old(breaker) && starts == old(starts)
      ensures !r.Reply? ==> calls[c].phase == Over
    {
      Record(Begin(c, true), breaker);
      var answer := CheckBreaker(false);
      Record(CheckFirst(c), breaker);
      if answer.Skipped? {
        return NotAsked;
      }
      OthersRun(c);
      // The archive cannot be measured, is too large for one upload, or cannot be hashed.
      if * {
        Record(LocalError(c), breaker);
        return HostFailed;
      }
      r := Send(c);
    }
  }

  function LastEvent(c: nat, body: Body): Event {
    match body
    case Stalled => BodyStalled(c)
    case NotWritten => LocalError(c)
    case _ => BodyRead(c)
  }
}
