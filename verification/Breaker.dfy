/** The S3 circuit breaker (`Bucket`): one breaker shared by many concurrent calls, each with
    its own attempt loop, over a clock that only moves forward. */
module Breaker {
  import opened Options

  const ATTEMPTS: nat := 3

  /** The end of a pause, `None` when there is none. */
  type Gate = Option<nat>

  /** What `check_breaker` lets a call do. */
  datatype Admission = Skipped | Admitted(trial: bool)

  /** `check_breaker`: the answer and the breaker after it. */
  function Check(gate: Gate, now: nat, claim: bool, cooldown: nat): (Admission, Gate) {
    match gate
    case None => (Admitted(false), gate)
    case Some(until) =>
      if until > now then (Skipped, gate)
      else (Admitted(claim), if claim then Some(now + cooldown) else gate)
  }

  /** Where a call is: waiting for its next check, before a check that claims nothing, waiting
      for the answer to an attempt, reading a body, or over. */
  datatype Phase = Before | Checking | InFlight(trial: bool) | Reading | Over

  datatype Call = Call(attempts: nat, phase: Phase)

  /** An attempt that was let through: when, by which call, whether the breaker was open, and
      how often the breaker had been closed by then. */
  datatype Start = Start(time: nat, call: nat, trial: bool, epoch: nat)

  datatype State = State(now: nat, gate: Gate, calls: map<nat, Call>, epoch: nat, starts: seq<Start>)

  datatype Event =
    | Tick(ticks: nat)
    /** `put_file` (which checks before it hashes), or any other call. */
    | Begin(call: nat, put: bool)
    | CheckFirst(call: nat)
    | CheckAttempt(call: nat)
    /** The host fails the call: a file cannot be read or written, or is too large to upload. */
    | LocalError(call: nat)
    /** Any answer but a 5xx. */
    | Answered(call: nat)
    /** A 5xx, or an error other than a failed connection. */
    | AttemptFailed(call: nat)
    /** No connection, or no data moving. */
    | Unreachable(call: nat)
    /** Nothing more is wanted of the answer. */
    | BodyRead(call: nat)
    | BodyStalled(call: nat)

  predicate In(s: State, c: nat, phase: Phase) {
    c in s.calls && s.calls[c].phase == phase
  }

  predicate Flying(s: State, c: nat) {
    c in s.calls && s.calls[c].phase.InFlight?
  }

  /** Which events can happen. */
  predicate Enabled(s: State, e: Event) {
    match e
    case Tick(_) => true
    case Begin(c, _) => c !in s.calls
    case CheckFirst(c) => In(s, c, Before)
    case CheckAttempt(c) => In(s, c, Checking)
    case LocalError(c) => Flying(s, c) || In(s, c, Checking) || In(s, c, Reading)
    case Answered(c) => Flying(s, c)
    case AttemptFailed(c) => Flying(s, c)
    case Unreachable(c) => Flying(s, c)
    case BodyRead(c) => In(s, c, Reading)
    case BodyStalled(c) => In(s, c, Reading)
  }

  function Move(s: State, c: nat, phase: Phase): State
    requires c in s.calls
  {
    s.(calls := s.calls[c := s.calls[c].(phase := phase)])
  }

  /** `trip` */
  function Trip(s: State, cooldown: nat): State {
    s.(gate := Some(s.now + cooldown))
  }

  /** A call passes, or fails, the check before an attempt. */
  function TryAttempt(s: State, c: nat, cooldown: nat): State
    requires c in s.calls
  {
    var (answer, gate) := Check(s.gate, s.now, true, cooldown);
    match answer
    case Skipped => Move(s, c, Over)
    case Admitted(trial) =>
      s.(gate := gate,
         calls := s.calls[c := Call(s.calls[c].attempts + 1, InFlight(trial))],
         starts := s.starts + [Start(s.now, c, trial, s.epoch)])
  }

  function Step(s: State, e: Event, cooldown: nat): State
    requires Enabled(s, e)
  {
    match e
    case Tick(ticks) => s.(now := s.now + ticks)
    case Begin(c, put) => s.(calls := s.calls[c := Call(0, if put then Before else Checking)])
    case CheckFirst(c) =>
      if Check(s.gate, s.now, false, cooldown).0.Skipped? then Move(s, c, Over) else Move(s, c, Checking)
    case CheckAttempt(c) => TryAttempt(s, c, cooldown)
    case LocalError(c) => Move(s, c, Over)
    case Answered(c) => Move(s, c, Reading).(gate := None, epoch := s.epoch + 1)
    case AttemptFailed(c) =>
      if s.calls[c].phase.trial || s.calls[c].attempts >= ATTEMPTS then Trip(Move(s, c, Over), cooldown)
      else Move(s, c, Checking)
    case Unreachable(c) => Trip(Move(s, c, Over), cooldown)
    case BodyRead(c) => Move(s, c, Over)
    case BodyStalled(c) => Trip(Move(s, c, Over), cooldown)
  }

  /** All events of a run happen, one after the other. */
  predicate Possible(s: State, es: seq<Event>, cooldown: nat)
    decreases |es|
  {
    es == [] || (Enabled(s, es[0]) && Possible(Step(s, es[0], cooldown), es[1..], cooldown))
  }

  function Run(s: State, es: seq<Event>, cooldown: nat): State
    requires Possible(s, es, cooldown)
    decreases |es|
  {
    if es == [] then s else Run(Step(s, es[0], cooldown), es[1..], cooldown)
  }

  const FRESH: State := State(0, None, map[], 0, [])

  // ---- What every state keeps ----

  /** The breaker never waits longer than a cooldown, and at least one after each attempt
      that started while it was open. */
  predicate GateKept(s: State, cooldown: nat) {
    && (s.gate.Some? ==> s.gate.value <= s.now + cooldown)
    && (forall i | 0 <= i < |s.starts| :: s.starts[i].time <= s.now && s.starts[i].epoch <= s.epoch)
    && (forall i | 0 <= i < |s.starts| && s.starts[i].trial && s.starts[i].epoch == s.epoch ::
          s.gate.Some? && s.starts[i].time + cooldown <= s.gate.value)
  }

  /** Attempts that start while the breaker stays open: all trials, each a cooldown after the
      one before. */
  predicate Spaced(starts: seq<Start>, cooldown: nat) {
    forall i, j | 0 <= i < j < |starts| ::
      && starts[i].epoch <= starts[j].epoch
      && (starts[i].trial && starts[i].epoch == starts[j].epoch ==>
            starts[j].trial && starts[i].time + cooldown <= starts[j].time)
  }

  /** How many attempts a call has started. */
  function AttemptsOf(starts: seq<Start>, c: nat): (n: nat) {
    if starts == [] then 0
    else AttemptsOf(starts[..|starts| - 1], c) + if starts[|starts| - 1].call == c then 1 else 0
  }

  predicate CallKept(s: State, c: nat) {
    if c in s.calls then
      && s.calls[c].attempts == AttemptsOf(s.starts, c)
      && s.calls[c].attempts <= ATTEMPTS
      && (s.calls[c].phase.Before? ==> s.calls[c].attempts == 0)
      && (s.calls[c].phase.Checking? ==> s.calls[c].attempts < ATTEMPTS)
    else AttemptsOf(s.starts, c) == 0
  }

  ghost predicate CallsKept(s: State) {
    forall c :: CallKept(s, c)
  }

  /** A call that started a trial starts nothing more. */
  predicate TrialsAreLast(s: State) {
    && (forall i, j | 0 <= i < j < |s.starts| && s.starts[i].call == s.starts[j].call :: !s.starts[i].trial)
    && (forall i | 0 <= i < |s.starts| && s.starts[i].trial ::
          var c := s.starts[i].call; c in s.calls && s.calls[c].phase in {InFlight(true), Reading, Over})
  }

  lemma AttemptsOfOneMore(starts: seq<Start>, r: Start, c: nat)
    ensures AttemptsOf(starts + [r], c) == AttemptsOf(starts, c) + if r.call == c then 1 else 0
  {
    assert (starts + [r])[..|starts|] == starts;
  }

  lemma StepKeepsGate(s: State, e: Event, cooldown: nat)
    requires Enabled(s, e) && GateKept(s, cooldown)
    ensures GateKept(Step(s, e, cooldown), cooldown)
  {
    if e.CheckAttempt? {
      TryKeepsGate(s, e.call, cooldown);
    }
  }

  lemma TryKeepsGate(s: State, c: nat, cooldown: nat)
    requires c in s.calls && GateKept(s, cooldown)
    ensures GateKept(TryAttempt(s, c, cooldown), cooldown)
  {
  }

  lemma StepKeepsSpaced(s: State, e: Event, cooldown: nat)
    requires Enabled(s, e) && GateKept(s, cooldown) && Spaced(s.starts, cooldown)
    ensures Spaced(Step(s, e, cooldown).starts, cooldown)
  {
    var t := Step(s, e, cooldown);
    if t.starts != s.starts {
      var n := |s.starts|;
      forall i | 0 <= i < n
        ensures s.starts[i].epoch <= t.starts[n].epoch
        ensures s.starts[i].trial && s.starts[i].epoch == t.starts[n].epoch ==>
                  t.starts[n].trial && s.starts[i].time + cooldown <= t.starts[n].time
      {
      }
      SpacedMore(s.starts, t.starts[n], cooldown);
    }
  }

  lemma SpacedMore(starts: seq<Start>, r: Start, cooldown: nat)
    requires Spaced(starts, cooldown)
    requires forall i | 0 <= i < |starts| ::
               starts[i].epoch <= r.epoch &&
               (starts[i].trial && starts[i].epoch == r.epoch ==> r.trial && starts[i].time + cooldown <= r.time)
    ensures Spaced(starts + [r], cooldown)
  {
  }

  lemma StepKeepsCall(s: State, e: Event, cooldown: nat, c: nat)
    requires Enabled(s, e) && CallKept(s, c)
    ensures CallKept(Step(s, e, cooldown), c)
  {
    var t := Step(s, e, cooldown);
    if t.starts != s.starts {
      AttemptsOfOneMore(s.starts, t.starts[|s.starts|], c);
    }
  }

  lemma StepKeepsCalls(s: State, e: Event, cooldown: nat)
    requires Enabled(s, e) && CallsKept(s)
    ensures CallsKept(Step(s, e, cooldown))
  {
    forall c ensures CallKept(Step(s, e, cooldown), c) {
      assert CallKept(s, c);
      StepKeepsCall(s, e, cooldown, c);
    }
  }

  lemma StepKeepsTrials(s: State, e: Event, cooldown: nat)
    requires Enabled(s, e) && TrialsAreLast(s)
    ensures TrialsAreLast(Step(s, e, cooldown))
  {
  }

  /** The invariant of the machine. */
  ghost predicate Kept(s: State, cooldown: nat) {
    GateKept(s, cooldown) && Spaced(s.starts, cooldown) && CallsKept(s) && TrialsAreLast(s)
  }

  lemma StepKeeps(s: State, e: Event, cooldown: nat)
    requires Enabled(s, e) && Kept(s, cooldown)
    ensures Kept(Step(s, e, cooldown), cooldown)
  {
    StepKeepsGate(s, e, cooldown);
    StepKeepsSpaced(s, e, cooldown);
    StepKeepsCalls(s, e, cooldown);
    StepKeepsTrials(s, e, cooldown);
  }

  lemma {:induction false} RunKeeps(s: State, es: seq<Event>, cooldown: nat)
    requires Possible(s, es, cooldown) && Kept(s, cooldown)
    ensures Kept(Run(s, es, cooldown), cooldown)
    decreases |es|
  {
    if es != [] {
      StepKeeps(s, es[0], cooldown);
      RunKeeps(Step(s, es[0], cooldown), es[1..], cooldown);
    }
  }

  // ---- What follows for every run ----

  lemma {:induction false} SpacedAddsUp(starts: seq<Start>, cooldown: nat, i: nat, j: nat)
    requires Spaced(starts, cooldown) && i <= j < |starts|
    requires starts[i].trial && starts[i].epoch == starts[j].epoch
    ensures starts[j].trial && starts[i].time + (j - i) * cooldown <= starts[j].time
    decreases j - i
  {
    if i < j {
      assert starts[i].epoch <= starts[i + 1].epoch;
      assert starts[i + 1].epoch <= starts[j].epoch || i + 1 == j;
      SpacedAddsUp(starts, cooldown, i + 1, j);
      assert (j - i) * cooldown == (j - i - 1) * cooldown + cooldown;
    }
  }

  /** While the breaker stays open, S3 is troubled once per cooldown at most: between the
      first and the k-th attempt after it there are k cooldowns, and each is a trial. */
  lemma {:induction false} OpenAttemptsAreRare(es: seq<Event>, cooldown: nat, i: nat, j: nat)
    requires Possible(FRESH, es, cooldown)
    requires var starts := Run(FRESH, es, cooldown).starts;
             i <= j < |starts| && starts[i].trial && starts[i].epoch == starts[j].epoch
    ensures var starts := Run(FRESH, es, cooldown).starts;
            starts[j].trial && starts[i].time + (j - i) * cooldown <= starts[j].time
  {
    RunKeeps(FRESH, es, cooldown);
    SpacedAddsUp(Run(FRESH, es, cooldown).starts, cooldown, i, j);
  }

  /** A trial is never retried by its call, and no call makes more than three attempts. */
  lemma {:induction false} AttemptsAreBounded(es: seq<Event>, cooldown: nat, c: nat)
    requires Possible(FRESH, es, cooldown)
    ensures var starts := Run(FRESH, es, cooldown).starts;
            && AttemptsOf(starts, c) <= 3
            && (forall i, j | 0 <= i < j < |starts| && starts[i].call == starts[j].call :: !starts[i].trial)
  {
    RunKeeps(FRESH, es, cooldown);
    assert CallKept(Run(FRESH, es, cooldown), c);
  }

  /** Where the attempt of a call in flight started. */
  predicate LastStart(s: State, c: nat, i: nat) {
    i < |s.starts| && s.starts[i].call == c && forall j | i < j < |s.starts| :: s.starts[j].call != c
  }

  /** The attempt in flight is the last that its call started, and a trial exactly if that one was. */
  ghost predicate FlightKept(s: State, c: nat) {
    Flying(s, c) ==> exists i: nat :: LastStart(s, c, i) && s.starts[i].trial == s.calls[c].phase.trial
  }

  lemma StepKeepsFlight(s: State, e: Event, cooldown: nat, c: nat)
    requires Enabled(s, e) && FlightKept(s, c)
    ensures FlightKept(Step(s, e, cooldown), c)
  {
    var t := Step(s, e, cooldown);
    if Flying(t, c) {
      if t.starts != s.starts && e.call == c {
        assert LastStart(t, c, |s.starts|);
      } else {
        var i: nat :| LastStart(s, c, i) && s.starts[i].trial == s.calls[c].phase.trial;
        assert LastStart(t, c, i);
      }
    }
  }

  lemma {:induction false} RunKeepsFlight(s: State, es: seq<Event>, cooldown: nat, c: nat)
    requires Possible(s, es, cooldown) && FlightKept(s, c)
    ensures FlightKept(Run(s, es, cooldown), c)
    decreases |es|
  {
    if es != [] {
      StepKeepsFlight(s, es[0], cooldown, c);
      RunKeepsFlight(Step(s, es[0], cooldown), es[1..], cooldown, c);
    }
  }

  /** A failed attempt, in any reachable state. If its call has made fewer than three and this one was not a
      trial, the breaker stays as it is and the call checks again: with the breaker closed it is let through.
      Otherwise the call is over and the breaker open for a cooldown. */
  lemma {:induction false} FailureIsRetried(es: seq<Event>, c: nat, cooldown: nat) returns (i: nat)
    requires Possible(FRESH, es, cooldown) && Flying(Run(FRESH, es, cooldown), c)
    ensures var s := Run(FRESH, es, cooldown);
            var t := Step(s, AttemptFailed(c), cooldown);
            && LastStart(s, c, i)
            && if !s.starts[i].trial && AttemptsOf(s.starts, c) < 3 then
                 t.gate == s.gate && In(t, c, Checking)
                 && (s.gate.None? ==>
                       var u := Step(t, CheckAttempt(c), cooldown);
                       u.gate.None? && u.starts == s.starts + [Start(s.now, c, false, s.epoch)])
               else t.gate == Some(s.now + cooldown) && In(t, c, Over)
  {
    RunKeeps(FRESH, es, cooldown);
    RunKeepsFlight(FRESH, es, cooldown, c);
    var s := Run(FRESH, es, cooldown);
    assert CallKept(s, c);
    i :| LastStart(s, c, i) && s.starts[i].trial == s.calls[c].phase.trial;
  }

  /** What a check does: with the breaker closed an attempt starts, during a pause the call is over, and once
      the pause is over the attempt is a trial, before whose pause is over no other starts. A first check
      lets a call go on in just those cases, and claims nothing. */
  lemma {:induction false} ChecksExactly(s: State, c: nat, cooldown: nat)
    ensures In(s, c, Checking) ==>
              var t := Step(s, CheckAttempt(c), cooldown);
              if s.gate.Some? && s.gate.value > s.now then
                In(t, c, Over) && t.gate == s.gate && t.starts == s.starts
              else
                && Flying(t, c) && t.starts == s.starts + [Start(s.now, c, s.gate.Some?, s.epoch)]
                && t.gate == if s.gate.Some? then Some(s.now + cooldown) else None
    ensures In(s, c, Before) ==>
              var t := Step(s, CheckFirst(c), cooldown);
              && t.gate == s.gate && t.starts == s.starts
              && In(t, c, if s.gate.Some? && s.gate.value > s.now then Over else Checking)
  {
  }

  /** How often the breaker has been closed. */
  function Answers(es: seq<Event>): nat {
    if es == [] then 0 else (if es[0].Answered? then 1 else 0) + Answers(es[1..])
  }

  lemma {:induction false} EpochsAreAnswers(s: State, es: seq<Event>, cooldown: nat)
    requires Possible(s, es, cooldown)
    ensures Run(s, es, cooldown).epoch == s.epoch + Answers(es)
    decreases |es|
  {
    if es != [] {
      EpochsAreAnswers(Step(s, es[0], cooldown), es[1..], cooldown);
    }
  }

  /** No other event touches the breaker: an answer closes it, a call that cannot reach S3 opens it for a
      cooldown, and a check for an attempt does once the pause is over; time, first checks, errors of the
      host and bodies that are read leave it. */
  lemma {:induction false} GateExactly(s: State, e: Event, cooldown: nat)
    requires Enabled(s, e) && !e.AttemptFailed?
    ensures Step(s, e, cooldown).gate ==
            if e.Answered? then None
            else if e.Unreachable? || e.BodyStalled? || (e.CheckAttempt? && s.gate.Some? && s.gate.value <= s.now) then
              Some(s.now + cooldown)
            else s.gate
  {
  }

  lemma {:induction false} EpochsGrow(s: State, es: seq<Event>, cooldown: nat)
    requires Possible(s, es, cooldown)
    ensures s.epoch <= Run(s, es, cooldown).epoch
    decreases |es|
  {
    if es != [] {
      EpochsGrow(Step(s, es[0], cooldown), es[1..], cooldown);
    }
  }

  /** While the breaker stays open, the end of the pause never moves back. */
  lemma {:induction false} PauseNeverShrinks(s: State, es: seq<Event>, cooldown: nat)
    requires Possible(s, es, cooldown) && Kept(s, cooldown) && s.gate.Some?
    requires Run(s, es, cooldown).epoch == s.epoch
    ensures Run(s, es, cooldown).gate.Some? && s.gate.value <= Run(s, es, cooldown).gate.value
    decreases |es|
  {
    if es != [] {
      var t := Step(s, es[0], cooldown);
      EpochsGrow(t, es[1..], cooldown);
      StepKeeps(s, es[0], cooldown);
      PauseNeverShrinks(t, es[1..], cooldown);
    }
  }

  /** An answer closes the breaker, and it stays closed until a call fails to reach S3. */
  lemma {:induction false} ClosedUntilTripped(s: State, es: seq<Event>, cooldown: nat)
    requires Possible(s, es, cooldown) && s.gate.None?
    requires forall i | 0 <= i < |es| :: !es[i].AttemptFailed? && !es[i].Unreachable? && !es[i].BodyStalled?
    ensures Run(s, es, cooldown).gate.None?
    decreases |es|
  {
    if es != [] {
      ClosedUntilTripped(Step(s, es[0], cooldown), es[1..], cooldown);
    }
  }

  lemma {:induction false} AnswerCloses(s: State, c: nat, es: seq<Event>, cooldown: nat)
    requires Possible(s, [Answered(c)] + es, cooldown)
    requires forall i | 0 <= i < |es| :: !es[i].AttemptFailed? && !es[i].Unreachable? && !es[i].BodyStalled?
    ensures Run(s, [Answered(c)] + es, cooldown).gate.None?
  {
    assert ([Answered(c)] + es)[1..] == es;
    ClosedUntilTripped(Step(s, Answered(c), cooldown), es, cooldown);
  }

  /** The breaker never starves: in any reachable state, a call that checks again after one
      cooldown is let through. */
  lemma {:induction false} OneCooldownIsEnough(es: seq<Event>, c: nat, cooldown: nat)
    requires Possible(FRESH, es, cooldown) && In(Run(FRESH, es, cooldown), c, Checking)
    ensures var s := Run(FRESH, es, cooldown);
            var t := Step(Step(s, Tick(cooldown), cooldown), CheckAttempt(c), cooldown);
            |t.starts| == |s.starts| + 1 && t.starts[|s.starts|].call == c && Flying(t, c)
  {
    RunKeeps(FRESH, es, cooldown);
  }
}
