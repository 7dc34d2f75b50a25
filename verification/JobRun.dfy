/** `run_job_steps` as it runs: sources, restore and the step loop against a clock and a
    cancellation that may escalate at any moment. */
module JobRun {
  import opened Bytes
  import opened Cancel
  import opened Options
  import opened JobSteps

  // Milliseconds.
  const RESTORE_STOP_GRACE: nat := 10_000
  const DEFAULT_AFTER_SCRIPT_TIMEOUT: nat := 300_000

  // ---- Deadlines ----

  /** `Instant::checked_add`: no instant lies after `last`. */
  function CheckedAdd(now: nat, wanted: nat, last: nat): Option<nat> {
    if now + wanted <= last then Some(now + wanted) else None
  }

  /** The end of the script steps: that of the job, or an earlier one the job asks for. */
  function ScriptDeadline(now: nat, deadline: nat, wanted: Option<nat>, last: nat): nat {
    match wanted
    case None => deadline
    case Some(t) =>
      match CheckedAdd(now, t, last)
      case None => deadline
      case Some(d) => Min(deadline, d)
  }

  /** The end of an after_script: the time asked for, cut at the end of the job or at the
      default grace from now, whichever is later. */
  function AfterScriptDeadline(now: nat, deadline: nat, wanted: nat, last: nat): nat {
    var cap := Max(deadline, now + DEFAULT_AFTER_SCRIPT_TIMEOUT);
    match CheckedAdd(now, wanted, last)
    case None => cap
    case Some(d) => Min(d, cap)
  }

  /** For any requested duration, also one no instant can express: the deadline is what exact
      arithmetic gives, and never later than the job's. */
  lemma {:induction false} ScriptDeadlineIsExact(now: nat, deadline: nat, wanted: Option<nat>, last: nat)
    requires deadline <= last
    ensures var d := ScriptDeadline(now, deadline, wanted, last);
            d == (if wanted.Some? then Min(deadline, now + wanted.value) else deadline) && d <= deadline
  {
  }

  /** The same for an after_script; it gets what it asks for up to the default grace, even
      when the job's time is over, and more only within the job's time. */
  lemma {:induction false} AfterScriptDeadlineIsExact(now: nat, deadline: nat, wanted: nat, last: nat)
    requires deadline <= last && now + DEFAULT_AFTER_SCRIPT_TIMEOUT <= last
    ensures var d := AfterScriptDeadline(now, deadline, wanted, last);
            && d == Min(now + wanted, Max(deadline, now + DEFAULT_AFTER_SCRIPT_TIMEOUT))
            && now + Min(wanted, DEFAULT_AFTER_SCRIPT_TIMEOUT) <= d
            && (d > now + DEFAULT_AFTER_SCRIPT_TIMEOUT ==> d <= deadline)
  {
  }

  function AfterScripts(steps: seq<Step>): nat {
    if steps == [] then 0
    else AfterScripts(steps[..|steps| - 1]) + if IsAfterScript(steps[|steps| - 1]) then 1 else 0
  }

  // ---- What the job runs on ----

  /** GitLab and the daemon may escalate the cancellation at any moment. */
  method Escalates(cancel: CancelSignal)
    requires cancel.Consistent()
    modifies cancel
    ensures cancel.Consistent() && AtLeast(cancel.state, old(cancel.state))
  {
    var reports: int := *;
    while reports > 0
      invariant cancel.Consistent() && AtLeast(cancel.state, old(cancel.state))
      decreases reports
    {
      var report: RemoteState := *;
      cancel.Update(report);
      reports := reports - 1;
    }
  }

  /** A run of a script: it ends by its deadline, and is canceled only at its level. */
  method RunScript(cancel: CancelSignal, now: nat, deadline: nat, stopAt: RemoteState)
    returns (r: RunResult, end: nat)
    requires cancel.Consistent()
    modifies cancel
    ensures cancel.Consistent() && AtLeast(cancel.state, old(cancel.state))
    ensures now <= end <= Max(now, deadline)
    ensures r == Ran(TimedOut) ==> end >= deadline
    ensures r == Ran(Canceled) ==> AtLeast(cancel.state, stopAt)
  {
    Escalates(cancel);
    end := *;
    if end < now || end > deadline {
      end := now;
    }
    if {
      case true =>
        var code: int := *;
        r := Ran(Exited(code));
      case true =>
        r, end := Ran(TimedOut), Max(now, deadline);
      case AtLeast(cancel.state, stopAt) =>
        r := Ran(Canceled);
      case true =>
        r := CouldNotRun;
    }
  }

  /** How a hook or a checkout fails the job. */
  function SourcesVerdict(r: RunResult): Outcome {
    match r
    case Ran(Exited(code)) => if code == 0 then None else Some(Failure(ScriptFailure, Some(code)))
    case Ran(TimedOut) => Some(TIMED_OUT)
    case Ran(Canceled) => Some(CANCELED)
    case CouldNotRun => Some(Failure(SystemFailure, None))
  }

  /** What there is to check out: nothing, a script, or one that cannot even be written. */
  datatype Checkout = NoCheckout | CheckoutScript | NoScript

  /** How sources failed, by the scripts that were run. A hook or checkout that fails decides;
      after them a checkout script that could not be written does. */
  function SourcesOutcome(runs: seq<RunResult>, checkout: Checkout): Outcome {
    var last := LastVerdict(runs);
    if last.None? && checkout.NoScript? then Some(Failure(SystemFailure, None)) else last
  }

  function LastVerdict(runs: seq<RunResult>): Outcome {
    if runs == [] then None else SourcesVerdict(runs[|runs| - 1])
  }

  const WELL: RunResult := Ran(Exited(0))

  /** How the runs of a checkout that is tried up to `attempts` times follow each other: the first that
      does not end with an exit code other than 0 is the last, if the attempts are not used up before. */
  ghost predicate Tried(runs: seq<RunResult>, attempts: nat) {
    && 1 <= |runs| <= attempts
    && (forall i | 0 <= i < |runs| - 1 :: runs[i] != WELL && runs[i].Ran? && runs[i].status.Exited?)
    && (|runs| == attempts || runs[|runs| - 1] == WELL || !(runs[|runs| - 1].Ran? && runs[|runs| - 1].status.Exited?))
  }

  /** How the scripts of sources follow each other: the hook, the checkout, `tries` times, and the other
      hook, up to the first of these that fails. */
  ghost predicate InOrder(runs: seq<RunResult>, before: bool, checkout: Checkout, after: bool, attempts: nat,
                          tries: nat)
  {
    var hook := if before then 1 else 0;
    if before && (runs == [] || runs[0] != WELL) then |runs| == 1
    else if checkout.NoScript? then |runs| == hook
    else
      && hook + tries <= |runs|
      && (if checkout.CheckoutScript? then Tried(runs[hook..hook + tries], attempts) else tries == 0)
      && |runs| == hook + tries + if after && (tries > 0 ==> runs[hook + tries - 1] == WELL) then 1 else 0
  }

  ghost predicate SourcesRun(runs: seq<RunResult>, before: bool, checkout: Checkout, after: bool, attempts: nat) {
    exists tries: nat :: InOrder(runs, before, checkout, after, attempts, tries)
  }

  /** The checkout: it is tried again only after an exit code, with the repository removed in between. */
  method TryCheckout(cancel: CancelSignal, now: nat, deadline: nat, attempts: nat)
    returns (failure: Outcome, runs: seq<RunResult>, end: nat)
    requires cancel.Consistent() && 1 <= attempts <= 10
    modifies cancel
    ensures cancel.Consistent() && AtLeast(cancel.state, old(cancel.state))
    ensures now <= end <= Max(now, deadline) && EndsInTime(failure, end, deadline, cancel.state)
    ensures Tried(runs, attempts) && failure == LastVerdict(runs)
  {
    failure, runs, end := None, [], now;
    var r, attempt := WELL, 1;
    while true
      invariant |runs| == attempt - 1 < attempts
      invariant cancel.Consistent() && AtLeast(cancel.state, old(cancel.state))
      invariant now <= end <= Max(now, deadline)
      invariant forall i | 0 <= i < |runs| :: runs[i] != WELL && runs[i].Ran? && runs[i].status.Exited?
      decreases attempts - attempt
    {
      r, end := RunScript(cancel, end, deadline, Canceling);
      runs := runs + [r];
      failure := SourcesVerdict(r);
      if failure.None? || attempt == attempts || failure.value.reason != ScriptFailure {
        return;
      }
      var _, removed := RunScript(cancel, end, deadline, Canceling);
      attempt, end := attempt + 1, removed;
    }
  }

  /** A hook, if there is one. */
  method RunHook(cancel: CancelSignal, now: nat, deadline: nat, wanted: bool)
    returns (failure: Outcome, runs: seq<RunResult>, end: nat)
    requires cancel.Consistent()
    modifies cancel
    ensures cancel.Consistent() && AtLeast(cancel.state, old(cancel.state))
    ensures now <= end <= Max(now, deadline) && EndsInTime(failure, end, deadline, cancel.state)
    ensures failure == LastVerdict(runs) && |runs| == if wanted then 1 else 0
  {
    failure, runs, end := None, [], now;
    if wanted {
      var r;
      r, end := RunScript(cancel, now, deadline, Canceling);
      runs, failure := [r], SourcesVerdict(r);
    }
  }

  /** Out of time only at the deadline, canceled only by a cancellation. */
  predicate EndsInTime(failure: Outcome, end: nat, deadline: nat, state: RemoteState) {
    (failure == Some(TIMED_OUT) ==> end >= deadline) && (failure == Some(CANCELED) ==> state != Running)
  }

  /** The checkout, if there is one. */
  method CheckOut(cancel: CancelSignal, now: nat, deadline: nat, checkout: Checkout, attempts: nat)
    returns (failure: Outcome, runs: seq<RunResult>, end: nat)
    requires cancel.Consistent() && 1 <= attempts <= 10
    modifies cancel
    ensures cancel.Consistent() && AtLeast(cancel.state, old(cancel.state))
    ensures now <= end <= Max(now, deadline) && EndsInTime(failure, end, deadline, cancel.state)
    ensures if checkout.CheckoutScript? then Tried(runs, attempts) else runs == []
    ensures failure == if checkout.NoScript? then Some(Failure(SystemFailure, None)) else LastVerdict(runs)
  {
    failure, runs, end := None, [], now;
    match checkout
    case NoCheckout =>
    case NoScript => failure := Some(Failure(SystemFailure, None));
    case CheckoutScript => failure, runs, end := TryCheckout(cancel, now, deadline, attempts);
  }

  /** Hooks and checkout. Everything stays within the job's deadline. */
  method GetSources(cancel: CancelSignal, start: nat, deadline: nat,
                    before: bool, checkout: Checkout, after: bool, attempts: nat)
    returns (failure: Outcome, runs: seq<RunResult>, end: nat)
    requires cancel.Consistent() && 1 <= attempts <= 10
    modifies cancel
    ensures cancel.Consistent() && AtLeast(cancel.state, old(cancel.state))
    ensures start <= end <= Max(start, deadline) && EndsInTime(failure, end, deadline, cancel.state)
    ensures failure == SourcesOutcome(runs, checkout) && SourcesRun(runs, before, checkout, after, attempts)
  {
    var hook, tried, last: seq<RunResult> := [], [], [];
    failure, hook, end := RunHook(cancel, start, deadline, before);
    if failure.None? {
      failure, tried, end := CheckOut(cancel, end, deadline, checkout, attempts);
    }
    if failure.None? {
      failure, last, end := RunHook(cancel, end, deadline, after);
    }
    runs := hook + tried + last;
    AllInOrder(hook, tried, last, before, checkout, after, attempts);
    LastDecides(hook, tried, last, checkout, failure);
  }

  /** A hook, tries and the other hook, each if what is before it did not fail, are in order. */
  lemma AllInOrder(hook: seq<RunResult>, tried: seq<RunResult>, last: seq<RunResult>,
                   before: bool, checkout: Checkout, after: bool, attempts: nat)
    requires |hook| == (if before then 1 else 0)
    requires if LastVerdict(hook).Some? || !checkout.CheckoutScript? then tried == [] else Tried(tried, attempts)
    requires |last| == if after && LastVerdict(hook + tried).None? && !checkout.NoScript? then 1 else 0
    ensures SourcesRun(hook + tried + last, before, checkout, after, attempts)
  {
    var runs := hook + tried + last;
    ThreeParts(hook, tried, last, runs);
    assert InOrder(runs, before, checkout, after, attempts, |tried|);
  }

  lemma ThreeParts<T>(a: seq<T>, b: seq<T>, c: seq<T>, all: seq<T>)
    requires all == a + b + c
    ensures |all| == |a| + |b| + |c| && all[|a|..|a| + |b|] == b
    ensures a != [] ==> all[0] == a[0]
    ensures b != [] ==> all[|a| + |b| - 1] == b[|b| - 1]
  {
  }

  /** A part that failed is the last one. */
  lemma LastDecides(hook: seq<RunResult>, tried: seq<RunResult>, last: seq<RunResult>, checkout: Checkout,
                    failure: Outcome)
    requires LastVerdict(hook).Some? ==> tried == last == [] && failure == LastVerdict(hook)
    requires LastVerdict(hook).None? && checkout.NoScript? ==>
               tried == last == [] && failure == Some(Failure(SystemFailure, None))
    requires LastVerdict(hook).None? && !checkout.NoScript? ==>
               if LastVerdict(tried).Some? then last == [] && failure == LastVerdict(tried)
               else failure == LastVerdict(last)
    ensures failure == SourcesOutcome(hook + tried + last, checkout)
  {
    var runs := hook + tried + last;
    assert last != [] ==> runs[|runs| - 1] == last[|last| - 1];
    assert last == [] && tried != [] ==> runs[|runs| - 1] == tried[|tried| - 1];
    assert last == [] && tried == [] && hook != [] ==> runs[|runs| - 1] == hook[|hook| - 1];
  }

  /** How the scripts of sources leave the job. */
  lemma {:induction false} SourcesExactly(runs: seq<RunResult>, checkout: Checkout, f: Failure)
    ensures SourcesOutcome(runs, checkout) == Some(f) <==>
              if runs != [] && runs[|runs| - 1] != Ran(Exited(0)) then
                match runs[|runs| - 1]
                case Ran(Exited(code)) => f == Failure(ScriptFailure, Some(code))
                case Ran(TimedOut) => f == Failure(ExecutionTimeout, None)
                case Ran(Canceled) => f == Failure(JobCanceled, None)
                case CouldNotRun => f == Failure(SystemFailure, None)
              else checkout == NoScript && f == Failure(SystemFailure, None)
  {
  }

  /** What becomes of a restore: not begun, over, with an error or without, or interrupted. */
  datatype Restoring = NotBegun | Ended(error: Outcome) | OutOfTime | Interrupted

  /** How it fails the job. */
  function RestoreOutcome(r: Restoring): Outcome {
    match r
    case NotBegun => None
    case Ended(error) => error
    case OutOfTime => Some(TIMED_OUT)
    case Interrupted => Some(CANCELED)
  }

  /** The restore is bounded like a script, and stopped within a short grace. */
  method RestoreWorkspace(cancel: CancelSignal, now: nat, deadline: nat) returns (r: Restoring, end: nat)
    requires cancel.Consistent()
    modifies cancel
    ensures cancel.Consistent() && AtLeast(cancel.state, old(cancel.state)) && !r.NotBegun?
    ensures now <= end <= Max(now, deadline) + if r.Ended? then 0 else RESTORE_STOP_GRACE
    ensures r.OutOfTime? ==> end >= deadline
    ensures r.Interrupted? ==> cancel.state != Running
  {
    Escalates(cancel);
    end := *;
    if end < now || end > deadline {
      end := now;
    }
    var stopping: int := *;
    if stopping < 0 || stopping > RESTORE_STOP_GRACE {
      stopping := RESTORE_STOP_GRACE;
    }
    if {
      case true =>
        var error: Outcome := *;
        return Ended(error), end;
      case true =>
        r, end := OutOfTime, Max(now, deadline);
      case AtLeast(cancel.state, Canceling) =>
        r := Interrupted;
    }
    end := end + stopping;
  }

  // ---- The step loop ----

  /** A script run the loop asked for. */
  datatype Launch = Launch(at: nat, deadline: nat, stopAt: RemoteState, status: Option<string>)

  /** CI_JOB_STATUS, as after_script sees it. */
  function JobStatus(failure: Outcome): string {
    match failure
    case None => "success"
    case Some(f) => if f.reason == JobCanceled then "canceled" else "failed"
  }

  /** What the steps of a job are limited by, and the last instant there is. */
  datatype Times = Times(deadline: nat, scriptDeadline: nat, wantedAfter: Option<nat>, last: nat)

  /** How long an after_script may run if the job does not say. */
  function WantedAfter(step: Step, asked: Option<nat>): nat {
    if asked.Some? then asked.value else if step.timeout > 0 then 1000 * step.timeout else DEFAULT_AFTER_SCRIPT_TIMEOUT
  }

  /** The limits of a step that is launched now. */
  function LimitsOf(step: Step, now: nat, times: Times, known: Outcome): Launch {
    if IsAfterScript(step) then
      var deadline := AfterScriptDeadline(now, times.deadline, WantedAfter(step, times.wantedAfter), times.last);
      Launch(now, deadline, Aborted, Some(JobStatus(known)))
    else Launch(now, times.scriptDeadline, Canceling, None)
  }

  lemma {:induction false} FoldOneMore(before: Outcome, steps: seq<Step>, seen: seq<Observation>, o: Observation)
    requires |seen| < |steps| && Reached(seen, |seen|)
    ensures var known := Fold(before, steps, seen);
            Fold(before, steps, seen + [o]) ==
            if o.first.Aborted? then OrElse(known, Some(CANCELED)) else AfterStep(known, steps[|seen|], o)
    ensures Started(before, steps, seen + [o], |seen|) <==>
              !o.first.Aborted? && Starts(Fold(before, steps, seen), steps[|seen|], o)
    decreases |seen|
  {
    if seen == [] {
      var none: seq<Observation> := [];
      assert seen + [o] == [o] && [o][1..] == none;
    } else {
      assert !seen[0].first.Aborted?;
      assert (seen + [o])[0] == seen[0] && (seen + [o])[1..] == seen[1..] + [o];
      assert Reached(seen[1..], |seen| - 1);
      FoldOneMore(AfterStep(before, steps[0], seen[0]), steps[1..], seen[1..], o);
    }
  }

  lemma {:induction false} StartedInPrefix(before: Outcome, steps: seq<Step>, seen: seq<Observation>, o: Observation,
                                           k: nat)
    requires |seen| < |steps| && k < |seen|
    ensures Started(before, steps, seen + [o], k) <==> Started(before, steps, seen, k)
    decreases k
  {
    if k > 0 {
      assert (seen + [o])[1..] == seen[1..] + [o];
      StartedInPrefix(AfterStep(before, steps[0], seen[0]), steps[1..], seen[1..], o, k - 1);
    }
  }

  /** Looking at one step more leaves what was seen before as it was. */
  lemma Grown(before: Outcome, steps: seq<Step>, seen: seq<Observation>, o: Observation)
    requires |seen| < |steps| && Reached(seen, |seen|)
    ensures var known := Fold(before, steps, seen);
            Fold(before, steps, seen + [o]) ==
            if o.first.Aborted? then OrElse(known, Some(CANCELED)) else AfterStep(known, steps[|seen|], o)
    ensures Started(before, steps, seen + [o], |seen|) <==>
              !o.first.Aborted? && Starts(Fold(before, steps, seen), steps[|seen|], o)
    ensures forall k: nat | k < |seen| :: Started(before, steps, seen + [o], k) <==> Started(before, steps, seen, k)
  {
    FoldOneMore(before, steps, seen, o);
    forall k: nat | k < |seen|
      ensures Started(before, steps, seen + [o], k) <==> Started(before, steps, seen, k)
    {
      StartedInPrefix(before, steps, seen, o, k);
    }
  }

  lemma AfterScriptsOneMore(steps: seq<Step>, i: nat)
    requires i < |steps|
    ensures AfterScripts(steps[..i + 1]) == AfterScripts(steps[..i]) + if IsAfterScript(steps[i]) then 1 else 0
  {
    assert steps[..i + 1][..i] == steps[..i];
  }

  lemma {:induction false} MoreAfterScripts(steps: seq<Step>, i: nat)
    requires i <= |steps|
    ensures AfterScripts(steps[..i]) <= AfterScripts(steps)
    decreases |steps| - i
  {
    if i == |steps| {
      assert steps[..i] == steps;
    } else {
      AfterScriptsOneMore(steps, i);
      MoreAfterScripts(steps, i + 1);
    }
  }

  /** What is known when step `k` is decided. */
  function KnownAt(before: Outcome, steps: seq<Step>, seen: seq<Observation>, k: nat): Outcome
    requires |seen| <= |steps| && k < |seen|
  {
    OrElse(Fold(before, steps, seen[..k]), SeenCanceled(steps[k], seen[k]))
  }

  lemma KnownStays(before: Outcome, steps: seq<Step>, seen: seq<Observation>, o: Observation)
    requires |seen| < |steps|
    ensures forall k: nat | k < |seen| :: KnownAt(before, steps, seen + [o], k) == KnownAt(before, steps, seen, k)
    ensures KnownAt(before, steps, seen + [o], |seen|)
         == OrElse(Fold(before, steps, seen), SeenCanceled(steps[|seen|], o))
  {
    forall k: nat | k < |seen| ensures KnownAt(before, steps, seen + [o], k) == KnownAt(before, steps, seen, k) {
      assert (seen + [o])[..k] == seen[..k];
    }
    assert (seen + [o])[..|seen|] == seen;
  }

  /** A job, as far as the step loop reads it. `timeout` is the job's own, or an hour; the
      others are missing when the job's variables give none. */
  datatype Job = Job(
    timeout: nat,
    hookBefore: bool,
    checkout: Checkout,
    hookAfter: bool,
    attempts: nat,
    scriptTimeout: Option<nat>,
    afterScriptTimeout: Option<nat>,
    steps: seq<Step>)

  /** How the job stands before its steps. */
  function Prepared(job: Job, runs: seq<RunResult>, restoring: Restoring): Outcome {
    OrElse(SourcesOutcome(runs, job.checkout), RestoreOutcome(restoring))
  }

  /** Sources, and then the restore unless they failed. */
  method Prepare(job: Job, cancel: CancelSignal, start: nat, deadline: nat)
    returns (failure: Outcome, runs: seq<RunResult>, restoring: Restoring, end: nat)
    requires cancel.Consistent() && 1 <= job.attempts <= 10 && start <= deadline
    modifies cancel
    ensures cancel.Consistent() && AtLeast(cancel.state, old(cancel.state))
    ensures failure == Prepared(job, runs, restoring)
    ensures SourcesRun(runs, job.hookBefore, job.checkout, job.hookAfter, job.attempts)
    ensures restoring.NotBegun? <==> SourcesOutcome(runs, job.checkout).Some?
    ensures start <= end <= deadline + RESTORE_STOP_GRACE
    ensures failure == Some(TIMED_OUT) && !restoring.Ended? ==> end >= deadline
    ensures failure == Some(CANCELED) && !restoring.Ended? ==> cancel.state != Running
  {
    restoring := NotBegun;
    failure, runs, end :=
      GetSources(cancel, start, deadline, job.hookBefore, job.checkout, job.hookAfter, job.attempts);
    if failure.None? {
      restoring, end := RestoreWorkspace(cancel, end, deadline);
      failure := RestoreOutcome(restoring);
    }
  }

  /** One turn of the loop, once no abort is seen. `o` is what the turn has seen. */
  method OneStep(step: Step, cancel: CancelSignal, now: nat, times: Times, before: Outcome)
    returns (failure: Outcome, o: Observation, launch: Option<Launch>, end: nat)
    requires cancel.Consistent() && times.scriptDeadline <= times.deadline
    modifies cancel
    ensures cancel.Consistent() && AtLeast(cancel.state, old(cancel.state))
    ensures o.first == old(cancel.state) && failure == AfterStep(before, step, o)
    ensures launch.Some? <==> Starts(before, step, o)
    ensures launch.Some? ==> launch.value == LimitsOf(step, now, times, OrElse(before, SeenCanceled(step, o)))
    ensures now <= end <= Max(now, times.deadline) + if IsAfterScript(step) then DEFAULT_AFTER_SCRIPT_TIMEOUT else 0
  {
    var first := cancel.state;
    Escalates(cancel);
    o, failure, launch, end := Observation(first, cancel.state, CouldNotRun), before, None, now;
    if !IsAfterScript(step) && o.second != Running {
      failure := OrElse(failure, Some(CANCELED));
    }
    if !WhenHolds(step.when, failure.Some?) || !step.hasLines {
      return;
    }
    var limits := LimitsOf(step, now, times, failure);
    launch := Some(limits);
    var r;
    r, end := RunScript(cancel, now, limits.deadline, limits.stopAt);
    o := o.(result := r);
    match r
    case Ran(Exited(code)) =>
      if code != 0 && !step.allowFailure && !IsAfterScript(step) {
        failure := OrElse(failure, Some(Failure(ScriptFailure, Some(code))));
      }
    case Ran(TimedOut) =>
      if !IsAfterScript(step) {
        failure := OrElse(failure, Some(TIMED_OUT));
      }
    case Ran(Canceled) =>
      if !IsAfterScript(step) {
        failure := OrElse(failure, Some(CANCELED));
      }
    case CouldNotRun =>
      if !IsAfterScript(step) {
        failure := OrElse(failure, Some(Failure(SystemFailure, None)));
      }
  }

  /** The launches are those of the started steps, each within its limits. */
  ghost predicate LaunchesRight(before: Outcome, steps: seq<Step>, seen: seq<Observation>, launches: map<nat, Launch>,
                                times: Times)
    requires |seen| <= |steps|
  {
    && (forall k: nat :: k in launches <==> k < |seen| && Started(before, steps, seen, k))
    && (forall k | k in launches ::
          launches[k] == LimitsOf(steps[k], launches[k].at, times, KnownAt(before, steps, seen, k)))
  }

  lemma LaunchesGrow(before: Outcome, steps: seq<Step>, seen: seq<Observation>, o: Observation,
                     launches: map<nat, Launch>, launch: Option<Launch>, times: Times)
    requires |seen| < |steps| && Reached(seen, |seen|)
    requires LaunchesRight(before, steps, seen, launches, times)
    requires var known := Fold(before, steps, seen);
             && (launch.Some? <==> !o.first.Aborted? && Starts(known, steps[|seen|], o))
             && (launch.Some? ==> launch.value == LimitsOf(steps[|seen|], launch.value.at, times,
                                                           OrElse(known, SeenCanceled(steps[|seen|], o))))
    ensures var more := if launch.Some? then launches[|seen| := launch.value] else launches;
            LaunchesRight(before, steps, seen + [o], more, times)
  {
    Grown(before, steps, seen, o);
    KnownStays(before, steps, seen, o);
    forall k: nat | k < |seen|
      ensures k in launches <==> Started(before, steps, seen + [o], k)
      ensures k in launches ==>
                launches[k] == LimitsOf(steps[k], launches[k].at, times, KnownAt(before, steps, seen + [o], k))
    {
      assert k in launches <==> Started(before, steps, seen, k);
      assert KnownAt(before, steps, seen + [o], k) == KnownAt(before, steps, seen, k);
    }
  }

  ghost predicate InTime(launches: map<nat, Launch>, start: nat) {
    forall k | k in launches :: start <= launches[k].at
  }

  /** The step loop: the fold over what it sees. `launches` are the scripts it runs. */
  method RunSteps(job: Job, cancel: CancelSignal, start: nat, times: Times, begun: Outcome)
    returns (outcome: Outcome, seen: seq<Observation>, launches: map<nat, Launch>, end: nat)
    requires cancel.Consistent() && times.scriptDeadline <= times.deadline
    requires start <= times.deadline + RESTORE_STOP_GRACE
    modifies cancel
    ensures cancel.Consistent() && |seen| <= |job.steps|
    ensures outcome == Fold(begun, job.steps, seen)
    ensures |seen| < |job.steps| ==> seen != [] && seen[|seen| - 1].first.Aborted?
    ensures LaunchesRight(begun, job.steps, seen, launches, times) && InTime(launches, start)
    ensures end <= times.deadline + RESTORE_STOP_GRACE + AfterScripts(job.steps) * DEFAULT_AFTER_SCRIPT_TIMEOUT
  {
    outcome, seen, launches, end := begun, [], map[], start;
    for i := 0 to |job.steps|
      invariant cancel.Consistent() && |seen| == i && Reached(seen, i)
      invariant outcome == Fold(begun, job.steps, seen)
      invariant LaunchesRight(begun, job.steps, seen, launches, times) && InTime(launches, start) && start <= end
      invariant end <= times.deadline + RESTORE_STOP_GRACE + AfterScripts(job.steps[..i]) * DEFAULT_AFTER_SCRIPT_TIMEOUT
    {
      Escalates(cancel);
      var o, launch := Observation(Aborted, Aborted, CouldNotRun), None;
      if cancel.state == Aborted {
        FoldOneMore(begun, job.steps, seen, o);
        LaunchesGrow(begun, job.steps, seen, o, launches, launch, times);
        MoreAfterScripts(job.steps, i);
        return OrElse(outcome, Some(CANCELED)), seen + [o], launches, end;
      }
      outcome, o, launch, end := OneStep(job.steps[i], cancel, end, times, outcome);
      FoldOneMore(begun, job.steps, seen, o);
      LaunchesGrow(begun, job.steps, seen, o, launches, launch, times);
      seen := seen + [o];
      if launch.Some? {
        launches := launches[i := launch.value];
      }
      AfterScriptsOneMore(job.steps, i);
    }
    assert job.steps[..|job.steps|] == job.steps;
  }

  /** A step that is looked at is launched exactly when it has lines, no abort was seen, and its `when` says
      so: "always" in any case, "on_failure" once anything failed, any other string while nothing has. */
  ghost predicate LaunchedWhenDue(before: Outcome, steps: seq<Step>, seen: seq<Observation>,
                                  launches: map<nat, Launch>)
    requires |seen| <= |steps|
  {
    forall k: nat | k < |seen| ::
      k in launches <==>
      && Reached(seen, k) && seen[k].first != Aborted && steps[k].hasLines
      && (steps[k].when == "always" || (steps[k].when == "on_failure" <==> FailedBy(before, steps, seen, k)))
  }

  /** The whole run. `begun` is how the scripts of sources and the restore leave the job, at `ready`; the
      outcome is the first failure of that and the steps. Steps are launched when they are due, and as
      promised: scripts run until the job's deadline or the earlier end the job asks
      for, an after_script for the time asked for, within the job's or five minutes; and all is over by the
      job's deadline, the grace of the restore, and five minutes for each after_script. */
  method RunJobSteps(job: Job, cancel: CancelSignal, start: nat, last: nat)
    returns (outcome: Outcome, begun: Outcome, runs: seq<RunResult>, restoring: Restoring, ready: nat,
             seen: seq<Observation>, launches: map<nat, Launch>, end: nat)
    requires cancel.Consistent() && 1 <= job.attempts <= 10 && start + job.timeout <= last
    modifies cancel
    ensures begun == Prepared(job, runs, restoring)
    ensures SourcesRun(runs, job.hookBefore, job.checkout, job.hookAfter, job.attempts)
    ensures restoring.NotBegun? <==> SourcesOutcome(runs, job.checkout).Some?
    ensures start <= ready <= start + job.timeout + 10_000
    ensures |seen| <= |job.steps| && outcome == Fold(begun, job.steps, seen) && (begun.Some? ==> outcome == begun)
    ensures |seen| < |job.steps| ==> seen != [] && seen[|seen| - 1].first.Aborted?
    ensures forall k: nat :: k in launches <==> k < |seen| && Started(begun, job.steps, seen, k)
    ensures LaunchedWhenDue(begun, job.steps, seen, launches)
    ensures forall k | k in launches ::
              ready <= launches[k].at && AsPromised(job, launches[k], job.steps[k], start + job.timeout, ready, last,
                                                    KnownAt(begun, job.steps, seen, k))
    ensures end <= start + job.timeout + 10_000 + AfterScripts(job.steps) * 300_000
  {
    var deadline := start + job.timeout;
    begun, runs, restoring, ready := Prepare(job, cancel, start, deadline);
    var scriptDeadline := ScriptDeadline(ready, deadline, job.scriptTimeout, last);
    ScriptDeadlineIsExact(ready, deadline, job.scriptTimeout, last);
    var times := Times(deadline, scriptDeadline, job.afterScriptTimeout, last);
    outcome, seen, launches, end := RunSteps(job, cancel, ready, times, begun);
    if begun.Some? {
      FailureStays(begun.value, job.steps, seen);
    }
    LaunchesAreDue(begun, job.steps, seen, launches, times);
    PromisesKept(job, begun, seen, launches, times, ready);
  }

  lemma LaunchesAreDue(before: Outcome, steps: seq<Step>, seen: seq<Observation>, launches: map<nat, Launch>,
                       times: Times)
    requires |seen| <= |steps| && LaunchesRight(before, steps, seen, launches, times)
    ensures LaunchedWhenDue(before, steps, seen, launches)
  {
    forall k: nat | k < |seen| {
      StartedExactly(before, steps, seen, k);
    }
  }

  lemma PromisesKept(job: Job, begun: Outcome, seen: seq<Observation>, launches: map<nat, Launch>, times: Times,
                     ready: nat)
    requires |seen| <= |job.steps| && LaunchesRight(begun, job.steps, seen, launches, times)
    requires times.deadline <= times.last && times.wantedAfter == job.afterScriptTimeout
    requires times.scriptDeadline == ScriptDeadline(ready, times.deadline, job.scriptTimeout, times.last)
    ensures forall k | k in launches ::
              AsPromised(job, launches[k], job.steps[k], times.deadline, ready, times.last,
                         KnownAt(begun, job.steps, seen, k))
  {
    forall k | k in launches
      ensures AsPromised(job, launches[k], job.steps[k], times.deadline, ready, times.last,
                         KnownAt(begun, job.steps, seen, k))
    {
      PromiseKept(job, job.steps[k], launches[k], times, ready, KnownAt(begun, job.steps, seen, k));
    }
  }

  /** What a launched step is promised, in milliseconds. (Five minutes from now is an instant.) */
  ghost predicate AsPromised(job: Job, l: Launch, step: Step, deadline: nat, ready: nat, last: nat, known: Outcome) {
    if step.name != "after_script" then
      && l.stopAt == Canceling && l.status == None
      && l.deadline == if job.scriptTimeout.Some? then Min(deadline, ready + job.scriptTimeout.value) else deadline
    else
      && l.stopAt == Aborted
      && l.status == Some(if known.None? then "success"
                          else if known.value.reason == JobCanceled then "canceled" else "failed")
      && (l.at + 300_000 <= last ==>
            l.deadline == Min(l.at + (if job.afterScriptTimeout.Some? then job.afterScriptTimeout.value
                                      else if step.timeout > 0 then 1000 * step.timeout else 300_000),
                              Max(deadline, l.at + 300_000)))
  }

  lemma {:induction false} PromiseKept(job: Job, step: Step, l: Launch, times: Times, ready: nat, known: Outcome)
    requires l == LimitsOf(step, l.at, times, known) && times.deadline <= times.last
    requires times.wantedAfter == job.afterScriptTimeout
    requires times.scriptDeadline == ScriptDeadline(ready, times.deadline, job.scriptTimeout, times.last)
    ensures AsPromised(job, l, step, times.deadline, ready, times.last, known)
  {
  }

  /** How sources and the restore leave the job, by the last script of sources and the end of the restore. */
  lemma {:induction false} PreparedExactly(job: Job, runs: seq<RunResult>, restoring: Restoring)
    ensures var sources, begun := SourcesOutcome(runs, job.checkout), Prepared(job, runs, restoring);
            && (sources.Some? ==> begun == sources)
            && (sources.None? && restoring.Ended? ==> begun == restoring.error)
            && (sources.None? && restoring == OutOfTime ==> begun == Some(Failure(ExecutionTimeout, None)))
            && (sources.None? && restoring == Interrupted ==> begun == Some(Failure(JobCanceled, None)))
  {
  }
}
