/** The step machine of a job (`run_job_steps`): which steps start, what the outcome is, and
    when it is over. */
module JobSteps {
  import opened Cancel
  import opened Options

  datatype Reason = ScriptFailure | SystemFailure | ExecutionTimeout | JobCanceled | OtherReason

  datatype Failure = Failure(reason: Reason, exitCode: Option<int>)

  /** No failure is success. */
  type Outcome = Option<Failure>

  const CANCELED: Failure := Failure(JobCanceled, None)
  const TIMED_OUT: Failure := Failure(ExecutionTimeout, None)

  datatype RunStatus = Exited(code: int) | TimedOut | Canceled

  datatype RunResult = Ran(status: RunStatus) | CouldNotRun

  /** A step as GitLab sends it; `hasLines` says that it has any script at all. */
  datatype Step = Step(name: string, timeout: nat, when: string, allowFailure: bool, hasLines: bool)

  predicate IsAfterScript(step: Step) {
    step.name == "after_script"
  }

  /** `get_or_insert`: the first failure stays. */
  function OrElse(first: Outcome, second: Outcome): Outcome {
    if first.Some? then first else second
  }

  /** What the run of a step has to say about the job. */
  function VerdictOf(step: Step, r: RunResult): Outcome {
    if IsAfterScript(step) then None
    else
      match r
      case Ran(Exited(code)) =>
        if code == 0 || step.allowFailure then None else Some(Failure(ScriptFailure, Some(code)))
      case Ran(TimedOut) => Some(TIMED_OUT)
      case Ran(Canceled) => Some(CANCELED)
      case CouldNotRun => Some(Failure(SystemFailure, None))
  }

  predicate WhenHolds(when: string, failed: bool) {
    if when == "always" then true else if when == "on_failure" then failed else !failed
  }

  /** What the loop sees at one step: the cancel state, the cancel state again, and the
      result if the step is run. */
  datatype Observation = Observation(first: RemoteState, second: RemoteState, result: RunResult)

  /** The job turns out to be canceled at a step that is not an after_script. */
  function SeenCanceled(step: Step, o: Observation): Outcome {
    if !IsAfterScript(step) && o.second != Running then Some(CANCELED) else None
  }

  predicate Starts(before: Outcome, step: Step, o: Observation) {
    step.hasLines && WhenHolds(step.when, OrElse(before, SeenCanceled(step, o)).Some?)
  }

  function AfterStep(before: Outcome, step: Step, o: Observation): Outcome {
    var known := OrElse(before, SeenCanceled(step, o));
    if Starts(before, step, o) then OrElse(known, VerdictOf(step, o.result)) else known
  }

  /** The loop as a fold over what it sees; an abort ends it. */
  function Fold(before: Outcome, steps: seq<Step>, seen: seq<Observation>): Outcome
    requires |seen| <= |steps|
    decreases |seen|
  {
    if seen == [] then before
    else if seen[0].first.Aborted? then OrElse(before, Some(CANCELED))
    else Fold(AfterStep(before, steps[0], seen[0]), steps[1..], seen[1..])
  }

  /** Whether step `k` is started. */
  predicate Started(before: Outcome, steps: seq<Step>, seen: seq<Observation>, k: nat)
    requires |seen| <= |steps| && k < |seen|
    decreases k
  {
    && !seen[0].first.Aborted?
    && if k == 0 then Starts(before, steps[0], seen[0])
       else Started(AfterStep(before, steps[0], seen[0]), steps[1..], seen[1..], k - 1)
  }

  // ---- The outcome is the first verdict ----

  /** What step `k` has to say, whatever was said before it. */
  function Verdict(before: Outcome, steps: seq<Step>, seen: seq<Observation>, k: nat): Outcome
    requires |seen| <= |steps| && k < |seen|
  {
    if seen[k].first.Aborted? then Some(CANCELED)
    else if SeenCanceled(steps[k], seen[k]).Some? then Some(CANCELED)
    else if Started(before, steps, seen, k) then VerdictOf(steps[k], seen[k].result)
    else None
  }

  /** Step `k` is reached: no step before it saw an abort. */
  predicate Reached(seen: seq<Observation>, k: nat)
    requires k <= |seen|
  {
    forall j | 0 <= j < k :: !seen[j].first.Aborted?
  }

  /** What a step can have against the job, and when it has just that. A step called after_script has
      nothing against it but an abort, and exit codes may be allowed. */
  lemma {:induction false} VerdictExactly(before: Outcome, steps: seq<Step>, seen: seq<Observation>, k: nat,
                                          f: Failure)
    requires |seen| <= |steps| && k < |seen|
    ensures Verdict(before, steps, seen, k) == Some(f) <==>
              var step, o := steps[k], seen[k];
              var runs := o.first != Aborted && step.name != "after_script" && o.second == Running
                          && Started(before, steps, seen, k);
              || (f == Failure(JobCanceled, None)
                  && (o.first == Aborted || (step.name != "after_script" && o.second != Running)
                      || (runs && o.result == Ran(Canceled))))
              || (f == Failure(ExecutionTimeout, None) && runs && o.result == Ran(TimedOut))
              || (f == Failure(SystemFailure, None) && runs && o.result == CouldNotRun)
              || (f.reason == ScriptFailure && f.exitCode.Some? && f.exitCode.value != 0 && runs
                  && !step.allowFailure && o.result == Ran(Exited(f.exitCode.value)))
  {
  }

  /** A failure, once there, is never overwritten. */
  lemma {:induction false} FailureStays(f: Failure, steps: seq<Step>, seen: seq<Observation>)
    requires |seen| <= |steps|
    ensures Fold(Some(f), steps, seen) == Some(f)
    decreases |seen|
  {
    if seen != [] && !seen[0].first.Aborted? {
      FailureStays(f, steps[1..], seen[1..]);
    }
  }

  lemma FirstVerdict(before: Outcome, steps: seq<Step>, seen: seq<Observation>)
    requires 0 < |seen| <= |steps| && before.None?
    ensures !seen[0].first.Aborted? ==> AfterStep(before, steps[0], seen[0]) == Verdict(before, steps, seen, 0)
  {
  }

  lemma VerdictBehind(before: Outcome, steps: seq<Step>, seen: seq<Observation>, k: nat)
    requires |seen| <= |steps| && 0 < k < |seen| && !seen[0].first.Aborted?
    ensures Verdict(before, steps, seen, k)
         == Verdict(AfterStep(before, steps[0], seen[0]), steps[1..], seen[1..], k - 1)
  {
  }

  /** The outcome after sources and restore is the first verdict of a step that is reached. */
  lemma {:induction false} OutcomeIsFirstVerdict(steps: seq<Step>, seen: seq<Observation>, k: nat)
    requires |seen| <= |steps| && k < |seen|
    requires Verdict(None, steps, seen, k).Some?
    requires forall j | 0 <= j < k :: Verdict(None, steps, seen, j).None?
    ensures Fold(None, steps, seen) == Verdict(None, steps, seen, k)
    decreases k
  {
    FirstVerdict(None, steps, seen);
    if k == 0 {
      if !seen[0].first.Aborted? {
        FailureStays(Verdict(None, steps, seen, 0).value, steps[1..], seen[1..]);
      }
    } else {
      assert Verdict(None, steps, seen, 0).None?;
      VerdictBehind(None, steps, seen, k);
      forall j | 0 <= j < k - 1 ensures Verdict(None, steps[1..], seen[1..], j).None? {
        VerdictBehind(None, steps, seen, j + 1);
      }
      OutcomeIsFirstVerdict(steps[1..], seen[1..], k - 1);
    }
  }

  /** The job succeeds exactly when no step has anything to say against it. */
  lemma {:induction false} SuccessExactly(steps: seq<Step>, seen: seq<Observation>)
    requires |seen| <= |steps|
    ensures Fold(None, steps, seen).None? <==> forall k | 0 <= k < |seen| :: Verdict(None, steps, seen, k).None?
    decreases |seen|
  {
    if seen != [] {
      FirstVerdict(None, steps, seen);
      var first := Verdict(None, steps, seen, 0);
      if first.Some? {
        OutcomeIsFirstVerdict(steps, seen, 0);
      } else {
        SuccessExactly(steps[1..], seen[1..]);
        forall k | 0 < k < |seen|
          ensures Verdict(None, steps, seen, k) == Verdict(None, steps[1..], seen[1..], k - 1)
        {
          VerdictBehind(None, steps, seen, k);
        }
        assert forall k | 0 <= k < |seen| - 1 ::
            Verdict(None, steps[1..], seen[1..], k) == Verdict(None, steps, seen, k + 1);
      }
    }
  }

  // ---- Which steps start ----

  /** Something has failed, or the job is seen to be canceled, when step `k` is decided. */
  ghost predicate FailedBy(before: Outcome, steps: seq<Step>, seen: seq<Observation>, k: nat)
    requires |seen| <= |steps| && k < |seen|
  {
    || before.Some? || SeenCanceled(steps[k], seen[k]).Some?
    || exists j :: 0 <= j < k && Verdict(before, steps, seen, j).Some?
  }

  /** A step starts exactly when it has something to run, no abort was seen up to it, and its `when` says
      so: "always" in any case, "on_failure" once anything failed, any other string while nothing has. */
  lemma {:induction false} StartedExactly(before: Outcome, steps: seq<Step>, seen: seq<Observation>, k: nat)
    requires |seen| <= |steps| && k < |seen|
    ensures Started(before, steps, seen, k) <==>
              && Reached(seen, k) && !seen[k].first.Aborted? && steps[k].hasLines
              && (steps[k].when == "always" || (steps[k].when == "on_failure" <==> FailedBy(before, steps, seen, k)))
    decreases k
  {
    if k > 0 && !seen[0].first.Aborted? {
      var next := AfterStep(before, steps[0], seen[0]);
      StartedExactly(next, steps[1..], seen[1..], k - 1);
      forall j | 0 < j < k ensures Verdict(before, steps, seen, j) == Verdict(next, steps[1..], seen[1..], j - 1) {
        VerdictBehind(before, steps, seen, j);
      }
      FailedBehind(before, steps, seen, k);
      assert Reached(seen, k) <==> Reached(seen[1..], k - 1);
    }
  }

  lemma FailedBehind(before: Outcome, steps: seq<Step>, seen: seq<Observation>, k: nat)
    requires |seen| <= |steps| && 0 < k < |seen| && !seen[0].first.Aborted?
    ensures FailedBy(before, steps, seen, k) <==>
            FailedBy(AfterStep(before, steps[0], seen[0]), steps[1..], seen[1..], k - 1)
  {
    var next := AfterStep(before, steps[0], seen[0]);
    forall j | 0 < j < k ensures Verdict(before, steps, seen, j) == Verdict(next, steps[1..], seen[1..], j - 1) {
      VerdictBehind(before, steps, seen, j);
    }
    if FailedBy(before, steps, seen, k) && before.None? && SeenCanceled(steps[k], seen[k]).None? {
      var j :| 0 <= j < k && Verdict(before, steps, seen, j).Some?;
      assert j > 0 ==> Verdict(next, steps[1..], seen[1..], j - 1).Some?;
    }
    if FailedBy(next, steps[1..], seen[1..], k - 1) && next.None? && SeenCanceled(steps[k], seen[k]).None? {
      var j :| 0 <= j < k - 1 && Verdict(next, steps[1..], seen[1..], j).Some?;
      assert Verdict(before, steps, seen, j + 1).Some?;
    }
    if next.Some? && before.None? {
      assert Verdict(before, steps, seen, 0).Some?;
    }
  }

  /** What an after_script returns, or that it times out or cannot run, changes nothing. */
  predicate SameButAfterScripts(steps: seq<Step>, seen: seq<Observation>, other: seq<Observation>) {
    && |seen| == |other| <= |steps|
    && forall k | 0 <= k < |seen| ::
         other[k] == seen[k] || (IsAfterScript(steps[k]) && other[k] == seen[k].(result := other[k].result))
  }

  lemma {:induction false} AfterScriptsChangeNothing(
      before: Outcome, steps: seq<Step>, seen: seq<Observation>, other: seq<Observation>)
    requires SameButAfterScripts(steps, seen, other)
    ensures Fold(before, steps, seen) == Fold(before, steps, other)
    ensures forall k | 0 <= k < |seen| :: Started(before, steps, seen, k) <==> Started(before, steps, other, k)
    decreases |seen|
  {
    if seen != [] {
      assert AfterStep(before, steps[0], seen[0]) == AfterStep(before, steps[0], other[0]);
      AfterScriptsChangeNothing(AfterStep(before, steps[0], seen[0]), steps[1..], seen[1..], other[1..]);
      forall k | 0 <= k < |seen| ensures Started(before, steps, seen, k) <==> Started(before, steps, other, k) {
        if k > 0 {
          assert Started(AfterStep(before, steps[0], seen[0]), steps[1..], seen[1..], k - 1)
            <==> Started(AfterStep(before, steps[0], seen[0]), steps[1..], other[1..], k - 1);
        }
      }
    }
  }
}
