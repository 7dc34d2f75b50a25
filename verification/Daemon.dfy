/** The daemon (`RunnerDaemon`): job permits, slot numbers, the token rotator and the shutdown,
    as interleaved steps of the job loop, the jobs and the rotator. */
module Daemon {
  import opened Options
  import opened Slots
  import opened Workspaces

  /** A job that holds a permit: not started, between taking and giving back its slots, or
      about to give back the permit. */
  datatype Phase = Spawned | Working(slot: Slot) | Ended

  datatype Task = Task(job: Job, phase: Phase)

  /** `start`: waiting for a permit, asking GitLab, sleeping, waiting for the jobs to end,
      waiting for the rotator, stopping it, done. */
  datatype Loop = Waiting | Requesting | Idle | Draining | Locking | Dropping | Returned

  /** `rotate_token`: from taking the lock on it holds it; a reset is not safe until saved. */
  datatype Rotator = Asleep | WantsLock | Holding | Resetting | Unsaved | Stopped

  datatype Lock = Free | ByRotator | ByLoop

  datatype State = State(
    concurrent: nat,
    permits: nat,
    loop: Loop,
    tasks: map<nat, Task>,
    table: Table,
    rotator: Rotator,
    lock: Lock,
    shutdown: bool)

  datatype Event =
    | RequestShutdown
    | GrantPermit
    | StopWaiting
    | GotJob(task: nat, job: Job)
    | GotNoJob
    | Wake
    | StopIdle
    | TakeSlots(task: nat)
    | GiveSlots(task: nat)
    | DropPermit(task: nat)
    | Drained
    | LoopLocks
    | Finish
    | RotatorWakes
    | RotatorLocks
    | OldTokenUnsaved
    | SendReset
    | ResetFails
    | ResetSucceeds
    | NewTokenSaved(again: bool)

  predicate Enabled(s: State, e: Event) {
    match e
    case RequestShutdown => true
    case GrantPermit => s.loop.Waiting? && s.permits > 0
    case StopWaiting => s.loop.Waiting? && s.shutdown
    case GotJob(t, _) => s.loop.Requesting? && t !in s.tasks
    case GotNoJob => s.loop.Requesting?
    case Wake => s.loop.Idle?
    case StopIdle => s.loop.Idle? && s.shutdown
    case TakeSlots(t) => t in s.tasks && s.tasks[t].phase.Spawned?
    case GiveSlots(t) => t in s.tasks && s.tasks[t].phase.Working?
    case DropPermit(t) => t in s.tasks && s.tasks[t].phase.Ended?
    case Drained => s.loop.Draining? && s.permits >= s.concurrent
    case LoopLocks => s.loop.Locking? && s.lock.Free?
    case Finish => s.loop.Dropping?
    case RotatorWakes => s.rotator.Asleep?
    case RotatorLocks => s.rotator.WantsLock? && s.lock.Free?
    case OldTokenUnsaved => s.rotator.Holding?
    case SendReset => s.rotator.Holding?
    case ResetFails => s.rotator.Resetting?
    case ResetSucceeds => s.rotator.Resetting?
    case NewTokenSaved(_) => s.rotator.Unsaved?
  }

  function Step(s: State, e: Event): State
    requires Enabled(s, e)
  {
    match e
    case RequestShutdown => s.(shutdown := true)
    case GrantPermit => s.(loop := Requesting, permits := s.permits - 1)
    case StopWaiting => s.(loop := Draining)
    case GotJob(t, job) => s.(loop := Waiting, tasks := s.tasks[t := Task(job, Spawned)])
    case GotNoJob => s.(loop := Idle, permits := s.permits + 1)
    case Wake => s.(loop := Waiting)
    case StopIdle => s.(loop := Draining)
    case TakeSlots(t) => TakeStep(s, t)
    case GiveSlots(t) => GiveStep(s, t)
    case DropPermit(t) => s.(tasks := s.tasks - {t}, permits := s.permits + 1)
    case Drained => s.(loop := Locking)
    case LoopLocks => s.(loop := Dropping, lock := ByLoop)
    case Finish => s.(loop := Returned, lock := Free, rotator := Stopped)
    case RotatorWakes => s.(rotator := WantsLock)
    case RotatorLocks => s.(rotator := Holding, lock := ByRotator)
    case OldTokenUnsaved => s.(rotator := Stopped, lock := Free)
    case SendReset => s.(rotator := Resetting)
    case ResetFails => s.(rotator := Asleep, lock := Free)
    case ResetSucceeds => s.(rotator := Unsaved)
    case NewTokenSaved(again) => s.(rotator := if again then Asleep else Stopped, lock := Free)
  }

  function TakeStep(s: State, t: nat): State
    requires t in s.tasks
  {
    var project := ProjectId(s.tasks[t].job);
    var slot := SlotFor(s.table, project);
    s.(table := Acquired(s.table, project),
       tasks := s.tasks[t := Task(s.tasks[t].job.(projectSlot := slot.project), Working(slot))])
  }

  function GiveStep(s: State, t: nat): State
    requires t in s.tasks && s.tasks[t].phase.Working?
  {
    s.(table := Released(s.table, ProjectId(s.tasks[t].job), s.tasks[t].phase.slot),
       tasks := s.tasks[t := s.tasks[t].(phase := Ended)])
  }

  predicate Possible(s: State, es: seq<Event>)
    decreases |es|
  {
    es == [] || (Enabled(s, es[0]) && Possible(Step(s, es[0]), es[1..]))
  }

  function Run(s: State, es: seq<Event>): State
    requires Possible(s, es)
    decreases |es|
  {
    if es == [] then s else Run(Step(s, es[0]), es[1..])
  }

  function Initial(concurrent: nat): State {
    State(concurrent, concurrent, Waiting, map[], Table({}, map[]), Asleep, Free, false)
  }

  // ---- The invariant ----

  /** A job at work; with a project, one of that project. */
  predicate Counts(x: Task, project: Option<nat>) {
    x.phase.Working? && (project.Some? ==> ProjectId(x.job) == project.value)
  }

  function RunningIn(tasks: map<nat, Task>, project: Option<nat>): set<nat> {
    set t | t in tasks && Counts(tasks[t], project)
  }

  /** Slot numbers in use on the runner, or in a project. */
  function UsedIn(table: Table, project: Option<nat>): set<nat> {
    if project.Some? then UsedBy(table, project.value) else table.runner
  }

  /** Each permit is free, held by the request, or held by a job. */
  predicate PermitsKept(s: State) {
    s.permits + (if s.loop.Requesting? then 1 else 0) + |s.tasks| == s.concurrent
  }

  /** The table lists the slots of the running jobs, all different and below `concurrent`. */
  ghost predicate SlotsKept(s: State) {
    && CountsKept(s)
    && (forall t | t in s.tasks && s.tasks[t].phase.Working? :: SlotKept(s, t))
    && AllApart(s.tasks)
  }

  predicate AllApart(tasks: map<nat, Task>) {
    forall t, u | t in tasks && u in tasks && t != u && tasks[t].phase.Working? && tasks[u].phase.Working? ::
      SlotsApart(tasks[t], tasks[u])
  }

  predicate SlotKept(s: State, t: nat)
    requires t in s.tasks && s.tasks[t].phase.Working?
  {
    var slot, project := s.tasks[t].phase.slot, ProjectId(s.tasks[t].job);
    && slot.runner in s.table.runner && slot.project in UsedBy(s.table, project)
    && slot.runner < s.concurrent && slot.project < s.concurrent
    && s.tasks[t].job.projectSlot == slot.project
  }

  predicate SlotsApart(a: Task, b: Task)
    requires a.phase.Working? && b.phase.Working?
  {
    && a.phase.slot.runner != b.phase.slot.runner
    && (ProjectId(a.job) == ProjectId(b.job) ==> a.phase.slot.project != b.phase.slot.project)
  }

  /** The rotator holds the lock from before a reset until the new token is saved; the loop
      takes it when no job is left. */
  predicate LockKept(s: State) {
    && (s.lock.ByRotator? <==> s.rotator in {Holding, Resetting, Unsaved})
    && (s.lock.ByLoop? <==> s.loop.Dropping?)
    && (s.loop in {Locking, Dropping, Returned} ==> s.tasks == map[])
    && (s.loop.Returned? ==> s.rotator.Stopped?)
  }

  ghost predicate Kept(s: State) {
    PermitsKept(s) && SlotsKept(s) && LockKept(s)
  }

  // ---- Every step keeps it ----

  lemma StepKeepsPermits(s: State, e: Event)
    requires Enabled(s, e) && PermitsKept(s)
    ensures PermitsKept(Step(s, e))
  {
  }

  lemma {:induction false} StepKeepsLock(s: State, e: Event)
    requires Enabled(s, e) && LockKept(s) && PermitsKept(s)
    ensures LockKept(Step(s, e))
  {
  }

  function One(b: bool): nat {
    if b then 1 else 0
  }

  lemma CountApart(tasks: map<nat, Task>, t: nat, p: Option<nat>)
    requires t in tasks
    ensures |RunningIn(tasks, p)| == |RunningIn(tasks - {t}, p)| + One(Counts(tasks[t], p))
  {
    var others := RunningIn(tasks - {t}, p);
    if Counts(tasks[t], p) {
      assert RunningIn(tasks, p) == others + {t};
    } else {
      assert RunningIn(tasks, p) == others;
    }
  }

  /** Changing one task changes the counts by that task. */
  lemma CountUpdate(tasks: map<nat, Task>, t: nat, x: Task, p: Option<nat>)
    ensures |RunningIn(tasks[t := x], p)| + One(t in tasks && Counts(tasks[t], p)) ==
            |RunningIn(tasks, p)| + One(Counts(x, p))
  {
    CountApart(tasks[t := x], t, p);
    if t in tasks {
      CountApart(tasks, t, p);
      assert tasks[t := x] - {t} == tasks - {t};
    } else {
      assert tasks[t := x] - {t} == tasks;
    }
  }

  lemma CountRemoved(tasks: map<nat, Task>, t: nat, p: Option<nat>)
    requires t in tasks && !tasks[t].phase.Working?
    ensures RunningIn(tasks - {t}, p) == RunningIn(tasks, p)
  {
  }

  lemma AcquiredCount(table: Table, project: nat, p: Option<nat>)
    ensures |UsedIn(Acquired(table, project), p)| == |UsedIn(table, p)| + One(p.Some? ==> p.value == project)
  {
  }

  lemma ReleasedCount(table: Table, project: nat, slot: Slot, p: Option<nat>)
    requires slot.runner in table.runner && slot.project in UsedBy(table, project)
    ensures |UsedIn(Released(table, project, slot), p)| + One(p.Some? ==> p.value == project) == |UsedIn(table, p)|
  {
  }

  /** A job without slots holds a permit that no job with slots holds. */
  lemma SomeoneIsNotRunning(s: State, t: nat)
    requires PermitsKept(s) && t in s.tasks && s.tasks[t].phase.Spawned?
    ensures forall p :: |RunningIn(s.tasks, p)| < s.concurrent
  {
    forall p ensures |RunningIn(s.tasks, p)| < s.concurrent {
      Subset(RunningIn(s.tasks, p), s.tasks.Keys - {t});
    }
  }

  lemma {:induction false} Subset(a: set<nat>, b: set<nat>)
    requires a <= b
    ensures |a| <= |b|
  {
    if a != {} {
      var x :| x in a;
      Subset(a - {x}, b - {x});
    }
  }

  ghost predicate CountsKept(s: State) {
    forall p: Option<nat> :: |UsedIn(s.table, p)| == |RunningIn(s.tasks, p)|
  }

  lemma TakeKeepsCounts(s: State, t: nat)
    requires CountsKept(s) && t in s.tasks && s.tasks[t].phase.Spawned?
    ensures CountsKept(TakeStep(s, t))
  {
    var u, project := TakeStep(s, t), ProjectId(s.tasks[t].job);
    forall p: Option<nat> ensures |UsedIn(u.table, p)| == |RunningIn(u.tasks, p)| {
      CountUpdate(s.tasks, t, u.tasks[t], p);
      AcquiredCount(s.table, project, p);
    }
  }

  /** The new slots are free ones, so they are in range. */
  lemma TakenInRange(s: State, t: nat)
    requires PermitsKept(s) && CountsKept(s) && t in s.tasks && s.tasks[t].phase.Spawned?
    ensures var slot := SlotFor(s.table, ProjectId(s.tasks[t].job));
            slot.runner < s.concurrent && slot.project < s.concurrent
  {
    var project := ProjectId(s.tasks[t].job);
    SomeoneIsNotRunning(s, t);
    assert |UsedIn(s.table, None)| == |RunningIn(s.tasks, None)|;
    assert |UsedIn(s.table, Some(project))| == |RunningIn(s.tasks, Some(project))|;
  }

  lemma TakeKeepsSlots(s: State, t: nat)
    requires PermitsKept(s) && SlotsKept(s) && t in s.tasks && s.tasks[t].phase.Spawned?
    ensures SlotsKept(TakeStep(s, t))
  {
    var u := TakeStep(s, t);
    TakeKeepsCounts(s, t);
    TakenInRange(s, t);
    forall v | v in u.tasks && u.tasks[v].phase.Working? ensures SlotKept(u, v) {
      assert v != t ==> SlotKept(s, v);
    }
    TakenApart(s, t);
  }

  lemma TakenApart(s: State, t: nat)
    requires AllApart(s.tasks) && t in s.tasks && s.tasks[t].phase.Spawned?
    requires forall v | v in s.tasks && s.tasks[v].phase.Working? :: SlotKept(s, v)
    ensures AllApart(TakeStep(s, t).tasks)
  {
    var u := TakeStep(s, t);
    forall v, w | v in u.tasks && w in u.tasks && v != w && u.tasks[v].phase.Working? && u.tasks[w].phase.Working?
      ensures SlotsApart(u.tasks[v], u.tasks[w])
    {
      if v != t {
        assert SlotKept(s, v);
      }
      if w != t {
        assert SlotKept(s, w);
      }
    }
  }

  lemma GiveKeepsSlots(s: State, t: nat)
    requires SlotsKept(s) && t in s.tasks && s.tasks[t].phase.Working?
    ensures SlotsKept(GiveStep(s, t))
  {
    var u, project, slot := GiveStep(s, t), ProjectId(s.tasks[t].job), s.tasks[t].phase.slot;
    forall p: Option<nat> ensures |UsedIn(u.table, p)| == |RunningIn(u.tasks, p)| {
      CountUpdate(s.tasks, t, u.tasks[t], p);
      ReleasedCount(s.table, project, slot, p);
    }
    forall v | v in u.tasks && u.tasks[v].phase.Working? ensures SlotKept(u, v) {
      assert SlotKept(s, v) && SlotsApart(s.tasks[v], s.tasks[t]);
    }
  }

  lemma {:induction false} StepKeepsSlots(s: State, e: Event)
    requires Enabled(s, e) && PermitsKept(s) && SlotsKept(s)
    ensures SlotsKept(Step(s, e))
  {
    match e
    case TakeSlots(t) => TakeKeepsSlots(s, t);
    case GiveSlots(t) => GiveKeepsSlots(s, t);
    case GotJob(t, job) => GotKeepsSlots(s, t, job);
    case DropPermit(t) => DropKeepsSlots(s, t);
    case _ =>
      assert Step(s, e).tasks == s.tasks && Step(s, e).table == s.table;
  }

  lemma GotKeepsSlots(s: State, t: nat, job: Job)
    requires SlotsKept(s) && t !in s.tasks
    ensures SlotsKept(s.(loop := Waiting, tasks := s.tasks[t := Task(job, Spawned)]))
  {
    var u := s.(loop := Waiting, tasks := s.tasks[t := Task(job, Spawned)]);
    forall p: Option<nat> ensures |UsedIn(u.table, p)| == |RunningIn(u.tasks, p)| {
      CountUpdate(s.tasks, t, u.tasks[t], p);
    }
    forall v | v in u.tasks && u.tasks[v].phase.Working? ensures SlotKept(u, v) {
      assert SlotKept(s, v);
    }
  }

  lemma DropKeepsSlots(s: State, t: nat)
    requires SlotsKept(s) && t in s.tasks && s.tasks[t].phase.Ended?
    ensures SlotsKept(s.(tasks := s.tasks - {t}, permits := s.permits + 1))
  {
    var u := s.(tasks := s.tasks - {t}, permits := s.permits + 1);
    forall p: Option<nat> ensures |UsedIn(u.table, p)| == |RunningIn(u.tasks, p)| {
      CountRemoved(s.tasks, t, p);
    }
    forall v | v in u.tasks && u.tasks[v].phase.Working? ensures SlotKept(u, v) {
      assert SlotKept(s, v);
    }
  }

  lemma {:induction false} RunKeeps(s: State, es: seq<Event>)
    requires Possible(s, es) && Kept(s)
    ensures Kept(Run(s, es))
    decreases |es|
  {
    if es != [] {
      StepKeepsPermits(s, es[0]);
      StepKeepsSlots(s, es[0]);
      StepKeepsLock(s, es[0]);
      RunKeeps(Step(s, es[0]), es[1..]);
    }
  }

  lemma InitialIsKept(concurrent: nat)
    ensures Kept(Initial(concurrent))
  {
    var s := Initial(concurrent);
    forall p: Option<nat> ensures |UsedIn(s.table, p)| == |RunningIn(s.tasks, p)| {
      assert RunningIn(s.tasks, p) == {};
    }
  }

  // ---- What follows for every run ----

  /** At most `concurrent` jobs hold a permit, and the numbers of a running job's slots are
      below `concurrent`. */
  lemma {:induction false} AtMostConcurrentJobs(concurrent: nat, es: seq<Event>)
    requires Possible(Initial(concurrent), es)
    ensures var s := Run(Initial(concurrent), es);
            && s.concurrent == concurrent && |s.tasks| <= concurrent
            && forall t | t in s.tasks && s.tasks[t].phase.Working? ::
                 s.tasks[t].phase.slot.runner < concurrent && s.tasks[t].phase.slot.project < concurrent
  {
    InitialIsKept(concurrent);
    RunKeeps(Initial(concurrent), es);
    ConcurrentStays(Initial(concurrent), es);
    var s := Run(Initial(concurrent), es);
    forall t | t in s.tasks && s.tasks[t].phase.Working?
      ensures s.tasks[t].phase.slot.runner < concurrent && s.tasks[t].phase.slot.project < concurrent
    {
      assert SlotKept(s, t);
    }
  }

  lemma {:induction false} OneEventMore(s: State, es: seq<Event>, e: Event)
    requires Possible(s, es) && Enabled(Run(s, es), e)
    ensures Possible(s, es + [e]) && Run(s, es + [e]) == Step(Run(s, es), e)
    decreases |es|
  {
    if es == [] {
      var none: seq<Event> := [];
      assert es + [e] == [e] && [e][1..] == none;
      assert Possible(Step(s, e), none) && Run(Step(s, e), none) == Step(s, e);
    } else {
      assert (es + [e])[0] == es[0] && (es + [e])[1..] == es[1..] + [e];
      OneEventMore(Step(s, es[0]), es[1..], e);
    }
  }

  /** In `u`, with the jobs of `s` as they were, `t` is at work on `job`. */
  predicate Joined(s: State, t: nat, job: Job, u: State) {
    && u.loop == Waiting && u.concurrent == s.concurrent && u.tasks.Keys == s.tasks.Keys + {t}
    && u.tasks[t].phase.Working? && u.tasks[t].job == job.(projectSlot := u.tasks[t].job.projectSlot)
    && forall o | o in s.tasks :: u.tasks[o] == s.tasks[o]
  }

  lemma TakesPart(s: State, t: nat, job: Job)
    requires s.loop == Waiting && s.permits > 0 && t !in s.tasks
    ensures Enabled(s, GrantPermit)
    ensures var a := Step(s, GrantPermit);
            && Enabled(a, GotJob(t, job))
            && var b := Step(a, GotJob(t, job));
               Enabled(b, TakeSlots(t)) && Joined(s, t, job, Step(b, TakeSlots(t)))
  {
  }

  /** While fewer than `concurrent` jobs hold a permit, a loop that waits is not held up by them: it is granted
      a permit, and the job it gets can take its slots at once. */
  lemma {:induction false} FreePermitIsGranted(concurrent: nat, es: seq<Event>, t: nat, job: Job)
    requires Possible(Initial(concurrent), es)
    requires var s := Run(Initial(concurrent), es);
             s.loop == Waiting && |s.tasks| < concurrent && t !in s.tasks
    ensures var more := es + [GrantPermit] + [GotJob(t, job)] + [TakeSlots(t)];
            && Possible(Initial(concurrent), more)
            && Joined(Run(Initial(concurrent), es), t, job, Run(Initial(concurrent), more))
  {
    InitialIsKept(concurrent);
    RunKeeps(Initial(concurrent), es);
    ConcurrentStays(Initial(concurrent), es);
    TakesPart(Run(Initial(concurrent), es), t, job);
    OneEventMore(Initial(concurrent), es, GrantPermit);
    OneEventMore(Initial(concurrent), es + [GrantPermit], GotJob(t, job));
    OneEventMore(Initial(concurrent), es + [GrantPermit] + [GotJob(t, job)], TakeSlots(t));
  }

  /** In `s` exactly `jobs` are at work, known by their places in the list. */
  predicate AllAtWork(s: State, jobs: seq<Job>) {
    && s.loop == Waiting && |s.tasks| == |jobs|
    && (forall t | t in s.tasks :: t < |jobs|)
    && forall t: nat | t < |jobs| ::
         && t in s.tasks && s.tasks[t].phase.Working?
         && s.tasks[t].job == jobs[t].(projectSlot := s.tasks[t].job.projectSlot)
  }

  lemma OneJobMore(s: State, jobs: seq<Job>, u: State)
    requires jobs != [] && AllAtWork(s, jobs[..|jobs| - 1]) && Joined(s, |jobs| - 1, jobs[|jobs| - 1], u)
    ensures AllAtWork(u, jobs)
  {
    assert |u.tasks| == |u.tasks.Keys| == |s.tasks.Keys| + 1;
  }

  /** As many jobs as `concurrent` says can be at work at once, whatever jobs they are. */
  lemma {:induction false} AllMayWork(concurrent: nat, jobs: seq<Job>) returns (es: seq<Event>)
    requires |jobs| <= concurrent
    ensures Possible(Initial(concurrent), es) && AllAtWork(Run(Initial(concurrent), es), jobs)
  {
    es := [];
    if jobs != [] {
      var t := |jobs| - 1;
      var before := AllMayWork(concurrent, jobs[..t]);
      FreePermitIsGranted(concurrent, before, t, jobs[t]);
      es := before + [GrantPermit] + [GotJob(t, jobs[t])] + [TakeSlots(t)];
      OneJobMore(Run(Initial(concurrent), before), jobs, Run(Initial(concurrent), es));
    }
  }

  lemma {:induction false} ConcurrentStays(s: State, es: seq<Event>)
    requires Possible(s, es)
    ensures Run(s, es).concurrent == s.concurrent
    decreases |es|
  {
    if es != [] {
      ConcurrentStays(Step(s, es[0]), es[1..]);
    }
  }

  /** Of the jobs running at any moment, no two share a directory. */
  lemma {:induction false} RunningJobsHaveOwnWorkspaces(concurrent: nat, es: seq<Event>, t: nat, u: nat)
    requires Possible(Initial(concurrent), es)
    requires var tasks := Run(Initial(concurrent), es).tasks;
             && t in tasks && u in tasks && t != u && tasks[t].phase.Working? && tasks[u].phase.Working?
             && tasks[t].job.id != tasks[u].job.id
    ensures var tasks := Run(Initial(concurrent), es).tasks;
            Workspace(tasks[t].job) != Workspace(tasks[u].job)
  {
    InitialIsKept(concurrent);
    RunKeeps(Initial(concurrent), es);
    var s := Run(Initial(concurrent), es);
    assert SlotKept(s, t) && SlotKept(s, u) && SlotsApart(s.tasks[t], s.tasks[u]);
    NamesTellJobsApart(s.tasks[t].job, s.tasks[u].job);
  }

  /** `start` returns only when no job is left and no token reset is between its request and
      its save; the rotator starts none after that. */
  lemma {:induction false} ReturnsQuietly(concurrent: nat, es: seq<Event>)
    requires Possible(Initial(concurrent), es) && Run(Initial(concurrent), es).loop.Returned?
    ensures var s := Run(Initial(concurrent), es);
            s.tasks == map[] && s.rotator.Stopped? && s.lock.Free? && s.permits == s.concurrent
  {
    InitialIsKept(concurrent);
    RunKeeps(Initial(concurrent), es);
  }

  // ---- A shutdown never gets stuck ----

  ghost predicate Ends(s: State, es: seq<Event>) {
    Possible(s, es) && Run(s, es).loop == Returned
  }

  lemma Before(s: State, e: Event, es: seq<Event>)
    requires Enabled(s, e) && Ends(Step(s, e), es)
    ensures Ends(s, [e] + es)
  {
    assert ([e] + es)[1..] == es;
  }

  /** The loop gets the lock as soon as the rotator has saved its token, or given up. */
  lemma EndLocking(s: State) returns (es: seq<Event>)
    requires LockKept(s) && PermitsKept(s) && s.loop in {Locking, Dropping}
    ensures Ends(s, es)
    decreases if s.loop.Dropping? then 0 else if s.lock.Free? then 1 else 2
  {
    var e := if s.loop.Dropping? then Finish
             else if s.lock.Free? then LoopLocks
             else if s.rotator.Holding? then OldTokenUnsaved
             else if s.rotator.Resetting? then ResetFails else NewTokenSaved(false);
    StepKeepsLock(s, e);
    StepKeepsPermits(s, e);
    var rest := [];
    if !s.loop.Dropping? {
      rest := EndLocking(Step(s, e));
    }
    Before(s, e, rest);
    es := [e] + rest;
  }

  function StepsLeft(x: Task): nat {
    match x.phase
    case Spawned => 2
    case Working(_) => 1
    case Ended => 0
  }

  /** The jobs end, one after the other. */
  lemma EndDraining(s: State) returns (es: seq<Event>)
    requires LockKept(s) && PermitsKept(s) && s.loop == Draining
    ensures Ends(s, es)
    decreases |s.tasks|, 3
  {
    if s.tasks == map[] {
      StepKeepsLock(s, Drained);
      StepKeepsPermits(s, Drained);
      var rest := EndLocking(Step(s, Drained));
      Before(s, Drained, rest);
      es := [Drained] + rest;
    } else {
      var t :| t in s.tasks;
      es := EndTask(s, t);
    }
  }

  lemma EndTask(s: State, t: nat) returns (es: seq<Event>)
    requires LockKept(s) && PermitsKept(s) && s.loop == Draining && t in s.tasks
    ensures Ends(s, es)
    decreases |s.tasks|, StepsLeft(s.tasks[t])
  {
    var e := if s.tasks[t].phase.Spawned? then TakeSlots(t)
             else if s.tasks[t].phase.Working? then GiveSlots(t) else DropPermit(t);
    StepKeepsLock(s, e);
    StepKeepsPermits(s, e);
    TaskMoves(s, t, e);
    var rest;
    if s.tasks[t].phase.Ended? {
      rest := EndDraining(Step(s, e));
    } else {
      rest := EndTask(Step(s, e), t);
    }
    Before(s, e, rest);
    es := [e] + rest;
  }

  lemma TaskMoves(s: State, t: nat, e: Event)
    requires t in s.tasks && e in {TakeSlots(t), GiveSlots(t), DropPermit(t)} && Enabled(s, e)
    ensures var u := Step(s, e);
            && u.loop == s.loop
            && if e.DropPermit? then |u.tasks| == |s.tasks| - 1
               else |u.tasks| == |s.tasks| && t in u.tasks && StepsLeft(u.tasks[t]) == StepsLeft(s.tasks[t]) - 1
  {
    var u := Step(s, e);
    if e.DropPermit? {
      assert u.tasks.Keys == s.tasks.Keys - {t} && |u.tasks| == |u.tasks.Keys|;
    } else {
      assert u.tasks.Keys == s.tasks.Keys && |u.tasks| == |u.tasks.Keys|;
    }
  }

  lemma EndWaiting(s: State, stop: Event) returns (es: seq<Event>)
    requires LockKept(s) && PermitsKept(s) && stop in {StopWaiting, StopIdle} && Enabled(s, stop)
    ensures Ends(s, es)
  {
    StepKeepsLock(s, stop);
    StepKeepsPermits(s, stop);
    var rest := EndDraining(Step(s, stop));
    Before(s, stop, rest);
    es := [stop] + rest;
  }

  lemma EndFrom(s: State) returns (es: seq<Event>)
    requires LockKept(s) && PermitsKept(s) && s.shutdown
    ensures Ends(s, es)
  {
    match s.loop
    case Returned => es := [];
    case Draining => es := EndDraining(s);
    case Locking => es := EndLocking(s);
    case Dropping => es := EndLocking(s);
    case Waiting => es := EndWaiting(s, StopWaiting);
    case Idle => es := EndWaiting(s, StopIdle);
    case Requesting =>
      StepKeepsLock(s, GotNoJob);
      StepKeepsPermits(s, GotNoJob);
      var rest := EndWaiting(Step(s, GotNoJob), StopIdle);
      Before(s, GotNoJob, rest);
      es := [GotNoJob] + rest;
  }

  /** Whatever has happened, a shutdown can end from there: no state holds it up for ever. */
  lemma {:induction false} ShutdownCanEnd(concurrent: nat, es: seq<Event>) returns (more: seq<Event>)
    requires Possible(Initial(concurrent), es)
    ensures Possible(Run(Initial(concurrent), es), [RequestShutdown] + more)
    ensures Run(Run(Initial(concurrent), es), [RequestShutdown] + more).loop == Returned
  {
    InitialIsKept(concurrent);
    RunKeeps(Initial(concurrent), es);
    var s := Run(Initial(concurrent), es);
    StepKeepsLock(s, RequestShutdown);
    StepKeepsPermits(s, RequestShutdown);
    more := EndFrom(Step(s, RequestShutdown));
    Before(s, RequestShutdown, more);
  }

  /** After a shutdown has ended the waiting, no job is ever accepted again. */
  lemma {:induction false} DrainingAcceptsNothing(s: State, es: seq<Event>, t: nat)
    requires Possible(s, es) && s.loop in {Draining, Locking, Dropping, Returned} && t !in s.tasks
    ensures t !in Run(s, es).tasks && Run(s, es).loop in {Draining, Locking, Dropping, Returned}
    decreases |es|
  {
    if es != [] {
      DrainingAcceptsNothing(Step(s, es[0]), es[1..], t);
    }
  }
}
