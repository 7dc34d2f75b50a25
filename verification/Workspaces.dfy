/** Workspace directories (`workspace` in the executor): which jobs share one. */
module Workspaces {
  import opened Options
  import opened Decimal

  /** What the name depends on. `project` and `isProtected` may be missing from a job. */
  datatype Job = Job(id: nat, project: Option<nat>, projectSlot: nat, isProtected: Option<bool>)

  /** `project_id` */
  function ProjectId(job: Job): nat {
    if job.project.Some? then job.project.value else 0
  }

  function Suffix(isProtected: bool): string {
    if isProtected then "-protected" else ""
  }

  /** Directory name below the builds root. */
  function Workspace(job: Job): (name: string) {
    if job.isProtected.Some? then
      "project-" + (Print(ProjectId(job)) + ("-" + (Print(job.projectSlot) + Suffix(job.isProtected.value))))
    else "job-" + Print(job.id)
  }

  /** The jobs that share a directory. */
  predicate SameWorkspace(a: Job, b: Job) {
    if a.isProtected.Some? && b.isProtected.Some? then
      ProjectId(a) == ProjectId(b) && a.projectSlot == b.projectSlot && a.isProtected == b.isProtected
    else a.isProtected == b.isProtected && a.id == b.id
  }

  lemma Cancelled<T>(head: seq<T>, a: seq<T>, b: seq<T>)
    requires head + a == head + b
    ensures a == b
  {
    assert (head + a)[|head|..] == a && (head + b)[|head|..] == b;
  }

  /** Text that does not go on with a digit. */
  predicate NoDigit(s: string) {
    s == [] || !IsDigit(s[0])
  }

  function LeadingDigits(s: string): nat {
    if NoDigit(s) then 0 else 1 + LeadingDigits(s[1..])
  }

  lemma {:induction false} DigitsThen(digits: string, rest: string)
    requires NoDigit(rest) && forall i | 0 <= i < |digits| :: IsDigit(digits[i])
    ensures LeadingDigits(digits + rest) == |digits|
  {
    if digits == [] {
      assert digits + rest == rest;
    } else {
      assert (digits + rest)[1..] == digits[1..] + rest;
      DigitsThen(digits[1..], rest);
    }
  }

  /** A printed number ends where the digits end. */
  lemma PrintedThen(m: nat, a: string, n: nat, b: string)
    requires Print(m) + a == Print(n) + b && NoDigit(a) && NoDigit(b)
    ensures m == n && a == b
  {
    var p, q := Print(m), Print(n);
    DigitsThen(p, a);
    DigitsThen(q, b);
    assert (p + a)[..|p|] == p && (q + b)[..|q|] == q;
    PrintIsInjective(m, n);
    Cancelled(p, a, b);
  }

  lemma DifferentHeads(a: string, b: string)
    ensures "job-" + a != "project-" + b
  {
    assert ("job-" + a)[0] == 'j' && ("project-" + b)[0] == 'p';
  }

  lemma ProjectNames(a: Job, b: Job)
    requires a.isProtected.Some? && b.isProtected.Some? && Workspace(a) == Workspace(b)
    ensures SameWorkspace(a, b)
  {
    var x := Print(a.projectSlot) + Suffix(a.isProtected.value);
    var y := Print(b.projectSlot) + Suffix(b.isProtected.value);
    Cancelled("project-", Print(ProjectId(a)) + ("-" + x), Print(ProjectId(b)) + ("-" + y));
    PrintedThen(ProjectId(a), "-" + x, ProjectId(b), "-" + y);
    Cancelled("-", x, y);
    PrintedThen(a.projectSlot, Suffix(a.isProtected.value), b.projectSlot, Suffix(b.isProtected.value));
  }

  /** Two jobs use the same directory exactly when they are of the same project, slot and
      protection, or are one job whose protection is not known. In particular a protected
      and an unprotected job never share one, at any time. */
  lemma {:induction false} NamesTellJobsApart(a: Job, b: Job)
    ensures Workspace(a) == Workspace(b) <==> SameWorkspace(a, b)
  {
    if Workspace(a) == Workspace(b) {
      if a.isProtected.Some? && b.isProtected.Some? {
        ProjectNames(a, b);
      } else if a.isProtected.None? && b.isProtected.None? {
        Cancelled("job-", Print(a.id), Print(b.id));
        PrintIsInjective(a.id, b.id);
      } else if a.isProtected.Some? {
        DifferentHeads(Print(b.id), Workspace(a)[8..]);
      } else {
        DifferentHeads(Print(a.id), Workspace(b)[8..]);
      }
    }
  }
}
