/** Slot numbers (`ConcurrencySlots`): the lowest free id on the runner and, per project, the
    lowest free id among the project's jobs. */
module Slots {

  /** Every number below `id` is taken. */
  predicate AllTaken(used: set<nat>, id: nat) {
    forall k | 0 <= k < id :: k in used
  }

  /** Pigeonhole: so many numbers need that many members. */
  lemma {:induction false} TakenAreMembers(used: set<nat>, id: nat)
    requires AllTaken(used, id)
    ensures id <= |used|
    decreases id
  {
    if id > 0 {
      var others := used - {id - 1};
      forall k | 0 <= k < id - 1 ensures k in others {
        assert k in used;
      }
      TakenAreMembers(others, id - 1);
    }
  }

  predicate IsLowestFree(used: set<nat>, id: nat) {
    id !in used && AllTaken(used, id)
  }

  function LowestFreeFrom(used: set<nat>, id: nat): (r: nat)
    requires AllTaken(used, id)
    ensures IsLowestFree(used, r)
    decreases |used| - id
  {
    TakenAreMembers(used, id);
    if id !in used then id
    else
      assert AllTaken(used, id + 1);
      TakenAreMembers(used, id + 1);
      LowestFreeFrom(used, id + 1)
  }

  /** A free number never lies above the number of those in use. */
  function LowestFree(used: set<nat>): (r: nat)
    ensures IsLowestFree(used, r) && r <= |used|
  {
    var r := LowestFreeFrom(used, 0);
    TakenAreMembers(used, r);
    r
  }

  /** `lowest_free`: the search ends. */
  method FindLowestFree(used: set<nat>) returns (id: nat)
    ensures id == LowestFree(used)
  {
    id := 0;
    TakenAreMembers(used, 0);
    while id in used
      invariant AllTaken(used, id) && id <= |used|
      decreases |used| - id
    {
      assert AllTaken(used, id + 1);
      TakenAreMembers(used, id + 1);
      id := id + 1;
    }
    assert IsLowestFree(used, LowestFree(used));
  }

  /** Ids in use on the runner, and by each project that has any. */
  datatype Table = Table(runner: set<nat>, projects: map<nat, set<nat>>)

  function UsedBy(t: Table, project: nat): set<nat> {
    if project in t.projects then t.projects[project] else {}
  }

  datatype Slot = Slot(runner: nat, project: nat)

  function SlotFor(t: Table, project: nat): Slot {
    Slot(LowestFree(t.runner), LowestFree(UsedBy(t, project)))
  }

  function Acquired(t: Table, project: nat): Table {
    var s := SlotFor(t, project);
    Table(t.runner + {s.runner}, t.projects[project := UsedBy(t, project) + {s.project}])
  }

  function Released(t: Table, project: nat, s: Slot): Table {
    Table(t.runner - {s.runner},
          if project !in t.projects then t.projects
          else if t.projects[project] - {s.project} == {} then t.projects - {project}
          else t.projects[project := t.projects[project] - {s.project}])
  }

  /** No project is kept without a slot in use. */
  predicate Tidy(t: Table) {
    forall p | p in t.projects :: t.projects[p] != {}
  }

  /** Giving a slot back undoes taking it. */
  lemma {:induction false} ReleaseUndoesAcquire(t: Table, project: nat)
    requires Tidy(t)
    ensures Released(Acquired(t, project), project, SlotFor(t, project)) == t
  {
    var s, u := SlotFor(t, project), Acquired(t, project);
    assert u.runner - {s.runner} == t.runner;
    var used := UsedBy(t, project);
    assert used + {s.project} - {s.project} == used;
    assert Released(u, project, s).projects == t.projects;
  }

  class ConcurrencySlots {
    var runner: set<nat>
    var projects: map<nat, set<nat>>

    function Contents(): Table
      reads this
    {
      Table(runner, projects)
    }

    constructor ()
      ensures Contents() == Table({}, map[])
    {
      runner, projects := {}, map[];
    }

    method Acquire(project: nat) returns (s: Slot)
      modifies this
      ensures s == SlotFor(old(Contents()), project) && Contents() == Acquired(old(Contents()), project)
      ensures IsLowestFree(old(runner), s.runner) && IsLowestFree(UsedBy(old(Contents()), project), s.project)
    {
      var id := FindLowestFree(runner);
      runner := runner + {id};
      var used := if project in projects then projects[project] else {};
      var projectId := FindLowestFree(used);
      projects := projects[project := used + {projectId}];
      s := Slot(id, projectId);
    }

    method Release(project: nat, s: Slot)
      modifies this
      ensures Contents() == Released(old(Contents()), project, s)
    {
      runner := runner - {s.runner};
      if project in projects {
        var used := projects[project] - {s.project};
        projects := projects[project := used];
        if used == {} {
          projects := projects - {project};
        }
      }
    }
  }
}
