/** Per-job cancellation: a state that only escalates. */
module Cancel {

  /** A job's state as an answer of GitLab reports it, weakest first. */
  datatype RemoteState = Running | Canceling | Aborted

  function Rank(s: RemoteState): nat {
    match s
    case Running => 0
    case Canceling => 1
    case Aborted => 2
  }

  /** The derived order of the enumeration. */
  predicate AtLeast(s: RemoteState, level: RemoteState) {
    Rank(s) >= Rank(level)
  }

  /** The strongest of a list of reports. */
  function Strongest(reports: seq<RemoteState>): (s: RemoteState) {
    if reports == [] then Running
    else
      var last, before := reports[|reports| - 1], Strongest(reports[..|reports| - 1]);
      if Rank(last) > Rank(before) then last else before
  }

  /** A level is reached exactly when some report so far was at least that strong; so the
      state depends neither on the order of the reports nor on how often one came. */
  lemma {:induction false} StrongestReaches(reports: seq<RemoteState>, level: RemoteState)
    ensures AtLeast(Strongest(reports), level) <==> level.Running? || exists r :: r in reports && AtLeast(r, level)
  {
    if reports != [] {
      var last, before := reports[|reports| - 1], reports[..|reports| - 1];
      assert reports == before + [last];
      StrongestReaches(before, level);
    }
  }

  /** No report takes a level back. */
  lemma {:induction false} StrongestOnlyEscalates(reports: seq<RemoteState>, more: seq<RemoteState>)
    ensures AtLeast(Strongest(reports + more), Strongest(reports))
  {
    StrongestReaches(reports, Strongest(reports));
    StrongestReaches(reports + more, Strongest(reports));
  }

  class CancelSignal {
    var state: RemoteState
    /** Everything ever reported. */
    ghost var reports: seq<RemoteState>

    ghost predicate Consistent()
      reads this
    {
      state == Strongest(reports)
    }

    constructor ()
      ensures Consistent() && reports == [] && state == Running
    {
      state, reports := Running, [];
    }

    /** Take in a report: the state is the stronger of it and the state so far. */
    method Update(report: RemoteState)
      requires Consistent()
      modifies this
      ensures Consistent() && reports == old(reports) + [report]
      ensures AtLeast(state, old(state)) && AtLeast(state, report) && state in {old(state), report}
    {
      reports := reports + [report];
      assert reports[..|reports| - 1] == old(reports);
      if Rank(report) > Rank(state) {
        state := report;
      }
    }
  }
}
