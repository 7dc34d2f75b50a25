/** The size limit of a job log: what is kept of a log that is written piece by piece. */
module TraceLog {
  import opened Bytes
  import opened Utf8
  import opened StreamScrubbing
  import opened Decimal

  /** What a log may hold, and what is written where it is cut. */
  datatype Cap = Cap(limit: nat, notice: seq<byte>)

  function CapOf(limit: nat): Cap {
    Cap(limit, Ascii("\nJob's log exceeded limit of " + Print(limit) +
                     " bytes.\nJob execution will continue but no more output will be collected.\n"))
  }

  /** The simple form: a whole text cut at the last character that fits. */
  function Truncate(text: seq<byte>, cap: Cap): seq<byte> {
    if |text| <= cap.limit then text else text[..FloorBoundary(text, cap.limit)] + cap.notice
  }

  /** A text within the limit is kept; of a longer one what fits, without the bytes of a character that does
      not fit as a whole, and the notice. */
  lemma {:induction false} TruncatedExactly(text: seq<byte>, cap: Cap, n: nat)
    requires n <= |text| && IsCharBoundary(text, n)
    requires |text| > cap.limit ==> n <= cap.limit && forall i | n < i <= cap.limit :: IsContinuation(text[i])
    ensures Truncate(text, cap) == if |text| <= cap.limit then text else text[..n] + cap.notice
  {
  }

  datatype Log = Log(trace: seq<byte>, truncated: bool)

  /** What the log of `text` looks like. */
  function Collected(text: seq<byte>, cap: Cap): Log {
    Log(Truncate(text, cap), |text| > cap.limit)
  }

  /** `TraceWriter::append` */
  method Append(log: Log, text: seq<byte>, cap: Cap, ghost before: seq<byte>) returns (r: Log)
    requires log == Collected(before, cap) && StartsChar(text)
    ensures r == Collected(before + text, cap)
    ensures IsPrefix(log.trace, r.trace)
  {
    if log.truncated {
      PastTheCap(before, text, cap);
      return log;
    }
    var room := if |log.trace| <= cap.limit then cap.limit - |log.trace| else 0;
    if |text| <= room {
      return Log(log.trace + text, false);
    }
    OverTheCap(before, text, room, cap);
    var cut := WalkDown(text, room);
    r := Log(log.trace + text[..cut] + cap.notice, true);
  }

  /** Boundaries within the front part are the same when a text grows. */
  lemma {:induction false} FloorInFront(a: seq<byte>, b: seq<byte>, i: nat)
    requires i < |a|
    ensures FloorBoundary(a + b, i) == FloorBoundary(a, i)
  {
    assert (a + b)[i] == a[i];
    if !IsCharBoundary(a, i) {
      FloorInFront(a, b, i - 1);
    }
  }

  lemma {:induction false} FloorBehind(a: seq<byte>, b: seq<byte>, i: nat)
    requires StartsChar(b) && i <= |b|
    ensures FloorBoundary(a + b, |a| + i) == |a| + FloorBoundary(b, i)
  {
    BoundaryBehind(a, b, i);
    if !IsCharBoundary(b, i) {
      FloorBehind(a, b, i - 1);
    }
  }

  /** Once cut, a log stays as it is. */
  lemma PastTheCap(a: seq<byte>, b: seq<byte>, cap: Cap)
    requires |a| > cap.limit
    ensures Collected(a + b, cap) == Collected(a, cap)
  {
    FloorInFront(a, b, cap.limit);
    TakeOfFront(a, b, FloorBoundary(a, cap.limit));
  }

  /** The piece that does not fit any more is cut where the whole text would be. */
  lemma OverTheCap(a: seq<byte>, b: seq<byte>, room: nat, cap: Cap)
    requires StartsChar(b) && |a| + room == cap.limit && room < |b|
    ensures Collected(a + b, cap) == Log(a + b[..FloorBoundary(b, room)] + cap.notice, true)
  {
    FloorBehind(a, b, room);
    TakeBehind(a, b, FloorBoundary(b, room));
  }

  lemma TakeOfFront<T>(a: seq<T>, b: seq<T>, n: nat)
    requires n <= |a|
    ensures (a + b)[..n] == a[..n]
  {
  }

  lemma TakeBehind<T>(a: seq<T>, b: seq<T>, n: nat)
    requires n <= |b|
    ensures (a + b)[..|a| + n] == a + b[..n]
  {
  }
}
