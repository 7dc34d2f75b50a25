/** The secrets a job adds to the scrubber (`with_job_secrets`): values and their URL-encoded
    forms, longest first. */
module JobSecrets {
  import opened Bytes
  import opened Options
  import opened Utf8
  import opened PercentEncoding
  import opened Scrubber
  import opened Simultaneous
  import opened StreamScrubbing
  import opened StreamMasking

  datatype Variable = Variable(value: Option<seq<byte>>, masked: bool)

  /** A job, as far as it brings secrets: its variables, its token, and those of its dependencies. */
  datatype Job = Job(variables: seq<Variable>, token: seq<byte>, dependencies: seq<seq<byte>>)

  function MaskedValues(variables: seq<Variable>): seq<seq<byte>> {
    if variables == [] then []
    else
      (if variables[0].masked && variables[0].value.Some? then [variables[0].value.value] else [])
      + MaskedValues(variables[1..])
  }

  /** All that a job wants masked. */
  function ValuesOf(job: Job): seq<seq<byte>> {
    MaskedValues(job.variables) + [job.token] + job.dependencies
  }

  /** `add_secret` */
  function Added(secrets: seq<seq<byte>>, s: seq<byte>): seq<seq<byte>> {
    if s == [] || s in secrets then secrets else secrets + [s]
  }

  function Encoded(value: seq<byte>): seq<byte> {
    Encode(value, UnreservedBytes)
  }

  function Collected(secrets: seq<seq<byte>>, values: seq<seq<byte>>): seq<seq<byte>>
    decreases |values|
  {
    if values == [] then secrets
    else
      var value := values[0];
      var more := if Encoded(value) != value then Added(secrets, Encoded(value)) else secrets;
      Collected(Added(more, value), values[1..])
  }

  /** `s` behind everything that is at least as long. */
  function Insert(sorted: seq<seq<byte>>, s: seq<byte>): seq<seq<byte>> {
    if sorted == [] || |sorted[0]| < |s| then [s] + sorted else [sorted[0]] + Insert(sorted[1..], s)
  }

  /** A stable sort, longest first. */
  function Sorted(secrets: seq<seq<byte>>): seq<seq<byte>> {
    if secrets == [] then [] else Insert(Sorted(secrets[..|secrets| - 1]), secrets[|secrets| - 1])
  }

  function OfLength(secrets: seq<seq<byte>>, n: nat): seq<seq<byte>> {
    if secrets == [] then []
    else (if |secrets[0]| == n then [secrets[0]] else []) + OfLength(secrets[1..], n)
  }

  // ---- The sort ----

  lemma {:induction false} InsertMembers(sorted: seq<seq<byte>>, s: seq<byte>)
    ensures multiset(Insert(sorted, s)) == multiset(sorted) + multiset{s}
  {
    if !(sorted == [] || |sorted[0]| < |s|) {
      InsertMembers(sorted[1..], s);
      assert sorted == [sorted[0]] + sorted[1..];
    }
  }

  lemma MembersOf(a: seq<seq<byte>>, b: seq<seq<byte>>, x: seq<byte>)
    requires multiset(a) == multiset(b)
    ensures x in a <==> x in b
  {
    assert x in a <==> x in multiset(a);
  }

  lemma LongestFirstCons(s: seq<byte>, rest: seq<seq<byte>>)
    requires LongestFirst(rest) && forall t | t in rest :: |s| >= |t|
    ensures LongestFirst([s] + rest)
  {
  }

  lemma {:induction false} InsertSorts(sorted: seq<seq<byte>>, s: seq<byte>)
    requires LongestFirst(sorted)
    ensures LongestFirst(Insert(sorted, s))
  {
    if sorted == [] || |sorted[0]| < |s| {
      forall t | t in sorted ensures |s| >= |t| {
        var i :| 0 <= i < |sorted| && sorted[i] == t;
      }
      LongestFirstCons(s, sorted);
    } else {
      var rest := Insert(sorted[1..], s);
      InsertSorts(sorted[1..], s);
      InsertMembers(sorted[1..], s);
      forall t | t in rest ensures |sorted[0]| >= |t| {
        assert t in multiset(rest);
        assert t == s || t in sorted[1..];
      }
      LongestFirstCons(sorted[0], rest);
    }
  }

  lemma {:induction false} InsertIsStable(sorted: seq<seq<byte>>, s: seq<byte>, n: nat)
    requires LongestFirst(sorted)
    ensures OfLength(Insert(sorted, s), n) == OfLength(sorted, n) + OfLength([s], n)
  {
    var none: seq<seq<byte>> := [];
    assert [s][1..] == none;
    if sorted == [] {
      assert [s] + sorted == [s];
    } else if |sorted[0]| < |s| {
      assert ([s] + sorted)[1..] == sorted;
      if |s| == n {
        NoneOfLength(sorted, n);
      }
    } else {
      InsertIsStable(sorted[1..], s, n);
      assert ([sorted[0]] + Insert(sorted[1..], s))[1..] == Insert(sorted[1..], s);
    }
  }

  lemma {:induction false} NoneOfLength(secrets: seq<seq<byte>>, n: nat)
    requires LongestFirst(secrets) && (secrets != [] ==> |secrets[0]| < n)
    ensures OfLength(secrets, n) == []
  {
    if secrets != [] {
      NoneOfLength(secrets[1..], n);
    }
  }

  lemma {:induction false} OfLengthAppend(a: seq<seq<byte>>, b: seq<seq<byte>>, n: nat)
    ensures OfLength(a + b, n) == OfLength(a, n) + OfLength(b, n)
  {
    if a == [] {
      assert a + b == b;
    } else {
      assert (a + b)[0] == a[0] && (a + b)[1..] == a[1..] + b;
      OfLengthAppend(a[1..], b, n);
    }
  }

  /** The sort keeps what is there, puts the longest first, and leaves secrets of the same
      length in their order; nothing else does all three. */
  lemma {:induction false} SortedIsStableSort(secrets: seq<seq<byte>>)
    ensures LongestFirst(Sorted(secrets)) && multiset(Sorted(secrets)) == multiset(secrets)
    ensures forall n: nat :: OfLength(Sorted(secrets), n) == OfLength(secrets, n)
  {
    if secrets != [] {
      var front, last := secrets[..|secrets| - 1], secrets[|secrets| - 1];
      assert secrets == front + [last];
      SortedIsStableSort(front);
      InsertSorts(Sorted(front), last);
      InsertMembers(Sorted(front), last);
      forall n: nat ensures OfLength(Sorted(secrets), n) == OfLength(secrets, n) {
        InsertIsStable(Sorted(front), last, n);
        OfLengthAppend(front, [last], n);
      }
    }
  }

  // ---- The list of a job ----

  /** The loop over the values. */
  method AddAll(secrets: seq<seq<byte>>, values: seq<seq<byte>>) returns (all: seq<seq<byte>>)
    ensures all == Collected(secrets, values)
  {
    all := secrets;
    for i := 0 to |values|
      invariant Collected(all, values[i..]) == Collected(secrets, values)
    {
      assert values[i..][1..] == values[i + 1..];
      var encoded := Encoded(values[i]);
      if encoded != values[i] {
        all := Added(all, encoded);
      }
      all := Added(all, values[i]);
    }
  }

  /** `with_job_secrets` */
  method WithJobSecrets(secrets: seq<seq<byte>>, job: Job) returns (all: seq<seq<byte>>)
    ensures all == Sorted(Collected(secrets, ValuesOf(job)))
  {
    all := AddAll(secrets, ValuesOf(job));
    all := Sorted(all);
  }

  lemma {:induction false} MaskedValuesAre(variables: seq<Variable>, s: seq<byte>)
    ensures s in MaskedValues(variables) <==>
              exists i :: 0 <= i < |variables| && variables[i].masked && variables[i].value == Some(s)
  {
    if variables != [] {
      var rest := variables[1..];
      MaskedValuesAre(rest, s);
      assert forall i | 0 < i < |variables| :: variables[i] == rest[i - 1];
      assert forall i | 0 <= i < |rest| :: rest[i] == variables[i + 1];
    }
  }

  /** What a job wants masked: the values of masked variables, its token and those of its dependencies. */
  lemma {:induction false} ValuesAre(job: Job, s: seq<byte>)
    ensures s in ValuesOf(job) <==>
              || s == job.token || s in job.dependencies
              || exists i :: 0 <= i < |job.variables| && job.variables[i].masked && job.variables[i].value == Some(s)
  {
    MaskedValuesAre(job.variables, s);
  }

  /** Where a collected secret comes from. */
  predicate FromJob(s: seq<byte>, secrets: seq<seq<byte>>, values: seq<seq<byte>>) {
    s in secrets || (s != [] && exists v :: v in values && (s == v || s == Encode(v, UnreservedBytes)))
  }

  lemma {:induction false} CollectedMembers(secrets: seq<seq<byte>>, values: seq<seq<byte>>, s: seq<byte>)
    ensures s in Collected(secrets, values) <==> FromJob(s, secrets, values)
    decreases |values|
  {
    if values != [] {
      var v := values[0];
      var more := Added(if Encoded(v) != v then Added(secrets, Encoded(v)) else secrets, v);
      CollectedMembers(more, values[1..], s);
      OneValueMore(secrets, v, more, values, s);
    }
  }

  lemma OneValueMore(secrets: seq<seq<byte>>, v: seq<byte>, more: seq<seq<byte>>, values: seq<seq<byte>>, s: seq<byte>)
    requires values != [] && v == values[0]
    requires more == Added(if Encoded(v) != v then Added(secrets, Encoded(v)) else secrets, v)
    ensures FromJob(s, more, values[1..]) <==> FromJob(s, secrets, values)
  {
    assert forall x | x in values :: x == v || x in values[1..];
    assert v in values && forall x | x in values[1..] :: x in values;
    assert s in more <==> s in secrets || (s != [] && (s == v || s == Encoded(v)));
  }

  /** The list of a job: exactly the secrets there were, the values and their encoded forms, but
      for empty ones, and longest first. */
  lemma JobSecretsAre(secrets: seq<seq<byte>>, values: seq<seq<byte>>)
    ensures LongestFirst(Sorted(Collected(secrets, values)))
    ensures forall s :: s in Sorted(Collected(secrets, values)) <==> FromJob(s, secrets, values)
  {
    var all := Collected(secrets, values);
    SortedIsStableSort(all);
    forall s ensures s in Sorted(all) <==> FromJob(s, secrets, values) {
      MembersOf(Sorted(all), all, s);
      CollectedMembers(secrets, values, s);
    }
  }

  lemma EncodedStartsChar(value: seq<byte>)
    ensures StartsChar(Encoded(value))
  {
    EncodedBytes(value, UnreservedBytes);
  }

  lemma JobSecretsStartChars(secrets: Secrets, values: seq<seq<byte>>)
    requires forall v | v in values :: Valid(v)
    ensures forall s | s in Sorted(Collected(secrets, values)) :: StartsChar(s)
  {
    JobSecretsAre(secrets, values);
    forall s | s in Sorted(Collected(secrets, values)) ensures StartsChar(s) {
      if s !in secrets {
        var v :| v in values && (s == v || s == Encoded(v));
        ValidStartsChar(v);
        EncodedStartsChar(v);
      }
    }
  }

  /** For the list a job builds it is enough that secrets meet in the text by nesting only: where every
      push cuts cleanly, the stream masks what `scrub` masks on the whole. */
  lemma JobStreamEqualsScrub(m: Masker, secrets: seq<seq<byte>>, values: seq<seq<byte>>, chunks: seq<seq<byte>>)
    requires m.secrets == Sorted(Collected(secrets, values)) && Independent(m.secrets)
    requires forall c | c in chunks :: Valid(c)
    requires Nested(Concat(chunks), m.secrets) && Seamless(m, [], chunks)
    ensures StreamFrom(m, IDLE, chunks) == ScrubText(m, Concat(chunks))
  {
    JobSecretsAre(secrets, values);
    NestedStreamEqualsScrub(m, chunks);
  }
}
