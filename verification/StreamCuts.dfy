/** Where the stream may be cut: which matches the cut leaves whole, whatever follows, and how much
    the matches of secrets make it hold back. */
module StreamCuts {
  import opened Bytes
  import opened Utf8
  import opened Scrubber
  import opened Simultaneous
  import opened StreamScrubbing

  /** No regex patterns. */
  predicate Exact(m: Masker) {
    m.patterns == []
  }

  // ---- The ranges the loop looks at ----

  /** Two ranges are apart, or one lies within the other. */
  predicate Apart(r: Range, t: Range) {
    || r.end <= t.start || t.end <= r.start
    || (t.start <= r.start && r.end <= t.end) || (r.start <= t.start && t.end <= r.end)
  }

  ghost predicate Tidy(rs: seq<Range>, len: nat) {
    && (forall r | r in rs :: r.start <= r.end <= len)
    && (forall r, t | r in rs && t in rs :: Apart(r, t))
  }

  /** `rs` are one behind the other. */
  ghost predicate Disjoint(rs: seq<Range>) {
    forall r, t | r in rs && t in rs :: r == t || r.end <= t.start || t.end <= r.start
  }

  lemma {:induction false} MatchOccurs(text: seq<byte>, s: seq<byte>, from: nat, r: Range)
    requires s != [] && r in MatchIndices(text, s, from)
    ensures OccursAt(text, s, r.start - from)
    decreases |text|
  {
    if IsPrefix(s, text) && r == Range(from, from + |s|) {
      assert text[0..|s|] == text[..|s|];
    } else {
      var n := if IsPrefix(s, text) then |s| else 1;
      MatchOccurs(text[n..], s, from + n, r);
      OccursInTail(text, s, n, r.start - (from + n));
    }
  }

  lemma DisjointCons(r: Range, rs: seq<Range>)
    requires Disjoint(rs) && forall t | t in rs :: r.end <= t.start
    ensures Disjoint([r] + rs)
  {
  }

  lemma {:induction false} MatchesAreDisjoint(text: seq<byte>, s: seq<byte>, from: nat)
    requires s != []
    ensures Disjoint(MatchIndices(text, s, from))
    decreases |text|
  {
    if text != [] {
      if IsPrefix(s, text) {
        MatchesAreDisjoint(text[|s|..], s, from + |s|);
        DisjointCons(Range(from, from + |s|), MatchIndices(text[|s|..], s, from + |s|));
      } else {
        MatchesAreDisjoint(text[1..], s, from + 1);
      }
    }
  }

  lemma {:induction false} RangeOwner(text: seq<byte>, secrets: seq<seq<byte>>, r: Range) returns (s: seq<byte>)
    requires r in SecretRanges(text, secrets)
    ensures s in secrets && Masked(s) && r in MatchIndices(text, s, 0) && OccursAt(text, s, r.start)
    ensures r.end == r.start + |s|
    decreases |secrets|
  {
    s := secrets[0];
    if Masked(s) && r in MatchIndices(text, s, 0) {
      MatchOccurs(text, s, 0, r);
    } else {
      s := RangeOwner(text, secrets[1..], r);
    }
  }

  lemma {:induction false} OwnedRange(text: seq<byte>, secrets: seq<seq<byte>>, s: seq<byte>, r: Range)
    requires s in secrets && Masked(s) && r in MatchIndices(text, s, 0)
    ensures r in SecretRanges(text, secrets)
    decreases |secrets|
  {
    if s != secrets[0] {
      OwnedRange(text, secrets[1..], s, r);
    }
  }

  lemma OwnersFit(text: seq<byte>, secrets: seq<seq<byte>>, r: Range, u: seq<byte>, t: Range, v: seq<byte>)
    requires WellNested(text, secrets)
    requires u in secrets && Masked(u) && r in MatchIndices(text, u, 0)
    requires OccursAt(text, u, r.start) && r.end == r.start + |u|
    requires v in secrets && Masked(v) && t in MatchIndices(text, v, 0)
    requires OccursAt(text, v, t.start) && t.end == t.start + |v|
    ensures Apart(r, t)
  {
    if u == v {
      MatchesAreDisjoint(text, u, 0);
    } else {
      assert Fit(secrets, u, r.start, v, t.start);
    }
  }

  lemma RangesAreTidy(text: seq<byte>, secrets: seq<seq<byte>>)
    requires WellNested(text, secrets)
    ensures Tidy(SecretRanges(text, secrets), |text|)
  {
    var rs := SecretRanges(text, secrets);
    forall r | r in rs ensures r.start < r.end {
      var _ := RangeOwner(text, secrets, r);
    }
    forall r, t | r in rs && t in rs ensures Apart(r, t) {
      var u := RangeOwner(text, secrets, r);
      var v := RangeOwner(text, secrets, t);
      OwnersFit(text, secrets, r, u, t, v);
    }
  }

  /** A cut at `b` neither goes through `r` nor lies behind its start while it touches the end. */
  predicate Clear(b: nat, r: Range, len: nat) {
    !(r.start < b && (r.end > b || r.end == len))
  }

  /** Lowering the cut to a match keeps it clear of the matches that were clear before. */
  lemma StaysClear(b: nat, r: Range, t: Range, len: nat)
    requires Clear(b, t, len) && Apart(r, t) && r.end <= len && t.end <= len
    ensures Clear(LowerOnce(r, b, len), t, len)
  {
  }

  /** The loop leaves the boundary clear of every match. */
  lemma {:induction false} LowerAvoids(seen: seq<Range>, rs: seq<Range>, b: nat, len: nat)
    requires Tidy(seen + rs, len) && forall r | r in seen :: Clear(b, r, len)
    ensures forall r | r in seen + rs :: Clear(Lower(rs, b, len), r, len)
    decreases |rs|
  {
    if rs == [] {
      assert seen + rs == seen;
    } else {
      assert seen + [rs[0]] + rs[1..] == seen + rs;
      assert rs[0] in seen + rs;
      var c := LowerOnce(rs[0], b, len);
      forall r | r in seen + [rs[0]] ensures Clear(c, r, len) {
        assert r in seen + rs && Apart(rs[0], r);
        if r in seen {
          StaysClear(b, rs[0], r, len);
        }
      }
      LowerAvoids(seen + [rs[0]], rs[1..], c, len);
    }
  }

  /** `r` is a reason for a cut first tried at `b` to be at its start. */
  predicate Reason(r: Range, b: nat, len: nat) {
    r.start < b && (r.end > b || r.end == len)
  }

  /** Once at the start of a match, the boundary is lowered only to a match around that one. */
  lemma {:induction false} LowerStays(r: Range, rs: seq<Range>, b: nat, len: nat)
    requires Tidy([r] + rs, len) && Reason(r, b, len)
    ensures exists t :: t in [r] + rs && Lower(rs, r.start, len) == t.start && Reason(t, b, len)
    decreases |rs|
  {
    if rs == [] {
      assert r in [r] + rs;
    } else {
      var t := rs[0];
      assert r in [r] + rs && t in [r] + rs && Apart(r, t);
      if LowerOnce(t, r.start, len) == t.start != r.start {
        assert Tidy([t] + rs[1..], len) by {
          assert forall x | x in [t] + rs[1..] :: x in [r] + rs;
        }
        LowerStays(t, rs[1..], b, len);
        var x :| x in [t] + rs[1..] && Lower(rs[1..], t.start, len) == x.start && Reason(x, b, len);
        assert x in [r] + rs;
      } else {
        assert Tidy([r] + rs[1..], len) by {
          assert forall x | x in [r] + rs[1..] :: x in [r] + rs;
        }
        LowerStays(r, rs[1..], b, len);
        var x :| x in [r] + rs[1..] && Lower(rs[1..], r.start, len) == x.start && Reason(x, b, len);
        assert x in [r] + rs;
      }
    }
  }

  /** So it is lowered only to a match that reaches over it or touches the end. */
  lemma {:induction false} LowerCases(rs: seq<Range>, b: nat, len: nat)
    requires Tidy(rs, len)
    ensures Lower(rs, b, len) == b || exists r :: r in rs && Lower(rs, b, len) == r.start && Reason(r, b, len)
    decreases |rs|
  {
    if rs != [] {
      var r := rs[0];
      if LowerOnce(r, b, len) == b {
        LowerCases(rs[1..], b, len);
      } else {
        assert [r] + rs[1..] == rs;
        LowerStays(r, rs[1..], b, len);
      }
    }
  }

  // ---- No match is ever cut ----

  /** One step of `match_indices`. */
  function StepAlone(text: seq<byte>, s: seq<byte>): (m: nat)
    requires text != [] && s != []
    ensures 1 <= m <= |text|
  {
    if IsPrefix(s, text) then |s| else 1
  }

  /** The search for `s` alone comes to rest at `q`. */
  predicate StopsAlone(text: seq<byte>, s: seq<byte>, q: int)
    requires s != []
    decreases |text|
  {
    if q <= 0 || text == [] then q == 0 else StopsAlone(text[StepAlone(text, s)..], s, q - StepAlone(text, s))
  }

  lemma {:induction false} StopAloneInside(text: seq<byte>, s: seq<byte>, q: int)
    requires s != [] && StopsAlone(text, s, q)
    ensures 0 <= q <= |text|
    decreases |text|
  {
    if 0 < q && text != [] {
      StopAloneInside(text[StepAlone(text, s)..], s, q - StepAlone(text, s));
    }
  }

  /** No occurrence of `s` that begins among the first `n` bytes leaves them. */
  predicate Closed(text: seq<byte>, s: seq<byte>, n: nat) {
    forall k: nat | k < n && OccursAt(text, s, k) :: k + |s| <= n
  }

  lemma ClosedStep(text: seq<byte>, s: seq<byte>, n: nat)
    requires s != [] && Closed(text, s, n) && 0 < n <= |text|
    ensures StepAlone(text, s) <= n
  {
    PrefixOccurs(text, s, 0);
    assert text[0..] == text;
  }

  lemma ClosedBehind(text: seq<byte>, s: seq<byte>, n: nat, m: nat)
    requires Closed(text, s, n) && m <= n <= |text|
    ensures Closed(text[m..], s, n - m) && text[m..][n - m..] == text[n..]
  {
    forall i: nat | i < n - m && OccursAt(text[m..], s, i) ensures i + |s| <= n - m {
      OccursInTail(text, s, m, i);
      assert OccursAt(text, s, m + i);
    }
  }

  /** The search for `s`, past a stretch that no occurrence of `s` leaves. */
  lemma {:induction false} StopBehind(text: seq<byte>, s: seq<byte>, n: nat, q: nat)
    requires s != [] && n <= |text| && Closed(text, s, n)
    requires StopsAlone(text[n..], s, q)
    ensures StopsAlone(text, s, n + q)
    decreases n
  {
    if n == 0 {
      assert text[0..] == text;
    } else {
      ClosedStep(text, s, n);
      var m := StepAlone(text, s);
      ClosedBehind(text, s, n, m);
      StopBehind(text[m..], s, n - m, q);
    }
  }

  /** The scan takes the first listed of the secrets in front. */
  lemma {:induction false} FrontIsFirst(text: seq<byte>, secrets: seq<seq<byte>>, s: seq<byte>)
    requires s in secrets && Masked(s) && IsPrefix(s, text)
    ensures FrontMatch(text, secrets) > 0
    ensures var t := text[..FrontMatch(text, secrets)]; s != t ==> !Before(secrets, s, t)
  {
    var t := secrets[0];
    if !(Masked(t) && IsPrefix(t, text)) {
      FrontIsFirst(text, secrets[1..], s);
    }
  }

  /** No occurrence of `s` that starts within a step of the scan of all secrets leaves it, but
      for those that overlap a match of `s` itself. */
  lemma StepForOne(text: seq<byte>, secrets: seq<seq<byte>>, s: seq<byte>, k: nat)
    requires text != [] && s in secrets && Masked(s) && WellNested(text, secrets)
    requires k < StepLength(text, secrets) && OccursAt(text, s, k)
    requires text[..StepLength(text, secrets)] != s
    ensures k + |s| <= StepLength(text, secrets)
  {
    PrefixOccurs(text, s, 0);
    assert text[0..] == text;
    if k == 0 {
      FrontIsFirst(text, secrets, s);
    }
    if FrontMatch(text, secrets) > 0 {
      var t := text[..StepLength(text, secrets)];
      assert text[0..|t|] == t && OccursAt(text, t, 0);
      assert Fit(secrets, t, 0, s, k);
    }
  }

  /** Where the scan of all secrets stops, the search for each one alone stops. */
  lemma {:induction false} StopForOne(text: seq<byte>, secrets: seq<seq<byte>>, s: seq<byte>, q: nat)
    requires WellNested(text, secrets) && StopsAt(text, secrets, q) && s in secrets && Masked(s)
    ensures StopsAlone(text, s, q)
    decreases |text|
  {
    if q > 0 {
      var m := StepLength(text, secrets);
      StopInside(text[m..], secrets, q - m);
      WellNestedTail(text, secrets, m);
      StopForOne(text[m..], secrets, s, q - m);
      if text[..m] != s {
        forall k: nat | k < m && OccursAt(text, s, k) ensures k + |s| <= m {
          StepForOne(text, secrets, s, k);
        }
        StopBehind(text, s, m, q - m);
      }
    }
  }

  /** An occurrence where the search stops is one of the matches. */
  lemma {:induction false} StopIsMatch(text: seq<byte>, s: seq<byte>, q: nat, from: nat, r: Range)
    requires s != [] && StopsAlone(text, s, q) && OccursAt(text, s, q)
    requires r.start == from + q && r.end == r.start + |s|
    ensures r in MatchIndices(text, s, from)
    decreases |text|
  {
    if q == 0 {
      FirstIsMatch(text, s, from);
    } else {
      var rest, m, k := BehindStep(text, s, q);
      StopIsMatch(rest, s, k, from + m, r);
      MatchBehind(text, s, rest, from, m, r);
    }
  }

  lemma FirstIsMatch(text: seq<byte>, s: seq<byte>, from: nat)
    requires s != [] && OccursAt(text, s, 0)
    ensures Range(from, from + |s|) in MatchIndices(text, s, from)
  {
    assert text[0..|s|] == text[..|s|];
    assert MatchIndices(text, s, from)[0] == Range(from, from + |s|);
  }

  lemma BehindStep(text: seq<byte>, s: seq<byte>, q: nat) returns (rest: seq<byte>, m: nat, k: nat)
    requires s != [] && StopsAlone(text, s, q) && OccursAt(text, s, q) && q > 0
    ensures text != [] && m == StepAlone(text, s) && rest == text[m..] && q == m + k
    ensures StopsAlone(rest, s, k) && OccursAt(rest, s, k)
  {
    m := StepAlone(text, s);
    rest := text[m..];
    StopAloneInside(rest, s, q - m);
    k := q - m;
    OccursInTail(text, s, m, q - m);
  }

  lemma MatchBehind(text: seq<byte>, s: seq<byte>, rest: seq<byte>, from: nat, m: nat, r: Range)
    requires text != [] && s != [] && m == StepAlone(text, s) && rest == text[m..]
    requires r in MatchIndices(rest, s, from + m)
    ensures r in MatchIndices(text, s, from)
  {
    if IsPrefix(s, text) {
      InTail(Range(from, from + |s|), MatchIndices(rest, s, from + |s|), r);
    }
  }

  lemma InTail<T>(x: T, s: seq<T>, y: T)
    requires y in s
    ensures y in [x] + s
  {
  }

  /** The search for `s` does not look beyond its next match. */
  lemma {:induction false} StopInPrefix(text: seq<byte>, len: nat, s: seq<byte>, q: nat)
    requires s != [] && StopsAlone(text, s, q) && q + |s| <= len <= |text|
    ensures StopsAlone(text[..len], s, q)
    decreases |text|
  {
    if q > 0 {
      var m := StepAlone(text, s);
      StopAloneInside(text[m..], s, q - m);
      StopInPrefix(text[m..], len - m, s, q - m);
      assert text[m..][..len - m] == text[..len][m..];
      PrefixWithin(text, len, s);
    }
  }

  lemma PrefixWithin(text: seq<byte>, len: nat, s: seq<byte>)
    requires |s| <= len <= |text|
    ensures IsPrefix(s, text[..len]) <==> IsPrefix(s, text)
  {
    assert text[..len][..|s|] == text[..|s|];
  }

  /** A match that reaches over the end of the pending text is held back. */
  lemma PartialIsHeldBack(m: Masker, pending: seq<byte>, rest: seq<byte>, s: seq<byte>, q: nat)
    requires s in m.secrets && StartsChar(rest)
    requires OccursAt(pending + rest, s, q) && q < |pending| < q + |s|
    ensures |pending| - HeldBack(pending, m.secrets) <= q
  {
    var text, k := pending + rest, |pending| - q;
    assert s[..k] == text[q..q + k] == pending[q..];
    assert s[k] == text[q..q + |s|][k] == text[q + k] == rest[0];
    assert EndsInPrefix(pending, s, k);
    assert PartialSecret(pending, s) >= k;
    LongestPartialBounds(pending, m.secrets);
  }

  lemma MatchIsInRanges(secrets: seq<seq<byte>>, pending: seq<byte>, rest: seq<byte>, s: seq<byte>, q: nat)
    requires WellNested(pending + rest, secrets) && StopsAt(pending + rest, secrets, q)
    requires s in secrets && Masked(s) && OccursAt(pending + rest, s, q) && q + |s| <= |pending|
    ensures Range(q, q + |s|) in SecretRanges(pending, secrets)
  {
    var text := pending + rest;
    StopForOne(text, secrets, s, q);
    StopInPrefix(text, |pending|, s, q);
    assert text[..|pending|] == pending && pending[q..q + |s|] == text[q..q + |s|];
    StopIsMatch(pending, s, q, 0, Range(q, q + |s|));
    OwnedRange(pending, secrets, s, Range(q, q + |s|));
  }

  lemma CutOutsideRanges(rs: seq<Range>, b: nat, len: nat)
    requires Tidy(rs, len)
    ensures forall r | r in rs :: Clear(Lower(rs, b, len), r, len)
  {
    assert [] + rs == rs;
    LowerAvoids([], rs, b, len);
  }

  lemma AppendNothing<T>(s: seq<T>)
    ensures s + [] == s
  {
  }

  lemma TakeInFront<T>(a: seq<T>, b: seq<T>, n: nat)
    requires n <= |a|
    ensures (a + b)[..n] == a[..n] && (a + b)[n..] == a[n..] + b
  {
  }

  /** `CutPoint` when there are only exact secrets. */
  lemma ExactCutPoint(m: Masker, pending: seq<byte>) returns (b: nat)
    requires Exact(m)
    ensures b == |pending| - HeldBack(pending, m.secrets)
    ensures CutPoint(m, pending) == Lower(SecretRanges(pending, m.secrets), FloorBoundary(pending, b), |pending|)
  {
    b := |pending| - HeldBack(pending, m.secrets);
    AppendNothing(SecretRanges(pending, m.secrets));
  }

  /** No match of a pattern half overlaps a match of a secret. */
  ghost predicate SecretsApart(m: Masker, text: seq<byte>) {
    forall r, t | r in PatternRanges(text, m.patterns) && t in SecretRanges(text, m.secrets) :: Apart(r, t)
  }

  lemma {:induction false} LowerInTwo(a: seq<Range>, b: seq<Range>, from: nat, len: nat)
    ensures Lower(a + b, from, len) == Lower(b, Lower(a, from, len), len)
    decreases |a|
  {
    if a == [] {
      assert a + b == b;
    } else {
      assert (a + b)[0] == a[0] && (a + b)[1..] == a[1..] + b;
      LowerInTwo(a[1..], b, LowerOnce(a[0], from, len), len);
    }
  }

  /** Matches that do not half overlap `t` do not move a cut into it. */
  lemma {:induction false} LowerKeepsClear(rs: seq<Range>, b: nat, len: nat, t: Range)
    requires Clear(b, t, len) && t.end <= len && forall r | r in rs :: Apart(r, t) && r.end <= len
    ensures Clear(Lower(rs, b, len), t, len)
    decreases |rs|
  {
    if rs != [] {
      assert rs[0] in rs;
      StaysClear(b, rs[0], t, len);
      LowerKeepsClear(rs[1..], LowerOnce(rs[0], b, len), len, t);
    }
  }

  /** The cut of a push leaves the matches of secrets whole. */
  lemma CutOutsideSecrets(text: seq<byte>, secrets: seq<seq<byte>>, others: seq<Range>, held: nat, t: Range)
    requires held <= |text| && WellNested(text, secrets) && t in SecretRanges(text, secrets)
    requires forall r | r in others :: Apart(r, t) && r.end <= |text|
    ensures Clear(CutFor(text, held, SecretRanges(text, secrets) + others), t, |text|)
  {
    var rs, b := SecretRanges(text, secrets), FloorBoundary(text, |text| - held);
    RangesAreTidy(text, secrets);
    CutOutsideRanges(rs, b, |text|);
    LowerInTwo(rs, others, b, |text|);
    LowerKeepsClear(others, Lower(rs, b, |text|), |text|, t);
  }

  /** `r` is cut at `b`. */
  predicate Splits(r: Range, b: nat) {
    r.start < b < r.end
  }

  /** Whatever follows, the scan of the whole text stops at a cut that leaves the matches of secrets
      in the pending text whole and the held-back tail behind it. */
  lemma WholeCutIsStop(m: Masker, pending: seq<byte>, rest: seq<byte>, cut: nat)
    requires StartsChar(rest) && WellNested(pending + rest, m.secrets)
    requires cut <= |pending| - HeldBack(pending, m.secrets)
    requires forall r | r in SecretRanges(pending, m.secrets) :: !Splits(r, cut)
    ensures StopsAt(pending + rest, m.secrets, cut)
  {
    if !StopsAt(pending + rest, m.secrets, cut) {
      var q, s := JumpOver(pending + rest, m.secrets, cut);
      if q + |s| > |pending| {
        PartialIsHeldBack(m, pending, rest, s, q);
      } else {
        MatchIsInRanges(m.secrets, pending, rest, s, q);
        var r := Range(q, q + |s|);
        assert Splits(r, cut);
      }
    }
  }

  /** So it does where a push cuts within the limit, for any patterns whose matches in the pending
      text do not half overlap those of secrets. */
  lemma {:induction false} CutPointIsStop(m: Masker, pending: seq<byte>, rest: seq<byte>)
    requires StartsChar(rest) && WellNested(pending + rest, m.secrets) && SecretsApart(m, pending)
    ensures StopsAt(pending + rest, m.secrets, CutPoint(m, pending))
  {
    WellNestedSlice(pending + rest, m.secrets, 0, |pending|);
    assert (pending + rest)[0..|pending|] == pending;
    CutPointIsWhole(m, pending);
    WholeCutIsStop(m, pending, rest, CutPoint(m, pending));
  }

  lemma CutPointIsWhole(m: Masker, pending: seq<byte>)
    requires WellNested(pending, m.secrets) && SecretsApart(m, pending)
    ensures CutPoint(m, pending) <= |pending| - HeldBack(pending, m.secrets)
    ensures forall r | r in SecretRanges(pending, m.secrets) :: !Splits(r, CutPoint(m, pending))
  {
    forall t | t in SecretRanges(pending, m.secrets) ensures !Splits(t, CutPoint(m, pending)) {
      CutOutsideSecrets(pending, m.secrets, PatternRanges(pending, m.patterns), HeldBack(pending, m.secrets), t);
    }
  }

  // ---- How much is held back ----

  /** Without patterns the cut point is on a character already. */
  lemma HeldTailStartsChar(text: seq<byte>, secrets: Secrets)
    ensures IsCharBoundary(text, |text| - HeldBack(text, secrets))
  {
    var held, partial := HeldBack(text, secrets), LongestPartial(text, secrets);
    LongestPartialBounds(text, secrets);
    if held > 0 {
      if held == partial {
        var s :| s in secrets && PartialSecret(text, s) == partial;
        assert EndsInPrefix(text, s, partial);
        assert text[|text| - partial..][0] == s[..partial][0];
      } else {
        assert IsTokenByte(text[|text| - held]);
      }
    }
  }

  lemma PartialIsShorter(text: seq<byte>, secrets: seq<seq<byte>>)
    ensures LongestPartial(text, secrets) <= Max(0, LongestSecret(secrets) - 1)
  {
    LongestPartialBounds(text, secrets);
    LongestSecretBounds(secrets);
    if LongestPartial(text, secrets) > 0 {
      var s :| s in secrets && PartialSecret(text, s) == LongestPartial(text, secrets);
    }
  }

  /** The pending text is cut where the held-back tail starts, or at a match that reaches over that
      point or touches the end. */
  lemma CutForCases(pending: seq<byte>, held: nat, matches: seq<Range>) returns (r: Range)
    requires held <= |pending| && IsCharBoundary(pending, |pending| - held) && Tidy(matches, |pending|)
    ensures var b, cut := |pending| - held, CutFor(pending, held, matches);
            cut == b || (r in matches && cut == r.start && Reason(r, b, |pending|))
  {
    var b := |pending| - held;
    LowerCases(matches, b, |pending|);
    r := Range(0, 0);
    if Lower(matches, b, |pending|) != b {
      r :| r in matches && Lower(matches, b, |pending|) == r.start && Reason(r, b, |pending|);
    }
  }

  /** The limit never interferes. */
  ghost predicate Fits(m: Masker, pending: seq<byte>) {
    |pending| - CutPoint(m, pending) <= Limit(m.secrets)
  }

  /** Where the last character of a secret starts. */
  function LastCharStart(s: seq<byte>): nat
    requires s != []
  {
    FloorBoundary(s, |s| - 1)
  }

  /** Shifted by `j`, `s` maps onto itself. */
  predicate SelfOverlaps(s: seq<byte>, j: nat) {
    0 < j < |s| && s[j..] == s[..|s| - j]
  }

  /** Every shift that maps `s` onto itself leaves room for one more start of `s`. */
  ghost predicate SelfOverlapFits(s: seq<byte>)
    requires s != []
  {
    forall j: nat | SelfOverlaps(s, j) :: j + LastCharStart(s) <= Limit([s])
  }

  /** The end of `s` is the beginning of `t`, for `o` bytes. */
  predicate Overlap(s: seq<byte>, t: seq<byte>, o: nat) {
    0 < o < |s| && o < |t| && s[|s| - o..] == t[..o]
  }

  /** A secret, and behind it all but the last character of one that begins inside of it, stay
      within the limit. */
  ghost predicate HoldBackFits(secrets: seq<seq<byte>>) {
    forall s, t, o: nat | s in secrets && t in secrets && Masked(s) && Overlap(s, t, o) ::
      |s| - o + LastCharStart(t) <= Limit(secrets)
  }

  /** Secrets of up to 8193 bytes always fit. */
  lemma {:induction false} ShortSecretsFit(secrets: seq<seq<byte>>)
    requires LongestSecret(secrets) <= 8193
    ensures HoldBackFits(secrets)
  {
    LongestSecretBounds(secrets);
  }

  /** A single secret fits when it fits with itself. */
  lemma OneSecretFits(s: seq<byte>)
    requires Masked(s)
    ensures HoldBackFits([s]) <==> SelfOverlapFits(s)
  {
    forall j: nat | SelfOverlaps(s, j) ensures Overlap(s, s, |s| - j) {
    }
    if HoldBackFits([s]) {
      forall j: nat | SelfOverlaps(s, j) ensures j + LastCharStart(s) <= Limit([s]) {
        assert s in [s] && Overlap(s, s, |s| - j);
      }
    }
    if SelfOverlapFits(s) {
      forall o: nat | Overlap(s, s, o) ensures |s| - o + LastCharStart(s) <= Limit([s]) {
        assert SelfOverlaps(s, |s| - o);
      }
    }
  }

  lemma LimitOfOne(s: seq<byte>)
    ensures Limit([s]) == Max(16_384, |s| + 256)
  {
    assert LongestSecret([s]) == |s|;
  }

  lemma HeldBackFitsLimit(text: seq<byte>, secrets: seq<seq<byte>>)
    ensures HeldBack(text, secrets) <= Max(LongestSecret(secrets), MAX_HOLDBACK) <= Limit(secrets)
  {
    PartialIsShorter(text, secrets);
  }

  /** A match and a start of a secret that overlap, at the end of a text. */
  lemma MatchAndStart(text: seq<byte>, s: seq<byte>, start: nat, t: seq<byte>, k: nat)
    requires OccursAt(text, s, start) && EndsInPrefix(text, t, k) && start < |text| - k < start + |s|
    ensures Overlap(s, t, start + |s| - (|text| - k)) && k <= LastCharStart(t)
  {
    var b, end := |text| - k, start + |s|;
    assert s[b - start..] == text[start..end][b - start..] == text[b..end];
    assert t[..k] == text[b..];
    assert t[..end - b] == t[..k][..end - b] == text[b..][..end - b] == text[b..end];
  }

  lemma HeldIsPartial(text: seq<byte>, secrets: seq<seq<byte>>) returns (t: seq<byte>)
    requires HeldBack(text, secrets) > MAX_HOLDBACK
    ensures t in secrets && EndsInPrefix(text, t, HeldBack(text, secrets))
  {
    LongestPartialBounds(text, secrets);
    t :| t in secrets && PartialSecret(text, t) == LongestPartial(text, secrets);
  }

  /** In any text, whatever the patterns are: a match of a secret at which the cut is tried keeps no
      more than the limit. */
  lemma {:induction false} SecretMatchFits(secrets: seq<seq<byte>>, pending: seq<byte>, r: Range)
    requires HoldBackFits(secrets) && r in SecretRanges(pending, secrets)
    requires Reason(r, |pending| - HeldBack(pending, secrets), |pending|)
    ensures |pending| - r.start <= Limit(secrets)
  {
    var held := HeldBack(pending, secrets);
    var s := RangeOwner(pending, secrets, r);
    LongestSecretBounds(secrets);
    if held > MAX_HOLDBACK && r.end > |pending| - held {
      var t := HeldIsPartial(pending, secrets);
      MatchAndStart(pending, s, r.start, t, held);
    }
  }

  lemma CutWithinLimit(secrets: seq<seq<byte>>, pending: seq<byte>, cut: nat, r: Range)
    requires HoldBackFits(secrets)
    requires var b := |pending| - HeldBack(pending, secrets);
             cut == b || (r in SecretRanges(pending, secrets) && cut == r.start && Reason(r, b, |pending|))
    ensures |pending| - cut <= Limit(secrets)
  {
    HeldBackFitsLimit(pending, secrets);
    if cut != |pending| - HeldBack(pending, secrets) {
      SecretMatchFits(secrets, pending, r);
    }
  }

  /** Secrets that fit never reach the limit where no pattern matches. */
  lemma HoldBackAlwaysFits(m: Masker, pending: seq<byte>)
    requires PatternRanges(pending, m.patterns) == [] && WellNested(pending, m.secrets) && HoldBackFits(m.secrets)
    ensures Fits(m, pending)
  {
    var rs := SecretRanges(pending, m.secrets);
    AppendNothing(rs);
    RangesAreTidy(pending, m.secrets);
    HeldTailStartsChar(pending, m.secrets);
    var r := CutForCases(pending, HeldBack(pending, m.secrets), rs);
    CutWithinLimit(m.secrets, pending, CutFor(pending, HeldBack(pending, m.secrets), rs), r);
  }
}
