/** Masking all secrets in one scan, and why the passes one after the other are the same thing
    when secrets meet in a text only by one containing the other, the containing one first. */
module Simultaneous {
  import opened Bytes
  import opened Scrubber

  /** Length of the first listed masked secret that `text` starts with; 0 if there is none. */
  function FrontMatch(text: seq<byte>, secrets: seq<seq<byte>>): (n: nat)
    ensures n <= |text|
    ensures n > 0 ==> n > 4 && text[..n] in secrets
    ensures n == 0 ==> forall s | s in secrets && Masked(s) :: !IsPrefix(s, text)
  {
    if secrets == [] then 0
    else if Masked(secrets[0]) && IsPrefix(secrets[0], text) then |secrets[0]|
    else FrontMatch(text, secrets[1..])
  }

  /** One scan from the left that masks whichever secret it meets. */
  function MaskAll(text: seq<byte>, secrets: seq<seq<byte>>): (ts: seq<Token>)
    decreases |text|
  {
    if text == [] then [] else [StepToken(text, secrets)] + MaskAll(text[StepLength(text, secrets)..], secrets)
  }

  /** How far one step of the scan goes. */
  function StepLength(text: seq<byte>, secrets: seq<seq<byte>>): (m: nat)
    requires text != []
    ensures 1 <= m <= |text|
  {
    if FrontMatch(text, secrets) > 0 then FrontMatch(text, secrets) else 1
  }

  function StepToken(text: seq<byte>, secrets: seq<seq<byte>>): Token
    requires text != []
  {
    if FrontMatch(text, secrets) > 0 then Mask else Plain(text[0])
  }

  /** `s` is listed, and `t` not before it. */
  predicate Before(secrets: seq<seq<byte>>, s: seq<byte>, t: seq<byte>) {
    secrets != [] && (secrets[0] == s || (secrets[0] != t && Before(secrets[1..], s, t)))
  }

  /** The stretch of `n` bytes at `i` lies within the one of `m` bytes at `j`. */
  predicate Within(i: int, n: nat, j: int, m: nat) {
    j <= i && i + n <= j + m
  }

  /** Two occurrences do not overlap, or one lies within the other and the outer is listed first. */
  predicate Fit(secrets: seq<seq<byte>>, s: seq<byte>, i: int, t: seq<byte>, j: int) {
    || i + |s| <= j || j + |t| <= i
    || (Within(i, |s|, j, |t|) && Before(secrets, t, s))
    || (Within(j, |t|, i, |s|) && Before(secrets, s, t))
  }

  /** Occurrences of different masked secrets fit. */
  ghost predicate WellNested(text: seq<byte>, secrets: seq<seq<byte>>) {
    forall s, t, i, j |
      && s in secrets && t in secrets && Masked(s) && Masked(t) && s != t
      && OccursAt(text, s, i) && OccursAt(text, t, j) ::
      Fit(secrets, s, i, t, j)
  }

  lemma WellNestedSlice(text: seq<byte>, secrets: seq<seq<byte>>, lo: nat, hi: nat)
    requires WellNested(text, secrets) && lo <= hi <= |text|
    ensures WellNested(text[lo..hi], secrets)
  {
    var w := text[lo..hi];
    forall s, t, i, j |
      && s in secrets && t in secrets && Masked(s) && Masked(t) && s != t
      && OccursAt(w, s, i) && OccursAt(w, t, j)
      ensures Fit(secrets, s, i, t, j)
    {
      OccursInWindow(text, s, lo, hi, i);
      OccursInWindow(text, t, lo, hi, j);
      assert Fit(secrets, s, lo + i, t, lo + j);
    }
  }

  lemma WellNestedTail(text: seq<byte>, secrets: seq<seq<byte>>, lo: nat)
    requires WellNested(text, secrets) && lo <= |text|
    ensures WellNested(text[lo..], secrets)
  {
    WellNestedSlice(text, secrets, lo, |text|);
    assert text[lo..|text|] == text[lo..];
  }

  lemma {:induction false} BeforeInPrefix(a: seq<seq<byte>>, b: seq<seq<byte>>, s: seq<byte>, t: seq<byte>)
    requires s in a
    ensures Before(a + b, s, t) <==> Before(a, s, t)
  {
    assert (a + b)[0] == a[0] && (a + b)[1..] == a[1..] + b;
    if a[0] != s && a[0] != t {
      BeforeInPrefix(a[1..], b, s, t);
    }
  }

  lemma WellNestedPrefix(text: seq<byte>, a: seq<seq<byte>>, b: seq<seq<byte>>)
    requires WellNested(text, a + b)
    ensures WellNested(text, a)
  {
    forall s, t, i, j |
      && s in a && t in a && Masked(s) && Masked(t) && s != t
      && OccursAt(text, s, i) && OccursAt(text, t, j)
      ensures Fit(a, s, i, t, j)
    {
      assert s in a + b && t in a + b && Fit(a + b, s, i, t, j);
      BeforeInPrefix(a, b, s, t);
      BeforeInPrefix(a, b, t, s);
    }
  }

  /** A secret that is not in a list is not before the secrets of the list. */
  lemma {:induction false} NotBefore(a: seq<seq<byte>>, s: seq<byte>, t: seq<byte>)
    requires s !in a && t in a
    ensures !Before(a + [s], s, t)
  {
    assert (a + [s])[0] == a[0] && (a + [s])[1..] == a[1..] + [s];
    if a[0] != t {
      NotBefore(a[1..], s, t);
    }
  }

  /** Longest first, as the runner sorts them. */
  predicate LongestFirst(secrets: seq<seq<byte>>) {
    forall i, j | 0 <= i < j < |secrets| :: |secrets[i]| >= |secrets[j]|
  }

  lemma {:induction false} LongerIsBefore(secrets: seq<seq<byte>>, s: seq<byte>, t: seq<byte>)
    requires LongestFirst(secrets) && s in secrets && |s| > |t|
    ensures Before(secrets, s, t)
  {
    if secrets[0] != s {
      assert s in secrets[1..];
      assert |secrets[0]| >= |s|;
      LongerIsBefore(secrets[1..], s, t);
    }
  }

  /** Overlapping occurrences lie one within the other. */
  ghost predicate Nested(text: seq<byte>, secrets: seq<seq<byte>>) {
    forall s, t, i, j |
      && s in secrets && t in secrets && Masked(s) && Masked(t) && s != t
      && OccursAt(text, s, i) && OccursAt(text, t, j) ::
      i + |s| <= j || j + |t| <= i || Within(i, |s|, j, |t|) || Within(j, |t|, i, |s|)
  }

  /** With the longest secrets first, nesting is all that is asked. */
  lemma SortedIsWellNested(text: seq<byte>, secrets: seq<seq<byte>>)
    requires LongestFirst(secrets) && Nested(text, secrets)
    ensures WellNested(text, secrets)
  {
    forall s, t, i, j |
      && s in secrets && t in secrets && Masked(s) && Masked(t) && s != t
      && OccursAt(text, s, i) && OccursAt(text, t, j)
      ensures Fit(secrets, s, i, t, j)
    {
      if |s| > |t| {
        LongerIsBefore(secrets, s, t);
      } else if |t| > |s| {
        LongerIsBefore(secrets, t, s);
      }
      assert i == j && |s| == |t| ==> s == t;
    }
  }

  // ---- One pass more ----

  lemma {:induction false} FrontMatchAppend(text: seq<byte>, a: seq<seq<byte>>, s: seq<byte>)
    ensures FrontMatch(text, a + [s]) ==
            if FrontMatch(text, a) > 0 then FrontMatch(text, a)
            else if Masked(s) && IsPrefix(s, text) then |s| else 0
  {
    if a == [] {
      assert a + [s] == [s];
    } else {
      assert (a + [s])[1..] == a[1..] + [s] && (a + [s])[0] == a[0];
      FrontMatchAppend(text, a[1..], s);
    }
  }

  lemma {:induction false} MaskAllSkips(text: seq<byte>, secrets: seq<seq<byte>>, n: nat)
    requires n <= |text| && forall k | 0 <= k < n :: FrontMatch(text[k..], secrets) == 0
    ensures MaskAll(text, secrets) == Tokens(text[..n]) + MaskAll(text[n..], secrets)
    decreases n
  {
    if n == 0 {
      assert text[0..] == text;
    } else {
      assert text[0..] == text;
      forall k | 0 <= k < n - 1 ensures FrontMatch(text[1..][k..], secrets) == 0 {
        assert text[1..][k..] == text[k + 1..];
      }
      MaskAllSkips(text[1..], secrets, n - 1);
      assert text[1..][n - 1..] == text[n..];
      assert Tokens(text[..n]) == [Plain(text[0])] + Tokens(text[1..][..n - 1]);
      Reassociate([Plain(text[0])], Tokens(text[1..][..n - 1]), MaskAll(text[n..], secrets));
    }
  }

  /** Where the scan shows plain bytes, the text has them. */
  lemma {:induction false} MaskAllPrefix(text: seq<byte>, secrets: seq<seq<byte>>, s: seq<byte>)
    requires PlainPrefix(s, MaskAll(text, secrets))
    ensures IsPrefix(s, text)
    decreases |s|
  {
    if s != [] {
      var ts := MaskAll(text, secrets);
      assert ts[0] == Plain(s[0]);
      assert ts[1..] == MaskAll(text[1..], secrets);
      PlainStep(s, ts);
      MaskAllPrefix(text[1..], secrets, s[1..]);
      PrefixStep(s, text);
    }
  }

  /** Inside an occurrence of `s` no secret listed before it starts. */
  lemma NothingInside(text: seq<byte>, a: seq<seq<byte>>, s: seq<byte>)
    requires WellNested(text, a + [s]) && Masked(s) && IsPrefix(s, text) && FrontMatch(text, a) == 0
    ensures forall k | 0 <= k < |s| :: FrontMatch(text[k..], a) == 0
  {
    forall k: nat | k < |s|
      ensures FrontMatch(text[k..], a) == 0
    {
      var n := FrontMatch(text[k..], a);
      if n > 0 {
        NothingStarts(text, a, s, text[k..][..n], k);
      }
    }
  }

  lemma NothingStarts(text: seq<byte>, a: seq<seq<byte>>, s: seq<byte>, t: seq<byte>, k: nat)
    requires WellNested(text, a + [s]) && Masked(s) && IsPrefix(s, text) && FrontMatch(text, a) == 0
    requires t in a && Masked(t) && k < |s|
    ensures k <= |text| && !IsPrefix(t, text[k..])
  {
    PrefixOccurs(text, s, 0);
    PrefixOccurs(text, t, k);
    assert text[0..] == text;
    if IsPrefix(t, text[k..]) {
      NotBefore(a, s, t);
      TheyFit(text, a + [s], s, 0, t, k);
    }
  }

  lemma TheyFit(text: seq<byte>, secrets: seq<seq<byte>>, s: seq<byte>, i: int, t: seq<byte>, j: int)
    requires WellNested(text, secrets) && s in secrets && t in secrets && Masked(s) && Masked(t) && s != t
    requires OccursAt(text, s, i) && OccursAt(text, t, j)
    ensures Fit(secrets, s, i, t, j)
  {
  }

  lemma {:induction false} PassExtendsScan(text: seq<byte>, a: seq<seq<byte>>, s: seq<byte>)
    requires WellNested(text, a + [s]) && Masked(s)
    ensures ReplaceTokens(MaskAll(text, a), s) == MaskAll(text, a + [s])
    decreases |text|
  {
    if text != [] {
      FrontMatchAppend(text, a, s);
      var n, ts := FrontMatch(text, a), MaskAll(text, a);
      if n > 0 {
        WellNestedTail(text, a + [s], n);
        PassExtendsScan(text[n..], a, s);
        assert ts[1..] == MaskAll(text[n..], a);
      } else if IsPrefix(s, text) {
        NothingInside(text, a, s);
        MaskAllSkips(text, a, |s|);
        assert text[..|s|] == s;
        assert ts[|s|..] == MaskAll(text[|s|..], a);
        assert PlainPrefix(s, ts);
        WellNestedTail(text, a + [s], |s|);
        PassExtendsScan(text[|s|..], a, s);
      } else {
        if PlainPrefix(s, ts) {
          MaskAllPrefix(text, a, s);
        }
        WellNestedTail(text, a + [s], 1);
        PassExtendsScan(text[1..], a, s);
        assert ts[1..] == MaskAll(text[1..], a);
      }
    }
  }

  lemma {:induction false} SkippedSecret(text: seq<byte>, a: seq<seq<byte>>, s: seq<byte>)
    requires !Masked(s)
    ensures MaskAll(text, a + [s]) == MaskAll(text, a)
    decreases |text|
  {
    if text != [] {
      FrontMatchAppend(text, a, s);
      var n := FrontMatch(text, a);
      SkippedSecret(text[if n > 0 then n else 1..], a, s);
    }
  }

  lemma {:induction false} NothingToMask(text: seq<byte>)
    ensures MaskAll(text, []) == Tokens(text)
  {
    if text != [] {
      NothingToMask(text[1..]);
      assert Tokens(text) == [Plain(text[0])] + Tokens(text[1..]);
    }
  }

  lemma {:induction false} PassesAreOneScan(text: seq<byte>, a: seq<seq<byte>>, b: seq<seq<byte>>)
    requires WellNested(text, a + b)
    ensures ScrubTokens(MaskAll(text, a), b) == MaskAll(text, a + b)
    decreases |b|
  {
    if b == [] {
      assert a + b == a;
    } else {
      var s := b[0];
      assert a + [s] + b[1..] == a + b;
      WellNestedPrefix(text, a + [s], b[1..]);
      if Masked(s) {
        PassExtendsScan(text, a, s);
      } else {
        SkippedSecret(text, a, s);
      }
      PassesAreOneScan(text, a + [s], b[1..]);
    }
  }

  /** One secret alone needs no hypothesis. */
  lemma {:induction false} OnePass(text: seq<byte>, s: seq<byte>)
    requires Masked(s)
    ensures Replace(text, s) == Flatten(MaskAll(text, [s]))
    decreases |text|
  {
    if text != [] {
      assert FrontMatch(text, [s]) == if IsPrefix(s, text) then |s| else 0 by {
        FrontMatchAppend(text, [], s);
        assert [] + [s] == [s];
      }
      if IsPrefix(s, text) {
        OnePass(text[|s|..], s);
        FlattenConcat([Mask], MaskAll(text[|s|..], [s]));
      } else {
        OnePass(text[1..], s);
        FlattenConcat([Plain(text[0])], MaskAll(text[1..], [s]));
      }
    }
  }

  /** What a list of secrets needs for its passes to be one scan. */
  ghost predicate Independent(secrets: seq<seq<byte>>) {
    |secrets| == 1 || AllApart(secrets)
  }

  /** The passes of `scrub`, one after the other, mask what a single scan masks. */
  lemma {:induction false} ScrubIsOneScan(text: seq<byte>, secrets: seq<seq<byte>>)
    requires Independent(secrets) && WellNested(text, secrets)
    ensures Scrub(text, secrets) == Flatten(MaskAll(text, secrets))
  {
    if |secrets| == 1 {
      var s := secrets[0];
      assert secrets == [s] == [] + [s];
      ScrubOne(text, s);
      if Masked(s) {
        OnePass(text, s);
      } else {
        SkippedSecret(text, [], s);
        NothingToMask(text);
        FlattenTokens(text);
      }
    } else {
      NothingToMask(text);
      FlattenTokens(text);
      ScrubFlatten(Tokens(text), secrets);
      assert [] + secrets == secrets;
      PassesAreOneScan(text, [], secrets);
    }
  }

  // ---- Cutting a scan ----

  /** The scan of `text` comes to rest at offset `b`, not in the middle of a match. */
  predicate StopsAt(text: seq<byte>, secrets: seq<seq<byte>>, b: int)
    decreases |text|
  {
    if b <= 0 || text == [] then b == 0
    else StopsAt(text[StepLength(text, secrets)..], secrets, b - StepLength(text, secrets))
  }

  lemma {:induction false} StopInside(text: seq<byte>, secrets: seq<seq<byte>>, b: int)
    requires StopsAt(text, secrets, b)
    ensures 0 <= b <= |text|
    decreases |text|
  {
    if 0 < b && text != [] {
      var m := StepLength(text, secrets);
      StopInside(text[m..], secrets, b - m);
    }
  }

  lemma {:induction false} FrontMatchOfPrefix(text: seq<byte>, secrets: seq<seq<byte>>, b: nat)
    requires FrontMatch(text, secrets) <= b <= |text|
    ensures FrontMatch(text[..b], secrets) == FrontMatch(text, secrets)
    decreases |secrets|
  {
    if secrets != [] {
      var s := secrets[0];
      if |s| <= b {
        assert text[..b][..|s|] == text[..|s|];
      }
      if !(Masked(s) && IsPrefix(s, text)) {
        FrontMatchOfPrefix(text, secrets[1..], b);
      }
    }
  }

  /** At a stop the scan falls into two independent scans. */
  lemma {:induction false} CutAtStop(text: seq<byte>, secrets: seq<seq<byte>>, b: nat)
    requires StopsAt(text, secrets, b) && b <= |text|
    ensures MaskAll(text, secrets) == MaskAll(text[..b], secrets) + MaskAll(text[b..], secrets)
    decreases |text|
  {
    if b == 0 {
      assert text[0..] == text;
    } else {
      var m := StepLength(text, secrets);
      var rest, k := text[m..], b - m;
      StopInside(rest, secrets, k);
      CutAtStop(rest, secrets, k);
      CutBehindStep(text, secrets, rest, k);
      assert m + k == b && rest[k..] == text[b..];
    }
  }

  /** The first step does not depend on what follows the cut. */
  lemma StepOfPrefix(text: seq<byte>, secrets: seq<seq<byte>>, rest: seq<byte>, k: nat)
    requires text != [] && rest == text[StepLength(text, secrets)..] && k <= |rest|
    ensures MaskAll(text[..StepLength(text, secrets) + k], secrets)
         == [StepToken(text, secrets)] + MaskAll(rest[..k], secrets)
  {
    var m := StepLength(text, secrets);
    var front := text[..m + k];
    FrontMatchOfPrefix(text, secrets, m + k);
    assert front[0] == text[0] && front[m..] == rest[..k];
    assert StepLength(front, secrets) == m && StepToken(front, secrets) == StepToken(text, secrets);
  }

  lemma SameStep(text: seq<byte>, secrets: seq<seq<byte>>, n: nat, front: seq<byte>)
    requires text != [] && StepLength(text, secrets) <= n <= |text| && front == text[..n]
    ensures front != [] && StepLength(front, secrets) == StepLength(text, secrets)
    ensures front[StepLength(text, secrets)..] == text[StepLength(text, secrets)..][..n - StepLength(text, secrets)]
  {
    FrontMatchOfPrefix(text, secrets, n);
  }

  /** What follows a stop may be cut off. */
  lemma {:induction false} StopOfPrefix(text: seq<byte>, secrets: seq<seq<byte>>, b: nat, n: nat)
    requires StopsAt(text, secrets, b) && b <= n <= |text|
    ensures StopsAt(text[..n], secrets, b)
    decreases |text|
  {
    if b > 0 {
      var k := StepLength(text, secrets);
      StopInside(text[k..], secrets, b - k);
      SameStep(text, secrets, n, text[..n]);
      StopOfPrefix(text[k..], secrets, b - k, n - k);
    }
  }

  lemma CutBehindStep(text: seq<byte>, secrets: seq<seq<byte>>, rest: seq<byte>, k: nat)
    requires text != [] && rest == text[StepLength(text, secrets)..] && k <= |rest|
    requires MaskAll(rest, secrets) == MaskAll(rest[..k], secrets) + MaskAll(rest[k..], secrets)
    ensures MaskAll(text, secrets)
         == MaskAll(text[..StepLength(text, secrets) + k], secrets) + MaskAll(rest[k..], secrets)
  {
    StepOfPrefix(text, secrets, rest, k);
    Reassociate([StepToken(text, secrets)], MaskAll(rest[..k], secrets), MaskAll(rest[k..], secrets));
  }

  /** If the scan does not stop at `b`, some match it makes reaches over `b`. */
  lemma {:induction false} JumpOver(text: seq<byte>, secrets: seq<seq<byte>>, b: nat)
    returns (q: nat, s: seq<byte>)
    requires b <= |text| && !StopsAt(text, secrets, b)
    ensures s in secrets && Masked(s) && OccursAt(text, s, q) && StopsAt(text, secrets, q)
    ensures q < b < q + |s|
    decreases |text|
  {
    var n := FrontMatch(text, secrets);
    if n > b {
      q, s := 0, text[..n];
      assert text[0..n] == s;
    } else {
      var m := StepLength(text, secrets);
      q, s := JumpOver(text[m..], secrets, b - m);
      OccursInTail(text, s, m, q);
      q := m + q;
    }
  }
}
