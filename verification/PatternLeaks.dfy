/** What a pattern of the runner can do to a stream: a match that half overlaps a secret lets the secret
    out, and an over-long match is swallowed without harm to what follows it. */
module PatternLeaks {
  import opened Bytes
  import opened Utf8
  import opened Completeness
  import opened PasswordPattern
  import opened Scrubber
  import opened Simultaneous
  import opened StreamScrubbing
  import opened StreamCuts
  import opened StreamMasking
  import opened StreamLimits
  import opened PatternStreams

  // ---- A match that half overlaps a secret ----

  lemma {:induction false} LowerNothing(rs: seq<Range>, b: nat, len: nat)
    requires forall r | r in rs :: !Reason(r, b, len)
    ensures Lower(rs, b, len) == b
    decreases |rs|
  {
    if rs != [] {
      assert rs[0] in rs;
      LowerNothing(rs[1..], b, len);
    }
  }

  /** Where secrets end before the text does and a single pattern match is left, that one decides. */
  lemma CutByPattern(m: Masker, text: seq<byte>, t: Range)
    requires HeldBack(text, m.secrets) == 0 && PatternRanges(text, m.patterns) == [t]
    requires forall r | r in SecretRanges(text, m.secrets) :: r.end < |text|
    ensures CutPoint(m, text) == LowerOnce(t, |text|, |text|)
  {
    var none: seq<Range> := [];
    LowerNothing(SecretRanges(text, m.secrets), |text|, |text|);
    LowerInTwo(SecretRanges(text, m.secrets), [t], |text|, |text|);
    assert [t][1..] == none && IsCharBoundary(text, |text|);
  }

  lemma ReleasedAt(m: Masker, text: seq<byte>, at: nat)
    requires CutPoint(m, text) == at && |text| - at <= Limit(m.secrets)
    ensures Release(m, text) == Pushed(State(text[at..], false), ScrubText(m, text[..at]))
    ensures CutAt(m, text) == at
  {
  }

  lemma PushBefore(m: Masker, pending: seq<byte>, c: seq<byte>, more: seq<seq<byte>>, p: Pushed)
    requires p == Release(m, pending + c)
    ensures StreamFrom(m, State(pending, false), [c] + more) == p.out + StreamFrom(m, p.state, more)
  {
    assert ([c] + more)[1..] == more;
    FirstPush(m, pending, [c] + more, p);
  }

  lemma NothingOfNothing(m: Masker, none: seq<byte>)
    requires FindsNothing(m.patterns, none) && none == []
    ensures ScrubText(m, none) == []
  {
    forall t | t in m.secrets && Masked(t) ensures !Occurs(none, t) {
    }
    Untouched(none, m.secrets);
    NothingFound(m.patterns, none);
  }

  /** `s` stands in front of `first`, and the pattern matches from its middle to the end of `first`, which
      ends with a match that goes no further in `now`, the pending text of the next push; `left` is that
      text with its secrets masked, where the pattern does not match any more. */
  ghost predicate HalfMatched(m: Masker, s: seq<byte>, at: nat, first: seq<byte>, end: seq<byte>,
                              now: seq<byte>, left: seq<byte>)
  {
    && s in m.secrets && Masked(s) && IsPrefix(s, first) && 0 < at < |s| && end != []
    && now == first[at..] + end && |now| <= |first| + |end| <= MAX_PENDING
    && HeldBack(first, m.secrets) == 0 && HeldBack(now, m.secrets) == 0
    && PatternRanges(first, m.patterns) == [Range(at, |first|)]
    && PatternRanges(now, m.patterns) == [Range(0, |now| - |end|)]
    && (forall r | r in SecretRanges(first, m.secrets) :: r.end < |first|)
    && (forall r | r in SecretRanges(now, m.secrets) :: r.end < |now|)
    && Scrub(first[..at], m.secrets) == first[..at] && Scrub(now, m.secrets) == left && IsPrefix(s[at..], left)
    && FindsNothing(m.patterns, first[..at]) && FindsNothing(m.patterns, left) && FindsNothing(m.patterns, [])
  }

  lemma FirstIsCut(m: Masker, at: nat, first: seq<byte>)
    requires HeldBack(first, m.secrets) == 0 && PatternRanges(first, m.patterns) == [Range(at, |first|)]
    requires at < |first| <= MAX_PENDING && forall r | r in SecretRanges(first, m.secrets) :: r.end < |first|
    ensures CutAt(m, first) == at && Release(m, first) == Pushed(State(first[at..], false), ScrubText(m, first[..at]))
  {
    CutByPattern(m, first, Range(at, |first|));
    assert LowerOnce(Range(at, |first|), |first|, |first|) == at;
    ReleasedAt(m, first, at);
  }

  lemma AllAndNothing<T>(s: seq<T>)
    ensures s[|s|..] == [] && s[..|s|] == s
  {
  }

  lemma NowIsReleased(m: Masker, now: seq<byte>, to: nat)
    requires HeldBack(now, m.secrets) == 0 && PatternRanges(now, m.patterns) == [Range(0, to)]
    requires to < |now| && forall r | r in SecretRanges(now, m.secrets) :: r.end < |now|
    ensures Release(m, now) == Pushed(State([], false), ScrubText(m, now))
  {
    AllAndNothing(now);
    CutByPattern(m, now, Range(0, to));
    ReleasedAt(m, now, |now|);
  }

  lemma PrefixIsMatch(text: seq<byte>, secrets: seq<seq<byte>>, s: seq<byte>)
    requires s in secrets && Masked(s) && IsPrefix(s, text)
    ensures Range(0, |s|) in SecretRanges(text, secrets)
  {
    assert text[0..|s|] == text[..|s|];
    FirstIsMatch(text, s, 0);
    OwnedRange(text, secrets, s, Range(0, |s|));
  }

  lemma BothParts(s: seq<byte>, at: nat, front: seq<byte>, left: seq<byte>, more: seq<byte>)
    requires at <= |s| && front == s[..at] && IsPrefix(s[at..], left)
    ensures Occurs(front + (left + more), s)
  {
    var all := front + (left + more);
    assert left == s[at..] + left[|s| - at..];
    assert all[0..|s|] == s;
    assert OccursAt(all, s, 0);
  }

  lemma NotWhole(m: Masker, first: seq<byte>, end: seq<byte>, at: nat, r: Range)
    requires r in SecretRanges(first, m.secrets) && CutAt(m, first) == at && Splits(r, at)
    requires !Release(m, first).state.swallowing
    ensures !NothingSplit(m, IDLE, [first, end])
  {
    ReleaseIs(m, first);
    assert IDLE.pending + first == first;
  }

  lemma HalfOverlap(m: Masker, first: seq<byte>, r: Range, t: Range)
    requires r in PatternRanges(first, m.patterns) && t in SecretRanges(first, m.secrets)
    requires t.start < r.start < t.end < r.end
    ensures !SecretsApart(m, first)
  {
    assert !Apart(r, t);
  }

  lemma OverlapIsCut(m: Masker, s: seq<byte>, at: nat, first: seq<byte>, end: seq<byte>, now: seq<byte>,
                     left: seq<byte>)
    requires HalfMatched(m, s, at, first, end, now, left)
    ensures Range(0, |s|) in SecretRanges(first, m.secrets) && Range(at, |first|) in PatternRanges(first, m.patterns)
    ensures !SecretsApart(m, first) && CutAt(m, first) == at
    ensures !NothingSplit(m, IDLE, [first, end])
  {
    PrefixIsMatch(first, m.secrets, s);
    FirstIsCut(m, at, first);
    HalfOverlap(m, first, Range(at, |first|), Range(0, |s|));
    NotWhole(m, first, end, at, Range(0, |s|));
  }

  lemma OnlySecrets(m: Masker, text: seq<byte>, left: seq<byte>)
    requires Scrub(text, m.secrets) == left && FindsNothing(m.patterns, left)
    ensures ScrubText(m, text) == left
  {
    NothingFound(m.patterns, left);
  }

  lemma FirstOut(m: Masker, at: nat, first: seq<byte>, out: seq<byte>)
    requires HeldBack(first, m.secrets) == 0 && PatternRanges(first, m.patterns) == [Range(at, |first|)]
    requires at < |first| <= MAX_PENDING && forall r | r in SecretRanges(first, m.secrets) :: r.end < |first|
    requires out == first[..at] && Scrub(out, m.secrets) == out && FindsNothing(m.patterns, out)
    ensures Release(m, first) == Pushed(State(first[at..], false), out)
  {
    OnlySecrets(m, out, out);
    FirstIsCut(m, at, first);
  }

  lemma SecondOut(m: Masker, now: seq<byte>, to: nat, left: seq<byte>)
    requires HeldBack(now, m.secrets) == 0 && PatternRanges(now, m.patterns) == [Range(0, to)]
    requires to < |now| && forall r | r in SecretRanges(now, m.secrets) :: r.end < |now|
    requires Scrub(now, m.secrets) == left && FindsNothing(m.patterns, left)
    ensures Release(m, now) == Pushed(State([], false), left)
  {
    OnlySecrets(m, now, left);
    NowIsReleased(m, now, to);
  }

  lemma AfterFirst(m: Masker, first: seq<byte>, end: seq<byte>, back: seq<byte>, front: seq<byte>)
    requires Release(m, first) == Pushed(State(back, false), front)
    ensures StreamFrom(m, IDLE, [first, end]) == front + StreamFrom(m, State(back, false), [end])
  {
    assert IDLE.pending + first == first && [first, end] == [first] + [end];
    PushBefore(m, IDLE.pending, first, [end], Release(m, first));
  }

  lemma AfterSecond(m: Masker, back: seq<byte>, end: seq<byte>, now: seq<byte>, left: seq<byte>)
    requires now == back + end && Release(m, now) == Pushed(State([], false), left)
    ensures StreamFrom(m, State(back, false), [end]) == left + StreamFrom(m, State([], false), [])
  {
    var none: seq<seq<byte>> := [];
    assert [end] + none == [end];
    PushBefore(m, back, end, none, Release(m, now));
  }

  lemma FirstHalfOut(m: Masker, s: seq<byte>, at: nat, first: seq<byte>, end: seq<byte>, now: seq<byte>,
                     left: seq<byte>)
    requires HalfMatched(m, s, at, first, end, now, left)
    ensures StreamFrom(m, IDLE, [first, end]) == first[..at] + StreamFrom(m, State(first[at..], false), [end])
  {
    FirstOut(m, at, first, first[..at]);
    AfterFirst(m, first, end, first[at..], first[..at]);
  }

  lemma SecondHalfOut(m: Masker, s: seq<byte>, at: nat, first: seq<byte>, end: seq<byte>, now: seq<byte>,
                      left: seq<byte>)
    requires HalfMatched(m, s, at, first, end, now, left)
    ensures StreamFrom(m, State(first[at..], false), [end]) == left + StreamFrom(m, State([], false), [])
  {
    SecondOut(m, now, |now| - |end|, left);
    AfterSecond(m, first[at..], end, now, left);
  }

  lemma FrontOfPrefix(s: seq<byte>, first: seq<byte>, at: nat)
    requires IsPrefix(s, first) && at <= |s|
    ensures first[..at] == s[..at]
  {
    assert first[..at] == first[..|s|][..at];
  }

  /** A push cuts through the secret where the pattern match begins that half overlaps it, and the secret
      comes out as a whole: the pattern does not match its second part any more when that is emitted. */
  lemma {:induction false} HalfMatchedLeaks(m: Masker, s: seq<byte>, at: nat, first: seq<byte>, end: seq<byte>,
                                            now: seq<byte>, left: seq<byte>)
    requires HalfMatched(m, s, at, first, end, now, left)
    ensures Range(0, |s|) in SecretRanges(first, m.secrets) && Range(at, |first|) in PatternRanges(first, m.patterns)
    ensures !SecretsApart(m, first) && CutAt(m, first) == at && 0 < at < |s|
    ensures !NothingSplit(m, IDLE, [first, end]) && Occurs(StreamFrom(m, IDLE, [first, end]), s)
  {
    OverlapIsCut(m, s, at, first, end, now, left);
    FirstHalfOut(m, s, at, first, end, now, left);
    SecondHalfOut(m, s, at, first, end, now, left);
    FrontOfPrefix(s, first, at);
    BothParts(s, at, first[..at], left, StreamFrom(m, State([], false), []));
  }

  // ---- The example ----

  const FRONT: seq<byte> := [0x61, 0x62, 0x21, 0x21] // ab!!
  const OTHER: seq<byte> := [0x3D, 0x21, 0x21, 0x21, 0x21, 0x21] // =!!!!!
  const REST: seq<byte> := [0x21, 0x21, 0x21, 0x21] // !!!!
  const NEWLINE: seq<byte> := [0x0A]

  /** Nothing of `s` can begin at the end of `text`. */
  lemma NoStart(text: seq<byte>, s: seq<byte>)
    requires s != [] && forall i | 0 <= i < |text| && |text| - |s| < i :: text[i] != s[0]
    ensures PartialSecret(text, s) == 0
  {
    assert forall n | 0 < n < |s| :: s[..n][0] == s[0];
  }

  lemma NothingHeld(text: seq<byte>, s: seq<byte>, t: seq<byte>)
    requires s != [] && t != [] && text != [] && !IsTokenByte(text[|text| - 1])
    requires forall i | 0 <= i < |text| && |text| - |s| < i :: text[i] != s[0]
    requires forall i | 0 <= i < |text| && |text| - |t| < i :: text[i] != t[0]
    ensures HeldBack(text, [s, t]) == 0
  {
    NoStart(text, s);
    NoStart(text, t);
    assert [s, t][1..] == [t];
    assert LongestPartial(text, [t]) == 0;
  }

  /** The first text of the example, and the second. */
  lemma ExampleBytes(first: seq<byte>, now: seq<byte>)
    requires first == FRONT + WORD + OTHER + REST && now == WORD + OTHER + REST + NEWLINE
    ensures |first| == 22 && |now| == 19 && first[4..] + NEWLINE == now
    ensures forall k | 0 <= k < 22 :: (first[k] == 0x61 <==> k == 0 || k == 5) && (first[k] == 0x3D <==> k == 12)
    ensures forall k | 0 <= k < 19 :: (now[k] == 0x61 <==> k == 1) && (now[k] == 0x3D <==> k == 8)
    ensures first[6] != 0x62 && now[2] != 0x62
    ensures forall k | 0 <= k < 4 || 13 <= k < 22 :: first[k] != WORD[0]
    ensures forall k | 13 <= k < 22 :: first[k] == 0x21
    ensures forall k | 9 <= k < 18 :: now[k] == 0x21
    ensures now[18] == 0x0A
  {
  }

  /** What of `text` the example needs: which of its bytes begin the two secrets, and where. */
  ghost predicate Begins(text: seq<byte>, at: int, other: nat) {
    && (forall k | 0 <= k < |text| && text[k] == 0x61 && k != at :: k + 1 < |text| && text[k + 1] != 0x62)
    && (forall k | 0 <= k < |text| :: text[k] == 0x3D <==> k == other)
  }

  /** The first secret of the example. */
  ghost predicate IsFirst(s: seq<byte>) {
    |s| == 12 && s[0] == 0x61 && s[1] == 0x62
  }

  ghost predicate IsOther(t: seq<byte>) {
    |t| == 6 && t[0] == 0x3D
  }

  lemma WhereFirst(text: seq<byte>, at: int, other: nat, s: seq<byte>, i: int)
    requires Begins(text, at, other) && IsFirst(s) && OccursAt(text, s, i)
    ensures i == at
  {
    assert text[i..i + 12][0] == text[i] && text[i..i + 12][1] == text[i + 1];
  }

  lemma WhereOther(text: seq<byte>, at: int, other: nat, t: seq<byte>, i: int)
    requires Begins(text, at, other) && IsOther(t) && OccursAt(text, t, i)
    ensures i == other
  {
    assert text[i..i + 6][0] == text[i];
  }

  lemma RangesBefore(text: seq<byte>, at: int, other: nat, s: seq<byte>, t: seq<byte>)
    requires Begins(text, at, other) && IsFirst(s) && IsOther(t) && at + 12 < |text| && other + 6 < |text|
    ensures forall r | r in SecretRanges(text, [s, t]) :: r.end < |text|
  {
    forall r | r in SecretRanges(text, [s, t]) ensures r.end < |text| {
      var u := RangeOwner(text, [s, t], r);
      if u == s {
        WhereFirst(text, at, other, s, r.start);
      } else {
        WhereOther(text, at, other, t, r.start);
      }
    }
  }

  lemma {:induction false} RangesInTwo(text: seq<byte>, a: seq<Pattern>, b: seq<Pattern>)
    ensures PatternRanges(text, a + b) == PatternRanges(text, a) + PatternRanges(text, b)
    decreases |a|
  {
    if a == [] {
      assert a + b == b;
      PrependNothing(PatternRanges(text, b));
    } else {
      assert FindsMatches(a[0]) && (a + b)[0] == a[0] && (a + b)[1..] == a[1..] + b;
      RangesInTwo(text, a[1..], b);
      Reassociate(a[0](text), PatternRanges(text, a[1..]), PatternRanges(text, b));
    }
  }

  lemma RangesOfOnePattern(text: seq<byte>, p: Pattern)
    ensures PatternRanges(text, [p]) == p(text)
  {
    var none: seq<Pattern> := [];
    assert [p][1..] == none && FindsMatches(p);
    AppendNothing(p(text));
  }

  lemma OthersAround(text: seq<byte>, before: seq<Pattern>, p: Pattern, after: seq<Pattern>)
    requires FindsNothing(before, text) && FindsNothing(after, text)
    ensures PatternRanges(text, before + [p] + after) == p(text)
  {
    RangesInTwo(text, before + [p], after);
    RangesInTwo(text, before, [p]);
    NoRanges(before, text);
    NoRanges(after, text);
    RangesOfOnePattern(text, p);
    PrependNothing(p(text));
    AppendNothing(p(text));
  }

  lemma NothingAround(text: seq<byte>, before: seq<Pattern>, p: Pattern, after: seq<Pattern>)
    requires FindsNothing(before, text) && FindsNothing(after, text) && p(text) == []
    ensures FindsNothing(before + [p] + after, text)
  {
  }

  /** What the pattern finds in the texts of the example. */
  lemma PasswordsInFirst(first: seq<byte>)
    requires |first| == 22 && IsPrefix(WORD, first[4..]) && first[12] == 0x3D
    requires forall k | 0 <= k < 4 :: first[k] != WORD[0]
    requires forall k | 13 <= k < 22 :: first[k] == 0x21
    ensures Passwords(first) == [Range(4, 22)]
  {
    forall k | 0 <= k < 4 ensures MatchEnd(first, k) == 0 {
      NoLetterNoMatch(first, k);
    }
    AssignmentMatches(first, 4, 13, 22);
    FirstPassword(first, 0, 4);
  }

  lemma PasswordsInNow(now: seq<byte>)
    requires |now| == 19 && IsPrefix(WORD, now[0..]) && now[8] == 0x3D && now[18] == 0x0A
    requires forall k | 9 <= k < 18 :: now[k] == 0x21
    ensures Passwords(now) == [Range(0, 18)]
  {
    AssignmentMatches(now, 0, 9, 18);
    FirstPassword(now, 0, 0);
    NoLetterNoMatch(now, 18);
    NoPasswords(now, 18);
  }

  lemma NoPasswordsInLeft(left: seq<byte>)
    requires |left| > 8 && left[8] == 0x5B && forall k | 0 < k < |left| :: left[k] != WORD[0]
    ensures Passwords(left) == []
  {
    NoAssignment(left, 0);
    forall k | 0 < k < |left| ensures MatchEnd(left, k) == 0 {
      NoLetterNoMatch(left, k);
    }
    NoPasswords(left, 0);
  }

  lemma NoPasswordsAtAll(text: seq<byte>)
    requires WORD[0] !in text
    ensures Passwords(text) == []
  {
    forall k | 0 <= k < |text| ensures MatchEnd(text, k) == 0 {
      NoLetterNoMatch(text, k);
    }
    NoPasswords(text, 0);
  }

  lemma ScrubFront(front: seq<byte>, s: seq<byte>, t: seq<byte>)
    requires |front| < |s| && |front| < |t|
    ensures Scrub(front, [s, t]) == front
  {
    Untouched(front, [s, t]);
  }

  lemma ScrubNow(now: seq<byte>, word: seq<byte>, s: seq<byte>, t: seq<byte>, rest: seq<byte>)
    requires now == word + (t + rest) && |rest| < |t| && Begins(now, -1, |word|) && IsFirst(s) && IsOther(t)
    ensures Scrub(now, [s, t]) == word + (MASK + rest)
  {
    forall i | OccursAt(now, s, i) ensures false {
      WhereFirst(now, -1, |word|, s, i);
    }
    NotReplaced(now, s);
    forall k | 0 <= k < |word| ensures !IsPrefix(t, now[k..]) {
      PrefixOccurs(now, t, k);
      if OccursAt(now, t, k) {
        WhereOther(now, -1, |word|, t, k);
      }
    }
    ReplaceSkips(now, t, |word|);
    assert now[..|word|] == word && now[|word|..] == t + rest;
    FrontReplaced(t, rest);
    ScrubTwo(now, s, t);
  }

  lemma NoByteOfMask(s: seq<byte>)
    requires s != [] && forall i | 0 <= i < |s| :: s[i] !in MASK
    ensures ApartFromMask(s)
  {
    forall d | -|MASK| < d < |s| ensures !Agrees(s, d) {
      var i := Max(d, 0);
      assert s[i] !in MASK && MASK[i - d] in MASK;
    }
  }

  /** The example: "ab!!password" and "=!!!!!" are secrets, "ab!!password=!!!!!!!!!" is pushed, and then the
      end of the line. */
  ghost predicate IsExample(s: seq<byte>, t: seq<byte>, first: seq<byte>, now: seq<byte>, left: seq<byte>) {
    && s == FRONT + WORD && t == OTHER && first == FRONT + WORD + OTHER + REST
    && now == WORD + OTHER + REST + NEWLINE && left == WORD + (MASK + (REST + NEWLINE))
  }

  /** What the proof needs to know of it. */
  ghost predicate ExampleFacts(s: seq<byte>, t: seq<byte>, first: seq<byte>, now: seq<byte>, left: seq<byte>) {
    && IsFirst(s) && IsOther(t) && |first| == 22 && |now| == 19 && now == first[4..] + NEWLINE
    && IsPrefix(s, first) && IsPrefix(s[4..], left) && Begins(first, 0, 12) && Begins(now, -1, 8)
    && HeldBack(first, [s, t]) == 0 && HeldBack(now, [s, t]) == 0
    && Passwords(first) == [Range(4, 22)] && Passwords(now) == [Range(0, 18)]
    && Passwords(first[..4]) == [] && Passwords(left) == [] && Passwords([]) == []
    && Scrub(first[..4], [s, t]) == first[..4] && Scrub(now, [s, t]) == left
  }

  lemma ExampleSlices(s: seq<byte>, t: seq<byte>, first: seq<byte>, now: seq<byte>, left: seq<byte>)
    requires IsExample(s, t, first, now, left)
    ensures IsFirst(s) && IsOther(t) && IsPrefix(s, first) && IsPrefix(s[4..], left)
    ensures IsPrefix(WORD, first[4..]) && IsPrefix(WORD, now[0..]) && now == WORD + (t + (REST + NEWLINE))
    ensures first[..4] == FRONT && |left| > 8 && left[8] == 0x5B && forall k | 0 < k < |left| :: left[k] != WORD[0]
    ensures WORD[0] !in FRONT && first[12] == 0x3D && now[8] == 0x3D && |WORD| == 8
  {
    assert first == s + (t + REST) && s[4..] == WORD;
    assert first[4..] == WORD + (t + REST) && left[..8] == WORD;
  }

  lemma ExampleHolds(s: seq<byte>, t: seq<byte>, first: seq<byte>, now: seq<byte>, left: seq<byte>)
    requires IsExample(s, t, first, now, left)
    ensures ExampleFacts(s, t, first, now, left)
  {
    ExampleSlices(s, t, first, now, left);
    ExampleBytes(first, now);
    NothingHeld(first, s, t);
    NothingHeld(now, s, t);
    PasswordsInFirst(first);
    PasswordsInNow(now);
    NoPasswordsInLeft(left);
    NoPasswordsAtAll(first[..4]);
    NoPasswordsAtAll([]);
    ScrubFront(first[..4], s, t);
    ScrubNow(now, WORD, s, t, REST + NEWLINE);
  }

  /** The other patterns have nothing to do with the example. */
  ghost predicate StayOut(patterns: seq<Pattern>, first: seq<byte>, now: seq<byte>, left: seq<byte>) {
    && FindsNothing(patterns, first) && FindsNothing(patterns, now) && FindsNothing(patterns, left)
    && FindsNothing(patterns, first[..Min(4, |first|)]) && FindsNothing(patterns, [])
  }

  lemma ExampleIsHalfMatched(m: Masker, before: seq<Pattern>, after: seq<Pattern>,
                             s: seq<byte>, t: seq<byte>, first: seq<byte>, now: seq<byte>, left: seq<byte>)
    requires m.secrets == [s, t] && m.patterns == before + [PasswordsPattern()] + after
    requires StayOut(before, first, now, left) && StayOut(after, first, now, left)
    requires ExampleFacts(s, t, first, now, left)
    ensures HalfMatched(m, s, 4, first, NEWLINE, now, left)
  {
    var p := PasswordsPattern();
    OthersAround(first, before, p, after);
    OthersAround(now, before, p, after);
    NothingAround(left, before, p, after);
    NothingAround(first[..4], before, p, after);
    NothingAround([], before, p, after);
    RangesBefore(first, 0, 12, s, t);
    RangesBefore(now, -1, 8, s, t);
  }

  lemma ExampleIsOrdinary(s: seq<byte>, t: seq<byte>, first: seq<byte>, now: seq<byte>, left: seq<byte>)
    requires IsExample(s, t, first, now, left)
    ensures Independent([s, t]) && LongestFirst([s, t]) && HoldBackFits([s, t])
  {
    NoByteOfMask(s);
    NoByteOfMask(t);
    assert LongestSecret([s, t]) == Max(|s|, LongestSecret([t])) && LongestSecret([t]) == |t|;
    ShortSecretsFit([s, t]);
  }

  lemma ExampleIsNested(s: seq<byte>, t: seq<byte>, text: seq<byte>)
    requires IsFirst(s) && IsOther(t) && Begins(text, 0, 12)
    ensures WellNested(text, [s, t])
  {
    forall u, v, i, j |
      && u in [s, t] && v in [s, t] && Masked(u) && Masked(v) && u != v && OccursAt(text, u, i) && OccursAt(text, v, j)
      ensures Fit([s, t], u, i, v, j)
    {
      if u == s {
        WhereFirst(text, 0, 12, s, i);
        WhereOther(text, 0, 12, t, j);
      } else {
        WhereFirst(text, 0, 12, s, j);
        WhereOther(text, 0, 12, t, i);
      }
    }
  }

  lemma HalfMatchedComesOut(m: Masker, s: seq<byte>, at: nat, first: seq<byte>, end: seq<byte>, now: seq<byte>,
                            left: seq<byte>)
    requires HalfMatched(m, s, at, first, end, now, left)
    ensures Occurs(StreamFrom(m, IDLE, [first, end]), s)
  {
    HalfMatchedLeaks(m, s, at, first, end, now, left);
  }

  lemma LineIsNested(s: seq<byte>, t: seq<byte>, first: seq<byte>, now: seq<byte>, left: seq<byte>)
    requires ExampleFacts(s, t, first, now, left)
    ensures WellNested(first + NEWLINE, [s, t])
  {
    assert Begins(first + NEWLINE, 0, 12);
    ExampleIsNested(s, t, first + NEWLINE);
  }

  /** With the runner's pattern among any others that find nothing in these texts: the secrets are apart
      from the mask, sorted and short, and do not overlap in the text; the first one comes out whole. */
  lemma {:induction false} PasswordPatternLeaks(m: Masker, before: seq<Pattern>, after: seq<Pattern>,
                                                s: seq<byte>, t: seq<byte>, first: seq<byte>, now: seq<byte>,
                                                left: seq<byte>)
    requires IsExample(s, t, first, now, left)
    requires m.secrets == [s, t] && m.patterns == before + [PasswordsPattern()] + after
    requires StayOut(before, first, now, left) && StayOut(after, first, now, left)
    ensures Independent([s, t]) && LongestFirst([s, t]) && HoldBackFits([s, t]) && WellNested(first + NEWLINE, [s, t])
    ensures HalfMatched(m, s, 4, first, NEWLINE, now, left) && Occurs(StreamFrom(m, IDLE, [first, NEWLINE]), s)
  {
    ExampleHolds(s, t, first, now, left);
    ExampleIsOrdinary(s, t, first, now, left);
    LineIsNested(s, t, first, now, left);
    ExampleIsHalfMatched(m, before, after, s, t, first, now, left);
    HalfMatchedComesOut(m, s, 4, first, NEWLINE, now, left);
  }

  // ---- A match that is swallowed, and a text that goes on ----

  lemma {:induction false} LowerToStart(rs: seq<Range>, b: nat, len: nat)
    requires Range(0, len) in rs
    ensures Lower(rs, b, len) == 0
    decreases |rs|
  {
    if rs[0] == Range(0, len) {
      LowerStaysDown(rs[1..], len);
    } else {
      LowerToStart(rs[1..], LowerOnce(rs[0], b, len), len);
    }
  }

  lemma {:induction false} LowerStaysDown(rs: seq<Range>, len: nat)
    ensures Lower(rs, 0, len) == 0
    decreases |rs|
  {
    if rs != [] {
      LowerStaysDown(rs[1..], len);
    }
  }

  lemma {:induction false} StartIs0(rs: seq<Range>, len: nat)
    requires Range(0, len) in rs
    ensures StartAtEnd(rs, len) == 0 && AnyAtEnd(rs, len)
  {
    if rs[0] != Range(0, len) {
      StartIs0(rs[1..], len);
    }
  }

  lemma CutAtStart(text: seq<byte>, held: nat, matches: seq<Range>)
    requires held <= |text| && Range(0, |text|) in matches
    ensures CutFor(text, held, matches) == 0
  {
    LowerToStart(matches, FloorBoundary(text, |text| - held), |text|);
  }

  lemma InBoth(m: Masker, text: seq<byte>, r: Range)
    requires r in PatternRanges(text, m.patterns)
    ensures r in MatchRanges(m, text)
  {
  }

  /** A match of the whole pending text that outgrows the limit. */
  lemma WholeIsSwallowed(m: Masker, text: seq<byte>)
    requires Range(0, |text|) in PatternRanges(text, m.patterns) && |text| > Limit(m.secrets)
    requires FindsNothing(m.patterns, [])
    ensures Swallows(m, text) && Release(m, text) == Pushed(State([], true), MASK)
  {
    InBoth(m, text, Range(0, |text|));
    CutAtStart(text, HeldBack(text, m.secrets), MatchRanges(m, text));
    StartIs0(MatchRanges(m, text), |text|);
    NothingOfNothing(m, text[..0]);
    PrependNothing(MASK);
    ReleaseIs(m, text);
  }

  /** Behind it the text is dropped up to whitespace, and from there on the stream is as a new one. */
  lemma {:induction false} SwallowedRun(m: Masker, first: seq<byte>, more: seq<byte>, behind: seq<byte>)
    requires Range(0, |first|) in PatternRanges(first, m.patterns) && |first| > Limit(m.secrets)
    requires FindsNothing(m.patterns, []) && behind != [] && FindWhitespace(more + behind, 0) == |more|
    ensures StreamFrom(m, IDLE, [first, more + behind]) == MASK + StreamFrom(m, IDLE, [behind])
    ensures NothingSplit(m, IDLE, [first, more + behind]) <==> KeepsWhole(m, behind)
  {
    WholeIsSwallowed(m, first);
    FirstSwallowed(m, first, more + behind);
    assert (more + behind)[|more|..] == behind;
    RestResumes(m, more + behind, behind);
  }

  lemma FirstSwallowed(m: Masker, first: seq<byte>, second: seq<byte>)
    requires Swallows(m, first) && Release(m, first) == Pushed(State([], true), MASK)
    ensures StreamFrom(m, IDLE, [first, second]) == MASK + StreamFrom(m, State([], true), [second])
    ensures NothingSplit(m, IDLE, [first, second]) <==> NothingSplit(m, State([], true), [second])
  {
    assert IDLE.pending + first == first && [first, second] == [first] + [second];
    assert ([first] + [second])[1..] == [second];
    PushBefore(m, IDLE.pending, first, [second], Release(m, first));
  }

  lemma RestResumes(m: Masker, second: seq<byte>, behind: seq<byte>)
    requires behind != [] && second[FindWhitespace(second, 0)..] == behind
    ensures StreamFrom(m, State([], true), [second]) == StreamFrom(m, IDLE, [behind])
    ensures NothingSplit(m, State([], true), [second]) <==> KeepsWhole(m, behind)
  {
    var none: seq<seq<byte>> := [];
    assert [second][1..] == none && [behind] + none == [behind];
    Resumed(m, [second], FindWhitespace(second, 0));
    PrependNothing(behind);
  }

  lemma QuietIsWhole(m: Masker, text: seq<byte>)
    requires Quiet(m, text) && WellNested(text, m.secrets) && HoldBackFits(m.secrets)
    ensures KeepsWhole(m, text)
  {
    QuietTail(m, text, 0);
    assert text[0..] == text;
    NoRanges(m.patterns, text);
    HoldBackAlwaysFits(m, text);
    ApartKeepsWhole(m, text);
  }

  lemma LongValueMatches(first: seq<byte>)
    requires |first| >= 17 && IsPrefix(WORD, first[0..]) && first[8] == 0x3D
    requires forall k | 9 <= k < |first| :: Visible(first[k])
    ensures Passwords(first) == [Range(0, |first|)]
  {
    AssignmentMatches(first, 0, 9, |first|);
    FirstPassword(first, 0, 0);
  }

  lemma AmongOthers(text: seq<byte>, before: seq<Pattern>, p: Pattern, after: seq<Pattern>, r: Range)
    requires r in p(text)
    ensures r in PatternRanges(text, before + [p] + after)
  {
    RangesInTwo(text, before + [p], after);
    RangesInTwo(text, before, [p]);
    RangesOfOnePattern(text, p);
  }

  lemma ValueBytes(value: seq<byte>, first: seq<byte>)
    requires first == WORD + [0x3D] + value && forall k | 0 <= k < |value| :: Visible(value[k])
    ensures |first| == |value| + 9 && IsPrefix(WORD, first[0..]) && first[8] == 0x3D
    ensures forall k | 9 <= k < |first| :: Visible(first[k])
  {
    forall k | 9 <= k < |first| ensures Visible(first[k]) {
      assert first[k] == value[k - 9];
    }
    assert first[0..][..|WORD|] == WORD;
  }

  lemma LongValue(m: Masker, before: seq<Pattern>, after: seq<Pattern>, value: seq<byte>, first: seq<byte>)
    requires m.patterns == before + [PasswordsPattern()] + after && first == WORD + [0x3D] + value
    requires |value| >= 8 && forall k | 0 <= k < |value| :: Visible(value[k])
    ensures Range(0, |first|) in PatternRanges(first, m.patterns)
  {
    ValueBytes(value, first);
    LongValueMatches(first);
    AmongOthers(first, before, PasswordsPattern(), after, Range(0, |first|));
  }

  lemma {:induction false} ValueEnds(more: seq<byte>, behind: seq<byte>)
    requires behind != [] && behind[0] == 0x0A && forall k | 0 <= k < |more| :: Visible(more[k])
    ensures FindWhitespace(more + behind, 0) == |more|
  {
    VisibleRun(more + behind, 0, |more|);
  }

  lemma BehindIsNested(first: seq<byte>, more: seq<byte>, behind: seq<byte>, secrets: seq<seq<byte>>)
    requires WellNested(first + (more + behind), secrets)
    ensures WellNested(behind, secrets)
  {
    assert (first + (more + behind))[|first| + |more|..] == behind;
    WellNestedTail(first + (more + behind), secrets, |first| + |more|);
  }

  lemma QuietBehind(m: Masker, behind: seq<byte>)
    requires Independent(m.secrets) && HoldBackFits(m.secrets) && WellNested(behind, m.secrets)
    requires Valid(behind) && Quiet(m, behind)
    ensures StreamFrom(m, IDLE, [behind]) == Scrub(behind, m.secrets)
    ensures KeepsWhole(m, behind) && FindsNothing(m.patterns, [])
  {
    QuietSlice(m, behind, 0, 0);
    assert behind[0..0] == [];
    QuietIsWhole(m, behind);
    ConcatOne(behind);
    QuietStreamEqualsScrub(m, [behind]);
  }

  /** The case the swallowing is made for, with the runner's pattern among any others: an assignment
      that outgrows the limit, more of it in the next push, and then a line end and other text. No push
      cuts a secret, one mask stands for the assignment, and the text behind it is masked as ever. */
  lemma {:induction false} SwallowedAndResumed(m: Masker, before: seq<Pattern>, after: seq<Pattern>,
                                               value: seq<byte>, more: seq<byte>, behind: seq<byte>, first: seq<byte>)
    requires m.patterns == before + [PasswordsPattern()] + after && first == WORD + [0x3D] + value
    requires (forall k | 0 <= k < |value| :: Visible(value[k])) && forall k | 0 <= k < |more| :: Visible(more[k])
    requires |first| > Limit(m.secrets) && Independent(m.secrets) && HoldBackFits(m.secrets)
    requires Valid(behind) && behind != [] && behind[0] == 0x0A && Quiet(m, behind)
    requires WellNested(first + (more + behind), m.secrets)
    ensures NothingSplit(m, IDLE, [first, more + behind])
    ensures StreamFrom(m, IDLE, [first, more + behind]) == MASK + Scrub(behind, m.secrets)
  {
    LongValue(m, before, after, value, first);
    BehindIsNested(first, more, behind, m.secrets);
    QuietBehind(m, behind);
    ValueEnds(more, behind);
    SwallowedRun(m, first, more, behind);
  }
}
