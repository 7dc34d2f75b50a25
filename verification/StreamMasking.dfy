/** Streaming masking refines whole-text masking: where the patterns find in the pieces what they find
    in the whole, the pushes and the final flush together give `scrub` of the whole text. */
module StreamMasking {
  import opened Bytes
  import opened Utf8
  import opened Scrubber
  import opened Simultaneous
  import opened StreamScrubbing
  import opened StreamCuts

  // ---- What a push does ----

  /** The limit is reached by a match that may go on: it is masked and swallowed. */
  ghost predicate Swallows(m: Masker, now: seq<byte>) {
    !Fits(m, now) && AnyAtEnd(MatchRanges(m, now), |now|)
  }

  /** Where `now` is cut when nothing is swallowed. */
  function CutAt(m: Masker, now: seq<byte>): (at: nat)
    ensures at <= |now|
  {
    WithinLimit(now, CutPoint(m, now), Limit(m.secrets))
  }

  /** A cut at `cut`, unless that keeps more than the limit. */
  function WithinLimit(now: seq<byte>, cut: nat, limit: nat): (at: nat)
    requires cut <= |now|
    ensures at <= |now|
  {
    if |now| - cut <= limit then cut else CeilBoundary(now, |now| - limit)
  }

  lemma ReleaseAtIs(m: Masker, now: seq<byte>, cut: nat, limit: nat, matches: seq<Range>)
    requires cut <= |now|
    ensures var start, at := StartAtEnd(matches, |now|), WithinLimit(now, cut, limit);
            ReleaseAt(m, now, cut, limit, matches) ==
            if |now| - cut > limit && AnyAtEnd(matches, |now|) then
              Pushed(State([], true), ScrubText(m, now[..start]) + MASK)
            else Pushed(State(now[at..], false), ScrubText(m, now[..at]))
  {
  }

  lemma ReleaseIs(m: Masker, now: seq<byte>)
    ensures var start, at := StartAtEnd(MatchRanges(m, now), |now|), CutAt(m, now);
            Release(m, now) ==
            if Swallows(m, now) then Pushed(State([], true), ScrubText(m, now[..start]) + MASK)
            else Pushed(State(now[at..], false), ScrubText(m, now[..at]))
  {
    ReleaseAtIs(m, now, CutPoint(m, now), Limit(m.secrets), MatchRanges(m, now));
  }

  /** No match of a secret in the pending text is cut. */
  ghost predicate KeepsWhole(m: Masker, now: seq<byte>) {
    Swallows(m, now) || forall r | r in SecretRanges(now, m.secrets) :: !Splits(r, CutAt(m, now))
  }

  lemma WithinLimitBelow(now: seq<byte>, cut: nat, limit: nat, held: nat)
    requires held <= limit && cut <= |now| - held && IsCharBoundary(now, |now| - held)
    ensures WithinLimit(now, cut, limit) <= |now| - held
  {
  }

  lemma CutForBelow(text: seq<byte>, held: nat, matches: seq<Range>)
    requires held <= |text|
    ensures CutFor(text, held, matches) <= |text| - held
  {
  }

  lemma CutAtIsHeldBack(m: Masker, now: seq<byte>)
    ensures CutAt(m, now) <= |now| - HeldBack(now, m.secrets)
  {
    CutForBelow(now, HeldBack(now, m.secrets), MatchRanges(m, now));
    HeldBackFitsLimit(now, m.secrets);
    HeldTailStartsChar(now, m.secrets);
    WithinLimitBelow(now, CutPoint(m, now), Limit(m.secrets), HeldBack(now, m.secrets));
  }

  /** Such a cut is a stop of the scan, whatever follows. */
  lemma CutAtIsStop(m: Masker, now: seq<byte>, rest: seq<byte>)
    requires StartsChar(rest) && WellNested(now + rest, m.secrets)
    requires KeepsWhole(m, now) && !Swallows(m, now)
    ensures StopsAt(now + rest, m.secrets, CutAt(m, now))
  {
    CutAtIsHeldBack(m, now);
    WholeCutIsStop(m, now, rest, CutAt(m, now));
  }

  /** Within the limit nothing is cut but by matches of patterns that half overlap secrets. */
  lemma ApartKeepsWhole(m: Masker, now: seq<byte>)
    requires WellNested(now, m.secrets) && SecretsApart(m, now)
    requires Fits(m, now) || AnyAtEnd(MatchRanges(m, now), |now|)
    ensures KeepsWhole(m, now)
  {
    if Fits(m, now) {
      CutPointIsWhole(m, now);
    }
  }

  // ---- Patterns on the two sides of a cut ----

  function Shift(rs: seq<Range>, n: nat): (shifted: seq<Range>)
    ensures |shifted| == |rs|
  {
    if rs == [] then [] else [Range(n + rs[0].start, n + rs[0].end)] + Shift(rs[1..], n)
  }

  /** What the patterns find in `x + y`, each after the ones before it, is what they find in `x` and
      what they find in `y`. */
  ghost predicate Separate(patterns: seq<Pattern>, x: seq<byte>, y: seq<byte>)
    decreases |patterns|
  {
    patterns == []
    || (patterns[0](x + y) == patterns[0](x) + Shift(patterns[0](y), |x|)
        && Separate(patterns[1..], ReplaceMatches(x, patterns[0]), ReplaceMatches(y, patterns[0])))
  }

  lemma FirstRange(text: seq<byte>, rs: seq<Range>, from: nat)
    requires rs != [] && from <= rs[0].start <= rs[0].end && Ordered(rs[1..], rs[0].end, |text|)
    ensures Ordered(rs, from, |text|) && rs[0].end <= |text|
    ensures ReplaceRanges(text, rs, from) == text[from..rs[0].start] + (MASK + ReplaceRanges(text, rs[1..], rs[0].end))
  {
    OrderedBounds(rs[1..], rs[0].end, |text|);
  }

  lemma Behind(x: seq<byte>, y: seq<byte>, from: nat, to: nat)
    requires from <= to <= |y|
    ensures (x + y)[|x| + from..|x| + to] == y[from..to] && (x + y)[|x| + from..] == y[from..]
  {
  }

  lemma ShiftRest(rs: seq<Range>, n: nat)
    requires rs != []
    ensures Shift(rs, n)[0] == Range(n + rs[0].start, n + rs[0].end) && Shift(rs, n)[1..] == Shift(rs[1..], n)
  {
  }

  lemma RangeBehind(x: seq<byte>, y: seq<byte>, rs: seq<Range>, from: nat, shifted: seq<Range>, all: seq<byte>)
    requires rs != [] && Ordered(rs, from, |y|) && shifted != [] && all == x + y
    requires shifted[0] == Range(|x| + rs[0].start, |x| + rs[0].end)
    requires Ordered(shifted[1..], |x| + rs[0].end, |all|)
    requires ReplaceRanges(all, shifted[1..], |x| + rs[0].end) == ReplaceRanges(y, rs[1..], rs[0].end)
    ensures Ordered(shifted, |x| + from, |all|)
    ensures ReplaceRanges(all, shifted, |x| + from) == ReplaceRanges(y, rs, from)
  {
    OrderedBounds(rs, from, |y|);
    Behind(x, y, from, rs[0].start);
    FirstRange(all, shifted, |x| + from);
    FirstRange(y, rs, from);
  }

  lemma {:induction false} PassBehind(x: seq<byte>, y: seq<byte>, rs: seq<Range>, from: nat)
    requires Ordered(rs, from, |y|)
    ensures Ordered(Shift(rs, |x|), |x| + from, |x + y|)
    ensures ReplaceRanges(x + y, Shift(rs, |x|), |x| + from) == ReplaceRanges(y, rs, from)
    decreases |rs|
  {
    OrderedBounds(rs, from, |y|);
    if rs == [] {
      Behind(x, y, from, from);
    } else {
      PassBehind(x, y, rs[1..], rs[0].end);
      ShiftRest(rs, |x|);
      RangeBehind(x, y, rs, from, Shift(rs, |x|), x + y);
    }
  }

  lemma PassFrom(text: seq<byte>, rs: seq<Range>, from: nat, mid: nat)
    requires from <= mid <= |text| && Ordered(rs, mid, |text|)
    ensures Ordered(rs, from, |text|) && ReplaceRanges(text, rs, from) == text[from..mid] + ReplaceRanges(text, rs, mid)
  {
    OrderedBounds(rs, mid, |text|);
    if rs == [] {
      assert text[from..] == text[from..mid] + text[mid..];
    } else {
      FirstRange(text, rs, from);
      FirstRange(text, rs, mid);
      assert text[from..rs[0].start] == text[from..mid] + text[mid..rs[0].start];
      Reassociate(text[from..mid], text[mid..rs[0].start], MASK + ReplaceRanges(text, rs[1..], rs[0].end));
    }
  }

  lemma RangeOfFirst(x: seq<byte>, y: seq<byte>, a: seq<Range>, from: nat, all: seq<Range>, behind: seq<byte>)
    requires a != [] && Ordered(a, from, |x|) && all != [] && all[0] == a[0] && Ordered(all[1..], a[0].end, |x + y|)
    requires ReplaceRanges(x + y, all[1..], a[0].end) == ReplaceRanges(x, a[1..], a[0].end) + behind
    ensures Ordered(all, from, |x + y|) && ReplaceRanges(x + y, all, from) == ReplaceRanges(x, a, from) + behind
  {
    OrderedBounds(a, from, |x|);
    FirstRange(x + y, all, from);
    FirstRange(x, a, from);
    assert (x + y)[from..a[0].start] == x[from..a[0].start];
    Regroup(x[from..a[0].start], MASK, ReplaceRanges(x, a[1..], a[0].end), behind);
  }

  lemma Regroup<T>(a: seq<T>, b: seq<T>, c: seq<T>, d: seq<T>)
    ensures a + (b + (c + d)) == a + (b + c) + d
  {
  }

  lemma PassOverSecond(x: seq<byte>, y: seq<byte>, b: seq<Range>, from: nat)
    requires from <= |x| && Ordered(b, 0, |y|)
    ensures Ordered(Shift(b, |x|), from, |x + y|)
    ensures ReplaceRanges(x + y, Shift(b, |x|), from) == x[from..] + ReplaceRanges(y, b, 0)
  {
    PassBehind(x, y, b, 0);
    PassFrom(x + y, Shift(b, |x|), from, |x|);
    assert (x + y)[from..|x|] == x[from..];
  }

  lemma {:induction false} PassOverBoth(x: seq<byte>, y: seq<byte>, a: seq<Range>, b: seq<Range>, from: nat)
    requires Ordered(a, from, |x|) && Ordered(b, 0, |y|)
    ensures Ordered(a + Shift(b, |x|), from, |x + y|)
    ensures ReplaceRanges(x + y, a + Shift(b, |x|), from) == ReplaceRanges(x, a, from) + ReplaceRanges(y, b, 0)
    decreases |a|
  {
    var shifted := Shift(b, |x|);
    OrderedBounds(a, from, |x|);
    if a == [] {
      PassOverSecond(x, y, b, from);
      assert a + shifted == shifted;
    } else {
      PassOverBoth(x, y, a[1..], b, a[0].end);
      assert (a + shifted)[0] == a[0] && (a + shifted)[1..] == a[1..] + shifted;
      RangeOfFirst(x, y, a, from, a + shifted, ReplaceRanges(y, b, 0));
    }
  }

  lemma {:induction false} SeparatePasses(patterns: seq<Pattern>, x: seq<byte>, y: seq<byte>)
    requires Separate(patterns, x, y)
    ensures ScrubPatterns(x + y, patterns) == ScrubPatterns(x, patterns) + ScrubPatterns(y, patterns)
    decreases |patterns|
  {
    if patterns != [] {
      var p: Pattern := patterns[0];
      assert FindsMatches(p);
      PassOverBoth(x, y, p(x), p(y), 0);
      SeparatePasses(patterns[1..], ReplaceMatches(x, p), ReplaceMatches(y, p));
    }
  }

  // ---- Streaming refines whole-text masking ----

  lemma {:induction false} ChunksStartChar(chunks: seq<seq<byte>>)
    requires forall c | c in chunks :: StartsChar(c)
    ensures StartsChar(Concat(chunks))
  {
    if chunks != [] {
      ChunksStartChar(chunks[1..]);
      assert StartsChar(chunks[0]);
      assert chunks[0] == [] ==> Concat(chunks) == Concat(chunks[1..]);
    }
  }

  /** A text cut at a stop of its scan may be scrubbed piece by piece. */
  lemma ScrubInPieces(text: seq<byte>, secrets: seq<seq<byte>>, b: nat)
    requires Independent(secrets) && WellNested(text, secrets)
    requires StopsAt(text, secrets, b) && b <= |text|
    ensures Scrub(text, secrets) == Scrub(text[..b], secrets) + Scrub(text[b..], secrets)
  {
    CutAtStop(text, secrets, b);
    FlattenConcat(MaskAll(text[..b], secrets), MaskAll(text[b..], secrets));
    WellNestedSlice(text, secrets, 0, b);
    WellNestedTail(text, secrets, b);
    assert text[0..b] == text[..b];
    ScrubIsOneScan(text, secrets);
    ScrubIsOneScan(text[..b], secrets);
    ScrubIsOneScan(text[b..], secrets);
  }

  /** The text may be cut where the push cuts `now`: nothing is swallowed, no secret is cut, and the
      patterns find on both sides what they find in the whole. */
  ghost predicate CutsCleanly(m: Masker, now: seq<byte>, rest: seq<byte>) {
    var at := CutAt(m, now);
    && !Swallows(m, now) && KeepsWhole(m, now)
    && Separate(m.patterns, Scrub(now[..at], m.secrets), Scrub(now[at..] + rest, m.secrets))
  }

  /** All pushes do. */
  ghost predicate Seamless(m: Masker, pending: seq<byte>, chunks: seq<seq<byte>>)
    decreases |chunks|
  {
    chunks == []
    || (CutsCleanly(m, pending + chunks[0], Concat(chunks[1..]))
        && Seamless(m, (pending + chunks[0])[CutAt(m, pending + chunks[0])..], chunks[1..]))
  }

  /** One push: what it emits and what it keeps make up the scrubbed text, whatever follows. */
  lemma PushRefines(m: Masker, now: seq<byte>, rest: seq<byte>, at: nat)
    requires Independent(m.secrets) && StartsChar(rest) && WellNested(now + rest, m.secrets)
    requires CutsCleanly(m, now, rest) && at == CutAt(m, now)
    ensures Release(m, now) == Pushed(State(now[at..], false), ScrubText(m, now[..at]))
    ensures ScrubText(m, now + rest) == ScrubText(m, now[..at]) + ScrubText(m, now[at..] + rest)
    ensures now[at..] + rest == (now + rest)[at..]
  {
    ReleaseIs(m, now);
    CutAtIsStop(m, now, rest);
    ScrubInPieces(now + rest, m.secrets, at);
    TakeInFront(now, rest, at);
    SeparatePasses(m.patterns, Scrub(now[..at], m.secrets), Scrub(now[at..] + rest, m.secrets));
  }

  lemma FirstPush(m: Masker, pending: seq<byte>, chunks: seq<seq<byte>>, p: Pushed)
    requires chunks != [] && p == Release(m, pending + chunks[0])
    ensures StreamFrom(m, State(pending, false), chunks) == p.out + StreamFrom(m, p.state, chunks[1..])
    ensures pending + Concat(chunks) == pending + chunks[0] + Concat(chunks[1..])
  {
    Reassociate(pending, chunks[0], Concat(chunks[1..]));
  }

  lemma {:induction false} StreamRefines(m: Masker, pending: seq<byte>, chunks: seq<seq<byte>>)
    requires Independent(m.secrets) && forall c | c in chunks :: StartsChar(c)
    requires WellNested(pending + Concat(chunks), m.secrets) && Seamless(m, pending, chunks)
    ensures StreamFrom(m, State(pending, false), chunks) == ScrubText(m, pending + Concat(chunks))
    decreases |chunks|
  {
    if chunks == [] {
      AppendNothing(pending);
    } else {
      var now, rest, at := pending + chunks[0], Concat(chunks[1..]), CutAt(m, pending + chunks[0]);
      ChunksStartChar(chunks[1..]);
      FirstPush(m, pending, chunks, Release(m, now));
      PushRefines(m, now, rest, at);
      WellNestedTail(now + rest, m.secrets, at);
      StreamRefines(m, now[at..], chunks[1..]);
    }
  }

  /** The streaming theorem. Secrets that cannot meet the mask (or a single secret, which may), in a
      text where they overlap at most by one containing the other, the containing one listed first:
      if every push cuts cleanly, the stream masks exactly what `scrub` masks on the whole. */
  lemma {:induction false} StreamEqualsScrub(m: Masker, chunks: seq<seq<byte>>)
    requires Independent(m.secrets) && forall c | c in chunks :: Valid(c)
    requires WellNested(Concat(chunks), m.secrets) && Seamless(m, [], chunks)
    ensures StreamFrom(m, IDLE, chunks) == ScrubText(m, Concat(chunks))
  {
    forall c | c in chunks ensures StartsChar(c) {
      ValidStartsChar(c);
    }
    assert [] + Concat(chunks) == Concat(chunks);
    StreamRefines(m, [], chunks);
  }

  /** For a list of secrets as the runner sorts it: nested secrets are masked like any other. */
  lemma {:induction false} NestedStreamEqualsScrub(m: Masker, chunks: seq<seq<byte>>)
    requires Independent(m.secrets) && forall c | c in chunks :: Valid(c)
    requires LongestFirst(m.secrets) && Nested(Concat(chunks), m.secrets) && Seamless(m, [], chunks)
    ensures StreamFrom(m, IDLE, chunks) == ScrubText(m, Concat(chunks))
  {
    SortedIsWellNested(Concat(chunks), m.secrets);
    StreamEqualsScrub(m, chunks);
  }

  // ---- Texts in which no pattern matches ----

  /** No pattern matches in `text`, as it stands or with its secrets masked. */
  ghost predicate Unmatched(m: Masker, text: seq<byte>) {
    FindsNothing(m.patterns, text) && FindsNothing(m.patterns, Scrub(text, m.secrets))
  }

  /** Nor in any stretch of it. */
  ghost predicate Quiet(m: Masker, text: seq<byte>) {
    forall lo: nat, hi: nat | lo <= hi <= |text| :: Unmatched(m, text[lo..hi])
  }

  lemma QuietSlice(m: Masker, text: seq<byte>, lo: nat, hi: nat)
    requires Quiet(m, text) && lo <= hi <= |text|
    ensures Quiet(m, text[lo..hi]) && Unmatched(m, text[lo..hi])
  {
    forall i: nat, j: nat | i <= j <= hi - lo ensures Unmatched(m, text[lo..hi][i..j]) {
      SliceOfSlice(text, lo, hi, i, j);
    }
  }

  lemma QuietFront(m: Masker, front: seq<byte>, rest: seq<byte>)
    requires Quiet(m, front + rest)
    ensures Quiet(m, front) && Unmatched(m, front)
  {
    QuietSlice(m, front + rest, 0, |front|);
    assert (front + rest)[0..|front|] == front;
  }

  lemma QuietTail(m: Masker, text: seq<byte>, n: nat)
    requires Quiet(m, text) && n <= |text|
    ensures Quiet(m, text[n..]) && Unmatched(m, text[n..])
  {
    QuietSlice(m, text, n, |text|);
    assert text[n..|text|] == text[n..];
  }

  lemma {:induction false} NoRanges(patterns: seq<Pattern>, text: seq<byte>)
    requires FindsNothing(patterns, text)
    ensures PatternRanges(text, patterns) == []
  {
    if patterns != [] {
      assert FindsMatches(patterns[0]);
      NoRanges(patterns[1..], text);
    }
  }

  lemma {:induction false} UnmatchedIsSeparate(patterns: seq<Pattern>, x: seq<byte>, y: seq<byte>)
    requires FindsNothing(patterns, x) && FindsNothing(patterns, y) && FindsNothing(patterns, x + y)
    ensures Separate(patterns, x, y)
    decreases |patterns|
  {
    if patterns != [] {
      NothingToReplace(patterns[0], x);
      NothingToReplace(patterns[0], y);
      UnmatchedIsSeparate(patterns[1..], x, y);
    }
  }

  lemma QuietCut(m: Masker, now: seq<byte>, rest: seq<byte>, at: nat)
    requires Independent(m.secrets) && StartsChar(rest) && WellNested(now + rest, m.secrets)
    requires Quiet(m, now + rest) && at <= |now| && StopsAt(now + rest, m.secrets, at)
    ensures Separate(m.patterns, Scrub(now[..at], m.secrets), Scrub(now[at..] + rest, m.secrets))
  {
    TakeInFront(now, rest, at);
    TakeAndDrop(now + rest, at);
    QuietTail(m, now + rest, 0);
    assert (now + rest)[0..] == now + rest;
    QuietFront(m, now[..at], (now + rest)[at..]);
    QuietTail(m, now + rest, at);
    ScrubInPieces(now + rest, m.secrets, at);
    UnmatchedIsSeparate(m.patterns, Scrub(now[..at], m.secrets), Scrub(now[at..] + rest, m.secrets));
  }

  lemma QuietCutsCleanly(m: Masker, now: seq<byte>, rest: seq<byte>)
    requires Independent(m.secrets) && HoldBackFits(m.secrets) && StartsChar(rest)
    requires WellNested(now + rest, m.secrets) && Quiet(m, now + rest)
    ensures CutsCleanly(m, now, rest)
  {
    QuietFront(m, now, rest);
    WellNestedSlice(now + rest, m.secrets, 0, |now|);
    assert (now + rest)[0..|now|] == now;
    NoRanges(m.patterns, now);
    HoldBackAlwaysFits(m, now);
    ApartKeepsWhole(m, now);
    CutAtIsStop(m, now, rest);
    QuietCut(m, now, rest, CutAt(m, now));
  }

  /** Secrets that fit the hold-back, in a text in which no pattern matches: however the text is
      chunked, every push cuts cleanly. */
  lemma {:induction false} QuietIsSeamless(m: Masker, pending: seq<byte>, chunks: seq<seq<byte>>)
    requires Independent(m.secrets) && HoldBackFits(m.secrets) && forall c | c in chunks :: StartsChar(c)
    requires WellNested(pending + Concat(chunks), m.secrets) && Quiet(m, pending + Concat(chunks))
    ensures Seamless(m, pending, chunks)
    decreases |chunks|
  {
    if chunks != [] {
      var now, rest, at := pending + chunks[0], Concat(chunks[1..]), CutAt(m, pending + chunks[0]);
      Reassociate(pending, chunks[0], rest);
      ChunksStartChar(chunks[1..]);
      QuietCutsCleanly(m, now, rest);
      TakeInFront(now, rest, at);
      WellNestedTail(now + rest, m.secrets, at);
      QuietTail(m, now + rest, at);
      QuietIsSeamless(m, now[at..], chunks[1..]);
    }
  }

  /** The streaming theorem for such texts, for every chunking. */
  lemma {:induction false} QuietStreamEqualsScrub(m: Masker, chunks: seq<seq<byte>>)
    requires Independent(m.secrets) && HoldBackFits(m.secrets) && forall c | c in chunks :: Valid(c)
    requires WellNested(Concat(chunks), m.secrets) && Quiet(m, Concat(chunks))
    ensures StreamFrom(m, IDLE, chunks) == ScrubText(m, Concat(chunks)) == Scrub(Concat(chunks), m.secrets)
  {
    forall c | c in chunks ensures StartsChar(c) {
      ValidStartsChar(c);
    }
    assert [] + Concat(chunks) == Concat(chunks);
    QuietIsSeamless(m, [], chunks);
    StreamEqualsScrub(m, chunks);
    QuietTail(m, Concat(chunks), 0);
    assert Concat(chunks)[0..] == Concat(chunks);
    NothingFound(m.patterns, Scrub(Concat(chunks), m.secrets));
  }
}
