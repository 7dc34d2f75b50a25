/** Streaming with regex patterns: the stream need not be what `scrub` gives for the whole text, but
    as long as no push cuts through a match of a secret it lets no secret through. Over-long matches,
    for which one mask stands while the rest is swallowed, are included. */
module PatternStreams {
  import opened Bytes
  import opened Utf8
  import opened Completeness
  import opened Scrubber
  import opened Simultaneous
  import opened StreamScrubbing
  import opened StreamCuts
  import opened StreamMasking

  /** No occurrence reaches over a mask. */
  lemma AcrossMask(x: seq<byte>, y: seq<byte>, s: seq<byte>)
    requires Masked(s) && ApartFromMask(s) && Occurs(x + (MASK + y), s)
    ensures Occurs(x, s) || Occurs(y, s)
  {
    var behind := [Mask] + Tokens(y);
    var ts := Tokens(x) + behind;
    FlattenTokens(x);
    FlattenTokens(y);
    assert behind[1..] == Tokens(y);
    FlattenConcat(Tokens(x), behind);
    var i :| OccursAt(Flatten(ts), s, i);
    FlattenOccurs(ts, s, i);
    var j: nat :| PlainAt(ts, s, j);
    PlainBeforeMask(x, Tokens(y), s, j);
    if j + |s| > |x| {
      PlainOccursInText(y, s);
    }
  }

  // ---- What is asked of a run ----

  /** The pending text a push works on: while a match is being swallowed, from whitespace on. */
  function Now(st: State, chunk: seq<byte>): seq<byte> {
    st.pending + if st.swallowing then chunk[FindWhitespace(chunk, 0)..] else chunk
  }

  /** No push cuts through a match of a secret. */
  ghost predicate NothingSplit(m: Masker, st: State, chunks: seq<seq<byte>>)
    decreases |chunks|
  {
    chunks == []
    || (KeepsWhole(m, Now(st, chunks[0])) && NothingSplit(m, PushChunk(m, st, chunks[0]).state, chunks[1..]))
  }

  // ---- Where the text is cut ----

  lemma Parts(text: seq<byte>, b: nat, h: nat)
    requires b <= |text| && h <= |text| - b
    ensures text[0..b + h] == text[..b + h] && text[..b + h][..b] == text[..b] && text[..b + h][b..] == text[b..][..h]
  {
  }

  lemma PiecesUpTo(text: seq<byte>, secrets: seq<seq<byte>>, b: nat, h: nat)
    requires Independent(secrets) && WellNested(text, secrets) && StopsAt(text, secrets, b)
    requires b <= |text| && h <= |text| - b
    ensures Scrub(text[..b + h], secrets) == Scrub(text[..b], secrets) + Scrub(text[b..][..h], secrets)
  {
    Parts(text, b, h);
    StopOfPrefix(text, secrets, b, b + h);
    WellNestedSlice(text, secrets, 0, b + h);
    ScrubInPieces(text[..b + h], secrets, b);
  }

  // ---- The stream ----

  /** `p` emits what is in front of `at`: at a stop of the scan, or in front of a match that is
      masked and swallowed. */
  ghost predicate Emits(m: Masker, now: seq<byte>, rest: seq<byte>, p: Pushed, at: nat) {
    && at <= |now|
    && if p.state.swallowing then p == Pushed(State([], true), ScrubText(m, now[..at]) + MASK)
       else p == Pushed(State(now[at..], false), ScrubText(m, now[..at])) && StopsAt(now + rest, m.secrets, at)
  }

  lemma ReleaseEmits(m: Masker, now: seq<byte>, rest: seq<byte>) returns (p: Pushed, at: nat)
    requires StartsChar(rest) && WellNested(now + rest, m.secrets) && KeepsWhole(m, now)
    ensures p == Release(m, now) && Emits(m, now, rest, p, at)
  {
    ReleaseIs(m, now);
    p := Release(m, now);
    if Swallows(m, now) {
      at := StartAtEnd(MatchRanges(m, now), |now|);
    } else {
      at := CutAt(m, now);
      CutAtIsStop(m, now, rest);
    }
  }

  /** The first push of a stream. */
  lemma StreamEmits(m: Masker, pending: seq<byte>, chunks: seq<seq<byte>>) returns (p: Pushed, at: nat)
    requires chunks != [] && WellNested(pending + Concat(chunks), m.secrets) && forall c | c in chunks :: StartsChar(c)
    requires NothingSplit(m, State(pending, false), chunks)
    ensures StreamFrom(m, State(pending, false), chunks) == p.out + StreamFrom(m, p.state, chunks[1..])
    ensures pending + Concat(chunks) == pending + chunks[0] + Concat(chunks[1..])
    ensures Emits(m, pending + chunks[0], Concat(chunks[1..]), p, at) && NothingSplit(m, p.state, chunks[1..])
  {
    var now, rest := pending + chunks[0], Concat(chunks[1..]);
    Reassociate(pending, chunks[0], rest);
    ChunksStartChar(chunks[1..]);
    p, at := ReleaseEmits(m, now, rest);
    FirstPush(m, pending, chunks, p);
  }

  /** An occurrence behind a piece that was emitted at the cut. */
  lemma BehindCut(m: Masker, a: seq<byte>, now: seq<byte>, rest: seq<byte>, at: nat, h: nat, s: seq<byte>)
    requires Independent(m.secrets) && WellNested(now + rest, m.secrets) && StopsAt(now + rest, m.secrets, at)
    requires at <= |now| && h <= |now| - at + |rest| && Masked(s) && ApartFromMask(s)
    requires Occurs(a + ScrubText(m, now[..at]) + Scrub((now[at..] + rest)[..h], m.secrets), s)
    ensures Occurs(a + Scrub((now + rest)[..at + h], m.secrets), s)
  {
    var text, piece := now + rest, Scrub(now[..at], m.secrets);
    var behind := Scrub(text[at..][..h], m.secrets);
    TakeInFront(now, rest, at);
    Reassociate(a, ScrubText(m, now[..at]), behind);
    PatternsMakeNone(a, piece, behind, m.patterns, s);
    PiecesUpTo(text, m.secrets, at, h);
  }

  /** An occurrence in front of what nothing shows behind. */
  lemma LastPiece(m: Masker, a: seq<byte>, text: seq<byte>, s: seq<byte>)
    requires Masked(s) && ApartFromMask(s) && Occurs(a + ScrubText(m, text), s)
    ensures Occurs(a + Scrub(text, m.secrets), s)
  {
    AppendNothing(ScrubText(m, text));
    AppendNothing(Scrub(text, m.secrets));
    PatternsMakeNone(a, Scrub(text, m.secrets), [], m.patterns, s);
  }

  lemma BeforeSwallowed(m: Masker, a: seq<byte>, text: seq<byte>, behind: seq<byte>, s: seq<byte>)
    requires Masked(s) && ApartFromMask(s) && !Occurs(behind, s)
    requires Occurs(a + (ScrubText(m, text) + MASK + behind), s)
    ensures Occurs(a + Scrub(text, m.secrets), s)
  {
    var out := ScrubText(m, text);
    Reassociate(out, MASK, behind);
    Reassociate(a, out, MASK + behind);
    AcrossMask(a + out, behind, s);
    LastPiece(m, a, text, s);
  }

  /** Somewhere in the output `out`, behind `a`, stands `s`; and also when only the secrets of
      some beginning of the text are masked, all at once. */
  ghost predicate Leads(m: Masker, a: seq<byte>, text: seq<byte>, s: seq<byte>, h: nat) {
    h <= |text| && Occurs(a + Scrub(text[..h], m.secrets), s)
  }

  lemma AfterPiece(m: Masker, a: seq<byte>, now: seq<byte>, rest: seq<byte>, p: Pushed, at: nat, s: seq<byte>, h: nat)
    requires Independent(m.secrets) && WellNested(now + rest, m.secrets) && Masked(s) && ApartFromMask(s)
    requires Emits(m, now, rest, p, at) && !p.state.swallowing
    requires Leads(m, a + p.out, p.state.pending + rest, s, h)
    ensures Leads(m, a, now + rest, s, at + h)
  {
    TakeInFront(now, rest, at);
    BehindCut(m, a, now, rest, at, h, s);
  }

  lemma AfterSwallowed(m: Masker, a: seq<byte>, now: seq<byte>, rest: seq<byte>, p: Pushed, at: nat,
                       behind: seq<byte>, s: seq<byte>)
    requires Masked(s) && ApartFromMask(s) && !Occurs(behind, s)
    requires Emits(m, now, rest, p, at) && p.state.swallowing && Occurs(a + (p.out + behind), s)
    ensures Leads(m, a, now + rest, s, at)
  {
    BeforeSwallowed(m, a, now[..at], behind, s);
    assert (now + rest)[..at] == now[..at];
  }

  lemma RestIsNested(now: seq<byte>, rest: seq<byte>, secrets: seq<seq<byte>>, at: nat)
    requires WellNested(now + rest, secrets) && at <= |now|
    ensures WellNested(rest, secrets) && WellNested(now[at..] + rest, secrets)
  {
    TakeInFront(now, rest, at);
    WellNestedTail(now + rest, secrets, at);
    assert (now + rest)[|now|..] == rest;
    WellNestedTail(now + rest, secrets, |now|);
  }

  /** An occurrence that shows in the output, behind `a`, shows in a beginning of the text. */
  lemma {:induction false} OutputLeads(m: Masker, a: seq<byte>, pending: seq<byte>, chunks: seq<seq<byte>>,
                                       s: seq<byte>)
    returns (h: nat)
    requires Independent(m.secrets) && WellNested(pending + Concat(chunks), m.secrets)
    requires NothingSplit(m, State(pending, false), chunks) && forall c | c in chunks :: StartsChar(c)
    requires s in m.secrets && Masked(s) && ApartFromMask(s)
    requires Occurs(a + StreamFrom(m, State(pending, false), chunks), s)
    ensures Leads(m, a, pending + Concat(chunks), s, h)
    decreases |chunks|, 0
  {
    if chunks == [] {
      h := |pending|;
      AppendNothing(pending);
      assert pending[..h] == pending;
      LastPiece(m, a, pending, s);
    } else {
      var p, at := StreamEmits(m, pending, chunks);
      h := PushLeads(m, a, pending + chunks[0], chunks[1..], p, at, s);
    }
  }

  /** The same for the output of one push and of the rest of the stream. */
  lemma PushLeads(m: Masker, a: seq<byte>, now: seq<byte>, chunks: seq<seq<byte>>, p: Pushed, at: nat, s: seq<byte>)
    returns (h: nat)
    requires Independent(m.secrets) && WellNested(now + Concat(chunks), m.secrets)
    requires Emits(m, now, Concat(chunks), p, at)
    requires NothingSplit(m, p.state, chunks) && forall c | c in chunks :: StartsChar(c)
    requires s in m.secrets && Masked(s) && ApartFromMask(s)
    requires Occurs(a + (p.out + StreamFrom(m, p.state, chunks)), s)
    ensures Leads(m, a, now + Concat(chunks), s, h)
    decreases |chunks|, 3
  {
    var rest, behind := Concat(chunks), StreamFrom(m, p.state, chunks);
    RestIsNested(now, rest, m.secrets, at);
    if p.state.swallowing {
      SwallowedHides(m, chunks, s);
      h := at;
      AfterSwallowed(m, a, now, rest, p, at, behind, s);
    } else {
      Reassociate(a, p.out, behind);
      h := OutputLeads(m, a + p.out, p.state.pending, chunks, s);
      AfterPiece(m, a, now, rest, p, at, s, h);
      h := at + h;
    }
  }

  lemma OutputHides(m: Masker, chunks: seq<seq<byte>>, s: seq<byte>)
    requires Independent(m.secrets) && WellNested(Concat(chunks), m.secrets)
    requires NothingSplit(m, IDLE, chunks) && forall c | c in chunks :: StartsChar(c)
    requires s in m.secrets && Masked(s) && ApartFromMask(s)
    ensures !Occurs(StreamFrom(m, IDLE, chunks), s)
    decreases |chunks|, 1
  {
    var none: seq<byte> := [];
    PrependNothing(Concat(chunks));
    if Occurs(StreamFrom(m, IDLE, chunks), s) {
      PrependNothing(StreamFrom(m, IDLE, chunks));
      var h := OutputLeads(m, none, none, chunks, s);
      PrependNothing(Scrub(Concat(chunks)[..h], m.secrets));
      PassesMakeNone(Concat(chunks)[..h], m.secrets, s);
    }
  }

  lemma WhitespaceStartsChar(text: seq<byte>, i: nat)
    requires i <= |text| && (i == |text| || WhitespaceAt(text, i) > 0)
    ensures StartsChar(text[i..])
  {
  }

  lemma Resumed(m: Masker, chunks: seq<seq<byte>>, end: nat)
    requires chunks != [] && end == FindWhitespace(chunks[0], 0)
    ensures var resumed := [chunks[0][end..]] + chunks[1..];
            && Concat(resumed) == Concat(chunks)[end..] && end <= |Concat(chunks)|
            && StreamFrom(m, State([], true), chunks) ==
               if end == |chunks[0]| then StreamFrom(m, State([], true), chunks[1..]) else StreamFrom(m, IDLE, resumed)
  {
    var resumed := [chunks[0][end..]] + chunks[1..];
    assert resumed[1..] == chunks[1..];
    TakeInFront(chunks[0], Concat(chunks[1..]), end);
    PrependNothing(StreamFrom(m, State([], true), chunks[1..]));
  }

  lemma ResumedRun(m: Masker, chunks: seq<seq<byte>>, end: nat)
    requires chunks != [] && end == FindWhitespace(chunks[0], 0) && NothingSplit(m, State([], true), chunks)
    ensures if end == |chunks[0]| then NothingSplit(m, State([], true), chunks[1..])
            else NothingSplit(m, IDLE, [chunks[0][end..]] + chunks[1..])
  {
    var resumed := [chunks[0][end..]] + chunks[1..];
    assert resumed[1..] == chunks[1..];
  }

  /** Behind a swallowed match nothing shows either, be it that the text goes on or not. */
  lemma {:induction false} SwallowedHides(m: Masker, chunks: seq<seq<byte>>, s: seq<byte>)
    requires Independent(m.secrets) && WellNested(Concat(chunks), m.secrets)
    requires NothingSplit(m, State([], true), chunks) && forall c | c in chunks :: StartsChar(c)
    requires s in m.secrets && Masked(s) && ApartFromMask(s)
    ensures !Occurs(StreamFrom(m, State([], true), chunks), s)
    decreases |chunks|, 2
  {
    if chunks == [] {
      NoSecretSurvives(m, [], s);
    } else {
      var end := FindWhitespace(chunks[0], 0);
      Resumed(m, chunks, end);
      ResumedRun(m, chunks, end);
      WellNestedTail(Concat(chunks), m.secrets, end);
      if end == |chunks[0]| {
        PrependNothing(Concat(chunks[1..]));
        SwallowedHides(m, chunks[1..], s);
      } else {
        WhitespaceStartsChar(chunks[0], end);
        OutputHides(m, [chunks[0][end..]] + chunks[1..], s);
      }
    }
  }

  lemma PrependNothing<T>(s: seq<T>)
    ensures [] + s == s
  {
  }

  /** Whatever the patterns are and whatever they find, a stream lets no masked secret through that no
      push cuts: not across cuts, not beside masks, and not around a match that is swallowed. */
  lemma {:induction false} StreamLeaksNoSecret(m: Masker, chunks: seq<seq<byte>>, s: seq<byte>)
    requires Independent(m.secrets) && WellNested(Concat(chunks), m.secrets)
    requires NothingSplit(m, IDLE, chunks) && forall c | c in chunks :: Valid(c)
    requires s in m.secrets && Masked(s) && ApartFromMask(s)
    ensures !Occurs(StreamFrom(m, IDLE, chunks), s)
  {
    forall c | c in chunks ensures StartsChar(c) {
      ValidStartsChar(c);
    }
    OutputHides(m, chunks, s);
  }

  // ---- What can be asked of a text ----

  /** The matches of patterns do not half overlap those of secrets, and what is kept stays within the
      limit unless the match at the end may go on. */
  ghost predicate Maskable(m: Masker, text: seq<byte>) {
    SecretsApart(m, text) && (Fits(m, text) || AnyAtEnd(MatchRanges(m, text), |text|))
  }

  ghost predicate AllMaskable(m: Masker, text: seq<byte>) {
    forall lo: nat, hi: nat | lo <= hi <= |text| :: Maskable(m, text[lo..hi])
  }

  lemma AllMaskableSlice(m: Masker, text: seq<byte>, lo: nat, hi: nat)
    requires AllMaskable(m, text) && lo <= hi <= |text|
    ensures AllMaskable(m, text[lo..hi]) && Maskable(m, text[lo..hi])
  {
    forall i: nat, j: nat | i <= j <= hi - lo ensures Maskable(m, text[lo..hi][i..j]) {
      SliceOfSlice(text, lo, hi, i, j);
    }
  }

  lemma FrontIsWhole(m: Masker, now: seq<byte>, rest: seq<byte>)
    requires AllMaskable(m, now + rest) && WellNested(now + rest, m.secrets)
    ensures KeepsWhole(m, now)
  {
    AllMaskableSlice(m, now + rest, 0, |now|);
    WellNestedSlice(now + rest, m.secrets, 0, |now|);
    assert (now + rest)[0..|now|] == now;
    ApartKeepsWhole(m, now);
  }

  lemma TailIsMaskable(m: Masker, text: seq<byte>, n: nat)
    requires AllMaskable(m, text) && WellNested(text, m.secrets) && n <= |text|
    ensures AllMaskable(m, text[n..]) && WellNested(text[n..], m.secrets)
  {
    AllMaskableSlice(m, text, n, |text|);
    WellNestedTail(text, m.secrets, n);
    assert text[n..|text|] == text[n..];
  }

  lemma ReleaseKeepsTail(m: Masker, now: seq<byte>) returns (n: nat)
    ensures n <= |now| && Release(m, now).state.pending == now[n..]
    ensures Release(m, now).state.swallowing ==> Release(m, now).state.pending == []
  {
    ReleaseIs(m, now);
    n := if Swallows(m, now) then |now| else CutAt(m, now);
  }

  lemma PushIsRelease(m: Masker, st: State, chunk: seq<byte>)
    requires st.swallowing ==> st.pending == []
    ensures PushChunk(m, st, chunk).state ==
            if st.swallowing && FindWhitespace(chunk, 0) == |chunk| then st else Release(m, Now(st, chunk)).state
  {
  }

  /** What stays pending, with what follows, is a tail of the text. */
  lemma PendingIsTail(m: Masker, st: State, chunk: seq<byte>, rest: seq<byte>, now: seq<byte>, next: State)
    returns (n: nat)
    requires st.swallowing ==> st.pending == []
    requires now == Now(st, chunk) && next == PushChunk(m, st, chunk).state
    ensures n <= |now| && (next.swallowing ==> next.pending == []) && next.pending + rest == (now + rest)[n..]
  {
    PushIsRelease(m, st, chunk);
    if st.swallowing && FindWhitespace(chunk, 0) == |chunk| {
      n := 0;
    } else {
      n := ReleaseKeepsTail(m, now);
      TakeInFront(now, rest, n);
    }
  }

  lemma NowIsTail(st: State, chunk: seq<byte>, rest: seq<byte>) returns (n: nat)
    requires st.swallowing ==> st.pending == []
    ensures n <= |st.pending + (chunk + rest)| && Now(st, chunk) + rest == (st.pending + (chunk + rest))[n..]
  {
    n := if st.swallowing then FindWhitespace(chunk, 0) else 0;
    TakeInFront(chunk, rest, n);
    if st.swallowing {
      PrependNothing(chunk + rest);
      PrependNothing(chunk[n..]);
    } else {
      Reassociate(st.pending, chunk, rest);
    }
  }

  /** If every stretch of the text is maskable, no chunking makes a push cut through a secret. */
  lemma {:induction false} MaskableIsNotSplit(m: Masker, st: State, chunks: seq<seq<byte>>)
    requires st.swallowing ==> st.pending == []
    requires AllMaskable(m, st.pending + Concat(chunks)) && WellNested(st.pending + Concat(chunks), m.secrets)
    ensures NothingSplit(m, st, chunks)
    decreases |chunks|
  {
    if chunks != [] {
      var rest, now := Concat(chunks[1..]), Now(st, chunks[0]);
      var n := NowIsTail(st, chunks[0], rest);
      TailIsMaskable(m, st.pending + (chunks[0] + rest), n);
      FrontIsWhole(m, now, rest);
      var next := PushChunk(m, st, chunks[0]).state;
      n := PendingIsTail(m, st, chunks[0], rest, now, next);
      TailIsMaskable(m, now + rest, n);
      MaskableIsNotSplit(m, next, chunks[1..]);
    }
  }

  /** Where no pattern matches, secrets that fit the hold-back are all it takes. */
  lemma QuietIsMaskable(m: Masker, text: seq<byte>)
    requires Quiet(m, text) && WellNested(text, m.secrets) && HoldBackFits(m.secrets)
    ensures AllMaskable(m, text)
  {
    forall lo: nat, hi: nat | lo <= hi <= |text| ensures Maskable(m, text[lo..hi]) {
      QuietSlice(m, text, lo, hi);
      WellNestedSlice(text, m.secrets, lo, hi);
      NoRanges(m.patterns, text[lo..hi]);
      HoldBackAlwaysFits(m, text[lo..hi]);
    }
  }

  /** For every chunking of such a text. */
  lemma {:induction false} MaskableTextLeaksNoSecret(m: Masker, chunks: seq<seq<byte>>, s: seq<byte>)
    requires Independent(m.secrets) && WellNested(Concat(chunks), m.secrets) && AllMaskable(m, Concat(chunks))
    requires s in m.secrets && Masked(s) && ApartFromMask(s) && forall c | c in chunks :: Valid(c)
    ensures !Occurs(StreamFrom(m, IDLE, chunks), s)
  {
    PrependNothing(Concat(chunks));
    MaskableIsNotSplit(m, IDLE, chunks);
    StreamLeaksNoSecret(m, chunks, s);
  }

  // ---- Patterns that match nothing ----

  /** The same secrets without patterns. */
  function Plainly(m: Masker): Masker {
    m.(patterns := [])
  }

  lemma QuietPiece(m: Masker, now: seq<byte>, b: nat)
    requires Quiet(m, now) && b <= |now|
    ensures ScrubText(m, now[..b]) == ScrubText(Plainly(m), now[..b])
  {
    TakeAndDrop(now, b);
    QuietFront(m, now[..b], now[b..]);
    NothingFound(m.patterns, Scrub(now[..b], m.secrets));
  }

  lemma QuietMatches(m: Masker, now: seq<byte>)
    requires Quiet(m, now)
    ensures MatchRanges(m, now) == MatchRanges(Plainly(m), now)
  {
    QuietTail(m, now, 0);
    assert now[0..] == now;
    NoRanges(m.patterns, now);
  }

  lemma SameReleaseAt(m: Masker, now: seq<byte>, b: nat, limit: nat, matches: seq<Range>)
    requires Quiet(m, now) && b <= |now|
    ensures ReleaseAt(m, now, b, limit, matches) == ReleaseAt(Plainly(m), now, b, limit, matches)
  {
    QuietPiece(m, now, b);
    QuietPiece(m, now, StartAtEnd(matches, |now|));
    if |now| - b > limit {
      QuietPiece(m, now, CeilBoundary(now, |now| - limit));
    }
  }

  lemma SameRelease(m: Masker, now: seq<byte>)
    requires Quiet(m, now)
    ensures Release(m, now) == Release(Plainly(m), now)
  {
    QuietMatches(m, now);
    SameReleaseAt(m, now, CutPoint(m, now), Limit(m.secrets), MatchRanges(m, now));
  }

  lemma SamePush(m: Masker, st: State, chunk: seq<byte>)
    requires (st.swallowing ==> st.pending == []) && Quiet(m, Now(st, chunk))
    ensures PushChunk(m, st, chunk) == PushChunk(Plainly(m), st, chunk)
  {
    SameRelease(m, Now(st, chunk));
  }

  /** A stream in which no pattern matches is one without patterns. */
  lemma {:induction false} QuietStream(m: Masker, st: State, chunks: seq<seq<byte>>)
    requires (st.swallowing ==> st.pending == []) && Quiet(m, st.pending + Concat(chunks))
    ensures StreamFrom(m, st, chunks) == StreamFrom(Plainly(m), st, chunks)
    decreases |chunks|
  {
    if chunks == [] {
      AppendNothing(st.pending);
      QuietPiece(m, st.pending, |st.pending|);
      assert st.pending[..|st.pending|] == st.pending;
    } else {
      var rest, now := Concat(chunks[1..]), Now(st, chunks[0]);
      var n := NowIsTail(st, chunks[0], rest);
      QuietTail(m, st.pending + (chunks[0] + rest), n);
      QuietFront(m, now, rest);
      SamePush(m, st, chunks[0]);
      var next := PushChunk(m, st, chunks[0]).state;
      n := PendingIsTail(m, st, chunks[0], rest, now, next);
      QuietTail(m, now + rest, n);
      QuietStream(m, next, chunks[1..]);
    }
  }
}
