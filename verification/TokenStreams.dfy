/** Tokens in a stream: what the bytes that keys and tokens are made of make a push hold back, and that
    tokens and token-like secrets are masked like in the whole text, however the text is chunked. */
module TokenStreams {
  import opened Bytes
  import opened Utf8
  import opened Scrubber
  import opened StreamScrubbing
  import opened StreamCuts
  import opened StreamMasking

  /** What keys, tokens and passwords are made of. */
  predicate OfToken(b: byte) {
    var c := b as char;
    || 'a' <= c <= 'z' || 'A' <= c <= 'Z' || '0' <= c <= '9'
    || c in ['-', '_', '+', '/', '=', '.', ':', '@', '%', '~']
  }

  predicate AllOfToken(s: seq<byte>) {
    forall i | 0 <= i < |s| :: OfToken(s[i])
  }

  /** No token goes on behind `x`. */
  predicate EndsOutside(x: seq<byte>) {
    x == [] || !OfToken(x[|x| - 1])
  }

  // ---- What a push holds back ----

  lemma SameByte(b: byte)
    ensures OfToken(b) <==> IsTokenByte(b)
  {
  }

  lemma TokenRunGoesOn(text: seq<byte>, last: byte)
    requires text != [] && last == text[|text| - 1]
    ensures TokenRun(text) == if OfToken(last) then 1 + TokenRun(text[..|text| - 1]) else 0
  {
    SameByte(last);
  }

  lemma NoTokenRun(head: seq<byte>)
    requires EndsOutside(head)
    ensures TokenRun(head) == 0
  {
    if head != [] {
      TokenRunGoesOn(head, head[|head| - 1]);
    }
  }

  lemma {:induction false} RunOfToken(head: seq<byte>, run: seq<byte>)
    requires AllOfToken(run)
    ensures TokenRun(head + run) == |run| + TokenRun(head)
    ensures EndsOutside(head) ==> TokenRun(head + run) == |run|
    decreases |run|
  {
    if run == [] {
      assert head + run == head;
    } else {
      var n := |run| - 1;
      assert OfToken(run[n]) && AllOfToken(run[..n]);
      RunOfToken(head, run[..n]);
      assert (head + run)[..|head + run| - 1] == head + run[..n] && (head + run)[|head + run| - 1] == run[n];
      TokenRunGoesOn(head + run, run[n]);
    }
    if EndsOutside(head) {
      NoTokenRun(head);
    }
  }

  /** A token still being written stays; of an overlong one, its last 256 bytes. */
  lemma {:induction false} TokensAreHeld(m: Masker, head: seq<byte>, run: seq<byte>)
    requires AllOfToken(run)
    ensures CutPoint(m, head + run) <= |head| + Max(0, |run| - 256)
  {
    RunOfToken(head, run);
    CutForBelow(head + run, HeldBack(head + run, m.secrets), MatchRanges(m, head + run));
  }

  /** And nothing more, where nothing matches and no secret begins at the end. */
  lemma {:induction false} OnlyTokensAreHeld(m: Masker, head: seq<byte>, run: seq<byte>)
    requires AllOfToken(run) && EndsOutside(head) && MatchRanges(m, head + run) == []
    requires forall s, k | s in m.secrets && 0 < k < |s| :: !EndsWith(head + run, s[..k])
    ensures CutPoint(m, head + run) == |head| + Max(0, |run| - 256)
  {
    RunOfToken(head, run);
    NothingBegun(head + run, m.secrets);
    TokenOnChar(head, run, Max(0, |run| - 256));
  }

  lemma TokenOnChar(head: seq<byte>, run: seq<byte>, k: nat)
    requires AllOfToken(run) && k <= |run|
    ensures FloorBoundary(head + run, |head| + k) == |head| + k
  {
    assert k < |run| ==> (head + run)[|head| + k] == run[k] && OfToken(run[k]);
  }

  lemma NothingBegun(text: seq<byte>, secrets: seq<seq<byte>>)
    requires forall s, k | s in secrets && 0 < k < |s| :: !EndsWith(text, s[..k])
    ensures LongestPartial(text, secrets) == 0
  {
    LongestPartialBounds(text, secrets);
    forall s | s in secrets ensures PartialSecret(text, s) == 0 {
      var k := PartialSecret(text, s);
      assert k > 0 ==> EndsInPrefix(text, s, k);
    }
  }

  /** What may be the beginning of a secret stays too, also of one that is too short to be masked. */
  lemma {:induction false} SecretsAreHeld(m: Masker, text: seq<byte>, s: seq<byte>, k: nat)
    requires s in m.secrets && k < |s| && IsCharBoundary(s, k) && EndsWith(text, s[..k])
    ensures CutPoint(m, text) <= |text| - k
  {
    LongestPartialBounds(text, m.secrets);
    assert EndsInPrefix(text, s, k);
    assert PartialSecret(text, s) >= k;
    CutForBelow(text, HeldBack(text, m.secrets), MatchRanges(m, text));
  }

  // ---- A match made of such bytes ----

  lemma {:induction false} LowerClearOf(rs: seq<Range>, r: Range, b: nat, len: nat)
    requires r in rs || Clear(b, r, len)
    requires r.end <= len && forall t | t in rs :: Apart(t, r) && t.end <= len
    ensures Clear(Lower(rs, b, len), r, len)
    decreases |rs|
  {
    if rs != [] {
      if Clear(b, r, len) {
        StaysClear(b, rs[0], r, len);
      }
      LowerClearOf(rs[1..], r, LowerOnce(rs[0], b, len), len);
    }
  }

  /** `text[lo..hi]` is a match of up to 256 such bytes in every stretch that shows it and what is behind
      it, no other match half overlaps it there, and the limit is not in the way. */
  ghost predicate Stands(m: Masker, text: seq<byte>, lo: nat, hi: nat) {
    && lo <= hi <= |text| && hi - lo <= 256 && AllOfToken(text[lo..hi])
    && InEvery(Showing(m), text, lo, hi)
  }

  /** A place in a text. */
  datatype Place = Place(text: seq<byte>, lo: nat, hi: nat)

  ghost predicate InEvery(kind: Place -> bool, text: seq<byte>, lo: nat, hi: nat)
    requires lo <= hi
  {
    forall a: nat, b: nat | a <= lo && a <= b <= |text| :: InStretch(kind, text, a, b, lo, hi)
  }

  ghost predicate InStretch(kind: Place -> bool, text: seq<byte>, a: nat, b: nat, lo: nat, hi: nat)
    requires a <= lo <= hi && a <= b <= |text|
  {
    kind(Place(text[a..b], lo - a, hi - a))
  }

  ghost function Showing(m: Masker): Place -> bool {
    (p: Place) => Shows(m, p.text, p.lo, p.hi)
  }

  ghost predicate Shows(m: Masker, stretch: seq<byte>, lo: nat, hi: nat) {
    && Fits(m, stretch)
    && (hi < |stretch| ==>
          && Range(lo, hi) in MatchRanges(m, stretch)
          && forall t | t in MatchRanges(m, stretch) :: Apart(t, Range(lo, hi)))
  }

  /** Where each push cuts its pending text; -1 if it swallows. */
  ghost function CutsOf(m: Masker): seq<byte> -> int {
    now => if Swallows(m, now) then -1 else CutAt(m, now)
  }

  /** No push cuts between `lo` and `hi`. */
  ghost predicate StaysWhole(cut: seq<byte> -> int, pending: seq<byte>, chunks: seq<seq<byte>>, lo: nat, hi: nat)
    requires lo <= hi
    decreases |chunks|
  {
    chunks == []
    || (var now := pending + chunks[0];
        && 0 <= cut(now) <= |now| && !(lo < cut(now) < hi)
        && (cut(now) <= lo ==> StaysWhole(cut, now[cut(now)..], chunks[1..], lo - cut(now), hi - cut(now))))
  }

  lemma InEveryBehind(kind: Place -> bool, text: seq<byte>, lo: nat, hi: nat, at: nat)
    requires lo <= hi && at <= lo && at <= |text| && InEvery(kind, text, lo, hi)
    ensures InEvery(kind, text[at..], lo - at, hi - at)
  {
    var rest, lo', hi' := text[at..], lo - at, hi - at;
    forall a: nat, b: nat | a <= lo' && a <= b <= |rest| ensures InStretch(kind, rest, a, b, lo', hi') {
      assert InStretch(kind, text, at + a, at + b, lo, hi);
      SliceOfSlice(text, at, |text|, a, b);
      assert text[at..|text|] == rest;
    }
  }

  lemma StandsBehind(m: Masker, text: seq<byte>, lo: nat, hi: nat, at: nat)
    requires Stands(m, text, lo, hi) && at <= lo
    ensures Stands(m, text[at..], lo - at, hi - at)
  {
    assert text[at..][lo - at..hi - at] == text[lo..hi];
    InEveryBehind(Showing(m), text, lo, hi, at);
  }

  lemma CutOutsideMatch(m: Masker, now: seq<byte>, text: seq<byte>, lo: nat, hi: nat)
    requires Stands(m, text, lo, hi) && IsPrefix(now, text)
    ensures !Swallows(m, now) && !(lo < CutAt(m, now) < hi)
  {
    ShownInFront(m, now, text, lo, hi);
    if hi < |now| {
      ShownIsNotCut(m, now, lo, hi);
    } else if lo < |now| {
      FrontOfToken(now, text, lo, hi);
      GrowingIsNotCut(m, now, lo);
    }
  }

  lemma ShownInFront(m: Masker, now: seq<byte>, text: seq<byte>, lo: nat, hi: nat)
    requires lo <= hi && InEvery(Showing(m), text, lo, hi) && IsPrefix(now, text)
    ensures Shows(m, now, lo, hi)
  {
    assert text[0..|now|] == now;
    assert InStretch(Showing(m), text, 0, |now|, lo, hi);
  }

  lemma FrontOfToken(now: seq<byte>, text: seq<byte>, lo: nat, hi: nat)
    requires IsPrefix(now, text) && lo < |now| <= hi <= |text| && AllOfToken(text[lo..hi])
    ensures AllOfToken(now[lo..])
  {
    forall i | 0 <= i < |now| - lo ensures OfToken(now[lo..][i]) {
      assert now[lo..][i] == text[..|now|][lo + i] == text[lo..hi][i];
    }
  }

  lemma ShownIsNotCut(m: Masker, now: seq<byte>, lo: nat, hi: nat)
    requires hi < |now| && Shows(m, now, lo, hi)
    ensures !Swallows(m, now) && !(lo < CutAt(m, now) < hi)
  {
    var from := FloorBoundary(now, |now| - HeldBack(now, m.secrets));
    LowerClearOf(MatchRanges(m, now), Range(lo, hi), from, |now|);
  }

  lemma GrowingIsNotCut(m: Masker, now: seq<byte>, lo: nat)
    requires Fits(m, now) && lo < |now| <= lo + 256 && AllOfToken(now[lo..])
    ensures !Swallows(m, now) && CutAt(m, now) <= lo
  {
    TakeAndDrop(now, lo);
    TokensAreHeld(m, now[..lo], now[lo..]);
  }

  /** A push does not cut inside of the place, and it is still of the same kind behind the cut. */
  ghost predicate Outside(cut: seq<byte> -> int, kind: Place -> bool, now: seq<byte>, rest: seq<byte>,
                          lo: nat, hi: nat)
  {
    var at := cut(now);
    && lo <= hi && 0 <= at <= |now| && !(lo < at < hi)
    && (at <= lo ==> kind(Place(now[at..] + rest, lo - at, hi - at)))
  }

  lemma {:induction false} KindStaysWhole(cut: seq<byte> -> int, kind: Place -> bool, pending: seq<byte>,
                                          chunks: seq<seq<byte>>, lo: nat, hi: nat)
    requires forall now, rest, lo: nat, hi: nat | kind(Place(now + rest, lo, hi)) ::
               Outside(cut, kind, now, rest, lo, hi)
    requires lo <= hi && kind(Place(pending + Concat(chunks), lo, hi))
    ensures StaysWhole(cut, pending, chunks, lo, hi)
    decreases |chunks|
  {
    if chunks != [] {
      var now, rest := pending + chunks[0], Concat(chunks[1..]);
      Reassociate(pending, chunks[0], rest);
      assert Outside(cut, kind, now, rest, lo, hi);
      var at := cut(now);
      if at <= lo {
        KindStaysWhole(cut, kind, now[at..], chunks[1..], lo - at, hi - at);
      }
    }
  }

  lemma OutsideIs(cut: seq<byte> -> int, kind: Place -> bool, now: seq<byte>, rest: seq<byte>, at: nat,
                  lo: nat, hi: nat)
    requires lo <= hi && cut(now) == at <= |now| && !(lo < at < hi)
    requires at <= lo ==> kind(Place(now[at..] + rest, lo - at, hi - at))
    ensures Outside(cut, kind, now, rest, lo, hi)
  {
  }

  ghost function Standing(m: Masker): Place -> bool {
    (p: Place) => Stands(m, p.text, p.lo, p.hi)
  }

  lemma CutsOutside(m: Masker, now: seq<byte>, rest: seq<byte>, lo: nat, hi: nat) returns (at: nat)
    requires Stands(m, now + rest, lo, hi)
    ensures CutsOf(m)(now) == at <= |now| && !(lo < at < hi)
  {
    assert (now + rest)[..|now|] == now;
    CutOutsideMatch(m, now, now + rest, lo, hi);
    at := CutAt(m, now);
  }

  lemma StillStands(m: Masker, now: seq<byte>, rest: seq<byte>, at: nat, lo: nat, hi: nat)
    requires Standing(m)(Place(now + rest, lo, hi)) && at <= lo <= hi && at <= |now|
    ensures Standing(m)(Place(now[at..] + rest, lo - at, hi - at))
  {
    StandsBehind(m, now + rest, lo, hi, at);
    TakeInFront(now, rest, at);
  }

  lemma StandsOutside(m: Masker, now: seq<byte>, rest: seq<byte>, lo: nat, hi: nat)
    requires lo <= hi && Standing(m)(Place(now + rest, lo, hi))
    ensures Outside(CutsOf(m), Standing(m), now, rest, lo, hi)
  {
    var at := CutsOutside(m, now, rest, lo, hi);
    if at <= lo {
      StillStands(m, now, rest, at, lo, hi);
    }
    OutsideIs(CutsOf(m), Standing(m), now, rest, at, lo, hi);
  }

  /** Such a match is never cut by a push, whatever the chunks. */
  lemma {:induction false} TokenIsNotCut(m: Masker, chunks: seq<seq<byte>>, lo: nat, hi: nat)
    requires lo <= hi && Stands(m, Concat(chunks), lo, hi)
    ensures StaysWhole(CutsOf(m), [], chunks, lo, hi)
  {
    forall now, rest, lo: nat, hi: nat | Standing(m)(Place(now + rest, lo, hi))
      ensures Outside(CutsOf(m), Standing(m), now, rest, lo, hi)
    {
      StandsOutside(m, now, rest, lo, hi);
    }
    PrependNothing(Concat(chunks));
    KindStaysWhole(CutsOf(m), Standing(m), [], chunks, lo, hi);
  }

  // ---- Secrets and patterns made of such bytes ----

  /** A pattern that matches within tokens: what it finds before a byte that is in no token does not
      depend on what is behind, nor the other way round. */
  ghost predicate WithinTokens(p: Pattern) {
    p([]) == [] && forall x, y | x != [] && EndsOutside(x) :: FoundApart(p, x, y)
  }

  ghost predicate FoundApart(p: Pattern, x: seq<byte>, y: seq<byte>) {
    p(x + y) == p(x) + Shift(p(y), |x|) && forall r | r in p(x) :: r.end < |x|
  }

  /** All the masker looks for is made of such bytes. */
  ghost predicate OnTokens(m: Masker) {
    && (forall s | s in m.secrets :: AllOfToken(s))
    && forall i | 0 <= i < |m.patterns| :: WithinTokens(m.patterns[i])
  }

  lemma PrefixInside(x: seq<byte>, y: seq<byte>, s: seq<byte>)
    requires x != [] && EndsOutside(x) && AllOfToken(s)
    ensures IsPrefix(s, x + y) <==> IsPrefix(s, x)
    ensures IsPrefix(s, x) ==> |s| < |x|
  {
    if IsPrefix(s, x + y) && |s| >= |x| {
      PrefixAt(s, x + y, |x| - 1);
    }
    if |s| < |x| {
      assert (x + y)[..|s|] == x[..|s|];
    }
  }

  /** What one step of the pass puts in place of how many bytes. */
  lemma ReplaceStep(x: seq<byte>, y: seq<byte>, s: seq<byte>) returns (n: nat, piece: seq<byte>)
    requires x != [] && EndsOutside(x) && AllOfToken(s) && s != []
    ensures 0 < n <= |x| && (n == |x| ==> EndsOutside(piece)) && piece != []
    ensures Replace(x, s) == piece + Replace(x[n..], s) && Replace(x + y, s) == piece + Replace(x[n..] + y, s)
  {
    PrefixInside(x, y, s);
    n, piece := if IsPrefix(s, x) then |s| else 1, if IsPrefix(s, x) then MASK else [x[0]];
    assert (x + y)[n..] == x[n..] + y && (x + y)[0] == x[0];
  }

  lemma {:induction false} ReplaceApart(x: seq<byte>, y: seq<byte>, s: seq<byte>)
    requires EndsOutside(x) && AllOfToken(s) && s != []
    ensures Replace(x + y, s) == Replace(x, s) + Replace(y, s) && EndsOutside(Replace(x, s))
    ensures x != [] ==> Replace(x, s) != []
    decreases |x|
  {
    if x == [] {
      PrependNothing(y);
      PrependNothing(Replace(y, s));
    } else {
      var n, piece := ReplaceStep(x, y, s);
      assert EndsOutside(x[n..]);
      ReplaceApart(x[n..], y, s);
      Reassociate(piece, Replace(x[n..], s), Replace(y, s));
      AppendNothing(piece);
    }
  }

  lemma {:induction false} ScrubApart(x: seq<byte>, y: seq<byte>, secrets: seq<seq<byte>>)
    requires EndsOutside(x) && forall s | s in secrets :: AllOfToken(s)
    ensures Scrub(x + y, secrets) == Scrub(x, secrets) + Scrub(y, secrets) && EndsOutside(Scrub(x, secrets))
    decreases |secrets|
  {
    if secrets != [] {
      var s := secrets[0];
      if Masked(s) {
        ReplaceApart(x, y, s);
        ScrubApart(Replace(x, s), Replace(y, s), secrets[1..]);
      } else {
        ScrubApart(x, y, secrets[1..]);
      }
    }
  }

  lemma {:induction false} RestStays(x: seq<byte>, rs: seq<Range>, from: nat)
    requires Ordered(rs, from, |x|) && x != [] && from < |x| && forall r | r in rs :: r.end < |x|
    ensures var r := ReplaceRanges(x, rs, from); r != [] && r[|r| - 1] == x[|x| - 1]
    decreases |rs|
  {
    if rs != [] {
      OrderedBounds(rs, from, |x|);
      RestStays(x, rs[1..], rs[0].end);
    }
  }

  lemma {:induction false} ShiftByNothing(rs: seq<Range>)
    ensures Shift(rs, 0) == rs
  {
    if rs != [] {
      ShiftByNothing(rs[1..]);
    }
  }

  lemma PatternSeparates(p: Pattern, x: seq<byte>, y: seq<byte>)
    requires EndsOutside(x) && WithinTokens(p)
    ensures p(x + y) == p(x) + Shift(p(y), |x|) && EndsOutside(ReplaceMatches(x, p))
  {
    assert FindsMatches(p);
    if x == [] {
      PrependNothing(y);
      ShiftByNothing(p(y));
      PrependNothing(p(y));
      NothingToReplace(p, x);
    } else {
      assert FoundApart(p, x, y);
      RestStays(x, p(x), 0);
    }
  }

  lemma {:induction false} TokensSeparate(patterns: seq<Pattern>, x: seq<byte>, y: seq<byte>)
    requires EndsOutside(x) && forall i | 0 <= i < |patterns| :: WithinTokens(patterns[i])
    ensures Separate(patterns, x, y)
    decreases |patterns|
  {
    if patterns != [] {
      PatternSeparates(patterns[0], x, y);
      TokensSeparate(patterns[1..], ReplaceMatches(x, patterns[0]), ReplaceMatches(y, patterns[0]));
    }
  }

  lemma PrependNothing<T>(s: seq<T>)
    ensures [] + s == s
  {
  }

  /** Masking the whole is masking the two sides of a place where no token goes on. */
  lemma MaskedApart(m: Masker, x: seq<byte>, y: seq<byte>)
    requires OnTokens(m) && EndsOutside(x)
    ensures ScrubText(m, x + y) == ScrubText(m, x) + ScrubText(m, y)
  {
    ScrubApart(x, y, m.secrets);
    TokensSeparate(m.patterns, Scrub(x, m.secrets), Scrub(y, m.secrets));
    SeparatePasses(m.patterns, Scrub(x, m.secrets), Scrub(y, m.secrets));
  }

  // ---- Where such a text is cut ----

  lemma {:induction false} LastToken(text: seq<byte>) returns (x: seq<byte>, run: seq<byte>)
    ensures text == x + run && EndsOutside(x) && AllOfToken(run)
  {
    x, run := text, [];
    if text != [] && OfToken(text[|text| - 1]) {
      x, run := LastToken(text[..|text| - 1]);
      run := run + [text[|text| - 1]];
    }
  }

  lemma SecretInToken(x: seq<byte>, run: seq<byte>, secrets: seq<seq<byte>>, r: Range)
    requires EndsOutside(x) && (forall s | s in secrets :: AllOfToken(s)) && r in SecretRanges(x + run, secrets)
    ensures Clear(|x|, r, |x + run|)
  {
    var s := RangeOwner(x + run, secrets, r);
    ByteOf(x + run, s, r.start, |x| - 1);
  }

  lemma ByteOf(text: seq<byte>, s: seq<byte>, start: nat, i: int)
    requires OccursAt(text, s, start)
    ensures start <= i < start + |s| ==> s[i - start] == text[i]
  {
    if start <= i < start + |s| {
      assert text[start..start + |s|][i - start] == text[i];
    }
  }

  lemma {:induction false} ShiftedBehind(rs: seq<Range>, n: nat)
    ensures forall r | r in Shift(rs, n) :: n <= r.start
  {
    if rs != [] {
      ShiftedBehind(rs[1..], n);
    }
  }

  lemma {:induction false} MatchesInToken(x: seq<byte>, run: seq<byte>, patterns: seq<Pattern>)
    requires EndsOutside(x) && forall i | 0 <= i < |patterns| :: WithinTokens(patterns[i])
    ensures forall r | r in PatternRanges(x + run, patterns) :: Clear(|x|, r, |x + run|)
  {
    if patterns != [] {
      MatchesOfOne(x, run, patterns[0]);
      MatchesInToken(x, run, patterns[1..]);
    }
  }

  lemma MatchesOfOne(x: seq<byte>, run: seq<byte>, p: Pattern)
    requires EndsOutside(x) && WithinTokens(p)
    ensures forall r | r in p(x + run) :: Clear(|x|, r, |x + run|)
  {
    if x != [] {
      assert FoundApart(p, x, run);
      ShiftedBehind(p(run), |x|);
    }
  }

  lemma {:induction false} ClearStays(rs: seq<Range>, b: nat, len: nat)
    requires forall r | r in rs :: Clear(b, r, len)
    ensures Lower(rs, b, len) == b
    decreases |rs|
  {
    if rs != [] {
      assert Clear(b, rs[0], len);
      ClearStays(rs[1..], b, len);
    }
  }

  lemma PartialInToken(x: seq<byte>, run: seq<byte>, secrets: seq<seq<byte>>)
    requires EndsOutside(x) && forall s | s in secrets :: AllOfToken(s)
    ensures LongestPartial(x + run, secrets) <= |run|
  {
    LongestPartialBounds(x + run, secrets);
    forall s | s in secrets ensures PartialSecret(x + run, s) <= |run| {
      var k := PartialSecret(x + run, s);
      if k > 0 {
        assert EndsInPrefix(x + run, s, k);
        EndInToken(x, run, s[..k]);
      }
    }
  }

  lemma EndInToken(x: seq<byte>, run: seq<byte>, s: seq<byte>)
    requires EndsOutside(x) && AllOfToken(s) && EndsWith(x + run, s)
    ensures |s| <= |run|
  {
    if |s| > |run| {
      SameTail(x, run, s);
    }
  }

  lemma SameTail(x: seq<byte>, run: seq<byte>, s: seq<byte>)
    requires EndsWith(x + run, s) && |s| > |run|
    ensures s[|s| - |run| - 1] == x[|x| - 1]
  {
    assert (x + run)[|x + run| - |s|..][|s| - |run| - 1] == (x + run)[|x| - 1];
  }

  lemma AllClear(m: Masker, x: seq<byte>, run: seq<byte>)
    requires OnTokens(m) && EndsOutside(x)
    ensures forall r | r in MatchRanges(m, x + run) :: Clear(|x|, r, |x + run|)
  {
    MatchesInToken(x, run, m.patterns);
    forall r | r in SecretRanges(x + run, m.secrets) ensures Clear(|x|, r, |x + run|) {
      SecretInToken(x, run, m.secrets, r);
    }
  }

  lemma HeldIsToken(x: seq<byte>, run: seq<byte>, secrets: seq<seq<byte>>)
    requires EndsOutside(x) && AllOfToken(run) && |run| <= 256 && forall s | s in secrets :: AllOfToken(s)
    ensures HeldBack(x + run, secrets) == |run|
  {
    RunOfToken(x, run);
    PartialInToken(x, run, secrets);
  }

  /** The text is cut where its last token begins, if that is short. */
  lemma CutBeforeToken(m: Masker, x: seq<byte>, run: seq<byte>)
    requires OnTokens(m) && EndsOutside(x) && AllOfToken(run) && |run| <= 256
    ensures Release(m, x + run) == Pushed(State(run, false), ScrubText(m, x))
  {
    HeldIsToken(x, run, m.secrets);
    TokenOnChar(x, run, 0);
    AllClear(m, x, run);
    ClearStays(MatchRanges(m, x + run), |x|, |x + run|);
    CutHere(m, x, run);
  }

  lemma CutHere(m: Masker, x: seq<byte>, run: seq<byte>)
    requires CutPoint(m, x + run) == |x| && |run| <= 256
    ensures Release(m, x + run) == Pushed(State(run, false), ScrubText(m, x))
  {
    ReleaseIs(m, x + run);
    assert (x + run)[..|x|] == x && (x + run)[|x|..] == run;
  }

  /** No token in `text` is longer than what the stream holds back for one. */
  ghost predicate ShortTokens(text: seq<byte>) {
    forall lo: nat, hi: nat | lo <= hi <= |text| && AllOfToken(text[lo..hi]) :: hi - lo <= 256
  }

  lemma ShortInFront(now: seq<byte>, rest: seq<byte>, at: nat)
    requires ShortTokens(now + rest) && at <= |now|
    ensures ShortTokens(now) && ShortTokens(now[at..] + rest)
  {
    forall lo: nat, hi: nat | lo <= hi <= |now| && AllOfToken(now[lo..hi]) ensures hi - lo <= 256 {
      assert (now + rest)[lo..hi] == now[lo..hi];
    }
    forall lo: nat, hi: nat | lo <= hi <= |now[at..] + rest| && AllOfToken((now[at..] + rest)[lo..hi])
      ensures hi - lo <= 256
    {
      assert (now + rest)[at + lo..at + hi] == (now[at..] + rest)[lo..hi];
    }
  }

  lemma TokenStep(m: Masker, now: seq<byte>, rest: seq<byte>) returns (run: seq<byte>)
    requires OnTokens(m) && ShortTokens(now + rest)
    ensures Release(m, now).state == State(run, false) && ShortTokens(run + rest)
    ensures ScrubText(m, now + rest) == Release(m, now).out + ScrubText(m, run + rest)
  {
    var x;
    x, run := LastToken(now);
    ShortInFront(now, rest, |x|);
    assert now[|x|..|now|] == run && now[|x|..] == run && now + rest == x + (run + rest);
    CutBeforeToken(m, x, run);
    MaskedApart(m, x, run + rest);
  }

  lemma {:induction false} TokensFrom(m: Masker, pending: seq<byte>, chunks: seq<seq<byte>>)
    requires OnTokens(m) && ShortTokens(pending + Concat(chunks))
    ensures StreamFrom(m, State(pending, false), chunks) == ScrubText(m, pending + Concat(chunks))
    decreases |chunks|
  {
    if chunks == [] {
      AppendNothing(pending);
    } else {
      var now, rest := pending + chunks[0], Concat(chunks[1..]);
      FirstPush(m, pending, chunks, Release(m, now));
      var run := TokenStep(m, now, rest);
      TokensFrom(m, run, chunks[1..]);
    }
  }

  /** Secrets made of such bytes, however many, long or overlapping, and patterns that match within
      tokens: every chunking of a text whose tokens have up to 256 bytes gives `scrub` of the whole. */
  lemma {:induction false} TokenStreamEqualsScrub(m: Masker, chunks: seq<seq<byte>>)
    requires OnTokens(m) && ShortTokens(Concat(chunks))
    ensures StreamFrom(m, IDLE, chunks) == ScrubText(m, Concat(chunks))
  {
    PrependNothing(Concat(chunks));
    TokensFrom(m, [], chunks);
  }

  /** Beyond 256 bytes it does not: of a longer token in which nothing matches yet the front goes out at once,
      be it that the whole would match. */
  lemma {:induction false} OverlongIsShown(m: Masker, t: seq<byte>, more: seq<byte>)
    requires m.secrets == [] && AllOfToken(t) && |t| > 256
    requires FindsNothing(m.patterns, t) && FindsNothing(m.patterns, t[..|t| - 256])
    ensures t[..|t| - 256] <= StreamFrom(m, IDLE, [t, more])
  {
    var n := |t| - 256;
    NoRanges(m.patterns, t);
    PrependNothing(t);
    assert MatchRanges(m, t) == [];
    OnlyTokensAreHeld(m, [], t);
    ReleaseIs(m, t);
    NothingFound(m.patterns, t[..n]);
    FirstPush(m, [], [t, more], Release(m, t));
  }
}
