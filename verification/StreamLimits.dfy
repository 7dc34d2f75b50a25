/** Where the streaming masker stops being faithful: exactly the secrets whose self-overlap
    outgrows the hold-back limit, and secrets that overlap each other in the text. */
module StreamLimits {
  import opened Bytes
  import opened Utf8
  import opened Completeness
  import opened Scrubber
  import opened Simultaneous
  import opened StreamScrubbing
  import opened StreamCuts
  import opened StreamMasking
  import opened PatternStreams

  ghost predicate AllValid(chunks: seq<seq<byte>>) {
    forall c | c in chunks :: Valid(c)
  }

  /** Whatever the chunks are, the stream masks what `scrub` masks, in texts in which no pattern
      matches. */
  ghost predicate Faithful(m: Masker) {
    forall chunks | AllValid(chunks) && Quiet(m, Concat(chunks)) ::
      StreamFrom(m, IDLE, chunks) == ScrubText(m, Concat(chunks))
  }

  /** One push and the flush do not give what `scrub` gives. */
  ghost predicate Differs(m: Masker, p: seq<byte>) {
    StreamFrom(m, IDLE, [p]) != ScrubText(m, p)
  }

  /** A shift of `s` onto itself that leaves too little room. */
  ghost predicate Outgrows(s: seq<byte>, j: nat)
    requires s != []
  {
    SelfOverlaps(s, j) && j + LastCharStart(s) > Limit([s])
  }

  /** The text that shows it: `s` begins, and begins again before it ends. */
  function Witness(s: seq<byte>, j: nat): seq<byte>
    requires s != [] && j < |s|
  {
    s[..j] + s[..LastCharStart(s)]
  }

  lemma OutgrownSizes(s: seq<byte>, j: nat)
    requires s != [] && Outgrows(s, j)
    ensures var c := LastCharStart(s);
            && 256 < c < |s| && |s| + 256 < j + c && Limit([s]) < j + c && |s| + 256 <= Limit([s])
            && IsCharBoundary(s, c)
  {
    LimitOfOne(s);
  }

  lemma WitnessStartsWithSecret(s: seq<byte>, j: nat, c: nat)
    requires 0 < j < |s| && s[j..] == s[..|s| - j] && |s| <= j + c && c <= |s|
    ensures var p := s[..j] + s[..c]; IsPrefix(s, p) && p[j..] == s[..c]
  {
    var p, k := s[..j] + s[..c], |s| - j;
    assert p[..|s|] == s[..j] + s[..c][..k];
    assert s[..c][..k] == s[..k];
    TakeAndDrop(s, j);
  }

  lemma WitnessIsValid(s: seq<byte>, j: nat)
    requires s != [] && Outgrows(s, j) && Valid(s)
    ensures Valid(Witness(s, j))
  {
    OutgrownSizes(s, j);
    assert s[j] == s[j..][0] == s[..|s| - j][0] == s[0];
    ValidPrefix(s, j);
    ValidPrefix(s, LastCharStart(s));
    ValidConcat(s[..j], s[..LastCharStart(s)]);
  }

  /** A text that ends with everything but the last character of `s`: so much is held back. */
  lemma HeldIsStart(text: seq<byte>, s: seq<byte>, c: nat)
    requires s != [] && c == LastCharStart(s) && 256 < c < |s| && EndsWith(text, s[..c])
    ensures HeldBack(text, [s]) == c
  {
    assert EndsInPrefix(text, s, c);
    assert PartialSecret(text, s) == c;
    assert LongestPartial(text, [s]) == PartialSecret(text, s);
  }

  lemma {:induction false} TooShortToMatch(text: seq<byte>, s: seq<byte>, from: nat)
    requires s != [] && |text| < |s|
    ensures MatchIndices(text, s, from) == []
    decreases |text|
  {
    if text != [] {
      TooShortToMatch(text[1..], s, from + 1);
    }
  }

  /** The matches of a text begin with its first occurrence. */
  lemma {:induction false} SkipToMatch(text: seq<byte>, s: seq<byte>, k: nat, from: nat)
    requires s != [] && k <= |text| && forall o: nat | o < k :: !OccursAt(text, s, o)
    ensures MatchIndices(text, s, from) == MatchIndices(text[k..], s, from + k)
    decreases k
  {
    if k == 0 {
      assert text[0..] == text;
    } else {
      PrefixOccurs(text, s, 0);
      assert text[0..] == text;
      forall o: nat | o < k - 1 ensures !OccursAt(text[1..], s, o) {
        OccursInTail(text, s, 1, o);
      }
      SkipToMatch(text[1..], s, k - 1, from + 1);
      assert text[1..][k - 1..] == text[k..];
    }
  }

  lemma RangesOfOne(text: seq<byte>, s: seq<byte>)
    requires Masked(s)
    ensures SecretRanges(text, [s]) == MatchIndices(text, s, 0)
  {
    assert SecretRanges(text, [s][1..]) == [];
  }

  /** Nothing of `s` begins in `v`, whatever comes first in `p`. */
  ghost predicate NoneBefore(v: seq<byte>, p: seq<byte>, s: seq<byte>) {
    forall o: nat | o < |v| :: !OccursAt(v + p, s, o)
  }

  lemma MatchInFront(p: seq<byte>, s: seq<byte>, from: nat)
    requires s != [] && IsPrefix(s, p) && |p| < 2 * |s|
    ensures MatchIndices(p, s, from) == [Range(from, from + |s|)]
  {
    TooShortToMatch(p[|s|..], s, from + |s|);
  }

  lemma OnlyRange(v: seq<byte>, p: seq<byte>, s: seq<byte>)
    requires Masked(s) && IsPrefix(s, p) && |p| < 2 * |s| && NoneBefore(v, p, s)
    ensures SecretRanges(v + p, [s]) == [Range(|v|, |v| + |s|)]
  {
    var text := v + p;
    assert text[|v|..] == p;
    RangesOfOne(text, s);
    SkipToMatch(text, s, |v|, 0);
    MatchInFront(p, s, |v|);
  }

  lemma LowerOnly(r: Range, b: nat, len: nat)
    requires r.start < b < r.end
    ensures Lower([r], b, len) == r.start
  {
    var none: seq<Range> := [];
    assert [r][1..] == none;
  }

  /** The loop moves the cut from the second start of `s` to the first. */
  lemma WitnessIsNotCut(m: Masker, s: seq<byte>, j: nat, v: seq<byte>, p: seq<byte>)
    requires Exact(m) && m.secrets == [s] && Masked(s) && StartsChar(s) && Outgrows(s, j)
    requires p == Witness(s, j) && NoneBefore(v, p, s)
    ensures CutPoint(m, v + p) == |v| && MatchRanges(m, v + p) == [Range(|v|, |v| + |s|)]
  {
    var c, text := LastCharStart(s), v + p;
    OutgrownSizes(s, j);
    WitnessStartsWithSecret(s, j, c);
    assert text[|text| - c..] == s[..c];
    HeldIsStart(text, s, c);
    OnlyRange(v, p, s);
    AppendNothing(SecretRanges(text, [s]));
    var b := ExactCutPoint(m, text);
    assert b == |v| + j && text[b] == p[j] == p[j..][0] == s[0];
    assert IsCharBoundary(text, b);
    LowerOnly(Range(|v|, |v| + |s|), b, |text|);
  }

  lemma {:induction false} CeilBehind(v: seq<byte>, p: seq<byte>, i: nat)
    requires StartsChar(p) && i <= |p|
    ensures CeilBoundary(v + p, |v| + i) == |v| + CeilBoundary(p, i)
    decreases |p| - i
  {
    BoundaryBehind(v, p, i);
    if !IsCharBoundary(p, i) {
      CeilBehind(v, p, i + 1);
    }
  }

  /** How much of the witness has to go when the limit is reached. */
  function Overflow(s: seq<byte>, j: nat): (cut: nat)
    requires s != [] && Outgrows(s, j)
    ensures cut <= |Witness(s, j)|
  {
    OutgrownSizes(s, j);
    CeilBoundary(Witness(s, j), |Witness(s, j)| - Limit([s]))
  }

  lemma OverflowSizes(s: seq<byte>, j: nat)
    requires s != [] && Outgrows(s, j) && StartsChar(s)
    ensures 0 < Overflow(s, j) <= j && IsPrefix(s, Witness(s, j))
    ensures IsCharBoundary(Witness(s, j), Overflow(s, j))
  {
    OutgrownSizes(s, j);
    var p, c := Witness(s, j), LastCharStart(s);
    WitnessStartsWithSecret(s, j, c);
    assert p[j] == p[j..][0] == s[0];
    assert IsCharBoundary(p, j);
  }

  lemma OverLimit(m: Masker, text: seq<byte>, b: nat, limit: nat, r: Range, cut: nat)
    requires b <= |text| && |text| - b > limit && r.end != |text| && cut == CeilBoundary(text, |text| - limit)
    ensures ReleaseAt(m, text, b, limit, [r]) == Pushed(State(text[cut..], false), ScrubText(m, text[..cut]))
  {
  }

  lemma CutBehind(text: seq<byte>, v: seq<byte>, p: seq<byte>, n: nat, at: nat)
    requires text == v + p && n <= |p| && at == |v| + n
    ensures text[..at] == v + p[..n] && text[at..] == p[n..]
  {
  }

  lemma ShortIsKept(m: Masker, s: seq<byte>, text: seq<byte>)
    requires Exact(m) && m.secrets == [s] && |text| < |s|
    ensures ScrubText(m, text) == text
  {
    ScrubOne(text, s);
    if Masked(s) {
      ReplaceShort(text, s);
    }
  }

  /** Then the limit cuts through the match: its front goes out as it is. */
  lemma LimitCuts(m: Masker, s: seq<byte>, text: seq<byte>, b: nat, limit: nat, cut: nat, out: seq<byte>,
                  rest: seq<byte>)
    requires Exact(m) && m.secrets == [s] && |s| < limit
    requires b <= |text| && |text| - b > limit && cut == CeilBoundary(text, |text| - limit) && cut < |s|
    requires text[..cut] == out && text[cut..] == rest
    ensures ReleaseAt(m, text, b, limit, [Range(b, b + |s|)]) == Pushed(State(rest, false), out)
  {
    OverLimit(m, text, b, limit, Range(b, b + |s|), cut);
    ShortIsKept(m, s, out);
  }

  lemma ReleaseKnown(m: Masker, text: seq<byte>, b: nat, limit: nat, rs: seq<Range>, r: Pushed)
    requires CutPoint(m, text) == b && MatchRanges(m, text) == rs && Limit(m.secrets) == limit
    requires ReleaseAt(m, text, b, limit, rs) == r
    ensures Release(m, text) == r
  {
  }

  lemma CutOfRound(m: Masker, s: seq<byte>, j: nat, text: seq<byte>, v: seq<byte>, p: seq<byte>, cut: nat, limit: nat)
    requires Exact(m) && m.secrets == [s] && Masked(s) && StartsChar(s) && Outgrows(s, j)
    requires p == Witness(s, j) && cut == Overflow(s, j) && NoneBefore(v, p, s)
    requires text == v + p && limit == Limit([s])
    ensures CutPoint(m, text) == |v| && MatchRanges(m, text) == [Range(|v|, |v| + |s|)] && Limit(m.secrets) == limit
    ensures |s| < limit < |p| && |v| + cut == CeilBoundary(text, |text| - limit) && cut <= |p|
  {
    OverflowSizes(s, j);
    OutgrownSizes(s, j);
    PrefixAt(s, p, 0);
    WitnessIsNotCut(m, s, j, v, p);
    CeilBehind(v, p, |p| - limit);
  }

  lemma RoundFromCut(m: Masker, s: seq<byte>, text: seq<byte>, b: nat, limit: nat, cut: nat, out: seq<byte>,
                     rest: seq<byte>)
    requires Exact(m) && m.secrets == [s] && |s| < limit
    requires CutPoint(m, text) == b && MatchRanges(m, text) == [Range(b, b + |s|)] && Limit(m.secrets) == limit
    requires b <= |text| && |text| - b > limit && cut == CeilBoundary(text, |text| - limit) && cut < |s|
    requires text[..cut] == out && text[cut..] == rest
    ensures Release(m, text) == Pushed(State(rest, false), out)
  {
    LimitCuts(m, s, text, b, limit, cut, out, rest);
    ReleaseKnown(m, text, b, limit, [Range(b, b + |s|)], Pushed(State(rest, false), out));
  }

  /** One push on a secret that begins again before it ends. */
  lemma OverflowRound(m: Masker, s: seq<byte>, j: nat, text: seq<byte>, v: seq<byte>, p: seq<byte>, cut: nat)
    requires Exact(m) && m.secrets == [s] && Masked(s) && StartsChar(s) && Outgrows(s, j)
    requires p == Witness(s, j) && cut == Overflow(s, j) && NoneBefore(v, p, s) && |v| + cut < |s|
    requires text == v + p
    ensures Release(m, text) == Pushed(State(p[cut..], false), v + p[..cut])
  {
    CutOfRound(m, s, j, text, v, p, cut, Limit([s]));
    RoundEnds(m, s, text, v, p, cut, Limit([s]));
  }

  lemma RoundEnds(m: Masker, s: seq<byte>, text: seq<byte>, v: seq<byte>, p: seq<byte>, cut: nat, limit: nat)
    requires Exact(m) && m.secrets == [s] && text == v + p && cut <= |p| && |v| + cut < |s|
    requires CutPoint(m, text) == |v| && MatchRanges(m, text) == [Range(|v|, |v| + |s|)] && Limit(m.secrets) == limit
    requires |s| < limit < |p| && |v| + cut == CeilBoundary(text, |text| - limit)
    ensures Release(m, text) == Pushed(State(p[cut..], false), v + p[..cut])
  {
    CutBehind(text, v, p, cut, |v| + cut);
    RoundFromCut(m, s, text, |v|, limit, |v| + cut, v + p[..cut], p[cut..]);
  }

  lemma ConcatOne(p: seq<byte>)
    ensures Concat([p]) == p
  {
    var none: seq<seq<byte>> := [];
    assert [p][1..] == none;
  }

  /** A text whose first emitted byte is not the first byte of the scrubbed text. */
  lemma FirstByteBreaks(m: Masker, p: seq<byte>)
    requires Exact(m)
    requires Release(m, p).out != [] && Scrub(p, m.secrets) != []
    requires Release(m, p).out[0] != Scrub(p, m.secrets)[0]
    ensures Differs(m, p)
  {
    FirstByteStreams(m, p);
  }

  /** A difference without patterns is one with patterns that match nothing. */
  lemma DifferenceIsSeen(m: Masker, p: seq<byte>)
    requires Valid(p) && Quiet(m, p) && Differs(Plainly(m), p)
    ensures !Faithful(m)
  {
    ConcatOne(p);
    assert AllValid([p]) && IDLE.pending + Concat([p]) == p;
    QuietStream(m, IDLE, [p]);
    QuietPiece(m, p, |p|);
    assert p[..|p|] == p;
  }

  lemma FirstByteStreams(m: Masker, p: seq<byte>)
    requires Release(m, p).out != []
    ensures var text := StreamFrom(m, IDLE, [p]); text != [] && text[0] == Release(m, p).out[0]
  {
    assert IDLE.pending + p == p;
  }

  /** The first push on the witness lets its front through. */
  lemma FirstRound(m: Masker, s: seq<byte>, j: nat, p: seq<byte>, cut: nat)
    requires Exact(m) && m.secrets == [s] && Masked(s) && StartsChar(s) && Outgrows(s, j)
    requires p == Witness(s, j) && cut == Overflow(s, j) && cut < |s|
    ensures Release(m, p) == Pushed(State(p[cut..], false), p[..cut])
  {
    var v: seq<byte> := [];
    NothingInFront(p);
    OverflowRound(m, s, j, p, v, p, cut);
    NothingInFront(p[..cut]);
  }

  lemma NothingInFront<T>(p: seq<T>)
    ensures [] + p == p
  {
  }

  /** A secret that outgrows the limit is not always masked. */
  lemma OutgrownBreaks(m: Masker, s: seq<byte>, j: nat)
    requires Exact(m) && m.secrets == [s] && Masked(s) && StartsChar(s) && s[0] != OPEN_BRACKET && Outgrows(s, j)
    ensures Differs(m, Witness(s, j))
  {
    var p := Witness(s, j);
    OverflowSizes(s, j);
    PrefixAt(s, p, 0);
    FirstRound(m, s, j, p, Overflow(s, j));
    WitnessIsMasked(s, j);
    FirstByteBreaks(m, p);
  }

  lemma WitnessIsMasked(s: seq<byte>, j: nat)
    requires Masked(s) && Outgrows(s, j)
    ensures var r := Scrub(Witness(s, j), [s]); r != [] && r[0] == OPEN_BRACKET
  {
    OutgrownSizes(s, j);
    WitnessStartsWithSecret(s, j, LastCharStart(s));
    ScrubOne(Witness(s, j), s);
  }

  lemma OneIsWellNested(text: seq<byte>, s: seq<byte>)
    ensures WellNested(text, [s])
  {
  }

  lemma FittingIsFaithful(m: Masker, s: seq<byte>)
    requires m.secrets == [s] && Masked(s) && SelfOverlapFits(s)
    ensures Faithful(m)
  {
    OneSecretFits(s);
    forall chunks | AllValid(chunks) && Quiet(m, Concat(chunks))
      ensures StreamFrom(m, IDLE, chunks) == ScrubText(m, Concat(chunks))
    {
      OneIsWellNested(Concat(chunks), s);
      QuietStreamEqualsScrub(m, chunks);
    }
  }

  /** For one secret that does not begin like a mask, and patterns that match nothing in its witnesses:
      where no pattern matches, streaming is faithful for every chunking exactly when each shift that
      maps the secret onto itself leaves room for one more start of it within the limit. */
  lemma {:induction false} OneSecretExactly(m: Masker, s: seq<byte>)
    requires m.secrets == [s] && Masked(s) && Valid(s) && s[0] != OPEN_BRACKET
    requires forall j: nat | Outgrows(s, j) :: Quiet(m, Witness(s, j))
    ensures Faithful(m) <==> SelfOverlapFits(s)
  {
    if SelfOverlapFits(s) {
      FittingIsFaithful(m, s);
    } else {
      var j: nat :| SelfOverlaps(s, j) && j + LastCharStart(s) > Limit([s]);
      assert Outgrows(s, j);
      ValidStartsChar(s);
      OutgrownBreaks(Plainly(m), s, j);
      WitnessIsValid(s, j);
      DifferenceIsSeen(m, Witness(s, j));
    }
  }

  function Repeat(b: byte, n: nat): (s: seq<byte>)
    ensures |s| == n && forall i | 0 <= i < n :: s[i] == b
  {
    seq(n, i => b)
  }

  lemma RepeatOutgrows(s: seq<byte>, n: nat)
    requires |s| == n == 8194 && forall i | 0 <= i < n :: s[i] == 0x61
    ensures Outgrows(s, n - 1)
  {
    LimitOfOne(s);
    assert IsCharBoundary(s, n - 1);
    assert s[n - 1..] == s[..1];
  }

  lemma RepeatWitness(m: Masker, s: seq<byte>, n: nat, j: nat, run: seq<byte>)
    requires |s| == n && (forall i | 0 <= i < n :: s[i] == 0x61) && s != [] && Outgrows(s, j)
    requires |run| >= 2 * n && (forall i | 0 <= i < |run| :: run[i] == 0x61) && Quiet(m, run)
    ensures Quiet(m, Witness(s, j))
  {
    var w := Witness(s, j);
    assert w == run[0..|w|];
    QuietSlice(m, run, 0, |w|);
  }

  /** The bound of 8193 bytes is sharp: 8194 times the letter a is not always masked, with any patterns
      that match nothing in a run of that letter. */
  lemma {:induction false} BoundIsSharp(m: Masker, s: seq<byte>)
    requires s == Repeat(0x61, 8194) && m.secrets == [s] && Quiet(m, Repeat(0x61, 16388))
    ensures !Faithful(m)
  {
    AsciiText(s);
    RepeatOutgrows(s, 8194);
    forall j: nat | Outgrows(s, j) ensures Quiet(m, Witness(s, j)) {
      RepeatWitness(m, s, 8194, j, Repeat(0x61, 16388));
    }
    OneSecretExactly(m, s);
  }

  // ---- Secrets that overlap each other ----

  const FIRST: seq<byte> := [0x3F, 0x21, 0x21, 0x23, 0x23] // ?!!##
  const SECOND: seq<byte> := [0x23, 0x23, 0x61, 0x62, 0x63] // ##abc
  const BOTH: seq<byte> := [0x3F, 0x21, 0x21, 0x23, 0x23, 0x61, 0x62, 0x63] // ?!!##abc

  lemma SecondComesFourth()
    ensures MatchIndices(BOTH, SECOND, 0) == [Range(3, 8)]
  {
    forall o: nat | o < 3 ensures !OccursAt(BOTH, SECOND, o) {
      assert BOTH[o..o + 5][0] == BOTH[o] && BOTH[o..o + 5][1] == BOTH[o + 1] && BOTH[o..o + 5][2] == BOTH[o + 2];
    }
    SkipToMatch(BOTH, SECOND, 3, 0);
    assert BOTH[3..] == SECOND && SECOND[..5] == SECOND;
    MatchInFront(BOTH[3..], SECOND, 3);
  }

  lemma BothRanges(secrets: seq<seq<byte>>)
    requires secrets == [FIRST, SECOND]
    ensures SecretRanges(BOTH, secrets) == [Range(0, 5), Range(3, 8)]
  {
    assert BOTH[..5] == FIRST;
    MatchInFront(BOTH, FIRST, 0);
    SecondComesFourth();
    assert secrets[1..] == [SECOND];
    RangesOfOne(BOTH, SECOND);
  }

  lemma LastByte(text: seq<byte>, end: seq<byte>)
    requires end != []
    ensures EndsWith(text, end) ==> text != [] && text[|text| - 1] == end[|end| - 1]
  {
    if EndsWith(text, end) {
      assert text[|text| - |end|..][|end| - 1] == end[|end| - 1];
    }
  }

  lemma NothingPartial(s: seq<byte>, k: nat)
    requires s in [FIRST, SECOND] && k < 5
    ensures PartialFrom(BOTH, s, k) == 0
  {
    if k > 0 {
      assert BOTH[7] == 0x63 && s[..k][k - 1] == s[k - 1];
      LastByte(BOTH, s[..k]);
      NothingPartial(s, k - 1);
    }
  }

  lemma BothRun()
    ensures TokenRun(BOTH) == 3
  {
    assert BOTH[..7][..6] == BOTH[..6] && BOTH[..6][..5] == BOTH[..5];
    assert TokenRun(BOTH[..5]) == 0;
    assert TokenRun(BOTH[..6]) == 1;
    assert TokenRun(BOTH[..7]) == 2;
  }

  lemma BothHeld(secrets: seq<seq<byte>>)
    requires secrets == [FIRST, SECOND]
    ensures HeldBack(BOTH, secrets) == 3
  {
    NothingPartial(FIRST, 4);
    NothingPartial(SECOND, 4);
    assert secrets[1..] == [SECOND] && LongestPartial(BOTH, [SECOND]) == 0;
    BothRun();
  }

  lemma BothCut(m: Masker)
    requires Exact(m) && m.secrets == [FIRST, SECOND]
    ensures CutPoint(m, BOTH) == 3
  {
    var b := ExactCutPoint(m, BOTH);
    BothHeld(m.secrets);
    BothRanges(m.secrets);
    assert LowerOnce(Range(0, 5), 5, 8) == 5;
    assert [Range(0, 5), Range(3, 8)][1..] == [Range(3, 8)];
    LowerOnly(Range(3, 8), 5, 8);
  }

  lemma {:induction false} AbsentFirst(text: seq<byte>, s: seq<byte>)
    requires s != [] && s[0] !in text
    ensures Replace(text, s) == text
    decreases |text|
  {
    if text != [] {
      AbsentFirst(text[1..], s);
    }
  }

  lemma ScrubTwo(text: seq<byte>, s: seq<byte>, t: seq<byte>)
    requires Masked(s) && Masked(t)
    ensures Scrub(text, [s, t]) == Replace(Replace(text, s), t)
  {
    assert [s, t][1..] == [t];
    ScrubOne(Replace(text, s), t);
  }

  lemma FrontUnchanged(text: seq<byte>)
    requires |text| < 5
    ensures Scrub(text, [FIRST, SECOND]) == text
  {
    ScrubTwo(text, FIRST, SECOND);
    ReplaceShort(text, FIRST);
    ReplaceShort(text, SECOND);
  }

  lemma BothScrubbed(rest: seq<byte>)
    requires |rest| < 5 && SECOND[0] !in rest
    ensures Scrub(FIRST + rest, [FIRST, SECOND]) == MASK + rest
  {
    var text := FIRST + rest;
    ScrubTwo(text, FIRST, SECOND);
    assert text[..5] == FIRST && text[5..] == rest;
    ReplaceShort(rest, FIRST);
    AbsentFirst(MASK + rest, SECOND);
  }

  lemma BothEmitted(m: Masker, text: seq<byte>)
    requires Exact(m) && m.secrets == [FIRST, SECOND] && text == BOTH
    ensures Release(m, text).out == text[..3]
  {
    BothCut(m);
    FrontUnchanged(text[..3]);
    assert ScrubText(m, text[..3]) == text[..3];
  }

  lemma BothBytes(text: seq<byte>)
    requires text == BOTH
    ensures text == FIRST + text[5..] && SECOND[0] !in text[5..]
    ensures text[0] == 0x3F && forall i | 0 <= i < |text| :: text[i] < 0x80
  {
  }

  lemma BothIsBroken(m: Masker, text: seq<byte>)
    requires Exact(m) && m.secrets == [FIRST, SECOND]
    requires |text| == 8 && text == FIRST + text[5..] && SECOND[0] !in text[5..]
    requires text[0] == 0x3F && forall i | 0 <= i < |text| :: text[i] < 0x80
    requires Release(m, text).out == text[..3]
    ensures Differs(m, text)
  {
    BothScrubbed(text[5..]);
    AsciiBreaks(m, text, 3);
  }

  lemma BothDiffers(m: Masker, text: seq<byte>)
    requires Exact(m) && m.secrets == [FIRST, SECOND] && text == BOTH
    ensures Differs(m, text)
  {
    BothBytes(text);
    BothEmitted(m, text);
    BothIsBroken(m, text);
  }

  /** Without `WellNested` streaming may even show the front of a secret that `scrub` masks: the second
      secret pulls the cut into a match of the first. With any patterns that match nothing there. */
  lemma {:induction false} OverlapBreaks(m: Masker)
    requires m.secrets == [FIRST, SECOND] && Quiet(m, BOTH)
    ensures !Faithful(m)
  {
    var text := BOTH;
    BothBytes(text);
    AsciiText(text);
    BothDiffers(Plainly(m), text);
    DifferenceIsSeen(m, text);
  }

  lemma AsciiBreaks(m: Masker, text: seq<byte>, k: nat)
    requires Exact(m) && 0 < k <= |text| && text[0] != OPEN_BRACKET
    requires Release(m, text).out == text[..k] && IsPrefix(MASK, Scrub(text, m.secrets))
    ensures Differs(m, text)
  {
    PrefixAt(MASK, Scrub(text, m.secrets), 0);
    FirstByteBreaks(m, text);
  }

  lemma {:induction false} AsciiText(b: seq<byte>)
    requires forall i | 0 <= i < |b| :: b[i] < 0x80
    ensures Valid(b)
    decreases |b|
  {
    if b != [] {
      AsciiText(b[1..]);
    }
  }
}
