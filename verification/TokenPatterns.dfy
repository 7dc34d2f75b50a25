/** The runner's patterns for tokens that are a fixed front and a run of letters and digits, as
    `find_iter` searches for them, and what streams make of such tokens. */
module TokenPatterns {
  import opened Bytes
  import opened Utf8
  import opened Scrubber
  import opened StreamScrubbing
  import opened StreamMasking
  import opened TokenStreams
  import opened PatternSearch

  type Class = byte -> bool

  /** A front, one class for each byte, and then a run of at least `least` bytes of `body`; the match
      takes all of the run if it is `greedy`, and exactly `least` bytes of it otherwise. */
  datatype Shape = Shape(front: seq<Class>, body: Class, least: nat, greedy: bool)

  function Is(c: char): Class {
    (b: byte) => b as char == c
  }

  predicate Digit(b: byte) { '0' <= b as char <= '9' }
  predicate Upper(b: byte) { 'A' <= b as char <= 'Z' }
  predicate Alphanumeric(b: byte) { Digit(b) || Upper(b) || 'a' <= b as char <= 'z' }
  predicate UpperOrDigit(b: byte) { Digit(b) || Upper(b) }
  predicate WordByte(b: byte) { Alphanumeric(b) || b as char == '_' }
  predicate WordOrHyphen(b: byte) { WordByte(b) || b as char == '-' }
  predicate GitHubKind(b: byte) { b as char in "pousr" }

  /** `glrt-[a-zA-Z0-9_-]{20,}` */
  function RunnerToken(): Shape {
    Shape([Is('g'), Is('l'), Is('r'), Is('t'), Is('-')], WordOrHyphen, 20, true)
  }

  /** `GR1348941[a-zA-Z0-9]{20,}` */
  function RegistrationToken(): Shape {
    Shape([Is('G'), Is('R'), Is('1'), Is('3'), Is('4'), Is('8'), Is('9'), Is('4'), Is('1')], Alphanumeric, 20, true)
  }

  /** `gh[pousr]_[A-Za-z0-9_]{36,}` */
  function GitHubToken(): Shape {
    Shape([Is('g'), Is('h'), GitHubKind, Is('_')], WordByte, 36, true)
  }

  /** `AKIA[0-9A-Z]{16}` */
  function AccessKey(): Shape {
    Shape([Is('A'), Is('K'), Is('I'), Is('A')], UpperOrDigit, 16, false)
  }

  /** Classes of bytes that tokens are made of. */
  ghost predicate Tokenish(shape: Shape) {
    && shape.front != []
    && (forall i, b | 0 <= i < |shape.front| && shape.front[i](b) :: OfToken(b))
    && forall b | shape.body(b) :: OfToken(b)
  }

  lemma RunnerTokenish()
    ensures Tokenish(RunnerToken())
  {
  }

  lemma RegistrationTokenish()
    ensures Tokenish(RegistrationToken())
  {
  }

  lemma GitHubTokenish()
    ensures Tokenish(GitHubToken())
  {
  }

  lemma AccessKeyTokenish()
    ensures Tokenish(AccessKey())
  {
  }

  // ---- The search ----

  predicate FrontAt(front: seq<Class>, text: seq<byte>, i: nat) {
    i + |front| <= |text| && forall k | 0 <= k < |front| :: front[k](text[i + k])
  }

  function RunEnd(body: Class, text: seq<byte>, i: nat): (e: nat)
    requires i <= |text|
    ensures i <= e <= |text| && (forall k | i <= k < e :: body(text[k])) && (e < |text| ==> !body(text[e]))
    decreases |text| - i
  {
    if i < |text| && body(text[i]) then RunEnd(body, text, i + 1) else i
  }

  /** The end of a match whose run of bytes of `body` goes from `from` to `run`; 0 if there is none. In a
      string every match ends at a character. */
  function EndFor(shape: Shape, text: seq<byte>, from: nat, run: nat): (e: nat) {
    var e := if shape.greedy then run else from + shape.least;
    if run < from + shape.least || !IsCharBoundary(text, e) then 0 else e
  }

  /** The end of a match that begins at `i`; 0 if there is none. */
  function TokenEnd(shape: Shape, text: seq<byte>, i: nat): (e: nat)
    requires i <= |text|
    ensures e == 0 || i + |shape.front| + shape.least <= e <= |text|
  {
    if FrontAt(shape.front, text, i) then
      EndFor(shape, text, i + |shape.front|, RunEnd(shape.body, text, i + |shape.front|))
    else 0
  }

  function EndsOf(shape: Shape): Ends
    requires shape.front != []
  {
    var ends := (text: seq<byte>, i: nat) => if i <= |text| then TokenEnd(shape, text, i) else 0;
    assert MovesOn(ends);
    ends
  }

  lemma FrontByte(front: seq<Class>, text: seq<byte>, i: nat, j: nat)
    ensures FrontAt(front, text, i) && i <= j < i + |front| ==> front[j - i](text[j])
  {
    assert FrontAt(front, text, i) && i <= j < i + |front| ==> front[j - i](text[i + (j - i)]);
  }

  lemma OnChar(shape: Shape, text: seq<byte>, i: nat)
    requires Tokenish(shape) && i < |text|
    ensures TokenEnd(shape, text, i) > 0 ==> OfToken(text[i]) && IsCharBoundary(text, TokenEnd(shape, text, i))
  {
    FrontByte(shape.front, text, i, i);
  }

  function Finder(shape: Shape): seq<byte> -> seq<Range>
    requires shape.front != []
  {
    text => Search(EndsOf(shape), text, 0)
  }

  /** It is a pattern: its matches do not overlap and lie on characters. */
  lemma {:induction false} FinderIsPattern(shape: Shape)
    requires Tokenish(shape)
    ensures FindsMatches(Finder(shape))
  {
    forall text: seq<byte>
      ensures Ordered(Finder(shape)(text), 0, |text|)
      ensures forall r | r in Finder(shape)(text) :: IsCharBoundary(text, r.start) && IsCharBoundary(text, r.end)
    {
      forall k | 0 <= k < |text| && EndsOf(shape)(text, k) > 0
        ensures IsCharBoundary(text, k) && IsCharBoundary(text, EndsOf(shape)(text, k))
      {
        OnChar(shape, text, k);
      }
      SearchOnChars(EndsOf(shape), text, 0);
    }
  }

  // ---- It matches within tokens ----

  lemma {:induction false} RunEndBefore(body: Class, x: seq<byte>, y: seq<byte>, i: nat)
    requires i < |x| && !body(x[|x| - 1])
    ensures RunEnd(body, x + y, i) == RunEnd(body, x, i) < |x|
    decreases |x| - i
  {
    if body(x[i]) {
      RunEndBefore(body, x, y, i + 1);
    }
  }

  lemma {:induction false} RunEndBehind(body: Class, x: seq<byte>, y: seq<byte>, i: nat)
    requires i <= |y|
    ensures RunEnd(body, x + y, |x| + i) == |x| + RunEnd(body, y, i)
    decreases |y| - i
  {
    if i < |y| && body(y[i]) {
      RunEndBehind(body, x, y, i + 1);
    }
  }

  lemma FrontBefore(front: seq<Class>, x: seq<byte>, y: seq<byte>, i: nat)
    requires i < |x| && forall k | 0 <= k < |front| :: !front[k](x[|x| - 1])
    ensures FrontAt(front, x + y, i) <==> FrontAt(front, x, i)
    ensures FrontAt(front, x, i) ==> i + |front| < |x|
  {
    FrontByte(front, x + y, i, |x| - 1);
    FrontByte(front, x, i, |x| - 1);
  }

  lemma EndBefore(shape: Shape, x: seq<byte>, y: seq<byte>, i: nat)
    requires Tokenish(shape) && i < |x| && EndsOutside(x)
    ensures TokenEnd(shape, x + y, i) == TokenEnd(shape, x, i) < |x|
  {
    FrontBefore(shape.front, x, y, i);
    if FrontAt(shape.front, x, i) {
      RunEndBefore(shape.body, x, y, i + |shape.front|);
    }
  }

  lemma FrontBehind(front: seq<Class>, x: seq<byte>, y: seq<byte>, i: nat)
    ensures FrontAt(front, x + y, |x| + i) <==> FrontAt(front, y, i)
  {
    if |x| + i + |front| <= |x + y| {
      forall k | 0 <= k < |front| ensures front[k]((x + y)[|x| + i + k]) <==> front[k](y[i + k]) {
        assert (x + y)[|x| + i + k] == y[i + k];
      }
    }
  }

  lemma BoundaryIn(x: seq<byte>, y: seq<byte>, e: nat)
    requires 0 < e <= |y|
    ensures IsCharBoundary(x + y, |x| + e) <==> IsCharBoundary(y, e)
  {
    assert e < |y| ==> (x + y)[|x| + e] == y[e];
  }

  lemma EndForBehind(shape: Shape, x: seq<byte>, y: seq<byte>, from: nat, run: nat)
    requires 0 < from <= run <= |y|
    ensures EndFor(shape, x + y, |x| + from, |x| + run)
         == if EndFor(shape, y, from, run) > 0 then |x| + EndFor(shape, y, from, run) else 0
  {
    var e := if shape.greedy then run else from + shape.least;
    if from + shape.least <= run {
      BoundaryIn(x, y, e);
    }
  }

  lemma EndBehind(shape: Shape, x: seq<byte>, y: seq<byte>, i: nat)
    requires shape.front != [] && i <= |y|
    ensures TokenEnd(shape, x + y, |x| + i) == if TokenEnd(shape, y, i) > 0 then |x| + TokenEnd(shape, y, i) else 0
  {
    FrontBehind(shape.front, x, y, i);
    if FrontAt(shape.front, y, i) {
      var from := i + |shape.front|;
      RunEndBehind(shape.body, x, y, from);
      EndForBehind(shape, x, y, from, RunEnd(shape.body, y, from));
    }
  }

  lemma ShiftFirst(lo: nat, hi: nat, rs: seq<Range>, n: nat)
    ensures Shift([Range(lo, hi)] + rs, n) == [Range(n + lo, n + hi)] + Shift(rs, n)
  {
    assert ([Range(lo, hi)] + rs)[1..] == rs;
  }

  /** The search looks at a place of `y` behind something else as it looks at it alone. */
  ghost predicate AlikeAt(ends: Ends, both: seq<byte>, y: seq<byte>, n: nat, i: nat) {
    ends(both, n + i) == if ends(y, i) > 0 then n + ends(y, i) else 0
  }

  ghost predicate AlikeBehind(ends: Ends, both: seq<byte>, y: seq<byte>, n: nat) {
    |both| == n + |y| && forall i: nat | i < |y| :: AlikeAt(ends, both, y, n, i)
  }

  lemma {:induction false} SearchBehind(ends: Ends, both: seq<byte>, y: seq<byte>, n: nat, i: nat)
    requires AlikeBehind(ends, both, y, n) && i <= |y|
    ensures Search(ends, both, n + i) == Shift(Search(ends, y, i), n)
    decreases |y| - i
  {
    assert MovesOn(ends);
    if i < |y| {
      assert AlikeAt(ends, both, y, n, i);
      var e := ends(y, i);
      if e > 0 {
        SearchBehind(ends, both, y, n, e);
        ShiftFirst(i, e, Search(ends, y, e), n);
      } else {
        SearchBehind(ends, both, y, n, i + 1);
      }
    }
  }

  /** It looks at each place of `x` as if nothing were behind, and finds nothing that reaches its end. */
  ghost predicate AlikeBefore(ends: Ends, both: seq<byte>, x: seq<byte>) {
    forall i: nat | i < |x| :: ends(both, i) == ends(x, i) < |x|
  }

  lemma {:induction false} SearchBefore(ends: Ends, both: seq<byte>, x: seq<byte>, i: nat)
    requires AlikeBefore(ends, both, x) && i <= |x| <= |both|
    ensures Search(ends, both, i) == Search(ends, x, i) + Search(ends, both, |x|)
    ensures forall r | r in Search(ends, x, i) :: r.end < |x|
    decreases |x| - i
  {
    assert MovesOn(ends);
    if i < |x| {
      assert ends(both, i) == ends(x, i) < |x|;
      if ends(x, i) > 0 {
        SearchBefore(ends, both, x, ends(x, i));
        Reassociate([Range(i, ends(x, i))], Search(ends, x, ends(x, i)), Search(ends, both, |x|));
      } else {
        SearchBefore(ends, both, x, i + 1);
      }
    }
  }

  lemma AlikeInFront(shape: Shape, x: seq<byte>, y: seq<byte>)
    requires Tokenish(shape) && x != [] && EndsOutside(x)
    ensures AlikeBefore(EndsOf(shape), x + y, x)
  {
    forall i: nat | i < |x| ensures EndsOf(shape)(x + y, i) == EndsOf(shape)(x, i) < |x| {
      EndBefore(shape, x, y, i);
    }
  }

  lemma EndsBehind(shape: Shape, x: seq<byte>, y: seq<byte>, i: nat)
    requires shape.front != [] && i < |y|
    ensures AlikeAt(EndsOf(shape), x + y, y, |x|, i)
  {
    EndBehind(shape, x, y, i);
  }

  lemma AlikeFarther(shape: Shape, x: seq<byte>, y: seq<byte>)
    requires shape.front != []
    ensures AlikeBehind(EndsOf(shape), x + y, y, |x|)
  {
    forall i: nat | i < |y| ensures AlikeAt(EndsOf(shape), x + y, y, |x|, i) {
      EndsBehind(shape, x, y, i);
    }
  }

  lemma SearchInBoth(ends: Ends, x: seq<byte>, y: seq<byte>)
    requires AlikeBefore(ends, x + y, x) && AlikeBehind(ends, x + y, y, |x|)
    ensures Search(ends, x + y, 0) == Search(ends, x, 0) + Shift(Search(ends, y, 0), |x|)
    ensures forall r | r in Search(ends, x, 0) :: r.end < |x|
  {
    SearchBefore(ends, x + y, x, 0);
    SearchBehind(ends, x + y, y, |x|, 0);
  }

  lemma {:induction false} FinderWithinTokens(shape: Shape)
    requires Tokenish(shape)
    ensures FindsMatches(Finder(shape)) && WithinTokens(Finder(shape))
  {
    FinderIsPattern(shape);
    var p: Pattern := Finder(shape);
    forall x, y | x != [] && EndsOutside(x) ensures FoundApart(p, x, y) {
      AlikeInFront(shape, x, y);
      AlikeFarther(shape, x, y);
      SearchInBoth(EndsOf(shape), x, y);
    }
  }

  // ---- A token in the text ----

  /** All of `t` is one match. */
  predicate IsToken(shape: Shape, t: seq<byte>) {
    FrontAt(shape.front, t, 0) && |shape.front| + shape.least <= |t|
    && (forall k | |shape.front| <= k < |t| :: shape.body(t[k]))
    && (shape.greedy || |t| == |shape.front| + shape.least)
  }

  lemma {:induction false} RunEndIs(body: Class, text: seq<byte>, i: nat, e: nat)
    requires i <= e <= |text| && (forall k | i <= k < e :: body(text[k])) && (e < |text| ==> !body(text[e]))
    ensures RunEnd(body, text, i) == e
    decreases e - i
  {
    if i < e {
      RunEndIs(body, text, i + 1, e);
    }
  }

  lemma TokenEndsThere(shape: Shape, t: seq<byte>, u: byte)
    requires Tokenish(shape) && IsToken(shape, t) && !OfToken(u) && !IsContinuation(u)
    ensures TokenEnd(shape, t + [u], 0) == |t|
  {
    var text := t + [u];
    FrontBefore(shape.front, text, [], 0);
    assert forall k | 0 <= k < |t| :: text[k] == t[k];
    RunEndIs(shape.body, text, |shape.front|, |t|);
  }

  lemma NothingThere(shape: Shape, text: seq<byte>, i: nat)
    requires Tokenish(shape) && i < |text| && !OfToken(text[i])
    ensures EndsOf(shape)(text, i) == 0
  {
    OnChar(shape, text, i);
  }

  lemma LastSearch(ends: Ends, text: seq<byte>, i: nat)
    requires i + 1 == |text| && ends(text, i) == 0
    ensures Search(ends, text, i) == []
  {
  }

  /** `t` is all the pattern finds in it, if a byte follows that is in no token. */
  ghost predicate Matched(p: Pattern, t: seq<byte>, u: byte) {
    p(t + [u]) == [Range(0, |t|)] && p([u]) == [] && !OfToken(u)
  }

  lemma {:induction false} TokenIsMatched(shape: Shape, t: seq<byte>, u: byte)
    requires Tokenish(shape) && IsToken(shape, t) && !OfToken(u) && !IsContinuation(u)
    ensures FindsMatches(Finder(shape)) && WithinTokens(Finder(shape)) && Matched(Finder(shape), t, u)
  {
    FinderWithinTokens(shape);
    TokenEndsThere(shape, t, u);
    NothingThere(shape, t + [u], |t|);
    NothingThere(shape, [u], 0);
    FirstSearch(EndsOf(shape), t + [u], |t|);
    LastSearch(EndsOf(shape), [u], 0);
  }

  lemma FirstSearch(ends: Ends, text: seq<byte>, n: nat)
    requires n + 1 == |text| && ends(text, 0) == n > 0 && ends(text, n) == 0
    ensures Search(ends, text, 0) == [Range(0, n)]
  {
    LastSearch(ends, text, n);
  }

  lemma OneMask(p: Pattern, text: seq<byte>, n: nat, behind: seq<byte>)
    requires n <= |text| && p(text) == [Range(0, n)] && text[n..] == behind
    ensures ReplaceMatches(text, p) == MASK + behind
  {
    var none: seq<Range> := [];
    assert p(text)[1..] == none && Ordered(none, n, |text|);
    FirstRange(text, p(text), 0);
    PrependNothing(MASK + behind);
  }

  lemma ReplacedApart(p: Pattern, x: seq<byte>, y: seq<byte>)
    requires WithinTokens(p) && EndsOutside(x)
    ensures ReplaceMatches(x + y, p) == ReplaceMatches(x, p) + ReplaceMatches(y, p)
  {
    PatternSeparates(p, x, y);
    assert FindsMatches(p);
    PassOverBoth(x, y, p(x), p(y), 0);
    assert ReplaceMatches(x + y, p) == ReplaceRanges(x + y, p(x) + Shift(p(y), |x|), 0);
  }

  lemma MatchedIsReplaced(p: Pattern, t: seq<byte>, u: byte, y: seq<byte>)
    requires WithinTokens(p) && Matched(p, t, u)
    ensures ReplaceMatches(t + ([u] + y), p) == MASK + ReplaceMatches([u] + y, p)
  {
    OneMask(p, t + [u], |t|, [u]);
    NothingToReplace(p, [u]);
    Reassociate(t, [u], y);
    ReplacedApart(p, t + [u], y);
    ReplacedApart(p, [u], y);
    Reassociate(MASK, [u], ReplaceMatches(y, p));
  }

  /** A token of up to 256 bytes is masked, however its bytes are spread over the chunks, and what stands
      around it comes out as if it stood alone. */
  lemma {:induction false} TokenIsMasked(p: Pattern, m: Masker, chunks: seq<seq<byte>>,
                                         x: seq<byte>, t: seq<byte>, u: byte, y: seq<byte>)
    requires m.secrets == [] && m.patterns == [p] && WithinTokens(p) && Matched(p, t, u)
    requires Concat(chunks) == x + (t + ([u] + y)) && ShortTokens(x + (t + ([u] + y))) && EndsOutside(x)
    ensures StreamFrom(m, IDLE, chunks) == ScrubText(m, x) + (MASK + ScrubText(m, [u] + y))
  {
    TokenStreamEqualsScrub(m, chunks);
    MaskedApart(m, x, t + ([u] + y));
    MatchedIsReplaced(p, t, u, y);
    OnePattern(m, t + ([u] + y), p);
    OnePattern(m, [u] + y, p);
  }

  lemma OnePattern(m: Masker, text: seq<byte>, p: Pattern)
    requires m.secrets == [] && m.patterns == [p]
    ensures ScrubText(m, text) == ReplaceMatches(text, p)
  {
    assert Scrub(text, m.secrets) == text && m.patterns[1..] == [];
    assert ScrubPatterns(ReplaceMatches(text, p), []) == ReplaceMatches(text, p);
  }

  lemma IsRunnerToken(t: seq<byte>)
    requires |t| >= 25 && t[..5] == [0x67, 0x6C, 0x72, 0x74, 0x2D]
    requires forall k | 5 <= k < |t| :: WordOrHyphen(t[k])
    ensures IsToken(RunnerToken(), t)
  {
    assert forall k | 0 <= k < 5 :: t[k] == t[..5][k];
  }

  /** The other three: registration tokens, GitHub tokens and access keys. */
  lemma IsRegistrationToken(t: seq<byte>)
    requires |t| >= 29 && t[..9] == [0x47, 0x52, 0x31, 0x33, 0x34, 0x38, 0x39, 0x34, 0x31]
    requires forall k | 9 <= k < |t| :: Alphanumeric(t[k])
    ensures IsToken(RegistrationToken(), t)
  {
    assert forall k | 0 <= k < 9 :: t[k] == t[..9][k];
  }

  lemma IsGitHubToken(t: seq<byte>)
    requires |t| >= 40 && t[..2] == [0x67, 0x68] && t[3] == 0x5F
    requires t[2] in [0x70, 0x6F, 0x75, 0x73, 0x72] && forall k | 4 <= k < |t| :: WordByte(t[k])
    ensures IsToken(GitHubToken(), t)
  {
    assert t[0] == t[..2][0] && t[1] == t[..2][1];
  }

  lemma IsAccessKey(t: seq<byte>)
    requires |t| == 20 && t[..4] == [0x41, 0x4B, 0x49, 0x41] && forall k | 4 <= k < 20 :: UpperOrDigit(t[k])
    ensures IsToken(AccessKey(), t)
  {
    assert forall k | 0 <= k < 4 :: t[k] == t[..4][k];
  }

  function RunnerPattern(): Pattern {
    RunnerTokenish();
    FinderIsPattern(RunnerToken());
    Finder(RunnerToken())
  }

  /** So for the tokens of runners: `glrt-` and at least 20 letters, digits, hyphens and underscores. */
  lemma {:induction false} RunnerTokenIsMasked(m: Masker, chunks: seq<seq<byte>>, x: seq<byte>, t: seq<byte>, u: byte,
                                               y: seq<byte>)
    requires m.secrets == [] && m.patterns == [RunnerPattern()]
    requires |t| >= 25 && t[..5] == [0x67, 0x6C, 0x72, 0x74, 0x2D]
    requires forall k | 5 <= k < |t| :: WordOrHyphen(t[k])
    requires EndsOutside(x) && !OfToken(u) && !IsContinuation(u)
    requires Concat(chunks) == x + (t + ([u] + y)) && ShortTokens(x + (t + ([u] + y)))
    ensures StreamFrom(m, IDLE, chunks) == ScrubText(m, x) + (MASK + ScrubText(m, [u] + y))
  {
    RunnerTokenish();
    IsRunnerToken(t);
    TokenIsMatched(RunnerToken(), t, u);
    TokenIsMasked(RunnerPattern(), m, chunks, x, t, u, y);
  }
}
