/** Whether masking is complete: when no secret is left in a scrubbed text, whatever the text
    and the regex patterns are. */
module Completeness {
  import opened Bytes
  import opened Utf8
  import opened Scrubber

  // ---- No pass makes an occurrence ----

  lemma {:induction false} PlainTokensPrefix(text: seq<byte>, s: seq<byte>)
    ensures PlainPrefix(s, Tokens(text)) <==> IsPrefix(s, text)
  {
    if PlainPrefix(s, Tokens(text)) {
      assert text[..|s|] == s;
    }
    if IsPrefix(s, text) {
      forall i | 0 <= i < |s| ensures Tokens(text)[i] == Plain(s[i]) {
        PrefixAt(s, text, i);
      }
    }
  }

  lemma TokensTail(text: seq<byte>, n: nat)
    requires n <= |text|
    ensures Tokens(text)[n..] == Tokens(text[n..])
  {
  }

  /** A pass over ordinary text, in tokens; the secret need not be apart from the mask. */
  lemma {:induction false} PassInTokens(text: seq<byte>, s: seq<byte>)
    requires s != []
    ensures Replace(text, s) == Flatten(ReplaceTokens(Tokens(text), s))
    decreases |text|
  {
    if text != [] {
      PlainTokensPrefix(text, s);
      var n := if IsPrefix(s, text) then |s| else 1;
      TokensTail(text, n);
      PassInTokens(text[n..], s);
      var first := if n == |s| && IsPrefix(s, text) then Mask else Plain(text[0]);
      FlattenConcat([first], ReplaceTokens(Tokens(text[n..]), s));
    }
  }

  lemma PlainOccursInText(text: seq<byte>, s: seq<byte>)
    requires PlainOccurs(Tokens(text), s)
    ensures Occurs(text, s)
  {
    var j: nat :| PlainAt(Tokens(text), s, j);
    TokensTail(text, j);
    PlainTokensPrefix(text[j..], s);
    assert text[j..j + |s|] == text[j..][..|s|];
    assert OccursAt(text, s, j);
  }

  /** A pass for any secret makes no occurrence of a secret that is apart from the mask, and
      leaves none of its own. */
  lemma PassMakesNone(text: seq<byte>, t: seq<byte>, s: seq<byte>)
    requires t != [] && Masked(s) && ApartFromMask(s) && Occurs(Replace(text, t), s)
    ensures Occurs(text, s) && s != t
  {
    PassInTokens(text, t);
    var ts := ReplaceTokens(Tokens(text), t);
    var i :| OccursAt(Replace(text, t), s, i);
    FlattenOccurs(ts, s, i);
    var j: nat :| PlainAt(ts, s, j);
    ReplaceMakesNone(Tokens(text), t, s, j);
    PlainOccursInText(text, s);
  }

  lemma {:induction false} PassesMakeNone(text: seq<byte>, secrets: seq<seq<byte>>, s: seq<byte>)
    requires Masked(s) && ApartFromMask(s) && Occurs(Scrub(text, secrets), s)
    ensures Occurs(text, s) && s !in secrets
    decreases |secrets|
  {
    if secrets != [] {
      var t := secrets[0];
      assert s in secrets ==> s == t || s in secrets[1..];
      PassesMakeNone(if Masked(t) then Replace(text, t) else text, secrets[1..], s);
      if Masked(t) {
        PassMakesNone(text, t, s);
      }
    }
  }

  function RangeTokens(text: seq<byte>, rs: seq<Range>, from: nat): (ts: seq<Token>)
    requires Ordered(rs, from, |text|)
    decreases |rs|
  {
    if rs == [] then Tokens(text[from..])
    else
      OrderedBounds(rs, from, |text|);
      Tokens(text[from..rs[0].start]) + ([Mask] + RangeTokens(text, rs[1..], rs[0].end))
  }

  lemma {:induction false} RangesInTokens(text: seq<byte>, rs: seq<Range>, from: nat)
    requires Ordered(rs, from, |text|)
    ensures Flatten(RangeTokens(text, rs, from)) == ReplaceRanges(text, rs, from)
    decreases |rs|
  {
    OrderedBounds(rs, from, |text|);
    if rs == [] {
      FlattenTokens(text[from..]);
    } else {
      var rest := RangeTokens(text, rs[1..], rs[0].end);
      FlattenTokens(text[from..rs[0].start]);
      FlattenConcat(Tokens(text[from..rs[0].start]), [Mask] + rest);
      assert ([Mask] + rest)[1..] == rest;
      RangesInTokens(text, rs[1..], rs[0].end);
    }
  }

  /** Plain bytes between masks stand next to each other in the text. */
  lemma PlainBeforeMask(head: seq<byte>, rest: seq<Token>, s: seq<byte>, j: nat)
    requires PlainAt(Tokens(head) + ([Mask] + rest), s, j) && s != []
    ensures j + |s| <= |head| ==> OccursAt(head, s, j)
    ensures j + |s| > |head| ==> j > |head| && PlainAt(rest, s, j - |head| - 1)
  {
    var ts := Tokens(head) + ([Mask] + rest);
    forall k | j <= k < j + |s| ensures ts[k] == Plain(s[k - j]) {
      assert ts[j..][k - j] == Plain(s[k - j]);
    }
    if j + |s| <= |head| {
      assert forall k | j <= k < j + |s| :: ts[k] == Plain(head[k]);
      assert head[j..j + |s|] == s;
    } else {
      assert ts[|head|] == Mask;
      assert ts[j..] == rest[j - |head| - 1..];
    }
  }

  lemma TokensConcat(a: seq<byte>, b: seq<byte>)
    ensures Tokens(a) + Tokens(b) == Tokens(a + b)
  {
  }

  lemma OccursWithin(a: seq<byte>, text: seq<byte>, b: seq<byte>, s: seq<byte>)
    requires Occurs(text, s)
    ensures Occurs(a + (text + b), s)
  {
    var i :| OccursAt(text, s, i);
    var all := a + (text + b);
    assert all[|a|..|a| + |text|] == text;
    OccursInWindow(all, s, |a|, |a| + |text|, i);
  }

  lemma OccursInFront(a: seq<byte>, x: seq<byte>, from: nat, to: nat, b: seq<byte>, s: seq<byte>)
    requires from <= to <= |x| && Occurs(a + x[from..to], s)
    ensures Occurs(a + (x[from..] + b), s)
  {
    OccursWithin([], a + x[from..to], x[to..] + b, s);
    assert [] + ((a + x[from..to]) + (x[to..] + b)) == a + (x[from..] + b);
  }

  lemma OccursBehind(a: seq<byte>, x: seq<byte>, from: nat, to: nat, b: seq<byte>, s: seq<byte>)
    requires from <= to <= |x| && Occurs([] + (x[to..] + b), s)
    ensures Occurs(a + (x[from..] + b), s)
  {
    OccursWithin(a + x[from..to], [] + (x[to..] + b), [], s);
    assert (a + x[from..to]) + (([] + (x[to..] + b)) + []) == a + (x[from..] + b);
  }

  lemma UpToMask(a: seq<byte>, head: seq<byte>, rest: seq<Token>, b: seq<Token>)
    ensures Tokens(a) + ((Tokens(head) + ([Mask] + rest)) + b) == Tokens(a + head) + ([Mask] + (rest + b))
  {
  }

  lemma FirstStretch(a: seq<byte>, head: seq<byte>, rest: seq<Token>, b: seq<Token>, s: seq<byte>, j: nat)
    requires PlainAt(Tokens(a) + ((Tokens(head) + ([Mask] + rest)) + b), s, j) && s != []
    ensures j + |s| <= |a + head| ==> Occurs(a + head, s)
    ensures j + |s| > |a + head| ==> j > |a + head| && PlainAt(Tokens([]) + (rest + b), s, j - |a + head| - 1)
  {
    UpToMask(a, head, rest, b);
    PlainBeforeMask(a + head, rest + b, s, j);
    assert Tokens([]) + (rest + b) == rest + b;
  }

  /** Bytes that stand next to each other after a pass over a part of a text, or partly outside
      of that part, stood so before it. */
  lemma {:induction false} PlainAroundRanges(a: seq<byte>, x: seq<byte>, rs: seq<Range>, from: nat, b: seq<byte>,
                                             s: seq<byte>, j: nat)
    requires Ordered(rs, from, |x|) && s != []
    requires PlainAt(Tokens(a) + (RangeTokens(x, rs, from) + Tokens(b)), s, j)
    ensures from <= |x| && Occurs(a + (x[from..] + b), s)
    decreases |rs|
  {
    OrderedBounds(rs, from, |x|);
    if rs == [] {
      TokensConcat(x[from..], b);
      TokensConcat(a, x[from..] + b);
      PlainOccursInText(a + (x[from..] + b), s);
    } else {
      var r, head := rs[0], x[from..rs[0].start];
      FirstStretch(a, head, RangeTokens(x, rs[1..], r.end), Tokens(b), s, j);
      if j + |s| <= |a + head| {
        OccursInFront(a, x, from, r.start, b, s);
      } else {
        PlainAroundRanges([], x, rs[1..], r.end, b, s, j - |a + head| - 1);
        OccursBehind(a, x, from, r.end, b, s);
      }
    }
  }

  lemma FlattenAround(a: seq<byte>, ts: seq<Token>, b: seq<byte>)
    ensures Flatten(Tokens(a) + (ts + Tokens(b))) == a + (Flatten(ts) + b)
  {
    FlattenTokens(a);
    FlattenTokens(b);
    FlattenConcat(ts, Tokens(b));
    FlattenConcat(Tokens(a), ts + Tokens(b));
  }

  lemma PassMakesNoneInside(a: seq<byte>, x: seq<byte>, b: seq<byte>, rs: seq<Range>, s: seq<byte>)
    requires Ordered(rs, 0, |x|) && Masked(s) && ApartFromMask(s)
    requires Occurs(a + (ReplaceRanges(x, rs, 0) + b), s)
    ensures Occurs(a + (x + b), s)
  {
    var ts := Tokens(a) + (RangeTokens(x, rs, 0) + Tokens(b));
    FlattenAround(a, RangeTokens(x, rs, 0), b);
    RangesInTokens(x, rs, 0);
    var i :| OccursAt(Flatten(ts), s, i);
    FlattenOccurs(ts, s, i);
    var j: nat :| PlainAt(ts, s, j);
    PlainAroundRanges(a, x, rs, 0, b, s, j);
    assert x[0..] == x;
  }

  /** Pattern passes over a part of a text make no occurrence of a secret that is apart from the
      mask anywhere in it, not even across the ends of the part. */
  lemma {:induction false} PatternsMakeNone(a: seq<byte>, x: seq<byte>, b: seq<byte>, patterns: seq<Pattern>,
                                            s: seq<byte>)
    requires Masked(s) && ApartFromMask(s) && Occurs(a + (ScrubPatterns(x, patterns) + b), s)
    ensures Occurs(a + (x + b), s)
    decreases |patterns|
  {
    if patterns != [] {
      var p: Pattern := patterns[0];
      assert FindsMatches(p);
      PatternsMakeNone(a, ReplaceMatches(x, p), b, patterns[1..], s);
      PassMakesNoneInside(a, x, b, p(x), s);
    }
  }

  lemma NothingAround<T>(x: seq<T>)
    ensures [] + (x + []) == x
  {
  }

  /** Masking is complete for every secret that is apart from the mask, whatever else is in the
      list and whatever the patterns are, although the passes change the text one after the
      other. */
  lemma NoSecretSurvives(m: Masker, text: seq<byte>, s: seq<byte>)
    requires s in m.secrets && Masked(s) && ApartFromMask(s)
    ensures !Occurs(ScrubText(m, text), s)
  {
    if Occurs(ScrubText(m, text), s) {
      NothingAround(ScrubText(m, text));
      NothingAround(Scrub(text, m.secrets));
      PatternsMakeNone([], Scrub(text, m.secrets), [], m.patterns, s);
      PassesMakeNone(text, m.secrets, s);
    }
  }

  // ---- Exactly when masking is complete ----

  lemma WholeOccurs(s: seq<byte>)
    ensures Occurs(s, s)
  {
    assert s[0..|s|] == s;
    assert OccursAt(s, s, 0);
  }

  lemma OccursThrough(text: seq<byte>, middle: seq<byte>, s: seq<byte>)
    requires Occurs(text, middle) && Occurs(middle, s)
    ensures Occurs(text, s)
  {
    var i :| OccursAt(text, middle, i);
    var j :| OccursAt(middle, s, j);
    SliceOfSlice(text, i, i + |middle|, j, j + |s|);
    assert OccursAt(text, s, i + j);
  }

  /** Somewhere in `s` stands a masked secret that is apart from the mask. */
  ghost predicate Covered(secrets: seq<seq<byte>>, s: seq<byte>) {
    exists t :: t in secrets && Masked(t) && ApartFromMask(t) && Occurs(s, t)
  }

  /** No masked secret is left in the scrubbed text. */
  ghost predicate Clean(m: Masker, text: seq<byte>) {
    forall s | s in m.secrets && Masked(s) :: !Occurs(ScrubText(m, text), s)
  }

  lemma CoveredIsGone(m: Masker, text: seq<byte>, s: seq<byte>)
    requires Covered(m.secrets, s)
    ensures !Occurs(ScrubText(m, text), s)
  {
    var t :| t in m.secrets && Masked(t) && ApartFromMask(t) && Occurs(s, t);
    NoSecretSurvives(m, text, t);
    if Occurs(ScrubText(m, text), s) {
      OccursThrough(ScrubText(m, text), s, t);
    }
  }

  /** A text without any of the secrets is left alone. */
  lemma {:induction false} Untouched(text: seq<byte>, secrets: seq<seq<byte>>)
    requires forall t | t in secrets && Masked(t) :: !Occurs(text, t)
    ensures Scrub(text, secrets) == text
    decreases |secrets|
  {
    if secrets != [] {
      var t := secrets[0];
      if Masked(t) {
        NotReplaced(text, t);
      }
      Untouched(text, secrets[1..]);
    }
  }

  lemma NotReplaced(text: seq<byte>, t: seq<byte>)
    requires t != [] && !Occurs(text, t)
    ensures Replace(text, t) == text
  {
    forall k | 0 <= k < |text| ensures !IsPrefix(t, text[k..]) {
      PrefixOccurs(text, t, k);
    }
    ReplaceSkips(text, t, |text|);
    assert text[..|text|] == text && text[|text|..] == [];
  }

  /** The shortest masked secret inside `s`. */
  lemma {:induction false} Shortest(secrets: seq<seq<byte>>, s: seq<byte>) returns (r: seq<byte>)
    requires s in secrets && Masked(s)
    ensures r in secrets && Masked(r) && Occurs(s, r)
    ensures forall t | t in secrets && Masked(t) && Occurs(r, t) :: |t| >= |r|
    decreases |s|
  {
    WholeOccurs(s);
    if exists t :: t in secrets && Masked(t) && Occurs(s, t) && |t| < |s| {
      var t :| t in secrets && Masked(t) && Occurs(s, t) && |t| < |s|;
      r := Shortest(secrets, t);
      OccursThrough(s, t, r);
    } else {
      r := s;
    }
  }

  /** A pattern that matches the empty string at one place of one text. */
  function EmptyMatch(text: seq<byte>, at: nat): seq<byte> -> seq<Range> {
    (x: seq<byte>) => if x == text then [Range(at, at)] else []
  }

  lemma MaskInserted(text: seq<byte>, at: nat) returns (patterns: seq<Pattern>)
    requires at == 0 || at == |text|
    ensures ScrubPatterns(text, patterns) == text[..at] + MASK + text[at..]
  {
    var p := EmptyMatch(text, at);
    assert FindsMatches(p) by {
      forall x: seq<byte>
        ensures Ordered(p(x), 0, |x|)
        ensures forall r | r in p(x) :: IsCharBoundary(x, r.start) && IsCharBoundary(x, r.end)
      {
        assert x == text ==> Ordered([Range(at, at)][1..], at, |x|);
      }
    }
    patterns := [p];
    assert ReplaceRanges(text, [Range(at, at)][1..], at) == text[at..];
    assert ReplaceMatches(text, p) == text[0..at] + (MASK + text[at..]);
    assert patterns[1..] == [];
  }

  lemma AgreesInside(s: seq<byte>, d: nat)
    requires Agrees(s, d)
    ensures d + |MASK| <= |s| ==> Occurs(s, MASK)
  {
    if d + |MASK| <= |s| {
      assert s[d..d + |MASK|] == MASK;
      assert OccursAt(s, MASK, d);
    }
  }

  /** Two texts laid over each other so that they agree make up both. */
  lemma OverlaidEnd(s: seq<byte>, d: nat, mask: seq<byte>)
    requires d <= |s| <= d + |mask|
    requires forall i | d <= i < |s| :: s[i] == mask[i - d]
    ensures OccursAt(s[..d] + mask, s, 0)
  {
    assert (s[..d] + mask)[0..|s|] == s;
  }

  lemma OverlaidStart(s: seq<byte>, k: nat, hi: nat, mask: seq<byte>)
    requires hi <= |s| && k + hi <= |mask| && (hi < |s| ==> k + hi == |mask|)
    requires forall i | 0 <= i < hi :: s[i] == mask[i + k]
    ensures OccursAt(mask + s[hi..], s, k)
  {
    assert (mask + s[hi..])[k..k + |s|] == s;
  }

  /** A mask over the end of a secret: what is in front of it, and the mask. */
  lemma FrontLeft(s: seq<byte>, d: nat)
    requires Valid(s) && d < |s| < d + |MASK| && Agrees(s, d)
    ensures Valid(s[..d]) && Occurs(s, s[..d]) && Occurs(s[..d] + MASK, s)
  {
    assert s[d] == MASK[0];
    ValidPrefix(s, d);
    assert s[0..d] == s[..d] && OccursAt(s, s[..d], 0);
    OverlaidEnd(s, d, MASK);
  }

  /** A mask over the beginning of a secret: the mask, and what is behind it. */
  lemma BackLeft(s: seq<byte>, k: nat, hi: nat, mask: seq<byte>)
    requires Valid(s) && hi <= |s| && 0 < hi && k + hi <= |mask| && (hi < |s| ==> k + hi == |mask|)
    requires forall i | 0 <= i < hi :: s[i] == mask[i + k] < 0x80
    ensures Valid(s[hi..]) && Occurs(s, s[hi..]) && Occurs(mask + s[hi..], s)
  {
    BoundaryAfterAscii(s, hi - 1);
    ValidSuffix(s, hi);
    assert OccursAt(s, s[hi..], hi);
    OverlaidStart(s, k, hi, mask);
  }

  /** What is left of a secret when a mask laid over its end is taken away; put back by a
      pattern, the secret is there again. */
  lemma LeftOver(s: seq<byte>, d: int) returns (text: seq<byte>, at: nat)
    requires s != [] && Valid(s) && !Occurs(s, MASK) && -|MASK| < d < |s| && Agrees(s, d)
    ensures Valid(text) && |text| < |s| && Occurs(s, text)
    ensures (at == 0 || at == |text|) && Occurs(text[..at] + MASK + text[at..], s)
  {
    if d >= 0 {
      AgreesInside(s, d);
      FrontLeft(s, d);
      text, at := s[..d], d;
      AppendEmpty(text, at, MASK);
    } else {
      var hi := Min(|MASK| + d, |s|);
      forall i | 0 <= i < hi ensures s[i] == MASK[i + (0 - d)] < 0x80 {
        assert s[i] == MASK[i - d];
      }
      BackLeft(s, 0 - d, hi, MASK);
      text, at := s[hi..], 0;
      PrependEmpty(text, at, MASK);
    }
  }

  lemma AppendEmpty(text: seq<byte>, at: nat, mask: seq<byte>)
    requires at == |text|
    ensures text[..at] + mask + text[at..] == text + mask
  {
  }

  lemma PrependEmpty(text: seq<byte>, at: nat, mask: seq<byte>)
    requires at == 0
    ensures text[..at] + mask + text[at..] == mask + text
  {
  }

  lemma UncoveredLeaks(secrets: Secrets, s: seq<byte>) returns (patterns: seq<Pattern>, text: seq<byte>)
    requires forall t | t in secrets :: Valid(t) && !Occurs(t, MASK)
    requires s in secrets && Masked(s) && !Covered(secrets, s)
    ensures Valid(text) && !Clean(Masker(secrets, patterns), text)
  {
    var r := Shortest(secrets, s);
    assert !ApartFromMask(r);
    var d :| -|MASK| < d < |r| && Agrees(r, d);
    var at;
    text, at := LeftOver(r, d);
    forall t | t in secrets && Masked(t) ensures !Occurs(text, t) {
      if Occurs(text, t) {
        OccursThrough(r, text, t);
      }
    }
    Untouched(text, secrets);
    patterns := MaskInserted(text, at);
  }

  /** Nothing is left of any masked secret, whatever the text and the patterns are. */
  ghost predicate AlwaysClean(secrets: Secrets) {
    forall patterns, text | Valid(text) :: Clean(Masker(secrets, patterns), text)
  }

  lemma CoveredListIsClean(m: Masker, text: seq<byte>)
    requires forall s | s in m.secrets && Masked(s) :: Covered(m.secrets, s)
    ensures Clean(m, text)
  {
    forall s | s in m.secrets && Masked(s) ensures !Occurs(ScrubText(m, text), s) {
      CoveredIsGone(m, text, s);
    }
  }

  lemma LeakyListIsNotClean(secrets: Secrets, patterns: seq<Pattern>, text: seq<byte>)
    requires Valid(text) && !Clean(Masker(secrets, patterns), text)
    ensures !AlwaysClean(secrets)
  {
  }

  /** The lists of secrets that are scrubbed out of every text, whatever the patterns are, are
      exactly those in which each masked secret contains, or is, one that is apart from the
      mask. (For secrets that do not contain a whole mask.) */
  lemma CleanExactly(secrets: Secrets)
    requires forall s | s in secrets :: Valid(s) && !Occurs(s, MASK)
    ensures AlwaysClean(secrets) <==> forall s | s in secrets && Masked(s) :: Covered(secrets, s)
  {
    if forall s | s in secrets && Masked(s) :: Covered(secrets, s) {
      forall patterns, text | Valid(text) ensures Clean(Masker(secrets, patterns), text) {
        CoveredListIsClean(Masker(secrets, patterns), text);
      }
    } else {
      var s :| s in secrets && Masked(s) && !Covered(secrets, s);
      var patterns, text := UncoveredLeaks(secrets, s);
      LeakyListIsNotClean(secrets, patterns, text);
    }
  }

  /** What masking does to a text that is a secret: from five bytes on "[MASKED]" stands for it. */
  lemma {:induction false} WholeIsMasked(s: seq<byte>)
    ensures |MASK| == 8 && forall i | 0 <= i < 8 :: MASK[i] as char == "[MASKED]"[i]
    ensures Scrub(s, [s]) == if |s| >= 5 then MASK else s
  {
    ScrubOne(s, s);
    if |s| >= 5 {
      assert s[..|s|] == s && s[|s|..] == [];
      assert MASK + [] == MASK;
    }
  }

  // ---- Secrets that survive ----

  /** "MASKED" as a secret is still readable in every mask, whatever the patterns are. */
  lemma MaskedIsNotMasked(m: Masker)
    requires m.secrets == [MASK[1..7]]
    ensures Occurs(ScrubText(m, MASK[1..7]), MASK[1..7])
  {
    var s := MASK[1..7];
    assert s[0..] == s && s[|s|..] == [];
    assert Replace(s, s) == MASK;
    ScrubOne(s, s);
    WholeOccurs(MASK);
    MaskStays(MASK, m.patterns);
    assert OccursAt(MASK, s, 1);
    OccursThrough(ScrubText(m, s), MASK, s);
  }

  lemma MaskStaysOnce(text: seq<byte>, rs: seq<Range>)
    requires Ordered(rs, 0, |text|) && Occurs(text, MASK)
    ensures Occurs(ReplaceRanges(text, rs, 0), MASK)
  {
    var r := ReplaceRanges(text, rs, 0);
    if rs == [] {
      assert text[0..] == text;
    } else {
      OrderedBounds(rs, 0, |text|);
      var head, rest := text[0..rs[0].start], ReplaceRanges(text, rs[1..], rs[0].end);
      assert (head + (MASK + rest))[|head|..|head| + |MASK|] == MASK;
      assert OccursAt(r, MASK, |head|);
    }
  }

  lemma {:induction false} MaskStays(text: seq<byte>, patterns: seq<Pattern>)
    requires Occurs(text, MASK)
    ensures Occurs(ScrubPatterns(text, patterns), MASK)
    decreases |patterns|
  {
    if patterns != [] {
      var p: Pattern := patterns[0];
      assert FindsMatches(p);
      MaskStaysOnce(text, p(text));
      MaskStays(ReplaceMatches(text, p), patterns[1..]);
    }
  }

  lemma FrontReplaced(s: seq<byte>, rest: seq<byte>)
    requires |rest| < |s|
    ensures Replace(s + rest, s) == MASK + rest
  {
    assert (s + rest)[..|s|] == s && (s + rest)[|s|..] == rest;
    ReplaceShort(rest, s);
  }

  lemma CompletedByEnd(mask: seq<byte>, s: seq<byte>)
    requires mask != [] && s != [] && mask[|mask| - 1] == s[0]
    ensures Occurs(mask + s[1..], s)
  {
    assert (mask + s[1..])[|mask| - 1..|mask| - 1 + |s|] == s;
    assert OccursAt(mask + s[1..], s, |mask| - 1);
  }

  /** With a border in the secret the mask can complete it, as "]abcd" in "]abcdabcd", with any patterns
      that find nothing in what the secrets leave. */
  lemma MaskCompletesASecret(m: Masker, s: seq<byte>)
    requires m.secrets == [s] && Masked(s) && s[0] == 0x5D && FindsNothing(m.patterns, MASK + s[1..])
    ensures Occurs(ScrubText(m, s + s[1..]), s)
  {
    FrontReplaced(s, s[1..]);
    ScrubOne(s + s[1..], s);
    NothingFound(m.patterns, MASK + s[1..]);
    CompletedByEnd(MASK, s);
  }

  lemma {:induction false} ReplaceShort(text: seq<byte>, s: seq<byte>)
    requires |text| < |s|
    ensures Replace(text, s) == text
  {
    if text != [] {
      ReplaceShort(text[1..], s);
      assert [text[0]] + text[1..] == text;
    }
  }
}
