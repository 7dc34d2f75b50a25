/** Strings stay strings: everything the streaming masker emits or keeps begins with a
    character, for any secrets and any patterns. */
module StreamOutput {
  import opened Bytes
  import opened Utf8
  import opened Scrubber
  import opened StreamScrubbing
  import opened StreamCuts

  lemma {:induction false} ScrubStartsChar(text: seq<byte>, secrets: seq<seq<byte>>)
    requires StartsChar(text)
    ensures StartsChar(Scrub(text, secrets))
    decreases |secrets|
  {
    if secrets != [] {
      ScrubStartsChar(if Masked(secrets[0]) then Replace(text, secrets[0]) else text, secrets[1..]);
    }
  }

  lemma {:induction false} PatternsStartChar(text: seq<byte>, patterns: seq<Pattern>)
    requires StartsChar(text)
    ensures StartsChar(ScrubPatterns(text, patterns))
    decreases |patterns|
  {
    if patterns != [] {
      var p: Pattern := patterns[0];
      assert FindsMatches(p);
      RangesStartChar(text, p(text));
      PatternsStartChar(ReplaceMatches(text, p), patterns[1..]);
    }
  }

  lemma RangesStartChar(text: seq<byte>, rs: seq<Range>)
    requires StartsChar(text) && Ordered(rs, 0, |text|)
    ensures StartsChar(ReplaceRanges(text, rs, 0))
  {
    OrderedBounds(rs, 0, |text|);
  }

  lemma ScrubTextStartsChar(m: Masker, text: seq<byte>)
    requires StartsChar(text)
    ensures StartsChar(ScrubText(m, text))
  {
    ScrubStartsChar(text, m.secrets);
    PatternsStartChar(Scrub(text, m.secrets), m.patterns);
  }

  lemma {:induction false} PatternRangesStartChars(text: seq<byte>, patterns: seq<Pattern>)
    ensures forall r | r in PatternRanges(text, patterns) :: IsCharBoundary(text, r.start)
  {
    if patterns != [] {
      assert FindsMatches(patterns[0]);
      PatternRangesStartChars(text, patterns[1..]);
    }
  }

  /** Matches start with a character. */
  lemma RangesStartChars(m: Masker, text: seq<byte>)
    ensures forall r | r in MatchRanges(m, text) :: IsCharBoundary(text, r.start)
  {
    PatternRangesStartChars(text, m.patterns);
    forall r | r in SecretRanges(text, m.secrets) ensures IsCharBoundary(text, r.start) {
      var s := RangeOwner(text, m.secrets, r);
      assert StartsChar(s) && text[r.start..r.start + |s|][0] == s[0];
    }
  }

  lemma {:induction false} LowerIsBoundary(text: seq<byte>, rs: seq<Range>, b: nat)
    requires IsCharBoundary(text, b) && forall r | r in rs :: IsCharBoundary(text, r.start)
    ensures IsCharBoundary(text, Lower(rs, b, |text|))
    decreases |rs|
  {
    if rs != [] {
      LowerIsBoundary(text, rs[1..], LowerOnce(rs[0], b, |text|));
    }
  }

  lemma CutForIsBoundary(text: seq<byte>, held: nat, matches: seq<Range>)
    requires held <= |text| && forall r | r in matches :: IsCharBoundary(text, r.start)
    ensures IsCharBoundary(text, CutFor(text, held, matches))
  {
    LowerIsBoundary(text, matches, FloorBoundary(text, |text| - held));
  }

  /** The text is never cut inside a character. */
  lemma CutPointIsBoundary(m: Masker, text: seq<byte>)
    ensures IsCharBoundary(text, CutPoint(m, text))
  {
    RangesStartChars(m, text);
    CutForIsBoundary(text, HeldBack(text, m.secrets), MatchRanges(m, text));
  }

  lemma PieceStartsChar(m: Masker, text: seq<byte>, b: nat)
    requires StartsChar(text) && b <= |text|
    ensures StartsChar(ScrubText(m, text[..b]))
    ensures IsCharBoundary(text, b) ==> StartsChar(text[b..])
  {
    ScrubTextStartsChar(m, text[..b]);
  }

  lemma ReleaseAtStartsChar(m: Masker, text: seq<byte>, b: nat, limit: nat, matches: seq<Range>)
    requires StartsChar(text) && b <= |text| && IsCharBoundary(text, b)
    ensures var p := ReleaseAt(m, text, b, limit, matches); StartsChar(p.out) && StartsChar(p.state.pending)
  {
    PieceStartsChar(m, text, b);
    if |text| - b > limit {
      PieceStartsChar(m, text, StartAtEnd(matches, |text|));
      PieceStartsChar(m, text, CeilBoundary(text, |text| - limit));
    }
  }

  lemma ReleaseStartsChar(m: Masker, text: seq<byte>)
    requires StartsChar(text)
    ensures StartsChar(Release(m, text).out) && StartsChar(Release(m, text).state.pending)
  {
    CutPointIsBoundary(m, text);
    ReleaseAtStartsChar(m, text, CutPoint(m, text), Limit(m.secrets), MatchRanges(m, text));
  }

  lemma {:induction false} PushStartsChar(m: Masker, st: State, chunk: seq<byte>)
    requires StartsChar(st.pending) && StartsChar(chunk)
    ensures StartsChar(PushChunk(m, st, chunk).out) && StartsChar(PushChunk(m, st, chunk).state.pending)
  {
    if st.swallowing {
      var end := FindWhitespace(chunk, 0);
      ReleaseStartsChar(m, st.pending + chunk[end..]);
    } else {
      ReleaseStartsChar(m, st.pending + chunk);
    }
  }
}
