/** One of the patterns the runner always has, `password\s*[:=]\s*\S{8,}`, as `find_iter` searches for it. */
module PasswordPattern {
  import opened Bytes
  import opened Utf8
  import opened Scrubber
  import opened StreamScrubbing
  import opened PatternSearch

  /** "password" */
  const WORD: seq<byte> := [0x70, 0x61, 0x73, 0x73, 0x77, 0x6F, 0x72, 0x64]

  /** The end of the whitespace that begins at `i`. */
  function SpaceEnd(text: seq<byte>, i: nat): (e: nat)
    requires i <= |text|
    ensures i <= e <= |text|
    decreases |text| - i
  {
    if i < |text| && 0 < WhitespaceAt(text, i) <= |text| - i then SpaceEnd(text, i + WhitespaceAt(text, i)) else i
  }

  /** How many characters begin between `lo` and `hi`. */
  function Chars(text: seq<byte>, lo: nat, hi: nat): (n: nat)
    requires lo <= hi <= |text|
    ensures n <= hi - lo
    decreases hi - lo
  {
    if lo == hi then 0 else (if IsContinuation(text[lo]) then 0 else 1) + Chars(text, lo + 1, hi)
  }

  /** The end of a match that begins at `i`; 0 if there is none. */
  function MatchEnd(text: seq<byte>, i: nat): (e: nat)
    requires i <= |text|
    ensures e == 0 || i < e <= |text|
  {
    if !IsPrefix(WORD, text[i..]) then 0
    else
      var j := SpaceEnd(text, i + |WORD|);
      if j == |text| || text[j] !in [0x3A, 0x3D] then 0
      else
        var k := SpaceEnd(text, j + 1);
        var e := FindWhitespace(text, k);
        if Chars(text, k, e) >= 8 then e else 0
  }

  function PasswordEnds(): Ends {
    var ends := (text: seq<byte>, i: nat) => if i <= |text| then MatchEnd(text, i) else 0;
    assert MovesOn(ends);
    ends
  }

  function PasswordsFrom(text: seq<byte>, i: nat): (rs: seq<Range>)
    requires i <= |text|
  {
    Search(PasswordEnds(), text, i)
  }

  function Passwords(text: seq<byte>): (rs: seq<Range>) {
    PasswordsFrom(text, 0)
  }

  lemma MatchOnChars(text: seq<byte>, i: nat)
    requires i <= |text| && MatchEnd(text, i) > 0
    ensures IsCharBoundary(text, i) && IsCharBoundary(text, MatchEnd(text, i)) && text[i] == WORD[0]
  {
    assert text[i..][..|WORD|][0] == text[i];
  }

  /** It is a pattern: its matches do not overlap and lie on characters. */
  lemma {:induction false} PasswordsIsPattern()
    ensures FindsMatches(Passwords)
  {
    forall text: seq<byte>
      ensures Ordered(Passwords(text), 0, |text|)
      ensures forall r | r in Passwords(text) :: IsCharBoundary(text, r.start) && IsCharBoundary(text, r.end)
    {
      forall k | 0 <= k < |text| && PasswordEnds()(text, k) > 0
        ensures IsCharBoundary(text, k) && IsCharBoundary(text, PasswordEnds()(text, k))
      {
        MatchOnChars(text, k);
      }
      SearchOnChars(PasswordEnds(), text, 0);
    }
  }

  function PasswordsPattern(): Pattern {
    PasswordsIsPattern();
    assert FindsMatches(Passwords);
    Passwords
  }

  // ---- Where it matches ----

  lemma NoPasswords(text: seq<byte>, i: nat)
    requires i <= |text| && forall k | i <= k < |text| :: MatchEnd(text, k) == 0
    ensures PasswordsFrom(text, i) == []
  {
    NothingFrom(PasswordEnds(), text, i);
  }

  /** Up to its first match. */
  lemma FirstPassword(text: seq<byte>, i: nat, at: nat)
    requires i <= at < |text| && MatchEnd(text, at) > 0 && forall k | i <= k < at :: MatchEnd(text, k) == 0
    ensures PasswordsFrom(text, i) == [Range(at, MatchEnd(text, at))] + PasswordsFrom(text, MatchEnd(text, at))
  {
    FirstFrom(PasswordEnds(), text, i, at, MatchEnd(text, at));
  }

  /** Only the letter p begins a match. */
  lemma NoLetterNoMatch(text: seq<byte>, i: nat)
    requires i < |text| && text[i] != WORD[0]
    ensures MatchEnd(text, i) == 0
  {
    if MatchEnd(text, i) > 0 {
      MatchOnChars(text, i);
    }
  }

  predicate Visible(b: byte) {
    0x20 < b < 0x7F
  }

  lemma {:induction false} VisibleRun(text: seq<byte>, lo: nat, hi: nat)
    requires lo <= hi <= |text| && forall k | lo <= k < hi :: Visible(text[k])
    requires hi == |text| || text[hi] == 0x0A
    ensures FindWhitespace(text, lo) == hi && Chars(text, lo, hi) == hi - lo
    decreases hi - lo
  {
    if lo < hi {
      assert Visible(text[lo]);
      VisibleRun(text, lo + 1, hi);
    }
  }

  /** Nothing but whitespace characters from `a` to `b`. */
  ghost predicate Spaces(text: seq<byte>, a: nat, b: nat)
    requires a <= b <= |text|
    decreases b - a
  {
    a == b || (0 < WhitespaceAt(text, a) <= b - a && Spaces(text, a + WhitespaceAt(text, a), b))
  }

  lemma {:induction false} SpacesEnd(text: seq<byte>, a: nat, b: nat)
    requires a <= b <= |text| && Spaces(text, a, b) && (b < |text| ==> WhitespaceAt(text, b) == 0)
    ensures SpaceEnd(text, a) == b
    decreases b - a
  {
    if a < b {
      SpacesEnd(text, a + WhitespaceAt(text, a), b);
    }
  }

  /** Any assignment: the word, whitespace, a colon or an equals sign, whitespace, and the rest up to the
      next whitespace, which is the password if it has at least eight characters. */
  lemma {:induction false} AssignmentExactly(text: seq<byte>, i: nat, j: nat, k: nat, e: nat)
    requires i + 8 <= j < k <= e <= |text| && (forall n | 0 <= n < 8 :: text[i + n] as char == "password"[n])
    requires Spaces(text, i + 8, j) && text[j] as char in [':', '='] && Spaces(text, j + 1, k)
    requires (forall n | k <= n < e :: WhitespaceAt(text, n) == 0) && (e < |text| ==> WhitespaceAt(text, e) > 0)
    requires k < |text| ==> WhitespaceAt(text, k) == 0
    ensures MatchEnd(text, i) == if Chars(text, k, e) >= 8 then e else 0
  {
    WordThere(text, i);
    SpacesEnd(text, i + 8, j);
    SpacesEnd(text, j + 1, k);
    WhitespaceFound(text, k, e);
    EndOfMatch(text, i, j, k, e);
  }

  lemma EndOfMatch(text: seq<byte>, i: nat, j: nat, k: nat, e: nat)
    requires i + |WORD| <= j < k <= e <= |text| && IsPrefix(WORD, text[i..]) && text[j] in [0x3A, 0x3D]
    requires SpaceEnd(text, i + |WORD|) == j && SpaceEnd(text, j + 1) == k && FindWhitespace(text, k) == e
    ensures MatchEnd(text, i) == if Chars(text, k, e) >= 8 then e else 0
  {
  }

  lemma WordThere(text: seq<byte>, i: nat)
    requires i + 8 <= |text| && forall n | 0 <= n < 8 :: text[i + n] as char == "password"[n]
    ensures IsPrefix(WORD, text[i..])
  {
    forall n | 0 <= n < 8 ensures text[i..][..8][n] == WORD[n] {
      assert text[i..][..8][n] == text[i + n] && text[i + n] as char == "password"[n];
    }
  }

  lemma {:induction false} WhitespaceFound(text: seq<byte>, k: nat, e: nat)
    requires k <= e <= |text| && forall n | k <= n < e :: WhitespaceAt(text, n) == 0
    requires e < |text| ==> WhitespaceAt(text, e) > 0
    ensures FindWhitespace(text, k) == e
    decreases e - k
  {
    if k < e {
      WhitespaceFound(text, k + 1, e);
    }
  }

  /** An assignment of visible characters, at the end of a text or of a line: eight are enough. */
  lemma AssignmentMatches(text: seq<byte>, at: nat, value: nat, end: nat)
    requires at + |WORD| + 1 == value && value < end <= |text| && (end == |text| || text[end] == 0x0A)
    requires IsPrefix(WORD, text[at..]) && text[value - 1] in [0x3A, 0x3D]
    requires forall k | value <= k < end :: Visible(text[k])
    ensures MatchEnd(text, at) == if end - value >= 8 then end else 0
  {
    assert Visible(text[value]);
    assert SpaceEnd(text, at + |WORD|) == value - 1 && SpaceEnd(text, value) == value;
    VisibleRun(text, value, end);
  }

  /** A word that is followed by something else than whitespace, a colon or an equals sign. */
  lemma NoAssignment(text: seq<byte>, at: nat)
    requires at + |WORD| < |text| && Visible(text[at + |WORD|]) && text[at + |WORD|] !in [0x3A, 0x3D]
    ensures MatchEnd(text, at) == 0
  {
    assert SpaceEnd(text, at + |WORD|) == at + |WORD|;
  }
}
