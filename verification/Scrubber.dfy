/** Whole-text masking (`SecretScrubber`): one replacement pass per secret, one per regex
    pattern, and what the passes together do to a text. */
module Scrubber {
  import opened Bytes
  import opened Utf8

  /** "[MASKED]" */
  const MASK: seq<byte> := [0x5B, 0x4D, 0x41, 0x53, 0x4B, 0x45, 0x44, 0x5D]
  const OPEN_BRACKET: byte := 0x5B

  /** Secrets of up to 4 bytes are not masked. */
  predicate Masked(secret: seq<byte>) {
    |secret| > 4
  }

  /** `str::replace(secret, "[MASKED]")`: leftmost matches, none overlapping an earlier one. */
  function Replace(text: seq<byte>, secret: seq<byte>): (r: seq<byte>)
    requires secret != []
  {
    if text == [] then []
    else if IsPrefix(secret, text) then MASK + Replace(text[|secret|..], secret)
    else [text[0]] + Replace(text[1..], secret)
  }

  /** `SecretScrubber::scrub` for exact secrets: one pass per secret, each on the text the
      passes before it left. */
  function Scrub(text: seq<byte>, secrets: seq<seq<byte>>): (r: seq<byte>)
    decreases |secrets|
  {
    if secrets == [] then text
    else Scrub(if Masked(secrets[0]) then Replace(text, secrets[0]) else text, secrets[1..])
  }

  // ---- Patterns ----

  /** Byte range of a match. */
  datatype Range = Range(start: nat, end: nat)

  /** Ranges between `from` and `len`, one after the other. */
  predicate Ordered(rs: seq<Range>, from: nat, len: nat) {
    if rs == [] then from <= len
    else from <= rs[0].start <= rs[0].end && Ordered(rs[1..], rs[0].end, len)
  }

  lemma {:induction false} OrderedBounds(rs: seq<Range>, from: nat, len: nat)
    requires Ordered(rs, from, len)
    ensures from <= len && forall r | r in rs :: from <= r.start <= r.end <= len
  {
    if rs != [] {
      OrderedBounds(rs[1..], rs[0].end, len);
      assert forall r | r in rs :: r == rs[0] || r in rs[1..];
    }
  }

  /** A regex, as far as the runner sees it: where `find_iter` matches in a text. The matches
      do not overlap, may be empty, and begin and end at characters. */
  ghost predicate FindsMatches(p: seq<byte> -> seq<Range>) {
    forall text ::
      Ordered(p(text), 0, |text|)
      && forall r | r in p(text) :: IsCharBoundary(text, r.start) && IsCharBoundary(text, r.end)
  }

  type Pattern = p: seq<byte> -> seq<Range> | FindsMatches(p) ghost witness (text: seq<byte>) => []

  /** The part of `text` from `from` on, with a mask for each range. */
  function ReplaceRanges(text: seq<byte>, rs: seq<Range>, from: nat): (r: seq<byte>)
    requires Ordered(rs, from, |text|)
    decreases |rs|
  {
    if rs == [] then text[from..]
    else
      OrderedBounds(rs, from, |text|);
      text[from..rs[0].start] + (MASK + ReplaceRanges(text, rs[1..], rs[0].end))
  }

  /** `Regex::replace_all(text, "[MASKED]")` */
  function ReplaceMatches(text: seq<byte>, p: Pattern): (r: seq<byte>) {
    assert FindsMatches(p);
    ReplaceRanges(text, p(text), 0)
  }

  function ScrubPatterns(text: seq<byte>, patterns: seq<Pattern>): (r: seq<byte>)
    decreases |patterns|
  {
    if patterns == [] then text else ScrubPatterns(ReplaceMatches(text, patterns[0]), patterns[1..])
  }

  /** None of the patterns matches in `text`. */
  ghost predicate FindsNothing(patterns: seq<Pattern>, text: seq<byte>) {
    forall i | 0 <= i < |patterns| :: patterns[i](text) == []
  }

  lemma NothingToReplace(p: Pattern, text: seq<byte>)
    requires p(text) == []
    ensures ReplaceMatches(text, p) == text
  {
    assert FindsMatches(p) && text[0..] == text;
  }

  lemma {:induction false} NothingFound(patterns: seq<Pattern>, text: seq<byte>)
    requires FindsNothing(patterns, text)
    ensures ScrubPatterns(text, patterns) == text
    decreases |patterns|
  {
    if patterns != [] {
      NothingToReplace(patterns[0], text);
      NothingFound(patterns[1..], text);
    }
  }

  /** Secrets as Rust strings hold them: each begins with a character. */
  type Secrets = ss: seq<seq<byte>> | forall s | s in ss :: StartsChar(s) witness []

  datatype Masker = Masker(secrets: Secrets, patterns: seq<Pattern>)

  /** `SecretScrubber::scrub`: the secrets, and then the patterns. */
  function ScrubText(m: Masker, text: seq<byte>): (r: seq<byte>) {
    ScrubPatterns(Scrub(text, m.secrets), m.patterns)
  }

  /** The two pass loops of `scrub`. */
  method ScrubLoop(m: Masker, text: seq<byte>) returns (result: seq<byte>)
    ensures result == ScrubText(m, text)
  {
    result := text;
    for i := 0 to |m.secrets|
      invariant Scrub(result, m.secrets[i..]) == Scrub(text, m.secrets)
    {
      assert m.secrets[i..][1..] == m.secrets[i + 1..];
      if Masked(m.secrets[i]) {
        result := Replace(result, m.secrets[i]);
      }
    }
    for i := 0 to |m.patterns|
      invariant ScrubPatterns(result, m.patterns[i..]) == ScrubText(m, text)
    {
      assert m.patterns[i..][1..] == m.patterns[i + 1..];
      result := ReplaceMatches(result, m.patterns[i]);
    }
  }

  lemma ScrubOne(text: seq<byte>, s: seq<byte>)
    ensures Scrub(text, [s]) == if Masked(s) then Replace(text, s) else text
  {
    var none: seq<seq<byte>> := [];
    assert [s][1..] == none;
  }

  // ---- No secret survives ----

  /** Text with masks kept apart from ordinary bytes. */
  datatype Token = Plain(b: byte) | Mask

  function Flatten(ts: seq<Token>): (text: seq<byte>) {
    if ts == [] then []
    else (if ts[0].Mask? then MASK else [ts[0].b]) + Flatten(ts[1..])
  }

  function Tokens(text: seq<byte>): (ts: seq<Token>)
    ensures |ts| == |text|
    ensures forall i | 0 <= i < |text| :: ts[i] == Plain(text[i])
  {
    seq(|text|, i requires 0 <= i < |text| => Plain(text[i]))
  }

  predicate PlainPrefix(s: seq<byte>, ts: seq<Token>) {
    |s| <= |ts| && forall i | 0 <= i < |s| :: ts[i] == Plain(s[i])
  }

  function ReplaceTokens(ts: seq<Token>, secret: seq<byte>): (r: seq<Token>)
    requires secret != []
  {
    if ts == [] then []
    else if PlainPrefix(secret, ts) then [Mask] + ReplaceTokens(ts[|secret|..], secret)
    else [ts[0]] + ReplaceTokens(ts[1..], secret)
  }

  function ScrubTokens(ts: seq<Token>, secrets: seq<seq<byte>>): (r: seq<Token>)
    decreases |secrets|
  {
    if secrets == [] then ts
    else ScrubTokens(if Masked(secrets[0]) then ReplaceTokens(ts, secrets[0]) else ts, secrets[1..])
  }

  /** A mask laid over `s` from offset `d` on agrees with `s` wherever they meet. */
  predicate Agrees(s: seq<byte>, d: int) {
    forall i | 0 <= i < |s| && 0 <= i - d < |MASK| :: s[i] == MASK[i - d]
  }

  /** A secret that can share no byte with a mask, in any text: it does not lie inside one, nor
      contain one, nor begin as one ends or end as one begins. */
  ghost predicate ApartFromMask(s: seq<byte>) {
    forall d | -|MASK| < d < |s| :: !Agrees(s, d)
  }

  ghost predicate AllApart(secrets: seq<seq<byte>>) {
    forall s | s in secrets && Masked(s) :: ApartFromMask(s)
  }

  lemma {:induction false} FlattenConcat(a: seq<Token>, b: seq<Token>)
    ensures Flatten(a + b) == Flatten(a) + Flatten(b)
  {
    if a == [] {
      assert a + b == b;
    } else {
      assert (a + b)[1..] == a[1..] + b;
      FlattenConcat(a[1..], b);
      Reassociate(if a[0].Mask? then MASK else [a[0].b], Flatten(a[1..]), Flatten(b));
    }
  }

  lemma {:induction false} FlattenTokens(text: seq<byte>)
    ensures Flatten(Tokens(text)) == text
  {
    if text != [] {
      assert Tokens(text)[1..] == Tokens(text[1..]);
      FlattenTokens(text[1..]);
      TakeAndDrop(text, 1);
      assert text[..1] == [text[0]];
    }
  }

  lemma PrefixAt(s: seq<byte>, text: seq<byte>, k: nat)
    requires IsPrefix(s, text) && k < |s|
    ensures s[k] == text[k]
  {
    assert text[..|s|][k] == text[k];
  }

  lemma {:induction false} PlainIsPrefix(ts: seq<Token>, s: seq<byte>)
    requires PlainPrefix(s, ts)
    ensures IsPrefix(s, Flatten(ts))
    decreases |s|
  {
    if s != [] {
      assert ts[0] == Plain(s[0]);
      assert Flatten(ts)[1..] == Flatten(ts[1..]) && Flatten(ts)[0] == s[0];
      PlainStep(s, ts);
      PlainIsPrefix(ts[1..], s[1..]);
      PrefixStep(s, Flatten(ts));
    }
  }

  lemma AgreesShifted(s: seq<byte>, d: nat)
    requires s != [] && d < |s| - 1 && Agrees(s[1..], d)
    ensures Agrees(s, d + 1)
  {
    forall i | 0 <= i < |s| && 0 <= i - (d + 1) < |MASK| ensures s[i] == MASK[i - (d + 1)] {
      assert s[1..][i - 1] == s[i];
    }
  }

  lemma PrefixOfMask(rest: seq<byte>, s: seq<byte>, k: int)
    requires 0 <= k < |MASK| && IsPrefix(s, (MASK + rest)[k..])
    ensures Agrees(s, -k)
  {
    var text := (MASK + rest)[k..];
    forall i | 0 <= i < |s| && 0 <= i + k < |MASK| ensures s[i] == MASK[i + k] {
      PrefixAt(s, text, i);
      assert text[i] == MASK[i + k];
    }
  }

  /** Bytes in front of a flattened text are plain tokens, or meet a mask. */
  lemma {:induction false} PrefixIsPlain(ts: seq<Token>, s: seq<byte>)
    requires IsPrefix(s, Flatten(ts))
    ensures PlainPrefix(s, ts) || exists d: nat :: d < |s| && Agrees(s, d)
    decreases |s|
  {
    if s != [] {
      if ts[0].Mask? {
        assert (MASK + Flatten(ts[1..]))[0..] == Flatten(ts);
        PrefixOfMask(Flatten(ts[1..]), s, 0);
        assert Agrees(s, 0);
      } else {
        PrefixAt(s, Flatten(ts), 0);
        assert Flatten(ts)[1..] == Flatten(ts[1..]) && Flatten(ts)[0] == ts[0].b;
        PrefixStep(s, Flatten(ts));
        PrefixIsPlain(ts[1..], s[1..]);
        PlainStep(s, ts);
        if !PlainPrefix(s[1..], ts[1..]) {
          var d: nat :| d < |s[1..]| && Agrees(s[1..], d);
          AgreesShifted(s, d);
        }
      }
    }
  }

  lemma FlattenPrefix(ts: seq<Token>, s: seq<byte>)
    requires ApartFromMask(s)
    ensures IsPrefix(s, Flatten(ts)) <==> PlainPrefix(s, ts)
  {
    if IsPrefix(s, Flatten(ts)) {
      PrefixIsPlain(ts, s);
    }
    if PlainPrefix(s, ts) {
      PlainIsPrefix(ts, s);
    }
  }

  lemma PlainStep(s: seq<byte>, ts: seq<Token>)
    requires s != [] && ts != [] && ts[0] == Plain(s[0])
    ensures PlainPrefix(s, ts) <==> PlainPrefix(s[1..], ts[1..])
  {
    if PlainPrefix(s[1..], ts[1..]) {
      forall i | 0 <= i < |s| ensures ts[i] == Plain(s[i]) {
        assert i > 0 ==> ts[1..][i - 1] == Plain(s[1..][i - 1]);
      }
    }
  }

  lemma PrefixStep(s: seq<byte>, text: seq<byte>)
    requires s != [] && text != [] && s[0] == text[0]
    ensures IsPrefix(s, text) <==> IsPrefix(s[1..], text[1..])
  {
    if IsPrefix(s, text) {
      assert text[1..][..|s| - 1] == text[..|s|][1..];
    }
    if IsPrefix(s[1..], text[1..]) {
      assert text[..|s|] == [text[0]] + text[1..][..|s| - 1];
      assert s == [s[0]] + s[1..];
    }
  }

  lemma {:induction false} FlattenDrop(ts: seq<Token>, n: nat)
    requires n <= |ts| && forall i | 0 <= i < n :: ts[i].Plain?
    ensures n <= |Flatten(ts)| && Flatten(ts)[n..] == Flatten(ts[n..])
    decreases n
  {
    if n == 0 {
      assert ts[0..] == ts;
    } else {
      FlattenDrop(ts[1..], n - 1);
      assert Flatten(ts)[n..] == Flatten(ts[1..])[n - 1..];
      assert ts[1..][n - 1..] == ts[n..];
    }
  }

  /** Stretches without a match are copied. */
  lemma {:induction false} ReplaceSkips(text: seq<byte>, s: seq<byte>, n: nat)
    requires s != [] && n <= |text|
    requires forall k | 0 <= k < n :: !IsPrefix(s, text[k..])
    ensures Replace(text, s) == text[..n] + Replace(text[n..], s)
    decreases n
  {
    if n == 0 {
      assert text[0..] == text && text[..0] == [];
    } else {
      assert text[0..] == text;
      forall k | 0 <= k < n - 1 ensures !IsPrefix(s, text[1..][k..]) {
        assert text[1..][k..] == text[k + 1..];
      }
      ReplaceSkips(text[1..], s, n - 1);
      assert text[1..][n - 1..] == text[n..];
      assert text[..n] == [text[0]] + text[1..][..n - 1];
    }
  }

  /** No occurrence of a secret that is apart from the mask starts inside a mask. */
  lemma NoMatchInMask(rest: seq<byte>, s: seq<byte>, k: nat)
    requires ApartFromMask(s) && Masked(s) && k < |MASK|
    ensures !IsPrefix(s, (MASK + rest)[k..])
  {
    if IsPrefix(s, (MASK + rest)[k..]) {
      PrefixOfMask(rest, s, k);
    }
  }

  lemma {:induction false} ReplaceFlatten(ts: seq<Token>, s: seq<byte>)
    requires ApartFromMask(s) && Masked(s)
    ensures Replace(Flatten(ts), s) == Flatten(ReplaceTokens(ts, s))
    decreases |ts|
  {
    if ts != [] {
      FlattenPrefix(ts, s);
      if ts[0].Mask? {
        var text, rest := Flatten(ts), Flatten(ts[1..]);
        forall k | 0 <= k < |MASK| ensures !IsPrefix(s, text[k..]) {
          NoMatchInMask(rest, s, k);
        }
        ReplaceSkips(text, s, |MASK|);
        assert text[|MASK|..] == rest && text[..|MASK|] == MASK;
        ReplaceFlatten(ts[1..], s);
        FlattenConcat([Mask], ReplaceTokens(ts[1..], s));
      } else if PlainPrefix(s, ts) {
        FlattenDrop(ts, |s|);
        ReplaceFlatten(ts[|s|..], s);
        FlattenConcat([Mask], ReplaceTokens(ts[|s|..], s));
      } else {
        assert Flatten(ts)[1..] == Flatten(ts[1..]);
        ReplaceFlatten(ts[1..], s);
        FlattenConcat([ts[0]], ReplaceTokens(ts[1..], s));
      }
    }
  }

  lemma {:induction false} ScrubFlatten(ts: seq<Token>, secrets: seq<seq<byte>>)
    requires AllApart(secrets)
    ensures Scrub(Flatten(ts), secrets) == Flatten(ScrubTokens(ts, secrets))
    decreases |secrets|
  {
    if secrets != [] {
      var s := secrets[0];
      if Masked(s) {
        ReplaceFlatten(ts, s);
        ScrubFlatten(ReplaceTokens(ts, s), secrets[1..]);
      } else {
        ScrubFlatten(ts, secrets[1..]);
      }
    }
  }

  /** `s` stands in `ts` at token `i`, in ordinary bytes. */
  predicate PlainAt(ts: seq<Token>, s: seq<byte>, i: nat) {
    i <= |ts| && PlainPrefix(s, ts[i..])
  }

  ghost predicate PlainOccurs(ts: seq<Token>, s: seq<byte>) {
    exists i: nat :: PlainAt(ts, s, i)
  }

  /** What stands in front after a pass stood there before it. */
  lemma {:induction false} ReplaceKeepsPrefix(ts: seq<Token>, s: seq<byte>, t: seq<byte>)
    requires s != [] && PlainPrefix(t, ReplaceTokens(ts, s))
    ensures PlainPrefix(t, ts)
    decreases |ts|
  {
    if t != [] {
      var r := ReplaceTokens(ts, s);
      assert r[0] == Plain(t[0]);
      assert r[1..] == ReplaceTokens(ts[1..], s);
      assert PlainPrefix(t[1..], r[1..]);
      ReplaceKeepsPrefix(ts[1..], s, t[1..]);
    }
  }

  /** A pass never makes an occurrence, and leaves none of its own secret. */
  lemma {:induction false} ReplaceMakesNone(ts: seq<Token>, s: seq<byte>, t: seq<byte>, i: nat)
    requires s != [] && PlainAt(ReplaceTokens(ts, s), t, i) && t != []
    ensures PlainOccurs(ts, t) && t != s
    decreases |ts|
  {
    var r := ReplaceTokens(ts, s);
    if i == 0 {
      assert r[0..] == r && ts[0..] == ts;
      assert r[0] == Plain(t[0]);
      ReplaceKeepsPrefix(ts, s, t);
      assert PlainAt(ts, t, 0);
    } else {
      var n := if PlainPrefix(s, ts) then |s| else 1;
      assert r[1..] == ReplaceTokens(ts[n..], s) && r[1..][i - 1..] == r[i..];
      ReplaceMakesNone(ts[n..], s, t, i - 1);
      var j: nat :| PlainAt(ts[n..], t, j);
      assert ts[n..][j..] == ts[n + j..];
      assert PlainAt(ts, t, n + j);
    }
  }

  /** An occurrence in the flattened text is one in the tokens. */
  lemma {:induction false} FlattenOccurs(ts: seq<Token>, s: seq<byte>, i: nat)
    requires ApartFromMask(s) && Masked(s) && OccursAt(Flatten(ts), s, i)
    ensures PlainOccurs(ts, s)
    decreases |ts|
  {
    var text, rest := Flatten(ts), Flatten(ts[1..]);
    var n := if ts[0].Mask? then |MASK| else 1;
    assert text[n..] == rest;
    if i >= n {
      OccursInTail(text, s, n, i - n);
      FlattenOccurs(ts[1..], s, i - n);
      var j: nat :| PlainAt(ts[1..], s, j);
      assert ts[1..][j..] == ts[j + 1..];
      assert PlainAt(ts, s, j + 1);
    } else if ts[0].Mask? {
      OccursInTail(text, s, i, 0);
      NoMatchInMask(rest, s, i);
    } else {
      assert ts[0..] == ts;
      FlattenPrefix(ts, s);
      assert PlainAt(ts, s, 0);
    }
  }

}
