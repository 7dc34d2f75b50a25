/** The streaming masker (`StreamScrubber`): what it holds back of a text that is not complete
    yet, where it cuts, that no cut goes through a match, and exactly when it masks what
    `scrub` masks on the whole text. */
module StreamScrubbing {
  import opened Bytes
  import opened Utf8
  import opened Scrubber

  /** MAX_HOLDBACK and MAX_PENDING */
  const MAX_HOLDBACK: nat := 256
  const MAX_PENDING: nat := 16384

  // ---- What is held back ----

  /** `is_token_char` */
  predicate IsTokenByte(b: byte) {
    || 0x30 <= b <= 0x39 || 0x41 <= b <= 0x5A || 0x61 <= b <= 0x7A
    || b in [0x2D, 0x5F, 0x2B, 0x2F, 0x3D, 0x2E, 0x3A, 0x40, 0x25, 0x7E]
  }

  /** Length of the run of token bytes at the end. */
  function TokenRun(text: seq<byte>): (n: nat)
    ensures n <= |text|
    ensures n > 0 ==> forall i | |text| - n <= i < |text| :: IsTokenByte(text[i])
  {
    if text == [] || !IsTokenByte(text[|text| - 1]) then 0 else 1 + TokenRun(text[..|text| - 1])
  }

  predicate EndsInPrefix(text: seq<byte>, secret: seq<byte>, k: nat) {
    k < |secret| && IsCharBoundary(secret, k) && EndsWith(text, secret[..k])
  }

  /** The longest prefix of `secret` of at most `k` bytes that `text` ends with. */
  function PartialFrom(text: seq<byte>, secret: seq<byte>, k: nat): (n: nat)
    requires k < |secret|
    ensures n <= k && n <= |text|
    ensures n > 0 ==> EndsInPrefix(text, secret, n)
    ensures forall j | n < j <= k :: !EndsInPrefix(text, secret, j)
  {
    if k == 0 then 0
    else if EndsInPrefix(text, secret, k) then k
    else PartialFrom(text, secret, k - 1)
  }

  /** `suffix_prefix_len`: how much of `secret` may have been seen at the end of `text`. */
  function PartialSecret(text: seq<byte>, secret: seq<byte>): (n: nat)
    ensures n <= |text| && n < Max(1, |secret|)
  {
    if secret == [] then 0 else PartialFrom(text, secret, |secret| - 1)
  }

  function LongestPartial(text: seq<byte>, secrets: seq<seq<byte>>): (n: nat)
    ensures n <= |text|
  {
    if secrets == [] then 0
    else Max(PartialSecret(text, secrets[0]), LongestPartial(text, secrets[1..]))
  }

  lemma {:induction false} LongestPartialBounds(text: seq<byte>, secrets: seq<seq<byte>>)
    ensures forall s | s in secrets :: PartialSecret(text, s) <= LongestPartial(text, secrets)
    ensures LongestPartial(text, secrets) > 0 ==>
              exists s :: s in secrets && PartialSecret(text, s) == LongestPartial(text, secrets)
  {
    if secrets != [] {
      LongestPartialBounds(text, secrets[1..]);
    }
  }

  /** How many bytes at the end are not decided yet: a secret may be coming, or a token may go on. */
  function HeldBack(text: seq<byte>, secrets: seq<seq<byte>>): (n: nat)
    ensures n <= |text|
  {
    Max(LongestPartial(text, secrets), Min(TokenRun(text), MAX_HOLDBACK))
  }

  function FloorBoundary(text: seq<byte>, i: nat): (b: nat)
    requires i <= |text|
    ensures b <= i && IsCharBoundary(text, b)
    ensures forall j | b < j <= i :: !IsCharBoundary(text, j)
  {
    if IsCharBoundary(text, i) then i else FloorBoundary(text, i - 1)
  }

  function CeilBoundary(text: seq<byte>, i: nat): (b: nat)
    requires i <= |text|
    ensures i <= b <= |text| && IsCharBoundary(text, b)
    ensures forall j | i <= j < b :: !IsCharBoundary(text, j)
    decreases |text| - i
  {
    if IsCharBoundary(text, i) then i else CeilBoundary(text, i + 1)
  }

  /** `str::match_indices(secret)`, in a text whose first byte has offset `from`. */
  function MatchIndices(text: seq<byte>, secret: seq<byte>, from: nat): (rs: seq<Range>)
    requires secret != []
    ensures forall r | r in rs :: from <= r.start && r.start + |secret| == r.end <= from + |text|
    decreases |text|
  {
    if text == [] then []
    else if IsPrefix(secret, text) then
      [Range(from, from + |secret|)] + MatchIndices(text[|secret|..], secret, from + |secret|)
    else MatchIndices(text[1..], secret, from + 1)
  }

  /** The part of `match_ranges` that comes from exact secrets. */
  function SecretRanges(text: seq<byte>, secrets: seq<seq<byte>>): (rs: seq<Range>)
    ensures forall r | r in rs :: r.start <= r.end <= |text|
    decreases |secrets|
  {
    if secrets == [] then []
    else (if Masked(secrets[0]) then MatchIndices(text, secrets[0], 0) else []) + SecretRanges(text, secrets[1..])
  }

  /** The part of `match_ranges` that comes from patterns, each on the text as it is. */
  function PatternRanges(text: seq<byte>, patterns: seq<Pattern>): (rs: seq<Range>)
    ensures forall r | r in rs :: r.start <= r.end <= |text|
  {
    if patterns == [] then []
    else
      assert FindsMatches(patterns[0]);
      OrderedBounds(patterns[0](text), 0, |text|);
      patterns[0](text) + PatternRanges(text, patterns[1..])
  }

  /** `match_ranges` */
  function MatchRanges(m: Masker, text: seq<byte>): (rs: seq<Range>)
    ensures forall r | r in rs :: r.start <= r.end <= |text|
  {
    SecretRanges(text, m.secrets) + PatternRanges(text, m.patterns)
  }

  /** One turn of the loop that keeps matches whole. */
  function LowerOnce(r: Range, boundary: nat, len: nat): nat {
    if r.start < boundary && (r.end > boundary || r.end == len) then r.start else boundary
  }

  function Lower(rs: seq<Range>, boundary: nat, len: nat): (b: nat)
    ensures b <= boundary
    decreases |rs|
  {
    if rs == [] then boundary else Lower(rs[1..], LowerOnce(rs[0], boundary, len), len)
  }

  function LongestSecret(secrets: seq<seq<byte>>): (n: nat) {
    if secrets == [] then 0 else Max(|secrets[0]|, LongestSecret(secrets[1..]))
  }

  lemma {:induction false} LongestSecretBounds(secrets: seq<seq<byte>>)
    ensures forall s | s in secrets :: |s| <= LongestSecret(secrets)
    ensures LongestSecret(secrets) > 0 ==> exists s :: s in secrets && |s| == LongestSecret(secrets)
  {
    if secrets != [] {
      LongestSecretBounds(secrets[1..]);
    }
  }

  function Limit(secrets: seq<seq<byte>>): nat {
    Max(MAX_PENDING, LongestSecret(secrets) + MAX_HOLDBACK)
  }

  predicate AnyAtEnd(rs: seq<Range>, len: nat) {
    exists r :: r in rs && r.end == len
  }

  /** The least start of a match that ends with the text; `len` if none does. */
  function StartAtEnd(rs: seq<Range>, len: nat): (s: nat)
    ensures s <= len
  {
    if rs == [] then len
    else if rs[0].end == len then Min(rs[0].start, StartAtEnd(rs[1..], len))
    else StartAtEnd(rs[1..], len)
  }

  /** Byte length of the whitespace character at `i`; 0 if there is none (`char::is_whitespace`). */
  function WhitespaceAt(text: seq<byte>, i: nat): nat
    requires i < |text|
  {
    var a, b, c := text[i], if i + 1 < |text| then text[i + 1] else 0, if i + 2 < |text| then text[i + 2] else 0;
    if 9 <= a <= 13 || a == 32 then 1
    else if a == 0xC2 && (b == 0x85 || b == 0xA0) then 2
    else if a == 0xE1 && b == 0x9A && c == 0x80 then 3
    else if a == 0xE2 && b == 0x80 && (0x80 <= c <= 0x8A || c == 0xA8 || c == 0xA9 || c == 0xAF) then 3
    else if a == 0xE2 && b == 0x81 && c == 0x9F then 3
    else if a == 0xE3 && b == 0x80 && c == 0x80 then 3
    else 0
  }

  /** Offset of the first whitespace at or after `i`; the length if there is none. */
  function FindWhitespace(text: seq<byte>, i: nat): (n: nat)
    requires i <= |text|
    ensures i <= n <= |text|
    ensures n < |text| ==> WhitespaceAt(text, n) > 0
    decreases |text| - i
  {
    if i == |text| || WhitespaceAt(text, i) > 0 then i else FindWhitespace(text, i + 1)
  }

  datatype State = State(pending: seq<byte>, swallowing: bool)
  datatype Pushed = Pushed(state: State, out: seq<byte>)

  const IDLE: State := State([], false)

  /** The cut that leaves `held` bytes, on a character and not through any of the matches. */
  function CutFor(pending: seq<byte>, held: nat, matches: seq<Range>): (b: nat)
    requires held <= |pending|
    ensures b <= |pending|
  {
    Lower(matches, FloorBoundary(pending, |pending| - held), |pending|)
  }

  /** Where the pending text is cut, before the limit is looked at. */
  function CutPoint(m: Masker, pending: seq<byte>): (b: nat)
    ensures b <= |pending|
  {
    CutFor(pending, HeldBack(pending, m.secrets), MatchRanges(m, pending))
  }

  /** What leaves and what stays when the pending text may be cut at `b`. */
  function ReleaseAt(m: Masker, pending: seq<byte>, b: nat, limit: nat, matches: seq<Range>): Pushed
    requires b <= |pending|
  {
    var len := |pending|;
    if len - b <= limit then
      Pushed(State(pending[b..], false), ScrubText(m, pending[..b]))
    else if AnyAtEnd(matches, len) then
      Pushed(State([], true), ScrubText(m, pending[..StartAtEnd(matches, len)]) + MASK)
    else
      var cut := CeilBoundary(pending, len - limit);
      Pushed(State(pending[cut..], false), ScrubText(m, pending[..cut]))
  }

  /** What `push` does once nothing is being swallowed any more. */
  function Release(m: Masker, pending: seq<byte>): Pushed {
    ReleaseAt(m, pending, CutPoint(m, pending), Limit(m.secrets), MatchRanges(m, pending))
  }

  /** `StreamScrubber::push` */
  function PushChunk(m: Masker, st: State, chunk: seq<byte>): Pushed {
    if !st.swallowing then Release(m, st.pending + chunk)
    else
      var end := FindWhitespace(chunk, 0);
      if end == |chunk| then Pushed(st, []) else Release(m, st.pending + chunk[end..])
  }

  /** All pushes and then `finish`. */
  function StreamFrom(m: Masker, st: State, chunks: seq<seq<byte>>): (out: seq<byte>)
    decreases |chunks|
  {
    if chunks == [] then ScrubText(m, st.pending)
    else
      var p := PushChunk(m, st, chunks[0]);
      p.out + StreamFrom(m, p.state, chunks[1..])
  }

  // ---- The loops ----

  /** Walk a cut down to a character boundary. */
  method WalkDown(text: seq<byte>, from: nat) returns (boundary: nat)
    requires from <= |text|
    ensures boundary == FloorBoundary(text, from)
  {
    boundary := from;
    while !IsCharBoundary(text, boundary)
      invariant boundary <= |text|
      invariant FloorBoundary(text, boundary) == FloorBoundary(text, from)
      decreases boundary
    {
      boundary := boundary - 1;
    }
  }

  /** Walk a cut up to a character boundary. */
  method WalkUp(text: seq<byte>, from: nat) returns (boundary: nat)
    requires from <= |text|
    ensures boundary == CeilBoundary(text, from)
  {
    boundary := from;
    while !IsCharBoundary(text, boundary)
      invariant boundary <= |text|
      invariant CeilBoundary(text, boundary) == CeilBoundary(text, from)
      decreases |text| - boundary
    {
      boundary := boundary + 1;
    }
  }

  /** Take every match in turn, and go back to its start if the cut lies inside. */
  method LowerAll(matches: seq<Range>, from: nat, len: nat) returns (boundary: nat)
    ensures boundary == Lower(matches, from, len)
  {
    boundary := from;
    for i := 0 to |matches|
      invariant Lower(matches[i..], boundary, len) == Lower(matches, from, len)
    {
      assert matches[i..][1..] == matches[i + 1..];
      var r := matches[i];
      if r.start < boundary && (r.end > boundary || r.end == len) {
        boundary := r.start;
      }
    }
  }

  /** Search the matches for those that end with the text: is there one, and where does the first begin? */
  method TouchingEnd(matches: seq<Range>, len: nat) returns (found: bool, start: nat)
    ensures found == AnyAtEnd(matches, len)
    ensures start == StartAtEnd(matches, len) && start <= len
  {
    found, start := false, len;
    for i := 0 to |matches|
      invariant found <==> exists r :: r in matches[..i] && r.end == len
      invariant start <= len
      invariant Min(start, StartAtEnd(matches[i..], len)) == StartAtEnd(matches, len)
    {
      assert matches[i..][1..] == matches[i + 1..];
      if matches[i].end == len {
        found, start := true, Min(start, matches[i].start);
        assert matches[i] in matches[..i + 1];
      }
    }
    assert matches[..|matches|] == matches;
  }

  /** The cut of one push, by the loops above. */
  method Cut(text: seq<byte>, held: nat, matches: seq<Range>) returns (boundary: nat)
    requires held <= |text|
    ensures boundary == CutFor(text, held, matches)
  {
    boundary := WalkDown(text, |text| - held);
    boundary := LowerAll(matches, boundary, |text|);
  }

  /** The rest of `push`: choose the cut and emit what is before it. */
  method Emit(m: Masker, text: seq<byte>, cut: nat, limit: nat, matches: seq<Range>) returns (p: Pushed)
    requires cut <= |text|
    ensures p == ReleaseAt(m, text, cut, limit, matches)
  {
    var len, boundary := |text|, cut;
    if len - boundary > limit {
      var touching, start := TouchingEnd(matches, len);
      if touching {
        return Pushed(State([], true), ScrubText(m, text[..start]) + MASK);
      }
      boundary := WalkUp(text, len - limit);
    }
    return Pushed(State(text[boundary..], false), ScrubText(m, text[..boundary]));
  }

  method CutAndEmit(m: Masker, text: seq<byte>) returns (p: Pushed)
    ensures p == Release(m, text)
  {
    var matches, held, limit := MatchRanges(m, text), HeldBack(text, m.secrets), Limit(m.secrets);
    var boundary := Cut(text, held, matches);
    CutPointIs(m, text, matches, held);
    p := Emit(m, text, boundary, limit, matches);
  }

  lemma CutPointIs(m: Masker, text: seq<byte>, matches: seq<Range>, held: nat)
    requires matches == MatchRanges(m, text) && held == HeldBack(text, m.secrets)
    ensures CutPoint(m, text) == CutFor(text, held, matches)
  {
  }

  class StreamScrubber {
    const scrubber: Masker
    var pending: seq<byte>
    var swallowing: bool

    function Current(): State
      reads this
    {
      State(pending, swallowing)
    }

    constructor (scrubber: Masker)
      ensures this.scrubber == scrubber && Current() == IDLE
    {
      this.scrubber := scrubber;
      pending, swallowing := [], false;
    }

    /** One more chunk; `out` is what can no longer become part of a match, masked. */
    method Push(chunk: seq<byte>) returns (out: seq<byte>)
      modifies this
      ensures Pushed(Current(), out) == PushChunk(scrubber, old(Current()), chunk)
    {
      var fed := chunk;
      if swallowing {
        var end := FindWhitespace(chunk, 0);
        if end == |chunk| {
          return [];
        }
        fed := chunk[end..];
        swallowing := false;
      }
      pending := pending + fed;
      var pushed := CutAndEmit(scrubber, pending);
      pending, swallowing := pushed.state.pending, pushed.state.swallowing;
      out := pushed.out;
    }

    /** The end of the text: what is left is masked as it stands. */
    method Finish() returns (out: seq<byte>)
      modifies this
      ensures Current() == IDLE
      ensures out == ScrubText(scrubber, old(pending))
    {
      swallowing := false;
      var rest := pending;
      pending := [];
      out := ScrubText(scrubber, rest);
    }
  }

  // ---- Bounded hold-back, for any secrets and any patterns ----

  /** What every state of a stream keeps: little is pending, and nothing while swallowing. */
  predicate Bounded(m: Masker, st: State) {
    |st.pending| <= Max(16_384, LongestSecret(m.secrets) + 256) && (st.swallowing ==> st.pending == [])
  }

  function StateAfter(m: Masker, st: State, chunks: seq<seq<byte>>): State
    decreases |chunks|
  {
    if chunks == [] then st else StateAfter(m, PushChunk(m, st, chunks[0]).state, chunks[1..])
  }

  lemma PushIsBounded(m: Masker, st: State, chunk: seq<byte>)
    requires Bounded(m, st)
    ensures Bounded(m, PushChunk(m, st, chunk).state)
  {
    ReleaseIsBounded(m, st.pending + chunk);
    ReleaseIsBounded(m, st.pending + chunk[FindWhitespace(chunk, 0)..]);
  }

  lemma ReleaseIsBounded(m: Masker, pending: seq<byte>)
    ensures Bounded(m, Release(m, pending).state)
  {
    assert CutPoint(m, pending) <= |pending|;
  }

  /** After every push at most max(16 KiB, longest secret + 256) bytes are pending, whatever
      the secrets, the patterns and the chunks are. */
  lemma {:induction false} HoldBackIsBounded(m: Masker, st: State, chunks: seq<seq<byte>>)
    requires Bounded(m, st)
    ensures Bounded(m, StateAfter(m, st, chunks))
    decreases |chunks|
  {
    if chunks != [] {
      var p := PushChunk(m, st, chunks[0]);
      PushIsBounded(m, st, chunks[0]);
      HoldBackIsBounded(m, p.state, chunks[1..]);
    }
  }
}
