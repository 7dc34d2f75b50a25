/** When a whole secret goes out in the clear: for a single secret, exactly when its self-overlap
    outgrows the hold-back limit. */
module StreamLeaks {
  import opened Bytes
  import opened Utf8
  import opened Completeness
  import opened Scrubber
  import opened StreamScrubbing
  import opened StreamCuts
  import opened StreamMasking
  import opened PatternStreams
  import opened StreamLimits

  // ---- The witness repeats itself ----

  /** `t` stands `k` bytes behind itself. */
  predicate HasPeriod(t: seq<byte>, k: nat) {
    forall x | k <= x < |t| :: t[x] == t[x - k]
  }

  /** An occurrence of the secret behind the first one gives the whole witness a period. */
  lemma WitnessHasPeriod(s: seq<byte>, j: nat, c: nat, k: nat)
    requires 0 < j < |s| <= j + c && c <= |s| && s[j..] == s[..|s| - j]
    requires OccursAt(s[..j] + s[..c], s, k) && k < |s|
    ensures HasPeriod(s[..j] + s[..c], k) && HasPeriod(s, k)
  {
    var p, n := s[..j] + s[..c], |s|;
    WitnessStartsWithSecret(s, j, c);
    assert forall y | 0 <= y < n :: p[y] == s[y] by {
      forall y | 0 <= y < n ensures p[y] == s[y] {
        PrefixAt(s, p, y);
      }
    }
    assert forall y | 0 <= y < n :: p[k + y] == s[y] by {
      forall y | 0 <= y < n ensures p[k + y] == s[y] {
        assert p[k..k + n][y] == s[y];
      }
    }
    forall x | k <= x < k + n ensures p[x] == p[x - k] {
      assert p[k + (x - k)] == s[x - k];
    }
    forall x | k + n <= x < |p| ensures p[x] == p[x - k] {
      var y := x - j;
      assert p[x] == s[y] == p[y] && p[y] == p[y - k];
      assert p[x - k] == s[y - k] == p[y - k];
    }
  }

  function Copies<T>(x: T, r: nat): (c: seq<T>) {
    if r == 0 then [] else [x] + Copies(x, r - 1)
  }

  /** What has to follow a periodic text for it to come round by one period. */
  function Next(p: seq<byte>, k: nat): seq<byte>
    requires k <= |p|
  {
    (p[..k] + p)[|p|..]
  }

  lemma ComesRound(p: seq<byte>, k: nat)
    requires HasPeriod(p, k) && k <= |p|
    ensures p + Next(p, k) == p[..k] + p
  {
    var long := p[..k] + p;
    assert long[..|p|] == p by {
      forall x | 0 <= x < |p| ensures long[x] == p[x] {
      }
    }
    TakeAndDrop(long, |p|);
  }

  lemma ComesRoundBehind(p: seq<byte>, k: nat, cut: nat)
    requires HasPeriod(p, k) && cut <= k <= |p|
    ensures p[cut..] + Next(p, k) == p[cut..k] + p
  {
    ComesRound(p, k);
    assert p[cut..] + Next(p, k) == (p + Next(p, k))[cut..];
    assert p[cut..k] + p == (p[..k] + p)[cut..];
  }

  lemma InFrontOfLong(p: seq<byte>, long: seq<byte>, s: seq<byte>, x: nat)
    requires IsPrefix(p, long) && x + |s| <= |p| && OccursAt(long, s, x)
    ensures OccursAt(p, s, x)
  {
    OccursInWindow(long, s, 0, |p|, x);
    assert long[0..|p|] == p;
  }

  lemma GapOccurs(p: seq<byte>, s: seq<byte>, cut: nat, k: nat, o: nat)
    requires cut <= k && OccursAt(p, s, k) && HasPeriod(p, k)
    requires o < k - cut && OccursAt(p[cut..k] + p, s, o)
    ensures OccursAt(p, s, cut + o)
  {
    var v, long := p[cut..k], p[..k] + p;
    ComesRound(p, k);
    assert v + p == long[cut..] && IsPrefix(p, long) by {
      assert (p + Next(p, k))[..|p|] == p;
    }
    OccursInTail(long, s, cut, o);
    InFrontOfLong(p, long, s, cut + o);
  }

  /** Between the cut and the next occurrence no other begins, however the text goes on. */
  lemma GapIsFree(p: seq<byte>, s: seq<byte>, cut: nat, k: nat)
    requires cut <= k && OccursAt(p, s, k) && HasPeriod(p, k)
    requires forall o: nat | cut <= o < k :: !OccursAt(p, s, o)
    ensures NoneBefore(p[cut..k], p, s)
  {
    forall o: nat | o < k - cut ensures !OccursAt(p[cut..k] + p, s, o) {
      if OccursAt(p[cut..k] + p, s, o) {
        GapOccurs(p, s, cut, k, o);
      }
    }
  }

  lemma RoundIs(m: Masker, s: seq<byte>, j: nat, p: seq<byte>, cut: nat, k: nat)
    requires Exact(m) && m.secrets == [s] && Masked(s) && StartsChar(s) && Outgrows(s, j)
    requires p == Witness(s, j) && cut == Overflow(s, j) && cut <= k < |s| && OccursAt(p, s, k) && HasPeriod(p, k)
    requires forall o: nat | cut <= o < k :: !OccursAt(p, s, o)
    ensures Release(m, p[cut..] + Next(p, k)) == Pushed(State(p[cut..], false), p[cut..k] + p[..cut])
  {
    ComesRoundBehind(p, k, cut);
    GapIsFree(p, s, cut, k);
    OverflowRound(m, s, j, p[cut..] + Next(p, k), p[cut..k], p, cut);
  }

  /** The rounds `es` let `ws` through, and then the pending text. */
  ghost predicate LetThrough(m: Masker, q: seq<byte>, es: seq<seq<byte>>, ws: seq<seq<byte>>) {
    StreamFrom(m, State(q, false), es) == Concat(ws) + ScrubText(m, q)
  }

  lemma NoRound(m: Masker, q: seq<byte>)
    ensures LetThrough(m, q, [], [])
  {
    NothingInFront(ScrubText(m, q));
  }

  lemma RoundInFront(m: Masker, q: seq<byte>, e: seq<byte>, w: seq<byte>, es: seq<seq<byte>>, ws: seq<seq<byte>>)
    requires Release(m, q + e) == Pushed(State(q, false), w) && LetThrough(m, q, es, ws)
    ensures LetThrough(m, q, [e] + es, [w] + ws)
  {
    assert ([e] + es)[1..] == es && ([w] + ws)[1..] == ws;
    Reassociate(w, Concat(ws), ScrubText(m, q));
  }

  /** Each push lets one more period through. */
  lemma {:induction false} Rounds(m: Masker, q: seq<byte>, e: seq<byte>, w: seq<byte>, r: nat)
    requires Release(m, q + e) == Pushed(State(q, false), w)
    ensures LetThrough(m, q, Copies(e, r), Copies(w, r))
    decreases r
  {
    if r == 0 {
      NoRound(m, q);
    } else {
      Rounds(m, q, e, w, r - 1);
      RoundInFront(m, q, e, w, Copies(e, r - 1), Copies(w, r - 1));
    }
  }

  /** Enough periods, one behind the other, make up the rest of the secret. */
  lemma {:induction false} PeriodsCover(s: seq<byte>, w: seq<byte>, i: nat, r: nat)
    requires 0 < |w| && i <= |s| <= i + r && HasPeriod(s, |w|)
    requires forall t | 0 <= t < |w| && i + t < |s| :: s[i + t] == w[t]
    ensures IsPrefix(s[i..], Concat(Copies(w, r)))
    decreases r
  {
    if i < |s| {
      var rest := Copies(w, r - 1);
      assert ([w] + rest)[1..] == rest;
      if |s| <= i + |w| {
        assert (w + Concat(rest))[..|s| - i] == s[i..];
      } else {
        forall t | 0 <= t < |w| && i + |w| + t < |s| ensures s[i + |w| + t] == w[t] {
          assert s[i + |w| + t] == s[i + t];
        }
        PeriodsCover(s, w, i + |w|, r - 1);
        assert s[i..i + |w|] == w;
        PrefixBehind(s[i..], w, s[i + |w|..], Concat(rest));
      }
    }
  }

  lemma PrefixBehind(t: seq<byte>, w: seq<byte>, rest: seq<byte>, more: seq<byte>)
    requires t == w + rest && IsPrefix(rest, more)
    ensures IsPrefix(t, w + more)
  {
    assert (w + more)[..|t|] == w + more[..|rest|];
  }

  // ---- Every outgrown secret leaks ----

  lemma PrefixOccursIn(s: seq<byte>, text: seq<byte>)
    requires IsPrefix(s, text)
    ensures Occurs(text, s)
  {
    assert text[0..|s|] == text[..|s|];
    assert OccursAt(text, s, 0);
  }

  /** The secret does not come again behind the cut: one push and the flush let all of it out. */
  lemma LeaksAtOnce(m: Masker, s: seq<byte>, j: nat, p: seq<byte>, cut: nat)
    requires Exact(m) && m.secrets == [s] && Masked(s) && StartsChar(s) && Outgrows(s, j)
    requires p == Witness(s, j) && cut == Overflow(s, j) && forall o: nat | cut <= o :: !OccursAt(p, s, o)
    ensures Occurs(StreamFrom(m, IDLE, [p]), s)
  {
    OverflowSizes(s, j);
    FirstRound(m, s, j, p, cut);
    var q := p[cut..];
    forall i | OccursAt(q, s, i) ensures OccursAt(p, s, cut + i) {
      OccursInTail(p, s, cut, i);
    }
    NotReplaced(q, s);
    ScrubOne(q, s);
    FlushedAfter(m, p, p[..cut], q, []);
    TakeAndDrop(p, cut);
    PrefixOccursIn(s, p);
  }

  /** A stream that begins with a known push. */
  lemma FlushedAfter(m: Masker, p: seq<byte>, out: seq<byte>, q: seq<byte>, more: seq<seq<byte>>)
    requires Release(m, p) == Pushed(State(q, false), out)
    ensures StreamFrom(m, IDLE, [p] + more) == out + StreamFrom(m, State(q, false), more)
    ensures more == [] ==> StreamFrom(m, IDLE, [p]) == out + ScrubText(m, q)
  {
    assert IDLE.pending + p == p && ([p] + more)[1..] == more;
    assert more == [] ==> [p] + more == [p];
  }

  /** The secret comes again: as many more pushes as it has bytes let it out, period by period. */
  lemma LeaksInRounds(m: Masker, s: seq<byte>, j: nat, p: seq<byte>, cut: nat, k: nat)
    requires Exact(m) && m.secrets == [s] && Masked(s) && StartsChar(s) && Outgrows(s, j)
    requires p == Witness(s, j) && cut == Overflow(s, j) && cut <= k < |s| && OccursAt(p, s, k)
    requires forall o: nat | cut <= o < k :: !OccursAt(p, s, o)
    ensures HasPeriod(p, k) && k <= |p| && Occurs(StreamFrom(m, IDLE, [p] + Copies(Next(p, k), |s|)), s)
  {
    OverflowSizes(s, j);
    OutgrownSizes(s, j);
    WitnessHasPeriod(s, j, LastCharStart(s), k);
    FirstRound(m, s, j, p, cut);
    RoundIs(m, s, j, p, cut, k);
    RoundsLeak(m, s, p, cut, k, Next(p, k));
  }

  lemma RoundsLeak(m: Masker, s: seq<byte>, p: seq<byte>, cut: nat, k: nat, e: seq<byte>)
    requires IsPrefix(s, p) && 0 < cut <= k < |s| && HasPeriod(s, k)
    requires Release(m, p) == Pushed(State(p[cut..], false), p[..cut])
    requires Release(m, p[cut..] + e) == Pushed(State(p[cut..], false), p[cut..k] + p[..cut])
    ensures Occurs(StreamFrom(m, IDLE, [p] + Copies(e, |s|)), s)
  {
    var q, w := p[cut..], p[cut..k] + p[..cut];
    Rounds(m, q, e, w, |s|);
    FlushedAfter(m, p, p[..cut], q, Copies(e, |s|));
    PeriodsOfWitness(s, p, cut, k);
    CutAgain(s, p, cut);
    PrefixBehind(s, p[..cut], s[cut..], Concat(Copies(w, |s|)) + ScrubText(m, q));
    PrefixOccursIn(s, p[..cut] + (Concat(Copies(w, |s|)) + ScrubText(m, q)));
  }

  lemma CutAgain(s: seq<byte>, p: seq<byte>, cut: nat)
    requires IsPrefix(s, p) && cut <= |s|
    ensures s == p[..cut] + s[cut..]
  {
    assert s[..cut] == p[..|s|][..cut] == p[..cut];
  }

  lemma PeriodsOfWitness(s: seq<byte>, p: seq<byte>, cut: nat, k: nat)
    requires IsPrefix(s, p) && 0 < cut <= k < |s| && HasPeriod(s, k)
    ensures forall more :: IsPrefix(s[cut..], Concat(Copies(p[cut..k] + p[..cut], |s|)) + more)
  {
    var w := p[cut..k] + p[..cut];
    forall t | 0 <= t < |w| && cut + t < |s| ensures s[cut + t] == w[t] {
      PrefixAt(s, p, cut + t);
      if cut + t >= k {
        PrefixAt(s, p, cut + t - k);
        assert s[cut + t] == s[cut + t - k];
      }
    }
    PeriodsCover(s, w, cut, |s|);
    forall more ensures IsPrefix(s[cut..], Concat(Copies(w, |s|)) + more) {
      assert (Concat(Copies(w, |s|)) + more)[..|s| - cut] == Concat(Copies(w, |s|))[..|s| - cut];
    }
  }

  lemma NextIsValid(p: seq<byte>, s: seq<byte>, k: nat)
    requires Valid(p) && StartsChar(s) && s != [] && OccursAt(p, s, k) && HasPeriod(p, k)
    ensures Valid(Next(p, k))
  {
    assert p[k..k + |s|][0] == s[0];
    ValidPrefix(p, k);
    ValidConcat(p[..k], p);
    ComesRound(p, k);
    SuffixOfValid(p, Next(p, k));
  }

  lemma {:induction false} CopiesAre<T>(x: T, r: nat)
    ensures forall y | y in Copies(x, r) :: y == x
  {
    if r > 0 {
      CopiesAre(x, r - 1);
    }
  }

  /** The first occurrence at or behind `from`; the length if there is none. */
  function NextAt(p: seq<byte>, s: seq<byte>, from: nat): (k: nat)
    ensures from <= |p| ==> from <= k <= |p|
    decreases |p| - from
  {
    if from >= |p| then |p| else if OccursAt(p, s, from) then from else NextAt(p, s, from + 1)
  }

  lemma {:induction false} NextAtIsFirst(p: seq<byte>, s: seq<byte>, from: nat)
    requires s != [] && from <= |p|
    ensures var k := NextAt(p, s, from);
            && (k < |p| ==> OccursAt(p, s, k)) && forall o: nat | from <= o < k :: !OccursAt(p, s, o)
    decreases |p| - from
  {
    if from < |p| && !OccursAt(p, s, from) {
      NextAtIsFirst(p, s, from + 1);
    }
  }

  /** The pushes that let a secret out that outgrows the limit by the shift `j`. */
  ghost function LeakingPushes(s: seq<byte>, j: nat): (chunks: seq<seq<byte>>)
    requires s != [] && Outgrows(s, j)
  {
    var p := Witness(s, j);
    var k := NextAt(p, s, Overflow(s, j));
    if k < |p| then [p] + Copies(Next(p, k), |s|) else [p]
  }

  lemma PushesAreValid(s: seq<byte>, j: nat, p: seq<byte>, k: nat)
    requires s != [] && Valid(s) && Outgrows(s, j) && p == Witness(s, j) && k == NextAt(p, s, Overflow(s, j))
    requires k < |p| ==> k < |s|
    ensures AllValid(LeakingPushes(s, j))
  {
    ValidStartsChar(s);
    WitnessIsValid(s, j);
    OverflowSizes(s, j);
    NextAtIsFirst(p, s, Overflow(s, j));
    if k < |p| {
      OutgrownSizes(s, j);
      WitnessHasPeriod(s, j, LastCharStart(s), k);
      NextIsValid(p, s, k);
      CopiesAre(Next(p, k), |s|);
    }
  }

  lemma NextIsInside(s: seq<byte>, j: nat, p: seq<byte>, k: nat)
    requires s != [] && Outgrows(s, j) && p == Witness(s, j) && OccursAt(p, s, k)
    ensures k < |s|
  {
    WitnessIsShort(s, j);
  }

  /** Any secret that outgrows the limit goes out in the clear, whole, with these pushes. */
  lemma PlainlyLeaks(m: Masker, s: seq<byte>, j: nat, p: seq<byte>, cut: nat, k: nat)
    requires Exact(m) && m.secrets == [s] && Masked(s) && StartsChar(s) && Outgrows(s, j)
    requires p == Witness(s, j) && cut == Overflow(s, j) && k == NextAt(p, s, cut)
    ensures k < |p| ==> k < |s|
    ensures Occurs(StreamFrom(m, IDLE, LeakingPushes(s, j)), s)
  {
    OverflowSizes(s, j);
    NextAtIsFirst(p, s, cut);
    if k < |p| {
      NextIsInside(s, j, p, k);
      LeaksInRounds(m, s, j, p, cut, k);
    } else {
      LeaksAtOnce(m, s, j, p, cut);
    }
  }

  /** With any patterns that match nothing in what is pushed. */
  lemma {:induction false} OutgrownLeaks(m: Masker, s: seq<byte>, j: nat)
    requires m.secrets == [s] && Masked(s) && Valid(s) && Outgrows(s, j)
    requires Quiet(m, Concat(LeakingPushes(s, j)))
    ensures AllValid(LeakingPushes(s, j)) && Occurs(StreamFrom(m, IDLE, LeakingPushes(s, j)), s)
  {
    var p := Witness(s, j);
    var k := NextAt(p, s, Overflow(s, j));
    ValidStartsChar(s);
    PlainlyLeaks(Plainly(m), s, j, p, Overflow(s, j), k);
    PushesAreValid(s, j, p, k);
    PrependNothing(Concat(LeakingPushes(s, j)));
    QuietStream(m, IDLE, LeakingPushes(s, j));
  }

  lemma WitnessIsShort(s: seq<byte>, j: nat)
    requires s != [] && Outgrows(s, j)
    ensures |Witness(s, j)| < 2 * |s|
  {
    OutgrownSizes(s, j);
  }

  /** Whatever the chunks are, the secret does not come out of a text in which no pattern matches. */
  ghost predicate NeverLeaks(m: Masker, s: seq<byte>) {
    forall chunks | AllValid(chunks) && Quiet(m, Concat(chunks)) :: !Occurs(StreamFrom(m, IDLE, chunks), s)
  }

  lemma FittingNeverLeaks(m: Masker, s: seq<byte>)
    requires m.secrets == [s] && Masked(s) && ApartFromMask(s) && SelfOverlapFits(s)
    ensures NeverLeaks(m, s)
  {
    OneSecretFits(s);
    forall chunks | AllValid(chunks) && Quiet(m, Concat(chunks)) ensures !Occurs(StreamFrom(m, IDLE, chunks), s) {
      OneIsWellNested(Concat(chunks), s);
      QuietIsMaskable(m, Concat(chunks));
      MaskableTextLeaksNoSecret(m, chunks, s);
    }
  }

  lemma LeakIsSeen(m: Masker, s: seq<byte>, chunks: seq<seq<byte>>)
    requires AllValid(chunks) && Quiet(m, Concat(chunks)) && Occurs(StreamFrom(m, IDLE, chunks), s)
    ensures !NeverLeaks(m, s)
  {
  }

  /** A single secret that is apart from the mask, and patterns that match nothing in its leaking
      pushes: where no pattern matches it never comes out, whatever is pushed, if and only if each
      shift that maps it onto itself leaves room for one more start of it within the limit. */
  lemma {:induction false} NeverLeaksExactly(m: Masker, s: seq<byte>)
    requires m.secrets == [s] && Masked(s) && Valid(s) && ApartFromMask(s)
    requires forall j: nat | Outgrows(s, j) :: Quiet(m, Concat(LeakingPushes(s, j)))
    ensures NeverLeaks(m, s) <==> SelfOverlapFits(s)
  {
    if SelfOverlapFits(s) {
      FittingNeverLeaks(m, s);
    } else {
      var j: nat :| SelfOverlaps(s, j) && j + LastCharStart(s) > Limit([s]);
      assert Outgrows(s, j);
      OutgrownLeaks(m, s, j);
      LeakIsSeen(m, s, LeakingPushes(s, j));
    }
  }
}
