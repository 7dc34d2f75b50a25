# TurboCI runner: a model and its proofs

TurboCI is a GitLab runner. This project models the parts of it that are small state
machines with hard properties, in Dafny 4.11, and proves those properties for all inputs and
all runs. `dafny verify dfyconfig.toml` checks everything.

## What is modelled

**The job log** (`Bytes`, `Utf8`, `Utf8Points`, `Utf8Decoder`, `Scrubber`, `Completeness`,
`Simultaneous`, `StreamScrubber`, `SpacePoints`, `StreamCuts`, `StreamMasking`, `PatternStreams`,
`StreamLimits`, `StreamLeaks`, `TokenStreams`, `PatternSearch`, `TokenPatterns`, `PasswordPattern`,
`PatternLeaks`, `StreamOutput`, `JobSecrets`, `Decimal`, `TraceLog`, `Cancel`, `GitLabTrace`,
`TraceWriter`, `JobLog`, `ProcessLog`).
The two output streams of a process are read in chunks, decoded to UTF-8, masked by a streaming
scrubber that holds back a tail, cut at a size limit with a notice (`TraceLog.CapOf`), and
replicated to GitLab by offset. Each stage is proved equal to a simple function of the whole text,
and the stages are put together, whatever the network did: GitLab's log is `Truncate(ScrubText(text))`
of the whole output where each push cuts the text so that the regex patterns find in the pieces what
they find in the whole (for every chunking where no pattern matches and secrets fit the hold-back), and
it holds no masked secret where no push cuts through one (for every chunking where no match of a
pattern half overlaps a secret and what is kept stays within the limit, or goes on and is swallowed).
Secrets and patterns made of the bytes tokens are made of need no such conditions: every chunking of a
text whose tokens have up to 256 bytes gives `ScrubText` of the whole.
A pattern is any function from texts to ranges that do not overlap and lie on characters; five of the
runner's twelve are modelled exactly. GitLab's endpoint is an append-only log; the network is a set of
requests each of which may be lost, delayed or delivered again any number of times.

**The two-layer cache** (`JobCache`): a local archive, its ETag sidecar and the S3 object are
changed in separate steps by a class whose methods may crash between any two, while other hosts
change S3 and evictions delete files.

**The S3 circuit breaker** (`Breaker`, `Bucket`): a machine of interleaved calls over a clock,
and the calls in the code's own form, every run of which is a run of that machine.

**Slots, workspaces, shutdown** (`Slots`, `Workspaces`, `Daemon`): the lowest-free-id allocator
as a class, directory names, and an interleaved machine of permits, jobs, the token rotator and
the shutdown, with what it never does and what it always can do.

**Job steps** (`JobSteps`, `JobRun`): the step loop as a fold over what it observes, and the loop
itself against a clock and a cancellation that may escalate at any moment.

**Printers and parsers** (`Expansion`, `Quoting`, `PercentEncoding`, `Extraction`).

`Options` holds the type of optional values.

Text is a sequence of bytes wherever byte offsets matter and a sequence of characters in
`Expansion` and `Quoting`. Clocks, script results, network outcomes, file-system failures and other
processes are nondeterministic choices inside the methods or events of a machine. Integers are
unbounded; where the code saturates or checks for overflow (`checked_add` on instants,
`saturating_add` on byte counts) this is written out.

## Where the code does not do what it says

- The comment above the hold-back limit (`src/security/secret_scrubber.rs:226-229`) says that exact
  secrets are never split. A secret over 8193 bytes that overlaps itself can be
  (`StreamLimits.OneSecretExactly`, `StreamLimits.BoundIsSharp`); it then goes out in the clear as a
  whole after suitable pushes (`StreamLeaks.OutgrownLeaks`), and no other single secret that is apart
  from the mask ever does (`StreamLeaks.NeverLeaksExactly`). A secret that another secret half
  overlaps in the text can be split too (`StreamLimits.OverlapBreaks`). So can one that a match of a
  pattern half overlaps, and it can go out in the clear (`PatternLeaks.HalfMatchedLeaks`): with the
  runner's pattern for passwords and the secrets `ab!!password` and `=!!!!!`, the first one does when
  `ab!!password=!!!!!!!!!` and then the line end are pushed (`PatternLeaks.PasswordPatternLeaks`).
- A secret that is split across chunks is said to be masked all the same. Of a token that begins to match
  only after more than 256 bytes the front goes out (`TokenStreams.OverlongIsShown`); up to that length
  tokens are masked for every chunking (`TokenStreams.TokenStreamEqualsScrub`).
- The decoder is described as never breaking a character that is split across chunks. After an
  ill-formed byte it does, on exactly the streams of `Utf8Decoding.ChunkIndependentExactly`.
- Masking does not remove a secret that is a part of `MASKED` (`Completeness.MaskedIsNotMasked`), and
  an inserted mask can complete a secret that contains a bracket
  (`Completeness.MaskCompletesASecret`); `Completeness.CleanExactly` says exactly which lists of
  secrets are removed with every possible list of patterns.
- Long cache keys are hashed to `h-<digest>`; the short key with that spelling uses the same file
  (`PercentEncoding.KeysCollideExactly`).
- The warning of a restore says that S3 was unavailable (`src/runner_daemon/job_cache.rs:181`). It also
  comes when S3 did send the object and it could not be stored; the local copy is extracted then,
  however old (`JobCache.RestoreKey`, the `Local` case of `JobCache.Justified`).
- The check of symlink targets is described as keeping links inside the workspace. It goes by the
  text of the target; a name in it may be a link that an earlier entry created. With `a/b/s` pointing
  to `../..`, a link to `a/b/s/..` is let through and leads out (`Extraction.PairLeadsOut`); exactly the
  targets with all `..` in front are safe whatever other such links there are
  (`Extraction.StaysInsideExactly`).

## Model

| member | source | states |
|---|---|---|
| Utf8Decoding.Utf8Decoder.Decode | src/runner_daemon/executor.rs:752-766 | one call emits and keeps exactly what the specification of one chunk says, and never keeps more than 3 bytes |
| Utf8Decoding.Utf8Decoder.Finish | src/runner_daemon/executor.rs:768-772 | the rest comes out with replacement characters and nothing stays |
| Utf8Decoding.PendingIsShort | src/runner_daemon/executor.rs:745-766 | for any bytes at most 3 stay pending, and what is emitted is well-formed UTF-8 |
| Utf8Decoding.ValidStreamsComeBack | src/runner_daemon/executor.rs:745-773 | a stream that is valid UTF-8 (section 4 of RFC 3629) comes back byte for byte for every split |
| Utf8Decoding.ChunkIndependentExactly | src/runner_daemon/executor.rs:752-766 | the output is that of whole-stream lossy decoding for every split if and only if all units after the first ill-formed one are single bytes |
| Utf8Decoding.BrokenStreamsDependOnChunks | src/runner_daemon/executor.rs:758-762 | a concrete stream whose text depends on where the chunks end |
| Utf8Points.ValidExactly | src/runner_daemon/executor.rs:755-757 | well-formed are exactly the encodings (section 3 of RFC 3629) of sequences of scalar values |
| Utf8Points.IncompleteExactly | src/runner_daemon/executor.rs:755-762 | bytes are waited on if and only if they are the beginning of the encoding of some scalar value |
| Utf8Points.IllFormedExactly | src/runner_daemon/executor.rs:758-762 | bytes are given up exactly where neither they nor a beginning of them can be a character, and one replacement stands for as many as begin one, or for one |
| Scrubber.ScrubLoop | src/security/secret_scrubber.rs:78-94 | the two loops compute one replacement pass per secret of more than 4 bytes and then one per pattern, each on the result of the one before |
| Completeness.WholeIsMasked | src/security/secret_scrubber.rs:82-86 | a text that is a secret becomes "[MASKED]" from five bytes on and stays as it is below |
| Completeness.NoSecretSurvives | src/security/secret_scrubber.rs:78-94 | no masked secret that can share no byte with a mask occurs in the result of all passes, whatever else is in the list and whatever the patterns match, although later passes change what earlier ones left |
| Completeness.CleanExactly | src/security/secret_scrubber.rs:78-94 | a list of secrets, none of which contains a whole mask, is scrubbed out of every text with every possible list of patterns if and only if each masked secret contains, or is, one that can share no byte with a mask |
| Completeness.MaskedIsNotMasked | src/security/secret_scrubber.rs:82-86 | the secret "MASKED" is readable in its own mask, with any patterns |
| Completeness.MaskCompletesASecret | src/security/secret_scrubber.rs:82-86 | a secret that begins with a closing bracket is completed by an inserted mask in a text of its own, with any patterns that find nothing there |
| Simultaneous.ScrubIsOneScan | src/security/secret_scrubber.rs:81-86 | the passes over the secrets, one after the other, mask what a single scan for all of them masks, when two of them overlap in the text only by one containing the other and the containing one is listed first |
| Simultaneous.SortedIsWellNested | src/security/secret_scrubber.rs:121-122 | with the longest secrets first, nesting is all that has to be asked of their overlaps |
| JobSecrets.WithJobSecrets | src/security/secret_scrubber.rs:105-124 | the loop over the values of a job adds each value and its encoded form once, and sorts |
| JobSecrets.ValuesAre | src/security/secret_scrubber.rs:107-114 | what a job wants masked: the values of its masked variables and no others, its token, and the tokens of its dependencies |
| JobSecrets.SortedIsStableSort | src/security/secret_scrubber.rs:121-122 | the sort puts the longest first, keeps all members and keeps the order of those of one length |
| JobSecrets.JobSecretsAre | src/security/secret_scrubber.rs:97-124 | the list of a job holds exactly the secrets there were, the values and their encoded forms, but for empty ones, longest first |
| JobSecrets.JobSecretsStartChars | src/security/secret_scrubber.rs:105-124 | each of them begins with a character, which every offset the masker works with rests on |
| JobSecrets.JobStreamEqualsScrub | src/security/secret_scrubber.rs:105-258 | for the list a job builds: where every push cuts cleanly, streaming is `scrub` of the whole text, nested secrets included |
| StreamScrubbing.WalkDown | src/security/secret_scrubber.rs:216-218 | the loop finds the last character boundary at or before the cut |
| StreamScrubbing.LowerAll | src/security/secret_scrubber.rs:219-225 | the loop over matches lowers the cut as the specification does |
| StreamScrubbing.TouchingEnd | src/security/secret_scrubber.rs:231-236 | finds whether a match touches the end and where the longest such match starts |
| StreamScrubbing.Emit | src/security/secret_scrubber.rs:226-250 | within the limit, the part before the cut leaves; beyond it, a growing match is masked and swallowed, or the text is cut at the limit |
| StreamScrubbing.StreamScrubber.Push | src/security/secret_scrubber.rs:185-251 | one push on the fields `pending` and `swallowing` is one step of the stream function |
| TokenStreams.TokensAreHeld | src/security/secret_scrubber.rs:14-16 | letters, digits and the ten other bytes tokens are made of: with any secrets, patterns and text in front, up to 256 of them at the end are held back, and of more at least the last 256 |
| TokenStreams.OnlyTokensAreHeld | src/security/secret_scrubber.rs:204-218 | where nothing matches and no secret begins at the end, exactly those are held back |
| TokenStreams.SecretsAreHeld | src/security/secret_scrubber.rs:19-24 | the beginning of any secret at the end of the text is held back, whatever else is there |
| TokenStreams.TokenIsNotCut | src/security/secret_scrubber.rs:185-251 | for any masker and chunks: a match of up to 256 such bytes that no other match half overlaps is never cut by a push, from its first byte to whatever follows it, where the limit is not in the way |
| TokenStreams.TokenStreamEqualsScrub | src/security/secret_scrubber.rs:185-258 | any number of secrets made of such bytes, however they overlap or meet the mask, and patterns that match within runs of them: for every chunking of a text with runs of up to 256 the outputs are `scrub` of the whole text |
| TokenStreams.OverlongIsShown | src/security/secret_scrubber.rs:204-215 | that bound is sharp: of a longer token in which nothing matches yet all but the last 256 bytes go out at once, whatever follows |
| TokenPatterns.FinderWithinTokens | src/security/secret_scrubber.rs:52-57 | the searches for runner, registration and GitHub tokens and access keys, as the regexes have them, are such patterns |
| TokenPatterns.TokenIsMasked | src/security/secret_scrubber.rs:185-258 | a token one of them matches comes out as one mask, however it is spread over chunks, and the text on both sides as if it stood alone |
| TokenPatterns.RunnerTokenIsMasked | src/security/secret_scrubber.rs:52 | this for `glrt-` and 20 to 251 letters, digits, hyphens and underscores, by their bytes |
| StreamScrubbing.StreamScrubber.Finish | src/security/secret_scrubber.rs:254-258 | flushes everything held back, scrubbed, and is idle again |
| StreamScrubbing.HoldBackIsBounded | src/security/secret_scrubber.rs:141-143 | after every push of every stream at most max(16 KiB, longest secret + 256) bytes are pending and none while swallowing, for any secrets and any pattern ranges |
| StreamCuts.CutPointIsStop | src/security/secret_scrubber.rs:194-225 | whatever text follows, and whatever patterns there are whose matches in the pending text do not half overlap those of secrets, the cut is never inside a match of a secret in the whole text |
| StreamMasking.StreamEqualsScrub | src/security/secret_scrubber.rs:185-258 | if no push cuts a secret or swallows, and the patterns find on both sides of each cut what they find in the whole, the outputs of all pushes and the final flush are `scrub` of the whole text, in which secrets overlap only by nesting |
| StreamMasking.SeparatePasses | src/security/secret_scrubber.rs:88-91 | pattern passes over a text whose parts they match separately give the parts masked one by one |
| StreamMasking.QuietIsSeamless | src/security/secret_scrubber.rs:194-251 | for every chunking of a text in which no pattern matches, with secrets that fit the hold-back, every push cuts so |
| StreamMasking.QuietStreamEqualsScrub | src/security/secret_scrubber.rs:185-258 | hence the outputs are `scrub` of the whole text for every chunking of such a text |
| StreamMasking.NestedStreamEqualsScrub | src/security/secret_scrubber.rs:185-258 | the streaming theorem for any list with the longest first, when secrets overlap in the text by nesting |
| PatternStreams.StreamLeaksNoSecret | src/security/secret_scrubber.rs:185-258 | with any patterns, whatever they match, over-long matches that are swallowed included: if no push cuts through a match of a secret, no masked secret that can share no byte with a mask comes out |
| PatternStreams.SwallowedHides | src/security/secret_scrubber.rs:187-196 | the same from the moment on when an over-long match is being swallowed, whether the text goes on behind it or not |
| SpacePoints.FindExactly | src/security/secret_scrubber.rs:187-196 | what is swallowed of a text of any code points is what stands in front of the first with the property White_Space |
| PatternStreams.MaskableIsNotSplit | src/security/secret_scrubber.rs:197-246 | if in each stretch of the text no match of a pattern half overlaps one of a secret, and what is kept is within the limit or ends with a match, no chunking makes a push cut through a secret |
| PatternStreams.MaskableTextLeaksNoSecret | src/security/secret_scrubber.rs:185-258 | hence no chunking of such a text lets a masked secret through |
| PatternStreams.QuietStream | src/security/secret_scrubber.rs:185-258 | a stream in which no pattern matches is the stream without patterns |
| Completeness.PatternsMakeNone | src/security/secret_scrubber.rs:88-91 | pattern passes over a part of a text make no occurrence of a secret that can share no byte with a mask, not even across the ends of the part |
| StreamCuts.ShortSecretsFit | src/security/secret_scrubber.rs:226-229 | secrets of up to 8193 bytes fit: each, and behind it all but the last character of one that begins inside of it, stay within the limit |
| StreamCuts.SecretMatchFits | src/security/secret_scrubber.rs:226-229 | for secrets that fit, of any number and length: in any pending text and with any patterns a match of a secret makes the push keep no more than the limit |
| StreamLimits.OneSecretExactly | src/security/secret_scrubber.rs:226-246 | for one secret not beginning like a mask, and patterns that match nothing in its witnesses: where no pattern matches, streaming agrees with `scrub` for every chunking if and only if every shift of the secret onto itself leaves room for one more start of it within the limit |
| StreamLimits.BoundIsSharp | src/security/secret_scrubber.rs:229 | that bound is sharp: 8194 times the letter a is a secret that streaming does not always mask, with any patterns that match nothing in a run of that letter |
| StreamLimits.OverlapBreaks | src/security/secret_scrubber.rs:219-225 | two secrets that half overlap in the text: streaming shows the front of one that `scrub` masks, with any patterns that match nothing there |
| StreamLeaks.NeverLeaksExactly | src/security/secret_scrubber.rs:185-258 | a single secret that can share no byte with a mask, and patterns that match nothing in its leaking pushes: from texts in which no pattern matches it never comes out, whatever is pushed, if and only if every shift of it onto itself leaves room for one more start of it within the limit |
| StreamLeaks.OutgrownLeaks | src/security/secret_scrubber.rs:226-246 | the pushes that let any other single secret out as a whole, with any patterns that match nothing in them |
| PatternLeaks.HalfMatchedLeaks | src/security/secret_scrubber.rs:219-225 | a match of a pattern from the middle of a secret to the end of the pending text makes the push cut the secret there, and it comes out whole when the pattern does not match its second part any more |
| PatternLeaks.PasswordPatternLeaks | src/security/secret_scrubber.rs:63-64 | a text where the runner's pattern for passwords does that, among any patterns that find nothing in it, with two short, sorted, disjoint secrets |
| PatternLeaks.SwallowedRun | src/security/secret_scrubber.rs:185-246 | behind a match of the whole pending text that outgrows the limit, the text is dropped up to whitespace, and from there on the stream is as a new one |
| PatternLeaks.SwallowedAndResumed | src/security/secret_scrubber.rs:185-258 | an assignment to `password` that outgrows the limit and ends in a later push: no push cuts a secret, one mask stands for the assignment, and the text behind it is masked as ever |
| PasswordPattern.PasswordsIsPattern | src/security/secret_scrubber.rs:63-64 | the search for that regex yields matches that do not overlap and lie on characters |
| PasswordPattern.AssignmentExactly | src/security/secret_scrubber.rs:63-64 | the word, whitespace, a colon or an equals sign, whitespace: all up to the next whitespace is matched if it has at least eight characters, and nothing otherwise |
| StreamOutput.PushStartsChar | src/security/secret_scrubber.rs:194-250 | strings stay strings: every emitted and every kept part begins with a character, for any secrets and patterns |
| TraceLog.Append | src/runner_daemon/trace.rs:173-195 | appending pieces gives, at every moment, the log of the concatenated text: cut at the last character that fits, notice, nothing after |
| TraceLog.TruncatedExactly | src/runner_daemon/trace.rs:177-194 | a text up to the limit is kept as it is; of a longer one the characters that fit, and the notice |
| Cancel.CancelSignal.Update | src/runner_daemon/cancel.rs:24-32 | the state is always the strongest report so far |
| Cancel.StrongestReaches | src/runner_daemon/cancel.rs:22-43 | a level is reached if and only if some report was at least that strong, whatever the order |
| Cancel.StrongestOnlyEscalates | src/runner_daemon/cancel.rs:1-3 | no further report takes a level back |
| GitLabTrace.TraceEndpoint.Process | src/gitlab/mod.rs:333-372 | GitLab's side: bytes are appended exactly when the offset is the end of the log, otherwise 416 tells its length |
| GitLabTrace.TraceEndpoint.Request | src/gitlab/mod.rs:308-317 | one request among late arrivals, losses, errors and refusals: GitLab's log stays a prefix of the writer's trace and only grows |
| GitLabTrace.UnderstandExactly | src/gitlab/mod.rs:946-960 | an answer is understood if and only if its status is 403, 2xx, or 416 with a range; it says that the job is over for 403 and the job statuses canceled and failed, that it is being canceled for canceling, and nothing of the kind for any other |
| GitLabTrace.PatchTrace | src/gitlab/mod.rs:289-375 | at most three attempts, and fewer only after an answer that settles the request, which is the last one and is passed on as what it says by status, job status and range; one that is no abort tells exactly what GitLab has |
| TraceWriting.TraceWriter.Append | src/runner_daemon/trace.rs:173-195 | the log of what was collected grows by the text, and GitLab still has a prefix of it |
| TraceWriting.TraceWriter.Flush | src/runner_daemon/trace.rs:113-147 | until an abort `sent` <= GitLab's length <= trace length; true only if GitLab has exactly the trace; a flush without mishap that starts in step completes; after an answer with status 403 or job status canceled or failed the signal is Aborted, after canceling it is Canceling unless it was Aborted, after any other it is what it was, and without an answer that settles the request nothing changes |
| TraceWriting.TraceWriter.FlushIfDue | src/runner_daemon/trace.rs:106-110 | flushes once the interval has passed and otherwise leaves everything as it is |
| TraceWriting.TraceWriter.Write | src/runner_daemon/trace.rs:78-86 | one push is recorded and sent when a batch is full or the interval has passed, keeping the invariant |
| TraceWriting.TraceWriter.FlushAll | src/runner_daemon/trace.rs:153-164 | at most two flushes plus one for each mishap; complete whenever there are at most three mishaps |
| TraceWriting.TraceWriter.Finish | src/runner_daemon/trace.rs:150-165 | flushes what the masker held back; if the last flush reports success and nothing was aborted, GitLab's log is the trace |
| JobLog.LogText | src/runner_daemon/trace.rs:78-165 | end to end for any writes, with the flush timer ticking in between: GitLab's log is the truncated output of the masker, whatever was lost, delayed or duplicated, and that is `scrub` of all writes concatenated where the writes are cut cleanly |
| ProcessLog.EachStreamAlone | src/runner_daemon/executor/shell.rs:117-148 | for any bytes: the text written of each of the two streams is what its decoder gives for its chunks alone, whatever stands between them; of a killed process a beginning of that |
| ProcessLog.WritesAreInOrder | src/runner_daemon/executor/shell.rs:120-148 | every text is well-formed, they come in the order of the reads, and the rests of standard output and standard error follow |
| ProcessLog.KilledLosesRests | src/runner_daemon/executor/shell.rs:117-148 | of a killed process nothing is lost but what the two decoders hold back, at most three bytes each |
| ProcessLog.DecodeProcess | src/runner_daemon/executor/shell.rs:117-148 | the loop over what is read computes these writes |
| ProcessLog.LogProcess | src/runner_daemon/executor/shell.rs:113-148 | the whole pipeline from the reads of a process, and the timer ticks between them, to GitLab's log |
| JobLog.GitLabSeesNoSecret | src/runner_daemon/trace.rs:78-147 | at any moment of a job, with any patterns: no masked secret that no push cuts stands in the text GitLab has |
| JobCache.DownloadAgrees | src/runner_daemon/job_cache.rs:225-229 | a download stored before its sidecar is written keeps archive, sidecar and S3 in agreement, because the old ETag is dead |
| JobCache.SaveAgrees | src/runner_daemon/job_cache.rs:261-275 | a saved archive beside the ETag it replaces keeps them in agreement |
| JobCache.NotModifiedMeans | src/runner_daemon/job_cache.rs:222-223 | a 304 means the archive is the object's content or this host's own save on top of exactly that object |
| JobCache.CacheEntry.Evict | src/runner_daemon/job_cache.rs:120-142 | archive and sidecar go one after the other, both whenever the archive is older than the limit and no removal fails, and never otherwise; agreement is kept in between |
| JobCache.CacheEntry.Get | src/runner_daemon/s3.rs:490-528 | a conditional GET answers for what S3 has at one moment of the call |
| JobCache.CacheEntry.Fetch | src/runner_daemon/job_cache.rs:205-239 | after every outcome, crashes included, the agreement holds; when S3 has the key the archive stands for what S3 had, and a download is labelled with the ETag that came with it |
| JobCache.CacheEntry.Save | src/runner_daemon/job_cache.rs:243-291 | after every outcome the agreement holds; until an upload succeeds the sidecar names the object this archive replaces, afterwards this archive, unless the file system refuses to write it |
| JobCache.RestoreKey | src/runner_daemon/job_cache.rs:171-199 | an extracted archive is S3's content at the time of the answer, or an own save on top of it, or the local copy where S3 had nothing; another local copy only after a warning that S3 did not answer or its object could not be stored |
| JobCache.RestoreFirst | src/runner_daemon/job_cache.rs:163-201 | keys are looked at in order, each look tied to what there was under its key at that time; all before the hit found no archive, without a hit all did not, and only a look that failed ends it otherwise; with other jobs, hosts and evictions at work before and during each key |
| Breaker.RunKeeps | src/runner_daemon/s3.rs:316-487 | the invariant of the breaker over all interleavings of calls |
| Breaker.OpenAttemptsAreRare | src/runner_daemon/s3.rs:311-335 | while the breaker stays open, k attempts after another one come at least k cooldowns later, and each is a trial |
| Breaker.AttemptsAreBounded | src/runner_daemon/s3.rs:390-486 | a call makes at most 3 attempts, and none after a trial |
| Breaker.FailureIsRetried | src/runner_daemon/s3.rs:458-486 | in every reachable state: a failed attempt that is not a trial and not the third leaves the breaker as it was and the call checks again, with the breaker closed successfully; any other ends the call and opens the breaker for a cooldown |
| Breaker.ChecksExactly | src/runner_daemon/s3.rs:316-335 | a check starts an attempt with the breaker closed, a trial that claims a new pause once the pause is over, and skips the call before; a first check claims nothing |
| Breaker.GateExactly | src/runner_daemon/s3.rs:316-343 | besides failed attempts only an answer, a call that cannot reach S3 and a trial change the breaker; errors of the host do not |
| Breaker.PauseNeverShrinks | src/runner_daemon/s3.rs:331-343 | while the breaker stays open the end of the pause never moves back |
| Breaker.AnswerCloses | src/runner_daemon/s3.rs:461-467 | an answer closes the breaker, and it stays closed until a call fails to reach S3 |
| Breaker.OneCooldownIsEnough | src/runner_daemon/s3.rs:323-334 | in every reachable state a call that checks again one cooldown later is let through |
| S3Bucket.Bucket.CheckBreaker | src/runner_daemon/s3.rs:316-335 | the locked section does what the machine's check does |
| S3Bucket.Bucket.Send | src/runner_daemon/s3.rs:375-487 | with any other calls in between, a run of the machine; an answer leaves the breaker closed, a failure leaves it open for a whole cooldown; it gives up on failed attempts only after three of them or a trial, and at once only when S3 is unreachable |
| S3Bucket.Bucket.Get | src/runner_daemon/s3.rs:490-528 | a call has one of the ends an answer can have, an error of the host among them; of these only a body that breaks off or stalls trips the breaker |
| S3Bucket.Bucket.ReadBody | src/runner_daemon/s3.rs:498-528 | what the end of an answer does to the breaker |
| S3Bucket.Bucket.Put | src/runner_daemon/s3.rs:531-551 | while the breaker pauses an upload is skipped and claims nothing; an archive that cannot be measured or hashed, or is too large, ends it before S3 is asked |
| Slots.TakenAreMembers | src/runner_daemon/mod.rs:149-151 | pigeonhole: if all numbers below id are taken, at least id are |
| Slots.FindLowestFree | src/runner_daemon/mod.rs:149-151 | the search ends and finds the lowest free number |
| Slots.LowestFree | src/runner_daemon/mod.rs:149-151 | it is free, all below it are taken, and it is at most the number of those in use |
| Slots.ConcurrencySlots.Acquire | src/runner_daemon/mod.rs:153-160 | takes the lowest free number of the runner and of the project; neither was in use |
| Slots.ConcurrencySlots.Release | src/runner_daemon/mod.rs:162-170 | gives both back and forgets a project without slots |
| Slots.ReleaseUndoesAcquire | src/runner_daemon/mod.rs:153-170 | releasing what was acquired restores the table |
| Workspaces.NamesTellJobsApart | src/runner_daemon/executor.rs:72-86 | two jobs have the same directory if and only if they agree on project, slot and protection, or are the same job of unknown protection |
| Daemon.StepKeepsSlots | src/runner_daemon/mod.rs:520-553 | every step keeps the slots of running jobs distinct, counted and below `concurrent` |
| Daemon.StepKeepsLock | src/runner_daemon/mod.rs:422-429 | every step keeps the lock discipline between job loop and rotator |
| Daemon.AtMostConcurrentJobs | src/runner_daemon/mod.rs:376-405 | in every run at most `concurrent` jobs hold a permit and both slot numbers are below `concurrent` |
| Daemon.FreePermitIsGranted | src/runner_daemon/mod.rs:376-405 | in every reachable state in which the loop waits and fewer than `concurrent` jobs hold a permit, it is granted one, and the job it gets can start beside all others |
| Daemon.AllMayWork | src/runner_daemon/mod.rs:376-405 | any `concurrent` jobs can be at work at once |
| Daemon.RunningJobsHaveOwnWorkspaces | src/runner_daemon/mod.rs:520-553 | two jobs that run at the same time never have the same directory |
| Daemon.ReturnsQuietly | src/runner_daemon/mod.rs:422-429 | `start` returns only when no job is left and no token reset is between its request and its save |
| Daemon.ShutdownCanEnd | src/runner_daemon/mod.rs:415-429 | from every reachable state a shutdown can end with the return of `start`: no lock, permit or job holds it up for ever |
| Daemon.DrainingAcceptsNothing | src/runner_daemon/mod.rs:415-423 | once a shutdown ended the waiting, no job is accepted |
| JobSteps.OutcomeIsFirstVerdict | src/runner_daemon/executor.rs:409-527 | the outcome is the first verdict of any step |
| JobSteps.VerdictExactly | src/runner_daemon/executor.rs:409-525 | what the verdict of a step is, for each failure: an abort cancels at any step; steps other than after_script also fail by a cancellation seen before or during the run, by running out of time, by not running, and by an exit code that is not allowed |
| JobSteps.FailureStays | src/runner_daemon/executor.rs:409-527 | a failure is never overwritten |
| JobSteps.SuccessExactly | src/runner_daemon/executor.rs:409-527 | the job succeeds if and only if no step has anything to say against it |
| JobSteps.StartedExactly | src/runner_daemon/executor.rs:409-431 | a step starts if and only if it has lines, no abort was seen up to it, and its `when` is "always", or "on_failure" and something failed before, or any other string and nothing did |
| JobSteps.AfterScriptsChangeNothing | src/runner_daemon/executor.rs:488-519 | results of after_script steps change neither the outcome nor which steps start |
| JobRun.ScriptDeadlineIsExact | src/runner_daemon/executor.rs:399-406 | for every duration, also overflowing ones, the script deadline is the exact minimum and never passes the job's |
| JobRun.AfterScriptDeadlineIsExact | src/runner_daemon/executor.rs:448-456 | an after_script gets what it asks for up to 300 s even when the job's time is over, and more only within it |
| JobRun.GetSources | src/runner_daemon/executor.rs:555-583 | hook, checkout and hook in this order up to the first that fails, which decides; a checkout that ends with an exit code is tried again until the attempts are used up, and after nothing else; a checkout script that cannot be built fails the job without being run; all within the deadline |
| JobRun.SourcesExactly | src/runner_daemon/executor.rs:555-583 | how the scripts of sources leave the job, by the last one that ran: its exit code, out of time, canceled, or a failure of the system |
| JobRun.RestoreWorkspace | src/runner_daemon/executor.rs:376-397 | the restore ends by the job's deadline and, if it has to be stopped, the stop grace; out of time only at the deadline, interrupted only by a cancellation |
| JobRun.OneStep | src/runner_daemon/executor.rs:409-525 | one turn of the loop is one step of the fold, within its limits |
| JobRun.RunJobSteps | src/runner_daemon/executor.rs:335-528 | the outcome is the first failure in the order of the scripts of sources that were run, the restore and the steps; a step is launched if and only if it has lines and its `when` ("always", "on_failure", any other) agrees with whether anything failed; scripts get exactly the job's time or the shorter one asked for, an after_script the time asked for within the job's or 300 s, with the status it is told; all ends by job deadline + 10 s + 300 s per after_script |
| Expansion.UniqueReading | src/runner_daemon/script.rs:283-322 | the tokenisation prints back to the text and is the only readable one that does |
| Expansion.LoneExactly | src/runner_daemon/script.rs:300-314 | a dollar is kept as it is exactly when nothing else can be read behind it |
| Expansion.NamesExactly | src/runner_daemon/script.rs:296-322 | names are letters, digits and underscores of ASCII with no digit in front |
| Expansion.DollarsAreKept | src/runner_daemon/script.rs:291-322 | two dollars come out as one, and a dollar that begins nothing else comes out as it is |
| Expansion.Expand | src/runner_daemon/script.rs:285-322 | the loop computes the concatenated meaning of the tokens |
| Expansion.DoubledComesBack | src/runner_daemon/script.rs:283-294 | a text with every dollar doubled expands to itself, whatever the values |
| Expansion.ValuesAreNotExpanded | src/runner_daemon/script.rs:296-322 | `${name}` and, where the name ends, `$name` come out as the value of the name, or as nothing without one, and the value is not expanded again |
| Quoting.ShellReadsArgv | src/runner_daemon/script.rs:47-53 | a POSIX shell reads back exactly the arguments, for all NUL-free arguments |
| Quoting.QuotedIsRead | src/runner_daemon/script.rs:10-13 | a quoted value is read as one word that is the value |
| PercentEncoding.PercentDecode | src/runner_daemon/s3.rs:155-176 | the index loop computes the decoding, escapes being read only between character boundaries |
| PercentEncoding.EscapesExactly | src/runner_daemon/s3.rs:155-176 | which three bytes are read as one and as which; any other byte stands for itself |
| PercentEncoding.UnchangedExactly | src/runner_daemon/s3.rs:33-44 | which bytes an encoder leaves: letters, digits, hyphen and underscore, in a path also dot, tilde and slash |
| PercentEncoding.EscapesAreCapital | src/runner_daemon/s3.rs:33-44 | any other byte becomes a percent sign and two hexadecimal digits with capital letters |
| PercentEncoding.PathRoundTrip | src/runner_daemon/s3.rs:33-44 | decoding an encoded path gives the path, for every string |
| PercentEncoding.EncodeIsInjective | src/runner_daemon/job_cache.rs:72-78 | different texts have different encodings |
| PercentEncoding.KeysCollideExactly | src/runner_daemon/job_cache.rs:71-84 | exactly which different cache keys share a file name |
| PercentEncoding.KeyIsOneComponent | src/runner_daemon/job_cache.rs:69-84 | a name holds no separator, dot or NUL; it is the encoded key up to 200 bytes, and `h-` and the digest beyond |
| PercentEncoding.ArchivesApart | src/runner_daemon/job_cache.rs:144-148 | archives of different projects or keys with short encodings are different files |
| PercentEncoding.SidecarsApart | src/runner_daemon/job_cache.rs:62-67 | no sidecar has the path of an archive of any key |
| Extraction.SymlinkStaysInside | src/runner_daemon/artifacts.rs:273-293 | the depth counter answers true if and only if the target is relative and no prefix of it climbs above the root |
| Extraction.ResolvesInside | src/runner_daemon/artifacts.rs:273-293 | that is so if and only if resolving the target directory by directory never leaves the root |
| Extraction.WalkWithoutLinks | src/runner_daemon/artifacts.rs:273-293 | where no link stands on the way, that is where the path leads |
| Extraction.StaysInsideExactly | src/runner_daemon/artifacts.rs:273-293 | following links: a target the check lets through stays inside, whatever other links with all parent steps in front there are, if and only if it has its own in front |
| Extraction.PairLeadsOut | src/runner_daemon/artifacts.rs:273-293 | two links the check lets through, the second of which leads above the root |
| Extraction.Extract | src/runner_daemon/artifacts.rs:104-183 | success means the real sizes fit the budget; never more than one byte beyond it is written; exactly the links whose text stays inside are created |

## Left out

- StreamMasking.StreamEqualsScrub: secrets may overlap in the text by nesting only and must be apart from
  the mask (`StreamLimits.OverlapBreaks` and `Completeness.MaskCompletesASecret` show why); that the
  patterns match separately at a cut is asked of each cut, since a pattern may match across one. For a
  single secret and texts in which no pattern matches the condition is exact.
- PatternStreams.StreamLeaksNoSecret: that no push cuts through a secret is sufficient, and
  `PatternLeaks.HalfMatchedLeaks` shows what can happen otherwise; a secret that is cut may still be
  masked by a pattern, so it is not necessary.
- Completeness.CleanExactly: exact for lists without a secret that contains a whole mask; for such
  secrets only `Completeness.NoSecretSurvives` and the counterexample.
- StreamScrubbing.HoldBackIsBounded: patterns are arbitrary ranges on character boundaries.
- GitLabTrace.PatchTrace: the number after the dash in the 416 `Range` is GitLab's length; permanent
  errors, which this request never returns, and the waits between attempts are not modelled.
- TraceWriting.TraceWriter.FlushAll: the waits between flushes are not modelled.
- ProcessLog.LogProcess: one process writes; section markers and warnings between its chunks are further
  writes of `JobLog.LogText`, and one read takes at most 8192 bytes, which nothing here depends on.
- PasswordPattern.PasswordsIsPattern: with the four of `TokenPatterns` five patterns are modelled exactly; the
  other seven are arbitrary.
- TokenStreams.TokenStreamEqualsScrub: secrets with other bytes, and patterns that match whitespace, need
  the conditions of `StreamMasking.StreamEqualsScrub`.
- TokenStreams.TokenIsNotCut: a match that is held back beyond the limit is cut or swallowed, see
  `StreamScrubbing.Emit`.
- JobCache.RestoreFirst: operations on one key are serialised on a host and ETags are never used
  twice; the age of an archive is whatever the file system says; extraction itself is not modelled here.
- Breaker.RunKeeps: the message of the failure that opened the breaker is not kept, and a poisoned lock
  does not occur.
- Daemon.ReturnsQuietly: aborting the rotator takes effect at once, and panics do not occur.
- Daemon.RunningJobsHaveOwnWorkspaces: GitLab gives running jobs distinct ids.
- JobRun.RunJobSteps: each script ends by its own limit, and writing the job log takes no time.
- PercentEncoding.ArchivesApart: keys with longer encodings depend on the digest, see
  `PercentEncoding.KeysCollideExactly`; the digest is any function to 64 alphanumeric characters.
- Extraction.StaysInsideExactly: links are known by the real path of their directory, and a walk may stop
  after any number of links.
- Extraction.Extract: names, directory handles and permissions are not modelled; an unsafe name or an
  I/O error may end it at any entry.
- HTTP, TLS, request signing, JSON and TOML parsing, DNS, Docker, git, process control, ZIP and zstd:
  foreign code.
- Job requests that GitLab answers after a shutdown request: the wait may still pick a ready permit.
- Eviction of workspaces, `resolve_key`, environment assembly, job scripts around the quoted lines and
  configuration: plain code without an invariant that spans several operations.
