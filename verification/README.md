# Parcus in Dafny

Parcus is a proxy between LLM clients and their providers. It parses a request, rewrites its prose
into fewer tokens without touching code, answers repeated requests from a cache, and limits what
each tenant may send. This project models that behaviour and proves what holds of it for every
input, every run and every interleaving. `dafny verify dfyconfig.toml` checks all of it.

## How it is laid out

- `Text`, `Spans`: strings as `str.split`, `str.rstrip` and `split("\n")` see them, and the lazy
  fence scanner. Its answer is the only list of spans with a few simple properties.
- `Rewriting`, `Lossless`, `Filler`: rewriting prose around fences. `Rewriting` is generic in the
  rewriting of prose; whitespace normalisation and filler removal are its two uses.
- `Seams`, `SafeSeams`, `SeamCounts`: where prose meets a fence, and exactly which texts the filler
  pass may rewrite as a whole.
- `Requests`, `Removal`, `Invariants`, `Compression`, `Chains`, `SettledPasses`, `Dedup`: the request
  model, the model-free checks, the passes, chains of them and their fixed points, and block
  deduplication.
- `Dialects`, `BodyKeys`, `Pipeline`: parsing bodies and writing them back, what a body says in its own
  terms and when two share a cache key, and the outbound path end to end.
- `Quota`, `Seen`, `ContextCache`: the token bucket, the bounded set of seen prefixes and the
  registrar of paid context caches, each as a class and as a whole history of calls.
- `ResponseCache`, `Epochs`, `Encryption`, `EncryptedCaching`, `Similarity`, `Tags`, `CacheKeys`:
  the response table, encryption at rest with rotation and shredding, the near-duplicate index with
  its durable snapshot, and the cache keys.
- `Engine`, `EngineLaws`: the proxy as a transition system, one step before and one after each upstream
  call, and what that means for its callers: who is refused, who is served whose answer, and when.

What the source changes in place is a class here, its loops are loops, and each method is proved
against a function of its inputs or of the state before; the properties are proved of that function.

## What the code does not do

These were found false in general and are proved to hold exactly, or under a condition, instead.

- Normalising a system prompt can lose a word: ``run ```x``` `` becomes ``run```x``` ``
  (`Lossless.InlineFenceLosesAWord`). Words survive if and only if the part of each fence's line
  before the fence is blank or does not end in a blank (`Lossless.WordsSurviveNormalisation`), and
  the pass's own check says exactly that (`Compression.LosslessCheckIsExact`).
- The filler pass glues words to inline fences in the same way (`Filler.InlineFenceIsRefused`). It
  removes allowed words only when every seam with a fence is safe: a word that touches the fence may
  not be droppable; otherwise all words on that side of the fence's line must be; and prose on one
  line between two fences must touch both. That is sufficient always (`SafeSeams.FillingIsSafe`) and
  necessary when no word that holds a fence is droppable (`SeamCounts.FillingIsSafeIff`).
- Normalising twice can differ from normalising once (`Lossless.SecondPassCanChange`): prose that
  ends in a backtick once trimmed moves the end of the fence after it. Classification commutes with
  normalisation if and only if no prose does that (`Lossless.ClassifyAfterNormalise`), and a pass
  leaves a text as it is if and only if its prose is tidy (`Lossless.NormaliseCodeAwareSettled`), so
  a second pass changes nothing if and only if the prose of the first one's output is.
- A body whose Gemini `systemInstruction` names a role is not written back as it was
  (`Dialects.NamedInstructionIsRewritten`); every other accepted body is
  (`Dialects.SerializeUndoesParse`).
- The JSON view of structured content is there to keep cache keys unique, yet a text message that
  spells out another message's JSON shares its key (`BodyKeys.SpelledOutSharesKey`). Two accepted
  bodies share a key if and only if they agree on everything keyed but for such messages
  (`BodyKeys.BodyKeyIsExact`); where structured content is not let in, there are none
  (`BodyKeys.TextBodyKeyIsExact`).
- The spend cap of the context-cache registrar bounds live caches if and only if no two calls are
  ever suspended in `create` together (`ContextCache.CapHoldsIffNoOverlap`); with `p` of them the
  bound is the cap plus `p - 1`.
- A limit per minute admits nobody if and only if its burst, or without one its rate, is below one
  (`Quota.PerMinuteAdmitsNobody`), and without refill a denial is for good although its hint says
  zero (`Quota.NoRefillNeverRecovers`).
- A `put` with no time to live leaves an older row in place (`ResponseCache.OldRowOutlivesEmptyPut`),
  so "latest put" means the latest that stored something (`ResponseCache.GetReturnsLatestPut`).

## Model

| member | source | states |
|---|---|---|
| Text.WordsConcat | src/parcus/invariants.py:32-34 | the words of two texts put together are their words side by side, except that words touching at the seam merge |
| Text.JoinOfLines | src/parcus/compress/lossless.py:48-49 | splitting a text into lines and joining them gives it back |
| Spans.ClassifySpans | src/parcus/spans.py:23-43 | the loop over matches returns a non-empty list that spells the text, equal to the recursive scanner |
| Spans.FindFence | src/parcus/spans.py:20 | the leftmost triple backtick at or after a position, or the end |
| Spans.MatchIsClosedFence | src/parcus/spans.py:20 | a match is a shortest closed fence and the prose before it holds no fence and does not end in a backtick |
| Spans.ScanIsCanonical | src/parcus/spans.py:23-43 | the spans concatenate to the text; code spans are shortest closed fences, prose before a fence holds none and lends no backtick, the tail holds no closed pair, prose never touches prose |
| Spans.CanonicalIsUnique | src/parcus/spans.py:23-43 | no other list of non-empty spans with those properties spells the same text |
| Spans.ScanStep | src/parcus/spans.py:23-43 | after prose without a fence and a closed fence the scanner goes on as if it started there |
| Spans.FencesAreInWords | src/parcus/spans.py:20 | whether a text holds a fence, or a closed pair, depends on its words alone |
| Rewriting.RespanCanonical | src/parcus/compress/lossless.py:52-57 | rewritten spans, empty ones dropped, are canonical exactly when no prose hands a backtick to the fence after it |
| Rewriting.ClassifyCommutes | src/parcus/compress/lossless.py:52-57 | for any rewriting that brings no fence, classifying the rewritten text gives the rewritten spans exactly in that case |
| Rewriting.CodeAwareSettled | src/parcus/compress/lossless.py:52-57 | a rewriting that never lengthens leaves a text as it is exactly when it leaves every prose span alone |
| Rewriting.CodeAwareSpells | src/parcus/compress/lossless.py:52-57 | rewriting a text spells its rewritten spans, and a classification is the scan or one empty span |
| Lossless.NormaliseCons | src/parcus/compress/lossless.py:48-49 | trimming lines and collapsing newlines, told one character at a time: a blank goes at a line's end, a newline goes before two others |
| Lossless.NormaliseKeepsWords | src/parcus/compress/lossless.py:34-49 | no word is lost, altered or reordered, and the text does not grow |
| Lossless.NormalisedIsTidy | src/parcus/compress/lossless.py:34-49 | the result has no line ending in a blank and no three newlines together, and such texts are exactly the ones left unchanged |
| Lossless.NormaliseIdempotent | src/parcus/compress/lossless.py:34-49 | a second pass changes nothing |
| Lossless.NormaliseFirstLine | src/parcus/compress/lossless.py:34-49 | the first line stays, trimmed, and line structure neither appears nor disappears |
| Lossless.NormaliseLastLine | src/parcus/compress/lossless.py:34-49 | the last line stays, trimmed |
| Lossless.ClassifyAfterNormalise | src/parcus/compress/lossless.py:52-57 | classifying the normalised text gives the normalised spans, empty ones dropped, exactly when no line running into a fence ends, trimmed, in a backtick |
| Lossless.NormaliseCodeAwareSettled | src/parcus/compress/lossless.py:52-57 | a text is returned unchanged exactly when all its prose is tidy |
| Lossless.NormaliseCodeAwareIdempotent | src/parcus/compress/lossless.py:52-57 | a second normalisation changes nothing exactly when the prose of the normalised text, classified again, is tidy; it is when no line running into a fence ends, trimmed, in a backtick |
| Lossless.SetOffMeansNoTick | src/parcus/compress/lossless.py:52-57 | on texts whose fences are set off no such line does |
| Lossless.WordsSurviveNormalisation | src/parcus/compress/lossless.py:52-57 | a text keeps its word sequence exactly when each fence's line is, before the fence, blank or not ending in a blank |
| Lossless.WordsSurviveIffSetOff | src/parcus/compress/lossless.py:52-57 | the same counted span by span: each fence not set off loses a word and nothing gains one |
| Lossless.InlineFenceLosesAWord | src/parcus/compress/lossless.py:52-57 | one inline fence for which the words do not survive |
| Lossless.SecondPassCanChange | src/parcus/compress/lossless.py:52-57 | one text on which a second normalisation changes code read as prose |
| Removal.RemovedOnlyAllowed | src/parcus/invariants.py:37-61 | the greedy loop answers yes exactly when some embedding of the output's words skips only allow-listed words |
| Removal.GreedyIsExact | src/parcus/invariants.py:54-61 | matching each word as early as possible loses no embedding, from any point of the loop |
| Removal.MatchFirst | src/parcus/invariants.py:54-61 | an embedding that skips a matching first word can be exchanged for one that uses it |
| Removal.EmbedsReflexive | src/parcus/invariants.py:37-61 | a text is its own removal |
| Removal.EmbedsTransitive | src/parcus/invariants.py:37-61 | removals compose |
| Removal.EmbedsAntisymmetric | src/parcus/invariants.py:37-61 | two texts that are removals of each other have the same words |
| Removal.EmbedsMonotone | src/parcus/invariants.py:37-61 | a larger allow-list accepts whatever a smaller one does |
| Removal.EmbedsGentle | src/parcus/invariants.py:37-61 | removing words brings no fence and no closed pair |
| Invariants.Violations | src/parcus/invariants.py:64-161 | reports every difference of system, message count, role, span structure, code and prose, and nothing else; the list is empty exactly for equivalent requests |
| Invariants.EquivalentMeans | src/parcus/invariants.py:64-161 | that is: system prompt there or not in both and comparing, as many turns with the same roles and numbers of spans, code the same and prose comparing span by span |
| Invariants.SpanIssues | src/parcus/invariants.py:88-103 | reports altered code, and changed prose, exactly when there is some |
| Invariants.OnlyRemovedIsEmbeds | src/parcus/invariants.py:37-61 | comparing prose by the greedy verdict is comparing it by embeddings |
| Filler.FilterLineIsEmbedded | src/parcus/compress/filler.py:88-93 | filtering a line deletes droppable words only, breaks no line and takes no more room |
| Filler.FilterProseIsEmbedded | src/parcus/compress/filler.py:88-93 | the same for prose, with its first and last lines filtered in place |
| Filler.FilterProseWords | src/parcus/compress/filler.py:88-93 | the words left are all those that may not be dropped, in order |
| Filler.ListDecides | src/parcus/compress/filler.py:88-93 | a word of the prose stays exactly when its normal form is not on the allow-list |
| Filler.FilterProseIdempotent | src/parcus/compress/filler.py:88-93 | a second pass finds nothing to drop |
| Filler.FilterProseSettled | src/parcus/compress/filler.py:88-93 | prose is left as it is exactly when every blank that ends no line is one space between two words and no word is droppable |
| Filler.StripFillersSettled | src/parcus/compress/filler.py:96-101 | a text is returned unchanged exactly when all its prose is such |
| Filler.InlineFenceIsRefused | src/parcus/compress/filler.py:96-101 | an inline fence takes in the word before it, and no allow-list without that word accounts for it |
| Seams.WordsMeet | src/parcus/compress/filler.py:96-101 | the words of a concatenation are the words before the seam, the one word at the seam if there is one, and the words after it |
| SafeSeams.FillingIsSafe | src/parcus/compress/filler.py:96-101 | where every seam is safe the pass removes droppable words only: the word touching a fence stays, or nothing touches it and the rest of its line is droppable, and prose on one line between fences touches both |
| SeamCounts.FillingIsSafeIff | src/parcus/compress/filler.py:96-101 | on texts none of whose fence-holding words is droppable, it removes droppable words only exactly when every seam is safe |
| SeamCounts.SpansCount | src/parcus/compress/filler.py:96-101 | twice the characters and once the words that may not be dropped, counted together, never grow, and shrink at any seam that is not safe |
| SafeSeams.FilledSeamsAreSafe | src/parcus/compress/filler.py:96-101 | after the pass the seams are safe for any later one, blank wherever no word touches the fence |
| SafeSeams.NormalisedSeamsAreSafe | src/parcus/compress/lossless.py:52-57 | normalising a text whose seams are safe keeps all its words, and the seams safe |
| Compression.RewriteSpans | src/parcus/compress/lossless.py:129-137 | every mutable span is rewritten and every other kept; nothing counts as touched exactly when nothing changed |
| Compression.RewriteBlockList | src/parcus/compress/lossless.py:71-86 | text blocks are rewritten, other blocks kept verbatim, and the count is zero exactly when nothing changed |
| Compression.RewriteTextBlocks | src/parcus/compress/lossless.py:60-86 | structured content keeps everything but the text of its text blocks |
| Compression.TextBlocksAreRewritten | src/parcus/compress/lossless.py:60-86 | an object of type "text" with a string text gets that text rewritten and nothing else; every block that is no object, of another type or without a string text, and every other field, stays as it was |
| Compression.RewriteRequest | src/parcus/compress/filler.py:131-168 | the loop over messages and the system prompt computes the rewritten request; nothing is touched exactly when the request is unchanged |
| Compression.LosslessCheckIsExact | src/parcus/compress/lossless.py:107-167 | the self-check on the output holds exactly when the system prompt is absent or its fences are set off |
| Compression.LosslessCompress | src/parcus/compress/lossless.py:107-170 | the pass with its check: what it returns, what it touched, and when it reports success |
| Compression.FillerCheckIsExact | src/parcus/compress/filler.py:125-184 | that condition, for the comparison itself; messages always pass |
| Compression.FillerCompress | src/parcus/compress/filler.py:125-184 | the pass with its check: success means only allow-listed words are gone; it is certain when the system prompt is absent or its seams are safe, and on prompts none of whose fence-holding words is droppable it comes only then |
| Chains.ChainCompress | src/parcus/compress/chain.py:27-36 | the request after all passes in order, one report each, all successful when the system prompt is absent or safe for the chain |
| Chains.PassKeepsMeaning | src/parcus/compress/filler.py:125-184 | under its own condition on the system prompt (fences set off, or safe seams) a pass removes allowed words at most and keeps roles, spans, flags, code and other content |
| Chains.ChainKeepsMeaning | src/parcus/compress/chain.py:27-36 | so does every chain of lossless and filler passes whose allow-lists lie within one, on every request whose system prompt is absent or safe for the chain; structured content keeps its keys and other blocks, and text blocks that are safe lose allowed words only |
| Chains.TextKeepsMeaning | src/parcus/compress/chain.py:27-36 | the same for one text that every pass classifies afresh |
| Chains.SafeStep | src/parcus/compress/chain.py:27-36 | the first pass finds a safe text safe for itself and leaves it safe for the rest of the chain |
| Chains.RunStructured | src/parcus/compress/filler.py:187-213 | over a whole chain structured content changes in nothing but the text of its text blocks |
| Chains.TextBlocksAreRun | src/parcus/compress/filler.py:187-213 | over a whole chain, block by block: the text of an object of type "text" with a string text is run through the chain; every other block is equal to what it was |
| Chains.StandAloneIsSafe | src/parcus/compress/filler.py:96-101 | fences that stand on lines of their own are safe for every chain |
| Chains.ChainNeverLengthens | src/parcus/compress/chain.py:27-36 | no chain lengthens the text of a request of plain messages |
| SettledPasses.PassIsSettled | src/parcus/compress/filler.py:125-184 | a pass returns a request unchanged exactly when all its prose is tidy, or evenly spaced and free of droppable words, and it has no cache breakpoint to lose |
| SettledPasses.PassIdempotent | src/parcus/compress/filler.py:125-184 | running a pass a second time changes nothing exactly when it leaves the prose of its own output, classified again, alone; it does when no rewritten prose hands a backtick to a fence |
| SettledPasses.SafeLendsNothing | src/parcus/compress/filler.py:125-184 | where seams are safe a filler pass hands none |
| Dedup.Configure | src/parcus/compress/dedup.py:33-51 | the threshold always exceeds the marker and is otherwise the one asked for |
| Dedup.DedupSpansOf | src/parcus/compress/dedup.py:69-77 | the inner loop with its growing set of blocks: the spans, the set and the count afterwards |
| Dedup.DedupCompress | src/parcus/compress/dedup.py:53-93 | the whole loop computes the deduplicated request and counts its replacements; without one the request itself is returned |
| Dedup.PlainSpansDedup | src/parcus/compress/dedup.py:60-78 | message borders do not matter: the plain spans are deduplicated as one run |
| Dedup.MarkersPointBack | src/parcus/compress/dedup.py:70-76 | every marker stands for a block kept verbatim earlier, and every other span is itself |
| Dedup.RepeatsAreReplaced | src/parcus/compress/dedup.py:69-77 | a span becomes the marker exactly when it has at least the minimum of characters and an equal one came before; the count is the number of such places |
| Dedup.RestoreIsExact | src/parcus/compress/dedup.py:60-83 | following the back-pointers restores every text |
| Dedup.RestoreSpansIsExact | src/parcus/compress/dedup.py:60-83 | and, for spans flagged as the classifier flags them, every span |
| Dedup.LargeBlocksOnce | src/parcus/compress/dedup.py:70-76 | each large block of the input occurs in the output at exactly one place, and no other does |
| Dedup.DedupSaves | src/parcus/compress/dedup.py:46-50 | every replacement saves at least one character |
| Dedup.DedupIdempotent | src/parcus/compress/dedup.py:60-83 | a second pass replaces nothing |
| Dedup.DedupLosesNothing | src/parcus/compress/dedup.py:53-93 | all of this for requests, structured messages and everything else unchanged |
| Dialects.ParseMessages | src/parcus/proxy/dialects.py:129-146 | all entries are parsed, or none if one is refused |
| Dialects.ParseBody | src/parcus/proxy/dialects.py:79-109 | parsing a body of any dialect: when it is refused and what it yields |
| Dialects.GeminiText | src/parcus/proxy/dialects.py:180-197 | text is read only from content that is one text part and nothing more |
| Dialects.SerializeBody | src/parcus/proxy/dialects.py:282-318 | the loop writes every message and the system prompt into the body it came from |
| Dialects.BreakpointMarksOneEntry | src/parcus/proxy/dialects.py:282-348 | a breakpoint is written for Anthropic only and into the entry it names: text becomes one marked block, structured content keeps all blocks and fields and has its last block marked, if that is an object; every other entry is as without a breakpoint |
| Dialects.EntryRoundTrip | src/parcus/proxy/dialects.py:112-126 | an accepted entry is written back unchanged |
| Dialects.SerializeUndoesParse | src/parcus/proxy/dialects.py:79-318 | whatever is accepted is written back as the same JSON value, exactly unless a Gemini system instruction names a role |
| Dialects.NamedInstructionIsRewritten | src/parcus/proxy/dialects.py:262-279 | one accepted body that is not written back as it was |
| Dialects.ParseUndoesSerialize | src/parcus/proxy/dialects.py:282-318 | re-reading a written request gives the same request: text turns with the same roles and texts, structured ones themselves |
| Dialects.ParsedIsReadable | src/parcus/proxy/dialects.py:79-109 | whatever was parsed can be written and re-read so |
| BodyKeys.EntryIsRead | src/parcus/proxy/dialects.py:112-221 | in the entry's own fields: which entries of each dialect are accepted, which of them are read as text, and with which role and text; the others are carried as they stand |
| BodyKeys.SystemIsRead | src/parcus/proxy/dialects.py:149-197 | which system prompts are accepted, and what is read of them |
| BodyKeys.BodyIsAccepted | src/parcus/proxy/dialects.py:79-259 | a body is accepted exactly when its system prompt is text or left out, its list of turns is there and every turn in it is accepted |
| BodyKeys.FieldsAreRead | src/parcus/proxy/dialects.py:72-259 | what the request carries of the body: tools as their JSON exactly when they are there and not null, the model, the system prompt, the stream flag by its truth value, and every turn in order |
| Pipeline.CompressRequest | src/parcus/proxy/engine.py:508-547 | the outbound body is the chosen request written into the original, and the choice never counts more tokens than the input |
| Pipeline.Cheaper | src/parcus/proxy/engine.py:520-532 | for any token counter the guard picks one of the two requests, never the dearer |
| Pipeline.ProviderReadsAllowedText | src/parcus/proxy/engine.py:508-547 | for every accepted body whose system prompt is absent or safe for the chain: what the provider parses from the outbound body differs from what the client wrote by allowed words and whitespace of prose only, counts no more tokens, is no longer if all turns are text, and no other field of the body changed |
| Pipeline.DiscardedCompressionChangesNothing | src/parcus/proxy/engine.py:524-529 | when the guard discards a compression, the body goes out as it came in |
| Pipeline.ChainKeepsReadable | src/parcus/compress/chain.py:27-36 | a compressed request is still one that could have been read from the body |
| Pipeline.DedupOfParsedIsReversible | src/parcus/compress/dedup.py:60-83 | the blocks of any parsed request can be put back in place, each as it was classified |
| Quota.RateLimiter.Check | src/parcus/quota.py:80-108 | the new buckets, and the decision as a function of the whole history of checks |
| Quota.BucketIsLeastRoom | src/parcus/quota.py:80-108 | a bucket holds the least room of all windows opened by its key's checks |
| Quota.CheckFindsLeastRoom | src/parcus/quota.py:91-99 | refilling at a check keeps that so, the check's own window included |
| Quota.AdmittedIffWindowsOpen | src/parcus/quota.py:80-108 | a check is admitted exactly when every window ending with it has room for one more |
| Quota.CapacityAtLeastOne | src/parcus/quota.py:91-108 | below one token nobody is admitted; from one token on every key's first check is |
| Quota.PerMinuteAdmitsNobody | src/parcus/quota.py:34-47 | a limit per minute admits nobody in any run exactly when its burst, or without one its rate, is below one |
| Quota.PerMinuteIsExact | src/parcus/quota.py:34-108 | a limit of so many per minute admits a check exactly when each stretch that ends with it keeps within the burst, or without one the rate, and the rate for every minute of the stretch |
| Quota.PerMinuteBound | src/parcus/quota.py:34-108 | any m minutes admit at most the burst, or without one the rate, and m times the rate |
| Quota.PerMinuteServesTheIdle | src/parcus/quota.py:34-108 | a key that has not asked for a minute has its next rate checks admitted, rounded down, however fast they come, if the burst is no less than the rate |
| Quota.WindowBound | src/parcus/quota.py:80-108 | any stretch of time admits at most the capacity and its refill |
| Quota.OwnDecisionsKeepBound | src/parcus/quota.py:80-108 | the limiter itself keeps the bound it is measured by |
| Quota.MostPermissive | src/parcus/quota.py:80-108 | no limiter that keeps the bound, even one that knows the future, has admitted more at any point |
| Quota.KeysAreIndependent | src/parcus/quota.py:66-68 | a key is told what it would be told if it were the only one |
| Quota.DeniedUntilRetry | src/parcus/quota.py:101-108 | before the hinted time every check of the key stays denied |
| Quota.AdmittedAtRetry | src/parcus/quota.py:101-108 | the first check at or after it is admitted |
| Quota.CeilingSuffices | src/parcus/proxy/engine.py:364-373 | a whole-second wait suffices for the key's next check exactly when it is at least the ceiling announced as Retry-After (section 10.2.3 of RFC 9110) |
| Quota.NoRefillNeverRecovers | src/parcus/quota.py:101-108 | without refill a denied key stays denied and is told zero |
| Tags.TaggedIsInjective | src/parcus/cache/key.py:44-49 | tag and text can be told apart in a NUL-separated pair whose text holds no NUL |
| Seen.PrefixSeenSet.RecordAndCheck | src/parcus/cache/seen.py:47-60 | the answer as a function of the whole history of sightings, and the set afterwards |
| Seen.PrefixSeenSet.EvictOldest | src/parcus/cache/seen.py:58-59 | the loop keeps exactly the most recent entries |
| Seen.SuffixStep | src/parcus/cache/seen.py:47-60 | capping before or after a sighting is the same: what was evicted never matters again |
| Seen.RecencyTellsHistory | src/parcus/cache/seen.py:47-60 | behind a key in the order stand exactly the keys recorded since, each once |
| Seen.AnswerTellsHistory | src/parcus/cache/seen.py:47-60 | yes exactly when the key was recorded before, last within the TTL, and fewer distinct others than the cap were recorded since |
| Seen.AnswerTellsSightings | src/parcus/cache/seen.py:47-60 | by tenant and digest: yes exactly when the same tenant sighted the digest before, last within the TTL, and fewer distinct digests of any tenants than the cap were sighted since |
| Seen.LargerCapRemembersMore | src/parcus/cache/seen.py:47-60 | a larger set repeats every yes of a smaller one |
| ContextCache.GeminiContextCacheRegistrar.LiveCount | src/parcus/cache/context_cache.py:116-118 | counts the unexpired handles |
| ContextCache.GeminiContextCacheRegistrar.Prune | src/parcus/cache/context_cache.py:120-123 | drops exactly the expired handles |
| ContextCache.GeminiContextCacheRegistrar.EvictExpired | src/parcus/cache/context_cache.py:149-151 | drops exactly the expired handles |
| ContextCache.GeminiContextCacheRegistrar.EnsureBegin | src/parcus/cache/context_cache.py:129-139 | the call up to its suspension: the map and whether to reuse, send inline or create |
| ContextCache.GeminiContextCacheRegistrar.EnsureFinish | src/parcus/cache/context_cache.py:139-147 | the call after it: the handle, expiring from the time read before the suspension, or nothing |
| ContextCache.BeginKeeps | src/parcus/cache/context_cache.py:129-138 | only old handles remain, every live one does, an outgrown map is pruned, and a creation starts only below the cap |
| ContextCache.StepKeepsBounds | src/parcus/cache/context_cache.py:116-151 | every step keeps both interleaved bounds |
| ContextCache.InterleavedBounds | src/parcus/cache/context_cache.py:116-151 | with at most p calls suspended, live handles and suspended calls never exceed the cap and p - 1, the map and they never exceed four caps and p, and every handle is held under its own key |
| ContextCache.CapHoldsIffNoOverlap | src/parcus/cache/context_cache.py:137-145 | the live handles stay within the cap in every run exactly when at most one call is ever suspended |
| ContextCache.ReusedHandleIsOwn | src/parcus/cache/context_cache.py:109-135 | a reused handle is live and was created for the same credential, model and prefix |
| ContextCache.OutcomeIsExact | src/parcus/cache/context_cache.py:125-139 | in every reachable state: a call reuses a cache exactly when one created for its credential, model name and prefix is unexpired and held, and then that one; without one it is sent inline exactly when the unexpired handles number the cap or more, and else creates |
| ContextCache.OutcomeByKey | src/parcus/cache/context_cache.py:129-138 | the same for any map; the map afterwards has lost exactly the expired handle under the asked key and, when it held more than four caps, all expired ones |
| ContextCache.CreatorReuses | src/parcus/cache/context_cache.py:125-147 | one call at a time, who asks again within the TTL of a cache created for him is answered with that cache |
| ContextCache.SerialRunInvariant | src/parcus/cache/context_cache.py:125-151 | in serial runs unexpired creations stay in the map and the map never exceeds four caps and one |
| ContextCache.OneWindow | src/parcus/cache/context_cache.py:137-145 | one TTL's time holds no more creations than the cap |
| ContextCache.SpendBound | src/parcus/cache/context_cache.py:116-151 | any window of k TTLs holds at most k caps of creations |
| ResponseCache.SqliteCache.Get | src/parcus/cache/sqlite_cache.py:60-87 | the live row's value, or a miss that deletes an expired row |
| ResponseCache.SqliteCache.Put | src/parcus/cache/sqlite_cache.py:89-114 | replaces the key's row, unless the time to live is not positive |
| ResponseCache.GetDropsTheExpired | src/parcus/cache/sqlite_cache.py:60-87 | a read answers a row exactly before its expiry and otherwise deletes it; no other row is touched |
| ResponseCache.TableHoldsLatest | src/parcus/cache/sqlite_cache.py:60-114 | a key's row is its latest stored put, or that put has expired |
| ResponseCache.GetReturnsLatestPut | src/parcus/cache/sqlite_cache.py:60-114 | in every run a read answers the latest stored put exactly while its time to live has not passed |
| ResponseCache.OldRowOutlivesEmptyPut | src/parcus/cache/sqlite_cache.py:89-114 | one run in which a put without a time to live leaves the older row to be served |
| Epochs.EpochStore.Epoch | src/parcus/cache/epoch.py:46-49 | a tenant's epoch is how often it was shredded since the store was made |
| Epochs.EpochStore.Bump | src/parcus/cache/epoch.py:87-98 | one tenant's epoch grows by one, every other stays, and each still counts its shreds |
| Epochs.DecimalIsInjective | src/parcus/cache/encryption.py:293-301 | numbers with the same decimal spelling are equal |
| Epochs.EpochLabelIsInjective | src/parcus/cache/encryption.py:293-301 | no two tenants or epochs share a derivation label, whatever characters tenants contain |
| Encryption.Open | src/parcus/cache/encryption.py:92-108 | opens exactly the blobs of the right version sealed for the same key text under the current or a retired key |
| Encryption.TenantCipherProvider.ForTenant | src/parcus/cache/encryption.py:175-186 | memoised ciphers equal fresh derivations; shredded tenants get none |
| Encryption.TenantKeysAreSeparate | src/parcus/cache/encryption.py:85-186 | what is sealed for a tenant opens exactly for the same key text under the same tenant's cipher and a master still held |
| Encryption.KmsCipherProvider.Resolve | src/parcus/cache/encryption.py:241-249 | succeeds exactly when every wrapped master unwraps at full length, and then for good |
| Encryption.KmsCipherProvider.ForTenant | src/parcus/cache/encryption.py:251-253 | the same ciphers as a tenant provider over the unwrapped masters |
| Encryption.EpochCipherProvider.ForTenant | src/parcus/cache/encryption.py:303-313 | the cipher of the tenant's current epoch whatever was memoised before |
| EncryptedCaching.CipherProvider.ForTenant | src/parcus/cache/encryption.py:112-117 | every provider answers its tenant's cipher and changes nothing another call depends on |
| EncryptedCaching.EncryptedCache.Get | src/parcus/cache/encryption.py:344-357 | a hit is the inner row opened under the tenant's cipher; a withheld key never reaches the inner cache; over an empty table the answer is the one the whole history of calls determines |
| EncryptedCaching.EncryptedCache.Put | src/parcus/cache/encryption.py:359-375 | the inner row is the sealed response; nothing is written when the key is withheld; the table follows the history |
| EncryptedCaching.SealedTableMirrorsPlain | src/parcus/cache/encryption.py:344-375 | row by row the sealed table is the plain one, each body sealed by its latest writer |
| EncryptedCaching.EncryptionIsInvisible | src/parcus/cache/encryption.py:316-375 | the wrapper answers what the plain cache would exactly when the sealing key is still among the caller's, and misses otherwise |
| EncryptedCaching.EpochGrows | src/parcus/cache/epoch.py:87-98 | epochs only grow, and stay equal exactly while the tenant is not bumped |
| EncryptedCaching.EpochCountsBumps | src/parcus/cache/epoch.py:87-98 | a tenant's epoch is the number of its bumps |
| EncryptedCaching.EpochKeysAreSeparate | src/parcus/cache/encryption.py:293-313 | an epoch's key opens for the same tenant, epoch and a held master, and nothing else |
| EncryptedCaching.ShreddingIsIrreversible | src/parcus/cache/encryption.py:256-375 | over all runs with restarts and rotations, a read answers exactly when the latest store was the tenant's own, under a master still held, with no bump since |
| EncryptedCaching.ReadAnswersOwnLatest | src/parcus/cache/encryption.py:256-375 | told without the plain cache: a read answers the value stored last under the key, exactly while it lives, if the tenant itself stored it under a master still held and was not bumped since |
| Similarity.SimilarityCache.Lookup | src/parcus/cache/similarity.py:104-123 | the loop returns the key of the best entry |
| Similarity.BestKey | src/parcus/cache/similarity.py:104-123 | that entry is the most recent of the most similar ones of the same model and tenant at or above the threshold, and there is none exactly when nothing qualifies |
| Similarity.SimilarityCache.Remember | src/parcus/cache/similarity.py:125-143 | the index keeps the most recent entries and, if the entry persists, still agrees with its snapshot |
| Similarity.SimilarityCache.constructor | src/parcus/cache/similarity.py:84-102 | a new index holds what the store loads, within the cap |
| Similarity.SqliteSimilarityStore.Load | src/parcus/cache/similarity_store.py:101-122 | the most recent rows that can be read, oldest first |
| Similarity.SqliteSimilarityStore.Append | src/parcus/cache/similarity_store.py:141-167 | adds the row and keeps the most recent; a withheld entry is not written |
| Similarity.AppendKeepsSnapshot | src/parcus/cache/similarity_store.py:141-167 | writing through keeps the loaded entries equal to the index |
| Similarity.RestartChangesNoLookup | src/parcus/cache/similarity.py:84-143 | after any sequence of remembered requests a restart loads the entries in memory, so it changes no lookup |
| CacheKeys.TenantSaltIsInjective | src/parcus/proxy/engine.py:636-639 | no two tenants share a salt |
| CacheKeys.KeyIsExact | src/parcus/cache/key.py:25-49 | two requests share a key exactly when their tenants, dialect, model, system, tools and every message's role and text agree |
| CacheKeys.InstallsAreSeparate | src/parcus/cache/key.py:25-49 | under two install salts a tenant shares no key, under one exactly the keys of requests that say the same |
| BodyKeys.BodyKeyIsExact | src/parcus/cache/key.py:25-49 | two accepted bodies share a key exactly when tenant and dialect are the same and the bodies agree on model, tools, system prompt and every turn, a turn that spells out another's JSON as its text taken for that one |
| BodyKeys.TextBodyKeyIsExact | src/parcus/cache/key.py:25-49 | where only text is let in, they agree on every turn outright |
| BodyKeys.SpelledOutSharesKey | src/parcus/model.py:168-177 | one pair of different bodies that share a key |
| Requests.TextAppends | src/parcus/model.py:168-210 | what is measured and embedded: the system prompt and then message after message, text as it is and structured content as its JSON |
| Engine.ProxyEngine.Admit | src/parcus/proxy/engine.py:334-373 | routing, authorisation and rate limiting, and which refusal comes first |
| Engine.ProxyEngine.HandleBegin | src/parcus/proxy/engine.py:322-392 | a request up to the upstream call: the state after it and what the caller is told, both as the run of all steps so far determines them |
| Engine.ProxyEngine.Serve | src/parcus/proxy/engine.py:386-393 | the exact cache first, then the near-duplicate index, and the table after both |
| Engine.ProxyEngine.HandleFinish | src/parcus/proxy/engine.py:401-410 | a request after it: only a successful answer with a key is stored and indexed, and the stores follow the run |
| Engine.ProxyEngine.KeepAnswer | src/parcus/proxy/engine.py:403-410 | a failed answer, or one without a key, leaves cache and index alone |
| Engine.ProxyEngine.PrepareStream | src/parcus/proxy/engine.py:203-290 | a streaming request: the same front half, and never the caches |
| Engine.EveryStateKeepsInvariant | src/parcus/proxy/engine.py:322-422 | every reachable state's rows are stored answers under their own keys, and waiting requests and index entries carry their own keys |
| Engine.NeighbourIsKeyed | src/parcus/proxy/engine.py:644-660 | a neighbour was indexed for the same tenant and model |
| Engine.ServedAnswersAreReal | src/parcus/proxy/engine.py:374-410 | in every interleaved run a served response is an earlier successful answer stored less than the TTL ago for the same tenant and model; a hit also agrees with everything its request says; no compacted request is served |
| Engine.AnswersHaveOrigins | src/parcus/proxy/engine.py:383-410 | a stored answer is what the upstream answered to an authorised, uncompacted request that began before |
| Engine.EverySentWasAllowed | src/parcus/proxy/engine.py:360-373 | whatever is sent upstream, buffered or streaming, was admitted by a rate check of its own |
| Engine.StepSendsAllowed | src/parcus/proxy/engine.py:360-373 | every step keeps that |
| Engine.UpstreamBudget | src/parcus/proxy/engine.py:360-373 | in every run, any stretch of time sends upstream for a tenant at most the capacity and its refill |
| Engine.RetryAfterSuffices | src/parcus/proxy/engine.py:364-373 | a tenant answered 429 (section 4 of RFC 6585) that waits the announced seconds is not limited again |
| EngineLaws.RefusalsAreExact | src/parcus/proxy/engine.py:345-373 | an unroutable request is refused first, then a principal missing from a non-empty allow-list, then one whose own bucket denies it, with the wait rounded up; everybody else is let through |
| EngineLaws.PrincipalsShare | src/parcus/proxy/engine.py:346-349 | without tenants and without an allow-list neither the outcome nor the state afterwards depends on the principal |
| EngineLaws.CallsAfter | src/parcus/proxy/engine.py:345-373 | which steps are rate-checked, and under whose name |
| EngineLaws.PrincipalHasOwnBucket | src/parcus/proxy/engine.py:346-373 | with tenants or an allow-list a principal is refused exactly what it would be refused if all other principals had never asked |
| EngineLaws.KeyIsGiven | src/parcus/proxy/engine.py:624-642 | a key is given exactly to a request that may be cached, under the install's salt and the tenant |
| EngineLaws.KeptWasAllowed | src/parcus/proxy/engine.py:383-410 | rows and index change at an upstream answer only if it is a success for an authorised request that was sent before and may be cached: caching on, not streamed, not compacted, not refused by the policy, its Gemini model known |
| EngineLaws.ServedTraces | src/parcus/proxy/engine.py:346-393 | whoever is served may be served, and the response is a success the upstream gave less than a TTL ago to a request that may be cached, for the same model and, with tenants or an allow-list, of the same principal; a hit answered a request that said the same |
| EngineLaws.ServiceIsExact | src/parcus/proxy/engine.py:374-400 | in every state: the live row under the request's own key, else the live row of its best neighbour, else it is sent upstream; a request that may not be cached always is, without a key |
| EngineLaws.RowStays | src/parcus/proxy/engine.py:374-410 | a stored answer keeps its row through every interleaving until it expires or a later answer replaces it |
| EngineLaws.RepeatIsServed | src/parcus/proxy/engine.py:374-410 | whoever repeats a request while its latest answer is alive is served that answer or refused: the same principal with tenants or an allow-list, anybody without |
| EngineLaws.IndexIsRecent | src/parcus/proxy/engine.py:403-410 | the index holds, in order, what the most recent stored answers put there, up to its size |
| EngineLaws.NeighbourIsServed | src/parcus/proxy/engine.py:389-393 | without a live answer of its own a request is served the live answer of its best neighbour among the most recently stored |
| EngineLaws.WaitingCounts | src/parcus/proxy/engine.py:345-410 | in every run as many wait upstream in one guise as were let through, buffered or streaming, less those answered |
| EngineLaws.RunGoesOn | src/parcus/proxy/engine.py:345-410 | which interleavings there are: a run goes on with any request at any time, and with an answer exactly for who was sent more often than answered, as long as neither clock steps back |
| EngineLaws.PrincipalBudget | src/parcus/proxy/engine.py:346-373 | with a limit per minute, any m minutes of any run let through at most the burst, or without one the rate, and m times the rate: of each principal where they are told apart, of all together otherwise |

## Left out

- Chains.ChainKeepsMeaning: the condition on the system prompt is exact for one pass; for longer chains it is sufficient.
- Compression.FillerCheckIsExact: where a word that holds a fence is itself droppable, safe seams are sufficient but not necessary.
- Compression.RewriteRequest: the number of touched spans is pinned only to being zero or not.
- Lossless.NormaliseCons: the regular expression for newlines is modelled as the maximal runs it matches.
- Quota.RateLimiter.Check: tokens and times are real numbers, so float rounding is not modelled; the buckets are values in a map rather than shared objects.
- ContextCache.GeminiContextCacheRegistrar.EnsureFinish: a cancelled call is the same as one whose `create` failed.
- ContextCache.ReusedHandleIsOwn: SHA-256 is taken as injective; so it is in the cache keys.
- CacheKeys.KeyIsExact: the JSON writers are arbitrary functions, injective on payloads and free of control characters where the lemma says so.
- Encryption.TenantCipherProvider.constructor: the refusal of keys of the wrong length is a precondition; so it is for the single-key cipher, whose keys are taken as given.
- Encryption.Open: AES-GCM is ideal authenticated encryption (section 7 of NIST SP 800-38D) and HKDF is injective in master and info string (section 2.3 of RFC 5869).
- EncryptedCaching.EncryptedCache.Put: UTF-8 encoding and its failure on lone surrogates.
- Engine.ProxyEngine.HandleBegin: the index is wired without its durable store and the cache without encryption; both are treated on their own.
- Engine.ServedAnswersAreReal: the wall clock and the monotonic clock are both taken never to step back.
- EncryptedCaching.ShreddingIsIrreversible: a run is a list of events; the classes record their own calls and shreds, not one list for both.
- Epochs.EpochStore.Bump: one store stands for the in-memory and the SQLite one; an in-memory store forgets its epochs with the process.
- Similarity.SimilarityCache.Lookup: embeddings and cosine are arbitrary functions; vector encoding is part of an arbitrary codec.
- Filler.FilterProseWords: stripping punctuation and lower-casing is an arbitrary function, the same in the pass and in its check.
- Pipeline.CompressRequest: cache-breakpoint injection is off; the JSON encoding of the body and the token counts in the statistics are not modelled.
- JSON: non-finite numbers, which the decoder accepts beyond the standard.
- Messages: a message with structured content has no spans, as the source's documentation promises of its producers.
- Fail-open branches around exceptions, and sampling of the self-checks: the checks always run.
- SQLite itself, file modes, locks and finalisers: each table is a map or a sequence.
- Memory ingestion and compaction, redaction, cache policy, usage parsing, metrics, the strategy table, tool-result elision and learned compression: arbitrary inputs to the engine, or easy.
- HTTP ingress, upstream transport, streaming relay, CLI, settings and reports.
