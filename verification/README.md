# Arnon, modelled and proved in Dafny

Arnon is an HTTP framework written in Go. This project models the parts of it whose guarantees go
beyond one branch, and proves those guarantees for every input, every run or every interleaving:
a sliding-window rate limiter, a PATCH derived from a GET and a PUT, a concurrency throttle, a
timeout that races its handler, the ETag middleware, the JSON pointers of validation errors, the
sanitizer, the parser of the `Forwarded` header, the copy-on-write `Problem` and the order of the
recommended middleware chain.

`dafny verify dfyconfig.toml` verifies everything.

## How the model is made

* Code that changes things step by step is imperative here too: classes with the source's own
  fields (`LocalLimitCounter`, `ResponseWriter`, `Store`, `FieldMapBuilder`, `Registry`, `Preparer`,
  `Problem`) and methods with the source's loops, each proved equal to a function of the inputs and
  the old state. The properties are then lemmas about those functions.
* A concurrent protocol is a state machine. A run is a sequence of moves, any sequence whose moves
  are enabled when they are made, so a lemma about all runs is a lemma about all interleavings.
* A Go map is visited in no particular order: such a loop picks any pending key, or takes the
  entries in an order that is a parameter.
* A library that is not part of the repository (the FNV hash, `encoding/json`, the JSON patch
  library, date parsing, the letters of Unicode) is a function-valued field or parameter of which
  nothing is known. Where a property needs more, the assumption is a named predicate about the run or
  the value at hand, never about all values: `PatchRuns.CollisionFree` (no resource holds two
  different profiles with one hash during the run), `ProblemJson.Faithful` (the library reads back the
  standard members of this problem and the members of its text; nothing is said of the extensions) and
  `Json.Lawful` (how the library prints and reads the arrays, maps and structs in this extension;
  nothing is said of scalars). `PatchRuns.SmallLibraryMeetsAll` and
  `ProblemJson.SmallLibraryMeetsAll` exhibit libraries that meet them.
* Time is an integer tick, and the limiter's weight is an exact fraction whose comparisons are
  multiplied out by the window length.

| file | what it holds |
|---|---|
| `Strings.dfy` | the functions of Go's `strings` that the rest uses, with their laws |
| `Arithmetic.dfy` | products and quotients, one small step at a time |
| `RateLimit.dfy`, `RateLimitRuns.dfy` | the two-window counter against a log of every increment; whole runs of the limiter |
| `Responses.dfy` | the buffering response writers and the one of net/http behind them |
| `EntityTags.dfy`, `Precondition.dfy`, `ETag.dfy` | tags and their comparison, write preconditions, conditional GET |
| `Patch.dfy`, `PatchRuns.dfy` | the derived PATCH over the example's store; many of them at once |
| `Throttle.dfy`, `Timeout.dfy` | the two concurrent middlewares over all interleavings |
| `JsonPointer.dfy`, `FieldMap.dfy`, `FieldLocations.dfy` | RFC 6901 pointers, the walk that records them, what they point at |
| `FieldNamespaces.dfy` | when two locations can have one namespace |
| `Sanitize.dfy`, `SanitizeCode.dfy`, `SanitizePaths.dfy` | the check of a type and the walk over a value, as functions; the code; what both come to, told by paths |
| `Forwarded.dfy`, `ForwardedQuotes.dfy` | the quote-aware split and the client of the first hop; escaped quotes |
| `Chain.dfy` | the order of the middleware chain, and composing it |
| `Problem.dfy`, `Json.dfy`, `ProblemJson.dfy` | copies that share nothing; values there and back; the JSON round trip |

## Where the code and its documentation differ

The model follows the code, and each difference is a theorem: a case in which the documentation
does not hold, and where it does.

* `RateLimitConfig.RequestLimit` is documented as the maximum number of requests within
  `WindowLength` (rate_limit.go:78-80). Over an interval that starts `offset` ticks into a window
  that holds if and only if `limit * (offset - 1) < length` (`LimitHeldExactly`), and over every
  interval if and only if `limit * (length - 2) < length`, which for windows of four ticks or more is
  a limit of one (`LimitHeldOverall`); what always holds is `SlidingBound`.
* `X-RateLimit-Remaining` rounds the effective rate to the nearest integer, and so promises one
  request too many when the fraction is positive and below one half (`RemainingHeaderExactly`); even
  a refused request can be told that one remains (`RefusedRemainingExactly`).
* `ThrottleConfig.BacklogLimit` is documented as the number of requests allowed to wait
  (throttle.go:19-22). A request that was queued keeps its place in the backlog until its handler
  returns (`TurnedAwayExactly`). With any backlog at all a request can therefore be turned away while
  nobody waits, and even those that have just given up waiting may be as few as the backlog limit less
  the number of slots (`WaitingAtRefusal`, `QueueAtRefusal`, `BacklogLimitHeldExactly`).
* A PATCH replays all of the client's headers on its internal GET. With `Range` the ETag middleware
  steps aside, and the protection against lost updates is gone unless `If-Match` is there too
  (`ProtectedExactly`); with an `If-None-Match` that names the current tag the PATCH is answered 304
  and does nothing (`AloneAnswers`).
* A body field without a name in its `json` tag (no tag, options only, or `-,`) is recorded at a pointer
  that ends in a slash and evaluates to nothing; all others evaluate to their own value
  (`PointersResolve`).
* A map key can take another location's namespace in the field map if and only if it contains a
  closing bracket, then any number of dotted Go field names, then an opening bracket: `][`, `].Name[`
  and so on (`KeyCollidesExactly`).
* An ETag middleware that buffers is not quite transparent (`BufferingIsTransparent` says exactly when
  it is). It sends headers that direct writing would drop: those set after the first final status or
  byte. And it takes an informational status for the answer's own: a handler that sends 103 and then 404
  is answered with 200. The same goes for the timeout middleware (`OneWholeAnswer`).
* The round trip of a `Problem` gives an extension back only if there is no struct in it, at any depth,
  and the same text again only if each struct in it lists its fields in alphabetical order; given that
  for the scalars in it, exactly then (`RoundTrip`, `SurvivesIsPlain`, `StableIsCalm`).
* In a `Forwarded` header the client `unknown` is recognised only without a port (`UnknownExactly`,
  `ForwardedRoundTrip`), and an escaped quote inside a quoted value is taken for a real one when the
  header is split: `ValueReadsExactly` says which values are read rightly, `EscapedQuoteCuts` what comes
  of some others.

## Model

| member | source | states |
|---|---|---|
| RateLimit.LocalLimitCounter.constructor | httpx/middleware/rate_limit.go:371-380 | two distinct empty maps, tracking the window that holds now, agreeing with the empty log |
| RateLimit.LocalLimitCounter.Config | httpx/middleware/rate_limit.go:382-390 | only the window length changes |
| RateLimit.LocalLimitCounter.Evict | httpx/middleware/rate_limit.go:430-450 | the tracked window rolls on by clearing and swapping the same two maps, which never become one |
| RateLimit.LocalLimitCounter.IncrementBy | httpx/middleware/rate_limit.go:399-412 | the increment is recorded after eviction, and while the clock only moves on the two maps still say what the log of every increment says |
| RateLimit.LocalLimitCounter.Increment | httpx/middleware/rate_limit.go:392-397 | the same for an amount of one |
| RateLimit.LocalLimitCounter.Get | httpx/middleware/rate_limit.go:414-425 | while the clock only moves on, the two counts are the log's sums for this window and for the one just before it |
| RateLimit.EvictionAgrees | httpx/middleware/rate_limit.go:430-450 | eviction keeps the agreement of the two maps, values and key sets, with the whole log, over a gap of any number of windows |
| RateLimit.RecordingAgrees | httpx/middleware/rate_limit.go:399-412 | recording keeps that agreement with the longer log |
| RateLimit.BackwardStepExactly | httpx/middleware/rate_limit.go:437-449 | a clock that steps back keeps the agreement exactly when the whole log lies before the window preceding the one it steps back to |
| RateLimit.BackwardClockForgets | httpx/middleware/rate_limit.go:437-449 | an instance in which the counter forgets what the log still knows |
| RateLimit.CheckRateLimit | httpx/middleware/rate_limit.go:301-347 | the answer, the counter's new state and the one new log entry of an admitted request |
| RateLimitRuns.CheckRefines | httpx/middleware/rate_limit.go:301-347 | one check on the two-window counter answers and decides as the complete log would, and leaves a counter that matches the extended log |
| RateLimitRuns.RunRefines | httpx/middleware/rate_limit.go:355-450 | over every run with a nondecreasing clock the two-window counter lets through exactly the requests that the complete log lets through |
| RateLimitRuns.SlidingBound | httpx/middleware/rate_limit.go:321-335 | for every run, key and interval of one window length: at most the limit in an aligned window, at most limit + p * (offset - 1) / length in one that starts offset into a window with p admissions, and fewer than twice the limit |
| RateLimitRuns.LimitHeldExactly | httpx/middleware/rate_limit.go:77-85 | the documented maximum holds in every run for the intervals at an offset if and only if limit * (offset - 1) < length |
| RateLimitRuns.LimitHeldOverall | httpx/middleware/rate_limit.go:77-85 | the documented maximum holds in every run and every interval if and only if limit * (length - 2) < length; with four ticks or more, if and only if the limit is one |
| RateLimitRuns.LateBurstExceeds | httpx/middleware/rate_limit.go:321-335 | the run that breaks the documented maximum whenever that condition fails |
| RateLimitRuns.KeysDoNotInterfere | httpx/middleware/rate_limit.go:312-335 | striking every other key's requests from a run changes none of one key's admissions and not its next answer, although those requests drive eviction |
| RateLimitRuns.IdleKeyAdmitted | httpx/middleware/rate_limit.go:312-333 | a key idle since before the previous window is admitted, whatever the others did, exactly when the limit is at least one |
| RateLimitRuns.ResetIsNextWindow | httpx/middleware/rate_limit.go:308-310 | the reported reset is the first later instant that belongs to another window |
| RateLimitRuns.CapacityIsReached | httpx/middleware/rate_limit.go:321-333 | after n more admissions at the same instant the next one is allowed exactly while n is below the capacity |
| RateLimitRuns.RemainingHeaderExactly | httpx/middleware/rate_limit.go:325-340 | the reported remainder is the true one when the rate's fraction is zero or at least one half, and one more otherwise |
| RateLimitRuns.RefusedRemainingExactly | httpx/middleware/rate_limit.go:325-333 | what a refused request is told remains: nothing, or one when the rounding hides that the limit is reached |
| Responses.ResponseWriter.WriteHeader | httpx/patch/response_writer.go:45-52 | the first status wins; in a writer of net/http informational ones do not count, and the headers go out with it |
| Responses.ResponseWriter.Write | httpx/patch/response_writer.go:32-43 | bytes are appended, and choose 200 when no status was chosen; a writer of net/http drops them under a status that carries none |
| Responses.ResponseWriter.AddAll | httpx/middleware/etag.go:159-165 | in whatever order the names are visited, each name's values are appended to those already there |
| Responses.ResponseWriter.CopyTo | httpx/patch/response_writer.go:66-81 | headers, final status and bytes are replayed onto the destination |
| Responses.WriterHoldsWholeOutput | httpx/patch/response_writer.go:32-52 | after any sequence of handler actions a writer holds the first status that counts for it and all the bytes in order, both read from the front of the sequence |
| EntityTags.TagsDistinguishHashes | httpx/middleware/etag.go:172-177 | two bodies have one tag exactly when their 64-bit hashes are equal: the hexadecimal printing loses nothing |
| EntityTags.ComputedTagIsListable | httpx/middleware/etag.go:172-177 | a computed tag is strong, non-empty, not "*", and fits in a comma-separated list |
| EntityTags.ComputedTagSpells | httpx/middleware/etag.go:172-177 | a computed tag is quotes around sixteen lower-case hexadecimal digits that spell the hash of the body |
| EntityTags.WeakPrefix | httpx/middleware/etag.go:194-200 | W/ is taken off a tag that has it, once, and no other tag is changed |
| EntityTags.IfMatchListExactly | httpx/precondition/precondition.go:134-155 | a printed list of tags satisfies If-Match exactly when the current tag is non-empty, strong and in the list |
| EntityTags.IfNoneMatchListExactly | httpx/middleware/etag.go:184-203 | a printed list satisfies If-None-Match exactly when one of its tags is the current one but for W/ |
| EntityTags.StrongImpliesWeak | httpx/middleware/etag.go:184-203 | for every header and tag, what matches strongly matches weakly |
| EntityTags.OwnTagMatches | httpx/middleware/etag.go:172-203 | a computed tag matches itself, strongly and weakly, in every list that names it |
| Precondition.RequiredExactly | httpx/precondition/precondition.go:77-90 | 428 exactly when a condition is required and both headers are blank |
| Precondition.IfMatchDecides | httpx/precondition/precondition.go:72-109 | with a list of tags in If-Match nothing else matters: the write proceeds exactly over a strong current tag named in the list |
| Precondition.StarMeansExists | httpx/precondition/precondition.go:134-137 | "*" is satisfied exactly by a resource that has a tag |
| Precondition.DateDecides | httpx/precondition/precondition.go:162-173 | If-Unmodified-Since alone refuses exactly when both dates are known and the resource is a whole second or more later |
| ETag.Flush | httpx/middleware/etag.go:125-157 | what the destination holds after a flush, as a function of what both writers held |
| ETag.ServedUnderTag | httpx/middleware/etag.go:125-157 | a successful answer is served under exactly one tag, the handler's own wherever its last setting of ETag is not empty and the computed tag of all its bytes otherwise; it becomes an empty 304 exactly when the If-None-Match list names that tag, W/ set aside |
| ETag.ServedOtherwise | httpx/middleware/etag.go:125-157 | "*" makes any successful answer a 304; any other answer is passed on with its status, bytes and own ETag values |
| Responses.HeaderAgreesExactly | httpx/middleware/etag.go:95-119 | buffered and direct writing, whose headers go out with the first final status or byte, give a header the same values exactly when nothing sets it later, or only to what it was |
| ETag.BufferingIsTransparent | httpx/middleware/etag.go:77-157 | without If-None-Match the client receives the status and bytes of direct writing exactly when the first status is not informational or the first final one is 200, and each header but ETag exactly when the handler does not change it after its first final status or byte |
| ETag.EarlyHintsHideTheStatus | httpx/middleware/etag.go:115-136 | the instance: 103 and then 404 is a 404 when written directly, and a 200 through the middleware |
| ETag.ServeShows | httpx/middleware/etag.go:125-157 | the reply is an empty 304 when the answer is successful and its tag matches, and otherwise the answer's own status (200 for an informational one) and the bytes that it carries |
| ETag.ComputedTagsAreFaithful | httpx/middleware/etag.go:141-144 | when no handler sets a tag, nor writes bytes under a status that carries none, a hash that tells the bodies apart makes the tags faithful |
| ETag.OrdinaryTagsAreFaithful | httpx/middleware/etag.go:184-203 | so are tags of any origin that hold no comma and tell apart the bytes of the answers |
| ETag.NotModifiedOnlyIfHeld | httpx/middleware/etag.go:149-153 | over every run of faithful answers a 304 goes only to a client that holds the bytes of the answer |
| ETag.ConditionalGetIsCoherent | httpx/middleware/etag.go:77-157 | for any set of answers: in every run of them a client that reuses its stored body on 304 ends up with the body a full GET would return, if and only if an answer reused for another shows the same bytes |
| Patch.Store.Get | examples/cmd/patch/main.go:92-105 | the answer of the GET handler behind the ETag middleware, for the profile now stored |
| Patch.Store.Put | examples/cmd/patch/main.go:123-161 | the new store and the status: decode, compare, replace, in one critical section |
| Patch.From | httpx/patch/patch.go:77-149 | the derived PATCH's effect on the store and its status, with nobody else at the store |
| Patch.DateRefusesExactly | httpx/patch/patch.go:97-112 | for every successful answer to the internal GET that carries a Last-Modified: with If-Unmodified-Since alone the PATCH is refused exactly when both dates can be read and the resource is a whole second or more later |
| Patch.NoDateNoRefusal | httpx/patch/patch.go:97-112 | without a Last-Modified and without If-Match nothing is refused |
| Patch.TagRefusesExactly | httpx/patch/patch.go:97-112 | with a list of tags in If-Match the PATCH is refused exactly when the answer's tag is missing, weak or not in the list |
| Patch.PreparedExactly | httpx/patch/patch.go:89-134 | an unsuccessful GET is passed on; after a successful one that is not refused the document decides between 400, 415 and a PUT of the patched body |
| Patch.ReplayCarries | httpx/patch/patch.go:134-146 | the replayed PUT's If-Match and If-Unmodified-Since are the answer's ETag and Last-Modified when it carries them, and the client's own otherwise |
| Patch.PutExactly | examples/cmd/patch/main.go:123-161 | what a PUT does to any store: unconditional, profile new or not, without If-Match; over a stored profile with a listed tag; over any stored profile for "*"; 412 or 400 otherwise, with the store unchanged |
| Patch.AloneAnswers | httpx/patch/patch.go:77-149 | the answer and effect of such a PATCH case by case: 404, 304, 412, 415, 400 (an unreadable body included), or the patched profile stored |
| Patch.AloneUntagged | httpx/patch/patch.go:77-149 | the same for a PATCH with a Range header: every If-Match fails, and without one the patched profile is stored |
| Patch.TagNamesProfile | examples/cmd/patch/main.go:163-175 | two profiles have one tag exactly when they are the same or their encodings have one hash |
| Patch.ReplayIsConditional | httpx/patch/patch.go:134-148 | the replayed PUT of a tagged PATCH is conditional on exactly the profile that was read, and carries its patched encoding |
| Patch.ConditionalPut | examples/cmd/patch/main.go:123-161 | such a PUT commits exactly over a profile with that tag and is 412 exactly otherwise |
| PatchRuns.RunKeepsInv | httpx/patch/patch.go:77-149 | in every interleaving and for every hash, the phases follow from what was read, the commits lead from the initial to the present profiles, each is the PUT that its own GET led to, and 200 means committed, once |
| PatchRuns.RunKeepsReads | httpx/patch/patch.go:81-88 | what a PATCH has read, and what its commit was based on, its resource has held in the run |
| PatchRuns.NoLostUpdate | httpx/patch/patch.go:81-148 | for every hash: a tagged PATCH that commits does so over a profile with the tag of the one it read, writes its patched version of that one, touches nothing else and honours the client's If-Match; what it replaces is what it read, unless the two are different profiles of the run with one hash |
| PatchRuns.CommitsAreAtomic | httpx/patch/patch.go:134-148 | without such a collision every commit of a tagged PATCH or a PUT is the whole request in one go |
| PatchRuns.StoreIsCommitsInTurn | httpx/patch/patch.go:134-148 | in every collision-free interleaving of tagged PATCHes and direct PUTs the store is what the requests answered 200 would leave, carried out whole, one after the other, in commit order |
| PatchRuns.ConflictExactly | httpx/patch/patch.go:140-148 | a PATCH ready for its PUT with a valid result gets 200 exactly when the profile it read is still the stored one or collides with it, and 412 otherwise |
| PatchRuns.OneOfTwoCommits | httpx/patch/patch.go:140-148 | of two clients that read the same profile and replay, one commits and the other gets 412 |
| PatchRuns.SmallLibraryMeetsAll | examples/cmd/patch/main.go:123-161 | a library, profiles and a run in which PATCHes compete meet every hypothesis of these theorems |
| PatchRuns.UntaggedPatchOverwrites | httpx/middleware/etag.go:71-75 | with Range and without If-Match, the interleaving in which a PATCH overwrites another client's update |
| PatchRuns.ProtectedExactly | httpx/patch/patch.go:81-148 | a PATCH that makes different profiles of two with different hashes is protected in every run, but for collisions, if and only if it has no Range header or has an If-Match |
| Throttle.TokensConserved | httpx/middleware/throttle.go:41-103 | in every reachable state each channel holds exactly the tokens of the requests that took one and have not given it back, within its capacity |
| Throttle.QuietMeansEmpty | httpx/middleware/throttle.go:55-102 | when every request has ended, however it ended, both channels are empty |
| Throttle.NeverStuck | httpx/middleware/throttle.go:55-102 | no deferred receive blocks, and a request that has not ended has a step to take |
| Throttle.RunsAreBounded | httpx/middleware/throttle.go:55-102 | any interleaving of n requests ends within 6 n steps |
| Throttle.OutcomeTellsWhatHappened | httpx/middleware/throttle.go:55-102 | how a request ended tells whether its handler returned or panicked, its client left, or it was turned away unserved |
| Throttle.TurnedAwayExactly | httpx/middleware/throttle.go:55-83 | at most limit handlers at once; who is served at once, and who is turned away, exactly |
| Throttle.WaitingAtRefusal | httpx/middleware/throttle.go:19-22 | for every configuration: no positive number of waiting requests is promised to one that is turned away; it can happen while nobody waits |
| Throttle.QueueAtRefusal | httpx/middleware/throttle.go:71-102 | counting those that have just given up waiting as well, at least m of them are there in every run exactly when m is at most the backlog limit less the number of slots, or not positive |
| Throttle.BacklogLimitHeldExactly | httpx/middleware/throttle.go:19-22 | the documented meaning of BacklogLimit holds in every run if and only if there is no backlog; counting those that have just given up, if and only if there is no backlog or no slot |
| Timeout.RunKeepsInv | httpx/middleware/timeout.go:59-111 | in every interleaving the mutex excludes, the buffer is what was performed, and the real writer holds exactly what main has sent so far |
| Timeout.CallsArePerformed | httpx/middleware/timeout.go:136-170 | until the deadline branch sets err, the handler's calls all take effect, in the order of the calls |
| Timeout.OneWholeAnswer | httpx/middleware/timeout.go:79-111 | the client has the output of all the handler's calls (first status, or 200 for an informational one, all the bytes it carries, its headers), or the 503 alone, or nothing while the handler's own panic is raised again |
| Timeout.NeverAMixture | httpx/middleware/timeout.go:79-111 | at every moment of every interleaving status and bytes on the real writer belong together |
| Timeout.FrozenAfterErr | httpx/middleware/timeout.go:136-170 | once err is set no later move changes the buffered bytes or status |
| Timeout.NobodyIsStuck | httpx/middleware/timeout.go:63-99 | main waits for nothing but the end of the handler or the deadline, and for the mutex while the handler holds it; the handler, completion signals included, waits for nothing but the mutex while main holds it; whoever holds it can move |
| Timeout.MainIsBounded | httpx/middleware/timeout.go:79-111 | main answers within six moves of its own |
| JsonPointer.DecodeEscape | validation/source.go:74-81 | the decoding of section 4 of RFC 6901 undoes the escaping of every token |
| JsonPointer.PointerInjective | validation/source.go:39-47 | two token sequences with one pointer are the same sequence |
| JsonPointer.EvaluateWalks | validation/source.go:39-47 | evaluating a built pointer is walking down its tokens |
| FieldMap.Dereference | validation/field_map.go:188-198 | the loop ends at the value below all the pointers |
| FieldMap.FieldMapBuilder.PopulateFieldMap | validation/field_map.go:56-96 | the map afterwards is the old one overwritten by the walk's records, in order |
| FieldMap.FieldMapBuilder.PopulateNestedFieldMap | validation/field_map.go:116-180 | the same below one body field, element or entry |
| FieldMap.BuildFieldMap | validation/field_map.go:38-54 | the whole map of a value |
| FieldLocations.SourceOfField | validation/source.go:16-65 | for every set of tags where the field comes from: path before query before header, and in the body the pointer goes on with the escaped name before the first comma, or with nothing for "-" |
| FieldLocations.DerefBehind | validation/field_map.go:188-198 | a value behind any number of pointers is reached |
| FieldLocations.ReachedExactly | validation/field_map.go:56-68 | the walk reaches a location exactly when no struct on its way is entered after sixteen hops or more |
| FieldLocations.EntriesAreLocations | validation/field_map.go:56-180 | every entry belongs to a location that the depth limit lets the walk reach, and every such location has an entry |
| FieldLocations.PointersResolve | validation/field_map.go:38-180 | every recorded body pointer belongs to a location and evaluates, on the JSON document as encoding/json names its members, to the value there if and only if every field on the way has a name in its tag, and to nothing otherwise |
| FieldLocations.PointersDiffer | validation/field_map.go:137-164 | a body location whose fields all have names in their tags shares its pointer with no other |
| FieldNamespaces.RootNamespaceIsTrail | validation/field_map.go:72-168 | the namespace of a location is its field names, each after a dot, and its indices and keys, each in brackets |
| FieldNamespaces.FieldMapExactly | validation/field_map.go:18-180 | when no map key is ambiguous (a closing bracket, dotted names, an opening bracket), a location has an entry exactly when no struct on its way has 16 or more levels around it, and the entry is its own source |
| FieldNamespaces.KeyCollidesExactly | validation/field_map.go:155-178 | a map key can give two body locations one namespace, in some value of a Go type whose other keys are unambiguous, if and only if it is ambiguous |
| Sanitize.Registry.constructor | sanitize/registry.go:11-15 | an unseeded registry already answers for the two built-ins |
| Sanitize.Registry.SeedBuiltins | sanitize/registry.go:62-70 | seeding, however late, changes no answer |
| Sanitize.Registry.RegisterFunc | sanitize/registry.go:26-43 | adds or replaces one tag, or reports the error; takes none away |
| Sanitize.Registry.LookupFunc | sanitize/registry.go:46-55 | the registered transform, built-ins included |
| Sanitize.AcceptedTypeHasNoUnknownToken | sanitize/prepare.go:25-91 | if Prepare accepts a type, recursive ones included, Apply meets no unregistered token on any value of it, at any later time |
| SanitizePaths.ParseTagExactly | sanitize/tag.go:10-22 | every tag is parsed into exactly the tokens whose list, after "dive" or not, it is |
| SanitizePaths.TokenErrorsExactly | sanitize/prepare.go:81-91 | a string's tokens give one error for each that is not registered, in their order, and no other |
| SanitizePaths.TypeErrorsExactly | sanitize/prepare.go:17-91 | for every type, recursive ones included: the check reports exactly the unregistered tokens of the tags that some route of fields reaches within sixteen levels, each at the names on its route, with dots and "[]" |
| SanitizePaths.AcceptedExactly | sanitize/prepare.go:17-91 | a type is accepted if and only if all those tokens are registered |
| SanitizePaths.ElemBehind | sanitize/prepare.go:97-107 | a type behind any number of pointers is reached |
| SanitizeCode.Preparer.CheckTokens | sanitize/prepare.go:81-91 | appends one error for each unregistered token, in order |
| SanitizeCode.Preparer.PrepareField | sanitize/prepare.go:44-79 | appends the errors below one field |
| SanitizeCode.Preparer.PrepareType | sanitize/prepare.go:25-42 | appends the errors below a type |
| SanitizeCode.Prepare | sanitize/prepare.go:17-23 | all unknown tokens of a type, and the registry unchanged |
| SanitizeCode.ApplyTokens | sanitize/apply.go:95-112 | the string becomes the composed transform of itself, unknown tokens skipped |
| SanitizeCode.ApplyField | sanitize/apply.go:51-93 | every string below ends as what the walk's visits make of it |
| SanitizeCode.ApplyValue | sanitize/apply.go:28-49 | the same below a struct |
| SanitizeCode.Apply | sanitize/apply.go:24-26 | the stored texts become what the visits make of them; a target that is no pointer is left alone |
| SanitizeCode.UnvisitedUnchanged | sanitize/apply.go:28-112 | a string that no visit reaches keeps its text |
| SanitizePaths.DerefBehind | sanitize/apply.go:118-128 | a value behind any number of pointers is reached |
| SanitizePaths.ComposedIsThrough | sanitize/apply.go:95-112 | a string goes through the registered transforms of its tokens, first to last, the others left out |
| SanitizePaths.VisitsExactly | sanitize/apply.go:28-93 | a string is handed to tokens exactly when a path of exported fields within sixteen levels leads to it, containers entered by "dive" only, and the last tag lists those tokens |
| SanitizePaths.SanitizedExactly | sanitize/apply.go:24-112 | without aliasing Apply sends each string at the end of such a path through the registered transforms of its tokens, and changes no other |
| SanitizeCode.ApplyOnTrees | sanitize/apply.go:28-112 | without aliasing each reached string becomes its own composed transform |
| SanitizeCode.SecondApplyChangesNothing | sanitize/apply.go:28-112 | without aliasing a second Apply changes no string anywhere exactly when each tag's composed transform is idempotent on the text its string first held |
| SanitizeCode.ApplyTwice | sanitize/apply.go:24-26 | the stored texts after Apply and after a second one |
| Forwarded.SplitTopLevel | httpx/middleware/real_ip.go:175-195 | the one-pass loop computes the quote-aware split |
| Forwarded.SplitQuotedJoins | httpx/middleware/real_ip.go:175-195 | joining the parts with the separator restores the text |
| Forwarded.SplitQuotedParts | httpx/middleware/real_ip.go:175-195 | every separator left inside a part is quoted, and only the last part can end inside quotes |
| Forwarded.SplitQuotedJoin | httpx/middleware/real_ip.go:175-195 | parts that quote their separators and close their quotes split back into themselves |
| Forwarded.NodeStripped | httpx/middleware/real_ip.go:218-232 | from every printed node, with or without brackets and port, the name comes back |
| Forwarded.UnknownExactly | httpx/middleware/real_ip.go:160-162 | a printed node reads as an unknown client exactly when it is the bare word |
| Forwarded.FoldedWords | httpx/middleware/real_ip.go:151-162 | the names "for" and "unknown" are recognised in whatever case, and no other text is taken for them |
| Forwarded.FirstForDecides | httpx/middleware/real_ip.go:148-168 | pairs without an equals sign or of another name are passed over, and the first "for" decides, with blanks around its name and value trimmed |
| Forwarded.OpenBracketStays | httpx/middleware/real_ip.go:218-225 | a node with an open bracket is returned as it is |
| Forwarded.ParseForwardedFor | httpx/middleware/real_ip.go:141-168 | the loop with its early returns finds the client of the first "for" of the first hop |
| Forwarded.ForwardedRoundTrip | httpx/middleware/real_ip.go:141-232 | whatever list of hops is printed by section 4 of RFC 7239, names in any case, blanks around names and values, escaped quotes and backslashes as far as the split bears them, the parser returns the name of the node that the first hop names, or "" |
| ForwardedQuotes.FirstPartExactly | httpx/middleware/real_ip.go:175-195 | the first part ends at a given separator exactly when the text before it quotes its separators and closes its quotes |
| ForwardedQuotes.QuotedSplitsExactly | httpx/middleware/real_ip.go:170-195 | a quoted value is split off whole exactly when it holds an even number of quotes, and an even number before each separator in it |
| ForwardedQuotes.WholeValueReads | httpx/middleware/real_ip.go:141-168 | whatever value is split off whole, the answer is the client that it names |
| ForwardedQuotes.ValueReadsExactly | httpx/middleware/real_ip.go:141-232 | for every node printed as the first value and every text after it: the answer is the name of the node if and only if an even number of quotes precedes each separator in the value, and nothing follows, or the quotes are even in all, or its port is followed by a text that happens to end in a quote |
| ForwardedQuotes.EscapedQuoteCuts | httpx/middleware/real_ip.go:175-207 | for a family of values with an escaped quote before a comma, the wrong client that is returned |
| Chain.AppendStage | httpx/middleware/chain.go:270-294 | the chain grows by the entries before the anchor, the built-in if enabled, and the entries after it, each group in the order of Extra |
| Chain.BuildChain | httpx/middleware/chain.go:207-263 | panics exactly for an invalid configuration, and otherwise appends the fourteen stages |
| Chain.ChainByName | httpx/middleware/chain.go:218-260 | without entries of Extra the chain is the built-ins that are on, by name, each with its own switch, in the documented order |
| Chain.OneSwitch | httpx/middleware/chain.go:218-260 | a configuration with a single switch on gives that built-in alone, for each of the fourteen |
| Chain.RefusedExactly | httpx/middleware/chain.go:207-214 | a configuration is refused exactly when both slash middlewares are on or an entry of Extra does not name exactly one of the fourteen anchors |
| Chain.ChainIsArranged | httpx/middleware/chain.go:207-294 | the chain holds what is asked for at exactly the places asked for, ordered by anchor, side and index of Extra |
| Chain.EveryEntryOnce | httpx/middleware/chain.go:207-294 | every entry of Extra and every enabled built-in stands in the chain exactly once |
| Chain.ArrangementIsUnique | httpx/middleware/chain.go:207-294 | there is only one such arrangement |
| Chain.Compose | httpx/routing/chain.go:9-24 | the backward loop wraps so that the first middleware is the outermost |
| Chain.RunsInSliceOrder | httpx/routing/chain.go:9-24 | a request enters the middlewares in exactly slice order and leaves them in reverse |
| Problem.Problem.Clone | problem/problem.go:422-434 | an equal copy that shares no slice and no map with anything that existed before |
| Problem.Problem.WithType | problem/problem.go:122-127 | such a copy with only the type changed |
| Problem.Problem.WithInstance | problem/problem.go:132-137 | such a copy with only the instance changed |
| Problem.Problem.WithError | problem/problem.go:142-147 | such a copy with only the cause changed |
| Problem.Problem.AddError | problem/problem.go:155-160 | such a copy with one error appended |
| Problem.Problem.With | problem/problem.go:169-193 | panics exactly for an empty or a reserved key; otherwise such a copy with one extension set under the trimmed key |
| Problem.Derive | problem/problem.go:109-193 | along any chain of derivations every Problem still says in the end what it said when it was made, and no two share a slice or a map |
| ProblemJson.MarshalJSON | problem/problem.go:213-319 | fails exactly when some extension cannot be printed; otherwise the text is the object of the non-zero standard members and of the extensions in key order, whatever order the map is visited in |
| Json.Sorted | problem/problem.go:290-290 | the keys in ascending order, whatever order they come in |
| Json.LessExactly | problem/problem.go:290-290 | the order of keys: a proper prefix first, otherwise by the first character that differs |
| Json.AscendingIsUnique | problem/problem.go:284-290 | one key set has one ascending order, so the text does not depend on the map's order |
| ProblemJson.KeysAreDistinct | problem/problem.go:213-319 | the keys of the text are pairwise distinct: no extension shadows a standard member |
| ProblemJson.StandardByName | problem/problem.go:213-282 | each of the six standard members is in the text, under its own name, exactly when it is not zero |
| ProblemJson.UnmarshalMember | problem/problem.go:374-417 | assigns one member, leaves a standard one alone or the errors nil for null, or reports that its text cannot be read |
| ProblemJson.UnmarshalJSON | problem/problem.go:353-371 | succeeds exactly when the object and every member can be read, and then says what they say, in whatever order they are visited |
| ProblemJson.ReadableExactly | problem/problem.go:374-417 | an object is read exactly when each standard member in it is null or of its own kind, and every other member can be read |
| ProblemJson.NullIsAbsent | problem/problem.go:374-417 | a standard member that is null says no more than one that is not there |
| ProblemJson.ReadPrinted | problem/problem.go:213-417 | a printed problem is read exactly when the text of each extension is, with every standard member as it was and every extension as the library reads it |
| ProblemJson.SurvivesExactly | problem/problem.go:353-417 | what is read is the problem itself exactly when each extension survives the library |
| ProblemJson.StableExactly | problem/problem.go:284-315 | the text is the same again exactly when each extension is printed alike after it has been read |
| ProblemJson.RoundTrip | problem/problem.go:213-417 | marshalling, unmarshalling and marshalling again: when each step works, when the copy says the same but for its internal cause, and when the text is the same, all exactly, in whatever order the maps are visited, and for extensions under the law of compound values by what is in them |
| Json.StableIsCalm | problem/problem.go:284-315 | an extension value, however deep, is printed alike after it has been read if and only if each struct in it lists its fields in ascending order and its leaves are printed alike |
| Json.SurvivesIsPlain | problem/problem.go:394-407 | it is itself again if and only if there is no struct in it and its leaves are themselves again |
| ProblemJson.SmallLibraryMeetsAll | problem/problem.go:213-417 | a library and a problem that meet all the hypotheses of the round trip, and whose text changes from {"b":1,"a":2} to {"a":2,"b":1} |

## Left out

Weaker than the source in one respect:

- RateLimitRuns.RunRefines: assumes a clock that does not step back; `BackwardStepExactly` says what a backward step costs.
- RateLimit.CheckRateLimit: exact fractions in place of float64, so rounding near the limit is not modelled, and a counter backend that returns an error is not either.
- PatchRuns.StoreIsCommitsInTurn: holds for runs in which no resource holds two different profiles with one hash, and for PATCHes without a Range header; `NoLostUpdate` and `ProtectedExactly` say what the others are worth.
- Patch.From: the body and headers of the answers and the OpenAPI description are left out; only status and store are kept.
- FieldLocations.PointersResolve: embedded fields, interface values, cyclic values, map keys that are no strings and tag names that encoding/json refuses are outside; a nil pointer renders as null and omitempty drops nothing. A `[]byte`, or a type with a JSON text of its own such as a UUID over `[16]byte`, is walked element by element in the code but rendered as one string; the model renders every list as an array, so those pointers are outside too.
- SanitizeCode.Apply: a map entry's value is updated in its own storage instead of being copied, changed and written back; concurrent registration during a walk is left out.
- SanitizeCode.ApplyValue: the loop over the fields, and in applyField those over slice elements and map entries, are methods of their own.
- Sanitize.AcceptedTypeHasNoUnknownToken: one direction only, since Prepare also reports tags on unexported fields that Apply never visits.
- ProblemJson.RoundTrip: assumes that the JSON library reads back the standard members and splits an object into the members that were printed; which scalars survive or are printed alike is left to the library.
- ProblemJson.MarshalJSON: the loops over standard members and extensions are two methods of their own.
- Forwarded.ForwardedRoundTrip: a header whose first hop holds a value that the split cuts is outside; `ForwardedQuotes.ValueReadsExactly` settles it for the first value.
- ForwardedQuotes.ValueReadsExactly: a node in brackets is covered by `WholeValueReads` in one direction only; a quote inside an IPv6 address is not to be expected.

Not modelled:

- The two buffering writers of `etag.go` and `response_writer.go` and the writer of net/http are one class with a `kind`, since their code is the same but for what net/http adds.
- net/http's own treatment of a response beyond the header snapshot, informational statuses and statuses without a body: the informational responses themselves, the panic on a status outside 100-999, Content-Length, sniffed content types, trailers, hijacking and flushing.
- The built-in transforms trim and email are any two functions; what they do to a text is not modelled.
- `KeyFunc`, `CanonicalizeIP` and the headers of a refused request; Retry-After is the window length and promises nothing.
- `RealIP` beyond the Forwarded header: the order of its sources and X-Forwarded-For are settled by one reading.
- The content of JSON patches and merge patches, date parsing, and the text of problem details.
- OpenAPI generation, CORS, compression, logging, recovery, slash rewriting, body limits, observability and the router: plumbing that would only add easy members.
