# Disapyr Link, modelled and proved

Disapyr Link shares a secret once. The browser packs the secret with its type and name, encrypts it with a key that
stays in the link's fragment, and posts the ciphertext; the server stores it under a random token and hands it out to
the first request that asks. Around this stand a per-address rate limiter, a log handler that writes to the database
in the background, and a redactor for connection strings. This project models these parts as they are coded and proves
what they are for. Run `dafny verify dfyconfig.toml` to check it.

## Parts

| files | what they model |
|---|---|
| `token_bucket.dfy`, `limiter_runs.dfy`, `limiter_delay.dfy`, `limiter_isolation.dfy`, `limiter_refines.dfy`, `rate_limiter.dfy` | the rate limiter: one bucket, whole runs with eviction, lookup and Allow as separate steps with a bounded delay, what one address gets from these, how separate steps make whole requests, and the classes whose requests and sweeps are the steps of whole runs |
| `dsn_tokens.dfy`, `dsn_redact.dfy` | the connection string as lossless tokens, and the index scanner proved against them |
| `secret_store.dfy`, `secret_lifecycle.dfy`, `secret_steps.dfy` | the table of secrets and its event rows, every interleaving of create, reveal, cleanup and event writes, and the repository's methods as its steps |
| `secret_service.dfy`, `secret_handler.dfy` | the service and the two handlers that decode, limit, store and re-encode |
| `log_attrs.dfy`, `log_queue.dfy`, `log_handler.dfy` | attribute flattening, the send/stop/drain protocol, and the handler classes with their shared maps |
| `base64.dfy`, `client_codec.dfy`, `utf8.dfy`, `utf8_exact.dfy`, `json.dfy`, `json_grammar.dfy`, `envelope.dfy` | the codecs of the client, down to bits and UTF-16 code units, what they take told without them, and the envelope |
| `client.dfy`, `end_to_end.dfy`, `limits.dfy` | the two pages, the trip of a secret from form to screen, and the size limits |
| `wrappers.dfy`, `sequences.dfy` | options, results, and pieces of sequences by index |

Time is in nanoseconds and a bucket's content in sixty-billionths of a token, so that a rate of n per minute accrues n
units in a nanosecond and all arithmetic is exact. JavaScript strings are sequences of 16-bit code units. Go's 64-bit
arithmetic wraps where the code can make it wrap.

## Where the code does not do what it says

- `internal/logger/db_handler.go:83` says that checking the stop flag avoids a send on the closed channel, and `:104`
  that the second check narrows the window. It does narrow it, but a call that has passed the second check can still
  send after the close, and a select with a default does not prevent the panic. `LogQueue.PanicExactly` gives the
  exact orders of events in which this happens and `LogQueue.PanicHappens` one of them.
- Retry-After rounds down (`internal/handler/ratelimit.go:131`): a client that waits that long is sure of admission
  only when the rate divides sixty (`LimiterRuns.RetryAfterSufficesExactly`).
- Forgetting idle addresses is invisible only while a bucket fills within the idle cutoff
  (`LimiterRuns.EvictionInvisibleExactly`, `LimiterDelay.EvictionInvisibleExactly`).
- `kvDSNRedact` slices past the end of the input when the last value is quoted, not secret, and ends in a lone
  backslash (`DsnRedact.OverrunExactly`).
- An expiry of more than 9223372036 seconds wraps around; the next one is already in the past
  (`SecretStore.LifetimeExact`).
- The body limit is right only while four times the configured maximum fits in 64 bits
  (`Limits.BodyLimitSufficesExactly`), and the browser's own size check is slightly too generous
  (`Limits.FilePassesExactly`).
- The top-level README of the repository says that the record is deleted after the browser has decrypted it. The code
  deletes it when it is fetched, and takes the key out of the address bar before that. `EndToEnd.LostExactly` says
  exactly when a fetched secret is lost; a page could know before it fetches that a key text gives no key
  (`EndToEnd.BadKeyLoses`), and does not look (`EndToEnd.Lose`, and for one `EndToEnd.CutLink`).
- After a fetch that fails the page says to try again (`web/static/js/crypto.js:452`), which can only fail: the key has
  left the page (`EndToEnd.TryAgain`).
- A typed secret with a lone surrogate does not come back as typed (`EndToEnd.TypedTextShownExactly`).
- A header of 2^32 bytes or more makes a packed secret unreadable (`Envelope.RoundTripExactly`). There are such names
  (`EndToEnd.LongNameUnreadable`), but no secret that a service with a limit up to 2^32 bytes accepts has one
  (`EndToEnd.AcceptedHeaderShort`).

## Model

| member | source | states |
|---|---|---|
| TokenBucket.LevelLater | internal/handler/ratelimit.go:40-41 | what a bucket will hold depends on its present level alone |
| TokenBucket.TakeLevel | internal/handler/ratelimit.go:59 | a request is admitted exactly when a token is there; it costs one, a refusal nothing |
| TokenBucket.SoloBound | internal/handler/ratelimit.go:40-41 | over any request times a bucket admits at most its level plus what accrues |
| TokenBucket.AdmittedCounts | internal/handler/ratelimit.go:59 | the count in the bounds is the number of admissions |
| LimiterRuns.ServeLevels | internal/handler/ratelimit.go:56-70 | a request is decided by its own address's level and changes no other |
| LimiterRuns.EvictLevels | internal/handler/ratelimit.go:93-97 | a sweep changes no address's level when idle buckets have filled |
| LimiterRuns.AgreeingTablesRunAlike | internal/handler/ratelimit.go:52-100 | tables with equal levels decide every later run alike, one with eviction and one without |
| LimiterRuns.EvictionInvisibleExactly | internal/handler/ratelimit.go:52-100 | for every tier: the evicting limiter decides every run as one that never forgets, if and only if a bucket fills within the idle cutoff |
| LimiterRuns.BurstCondition | cmd/server/main.go:98-100 | burst up to ten times the rate suffices, the wired bursts at every rate from 1 on; one more is too many |
| LimiterRuns.VolleyAdmitted | internal/handler/ratelimit.go:59 | n requests at one moment are all admitted exactly when n tokens are there |
| LimiterRuns.DrainTwiceDecides | internal/handler/ratelimit.go:86-99 | drain, sweep just past the cutoff, drain again: the second volley passes exactly when the limiter forgets or the bucket has filled |
| LimiterRuns.EvictionShows | internal/handler/ratelimit.go:86-99 | where the condition fails that run tells the two limiters apart |
| LimiterRuns.Isolated | internal/handler/ratelimit.go:56-84 | whatever others do and whenever sweeps come, an address is decided as if it had a bucket of its own |
| LimiterRuns.AdmissionBound | internal/handler/ratelimit.go:34-37 | in every window of every run one address is admitted at most its burst plus its rate times the window |
| LimiterRuns.OthersTakeNothing | internal/handler/ratelimit.go:73-97 | other addresses and sweeps never lower a level, with no condition on the tier |
| LimiterRuns.SilenceFills | internal/handler/ratelimit.go:73-97 | while an address is silent its level grows with time, whatever else happens |
| LimiterRuns.RetryAdmits | internal/handler/ratelimit.go:59-67 | when the advertised wait accrues a token, a retry at its end or at any later time is admitted in every run |
| LimiterRuns.RetryRefused | internal/handler/ratelimit.go:59-67 | when it accrues less, a drained bucket refuses the retry |
| LimiterRuns.RetryAfterSufficesExactly | internal/handler/ratelimit.go:129-132 | in every run a retry after Retry-After seconds or more is admitted, if and only if the rate divides sixty |
| LimiterRuns.WaitRoundsDown | internal/handler/ratelimit.go:130-132 | the header is a minute divided by the rate, rounded down; a rate below one counts as one |
| LimiterDelay.FindKeeps | internal/handler/ratelimit.go:74-84 | a lookup keeps the invariant (no request waits on a dropped bucket, no bucket serves two addresses) and every level |
| LimiterDelay.AskKeeps | internal/handler/ratelimit.go:58-59 | an Allow within the delay bound asks the bucket its address has in the map |
| LimiterDelay.SweepKeeps | internal/handler/ratelimit.go:92-97 | a sweep drops no bucket a waiting request holds, and only full ones |
| LimiterDelay.AgreeingStatesRunAlike | internal/handler/ratelimit.go:52-100 | the same, over whole runs of separate lookups, asks and sweeps |
| LimiterDelay.EvictionInvisibleExactly | internal/handler/ratelimit.go:52-100 | for every tier and every delay bound: forgetting is invisible if and only if a bucket fills in what the delay leaves of the cutoff |
| LimiterDelay.DelayCondition | internal/handler/ratelimit.go:88-94 | in seconds: 60 * burst <= perMinute * (600 - delay) with delay below 600 suffices |
| LimiterDelay.NothingAdmitted | internal/handler/ratelimit.go:41 | a tier without burst refuses everything in both limiters, for every delay |
| LimiterDelay.AsksDrain | internal/handler/ratelimit.go:58-59 | n requests holding one bucket are all admitted exactly when it has n tokens |
| LimiterIsolation.StepServes | internal/handler/ratelimit.go:56-98 | one lookup, ask or sweep, of anyone, keeps an address's level equal to that of a bucket of its own |
| LimiterIsolation.Isolated | internal/handler/ratelimit.go:56-98 | with lookups and asks apart, in every punctual run an address is decided as if it had a bucket of its own |
| LimiterIsolation.IsolatedFromStart | internal/handler/ratelimit.go:37-49 | from the start: a bucket of its own that begins full |
| LimiterIsolation.AdmissionBound | internal/handler/ratelimit.go:34-37 | with lookups and asks apart, in every window of every punctual run one address is admitted at most its burst plus its rate times the window |
| LimiterDelay.EvictionShows | internal/handler/ratelimit.go:58-59 | where the condition fails a punctual run tells the two limiters apart |
| LimiterRefines.SplitRunsAlike | internal/handler/ratelimit.go:56-99 | when every request asks directly after its lookup, the limiter of separate steps decides every run as the limiter of whole requests, and leaves the same table |
| LimiterRefines.SweepExactly | internal/handler/ratelimit.go:92-97 | a sweep, with any requests waiting, leaves exactly the entries looked up within ten minutes |
| RateLimiter.Limiter.Allow | internal/handler/ratelimit.go:59 | the bucket object steps as the bucket value does |
| RateLimiter.RateLimiter.Create | internal/handler/ratelimit.go:78-81 | a new address gets a full bucket shared with nobody, and other entries stay |
| RateLimiter.RateLimiter.GetLimiter | internal/handler/ratelimit.go:74-84 | lookup creates or finds the entry and stamps it; the whole map is the specified one |
| RateLimiter.RateLimiter.Ask | internal/handler/ratelimit.go:59 | asking a limiter that was handed out changes its own entry alone, and no entry if a sweep has dropped it since |
| RateLimiter.RateLimiter.Limit | internal/handler/ratelimit.go:52-71 | rate 0 lets everything through; otherwise response and map are those of the specified step, with the Retry-After of a refusal |
| RateLimiter.RateLimiter.DeleteIdle | internal/handler/ratelimit.go:92-97 | the deleting loop removes the entries idle past the cutoff, and nothing else |
| RateLimiter.RateLimiter.Cleanup | internal/handler/ratelimit.go:91-98 | one tick leaves exactly the contents the sweep keeps |
| RateLimiter.SplitJoin | internal/handler/ratelimit.go:108 | splitting undoes joining entries without commas |
| RateLimiter.UntrustedIgnoresHeader | internal/handler/ratelimit.go:105-126 | without trust in a proxy, or without a header, the answer is the host of the remote address, whatever the header says |
| RateLimiter.TrimSpaceIs | internal/handler/ratelimit.go:115 | trimming leaves the text between the white space |
| RateLimiter.TrustedTailDecides | internal/handler/ratelimit.go:105-121 | behind k proxies the client is the address in the first of their k entries, spaces around it left out, for any header the client sent, commas included; the remote address if that is no address |
| RateLimiter.ShortHeaderIgnored | internal/handler/ratelimit.go:113-126 | a header with fewer entries than proxies is not believed |
| DsnTokens.RenderTokenize | internal/config/config.go:138-188 | tokenizing loses nothing: the tokens render to the text |
| DsnTokens.TokenizeWellFormed | internal/config/config.go:138-188 | every text has well-formed tokens, each stopping where the next starts |
| DsnTokens.TokenizeRender | internal/config/config.go:138-188 | rendering well-formed tokens and reading them back gives the same tokens |
| DsnTokens.QuoteEndLocal | internal/config/config.go:160-168 | the end of a quoted value depends only on the text up to it |
| DsnRedact.CopyGap | internal/config/config.go:140-143 | the loop over spaces stops at, and copies up to, the end of the gap |
| DsnRedact.ScanKey | internal/config/config.go:145-148 | the key ends at the first equals sign or space |
| DsnRedact.ScanQuoted | internal/config/config.go:160-168 | the scan of a quoted value ends where its token ends, or one past the text on a lone backslash |
| DsnRedact.RedactValue | internal/config/config.go:159-186 | a secret value is masked in its quoting kind, any other copied, the slice in range exactly when no lone backslash ends it |
| DsnRedact.RedactPair | internal/config/config.go:154-186 | a key, its equals sign and its value come out as the redacted pair token |
| DsnRedact.KvDSNRedact | internal/config/config.go:133-190 | the nested loops terminate; of the tokens of the output, those of password and passfile are masked in their quoting kind and all others as they were; a slice is out of range exactly for a last copied value that a lone backslash ends |
| DsnRedact.RedactedWellFormed | internal/config/config.go:170-182 | masking keeps a token list well-formed, so that it reads back token for token |
| DsnRedact.RedactionKeepsStructure | internal/config/config.go:133-190 | the output tokenizes to the same keys, gaps and values in order, with every password and passfile masked and nothing else touched |
| DsnRedact.SecretsIndistinguishable | internal/config/config.go:154-182 | two inputs redact alike exactly when they differ in nothing but secrets of the same quoting kind |
| DsnRedact.RedactionIdempotent | internal/config/config.go:133-190 | redacting twice is redacting once |
| DsnRedact.OverrunExactly | internal/config/config.go:160-174 | a slice is out of range exactly when the last token is a copied quoted value that a lone backslash ends, with a witness |
| SecretStore.LifetimeExact | internal/repository/secret_repo.go:31 | an expiry is after its creation up to 9223372036 seconds, and wraps just beyond |
| SecretStore.SecretRepository.Store | internal/repository/secret_repo.go:28-46 | inserts the row, its expiry so many seconds from now, unless the token is taken or the statement fails, and then one event row at most |
| SecretStore.SecretRepository.FetchAndDelete | internal/repository/secret_repo.go:50-71 | returns and deletes the row of the token exactly when there is one without expiry or before it, or changes nothing |
| SecretStore.SecretRepository.CleanupExpired | internal/repository/secret_repo.go:77-87 | keeps exactly the rows without expiry or not past it, and counts the others |
| SecretStore.SecretRepository.RecordEvent | internal/repository/secret_repo.go:92-97 | adds one event row, or nothing if the write fails |
| SecretStore.RetrievableExactly | internal/repository/secret_repo.go:30-57 | in seconds: a stored secret can be fetched exactly when no expiry was asked for or not so many seconds have passed |
| SecretStore.StoreThenFetch | internal/repository/secret_repo.go:28-71 | a secret stored and then fetched comes back with its bytes exactly before it expires, and leaves the table as it was |
| SecretLifecycle.RunKeeps | internal/repository/secret_repo.go:28-97 | every interleaving keeps table, history and event books in agreement |
| SecretLifecycle.EveryDeliveryIsDue | internal/repository/secret_repo.go:48-71 | every retrieval hands out the bytes of a store before it that nothing touched since, before they expire |
| SecretLifecycle.EveryDeliveryIsInTime | internal/repository/secret_repo.go:28-71 | in every interleaving a retrieval hands out the bytes of some request under its token, before the seconds that request asked for have passed |
| SecretLifecycle.DeliveredOnce | internal/repository/secret_repo.go:53-59 | no store is delivered twice |
| SecretLifecycle.TokenBalance | internal/db/migrations/001_init.sql:7 | each token is stored as often as it is retrieved or purged, and once more while it is live |
| SecretLifecycle.CleanupTakesOnlyExpired | internal/repository/secret_repo.go:78 | cleanup removes no row that is retrievable, now or later, and none without expiry |
| SecretLifecycle.StaysUntilTaken | internal/repository/secret_repo.go:50-87 | a secret nobody retrieves stays untouched until it expires, whatever else runs |
| SecretLifecycle.LedgerConserved | internal/handler/admin.go:342-372 | at every reachable state stored = live + retrieved + expired, and each shown total is the true one less rows lost or pending |
| SecretSteps.StoreIsSteps | internal/repository/secret_repo.go:28-46 | storing is three steps of the lifecycle: compute the row, insert it, write the event |
| SecretSteps.FetchIsSteps | internal/repository/secret_repo.go:50-71 | fetching is two: take the row, write the event |
| SecretSteps.CleanupIsSteps | internal/repository/secret_repo.go:77-87 | cleanup is two: purge, write the event if any row went |
| SecretService.GenerateToken | internal/service/secret_service.go:56-62 | a token is the hexadecimal text of 16 random bytes, nothing if the source fails |
| SecretService.HexShape | internal/service/secret_service.go:55-61 | two lower-case hexadecimal digits for each byte |
| SecretService.HexInjective | internal/service/secret_service.go:55-61 | different bytes make different tokens |
| SecretService.SecretService.Create | internal/service/secret_service.go:33-48 | the size gate comes before everything; then the row is stored under the new token or nothing changes |
| SecretService.SecretService.Retrieve | internal/service/secret_service.go:51-53 | retrieval is the one atomic fetch-and-delete |
| SecretHandler.QuotientTruncates | internal/handler/handler.go:86 | the division truncates toward zero |
| SecretHandler.ReadableExactly | internal/handler/handler.go:86-88 | how much body may be read, and that nothing may be when the limit wraps to a negative number |
| SecretHandler.Handler.CreateSecret | internal/handler/handler.go:78-124 | when each status is answered, and that only an issued token changes the table, by the decoded bytes |
| SecretHandler.Handler.RevealSecret | internal/handler/handler.go:134-155 | the payload is the taken row in base64; not found and failure change nothing |
| LogAttrs.FlattenAllWrites | internal/logger/db_handler.go:198-218 | flattening under a dotted prefix writes the leaves of the tree in order |
| LogAttrs.ChainIndependent | internal/logger/db_handler.go:88-150 | whatever chain of derivations led there, a handler records the one-pass, last-write-wins flattening of the whole tree |
| LogAttrs.GroupWraps | internal/logger/db_handler.go:137-150 | WithGroup(g) anywhere in a chain is as good as wrapping all that follows in a group g |
| LogAttrs.JoinInjective | internal/logger/db_handler.go:203-216 | dot-free, non-empty names give different keys to different paths |
| LogAttrs.WriteKeys | internal/logger/db_handler.go:213-217 | writing adds the keys of the written paths, all of them and no others |
| LogAttrs.PathsKeepApart | internal/logger/db_handler.go:198-218 | the keys of a record are exactly those of the tree's paths; with such names it holds under each path's key the last value the tree has there |
| LogQueue.QueueProtocol | internal/logger/db_handler.go:35-40 | in every interleaving inserted, in hand and queued records are the accepted ones in order, the queue holds 512 at most, the channel closes once, and done means all inserted |
| LogQueue.PanicExactly | internal/logger/db_handler.go:104-112 | a call panics if and only if check, flag, close and send come in this order |
| LogQueue.PanicHappens | internal/logger/db_handler.go:83-86 | such a run exists |
| LogQueue.DroppedOnlyWhenFull | internal/logger/db_handler.go:108-112 | a send on the open channel is dropped exactly when the queue is full |
| LogQueue.LateCallsAreIgnored | internal/logger/db_handler.go:84-86 | a call that begins after the flag is stored never sends |
| LogQueue.WriterMovesExactly | internal/logger/db_handler.go:168-173 | the writer can move exactly when its step changes something; it waits only on an open and empty channel |
| LogQueue.DrainTerminates | internal/logger/db_handler.go:168-173 | after the close every writer step does one piece of the work left, nothing adds to it, and the writer can move until it is done |
| LogHandler.SharedStop.Offer | internal/logger/db_handler.go:108-112 | the non-blocking send on the shared queue |
| LogHandler.SharedStop.Stop | internal/logger/db_handler.go:154-158 | the first call stops and closes; any other, during it or after, changes nothing |
| LogHandler.SharedStop.Run | internal/logger/db_handler.go:168-173 | the loop inserts what is queued, in order, and is then done with a closed channel or waits on an open one |
| LogHandler.AttrMap.CopyFrom | internal/logger/db_handler.go:120-123 | copying a map entry by entry |
| LogHandler.AttrMap.Resolve | internal/logger/db_handler.go:198-218 | the recursive writer computes the flattening of one attribute |
| LogHandler.AttrMap.ResolveAll | internal/logger/db_handler.go:124-126 | and of a list of them |
| LogHandler.DBHandler.Begin | internal/logger/db_handler.go:82-102 | the first look at the flag, and the flattened record |
| LogHandler.DBHandler.Finish | internal/logger/db_handler.go:104-114 | the second look, whatever happened since the first, and the send |
| LogHandler.DBHandler.Handle | internal/logger/db_handler.go:82-114 | a stopped family ignores the call; otherwise the flattened record is offered, and no map changes |
| LogHandler.DBHandler.WithAttrs | internal/logger/db_handler.go:119-134 | a new handler with its own map holding what the derivation says |
| LogHandler.DBHandler.WithGroup | internal/logger/db_handler.go:137-150 | a new handler on the same map with the longer prefix |
| LogHandler.UseFamily | internal/logger/db_handler.go:88-150 | over any tree of derivations and any logging no handler's content is ever changed by another's use |
| LogHandler.FamilyFollowsChains | internal/logger/db_handler.go:119-150 | each handler of a family holds what its own chain of derivations gives |
| LogHandler.FamilyRecords | internal/logger/db_handler.go:88-150 | so each records the one-pass flattening of its own chain's tree |
| LogHandler.MultiHandler.Enabled | internal/logger/multi_handler.go:21-28 | enabled if and only if some handler's minimum is not above the level |
| LogHandler.MultiHandler.Handle | internal/logger/multi_handler.go:31-38 | every queue ends as if the handlers whose minimum is not above the level had offered in turn |
| LogHandler.MultiHandler.WithAttrs | internal/logger/multi_handler.go:41-47 | fan-out commutes with WithAttrs |
| LogHandler.MultiHandler.WithGroup | internal/logger/multi_handler.go:50-56 | fan-out commutes with WithGroup |
| LogHandler.DeriveFanOut | internal/logger/multi_handler.go:40-56 | deriving a fan-out along any chain derives each handler along that chain |
| LogHandler.LogThrough | internal/logger/multi_handler.go:30-56 | logging through any chain of a fan-out, every enabled handler offers its queue the one-pass flattening of the whole attribute tree |
| LogHandler.LogToOwnQueue | internal/logger/multi_handler.go:31-38 | a handler with a queue of its own queues the record exactly when the level is not below its minimum, its family is not stopped and there is room |
| Base64.OctetsSextets | internal/handler/handler.go:150-151 | joining six-bit groups undoes cutting bytes into them |
| Base64.ValueExactly | internal/handler/handler.go:93 | a character has a value exactly when it is a digit of the alphabet |
| Base64.FilledWithZeros | web/static/js/crypto.js:12-18 | the bits that fill the last group are zeros (section 3.5 of RFC 4648) |
| Base64.EncodeRoundTrip | internal/handler/handler.go:93-99 | what the browser encodes both browser and server decode to the same bytes, padding included |
| Base64.ServerImpliesBrowser | web/static/js/crypto.js:29-36 | whatever the server accepts the browser accepts too, and reads the same bytes |
| Base64.GoDecodeExactly | internal/handler/handler.go:93-99 | the server takes exactly digits and padding to a multiple of four, line breaks aside, and reads the digits |
| Base64.AtobExactly | web/static/js/crypto.js:29-30 | the browser takes, white space aside, the same, and digits without their padding |
| ClientCodec.ArrayToBase64 | web/static/js/crypto.js:12-18 | the loop and btoa give the base64 of the bytes |
| ClientCodec.ArrayToBase64Url | web/static/js/crypto.js:21-26 | the three replacements give the unpadded URL-safe encoding of section 5 of RFC 4648 |
| ClientCodec.UrlEncodeIs | web/static/js/crypto.js:21-26 | the chain of replacements equals the digit-by-digit definition |
| ClientCodec.Base64ToArray | web/static/js/crypto.js:29-36 | fails when atob does, otherwise fills the array with the decoded bytes |
| ClientCodec.Base64UrlToArray | web/static/js/crypto.js:39-44 | the padding loop terminates and the result is that of atob on the padded text |
| ClientCodec.PaddingRestored | web/static/js/crypto.js:41-42 | the loop restores exactly the padding that encoding removed |
| ClientCodec.UrlRoundTrip | web/static/js/crypto.js:20-44 | round trip for all bytes, URL-safe alphabet, 43 characters for a 32-byte key |
| ClientCodec.UrlDecodeExactly | web/static/js/crypto.js:39-44 | URL-safe text decodes exactly when its length is not one above a multiple of four |
| Utf8.DecodeEncode | web/static/js/crypto.js:117 | UTF-8 decoding undoes encoding, for all scalar values |
| Utf8.UnitsScalars | web/static/js/crypto.js:353 | the conversion to scalar values changes nothing exactly when the string is well-formed |
| Utf8.TextRoundTripExactly | web/static/js/crypto.js:475 | TextDecoder undoes TextEncoder exactly for well-formed strings that do not start with U+FEFF |
| Utf8Exact.WellFormedExactly | web/static/js/crypto.js:353 | well-formed means that every high surrogate has a low one behind it and every low one a high one before it |
| Utf8Exact.ScalarsExactly | web/static/js/crypto.js:353 | the conversion to scalar values puts U+FFFD in the place of each lone surrogate and leaves the rest |
| Utf8Exact.DecodeFirstExactly | web/static/js/crypto.js:475 | for any bytes: a whole encoding at the beginning is read, and otherwise one U+FFFD stands for as many bytes as begin an encoding, and no more |
| Utf8.DecodeCut | web/static/js/crypto.js:134-135 | encoded text cut anywhere decodes to a proper prefix, with one U+FFFD if the cut falls inside a character |
| Json.DigitsRead | web/static/js/crypto.js:372 | reading the digits of a number gives the number |
| Json.ParseRoundTrip | web/static/js/crypto.js:116 | parsing undoes stringifying for all strings, lone surrogates and control characters included, and all integers |
| Json.ParseStringified | web/static/js/crypto.js:135 | the parser finds a stringified object and its end in any surrounding text |
| JsonGrammar.ParseExactly | web/static/js/crypto.js:135 | JSON.parse gives these members exactly when the grammar of RFC 8259 derives the text from them |
| JsonGrammar.EscapeExactly | web/static/js/crypto.js:116 | how JSON.stringify writes each character |
| Json.StringifiedSurvivesUtf8 | web/static/js/crypto.js:116-117 | stringified JSON is well-formed, so UTF-8 carries it unchanged |
| Json.TruncatedFails | web/static/js/crypto.js:135 | no proper beginning of a stringified object parses |
| Envelope.SetBytes | web/static/js/crypto.js:121-123 | copies into place and leaves the rest |
| Envelope.PackSecret | web/static/js/crypto.js:115-125 | the three writes fill the buffer: length, header, data |
| Envelope.Uint32RoundTrip | web/static/js/crypto.js:119 | the length field keeps the length modulo 2^32 |
| Envelope.TruncatedHeaderFails | web/static/js/crypto.js:134-135 | a header cut at any byte does not read |
| Envelope.RoundTripExactly | web/static/js/crypto.js:115-141 | unpacking gives back type (or text/plain), name and data for all inputs exactly when the header is shorter than 2^32 bytes |
| Envelope.NumberedHeader | web/static/js/crypto.js:136-138 | a missing type or name, or a 0 in its place, is defaulted; another number is no text |
| Envelope.PackInjective | web/static/js/crypto.js:115-125 | different defaulted contents give different buffers, with no bound on their size |
| Client.Encrypt | web/static/js/crypto.js:80-91 | the base64 of ciphertext and nonce |
| Client.Decrypt | web/static/js/crypto.js:97-105 | opens the decoded ciphertext, or nothing if either text is not base64 |
| Client.BlockedExactly | web/static/js/crypto.js:151-178 | a name is refused exactly when after some dot it spells a listed extension to its end, each letter in either case or, for a k, the Kelvin sign |
| Client.FileRefusedExactly | web/static/js/crypto.js:168-188 | a file is refused exactly for such a name or for its size |
| Client.TrimExactly | web/static/js/crypto.js:348 | trimming takes the white space, listed, off both ends, all of it and nothing else |
| Client.TypedExactly | web/static/js/crypto.js:348-355 | typed text is refused exactly when there is nothing but white space; otherwise the trimmed text is shared as text/plain |
| Client.ExpiryExactly | internal/handler/handler.go:79-88 | an expiry outside 64 bits is refused |
| Client.MissingExpiry | internal/handler/handler.go:79-88 | a missing expiry is 0 |
| Client.WrongTypesRefused | internal/handler/handler.go:79-91 | a number for ciphertext or nonce, and a text for the expiry, are refused |
| Client.ImportKey | web/static/js/crypto.js:64-72 | the decoded key, if it has a size that importKey takes |
| Client.Decode | web/static/js/crypto.js:457-461 | key, decryption and unpacking, failing where any of them fails |
| Client.CreatePage.Submit | web/static/js/crypto.js:325-391 | each outcome of the form: complaints, refusals by each gate, and the link together with the row stored |
| Client.RevealPage.TakeKey | web/static/js/crypto.js:421-431 | a key leaves the address bar with the server untouched; without one the page complains |
| Client.RevealPage.Fetch | web/static/js/crypto.js:443-480 | made only with the key gone from the address bar; it deletes the secret whether or not the reply opens |
| Client.RevealPage.Reveal | web/static/js/crypto.js:420-487 | what is shown and what is left in each case; a hash that does not start with "#key=" and go on leaves the repository alone |
| Client.RequestReads | web/static/js/crypto.js:369-373 | the server reads in the request's bytes exactly the ciphertext, nonce and expiry the browser wrote |
| Client.ReplyReads | internal/handler/handler.go:148-152 | the browser reads in the reply's bytes exactly the ciphertext and nonce the server wrote, newline included |
| Client.ShowReply | web/static/js/crypto.js:456-478 | what a reply leads to: a text, a file, or failure at whichever step fails |
| EndToEnd.LinkReads | web/static/js/crypto.js:382 | from the link the browser reads the key and the server the token |
| EndToEnd.HashExactly | web/static/js/crypto.js:421 | the fragment is what follows the first '#', and nothing if nothing follows it |
| EndToEnd.PathTokenExactly | internal/handler/handler.go:128-135 | the token is the one segment behind /s/, and there is none on any other path |
| EndToEnd.OpenedSealed | web/static/js/crypto.js:361-367 | with the key in the link the receiver opens exactly what the sender sealed |
| EndToEnd.TypedTextShownExactly | web/static/js/crypto.js:348-355 | a typed secret is shown as its trimmed text exactly when it has no lone surrogate |
| EndToEnd.FileShown | web/static/js/crypto.js:465-480 | a file comes back with bytes, name and type, or as text when its type is a text type |
| EndToEnd.HeaderBound | web/static/js/crypto.js:116-117 | the header takes at most 24 bytes for each code unit of type and name and of five more |
| EndToEnd.TypedHeaderShort | web/static/js/crypto.js:354-355 | so a typed secret's header is always short enough |
| EndToEnd.HeaderAtLeast | web/static/js/crypto.js:116-117 | the header takes at least a byte for each code unit of the name |
| EndToEnd.LongNameUnreadable | web/static/js/crypto.js:115-141 | a name of 2^32 characters makes an envelope that cannot be unpacked |
| EndToEnd.AcceptedHeaderShort | internal/service/secret_service.go:34-36 | no secret accepted under a limit up to 2^32 bytes has so long a header |
| EndToEnd.AcceptedIsShown | internal/service/secret_service.go:34-36 | so what is expected of an accepted secret is the secret itself |
| EndToEnd.ServerReads | internal/handler/handler.go:88-109 | from the posted bytes the server gets exactly the sealed ciphertext, the nonce and the expiry |
| EndToEnd.RowShows | web/static/js/crypto.js:456-480 | the reply that carries the stored row shows what was entered |
| EndToEnd.SecretArrives | internal/handler/handler.go:88-152 | through encryption, the server's decoding, the store and every interleaving in which nobody fetches it first, the receiver sees what was entered before it expires, and then it is gone |
| EndToEnd.FillForm | web/static/js/crypto.js:325-391 | a submitted form changes the table only by the row of the sealed secret, under the token in the link |
| EndToEnd.OpenLink | web/static/js/crypto.js:420-480 | opening a link and revealing takes the row of the token in it and shows the reply |
| EndToEnd.Share | web/static/js/crypto.js:325-487 | the pages and handlers together: submitted and revealed before it expires, the view is what was entered and the table what it was |
| EndToEnd.LostExactly | web/static/js/crypto.js:456-483 | a fetched secret is lost exactly when the key text gives no key, the key does not open the row, or what it opens does not unpack |
| EndToEnd.BadKeyLoses | web/static/js/crypto.js:457 | a key text that decodes to no key size loses every secret |
| EndToEnd.Lose | web/static/js/crypto.js:420-487 | a page with such a key text fetches all the same, and the secret is gone and unreadable |
| EndToEnd.CutLink | web/static/js/crypto.js:420-487 | for one, a link cut off after the first character of its key |
| EndToEnd.TryAgain | web/static/js/crypto.js:451-454 | after a failed fetch the next attempt on the page answers that there is no key, which leaves it as it is, and the secret is still there |
| Limits.RequestSize | web/static/js/crypto.js:369-373 | the exact size of the request body in bytes |
| Limits.BodyLimitSufficesExactly | internal/handler/handler.go:85-87 | the body limit admits every ciphertext the service would take exactly when four times the maximum fits in 64 bits |
| Limits.FilePassesExactly | web/static/js/crypto.js:180-185 | a file passes every gate exactly when its extension is not blocked and its size, its header and 20 bytes fit the maximum |

## Left out

- RateLimiter.Limiter.Allow: golang.org/x/time/rate is taken to be an exact bucket that starts full and is not charged
  for a refusal; its floating-point rounding is not modelled, and neither are negative rates.
- RateLimiter.TrustedTailDecides: net.ParseIP and net.SplitHostPort are function parameters.
- LogHandler.SharedStop.Stop: the wait for `done` and its ten-second limit are not modelled, and neither is the wait of
  a second call for the first; calls that overlap are steps in `LogQueue`.
- LogHandler.DBHandler.Handle: with nothing else running between its looks at the flag; `Begin` and `Finish` are the
  halves, and `LogQueue` interleaves the calls of many.
- LogHandler.MultiHandler.Handle: over database handlers; the handler that writes to standard output and the errors
  the fan-out ignores are not part of this model.
- LogAttrs.ChainIndependent: attribute values are resolved leaves or groups; resolving LogValuers is not modelled. An
  empty group name is treated as the code treats it.
- Json.ParseRoundTrip: JSON.parse is modelled for objects whose members are strings and integers, without white space
  inside; every other text counts as a syntax error, and a header whose type or name is a number other than 0 as a
  failure. Only objects of strings are ever sealed by the client.
- SecretHandler.Handler.CreateSecret: what the JSON of an arbitrary request says is a parameter, with the bytes read
  when its value ends; for the requests the client sends it is computed from their bytes.
- EndToEnd.OpenedSealed: AES-GCM is any cipher whose decryption inverts encryption and whose tag takes 16 bytes
  (section 7 of NIST SP 800-38D); secrecy, key generation and random numbers are not modelled.
- EndToEnd.SecretArrives: each SQL statement is one atomic step, application and database share one clock, and time
  stamps are not rounded to microseconds.
- Client.CreatePage.Submit: reading the file, the drop target and the rest of the page are not modelled.
- SecretLifecycle.LedgerConserved: a statement that fails has changed nothing; one that succeeds while its reply is
  lost is not modelled.
- Probe patterns, path masking, security headers, Basic Auth, templates, log pages, migrations, configuration defaults
  and shutdown timeouts are not modelled: they are constants, plumbing, or short single-call code.
