# Supply-Link: protocol proofs

Supply-Link's web front end protects its API and its users' data with a handful of small stateful
protocols: rate limits, a circuit breaker around retries, secret redaction, signed ratings with
one-time nonces, idempotent mutations, API keys with usage windows, a custody hash chain, an
attestation index, an offline queue, request metrics, and a webhook sink for its end-to-end tests.
This project models them in Dafny and proves what they are for.

Most of these modules forget on purpose: they prune lists, expire records, keep the last thousand
samples. The recurring result is therefore a refinement. Each service is a class that does what the
code does on the store it has; beside it stands a reference that looks at a history from which
nothing is ever dropped; every method is proved to answer as the reference does, in every run. What
clients rely on is then proved of the reference, for all histories.

| file | models |
|---|---|
| `SlidingWindow.dfy`, `SlidingWindowBounds.dfy`, `Quotas.dfy` | the per-key sliding window with burst cap, and its guarantees |
| `CircuitBreaking.dfy`, `Retry.dfy`, `ResilientCalls.dfy` | circuit breaker with overlapping calls, retries with backoff, their composition |
| `Redaction.dfy` | removing secrets from log text |
| `RatingMessage.dfy`, `RatingsRoute.dfy` | the signed message, nonces, one rating per wallet and product |
| `Idempotency.dfy` | the idempotency store |
| `UsageWindows.dfy`, `ApiKeyRegistry.dfy`, `Tallies.dfy` | API keys and their fixed usage windows |
| `CustodyChain.dfy` | the exported ledger pages and the client's check of them |
| `WebhookSink.dfy`, `OfflineQueue.dfy`, `Metrics.dfy`, `Attestations.dfy` | the four smaller services |
| `KeyValue.dfy`, `Options.dfy` | the key-value store and optional values |

Conventions shared by all files:

- Time is an integer number of milliseconds that never goes backwards; methods take it as `now`.
- The key-value store is a map from key to value and expiry (`frontend/lib/kv.ts`,
  `frontend/lib/store/memoryStore.ts`). The in-memory backend still serves an entry at the very
  millisecond it expires; another backend may not. Every result holds for both.
- A function that uses the store is one atomic step, and requests to the idempotency store are
  sequential. The breaker and the sink are not atomic: their steps interleave freely.
- SHA-256 (section 6.2 of FIPS 180-4) is an arbitrary function `hash`. Nothing is assumed of it
  except, where stated, that its hexadecimal results have 64 characters; results read "these agree,
  or here is a collision".
- Random ids, keys and jitter are parameters; an id said to be random is one not used before.

Where the code and its documentation differ, the model follows the code:

- `ratingsProtocol.ts` says messages must match the canonical format exactly. The parser also accepts
  its numbers with space, a sign or zeros before them and any text after their digits
  (`NonCanonicalAccepted`). `AcceptedIffSpelled` says exactly what it accepts, `CanonicalIff` when
  that is canonical. Replay is impossible all the same.
- The same file promises one rating per wallet and product; the code remembers a rating for a year,
  and stores another one at exactly the distances at which it is forgotten
  (`RatedAgainIffForgotten`, `SecondRatingStored`).
- `validateAttestation` is documented to check that an attestation exists, and `revokeApiKey` to revoke
  a key. Both put the caller's id behind a prefix that other entries share. With `list:` or `issuer:`
  before it, a stored list is reported as a valid attestation (`ListValidates`); `list`, or `usage:`
  before a key's id, is reported as a revoked key and prolongs that entry (`ListAndUsageRevoked`).
  `HoldsOnlyGenuineIff` and `RevokesKeysOnlyIff` say exactly which arguments are sound.
- The signature ledger is said to break at any tampering. The client's check alone accepts every
  recomputed chain (`RechainAccepted`); what is detected is a ledger from the genesis value that must
  end in a known anchor (`TamperedLedgerDetected`).
- The comment that nonces must be kept at least as long as messages can live is made exact: no
  message can be replayed if and only if a nonce is still remembered at the last moment its message
  can pass (`NoReplayIffRemembered`).
- Redaction is documented as removing known secret values. It leaves some that can overlap the tag it
  puts in their place. `ReappearsIff` says exactly which secrets can survive their own replacement,
  and `SafeBesideAnyIff` exactly which are removed beside any other secrets; of those without
  brackets only the word REDACTED is not (`CompleteIffNotTagWord`).

## Model

| member | source | states |
|---|---|---|
| KeyValue.PutThenGet | frontend/lib/kv.ts:9-21 | An entry can be read for its whole lifetime and no longer, and writing it touches no other |
| SlidingWindow.RateLimiter.CheckRateLimit | frontend/lib/api/auth.ts:62-123 | Every verdict, with its Retry-After, is that of a limiter that keeps every acceptance for ever: pruning, the record's own expiry and the store's TTL never change an answer, for any sequence of requests by any keys; only an acceptance is logged, and only for its key |
| SlidingWindow.AcceptanceTracked | frontend/lib/api/auth.ts:109-116 | A record written at an acceptance answers, at every later time and on either backend, as the full log does |
| SlidingWindow.RecentOfRecent | frontend/lib/api/auth.ts:88-101 | Pruning now and filtering later keeps exactly what one filter of the whole log would keep |
| SlidingWindowBounds.IntervalBound | frontend/lib/api/auth.ts:88-112 | In every run any half-open interval of length windowMs holds at most limit acceptances of a key, and any of the burst span at most burstLimit |
| SlidingWindowBounds.DecideClosedForm | frontend/lib/api/auth.ts:89-107 | A request is accepted exactly when the limit-th latest and the burstLimit-th latest acceptances have left their windows |
| SlidingWindowBounds.BurstRefusalEnds | frontend/lib/api/auth.ts:98-107 | For any configuration a burst refusal lasts exactly until the oldest burst timestamp leaves the burst span, and a retry after Retry-After seconds is accepted; unless the burst window is the longer one, after fewer whole seconds it is not, above the minimum of one |
| SlidingWindowBounds.LongRefusalEnds | frontend/lib/api/auth.ts:91-96 | After a long-window refusal a retry after Retry-After seconds is accepted if and only if the burst cap is clear then; a second earlier the long window is not clear yet, above the minimum of one |
| SlidingWindowBounds.LongWindowUnreachable | frontend/lib/api/auth.ts:91-107 | If ceil(window / burst span) times burstLimit is below limit, the long-window refusal never happens |
| SlidingWindowBounds.ShippedTiersHonourRetryAfter | frontend/lib/api/auth.ts:26-39 | In both shipped tiers every refusal is a burst refusal and the retry it announces is accepted |
| SlidingWindowBounds.ShippedTiersAllow | frontend/lib/api/auth.ts:26-39 | A partner key is let through at most 50 times in any 10 seconds and 300 times in any minute, an internal one 200 and 1200 times |
| SlidingWindowBounds.BurstSeesEverythingIff | frontend/lib/api/auth.ts:89-101 | Over every run, taking burst timestamps from the pruned list decides as taking them from all acceptances would if and only if there is no burst cap, the burst window is not the longer one, or ceil(burst window / window) times limit is at most burstLimit |
| CircuitBreaking.CircuitBreaker.constructor | frontend/lib/resilience.ts:125-131 | A new breaker is closed and agrees with the empty history |
| CircuitBreaking.CircuitBreaker.Begin | frontend/lib/resilience.ts:137-144 | In every interleaving a call is refused exactly when the failures no success has cleared are at least failureThreshold, there is a latest one less than resetTimeoutMs old and only refusals followed it; the breaker is closed exactly with no such failure or fewer than failureThreshold |
| CircuitBreaking.ShutOutIff | frontend/lib/resilience.ts:137-144 | The same condition, from the configured numbers and the events alone |
| CircuitBreaking.CircuitBreaker.OnSuccess | frontend/lib/resilience.ts:156-159 | A success, however late, closes the breaker; closed still means fewer trailing failures than the threshold |
| CircuitBreaking.CircuitBreaker.OnFailure | frontend/lib/resilience.ts:161-167 | failures stays the number of failed completions since the last success and openedAt the time of the latest while not closed; closed still means none of them or fewer than failureThreshold |
| CircuitBreaking.RefusalsEnd | frontend/lib/resilience.ts:138-144 | Every refusal looks back on one failure less than a reset timeout old with only refusals in between, so the breaker never stays shut out |
| CircuitBreaking.OutageSpacing | frontend/lib/resilience.ts:137-167 | In a sequential outage each failure after the opening is at least a reset timeout after the previous one |
| CircuitBreaking.OutageAdmissions | frontend/lib/resilience.ts:137-167 | In a sequential outage at most threshold + floor(T / reset timeout) calls are admitted up to T after the first opening |
| Retry.WithRetry | frontend/lib/resilience.ts:79-104 | The result is the first success or permanent error among the first maxAttempts, else exhaustion with the last error; fn is called exactly that often, onRetry gets 1 to n-1 with the errors, and all waits together are at most (n-1) rounded 1.1 caps |
| Retry.DelayDoubles | frontend/lib/resilience.ts:31-33 | Without jitter the delay starts at the base, doubles with each attempt and stops at the cap |
| Retry.CappedDelayMonotone | frontend/lib/resilience.ts:31-33 | Without jitter a later attempt never waits less |
| Retry.BackoffWithin | frontend/lib/resilience.ts:31-36 | Jitter moves a delay by at most a tenth and never past 1.1 caps |
| Retry.JitterIsEven | frontend/lib/resilience.ts:31-36 | The delay moves from a tenth less to a tenth more in step with the random number, rounded to the nearest millisecond |
| ResilientCalls.CallWithRetry | frontend/lib/resilience.ts:192-223 | A whole retried call behind the breaker: a refused call makes no attempt, any other outcome but success counts as one failure however many attempts were made, at most maxAttempts; exhaustion carries the last error |
| ResilientCalls.FailedCallsAreOutage | frontend/lib/resilience.ts:192-204 | The breaker history of calls that follow one another and fail or are refused is an outage in the sense of the bound on admissions |
| ResilientCalls.OutageLoad | frontend/lib/resilience.ts:192-204 | In such a run the function is invoked, up to T after the first opening, at most (threshold + floor(T / reset timeout)) times maxAttempts often |
| ResilientCalls.ShippedReadLoad | frontend/lib/resilience.ts:177-204 | With the shared breaker and three attempts: (5 + floor(T / 30 s)) times 3 |
| ResilientCalls.CallThroughOutage | frontend/lib/resilience.ts:192-223 | Retried calls made one after the other from a fresh breaker while everything fails: each is refused or gives up after its first permanent error or its last attempt, the breaker records just these calls, and their attempts keep to that bound for every T |
| Redaction.EscapeIsLiteral | frontend/lib/secrets.ts:157-159 | The escaped secret, read as a pattern, matches the secret's own characters and contains no operator |
| Redaction.EscapeByCharacter | frontend/lib/secrets.ts:158 | Exactly the fourteen characters that mean something in a regular expression get a backslash |
| Redaction.ReplaceAllIsCutAndJoin | frontend/lib/secrets.ts:159 | Replacing is cutting the text at the secret and joining the untouched pieces with the tag; no piece contains the secret |
| Redaction.RedactSecrets | frontend/lib/secrets.ts:149-163 | The loop over the registry, with its escaping and its length test, replaces each configured value of eight or more characters in registry order |
| Redaction.OccurrenceOrigin | frontend/lib/secrets.ts:159 | Replacing any value neither creates an occurrence of a value that cannot overlap the tag nor leaves one of it |
| Redaction.NoSecretSurvives | frontend/lib/secrets.ts:149-163 | After the whole loop a secret that cannot overlap the tag occurs nowhere, whatever the other secrets are |
| Redaction.RedactionComplete | frontend/lib/secrets.ts:145-163 | If no secret can overlap the tag, with brackets or without, the output of the whole loop holds no secret anywhere and redacting again changes nothing |
| Redaction.SecretFreeUnchanged | frontend/lib/secrets.ts:145-163 | Text that holds no secret comes back unchanged |
| Redaction.CompleteIffNotTagWord | frontend/lib/secrets.ts:153-161 | Among secrets without brackets, redaction is complete for all texts if and only if REDACTED is not one; if it is, every text that held a secret still holds one |
| Redaction.ReappearsIff | frontend/lib/secrets.ts:157-160 | Exactly which secrets can be found in a text after being replaced there: those that begin inside the tag, and those that end in its beginning where their own front put before them is not taken for the secret |
| Redaction.SecretStartingInTag | frontend/lib/secrets.ts:159 | Every secret of the first kind reappears, in a text made of it and what it has beyond the tag |
| Redaction.SecretEndingInTag | frontend/lib/secrets.ts:159 | Every secret of the second kind reappears, in a text made of its own front, itself and what it has beyond the tag |
| Redaction.SafeBesideAnyIff | frontend/lib/secrets.ts:153-161 | A secret is removed from every text whatever other secrets are configured, in whatever order, if and only if no end of it and no part of the tag overlap |
| Redaction.BracketFreeMeets | frontend/lib/secrets.ts:153-159 | Of the secrets without brackets only the word REDACTED can overlap the tag |
| Redaction.ConfiguredIsHarmless | frontend/lib/secrets.ts:23-58 | Values that pass the registry's format checks, and are free of brackets unless a Stellar key, meet the condition for complete redaction |
| Redaction.ShippedSecrets | frontend/lib/secrets.ts:37-58 | The secrets of the shipped registry are the values of its four variables that have eight or more characters |
| Redaction.ShippedRegistryComplete | frontend/lib/secrets.ts:31-163 | So redaction is complete for every such configuration of the shipped registry |
| RatingMessage.RoundTrip | frontend/lib/api/ratingsProtocol.ts:39-90 | A built message validates for its own product and stars exactly when both identifiers are free of colons and the expiry lies in the window |
| RatingMessage.BuildInjective | frontend/lib/api/ratingsProtocol.ts:39-41 | On colon-free payloads the message determines the payload |
| RatingMessage.BuildCollides | frontend/lib/api/ratingsProtocol.ts:39-41 | With colons two different payloads share a message |
| RatingMessage.AcceptedIffSpelled | frontend/lib/api/ratingsProtocol.ts:53-90 | Exactly which messages validate: the six colon-free fields with numbers that start like the expected stars and an expiry in the window |
| RatingMessage.FormatRefusedIff | frontend/lib/api/ratingsProtocol.ts:58-62 | A message is refused for its format exactly if it does not have the six colon-free fields |
| RatingMessage.ReasonIff | frontend/lib/api/ratingsProtocol.ts:64-90 | From its six fields, exactly when each other reason is given, and which comes first when several apply |
| RatingMessage.ParseIntIff | frontend/lib/api/ratingsProtocol.ts:70-75 | Exactly which texts begin with a number |
| RatingMessage.CanonicalIff | frontend/lib/api/ratingsProtocol.ts:43-90 | An accepted message is one the client can build, as the format demands, if and only if both its numbers are written as the client prints them |
| RatingMessage.OtherSpellings | frontend/lib/api/ratingsProtocol.ts:70-78 | Numbers in any spelling the parser understands are let through, and the message is canonical only in the printed one |
| RatingMessage.TrailingTextAccepted | frontend/lib/api/ratingsProtocol.ts:70-78 | Text after either number is let through, and if there is any, nobody builds the message |
| RatingMessage.NonCanonicalAccepted | frontend/lib/api/ratingsProtocol.ts:70-78 | A concrete accepted message that nobody builds, with a space, a sign and a leading zero before its stars and text after them |
| RatingMessage.ParsePrinted | frontend/lib/api/ratingsProtocol.ts:70-75 | Parsing a printed integer gives it back, whatever non-digit follows |
| RatingsRoute.KeyInjective | frontend/lib/api/ratingsProtocol.ts:94-114 | Store keys of different wallets, nonces or products never meet, even for wallets that contain colons |
| RatingsRoute.RatingsService.ConsumeNonce | frontend/lib/api/ratingsProtocol.ts:102-108 | For any strings, a nonce is refused exactly when the last use of its store key is still remembered; otherwise it is logged |
| RatingsRoute.RatingsService.HasDuplicateRating | frontend/lib/api/ratingsProtocol.ts:120-126 | For any strings, a duplicate is reported exactly when the last rating stored under the key is still remembered |
| RatingsRoute.RatingsService.RecordRating | frontend/lib/api/ratingsProtocol.ts:132-134 | Recording a rating, for the first time or again, logs it and disturbs no other rating or nonce |
| RatingsRoute.LastWriteIsLastUse | frontend/lib/api/ratingsProtocol.ts:94-114 | For requests that validated, the last write of a key is the last use of that identifier by that wallet |
| RatingsRoute.RatingsService.Submit | frontend/app/api/ratings/route.ts:58-128 | The whole request is decided as a log that forgets nothing would decide it, for every run; a duplicate rating still uses up its nonce |
| RatingsRoute.AnsweredFor | frontend/app/api/ratings/route.ts:58-128 | From the six fields and the logs, exactly when each of the nine other answers is given: product, stars, expiry in three ways, signature, nonce used within ten minutes, product rated within a year, stored |
| RatingsRoute.UnreadableRefused | frontend/app/api/ratings/route.ts:58-70 | A message without the six fields is answered for its format, whatever the signature |
| RatingsRoute.UsesApart | frontend/lib/api/ratingsProtocol.ts:102-108 | Two uses of one nonce, or two ratings of one product, are apart by more than the retention |
| RatingsRoute.LifeOfMessage | frontend/lib/api/ratingsProtocol.ts:80-87 | A message that passed once can pass again only within less than the expiry window |
| RatingsRoute.NoReplayIffRemembered | frontend/lib/api/ratingsProtocol.ts:20-24 | Over all unbounded runs no wallet has one message accepted twice, if and only if a nonce is still remembered at the last moment its message can pass |
| RatingsRoute.ShippedRetention | frontend/lib/api/ratingsProtocol.ts:20-24 | With the shipped constants there is no replay, uses of a nonce are at least 600 s apart, and ratings of a product by a wallet a year |
| RatingsRoute.SecondRatingStored | frontend/lib/api/ratingsProtocol.ts:116-134 | At every distance at which a rating is forgotten, two requests of one wallet for one product that the route both stores |
| RatingsRoute.RatedAgainIffForgotten | frontend/lib/api/ratingsProtocol.ts:116-134 | Over every run, the distances at which a wallet's next rating of a product can come are exactly those at which the previous one is no longer remembered |
| Idempotency.IdempotencyStore.Prune | frontend/lib/api/idempotency.ts:34-39 | Pruning while iterating keeps exactly the unexpired records |
| Idempotency.IdempotencyStore.WithIdempotency | frontend/lib/api/idempotency.ts:77-143 | A request is run, repeated or refused exactly as an unbounded log of results with expiries decides, with its stored status, body and headers |
| Idempotency.IdempotencyStore.Execute | frontend/lib/api/idempotency.ts:119-142 | A result is logged, and the store goes on deciding as the log does |
| Idempotency.NeverRunAgain | frontend/lib/api/idempotency.ts:92-142 | Until ttlMs after a result with a status below 500 the handler is never run again for its key, whatever body is sent |
| Idempotency.AnswersHaveSource | frontend/lib/api/idempotency.ts:99-116 | A repeated answer has the status, the body and, with the mark of a repetition, the headers of the one result in its lifetime with the same body hash; a conflict means that one result has another hash |
| Idempotency.RunsIffNothingInForce | frontend/lib/api/idempotency.ts:119-124 | The handler runs exactly when every earlier result of the key with a status below 500 is ttlMs old, so one of 500 or above blocks nothing |
| Idempotency.InForceIff | frontend/lib/api/idempotency.ts:92-116 | What a request meets is the one earlier result of its key with a status below 500 that is younger than its ttlMs, or nothing |
| UsageWindows.CurrentWindowAgrees | frontend/lib/api/apiKeyRegistry.ts:264-280 | The stored window and count are those of the log of all accepted requests, even when the record has lapsed from the store |
| UsageWindows.CurrentTotalsAgree | frontend/lib/api/apiKeyRegistry.ts:264-274 | totalRequests and endpointCounts are those of the requests accepted since the record was created, also when the record was prolonged |
| UsageWindows.ProlongedKeepsTotals | frontend/lib/api/apiKeyRegistry.ts:202-212 | What a revocation of the usage record itself does: requests that would have been forgotten after 7 days stay counted |
| UsageWindows.AcceptedIsStored | frontend/lib/api/apiKeyRegistry.ts:289-295 | The record written on acceptance is exactly the record of the longer log |
| UsageWindows.ProducedWindows | frontend/lib/api/apiKeyRegistry.ts:276-280 | Each request lies in its window and successive windows are disjoint |
| UsageWindows.WindowBound | frontend/lib/api/apiKeyRegistry.ts:282-291 | No window accepts more than the limit |
| UsageWindows.RollingBound | frontend/lib/api/apiKeyRegistry.ts:276-298 | Any minute holds at most twice the limit |
| UsageWindows.RefusalEnds | frontend/lib/api/apiKeyRegistry.ts:282-287 | A refusal lasts exactly until its minute ends; waiting the returned seconds always yields acceptance, and a second less does not, above the minimum of one |
| UsageWindows.LivesFor | frontend/lib/api/apiKeyRegistry.ts:76-81 | A usage record lives 7 days from its opening or last request, 90 from a revocation |
| UsageWindows.SinceCreatedIsRun | frontend/lib/api/apiKeyRegistry.ts:264-295 | The requests a record counts are those since the first one that found no record alive |
| UsageWindows.TallyIsCount | frontend/lib/api/apiKeyRegistry.ts:293 | Each endpoint counter is the number of counted requests to the endpoint |
| UsageWindows.TallyTotal | frontend/lib/api/apiKeyRegistry.ts:289-293 | The endpoint counters sum to the number of requests |
| ApiKeyRegistry.Registry.IssueApiKey | frontend/lib/api/apiKeyRegistry.ts:140-188 | The whole record and the exact new store: the record and the longer list for 90 days, a fresh usage record for 7; every other entry is as before |
| ApiKeyRegistry.Registry.RevokeApiKey | frontend/lib/api/apiKeyRegistry.ts:202-212 | For any string: true exactly if anything can be read under it, and the exact new store. An issued key becomes revoked for good, once; under the id of a usage record or of the list that is rewritten and prolonged instead |
| ApiKeyRegistry.RevokesKeysOnlyIff | frontend/lib/api/apiKeyRegistry.ts:124-132 | In every state only issued keys are reported and changed, if and only if the id is not `list` and does not start with `usage:` |
| ApiKeyRegistry.ListAndUsageRevoked | frontend/lib/api/apiKeyRegistry.ts:202-212 | The failing inputs after any key was issued: `list` and `usage:` followed by its id are reported as revoked keys, with the exact entries rewritten |
| ApiKeyRegistry.RecordMeetsOthersIff | frontend/lib/api/apiKeyRegistry.ts:124-132 | The record key of an id is that of the list or of a usage record exactly for those ids |
| ApiKeyRegistry.Registry.AuthenticateKey | frontend/lib/api/apiKeyRegistry.ts:232-248 | Whoever is authenticated holds a key exactly as issued, neither revoked nor expired; and a key whose hash no other has is authenticated exactly as long as it is neither, for 90 days from issue, whatever else was issued, revoked or has lapsed |
| ApiKeyRegistry.FirstWithHash | frontend/lib/api/apiKeyRegistry.ts:240 | Of several records with the hash the first is taken |
| ApiKeyRegistry.ListedInOrder | frontend/lib/api/apiKeyRegistry.ts:217-225 | Records are read in the order of the list |
| ApiKeyRegistry.IssuedKeyIsFound | frontend/lib/api/apiKeyRegistry.ts:217-247 | A listed, readable, unrevoked key is found, unless another listed record has the same hash |
| ApiKeyRegistry.Registry.TrackAndCheckUsage | frontend/lib/api/apiKeyRegistry.ts:256-298 | The verdict is that of the full log of accepted requests with the limit 1000, 5000 or 500 of the tier; exactly the accepted ones are logged, in their window; no entry but the usage record changes |
| ApiKeyRegistry.Registry.GetApiKeyUsage | frontend/lib/api/apiKeyRegistry.ts:303-307 | A record is found exactly while it lives; its totalRequests equals the sum of endpointCounts and the number of requests let through since it was created, and its other figures are those of the log |
| ApiKeyRegistry.Registry.AuthenticateRegistryKey | frontend/lib/api/apiKeyAuth.ts:32-83 | Missing key, invalid key, tier too low and exhausted quota in this order; internal endpoints take internal keys only and partner endpoints no auditor keys; only a request let through consumes quota, of the key it authenticated |
| ApiKeyRegistry.IssuedApart | frontend/lib/api/apiKeyRegistry.ts:87-130 | The record keys of issued ids meet neither the list nor any usage key |
| CustodyChain.ValidateChain | frontend/components/products/CustodyAuditViewer.tsx:28-39 | Returns -1 exactly when every anchor is the hash of its event hash and the previous anchor, else the smallest failing index |
| CustodyChain.AcceptedIff | frontend/components/products/CustodyAuditViewer.tsx:28-39 | Accepted means that each anchor is the hash of its event hash followed by the anchor before it, the first by its own prevHash |
| CustodyChain.SameAnchorSameChain | frontend/components/products/CustodyAuditViewer.tsx:27-39 | Two accepted chains of equal length that end in the same anchor agree in all event hashes and anchors, or there is an n such that they agree in their last n entries and the entries before those have different link inputs with the same hash, their common anchor |
| CustodyChain.SameAnchorFromGenesis | frontend/components/products/CustodyAuditViewer.tsx:27-39 | The same for chains of any lengths from the genesis value, or the longer one ends in the whole shorter one and the link input of its entry just before hashes to that value |
| CustodyChain.BuildPage | frontend/app/api/v1/events/signature-ledger/route.ts:115-155 | A page built by recomputing the chain up to its offset is exactly that part of the whole ledger |
| CustodyChain.LedgerMeaning | frontend/app/api/v1/events/signature-ledger/route.ts:115-155 | Entry i of the ledger has index i, the hash of event i, the anchor before it or 64 zeros, and the hash of both as its anchor |
| CustodyChain.PagesAccepted | frontend/app/api/v1/events/signature-ledger/route.ts:120-155 | Every page passes the client's check and starts from its predecessor's last anchor |
| CustodyChain.PageByPage | frontend/app/api/v1/events/signature-ledger/route.ts:120-131 | Checking two adjoining pages is checking their concatenation |
| CustodyChain.AcceptedIffRechained | frontend/components/products/CustodyAuditViewer.tsx:28-39 | The check accepts exactly the chains whose anchors are those recomputed from their own first value over their own event hashes |
| CustodyChain.RechainAccepted | frontend/components/products/CustodyAuditViewer.tsx:28-39 | So after any tampering a recomputed chain passes, from any first value and over any event hashes |
| CustodyChain.TamperedLedgerDetected | frontend/app/api/v1/events/signature-ledger/route.ts:4-6 | What makes tampering show: a ledger that passes the check, starts from the genesis value and ends in the published anchor is the true one in every event and anchor, exactly when no fault is found; else it and the true one part at a definite collision or preimage of the genesis value |
| WebhookSink.WebhookSink.Capture | frontend/e2e/support/webhook-sink.ts:105-122 | An arrival, with its body, goes to the oldest waiting call if there is one, else to the end of the buffer |
| WebhookSink.WebhookSink.Arrive | frontend/e2e/support/webhook-sink.ts:96-134 | The same, then the status and the count answered and the stop of a full sink |
| WebhookSink.WebhookSink.WaitForRequest | frontend/e2e/support/webhook-sink.ts:155-189 | A call takes the oldest buffered request or queues |
| WebhookSink.WebhookSink.Timeout | frontend/e2e/support/webhook-sink.ts:164-171 | A timer rejects and unqueues exactly its own call, and does nothing once that is settled |
| WebhookSink.WebhookSink.Clear | frontend/e2e/support/webhook-sink.ts:201-203 | Clearing discards the buffer and nothing else |
| WebhookSink.WebhookSink.Stop | frontend/e2e/support/webhook-sink.ts:238-243 | Stopping rejects every pending call |
| WebhookSink.HandOver | frontend/e2e/support/webhook-sink.ts:115-122 | Handing over keeps the invariant: never both a buffered request and a pending call, each request delivered, buffered or cleared and each call pending, resolved or rejected, exactly one of these, deliveries in arrival and call order |
| WebhookSink.FirstArrivalsFirst | frontend/e2e/support/webhook-sink.ts:152-153 | Unless cleared, the i-th delivered request is the i-th that arrived |
| WebhookSink.FirstCallsFirst | frontend/e2e/support/webhook-sink.ts:115-117 | Unless calls were rejected, the i-th delivery goes to the i-th call |
| WebhookSink.KthCallGetsKthRequest | frontend/e2e/support/webhook-sink.ts:148-154 | With neither, the k-th call gets the k-th request as soon as both exist |
| OfflineQueue.Queue.Enqueue | frontend/lib/offlineQueue.ts:30-35 | Appends the operation, and the queue stays what the run of all actions has left, with no id used twice |
| OfflineQueue.Queue.Dequeue | frontend/lib/offlineQueue.ts:37-41 | What is left is what stood at the increasing positions that do not hold the id, and at no others |
| OfflineQueue.Queue.HandleSync | frontend/components/ui/SyncStatusBanner.tsx:81-99 | A pass leaves the failed operations in order followed by those enqueued meanwhile, counts the failures and is logged in the run, whose unique ids it relies on; offline or with nothing queued it does nothing |
| OfflineQueue.PassLeaves | frontend/components/ui/SyncStatusBanner.tsx:86-97 | What a pass leaves, by places: first the operations whose dispatch failed, as many as it counts, then what arrived meanwhile |
| OfflineQueue.ArrivedPlaces | frontend/components/ui/SyncStatusBanner.tsx:87-94 | Everything enqueued during a pass is there afterwards, in order |
| OfflineQueue.RunConserves | frontend/lib/offlineQueue.ts:29-51 | Through any mix of enqueueing, passes and clearing every operation is queued, dispatched or cleared, once |
| OfflineQueue.PassFindsUniqueIds | frontend/lib/offlineQueue.ts:32 | If ids are never reused, every pass of every run meets the unique ids it needs |
| OfflineQueue.SucceedsAtMostOnce | frontend/components/ui/SyncStatusBanner.tsx:87-94 | Over repeated passes each operation succeeds at most once, is then no longer queued, and none is lost |
| Metrics.Collector.RecordRequest | frontend/lib/api/metrics.ts:82-91 | After any history an endpoint's total, status counts and samples are those of everything recorded for it |
| Metrics.Collector.GetMetricsSnapshot | frontend/lib/api/metrics.ts:115-132 | An endpoint is in the snapshot if and only if a request was recorded for it, and its figures are computed from its metrics |
| Metrics.RingKeepsLatest | frontend/lib/api/metrics.ts:89-90 | The ring holds exactly the last 1000 samples |
| Metrics.ClassesTotal | frontend/lib/api/metrics.ts:84-87 | The status counts sum to the number of requests |
| Metrics.PercentileIsAtRank | frontend/lib/api/metrics.ts:106-110 | A percentile is the one sample with at least ceil(p n / 100) samples at most it and fewer below it |
| Metrics.PercentilesOrdered | frontend/lib/api/metrics.ts:106-110 | A higher percentile is never smaller |
| Metrics.SnapshotMeaning | frontend/lib/api/metrics.ts:82-87 | After any history totalRequests and each status class are the numbers of the log's requests of the endpoint, in all and in that hundred, and the total is the sum of the classes |
| Metrics.ErrorRateMeaning | frontend/lib/api/metrics.ts:119-130 | errorRate is the part of them answered with 500 to 599, and availability is the rest |
| Metrics.SnapshotPercentiles | frontend/lib/api/metrics.ts:118-129 | p50, p95 and p99 stand at their ranks among the samples and in order |
| Metrics.SamplesAreLatest | frontend/lib/api/metrics.ts:89-90 | The samples are the last 1000 latencies of the endpoint |
| Metrics.RankRoundsUp | frontend/lib/api/metrics.ts:108 | The rank of a percentage is p n / 100 rounded up, at least one |
| Attestations.Registry.AddAttestation | frontend/lib/attestations.ts:121-162 | The new record, entered in both lists; every other record and list, lapsed or not, is as it was |
| Attestations.AddedEntries | frontend/lib/attestations.ts:155-157 | The entries written: the record and its id at the end of both lists, each for a year; every other entry is as it was |
| Attestations.Registry.ListAttestations | frontend/lib/attestations.ts:176-201 | Until a lifetime runs out, the records of the product or issuer as they are now, newest first, with their status |
| Attestations.ListingMeaning | frontend/lib/attestations.ts:176-201 | Through any additions and revocations a listing is newest first and holds every matching record once and nothing else |
| Attestations.NewestFirstIsStable | frontend/lib/attestations.ts:184-185 | Records created at the same time keep the order in which they were added |
| Attestations.CollectEntered | frontend/lib/attestations.ts:180-183 | Reading the listed ids back gives exactly the records entered under the key |
| Attestations.Registry.RevokeAttestation | frontend/lib/attestations.ts:207-225 | For any string: only the issuer's first revocation of a record changes the store, only that record, and only by its mark and a new lifetime; a list is nobody's to revoke |
| Attestations.Registry.ValidateAttestation | frontend/lib/attestations.ts:231-250 | For any string: holds exactly for a readable, unrevoked, unexpired record with the expected reference, and, if no reference is expected, for the id of a stored list; once revoked never again, lapsed or not |
| Attestations.HoldsOnlyGenuineIff | frontend/lib/attestations.ts:231-250 | In every state only genuine attestations hold, if and only if the id starts with neither `list:` nor `issuer:` or a reference is expected |
| Attestations.ListValidates | frontend/lib/attestations.ts:231-250 | The failing inputs: once a product or an issuer has an attestation, `list:` and its id, or `issuer:` and its address, is reported as a valid attestation |
| Attestations.RecordMeetsListIff | frontend/lib/attestations.ts:80-90 | The record key of an id is the key of a product or issuer list exactly if the id starts with `list:` or `issuer:` |
| Attestations.AddedApart | frontend/lib/attestations.ts:80-90 | The record keys of added ids meet no list key |

## Left out

- CheckRateLimit: limits are positive whole numbers and a limiter serves one tier; a limit of zero, whose Retry-After would not be a number, and one secret configured for both tiers are not modelled.
- CheckRateLimit: errors of the store, on which the code lets requests through, are not modelled; nor is the interleaving of two requests between read and write.
- RedactionComplete: its condition is exact secret by secret (`SafeBesideAnyIff`, `ReappearsIff`); for a
  particular list of several secrets that can overlap the tag, whether one of them in fact survives
  beside just these others is not characterised.
- WithRetry: `withTimeout` and its timers are not modelled; an attempt that times out is an attempt that fails. Delays are computed over the reals, not in floating point.
- CallWithRetry: which error messages count as permanent is a parameter, and the call is not interleaved with others; interleaving is covered by the breaker's own steps.
- OutageLoad: is about calls made one after another; when half-open the breaker lets every overlapping call through, so no single-probe claim is made.
- ParseAndValidate: numbers are exact integers, so printing and parsing numbers beyond 2^53 is not modelled.
- Submit: signature verification is a parameter; the list of ratings shown to readers, and its averages, are not modelled.
- WithIdempotency: CORS headers, the hash used where no Web Crypto exists, and overlapping requests with one key are not modelled.
- RollingBound: is stated for whole logs; tiers share the window length, so the limit of a log is the largest of its requests.
- AuthenticateRegistryKey: the HTTP responses are reduced to their kinds.
- BuildPage: loading and sorting events by time, and hashing their fields into one text, come before the model, which takes the texts.
- ValidateChain: like the code, does not check that event hashes match events, nor any `prevHash` but the first.
- Arrive: HTTP parsing, other methods and signature verification are not modelled.
- HandleSync: passes do not overlap and the copy it replays is the stored queue; storage quota errors are not modelled.
- GetMetricsSnapshot: percentiles are exact rationals rounded up; dependency and operation counters are not modelled, being plain counters.
- ListAttestations: once a lifetime has run out the two lists and the records may disagree, because revoking prolongs a record but not its lists.
- AddAttestation: issuer name, trust level, type, report URL and metadata are carried along unread and not modelled.
- The smart contract, the user interface, route wiring and the in-process IP limiter are not part of this model.
