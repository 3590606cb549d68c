# OneCipher: verified model of the stateful core

A Dafny model of the parts of OneCipher that keep state or run over unbounded input, with
proofs of what they promise: fuzzy-search distance, the derived-key cache, the signed audit
log and its merge, the Sign-In replay store and handler, the signing handlers' audit
discipline, the approval log, the atomic file writer, the frame codec and the secret-name
codec. `dafny verify dfyconfig.toml` checks everything.

| file | component |
|---|---|
| `EditDistance.dfy` | the two-row Levenshtein loop, edit scripts, single-edit paths |
| `RecencyList.dfy`, `CacheRuns.dfy`, `KeyCache.dfy`, `KeyOps.dfy` | the LRU list the cache stands for, its guarantees over runs, the two-map cache, chain-key derivation through it |
| `AuditLog.dfy`, `AuditMerge.dfy` | hash chain, verification, appending and reopening; merging fragments |
| `NonceStore.dfy`, `SignIn.dfy` | the replay store; the CAIP-122 Sign-In handler on top of it |
| `SigningHandlers.dfy`, `SigningAudit.dfy` | the six signing handlers and the enclave call, interleaved over one audit log; the signed file they leave |
| `ApprovalLog.dfy` | event replay and compaction |
| `AtomicWrite.dfy`, `Numerals.dfy` | the atomic writer under concurrency and crashes; unique names |
| `Frame.dfy`, `SecretName.dfy` | length-prefixed frames; name validation and percent-encoding |
| `Results.dfy`, `Seqs.dfy` | shared result types and order-preserving filtering |

## How the model is made

- An object that the source updates in place is a class whose methods are proved against
  functions on values; theorems about whole runs are lemmas about those functions.
  `KeyCache` carries its call history as a ghost field and `Valid()` equates the two maps with
  the recency list of that history, so the run theorems speak about every reachable cache.
- Concurrency is a state machine over atomic steps. An audit append holds the log's mutex, a
  cache call the cache's mutex, a system call is atomic. `SigningHandlers.AgentContext.Handle` and
  `AtomicWrite.Directory.WriteAtomic` are the sequential code; `SigningHandlers.HandlerIsARun` and
  the contract of `WriteAtomic` say that each execution is a run of the machine.
- Clocks, the passkey check, the signer, the message parser, the child process, and the success
  of reads, writes, syncs and appends are inputs. An audit append may land and be synced, land
  and fail to sync, or not land.
- An agent's life is one process: its request counter starts anew, the audit file goes on. What
  the file says across lives is stated on request ids as text (`SigningAudit`).
- SHA-256 and Ed25519 are arbitrary functions. Tamper evidence assumes that the hash neither
  collides nor prints as the empty string on the entries at hand (`IdealOn`), nothing more;
  appending assumes that own signatures verify and that digests are not empty (`Sound`).
- Time-to-idle expiry, the audit chain and the nonce store read the clock once per check.
  Audit timestamps are ordered as text, as the source orders them.
- `next_tick` wraps at 2^64, in the model as in the source. Until it does, the maps stand for the
  recency list of the run; the ghost flag `wrapped` says when they no longer need to, and
  `clear` resets it. Before and after, a lookup answers nothing or the latest key of its id. With `max_entries == 0` an insertion leaves one entry, so the size bound is
  max(1, max_entries).

## Where the code and its documentation differ, and what is false

- The comment on `read_frame` says that a truncated length prefix is an I/O error. The code
  answers `Eof`, and so does the model (`Frame.Truncated` gives the exact condition for either).
- Audit verification does not notice entries cut off at the end (`AuditLog.TruncationIsNot`); of
  all files made of old entries it accepts exactly these (`AuditLog.OnlyTruncationVerifies`).
- An append whose line lands but whose sync fails leaves the handle behind the file: the next
  append breaks the chain (`AuditLog.FailedSyncBreaksChain`). A run verifies exactly when no line
  is written after such a one without opening the log again (`AuditLog.RunVerifiesIff`). An agent
  in fail-closed mode refuses the request whose record was not synced and answers the next with
  success, into a log that does not verify (`SigningAudit.SuccessIntoABrokenChain`).
- A comment in audit.rs says that skipping legacy lines on opening keeps the chain continuous. A
  log with a line that does not parse never verifies, whatever is appended
  (`AuditLog.LegacyLineNeverVerifies`).
- The documentation of `merge` suggests that a merge of several devices' logs verifies if one key
  signed them all. It never does, under any key (`AuditMerge.TwoDevicesNeverVerify`).
- Two handles open on one audit file break the chain
  (`AuditLog.StaleHandleBreaksChain`); an append keeps a log verifying exactly when the handle's
  hash is the file's (`AuditLog.AppendVerifiesIffCurrent`).
- Merged fragments rebuild, and verify as, a device's log exactly when its timestamps never go
  down (`AuditMerge.MergedLogVerifiesIffTimestampsRise`). As text they can go down although the
  clock runs forward, because trailing zeros of the fraction are not printed: two appends half
  a second apart are enough (`AuditMerge.MergeBreaksAHalfSecond`).
- A replay before expiry is accepted exactly when the hash was evicted at capacity in between
  (`NonceStore.ReplayAcceptedIffEvicted`), and this does happen: three requests on a store one
  short of full (`NonceStore.ReplayGetsThrough`).
- nonce_store.rs says that a captured login message cannot be signed a second time, and the handler
  that a failed attempt can never be replayed. Far below the cap both are false: the hash is
  kept until the message's own expiry or one second, and validation allows a minute more.
  Below the cap a message is signed again exactly when it is admitted, the disk works and the
  stored expiry has been reached (`SignIn.SignedAgainIff`); on an empty store an expired message is
  signed in every one of sixty-one seconds (`SignIn.SignedForAMinute`). One without an expiry is
  refused for 86,400 seconds (`SignIn.RefusedFor`) and signed again then
  (`SignIn.SignedAgainAfter`, `SignIn.SignedADayApart`).
- Compaction loses an open approval exactly when a stale id was opened again
  (`ApprovalLog.CompactionKeepsOpenIff`, with a three-line example in `ApprovalLog.ReopenedIsLost`).
- Without `audit_fail_closed` a success may leave no record (`SigningHandlers.FailOpenLosesRecords`).
- A comment in audit.rs says that a pending entry without a resolved one means that the parent
  died. A request that is over and answered leaves one too, after a failed lookup of the
  executable or a response that does not decode (`SigningHandlers.UnmatchedWithoutACrash`);
  `SigningHandlers.PendingIsResolved` says exactly when.
- The key cache is keyed by chain alone. After one mnemonic filled it, a lookup for another that
  derives a different key is right exactly once the idle time is over
  (`KeyOps.WrongKeyUntilIdle`); within it, `derive_chain_key` hands the second wallet the first
  one's key (`KeyOps.SecondWalletGetsFirstKey`, with numbers in `KeyOps.WalletTwoGetsOne`).
- A comment in key_ops.rs says that a derived key stays in the cache for up to five seconds. An
  expired slot goes only with the next insertion, sweep, clear or lookup of its own id, and
  stays through any number of other lookups (`CacheRuns.ExpiredStaysIff`,
  `CacheRuns.IdleCacheKeepsExpiredKey`); it is never answered (`CacheRuns.HeldAnswers`).
- The documentation of `validate_secret_name` rules out segments that start with a space. The code
  accepts them: a space before any valid name leaves it valid (`SecretName.LeadingSpaceIsValid`).
- The documentation of `write_atomic` gives the temporary name a leading dot. The code, and
  `Numerals.TmpName`, have none.

## Model

| member | source | states |
|---|---|---|
| EditDistance.Compute | crates/oc-core/src/text.rs:18-44 | the two-row loop with in-place update and swap returns the least number of single-character edits from a to b |
| EditDistance.DistanceIsFewestEdits | crates/oc-core/src/text.rs:3-6 | the recurrence is attained by a path of single insertions, deletions and substitutions, and no path is shorter |
| EditDistance.ScriptExists | crates/oc-core/src/text.rs:31-43 | some edit script turns a into b at the cost the table computes |
| EditDistance.NoCheaperScript | crates/oc-core/src/text.rs:31-43 | no edit script costs less than the table computes |
| EditDistance.Compose | crates/oc-core/src/text.rs:34-41 | two scripts compose into one that costs no more than both |
| EditDistance.ZeroIffEqual | crates/oc-core/src/text.rs:18-44 | the distance is zero exactly for equal strings |
| EditDistance.Symmetric | crates/oc-core/src/text.rs:18-44 | the distance is symmetric |
| EditDistance.Triangle | crates/oc-core/src/text.rs:18-44 | the triangle inequality |
| EditDistance.LengthBounds | crates/oc-core/src/text.rs:24-29 | the distance lies between the difference and the maximum of the lengths |
| KeyCache.KeyCache.Get | crates/oc-crypto/src/key_cache.rs:139-161 | answers nothing or the key last inserted under the id since the last clear; until the tick counter wraps exactly as the recency list of the whole run does, with the maps in step with it |
| KeyCache.KeyCache.Insert | crates/oc-crypto/src/key_cache.rs:166-185 | the id has its new entry and no other entry another key; until the tick counter wraps the maps change as the recency list does |
| KeyCache.KeyCache.Clear | crates/oc-crypto/src/key_cache.rs:188-192 | empties both maps, and puts them in step again after a wrap |
| KeyCache.KeyCache.EvictExpired | crates/oc-crypto/src/key_cache.rs:195-198 | leaves exactly the unexpired slots, in order until the tick counter wraps, and no expired entry ever |
| KeyCache.KeyCache.Len | crates/oc-crypto/src/key_cache.rs:202-204 | the length of the recency list, at most max(1, max_entries) |
| KeyCache.KeyCache.Lookup | crates/oc-crypto/src/key_cache.rs:143-160 | miss, expiry and hit change both maps together as the list says |
| KeyCache.KeyCache.Store | crates/oc-crypto/src/key_cache.rs:167-184 | sweep, removal of the id, capacity eviction and insertion, in that order, on both maps |
| KeyCache.KeyCache.Remove | crates/oc-crypto/src/key_cache.rs:64-68 | an entry and its index slot go together |
| KeyCache.KeyCache.DropExpired | crates/oc-crypto/src/key_cache.rs:71-81 | removing the expired ids in any order leaves the unexpired list |
| KeyCache.KeyCache.MakeRoom | crates/oc-crypto/src/key_cache.rs:173-178 | at capacity the smallest tick, which is the list's head, goes |
| KeyCache.SlotsIds | crates/oc-crypto/src/key_cache.rs:45-53 | the recency index lists every entry exactly once |
| KeyCache.SlotsHead | crates/oc-crypto/src/key_cache.rs:174-177 | the smallest tick belongs to the least recently used slot |
| CacheRuns.RunShape | crates/oc-crypto/src/key_cache.rs:166-185 | in every run no id is held twice and the size stays within max(1, max_entries) |
| CacheRuns.RunOrdered | crates/oc-crypto/src/key_cache.rs:153-159 | with a forward clock the recency order is the order of last access |
| CacheRuns.RunExpiresFromTheFront | crates/oc-crypto/src/key_cache.rs:71-81 | in every run the expired slots are a prefix of the recency order |
| CacheRuns.LostOnlyToNewerIds | crates/oc-crypto/src/key_cache.rs:163-185 | an unexpired id is pushed out only after max_entries other ids were touched since its own last touch |
| CacheRuns.LostIsLongestIdle | crates/oc-crypto/src/key_cache.rs:173-178 | the slot pushed out is one of the longest idle |
| CacheRuns.Retained | crates/oc-crypto/src/key_cache.rs:11-20 | a slot stays, with its key, until cleared, expired, or max_entries other ids were touched |
| CacheRuns.HeldAnswers | crates/oc-crypto/src/key_cache.rs:133-161 | a held slot answers with its key exactly until its idle time runs out |
| CacheRuns.SweptIsLive | crates/oc-crypto/src/key_cache.rs:71-81 | right after an insertion or a sweep no slot is expired |
| CacheRuns.ExpiredStaysIff | crates/oc-crypto/src/key_cache.rs:15-20 | once expired, a slot is still held exactly as long as every call is a lookup of another id |
| CacheRuns.IdleCacheKeepsExpiredKey | crates/oc-keyagent/src/key_ops.rs:13-14 | an idle cache keeps a key for any length of time |
| CacheRuns.ReinsertEvictsNoOther | crates/oc-crypto/src/key_cache.rs:170-178 | re-inserting a held id pushes out no other live slot |
| KeyOps.DeriveChainKey | crates/oc-keyagent/src/key_ops.rs:87-116 | the cached key or else direct derivation, errors included, with exactly these cache calls; with one mnemonic always, wrapped or not, the result of direct derivation |
| KeyOps.DirectCases | crates/oc-keyagent/src/key_ops.rs:87-134 | direct derivation, error by error, with the path and curve of either chain |
| KeyOps.Transparent | crates/oc-keyagent/src/key_ops.rs:87-134 | over every interleaving a lookup answers nothing or the directly derived key, and unsupported chains are never held |
| KeyOps.WrongKeyUntilIdle | crates/oc-crypto/src/key_cache.rs:95-98 | a lookup for a mnemonic that derives another key is right exactly once the slot's idle time is over |
| KeyOps.SecondWalletGetsFirstKey | crates/oc-keyagent/src/key_ops.rs:87-116 | two calls on a new cache with five seconds and 32 entries: the second wallet gets the first one's key |
| KeyOps.WalletTwoGetsOne | crates/oc-crypto/src/key_cache.rs:95-98 | the same with concrete wallets, keys and chain |
| AuditLog.Open | crates/oc-keyagent/src/audit.rs:148-187 | a new or existing file is opened with the tail a fresh read gives; it fails exactly when the directory, the creation or the reading does, and changes nothing then |
| AuditLog.LoadTail | crates/oc-keyagent/src/audit.rs:193-212 | the hash and number of the last line that parses, by position; others are skipped; nothing and zero if none does |
| AuditLog.AuditLog.Append | crates/oc-keyagent/src/audit.rs:219-258 | a signed entry linked to the in-memory tail; after a failed sync the line is there and the tail is not moved; no change if nothing is written |
| AuditLog.AuditLog.VerifyChain | crates/oc-keyagent/src/audit.rs:267-310 | accepts exactly the readable files whose lines all parse and whose entries are a signed chain, and otherwise reports the fault of the first line at fault: not parsing, not linked, no hex signature, or one that does not verify |
| AuditLog.VerifiesIffChained | crates/oc-keyagent/src/audit.rs:260-310 | line-by-line verification means: every entry links to its predecessor and is signed |
| AuditLog.FirstFaultIsReported | crates/oc-keyagent/src/audit.rs:273-309 | the error is that of the first line at fault, by what is wrong with it |
| AuditLog.LastHashDeterminesLog | crates/oc-keyagent/src/audit.rs:586-600 | two verifying logs with the same last hash agree entry by entry except in signatures |
| AuditLog.RewritingIsDetected | crates/oc-keyagent/src/audit.rs:10-12 | changing any entry before the last, however signed, makes verification fail under any key |
| AuditLog.TruncationIsNot | crates/oc-keyagent/src/audit.rs:273-309 | every prefix of a verifying log verifies |
| AuditLog.RearrangedChain | crates/oc-keyagent/src/audit.rs:282-284 | a chain of entries of another chain repeats that chain from its start |
| AuditLog.OnlyPrefixesChain | crates/oc-keyagent/src/audit.rs:260-310 | of all sequences of a log's entries exactly its prefixes are signed chains |
| AuditLog.OnlyTruncationVerifies | crates/oc-keyagent/src/audit.rs:260-310 | a file of old entries verifies exactly when it parses and its entries are a prefix |
| AuditLog.AppendVerifiesIffCurrent | crates/oc-keyagent/src/audit.rs:225-258 | an append keeps a log verifying exactly when the handle's hash is the file's |
| AuditLog.StaleHandleBreaksChain | crates/oc-keyagent/src/audit.rs:225-258 | a second handle that missed an append breaks the chain |
| AuditLog.RunVerifies | crates/oc-keyagent/src/audit.rs:148-258 | every run of appends and reopenings that writes nothing over a stale handle verifies, numbers on without gaps, holds exactly the lines that landed, and keeps the handle equal to a fresh read unless its last line was not synced |
| AuditLog.RunVerifiesIff | crates/oc-keyagent/src/audit.rs:246-255 | a run verifies exactly when no line is written after an unsynced one without reopening |
| AuditLog.FailedSyncBreaksChain | crates/oc-keyagent/src/audit.rs:246-255 | one failed sync and one more append break a new log; with a reopening in between they do not |
| AuditLog.RunCarries | crates/oc-keyagent/src/audit.rs:219-258 | verifying or not, the file holds its earlier entries and then those that landed |
| AuditLog.LegacyLineNeverVerifies | crates/oc-keyagent/src/audit.rs:203-205 | a log with a line that does not parse never verifies, whatever is appended and under any key |
| AuditLog.NewLogVerifies | crates/oc-keyagent/src/audit.rs:148-258 | from an empty log with working syncs every run verifies, numbered from one |
| AuditLog.ReopeningIsInvisible | crates/oc-keyagent/src/audit.rs:177-187 | with working syncs a run equals the run without its reopenings |
| AuditMerge.Merge | crates/oc-keyagent/src/audit.rs:324-387 | writes the one merge of the fragments and returns a handle on its last entry, or the first read error, or the error of a failed write; no change then |
| AuditMerge.ReadErrorMeans | crates/oc-keyagent/src/audit.rs:331-340 | the error is that of the first fragment that cannot be read or holds a line that does not parse |
| AuditMerge.MergeOrder | crates/oc-keyagent/src/audit.rs:347-352 | the output is ordered by timestamp, then number, then device, texts by their first difference |
| AuditMerge.FirstWins | crates/oc-keyagent/src/audit.rs:340-342 | the output holds exactly the first entry of each device and number |
| AuditMerge.HandleAfterMeans | crates/oc-keyagent/src/audit.rs:374-386 | the returned handle is the one that opening the merged file gives |
| AuditMerge.Collect | crates/oc-keyagent/src/audit.rs:334-343 | after each fragment the map holds the first entry of every key seen |
| AuditMerge.SortValues | crates/oc-keyagent/src/audit.rs:346-352 | whatever order the map yields, the output is strictly sorted and complete |
| AuditMerge.MergeIsUnique | crates/oc-keyagent/src/audit.rs:346-352 | the output cannot depend on hash-map order |
| AuditMerge.MergeHasNoDuplicates | crates/oc-keyagent/src/audit.rs:314-315 | no device and number occur twice |
| AuditMerge.MergeCoversKeys | crates/oc-keyagent/src/audit.rs:340-342 | every device and number of the input occurs |
| AuditMerge.MergeIsIdempotent | crates/oc-keyagent/src/audit.rs:324-387 | merging a merged file gives the same file |
| AuditMerge.RebuildsIffTimestampsRise | crates/oc-keyagent/src/audit.rs:347-352 | pieces covering one device's log rebuild it exactly when its timestamps never go down |
| AuditMerge.MergedLogVerifiesIffTimestampsRise | crates/oc-keyagent/src/audit.rs:318-323 | the merged file verifies exactly then, with a handle in step |
| AuditMerge.MergeBreaksAHalfSecond | crates/oc-keyagent/src/audit.rs:226 | two appends half a second apart make a log that verifies and whose merge does not |
| AuditMerge.TwoDevicesNeverVerify | crates/oc-keyagent/src/audit.rs:318-323 | the merge of two devices' logs never verifies |
| AuditMerge.RebuiltLogKeepsVerifying | crates/oc-keyagent/src/audit.rs:318-323 | a rebuilt log keeps verifying through any later run with the same key that writes nothing over a stale handle |
| NonceStore.NonceStore.Consume | crates/oc-keyagent/src/nonce_store.rs:106-125 | a corrupt store, an unreadable one and a tracked hash are refused, each with its own error and no change; any other call succeeds exactly if the save does; eviction of some oldest entry, for any tie-break |
| NonceStore.OutcomeCases | crates/oc-keyagent/src/nonce_store.rs:71-125 | what a call answers, by the kind of file and whether it tracks the hash |
| NonceStore.AfterCases | crates/oc-keyagent/src/nonce_store.rs:106-125 | after a success the file holds the hash with its clamped expiry and exactly the tracked others, all below 10,000, all but the victim from there on |
| NonceStore.UnusableStays | crates/oc-keyagent/src/nonce_store.rs:76-80 | from a corrupt or unreadable file no request succeeds and none changes it |
| NonceStore.NonceStore.IsConsumed | crates/oc-keyagent/src/nonce_store.rs:128-131 | true exactly for a stored hash that has not expired; an error exactly for a corrupt or unreadable file |
| NonceStore.ReplayNeedsEviction | crates/oc-keyagent/src/nonce_store.rs:71-125 | a second consumption before the stored expiry needs an eviction in between from a full store in which all expire no earlier |
| NonceStore.ReplayAcceptedIffEvicted | crates/oc-keyagent/src/nonce_store.rs:21-26 | a replay is accepted exactly when the hash was evicted in between |
| NonceStore.ReplayGetsThrough | crates/oc-keyagent/src/nonce_store.rs:116-123 | a run of three requests in which a hash is consumed, evicted and consumed again before its expiry |
| NonceStore.RefusedUntilExpiry | crates/oc-keyagent/src/nonce_store.rs:103-123 | a consumed hash is refused for the rest of that second and until the requested expiry, and accepted from then on |
| NonceStore.StaysWithinCap | crates/oc-keyagent/src/nonce_store.rs:116-123 | the store never grows past its cap |
| SignIn.HandleSignSiwx | crates/oc-keyagent/src/handler.rs:1204-1430 | every check in order, consumption before signing, the response to each outcome, and the events the handler and its passkey check send to the audit log |
| SignIn.TrailTells | crates/oc-keyagent/src/handler.rs:1249-1421 | of an admitted request, a success exactly when SiwxSigned is recorded (and, fail-closed, written); AuthFailed exactly for a wrong token, a replay, or a passkey check that records it |
| SignIn.AdmittedIff | crates/oc-keyagent/src/handler.rs:1208-1327 | a request reaches the nonce store exactly when it is complete, has one valid authorization, parses, is bound to its chain and lies within its time window with a minute's leeway |
| SignIn.RefusalCases | crates/oc-keyagent/src/handler.rs:1208-1327 | which refusal a request gets before the nonce store, check by check |
| SignIn.AnswerCases | crates/oc-keyagent/src/handler.rs:1337-1430 | which response it gets after, outcome by outcome |
| SignIn.Screen | crates/oc-keyagent/src/handler.rs:1208-1327 | what stops a request before the nonce store |
| SignIn.SignerSeesAMessageOnce | crates/oc-keyagent/src/handler.rs:1329-1394 | below the cap the signer sees the same bytes again only from the stored expiry on, whatever became of the first request |
| SignIn.PresentedAgainIsRefused | crates/oc-keyagent/src/handler.rs:1337-1352 | until then every further presentation is refused; an otherwise admissible one with E_AUTH and an AuthFailed record |
| SignIn.SignedAgainIff | crates/oc-keyagent/src/handler.rs:1329-1352 | below the cap a message reaches the signer again exactly when it is admitted, the disk works and the stored expiry has been reached |
| SignIn.RefusedFor | crates/oc-keyagent/src/handler.rs:1331-1334 | below the cap a signed message is refused for the rest of the second, until the second of its expiry, or for 86,400 seconds if it has none |
| SignIn.SignedAgainAfter | crates/oc-keyagent/src/handler.rs:1331-1352 | and is signed again exactly from then on, when admitted and with a working disk |
| SignIn.SignedADayApart | crates/oc-keyagent/src/nonce_store.rs:19 | a legal run that signs a message without an expiry twice, a day apart |
| SignIn.NoSignerOnUnusableStore | crates/oc-keyagent/src/handler.rs:1353-1358 | on a corrupt or unreadable store no request reaches the signer |
| SignIn.SignedAgainUntil | crates/oc-siwx/src/validate.rs:216-224 | a message with an expiry is signed at most until a minute after it |
| SignIn.SignedForAMinute | crates/oc-keyagent/src/handler.rs:1201-1203 | a legal run below the cap in which one expired message is signed sixty-one times |
| NonceStore.HeldWithExpiryOrOut | crates/oc-keyagent/src/nonce_store.rs:71-125 | until it is consumed again, a consumed hash is stored with its expiry or not at all |
| SignIn.SuccessMeansConsumed | crates/oc-keyagent/src/handler.rs:1329-1430 | a success response means this request stored its hash and called the signer |
| SigningHandlers.SuccessesAreAudited | crates/oc-keyagent/src/handler.rs:296-317 | with audit_fail_closed, success responses of all six handlers map one-to-one to success records of their own requests, in every interleaving |
| SigningHandlers.AcceptedMeans | crates/oc-keyagent/src/enclave.rs:916-933 | a reply is accepted exactly from a response in version 1 to this request that reports success |
| SigningHandlers.SuccessHasGoodAnswer | crates/oc-keyagent/src/handler.rs:374-478 | in every interleaving a success on the enclave path has such a response behind it, decodable and with all the handler returns |
| SigningHandlers.EnclaveCases | crates/oc-keyagent/src/handler.rs:401-478 | result and records of the enclave call, case by case on the child's response |
| SigningHandlers.HandlerSucceedsIff | crates/oc-keyagent/src/handler.rs:797-1430 | exactly when a handler succeeds |
| SigningHandlers.HandlerLogCases | crates/oc-keyagent/src/handler.rs:797-1430 | what it leaves in the log, path by path |
| SigningHandlers.FailOpenLosesRecords | crates/oc-keyagent/src/handler.rs:985-992 | without it a success may leave no record |
| SigningHandlers.PendingIsResolved | crates/oc-keyagent/src/handler.rs:374-478 | on any log, among the records of the run each pending one is followed by exactly one resolved record, which is true exactly if the child answered this call in version 1 with success, except after a failed lookup or undecodable fields; of the whole log where the id was not used before |
| SigningHandlers.RunAfter | crates/oc-keyagent/src/handler.rs:374-478 | records that were there before change nothing about a run |
| SigningHandlers.UnmatchedWithoutACrash | crates/oc-keyagent/src/audit.rs:100-101 | two runs with working appends in which a finished request leaves its pending record unmatched |
| SigningHandlers.HandlerIsARun | crates/oc-keyagent/src/handler.rs:797-996 | a handler by itself is a run of the machine with the same log and the same end |
| SigningHandlers.EnclaveIsARun | crates/oc-keyagent/src/handler.rs:374-478 | and so is the enclave call inside it |
| SigningHandlers.AgentContext.SignViaEnclave | crates/oc-keyagent/src/handler.rs:374-478 | the records written and the result returned for every child outcome and append outcome; Ok only with a found executable and a version 1 response to this call that reports success and decodes, and a resolved record true exactly if the child answered so |
| SigningHandlers.AgentContext.ConfirmSigned | crates/oc-keyagent/src/handler.rs:1396-1421 | ownership check and strict append before a success |
| SigningHandlers.AgentContext.Handle | crates/oc-keyagent/src/handler.rs:797-921 | the records of a handler on either signing path, and success exactly under the stated conditions |
| SigningAudit.EveryInterleavingVerifies | crates/oc-keyagent/src/handler.rs:296-325 | the audit file of every interleaving holds its earlier entries and then exactly the records of the run that landed, and verifies if all but the last were synced |
| SigningAudit.InterleavingVerifiesIff | crates/oc-keyagent/src/audit.rs:246-255 | that file verifies exactly when no record but the last landed unsynced |
| SigningAudit.SuccessIntoABrokenChain | crates/oc-keyagent/src/handler.rs:976-984 | a fail-closed run that answers a success into a log that does not verify |
| SigningAudit.NextLife | crates/oc-keyagent/src/enclave.rs:457-469 | what one life records, the next finds as entries of another life, under a forward clock or another pid |
| SigningAudit.RequestIdsPairUp | crates/oc-keyagent/src/handler.rs:374-478 | in the whole file, entries of earlier lives included, by request id alone: each pending entry of this life is the only one, and has exactly one resolved entry, later and with the right flag, if its call has an outcome, else none |
| Numerals.RequestIdInjective | crates/oc-keyagent/src/enclave.rs:463-469 | request ids differ as their counters do |
| Numerals.NamesLookLike | crates/oc-core/src/paths.rs:39-54 | one request id, one temporary name and one legacy name, written out |
| ApprovalLog.ApprovalLog.AppendPending | crates/oc-core/src/approval_log.rs:58-69 | the approval becomes open, or nothing changes if the write fails |
| ApprovalLog.ApprovalLog.AppendResolved | crates/oc-core/src/approval_log.rs:72-84 | the id is no longer open, or nothing changes if the write fails |
| ApprovalLog.ApprovalLog.ReplayUnresolved | crates/oc-core/src/approval_log.rs:87-110 | the loop computes the open approvals, or the read error |
| ApprovalLog.ApprovalLog.GcOlderThan | crates/oc-core/src/approval_log.rs:114-169 | after success no line is left of an id resolved before now less 86,400 seconds a day, every other line that is not blank stays in order, and the number dropped is returned; nothing is rewritten if none is, and a failed read or rewrite changes nothing |
| ApprovalLog.StaleIff | crates/oc-core/src/approval_log.rs:122-132 | an id is collected exactly if some event resolves it before the cutoff, however it was decided |
| ApprovalLog.CompactedMeans | crates/oc-core/src/approval_log.rs:134-166 | which lines stay and which go, on the lines alone |
| ApprovalLog.OpenIffLastIsPending | crates/oc-core/src/approval_log.rs:86-110 | an id is open exactly when its last event is pending, with that approval |
| ApprovalLog.ReplayAfterCompaction | crates/oc-core/src/approval_log.rs:112-169 | replay after compaction is replay before it without the stale ids |
| ApprovalLog.CompactionKeepsOpenIff | crates/oc-core/src/approval_log.rs:112-169 | compaction preserves the open set exactly when no stale id is open |
| ApprovalLog.CompactionIsSafe | crates/oc-core/src/approval_log.rs:112-169 | so it does whenever no id is opened again after it was resolved |
| ApprovalLog.ReopenedIsLost | crates/oc-core/src/approval_log.rs:122-151 | a reopened id is lost |
| ApprovalLog.CompactionIsIdempotent | crates/oc-core/src/approval_log.rs:134-166 | a second compaction at the same cutoff drops nothing and changes nothing |
| ApprovalLog.DroppedPlusKept | crates/oc-core/src/approval_log.rs:135-151 | lines kept and lines counted as removed are all but the blank ones |
| ApprovalLog.CompactionsAreInvisible | crates/oc-core/src/approval_log.rs:57-169 | over whole runs any compactions between appends leave replay as if there had been none |
| AtomicWrite.NeverTorn | crates/oc-core/src/paths.rs:97-156 | after any interleaving, exits of processes and crashes the target is the original or the whole content of a writer that reached rename |
| AtomicWrite.LandedWasRenamed | crates/oc-core/src/paths.rs:142 | what counts as landed was put there by a successful rename of a writer with that content |
| AtomicWrite.OnlyRenameChangesTarget | crates/oc-core/src/paths.rs:124-154 | no other step changes the target |
| AtomicWrite.HowCallsEnd | crates/oc-core/src/paths.rs:152-155 | an error means no rename; neither end leaves the temporary file unless cleanup failed |
| AtomicWrite.ConcurrentNamesDiffer | crates/oc-core/src/paths.rs:39-54 | temporary names of calls of running processes never collide, also when pids are given out again |
| AtomicWrite.Directory.WriteAtomic | crates/oc-core/src/paths.rs:97-156 | succeeds exactly when the directory can be made, every system call works and the temporary name is free; the target then holds the new content and is untouched otherwise; no other file changes; the execution is a run of the machine |
| Numerals.TmpNameInjective | crates/oc-core/src/paths.rs:45-54 | temporary names determine target, process, instant and counter |
| Numerals.TmpNameIsNeitherTargetNorLegacy | crates/oc-core/src/paths.rs:116-122 | removing the legacy leftover touches neither target nor temporary file |
| Frame.Reader.ReadFrame | crates/oc-keyagent/src/frame.rs:45-76 | reads a big-endian length of four bytes and that many bytes, at most 4,194,304, or fails with the right error; only the end of the stream is Eof |
| Frame.Writer.WriteFrame | crates/oc-keyagent/src/frame.rs:79-97 | writes one frame, refuses an oversized payload and writes nothing, or fails and leaves the beginning of the frame |
| Frame.EncodeMeans | crates/oc-keyagent/src/frame.rs:90-95 | a frame is its length, most significant byte first, and the payload |
| Frame.FailedWriteIsNoFrame | crates/oc-keyagent/src/frame.rs:79-97 | after a failed write the other end reads exactly the earlier frames |
| Frame.StreamRoundTrip | crates/oc-keyagent/src/frame.rs:45-97 | any list of payloads written and read until Eof comes back |
| Frame.Truncated | crates/oc-keyagent/src/frame.rs:45-76 | a truncated stream gives exactly the whole frames, a proper prefix, then Eof or Io by what is left |
| Frame.EncodeDecode | crates/oc-keyagent/src/frame.rs:63-75 | an accepted frame re-encodes to the bytes consumed |
| Frame.ReadAllIsFaithful | crates/oc-keyagent/src/frame.rs:45-97 | all frames read from any stream re-encode to a prefix of it |
| SecretName.FilenamesAreSafe | crates/oc-core/src/paths.rs:297-303 | encoding has a left inverse, is injective and never yields a slash |
| SecretName.EncodesEachCharacter | crates/oc-core/src/paths.rs:297-303 | the encoding character by character |
| SecretName.TwoPassesAreOne | crates/oc-core/src/paths.rs:301-303 | the two replacements equal a one-pass encoder |
| SecretName.Validate | crates/oc-core/src/paths.rs:243-295 | accepts exactly the valid names, and the reason for a refusal is true |
| SecretName.WholeNameChecksAreImplied | crates/oc-core/src/paths.rs:258-266 | the whole-name slash and dot checks follow from the segment checks |
| SecretName.LeadingSpaceIsValid | crates/oc-core/src/paths.rs:238 | a space before a valid name leaves it valid |
| SecretName.SpaceBeforeA | crates/oc-core/src/paths.rs:238 | for instance a space and the letter a |
| SecretName.SplitJoin | crates/oc-core/src/paths.rs:267 | splitting inverts joining and yields parts without the separator |
| SecretName.IsReserved | crates/oc-core/src/paths.rs:281-289 | the byte-wise device-name test |
| SecretName.ReservedMeans | crates/oc-core/src/paths.rs:279-289 | the reserved device names, in letters of either case and with any extension |
| SecretName.SmallLettersAreReserved | crates/oc-core/src/paths.rs:239-241 | for instance con and lpt9.txt |
| SecretName.ForbiddenCharacters | crates/oc-core/src/paths.rs:253-257 | no valid name holds one of the eleven characters |
| SecretName.SegmentsOfValid | crates/oc-core/src/paths.rs:267-280 | no segment is empty, starts with a dot, or ends with a dot or space |
| SecretName.LengthLimit | crates/oc-core/src/paths.rs:250-252 | a name of n letters is valid exactly for n from 1 to 1024 |
| SecretName.ByteLengthMeans | crates/oc-core/src/paths.rs:250-252 | the length is in UTF-8 bytes |
| SecretName.WhiteSpace | crates/oc-core/src/paths.rs:247-249 | the characters that leave a name blank |
| SecretName.ValidNamesAreListed | crates/oc-secret/src/path.rs:48-80 | valid names are stored under distinct, visible file names |

## Left out

- Cryptography and key derivation: foreign libraries; arbitrary functions here.
- Passkey verification, session keys, the CAIP-122 parser and its field checks, the signer and the vault: their answers, and the event a passkey refusal records, are inputs.
- Enclave process handling, `EnclaveRequest::validate`, sandboxing and memory hardening: an invalid request, a failed spawn, a timeout and bad output are one outcome of the child.
- JSON and prost encodings: an entry or event is a value, a line that does not parse a constructor of its own; a payload with a request id is text that starts with it.
- 64-bit overflow of audit numbers, approval cut-offs and string lengths.
- File permissions and syncing of the parent directory: a rename that went through survives a crash.
- AuditLog.AuditLog.Append: a line torn by a failed write is not modelled; it lands whole or not at all.
- ApprovalLog.ApprovalLog.AppendPending: the same.
- ApprovalLog.ApprovalLog.AppendResolved: the same.
- KeyCache.KeyCache.Get: one instant for the expiry check and the new access time, which the source reads one after the other; after the tick counter has wrapped the order of eviction is left open.
- KeyCache.KeyCache.Insert: one instant for the sweep and the access time; after a wrap it is left open which entry is evicted.
- KeyCache.KeyCache.Lookup: as Get.
- KeyCache.KeyCache.Store: as Insert.
- KeyCache.KeyCache.EvictExpired: reads the clock once, the source once per entry; every call of a run has one instant.
- KeyCache.KeyCache.DropExpired: the same.
- SignIn.HandleSignSiwx: the records of the enclave call inside the signer are those of `SigningHandlers`.
- Poisoned mutexes other than that of the Sign-In token.
- Load and save of the nonce store by two requests at once: requests are serialised.
- The order in which `replay_unresolved` returns its approvals: the model returns them by id.
- Command line, configuration, daemon lock, policy, chain tables, web UI and extension: plumbing.
