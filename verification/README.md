# XRPL Vault: a verified model of its protocols and algorithms

Vaulted keeps encrypted files on storage nodes, records who owns them as NFTs on the
XRP Ledger, and signs its own XRPL transactions. This project models the parts of it
whose correctness cannot be seen in one function, and proves what they promise.
`dafny verify dfyconfig.toml` checks everything.

| file | models |
|---|---|
| `StorageKeys`, `FragmentStore`, `FragmentOutcomes` | the storage node: concurrent PUT, GET and DELETE over one directory, with crashes; what is kept, and what is answered when |
| `ReplayCache` | the storage node's one-time write and delete tokens |
| `RateLimiter` | the oracle's fixed-window limiter and its background clean-up |
| `OwnerSync`, `SyncFairness` | the oracle's owner synchronisation, one cycle and over many cycles |
| `SubmitPoll` | submitting a signed transaction and waiting for its validation |
| `BlobRegistry` | the client's one-shot registry of approved transactions |
| `Scalar256`, `Derivation` | 256-bit arithmetic over byte arrays and BIP-32 key derivation |
| `SigningPolicy` | transaction builders, the intent validator and signing |
| `Decimal`, `Amounts`, `SendPayment` | typed XRP amounts and the payment command |
| `Fnv`, `Contour`, `Chains`, `Bezier`, `IsoLines` | the contour picture of an NFT: hash, marching squares, chaining, curves |
| `Prelude`, `Text` | shared types and the parts of Rust's `str` that are used |

Objects that the program updates in place are classes whose methods are specified by
functions of the old state; loops over buffers keep their arrays and loop invariants. The
storage node is a transition system instead, because its property is about requests that
interleave between any two file-system calls: each call is one step, a step may fail, and a
crash drops all requests, tears every file that is not yet synced and may lose any entry of
the directory, which is never synced.

## What the proofs found

- Storage node: uploads never tear as long as the clean-up of one upload does not remove
  the temporary file of another (which distinct temporary names exclude). If two uploads of
  one key get one temporary name and `create_new` fails for another reason than existence, a third upload
  can make the first publish a file that is still empty: `FragmentStore.CollidingTempsPublishATornFile`.
- Storage node: a PUT may answer success before its directory entry is durable, so a crash
  can lose an acknowledged fragment whole: `FragmentStore.CrashMayLoseAcknowledgedUpload`.
- Storage node: the replay cache lives in memory and its clock is read before its lock is
  taken. `ReplayCache.AcceptedIff` gives the exact condition for a second acceptance, and
  two lemmas give runs in which a token does pass twice: a restart, and two clock readings that reach the
  lock in the other order.
- Rate limiter: the bound over a sliding window is 2 * limit - 1, one less than twice the
  limit, and it is attained. Clean-up is invisible exactly as long as no check lags an earlier
  clean-up by more than a whole window; `RateLimiter.LongLagShows` gives a run for every
  longer lag.
- Owner synchronisation: an NFT that is burned or held by an unregistered wallet never gets
  a new time, so it keeps its place at the front of the queue. A row is served if and only
  if fewer such rows than a batch holds are older than it;
  `SyncFairness.BurnedTokenStarvesTransfer` shows one that waits for ever. The branch for a new owner who is
  not registered is never reached.
- Submission: the reply to the first submission ends the attempt on `tem` codes and on `tef`
  codes other than tefPAST_SEQ; the reply to a retry does so on `tem` codes only, and any
  other `tef` code is polled for. The model keeps the difference.
- Payment command: after preparation the signing policy refuses exactly two things, both
  supplied by the node and not checked before: a zero sequence, and a fee text that is not
  digits spelling 1 to 100000 drops. The command's own parser even takes a leading plus sign
  (`SendPayment.PreparedThenRefused`).
- Contour: the builder's minimum of more than four points is exactly the length from which
  a path is drawn, so the test for an empty path never skips a chain.

## Model

| member | source | states |
|---|---|---|
| StorageKeys.ValidatorAcceptsExactlyValidKeys | crates/storage-node/src/main.rs:427-461 | the chain of key checks accepts exactly the non-empty strings of at most 255 allowed ASCII characters that do not start with a dot and hold no two dots in a row |
| StorageKeys.TempNamesAreNotKeys | crates/storage-node/src/main.rs:427-461 | no temporary upload name is an acceptable key, whatever its stamp |
| FragmentStore.InvStep | crates/storage-node/src/main.rs:564-775 | every step of every request, every fault and every crash keeps the invariant that ties request, temporary file and durable inode |
| FragmentStore.KeyStep | crates/storage-node/src/main.rs:595-775 | one step leaves a valid key's file alone unless it is the removal of a DELETE or a crash that loses the entry, and makes a new one only by publishing the whole body of a PUT |
| FragmentStore.FragmentsAreWholeUploads | crates/storage-node/src/main.rs:595-741 | in every interleaving with crashes, the bytes under a valid key are an initial file or the complete body of one PUT to that key |
| FragmentStore.FragmentStaysUntilDelete | crates/storage-node/src/main.rs:686-775 | between its appearance and its next DELETE, or a crash that loses its directory entry, the bytes of a fragment never change |
| FragmentStore.PutSuccessWasStored | crates/storage-node/src/main.rs:595-741 | a PUT that answers success has an instant while it was served at which its key held exactly its body |
| FragmentStore.GetSuccessIsWhole | crates/storage-node/src/main.rs:564-592 | a successful GET returns bytes that lay whole under its key while it was served and are one PUT's body or the initial file |
| FragmentStore.DeleteSuccessRemoved | crates/storage-node/src/main.rs:744-775 | a DELETE that answers success took its key's file away by a step of its own |
| FragmentStore.DeletesConfirmRemovals | crates/storage-node/src/main.rs:744-775 | the successes answered to DELETEs of a key, with those still to be answered, never outnumber the removals of its file |
| FragmentStore.FilesAreConserved | crates/storage-node/src/main.rs:595-775 | every file that was ever under a key is still there, was removed by one DELETE or was lost in one crash |
| FragmentStore.GetAfterPutReturnsItsBody | crates/storage-node/src/main.rs:564-741 | after a successful PUT every later successful GET of the key returns that body, across crashes, until a DELETE removes the file or a crash loses its directory entry, which the node never syncs |
| FragmentStore.CrashMayLoseAcknowledgedUpload | crates/storage-node/src/main.rs:686-741 | any run in which a PUT has answered success can be continued by a crash that loses its file |
| FragmentStore.IndexSizesWereReal | crates/storage-node/src/main.rs:370-398 | a size in the index is the size of a file that did lie under that key at some instant |
| FragmentStore.DistinctTempsExcludeForeignCleanup | crates/storage-node/src/main.rs:686-741 | with distinct temporary names in flight no clean-up can hit another upload's file |
| FragmentStore.CollidingTempsPublishATornFile | crates/storage-node/src/main.rs:686-741 | a concrete run with one shared temporary name ends with an empty file under a key whose uploads all had a body |
| FragmentStore.CollidingRunIsOrdinary | crates/storage-node/src/main.rs:595-741 | that run starts from an empty node, with a valid key and one-byte bodies |
| FragmentOutcomes.GetReturnsHeldFile | crates/storage-node/src/main.rs:520-592 | a GET, none of whose own calls fails, of a key that holds a file which no DELETE takes away meanwhile is answered with exactly this file, whatever else runs |
| FragmentOutcomes.MissingFileIsNotFound | crates/storage-node/src/main.rs:520-592 | a GET or DELETE of a key without a file throughout its service ends in NotFound |
| FragmentOutcomes.InvalidKeyIsBadRequest | crates/storage-node/src/main.rs:501-508 | any request with an invalid key ends in BadRequest |
| FragmentOutcomes.DeleteOfHeldFileSucceeds | crates/storage-node/src/main.rs:744-775 | an unfailing DELETE of a file that no other DELETE takes ends in success |
| FragmentOutcomes.PutToHeldKeyCompares | crates/storage-node/src/main.rs:625-650 | an unfailing PUT to a key that holds a file throughout succeeds if its body is this file and is a conflict otherwise |
| FragmentOutcomes.PutStoresOrConflicts | crates/storage-node/src/main.rs:595-741 | an unfailing PUT with a temporary name of its own, whose key no DELETE empties, ends in success or in a conflict with a file that is there |
| FragmentOutcomes.PutToFreeKeySucceeds | crates/storage-node/src/main.rs:595-741 | such a PUT to a key that is free and that no other upload fills ends in success |
| FragmentOutcomes.NeverStuck | crates/storage-node/src/main.rs:564-775 | a request that is not answered always has a next step without a failing call |
| FragmentOutcomes.OwnStepWorks | crates/storage-node/src/main.rs:564-775 | every step of a request, failing or not, lowers a bound on the steps it still needs |
| FragmentOutcomes.FinishesAlone | crates/storage-node/src/main.rs:564-775 | any run with distinct temporary names goes on, by unfailing steps of one request alone, to its answer |
| FragmentOutcomes.IndexFollowsAnswers | crates/storage-node/src/main.rs:655-670 | a step changes the index only to record the body length of an answered upload or to forget the key of an answered DELETE |
| FragmentOutcomes.RestartIndexesDirectory | crates/storage-node/src/main.rs:370-398 | after a restart the index holds exactly the files of the directory with their lengths |
| ReplayCache.TokenVerifier.VerifyTokenForOperation | crates/storage-node/src/main.rs:937-1017 | success implies that the token is unexpired and made for this key, node, operation and fragment; for reads this is an equivalence and leaves the cache alone |
| ReplayCache.VerdictNamesClaim | crates/storage-node/src/main.rs:937-1055 | which answer each failing claim gets, in order, and that a token with every claim is refused only for its id |
| ReplayCache.TokenVerifier.ConsumeTokenId | crates/storage-node/src/main.rs:1028-1055 | prunes expired ids, refuses a recorded one and records a new one |
| ReplayCache.CacheIsHistory | crates/storage-node/src/main.rs:1028-1055 | the cache holds exactly the accepted uses that no later event has pruned |
| ReplayCache.AcceptedIff | crates/storage-node/src/main.rs:937-1055 | a token that passes the other checks is accepted if and only if every earlier use of its id was forgotten by a restart or by an event that found it expired |
| ReplayCache.ReplayNeedsRestartOrClockStep | crates/storage-node/src/main.rs:1028-1055 | between two acceptances of one token lies a restart, or an event whose clock is past the expiry |
| ReplayCache.TokenAcceptedAtMostOnce | crates/storage-node/src/main.rs:937-1055 | with a clock that does not step back in lock order and no restart a token is accepted at most once, although every call prunes |
| ReplayCache.CacheHoldsOnlyUnexpired | crates/storage-node/src/main.rs:1028-1055 | after an event that reaches the cache every recorded id is unexpired |
| ReplayCache.RestartForgetsTokens | crates/storage-node/src/main.rs:1028-1055 | a token accepted before a restart is accepted again after it while unexpired |
| ReplayCache.ClockStepReplaysToken | crates/storage-node/src/main.rs:937-1055 | one request with a later clock reading that takes the lock first lets another's token pass twice |
| RateLimiter.Limiter.Check | crates/oracle/src/middleware.rs:54-78 | the answer and the new entry of the key; all other entries stay, and the remaining count never underflows |
| RateLimiter.Limiter.Cleanup | crates/oracle/src/middleware.rs:81-85 | keeps exactly the entries of the last two windows |
| RateLimiter.CleanedMapSimulatesFullMap | crates/oracle/src/middleware.rs:54-85 | along any run the cleaned map and the uncleaned one are bisimilar for every later check |
| RateLimiter.CleanupIsInvisible | crates/oracle/src/middleware.rs:54-85 | every check gets the answer it would get had no clean-up ever run, if none lags an earlier clean-up by more than a window |
| RateLimiter.CleanupIsInvisibleIff | crates/oracle/src/middleware.rs:54-85 | clean-ups are invisible in all runs with a given lag if and only if the lag is at most one window |
| RateLimiter.LongLagShows | crates/oracle/src/middleware.rs:54-85 | for every longer lag, a run of three calls whose last answer differs |
| RateLimiter.WindowTakesAtMostLimit | crates/oracle/src/middleware.rs:54-78 | a request that passes lies in the window from the start its entry records; this window lasts its whole length, takes at most `limit` requests of the key over the entire run, and `remaining` is exactly what it will still take |
| RateLimiter.WindowsDoNotOverlap | crates/oracle/src/middleware.rs:61-66 | two requests of a key that pass share a window, or the later window starts no sooner than the earlier one ends |
| RateLimiter.RefusedOnlyWhenFull | crates/oracle/src/middleware.rs:61-75 | a check is refused only when its window has already taken the whole limit |
| RateLimiter.ResetIsSecondsLeft | crates/oracle/src/middleware.rs:67-71 | every check is told the whole seconds left of its window |
| RateLimiter.CleanUpKeepsTwoWindows | crates/oracle/src/middleware.rs:81-85 | clean-up keeps exactly the entries whose window began less than two windows ago |
| RateLimiter.SlidingIntervalTakesLessThanTwiceLimit | crates/oracle/src/middleware.rs:54-85 | a key passes at most 2 * limit - 1 times (0 for limit 0) in any half-open interval as long as the window, however checks and clean-ups interleave |
| RateLimiter.SlidingBoundIsAttained | crates/oracle/src/middleware.rs:54-78 | for every positive limit a run reaches that bound |
| SubmitPoll.SubmitAndWaitValidation | crates/oracle/src/xrpl.rs:188-394 | for every sequence of RPC outcomes the calls made and the answer are among those of `Outcomes` |
| SubmitPoll.ResubmitUnacceptedBlob | crates/oracle/src/xrpl.rs:244-317 | the retries after a submission and a lookup that both failed, with the last lookup |
| SubmitPoll.PollForValidation | crates/oracle/src/xrpl.rs:352-394 | polls until the first validated lookup, at most 30 times |
| SubmitPoll.OutcomesAreDetermined | crates/oracle/src/xrpl.rs:188-394 | one sequence of outcomes leaves one possible course of calls and one answer |
| SubmitPoll.AtMost34Calls | crates/oracle/src/xrpl.rs:188-394 | at most 34 calls, of which at most three send the blob |
| SubmitPoll.NoCallAfterValidation | crates/oracle/src/xrpl.rs:188-394 | no call follows the first lookup that reports the transaction validated |
| SubmitPoll.OkIffValidatedSuccess | crates/oracle/src/xrpl.rs:188-394 | the answer is Ok if and only if a lookup reports validation with tesSUCCESS |
| SubmitPoll.ResubmitsOnlyAfterFailures | crates/oracle/src/xrpl.rs:188-394 | the blob is sent again only while every earlier call failed |
| SubmitPoll.TimeoutIff | crates/oracle/src/xrpl.rs:188-394 | exactly when the attempt ends in a timeout |
| SubmitPoll.SubmitFailedIff | crates/oracle/src/xrpl.rs:188-317 | exactly when the attempt ends without any reply to a submission |
| SubmitPoll.TransactionFailedIff | crates/oracle/src/xrpl.rs:188-394 | exactly which failure code is reported, from a rejecting reply or a validated lookup |
| SubmitPoll.RejectsIff | crates/oracle/src/xrpl.rs:334-346 | which engine results end an attempt at once, letter by letter |
| BlobRegistry.AppState.RegisterSignedXrplTxBlob | crates/desktop-client/src/state.rs:600-635 | records the approval and drops spent and expired ones |
| BlobRegistry.AppState.ConsumeSignedXrplTxBlob | crates/desktop-client/src/state.rs:637-672 | spends an unspent, unexpired approval of the current wallet, or says why not |
| BlobRegistry.AppState.ClearSession | crates/desktop-client/src/state.rs:484-496 | forgets the wallet and every approval |
| BlobRegistry.RegistrationAnswers | crates/desktop-client/src/state.rs:600-635 | when a registration is accepted, what it records and which other approvals it drops |
| BlobRegistry.ConsumptionAnswers | crates/desktop-client/src/state.rs:637-672 | which failing check names which error, and that a success changes one flag of one record |
| BlobRegistry.RegistryFollowsHistory | crates/desktop-client/src/state.rs:484-672 | what the registry holds for a blob, told by the history of calls alone |
| BlobRegistry.ConsumeSpendsLatest | crates/desktop-client/src/state.rs:637-672 | whatever the clock does, a success spends the latest registration since the last clear: unspent, unexpired, for this wallet |
| BlobRegistry.ConsumeSucceedsIff | crates/desktop-client/src/state.rs:600-672 | with a clock that does not step back it succeeds exactly then, in spite of the pruning |
| BlobRegistry.RegistrationBetweenConsumes | crates/desktop-client/src/state.rs:600-672 | between two successful consumes of a blob lies a successful registration of it |
| BlobRegistry.ConsumesNeverExceedRegistrations | crates/desktop-client/src/state.rs:600-672 | a blob is consumed at most as often as it was registered |
| OwnerSync.XrplSyncService.FindNftOwnerOnXrpl | crates/oracle/src/sync.rs:239-252 | the first known wallet that holds the token, or none of them does |
| OwnerSync.XrplSyncService.SyncSingleNft | crates/oracle/src/sync.rs:138-236 | the outcome and the new tables are those of `Synced`, with failed calls anywhere |
| OwnerSync.XrplSyncService.SyncCycle | crates/oracle/src/sync.rs:72-125 | an oldest batch is processed, the five outcome counters sum to the total, rows outside the batch do not move; without errors the counters are the numbers of stale, current and unheld rows of the batch, and every update is logged |
| OwnerSync.OutcomeTellsFate | crates/oracle/src/sync.rs:138-236 | an outcome says whether the ledger's owner is another user, the same or nobody known |
| OwnerSync.SyncedRowFollowsLedger | crates/oracle/src/sync.rs:138-236 | after an error-free synchronisation the owner is the ledger's if that one is registered and unchanged otherwise; no key, token or other row changes; no new owner is ever found unregistered |
| SyncFairness.EveryRowServedWithinOneRound | crates/oracle/src/sync.rs:72-125 | if every selected row gets a fresh time, each of N active rows is selected within m cycles for any m with m * batch >= N |
| SyncFairness.ServedIffFewStuckAhead | crates/oracle/src/sync.rs:72-125 | with rows that never get one, a row is ever served if and only if fewer stuck rows than a batch holds are older |
| SyncFairness.StarvedAt | crates/oracle/src/sync.rs:72-125 | a batch's worth of older stuck rows starves a row for ever |
| SyncFairness.ErrorFreeCyclesLeaveUnregisteredStuck | crates/oracle/src/sync.rs:93-236 | in error-free cycles the stuck rows are exactly those whose token no registered wallet holds |
| SyncFairness.OwnersConverge | crates/oracle/src/sync.rs:72-236 | with fixed users and ledger and error-free cycles, an active row with fewer older stuck rows than a batch holds has its ledger owner after as many cycles as there are active rows, and from then on |
| SyncFairness.StaleOwnerCorrectedIff | crates/oracle/src/sync.rs:72-236 | a stale owner is corrected if and only if fewer such rows than a batch holds are older |
| SyncFairness.BurnedTokenStarvesTransfer | crates/oracle/src/sync.rs:72-236 | a table of two rows where, with batches of one, a burned token keeps a transferred one from ever being selected |
| Scalar256.BytesGe | crates/crypto-core/src/xrpl_wallet.rs:1018-1028 | byte-wise comparison is numeric order |
| Scalar256.Add256 | crates/crypto-core/src/xrpl_wallet.rs:975-984 | value of the sum plus carry times 2^256 is the sum of the values |
| Scalar256.Sub256 | crates/crypto-core/src/xrpl_wallet.rs:986-1000 | subtraction modulo 2^256 |
| Scalar256.IsZero256 | crates/crypto-core/src/xrpl_wallet.rs:1014-1016 | true exactly when the bytes denote zero |
| Scalar256.OrderBytesDenoteN | crates/crypto-core/src/xrpl_wallet.rs:32-35 | the 32 bytes are the order n of secp256k1 (section 2.4.1 of SEC 2) |
| Scalar256.AddSecp256k1ScalarsModOrder | crates/crypto-core/src/xrpl_wallet.rs:947-973 | succeeds exactly when left < n, 0 < right < n and the sum is not 0 modulo n, and then denotes the sum modulo n |
| Derivation.DeriveBip32PrivateChild | crates/crypto-core/src/xrpl_wallet.rs:904-939 | refines CKDpriv of BIP-32, hardened and normal, for any HMAC |
| Derivation.CkdDataIsBip32 | crates/crypto-core/src/xrpl_wallet.rs:909-920 | what is hashed for hardened and normal indices, byte by byte |
| Derivation.CkdPrivIsBip32 | crates/crypto-core/src/xrpl_wallet.rs:922-939 | the left half of the hash is added to the key modulo n, the right half is the chain code, and the two refusals |
| Derivation.DerivationConstants | crates/crypto-core/src/xrpl_wallet.rs:23-31 | the master key text and the path in numbers |
| Derivation.DerivePrivateKey | crates/crypto-core/src/xrpl_wallet.rs:874-902 | for any path the loop is the fold of CKDpriv over it |
| Derivation.DeriveXrpBip44PrivateKey | crates/crypto-core/src/xrpl_wallet.rs:874-902 | its instance at m/44'/144'/0'/0/0 |
| Derivation.DescendantsAreValidKeys | crates/crypto-core/src/xrpl_wallet.rs:874-939 | every key on the way lies in 1..n-1 |
| Derivation.DerivedKeyIsRootPlusTweaks | crates/crypto-core/src/xrpl_wallet.rs:874-939 | the last key is the master key plus all tweaks modulo n |
| SigningPolicy.ValidatorAcceptsExactlyBuilderImage | crates/crypto-core/src/xrpl_wallet.rs:288-424 | a transaction passes for an intent and wallet if and only if it is the built transaction with signing fields: fee of 1 to 100000 drops, non-zero sequence and last ledger, intent in policy |
| SigningPolicy.PolicyAccepts | crates/crypto-core/src/xrpl_wallet.rs:395-682 | what the common checks and the policy of each intent accept, member by member |
| SigningPolicy.CommonAccepts | crates/crypto-core/src/xrpl_wallet.rs:493-526 | the common checks accept exactly the account, fee, sequence and last ledger in range |
| SigningPolicy.ExactFieldsAccepts | crates/crypto-core/src/xrpl_wallet.rs:708-731 | the two loops over names accept exactly the objects with all required and no other members |
| SigningPolicy.ForbiddenMemberRefusesFirst | crates/crypto-core/src/xrpl_wallet.rs:733-770 | any known name the builders do not use refuses the transaction as forbidden before anything else |
| SigningPolicy.MatchingIsUnique | crates/crypto-core/src/xrpl_wallet.rs:395-731 | two transactions accepted for one intent with the same signing fields are equal |
| SigningPolicy.OneTransactionOneIntent | crates/crypto-core/src/xrpl_wallet.rs:395-731 | an accepted transaction determines the intent and the wallet |
| SigningPolicy.HexUpperSpellsBytes | crates/crypto-core/src/xrpl_wallet.rs:298 | the URI text spells each metadata byte with two upper-case digits, the high one first |
| SigningPolicy.HexUpperIsInjective | crates/crypto-core/src/xrpl_wallet.rs:298 | the URI member determines the metadata bytes |
| SigningPolicy.FinalGuardAlwaysPasses | crates/crypto-core/src/xrpl_wallet.rs:466-491 | the last guard before serialising never refuses what the policy accepted |
| SigningPolicy.GuardAcceptsIff | crates/crypto-core/src/xrpl_wallet.rs:466-491 | the guard passes exactly the five known types with their members present in kind |
| SigningPolicy.SigningAddsKeyAndSignatureOnly | crates/crypto-core/src/xrpl_wallet.rs:182-217 | signing succeeds exactly when the policy accepts, signs all members with the key, adds only key and signature, and its result is never accepted for signing again |
| Text.EqIgnoreAsciiCaseIff | crates/desktop-client/src/state.rs:662-668 | comparison ignoring ASCII case holds exactly letter by letter |
| Text.TrimIsBetweenBlanks | crates/desktop-client/src/commands.rs:5677 | trimming takes all blanks off both ends and nothing else |
| Decimal.ToDecimal | crates/desktop-client/src/commands.rs:6013-6018 | printed drops are digits that spell the same number |
| Amounts.ParserReadsExactlyDecimals | crates/desktop-client/src/commands.rs:5676-5740 | parsing succeeds exactly on trimmed digits with an optional point and at most six decimals whose millionfold lies in 1..2^64-1, and returns that millionfold |
| Amounts.DecimalRefusals | crates/desktop-client/src/commands.rs:5712-5739 | which refusal a well-written amount gets: too many decimals, nothing to pay, or too large |
| Amounts.TagIsReadExactly | crates/desktop-client/src/commands.rs:5742-5757 | a destination tag is read exactly when the trimmed text is digits that fit 32 bits, and absent exactly when blank or missing |
| Amounts.ValidateSpendableBalance | crates/desktop-client/src/commands.rs:5759-5777 | passes if and only if the balance is at least reserve plus fee plus amount, with no overflow |
| SendPayment.DropsRoundTrip | crates/crypto-core/src/xrpl_wallet.rs:772-781 | reading printed drops gives the drops back |
| SendPayment.PreparedAmountIsExact | crates/desktop-client/src/commands.rs:5936-6030 | the Amount member of a prepared payment, read by the signer, is exactly the millionfold of the typed number, and the balance covers it with reserve and fee |
| SendPayment.PreparedPaysTheRequest | crates/desktop-client/src/commands.rs:5950-6030 | a prepared payment goes from this wallet to the checked, trimmed destination with exactly the typed tag |
| SendPayment.PreparedIff | crates/desktop-client/src/commands.rs:5936-6030 | a payment is prepared if and only if the destination is an address, amount and tag are readable and the balance covers reserve, fee and amount |
| SendPayment.PreparedSigningFields | crates/desktop-client/src/commands.rs:6012-6024 | a prepared payment carries the node's fee and sequence and a last ledger twenty past the current one, or the largest there is |
| SendPayment.PreparationRefusals | crates/desktop-client/src/commands.rs:5950-5999 | which refusal a request gets, in the order of the checks |
| SendPayment.PreparedIsSignableIff | crates/desktop-client/src/commands.rs:6000-6030 | a prepared payment passes the signing policy if and only if the node's fee text is digits spelling 1 to 100000 and its sequence is not zero |
| SendPayment.PreparedThenRefused | crates/desktop-client/src/commands.rs:5936-6030 | one XRP from a wallet of twenty is prepared and then refused for the fee text "+12", and for the sequence zero |
| Fnv.FnvHash | crates/crypto-core/src/nft_image.rs:34-41 | the loop is the fold of xor-then-multiply over the bytes, modulo 2^32 |
| Fnv.HashIsFnv1a | crates/crypto-core/src/nft_image.rs:35-39 | the published offset basis, and xor before multiplying |
| Fnv.PrimeIsFnv | crates/crypto-core/src/nft_image.rs:38 | the published prime |
| Fnv.AbsorbIsABijection | crates/crypto-core/src/nft_image.rs:36-39 | for a fixed byte one round is a bijection on the 32-bit states |
| Fnv.AbsorbIsInjectiveInTheByte | crates/crypto-core/src/nft_image.rs:36-39 | for a fixed state one round tells any two bytes apart |
| Fnv.OneByteApartMeansDifferentHash | crates/crypto-core/src/nft_image.rs:34-41 | strings of equal length that differ in exactly one byte have different hashes |
| Contour.MarchCell | crates/crypto-core/src/nft_image.rs:103-162 | one cell draws the links of its configuration between the crossing points of its sides, each point the same from both neighbouring cells |
| Contour.MarchSquares | crates/crypto-core/src/nft_image.rs:99-165 | the loops draw the links of all cells in order; both ends of every segment lie on crossed sides of one cell, where the linear interpolant of the samples meets the threshold; twice the segments is twice the interior crossings plus the border crossings |
| Contour.LinksJoinCrossedSides | crates/crypto-core/src/nft_image.rs:144-160 | the table of configurations links exactly the sides whose corners the threshold separates, each once |
| Contour.SaddleLinksGoRoundHighCorners | crates/crypto-core/src/nft_image.rs:148-158 | in a saddle each link joins the two sides that meet in a corner above the threshold |
| Contour.EdgeDegrees | crates/crypto-core/src/nft_image.rs:99-165 | a crossed interior edge is an end of exactly two segments, a crossed border edge of one, any other edge of none |
| Contour.CrossingCount | crates/crypto-core/src/nft_image.rs:99-165 | the counting identity, hence an even number of border crossings |
| Contour.CrossingPointIsOnItsEdge | crates/crypto-core/src/nft_image.rs:127-142 | the interpolated point lies on its edge, also in the midpoint branch |
| Contour.CrossingMeetsThreshold | crates/crypto-core/src/nft_image.rs:127-142 | the point divides its edge so that the linear interpolant equals the threshold there; samples less than 10^-6 apart give the middle |
| Contour.SegmentsStayInTheirCells | crates/crypto-core/src/nft_image.rs:99-165 | every drawn segment joins points on two different crossed sides of one cell, each where its samples put it |
| Chains.Extend | crates/crypto-core/src/nft_image.rs:199-221 | one segment is attached exactly when an end of it is near the head or tail, tail first |
| Chains.TailIsServedFirst | crates/crypto-core/src/nft_image.rs:205-221 | at which end a segment is attached and by which of its ends |
| Chains.NearIff | crates/crypto-core/src/nft_image.rs:187 | near means less than a hundredth apart on each axis |
| Chains.ScaledByThree | crates/crypto-core/src/nft_image.rs:170-181 | the points chained are three times as far out as those marched |
| Chains.KeptIsFilter | crates/crypto-core/src/nft_image.rs:225-227 | every chain of more than four points is kept as often as it was made, and no other |
| Chains.Pass | crates/crypto-core/src/nft_image.rs:197-222 | one pass keeps the chain a walk; if it attaches nothing, nothing unused fits |
| Chains.Grow | crates/crypto-core/src/nft_image.rs:191-223 | passes are repeated until nothing fits, which ends since every other pass uses up a segment |
| Chains.ChainSegments | crates/crypto-core/src/nft_image.rs:169-230 | every segment is a step of exactly one chain, m segments make m + 1 points, every step follows its segment up to the tolerance, finished chains are maximal, chains of more than four points are kept |
| Bezier.SamplePoints | crates/crypto-core/src/nft_image.rs:235-242 | the loop keeps the first point, every third before the last, and the last |
| Bezier.ToBezierPath | crates/crypto-core/src/nft_image.rs:234-271 | the loop draws the curves of `PathOf` |
| Bezier.DrawnIffKept | crates/crypto-core/src/nft_image.rs:225-246 | a path is drawn exactly for more than four points |
| Bezier.KeptChainsAreTheDrawnOnes | crates/crypto-core/src/nft_image.rs:225-246 | no kept chain has an empty path, and every chain with a path is kept |
| Bezier.PathFollowsPolyline | crates/crypto-core/src/nft_image.rs:234-271 | the path starts and ends with the polyline and every curve ends on a point of it |
| Bezier.PathIsSmooth | crates/crypto-core/src/nft_image.rs:250-269 | at every joint the control points lie symmetrically about it, a fifth of the way between the neighbouring joints; at the ends the path points to the neighbouring joint |
| IsoLines.ChainEndsOnlyWhereSegmentsRunOut | crates/crypto-core/src/nft_image.rs:99-230 | where a chain ends on a crossing, every segment meeting that edge belongs to it or to an earlier chain |
| IsoLines.DrawIsoLine | crates/crypto-core/src/nft_image.rs:315-333 | one contour level from grid to paths; the test for an empty path never skips a chain |

## Left out

- Cryptography (HMAC, SHA, ECDSA, Ed25519, AES, Umbral, base58): parameters or opaque
  functions; a private key is accepted when it lies in 1..n-1.
- The XRPL binary codec: serialising and hashing a transaction are one function of its
  members, so their failures are not modelled.
- HTTP, WebSocket, Tauri, SQL text, configuration and logging. Tables are maps, and clock
  readings, RPC outcomes and failing calls are arbitrary inputs.
- Storage node: token signature, base64 and JSON decoding (the model starts from a decoded
  token), fragment size and hash checks, symlinks, permissions and path canonicalisation. The directory is flat.
- Storage node: a crash may lose directory entries but never brings back one that a DELETE
  or a clean-up had removed.
- Storage node: equality of index and disk, which the code does not keep: a failed unlink or link leaves a
  temporary file or an unindexed fragment behind, and so does a link that finds its name taken.
- Storage handlers are steps of a transition system, not methods: update in place of the
  two shared maps is captured by the steps, lock acquisition order is not.
- `FragmentStore.FragmentsAreWholeUploads` and the theorems after it hold for runs without a
  foreign clean-up; the colliding run shows that they fail without this condition.
- RateLimiter: client address extraction and the proxy list.
- OwnerSync: each call to a ledger node is one call, its internal retries are not visible;
  database times strictly increase from one statement to the next.
- SubmitPoll: the delays between calls, and the texts of errors. The one function of the
  source is three methods here.
- BlobRegistry: the fields of a session other than wallet and registry; consuming reads
  wallet and registry as one step; registering prunes with a single clock reading.
- SigningPolicy: member names are an enumeration with a constructor for every other name;
  which of several forbidden or unexpected names an error reports is not modelled. The QR request validator is left out.
- `drops_to_xrp_string`, which goes through a floating-point number.
- Contour, Chains, Bezier: floating-point rounding (`real` is used) and the one-decimal
  formatting of coordinates. The noise field, the generator of pseudo-random numbers and the SVG text are left out.
- Disabled external-wallet shims, escrow builders and data-transfer types.
