# Verified model of the wallet's limiters, relay guard, approval queue and receipt guards

This project models the small concurrent protocols of the wallet's API routes, browser extension and
app, and proves what they keep over every run. A protocol is a state machine: a `Step` datatype, an
`Apply` function that performs one step, and `Exec`, which runs any list of steps. Theorems about
`Exec(steps)` therefore hold for every interleaving of any number of calls, every clock reading and
every failure the steps allow. Code that works on a table, a map or a loop variable is also given as
a class or a method with a loop, proved against the functions the state machines use.

| file | what it models |
|---|---|
| `Basics.dfy`, `Windows.dfy`, `Decimal.dfy` | sums, safe integers, aligned windows, Retry-After, decimal text |
| `SpendLedger.dfy`, `SpendStore.dfy`, `SpendRuns.dfy` | the faucet's daily caps: two SQL statements interleaved by any number of calls; the two reservation routines; and what a call gets on its own, from any reached state |
| `CounterTable.dfy`, `LandingOrder.dfy` | the durable rate counters, their two validators, and the sponsor backstop; and what any interval of one window's length lets through when statements land out of clock order |
| `MemoryLimiter.dfy`, `LimiterSpans.dfy` | the in-memory limiter and its prune on overflow, and how many requests it lets through |
| `RelayGuard.dfy`, `RelayStory.dfy` | `feeBumpAndSubmit` as threads over the replay map, and the HTTP answers; what each call comes to, told from the replies it has heard |
| `ApprovalQueue.dfy` | the extension's approval queue and the settlers that race over it |
| `ConsentFlow.dfy`, `ConsentLaws.dfy`, `TornRun.dfy` | silent address replies, consents, the legacy migration, as threads over storage, one key read or written per step; what requests and ceremonies come to undisturbed; and a run that tears the reads |
| `CanonicalJson.dfy`, `RecoveryAuthority.dfy` | canonical receipt comparison, and the projection above the claimed version |
| `RecoveryRunner.dfy` | the recovery runner under wallet switches |
| `MoneyFetch.dfy` | the guarded money refresh |
| `LedgerScan.dfy` | the windowed event scan |
| `SignerWeight.dfy` | envelope signatures against a signer set |
| `CapabilityCookie.dfy` | the Cookie header parser and the Set-Cookie validator |
| `TokenBudgets.dfy` | per-token sums, headroom and reviewed budgets |

## Assumptions

- One SQL statement is one atomic step; it may return, throw without effect, or throw after taking effect.
- JavaScript runs to completion between awaits, so a map read and the write after it with no await between are one step.
- Clock readings are arbitrary non-negative integers unless a lemma asks for more; integers are unbounded and `Number.isSafeInteger` is written out.
- `assertCurrentActiveAccount` throws unless the captured account is the current one.
- Every request id is fresh, so a request is named by its place in the run.
- The two wallet keys are read in either order, and the selection after both; nothing makes the three reads one snapshot.
- A clock is read before the statement it is for lands, so statements may land in another order than their readings.
- Every rate-limit bucket is used with one policy, and the sponsor bucket with its own key and policy.
- Callbacks given to the recovery runner neither throw nor switch accounts themselves.
- Key validity, signature hints and signature verification are unconstrained functions.
- `projectReceipt` is an arbitrary function.

## Where the code and its comments differ

- `faucet.js:174` says that a denied `reserveDaily` records nothing. On an expired global window it resets that window. `SpendStore.MemoryStore.ReserveDaily` states exactly when a denied call leaves the state as it was, and `SpendStore.DeniedCallResetsTheWindow` is a denied call that does not.
- `faucet.js:90-94` computes its delay from the caller's clock. `Windows.FaucetDelayWorksIffNoRollback` shows that waiting it out leaves the denying row's window exactly when that row belongs to the caller's own day, and `SpendLedger.RollbackOutlastsTheDelay` is a run where it does not.
- `stellar-relay.js:229` says that within one isolate a retry never broadcasts again. It does exactly when it meets the prune's guard, a full map and an entry past its time to live: `RelayGuard.ReopensExactlyWhenExpired` and `RelayGuard.SecondBroadcastExactlyWhenExpired` for every run, and `RelayGuard.FinishedEntryCanExpire` for one. A retry within the time to live of the entry's last write never submits.
- `_guard.js:154-158` prunes on overflow. That shows under some policy and limit exactly when some clock reading lies strictly above both an earlier and a later one (`MemoryLimiter.NeverShowsIffNoPeak`), and at the limit of 5000 exactly when the middle one of three readings is such a peak (`MemoryLimiter.PruningShowsExactlyAtPeaks`).
- `background.js:90-100` resolves the active account with three reads. When the wallets change between them it can resolve an account that is active at no moment: `TornRun.TornRunRevealsInactiveAccount`. `ConsentFlow.CeremonyIsActiveExactly` gives the exact condition at the instant of the last read, and `ConsentFlow.Untorn` what makes it hold in a whole run.
- `app.jsx:3301` and its like write back the token after a revision read before an await. When refreshes commit in between, the next refresh repeats a committed token: `MoneyFetch.LateWriteRepeatsAToken`, a run in which no two reads overlap, so the abort of an older read changes nothing. `MoneyFetch.WriteKeepsOrderExactly` says which revisions an action may write.
- `stellar-relay.js:791-795` bounds sponsored submits across a day boundary by about twice the budget. The clock is read before the upsert lands, so that bound holds exactly when statements land at most one millisecond out of order (`LandingOrder.TwiceMaxExactly`), or in window order; `LandingOrder.SponsoredOutOfOrder` has 2999 submits in 24 hours with two. One less than three times the budget always holds within one window of disorder (`LandingOrder.AllowedOutOfOrder`).
- `background.js:356-367` rejects on a closed window. A window closed before its creation resolves settles nothing, and the chain waits on it: `ApprovalQueue.EarlyCloseIsLost`. `ApprovalQueue.CloseSettlesExactly` says when a close settles.
- The scan reports its start as its end when the start lies beyond the requested end; then nothing was scanned (`LedgerScan.ScanIsHonest`). The latest ledger it reads from each reply (`agent-index.js:322`) is never reported.

## Model

| member | source | states |
|---|---|---|
| Windows.Align | frontend/api/durableRateLimit.js:185 | the aligned window start is the multiple of the width at or below the time, less than one width away |
| Windows.AlignUnique | frontend/api/durableRateLimit.js:185 | no other multiple of the width has the time in its window |
| Windows.NewerWindow | frontend/api/durableRateLimit.js:87-91 | a time falls in a strictly newer window than the row's exactly when it reaches the end of the row's window |
| Windows.RetryAfterIsLeastDelay | frontend/api/durableRateLimit.js:207-213 | waiting s seconds leaves the row's window if and only if s is at least the Retry-After sent: sufficient and tight |
| Windows.FaucetDelayWorksIffNoRollback | frontend/api/faucet.js:90-94 | the faucet's delay leaves the denying row's window if and only if that row belongs to the caller's own day |
| Windows.FaucetDelayReachesNextDay | frontend/api/faucet.js:90-94 | the delay always ends in the day right after the caller's |
| SpendLedger.GrantsStayWithinCaps | frontend/api/faucet.js:125-162 | in every interleaving, with faults and lost compensations, what is granted against a row in a window stays within that row's cap |
| SpendLedger.GrantsAreCharged | frontend/api/faucet.js:136-161 | every granted call is charged in full to its recipient's row and to the global row, in a window no older than its day |
| SpendLedger.RowsAreExact | frontend/api/faucet.js:38-65 | in every run a row's total is exactly the amounts its calls hold in that window: granted, undecided or not compensated |
| SpendLedger.CompensationNeverTruncates | frontend/api/faucet.js:60-65 | a compensation always finds at least its own amount, so MAX(0, ...) never truncates and never eats into another call's share |
| SpendLedger.SpendValidatorIsComplete | frontend/api/faucet.js:96-109 | in every reachable state the row an upsert returns is valid if and only if its total is a safe integer |
| SpendLedger.IdleRowsEqualGrants | frontend/api/faucet.js:136-161 | conservation: with no call in progress, no statement that threw, and amounts that add up to a safe integer, each total is exactly what was granted, so denied requests leave no trace |
| SpendLedger.StatementBalances | frontend/api/faucet.js:111-118 | one statement changes a row by exactly what it changes in its caller's share, in any window |
| SpendLedger.StatementPasses | frontend/api/faucet.js:141-150 | a call gets past a cap only in a state whose whole row fits under it |
| SpendLedger.CleanRunIsTidy | frontend/api/faucet.js:141-160 | when no statement throws and all amounts add up to a safe integer, a finished call that was not granted holds nothing in any row |
| SpendLedger.HeldIsRequested | frontend/api/faucet.js:136-161 | what calls hold of one row in one window never exceeds what they asked for |
| SpendLedger.RollbackOutlastsTheDelay | frontend/api/faucet.js:141-144 | a run with a clock rollback whose denied caller waits its whole delay and is still within the window of the row that denied it, with no room left |
| SpendRuns.RowWindowsAreDays | frontend/api/faucet.js:38-55 | in every run each row's window is the day of some call that asked for it, so never one that nobody has read |
| SpendRuns.CallAloneIsAnswered | frontend/api/faucet.js:125-162 | from any reached state a call that nothing disturbs gets exactly the answer its amount calls for against what both rows carry, and the rows end as that answer demands |
| SpendRuns.NewDayStartsFromZero | frontend/api/faucet.js:42-52 | after any run a call of a later day than all before it meets empty rows, and on its own is granted if and only if its amount fits under the recipient's cap |
| SpendStore.DurableStore.ReserveSpendDurable | frontend/api/faucet.js:125-162 | undisturbed, the answer is the one the amounts call for; a granted amount is carried by both rows in the window of that day or a newer one they had, a denied one by none; a delay ends in the next day |
| SpendStore.DurableStore.Reserve | frontend/api/faucet.js:38-55 | the row of the key, and no other, carries the amount on top for this day, in the newer of that day and its own window |
| SpendStore.DurableStore.CompensateSpend | frontend/api/faucet.js:57-65 | the row, and no other, carries the amount less in the same window |
| SpendStore.UpsertCharges | frontend/api/faucet.js:38-55 | an upsert charges exactly that row: window, total and time of update |
| SpendStore.CompensateRefunds | frontend/api/faucet.js:60-65 | a compensation in the row's window takes exactly the amount back, and changes no other row |
| SpendStore.MemoryStore.ReserveDaily | frontend/api/faucet.js:179-192 | grants exactly when both rolling totals fit; a denial leaves the state as it was if and only if the global window is still open |
| SpendStore.DeniedCallResetsTheWindow | frontend/api/faucet.js:179-188 | a denied call after a day, with the global total and window before and after: both changed |
| CounterTable.CountIsExact | frontend/api/durableRateLimit.js:82-99 | in every run the stored count is the number of upserts that landed in the row's window |
| CounterTable.AllowedPerWindow | frontend/api/durableRateLimit.js:185-217 | in every run at most max requests per bucket, client and aligned window are allowed, whatever the clocks |
| CounterTable.AllowedIsExact | frontend/api/durableRateLimit.js:207-217 | without faults exactly the first max requests of a window are allowed |
| CounterTable.ValidatorsAreComplete | frontend/api/durableRateLimit.js:111-149 | in every reachable state both validators accept the row the upsert returns if and only if its count is a safe integer, rollback included |
| CounterTable.ValidatorIsExactUpToAlignment | frontend/api/durableRateLimit.js:111-149 | the rows some run returns are exactly those the validator accepts whose window is the aligned window of updated_at |
| CounterTable.UpsertKeepsRow | frontend/api/durableRateLimit.js:87-97 | the upsert keeps window_start equal to the aligned window of updated_at |
| LandingOrder.OwnWindowsExactly | frontend/api/durableRateLimit.js:177-191 | all requests of a key are counted in their own aligned window if and only if the windows of their clock readings never fall in the order in which statements land |
| LandingOrder.AllowedPerSlidingInterval | frontend/api/stellar-relay.js:791-795 | when statements land in window order, any half-open interval of one window's length sees at most 2 * max allowed requests |
| LandingOrder.SponsoredPerAnyDay | frontend/api/stellar-relay.js:790-804 | when statements land in window order, at most 2000 sponsored submits in any 24 hours, over all clients |
| LandingOrder.AllowedOutOfOrder | frontend/api/durableRateLimit.js:180-207 | when statements land at most one window's length out of clock order, any such interval sees at most 3 * max - 1 |
| LandingOrder.OutOfOrderRun | frontend/api/durableRateLimit.js:180-191 | for any policy, a run at most two milliseconds out of order that reaches 3 * max - 1 |
| LandingOrder.TwiceMaxExactly | frontend/api/stellar-relay.js:791-795 | 2 * max bounds every such interval of every run that lands within a given disorder if and only if that disorder is at most one millisecond |
| LandingOrder.SponsoredOutOfOrder | frontend/api/stellar-relay.js:869-880 | a run two milliseconds out of order that sponsors 2999 submits within 24 hours |
| LandingOrder.AllowedAgainPerWindow | frontend/api/durableRateLimit.js:207-217 | a window already open lets through one less than max |
| CounterTable.WaitingGetsAFreshCount | frontend/api/durableRateLimit.js:207-213 | with nobody else in between, a client that waits s seconds gets count 1 if and only if s is at least its Retry-After |
| CounterTable.Counters.DurableRateLimit | frontend/api/durableRateLimit.js:155-217 | the table after the call, and the verdict: closed on every unproved count, allowed only within max, refused with the least delay that works |
| CounterTable.Counters.CheckSponsorGlobalLimit | frontend/api/stellar-relay.js:863-895 | the same for the one sponsor row and its daily budget |
| CounterTable.BucketsAreSeparate | frontend/api/durableRateLimit.js:104 | different bucket names never share a row, save the empty one and "default" |
| MemoryLimiter.DecideKeepsSimulation | frontend/api/_guard.js:165-189 | one request gets the same verdict from the pruned and the full map, and the two maps stay related |
| MemoryLimiter.PruningIsInvisible | frontend/api/_guard.js:154-189 | with time that never decreases, the limiter that prunes on overflow decides every request like one that never prunes |
| MemoryLimiter.PruneShowsExactly | frontend/api/_guard.js:154-179 | pruning changes one verdict if and only if it drops an entry that is spent and still live for that request |
| MemoryLimiter.PruningShowsExactlyAtPeaks | frontend/api/_guard.js:165-189 | at the limit of 5000, with the clock showing t1, t2 and t3 in turn, some run shows the pruning if and only if t2 is above both t1 and t3 |
| MemoryLimiter.NeverShowsIffNoPeak | frontend/api/_guard.js:154-189 | on a given clock, pruning changes no verdict under any limit and any policy of positive windows if and only if no reading is strictly above both an earlier and a later one |
| MemoryLimiter.InvisibleWithoutPeak | frontend/api/_guard.js:154-189 | without such a reading every run keeps all its verdicts, and the pruned map lacks only what had run out |
| MemoryLimiter.PeakShows | frontend/api/_guard.js:172-186 | more clients than the limit, then a later reading, then an earlier one again: the full limiter refuses what the pruned one allows |
| MemoryLimiter.Limiter.Prune | frontend/api/_guard.js:154-158 | the loop keeps exactly the entries that have not expired |
| MemoryLimiter.Limiter.RateLimit | frontend/api/_guard.js:165-189 | the map and the verdict are those of the limiter that prunes on overflow; no address, no change |
| LimiterSpans.LimiterLimits | frontend/api/_guard.js:172-188 | between an entry's opening and its reset exactly the first max requests of a client are allowed, whatever other clients do |
| LimiterSpans.RefusalsTellTheReset | frontend/api/_guard.js:179-186 | every refusal's delay is the seconds left to the reset, rounded up |
| LimiterSpans.FirstRequestOpens | frontend/api/_guard.js:174-178 | a client's first request opens an entry |
| LimiterSpans.ResetOpens | frontend/api/_guard.js:175-178 | the first request at or after the reset opens the next |
| LimiterSpans.PruningLimiterLimits | frontend/api/_guard.js:154-189 | the limiter that prunes lets through just as many on every clock without a peak |
| RelayGuard.BroadcastsBoundedByEvictions | frontend/api/stellar-relay.js:686-769 | in every run the sends of one hash not answered with ERROR number at most one more than the evictions of its entry |
| RelayGuard.EvictedIffExpired | frontend/api/stellar-relay.js:247-249 | a hash is evicted in a run exactly when some call entered with the map full and its entry past its time to live |
| RelayGuard.AtMostOneBroadcast | frontend/api/stellar-relay.js:228-233 | while that never happens, the sends of one hash not answered with ERROR number at most one |
| RelayGuard.ReopensExactlyWhenExpired | frontend/api/stellar-relay.js:686-698 | after a send not answered with ERROR, a retry is let through if and only if the map is full and the entry past its time to live; within it the retry is answered from the entry |
| RelayGuard.SecondBroadcastExactlyWhenExpired | frontend/api/stellar-relay.js:686-732 | that retry, once simulated, makes the broadcasts of the hash two exactly under the same guard, and leaves them at one otherwise |
| RelayGuard.ResubmitsOnlyAfterRejection | frontend/api/stellar-relay.js:686-769 | while the entry never expired, a call that may still submit finds every other call on its hash over, and either never sent or answered with ERROR |
| RelayGuard.TimelyRunsAreOwned | frontend/api/stellar-relay.js:241-249 | when active calls stay within the time to live, each owns its in-flight entry and no two share a hash |
| RelayGuard.OnlyTheOwnerDeletes | frontend/api/stellar-relay.js:767 | in a timely run a step that deletes an entry belongs to the one active call on that hash |
| RelayGuard.FinishedEntryCanExpire | frontend/api/stellar-relay.js:247-249 | a timely run that evicts one finished entry and broadcasts again a hash already reported SUCCESS |
| RelayGuard.OneFinisher | frontend/api/stellar-relay.js:731-751 | while the entry never expired at most one call has a send of the hash outstanding or accepted |
| RelayGuard.AnswersAgree | frontend/api/stellar-relay.js:690-697 | while the entry never expired all answers returned for a hash carry the outcome of the one call that finished it, and all others are marked duplicate |
| RelayGuard.TerminalAnswersAreProved | frontend/api/stellar-relay.js:62-101 | in every run a 200 shows a canonical hash and a SUCCESS or FAILED, and some call on that inner transaction polled that very hash and ended in that very status |
| RelayGuard.ReplayGuard.PruneSeen | frontend/api/stellar-relay.js:247-249 | the loop removes exactly the entries past the time to live |
| RelayGuard.ReplayGuard.Claim | frontend/api/stellar-relay.js:686-713 | the section without awaits: prune, answer from an existing entry, or claim the hash |
| RelayGuard.PollResult | frontend/api/stellar-relay.js:588-595 | the first decisive reply within the tries decides; with none the status is PENDING |
| RelayStory.CallsFollowTheirReplies | frontend/api/stellar-relay.js:700-769 | in every interleaving each call stands exactly where the replies it has heard from the simulation, the send and the polls have brought it |
| RelayStory.PollsExactly | frontend/api/stellar-relay.js:588-595 | an accepted call still polls if and only if every reply so far is missing and its tries are not used up; a decisive reply is the first and the last |
| RelayStory.DecisiveIsAnswered | frontend/api/stellar-relay.js:748-751 | a decisive status is answered 200 if and only if it is SUCCESS or FAILED and the hash is canonical, and shown as it is |
| RelayStory.OthersAreAnswered | frontend/api/stellar-relay.js:752-768 | a proved failure is answered as such; a send or poll that throws, a missing hash and used-up tries are answered unknown, with what is known |
| RelayStory.RememberedExactly | frontend/api/stellar-relay.js:690-767 | while its entry never expired, a hash is remembered if and only if some call may still submit it or has submitted it without a proved rejection, and the entry tells of that call |
| RelayStory.RetryIsTold | frontend/api/stellar-relay.js:690-698 | a retry is told exactly what is known of that call; it is let through if and only if there is none, as after every proved failure |
| RelayStory.RetryIsAnswered | frontend/api/stellar-relay.js:77-101 | it is answered 409 while the outcome is open, with the hash once known and canonical; and like that call, as a duplicate, once it has an outcome |
| RelayStory.WritesAreStamped | frontend/api/stellar-relay.js:742-764 | whatever a step writes for a hash carries the time of that step |
| ApprovalQueue.RepliedExactlyOnce | frontend/extension/background.js:247-259 | in every run a settled request has been replied to exactly once and an unsettled one never |
| ApprovalQueue.RepliesAreFinal | frontend/extension/background.js:247-259 | no later step replaces or repeats a reply |
| ApprovalQueue.StepSettlesExactly | frontend/extension/background.js:356-402 | a step settles an unsettled request exactly with the reply it is cause for: its ceremony's payload, a stale snapshot, its own closed window, another account, its failed window |
| ApprovalQueue.RepliesNameTheirCause | frontend/extension/background.js:247-259 | in every run the one reply of a settled request names the kind of step that settled it |
| ApprovalQueue.OneOpenWindow | frontend/extension/background.js:327-352 | in every run only the head of the chain can be unsettled with an approval window |
| ApprovalQueue.WindowsOpenInOrder | frontend/extension/background.js:327-341 | windows are opened in queue order, never twice for one request |
| ApprovalQueue.NoLostWakeUp | frontend/extension/background.js:348-351 | the chain never awaits the release of a settled request and never moves past an unsettled one |
| ApprovalQueue.ChainReachesNextUnsettled | frontend/extension/background.js:327-341 | left alone, a ready chain passes settled requests and opens the window of the next unsettled one |
| ApprovalQueue.SettledHeadNeverBlocks | frontend/extension/background.js:327-352 | in every run a settled head with no window creation in flight lets the next unsettled request get its window without further help |
| ApprovalQueue.SettledDuringCreationNeverBlocks | frontend/extension/background.js:334-351 | a head settled while its window is being created: however the creation ends, the next unsettled request gets its window without further help |
| ApprovalQueue.CloseSettlesExactly | frontend/extension/background.js:356-367 | in every run closing a window settles an unsettled request if and only if its entry already carries that window |
| ApprovalQueue.WaitsExactlyForItsHead | frontend/extension/background.js:348-351 | while the chain waits it moves on if and only if a step settles its head, and until then opens no window |
| ApprovalQueue.EarlyCloseIsLost | frontend/extension/background.js:334-341 | a run where the window is closed before its creation resolves and the chain waits on it |
| ApprovalQueue.Desk.SettleDappRequest | frontend/extension/background.js:247-259 | settles one pending request once, keeps the queue invariant |
| ApprovalQueue.Desk.HandleWindowRemoved | frontend/extension/background.js:356-367 | rejects exactly the unsettled requests that own the closed window and leaves all others as they were |
| ApprovalQueue.Desk.HandleActiveAccountChanged | frontend/extension/background.js:377-402 | undisturbed, settles exactly the unsettled requests of other accounts |
| ConsentFlow.RevealsAreJustified | frontend/extension/background.js:286-299 | over any run, with the account resolved by separate reads, an address reaches an origin silently only if an earlier step completed a successful ceremony of that origin with that account resolved, or migrated the origin with exactly one wallet counted |
| ConsentFlow.JustifyingAccountsWereListed | frontend/extension/background.js:42-66 | the thread that justifies a reveal had itself read that account's wallet on the device, and found it selected or sole at a later step |
| ConsentFlow.ResolvedIsActiveExactly | frontend/extension/background.js:90-100 | the account resolved is the active one at the instant of the last read if and only if it is still there: as it was read, when selected; the only one, when not |
| ConsentFlow.CeremonyIsActiveExactly | frontend/extension/background.js:444-457 | the account of a justifying ceremony is active at that instant if and only if it is still there |
| ConsentFlow.UntornReveals | frontend/extension/background.js:206-245 | when no wallet key changes between a thread's reads, a ceremony justifies while its account is active, and a migration while exactly one wallet exists |
| ConsentFlow.RevealedAccountsWereActive | frontend/extension/background.js:90-100 | when no wallet key changes between a thread's reads, the account of a silently revealed address was the active one at some moment of the run |
| TornRun.TornRunRevealsInactiveAccount | frontend/extension/background.js:90-100 | for any two wallets and any page, a run without prior consents that reveals an address whose account was active at no moment |
| TornRun.TornRead | frontend/extension/background.js:90-95 | a thread resolves to a wallet that left the device and was then selected between its reads |
| ConsentFlow.SnapshotsWereAsked | frontend/extension/background.js:301-324 | every stashed or consumed snapshot comes from an earlier page request with its origin and account |
| ConsentFlow.CeremoniesAnswerRequests | frontend/extension/background.js:433-458 | a ceremony that is validated answers an earlier request of that very origin for that very account |
| ConsentFlow.RunKeepsOk | frontend/extension/background.js:125-245 | one storage operation of any thread keeps every consent record justified, lost updates included |
| ConsentLaws.CeremonyLeavesItsRecord | frontend/extension/background.js:133-149 | from any state an undisturbed ceremony consumes its request and leaves the record of its origin and account, without expiry, if and only if it succeeded and its request still holds; nothing else changes |
| ConsentLaws.RequestIsAnswered | frontend/extension/background.js:261-325 | from any state an undisturbed request is answered with the address if and only if the active account has an unexpired record for the page, else it is stashed for a prompt when it may ask for one |
| ConsentLaws.GrantedPagesAreAnswered | frontend/extension/background.js:286-299 | after a ceremony that grants, the page it was for is told the address without a prompt |
| ConsentLaws.MigratesAlone | frontend/extension/background.js:206-245 | undisturbed, the migration grants every legacy origin to the account if and only if exactly one wallet is there, and runs once |
| ConsentLaws.MergeGrantsExactly | frontend/extension/background.js:223-238 | the merged records hold every legacy origin and leave all others as they were |
| ConsentLaws.ActiveExactly | frontend/extension/background.js:73-100 | an account is active if and only if it is on the device and selected field for field, or the only one there with none selected |
| ConsentLaws.OtherOriginsAreRefused | frontend/extension/background.js:270-274 | a page whose origin is not on the web changes nothing |
| CanonicalJson.EscapeIsUnambiguous | frontend/src/app.jsx:648-652 | two strings with the same escaped text, each followed by its closing quote, are equal |
| CanonicalJson.PrintIsUnambiguous | frontend/src/app.jsx:648-652 | two valid values that print alike in front of delimited text are equal, and so is what follows |
| CanonicalJson.PrintIsInjective | frontend/src/app.jsx:648-652 | valid JSON values with the same printed text are equal |
| CanonicalJson.SortedIsUnique | frontend/src/app.jsx:638-644 | two sorted member lists with the same members are the same list |
| CanonicalJson.SameImpliesSameCanon | frontend/src/app.jsx:636-646 | values equal up to member order have one canonical form |
| CanonicalJson.SameCanonImpliesSame | frontend/src/app.jsx:636-646 | values with one canonical form are equal up to member order |
| CanonicalJson.ReceiptComparisonIsExact | frontend/src/app.jsx:636-652 | the comparison holds if and only if the receipts are equal up to the order of object members, at every depth |
| RecoveryAuthority.LatestAttempt | frontend/src/app.jsx:654-661 | the result is an attempt at the phase with none after it, or there is none at all |
| RecoveryAuthority.LatestRealRecoveryAttempt | frontend/src/app.jsx:654-661 | the backwards loop finds that attempt |
| RecoveryAuthority.PollProofError | frontend/src/app.jsx:663-685 | no error if and only if the projection is no poll or its latest real attempt carries the proof |
| RecoveryAuthority.ClaimIsAMonotoneFloor | frontend/src/app.jsx:693-750 | with a claimed receipt, any action but manual review comes from a row at or above the claimed version that equals the claimed receipt on a tie; without an error such a row is shown as it projects |
| RecoveryAuthority.PollNeedsProof | frontend/src/app.jsx:710-720 | a poll is exposed only with the proof in the latest real attempt at its phase |
| RecoveryAuthority.ManualReviewExactly | frontend/src/app.jsx:710-749 | with a claimed receipt the result is manual review if and only if the row is not at or above the claim, projects to it or to a poll without proof, or is held at the claimed version by a poll-proof error |
| RecoveryAuthority.ReasonsAreGiven | frontend/src/app.jsx:711-749 | the reason is the missing proof, then the error or a changed receipt, and the phase is the error's, the claim's or the projected one |
| RecoveryAuthority.NoClaimNoFloor | frontend/src/app.jsx:694-703 | without a claimed receipt and without an error a row is shown as it projects |
| RecoveryAuthority.PhasesAreMet | frontend/src/app.jsx:658 | an undefined, null or named phase is met by its own kind of value only |
| RecoveryRunner.OneRunPerAllocation | frontend/src/app.jsx:790-811 | in every interleaving at most one run per allocation is past the pending check |
| RecoveryRunner.MarksAreReleased | frontend/src/app.jsx:891-892 | the pending marks are exactly the allocations of runs under way |
| RecoveryRunner.CallbacksAreAddressed | frontend/src/app.jsx:770-787 | every projection, pending and error callback fires while the run's captured account is current |
| RecoveryRunner.RunsEnd | frontend/src/app.jsx:813-900 | every settled await brings a run nearer to its end, where its mark is gone |
| RecoveryRunner.BeginsExactly | frontend/src/app.jsx:791-811 | a run begins if and only if it is not pending, not blocked, routed, and its mapping belongs to the active account |
| RecoveryRunner.SuccessProjectsOnce | frontend/src/app.jsx:813-850 | an undisturbed successful run fires pending, one projection, the error its result carries if any, and pending off |
| RecoveryRunner.EarlyFailureIsShown | frontend/src/app.jsx:877-886 | a run that fails for its credential or claim refreshes the projection once and shows the error, even when the refresh fails |
| RecoveryRunner.LateFailureIsShown | frontend/src/app.jsx:851-889 | a run whose recovery fails does the same, and for a poll-proof error projects the claim even when the receipt cannot be read |
| MoneyFetch.CommittedTokensIncrease | frontend/src/app.jsx:1111-1141 | as long as owner actions write harmless revisions, the tokens of committed reads strictly increase in every interleaving |
| MoneyFetch.WriteKeepsOrderExactly | frontend/src/app.jsx:3292-3301 | a revision written by an owner action keeps commits strictly increasing in every later run that lowers no further if and only if it is at least the last committed token and every pending read's token |
| MoneyFetch.LateWriteRepeatsAToken | frontend/src/app.jsx:3292-3301 | a run without overlapping reads in which an action writes the token after the revision it started from, and a token is committed twice |
| MoneyFetch.CommitsAreForTheConnectedOwner | frontend/src/app.jsx:1047-1067 | in every run each commit belongs to the owner connected at that instant |
| MoneyFetch.CommitsExactly | frontend/src/app.jsx:1120-1141 | in every run a read that succeeds commits if and only if its owner is the connected one and the revision is not above what its start left |
| MoneyFetch.RevisionOnlyGrows | frontend/src/money/freshness.js:88-90 | between lowering writes the revision never falls, and rises exactly when a read starts, a wallet switch bumps it, or an action writes a higher one |
| MoneyFetch.CommitsExactlyWhenNotSuperseded | frontend/src/app.jsx:1120-1141 | a read whose revision was not lowered since its start commits if and only if its owner is the connected one and nothing raised the revision either |
| LedgerScan.GetEvents | frontend/api/agent-index.js:289-344 | at most eight calls that follow the request; events, end and first floor are those of the calls, and no latest ledger is reported; it throws exactly on an error or an unusable floor |
| LedgerScan.CallsAdvance | frontend/api/agent-index.js:299-327 | every later call starts beyond all that earlier calls accounted for |
| LedgerScan.WindowsAreDisjoint | frontend/api/agent-index.js:299-327 | successful windows are disjoint and increasing |
| LedgerScan.PrefixIsCovered | frontend/api/agent-index.js:299-327 | every ledger before the scan's position was requested, or lies below a reported floor; without a floor it was requested |
| LedgerScan.ScanIsHonest | frontend/api/agent-index.js:328-343 | every ledger from the start to the reported end is accounted for if and only if the start is not beyond the requested end |
| LedgerScan.FullScanReach | frontend/api/agent-index.js:281-301 | without retention errors the n-th window ends n full windows from the start, or at the requested end |
| SignerWeight.NormalizedAuthorization | frontend/api/stellar-relay-auth.js:59-76 | succeeds exactly on facts of this account with valid distinct keys and byte weights, and lists the master key first |
| SignerWeight.Verified | frontend/api/stellar-relay-auth.js:141-147 | finds exactly the positive-weight signers that match the hint and verify the signature |
| SignerWeight.SumWeights | frontend/api/stellar-relay-auth.js:135-153 | the loop succeeds exactly on signatures each with one signer and no signer twice; its sum is the weight of the set of signers |
| SignerWeight.AssertTransactionSourceAuthorization | frontend/api/stellar-relay-auth.js:110-156 | accepts a non-relayer source if and only if it is properly signed with weight at or above the medium threshold, and reports that weight |
| SignerWeight.WeightOfOneMore | frontend/api/stellar-relay-auth.js:149-152 | a new signer's signature adds exactly that signer's weight to the weight of the set |
| SignerWeight.OrderDoesNotMatter | frontend/api/stellar-relay-auth.js:131-155 | reordering the signatures changes neither the verdict nor the weight |
| CapabilityCookie.ParseCapabilityCookies | frontend/api/vf-cross.js:202-213 | the loop returns the canonical value of the one matching part, or nothing |
| CapabilityCookie.SplitJoined | frontend/api/vf-cross.js:204-205 | splitting and trimming a line joined by "; " gives back its pieces |
| CapabilityCookie.HeaderRoundTrip | frontend/api/vf-cross.js:202-213 | from any header of well-formed pairs (section 4.2.1 of RFC 6265) a value is selected if and only if exactly one pair has the name, with that value, and it is canonical |
| CapabilityCookie.SetCookieIsExact | frontend/api/vf-cross.js:220-242 | a printed cookie (section 4.1.1 of RFC 6265) is accepted if and only if its name is right and its attributes are, in any order, the fixed four and one suitable Max-Age |
| CapabilityCookie.AttributeOrderDoesNotMatter | frontend/api/vf-cross.js:228-233 | reordering the attributes of an accepted cookie leaves it accepted |
| CapabilityCookie.IssueCookieAccepted | frontend/api/vf-cross.js:236-241 | an issue cookie is accepted under every attribute order |
| CapabilityCookie.ClearCookieAccepted | frontend/api/vf-cross.js:235 | a clearing cookie is accepted under every attribute order |
| Decimal.ParsePrint | frontend/src/app.jsx:3807-3811 | reading back a printed number gives the number |
| TokenBudgets.SumByToken | frontend/extension/grantDecoder.js:151-155 | each token of the entries once, in order of first occurrence, with all of its units |
| TokenBudgets.SumsConserveUnits | frontend/extension/grantDecoder.js:149-155 | summing conserves the units of every token and repeats no token |
| TokenBudgets.AllowanceHeadroom | frontend/extension/grantDecoder.js:205-210 | the headroom of each budget is its units less all units of that token's caps |
| TokenBudgets.PlanReviewedBudgets | frontend/src/app.jsx:3802-3815 | one budget per token of the plan, in order, with the printed total of its caps and the decimals of its last cap |
| TokenBudgets.PlannedBudgetsLeaveNoHeadroom | frontend/src/app.jsx:3802-3815 | budgets planned from a grant's own caps have no headroom, and conserve the units of every token |
| TokenBudgets.PlanThenDecode | frontend/extension/grantDecoder.js:205-210 | planning and then decoding reports headroom zero for every token of the plan |

## Left out

- XDR decoding, key derivation, ed25519 verification, hashing and transaction building: unconstrained functions or absent.
- RPC, D1, `fetch`, WebAuthn, Chrome and React: only the outcome of each call is modelled.
- `assertRelayableTransaction` and the authorization-entry checks of `stellar-relay-auth.js` after the source check: long case splits, each settled by its own branch.
- All rendering, status projections and message texts (`reason` strings, error messages).
- Handler branches taken without a database binding, CORS, `clientIp` and `isValidIp`: plumbing; a client address is present or absent.
- The scheduled cleanup of rate-limit rows: no cleanup script step is part of the counter model.
- `effectiveAmount` and `dispenseToken`: the ledger takes any positive safe amount.
- `scanRpcEventsPage`: called with no cursor, limit or latest ledger it returns the events and the end it is given; its other branches are not part of this model.
- Which revisions `reconcileOwnerAction` returns: an owner action may write any. The abort signals of the money refresh: an aborted read is one that does not succeed, so runs with aborts are among the runs here.
- `createEpochBoundRun`, the SIGN_REQUEST tab path, and broadcasts to tabs.
- The relayer address in relay results, which is constant for a deployment.
- Several classic wallets on one device: the model holds the oldest one.
- Receipts that are not plain JSON values (`toJSON`, `undefined`, non-finite numbers): numbers are their printed tokens, which is how `JSON.stringify` compares them.
- Consents lost to concurrent grants: the code does not promise to keep them; the consent theorem covers such runs.
- PlanReviewedBudgets: takes decimal cap units, as reviewed plans carry them; the other texts that `BigInt` reads or rejects are not modelled.
- HandleActiveAccountChanged: the method is the undisturbed pass; the races at its `await windows.remove` are the `AccountMismatch` steps of the queue's runs.
- ReserveSpendDurable: the method is the undisturbed call; the interleaved statements with faults are the steps of `SpendLedger`.
- RequestIsAnswered: an undisturbed thread reads one and the same time throughout, as does CeremonyLeavesItsRecord.
