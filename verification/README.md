# Overwatch new-token bot: decision core in Dafny

This project models the decision logic of the bot's `index.js`. The bot watches
a DEX feed for newly created pools. It picks the token in each pool that is not
WETH and asks an oracle for that token's statistics. It then posts a statistics
message to a Telegram chat, or edits one it posted earlier. A token that is only
partially validated on its first check goes into a retry store keyed by contract
address. A 30-second sweep re-checks each stored token until it is fully
validated or an hour has passed.

The model is a pure state machine. The oracle's answer, the clock and the id
that the messaging API returns are all inputs. Chat traffic is reduced to
abstract effects: `Send`, `Edit(id)` and `Reply(id, Locked | Burnt)`.

- `wrappers.dfy` (`Wrappers`): `Option` for JavaScript's absent values; `Result`
  for steps that may throw.
- `feed.dfy` (`Feed`): frames, pool sides, the `Candidate` record (the source's
  `tokenData`), and `Normalize`, which is the decision part of `handleMessage`.
- `retry.dfy` (`Retry`): store entries (`{...tokenData, addedAt, messageId}`),
  the one-hour expiry rule, and the sweep loop.
- `orchestrator.dfy` (`Orchestrator`): `Check`, which is one run of
  `checkSendToken`. It maps a verdict and `firstTry` to effects and a store
  change.
- `pipeline.dfy` (`Pipeline`): the whole bot as a state of store, pending
  checks and outbox. It has three transitions. `Receive` handles a frame
  arriving. `Tick` handles the sweep interval firing. `Fire` runs one scheduled
  check. The file also holds the lifecycle lemmas.

Two invariants of the store are proved to be kept by every transition:
- `WellKeyed`: every entry is stored under its own contract address.
- `AllPublished`: every entry records a non-zero message id.

The second one assumes that the messaging API never returns id 0.

## Behaviour of the code worth knowing

- The code keeps no set of already-seen addresses. Every create frame schedules a
  check (`Pipeline.RepeatedCreateFramesAreCheckedTwice`).
- A pool whose two sides are both WETH is not rejected
  (`Feed.BothSidesWrappedEtherIsNotRejected`).
- A pool with no WETH side is not rejected either. Its main token is `token0`,
  whatever `token1` is: a USDC/FOO pool yields USDC as the token to check
  (`Feed.NoWrappedEtherSideTakesFirstToken`).
- When a full validation arrives on a retry, the store is read under the
  address the oracle echoes back (`Statistics.contractAddress`, line 175). The
  entry is deleted under its own candidate's address (line 190). If no entry
  exists, `getData` throws, so the model returns
  `Failure(MissingRetryEntry)`. It does not fall back to a fresh send. Under
  `WellKeyed`, the two addresses name the same entry
  (`Orchestrator.ResolutionDeletesLookedUpKey`).
- The sweep does not await the checks it starts. Two sweeps can therefore
  schedule two retries of one address. If both retries see a full validation,
  the second one throws (`Pipeline.OverlappingSweepsReachMissingEntry`).
- If a stored entry has no message id, or an id of 0, the resolution path sends
  a fresh message, because the code tests `!previousMessageId`. The reply to
  the liquidity change then goes to an absent id.

## Model

| member | source | states |
|---|---|---|
| Feed.Normalize | index.js:110-137 | Pong frames and frames whose event is not `create` yield no candidate. A create frame without `token0` is the throw. A create frame with both sides yields a candidate, which round-trips to its sides: if `token0.symbol` is WETH then main is `token1` and pair is `token0`, otherwise main is `token0` and pair is `token1`. |
| Feed.FromSides | index.js:122-137 | The candidate's main fields (name, symbol, `contractAddress`) are exactly `main`'s name, symbol and id. Its pair fields are exactly `pair`'s. |
| Feed.CandidateIsItsSides | index.js:130-137 | A candidate holds nothing beyond its two sides: rebuilding it from `Main()` and `Pair()` gives it back. |
| Feed.MainAndPairAreOppositeSides | index.js:117-118 | Main and pair are together exactly `token0` and `token1`, one each. |
| Feed.BothSidesWrappedEtherIsNotRejected | index.js:117-120 | A create frame whose two sides are both WETH still yields a candidate, whose main is `token1` and is itself WETH. |
| Feed.NoWrappedEtherSideTakesFirstToken | index.js:117-120 | A create frame with no WETH side still yields a candidate, whose main is `token0` and whose pair is `token1`. |
| Feed.MainIsWrappedEtherOnlyIfBothAre | index.js:117-118 | The main token is WETH only when both sides are. |
| Retry.SweepKeys | index.js:272-280 | The loop reads entries from the snapshot and deletes under each expired entry's own address. Afterwards the store is the live store minus exactly those addresses. A key is handed back for a check iff it was visited and its entry is not expired. When the visited keys are distinct, no key is handed back twice. |
| Retry.EvictedAreExpiredKeys | index.js:275-276 | In a well-keyed store, the deleted addresses are exactly the keys whose entries are expired. |
| Retry.Sweep | index.js:268-280 | In a well-keyed store, one sweep removes exactly the entries with `now - addedAt > 3600000` (strictly greater) and gives them no check. In any store, it hands back exactly the keys of unexpired entries, each once, and changes no surviving entry. It keeps `WellKeyed` and `AllPublished`. |
| Orchestrator.Check | index.js:154-215 | An oracle failure, or a verdict that does not publish, leaves the store and the effects unchanged. Effects are issued iff `isValidated \|\| (isPartiallyValidated && firstTry)`. The only error is resolving an address the store lacks. A first try only ever sends. Validated and not partial on a first try gives exactly one `Send` and leaves the store unchanged. Partial on a first try gives one `Send`, and the store gains exactly the candidate's entry with `addedAt = now` and the sent id. Validated on a retry gives exactly one liquidity reply (Locked iff `isLocked`) to the stored id; the entry is deleted, and the main message is `Edit` of the stored id when that id is truthy. `WellKeyed` is kept, and `AllPublished` is kept when the sent id is non-zero. |
| Orchestrator.ResolutionDeletesLookedUpKey | index.js:174-190 | In a well-keyed store, resolution deletes exactly the key it looked up. |
| Orchestrator.ResolutionNeverSendsFresh | index.js:174-207 | Once every entry has a message id, resolution replies to that id and edits it. It never sends a second statistics message. |
| Orchestrator.PartialThenFullEditsTheSameMessage | index.js:163-215 | Partial on the first try, then full on a retry, gives one `Send` followed by a reply to and an edit of that same message. The store ends as it was before the candidate arrived. |
| Pipeline.Receive | index.js:139-145 | A frame with a candidate schedules exactly one first-try check, due 60000 ms later. Any other frame changes nothing, unless it throws. Store and outbox are untouched. |
| Pipeline.RetryJobs | index.js:272-280 | Given due keys that list each unexpired entry once and nothing else, the retry jobs check exactly the live entries' candidates with `firstTry = false`, due now. There are exactly as many jobs as live entries, and none for any other candidate. In a well-keyed store no two jobs share an address, so each live entry has exactly one job. |
| Pipeline.Tick | index.js:266-282 | A sweep issues no effect and keeps the earlier pending checks. It appends as many retry checks as there are live entries, all due now, covering every live entry's candidate and no other. In a well-keyed store that is exactly one per live entry, and it removes exactly the expired entries. It keeps the store invariants. |
| Pipeline.Fire | index.js:150-264 | Running a due check removes exactly that job and keeps the other jobs in order. It appends the check's effects after all earlier effects and fails exactly when the check throws. It keeps the store invariants when the sent id is non-zero. |
| Pipeline.SweepSchedulesRetryOf | index.js:272-279 | A live entry's retry is among the jobs a sweep schedules. |
| Pipeline.ResolvingRetryEditsStoredMessage | index.js:174-207 | A retry that sees a full validation appends exactly a reply to the stored message and an edit of it. It removes the address. |
| Pipeline.SweepThenFullValidationEditsQueuedMessage | index.js:174-191 | A queued address still inside the window is scheduled by the sweep. Its full validation then edits the first message, never sends a second one, and removes the address. |
| Pipeline.ExpiredEntryIsDroppedSilently | index.js:274-276 | An entry more than an hour old is removed by the sweep. No check is scheduled for its address and no effect is issued. |
| Pipeline.RepeatedCreateFramesAreCheckedTwice | index.js:139-145 | Two create frames for the same pool schedule two first-try checks. Nothing filters an address already seen. |
| Pipeline.SweepOfOneLiveEntry | index.js:272-280 | A sweep over a single live entry keeps it and schedules exactly its retry. |
| Pipeline.SecondResolutionThrows | index.js:174-190 | With two queued retries of one address, a full validation on the first deletes the entry, and the same validation on the second throws on the missing entry. |
| Pipeline.OverlappingSweepsReachMissingEntry | index.js:175-190 | Two sweeps before either retry runs schedule two retries. If both see a full validation, the first resolves the entry and the second throws on the missing entry. |

## Left out

- WebSocket connection, subscription handshake, ping/pong exchange, the 180-second liveness test and the 5-second reconnect: transport driven by timers. A `Pong` frame is modelled only as a frame that yields no candidate.
- JSON decoding and frames whose `result`, `data` or `pair` objects are absent: the model takes frames already decoded into event kind and two optional pool sides.
- Writing each frame to `log.json` and all console output: diagnostic I/O.
- Message text, MarkdownV2 escaping, `formatTokenStatistics` and the lock/burn links: foreign library calls, reduced to the `Send`, `Edit` and `Reply` effects.
- Failures of Telegram sends and edits: the model assumes each send returns an id.
- The oracle (`fetchTokenStatistics`), including the fire-and-forget warm-up call in `handleMessage`: an opaque remote service, supplied as the verdict.
- The commented-out audit subscription block: dead code.
- `node-json-db` persistence, process signal handling and shutdown: the store is an immutable map, and a thrown exception is a `Failure` result.
- Orchestrator.Check: the two `Date.now()` reads on the queueing path (before and after the send) are one `now`, because each check is one atomic step. So the model's `addedAt` is the check's time, not the time the send returned.
- Interleaving inside one check or one sweep: each is one atomic step. Scheduled checks run later, in any order, through `Fire`.
- Retry.SweepKeys: reads every entry from the snapshot taken before the loop. If `getData` returns the live object, a delete at line 276 could make a later read at line 273 see `undefined` and throw. This can only happen when an entry is stored under a key other than its own address, which every step of the model rules out (`WellKeyed`).
- The iteration order of `Object.keys`: the sweep takes any order that lists each key once.
