# Atlas validator: reconciliation core in Dafny

This project models the reconciliation core of the Atlas bridge validator. The
validator is a long-running node. It checks deposit records on the Atlas ledger
contract against evidence from the Bitcoin custody chain and from destination
chains, and it votes on the ledger when that evidence is there. The model covers:

- **Block-by-timestamp resolver** (`BlockResolver`): the binary search over
  home-chain (NEAR) heights from the latest down to 100000 below it (100001
  heights). It is written as an imperative loop
  and also as a step function iterated to completion. The two are proved equal.
  Both reproduce the source's quirks. The candidate comparison mixes seconds
  with nanoseconds. A pruned block ("DB Not Found Error") picks its direction
  from the last successful probe's `midTimestamp`.
- **Mint-event scanner** (`MintScanner`): walks blocks, then chunks, then
  transactions, then receipts, then logs. It returns the first `ft_mint` event
  addressed to the ledger contract and stops there. JSON parsing is an abstract partial
  parser.
- **Redemption id split** (`RedemptionId`): takes the transaction hash out of
  `<chain_id>,<txn_hash>`. The comma split is proved to be the inverse of join.
- **Deposit validation passes** (`DepositRecords`, `DepositPasses`): covers
  - the eligibility filters;
  - the candidate record the confirmation vote carries;
  - the earliest-timestamp reduction;
  - the single-flight job flags;
  - each pass as a function that returns the block lookups and vote calls it
    would issue, how it ended, and the flags afterwards.

Network calls become parameters: a function from the call's arguments to its
outcome. A call that throws is represented as `None` or `Failed`. Dafny
integers are unbounded. Heights and timestamps are exact integers. The
nanosecond-to-second conversion is integer division by 10^9.

Three behaviours of the code are worth stating up front:

- The confirmation pass uses one threshold for all records, taken from the
  SIGNET chain configuration. It does not use a per-record threshold.
- Failures are not caught per record. A custody-chain lookup that fails (or a
  vote that throws) ends the whole confirmation pass. Later records get no
  vote.
- In the NEAR branch of the minted-hash pass, a matching event is destructured
  through `returnValues`, which the NEAR scanner never sets. That throws, so
  this branch never votes (`DepositPasses.NearBranchNeverVotes`).

## Model

| member | source | states |
|---|---|---|
| `BlockResolver.Mid` | src/services/near.js:442 | the probed midpoint lies within the current window `[low, high]` |
| `BlockResolver.InitialState` | src/services/near.js:434-438 | the first window spans 100001 heights; there is no candidate yet, and the stale timestamp starts at 0 |
| `BlockResolver.StepAt` | src/services/near.js:441-486 | one loop turn. A continuing turn strictly shrinks the window and stays inside it. It stops exactly on a seconds-level match at the midpoint. It aborts exactly on a non-pruned failure, with that failure's message. A pruned block moves one bound by one, keeps the candidate, and goes up exactly when the stale `midTimestamp` is below the target. A successful probe records its seconds. It becomes the candidate exactly when none is set or its seconds-distance is below the candidate's nanosecond-distance. It then moves `low` above or `high` below the midpoint, towards the target |
| `BlockResolver.Probes` | src/services/near.js:441-486 | the heights probed from a window, in order, lie inside it and number at most its size. Every probe but the last read a block that did not match exactly, or a pruned one |
| `BlockResolver.Search` | src/services/near.js:441-498 | the loop run to completion always yields a height or a rethrown error, never `null`. A rethrown error is never a pruned block |
| `BlockResolver.SearchRethrowsLastFailure` | src/services/near.js:473-486 | the search rethrows exactly when its last probe failed with something other than "DB Not Found Error", and it rethrows that failure's message |
| `BlockResolver.SearchStopsAtExact` | src/services/near.js:453-457 | a probe whose seconds equal the target is the last probe, and its height is the answer |
| `BlockResolver.SearchKeepsCandidate` | src/services/near.js:459-465 | once a candidate is held or some probe has read a block, a non-throwing search answers with a successfully probed height or the candidate it started with, never the fallback |
| `BlockResolver.SearchFallsBackUnread` | src/services/near.js:488-498 | a search that starts without a candidate, reads no block and does not rethrow answers with the latest height |
| `BlockResolver.SearchLoop` | src/services/near.js:441-486 | the loop, which leaves early on an exact match or a rethrow, yields the functional search's result, and its probes are exactly `Probes` |
| `BlockResolver.Resolve` | src/services/near.js:427-432 | the result is `null` exactly when the latest block cannot be fetched |
| `BlockResolver.GetBlockNumberByTimestamp` | src/services/near.js:427-499 | the loop equals the functional search. At most 100001 probes, all inside `[latest-100000, latest]`. An exact match is the last probe and is returned. An error is the last probe and is never a pruned block. The result is the latest height or a successfully probed height. With no successful probe the result is the latest height. Once some probe read a block the result is a successfully probed height, not the fallback. A last probe that failed with something other than a pruned block is rethrown with its message. The probes are those of `Probes` |
| `BlockResolver.AllPrunedSearchFallsBack` | src/services/near.js:473-497 | from any window, a search with no candidate that meets only pruned blocks ends on the latest-height fallback |
| `BlockResolver.AllPrunedFallsBackToLatest` | src/services/near.js:473-498 | when every height is pruned, the resolver returns the latest height |
| `BlockResolver.NanosecondCandidateAlwaysReplaced` | src/services/near.js:459-465 | because of the mixed units, a candidate with a realistic nanosecond timestamp is replaced by every later non-exact probe |
| `MintScanner.TxProbe` | src/services/near.js:524-575 | a transaction to another receiver never yields an event. A status call that throws abandons the block. With no mint receipt, or a first mint receipt whose `SuccessValue` is not `""`, there is no event. Otherwise that receipt's first mint log decides: a missing `data[0].memo` or an unparsable memo abandons the block, and a readable memo gives the event carrying the memo's `btc_txn_hash` and the transaction's hash |
| `MintScanner.ReceiptProbe` | src/services/near.js:553-571 | the first mint receipt yields nothing unless its `SuccessValue` is `""`; then its first mint log decides. Any event it yields carries the given transaction hash and the `btc_txn_hash` of that log's memo |
| `MintScanner.LogProbe` | src/services/near.js:565-571 | a mint log with no `data[0].memo`, or a memo that does not parse, abandons the block; otherwise it yields the event with the memo's `btc_txn_hash` and the transaction's hash |
| `MintScanner.TxHitQualifies` | src/services/near.js:524-575 | an event a transaction yields is one it qualifies with |
| `MintScanner.TxHitIffQualifying` | src/services/near.js:524-575 | a transaction yields a given event exactly when it qualifies with it: sent to the contract, status returned, first mint receipt succeeded with `""`, and its first mint log's memo gives the event's `btc_txn_hash`, with the event's transaction hash that of the status |
| `MintScanner.FirstDecisive` | src/services/near.js:509-577 | the chunk and transaction walk gives a miss exactly when every element misses; otherwise it gives the outcome of the first element that does not miss, and whichever element is first in that sense decides |
| `MintScanner.ChunkProbe` | src/services/near.js:510-577 | a chunk with the all-ones `tx_root`, or with no transactions, is skipped; a failed chunk fetch abandons the block. A fetched chunk whose transactions all miss is a miss; otherwise the first transaction that does not miss gives the chunk's outcome |
| `MintScanner.BlockProbe` | src/services/near.js:506-577 | a block whose fetch fails yields a failure, and the scan passes over it. A fetched block whose chunks all miss is a miss; otherwise the first chunk that does not miss gives the block's outcome |
| `MintScanner.FirstHit` | src/services/near.js:506-582 | at most one event. The result is empty exactly when no height in `[start, end]` yields one. Otherwise it is the event of the lowest such height |
| `MintScanner.ScanHeights` | src/services/near.js:506-582 | the height loop equals the functional scan and visits heights upward from the start without passing the end. Any event comes from the last height visited, so the scan stops there. With no event it visits the whole range |
| `MintScanner.GetPastMintEventsInBatches` | src/services/near.js:502-583 | `getPastMintEventsInBatches` on the home chain's blocks returns at most one event, and that event comes from the last block it visited |
| `MintScanner.FirstHitAfterMisses` | src/services/near.js:506-508 | heights that all miss can be skipped without changing the scan's result |
| `MintScanner.ForeignReceiverExcluded` | src/services/near.js:527-531 | a transaction whose receiver is not the contract is excluded, whatever its logs contain |
| `MintScanner.FirstMintReceiptDecides` | src/services/near.js:538-551 | if the first receipt with a mint log did not succeed with `""`, the transaction yields nothing, even when a later receipt would |
| `MintScanner.SingleMintIsFound` | src/services/near.js:506-583 | with exactly one height in range whose block yields an event, the scan returns that event |
| `MintScanner.ChunkHitIsFirstQualifyingTx` | src/services/near.js:524-576 | a chunk's event comes from its first qualifying transaction, and every earlier transaction in the chunk missed |
| `MintScanner.BlockHitIsFirstInOrder` | src/services/near.js:509-576 | a block's event comes from the first qualifying transaction of its first qualifying chunk. Every earlier chunk and transaction missed |
| `MintScanner.ChunkFirstQualifyingIsHit` | src/services/near.js:510-576 | conversely, a chunk whose first transaction that does not miss qualifies with an event yields exactly that event |
| `MintScanner.BlockFirstQualifyingIsHit` | src/services/near.js:506-576 | conversely, a fetched block whose chunks before `i` all miss, with chunk `i`'s first deciding transaction qualifying with an event, yields exactly that event |
| `MintScanner.QualifyingMintIsFound` | src/services/near.js:502-583 | one height of the range holds such a block and no other height yields an event: the scan returns exactly that event |
| `Common.FindFirst` | src/services/near.js:539-549 | `find` returns the first element that satisfies the test, or nothing exactly when no element does |
| `Common.Filter` | src/utils/validateAtlasBtcDeposits.js:38-43 | `filter` keeps exactly the elements that satisfy the test, and nothing else |
| `Common.FilterAppend` | src/utils/validateAtlasBtcDeposits.js:38-43 | filtering keeps relative order: it distributes over concatenation |
| `Common.ContainsInfix` | src/services/near.js:475 | any message that embeds the marker text is recognised by `includes` |
| `Common.ContainsHasPosition` | src/services/near.js:475 | conversely, `includes` holds only when some position of the message starts a copy of the marker text |
| `RedemptionId.Split` | src/services/near.js:399 | the fields have no comma, there is at least one, and joining them with commas gives back the input |
| `RedemptionId.SplitField` | src/services/near.js:399 | a comma-free string splits into itself alone |
| `RedemptionId.SplitAtFirstSeparator` | src/services/near.js:399 | the first comma after a comma-free head ends the first field, and the rest is split on its own |
| `RedemptionId.FirstFieldOfJoin` | src/services/near.js:399 | the first field of a comma-join is its first part |
| `RedemptionId.SplitJoin` | src/services/near.js:399 | splitting a comma-join of comma-free fields gives back the fields |
| `RedemptionId.RedemptionTxnHash` | src/services/near.js:398-401 | the result is missing exactly when the id has no comma; otherwise it is a comma-free field |
| `RedemptionId.RedemptionTxnHashOfPair` | src/services/near.js:398-401 | from `chainId,hash[,...]` the result is `hash` |
| `DepositRecords.ConfirmationCandidates` | src/utils/validateAtlasBtcDeposits.js:30-43 | exactly the snapshot's deposits with status `BTC_DEPOSITED_INTO_ATLAS`, empty remarks and `verified_count` below the single SIGNET threshold |
| `DepositRecords.MintedHashCandidates` | src/utils/validateAtlasBtcDeposits.js:123-132 | the filter throws exactly when some deposit's chain has no configuration. Otherwise it keeps exactly the deposits that meet all four conditions: pending-mint status, empty remarks, `minted_txn_hash_verified_count` below their own chain's threshold, and a non-empty minted hash |
| `DepositRecords.BuildRecord` | src/utils/validateAtlasBtcDeposits.js:57-90 | the amount is the amount received plus the fee. The amount received is 0 unless chain and address are both set. The status is "deposited" only when the transaction is confirmed. The counters are 0, the minted hash and custody id are empty, and both timestamps are the block time |
| `DepositRecords.ReceivedAmount` | src/utils/validateAtlasBtcDeposits.js:57-66 | the receiving amount is looked up only when both chain id and address are set, and is 0 otherwise |
| `DepositRecords.CandidateRecord` | src/utils/validateAtlasBtcDeposits.js:48-90 | a candidate exists exactly when every custody-chain lookup succeeds, and it is the record built from their answers |
| `DepositRecords.ConfirmedCandidateAwaitsConfirmation` | src/utils/validateAtlasBtcDeposits.js:68-90 | the candidate for a confirmed transaction with no remark is itself awaiting confirmation under any positive threshold |
| `DepositRecords.EarliestTimestamp` | src/utils/validateAtlasBtcDeposits.js:139-142 | the minimum is at most every eligible timestamp and equals one of them |
| `DepositPasses.ConfirmationVotes` | src/utils/validateAtlasBtcDeposits.js:47-100 | for any candidate builder and vote outcome: one vote per eligible record, in order, carrying that record's candidate. A record whose candidate is built, after records that all went through, is voted. The loop completes exactly when no lookup and no vote throws, and then every record was voted. A record whose lookups throw gets no vote, and neither does any later record. A vote that throws is the last call |
| `DepositPasses.ConfirmationBody` | src/utils/validateAtlasBtcDeposits.js:26-100 | an unknown SIGNET configuration throws before any call. Every vote carries the candidate of a snapshot deposit awaiting confirmation under the SIGNET threshold. Vote `k` carries the candidate of eligible record `k`, in snapshot order, and a record whose candidate is built after records that all went through is voted. A vote that throws is the last call, and the body then does not complete. The body completes exactly when the configuration is known and nothing about any such deposit throws, and then it voted once per such deposit |
| `DepositPasses.ValidateAtlasBtcDeposits` | src/utils/validateAtlasBtcDeposits.js:8-109 | with the flag set: no calls and flags unchanged. Otherwise the flag is clear at the end, whether the pass completed or threw, and it completed exactly when nothing about any eligible deposit threw. Every call is a confirmation vote for a snapshot deposit with empty remarks and "deposited" status. Vote `k` carries eligible record `k`'s candidate, and no record is skipped before the first throw. A vote that throws is the last call, and the pass then ends in a throw |
| `DepositPasses.MintedHashStep` | src/utils/validateAtlasBtcDeposits.js:144-216 | a deposit with no chain configuration throws. Every lookup of a deposit uses the earliest timestamp. A vote is only ever for this deposit's hash, and only on an EVM chain. On an EVM chain a failed lookup or scan throws after the lookup. No matching event means no vote. Otherwise the vote carries the first matching event's `btcTxnHash` and `transactionHash`, and the step completes exactly when the vote returns. On a NEAR chain a failed start-block resolution or current-height call throws after the lookup; otherwise the lookup is the only call and the step completes exactly when no scanned event carries the deposit's hash. A chain of neither type is passed over |
| `DepositPasses.EvmStep` | src/utils/validateAtlasBtcDeposits.js:167-183 | with no event carrying the deposit's hash there is no vote and the step completes. Otherwise the vote carries the first matching event's `btcTxnHash` and `transactionHash`, and the step completes exactly when that vote returns |
| `DepositPasses.EvmStepVotesIffMatch` | src/utils/validateAtlasBtcDeposits.js:167-178 | the EVM branch votes exactly when some event carries the deposit's hash, and the vote names the hashes of the first such event |
| `DepositPasses.EvmMatchIsVoted` | src/utils/validateAtlasBtcDeposits.js:146-178 | on an EVM chain whose events were fetched, the minted-hash step votes exactly when some event carries the deposit's hash, with the hashes of the first such event |
| `DepositPasses.StepsActions` | src/utils/validateAtlasBtcDeposits.js:144-217 | the calls of a run of steps are exactly the calls of some step of the run |
| `DepositPasses.StepsUntilThrow` | src/utils/validateAtlasBtcDeposits.js:144-217 | the record loop without a per-record catch completes exactly when every step completes. Its calls are those of the steps up to and including the first that throws, and every call is a call of some step |
| `DepositPasses.MintedHashVotes` | src/utils/validateAtlasBtcDeposits.js:144-217 | lookups all use the earliest timestamp, and every vote names the hash of an eligible EVM-chain deposit. The loop completes exactly when every eligible deposit's step completes. Its calls are the steps' calls, in order, up to and including the first step that throws |
| `DepositPasses.StepActionSafe` | src/utils/validateAtlasBtcDeposits.js:144-216 | a call of one deposit's step is a lookup from the earliest timestamp or a vote for an eligible EVM-chain deposit |
| `DepositPasses.MintedHashBody` | src/utils/validateAtlasBtcDeposits.js:122-221 | an empty eligible set, or a filter that throws, means no lookup and no call. With candidates the body completes exactly when every candidate's step, from the earliest timestamp, completes, and otherwise throws. Every lookup's timestamp is at most every eligible timestamp and equals one of them. Every vote concerns an eligible deposit on an EVM chain. With candidates, the calls are those of the candidates' steps in order, up to and including the first step that throws, and all of them when the body completes |
| `DepositPasses.ValidateAtlasBtcDepositsMintedTxnHash` | src/utils/validateAtlasBtcDeposits.js:111-226 | with the flag set: no calls and flags unchanged. Otherwise the flag is clear at the end, whether the pass completed, returned early on the empty set, or threw. It completes exactly when there are candidates and every candidate's step completes. The calls are those of the candidates' steps in order, up to and including the first step that throws |
| `DepositPasses.AnomalyFreeze` | src/utils/validateAtlasBtcDeposits.js:38-132 | in the confirmation pass every vote concerns some snapshot deposit with an empty remark. In the minted-hash pass no vote concerns a deposit with a remark, when the snapshot keys deposits uniquely by hash |
| `DepositPasses.NearBranchNeverVotes` | src/utils/validateAtlasBtcDeposits.js:186-216 | when all deposits live on NEAR-type chains, the minted-hash pass issues lookups only, never a vote |
| `DepositPasses.NearMatchThrows` | src/utils/validateAtlasBtcDeposits.js:186-203 | a NEAR deposit whose event is found throws in its step, after its lookup and with no vote |
| `DepositPasses.NearMatchEndsPass` | src/utils/validateAtlasBtcDeposits.js:144-223 | a NEAR candidate whose event is found ends the whole minted-hash pass as a throw, whatever the other candidates do |
| `DepositPasses.SingleEligibleDepositOneVote` | src/utils/validateAtlasBtcDeposits.js:38-100 | one eligible deposit with a found custody transaction gets exactly one vote, and the pass completes |
| `DepositPasses.CleanPassVotesForAll` | src/utils/validateAtlasBtcDeposits.js:38-100 | when nothing about any eligible deposit throws, the pass completes with exactly one vote per deposit awaiting confirmation, in order, each carrying that deposit's candidate |
| `DepositPasses.MissingCustodyTxnStopsPass` | src/utils/validateAtlasBtcDeposits.js:47-107 | a custody transaction that cannot be fetched ends the pass as a throw. It gets no vote, later records get none, and the flag is still cleared. When every earlier record went through, exactly the earlier records were voted |

## Left out

- The `Near` constructor, `init`, the view/change call helpers and the one-line ledger wrappers (src/services/near.js:10-395) are out. They are foreign calls with key management. Votes appear as `Action` values and their success as a parameter.
- Block, chunk, `txStatus` and latest-block fetches are network I/O. Each is a function from its arguments to an outcome. The block at a height is taken to be that height's block.
- `JSON.parse` of event logs and memos, and the `"EVENT_JSON:"` prefix strip, are out. They are abstract parsers returning an optional value. A chunk without a `transactions` field is treated like an empty one.
- The nanosecond-to-second conversion is exact integer division. JavaScript's floating-point precision loss above 2^53 is not modelled.
- The EVM branch of the minted-hash pass (the `Ethereum` resolver, current height and scanner) is one opaque parameter. That module is not part of this model.
- The custody-chain helpers (`fetchTxnByTxnID`, `getBtcSenderAddress`, `getChainAndAddressFromTxnHash`, `getBtcReceivingAmount`), `getConstants` and `getChainConfig` are out. Those modules are not part of this model; they are parameters.
- `incrementDepositMintedTxnHashVerifiedCount` is not defined in src/services/near.js. It is an abstract vote whose success is a parameter.
- src/validator.js is out. It is process bootstrap: configuration loading, the endless poll loop with its 10-second sleep, and snapshot fetching.
- A `null` sender address or an `undefined` receiving amount does not throw in the source: the record is built and voted. The model treats each helper's answer as a plain value, so `btc_amount` is never `NaN` here.
- Logging is out.
- The concurrency the single-flight flags guard against is not modelled. A pass is one function call, so the flag is observable only before and after the pass.
- DepositPasses.MintedHashStep: when the resolver returns `null`, the scan starts at height 0. The source's first fetch in that case actually uses a `null` block id, and later heights count from 1.
- Monotonicity of `verified_count` across passes is not modelled. The counts are kept by the ledger contract, not by this code.
- DepositPasses.AnomalyFreeze: for the confirmation pass it does not promise that no vote concerns the remarked deposit itself. That vote's hash comes from the Bitcoin transaction listing, which the model does not tie to the record's hash. It promises only that each vote concerns some deposit with an empty remark.
