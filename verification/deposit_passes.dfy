/** The two deposit validation passes, `ValidateAtlasBtcDeposits` and
    `ValidateAtlasBtcDepositsMintedTxnHash`, as functions from the ledger
    snapshot, the job flags and the external services to the calls the pass
    issues, how it ended, and the job flags afterwards. */
module DepositPasses {
  import opened Common
  import opened NearRpc
  import opened DepositRecords
  import BlockResolver
  import MintScanner

  /** An EVM mint event as the EVM scanner reports it: `returnValues.btcTxnHash`
      and `transactionHash`. */
  datatype EvmEvent = EvmEvent(btcTxnHash: string, transactionHash: string)

  /** The home chain as the minted-hash pass sees it: the latest block's height
      (None when `getLatestBlock` fails), the current height (None when that
      call throws), the provider and the ledger contract id. */
  datatype NearServices = NearServices(
    latestHeight: Option<int>,
    currentHeight: Option<int>,
    chain: NearChain,
    contractId: string)

  /** Everything a pass consults besides the snapshot:
      - `chainConfig`: `getChainConfig` (None when the chain is unknown);
      - `evmEvents`: the EVM resolver, current height and scanner together, for a
        chain id and a start timestamp (None when any of them throws);
      - `depositVoteOk`, `mintedHashVoteOk`: whether the vote call returns rather
        than throws. */
  datatype Services = Services(
    constants: Constants,
    chainConfig: string -> Option<ChainConfig>,
    bitcoin: Bitcoin,
    near: NearServices,
    evmEvents: (string, int) -> Option<seq<EvmEvent>>,
    depositVoteOk: DepositRecord -> bool,
    mintedHashVoteOk: (string, string) -> bool)

  /** The externally visible effects of a pass: a destination-chain block
      lookup by timestamp, and the two vote calls to the ledger contract. */
  datatype Action =
    | BlockLookup(chainId: string, timestamp: int)
    | DepositVote(candidate: DepositRecord)
    | MintedHashVote(btcTxnHash: string, mintedTxnHash: string)

  /** The effects of a stretch of a pass, and whether it ran to its end
      (false: it threw, and nothing after the throw happened). */
  datatype Votes = Votes(actions: seq<Action>, completed: bool)

  /** The process-wide single-flight flags of the two deposit jobs. */
  datatype JobFlags = JobFlags(depositsRunning: bool, mintedTxnHashRunning: bool)

  /** How a pass ended: skipped because its flag was set, the empty-set early
      return, normal completion, or an exception caught at the pass boundary. */
  datatype Outcome = Skipped | NothingToValidate | Completed | Threw

  /** The calls a pass body issued and how it ended. */
  datatype BodyRun = BodyRun(actions: seq<Action>, outcome: Outcome)

  /** A whole pass: its body's calls and ending, and the job flags afterwards. */
  datatype PassRun = PassRun(actions: seq<Action>, outcome: Outcome, flags: JobFlags)

  // ---------------------------------------------------------------------------
  // Confirmation pass

  /** The custody-chain lookups for `d` return and the vote with its candidate
      returns: nothing about `d` throws. */
  predicate VoteGoesThrough(d: DepositRecord, s: Services, depositAddress: string)
  {
    CandidateRecord(d, s.bitcoin, depositAddress, s.constants).Some?
    && s.depositVoteOk(CandidateRecord(d, s.bitcoin, depositAddress, s.constants).value)
  }

  /** The candidate built for each ledger record, None when a lookup throws. */
  function CandidateOf(s: Services, depositAddress: string): DepositRecord -> Option<DepositRecord>
  {
    (d: DepositRecord) => CandidateRecord(d, s.bitcoin, depositAddress, s.constants)
  }

  /** Building `d`'s candidate and voting with it both return. */
  predicate GoesThrough(d: DepositRecord, candidateOf: DepositRecord -> Option<DepositRecord>, voteOk: DepositRecord -> bool)
  {
    candidateOf(d).Some? && voteOk(candidateOf(d).value)
  }

  /** The confirmation votes for `eligible`, one record after the other: build
      the candidate, submit it, go on. There is no per-record catch, so the
      first lookup or vote that throws ends the loop. */
  function ConfirmationVotes(eligible: seq<DepositRecord>, candidateOf: DepositRecord -> Option<DepositRecord>,
                             voteOk: DepositRecord -> bool): (r: Votes)
    // one vote per record, in order, each carrying that record's candidate
    ensures |r.actions| <= |eligible|
    ensures forall k :: 0 <= k < |r.actions| ==>
              r.actions[k].DepositVote? && candidateOf(eligible[k]) == Some(r.actions[k].candidate)
    // completed: every record got its vote
    ensures r.completed ==> |r.actions| == |eligible|
    // a record whose lookups throw gets no vote, and neither does any later record
    ensures forall k :: 0 <= k < |eligible| && candidateOf(eligible[k]).None? ==> |r.actions| <= k && !r.completed
    // a vote that throws is the last call
    ensures forall k :: 0 <= k < |r.actions| && !voteOk(r.actions[k].candidate) ==>
              k == |r.actions| - 1 && !r.completed
    // a record whose candidate is built, after records that all went through, is voted
    ensures forall k :: 0 <= k < |eligible| && candidateOf(eligible[k]).Some?
                        && (forall j :: 0 <= j < k ==> GoesThrough(eligible[j], candidateOf, voteOk)) ==>
              k < |r.actions|
    // the loop completes exactly when nothing about any record throws
    ensures r.completed <==> forall k :: 0 <= k < |eligible| ==> GoesThrough(eligible[k], candidateOf, voteOk)
    decreases |eligible|
  {
    if |eligible| == 0 then Votes([], true)
    else
      match candidateOf(eligible[0])
      case None => Votes([], false)
      case Some(candidate) =>
        if !voteOk(candidate) then Votes([DepositVote(candidate)], false)
        else
          var rest := ConfirmationVotes(eligible[1..], candidateOf, voteOk);
          assert forall k :: 1 <= k < |eligible| ==> eligible[k] == eligible[1..][k - 1];
          Votes([DepositVote(candidate)] + rest.actions, rest.completed)
  }

  /** The body of the confirmation pass: the SIGNET threshold, the filter, the
      votes. An unknown SIGNET configuration throws before any call. */
  function ConfirmationBody(deposits: seq<DepositRecord>, depositAddress: string, s: Services): (r: Votes)
    ensures s.chainConfig(s.constants.signet).None? ==> r == Votes([], false)
    // each vote carries the candidate of a deposit awaiting confirmation under the SIGNET threshold
    ensures forall k :: 0 <= k < |r.actions| ==>
              r.actions[k].DepositVote?
              && s.chainConfig(s.constants.signet).Some?
              && exists d :: d in deposits
                             && AwaitingConfirmation(d, s.constants, s.chainConfig(s.constants.signet).value.validatorsThreshold)
                             && CandidateRecord(d, s.bitcoin, depositAddress, s.constants) == Some(r.actions[k].candidate)
    // a vote that throws is the last call
    ensures forall k :: 0 <= k < |r.actions| && r.actions[k].DepositVote? && !s.depositVoteOk(r.actions[k].candidate) ==>
              k == |r.actions| - 1 && !r.completed
    // a completed pass voted once for every such deposit
    ensures r.completed ==>
              s.chainConfig(s.constants.signet).Some?
              && |r.actions| == |ConfirmationCandidates(deposits, s.constants, s.chainConfig(s.constants.signet).value.validatorsThreshold)|
    ensures r.completed <==>
              s.chainConfig(s.constants.signet).Some?
              && var eligible := ConfirmationCandidates(deposits, s.constants, s.chainConfig(s.constants.signet).value.validatorsThreshold);
                 forall k :: 0 <= k < |eligible| ==> VoteGoesThrough(eligible[k], s, depositAddress)
    // the votes follow the eligible records in snapshot order, vote k carrying
    // record k's candidate; a record whose candidate is built, after records
    // that all went through, is voted
    ensures s.chainConfig(s.constants.signet).Some? ==>
              var eligible := ConfirmationCandidates(deposits, s.constants, s.chainConfig(s.constants.signet).value.validatorsThreshold);
              && (forall k :: 0 <= k < |r.actions| ==>
                    k < |eligible| && CandidateRecord(eligible[k], s.bitcoin, depositAddress, s.constants).Some?
                    && r.actions[k] == DepositVote(CandidateRecord(eligible[k], s.bitcoin, depositAddress, s.constants).value))
              && (forall k :: 0 <= k < |eligible| && CandidateRecord(eligible[k], s.bitcoin, depositAddress, s.constants).Some?
                              && (forall j :: 0 <= j < k ==> VoteGoesThrough(eligible[j], s, depositAddress)) ==>
                    k < |r.actions|)
  {
    match s.chainConfig(s.constants.signet)
    case None => Votes([], false)
    case Some(cfg) =>
      ConfirmationVotes(ConfirmationCandidates(deposits, s.constants, cfg.validatorsThreshold),
                        CandidateOf(s, depositAddress), s.depositVoteOk)
  }

  /** `ValidateAtlasBtcDeposits` behind its single-flight flag. */
  function ValidateAtlasBtcDeposits(flags: JobFlags, deposits: seq<DepositRecord>, depositAddress: string, s: Services)
    : (r: PassRun)
    // flag already set: nothing happens and the flags stay as they were
    ensures flags.depositsRunning ==> r == PassRun([], Skipped, flags)
    // otherwise the flag is clear at the end however the pass ended; the other job's flag is untouched
    ensures !flags.depositsRunning ==>
              r.outcome in {Completed, Threw} && !r.flags.depositsRunning
              && r.flags.mintedTxnHashRunning == flags.mintedTxnHashRunning
    // the pass completes exactly when the SIGNET configuration is known and
    // nothing about any eligible deposit throws
    ensures !flags.depositsRunning ==>
              (r.outcome == Completed <==>
                 s.chainConfig(s.constants.signet).Some?
                 && var eligible := ConfirmationCandidates(deposits, s.constants, s.chainConfig(s.constants.signet).value.validatorsThreshold);
                    forall k :: 0 <= k < |eligible| ==> VoteGoesThrough(eligible[k], s, depositAddress))
    // only confirmation votes, each for a deposit of the snapshot that was awaiting confirmation
    ensures forall k :: 0 <= k < |r.actions| ==>
              r.actions[k].DepositVote?
              && exists d :: d in deposits && d.remarks == "" && d.status == s.constants.btcDepositedIntoAtlas
                             && CandidateRecord(d, s.bitcoin, depositAddress, s.constants) == Some(r.actions[k].candidate)
    // a vote that throws is the last call, and the pass ends in its catch block
    ensures forall k :: 0 <= k < |r.actions| && r.actions[k].DepositVote? && !s.depositVoteOk(r.actions[k].candidate) ==>
              k == |r.actions| - 1 && r.outcome == Threw
    // in snapshot order, one per eligible record, none skipped before the first throw
    ensures !flags.depositsRunning && s.chainConfig(s.constants.signet).Some? ==>
              var eligible := ConfirmationCandidates(deposits, s.constants, s.chainConfig(s.constants.signet).value.validatorsThreshold);
              && (forall k :: 0 <= k < |r.actions| ==>
                    k < |eligible| && CandidateRecord(eligible[k], s.bitcoin, depositAddress, s.constants).Some?
                    && r.actions[k] == DepositVote(CandidateRecord(eligible[k], s.bitcoin, depositAddress, s.constants).value))
              && (forall k :: 0 <= k < |eligible| && CandidateRecord(eligible[k], s.bitcoin, depositAddress, s.constants).Some?
                              && (forall j :: 0 <= j < k ==> VoteGoesThrough(eligible[j], s, depositAddress)) ==>
                    k < |r.actions|)
  {
    if flags.depositsRunning then PassRun([], Skipped, flags)
    else
      var body := ConfirmationBody(deposits, depositAddress, s);
      PassRun(body.actions, if body.completed then Completed else Threw, flags.(depositsRunning := false))
  }

  // ---------------------------------------------------------------------------
  // Minted-hash pass

  /** One deposit of the minted-hash pass, by the network type of its chain.
      - no configuration: reading its `networkType` throws;
      - EVM: look the chain up from `earliest`, find the first event whose
        `btcTxnHash` is the deposit's, and vote with that event.
      - NEAR: resolve the start block from `earliest` (a `null` start scans from
        height 0), scan up to the current height, and find the deposit's event.
        A match reads `matchingEvent.returnValues`, which the scanner's events do
        not have, so it throws before any vote.
      - any other type: nothing. */
  function MintedHashStep(d: DepositRecord, earliest: int, s: Services): (r: Votes)
    ensures s.chainConfig(d.receivingChainId).None? ==> r == Votes([], false)
    ensures forall k :: 0 <= k < |r.actions| ==> !r.actions[k].DepositVote?
    ensures forall k :: 0 <= k < |r.actions| && r.actions[k].BlockLookup? ==>
              r.actions[k] == BlockLookup(d.receivingChainId, earliest)
    // a vote is only ever about this deposit, and only on an EVM chain
    ensures forall k :: 0 <= k < |r.actions| && r.actions[k].MintedHashVote? ==>
              r.actions[k].btcTxnHash == d.btcTxnHash
              && s.chainConfig(d.receivingChainId).Some?
              && s.chainConfig(d.receivingChainId).value.networkType == s.constants.evm
    // EVM: a failed lookup or scan throws after the lookup; no matching event
    // means no vote; otherwise the vote carries the first matching event's
    // hashes, and the step completes exactly when that vote returns
    ensures s.chainConfig(d.receivingChainId).Some?
            && s.chainConfig(d.receivingChainId).value.networkType == s.constants.evm ==>
              match s.evmEvents(d.receivingChainId, earliest)
              case None => r == Votes([BlockLookup(d.receivingChainId, earliest)], false)
              case Some(events) =>
                && ((forall i :: 0 <= i < |events| ==> events[i].btcTxnHash != d.btcTxnHash) ==>
                      r == Votes([BlockLookup(d.receivingChainId, earliest)], true))
                && (forall i :: 0 <= i < |events| && events[i].btcTxnHash == d.btcTxnHash
                                 && (forall j :: 0 <= j < i ==> events[j].btcTxnHash != d.btcTxnHash) ==>
                      r == Votes([BlockLookup(d.receivingChainId, earliest),
                                  MintedHashVote(events[i].btcTxnHash, events[i].transactionHash)],
                                 s.mintedHashVoteOk(events[i].btcTxnHash, events[i].transactionHash)))
    // NEAR: a failed start-block resolution or current-height call throws after
    // the lookup; otherwise the lookup is the only call, and the step completes
    // exactly when no scanned event carries the deposit's hash
    ensures s.chainConfig(d.receivingChainId).Some?
            && s.chainConfig(d.receivingChainId).value.networkType == s.constants.near
            && s.chainConfig(d.receivingChainId).value.networkType != s.constants.evm ==>
              var start := BlockResolver.Resolve(s.near.latestHeight, s.near.chain.block, earliest);
              && (start.Errored? || s.near.currentHeight.None? ==>
                    r == Votes([BlockLookup(d.receivingChainId, earliest)], false))
              && (!start.Errored? && s.near.currentHeight.Some? ==>
                    var events := MintScanner.PastMintEvents(s.near.chain, s.near.contractId,
                                                             if start.Resolved? then start.height else 0,
                                                             s.near.currentHeight.value);
                    r.actions == [BlockLookup(d.receivingChainId, earliest)]
                    && (r.completed <==> forall i :: 0 <= i < |events| ==> events[i].btcTxnHash != Some(d.btcTxnHash)))
    // a chain of neither type is passed over
    ensures s.chainConfig(d.receivingChainId).Some?
            && s.chainConfig(d.receivingChainId).value.networkType != s.constants.evm
            && s.chainConfig(d.receivingChainId).value.networkType != s.constants.near ==>
              r == Votes([], true)
  {
    match s.chainConfig(d.receivingChainId)
    case None => Votes([], false)
    case Some(cfg) =>
      var lookup := BlockLookup(d.receivingChainId, earliest);
      if cfg.networkType == s.constants.evm then
        match s.evmEvents(d.receivingChainId, earliest)
        case None => Votes([lookup], false)
        case Some(events) => EvmStep(d, lookup, events, s.mintedHashVoteOk)
      else if cfg.networkType == s.constants.near then
        var start := BlockResolver.Resolve(s.near.latestHeight, s.near.chain.block, earliest);
        if start.Errored? || s.near.currentHeight.None? then Votes([lookup], false)
        else
          var startHeight := if start.Resolved? then start.height else 0;
          var events := MintScanner.PastMintEvents(s.near.chain, s.near.contractId, startHeight, s.near.currentHeight.value);
          var matching := FindFirst(events, (e: MintScanner.MintEvent) => e.btcTxnHash == Some(d.btcTxnHash));
          Votes([lookup], matching.None?)
      else Votes([], true)
  }

  /** The EVM branch once the events are fetched: `lookup` happened, then the
      first event whose `btcTxnHash` is the deposit's, if any, is voted on. */
  function EvmStep(d: DepositRecord, lookup: Action, events: seq<EvmEvent>, voteOk: (string, string) -> bool): (r: Votes)
    ensures (forall i :: 0 <= i < |events| ==> events[i].btcTxnHash != d.btcTxnHash) ==> r == Votes([lookup], true)
    ensures forall i :: 0 <= i < |events| && events[i].btcTxnHash == d.btcTxnHash
                        && (forall j :: 0 <= j < i ==> events[j].btcTxnHash != d.btcTxnHash) ==>
              r == Votes([lookup, MintedHashVote(events[i].btcTxnHash, events[i].transactionHash)],
                         voteOk(events[i].btcTxnHash, events[i].transactionHash))
  {
    match FindFirst(events, (e: EvmEvent) => e.btcTxnHash == d.btcTxnHash)
    case None => Votes([lookup], true)
    case Some(i) =>
      var e := events[i];
      Votes([lookup, MintedHashVote(e.btcTxnHash, e.transactionHash)], voteOk(e.btcTxnHash, e.transactionHash))
  }

  /** The calls of every step of `ds`, one step after the other, as if none threw. */
  function StepsActions(ds: seq<DepositRecord>, step: DepositRecord -> Votes): (r: seq<Action>)
    ensures forall a :: a in r <==> exists i :: 0 <= i < |ds| && a in step(ds[i]).actions
    decreases |ds|
  {
    if |ds| == 0 then []
    else
      var rest := StepsActions(ds[1..], step);
      assert forall i :: 1 <= i < |ds| ==> ds[i] == ds[1..][i - 1];
      step(ds[0]).actions + rest
  }

  /** Record `i` is the first of `ds` whose step throws. */
  predicate StopsAt(ds: seq<DepositRecord>, step: DepositRecord -> Votes, i: int)
  {
    0 <= i < |ds| && !step(ds[i]).completed && forall j :: 0 <= j < i ==> step(ds[j]).completed
  }

  /** The `for` loop over records with no per-record catch: the steps run in
      order and the first one that throws ends the loop, its calls included. */
  function StepsUntilThrow(ds: seq<DepositRecord>, step: DepositRecord -> Votes): (r: Votes)
    // the loop completes exactly when every step completes
    ensures r.completed <==> forall i :: 0 <= i < |ds| ==> step(ds[i]).completed
    // the calls are those of the steps up to and including the first that throws
    ensures forall i :: StopsAt(ds, step, i) ==> r.actions == StepsActions(ds[..i + 1], step)
    ensures r.completed ==> r.actions == StepsActions(ds, step)
    ensures !r.completed ==> exists i :: StopsAt(ds, step, i)
    // so every call is a call of some step
    ensures forall a :: a in r.actions ==> exists i :: 0 <= i < |ds| && a in step(ds[i]).actions
    decreases |ds|
  {
    if |ds| == 0 then Votes([], true)
    else
      var first := step(ds[0]);
      if !first.completed then
        assert ds[..1][1..] == [];
        assert forall i :: StopsAt(ds, step, i) ==> i == 0;
        assert StopsAt(ds, step, 0);
        first
      else
        var rest := StepsUntilThrow(ds[1..], step);
        assert forall i :: 1 <= i < |ds| ==> ds[i] == ds[1..][i - 1];
        assert forall i :: StopsAt(ds, step, i) ==> i > 0 && StopsAt(ds[1..], step, i - 1)
                                                    && ds[..i + 1][1..] == ds[1..][..i];
        assert forall i :: StopsAt(ds[1..], step, i) ==> StopsAt(ds, step, i + 1);
        Votes(first.actions + rest.actions, rest.completed)
  }

  /** The step of the minted-hash pass for each record, all from `earliest`. */
  function MintedHashSteps(earliest: int, s: Services): DepositRecord -> Votes
  {
    (d: DepositRecord) => MintedHashStep(d, earliest, s)
  }

  /** The minted-hash steps for `eligible` in order, stopping at the first throw. */
  function MintedHashVotes(eligible: seq<DepositRecord>, earliest: int, s: Services): (r: Votes)
    ensures forall k :: 0 <= k < |r.actions| ==> !r.actions[k].DepositVote?
    ensures forall k :: 0 <= k < |r.actions| && r.actions[k].BlockLookup? ==> r.actions[k].timestamp == earliest
    ensures forall k :: 0 <= k < |r.actions| && r.actions[k].MintedHashVote? ==>
              exists i :: 0 <= i < |eligible| && eligible[i].btcTxnHash == r.actions[k].btcTxnHash
                          && s.chainConfig(eligible[i].receivingChainId).Some?
                          && s.chainConfig(eligible[i].receivingChainId).value.networkType == s.constants.evm
    // the loop completes exactly when every record's step completes
    ensures r.completed <==> forall i :: 0 <= i < |eligible| ==> MintedHashStep(eligible[i], earliest, s).completed
    // its calls are the steps' calls, up to and including the first step that throws
    ensures forall i :: StopsAt(eligible, MintedHashSteps(earliest, s), i) ==>
              r.actions == StepsActions(eligible[..i + 1], MintedHashSteps(earliest, s))
    ensures r.completed ==> r.actions == StepsActions(eligible, MintedHashSteps(earliest, s))
  {
    var r := StepsUntilThrow(eligible, MintedHashSteps(earliest, s));
    assert forall k :: 0 <= k < |r.actions| ==> StepActionAllowed(r.actions[k], eligible, earliest, s) by {
      forall k | 0 <= k < |r.actions| ensures StepActionAllowed(r.actions[k], eligible, earliest, s) {
        assert r.actions[k] in r.actions;
        var i :| 0 <= i < |eligible| && r.actions[k] in MintedHashSteps(earliest, s)(eligible[i]).actions;
        StepActionSafe(eligible[i], earliest, s, r.actions[k], eligible, i);
      }
    }
    r
  }

  /** What a call of the minted-hash loop over `eligible` may be: a lookup from
      `earliest` or a vote for an eligible record on an EVM chain. */
  predicate StepActionAllowed(a: Action, eligible: seq<DepositRecord>, earliest: int, s: Services)
  {
    && !a.DepositVote?
    && (a.BlockLookup? ==> a.timestamp == earliest)
    && (a.MintedHashVote? ==>
          exists i :: 0 <= i < |eligible| && eligible[i].btcTxnHash == a.btcTxnHash
                      && s.chainConfig(eligible[i].receivingChainId).Some?
                      && s.chainConfig(eligible[i].receivingChainId).value.networkType == s.constants.evm)
  }

  /** A call of the step for `eligible[i]` is one the loop may make. */
  lemma StepActionSafe(d: DepositRecord, earliest: int, s: Services, a: Action, eligible: seq<DepositRecord>, i: int)
    requires 0 <= i < |eligible| && eligible[i] == d
    requires a in MintedHashStep(d, earliest, s).actions
    ensures StepActionAllowed(a, eligible, earliest, s)
  {
    var r := MintedHashStep(d, earliest, s);
    var k :| 0 <= k < |r.actions| && r.actions[k] == a;
  }

  /** The body of the minted-hash pass: filter, early return on an empty set,
      one earliest timestamp for all lookups, then the steps. */
  function MintedHashBody(deposits: seq<DepositRecord>, s: Services): (r: BodyRun)
    ensures r.outcome != Skipped
    // no candidates (or the filter threw): no lookup and no call at all
    ensures MintedHashCandidates(deposits, s.constants, s.chainConfig) == Some([]) ==> r.actions == [] && r.outcome == NothingToValidate
    ensures MintedHashCandidates(deposits, s.constants, s.chainConfig).None? ==> r.actions == [] && r.outcome == Threw
    // with candidates the pass completes exactly when every candidate's step,
    // from the earliest timestamp, completes; otherwise it threw
    ensures MintedHashCandidates(deposits, s.constants, s.chainConfig).Some?
            && |MintedHashCandidates(deposits, s.constants, s.chainConfig).value| > 0 ==>
              var eligible := MintedHashCandidates(deposits, s.constants, s.chainConfig).value;
              r.outcome in {Completed, Threw}
              && (r.outcome == Completed <==>
                    forall i :: 0 <= i < |eligible| ==> MintedHashStep(eligible[i], EarliestTimestamp(eligible), s).completed)
    // the calls are the candidates' steps' calls, in order, up to and including
    // the first step that throws
    ensures MintedHashCandidates(deposits, s.constants, s.chainConfig).Some?
            && |MintedHashCandidates(deposits, s.constants, s.chainConfig).value| > 0 ==>
              var eligible := MintedHashCandidates(deposits, s.constants, s.chainConfig).value;
              var step := MintedHashSteps(EarliestTimestamp(eligible), s);
              && (forall i :: StopsAt(eligible, step, i) ==> r.actions == StepsActions(eligible[..i + 1], step))
              && (r.outcome == Completed ==> r.actions == StepsActions(eligible, step))
    // every lookup uses the earliest timestamp of the eligible set
    ensures forall k :: 0 <= k < |r.actions| && r.actions[k].BlockLookup? ==>
              var eligible := MintedHashCandidates(deposits, s.constants, s.chainConfig).value;
              |eligible| > 0
              && (forall i :: 0 <= i < |eligible| ==> r.actions[k].timestamp <= eligible[i].timestamp)
              && (exists i :: 0 <= i < |eligible| && r.actions[k].timestamp == eligible[i].timestamp)
    // every vote concerns an eligible deposit on an EVM chain
    ensures forall k :: 0 <= k < |r.actions| ==>
              !r.actions[k].DepositVote?
              && (r.actions[k].MintedHashVote? ==>
                    exists d :: d in deposits && MintedHashEligible(d, s.constants, s.chainConfig)
                                && d.btcTxnHash == r.actions[k].btcTxnHash
                                && s.chainConfig(d.receivingChainId).value.networkType == s.constants.evm)
  {
    match MintedHashCandidates(deposits, s.constants, s.chainConfig)
    case None => BodyRun([], Threw)
    case Some(eligible) =>
      if |eligible| == 0 then BodyRun([], NothingToValidate)
      else
        var votes := MintedHashVotes(eligible, EarliestTimestamp(eligible), s);
        BodyRun(votes.actions, if votes.completed then Completed else Threw)
  }

  /** `ValidateAtlasBtcDepositsMintedTxnHash` behind its single-flight flag. */
  function ValidateAtlasBtcDepositsMintedTxnHash(flags: JobFlags, deposits: seq<DepositRecord>, s: Services): (r: PassRun)
    // flag already set: nothing happens and the flags stay as they were
    ensures flags.mintedTxnHashRunning ==> r == PassRun([], Skipped, flags)
    // otherwise the flag is clear at the end, after completion, early return or a throw
    ensures !flags.mintedTxnHashRunning ==>
              r.outcome in {Completed, NothingToValidate, Threw} && !r.flags.mintedTxnHashRunning
              && r.flags.depositsRunning == flags.depositsRunning
    // the pass completes exactly when there are candidates and every
    // candidate's step completes
    ensures !flags.mintedTxnHashRunning ==>
              (r.outcome == Completed <==>
                 MintedHashCandidates(deposits, s.constants, s.chainConfig).Some?
                 && var eligible := MintedHashCandidates(deposits, s.constants, s.chainConfig).value;
                    |eligible| > 0
                    && forall i :: 0 <= i < |eligible| ==> MintedHashStep(eligible[i], EarliestTimestamp(eligible), s).completed)
    // the calls are the candidates' steps' calls, in order, up to and including
    // the first step that throws
    ensures !flags.mintedTxnHashRunning
            && MintedHashCandidates(deposits, s.constants, s.chainConfig).Some?
            && |MintedHashCandidates(deposits, s.constants, s.chainConfig).value| > 0 ==>
              var eligible := MintedHashCandidates(deposits, s.constants, s.chainConfig).value;
              var step := MintedHashSteps(EarliestTimestamp(eligible), s);
              && (forall i :: StopsAt(eligible, step, i) ==> r.actions == StepsActions(eligible[..i + 1], step))
              && (r.outcome == Completed ==> r.actions == StepsActions(eligible, step))
    ensures forall k :: 0 <= k < |r.actions| ==> !r.actions[k].DepositVote?
  {
    if flags.mintedTxnHashRunning then PassRun([], Skipped, flags)
    else
      var body := MintedHashBody(deposits, s);
      PassRun(body.actions, body.outcome, flags.(mintedTxnHashRunning := false))
  }

  // ---------------------------------------------------------------------------
  // Properties across the passes

  /** The ledger record a vote is about. */
  predicate VoteConcerns(a: Action, d: DepositRecord, depositAddress: string, s: Services)
  {
    match a
    case BlockLookup(_, _) => false
    case DepositVote(candidate) => CandidateRecord(d, s.bitcoin, depositAddress, s.constants) == Some(candidate)
    case MintedHashVote(hash, _) => d.btcTxnHash == hash
  }

  /** Anomaly freeze: a deposit with a remark is never what a vote of either
      pass is about, provided the snapshot keys deposits uniquely by hash. */
  lemma AnomalyFreeze(flags: JobFlags, deposits: seq<DepositRecord>, depositAddress: string, s: Services, d: DepositRecord)
    requires d in deposits && d.remarks != ""
    requires forall i, j :: 0 <= i < |deposits| && 0 <= j < |deposits| && deposits[i].btcTxnHash == deposits[j].btcTxnHash ==> i == j
    ensures var r := ValidateAtlasBtcDeposits(flags, deposits, depositAddress, s);
            forall k :: 0 <= k < |r.actions| ==>
              exists e :: e in deposits && e.remarks == "" && VoteConcerns(r.actions[k], e, depositAddress, s)
    ensures var r := ValidateAtlasBtcDepositsMintedTxnHash(flags, deposits, s);
            forall k :: 0 <= k < |r.actions| && r.actions[k].MintedHashVote? ==>
              !VoteConcerns(r.actions[k], d, depositAddress, s)
  {
  }

  /** In the home-chain branch a match never turns into a vote: a pass whose
      eligible deposits all live on a NEAR-type chain issues no vote at all. */
  lemma NearBranchNeverVotes(flags: JobFlags, deposits: seq<DepositRecord>, s: Services)
    requires s.constants.near != s.constants.evm
    requires forall d :: d in deposits && s.chainConfig(d.receivingChainId).Some? ==>
               s.chainConfig(d.receivingChainId).value.networkType == s.constants.near
    ensures var r := ValidateAtlasBtcDepositsMintedTxnHash(flags, deposits, s);
            forall k :: 0 <= k < |r.actions| ==> r.actions[k].BlockLookup?
  {
  }

  /** On a NEAR-type chain the start block and the current height are found,
      and some scanned mint event carries `d`'s hash. */
  predicate NearMatch(d: DepositRecord, earliest: int, s: Services)
  {
    && s.chainConfig(d.receivingChainId).Some?
    && s.chainConfig(d.receivingChainId).value.networkType == s.constants.near != s.constants.evm
    && !BlockResolver.Resolve(s.near.latestHeight, s.near.chain.block, earliest).Errored?
    && s.near.currentHeight.Some?
    && var start := BlockResolver.Resolve(s.near.latestHeight, s.near.chain.block, earliest);
       var events := MintScanner.PastMintEvents(s.near.chain, s.near.contractId,
                                                if start.Resolved? then start.height else 0, s.near.currentHeight.value);
       exists i :: 0 <= i < |events| && events[i].btcTxnHash == Some(d.btcTxnHash)
  }

  /** A home-chain deposit whose mint event is found throws in its step: after
      the lookup, and with no vote. */
  lemma NearMatchThrows(d: DepositRecord, earliest: int, s: Services)
    requires NearMatch(d, earliest, s)
    ensures MintedHashStep(d, earliest, s) == Votes([BlockLookup(d.receivingChainId, earliest)], false)
  {
  }

  /** A home-chain deposit among the minted-hash candidates whose mint event is
      found ends the pass in its catch block, whatever the other deposits do. */
  lemma NearMatchEndsPass(flags: JobFlags, deposits: seq<DepositRecord>, s: Services, i: int)
    requires !flags.mintedTxnHashRunning
    requires MintedHashCandidates(deposits, s.constants, s.chainConfig).Some?
    requires var eligible := MintedHashCandidates(deposits, s.constants, s.chainConfig).value;
             0 <= i < |eligible| && NearMatch(eligible[i], EarliestTimestamp(eligible), s)
    ensures ValidateAtlasBtcDepositsMintedTxnHash(flags, deposits, s).outcome == Threw
  {
    var eligible := MintedHashCandidates(deposits, s.constants, s.chainConfig).value;
    NearMatchThrows(eligible[i], EarliestTimestamp(eligible), s);
  }

  /** A deposit awaiting confirmation whose custody transaction is found gets
      exactly one vote, carrying the candidate built for it, and the pass
      completes. */
  lemma SingleEligibleDepositOneVote(flags: JobFlags, d: DepositRecord, depositAddress: string, s: Services)
    requires !flags.depositsRunning
    requires s.chainConfig(s.constants.signet).Some?
    requires AwaitingConfirmation(d, s.constants, s.chainConfig(s.constants.signet).value.validatorsThreshold)
    requires CandidateRecord(d, s.bitcoin, depositAddress, s.constants).Some?
    requires s.depositVoteOk(CandidateRecord(d, s.bitcoin, depositAddress, s.constants).value)
    ensures ValidateAtlasBtcDeposits(flags, [d], depositAddress, s)
            == PassRun([DepositVote(CandidateRecord(d, s.bitcoin, depositAddress, s.constants).value)],
                       Completed, flags.(depositsRunning := false))
  {
    var threshold := s.chainConfig(s.constants.signet).value.validatorsThreshold;
    assert ConfirmationCandidates([d], s.constants, threshold) == [d];
    var candidate := CandidateRecord(d, s.bitcoin, depositAddress, s.constants).value;
    assert [d][1..] == [];
    assert ConfirmationVotes([d], CandidateOf(s, depositAddress), s.depositVoteOk) == Votes([DepositVote(candidate)], true);
  }

  /** The EVM branch votes exactly when some event carries the deposit's hash,
      and the vote names the hashes of the first such event. */
  lemma EvmStepVotesIffMatch(d: DepositRecord, lookup: Action, events: seq<EvmEvent>, voteOk: (string, string) -> bool)
    requires !lookup.MintedHashVote?
    ensures var r := EvmStep(d, lookup, events, voteOk);
            (exists k :: 0 <= k < |r.actions| && r.actions[k].MintedHashVote?)
            <==> (exists i :: 0 <= i < |events| && events[i].btcTxnHash == d.btcTxnHash)
    ensures var r := EvmStep(d, lookup, events, voteOk);
            forall k :: 0 <= k < |r.actions| && r.actions[k].MintedHashVote? ==>
              exists i :: 0 <= i < |events| && r.actions[k] == MintedHashVote(events[i].btcTxnHash, events[i].transactionHash)
                          && forall j :: 0 <= j < i ==> events[j].btcTxnHash != d.btcTxnHash
  {
    var r := EvmStep(d, lookup, events, voteOk);
    match FindFirst(events, (e: EvmEvent) => e.btcTxnHash == d.btcTxnHash)
    case None =>
      assert forall j :: 0 <= j < |events| ==> events[j].btcTxnHash != d.btcTxnHash;
      assert r.actions == [lookup];
    case Some(i) =>
      assert events[i].btcTxnHash == d.btcTxnHash;
      assert r.actions == [lookup, MintedHashVote(events[i].btcTxnHash, events[i].transactionHash)];
      assert r.actions[1].MintedHashVote?;
  }

  /** On an EVM chain whose events were fetched, the minted-hash step votes
      exactly when some event carries the deposit's hash, with the hashes of the
      first such event. */
  lemma EvmMatchIsVoted(d: DepositRecord, earliest: int, s: Services, events: seq<EvmEvent>)
    requires s.chainConfig(d.receivingChainId).Some?
    requires s.chainConfig(d.receivingChainId).value.networkType == s.constants.evm
    requires s.evmEvents(d.receivingChainId, earliest) == Some(events)
    ensures var r := MintedHashStep(d, earliest, s);
            (exists k :: 0 <= k < |r.actions| && r.actions[k].MintedHashVote?)
            <==> (exists i :: 0 <= i < |events| && events[i].btcTxnHash == d.btcTxnHash)
    ensures var r := MintedHashStep(d, earliest, s);
            forall k :: 0 <= k < |r.actions| && r.actions[k].MintedHashVote? ==>
              exists i :: 0 <= i < |events| && r.actions[k] == MintedHashVote(events[i].btcTxnHash, events[i].transactionHash)
                          && forall j :: 0 <= j < i ==> events[j].btcTxnHash != d.btcTxnHash
  {
    var lookup := BlockLookup(d.receivingChainId, earliest);
    assert MintedHashStep(d, earliest, s) == EvmStep(d, lookup, events, s.mintedHashVoteOk);
    EvmStepVotesIffMatch(d, lookup, events, s.mintedHashVoteOk);
  }

  /** When nothing about any eligible deposit throws, the pass completes with
      exactly one vote per deposit awaiting confirmation, in snapshot order,
      each carrying that deposit's candidate. */
  lemma CleanPassVotesForAll(flags: JobFlags, deposits: seq<DepositRecord>, depositAddress: string, s: Services)
    requires !flags.depositsRunning
    requires s.chainConfig(s.constants.signet).Some?
    requires var eligible := ConfirmationCandidates(deposits, s.constants, s.chainConfig(s.constants.signet).value.validatorsThreshold);
             forall k :: 0 <= k < |eligible| ==> VoteGoesThrough(eligible[k], s, depositAddress)
    ensures var r := ValidateAtlasBtcDeposits(flags, deposits, depositAddress, s);
            var eligible := ConfirmationCandidates(deposits, s.constants, s.chainConfig(s.constants.signet).value.validatorsThreshold);
            r.outcome == Completed && |r.actions| == |eligible|
            && forall k :: 0 <= k < |eligible| ==>
                 r.actions[k] == DepositVote(CandidateRecord(eligible[k], s.bitcoin, depositAddress, s.constants).value)
  {
  }

  /** A deposit whose custody transaction cannot be fetched ends the pass with
      no vote for it or for anything after it. */
  lemma MissingCustodyTxnStopsPass(flags: JobFlags, deposits: seq<DepositRecord>, depositAddress: string, s: Services, k: nat)
    requires !flags.depositsRunning
    requires s.chainConfig(s.constants.signet).Some?
    requires var eligible := ConfirmationCandidates(deposits, s.constants, s.chainConfig(s.constants.signet).value.validatorsThreshold);
             k < |eligible| && s.bitcoin.fetchTxn(eligible[k].btcTxnHash).None?
    ensures var r := ValidateAtlasBtcDeposits(flags, deposits, depositAddress, s);
            r.outcome == Threw && |r.actions| <= k && !r.flags.depositsRunning
    // when every earlier record went through, exactly the earlier records were voted
    ensures var eligible := ConfirmationCandidates(deposits, s.constants, s.chainConfig(s.constants.signet).value.validatorsThreshold);
            var r := ValidateAtlasBtcDeposits(flags, deposits, depositAddress, s);
            (forall j :: 0 <= j < k ==> VoteGoesThrough(eligible[j], s, depositAddress)) ==> |r.actions| == k
  {
    var eligible := ConfirmationCandidates(deposits, s.constants, s.chainConfig(s.constants.signet).value.validatorsThreshold);
    var r := ValidateAtlasBtcDeposits(flags, deposits, depositAddress, s);
    assert CandidateRecord(eligible[k], s.bitcoin, depositAddress, s.constants).None?;
    assert !VoteGoesThrough(eligible[k], s, depositAddress);
    if k > 0 && forall j :: 0 <= j < k ==> VoteGoesThrough(eligible[j], s, depositAddress) {
      assert VoteGoesThrough(eligible[k - 1], s, depositAddress);
      assert k - 1 < |r.actions|;
    }
  }
}
