/** Deposit records of the ledger contract, the eligibility filters of the two
    deposit validation passes, the candidate record a validator submits with
    its confirmation vote, and the earliest-timestamp reduction. */
module DepositRecords {
  import opened Common

  /** A deposit as the ledger contract stores it (`DepositRecord`). Addresses,
      hashes and ids are strings, where an absent value is the empty string. */
  datatype DepositRecord = DepositRecord(
    btcTxnHash: string,
    btcSenderAddress: string,
    receivingChainId: string,
    receivingAddress: string,
    btcAmount: int,
    feeAmount: int,
    mintedTxnHash: string,
    timestamp: int,
    status: int,
    remarks: string,
    dateCreated: int,
    verifiedCount: int,
    retryCount: int,
    mintedTxnHashVerifiedCount: int,
    custodyTxnId: string)

  /** The ledger's constants the passes read: two `DEPOSIT_STATUS` codes and
      three `NETWORK_TYPE` names. */
  datatype Constants = Constants(
    btcDepositedIntoAtlas: int,
    btcPendingMintedIntoAbtc: int,
    signet: string,
    evm: string,
    near: string)

  /** The parts of a chain configuration the passes read. */
  datatype ChainConfig = ChainConfig(validatorsThreshold: int, networkType: string)

  /** A custody-chain transaction: `txid` and `status.{confirmed, block_time}`. */
  datatype BtcTxn = BtcTxn(txid: string, confirmed: bool, blockTime: int)

  /** What `getChainAndAddressFromTxnHash` derives from a deposit's outputs. */
  datatype Destination = Destination(chain: string, address: string, remarks: string)

  /** The custody-chain helpers, each None where the pass throws on its
      account: `fetchTxnByTxnID` (a `null` transaction throws too, at
      `btcMempoolTxn.status`), `getBtcSenderAddress`,
      `getChainAndAddressFromTxnHash` (a `null` answer throws too, in the
      destructuring) and `getBtcReceivingAmount(txn, depositAddress)`. A `null`
      sender address or an `undefined` amount is not a throw: the record is
      still built. */
  datatype Bitcoin = Bitcoin(
    fetchTxn: string -> Option<BtcTxn>,
    senderAddress: BtcTxn -> Option<string>,
    chainAndAddress: BtcTxn -> Option<Destination>,
    receivingAmount: (BtcTxn, string) -> Option<int>)

  /** JavaScript truthiness of a string field. */
  predicate Truthy(s: string)
  {
    s != ""
  }

  /** Eligibility for the confirmation pass, against the one threshold of the
      SIGNET configuration. */
  predicate AwaitingConfirmation(d: DepositRecord, c: Constants, threshold: int)
  {
    d.status == c.btcDepositedIntoAtlas && d.remarks == "" && d.verifiedCount < threshold
  }

  /** Eligibility for the minted-hash pass, against the threshold of the
      deposit's own receiving chain. */
  predicate AwaitingMintedHash(d: DepositRecord, c: Constants, threshold: int)
  {
    && d.status == c.btcPendingMintedIntoAbtc
    && d.remarks == ""
    && d.mintedTxnHashVerifiedCount < threshold
    && Truthy(d.mintedTxnHash)
  }

  /** The deposits the confirmation pass works on, in ledger order. */
  function ConfirmationCandidates(deposits: seq<DepositRecord>, c: Constants, threshold: int): (r: seq<DepositRecord>)
    ensures |r| <= |deposits|
    ensures forall i :: 0 <= i < |r| ==> r[i] in deposits && AwaitingConfirmation(r[i], c, threshold)
    ensures forall i :: 0 <= i < |deposits| && AwaitingConfirmation(deposits[i], c, threshold) ==> deposits[i] in r
  {
    Filter(deposits, (d: DepositRecord) => AwaitingConfirmation(d, c, threshold))
  }

  /** Every deposit's receiving chain has a configuration. */
  predicate AllConfigured(deposits: seq<DepositRecord>, configs: string -> Option<ChainConfig>)
  {
    forall i :: 0 <= i < |deposits| ==> configs(deposits[i].receivingChainId).Some?
  }

  predicate MintedHashEligible(d: DepositRecord, c: Constants, configs: string -> Option<ChainConfig>)
  {
    configs(d.receivingChainId).Some?
    && AwaitingMintedHash(d, c, configs(d.receivingChainId).value.validatorsThreshold)
  }

  /** The deposits the minted-hash pass works on. The filter looks up the
      configuration of EVERY deposit's chain before testing its status, so one
      unknown chain anywhere makes the filter throw (None). */
  function MintedHashCandidates(deposits: seq<DepositRecord>, c: Constants, configs: string -> Option<ChainConfig>)
    : (r: Option<seq<DepositRecord>>)
    ensures r.None? <==> exists i :: 0 <= i < |deposits| && configs(deposits[i].receivingChainId).None?
    ensures r.Some? ==> |r.value| <= |deposits|
    ensures r.Some? ==> forall i :: 0 <= i < |r.value| ==> r.value[i] in deposits && MintedHashEligible(r.value[i], c, configs)
    ensures r.Some? ==> forall i :: 0 <= i < |deposits| && MintedHashEligible(deposits[i], c, configs) ==> deposits[i] in r.value
  {
    if AllConfigured(deposits, configs) then
      Some(Filter(deposits, (d: DepositRecord) => MintedHashEligible(d, c, configs)))
    else None
  }

  /** The record a validator proposes for a deposit from what the custody chain
      shows: the amount received (counted only when both destination chain and
      address were derived) plus the ledger's fee, the status "deposited" only
      for a confirmed transaction, fresh counters, and the block time as both
      timestamps. */
  function BuildRecord(ledger: DepositRecord, txn: BtcTxn, sender: string, dest: Destination, received: int, c: Constants)
    : (r: DepositRecord)
    requires !(Truthy(dest.chain) && Truthy(dest.address)) ==> received == 0
    ensures r.btcTxnHash == txn.txid && r.btcSenderAddress == sender
    ensures r.receivingChainId == dest.chain && r.receivingAddress == dest.address && r.remarks == dest.remarks
    ensures r.btcAmount - r.feeAmount == received && r.feeAmount == ledger.feeAmount
    ensures (Truthy(dest.chain) && Truthy(dest.address)) || r.btcAmount == ledger.feeAmount
    ensures r.status == (if txn.confirmed then c.btcDepositedIntoAtlas else 0)
    ensures r.verifiedCount == 0 && r.retryCount == 0 && r.mintedTxnHashVerifiedCount == 0
    ensures r.mintedTxnHash == "" && r.custodyTxnId == ""
    ensures r.timestamp == txn.blockTime && r.dateCreated == txn.blockTime
  {
    DepositRecord(
      btcTxnHash := txn.txid,
      btcSenderAddress := sender,
      receivingChainId := dest.chain,
      receivingAddress := dest.address,
      btcAmount := received + ledger.feeAmount,
      feeAmount := ledger.feeAmount,
      mintedTxnHash := "",
      timestamp := txn.blockTime,
      status := if txn.confirmed then c.btcDepositedIntoAtlas else 0,
      remarks := dest.remarks,
      dateCreated := txn.blockTime,
      verifiedCount := 0,
      retryCount := 0,
      mintedTxnHashVerifiedCount := 0,
      custodyTxnId := "")
  }

  /** The receiving amount: fetched only when both chain and address are set. */
  function ReceivedAmount(btc: Bitcoin, txn: BtcTxn, dest: Destination, depositAddress: string): (r: Option<int>)
    ensures !(Truthy(dest.chain) && Truthy(dest.address)) ==> r == Some(0)
    ensures Truthy(dest.chain) && Truthy(dest.address) ==> r == btc.receivingAmount(txn, depositAddress)
  {
    if Truthy(dest.chain) && Truthy(dest.address) then btc.receivingAmount(txn, depositAddress) else Some(0)
  }

  /** One record's custody-chain lookups and the record built from them; None
      when any lookup throws, which in `ValidateAtlasBtcDeposits` ends the whole pass. */
  function CandidateRecord(ledger: DepositRecord, btc: Bitcoin, depositAddress: string, c: Constants)
    : (r: Option<DepositRecord>)
    ensures r.Some? <==>
              && btc.fetchTxn(ledger.btcTxnHash).Some?
              && btc.senderAddress(btc.fetchTxn(ledger.btcTxnHash).value).Some?
              && btc.chainAndAddress(btc.fetchTxn(ledger.btcTxnHash).value).Some?
              && ReceivedAmount(btc, btc.fetchTxn(ledger.btcTxnHash).value,
                                btc.chainAndAddress(btc.fetchTxn(ledger.btcTxnHash).value).value, depositAddress).Some?
    ensures r.Some? ==>
              var txn := btc.fetchTxn(ledger.btcTxnHash).value;
              var dest := btc.chainAndAddress(txn).value;
              r.value == BuildRecord(ledger, txn, btc.senderAddress(txn).value, dest,
                                     ReceivedAmount(btc, txn, dest, depositAddress).value, c)
  {
    match btc.fetchTxn(ledger.btcTxnHash)
    case None => None
    case Some(txn) =>
      match btc.senderAddress(txn)
      case None => None
      case Some(sender) =>
        match btc.chainAndAddress(txn)
        case None => None
        case Some(dest) =>
          match ReceivedAmount(btc, txn, dest, depositAddress)
          case None => None
          case Some(received) => Some(BuildRecord(ledger, txn, sender, dest, received, c))
  }

  /** A confirmed custody transaction with no remark yields a candidate that is
      itself awaiting confirmation under any positive threshold: the vote asks
      the ledger to count one more confirmation of a fresh record. */
  lemma ConfirmedCandidateAwaitsConfirmation(ledger: DepositRecord, txn: BtcTxn, sender: string, dest: Destination,
                                             received: int, c: Constants, threshold: int)
    requires !(Truthy(dest.chain) && Truthy(dest.address)) ==> received == 0
    requires txn.confirmed && dest.remarks == "" && threshold > 0
    ensures AwaitingConfirmation(BuildRecord(ledger, txn, sender, dest, received, c), c, threshold)
  {
  }

  /** `Math.min(...timestamps)` over a non-empty set of deposits. */
  function EarliestTimestamp(deposits: seq<DepositRecord>): (m: int)
    requires |deposits| > 0
    ensures forall i :: 0 <= i < |deposits| ==> m <= deposits[i].timestamp
    ensures exists i :: 0 <= i < |deposits| && m == deposits[i].timestamp
    decreases |deposits|
  {
    if |deposits| == 1 then deposits[0].timestamp
    else
      var rest := EarliestTimestamp(deposits[1..]);
      assert forall i :: 1 <= i < |deposits| ==> deposits[i] == deposits[1..][i - 1];
      if deposits[0].timestamp <= rest then deposits[0].timestamp else rest
  }
}
