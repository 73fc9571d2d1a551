/** The batched mint-event scanner of the home chain: walk blocks
    `startBlock..endBlock` in ascending order, their chunks, the chunks'
    transactions addressed to the ledger contract, and return the first mint
    event found, stopping there. */
module MintScanner {
  import opened Common
  import opened NearRpc

  /** The `tx_root` of a chunk that holds no transactions. */
  const EmptyTxRoot: string := "11111111111111111111111111111111"
  /** The NEP-297 event name of a token mint. */
  const MintEventName: string := "ft_mint"

  /** `{btcTxnHash, transactionHash}`; the first is missing when the memo has no
      `btc_txn_hash`. */
  datatype MintEvent = MintEvent(btcTxnHash: Option<string>, transactionHash: string)

  /** What looking at one transaction, chunk or block yields: the event found,
      nothing, or a failure that abandons the rest of the block. */
  datatype Probe = Hit(event: MintEvent) | Miss | Broken

  /** A log line that parses as an event named `ft_mint`. */
  predicate IsMintLog(chain: NearChain, log: string)
  {
    chain.parseEvent(log).Some? && chain.parseEvent(log).value.event == MintEventName
  }

  /** A receipt with at least one mint log (`logs.some(...)`). */
  predicate HasMintLog(chain: NearChain, receipt: Receipt)
  {
    exists i :: 0 <= i < |receipt.logs| && IsMintLog(chain, receipt.logs[i])
  }

  /** Receipt `i` is the first of `receipts` carrying a mint log. */
  predicate FirstMintReceiptAt(chain: NearChain, receipts: seq<Receipt>, i: int)
  {
    0 <= i < |receipts| && HasMintLog(chain, receipts[i])
    && forall j :: 0 <= j < i ==> !HasMintLog(chain, receipts[j])
  }

  /** Log `m` is the first mint log of `logs`. */
  predicate FirstMintLogAt(chain: NearChain, logs: seq<string>, m: int)
  {
    0 <= m < |logs| && IsMintLog(chain, logs[m])
    && forall n :: 0 <= n < m ==> !IsMintLog(chain, logs[n])
  }

  /** A transaction is looked at only when its receiver is the contract. The
      first receipt carrying a mint log decides: it qualifies only with
      `SuccessValue === ""`, and its first mint log's `data[0].memo` is parsed
      for `btc_txn_hash`. A failed status call or an unreadable memo is a
      failure. */
  function TxProbe(chain: NearChain, contractId: string, tx: Transaction): (r: Probe)
    ensures tx.receiverId != contractId ==> r == Miss
    // a status call that throws abandons the block
    ensures tx.receiverId == contractId && chain.txStatus(tx.hash, tx.signerId).None? ==> r == Broken
    ensures r.Hit? ==> tx.receiverId == contractId && chain.txStatus(tx.hash, tx.signerId).Some?
    ensures r.Hit? ==> r.event.transactionHash == chain.txStatus(tx.hash, tx.signerId).value.transactionHash
    ensures r.Hit? ==>
              var receipts := chain.txStatus(tx.hash, tx.signerId).value.receipts;
              exists i :: FirstMintReceiptAt(chain, receipts, i) && receipts[i].successValue == Some("")
    // no receipt with a mint log, or a first one that did not succeed with "": nothing
    ensures tx.receiverId == contractId && chain.txStatus(tx.hash, tx.signerId).Some? ==>
              var receipts := chain.txStatus(tx.hash, tx.signerId).value.receipts;
              ((forall i :: 0 <= i < |receipts| ==> !HasMintLog(chain, receipts[i])) ==> r == Miss)
              && (forall i :: FirstMintReceiptAt(chain, receipts, i) && receipts[i].successValue != Some("") ==> r == Miss)
    // the qualifying receipt's first mint log decides: a missing `data[0].memo` or
    // a memo that does not parse abandons the block, otherwise the event carries
    // the memo's `btc_txn_hash` and the transaction's hash
    ensures tx.receiverId == contractId && chain.txStatus(tx.hash, tx.signerId).Some? ==>
              var status := chain.txStatus(tx.hash, tx.signerId).value;
              forall i, m :: FirstMintReceiptAt(chain, status.receipts, i) && status.receipts[i].successValue == Some("")
                             && FirstMintLogAt(chain, status.receipts[i].logs, m) ==>
                var event := chain.parseEvent(status.receipts[i].logs[m]).value;
                && (|event.data| == 0 || event.data[0].memo.None? ==> r == Broken)
                && (|event.data| > 0 && event.data[0].memo.Some? && chain.parseMemo(event.data[0].memo.value).None? ==> r == Broken)
                && (|event.data| > 0 && event.data[0].memo.Some? && chain.parseMemo(event.data[0].memo.value).Some? ==>
                      r == Hit(MintEvent(chain.parseMemo(event.data[0].memo.value).value.btcTxnHash, status.transactionHash)))
  {
    if tx.receiverId != contractId then Miss
    else
      match chain.txStatus(tx.hash, tx.signerId)
      case None => Broken
      case Some(status) =>
        match FindFirst(status.receipts, (rc: Receipt) => HasMintLog(chain, rc))
        case None => Miss
        case Some(i) =>
          assert forall i' :: FirstMintReceiptAt(chain, status.receipts, i') ==> i' == i;
          ReceiptProbe(chain, status.receipts[i], status.transactionHash)
  }

  /** The first mint receipt of a transaction: it qualifies only with
      `SuccessValue === ""`, and then its first mint log is read. */
  function ReceiptProbe(chain: NearChain, receipt: Receipt, transactionHash: string): (r: Probe)
    ensures receipt.successValue != Some("") ==> r == Miss
    ensures receipt.successValue == Some("") ==>
              forall m :: FirstMintLogAt(chain, receipt.logs, m) ==> r == LogProbe(chain, receipt.logs[m], transactionHash)
    ensures r.Hit? ==>
              receipt.successValue == Some("") && r.event.transactionHash == transactionHash
              && exists m :: FirstMintLogAt(chain, receipt.logs, m) && MemoGives(chain, receipt.logs[m], r.event.btcTxnHash)
  {
    if receipt.successValue != Some("") then Miss
    else
      match FindFirst(receipt.logs, (log: string) => IsMintLog(chain, log))
      case None => Miss
      case Some(j) =>
        assert FirstMintLogAt(chain, receipt.logs, j);
        assert forall m :: FirstMintLogAt(chain, receipt.logs, m) ==> m == j;
        LogProbe(chain, receipt.logs[j], transactionHash)
  }

  /** A mint log: `data[0].memo` parsed for `btc_txn_hash`; a missing or
      unparsable memo abandons the block. */
  function LogProbe(chain: NearChain, log: string, transactionHash: string): (r: Probe)
    requires chain.parseEvent(log).Some?
    ensures var event := chain.parseEvent(log).value;
            && (|event.data| == 0 || event.data[0].memo.None? ==> r == Broken)
            && (|event.data| > 0 && event.data[0].memo.Some? && chain.parseMemo(event.data[0].memo.value).None? ==> r == Broken)
            && (|event.data| > 0 && event.data[0].memo.Some? && chain.parseMemo(event.data[0].memo.value).Some? ==>
                  r == Hit(MintEvent(chain.parseMemo(event.data[0].memo.value).value.btcTxnHash, transactionHash)))
    ensures r.Hit? ==> MemoGives(chain, log, r.event.btcTxnHash) && r.event.transactionHash == transactionHash
  {
    var event := chain.parseEvent(log).value;
    if |event.data| == 0 || event.data[0].memo.None? then Broken
    else
      match chain.parseMemo(event.data[0].memo.value)
      case None => Broken
      case Some(memo) => Hit(MintEvent(memo.btcTxnHash, transactionHash))
  }

  /** Element `i` of `s` is the first whose probe is not a miss. */
  predicate DecidesAt<T>(s: seq<T>, probe: T -> Probe, i: int)
  {
    0 <= i < |s| && !probe(s[i]).Miss? && forall j :: 0 <= j < i ==> probe(s[j]).Miss?
  }

  /** The first outcome among `s` that is not a miss, or a miss when all miss:
      the shape of each nested `for` loop with its early exits. */
  function FirstDecisive<T>(s: seq<T>, probe: T -> Probe): (r: Probe)
    ensures r.Miss? <==> forall i :: 0 <= i < |s| ==> probe(s[i]).Miss?
    ensures !r.Miss? ==> exists i :: DecidesAt(s, probe, i) && probe(s[i]) == r
    ensures forall i :: DecidesAt(s, probe, i) ==> r == probe(s[i])
    decreases |s|
  {
    if |s| == 0 then Miss
    else if !probe(s[0]).Miss? then probe(s[0])
    else
      var rest := FirstDecisive(s[1..], probe);
      assert forall i :: 1 <= i < |s| ==> s[i] == s[1..][i - 1];
      assert forall i :: 1 <= i < |s| && DecidesAt(s, probe, i) ==> DecidesAt(s[1..], probe, i - 1);
      assert !rest.Miss? ==> exists i :: 1 <= i < |s| && DecidesAt(s, probe, i) && probe(s[i]) == rest;
      rest
  }

  /** The per-transaction probe of a chunk addressed to `contractId`. */
  function TxProbes(chain: NearChain, contractId: string): Transaction -> Probe
  {
    (tx: Transaction) => TxProbe(chain, contractId, tx)
  }

  /** The per-chunk probe of a block. */
  function ChunkProbes(chain: NearChain, contractId: string): ChunkHeader -> Probe
  {
    (c: ChunkHeader) => ChunkProbe(chain, contractId, c)
  }

  /** A chunk with the empty `tx_root`, or with no transactions, is skipped;
      otherwise its transactions are looked at in order and the first that does
      not miss decides. */
  function ChunkProbe(chain: NearChain, contractId: string, chunk: ChunkHeader): (r: Probe)
    ensures chunk.txRoot == EmptyTxRoot ==> r == Miss
    ensures chunk.txRoot != EmptyTxRoot && chain.chunk(chunk.chunkHash) == Some([]) ==> r == Miss
    ensures chunk.txRoot != EmptyTxRoot && chain.chunk(chunk.chunkHash).None? ==> r == Broken
    // a fetched chunk: all transactions missing is a miss, otherwise the first
    // transaction that does not miss gives the outcome
    ensures chunk.txRoot != EmptyTxRoot && chain.chunk(chunk.chunkHash).Some? ==>
              var txs := chain.chunk(chunk.chunkHash).value;
              && ((forall k :: 0 <= k < |txs| ==> TxProbe(chain, contractId, txs[k]).Miss?) ==> r == Miss)
              && (forall k :: DecidesAt(txs, TxProbes(chain, contractId), k) ==> r == TxProbe(chain, contractId, txs[k]))
  {
    if chunk.txRoot == EmptyTxRoot then Miss
    else
      match chain.chunk(chunk.chunkHash)
      case None => Broken
      case Some(txs) =>
        if |txs| == 0 then Miss
        else FirstDecisive(txs, TxProbes(chain, contractId))
  }

  /** One block: its fetch failing is a failure, otherwise its chunks are
      looked at in order and the first that does not miss decides. */
  function BlockProbe(chain: NearChain, contractId: string, height: int): (r: Probe)
    ensures chain.block(height).Failed? ==> r == Broken
    ensures chain.block(height).Fetched? ==>
              var chunks := chain.block(height).block.chunks;
              && ((forall i :: 0 <= i < |chunks| ==> ChunkProbe(chain, contractId, chunks[i]).Miss?) ==> r == Miss)
              && (forall i :: DecidesAt(chunks, ChunkProbes(chain, contractId), i) ==> r == ChunkProbe(chain, contractId, chunks[i]))
  {
    match chain.block(height)
    case Failed(_) => Broken
    case Fetched(b) => FirstDecisive(b.chunks, ChunkProbes(chain, contractId))
  }

  /** The outcome of looking at the block at each height. */
  function BlockProbes(chain: NearChain, contractId: string): int -> Probe
  {
    (h: int) => BlockProbe(chain, contractId, h)
  }

  /** The outer loop over `[start, end]` as a function: the first height whose
      probe hits ends it; heights that miss or fail are passed over. */
  function FirstHit(start: int, end: int, probe: int -> Probe): (r: seq<MintEvent>)
    ensures |r| <= 1
    ensures r == [] <==> forall h :: start <= h <= end ==> !probe(h).Hit?
    ensures |r| == 1 ==>
              exists h :: start <= h <= end && probe(h) == Hit(r[0])
                          && forall h' :: start <= h' < h ==> !probe(h').Hit?
    decreases end - start + 1
  {
    if start > end then []
    else if probe(start).Hit? then [probe(start).event]
    else FirstHit(start + 1, end, probe)
  }

  /** The scan over `[start, end]` of the blocks of the home chain. */
  function PastMintEvents(chain: NearChain, contractId: string, start: int, end: int): seq<MintEvent>
  {
    FirstHit(start, end, BlockProbes(chain, contractId))
  }

  /** `visited` lists heights one by one upward from `start`, none past `end`. */
  predicate Upward(visited: seq<int>, start: int, end: int)
  {
    forall i :: 0 <= i < |visited| ==> visited[i] == start + i && visited[i] <= end
  }

  /** The outer loop over heights, for any per-height probe. Besides the events
      it returns the heights it looked at, in order. */
  method ScanHeights(startBlock: int, endBlock: int, probe: int -> Probe)
    returns (events: seq<MintEvent>, visited: seq<int>)
    ensures events == FirstHit(startBlock, endBlock, probe)
    // heights are visited one by one upward from the start, never past the end
    ensures Upward(visited, startBlock, endBlock)
    // at most one event, and it comes from the last height visited: the scan stops there
    ensures |events| <= 1
    ensures |events| == 1 <==> |visited| > 0 && probe(visited[|visited| - 1]).Hit?
    ensures |events| == 1 ==> probe(visited[|visited| - 1]) == Hit(events[0])
    // with no event every height of the range was visited
    ensures events == [] ==> |visited| == if startBlock <= endBlock then endBlock - startBlock + 1 else 0
  {
    events := [];
    visited := [];
    var blockHeight := startBlock;
    while blockHeight <= endBlock
      invariant startBlock <= blockHeight
      invariant blockHeight <= endBlock + 1 || blockHeight == startBlock
      invariant |visited| == blockHeight - startBlock
      invariant Upward(visited, startBlock, endBlock)
      invariant forall h :: startBlock <= h < blockHeight ==> !probe(h).Hit?
      decreases endBlock - blockHeight + 1
    {
      visited := visited + [blockHeight];
      var outcome := probe(blockHeight);
      if outcome.Hit? {
        events := [outcome.event];
        FirstHitAfterMisses(startBlock, blockHeight, endBlock, probe);
        return;
      }
      blockHeight := blockHeight + 1;
    }
    FirstHitAfterMisses(startBlock, blockHeight, endBlock, probe);
  }

  /** Heights below `mid` that all miss do not change the outer loop's result. */
  lemma {:induction false} FirstHitAfterMisses(start: int, mid: int, end: int, probe: int -> Probe)
    requires start <= mid
    requires forall h :: start <= h < mid ==> !probe(h).Hit?
    ensures FirstHit(start, end, probe) == FirstHit(mid, end, probe)
    decreases mid - start
  {
    if start < mid && start <= end {
      assert !probe(start).Hit?;
      assert FirstHit(start, end, probe) == FirstHit(start + 1, end, probe);
      FirstHitAfterMisses(start + 1, mid, end, probe);
    }
  }

  /** `getPastMintEventsInBatches` over the blocks of the home chain. */
  method GetPastMintEventsInBatches(chain: NearChain, contractId: string, startBlock: int, endBlock: int)
    returns (events: seq<MintEvent>, visited: seq<int>)
    ensures events == PastMintEvents(chain, contractId, startBlock, endBlock)
    ensures Upward(visited, startBlock, endBlock)
    ensures |events| <= 1
    ensures |events| == 1 <==> |visited| > 0 && BlockProbe(chain, contractId, visited[|visited| - 1]).Hit?
    ensures |events| == 1 ==> BlockProbe(chain, contractId, visited[|visited| - 1]) == Hit(events[0])
  {
    events, visited := ScanHeights(startBlock, endBlock, BlockProbes(chain, contractId));
  }

  /** A transaction sent to another account never yields an event, whatever its logs say. */
  lemma ForeignReceiverExcluded(chain: NearChain, contractId: string, tx: Transaction)
    requires tx.receiverId != contractId
    ensures TxProbe(chain, contractId, tx) == Miss
  {
  }

  /** A transaction whose first mint-carrying receipt did not succeed with an
      empty value yields no event, even if a later receipt would. */
  lemma {:induction false} FirstMintReceiptDecides(chain: NearChain, contractId: string, tx: Transaction, i: nat)
    requires tx.receiverId == contractId
    requires chain.txStatus(tx.hash, tx.signerId).Some?
    requires var receipts := chain.txStatus(tx.hash, tx.signerId).value.receipts;
             i < |receipts| && HasMintLog(chain, receipts[i]) && receipts[i].successValue != Some("")
             && forall j :: 0 <= j < i ==> !HasMintLog(chain, receipts[j])
    ensures TxProbe(chain, contractId, tx) == Miss
  {
  }

  /** The memo of a mint log, read as the scanner reads it: `data[0].memo`
      parsed for `btc_txn_hash`. */
  predicate MemoGives(chain: NearChain, log: string, btcTxnHash: Option<string>)
  {
    && chain.parseEvent(log).Some?
    && var event := chain.parseEvent(log).value;
       |event.data| > 0 && event.data[0].memo.Some?
       && chain.parseMemo(event.data[0].memo.value).Some?
       && chain.parseMemo(event.data[0].memo.value).value.btcTxnHash == btcTxnHash
  }

  /** A transaction that yields `event`, stated without the scanner's search:
      sent to the contract, its status returned, the first receipt with a mint
      log succeeded with "", and that receipt's first mint log carries a
      readable memo. */
  predicate QualifyingTx(chain: NearChain, contractId: string, tx: Transaction, event: MintEvent)
  {
    && tx.receiverId == contractId
    && chain.txStatus(tx.hash, tx.signerId).Some?
    && var status := chain.txStatus(tx.hash, tx.signerId).value;
       event.transactionHash == status.transactionHash
       && exists i, m :: 0 <= i < |status.receipts| && 0 <= m < |status.receipts[i].logs|
                         && FirstMintReceiptAt(chain, status.receipts, i) && status.receipts[i].successValue == Some("")
                         && FirstMintLogAt(chain, status.receipts[i].logs, m)
                         && MemoGives(chain, status.receipts[i].logs[m], event.btcTxnHash)
  }

  /** An event a transaction yields is one it qualifies with. */
  lemma TxHitQualifies(chain: NearChain, contractId: string, tx: Transaction)
    requires TxProbe(chain, contractId, tx).Hit?
    ensures QualifyingTx(chain, contractId, tx, TxProbe(chain, contractId, tx).event)
  {
    var status := chain.txStatus(tx.hash, tx.signerId).value;
    var i := FindFirst(status.receipts, (rc: Receipt) => HasMintLog(chain, rc)).value;
    var hit := ReceiptProbe(chain, status.receipts[i], status.transactionHash);
    assert TxProbe(chain, contractId, tx) == hit;
    var m :| FirstMintLogAt(chain, status.receipts[i].logs, m) && MemoGives(chain, status.receipts[i].logs[m], hit.event.btcTxnHash);
    assert FirstMintReceiptAt(chain, status.receipts, i);
  }

  /** A transaction yields an event exactly when it qualifies with that event. */
  lemma TxHitIffQualifying(chain: NearChain, contractId: string, tx: Transaction, event: MintEvent)
    ensures TxProbe(chain, contractId, tx) == Hit(event) <==> QualifyingTx(chain, contractId, tx, event)
  {
    if TxProbe(chain, contractId, tx) == Hit(event) {
      TxHitQualifies(chain, contractId, tx);
    }
  }

  /** Exactly one height `h` in the range yields an event: the scan returns it. */
  lemma SingleMintIsFound(start: int, end: int, h: int, probe: int -> Probe)
    requires start <= h <= end
    requires probe(h).Hit?
    requires forall h' :: start <= h' <= end && h' != h ==> !probe(h').Hit?
    ensures FirstHit(start, end, probe) == [probe(h).event]
  {
  }

  /** A transaction of a chunk that qualifies, every earlier one of the chunk missing. */
  predicate FirstQualifyingTx(chain: NearChain, contractId: string, chunk: ChunkHeader, event: MintEvent)
  {
    && chunk.txRoot != EmptyTxRoot
    && chain.chunk(chunk.chunkHash).Some?
    && var txs := chain.chunk(chunk.chunkHash).value;
       exists k :: 0 <= k < |txs| && TxProbe(chain, contractId, txs[k]) == Hit(event)
                   && forall m :: 0 <= m < k ==> TxProbe(chain, contractId, txs[m]).Miss?
  }

  /** The event a chunk yields comes from its first qualifying transaction. */
  lemma ChunkHitIsFirstQualifyingTx(chain: NearChain, contractId: string, chunk: ChunkHeader)
    requires ChunkProbe(chain, contractId, chunk).Hit?
    ensures FirstQualifyingTx(chain, contractId, chunk, ChunkProbe(chain, contractId, chunk).event)
  {
    var hit := ChunkProbe(chain, contractId, chunk);
    var txs := chain.chunk(chunk.chunkHash).value;
    assert hit == FirstDecisive(txs, TxProbes(chain, contractId));
    var k :| DecidesAt(txs, TxProbes(chain, contractId), k) && TxProbes(chain, contractId)(txs[k]) == hit;
    assert TxProbe(chain, contractId, txs[k]) == Hit(hit.event);
  }

  /** Conversely, a chunk whose first transaction that does not miss qualifies
      with `event` yields exactly that event. */
  lemma ChunkFirstQualifyingIsHit(chain: NearChain, contractId: string, chunk: ChunkHeader, event: MintEvent)
    requires FirstQualifyingTx(chain, contractId, chunk, event)
    ensures ChunkProbe(chain, contractId, chunk) == Hit(event)
  {
    var txs := chain.chunk(chunk.chunkHash).value;
    var k :| 0 <= k < |txs| && TxProbe(chain, contractId, txs[k]) == Hit(event)
             && forall m :: 0 <= m < k ==> TxProbe(chain, contractId, txs[m]).Miss?;
    assert DecidesAt(txs, TxProbes(chain, contractId), k);
  }

  /** The event a block yields comes from the first qualifying transaction of
      its first qualifying chunk: every earlier chunk, and every earlier
      transaction of that chunk, was passed over without failing. */
  lemma BlockHitIsFirstInOrder(chain: NearChain, contractId: string, height: int)
    requires BlockProbe(chain, contractId, height).Hit?
    ensures chain.block(height).Fetched?
    ensures var chunks := chain.block(height).block.chunks;
            exists i :: 0 <= i < |chunks|
                        && FirstQualifyingTx(chain, contractId, chunks[i], BlockProbe(chain, contractId, height).event)
                        && forall j :: 0 <= j < i ==> ChunkProbe(chain, contractId, chunks[j]).Miss?
  {
    var chunks := chain.block(height).block.chunks;
    var hit := BlockProbe(chain, contractId, height);
    assert hit == FirstDecisive(chunks, ChunkProbes(chain, contractId));
    var i :| DecidesAt(chunks, ChunkProbes(chain, contractId), i) && ChunkProbes(chain, contractId)(chunks[i]) == hit;
    assert ChunkProbe(chain, contractId, chunks[i]) == hit;
    assert forall j :: 0 <= j < i ==> ChunkProbe(chain, contractId, chunks[j]).Miss?;
    ChunkHitIsFirstQualifyingTx(chain, contractId, chunks[i]);
  }

  /** Conversely, a fetched block whose chunks before `i` all miss, and whose
      chunk `i` has a first qualifying transaction with `event`, yields that event. */
  lemma BlockFirstQualifyingIsHit(chain: NearChain, contractId: string, height: int, i: int, event: MintEvent)
    requires chain.block(height).Fetched?
    requires 0 <= i < |chain.block(height).block.chunks|
    requires FirstQualifyingTx(chain, contractId, chain.block(height).block.chunks[i], event)
    requires forall j :: 0 <= j < i ==> ChunkProbe(chain, contractId, chain.block(height).block.chunks[j]).Miss?
    ensures BlockProbe(chain, contractId, height) == Hit(event)
  {
    var chunks := chain.block(height).block.chunks;
    ChunkFirstQualifyingIsHit(chain, contractId, chunks[i], event);
    assert DecidesAt(chunks, ChunkProbes(chain, contractId), i);
  }

  /** End to end: one height of the range holds a block whose first deciding
      chunk has a first qualifying transaction with `event`, and no other
      height yields an event; the scan returns `[event]`. */
  lemma QualifyingMintIsFound(chain: NearChain, contractId: string, start: int, end: int,
                              height: int, i: int, event: MintEvent)
    requires start <= height <= end
    requires chain.block(height).Fetched?
    requires 0 <= i < |chain.block(height).block.chunks|
    requires FirstQualifyingTx(chain, contractId, chain.block(height).block.chunks[i], event)
    requires forall j :: 0 <= j < i ==> ChunkProbe(chain, contractId, chain.block(height).block.chunks[j]).Miss?
    requires forall h :: start <= h <= end && h != height ==> !BlockProbe(chain, contractId, h).Hit?
    ensures PastMintEvents(chain, contractId, start, end) == [event]
  {
    BlockFirstQualifyingIsHit(chain, contractId, height, i, event);
    var probe := BlockProbes(chain, contractId);
    assert forall h :: start <= h <= end && h != height ==> !probe(h).Hit?;
    SingleMintIsFound(start, end, height, probe);
  }
}
