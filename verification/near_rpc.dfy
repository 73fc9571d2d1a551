/** What the home chain's JSON-RPC provider answers, as immutable values, and the
    bundle of lookups the resolver and the scanner consult. Every network call is
    a total function from its arguments to an outcome; a failed call is a value. */
module NearRpc {
  import opened Common

  /** One entry of `block.chunks`. */
  datatype ChunkHeader = ChunkHeader(chunkHash: string, txRoot: string)

  /** The parts of a block the validator reads: `header.timestamp` (nanoseconds)
      and the chunk list. The block is the one at the height that was asked for. */
  datatype Block = Block(timestampNs: int, chunks: seq<ChunkHeader>)

  /** `provider.block({blockId})`: a block, or the message of the error it threw. */
  datatype BlockFetch = Fetched(block: Block) | Failed(message: string)

  datatype Transaction = Transaction(hash: string, signerId: string, receiverId: string)

  /** One entry of `receipts_outcome`: its logs and `outcome.status.SuccessValue`
      (None when the status carries no `SuccessValue`, e.g. a failure). */
  datatype Receipt = Receipt(logs: seq<string>, successValue: Option<string>)

  /** `provider.txStatus(hash, signer)`: the receipts and `transaction.hash`. */
  datatype TxStatus = TxStatus(receipts: seq<Receipt>, transactionHash: string)

  /** One element of a NEP-297 event's `data` array; `memo` is None when absent. */
  datatype EventDatum = EventDatum(memo: Option<string>)

  /** A parsed `EVENT_JSON:` log line. */
  datatype EventLog = EventLog(event: string, data: seq<EventDatum>)

  /** A parsed memo; `btc_txn_hash` may be missing from it. */
  datatype Memo = Memo(btcTxnHash: Option<string>)

  /** The provider and the two JSON parsers, as functions.
      - `block`: block by height;
      - `chunk`: the transactions of a chunk by chunk hash (None when the call
        throws; a missing `transactions` field reads as the empty list);
      - `txStatus`: execution outcome of a transaction (None when the call throws);
      - `parseEvent`: a log line with its `EVENT_JSON:` prefix removed, parsed
        (None when it is not a JSON object);
      - `parseMemo`: a memo string parsed (None when `JSON.parse` throws or
        yields `null`). */
  datatype NearChain = NearChain(
    block: int -> BlockFetch,
    chunk: string -> Option<seq<Transaction>>,
    txStatus: (string, string) -> Option<TxStatus>,
    parseEvent: string -> Option<EventLog>,
    parseMemo: string -> Option<Memo>)
}
