/** Redemption identifiers on the ledger have the form
    `<abtc_redemption_chain_id>,<abtc_txn_hash>`; the validator needs the
    transaction hash part. */
module RedemptionId {
  import opened Common

  const Separator: char := ','

  predicate NoSeparator(s: string)
  {
    Separator !in s
  }

  /** The fields of `s` joined back with the separator. */
  function Join(parts: seq<string>): string
    requires |parts| >= 1
    decreases |parts|
  {
    if |parts| == 1 then parts[0] else parts[0] + [Separator] + Join(parts[1..])
  }

  /** Position of the first separator, if any. */
  function SeparatorIndex(s: string): (r: Option<nat>)
    ensures r.Some? ==> r.value < |s| && s[r.value] == Separator && NoSeparator(s[..r.value])
    ensures r.None? <==> NoSeparator(s)
  {
    FindFirst(s, (c: char) => c == Separator)
  }

  /** `s.split(",")`: the maximal separator-free fields, in order. */
  function Split(s: string): (parts: seq<string>)
    ensures |parts| >= 1
    ensures forall i :: 0 <= i < |parts| ==> NoSeparator(parts[i])
    ensures Join(parts) == s
    decreases |s|
  {
    match SeparatorIndex(s)
    case None => [s]
    case Some(i) =>
      var rest := Split(s[i + 1..]);
      assert s == s[..i] + [Separator] + s[i + 1..];
      [s[..i]] + rest
  }

  /** A separator-free string is a single field. */
  lemma SplitField(s: string)
    requires NoSeparator(s)
    ensures Split(s) == [s]
  {
    assert SeparatorIndex(s).None?;
  }

  /** The first separator after a separator-free head ends the first field. */
  lemma SplitAtFirstSeparator(head: string, tail: string)
    requires NoSeparator(head)
    ensures Split(head + [Separator] + tail) == [head] + Split(tail)
  {
    var s := head + [Separator] + tail;
    assert s[|head|] == Separator;
    assert forall j :: 0 <= j < |head| ==> s[j] == head[j];
    assert SeparatorIndex(s) == Some(|head|);
    assert s[..|head|] == head;
    assert s[|head| + 1..] == tail;
  }

  /** Splitting undoes joining, for fields without separators. */
  lemma {:induction false} SplitJoin(parts: seq<string>)
    requires |parts| >= 1
    requires forall i :: 0 <= i < |parts| ==> NoSeparator(parts[i])
    ensures Split(Join(parts)) == parts
    decreases |parts|
  {
    if |parts| == 1 {
      SplitField(parts[0]);
    } else {
      SplitAtFirstSeparator(parts[0], Join(parts[1..]));
      SplitJoin(parts[1..]);
      assert parts == [parts[0]] + parts[1..];
    }
  }

  /** `getRedemptionaBtcTxnHash`: the second comma-separated field, or nothing
      (`undefined`) when the identifier has no comma. */
  function RedemptionTxnHash(txnHash: string): (r: Option<string>)
    ensures r.None? <==> NoSeparator(txnHash)
    ensures r.Some? ==> NoSeparator(r.value)
  {
    var parts := Split(txnHash);
    if |parts| >= 2 then Some(parts[1]) else None
  }

  /** Joining a field in front of at least one more. */
  lemma JoinCons(head: string, tail: seq<string>)
    requires |tail| >= 1
    ensures Join([head] + tail) == head + [Separator] + Join(tail)
  {
    assert ([head] + tail)[1..] == tail;
  }

  /** The first field of a join is its separator-free first part. */
  lemma FirstFieldOfJoin(head: string, tail: seq<string>)
    requires NoSeparator(head)
    ensures Split(Join([head] + tail))[0] == head
  {
    if |tail| == 0 {
      assert [head] + tail == [head];
      SplitField(head);
    } else {
      JoinCons(head, tail);
      SplitAtFirstSeparator(head, Join(tail));
    }
  }

  lemma PairCons(first: string, second: string, rest: seq<string>)
    ensures [first, second] + rest == [first] + ([second] + rest)
  {
    assert [first, second] == [first] + [second];
  }

  /** The hash part is recovered from an identifier built from a chain id and a
      hash, whatever fields may follow. */
  lemma RedemptionTxnHashOfPair(chainId: string, hash: string, rest: seq<string>)
    requires NoSeparator(chainId) && NoSeparator(hash)
    requires forall i :: 0 <= i < |rest| ==> NoSeparator(rest[i])
    ensures RedemptionTxnHash(Join([chainId, hash] + rest)) == Some(hash)
  {
    var tail := [hash] + rest;
    PairCons(chainId, hash, rest);
    JoinCons(chainId, tail);
    SplitAtFirstSeparator(chainId, Join(tail));
    FirstFieldOfJoin(hash, rest);
    var fields := Split(Join([chainId] + tail));
    assert |fields| >= 2 && fields[1] == hash;
  }
}
