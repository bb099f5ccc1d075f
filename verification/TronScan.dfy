/** Recovery of Tron history (src/tron_recovery/scan.rs): ranges are halved until a log query succeeds, the logs of
    a range are sorted, validated and decoded, and each range is committed with its progress. */
module TronScan {
  import opened Prelude
  import opened Schema
  import opened SignatureIds

  const CHAIN_ID: nat := 728_126_428
  const ORMP := "0x5c5c383febe62f377f8c0ea1de97f2a2ba102e98"
  const MSGPORT := "0x3bc5362ec3a3dbc07292aed4ef18be18de02da3a"
  const I32_MAX: nat := 0x7FFF_FFFF

  /** A log as the RPC returns it; a quantity is None when its hexadecimal text does not parse. */
  datatype RpcLog = RpcLog(
    address: string,
    topics: seq<string>,
    data: string,
    blockNumber: Option<u64>,
    blockHash: string,
    transactionHash: string,
    transactionIndex: Option<u64>,
    logIndex: Option<u64>,
    removed: bool)

  datatype BlockInfo = BlockInfo(number: nat, hash: string, parentHash: string, timestamp: nat)

  datatype TxInfo = TxInfo(hash: string, blockHash: string, blockNumber: nat, transactionIndex: nat, sender: string)

  /** The log handed to the event decoder. */
  datatype NormalizedLog = NormalizedLog(
    id: string, blockNumber: nat, blockHash: string, parentHash: string, blockTimestamp: nat,
    transactionHash: string, transactionIndex: nat, logIndex: nat, address: string, sender: string,
    topics: seq<string>, data: string)

  /** The three topics the scan asks for, and the decoder. */
  datatype Codec = Codec(acceptedTopic: string, assignedTopic: string, sentTopic: string,
                         decode: NormalizedLog -> Option<Event>)

  /** The node, one answer per request; None is a failed request. Log queries are numbered. */
  datatype Rpc = Rpc(
    logs: (nat, nat, nat) -> Option<seq<RpcLog>>,
    block: (nat, nat) -> Option<BlockInfo>,
    transaction: (nat, string) -> Option<TxInfo>)

  // ---- One log ----

  predicate ExpectedContract(log: RpcLog, codec: Codec) {
    log.topics != [] &&
    var address := Lower(log.address);
    || (address == ORMP && (log.topics[0] == codec.acceptedTopic || log.topics[0] == codec.assignedTopic))
    || (address == MSGPORT && log.topics[0] == codec.sentTopic)
  }

  predicate Requested(log: RpcLog, start: nat, end: nat) {
    log.blockNumber.Some? && start <= log.blockNumber.value <= end && !log.removed
  }

  function Normalize(log: RpcLog, block: BlockInfo, tx: TxInfo): NormalizedLog
    requires log.blockNumber.Some? && log.transactionIndex.Some? && log.logIndex.Some?
  {
    NormalizedLog(
      "tron-" + Decimal(log.blockNumber.value) + "-" + Lower(log.transactionHash) + "-" + Decimal(log.logIndex.value),
      log.blockNumber.value, log.blockHash, block.parentHash, block.timestamp, log.transactionHash,
      log.transactionIndex.value, log.logIndex.value, Lower(log.address), Lower(tx.sender), log.topics, log.data)
  }

  /** The event of one log, if it is one that was asked for and its block, transaction and content agree. */
  function EventOfLog(log: RpcLog, block: BlockInfo, tx: TxInfo, codec: Codec): Option<Event> {
    if log.blockNumber.None? || log.logIndex.None? || log.transactionIndex.None? || !ExpectedContract(log, codec)
        then None
    else if block.number != log.blockNumber.value || !EqIgnoreAsciiCase(block.hash, log.blockHash) then None
    else if !(EqIgnoreAsciiCase(tx.hash, log.transactionHash) && EqIgnoreAsciiCase(tx.blockHash, log.blockHash)
              && tx.blockNumber == log.blockNumber.value && tx.transactionIndex == log.transactionIndex.value
              && log.transactionIndex.value <= I32_MAX) then None
    else
      match codec.decode(Normalize(log, block, tx))
      case None => None
      case Some(e) => if e.MessageAccepted? && e.fromChainId != CHAIN_ID then None else Some(e)
  }

  /** The log is one the scan asks for: a message accepted or assigned by the ORMP contract or sent by the messenger. */
  predicate Wanted(log: RpcLog, codec: Codec) {
    && log.topics != []
    && ((&& EqIgnoreAsciiCase(log.address, "0x5c5c383febe62f377f8c0ea1de97f2a2ba102e98")
         && (log.topics[0] == codec.acceptedTopic || log.topics[0] == codec.assignedTopic))
        || (EqIgnoreAsciiCase(log.address, "0x3bc5362ec3a3dbc07292aed4ef18be18de02da3a")
            && log.topics[0] == codec.sentTopic))
  }

  /** Its block and its transaction are the ones it names. */
  predicate Corroborated(log: RpcLog, block: BlockInfo, tx: TxInfo) {
    && log.blockNumber == Some(block.number) && log.blockNumber == Some(tx.blockNumber)
    && log.transactionIndex == Some(tx.transactionIndex) && tx.transactionIndex < 0x8000_0000 && log.logIndex.Some?
    && EqIgnoreAsciiCase(block.hash, log.blockHash) && EqIgnoreAsciiCase(tx.blockHash, log.blockHash)
    && EqIgnoreAsciiCase(tx.hash, log.transactionHash)
  }

  /** What the decoder is given, field by field. */
  predicate HandedOver(n: NormalizedLog, log: RpcLog, block: BlockInfo, tx: TxInfo) {
    && log.blockNumber == Some(n.blockNumber) && log.transactionIndex == Some(n.transactionIndex)
    && log.logIndex == Some(n.logIndex)
    && n.id == "tron-" + Decimal(n.blockNumber) + "-" + Lower(log.transactionHash) + "-" + Decimal(n.logIndex)
    && n.blockHash == log.blockHash && n.transactionHash == log.transactionHash
    && n.topics == log.topics && n.data == log.data && n.address == Lower(log.address)
    && n.parentHash == block.parentHash && n.blockTimestamp == block.timestamp && n.sender == Lower(tx.sender)
  }

  /** A log is accepted with an event exactly if it is wanted, its block and transaction corroborate it, and the
      decoder makes this event of what the three say; a message must start on chain 728126428. */
  lemma DecodesIff(log: RpcLog, block: BlockInfo, tx: TxInfo, codec: Codec, e: Event)
    ensures EventOfLog(log, block, tx, codec) == Some(e)
       <==> && Wanted(log, codec) && Corroborated(log, block, tx)
            && (e.MessageAccepted? ==> e.fromChainId == 728126428)
            && exists n :: HandedOver(n, log, block, tx) && codec.decode(n) == Some(e)
  {
    hide ExpectedContract, Wanted, Lower, Decimal, EqIgnoreAsciiCase, Normalize, HandedOver;
    WantedIff(log, codec);
    if Corroborated(log, block, tx) {
      OnlyNormalized(log, block, tx);
    }
  }

  lemma WantedIff(log: RpcLog, codec: Codec)
    ensures ExpectedContract(log, codec) <==> Wanted(log, codec)
  {
    hide Lower;
    OrmpIsLower();
    MsgportIsLower();
  }

  lemma OrmpIsLower()
    ensures Lower(ORMP) == ORMP
  {
  }

  lemma MsgportIsLower()
    ensures Lower(MSGPORT) == MSGPORT
  {
  }

  lemma OnlyNormalized(log: RpcLog, block: BlockInfo, tx: TxInfo)
    requires Corroborated(log, block, tx)
    ensures forall n :: HandedOver(n, log, block, tx) <==> n == Normalize(log, block, tx)
  {
    hide Lower, Decimal;
  }

  /** The ids given to recovered logs tell them apart: they are equal only for equal heights, equal transaction hashes
      ignoring case, and equal log indices. */
  lemma RecoveredIdsDiffer(a: NormalizedLog, b: NormalizedLog, log: RpcLog, other: RpcLog, block: BlockInfo,
                           otherBlock: BlockInfo, tx: TxInfo, otherTx: TxInfo)
    requires HandedOver(a, log, block, tx) && HandedOver(b, other, otherBlock, otherTx)
    requires '-' !in log.transactionHash && '-' !in other.transactionHash
    ensures a.id == b.id
       <==> && a.blockNumber == b.blockNumber && a.logIndex == b.logIndex
            && EqIgnoreAsciiCase(log.transactionHash, other.transactionHash)
  {
    hide Decimal, Lower, DecimalValue;
    var p, q, x, y := Decimal(a.blockNumber), Decimal(b.blockNumber), Decimal(a.logIndex), Decimal(b.logIndex);
    var g, h := Lower(log.transactionHash), Lower(other.transactionHash);
    LowerHasNoDash(log.transactionHash);
    LowerHasNoDash(other.transactionHash);
    DecimalRoundTrip(a.blockNumber);
    DecimalRoundTrip(b.blockNumber);
    DecimalRoundTrip(a.logIndex);
    DecimalRoundTrip(b.logIndex);
    SplitAtDash("tron", "tron", p + "-" + (g + "-" + x), q + "-" + (h + "-" + y));
    SplitAtDash(p, q, g + "-" + x, h + "-" + y);
    SplitAtDash(g, h, x, y);
    assert a.id == "tron" + "-" + (p + "-" + (g + "-" + x));
    assert b.id == "tron" + "-" + (q + "-" + (h + "-" + y));
  }

  lemma LowerHasNoDash(s: string)
    requires '-' !in s
    ensures '-' !in Lower(s)
  {
    assert forall i :: 0 <= i < |s| ==> s[i] in s && Lower(s)[i] == LowerChar(s[i]);
  }

  // ---- Positions and order ----

  /** The sort key; an unreadable quantity sorts last. */
  function Position(log: RpcLog): (nat, nat, nat) {
    (log.blockNumber.GetOr(U64_MAX), log.transactionIndex.GetOr(U64_MAX), log.logIndex.GetOr(U64_MAX))
  }

  predicate PositionLess(a: RpcLog, b: RpcLog) {
    var (a0, a1, a2) := Position(a);
    var (b0, b1, b2) := Position(b);
    a0 < b0 || (a0 == b0 && (a1 < b1 || (a1 == b1 && a2 < b2)))
  }

  ghost predicate Sorted(logs: seq<RpcLog>) {
    forall i, j :: 0 <= i < j < |logs| ==> !PositionLess(logs[j], logs[i])
  }

  ghost predicate StrictlyOrdered(logs: seq<RpcLog>) {
    forall i, j :: 0 <= i < j < |logs| ==> PositionLess(logs[i], logs[j])
  }

  predicate SamePlace(a: RpcLog, b: RpcLog) {
    a.blockNumber == b.blockNumber && a.logIndex == b.logIndex
  }

  ghost predicate DistinctPlaces(logs: seq<RpcLog>) {
    forall i, j :: 0 <= i < j < |logs| ==> !SamePlace(logs[i], logs[j])
  }

  lemma InsertKeepsSorted(sorted: seq<RpcLog>, k: nat, log: RpcLog)
    requires Sorted(sorted) && k <= |sorted|
    requires forall j :: k <= j < |sorted| ==> PositionLess(log, sorted[j])
    requires k > 0 ==> !PositionLess(log, sorted[k - 1])
    ensures Sorted(sorted[..k] + [log] + sorted[k..])
  {
    hide PositionLess;
    var t := sorted[..k] + [log] + sorted[k..];
    forall i, j | 0 <= i < j < |t|
      ensures !PositionLess(t[j], t[i])
    {
      if j == k {
        if i < k - 1 {
          NotLessTransitive(sorted[i], sorted[k - 1], log);
        }
      } else if i == k {
        OrderIsStrict(log, sorted[j - 1]);
      }
    }
  }

  lemma NotLessTransitive(a: RpcLog, b: RpcLog, c: RpcLog)
    requires !PositionLess(b, a) && !PositionLess(c, b)
    ensures !PositionLess(c, a)
  {
  }

  lemma OrderIsStrict(a: RpcLog, b: RpcLog)
    ensures !(PositionLess(a, b) && PositionLess(b, a)) && !PositionLess(a, a)
  {
  }

  /** The stable sort. */
  method SortByPosition(logs: seq<RpcLog>) returns (sorted: seq<RpcLog>)
    ensures Sorted(sorted) && multiset(sorted) == multiset(logs)
  {
    hide PositionLess, Sorted;
    sorted := [];
    EmptyIsSorted();
    var i := 0;
    while i < |logs|
      invariant 0 <= i <= |logs|
      invariant Sorted(sorted) && multiset(sorted) == multiset(logs[..i])
    {
      var k := |sorted|;
      while k > 0 && PositionLess(logs[i], sorted[k - 1])
        invariant 0 <= k <= |sorted|
        invariant forall j :: k <= j < |sorted| ==> PositionLess(logs[i], sorted[j])
      {
        k := k - 1;
      }
      InsertKeepsSorted(sorted, k, logs[i]);
      assert sorted == sorted[..k] + sorted[k..];
      assert logs[..i + 1] == logs[..i] + [logs[i]];
      sorted := sorted[..k] + [logs[i]] + sorted[k..];
      i := i + 1;
    }
    assert logs[..i] == logs;
  }

  lemma EmptyIsSorted()
    ensures Sorted([])
  {
  }

  // ---- What the node serves ----

  /** The finished chain the node reports on. */
  datatype Truth = Truth(logs: set<RpcLog>, block: nat -> BlockInfo, transaction: string -> TxInfo)

  ghost predicate Honest(rpc: Rpc, truth: Truth) {
    && (forall k, start, end :: rpc.logs(k, start, end).Some? ==>
        HonestReply(rpc.logs(k, start, end).value, truth, start, end))
    && (forall k, n :: rpc.block(k, n).Some? ==> rpc.block(k, n).value == truth.block(n))
    && (forall k, h :: rpc.transaction(k, h).Some? ==> rpc.transaction(k, h).value == truth.transaction(h))
  }

  /** A reply holds exactly the logs of its range, in any order. */
  ghost predicate HonestReply(logs: seq<RpcLog>, truth: Truth, start: nat, end: nat) {
    forall log :: log in logs <==> log in truth.logs && log.blockNumber.Some? && start <= log.blockNumber.value <= end
  }

  function TrueEvent(log: RpcLog, truth: Truth, codec: Codec): Option<Event> {
    EventOfLog(log, truth.block(log.blockNumber.GetOr(0)), truth.transaction(log.transactionHash), codec)
  }

  /** `logs` is the scan of `[start, end]`: exactly the true logs of the range, strictly increasing in
      (block, transaction index, log index), and every one of them decodes. */
  ghost predicate ScanOf(logs: seq<RpcLog>, truth: Truth, codec: Codec, start: nat, end: int) {
    && StrictlyOrdered(logs)
    && (forall log :: log in logs
                 <==> log in truth.logs && log.blockNumber.Some? && start <= log.blockNumber.value <= end)
    && (forall log :: log in logs ==> !log.removed && TrueEvent(log, truth, codec).Some?)
  }

  function EventsOfLogs(logs: seq<RpcLog>, truth: Truth, codec: Codec): seq<Event>
    requires forall log :: log in logs ==> TrueEvent(log, truth, codec).Some?
  {
    seq(|logs|, i requires 0 <= i < |logs| => TrueEvent(logs[i], truth, codec).value)
  }

  /** The events a complete recovery of `[start, end]` commits. */
  ghost predicate EventsOfRange(events: seq<Event>, truth: Truth, codec: Codec, start: nat, end: int) {
    exists logs :: ScanOf(logs, truth, codec, start, end) && events == EventsOfLogs(logs, truth, codec)
  }

  lemma {:induction false} OrderedListsAreUnique(a: seq<RpcLog>, b: seq<RpcLog>)
    requires StrictlyOrdered(a) && StrictlyOrdered(b) && forall x :: x in a <==> x in b
    ensures a == b
  {
    assert a != [] ==> a[0] in b;
    assert b != [] ==> b[0] in a;
    if a != [] && b != [] {
      var m, n := |a| - 1, |b| - 1;
      LastIsGreatest(a);
      LastIsGreatest(b);
      assert a[m] in b && b[n] in a;
      OrderIsStrict(a[m], b[n]);
      forall x
        ensures x in a[..m] <==> x in b[..n]
      {
        LastIsNotEarlier(a, x);
        LastIsNotEarlier(b, x);
      }
      OrderedListsAreUnique(a[..m], b[..n]);
      assert a == a[..m] + [a[m]] && b == b[..n] + [b[n]];
    }
  }

  lemma LastIsGreatest(a: seq<RpcLog>)
    requires StrictlyOrdered(a) && a != []
    ensures forall x :: x in a ==> x == a[|a| - 1] || PositionLess(x, a[|a| - 1])
  {
  }

  lemma LastIsNotEarlier(a: seq<RpcLog>, x: RpcLog)
    requires StrictlyOrdered(a) && a != []
    ensures x in a[..|a| - 1] <==> x in a && x != a[|a| - 1]
  {
    var m := |a| - 1;
    assert a == a[..m] + [a[m]];
    if x in a[..m] {
      var i :| 0 <= i < m && a[i] == x;
      assert PositionLess(a[i], a[m]);
    }
  }

  /** Recovery does not depend on batching: whatever the batch sizes and the pattern of failures, two complete
      recoveries of a range commit the same events in the same order. */
  lemma BatchingDoesNotMatter(a: seq<Event>, b: seq<Event>, truth: Truth, codec: Codec, start: nat, end: nat)
    requires EventsOfRange(a, truth, codec, start, end) && EventsOfRange(b, truth, codec, start, end)
    ensures a == b
  {
    var x :| ScanOf(x, truth, codec, start, end) && a == EventsOfLogs(x, truth, codec);
    var y :| ScanOf(y, truth, codec, start, end) && b == EventsOfLogs(y, truth, codec);
    OrderedListsAreUnique(x, y);
  }

  // ---- Decoding a range ----

  /** A sorted, validated reply is the scan of its range. */
  lemma ValidatedReplyIsScan(reply: seq<RpcLog>, logs: seq<RpcLog>, truth: Truth, codec: Codec, start: nat, end: nat)
    requires HonestReply(reply, truth, start, end) && multiset(logs) == multiset(reply) && Sorted(logs)
    requires DistinctPlaces(logs)
    requires forall log :: log in logs ==> Requested(log, start, end) && TrueEvent(log, truth, codec).Some?
    ensures ScanOf(logs, truth, codec, start, end)
  {
    forall i, j | 0 <= i < j < |logs|
      ensures PositionLess(logs[i], logs[j])
    {
      assert !PositionLess(logs[j], logs[i]) && !SamePlace(logs[i], logs[j]);
      assert logs[i] in logs && logs[j] in logs;
    }
    forall log
      ensures log in logs <==> log in reply
    {
      assert log in multiset(logs) <==> log in multiset(reply);
    }
  }

  /** The logs of a scan ascend by block, within a block by transaction, and within a transaction by log index, and each
      of them is one that was asked for. */
  lemma ScanAscends(logs: seq<RpcLog>, truth: Truth, codec: Codec, start: nat, end: int, i: nat, j: nat)
    requires ScanOf(logs, truth, codec, start, end) && i < j < |logs|
    ensures var a, b := logs[i], logs[j];
      && a.blockNumber.Some? && a.transactionIndex.Some? && a.logIndex.Some?
      && b.blockNumber.Some? && b.transactionIndex.Some? && b.logIndex.Some?
      && a.blockNumber.value <= b.blockNumber.value
      && (a.blockNumber == b.blockNumber ==> a.transactionIndex.value <= b.transactionIndex.value)
      && (a.blockNumber == b.blockNumber && a.transactionIndex == b.transactionIndex ==>
            a.logIndex.value < b.logIndex.value)
  {
    assert logs[i] in logs && logs[j] in logs;
    assert PositionLess(logs[i], logs[j]);
  }

  lemma ScansConcatenate(a: seq<RpcLog>, b: seq<RpcLog>, truth: Truth, codec: Codec, start: nat, middle: nat, end: nat)
    requires start <= middle <= end + 1
    requires ScanOf(a, truth, codec, start, middle - 1) && ScanOf(b, truth, codec, middle, end)
    ensures ScanOf(a + b, truth, codec, start, end)
    ensures EventsOfLogs(a + b, truth, codec) == EventsOfLogs(a, truth, codec) + EventsOfLogs(b, truth, codec)
  {
    var all := a + b;
    forall i, j | 0 <= i < j < |all|
      ensures PositionLess(all[i], all[j])
    {
      assert i < |a| ==> all[i] in a;
      assert j >= |a| ==> all[j] in b;
    }
  }
}
