/** The recovery loop (src/tron_recovery/scan.rs). */
module TronRecovery {
  import opened Prelude
  import opened Schema
  import opened Assignments
  import opened DatabaseSpec
  import opened TronScan
  import opened TronStorage

  function Pow2(k: nat): nat {
    if k == 0 then 1 else 2 * Pow2(k - 1)
  }

  /** A width halved so many times, rounding down each time. */
  function Halved(width: nat, times: nat): nat {
    if times == 0 then width else Halved(width, times - 1) / 2
  }

  /** Halving k times divides by 2^k. */
  lemma {:induction false} HalvedIs(width: nat, times: nat)
    ensures Halved(width, times) * Pow2(times) <= width < (Halved(width, times) + 1) * Pow2(times)
  {
    if times > 0 {
      HalvedIs(width, times - 1);
      var h, half, p := Halved(width, times - 1), Halved(width, times), Pow2(times - 1);
      Scaled(h, half, p);
    }
  }

  lemma Scaled(h: nat, half: nat, p: nat)
    requires half == h / 2
    ensures half * (2 * p) <= h * p && (h + 1) * p <= (half + 1) * (2 * p)
  {
    assert (h - 2 * half) * p >= 0;
    assert (2 * half + 1 - h) * p >= 0;
  }

  /** A width that is still positive before the last halving bounds the number of halvings. */
  lemma PowerBelow(width: nat, times: nat)
    requires times >= 1 ==> Halved(width, times - 1) >= 1
    ensures times >= 1 ==> Pow2(times - 1) <= width
  {
    if times >= 1 {
      HalvedIs(width, times - 1);
      var h, p := Halved(width, times - 1), Pow2(times - 1);
      assert (h - 1) * p >= 0;
    }
  }

  /** One committed range. */
  datatype Batch = Batch(events: seq<Event>, next: nat)

  /** The tables after the batches, each in a commit of its own; None if one of them is refused. */
  ghost function Recovered(db: Db, batches: seq<Batch>, cfg: AssignmentConfig): Option<Db> {
    if batches == [] then Some(db)
    else
      var n := |batches| - 1;
      match Recovered(db, batches[..n], cfg)
      case None => None
      case Some(before) => RecoveryCommit(before, batches[n].events, batches[n].next, cfg)
  }

  ghost function EventsOfBatches(batches: seq<Batch>): seq<Event> {
    if batches == [] then []
    else EventsOfBatches(batches[..|batches| - 1]) + batches[|batches| - 1].events
  }

  /** The recovery checkpoint. */
  ghost function NextBlock(db: Db): Option<nat> {
    var k := CheckpointKey(CHAIN_ID, DATASET);
    if k in db.checkpoints then Some(db.checkpoints[k]) else None
  }

  lemma CommitAdvances(db: Db, events: seq<Event>, next: nat, cfg: AssignmentConfig)
    requires RecoveryCommit(db, events, next, cfg).Some?
    ensures NextBlock(RecoveryCommit(db, events, next, cfg).value) == Some(next)
  {
  }

  class Scanner {
    const rpc: Rpc
    const codec: Codec

    constructor (rpc: Rpc, codec: Codec)
      ensures this.rpc == rpc && this.codec == codec
    {
      this.rpc, this.codec := rpc, codec;
    }

    /** Asks for logs from `cursor` on, halving the range after every failure until a single block is left. At most
        about log2(batch) + 1 queries fail, and only a failed single block gives up. */
    method FetchRange(firstAttempt: nat, cursor: nat, batchSize: nat, end: nat)
      returns (logs: Option<seq<RpcLog>>, rangeEnd: nat, failures: nat)
      requires cursor <= end <= U64_MAX && batchSize >= 1
      ensures cursor <= rangeEnd <= end && rangeEnd - cursor < batchSize
      ensures logs.None? ==> rangeEnd == cursor && failures >= 1
      ensures var halvings := if logs.Some? then failures else failures - 1;
        && logs == rpc.logs(firstAttempt + halvings, cursor, rangeEnd)
        && rangeEnd == cursor + Halved(Min(batchSize - 1, end - cursor), halvings)
        && AllFailed(firstAttempt, cursor, Min(batchSize - 1, end - cursor), halvings)
        && (halvings >= 1 ==> Pow2(halvings - 1) <= batchSize - 1 && Pow2(halvings - 1) <= end - cursor)
    {
      rangeEnd := Min(SaturatingAdd(cursor, batchSize - 1), end);
      ghost var first := rangeEnd - cursor;
      failures := 0;
      while true
        invariant cursor <= rangeEnd && rangeEnd - cursor == Halved(first, failures) <= first
        invariant AllFailed(firstAttempt, cursor, first, failures)
        invariant failures >= 1 ==> Halved(first, failures - 1) >= 1
        decreases rangeEnd - cursor
      {
        logs := rpc.logs(firstAttempt + failures, cursor, rangeEnd);
        if logs.Some? {
          PowerBelow(first, failures);
          return;
        }
        if rangeEnd == cursor {
          PowerBelow(first, failures);
          failures := failures + 1;
          return;
        }
        rangeEnd := cursor + (rangeEnd - cursor) / 2;
        failures := failures + 1;
      }
    }

    /** The first queries of so many all failed, each over half the width of the one before. */
    ghost predicate AllFailed(firstAttempt: nat, cursor: nat, width: nat, count: nat) {
      forall k: nat :: k < count ==> FailedAt(firstAttempt, cursor, width, k)
    }

    ghost predicate FailedAt(firstAttempt: nat, cursor: nat, width: nat, k: nat) {
      rpc.logs(firstAttempt + k, cursor, cursor + Halved(width, k)).None?
    }

    /** Validates and decodes the sorted logs of a range; blocks and transactions are fetched once each. */
    method DecodeRange(attempt: nat, logs: seq<RpcLog>, start: nat, end: nat, ghost truth: Truth)
        returns (events: Option<seq<Event>>)
      requires Honest(rpc, truth)
      ensures events.Some? ==> ValidLogs(logs, truth, start, end) && events.value == EventsOfLogs(logs, truth, codec)
      ensures (forall n :: rpc.block(attempt, n).Some?) && (forall h :: rpc.transaction(attempt, h).Some?) ==>
                (events.Some? <==> ValidLogs(logs, truth, start, end))
    {
      var blocks: map<nat, BlockInfo> := map[];
      var transactions: map<string, TxInfo> := map[];
      var seen: set<(nat, nat)> := {};
      var collected := [];
      var i := 0;
      while i < |logs|
        invariant 0 <= i <= |logs|
        invariant forall n :: n in blocks ==> blocks[n] == truth.block(n)
        invariant forall h :: h in transactions ==> transactions[h] == truth.transaction(h)
        invariant ValidLogs(logs[..i], truth, start, end)
        invariant seen == set log | log in logs[..i] :: PlaceOf(log)
        invariant collected == EventsOfLogs(logs[..i], truth, codec)
      {
        var log := logs[i];
        assert log in logs;
        assert logs[..i + 1] == logs[..i] + [log];
        if !Requested(log, start, end) || log.logIndex.None? {
          return None;
        }
        if PlaceOf(log) in seen {
          DuplicatePlace(logs, i);
          return None;
        }
        var number := log.blockNumber.value;
        if number !in blocks {
          var block := rpc.block(attempt, number);
          if block.None? {
            return None;
          }
          blocks := blocks[number := block.value];
        }
        if log.transactionHash !in transactions {
          var tx := rpc.transaction(attempt, log.transactionHash);
          if tx.None? {
            return None;
          }
          transactions := transactions[log.transactionHash := tx.value];
        }
        var event := EventOfLog(log, blocks[number], transactions[log.transactionHash], codec);
        if event.None? {
          return None;
        }
        NewPlace(logs, i, truth, start, end);
        seen := seen + {PlaceOf(log)};
        collected := collected + [event.value];
        i := i + 1;
      }
      assert logs[..i] == logs;
      events := Some(collected);
    }

    /** Every log is one that was asked for, decodes, and stands at a place of its own. */
    ghost predicate ValidLogs(logs: seq<RpcLog>, truth: Truth, start: nat, end: nat) {
      && DistinctPlaces(logs)
      && forall log :: log in logs ==> Requested(log, start, end) && TrueEvent(log, truth, codec).Some?
    }

    /** A range is accepted exactly if its logs are of the range, not removed, at different places, wanted and
        corroborated, and the decoder takes every one. */
    lemma ValidLogsIff(logs: seq<RpcLog>, truth: Truth, start: nat, end: nat)
      ensures ValidLogs(logs, truth, start, end)
         <==> && (forall i, j :: 0 <= i < j < |logs| ==>
                    logs[i].blockNumber != logs[j].blockNumber || logs[i].logIndex != logs[j].logIndex)
              && (forall log :: log in logs ==>
                    && !log.removed && log.blockNumber.Some? && start <= log.blockNumber.value <= end
                    && Accepted(log, truth.block(log.blockNumber.value), truth.transaction(log.transactionHash)))
    {
      forall log: RpcLog | log.blockNumber.Some?
        ensures TrueEvent(log, truth, codec).Some?
           <==> Accepted(log, truth.block(log.blockNumber.value), truth.transaction(log.transactionHash))
      {
        AcceptedIff(log, truth.block(log.blockNumber.value), truth.transaction(log.transactionHash));
      }
    }

    ghost predicate Accepted(log: RpcLog, block: BlockInfo, tx: TxInfo) {
      && Wanted(log, codec) && Corroborated(log, block, tx)
      && exists n :: HandedOver(n, log, block, tx) && codec.decode(n).Some?
                     && (codec.decode(n).value.MessageAccepted? ==> codec.decode(n).value.fromChainId == 728126428)
    }

    lemma AcceptedIff(log: RpcLog, block: BlockInfo, tx: TxInfo)
      ensures EventOfLog(log, block, tx, codec).Some? <==> Accepted(log, block, tx)
    {
      hide EventOfLog, Wanted, Corroborated, HandedOver;
      if EventOfLog(log, block, tx, codec).Some? {
        DecodesIff(log, block, tx, codec, EventOfLog(log, block, tx, codec).value);
      }
      if Accepted(log, block, tx) {
        var n :| HandedOver(n, log, block, tx) && codec.decode(n).Some?
                 && (codec.decode(n).value.MessageAccepted? ==> codec.decode(n).value.fromChainId == 728126428);
        DecodesIff(log, block, tx, codec, codec.decode(n).value);
      }
    }

    lemma NewPlace(logs: seq<RpcLog>, i: nat, truth: Truth, start: nat, end: nat)
      requires i < |logs| && ValidLogs(logs[..i], truth, start, end)
      requires Requested(logs[i], start, end) && TrueEvent(logs[i], truth, codec).Some?
      requires forall log :: log in logs[..i] ==> PlaceOf(log) != PlaceOf(logs[i])
      ensures ValidLogs(logs[..i + 1], truth, start, end)
      ensures EventsOfLogs(logs[..i + 1], truth, codec)
           == EventsOfLogs(logs[..i], truth, codec) + [TrueEvent(logs[i], truth, codec).value]
    {
      var all := logs[..i + 1];
      forall j, k | 0 <= j < k < |all|
        ensures !SamePlace(all[j], all[k])
      {
        assert all[j] == logs[..i][j];
        if k == i {
          assert logs[..i][j] in logs[..i];
        } else {
          assert all[k] == logs[..i][k];
        }
      }
    }

    lemma DuplicatePlace(logs: seq<RpcLog>, i: nat)
      requires i < |logs|
      requires exists log :: log in logs[..i] && log.blockNumber.Some? && log.logIndex.Some? && SamePlace(log, logs[i])
      ensures !DistinctPlaces(logs)
    {
      var log :| log in logs[..i] && SamePlace(log, logs[i]);
      var j :| 0 <= j < i && logs[j] == log;
    }

    /** Recovers `[start, end]` into the tables. Whatever fails, the tables are those of the batches committed so
        far, the checkpoint is the first height not committed, and the batches hold everything before it, exactly
        once and in order; on success that is the whole range. */
    method Recover(store: RecoveryStore, start: nat, end: nat, batchSize: nat, goesThrough: nat -> bool,
                   ghost truth: Truth)
      returns (ok: bool, ranges: nat, count: nat, ghost next: nat, ghost batches: seq<Batch>)
      requires Valid(store.store.State()) && NextBlock(store.store.State()) == Some(start)
      requires end <= U64_MAX && batchSize >= 1 && Honest(rpc, truth)
      modifies store.store
      ensures Valid(store.store.State())
      ensures Recovered(old(store.store.State()), batches, store.store.cfg) == Some(store.store.State())
      ensures NextBlock(store.store.State()) == Some(next) && start <= next && (start <= end ==> next <= end + 1)
      ensures EventsOfRange(EventsOfBatches(batches), truth, codec, start, next - 1)
      ensures ranges == |batches| && count == |EventsOfBatches(batches)|
      ensures if ok then start <= end ==> next == end + 1 else next <= end
    {
      hide EventsOfRange, ValidLogs, HonestReply, Sorted, Honest, EventsOfLogs, Pow2, Valid, RecoveryCommit, NextBlock;
      var cursor := start;
      ranges, count := 0, 0;
      var attempt := 0;
      next, batches := start, [];
      NothingRecovered(truth, start);
      while cursor <= end
        invariant next == cursor && start <= cursor && (cursor <= end + 1 || cursor == start)
        invariant Valid(store.store.State()) && NextBlock(store.store.State()) == Some(cursor)
        invariant Recovered(old(store.store.State()), batches, store.store.cfg) == Some(store.store.State())
        invariant EventsOfRange(EventsOfBatches(batches), truth, codec, start, cursor - 1)
        invariant ranges == |batches| && count == |EventsOfBatches(batches)|
        decreases end + 1 - cursor
      {
        var reply, rangeEnd, failures := FetchRange(attempt, cursor, batchSize, end);
        attempt := attempt + failures + 1;
        if reply.None? {
          return false, ranges, count, next, batches;
        }
        var logs := SortByPosition(reply.value);
        var events := DecodeRange(ranges, logs, cursor, rangeEnd, truth);
        if events.None? || rangeEnd == U64_MAX {
          return false, ranges, count, next, batches;
        }
        ReplyIsHonest(truth, attempt - 1, cursor, rangeEnd);
        RecoveredMore(EventsOfBatches(batches), reply.value, logs, truth, start, cursor, rangeEnd);
        ghost var before := store.store.State();
        var committed := store.Commit(events.value, rangeEnd + 1, goesThrough(cursor));
        if !committed {
          return false, ranges, count, next, batches;
        }
        CommitAdvances(before, events.value, rangeEnd + 1, store.store.cfg);
        cursor := rangeEnd + 1;
        next, batches := cursor, batches + [Batch(events.value, cursor)];
        ranges := ranges + 1;
        count := count + |events.value|;
      }
      ok := true;
    }

    lemma NothingRecovered(truth: Truth, start: nat)
      ensures EventsOfRange([], truth, codec, start, start - 1)
    {
      assert ScanOf([], truth, codec, start, start - 1) && EventsOfLogs([], truth, codec) == [];
    }

    lemma ReplyIsHonest(truth: Truth, k: nat, start: nat, end: nat)
      requires Honest(rpc, truth) && rpc.logs(k, start, end).Some?
      ensures HonestReply(rpc.logs(k, start, end).value, truth, start, end)
    {
    }

    lemma RecoveredMore(recovered: seq<Event>, reply: seq<RpcLog>, logs: seq<RpcLog>, truth: Truth, start: nat,
                        cursor: nat, rangeEnd: nat)
      requires EventsOfRange(recovered, truth, codec, start, cursor - 1) && start <= cursor <= rangeEnd
      requires HonestReply(reply, truth, cursor, rangeEnd) && Sorted(logs) && multiset(logs) == multiset(reply)
      requires ValidLogs(logs, truth, cursor, rangeEnd)
      ensures EventsOfRange(recovered + EventsOfLogs(logs, truth, codec), truth, codec, start, rangeEnd)
    {
      var scanned :| ScanOf(scanned, truth, codec, start, cursor - 1) && recovered
          == EventsOfLogs(scanned, truth, codec);
      ValidatedReplyIsScan(reply, logs, truth, codec, cursor, rangeEnd);
      ScansConcatenate(scanned, logs, truth, codec, start, cursor, rangeEnd);
    }
  }

  function PlaceOf(log: RpcLog): (nat, nat) {
    (log.blockNumber.GetOr(0), log.logIndex.GetOr(0))
  }
}
