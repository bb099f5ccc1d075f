/** The pass as it runs against the store (src/runner.rs): each method is proved against the pass functions of
    `RunnerSpec`, and the loop over passes against the whole-run property. */
module Runner {
  import opened Prelude
  import opened Schema
  import opened Assignments
  import opened DatabaseSpec
  import opened Database
  import opened RunnerSpec
  import opened RunnerSafety
  import opened RunnerRuns

  /** One pass of the world and the server it is seen through. */
  datatype Turn = Turn(ghost world: World, server: Server)

  class IndexerRunner {
    const chain: ChainConfig
    const runtime: RuntimeConfig
    const decode: Decoder
    const store: Store

    constructor (chain: ChainConfig, runtime: RuntimeConfig, decode: Decoder, store: Store)
      ensures this.chain == chain && this.runtime == runtime && this.decode == decode && this.store == store
    {
      this.chain, this.runtime, this.decode, this.store := chain, runtime, decode, store;
    }

    /** Decodes log by log; the first failure fails the range. */
    method DecodeLogs(logs: seq<Log>) returns (events: Option<seq<Event>>)
      ensures events == DecodeAll(logs, decode)
    {
      var all := [];
      var i := 0;
      while i < |logs|
        invariant 0 <= i <= |logs|
        invariant DecodeAll(logs[..i], decode) == Some(all)
      {
        assert logs[..i + 1][..i] == logs[..i];
        var decoded := decode(logs[i]);
        if decoded.None? {
          DecodeFails(logs, i);
          return None;
        }
        all := all + decoded.value;
        i := i + 1;
      }
      assert logs[..i] == logs;
      events := Some(all);
    }

    lemma {:induction false} DecodeFails(logs: seq<Log>, i: nat)
      requires i < |logs| && DecodeAll(logs[..i + 1], decode).None?
      ensures DecodeAll(logs, decode).None?
      decreases |logs|
    {
      if i + 1 < |logs| {
        assert logs[..|logs| - 1][..i + 1] == logs[..i + 1];
        DecodeFails(logs[..|logs| - 1], i);
      } else {
        assert logs[..i + 1] == logs;
      }
    }

    method CollectBlocks(blocks: seq<Block>) returns (byHeight: map<nat, Block>)
      ensures byHeight == BlockMap(blocks)
    {
      byHeight := map[];
      var i := 0;
      while i < |blocks|
        invariant 0 <= i <= |blocks|
        invariant byHeight == BlockMap(blocks[..i])
      {
        assert blocks[..i + 1][..i] == blocks[..i];
        byHeight := byHeight[blocks[i].number := blocks[i]];
        i := i + 1;
      }
      assert blocks[..i] == blocks;
    }

    /** One anchor per height of `from..=to`; a missing header fails the range. */
    method BlockAnchorsFromBlocks(from: nat, to: nat, blocks: seq<Block>) returns (anchors: Option<seq<BlockAnchor>>)
      requires from <= to
      ensures anchors == AnchorsFromBlocks(chain, from, to + 1, BlockMap(blocks))
    {
      var byHeight := CollectBlocks(blocks);
      var collected := [];
      var n := from;
      while n <= to
        invariant from <= n <= to + 1
        invariant AnchorsFromBlocks(chain, from, n, byHeight) == Some(collected)
      {
        if n !in byHeight {
          MissingHeader(from, n, to + 1, byHeight);
          return None;
        }
        collected := collected + [AnchorAt(chain, n, byHeight[n].hash, byHeight[n].parentHash)];
        n := n + 1;
      }
      anchors := Some(collected);
    }

    lemma {:induction false} MissingHeader(from: nat, n: nat, end: nat, blocks: map<nat, Block>)
      requires from <= n < end && n !in blocks
      ensures AnchorsFromBlocks(chain, from, end, blocks).None?
      decreases end
    {
      if n < end - 1 {
        MissingHeader(from, n, end - 1, blocks);
      }
    }

    method BlockAnchorsFromLogs(logs: seq<Log>) returns (anchors: seq<BlockAnchor>)
      ensures anchors == AnchorsFromLogs(chain, logs)
    {
      anchors := [];
      var i := 0;
      while i < |logs|
        invariant 0 <= i <= |logs|
        invariant anchors == AnchorsFromLogs(chain, logs[..i])
      {
        assert logs[..i + 1][..i] == logs[..i];
        if logs[i].blockHash.Some? {
          anchors := AddAnchor(anchors, AnchorAt(chain, logs[i].blockNumber, logs[i].blockHash.value,
                                                 logs[i].parentHash));
        }
        i := i + 1;
      }
      assert logs[..i] == logs;
    }

    method BlockAnchorsForRange(server: Server, from: nat, to: nat, logs: seq<Log>) returns (r: AnchorResult)
      ensures r == AnchorsForRange(chain, server, from, to, logs)
    {
      if !UsesReorgProtection(chain.finality) {
        var anchors := BlockAnchorsFromLogs(logs);
        return AnchorsReady(anchors);
      }
      var finalized := server.finalized(AtRange(from));
      if finalized.None? {
        return AnchorsFailed;
      }
      var first := Max(from, SaturatingAdd(finalized.value, 1));
      if first > to {
        return AnchorsReady([]);
      }
      var page := server.blocks(AtRange(from), first, to);
      if page.None? {
        return AnchorsFailed;
      }
      if !Covers(page.value, first, to) {
        return AnchorsWaiting;
      }
      var collected := BlockAnchorsFromBlocks(first, to, page.value.items);
      r := if collected.None? then AnchorsFailed else AnchorsReady(collected.value);
    }

    /** Returns whether the range failed, and otherwise the next block and whether the poll stops. */
    method ProcessOneRange(server: Server, from: nat, to: nat) returns (failed: bool, next: nat, stop: bool)
      requires Valid(store.State())
      modifies store
      ensures Valid(store.State())
      ensures match ProcessRange(chain, server, decode, store.cfg, old(store.State()), from, to)
              case RangeFailed => failed && store.State() == old(store.State())
              case RangeIdle => !failed && next == from && stop && store.State() == old(store.State())
              case RangeDone(db, n, s) => !failed && next == n && stop == s && store.State() == db
    {
      hide Valid, AnchorsForRange, DecodeAll, Committed;
      failed, next, stop := true, from, true;
      var answer := server.logs(from, to);
      if answer.None? {
        return;
      }
      var page := answer.value;
      if page.servedEnd.None? {
        failed := false;
        return;
      }
      if page.servedStart.None? || page.servedStart.value != from {
        return;
      }
      var servedEnd := Min(page.servedEnd.value, to);
      var events := DecodeLogs(page.items);
      if events.None? || servedEnd + 1 > U64_MAX {
        return;
      }
      var anchors := BlockAnchorsForRange(server, from, servedEnd, page.items);
      match anchors {
        case AnchorsFailed =>
        case AnchorsWaiting =>
          failed := false;
        case AnchorsReady(ready) =>
          if server.rangeCommits(from) {
            var written := store.WriteEventsAndAdvanceCheckpoint(events.value, ready, chain.chainId, chain.dataset,
                                                                 servedEnd + 1);
            failed, next, stop := false, servedEnd + 1, page.incomplete || servedEnd < to;
          }
      }
    }

    /** The reorg check; on a mismatch the store is rolled back to it. */
    method RollbackReorgedAnchors(server: Server, next: nat) returns (failed: bool, verified: bool, block: Option<nat>)
      requires Valid(store.State())
      modifies store
      ensures Valid(store.State())
      ensures match CheckWindow(chain, runtime, server, old(store.anchors), next)
              case CheckFailed => failed && !verified && store.State() == old(store.State())
              case Unverified => !failed && !verified && block == None && store.State() == old(store.State())
              case Clean => !failed && verified && block == None && store.State() == old(store.State())
              case RollBackTo(b) =>
                if server.rollbackCommits
                then !failed && verified && block == Some(b)
                     && store.State() == RolledBack(old(store.State()), chain.chainId, chain.dataset, b, store.cfg)
                else failed && !verified && store.State() == old(store.State())
    {
      failed, verified, block := false, true, None;
      if next == 0 {
        return;
      }
      var to := next - 1;
      var finalized := server.finalized(AtWindowCheck);
      if finalized.None? {
        return true, false, None;
      }
      var from := WindowStart(chain, runtime, next, finalized.value);
      if from > to {
        return;
      }
      var answer := server.blocks(AtWindowCheck, from, to);
      if answer.None? {
        return true, false, None;
      }
      if !Covers(answer.value, from, to) {
        return false, false, None;
      }
      var current := CollectBlocks(answer.value.items);
      block := FindMismatch(current, from, to);
      if block.Some? {
        if !server.rollbackCommits {
          return true, false, None;
        }
        store.RollbackLegacyFrom(chain.chainId, chain.dataset, block.value);
      }
    }

    /** The first height of `from..=to` whose stored anchor and current header do not agree. */
    method FindMismatch(current: map<nat, Block>, from: nat, to: nat) returns (found: Option<nat>)
      requires from <= to
      ensures found == FirstMismatch(store.anchors, current, chain, from, to + 1)
    {
      var n := from;
      while n <= to
        invariant from <= n <= to + 1
        invariant FirstMismatch(store.anchors, current, chain, from, to + 1)
            == FirstMismatch(store.anchors, current, chain, n, to + 1)
      {
        if Mismatch(store.anchors, current, chain, n) {
          return Some(n);
        }
        n := n + 1;
      }
      found := None;
    }

    /** One pass. */
    method RunChainOnce(server: Server) returns (ok: bool, ghost verified: bool, next: nat)
      requires Valid(store.State())
      modifies store
      ensures Valid(store.State())
      ensures var r := Pass(chain, runtime, server, decode, store.cfg, old(store.State()));
        store.State() == r.db && ok == r.ok && verified == r.verified && next == r.next
    {
      next := store.ReadOrCreate(chain.chainId, chain.dataset, chain.startBlock);
      verified := false;
      if UsesReorgProtection(chain.finality) {
        var failed, checked, block := RollbackReorgedAnchors(server, next);
        verified := checked;
        if failed {
          return false, verified, next;
        }
        if block.Some? {
          next := block.value;
        }
      }
      if server.latest.None? {
        return false, verified, next;
      }
      var target := SaturatingSub(server.latest.value, runtime.headBufferBlocks);
      ok, next := PollRanges(server, next, target);
    }

    method PollRanges(server: Server, from: nat, target: nat) returns (ok: bool, next: nat)
      requires Valid(store.State())
      modifies store
      ensures Valid(store.State())
      ensures var polled := Poll(chain, server, decode, store.cfg, old(store.State()), from, target);
        store.State() == polled.db && ok == polled.ok && next == polled.next
    {
      hide ProcessRange, Valid;
      ghost var whole := Poll(chain, server, decode, store.cfg, store.State(), from, target);
      next := from;
      var stopPoll := false;
      while next <= target && !stopPoll
        invariant Valid(store.State())
        invariant if stopPoll then whole.db == store.State() && whole.next == next && whole.ok
                  else var rest := Poll(chain, server, decode, store.cfg, store.State(), next, target);
                       whole.db == rest.db && whole.next == rest.next && whole.ok == rest.ok
        decreases !stopPoll, target - next
      {
        var range := PlanNextRange(next, chain.batchSize);
        if range.None? {
          return false, next;
        }
        var failed, next1, stop := ProcessOneRange(server, next, Min(range.value.to, target));
        if failed {
          return false, next;
        }
        next, stopPoll := next1, stop;
      }
      ok := true;
    }

    /** Pass after pass, whatever each of them ends with: after any number of passes, if the last one's check
        completed, what is indexed is the current chain exactly if it is so below that check's window, and then the
        stored rows are exactly those of the current world up to the checkpoint exactly if nothing is lost. */
    method RunChainLoop(turns: seq<Turn>, ghost rules: Rules) returns (next: nat, ghost verified: bool)
      requires turns != [] && rules.decode == decode
      requires Valid(store.State())
      requires GoodRun(chain, runtime, rules, store.cfg, RunOf(chain, runtime, rules, store.cfg, store.State(), turns))
      modifies store
      ensures Valid(store.State())
      ensures var run := RunOf(chain, runtime, rules, store.cfg, old(store.State()), turns);
        var n := |run| - 1;
        var blocks := BlocksOf(chain, runtime, rules, store.cfg, run);
        verified ==>
          && chain.startBlock <= next && MarksOk(store.State(), chain, blocks, next)
          && (UpToDate(blocks, chain.startBlock, turns[n].world)
              <==> CurrentBelow(BlocksOf(chain, runtime, rules, store.cfg, run[..n]), chain.startBlock, turns[n].world,
                                CheckedFrom(chain, runtime, turns[n].server, NextBlock(chain, run[n].before))))
          && (UpToDate(blocks, chain.startBlock, turns[n].world) ==>
                (HoldsExactly(store.State(), chain.chainId,
                              EventsIn(rules, HashesBetween(turns[n].world, chain.startBlock, next)))
                 <==> NothingLost(rules, blocks)))
    {
      hide GoodRun, Pass, HoldsExactly, Valid, MarksOk, UpToDate, CurrentBelow, NothingLost, BlocksOf;
      ghost var start := store.State();
      var i := 0;
      next, verified := 0, false;
      while i < |turns|
        invariant 0 <= i <= |turns|
        invariant Valid(store.State())
        invariant store.State() == StateAfter(chain, runtime, rules, store.cfg, start, turns[..i])
        invariant i > 0 ==>
          var run := RunOf(chain, runtime, rules, store.cfg, start, turns[..i]);
          && next == ResultOf(chain, runtime, rules, store.cfg, run[i - 1]).next
          && verified == ResultOf(chain, runtime, rules, store.cfg, run[i - 1]).verified
      {
        assert turns[..i + 1][..i] == turns[..i];
        var ok;
        ok, verified, next := RunChainOnce(turns[i].server);
        i := i + 1;
      }
      assert turns[..i] == turns;
      WholeRunExactIff(chain, runtime, rules, store.cfg, RunOf(chain, runtime, rules, store.cfg, start, turns));
    }
  }

  /** The passes these turns give rise to from these tables. */
  ghost function RunOf(chain: ChainConfig, runtime: RuntimeConfig, rules: Rules, cfg: AssignmentConfig, db: Db,
                       turns: seq<Turn>)
    : (run: seq<PassRun>)
    ensures |run| == |turns|
    ensures turns != [] ==>
              && run[|run| - 1].world == turns[|turns| - 1].world
              && run[|run| - 1].server == turns[|turns| - 1].server
  {
    if turns == [] then []
    else
      var n := |turns| - 1;
      RunOf(chain, runtime, rules, cfg, db, turns[..n])
      + [PassRun(StateAfter(chain, runtime, rules, cfg, db, turns[..n]), turns[n].world, turns[n].server)]
  }

  ghost function StateAfter(chain: ChainConfig, runtime: RuntimeConfig, rules: Rules, cfg: AssignmentConfig, db: Db,
                            turns: seq<Turn>): Db {
    if turns == [] then db
    else
      var n := |turns| - 1;
      Pass(chain, runtime, turns[n].server, rules.decode, cfg,
           StateAfter(chain, runtime, rules, cfg, db, turns[..n])).db
  }
}
