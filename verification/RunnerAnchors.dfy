/** Which blocks have anchors, when a check may roll back, and what a check cannot see (src/runner.rs). */
module RunnerAnchors {
  import opened Prelude
  import opened Assignments
  import opened DatabaseSpec
  import opened Schema
  import opened Views
  import opened RunnerSpec
  import opened RunnerSafety
  import opened RunnerRuns

  /** Every indexed height above the given finalized head has an anchor. */
  ghost predicate AnchoredAbove(db: Db, chain: ChainConfig, next: nat, finalized: nat) {
    forall n :: chain.startBlock <= n < next && n > finalized ==>
        AnchorKey(chain.chainId, chain.dataset, n) in db.anchors
  }

  /** No finalized head read while committing ranges exceeds this one. */
  ghost predicate RangeHeadsUpTo(server: Server, finalized: nat) {
    forall from :: server.finalized(AtRange(from)).Some? ==> server.finalized(AtRange(from)).value <= finalized
  }

  lemma RangeKeepsAnchored(chain: ChainConfig, server: Server, rules: Rules, cfg: AssignmentConfig, db: Db, w: World,
                           next: nat, to: nat, finalized: nat)
    requires UsesReorgProtection(chain.finality) && next <= to && Honest(server, rules, w)
    requires AnchoredAbove(db, chain, next, finalized) && RangeHeadsUpTo(server, finalized)
    ensures match ProcessRange(chain, server, rules.decode, cfg, db, next, to)
            case RangeDone(db2, next2, _) => AnchoredAbove(db2, chain, next2, finalized)
            case _ => true
  {
    hide ProcessRange, Honest, WrittenAll;
    match ProcessRange(chain, server, rules.decode, cfg, db, next, to)
    case RangeDone(db2, next2, _) =>
      RangeShape(chain, server, rules, cfg, db, w, next, to);
      var rows := RowsOf(EventsIn(rules, HashesBetween(w, next, next2)));
      var anchors := ServedAnchors(chain, server, next, to, next2);
      WrittenAllFrame(db, db, rows, cfg);
      AnchorsStored(WrittenAll(db, rows, cfg), anchors);
      forall n | chain.startBlock <= n < next2 && n > finalized
        ensures AnchorKey(chain.chainId, chain.dataset, n) in db2.anchors
      {
        if n >= next {
          assert AnchoredIn(anchors, chain, n);
        }
      }
    case _ =>
  }

  lemma {:induction false} PollKeepsAnchored(chain: ChainConfig, server: Server, rules: Rules, cfg: AssignmentConfig,
                                             db: Db, w: World, next: nat, target: nat, finalized: nat)
    requires UsesReorgProtection(chain.finality) && Honest(server, rules, w)
    requires AnchoredAbove(db, chain, next, finalized) && RangeHeadsUpTo(server, finalized)
    ensures var polled := Poll(chain, server, rules.decode, cfg, db, next, target);
      AnchoredAbove(polled.db, chain, polled.next, finalized)
    decreases if next <= target then target - next + 1 else 0
  {
    hide ProcessRange, Honest, AnchoredAbove, RangeHeadsUpTo;
    if next <= target {
      match PlanNextRange(next, chain.batchSize)
      case None =>
      case Some(range) =>
        var to := Min(range.to, target);
        RangeKeepsAnchored(chain, server, rules, cfg, db, w, next, to, finalized);
        match ProcessRange(chain, server, rules.decode, cfg, db, next, to)
        case RangeDone(db1, next1, stop) =>
          if !stop {
            PollKeepsAnchored(chain, server, rules, cfg, db1, w, next1, target, finalized);
          }
        case _ =>
    }
  }

  lemma PassKeepsAnchored(chain: ChainConfig, runtime: RuntimeConfig, rules: Rules, cfg: AssignmentConfig, p: PassRun,
                          earlier: nat, finalized: nat)
    requires UsesReorgProtection(chain.finality) && Honest(p.server, rules, p.world)
    requires earlier <= finalized && RangeHeadsUpTo(p.server, finalized)
    requires AnchoredAbove(Opened(chain, p.before), chain, NextBlock(chain, p.before), earlier)
    ensures var r := ResultOf(chain, runtime, rules, cfg, p);
      AnchoredAbove(r.db, chain, r.next, finalized)
  {
    hide Poll, Honest, RangeHeadsUpTo, Pass;
    PassIsCheckThenPoll(chain, runtime, rules, cfg, p);
    var c := CheckedState(chain, runtime, p.server, cfg, p.before);
    assert AnchoredAbove(c.db, chain, c.next, finalized);
    if !c.failed && p.server.latest.Some? {
      PollKeepsAnchored(chain, p.server, rules, cfg, c.db, p.world, c.next,
                        SaturatingSub(p.server.latest.value, runtime.headBufferBlocks), finalized);
    }
  }

  /** The finalized head never goes back: `heads[i]` bounds what pass i reads, and each check reads
      at least what earlier passes were bounded by. */
  ghost predicate MonotoneHeads(run: seq<PassRun>, heads: seq<nat>) {
    && |heads| == |run|
    && (forall i :: 0 <= i < |run| ==> RangeHeadsUpTo(run[i].server, heads[i]))
    && (forall i :: 0 < i < |run| ==> heads[i - 1] <= heads[i])
    && (forall i :: 0 < i < |run| ==> CheckReadsFrom(run[i].server, heads[i - 1]))
  }

  ghost predicate CheckReadsFrom(server: Server, finalized: nat) {
    server.finalized(AtWindowCheck).Some? ==> finalized <= server.finalized(AtWindowCheck).value < U64_MAX
  }

  /** In any run, whatever its rows and keys, every indexed block above any finalized head read so far has an anchor. */
  lemma {:induction false} RunKeepsAnchored(chain: ChainConfig, runtime: RuntimeConfig, rules: Rules,
                                            cfg: AssignmentConfig, run: seq<PassRun>, heads: seq<nat>)
    requires UsesReorgProtection(chain.finality) && run != [] && HonestRun(chain, runtime, rules, cfg, run)
    requires MonotoneHeads(run, heads)
    ensures var r := ResultOf(chain, runtime, rules, cfg, run[|run| - 1]);
      AnchoredAbove(r.db, chain, r.next, heads[|run| - 1])
  {
    hide ResultOf, HonestRun, NeverMarked, MarksUntouched, Honest, AnchoredAbove, BlocksOf, MarksOk, MonotoneHeads;
    var n := |run| - 1;
    HonestRunSplit(chain, runtime, rules, cfg, run);
    HeadsSplit(run, heads);
    if n > 0 {
      RunKeepsAnchored(chain, runtime, rules, cfg, run[..n], heads[..n]);
      assert run[..n][n - 1] == run[n - 1];
      RunMarks(chain, runtime, rules, cfg, run[..n]);
      var r := ResultOf(chain, runtime, rules, cfg, run[n - 1]);
      AnchoredFrame(r.db, run[n].before, chain, BlocksOf(chain, runtime, rules, cfg, run[..n]), r.next, heads[n - 1]);
      PassKeepsAnchored(chain, runtime, rules, cfg, run[n], heads[n - 1], heads[n]);
    } else {
      NothingToAnchor(run[0].before, chain, heads[0]);
      PassKeepsAnchored(chain, runtime, rules, cfg, run[n], heads[n], heads[n]);
    }
  }

  lemma HeadsSplit(run: seq<PassRun>, heads: seq<nat>)
    requires run != [] && MonotoneHeads(run, heads)
    ensures var n := |run| - 1;
      && |heads| == |run| && RangeHeadsUpTo(run[n].server, heads[n])
      && MonotoneHeads(run[..n], heads[..n]) && (n > 0 ==> heads[n - 1] <= heads[n])
  {
    hide RangeHeadsUpTo, CheckReadsFrom;
  }

  lemma NothingToAnchor(db: Db, chain: ChainConfig, finalized: nat)
    requires NeverMarked(db, chain)
    ensures AnchoredAbove(Opened(chain, db), chain, NextBlock(chain, db), finalized)
  {
  }

  /** What one pass leaves anchored, the next one starts with. */
  lemma AnchoredFrame(before: Db, after: Db, chain: ChainConfig, blocks: seq<IndexedBlock>, next: nat, finalized: nat)
    requires AnchoredAbove(before, chain, next, finalized) && MarksUntouched(before, after, chain)
    requires MarksOk(before, chain, blocks, next)
    ensures AnchoredAbove(Opened(chain, after), chain, NextBlock(chain, after), finalized)
  {
    MarksFrame(before, after, chain, blocks, next);
  }

  /** The header list answers for every height it claims to cover. */
  ghost predicate NoMissingHeader(server: Server, from: nat, to: nat) {
    server.blocks(AtWindowCheck, from, to).Some? ==>
      forall n :: from <= n <= to ==> HasHeader(server.blocks(AtWindowCheck, from, to).value.items, n)
  }

  ghost predicate HasHeader(blocks: seq<Block>, n: nat) {
    exists b :: b in blocks && b.number == n
  }

  /** A height with an anchor and a header mismatches exactly if its indexed block is not current. */
  lemma HeightMatchesIff(anchors: map<AnchorKey, BlockAnchor>, chain: ChainConfig, indexed: seq<IndexedBlock>,
                         blocks: seq<Block>, w: World, n: nat)
    requires AnchorsMatch(anchors, chain, indexed) && AnchorKey(chain.chainId, chain.dataset, n) in anchors
    requires HonestBlocks(blocks, w) && HasHeader(blocks, n)
    requires chain.startBlock <= n < chain.startBlock + |indexed|
    ensures Mismatch(anchors, BlockMap(blocks), chain, n) <==> indexed[n - chain.startBlock].hash != w(n)
  {
    BlockMapIsHonest(blocks, w);
  }

  /** With anchors above the finalized head and a complete header list, a check that can be made rolls back if and
      only if some indexed block of its window is not current, and then to the lowest such height. */
  lemma RollsBackIff(db: Db, chain: ChainConfig, runtime: RuntimeConfig, server: Server, rules: Rules, w: World,
                     indexed: seq<IndexedBlock>, next: nat, finalized: nat)
    requires MarksOk(db, chain, indexed, next) && Honest(server, rules, w)
    requires AnchoredAbove(db, chain, next, finalized) && CheckReadsFrom(server, finalized)
    requires next > 0 ==> NoMissingHeader(server, CheckedFrom(chain, runtime, server, next), next - 1)
    ensures match CheckWindow(chain, runtime, server, db.anchors, next)
            case Clean => CurrentFrom(indexed, chain.startBlock, w, CheckedFrom(chain, runtime, server, next))
            case RollBackTo(b) =>
              && CheckedFrom(chain, runtime, server, next) <= b < chain.startBlock + |indexed| && chain.startBlock <= b
              && indexed[b - chain.startBlock].hash != w(b)
              && CurrentFrom(indexed[..b - chain.startBlock], chain.startBlock, w,
                             CheckedFrom(chain, runtime, server, next))
            case _ => true
  {
    hide BlockMap, Mismatch, AnchorsMatch, CurrentFrom;
    CheckSeesItsWindow(db, chain, runtime, server, rules, w, indexed, next);
    if CheckWindow(chain, runtime, server, db.anchors, next).RollBackTo? {
      RollbackIsMinimal(chain, runtime, server, db.anchors, next);
      var b := CheckWindow(chain, runtime, server, db.anchors, next).block;
      var items := server.blocks(AtWindowCheck, CheckedFrom(chain, runtime, server, next), next - 1).value.items;
      HeightMatchesIff(db.anchors, chain, indexed, items, w, b);
    }
  }

  /** In any run with a monotone finalized head, a pass whose window holds no changed block does not roll back.
      Nothing is asked of rows or keys. */
  lemma NoSpuriousRollback(chain: ChainConfig, runtime: RuntimeConfig, rules: Rules, cfg: AssignmentConfig,
                           run: seq<PassRun>, heads: seq<nat>, w: World, server: Server)
    requires UsesReorgProtection(chain.finality) && run != [] && HonestRun(chain, runtime, rules, cfg, run)
    requires MonotoneHeads(run, heads) && CheckReadsFrom(server, heads[|run| - 1]) && Honest(server, rules, w)
    requires var next := ResultOf(chain, runtime, rules, cfg, run[|run| - 1]).next;
      && (next > 0 ==> NoMissingHeader(server, CheckedFrom(chain, runtime, server, next), next - 1))
      && CurrentFrom(BlocksOf(chain, runtime, rules, cfg, run), chain.startBlock, w,
                     CheckedFrom(chain, runtime, server, next))
    ensures var r := ResultOf(chain, runtime, rules, cfg, run[|run| - 1]);
      !CheckWindow(chain, runtime, server, r.db.anchors, r.next).RollBackTo?
  {
    hide ResultOf, CheckWindow, Honest, HonestRun, BlocksOf, RangeHeadsUpTo, CheckReadsFrom, MarksOk, AnchoredAbove,
        NoMissingHeader;
    var r := ResultOf(chain, runtime, rules, cfg, run[|run| - 1]);
    RunMarks(chain, runtime, rules, cfg, run);
    RunKeepsAnchored(chain, runtime, rules, cfg, run, heads);
    RollsBackIff(r.db, chain, runtime, server, rules, w, BlocksOf(chain, runtime, rules, cfg, run), r.next,
                 heads[|run| - 1]);
  }

  // ---- What a check cannot see ----

  lemma {:induction false} SameMismatches(a: map<AnchorKey, BlockAnchor>, b: map<AnchorKey, BlockAnchor>,
                                          current: map<nat, Block>, chain: ChainConfig, from: nat, end: nat)
    requires forall n :: from <= n < end ==> (Mismatch(a, current, chain, n) <==> Mismatch(b, current, chain, n))
    ensures FirstMismatch(a, current, chain, from, end) == FirstMismatch(b, current, chain, from, end)
    decreases end - from
  {
    if from < end {
      SameMismatches(a, b, current, chain, from + 1, end);
    }
  }

  /** A check is blind below its window: whatever is stored for lower heights, it decides the same. So a block that
      went stale while checks were incomplete stays once the window has moved past it. */
  lemma CheckIsBlindBelowWindow(chain: ChainConfig, runtime: RuntimeConfig, server: Server,
                                a: map<AnchorKey, BlockAnchor>, b: map<AnchorKey, BlockAnchor>, next: nat)
    requires forall n :: CheckedFrom(chain, runtime, server, next) <= n < next ==>
               var k := AnchorKey(chain.chainId, chain.dataset, n);
               (k in a <==> k in b) && (k in a ==> a[k] == b[k])
    ensures CheckWindow(chain, runtime, server, a, next) == CheckWindow(chain, runtime, server, b, next)
  {
    if next > 0 && server.finalized(AtWindowCheck).Some? {
      var from := WindowStart(chain, runtime, next, server.finalized(AtWindowCheck).value);
      if from < next && server.blocks(AtWindowCheck, from, next - 1).Some? {
        var current := BlockMap(server.blocks(AtWindowCheck, from, next - 1).value.items);
        forall n | from <= n < next
          ensures Mismatch(a, current, chain, n) <==> Mismatch(b, current, chain, n)
        {
          var k := AnchorKey(chain.chainId, chain.dataset, n);
          assert (k in a <==> k in b) && (k in a ==> a[k] == b[k]);
        }
        SameMismatches(a, b, current, chain, from, next);
      }
    }
  }

  /** A committed range moves the checkpoint forward if and only if the served end is not before the requested
      start: the code checks only where the serve starts. */
  lemma CommitMovesForwardIff(chain: ChainConfig, server: Server, decode: Decoder, cfg: AssignmentConfig, db: Db,
                              from: nat, to: nat)
    requires from <= to && ProcessRange(chain, server, decode, cfg, db, from, to).RangeDone?
    ensures ProcessRange(chain, server, decode, cfg, db, from, to).next > from
       <==> server.logs(from, to).value.servedEnd.value >= from
  {
  }

  /** A reversed serve is committed and takes the checkpoint back below where it was. */
  lemma ReversedServeMovesBack(chain: ChainConfig, cfg: AssignmentConfig, db: Db)
    requires UsesReorgProtection(chain.finality)
    ensures var serve: Page<Log> := Page([], Some(100), Some(40), false);
      var server := Server(Some(1000), _ => Some(90), (_, _) => Some(serve), (_, _, _) => None, true, _ => true);
      var r := ProcessRange(chain, server, _ => Some([]), cfg, db, 100, 199);
      r.RangeDone? && r.next == 41 && r.db == Committed(db, [], [], chain.chainId, chain.dataset, 41, cfg)
  {
    assert RowsOf([]) == [];
  }

  // ---- Anchors named by logs ----

  ghost predicate Increasing(anchors: seq<BlockAnchor>) {
    forall i, j :: 0 <= i < j < |anchors| ==> anchors[i].key.blockNumber < anchors[j].key.blockNumber
  }

  /** Filling a vacant entry keeps the order; an entry that is there stays. */
  lemma {:induction false} AddAnchorFills(anchors: seq<BlockAnchor>, a: BlockAnchor)
    requires Increasing(anchors)
    ensures Increasing(AddAnchor(anchors, a))
    ensures forall b :: b in AddAnchor(anchors, a)
                   <==> b in anchors || (b == a && forall x :: x in anchors ==> x.key.blockNumber != a.key.blockNumber)
  {
    if anchors != [] && anchors[0].key.blockNumber < a.key.blockNumber {
      var rest := anchors[1..];
      assert anchors == [anchors[0]] + rest;
      AddAnchorFills(rest, a);
      var added := AddAnchor(rest, a);
      forall j | 0 <= j < |added|
        ensures anchors[0].key.blockNumber < added[j].key.blockNumber
      {
        assert added[j] in added;
      }
    } else if anchors != [] {
      assert forall x :: x in anchors ==> x == anchors[0] || anchors[0].key.blockNumber < x.key.blockNumber;
    }
  }

  /** The first log that names its height with a hash. */
  ghost predicate FirstNamed(logs: seq<Log>, i: nat) {
    && i < |logs| && logs[i].blockHash.Some?
    && forall j :: 0 <= j < i && logs[j].blockHash.Some? ==> logs[j].blockNumber != logs[i].blockNumber
  }

  ghost predicate NamedBy(chain: ChainConfig, logs: seq<Log>, i: nat, a: BlockAnchor) {
    && FirstNamed(logs, i)
    && a == AnchorAt(chain, logs[i].blockNumber, logs[i].blockHash.value, logs[i].parentHash)
  }

  /** The anchors named by logs are in strictly increasing height, one for every height some log names with a hash, and
      each is the one its first such log names. */
  lemma {:induction false} LogAnchorsAreFirst(chain: ChainConfig, logs: seq<Log>)
    ensures Increasing(AnchorsFromLogs(chain, logs))
    ensures forall a :: a in AnchorsFromLogs(chain, logs) <==> exists i: nat :: NamedBy(chain, logs, i, a)
  {
    hide AddAnchor, NamedBy, Increasing, FirstNamed;
    if logs == [] {
      NoLogsNoAnchors(chain);
    } else {
      var n := |logs| - 1;
      LogAnchorsAreFirst(chain, logs[..n]);
      var rest := AnchorsFromLogs(chain, logs[..n]);
      if logs[n].blockHash.Some? {
        AddAnchorFills(rest, AnchorAt(chain, logs[n].blockNumber, logs[n].blockHash.value, logs[n].parentHash));
        VacantIff(chain, logs, n);
      }
      forall a
        ensures a in AnchorsFromLogs(chain, logs) <==> exists i: nat :: NamedBy(chain, logs, i, a)
      {
        NamedByPrefix(chain, logs, n, a);
        NamedByLast(chain, logs, n, a);
        assert a in rest <==> exists i: nat :: NamedBy(chain, logs[..n], i, a);
      }
    }
  }

  lemma NoLogsNoAnchors(chain: ChainConfig)
    ensures Increasing(AnchorsFromLogs(chain, []))
    ensures forall i: nat, a :: !NamedBy(chain, [], i, a)
  {
  }

  lemma NamedByLast(chain: ChainConfig, logs: seq<Log>, n: nat, a: BlockAnchor)
    requires n < |logs|
    ensures NamedBy(chain, logs, n, a)
       <==> logs[n].blockHash.Some? && FirstNamed(logs, n)
            && a == AnchorAt(chain, logs[n].blockNumber, logs[n].blockHash.value, logs[n].parentHash)
  {
  }

  lemma NamedByPrefix(chain: ChainConfig, logs: seq<Log>, n: nat, a: BlockAnchor)
    requires |logs| == n + 1
    ensures (exists i: nat :: NamedBy(chain, logs, i, a))
       <==> (exists i: nat :: NamedBy(chain, logs[..n], i, a)) || NamedBy(chain, logs, n, a)
  {
    forall i: nat | i < n
      ensures NamedBy(chain, logs[..n], i, a) <==> NamedBy(chain, logs, i, a)
    {
      SameUpTo(logs, n, i);
    }
    if i: nat :| NamedBy(chain, logs, i, a) {
      assert i < n ==> NamedBy(chain, logs[..n], i, a);
    }
  }

  lemma SameUpTo(logs: seq<Log>, n: nat, i: nat)
    requires i < n <= |logs|
    ensures FirstNamed(logs[..n], i) <==> FirstNamed(logs, i)
  {
    forall j | 0 <= j <= i
      ensures logs[..n][j] == logs[j]
    {
    }
  }

  /** A log is the first to name its height exactly if no earlier log's anchor is there. */
  lemma {:induction false} VacantIff(chain: ChainConfig, logs: seq<Log>, n: nat)
    requires n < |logs| && logs[n].blockHash.Some?
    requires forall a :: a in AnchorsFromLogs(chain, logs[..n]) <==> exists i: nat :: NamedBy(chain, logs[..n], i, a)
    ensures FirstNamed(logs, n)
       <==> forall x :: x in AnchorsFromLogs(chain, logs[..n]) ==> x.key.blockNumber != logs[n].blockNumber
  {
    if !FirstNamed(logs, n) {
      var j :| 0 <= j < n && logs[j].blockHash.Some? && logs[j].blockNumber == logs[n].blockNumber;
      var i := FirstOfHeight(logs[..n], j);
      var x := AnchorAt(chain, logs[i].blockNumber, logs[i].blockHash.value, logs[i].parentHash);
      assert NamedBy(chain, logs[..n], i, x);
      assert x in AnchorsFromLogs(chain, logs[..n]);
    }
    forall x | x in AnchorsFromLogs(chain, logs[..n]) && FirstNamed(logs, n)
      ensures x.key.blockNumber != logs[n].blockNumber
    {
      var i: nat :| NamedBy(chain, logs[..n], i, x);
      assert logs[..n][i] == logs[i];
    }
  }

  lemma {:induction false} FirstOfHeight(logs: seq<Log>, j: nat) returns (i: nat)
    requires j < |logs| && logs[j].blockHash.Some?
    ensures i <= j && FirstNamed(logs, i) && logs[i].blockNumber == logs[j].blockNumber
  {
    i := j;
    if !FirstNamed(logs, j) {
      var k :| 0 <= k < j && logs[k].blockHash.Some? && logs[k].blockNumber == logs[j].blockNumber;
      i := FirstOfHeight(logs, k);
    }
  }
}
