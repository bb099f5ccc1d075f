/** Runs of passes: the world may reorganise between passes, other chains may write between passes, and any
    request or transaction may fail (src/runner.rs). What is indexed is tracked block by block, together
    with what was committed after each block, so the rows that are stored after any run are known exactly. */
module RunnerRuns {
  import opened Prelude
  import opened Schema
  import opened Assignments
  import opened DatabaseSpec
  import opened Views
  import opened History
  import opened RunnerSpec
  import opened RunnerSafety

  // ---- The window check ----

  /** Every indexed block is a block of this world. */
  ghost predicate UpToDate(blocks: seq<IndexedBlock>, start: nat, w: World) {
    forall i :: 0 <= i < |blocks| ==> blocks[i].hash == w(start + i)
  }

  /** Every indexed block below the height is a block of this world. */
  ghost predicate CurrentBelow(blocks: seq<IndexedBlock>, start: nat, w: World, end: nat) {
    forall i :: 0 <= i < |blocks| && start + i < end ==> blocks[i].hash == w(start + i)
  }

  /** Every indexed block from the height on is a block of this world. */
  ghost predicate CurrentFrom(blocks: seq<IndexedBlock>, start: nat, w: World, from: nat) {
    forall i :: 0 <= i < |blocks| && start + i >= from ==> blocks[i].hash == w(start + i)
  }

  /** Where a completed check starts looking; after every indexed block if there is nothing to ask. */
  ghost function CheckedFrom(chain: ChainConfig, runtime: RuntimeConfig, server: Server, next: nat): nat {
    match server.finalized(AtWindowCheck)
    case None => next
    case Some(finalized) => Min(next, WindowStart(chain, runtime, next, finalized))
  }

  lemma WindowStartBound(chain: ChainConfig, runtime: RuntimeConfig, next: nat, finalized: nat)
    ensures chain.startBlock <= WindowStart(chain, runtime, next, finalized)
  {
  }

  lemma MatchedHeight(anchors: map<AnchorKey, BlockAnchor>, chain: ChainConfig, w: World, indexed: seq<IndexedBlock>,
                      headers: seq<Block>, i: nat)
    requires AnchorsMatch(anchors, chain, indexed) && HonestBlocks(headers, w) && i < |indexed|
    requires !Mismatch(anchors, BlockMap(headers), chain, chain.startBlock + i)
    ensures indexed[i].hash == w(chain.startBlock + i)
  {
    BlockMapIsHonest(headers, w);
    var k := AnchorKey(chain.chainId, chain.dataset, chain.startBlock + i);
    assert k in anchors;
  }

  /** A completed check has found every indexed block of its window current, up to the height it reports if any; that
      height lies in the window and at or above the start block. */
  lemma CheckSeesItsWindow(db: Db, chain: ChainConfig, runtime: RuntimeConfig, server: Server, rules: Rules, w: World,
                           blocks: seq<IndexedBlock>, next: nat)
    requires MarksOk(db, chain, blocks, next) && Honest(server, rules, w)
    ensures match CheckWindow(chain, runtime, server, db.anchors, next)
            case Clean => CurrentFrom(blocks, chain.startBlock, w, CheckedFrom(chain, runtime, server, next))
            case RollBackTo(b) =>
              && chain.startBlock <= b && CheckedFrom(chain, runtime, server, next) <= b < next
              && CurrentFrom(blocks[..b - chain.startBlock], chain.startBlock, w,
                             CheckedFrom(chain, runtime, server, next))
            case _ => true
  {
    hide WindowStart, AnchorsMatch;
    var from := CheckedFrom(chain, runtime, server, next);
    if next > 0 && server.finalized(AtWindowCheck).Some? && from < next
       && server.blocks(AtWindowCheck, from, next - 1).Some? {
      var headers := server.blocks(AtWindowCheck, from, next - 1).value.items;
      forall i | 0 <= i < |blocks| && !Mismatch(db.anchors, BlockMap(headers), chain, chain.startBlock + i)
        ensures blocks[i].hash == w(chain.startBlock + i)
      {
        MatchedHeight(db.anchors, chain, w, blocks, headers, i);
      }
      WindowStartBound(chain, runtime, next, server.finalized(AtWindowCheck).value);
    }
  }

  /** The exact reach of a completed check: what it leaves indexed is current if and only if every indexed block
      below its window is. */
  lemma CheckIsRightIff(db: Db, chain: ChainConfig, runtime: RuntimeConfig, server: Server, rules: Rules, w: World,
                        blocks: seq<IndexedBlock>, next: nat)
    requires MarksOk(db, chain, blocks, next) && Honest(server, rules, w)
    ensures var below := CurrentBelow(blocks, chain.startBlock, w, CheckedFrom(chain, runtime, server, next));
      match CheckWindow(chain, runtime, server, db.anchors, next)
      case Clean => UpToDate(blocks, chain.startBlock, w) <==> below
      case RollBackTo(b) =>
        && chain.startBlock <= b && CheckedFrom(chain, runtime, server, next) <= b < next
        && (UpToDate(blocks[..b - chain.startBlock], chain.startBlock, w) <==> below)
      case _ => true
  {
    hide CheckWindow, CheckedFrom, Honest;
    CheckSeesItsWindow(db, chain, runtime, server, rules, w, blocks, next);
    var from := CheckedFrom(chain, runtime, server, next);
    match CheckWindow(chain, runtime, server, db.anchors, next)
    case Clean =>
      SplitAtHeight(blocks, chain.startBlock, w, from);
    case RollBackTo(b) =>
      SplitAtHeight(blocks[..b - chain.startBlock], chain.startBlock, w, from);
      CutBelow(blocks, chain.startBlock, w, from, b - chain.startBlock);
    case _ =>
  }

  lemma SplitAtHeight(blocks: seq<IndexedBlock>, start: nat, w: World, n: nat)
    ensures UpToDate(blocks, start, w) <==> CurrentBelow(blocks, start, w, n) && CurrentFrom(blocks, start, w, n)
  {
  }

  lemma CutBelow(blocks: seq<IndexedBlock>, start: nat, w: World, n: nat, m: nat)
    requires m <= |blocks| && n <= start + m
    ensures CurrentBelow(blocks[..m], start, w, n) <==> CurrentBelow(blocks, start, w, n)
  {
    forall i | 0 <= i < |blocks| && start + i < n
      ensures blocks[..m][i] == blocks[i]
    {
    }
  }

  /** The height a check returns is the first mismatch of the window: it is bounded by the start block, the window
      and the finalized head, and every earlier height of the window has an anchor with the current hash. */
  lemma RollbackIsMinimal(chain: ChainConfig, runtime: RuntimeConfig, server: Server,
                          anchors: map<AnchorKey, BlockAnchor>, next: nat)
    requires CheckWindow(chain, runtime, server, anchors, next).RollBackTo?
    ensures var b := CheckWindow(chain, runtime, server, anchors, next).block;
      && server.finalized(AtWindowCheck).Some?
      && var from := WindowStart(chain, runtime, next, server.finalized(AtWindowCheck).value);
         && chain.startBlock <= from <= b < next && next - runtime.reorgWindowBlocks <= b
         && (server.finalized(AtWindowCheck).value < U64_MAX ==> b > server.finalized(AtWindowCheck).value)
         && server.blocks(AtWindowCheck, from, next - 1).Some?
         && var current := BlockMap(server.blocks(AtWindowCheck, from, next - 1).value.items);
            && Mismatch(anchors, current, chain, b)
            && forall n :: from <= n < b ==> !Mismatch(anchors, current, chain, n)
  {
    var from := WindowStart(chain, runtime, next, server.finalized(AtWindowCheck).value);
    var current := BlockMap(server.blocks(AtWindowCheck, from, next - 1).value.items);
    var b := CheckWindow(chain, runtime, server, anchors, next).block;
    assert FirstMismatch(anchors, current, chain, from, next) == Some(b);
  }

  // ---- Rolling back ----

  /** Rolling back to a height leaves the anchors and the checkpoint of the blocks below it. */
  lemma RollbackCutsMarks(db: Db, chain: ChainConfig, blocks: seq<IndexedBlock>, next: nat, block: nat,
                          cfg: AssignmentConfig)
    requires MarksOk(db, chain, blocks, next) && chain.startBlock <= block <= next
    ensures MarksOk(RolledBack(db, chain.chainId, chain.dataset, block, cfg), chain,
                    blocks[..block - chain.startBlock], block)
  {
  }

  /** Rolling back to a height leaves the surviving rows of the blocks below it, and nothing else. */
  lemma RollbackCutsRows(db: Db, chain: ChainConfig, rules: Rules, blocks: seq<IndexedBlock>, block: nat,
                         cfg: AssignmentConfig)
    requires Valid(db) && HoldsBlocks(db, chain.chainId, rules, blocks) && BlocksOk(rules, chain, blocks)
    requires chain.startBlock <= block <= chain.startBlock + |blocks|
    ensures var cut, db2 := blocks[..block - chain.startBlock],
        RolledBack(db, chain.chainId, chain.dataset, block, cfg);
      Valid(db2) && HoldsBlocks(db2, chain.chainId, rules, cut) && BlocksOk(rules, chain, cut)
  {
    hide Survives, Valid, BlockOk;
    var cut, db2 := blocks[..block - chain.startBlock], RolledBack(db, chain.chainId, chain.dataset, block, cfg);
    RollbackRestoresView(db, chain.chainId, chain.dataset, block, cfg);
    forall i | 0 <= i < |cut|
      ensures BlockOk(rules, chain, cut[i], chain.startBlock + i)
    {
      assert BlockOk(rules, chain, blocks[i], chain.startBlock + i);
    }
    forall r: Row | !r.SignatureRow? && r.chainId == chain.chainId
      ensures Stored(db2, r) <==> SurvivesIn(rules, cut, r)
    {
      StoredBelow(db, r, chain, block, cfg);
      SurvivesBelow(chain, rules, blocks, block - chain.startBlock, r);
    }
  }

  lemma StoredBelow(db: Db, r: Row, chain: ChainConfig, block: nat, cfg: AssignmentConfig)
    requires !r.SignatureRow? && r.chainId == chain.chainId
    ensures Stored(RolledBack(db, chain.chainId, chain.dataset, block, cfg), r)
       <==> Stored(db, r) && r.blockNumber < block
  {
  }

  lemma SurvivesBelow(chain: ChainConfig, rules: Rules, blocks: seq<IndexedBlock>, m: nat, r: Row)
    requires BlocksOk(rules, chain, blocks) && m <= |blocks| && !r.SignatureRow?
    ensures SurvivesIn(rules, blocks[..m], r) <==> SurvivesIn(rules, blocks, r) && r.blockNumber < chain.startBlock + m
  {
    hide Overwritten;
    forall i | 0 <= i < |blocks| && Survives(rules, blocks[i], r)
      ensures r.blockNumber == chain.startBlock + i
    {
      RowHeight(chain, rules, blocks[i], chain.startBlock + i, r);
    }
    if SurvivesIn(rules, blocks[..m], r) {
      var i :| 0 <= i < m && Survives(rules, blocks[..m][i], r);
      assert Survives(rules, blocks[i], r);
    }
    if SurvivesIn(rules, blocks, r) && r.blockNumber < chain.startBlock + m {
      var i :| 0 <= i < |blocks| && Survives(rules, blocks[i], r);
      assert Survives(rules, blocks[..m][i], r);
    }
  }

  /** A row of a block carries the block's height and chain. */
  lemma RowHeight(chain: ChainConfig, rules: Rules, b: IndexedBlock, n: nat, r: Row)
    requires BlockOk(rules, chain, b, n) && !r.SignatureRow? && r in RowsOf(EventsOf(rules, b.hash))
    ensures r.blockNumber == n && r.chainId == chain.chainId
  {
    hide RowOf;
    var events := EventsOf(rules, b.hash);
    var j :| 0 <= j < |events| && RowsOf(events)[j] == r;
    RowSource(events[j]);
    assert events[j] in events;
  }

  // ---- One pass ----

  /** The pass's starting tables, the world it runs in, and the server it talks to. */
  datatype PassRun = PassRun(before: Db, world: World, server: Server)

  ghost function ResultOf(chain: ChainConfig, runtime: RuntimeConfig, rules: Rules, cfg: AssignmentConfig, p: PassRun)
    : PassResult
  {
    Pass(chain, runtime, p.server, rules.decode, cfg, p.before)
  }

  /** What the check and its rollback leave for the poll loop. */
  datatype Checked = Checked(db: Db, next: nat, verified: bool, failed: bool)

  ghost function CheckedState(chain: ChainConfig, runtime: RuntimeConfig, server: Server, cfg: AssignmentConfig, db: Db)
    : Checked
  {
    var ready, next := Opened(chain, db), NextBlock(chain, db);
    if !UsesReorgProtection(chain.finality) then Checked(ready, next, false, false)
    else match CheckWindow(chain, runtime, server, ready.anchors, next)
      case CheckFailed => Checked(ready, next, false, true)
      case Unverified => Checked(ready, next, false, false)
      case Clean => Checked(ready, next, true, false)
      case RollBackTo(b) =>
        if server.rollbackCommits then Checked(RolledBack(ready, chain.chainId, chain.dataset, b, cfg), b, true, false)
        else Checked(ready, next, false, true)
  }

  lemma PassIsCheckThenPoll(chain: ChainConfig, runtime: RuntimeConfig, rules: Rules, cfg: AssignmentConfig, p: PassRun)
    ensures var c := CheckedState(chain, runtime, p.server, cfg, p.before);
      var r := ResultOf(chain, runtime, rules, cfg, p);
      && r.verified == c.verified
      && (if c.failed || p.server.latest.None? then r.db == c.db && r.next == c.next && !r.ok
          else var polled := Poll(chain, p.server, rules.decode, cfg, c.db, c.next,
                                  SaturatingSub(p.server.latest.value, runtime.headBufferBlocks));
               r.db == polled.db && r.next == polled.next)
  {
  }

  function Below(blocks: seq<IndexedBlock>, m: int): seq<IndexedBlock> {
    if 0 <= m <= |blocks| then blocks[..m] else blocks
  }

  /** What is indexed after the pass: what its check left, and the current world's blocks up to where it stopped. */
  ghost function BlocksAfter(chain: ChainConfig, runtime: RuntimeConfig, rules: Rules, cfg: AssignmentConfig,
                             blocks: seq<IndexedBlock>, p: PassRun): seq<IndexedBlock> {
    var c := CheckedState(chain, runtime, p.server, cfg, p.before);
    Extended(Below(blocks, c.next - chain.startBlock), p.world, c.next, ResultOf(chain, runtime, rules, cfg, p).next)
  }

  /** What the check leaves. */
  lemma CheckedMarks(chain: ChainConfig, runtime: RuntimeConfig, rules: Rules, cfg: AssignmentConfig, p: PassRun,
                     blocks: seq<IndexedBlock>)
    requires MarksOk(Opened(chain, p.before), chain, blocks, NextBlock(chain, p.before))
        && Honest(p.server, rules, p.world)
    ensures var c := CheckedState(chain, runtime, p.server, cfg, p.before);
      && chain.startBlock <= c.next <= chain.startBlock + |blocks|
      && MarksOk(c.db, chain, blocks[..c.next - chain.startBlock], c.next)
      && (c.verified ==>
            (UpToDate(blocks[..c.next - chain.startBlock], chain.startBlock, p.world)
             <==> CurrentBelow(blocks, chain.startBlock, p.world,
                               CheckedFrom(chain, runtime, p.server, NextBlock(chain, p.before)))))
  {
    hide CheckWindow, AnchorsMatch, Honest, CheckedFrom, UpToDate, CurrentBelow, RolledBack;
    var ready, next := Opened(chain, p.before), NextBlock(chain, p.before);
    CheckIsRightIff(ready, chain, runtime, p.server, rules, p.world, blocks, next);
    assert blocks[..next - chain.startBlock] == blocks;
    match CheckWindow(chain, runtime, p.server, ready.anchors, next)
    case RollBackTo(b) =>
      RollbackCutsMarks(ready, chain, blocks, next, b, cfg);
    case _ =>
  }

  /** What a pass does to the tables and the checkpoint, whatever the server answers and wherever it fails: a
      rollback perhaps, and then the current world's blocks in order, without gap or overlap. */
  lemma PassShape(chain: ChainConfig, runtime: RuntimeConfig, rules: Rules, cfg: AssignmentConfig, p: PassRun,
                  blocks: seq<IndexedBlock>)
    requires AnchorsTrue(chain, rules, p.world)
    requires MarksOk(Opened(chain, p.before), chain, blocks, NextBlock(chain, p.before))
        && Honest(p.server, rules, p.world)
    ensures var c := CheckedState(chain, runtime, p.server, cfg, p.before);
      var r := ResultOf(chain, runtime, rules, cfg, p);
      && c.next <= r.next
      && MarksOk(r.db, chain, BlocksAfter(chain, runtime, rules, cfg, blocks, p), r.next)
      && SameTables(r.db, TablesAfter(c.db, rules, p.world, c.next, r.next, cfg))
  {
    hide AnchorsTrue, Poll, CheckWindow, Honest, CheckedState, Pass, MarksOk, WrittenAll, TablesAfter, SameTables,
        UpToDate, CurrentBelow;
    var c := CheckedState(chain, runtime, p.server, cfg, p.before);
    CheckedMarks(chain, runtime, rules, cfg, p, blocks);
    PassIsCheckThenPoll(chain, runtime, rules, cfg, p);
    NothingPolled(c.db, rules, p.world, c.next, cfg);
    if !c.failed && p.server.latest.Some? {
      var target := SaturatingSub(p.server.latest.value, runtime.headBufferBlocks);
      PollExtends(chain, p.server, rules, cfg, c.db, p.world, blocks[..c.next - chain.startBlock], c.next, target);
    }
  }

  /** If the check of the pass completed, everything is current afterwards if and only if every block below the
      window was. */
  lemma PassUpToDateIff(chain: ChainConfig, runtime: RuntimeConfig, rules: Rules, cfg: AssignmentConfig, p: PassRun,
                        blocks: seq<IndexedBlock>)
    requires AnchorsTrue(chain, rules, p.world)
    requires MarksOk(Opened(chain, p.before), chain, blocks, NextBlock(chain, p.before))
        && Honest(p.server, rules, p.world)
    requires ResultOf(chain, runtime, rules, cfg, p).verified
    ensures UpToDate(BlocksAfter(chain, runtime, rules, cfg, blocks, p), chain.startBlock, p.world)
       <==> CurrentBelow(blocks, chain.startBlock, p.world,
                         CheckedFrom(chain, runtime, p.server, NextBlock(chain, p.before)))
  {
    hide AnchorsTrue, Poll, CheckWindow, Honest, CheckedState, Pass, MarksOk, SameTables, TablesAfter, CurrentBelow,
        CheckedFrom;
    var c := CheckedState(chain, runtime, p.server, cfg, p.before);
    CheckedMarks(chain, runtime, rules, cfg, p, blocks);
    PassIsCheckThenPoll(chain, runtime, rules, cfg, p);
    PassShape(chain, runtime, rules, cfg, p, blocks);
    ExtendedUpToDate(blocks[..c.next - chain.startBlock], chain.startBlock, p.world, c.next,
                     ResultOf(chain, runtime, rules, cfg, p).next);
  }

  lemma ExtendedUpToDate(blocks: seq<IndexedBlock>, start: nat, w: World, from: nat, end: nat)
    requires start + |blocks| == from <= end
    ensures UpToDate(Extended(blocks, w, from, end), start, w) <==> UpToDate(blocks, start, w)
  {
    var all := Extended(blocks, w, from, end);
    ExtendedParts(blocks, w, from, end);
    if UpToDate(all, start, w) {
      forall i | 0 <= i < |blocks|
        ensures blocks[i].hash == w(start + i)
      {
        assert all[i].hash == w(start + i);
      }
    }
  }

  /** A pass keeps the rows exactly those that survive of what it leaves indexed. */
  lemma PassKeepsRows(chain: ChainConfig, runtime: RuntimeConfig, rules: Rules, cfg: AssignmentConfig, p: PassRun,
                      blocks: seq<IndexedBlock>)
    requires AnchorsTrue(chain, rules, p.world)
    requires MarksOk(Opened(chain, p.before), chain, blocks, NextBlock(chain, p.before))
        && Honest(p.server, rules, p.world)
    requires Valid(p.before) && HoldsBlocks(p.before, chain.chainId, rules, blocks) && BlocksOk(rules, chain, blocks)
    requires WorldOk(rules, chain.chainId, p.world) && OneRowPerKey(rules, p.world)
    ensures var r := ResultOf(chain, runtime, rules, cfg, p);
      var after := BlocksAfter(chain, runtime, rules, cfg, blocks, p);
      Valid(r.db) && HoldsBlocks(r.db, chain.chainId, rules, after) && BlocksOk(rules, chain, after)
  {
    hide AnchorsTrue, CheckWindow, Honest, CheckedState, ResultOf, MarksOk, WrittenAll, WorldOk, OneRowPerKey,
        HoldsBlocks, BlocksOk, Valid, UpToDate, CurrentBelow, CheckedFrom;
    var c := CheckedState(chain, runtime, p.server, cfg, p.before);
    var r := ResultOf(chain, runtime, rules, cfg, p);
    CheckedMarks(chain, runtime, rules, cfg, p, blocks);
    PassShape(chain, runtime, rules, cfg, p, blocks);
    BlocksToCheckpoint(Opened(chain, p.before), chain, blocks, NextBlock(chain, p.before));
    CheckedRows(chain, runtime, rules, cfg, p, blocks);
    var kept := blocks[..c.next - chain.startBlock];
    BlocksCommitted(c.db, chain.chainId, rules, p.world, kept, c.next, r.next, cfg);
    RowsFrame(TablesAfter(c.db, rules, p.world, c.next, r.next, cfg), r.db, chain.chainId, rules,
              Extended(kept, p.world, c.next, r.next));
    ExtendedBlocksOk(chain, rules, p.world, kept, c.next, r.next);
  }

  lemma BlocksToCheckpoint(db: Db, chain: ChainConfig, blocks: seq<IndexedBlock>, next: nat)
    requires MarksOk(db, chain, blocks, next)
    ensures chain.startBlock + |blocks| == next
  {
  }

  lemma CheckedRows(chain: ChainConfig, runtime: RuntimeConfig, rules: Rules, cfg: AssignmentConfig, p: PassRun,
                    blocks: seq<IndexedBlock>)
    requires Valid(p.before) && HoldsBlocks(p.before, chain.chainId, rules, blocks) && BlocksOk(rules, chain, blocks)
    requires var c := CheckedState(chain, runtime, p.server, cfg, p.before);
      && chain.startBlock + |blocks| == NextBlock(chain, p.before)
      && chain.startBlock <= c.next <= chain.startBlock + |blocks|
    ensures var c := CheckedState(chain, runtime, p.server, cfg, p.before);
      var kept := blocks[..c.next - chain.startBlock];
      Valid(c.db) && HoldsBlocks(c.db, chain.chainId, rules, kept) && BlocksOk(rules, chain, kept)
  {
    hide CheckWindow, HoldsBlocks, BlocksOk, RolledBack;
    var ready, next := Opened(chain, p.before), NextBlock(chain, p.before);
    RowsFrame(p.before, ready, chain.chainId, rules, blocks);
    assert blocks[..next - chain.startBlock] == blocks;
    match CheckWindow(chain, runtime, p.server, ready.anchors, next)
    case RollBackTo(b) =>
      if UsesReorgProtection(chain.finality) && p.server.rollbackCommits {
        RollbackCutsRows(ready, chain, rules, blocks, b, cfg);
      }
    case _ =>
  }

  /** Anchors and checkpoints play no part in what is held. */
  lemma RowsFrame(a: Db, b: Db, chainId: nat, rules: Rules, blocks: seq<IndexedBlock>)
    requires SameTables(a, b)
    ensures Valid(a) ==> Valid(b)
    ensures HoldsBlocks(a, chainId, rules, blocks) ==> HoldsBlocks(b, chainId, rules, blocks)
  {
    hide SurvivesIn;
    if HoldsBlocks(a, chainId, rules, blocks) {
      forall r: Row | !r.SignatureRow? && r.chainId == chainId
        ensures Stored(b, r) <==> SurvivesIn(rules, blocks, r)
      {
        assert Stored(b, r) <==> Stored(a, r);
      }
    }
  }

  lemma ExtendedBlocksOk(chain: ChainConfig, rules: Rules, w: World, blocks: seq<IndexedBlock>, from: nat, end: nat)
    requires BlocksOk(rules, chain, blocks) && chain.startBlock + |blocks| == from <= end
    requires WorldOk(rules, chain.chainId, w) && OneRowPerKey(rules, w)
    ensures BlocksOk(rules, chain, Extended(blocks, w, from, end))
  {
    hide OneRowPerKey, EventsOf;
    var all := Extended(blocks, w, from, end);
    ExtendedParts(blocks, w, from, end);
    forall i | 0 <= i < |all|
      ensures BlockOk(rules, chain, all[i], chain.startBlock + i)
    {
      if i < |blocks| {
        assert BlockOk(rules, chain, blocks[i], chain.startBlock + i);
      }
      forall j | 0 <= j < |all[i].later|
        ensures LaterOk(rules, chain, all[i].later[j], chain.startBlock + i)
      {
        assert i < |blocks| && j < |blocks[i].later| ==> LaterOk(rules, chain, blocks[i].later[j],
                                                                 chain.startBlock + i);
      }
    }
  }

  // ---- Runs ----

  /** No anchor and no checkpoint of the chain is stored yet. */
  ghost predicate NeverMarked(db: Db, chain: ChainConfig) {
    && CheckpointKey(chain.chainId, chain.dataset) !in db.checkpoints
    && (forall k :: k in db.anchors ==> !(k.chainId == chain.chainId && k.dataset == chain.dataset))
  }

  /** No row of the chain is stored yet. */
  ghost predicate NeverIndexed(db: Db, chain: ChainConfig) {
    Valid(db) && forall r: Row :: !r.SignatureRow? && r.chainId == chain.chainId ==> !Stored(db, r)
  }

  /** Between passes, others leave this chain's anchors and checkpoint alone. */
  ghost predicate MarksUntouched(before: Db, after: Db, chain: ChainConfig) {
    && (forall k :: k in after.anchors && k.chainId == chain.chainId && k.dataset == chain.dataset ==>
          k in before.anchors && after.anchors[k] == before.anchors[k])
    && (forall k :: k in before.anchors && k.chainId == chain.chainId && k.dataset == chain.dataset ==>
        k in after.anchors)
    && var k := CheckpointKey(chain.chainId, chain.dataset);
       (k in after.checkpoints <==> k in before.checkpoints)
       && (k in after.checkpoints ==> after.checkpoints[k] == before.checkpoints[k])
  }

  /** Between passes, others leave this chain's rows alone. */
  ghost predicate RowsUntouched(before: Db, after: Db, chain: ChainConfig) {
    Valid(after)
    && forall r: Row :: !r.SignatureRow? && r.chainId == chain.chainId ==> (Stored(after, r) <==> Stored(before, r))
  }

  /** The i-th pass starts where the one before ended, as far as this chain's anchors and checkpoint go, and its
      server is truthful about its world. */
  ghost predicate HonestPass(chain: ChainConfig, runtime: RuntimeConfig, rules: Rules, cfg: AssignmentConfig,
                             run: seq<PassRun>, i: nat)
    requires i < |run|
  {
    && (if i == 0 then NeverMarked(run[0].before, chain)
        else MarksUntouched(ResultOf(chain, runtime, rules, cfg, run[i - 1]).db, run[i].before, chain))
    && Honest(run[i].server, rules, run[i].world) && AnchorsTrue(chain, rules, run[i].world)
  }

  ghost predicate HonestRun(chain: ChainConfig, runtime: RuntimeConfig, rules: Rules, cfg: AssignmentConfig,
                            run: seq<PassRun>) {
    forall i :: 0 <= i < |run| ==> HonestPass(chain, runtime, rules, cfg, run, i)
  }

  /** The i-th pass starts where the one before ended, as far as this chain's rows go. In its world, events carry
      their chain and height and equal keys mean equal rows; nothing is asked across worlds. */
  ghost predicate GoodPass(chain: ChainConfig, runtime: RuntimeConfig, rules: Rules, cfg: AssignmentConfig,
                           run: seq<PassRun>, i: nat)
    requires i < |run|
  {
    && (if i == 0 then NeverIndexed(run[0].before, chain)
        else RowsUntouched(ResultOf(chain, runtime, rules, cfg, run[i - 1]).db, run[i].before, chain))
    && WorldOk(rules, chain.chainId, run[i].world) && OneRowPerKey(rules, run[i].world)
  }

  ghost predicate GoodRun(chain: ChainConfig, runtime: RuntimeConfig, rules: Rules, cfg: AssignmentConfig,
                          run: seq<PassRun>) {
    && HonestRun(chain, runtime, rules, cfg, run)
    && forall i :: 0 <= i < |run| ==> GoodPass(chain, runtime, rules, cfg, run, i)
  }

  /** What is indexed after the run. */
  ghost function BlocksOf(chain: ChainConfig, runtime: RuntimeConfig, rules: Rules, cfg: AssignmentConfig,
                          run: seq<PassRun>)
    : seq<IndexedBlock>
  {
    if run == [] then []
    else
      var n := |run| - 1;
      BlocksAfter(chain, runtime, rules, cfg, BlocksOf(chain, runtime, rules, cfg, run[..n]), run[n])
  }

  lemma HonestRunSplit(chain: ChainConfig, runtime: RuntimeConfig, rules: Rules, cfg: AssignmentConfig,
                       run: seq<PassRun>)
    requires run != [] && HonestRun(chain, runtime, rules, cfg, run)
    ensures HonestRun(chain, runtime, rules, cfg, run[..|run| - 1])
        && HonestPass(chain, runtime, rules, cfg, run, |run| - 1)
  {
    hide ResultOf, NeverMarked, MarksUntouched, Honest;
    var n := |run| - 1;
    forall i | 0 <= i < n
      ensures HonestPass(chain, runtime, rules, cfg, run[..n], i)
    {
      assert HonestPass(chain, runtime, rules, cfg, run, i);
    }
  }

  lemma GoodRunSplit(chain: ChainConfig, runtime: RuntimeConfig, rules: Rules, cfg: AssignmentConfig, run: seq<PassRun>)
    requires run != [] && GoodRun(chain, runtime, rules, cfg, run)
    ensures GoodRun(chain, runtime, rules, cfg, run[..|run| - 1])
        && GoodPass(chain, runtime, rules, cfg, run, |run| - 1)
  {
    hide ResultOf, NeverIndexed, RowsUntouched, WorldOk, OneRowPerKey, HonestRun;
    var n := |run| - 1;
    HonestRunSplit(chain, runtime, rules, cfg, run);
    forall i | 0 <= i < n
      ensures GoodPass(chain, runtime, rules, cfg, run[..n], i)
    {
      assert GoodPass(chain, runtime, rules, cfg, run, i);
    }
  }

  lemma NeverMarkedIsEmpty(db: Db, chain: ChainConfig)
    requires NeverMarked(db, chain)
    ensures MarksOk(Opened(chain, db), chain, [], NextBlock(chain, db))
  {
  }

  lemma MarksFrame(before: Db, after: Db, chain: ChainConfig, blocks: seq<IndexedBlock>, next: nat)
    requires MarksOk(before, chain, blocks, next) && MarksUntouched(before, after, chain)
    ensures MarksOk(Opened(chain, after), chain, blocks, NextBlock(chain, after)) && NextBlock(chain, after) == next
  {
    assert Opened(chain, after) == after;
  }

  /** What the last pass of a run starts with. */
  lemma {:induction false} LastPassStart(chain: ChainConfig, runtime: RuntimeConfig, rules: Rules,
                                         cfg: AssignmentConfig, run: seq<PassRun>)
    requires run != [] && HonestRun(chain, runtime, rules, cfg, run)
    ensures var n := |run| - 1;
      && Honest(run[n].server, rules, run[n].world) && AnchorsTrue(chain, rules, run[n].world)
      && MarksOk(Opened(chain, run[n].before), chain, BlocksOf(chain, runtime, rules, cfg, run[..n]),
                 NextBlock(chain, run[n].before))
    decreases |run|, 0
  {
    hide ResultOf, Honest, MarksOk, BlocksAfter, HonestRun;
    var n := |run| - 1;
    HonestRunSplit(chain, runtime, rules, cfg, run);
    if n == 0 {
      NeverMarkedIsEmpty(run[0].before, chain);
    } else {
      assert run[..n][n - 1] == run[n - 1];
      RunMarks(chain, runtime, rules, cfg, run[..n]);
      var r := ResultOf(chain, runtime, rules, cfg, run[n - 1]);
      MarksFrame(r.db, run[n].before, chain, BlocksOf(chain, runtime, rules, cfg, run[..n]), r.next);
    }
  }

  /** In every run the checkpoint stands after what is indexed, and every anchor is one of its blocks. Nothing is
      asked of rows or keys. */
  lemma {:induction false} RunMarks(chain: ChainConfig, runtime: RuntimeConfig, rules: Rules, cfg: AssignmentConfig,
                                    run: seq<PassRun>)
    requires run != [] && HonestRun(chain, runtime, rules, cfg, run)
    ensures var r := ResultOf(chain, runtime, rules, cfg, run[|run| - 1]);
      MarksOk(r.db, chain, BlocksOf(chain, runtime, rules, cfg, run), r.next)
    decreases |run|, 1
  {
    hide ResultOf, Honest, MarksOk, HonestRun, BlocksAfter, SameTables, TablesAfter;
    var n := |run| - 1;
    LastPassStart(chain, runtime, rules, cfg, run);
    PassShape(chain, runtime, rules, cfg, run[n], BlocksOf(chain, runtime, rules, cfg, run[..n]));
  }

  /** In every run the rows of the chain are exactly those that no block committed later has overwritten, whether or not
      that block has been rolled back since. */
  lemma {:induction false} RunRows(chain: ChainConfig, runtime: RuntimeConfig, rules: Rules, cfg: AssignmentConfig,
                                   run: seq<PassRun>)
    requires run != [] && GoodRun(chain, runtime, rules, cfg, run)
    ensures var db := ResultOf(chain, runtime, rules, cfg, run[|run| - 1]).db;
      var blocks := BlocksOf(chain, runtime, rules, cfg, run);
      Valid(db) && HoldsBlocks(db, chain.chainId, rules, blocks) && BlocksOk(rules, chain, blocks)
    decreases |run|
  {
    hide ResultOf, Honest, MarksOk, HonestRun, GoodRun, BlocksAfter, HoldsBlocks, BlocksOk, WorldOk, OneRowPerKey,
        Valid;
    var n := |run| - 1;
    var blocks := BlocksOf(chain, runtime, rules, cfg, run[..n]);
    GoodRunSplit(chain, runtime, rules, cfg, run);
    GoodRunIsHonest(chain, runtime, rules, cfg, run);
    LastPassStart(chain, runtime, rules, cfg, run);
    if n == 0 {
      NothingHeld(run[0].before, chain, rules);
    } else {
      assert run[..n][n - 1] == run[n - 1];
      RunRows(chain, runtime, rules, cfg, run[..n]);
      UntouchedRows(ResultOf(chain, runtime, rules, cfg, run[n - 1]).db, run[n].before, chain, rules, blocks);
    }
    PassKeepsRows(chain, runtime, rules, cfg, run[n], blocks);
  }

  lemma GoodRunIsHonest(chain: ChainConfig, runtime: RuntimeConfig, rules: Rules, cfg: AssignmentConfig,
                        run: seq<PassRun>)
    requires GoodRun(chain, runtime, rules, cfg, run)
    ensures HonestRun(chain, runtime, rules, cfg, run)
  {
  }

  lemma NothingHeld(db: Db, chain: ChainConfig, rules: Rules)
    requires NeverIndexed(db, chain)
    ensures Valid(db) && HoldsBlocks(db, chain.chainId, rules, []) && BlocksOk(rules, chain, [])
  {
  }

  lemma UntouchedRows(before: Db, after: Db, chain: ChainConfig, rules: Rules, blocks: seq<IndexedBlock>)
    requires HoldsBlocks(before, chain.chainId, rules, blocks) && RowsUntouched(before, after, chain)
    ensures Valid(after) && HoldsBlocks(after, chain.chainId, rules, blocks)
  {
    hide SurvivesIn;
  }

  // ---- When nothing is lost ----

  ghost predicate NoSharedKey(rules: Rules, hash: string, other: string) {
    forall d, e :: d in EventsOf(rules, hash) && e in EventsOf(rules, other) ==> DifferentKeys(d, e)
  }

  predicate DifferentKeys(d: Event, e: Event) {
    !RowOf(d).SignatureRow? ==> KeyOfRow(RowOf(d)) != KeyOfRow(RowOf(e))
  }

  /** No block committed after an indexed one, and rolled back or not, shares a primary key with it. */
  ghost predicate NothingLost(rules: Rules, blocks: seq<IndexedBlock>) {
    forall i, j :: 0 <= i < |blocks| && 0 <= j < |blocks[i].later| ==>
      NoSharedKey(rules, blocks[i].hash, LaterHash(blocks[i].later[j]))
  }

  /** The stored rows are those of all indexed blocks if and only if nothing is lost. */
  lemma ExactIffNothingLost(db: Db, chain: ChainConfig, rules: Rules, blocks: seq<IndexedBlock>)
    requires HoldsBlocks(db, chain.chainId, rules, blocks) && BlocksOk(rules, chain, blocks)
    ensures HoldsExactly(db, chain.chainId, EventsIn(rules, Hashes(blocks))) <==> NothingLost(rules, blocks)
  {
    hide Stored, Survives, BlockOk, NoSharedKey;
    forall r: Row | !r.SignatureRow? && r.chainId == chain.chainId
      ensures r in RowsOf(EventsIn(rules, Hashes(blocks))) <==> InSomeBlock(rules, blocks, r)
    {
      RowsOfBlocks(rules, blocks, r);
    }
    if NothingLost(rules, blocks) {
      forall r: Row | !r.SignatureRow? && r.chainId == chain.chainId
        ensures SurvivesIn(rules, blocks, r) <==> InSomeBlock(rules, blocks, r)
      {
        AllSurvive(rules, blocks, r);
      }
    }
    if HoldsExactly(db, chain.chainId, EventsIn(rules, Hashes(blocks))) {
      forall i, j | 0 <= i < |blocks| && 0 <= j < |blocks[i].later|
        ensures NoSharedKey(rules, blocks[i].hash, LaterHash(blocks[i].later[j]))
      {
        ExactMeansNoSharedKey(db, chain, rules, blocks, i, j);
      }
    }
  }

  ghost predicate InSomeBlock(rules: Rules, blocks: seq<IndexedBlock>, r: Row) {
    exists i :: 0 <= i < |blocks| && r in RowsOf(EventsOf(rules, blocks[i].hash))
  }

  lemma RowsOfBlocks(rules: Rules, blocks: seq<IndexedBlock>, r: Row)
    ensures r in RowsOf(EventsIn(rules, Hashes(blocks))) <==> InSomeBlock(rules, blocks, r)
  {
    hide RowOf;
    var events := EventsIn(rules, Hashes(blocks));
    EventsInMember(rules, Hashes(blocks));
    if r in RowsOf(events) {
      var j :| 0 <= j < |events| && RowsOf(events)[j] == r;
      assert events[j] in events;
      var i :| 0 <= i < |blocks| && events[j] in EventsOf(rules, Hashes(blocks)[i]);
      RowOfMember(EventsOf(rules, blocks[i].hash), events[j]);
    }
    if InSomeBlock(rules, blocks, r) {
      var i :| 0 <= i < |blocks| && r in RowsOf(EventsOf(rules, blocks[i].hash));
      var inner := EventsOf(rules, Hashes(blocks)[i]);
      var j :| 0 <= j < |inner| && RowsOf(inner)[j] == r;
      assert inner[j] in inner;
      RowOfMember(events, inner[j]);
    }
  }

  lemma RowOfMember(events: seq<Event>, e: Event)
    requires e in events
    ensures RowOf(e) in RowsOf(events)
  {
    hide RowOf;
    var j :| 0 <= j < |events| && events[j] == e;
    assert RowsOf(events)[j] == RowOf(e);
  }

  lemma AllSurvive(rules: Rules, blocks: seq<IndexedBlock>, r: Row)
    requires NothingLost(rules, blocks) && !r.SignatureRow?
    ensures SurvivesIn(rules, blocks, r) <==> InSomeBlock(rules, blocks, r)
  {
    hide EventsOf;
    forall i | 0 <= i < |blocks| && r in RowsOf(EventsOf(rules, blocks[i].hash))
      ensures Survives(rules, blocks[i], r)
    {
      forall j | 0 <= j < |blocks[i].later|
        ensures !KeyIn(EventsOf(rules, LaterHash(blocks[i].later[j])), KeyOfRow(r))
      {
        NotCarried(rules, blocks[i].hash, LaterHash(blocks[i].later[j]), r);
      }
    }
  }

  lemma NotCarried(rules: Rules, hash: string, other: string, r: Row)
    requires NoSharedKey(rules, hash, other) && !r.SignatureRow? && r in RowsOf(EventsOf(rules, hash))
    ensures !KeyIn(EventsOf(rules, other), KeyOfRow(r))
  {
    hide RowOf, EventsOf;
    var events := EventsOf(rules, hash);
    var j :| 0 <= j < |events| && RowsOf(events)[j] == r;
    assert events[j] in events;
    forall e | e in EventsOf(rules, other)
      ensures KeyOfRow(RowOf(e)) != KeyOfRow(r)
    {
      assert DifferentKeys(events[j], e);
    }
  }

  lemma ExactMeansNoSharedKey(db: Db, chain: ChainConfig, rules: Rules, blocks: seq<IndexedBlock>, i: nat, j: nat)
    requires HoldsBlocks(db, chain.chainId, rules, blocks) && BlocksOk(rules, chain, blocks)
    requires HoldsExactly(db, chain.chainId, EventsIn(rules, Hashes(blocks)))
    requires i < |blocks| && j < |blocks[i].later|
    ensures NoSharedKey(rules, blocks[i].hash, LaterHash(blocks[i].later[j]))
  {
    hide RowOf, EventsOf, Stored, EventsIn, BlockOk;
    forall d, e | d in EventsOf(rules, blocks[i].hash) && e in EventsOf(rules, LaterHash(blocks[i].later[j]))
      ensures DifferentKeys(d, e)
    {
      if !RowOf(d).SignatureRow? {
        var r := RowOf(d);
        RowOfMember(EventsOf(rules, blocks[i].hash), d);
        assert BlockOk(rules, chain, blocks[i], chain.startBlock + i);
        RowHeight(chain, rules, blocks[i], chain.startBlock + i, r);
        RowsOfBlocks(rules, blocks, r);
        var k :| 0 <= k < |blocks| && Survives(rules, blocks[k], r);
        assert BlockOk(rules, chain, blocks[k], chain.startBlock + k);
        RowHeight(chain, rules, blocks[k], chain.startBlock + k, r);
        assert !KeyIn(EventsOf(rules, LaterHash(blocks[i].later[j])), KeyOfRow(r));
      }
    }
  }

  /** Every block committed after an indexed one came from a world in which that one is current: no height went away and
      returned. */
  ghost predicate NoReturn(blocks: seq<IndexedBlock>, start: nat) {
    forall i, j :: 0 <= i < |blocks| && 0 <= j < |blocks[i].later| ==>
        CurrentIn(blocks[i], blocks[i].later[j], start + i)
  }

  predicate CurrentIn(b: IndexedBlock, l: LaterBlock, n: nat) {
    l.world(n) == b.hash
  }

  /** Then nothing is lost, since within one world equal keys mean equal rows. */
  lemma NoReturnLosesNothing(chain: ChainConfig, rules: Rules, blocks: seq<IndexedBlock>)
    requires BlocksOk(rules, chain, blocks) && NoReturn(blocks, chain.startBlock)
    ensures NothingLost(rules, blocks)
  {
    hide EventsOf, RowOf;
    forall i, j | 0 <= i < |blocks| && 0 <= j < |blocks[i].later|
      ensures NoSharedKey(rules, blocks[i].hash, LaterHash(blocks[i].later[j]))
    {
      var b, l, n := blocks[i], blocks[i].later[j], chain.startBlock + i;
      assert BlockOk(rules, chain, b, n) && LaterOk(rules, chain, l, n) && CurrentIn(b, l, n);
      SameWorldNoSharedKey(chain, rules, l.world, n, l.number);
    }
  }

  /** Two blocks of one world share no key. */
  lemma SameWorldNoSharedKey(chain: ChainConfig, rules: Rules, w: World, m: nat, n: nat)
    requires WorldOk(rules, chain.chainId, w) && OneRowPerKey(rules, w) && m != n
    ensures NoSharedKey(rules, w(m), w(n))
  {
    hide EventsOf, RowOf;
    forall d, e | d in EventsOf(rules, w(m)) && e in EventsOf(rules, w(n))
      ensures DifferentKeys(d, e)
    {
      assert AgreeOnKey(d, e);
      RowSource(d);
      RowSource(e);
    }
  }

  // ---- Whole runs ----

  /** After every pass whose window check completed, in any run with any reorgs between passes, rollbacks, short
      serves and failures: what is indexed is the current chain if and only if every indexed block below the window
      of that check is current; and then the rows of the chain are exactly those decoded from the current blocks of
      `[startBlock, next)` (signature rows aside) if and only if no block committed after one of them, and rolled
      back since or not, shares a primary key with it. */
  lemma WholeRunExactIff(chain: ChainConfig, runtime: RuntimeConfig, rules: Rules, cfg: AssignmentConfig,
                         run: seq<PassRun>)
    requires run != [] && GoodRun(chain, runtime, rules, cfg, run)
    ensures var n := |run| - 1;
      var p, before, blocks := run[n], BlocksOf(chain, runtime, rules, cfg, run[..n]),
          BlocksOf(chain, runtime, rules, cfg, run);
      var r := ResultOf(chain, runtime, rules, cfg, p);
      r.verified ==>
        && chain.startBlock <= r.next && MarksOk(r.db, chain, blocks, r.next)
        && (UpToDate(blocks, chain.startBlock, p.world)
            <==> CurrentBelow(before, chain.startBlock, p.world,
                              CheckedFrom(chain, runtime, p.server, NextBlock(chain, p.before))))
        && (UpToDate(blocks, chain.startBlock, p.world) ==>
              (HoldsExactly(r.db, chain.chainId, EventsIn(rules, HashesBetween(p.world, chain.startBlock, r.next)))
               <==> NothingLost(rules, blocks)))
  {
    hide ResultOf, GoodRun, HonestRun, BlocksAfter, HoldsBlocks, BlocksOk, Honest, HoldsExactly, NothingLost,
        CurrentBelow, CheckedFrom, EventsIn, Valid;
    var n := |run| - 1;
    var p, before, blocks := run[n], BlocksOf(chain, runtime, rules, cfg, run[..n]),
        BlocksOf(chain, runtime, rules, cfg, run);
    var r := ResultOf(chain, runtime, rules, cfg, p);
    GoodRunIsHonest(chain, runtime, rules, cfg, run);
    LastPassStart(chain, runtime, rules, cfg, run);
    RunMarks(chain, runtime, rules, cfg, run);
    RunRows(chain, runtime, rules, cfg, run);
    if r.verified {
      PassUpToDateIff(chain, runtime, rules, cfg, p, before);
      ExactIffNothingLost(r.db, chain, rules, blocks);
      if UpToDate(blocks, chain.startBlock, p.world) {
        assert Hashes(blocks) == HashesBetween(p.world, chain.startBlock, r.next);
      }
    }
  }

  /** In particular, if no height has gone away and returned, the rows are exact wherever the chain is current below
      the window of the last check. */
  lemma WholeRunSafety(chain: ChainConfig, runtime: RuntimeConfig, rules: Rules, cfg: AssignmentConfig,
                       run: seq<PassRun>)
    requires run != [] && GoodRun(chain, runtime, rules, cfg, run)
    requires NoReturn(BlocksOf(chain, runtime, rules, cfg, run), chain.startBlock)
    requires CheckedPass(chain, runtime, rules, cfg, run, |run| - 1)
    ensures var p := run[|run| - 1];
      var r := ResultOf(chain, runtime, rules, cfg, p);
      && chain.startBlock <= r.next
      && MarksOk(r.db, chain, BlocksOf(chain, runtime, rules, cfg, run), r.next)
      && UpToDate(BlocksOf(chain, runtime, rules, cfg, run), chain.startBlock, p.world)
      && HoldsExactly(r.db, chain.chainId, EventsIn(rules, HashesBetween(p.world, chain.startBlock, r.next)))
  {
    hide ResultOf, GoodRun, BlocksOf, HoldsBlocks, BlocksOk, HoldsExactly, NothingLost, CurrentBelow, CheckedFrom,
        EventsIn, Valid, MarksOk, NoReturn, UpToDate;
    WholeRunExactIff(chain, runtime, rules, cfg, run);
    RunRows(chain, runtime, rules, cfg, run);
    NoReturnLosesNothing(chain, rules, BlocksOf(chain, runtime, rules, cfg, run));
  }

  /** The check of the i-th pass completed, and what is indexed below its window is current. */
  ghost predicate CheckedPass(chain: ChainConfig, runtime: RuntimeConfig, rules: Rules, cfg: AssignmentConfig,
                              run: seq<PassRun>, i: int)
    requires 0 <= i < |run|
  {
    && ResultOf(chain, runtime, rules, cfg, run[i]).verified
    && CurrentBelow(BlocksOf(chain, runtime, rules, cfg, run[..i]), chain.startBlock, run[i].world,
                    CheckedFrom(chain, runtime, run[i].server, NextBlock(chain, run[i].before)))
  }

  /** The i-th pass commits no block: it ends at its check, or is served nothing, or fails before its first commit. It
      may roll back. */
  ghost predicate IdlePass(chain: ChainConfig, runtime: RuntimeConfig, rules: Rules, cfg: AssignmentConfig,
                           run: seq<PassRun>, i: int)
    requires 0 <= i < |run|
  {
    ResultOf(chain, runtime, rules, cfg, run[i]).next
    == CheckedState(chain, runtime, run[i].server, cfg, run[i].before).next
  }

  /** Everything indexed before the i-th pass is still current in its world, checked or not. So it is where the world
      stays fixed below the heads that are read, as chains without reorg protection take for granted. */
  ghost predicate SettledPass(chain: ChainConfig, runtime: RuntimeConfig, rules: Rules, cfg: AssignmentConfig,
                              run: seq<PassRun>, i: int)
    requires 0 <= i < |run|
  {
    UpToDate(BlocksOf(chain, runtime, rules, cfg, run[..i]), chain.startBlock, run[i].world)
  }

  /** Every pass that commits a block has been checked, or its world has settled. */
  ghost predicate EveryCommitSafe(chain: ChainConfig, runtime: RuntimeConfig, rules: Rules, cfg: AssignmentConfig,
                                  run: seq<PassRun>) {
    forall i :: 0 <= i < |run| ==> SafePass(chain, runtime, rules, cfg, run, i)
  }

  ghost predicate SafePass(chain: ChainConfig, runtime: RuntimeConfig, rules: Rules, cfg: AssignmentConfig,
                           run: seq<PassRun>, i: int)
    requires 0 <= i < |run|
  {
    || CheckedPass(chain, runtime, rules, cfg, run, i) || IdlePass(chain, runtime, rules, cfg, run, i)
    || SettledPass(chain, runtime, rules, cfg, run, i)
  }

  /** As long as no block is committed behind an incomplete check, no height goes away and returns unnoticed: whatever
      the world does, and whichever requests and transactions fail, the rows are exact after every checked pass. */
  lemma CompleteChecksAreSafe(chain: ChainConfig, runtime: RuntimeConfig, rules: Rules, cfg: AssignmentConfig,
                              run: seq<PassRun>)
    requires run != [] && GoodRun(chain, runtime, rules, cfg, run)
    requires EveryCommitSafe(chain, runtime, rules, cfg, run)
    requires var n := |run| - 1;
      CheckedPass(chain, runtime, rules, cfg, run, n) || SettledPass(chain, runtime, rules, cfg, run, n)
    ensures var p := run[|run| - 1];
      var r := ResultOf(chain, runtime, rules, cfg, p);
      && chain.startBlock <= r.next
      && HoldsExactly(r.db, chain.chainId, EventsIn(rules, HashesBetween(p.world, chain.startBlock, r.next)))
  {
    hide ResultOf, GoodRun, BlocksOf, HonestRun, CheckedPass, SettledPass, MarksOk, UpToDate, HoldsExactly, NoReturn,
        NothingLost, HoldsBlocks, BlocksOk, Valid;
    var p, blocks := run[|run| - 1], BlocksOf(chain, runtime, rules, cfg, run);
    var r := ResultOf(chain, runtime, rules, cfg, p);
    GoodRunIsHonest(chain, runtime, rules, cfg, run);
    CheckedRunDoesNotReturn(chain, runtime, rules, cfg, run);
    RunRows(chain, runtime, rules, cfg, run);
    RunMarks(chain, runtime, rules, cfg, run);
    NoReturnLosesNothing(chain, rules, blocks);
    ExactIffNothingLost(r.db, chain, rules, blocks);
    SafeRunIsCurrent(chain, runtime, rules, cfg, run);
    CurrentHashes(r.db, chain, blocks, r.next, p.world);
  }

  lemma CurrentHashes(db: Db, chain: ChainConfig, blocks: seq<IndexedBlock>, next: nat, w: World)
    requires MarksOk(db, chain, blocks, next) && UpToDate(blocks, chain.startBlock, w)
    ensures chain.startBlock <= next && Hashes(blocks) == HashesBetween(w, chain.startBlock, next)
  {
  }

  /** After a pass that was checked or whose world has settled, everything indexed is current. */
  lemma SafeRunIsCurrent(chain: ChainConfig, runtime: RuntimeConfig, rules: Rules, cfg: AssignmentConfig,
                         run: seq<PassRun>)
    requires run != [] && HonestRun(chain, runtime, rules, cfg, run)
    requires var n := |run| - 1;
      CheckedPass(chain, runtime, rules, cfg, run, n) || SettledPass(chain, runtime, rules, cfg, run, n)
    ensures UpToDate(BlocksOf(chain, runtime, rules, cfg, run), chain.startBlock, run[|run| - 1].world)
  {
    hide ResultOf, HonestRun, Honest, AnchorsTrue, MarksOk, CurrentBelow, CheckedFrom, UpToDate, BlocksAfter;
    var n := |run| - 1;
    var blocks := BlocksOf(chain, runtime, rules, cfg, run[..n]);
    LastPassStart(chain, runtime, rules, cfg, run);
    if CheckedPass(chain, runtime, rules, cfg, run, n) {
      PassUpToDateIff(chain, runtime, rules, cfg, run[n], blocks);
    } else {
      SettledPassIsCurrent(chain, runtime, rules, cfg, run[n], blocks);
    }
  }

  lemma SettledPassIsCurrent(chain: ChainConfig, runtime: RuntimeConfig, rules: Rules, cfg: AssignmentConfig,
                             p: PassRun, blocks: seq<IndexedBlock>)
    requires AnchorsTrue(chain, rules, p.world) && Honest(p.server, rules, p.world)
    requires MarksOk(Opened(chain, p.before), chain, blocks, NextBlock(chain, p.before))
    requires UpToDate(blocks, chain.startBlock, p.world)
    ensures UpToDate(BlocksAfter(chain, runtime, rules, cfg, blocks, p), chain.startBlock, p.world)
    ensures var m := CheckedState(chain, runtime, p.server, cfg, p.before).next - chain.startBlock;
      0 <= m <= |blocks| && UpToDate(blocks[..m], chain.startBlock, p.world)
  {
    hide AnchorsTrue, CheckWindow, Honest, CheckedState, ResultOf, MarksOk, SameTables, TablesAfter, CurrentBelow,
        CheckedFrom;
    var c := CheckedState(chain, runtime, p.server, cfg, p.before);
    CheckedMarks(chain, runtime, rules, cfg, p, blocks);
    PassShape(chain, runtime, rules, cfg, p, blocks);
    BlocksToCheckpoint(Opened(chain, p.before), chain, blocks, NextBlock(chain, p.before));
    var kept := blocks[..c.next - chain.startBlock];
    assert forall i :: 0 <= i < |kept| ==> kept[i] == blocks[i];
    ExtendedUpToDate(kept, chain.startBlock, p.world, c.next, ResultOf(chain, runtime, rules, cfg, p).next);
  }

  lemma SettledPassDoesNotReturn(chain: ChainConfig, runtime: RuntimeConfig, rules: Rules, cfg: AssignmentConfig,
                                 p: PassRun, blocks: seq<IndexedBlock>)
    requires AnchorsTrue(chain, rules, p.world) && Honest(p.server, rules, p.world)
    requires MarksOk(Opened(chain, p.before), chain, blocks, NextBlock(chain, p.before))
    requires UpToDate(blocks, chain.startBlock, p.world) && NoReturn(blocks, chain.startBlock)
    ensures NoReturn(BlocksAfter(chain, runtime, rules, cfg, blocks, p), chain.startBlock)
  {
    hide AnchorsTrue, CheckWindow, Honest, CheckedState, ResultOf, MarksOk, SameTables, TablesAfter, CurrentBelow,
        CheckedFrom, NoReturn, UpToDate;
    var c := CheckedState(chain, runtime, p.server, cfg, p.before);
    CheckedMarks(chain, runtime, rules, cfg, p, blocks);
    PassShape(chain, runtime, rules, cfg, p, blocks);
    SettledPassIsCurrent(chain, runtime, rules, cfg, p, blocks);
    ExtendedDoesNotReturn(chain, blocks, c.next - chain.startBlock, p.world, c.next,
                          ResultOf(chain, runtime, rules, cfg, p).next);
  }

  lemma {:induction false} CheckedRunDoesNotReturn(chain: ChainConfig, runtime: RuntimeConfig, rules: Rules,
                                                   cfg: AssignmentConfig, run: seq<PassRun>)
    requires HonestRun(chain, runtime, rules, cfg, run)
    requires EveryCommitSafe(chain, runtime, rules, cfg, run)
    ensures NoReturn(BlocksOf(chain, runtime, rules, cfg, run), chain.startBlock)
  {
    hide ResultOf, HonestRun, BlocksAfter, Honest, CurrentBelow, CheckedFrom, NoReturn;
    if run == [] {
      NothingReturns(chain.startBlock);
    } else {
      var n := |run| - 1;
      HonestRunSplit(chain, runtime, rules, cfg, run);
      CheckedPrefix(chain, runtime, rules, cfg, run);
      CheckedRunDoesNotReturn(chain, runtime, rules, cfg, run[..n]);
      LastPassStart(chain, runtime, rules, cfg, run);
      var blocks := BlocksOf(chain, runtime, rules, cfg, run[..n]);
      assert SafePass(chain, runtime, rules, cfg, run, n);
      if CheckedPass(chain, runtime, rules, cfg, run, n) {
        CheckedPassDoesNotReturn(chain, runtime, rules, cfg, run[n], blocks);
      } else if IdlePass(chain, runtime, rules, cfg, run, n) {
        IdlePassDoesNotReturn(chain, runtime, rules, cfg, run[n], blocks);
      } else {
        SettledPassDoesNotReturn(chain, runtime, rules, cfg, run[n], blocks);
      }
    }
  }

  lemma NothingReturns(start: nat)
    ensures NoReturn([], start)
  {
  }

  lemma CheckedPrefix(chain: ChainConfig, runtime: RuntimeConfig, rules: Rules, cfg: AssignmentConfig,
                      run: seq<PassRun>)
    requires run != [] && EveryCommitSafe(chain, runtime, rules, cfg, run)
    ensures EveryCommitSafe(chain, runtime, rules, cfg, run[..|run| - 1])
  {
    hide ResultOf, BlocksOf, CurrentBelow, CheckedFrom, CheckedState;
    var n := |run| - 1;
    forall i | 0 <= i < n
      ensures SafePass(chain, runtime, rules, cfg, run[..n], i)
    {
      assert SafePass(chain, runtime, rules, cfg, run, i);
      assert run[..n][..i] == run[..i];
    }
  }

  lemma IdlePassDoesNotReturn(chain: ChainConfig, runtime: RuntimeConfig, rules: Rules, cfg: AssignmentConfig,
                              p: PassRun, blocks: seq<IndexedBlock>)
    requires MarksOk(Opened(chain, p.before), chain, blocks, NextBlock(chain, p.before))
    requires Honest(p.server, rules, p.world) && NoReturn(blocks, chain.startBlock)
    requires ResultOf(chain, runtime, rules, cfg, p).next == CheckedState(chain, runtime, p.server, cfg, p.before).next
    ensures NoReturn(BlocksAfter(chain, runtime, rules, cfg, blocks, p), chain.startBlock)
  {
    hide CheckWindow, Honest, CheckedState, ResultOf, MarksOk, UpToDate, CurrentBelow, CheckedFrom, CurrentIn;
    CheckedMarks(chain, runtime, rules, cfg, p, blocks);
    var m := CheckedState(chain, runtime, p.server, cfg, p.before).next - chain.startBlock;
    forall i, j | 0 <= i < m && 0 <= j < |blocks[..m][i].later|
      ensures CurrentIn(blocks[..m][i], blocks[..m][i].later[j], chain.startBlock + i)
    {
      assert CurrentIn(blocks[i], blocks[i].later[j], chain.startBlock + i);
    }
  }

  lemma CheckedPassDoesNotReturn(chain: ChainConfig, runtime: RuntimeConfig, rules: Rules, cfg: AssignmentConfig,
                                 p: PassRun, blocks: seq<IndexedBlock>)
    requires AnchorsTrue(chain, rules, p.world)
    requires MarksOk(Opened(chain, p.before), chain, blocks, NextBlock(chain, p.before))
        && Honest(p.server, rules, p.world)
    requires NoReturn(blocks, chain.startBlock) && ResultOf(chain, runtime, rules, cfg, p).verified
    requires CurrentBelow(blocks, chain.startBlock, p.world, CheckedFrom(chain, runtime, p.server,
                                                                         NextBlock(chain, p.before)))
    ensures NoReturn(BlocksAfter(chain, runtime, rules, cfg, blocks, p), chain.startBlock)
  {
    hide AnchorsTrue, CheckWindow, Honest, CheckedState, Pass, MarksOk, SameTables, TablesAfter, CurrentBelow,
        CheckedFrom, NoReturn, Poll, UpToDate;
    var c := CheckedState(chain, runtime, p.server, cfg, p.before);
    CheckedMarks(chain, runtime, rules, cfg, p, blocks);
    PassIsCheckThenPoll(chain, runtime, rules, cfg, p);
    PassShape(chain, runtime, rules, cfg, p, blocks);
    ExtendedDoesNotReturn(chain, blocks, c.next - chain.startBlock, p.world, c.next,
                          ResultOf(chain, runtime, rules, cfg, p).next);
  }

  lemma ExtendedDoesNotReturn(chain: ChainConfig, blocks: seq<IndexedBlock>, m: nat, w: World, from: nat, end: nat)
    requires m <= |blocks| && chain.startBlock + m == from <= end
    requires NoReturn(blocks, chain.startBlock) && UpToDate(blocks[..m], chain.startBlock, w)
    ensures NoReturn(Extended(blocks[..m], w, from, end), chain.startBlock)
  {
    var kept, all := blocks[..m], Extended(blocks[..m], w, from, end);
    ExtendedParts(kept, w, from, end);
    forall i, j | 0 <= i < |all| && 0 <= j < |all[i].later|
      ensures CurrentIn(all[i], all[i].later[j], chain.startBlock + i)
    {
      assert i < m && j < |kept[i].later| ==> CurrentIn(blocks[i], blocks[i].later[j], chain.startBlock + i);
      assert i < m ==> kept[i].hash == w(chain.startBlock + i);
      if !(i < m && j < |kept[i].later| && all[i].later[j] == kept[i].later[j]) {
        assert all[i].later[j].world == w;
      }
    }
  }

  /** Every indexed block came from the world of some pass at its height; so heights on which all these worlds agree
      with the current one are current. */
  lemma {:induction false} BlocksComeFromWorlds(chain: ChainConfig, runtime: RuntimeConfig, rules: Rules,
                                                cfg: AssignmentConfig, run: seq<PassRun>, w: World, end: nat)
    requires HonestRun(chain, runtime, rules, cfg, run)
    requires forall k, n :: 0 <= k < |run| && chain.startBlock <= n < end ==> run[k].world(n) == w(n)
    ensures CurrentBelow(BlocksOf(chain, runtime, rules, cfg, run), chain.startBlock, w, end)
  {
    hide ResultOf, HonestRun, Honest, BlocksAfter, MarksOk;
    if run != [] {
      var n := |run| - 1;
      HonestRunSplit(chain, runtime, rules, cfg, run);
      BlocksComeFromWorlds(chain, runtime, rules, cfg, run[..n], w, end);
      LastPassStart(chain, runtime, rules, cfg, run);
      PassBlocksCurrent(chain, runtime, rules, cfg, run[n], BlocksOf(chain, runtime, rules, cfg, run[..n]), w, end);
    }
  }

  lemma PassBlocksCurrent(chain: ChainConfig, runtime: RuntimeConfig, rules: Rules, cfg: AssignmentConfig, p: PassRun,
                          blocks: seq<IndexedBlock>, w: World, end: nat)
    requires AnchorsTrue(chain, rules, p.world)
    requires MarksOk(Opened(chain, p.before), chain, blocks, NextBlock(chain, p.before))
        && Honest(p.server, rules, p.world)
    requires CurrentBelow(blocks, chain.startBlock, w, end)
    requires forall n :: chain.startBlock <= n < end ==> p.world(n) == w(n)
    ensures CurrentBelow(BlocksAfter(chain, runtime, rules, cfg, blocks, p), chain.startBlock, w, end)
  {
    hide AnchorsTrue, CheckWindow, Honest, CheckedState, ResultOf, MarksOk, SameTables, TablesAfter, UpToDate,
        CheckedFrom, CurrentBelow, Extended;
    var c := CheckedState(chain, runtime, p.server, cfg, p.before);
    CheckedMarks(chain, runtime, rules, cfg, p, blocks);
    PassShape(chain, runtime, rules, cfg, p, blocks);
    BlocksToCheckpoint(c.db, chain, blocks[..c.next - chain.startBlock], c.next);
    ExtendedCurrentBelow(blocks, chain.startBlock, c.next - chain.startBlock, p.world, w,
                         ResultOf(chain, runtime, rules, cfg, p).next, end);
  }

  lemma ExtendedCurrentBelow(blocks: seq<IndexedBlock>, start: nat, m: nat, v: World, w: World, last: nat, end: nat)
    requires m <= |blocks| && start + m <= last && CurrentBelow(blocks, start, w, end)
    requires forall n :: start <= n < end ==> v(n) == w(n)
    ensures CurrentBelow(Extended(blocks[..m], v, start + m, last), start, w, end)
  {
    hide Extended;
    var kept := blocks[..m];
    ExtendedParts(kept, v, start + m, last);
    assert forall i :: 0 <= i < |kept| ==> kept[i] == blocks[i];
  }
}
