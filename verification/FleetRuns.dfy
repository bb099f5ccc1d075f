/** The passes of all chains on shared tables (src/runner.rs): what a pass does is a list of transactions that
    depends on its own chain's anchors and checkpoint only, so each chain acts as if it were alone, whatever the
    others do in between. With the checks made, this gives exact rows and right assignment columns after every
    transaction of every interleaving. */
module FleetRuns {
  import opened Prelude
  import opened Assignments
  import opened DatabaseSpec
  import opened History
  import opened RunnerSpec
  import opened RunnerSafety
  import opened RunnerRuns
  import opened Fleet

  // ---- A pass as a list of transactions ----

  /** The commits of a poll; the tables play no part in them. */
  ghost function ActsOfPoll(chain: ChainConfig, server: Server, rules: Rules, cfg: AssignmentConfig, w: World,
                            next: nat, target: nat): seq<Act>
    decreases if next <= target then target - next + 1 else 0
  {
    if next > target then []
    else match PlanNextRange(next, chain.batchSize)
      case None => []
      case Some(range) =>
        var to := Min(range.to, target);
        match ProcessRange(chain, server, rules.decode, cfg, EMPTY_DB, next, to)
        case RangeDone(_, next1, stop) =>
          var act := Commits(w, next, next1, ServedAnchors(chain, server, next, to, next1));
          [act] + (if stop then [] else ActsOfPoll(chain, server, rules, cfg, w, next1, target))
        case _ => []
  }

  ghost function ActsOfCheck(chain: ChainConfig, runtime: RuntimeConfig, server: Server, db: Db): seq<Act> {
    if !UsesReorgProtection(chain.finality) then []
    else match CheckWindow(chain, runtime, server, Opened(chain, db).anchors, NextBlock(chain, db))
      case RollBackTo(b) => if server.rollbackCommits then [RollsBack(b)] else []
      case _ => []
  }

  /** The transactions of one pass. */
  ghost function ActsOfPass(chain: ChainConfig, runtime: RuntimeConfig, rules: Rules, cfg: AssignmentConfig, p: PassRun)
    : seq<Act>
  {
    var c := CheckedState(chain, runtime, p.server, cfg, p.before);
    [Opens] + ActsOfCheck(chain, runtime, p.server, p.before)
    + (if c.failed || p.server.latest.None? then []
       else ActsOfPoll(chain, p.server, rules, cfg, p.world, c.next,
                       SaturatingSub(p.server.latest.value, runtime.headBufferBlocks)))
  }

  /** The transactions of all passes of a run. */
  ghost function ActsOfRun(chain: ChainConfig, runtime: RuntimeConfig, rules: Rules, cfg: AssignmentConfig,
                           run: seq<PassRun>): seq<Act> {
    if run == [] then []
    else
      var n := |run| - 1;
      ActsOfRun(chain, runtime, rules, cfg, run[..n]) + ActsOfPass(chain, runtime, rules, cfg, run[n])
  }

  function StepsOf(c: nat, acts: seq<Act>): (steps: seq<Step>)
    ensures |steps| == |acts|
    ensures forall i :: 0 <= i < |acts| ==> steps[i] == Step(c, acts[i])
  {
    seq(|acts|, i requires 0 <= i < |acts| => Step(c, acts[i]))
  }

  /** The acts of one chain applied to these tables. */
  ghost function Applied(chain: ChainConfig, rules: Rules, cfg: AssignmentConfig, db: Db, acts: seq<Act>): Db {
    if acts == [] then db
    else
      var n := |acts| - 1;
      ApplyOp(Applied(chain, rules, cfg, db, acts[..n]), ActOp(chain, rules, acts[n]), cfg)
  }

  function ActOp(chain: ChainConfig, rules: Rules, act: Act): Op {
    match act
    case Opens => Open(chain.chainId, chain.dataset, chain.startBlock)
    case Commits(w, from, end, anchors) =>
      Commit(EventsIn(rules, HashesOf(w, from, end)), anchors, chain.chainId, chain.dataset, end)
    case RollsBack(block) => Rollback(chain.chainId, chain.dataset, block)
  }

  lemma {:induction false} AppliedAppend(chain: ChainConfig, rules: Rules, cfg: AssignmentConfig, db: Db, a: seq<Act>,
                                         b: seq<Act>)
    ensures Applied(chain, rules, cfg, db, a + b) == Applied(chain, rules, cfg, Applied(chain, rules, cfg, db, a), b)
  {
    hide ApplyOp, ActOp;
    if b == [] {
      assert a + b == a;
    } else {
      assert (a + b)[..|a + b| - 1] == a + b[..|b| - 1];
      AppliedAppend(chain, rules, cfg, db, a, b[..|b| - 1]);
    }
  }

  /** Whether a range is committed, and up to where, does not depend on the tables. */
  lemma RangeIgnoresTables(chain: ChainConfig, server: Server, rules: Rules, cfg: AssignmentConfig, db: Db, next: nat,
                           to: nat)
    ensures var alone := ProcessRange(chain, server, rules.decode, cfg, EMPTY_DB, next, to);
      var done := ProcessRange(chain, server, rules.decode, cfg, db, next, to);
      && (done.RangeDone? <==> alone.RangeDone?)
      && (done.RangeDone? ==> done.next == alone.next && done.stop == alone.stop)
      && (done.RangeFailed? <==> alone.RangeFailed?)
  {
    hide Committed, AnchorsForRange, DecodeAll;
  }

  lemma {:induction false} PollIsActs(chain: ChainConfig, server: Server, rules: Rules, cfg: AssignmentConfig, db: Db,
                                      w: World, next: nat, target: nat)
    requires AnchorsTrue(chain, rules, w) && Honest(server, rules, w)
    ensures Poll(chain, server, rules.decode, cfg, db, next, target).db
         == Applied(chain, rules, cfg, db, ActsOfPoll(chain, server, rules, cfg, w, next, target))
    decreases if next <= target then target - next + 1 else 0
  {
    hide AnchorsTrue, ProcessRange, Honest, ApplyOp, Applied, ServedAnchors;
    NothingApplied(chain, rules, cfg, db);
    if next <= target {
      match PlanNextRange(next, chain.batchSize)
      case None =>
      case Some(range) =>
        var to := Min(range.to, target);
        RangeIgnoresTables(chain, server, rules, cfg, db, next, to);
        match ProcessRange(chain, server, rules.decode, cfg, db, next, to)
        case RangeDone(db1, next1, stop) =>
          var act := Commits(w, next, next1, ServedAnchors(chain, server, next, to, next1));
          RangeIsAct(chain, server, rules, cfg, db, w, next, to);
          if !stop {
            PollIsActs(chain, server, rules, cfg, db1, w, next1, target);
            AppliedAppend(chain, rules, cfg, db, [act], ActsOfPoll(chain, server, rules, cfg, w, next1, target));
          } else {
            assert [act] + [] == [act];
          }
        case _ =>
    }
  }

  lemma NothingApplied(chain: ChainConfig, rules: Rules, cfg: AssignmentConfig, db: Db)
    ensures Applied(chain, rules, cfg, db, []) == db
  {
  }

  lemma RangeIsAct(chain: ChainConfig, server: Server, rules: Rules, cfg: AssignmentConfig, db: Db, w: World, next: nat,
                   to: nat)
    requires AnchorsTrue(chain, rules, w) && next <= to && Honest(server, rules, w)
    requires ProcessRange(chain, server, rules.decode, cfg, db, next, to).RangeDone?
    ensures var done := ProcessRange(chain, server, rules.decode, cfg, db, next, to);
      Applied(chain, rules, cfg, db, [Commits(w, next, done.next, ServedAnchors(chain, server, next, to, done.next))])
      == done.db
  {
    hide AnchorsTrue, ProcessRange, Honest, Committed, ServedAnchors, RangeAnchors;
    RangeShape(chain, server, rules, cfg, db, w, next, to);
    var done := ProcessRange(chain, server, rules.decode, cfg, db, next, to);
    OneApplied(chain, rules, cfg, db, Commits(w, next, done.next, ServedAnchors(chain, server, next, to, done.next)));
  }

  /** A pass leaves what its transactions leave. */
  lemma PassIsActs(chain: ChainConfig, runtime: RuntimeConfig, rules: Rules, cfg: AssignmentConfig, p: PassRun)
    requires AnchorsTrue(chain, rules, p.world) && Honest(p.server, rules, p.world)
    ensures ResultOf(chain, runtime, rules, cfg, p).db
         == Applied(chain, rules, cfg, p.before, ActsOfPass(chain, runtime, rules, cfg, p))
  {
    hide AnchorsTrue, Poll, CheckWindow, Honest, Pass, RolledBack, ActsOfPoll, Committed, ApplyOp, Applied;
    var c := CheckedState(chain, runtime, p.server, cfg, p.before);
    var checkActs := ActsOfCheck(chain, runtime, p.server, p.before);
    PassIsCheckThenPoll(chain, runtime, rules, cfg, p);
    CheckIsActs(chain, runtime, rules, cfg, p);
    if !c.failed && p.server.latest.Some? {
      var target := SaturatingSub(p.server.latest.value, runtime.headBufferBlocks);
      PollIsActs(chain, p.server, rules, cfg, c.db, p.world, c.next, target);
      AppliedAppend(chain, rules, cfg, p.before, [Opens] + checkActs,
                    ActsOfPoll(chain, p.server, rules, cfg, p.world, c.next, target));
    } else {
      assert [Opens] + checkActs + [] == [Opens] + checkActs;
    }
  }

  lemma OneApplied(chain: ChainConfig, rules: Rules, cfg: AssignmentConfig, db: Db, act: Act)
    ensures Applied(chain, rules, cfg, db, [act]) == ApplyOp(db, ActOp(chain, rules, act), cfg)
  {
    hide ApplyOp, ActOp;
    assert [act][..0] == [];
  }

  lemma CheckIsActs(chain: ChainConfig, runtime: RuntimeConfig, rules: Rules, cfg: AssignmentConfig, p: PassRun)
    ensures CheckedState(chain, runtime, p.server, cfg, p.before).db
         == Applied(chain, rules, cfg, p.before, [Opens] + ActsOfCheck(chain, runtime, p.server, p.before))
  {
    hide CheckWindow, RolledBack, Committed, Applied;
    var ready := Opened(chain, p.before);
    OneApplied(chain, rules, cfg, p.before, Opens);
    assert [Opens] + [] == [Opens];
    match CheckWindow(chain, runtime, p.server, ready.anchors, NextBlock(chain, p.before))
    case RollBackTo(b) =>
      OneApplied(chain, rules, cfg, ready, RollsBack(b));
      AppliedAppend(chain, rules, cfg, p.before, [Opens], [RollsBack(b)]);
    case _ =>
  }

  // ---- What the transactions index ----

  function After(chain: ChainConfig, before: seq<string>, acts: seq<Act>): seq<string> {
    if acts == [] then before
    else StepHashes(chain, After(chain, before, acts[..|acts| - 1]), acts[|acts| - 1])
  }

  ghost predicate ActsFit(chain: ChainConfig, rules: Rules, cfg: AssignmentConfig, before: seq<string>,
                          acts: seq<Act>) {
    forall i :: 0 <= i < |acts| ==> ActFits(chain, rules, cfg, After(chain, before, acts[..i]), acts[i])
  }

  lemma {:induction false} AfterAppend(chain: ChainConfig, before: seq<string>, a: seq<Act>, b: seq<Act>)
    ensures After(chain, before, a + b) == After(chain, After(chain, before, a), b)
  {
    hide StepHashes;
    if b == [] {
      assert a + b == a;
    } else {
      assert (a + b)[..|a + b| - 1] == a + b[..|b| - 1];
      AfterAppend(chain, before, a, b[..|b| - 1]);
    }
  }

  lemma OneOfActs(chain: ChainConfig, rules: Rules, cfg: AssignmentConfig, before: seq<string>, acts: seq<Act>, i: nat)
    requires ActsFit(chain, rules, cfg, before, acts) && i < |acts|
    ensures ActFits(chain, rules, cfg, After(chain, before, acts[..i]), acts[i])
  {
    hide ActFits, After;
  }

  lemma AllFit(chain: ChainConfig, rules: Rules, cfg: AssignmentConfig, before: seq<string>, acts: seq<Act>)
    requires forall i :: 0 <= i < |acts| ==> ActFits(chain, rules, cfg, After(chain, before, acts[..i]), acts[i])
    ensures ActsFit(chain, rules, cfg, before, acts)
  {
    hide ActFits, After;
  }

  lemma ActFitsAppend(chain: ChainConfig, rules: Rules, cfg: AssignmentConfig, before: seq<string>, a: seq<Act>,
                      b: seq<Act>, i: nat)
    requires ActsFit(chain, rules, cfg, before, a) && ActsFit(chain, rules, cfg, After(chain, before, a), b)
    requires i < |a + b|
    ensures ActFits(chain, rules, cfg, After(chain, before, (a + b)[..i]), (a + b)[i])
  {
    hide ActsFit, ActFits, After;
    if i < |a| {
      OneOfActs(chain, rules, cfg, before, a, i);
      assert (a + b)[..i] == a[..i];
    } else {
      OneOfActs(chain, rules, cfg, After(chain, before, a), b, i - |a|);
      assert (a + b)[..i] == a + b[..i - |a|];
      AfterAppend(chain, before, a, b[..i - |a|]);
    }
  }

  lemma ActsFitAppend(chain: ChainConfig, rules: Rules, cfg: AssignmentConfig, before: seq<string>, a: seq<Act>,
                      b: seq<Act>)
    requires ActsFit(chain, rules, cfg, before, a) && ActsFit(chain, rules, cfg, After(chain, before, a), b)
    ensures ActsFit(chain, rules, cfg, before, a + b)
  {
    hide ActsFit, ActFits, After;
    forall i | 0 <= i < |a + b|
      ensures ActFits(chain, rules, cfg, After(chain, before, (a + b)[..i]), (a + b)[i])
    {
      ActFitsAppend(chain, rules, cfg, before, a, b, i);
    }
    AllFit(chain, rules, cfg, before, a + b);
  }

  lemma OneActFits(chain: ChainConfig, rules: Rules, cfg: AssignmentConfig, before: seq<string>, act: Act)
    requires ActFits(chain, rules, cfg, before, act)
    ensures ActsFit(chain, rules, cfg, before, [act]) && After(chain, before, [act]) == StepHashes(chain, before, act)
  {
    hide ActFits, StepHashes;
    assert [act][..0] == [];
  }

  lemma CommitFits(chain: ChainConfig, rules: Rules, cfg: AssignmentConfig, before: seq<string>, w: World, end: nat,
                   anchors: seq<BlockAnchor>)
    requires WorldFits(rules, chain.chainId, w, cfg) && IsCurrent(before, chain.startBlock, w)
    requires chain.startBlock + |before| <= end
    ensures var from := chain.startBlock + |before|;
      var longer := before + HashesBetween(w, from, end);
      && ActsFit(chain, rules, cfg, before, [Commits(w, from, end, anchors)])
      && After(chain, before, [Commits(w, from, end, anchors)]) == longer
      && IsCurrent(longer, chain.startBlock, w)
  {
    hide WorldFits;
    OneActFits(chain, rules, cfg, before, Commits(w, chain.startBlock + |before|, end, anchors));
  }

  lemma NoActs(chain: ChainConfig, rules: Rules, cfg: AssignmentConfig, before: seq<string>, w: World, n: nat)
    ensures ActsFit(chain, rules, cfg, before, [])
    ensures After(chain, before, []) == before + HashesBetween(w, n, n)
  {
  }

  /** The commits of a poll fit if what is indexed is current, and index the blocks up to where the poll stops. */
  lemma {:induction false} PollActsFit(chain: ChainConfig, server: Server, rules: Rules, cfg: AssignmentConfig, db: Db,
                                       w: World, before: seq<string>, next: nat, target: nat)
    requires AnchorsTrue(chain, rules, w) && Honest(server, rules, w) && WorldFits(rules, chain.chainId, w, cfg)
    requires chain.startBlock + |before| == next && IsCurrent(before, chain.startBlock, w)
    ensures var acts := ActsOfPoll(chain, server, rules, cfg, w, next, target);
      var end := Poll(chain, server, rules.decode, cfg, db, next, target).next;
      && ActsFit(chain, rules, cfg, before, acts)
      && next <= end && After(chain, before, acts) == before + HashesBetween(w, next, end)
    decreases if next <= target then target - next + 1 else 0
  {
    hide AnchorsTrue, ProcessRange, Honest, WorldFits, ActsFit, After, IsCurrent, ServedAnchors;
    NoActs(chain, rules, cfg, before, w, next);
    if next <= target {
      match PlanNextRange(next, chain.batchSize)
      case None =>
      case Some(range) =>
        var to := Min(range.to, target);
        RangeIgnoresTables(chain, server, rules, cfg, db, next, to);
        match ProcessRange(chain, server, rules.decode, cfg, db, next, to)
        case RangeDone(db1, next1, stop) =>
          RangeMovesForward(chain, server, rules, cfg, db, w, next, to);
          var act := Commits(w, next, next1, ServedAnchors(chain, server, next, to, next1));
          CommitFits(chain, rules, cfg, before, w, next1, ServedAnchors(chain, server, next, to, next1));
          var longer := before + HashesBetween(w, next, next1);
          if !stop {
            PollActsFit(chain, server, rules, cfg, db1, w, longer, next1, target);
            OneMoreCommit(chain, rules, cfg, before, act, ActsOfPoll(chain, server, rules, cfg, w, next1, target), w,
                          next, next1, Poll(chain, server, rules.decode, cfg, db1, next1, target).next);
          } else {
            assert [act] + [] == [act];
          }
        case _ =>
    }
  }

  lemma OneMoreCommit(chain: ChainConfig, rules: Rules, cfg: AssignmentConfig, before: seq<string>, act: Act,
                      rest: seq<Act>, w: World, from: nat, middle: nat, end: nat)
    requires from <= middle <= end && ActsFit(chain, rules, cfg, before, [act])
    requires After(chain, before, [act]) == before + HashesBetween(w, from, middle)
    requires ActsFit(chain, rules, cfg, before + HashesBetween(w, from, middle), rest)
    requires After(chain, before + HashesBetween(w, from, middle), rest)
          == before + HashesBetween(w, from, middle) + HashesBetween(w, middle, end)
    ensures ActsFit(chain, rules, cfg, before, [act] + rest)
    ensures After(chain, before, [act] + rest) == before + HashesBetween(w, from, end)
  {
    hide ActsFit, After;
    ActsFitAppend(chain, rules, cfg, before, [act], rest);
    AfterAppend(chain, before, [act], rest);
    assert HashesBetween(w, from, end) == HashesBetween(w, from, middle) + HashesBetween(w, middle, end);
  }

  lemma RangeMovesForward(chain: ChainConfig, server: Server, rules: Rules, cfg: AssignmentConfig, db: Db, w: World,
                          next: nat, to: nat)
    requires AnchorsTrue(chain, rules, w) && next <= to && Honest(server, rules, w)
    requires ProcessRange(chain, server, rules.decode, cfg, db, next, to).RangeDone?
    ensures next < ProcessRange(chain, server, rules.decode, cfg, db, next, to).next
  {
    hide AnchorsTrue, ProcessRange, Honest, Committed, RangeAnchors;
    RangeShape(chain, server, rules, cfg, db, w, next, to);
  }

  lemma CheckActsFit(chain: ChainConfig, runtime: RuntimeConfig, rules: Rules, cfg: AssignmentConfig, p: PassRun,
                     blocks: seq<IndexedBlock>)
    requires MarksOk(Opened(chain, p.before), chain, blocks, NextBlock(chain, p.before))
    requires Honest(p.server, rules, p.world)
    ensures var c := CheckedState(chain, runtime, p.server, cfg, p.before);
      var acts := [Opens] + ActsOfCheck(chain, runtime, p.server, p.before);
      && chain.startBlock <= c.next <= chain.startBlock + |blocks|
      && ActsFit(chain, rules, cfg, Hashes(blocks), acts)
      && After(chain, Hashes(blocks), acts) == Hashes(blocks[..c.next - chain.startBlock])
  {
    hide CheckWindow, RolledBack, AnchorsMatch, UpToDate, CurrentBelow, CheckedFrom, ActsFit, After, Honest;
    var ready, next := Opened(chain, p.before), NextBlock(chain, p.before);
    CheckedMarks(chain, runtime, rules, cfg, p, blocks);
    OneActFits(chain, rules, cfg, Hashes(blocks), Opens);
    assert [Opens] + [] == [Opens] && blocks[..next - chain.startBlock] == blocks;
    match CheckWindow(chain, runtime, p.server, ready.anchors, next)
    case RollBackTo(b) =>
      if UsesReorgProtection(chain.finality) && p.server.rollbackCommits {
        OneActFits(chain, rules, cfg, Hashes(blocks), RollsBack(b));
        ActsFitAppend(chain, rules, cfg, Hashes(blocks), [Opens], [RollsBack(b)]);
        AfterAppend(chain, Hashes(blocks), [Opens], [RollsBack(b)]);
        assert Hashes(blocks)[..b - chain.startBlock] == Hashes(blocks[..b - chain.startBlock]);
      }
    case _ =>
  }

  /** A poll that ends where it starts commits nothing. */
  lemma IdlePoll(chain: ChainConfig, server: Server, rules: Rules, cfg: AssignmentConfig, db: Db, w: World,
                 blocks: seq<IndexedBlock>, next: nat, target: nat)
    requires AnchorsTrue(chain, rules, w) && Honest(server, rules, w) && MarksOk(db, chain, blocks, next)
    requires Poll(chain, server, rules.decode, cfg, db, next, target).next == next
    ensures ActsOfPoll(chain, server, rules, cfg, w, next, target) == []
  {
    hide AnchorsTrue, ProcessRange, Honest, MarksOk, SameTables, TablesAfter;
    if next <= target {
      match PlanNextRange(next, chain.batchSize)
      case None =>
      case Some(range) =>
        var to := Min(range.to, target);
        RangeIgnoresTables(chain, server, rules, cfg, db, next, to);
        match ProcessRange(chain, server, rules.decode, cfg, db, next, to)
        case RangeDone(db1, next1, stop) =>
          RangeMovesForward(chain, server, rules, cfg, db, w, next, to);
          RangeExtends(chain, server, rules, cfg, db, w, blocks, next, to);
          if !stop {
            PollExtends(chain, server, rules, cfg, db1, w, Extended(blocks, w, next, next1), next1, target);
          }
        case _ =>
    }
  }

  /** The transactions of a pass fit if it was checked or commits nothing, and index what the pass does. */
  lemma PassActsFit(chain: ChainConfig, runtime: RuntimeConfig, rules: Rules, cfg: AssignmentConfig, p: PassRun,
                    blocks: seq<IndexedBlock>)
    requires AnchorsTrue(chain, rules, p.world) && Honest(p.server, rules, p.world)
    requires MarksOk(Opened(chain, p.before), chain, blocks, NextBlock(chain, p.before))
    requires WorldFits(rules, chain.chainId, p.world, cfg)
    requires var c := CheckedState(chain, runtime, p.server, cfg, p.before);
      var r := ResultOf(chain, runtime, rules, cfg, p);
      || (r.verified && CurrentBelow(blocks, chain.startBlock, p.world,
                                     CheckedFrom(chain, runtime, p.server, NextBlock(chain, p.before))))
      || r.next == c.next || UpToDate(blocks, chain.startBlock, p.world)
    ensures var acts := ActsOfPass(chain, runtime, rules, cfg, p);
      && ActsFit(chain, rules, cfg, Hashes(blocks), acts)
      && After(chain, Hashes(blocks), acts) == Hashes(BlocksAfter(chain, runtime, rules, cfg, blocks, p))
  {
    hide AnchorsTrue, CheckWindow, Honest, CheckedState, Pass, MarksOk, SameTables, TablesAfter, CurrentBelow,
        CheckedFrom, Poll, UpToDate, ActsFit, After, ActsOfPoll, ActsOfCheck, WorldFits;
    var c, r := CheckedState(chain, runtime, p.server, cfg, p.before), ResultOf(chain, runtime, rules, cfg, p);
    var checkActs := [Opens] + ActsOfCheck(chain, runtime, p.server, p.before);
    CheckedMarks(chain, runtime, rules, cfg, p, blocks);
    var kept := blocks[..c.next - chain.startBlock];
    CheckActsFit(chain, runtime, rules, cfg, p, blocks);
    PassIsCheckThenPoll(chain, runtime, rules, cfg, p);
    PassShape(chain, runtime, rules, cfg, p, blocks);
    ExtendedHashes(kept, p.world, c.next, r.next);
    NoActs(chain, rules, cfg, Hashes(kept), p.world, c.next);
    if c.failed || p.server.latest.None? {
      assert checkActs + [] == checkActs;
      assert Hashes(kept) + HashesBetween(p.world, c.next, c.next) == Hashes(kept);
    } else {
      var target := SaturatingSub(p.server.latest.value, runtime.headBufferBlocks);
      var pollActs := ActsOfPoll(chain, p.server, rules, cfg, p.world, c.next, target);
      if r.next == c.next {
        IdlePoll(chain, p.server, rules, cfg, c.db, p.world, kept, c.next, target);
      } else {
        if UpToDate(blocks, chain.startBlock, p.world) {
          SettledPassIsCurrent(chain, runtime, rules, cfg, p, blocks);
        }
        KeptIsCurrent(kept, chain.startBlock, p.world);
        MarksLength(c.db, chain, kept, c.next);
        PollActsFit(chain, p.server, rules, cfg, c.db, p.world, Hashes(kept), c.next, target);
      }
      ActsFitAppend(chain, rules, cfg, Hashes(blocks), checkActs, pollActs);
      AfterAppend(chain, Hashes(blocks), checkActs, pollActs);
    }
  }

  lemma MarksLength(db: Db, chain: ChainConfig, blocks: seq<IndexedBlock>, next: nat)
    requires MarksOk(db, chain, blocks, next)
    ensures chain.startBlock + |blocks| == next
  {
  }

  lemma KeptIsCurrent(blocks: seq<IndexedBlock>, start: nat, w: World)
    ensures UpToDate(blocks, start, w) <==> IsCurrent(Hashes(blocks), start, w)
  {
    assert forall i :: 0 <= i < |blocks| ==> Hashes(blocks)[i] == blocks[i].hash;
  }

  lemma ExtendedHashes(blocks: seq<IndexedBlock>, w: World, from: nat, end: nat)
    requires from <= end
    ensures Hashes(Extended(blocks, w, from, end)) == Hashes(blocks) + HashesBetween(w, from, end)
  {
    ExtendedParts(blocks, w, from, end);
  }

  // ---- A chain alone ----

  /** The passes of one chain that has the tables to itself. */
  ghost predicate Alone(chain: ChainConfig, runtime: RuntimeConfig, rules: Rules, cfg: AssignmentConfig,
                        run: seq<PassRun>) {
    forall i :: 0 <= i < |run| ==> StartsAlone(chain, runtime, rules, cfg, run, i)
  }

  ghost predicate StartsAlone(chain: ChainConfig, runtime: RuntimeConfig, rules: Rules, cfg: AssignmentConfig,
                              run: seq<PassRun>, i: nat)
    requires i < |run|
  {
    run[i].before == if i == 0 then EMPTY_DB else ResultOf(chain, runtime, rules, cfg, run[i - 1]).db
  }

  /** Servers are truthful about their worlds, worlds fit, and no block is committed behind an incomplete check
      unless the world has settled. */
  ghost predicate Disciplined(chain: ChainConfig, runtime: RuntimeConfig, rules: Rules, cfg: AssignmentConfig,
                              run: seq<PassRun>) {
    && Alone(chain, runtime, rules, cfg, run)
    && EveryCommitSafe(chain, runtime, rules, cfg, run)
    && forall i :: 0 <= i < |run| ==> TruePass(chain, rules, cfg, run[i])
  }

  ghost predicate TruePass(chain: ChainConfig, rules: Rules, cfg: AssignmentConfig, p: PassRun) {
    && Honest(p.server, rules, p.world) && AnchorsTrue(chain, rules, p.world)
    && WorldFits(rules, chain.chainId, p.world, cfg)
  }

  lemma AloneIsHonest(chain: ChainConfig, runtime: RuntimeConfig, rules: Rules, cfg: AssignmentConfig,
                      run: seq<PassRun>)
    requires Disciplined(chain, runtime, rules, cfg, run)
    ensures HonestRun(chain, runtime, rules, cfg, run)
  {
    hide ResultOf, Honest, WorldFits, EveryCommitSafe;
    forall i | 0 <= i < |run|
      ensures HonestPass(chain, runtime, rules, cfg, run, i)
    {
      assert TruePass(chain, rules, cfg, run[i]) && StartsAlone(chain, runtime, rules, cfg, run, i);
      NothingTouched(run[i].before, chain);
    }
  }

  lemma NothingTouched(db: Db, chain: ChainConfig)
    ensures MarksUntouched(db, db, chain) && NeverMarked(EMPTY_DB, chain)
  {
  }

  lemma DisciplinedSplit(chain: ChainConfig, runtime: RuntimeConfig, rules: Rules, cfg: AssignmentConfig,
                         run: seq<PassRun>)
    requires run != [] && Disciplined(chain, runtime, rules, cfg, run)
    ensures Disciplined(chain, runtime, rules, cfg, run[..|run| - 1])
    ensures TruePass(chain, rules, cfg, run[|run| - 1]) && SafePass(chain, runtime, rules, cfg, run, |run| - 1)
  {
    hide ResultOf, TruePass, SafePass;
    var n := |run| - 1;
    CheckedPrefix(chain, runtime, rules, cfg, run);
    forall i | 0 <= i < n
      ensures StartsAlone(chain, runtime, rules, cfg, run[..n], i) && TruePass(chain, rules, cfg, run[..n][i])
    {
      assert StartsAlone(chain, runtime, rules, cfg, run, i) && TruePass(chain, rules, cfg, run[i]);
    }
  }

  /** All transactions of a disciplined run fit, and index what the run does. */
  lemma {:induction false} RunActsFit(chain: ChainConfig, runtime: RuntimeConfig, rules: Rules, cfg: AssignmentConfig,
                                      run: seq<PassRun>)
    requires Disciplined(chain, runtime, rules, cfg, run)
    ensures ActsFit(chain, rules, cfg, [], ActsOfRun(chain, runtime, rules, cfg, run))
    ensures After(chain, [], ActsOfRun(chain, runtime, rules, cfg, run))
        == Hashes(BlocksOf(chain, runtime, rules, cfg, run))
  {
    hide ActsFit, After, ActsOfPass, Disciplined, MarksOk, HonestRun, BlocksAfter, ResultOf, Honest, CurrentBelow,
        CheckedFrom, WorldFits, CheckedState;
    if run == [] {
      NoActs(chain, rules, cfg, [], _ => "", 0);
      assert Hashes([]) == [];
    } else {
      var n := |run| - 1;
      var blocks := BlocksOf(chain, runtime, rules, cfg, run[..n]);
      DisciplinedSplit(chain, runtime, rules, cfg, run);
      RunActsFit(chain, runtime, rules, cfg, run[..n]);
      AloneIsHonest(chain, runtime, rules, cfg, run);
      LastPassStart(chain, runtime, rules, cfg, run);
      PassActsFit(chain, runtime, rules, cfg, run[n], blocks);
      var acts := ActsOfRun(chain, runtime, rules, cfg, run[..n]);
      ActsFitAppend(chain, rules, cfg, [], acts, ActsOfPass(chain, runtime, rules, cfg, run[n]));
      AfterAppend(chain, [], acts, ActsOfPass(chain, runtime, rules, cfg, run[n]));
    }
  }

  /** A chain alone leaves what its transactions leave. */
  lemma {:induction false} RunIsActs(chain: ChainConfig, runtime: RuntimeConfig, rules: Rules, cfg: AssignmentConfig,
                                     run: seq<PassRun>)
    requires Disciplined(chain, runtime, rules, cfg, run) && run != []
    ensures ResultOf(chain, runtime, rules, cfg, run[|run| - 1]).db
         == Applied(chain, rules, cfg, EMPTY_DB, ActsOfRun(chain, runtime, rules, cfg, run))
  {
    hide ResultOf, Applied, ActsOfPass, EveryCommitSafe, Honest, WorldFits;
    var n := |run| - 1;
    DisciplinedSplit(chain, runtime, rules, cfg, run);
    assert StartsAlone(chain, runtime, rules, cfg, run, n);
    PassIsActs(chain, runtime, rules, cfg, run[n]);
    if n > 0 {
      assert run[..n][n - 1] == run[n - 1];
      RunIsActs(chain, runtime, rules, cfg, run[..n]);
      AppliedAppend(chain, rules, cfg, EMPTY_DB, ActsOfRun(chain, runtime, rules, cfg, run[..n]),
                    ActsOfPass(chain, runtime, rules, cfg, run[n]));
    } else {
      assert ActsOfRun(chain, runtime, rules, cfg, run[..0]) == [];
      assert [] + ActsOfPass(chain, runtime, rules, cfg, run[0]) == ActsOfPass(chain, runtime, rules, cfg, run[0]);
    }
  }

  // ---- A recovery as a list of transactions ----

  /** The height after the last committed range. */
  function LastEnd(start: nat, ends: seq<nat>): nat {
    if ends == [] then start else ends[|ends| - 1]
  }

  /** A recovery commits range after range of a fixed world, without anchors. */
  function ActsOfRecovery(start: nat, w: World, ends: seq<nat>): seq<Act> {
    if ends == [] then [Opens]
    else
      var n := |ends| - 1;
      ActsOfRecovery(start, w, ends[..n]) + [Commits(w, LastEnd(start, ends[..n]), ends[n], [])]
  }

  predicate EndsFit(start: nat, ends: seq<nat>) {
    forall i :: 0 <= i < |ends| ==> LastEnd(start, ends[..i]) <= ends[i]
  }

  /** Its transactions fit, since its world stays as it is. */
  lemma {:induction false} RecoveryActsFit(chain: ChainConfig, rules: Rules, cfg: AssignmentConfig, w: World,
                                           ends: seq<nat>)
    requires WorldFits(rules, chain.chainId, w, cfg) && EndsFit(chain.startBlock, ends)
    ensures var acts := ActsOfRecovery(chain.startBlock, w, ends);
      var end := LastEnd(chain.startBlock, ends);
      && chain.startBlock <= end && ActsFit(chain, rules, cfg, [], acts)
      && After(chain, [], acts) == HashesBetween(w, chain.startBlock, end)
  {
    hide WorldFits, ActsFit, After;
    if ends == [] {
      OneActFits(chain, rules, cfg, [], Opens);
    } else {
      var n := |ends| - 1;
      var start, middle, end := chain.startBlock, LastEnd(chain.startBlock, ends[..n]), ends[n];
      var acts := ActsOfRecovery(start, w, ends[..n]);
      EndsFitPrefix(start, ends);
      RecoveryActsFit(chain, rules, cfg, w, ends[..n]);
      var before := HashesBetween(w, start, middle);
      CommitFits(chain, rules, cfg, before, w, end, []);
      ActsFitAppend(chain, rules, cfg, [], acts, [Commits(w, middle, end, [])]);
      AfterAppend(chain, [], acts, [Commits(w, middle, end, [])]);
      assert before + HashesBetween(w, middle, end) == HashesBetween(w, start, end);
    }
  }

  lemma EndsFitPrefix(start: nat, ends: seq<nat>)
    requires ends != [] && EndsFit(start, ends)
    ensures var n := |ends| - 1;
      EndsFit(start, ends[..n]) && LastEnd(start, ends[..n]) <= ends[n]
  {
    hide LastEnd;
    var n := |ends| - 1;
    forall i | 0 <= i < n
      ensures LastEnd(start, ends[..n][..i]) <= ends[..n][i]
    {
      assert ends[..n][..i] == ends[..i];
    }
  }
}
