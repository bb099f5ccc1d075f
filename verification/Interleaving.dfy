/** Any interleaving of the chains' transactions on shared tables (src/runner.rs). Each chain reads only its own
    anchors and checkpoint, which no other chain writes, so its passes are those it would make alone; and the shared
    tables are right after every transaction. */
module Interleaving {
  import opened Prelude
  import opened Schema
  import opened Assignments
  import opened DatabaseSpec
  import opened Views
  import opened History
  import opened RunnerSpec
  import opened RunnerSafety
  import opened RunnerRuns
  import opened RunnerAnchors
  import opened OtherChains
  import opened Fleet
  import opened FleetRuns

  /** The transactions of one chain, in order. */
  function Own(steps: seq<Step>, c: nat): seq<Act> {
    if steps == [] then []
    else
      var n := |steps| - 1;
      var before := Own(steps[..n], c);
      if steps[n].chainId == c then before + [steps[n].act] else before
  }

  lemma {:induction false} IndexedIsOwn(chains: Chains, steps: seq<Step>, c: nat)
    ensures IndexedBy(chains, steps, c) == After(chains(c), [], Own(steps, c))
  {
    hide StepHashes;
    if steps != [] {
      var n := |steps| - 1;
      IndexedIsOwn(chains, steps[..n], c);
      if steps[n].chainId == c {
        var own := Own(steps[..n], c);
        assert (own + [steps[n].act])[..|own|] == own;
      }
    }
  }

  /** What a chain has done before a step is where the step stands in all it does. */
  lemma {:induction false} OwnPrefix(steps: seq<Step>, k: nat, c: nat)
    requires k <= |steps|
    ensures Own(steps[..k], c) <= Own(steps, c)
    ensures k < |steps| && steps[k].chainId == c ==>
              |Own(steps[..k], c)| < |Own(steps, c)| && Own(steps, c)[|Own(steps[..k], c)|] == steps[k].act
  {
    if k == |steps| {
      assert steps[..k] == steps;
    } else {
      var n := |steps| - 1;
      if k < n {
        OwnPrefix(steps[..n], k, c);
        assert steps[..n][..k] == steps[..k];
      } else {
        assert steps[..k] == steps[..n];
      }
    }
  }

  // ---- Reading alone ----

  lemma SameMarksTransitive(a: Db, b: Db, d: Db, chain: ChainConfig)
    requires MarksUntouched(a, b, chain) && MarksUntouched(b, d, chain)
    ensures MarksUntouched(a, d, chain)
  {
  }

  /** The anchors a step writes are its chain's. */
  predicate AnchorsOwn(chain: ChainConfig, act: Act) {
    act.Commits? ==> forall a :: a in act.anchors ==> a.key.chainId == chain.chainId
  }

  ghost predicate ChainsDistinct(chains: Chains, steps: seq<Step>) {
    forall i :: 0 <= i < |steps| ==>
      chains(steps[i].chainId).chainId == steps[i].chainId && AnchorsOwn(chains(steps[i].chainId), steps[i].act)
  }

  /** The same transaction on the same marks leaves the same marks. */
  lemma SameActSameMarks(chain: ChainConfig, rules: Rules, cfg: AssignmentConfig, a: Db, b: Db, act: Act)
    requires MarksUntouched(a, b, chain)
    ensures MarksUntouched(ApplyOp(a, ActOp(chain, rules, act), cfg), ApplyOp(b, ActOp(chain, rules, act), cfg), chain)
  {
    hide WrittenAll, EventsIn, HashesOf;
    match act
    case Opens =>
    case RollsBack(block) =>
    case Commits(w, from, end, anchors) =>
      var rows := RowsOf(EventsIn(rules, HashesOf(w, from, end)));
      WrittenAllFrame(a, a, rows, cfg);
      WrittenAllFrame(b, b, rows, cfg);
      SameAnchorsAdded(chain, WrittenAll(a, rows, cfg), WrittenAll(b, rows, cfg), anchors);
  }

  lemma {:induction false} SameAnchorsAdded(chain: ChainConfig, a: Db, b: Db, anchors: seq<BlockAnchor>)
    requires MarksUntouched(a, b, chain)
    ensures MarksUntouched(WithAnchors(a, anchors), WithAnchors(b, anchors), chain)
  {
    if anchors != [] {
      SameAnchorsAdded(chain, a, b, anchors[..|anchors| - 1]);
    }
  }

  /** Another chain's transaction leaves the marks alone. */
  lemma OtherActLeavesMarks(chain: ChainConfig, other: ChainConfig, rules: Rules, cfg: AssignmentConfig, db: Db,
                            act: Act)
    requires chain.chainId != other.chainId && AnchorsOwn(other, act)
    ensures MarksUntouched(db, ApplyOp(db, ActOp(other, rules, act), cfg), chain)
  {
    hide WrittenAll, EventsIn, HashesOf;
    match act
    case Opens =>
    case RollsBack(block) =>
    case Commits(w, from, end, anchors) =>
      var rows := RowsOf(EventsIn(rules, HashesOf(w, from, end)));
      WrittenAllFrame(db, db, rows, cfg);
      OtherAnchors(WrittenAll(db, rows, cfg), chain, other.chainId, anchors);
  }

  lemma OneMoreStep(chains: Chains, rules: Rules, cfg: AssignmentConfig, steps: seq<Step>)
    requires steps != []
    ensures var n := |steps| - 1;
      TablesOf(chains, rules, cfg, steps)
      == ApplyOp(TablesOf(chains, rules, cfg, steps[..n]), OpOf(chains, rules, steps[n]), cfg)
  {
    hide ApplyOp, OpOf;
    var n := |steps| - 1;
    assert OpsOf(chains, rules, steps)[..n] == OpsOf(chains, rules, steps[..n]);
  }

  /** In the shared tables a chain finds the anchors and the checkpoint it would find alone. */
  lemma {:induction false} MarksAreAlone(chains: Chains, rules: Rules, cfg: AssignmentConfig, steps: seq<Step>, c: nat)
    requires ChainsDistinct(chains, steps) && chains(c).chainId == c
    ensures MarksUntouched(Applied(chains(c), rules, cfg, EMPTY_DB, Own(steps, c)), TablesOf(chains, rules, cfg, steps),
                           chains(c))
  {
    hide ApplyOp, MarksUntouched, AnchorsOwn;
    if steps == [] {
      MarksOfNothing(chains(c));
    } else {
      var n := |steps| - 1;
      var s, chain := steps[n], chains(c);
      var shared, alone := TablesOf(chains, rules, cfg, steps[..n]),
          Applied(chain, rules, cfg, EMPTY_DB, Own(steps[..n], c));
      MarksAreAlone(chains, rules, cfg, steps[..n], c);
      OneMoreStep(chains, rules, cfg, steps);
      if s.chainId == c {
        assert OpOf(chains, rules, s) == ActOp(chain, rules, s.act);
        SameActSameMarks(chain, rules, cfg, alone, shared, s.act);
        OneApplied(chain, rules, cfg, alone, s.act);
        AppliedAppend(chain, rules, cfg, EMPTY_DB, Own(steps[..n], c), [s.act]);
      } else {
        assert OpOf(chains, rules, s) == ActOp(chains(s.chainId), rules, s.act);
        OtherActLeavesMarks(chain, chains(s.chainId), rules, cfg, shared, s.act);
        SameMarksTransitive(alone, shared, TablesOf(chains, rules, cfg, steps), chain);
      }
    }
  }

  lemma MarksOfNothing(chain: ChainConfig)
    ensures MarksUntouched(EMPTY_DB, EMPTY_DB, chain)
  {
  }

  /** A pass does the same transactions on any tables with the same marks. */
  lemma PassReadsOwnMarks(chain: ChainConfig, runtime: RuntimeConfig, rules: Rules, cfg: AssignmentConfig, a: Db, b: Db,
                          w: World, server: Server)
    requires MarksUntouched(a, b, chain)
    ensures ActsOfPass(chain, runtime, rules, cfg, PassRun(a, w, server))
         == ActsOfPass(chain, runtime, rules, cfg, PassRun(b, w, server))
  {
    hide CheckWindow, ActsOfPoll, RolledBack;
    assert NextBlock(chain, a) == NextBlock(chain, b);
    CheckIsBlindBelowWindow(chain, runtime, server, Opened(chain, a).anchors, Opened(chain, b).anchors,
                            NextBlock(chain, a));
  }

  // ---- Fleet runs ----

  /** Who writes a chain: the indexer's passes over it, or a recovery of it over a world that stays fixed. */
  datatype Member =
    | Indexer(runtime: RuntimeConfig, run: seq<PassRun>)
    | Recovery(world: World, ends: seq<nat>)

  type Members = nat -> Member

  ghost function ActsOfMember(chain: ChainConfig, rules: Rules, cfg: AssignmentConfig, m: Member): seq<Act> {
    match m
    case Indexer(runtime, run) => ActsOfRun(chain, runtime, rules, cfg, run)
    case Recovery(w, ends) => ActsOfRecovery(chain.startBlock, w, ends)
  }

  ghost predicate MemberFits(chain: ChainConfig, rules: Rules, cfg: AssignmentConfig, m: Member) {
    match m
    case Indexer(runtime, run) => Disciplined(chain, runtime, rules, cfg, run)
    case Recovery(w, ends) => WorldFits(rules, chain.chainId, w, cfg) && EndsFit(chain.startBlock, ends)
  }

  ghost predicate Sees(m: Member, w: World) {
    match m
    case Indexer(_, run) => exists i :: 0 <= i < |run| && run[i].world == w
    case Recovery(v, _) => v == w
  }

  /** The chain's transactions in the schedule are those of its member. */
  ghost predicate Contributes(chains: Chains, rules: Rules, cfg: AssignmentConfig, members: Members, steps: seq<Step>,
                              c: nat) {
    && chains(c).chainId == c && MemberFits(chains(c), rules, cfg, members(c))
    && Own(steps, c) == ActsOfMember(chains(c), rules, cfg, members(c))
  }

  /** The worlds two different members see are apart. */
  ghost predicate MembersApart(rules: Rules, cfg: AssignmentConfig, one: Member, other: Member) {
    forall v, w :: Sees(one, v) && Sees(other, w) ==> Apart(rules, v, w, cfg)
  }

  /** Any interleaving of the passes and recoveries of all chains: every member fits, and different members are
      apart. */
  ghost predicate FleetRun(chains: Chains, rules: Rules, cfg: AssignmentConfig, members: Members, steps: seq<Step>) {
    && (forall c :: Contributes(chains, rules, cfg, members, steps, c))
    && (forall c, d :: c != d ==> MembersApart(rules, cfg, members(c), members(d)))
  }

  /** A commit is made in a world its member sees, with anchors of its chain. */
  ghost predicate ActOf(chain: ChainConfig, m: Member, act: Act) {
    act.Commits? ==> Sees(m, act.world) && AnchorsOwn(chain, act)
  }

  lemma {:induction false} PollActsOwn(chain: ChainConfig, server: Server, rules: Rules, cfg: AssignmentConfig,
                                       w: World, next: nat, target: nat)
    requires AnchorsTrue(chain, rules, w) && Honest(server, rules, w)
    ensures forall act :: act in ActsOfPoll(chain, server, rules, cfg, w, next, target) ==>
              act.Commits? && act.world == w && AnchorsOwn(chain, act)
    decreases if next <= target then target - next + 1 else 0
  {
    hide AnchorsTrue, ProcessRange, Honest, ServedAnchors;
    if next <= target {
      match PlanNextRange(next, chain.batchSize)
      case None =>
      case Some(range) =>
        var to := Min(range.to, target);
        match ProcessRange(chain, server, rules.decode, cfg, EMPTY_DB, next, to)
        case RangeDone(_, next1, stop) =>
          ServedAnchorsOwn(chain, server, rules, cfg, w, next, to);
          if !stop {
            PollActsOwn(chain, server, rules, cfg, w, next1, target);
          }
        case _ =>
    }
  }

  lemma ServedAnchorsOwn(chain: ChainConfig, server: Server, rules: Rules, cfg: AssignmentConfig, w: World, next: nat,
                         to: nat)
    requires AnchorsTrue(chain, rules, w) && Honest(server, rules, w) && next <= to
    requires ProcessRange(chain, server, rules.decode, cfg, EMPTY_DB, next, to).RangeDone?
    ensures forall a :: a in ServedAnchors(chain, server, next, to,
                                           ProcessRange(chain, server, rules.decode, cfg, EMPTY_DB, next, to).next) ==>
              a.key.chainId == chain.chainId
  {
    hide AnchorsTrue, ProcessRange, Honest, ServedAnchors, Committed;
    RangeShape(chain, server, rules, cfg, EMPTY_DB, w, next, to);
  }

  lemma {:induction false} RunActsOwn(chain: ChainConfig, runtime: RuntimeConfig, rules: Rules, cfg: AssignmentConfig,
                                      run: seq<PassRun>)
    requires Disciplined(chain, runtime, rules, cfg, run)
    ensures forall act :: act in ActsOfRun(chain, runtime, rules, cfg, run) ==> ActOf(chain, Indexer(runtime, run), act)
  {
    hide Disciplined, ActsOfPoll, CheckWindow, CheckedState, Honest, WorldFits, AnchorsOwn;
    if run != [] {
      var n := |run| - 1;
      var p := run[n];
      DisciplinedSplit(chain, runtime, rules, cfg, run);
      RunActsOwn(chain, runtime, rules, cfg, run[..n]);
      var c := CheckedState(chain, runtime, p.server, cfg, p.before);
      if !c.failed && p.server.latest.Some? {
        PollActsOwn(chain, p.server, rules, cfg, p.world, c.next,
                    SaturatingSub(p.server.latest.value, runtime.headBufferBlocks));
      }
      forall act | act in ActsOfRun(chain, runtime, rules, cfg, run[..n])
        ensures ActOf(chain, Indexer(runtime, run), act)
      {
        assert ActOf(chain, Indexer(runtime, run[..n]), act);
        if act.Commits? {
          var i :| 0 <= i < n && run[..n][i].world == act.world;
          assert run[i].world == act.world;
        }
      }
    }
  }

  lemma {:induction false} RecoveryActsOwn(chain: ChainConfig, w: World, ends: seq<nat>)
    ensures forall act :: act in ActsOfRecovery(chain.startBlock, w, ends) ==> ActOf(chain, Recovery(w, ends), act)
  {
    if ends != [] {
      RecoveryActsOwn(chain, w, ends[..|ends| - 1]);
      forall act | act in ActsOfRecovery(chain.startBlock, w, ends[..|ends| - 1])
        ensures ActOf(chain, Recovery(w, ends), act)
      {
        assert ActOf(chain, Recovery(w, ends[..|ends| - 1]), act);
      }
    }
  }

  /** What a member does fits and is its own. */
  lemma MemberActs(chain: ChainConfig, rules: Rules, cfg: AssignmentConfig, m: Member)
    requires MemberFits(chain, rules, cfg, m)
    ensures ActsFit(chain, rules, cfg, [], ActsOfMember(chain, rules, cfg, m))
    ensures forall act :: act in ActsOfMember(chain, rules, cfg, m) ==> ActOf(chain, m, act)
  {
    hide Disciplined, ActsFit, ActOf, ActsOfRun, WorldFits, EndsFit;
    match m
    case Indexer(runtime, run) =>
      RunActsFit(chain, runtime, rules, cfg, run);
      RunActsOwn(chain, runtime, rules, cfg, run);
    case Recovery(w, ends) =>
      RecoveryActsFit(chain, rules, cfg, w, ends);
      RecoveryActsOwn(chain, w, ends);
  }

  /** Every step of a fleet run is one of its member's acts. */
  lemma StepIsAct(chains: Chains, rules: Rules, cfg: AssignmentConfig, members: Members, steps: seq<Step>, k: nat)
    requires FleetRun(chains, rules, cfg, members, steps) && k < |steps|
    ensures var c := steps[k].chainId;
      && chains(c).chainId == c && ActOf(chains(c), members(c), steps[k].act)
      && StepFits(chains, rules, cfg, steps[..k], steps[k])
  {
    hide MemberFits, ActsOfMember, ActFits, After, IndexedBy, MembersApart, ActOf, ActsFit;
    var c, s := steps[k].chainId, steps[k];
    var own, before := Own(steps, c), Own(steps[..k], c);
    assert Contributes(chains, rules, cfg, members, steps, c);
    OwnPrefix(steps, k, c);
    MemberActs(chains(c), rules, cfg, members(c));
    OneOfActs(chains(c), rules, cfg, [], own, |before|);
    IndexedIsOwn(chains, steps[..k], c);
    assert own[..|before|] == before;
    assert own[|before|] in own;
  }

  /** The transactions of a fleet run fit together. */
  lemma FleetRunFits(chains: Chains, rules: Rules, cfg: AssignmentConfig, members: Members, steps: seq<Step>)
    requires FleetRun(chains, rules, cfg, members, steps)
    ensures FleetFits(chains, rules, cfg, steps) && ChainsDistinct(chains, steps)
  {
    hide Contributes, StepFits, Apart, AnchorsOwn;
    forall i | 0 <= i < |steps|
      ensures StepFits(chains, rules, cfg, steps[..i], steps[i])
      ensures chains(steps[i].chainId).chainId == steps[i].chainId
      ensures ActOf(chains(steps[i].chainId), members(steps[i].chainId), steps[i].act)
      ensures AnchorsOwn(chains(steps[i].chainId), steps[i].act)
    {
      StepIsAct(chains, rules, cfg, members, steps, i);
      OnlyCommitsAnchor(chains(steps[i].chainId), members(steps[i].chainId), steps[i].act);
    }
    forall i, j | 0 <= i < |steps| && 0 <= j < |steps|
      ensures StepsApart(rules, steps[i], steps[j], cfg)
    {
      CommitsApart(chains, rules, cfg, members, steps[i], steps[j]);
    }
  }

  lemma OnlyCommitsAnchor(chain: ChainConfig, m: Member, act: Act)
    requires ActOf(chain, m, act)
    ensures AnchorsOwn(chain, act)
  {
  }

  lemma CommitsApart(chains: Chains, rules: Rules, cfg: AssignmentConfig, members: Members, s: Step, t: Step)
    requires ActOf(chains(s.chainId), members(s.chainId), s.act) && ActOf(chains(t.chainId), members(t.chainId), t.act)
    requires forall c, d :: c != d ==> MembersApart(rules, cfg, members(c), members(d))
    ensures StepsApart(rules, s, t, cfg)
  {
    hide Apart, AnchorsOwn, Sees;
    if s.chainId != t.chainId && s.act.Commits? && t.act.Commits? {
      assert MembersApart(rules, cfg, members(s.chainId), members(t.chainId));
    }
  }

  lemma {:induction false} FleetPrefix(chains: Chains, rules: Rules, cfg: AssignmentConfig, steps: seq<Step>, k: nat)
    requires FleetFits(chains, rules, cfg, steps) && k <= |steps|
    ensures FleetFits(chains, rules, cfg, steps[..k])
  {
    hide StepFits, StepsApart;
    forall i | 0 <= i < k
      ensures StepFits(chains, rules, cfg, steps[..k][..i], steps[..k][i])
    {
      assert steps[..k][..i] == steps[..i];
    }
  }

  /** In every interleaving of the passes of all chains and of recoveries, after every single transaction: the rows of
      every chain are exactly those of the blocks it has indexed (signature rows aside), and the six columns of every
      accepted row are the sorted fold of all assignments stored for it. */
  lemma FleetRunKeepsTables(chains: Chains, rules: Rules, cfg: AssignmentConfig, members: Members, steps: seq<Step>,
                            k: nat)
    requires FleetRun(chains, rules, cfg, members, steps) && k <= |steps|
    ensures var db := TablesOf(chains, rules, cfg, steps[..k]);
      && ViewOk(db, cfg)
      && forall c :: HoldsExactly(db, c, EventsIn(rules, IndexedBy(chains, steps[..k], c)))
  {
    hide FleetRun, FleetFits, ViewOk, HoldsExactly, TablesOf, IndexedBy;
    FleetRunFits(chains, rules, cfg, members, steps);
    FleetPrefix(chains, rules, cfg, steps, k);
    FleetKeepsTables(chains, rules, cfg, steps[..k]);
  }

  /** The chain is indexed and has made m of its passes. */
  ghost predicate StandsAfter(chains: Chains, rules: Rules, cfg: AssignmentConfig, members: Members, steps: seq<Step>,
                              c: nat, m: nat) {
    && members(c).Indexer? && m <= |members(c).run|
    && Own(steps, c) == ActsOfRun(chains(c), members(c).runtime, rules, cfg, members(c).run[..m])
  }

  /** Where a chain stands after m of its passes, its rows in the shared tables are those its run has indexed; if the
      last of these passes was checked or its world had settled, they are exactly those of the current world up to its
      checkpoint. And the next pass does to the shared tables what it does alone. */
  lemma FleetRunIsExact(chains: Chains, rules: Rules, cfg: AssignmentConfig, members: Members, steps: seq<Step>, k: nat,
                        c: nat, m: nat)
    requires FleetRun(chains, rules, cfg, members, steps) && k <= |steps|
    requires StandsAfter(chains, rules, cfg, members, steps[..k], c, m)
    ensures var db, chain, runtime := TablesOf(chains, rules, cfg, steps[..k]), chains(c), members(c).runtime;
      var run, all := members(c).run[..m], members(c).run;
      && HoldsExactly(db, c, EventsIn(rules, Hashes(BlocksOf(chain, runtime, rules, cfg, run))))
      && (m > 0 && (CheckedPass(chain, runtime, rules, cfg, run, m - 1)
                    || SettledPass(chain, runtime, rules, cfg, run, m - 1)) ==>
            var next := ResultOf(chain, runtime, rules, cfg, run[m - 1]).next;
            chain.startBlock <= next && HoldsExactly(db, c, EventsIn(rules,
                                                                     HashesOf(run[m - 1].world, chain.startBlock,
                                                                              next))))
      && (m < |all| ==>
            ActsOfPass(chain, runtime, rules, cfg, PassRun(db, all[m].world, all[m].server))
            == ActsOfPass(chain, runtime, rules, cfg, all[m]))
  {
    hide FleetRun, ViewOk, HoldsExactly, TablesOf, Disciplined, ActsOfRun, ActsOfPass, BlocksOf, CheckedPass,
        SettledPass, After, IndexedBy, ResultOf;
    var chain, runtime, run := chains(c), members(c).runtime, members(c).run[..m];
    FleetRunKeepsTables(chains, rules, cfg, members, steps, k);
    ChainOfFleet(chains, rules, cfg, members, steps, c, m);
    RunActsFit(chain, runtime, rules, cfg, run);
    IndexedIsOwn(chains, steps[..k], c);
    if m > 0 && (CheckedPass(chain, runtime, rules, cfg, run, m - 1)
                 || SettledPass(chain, runtime, rules, cfg, run, m - 1)) {
      SafeRunIndexesWorld(chain, runtime, rules, cfg, run);
    }
    if m < |members(c).run| {
      SharedPass(chains, rules, cfg, members, steps, k, c, m);
    }
  }

  lemma ChainOfFleet(chains: Chains, rules: Rules, cfg: AssignmentConfig, members: Members, steps: seq<Step>, c: nat,
                     m: nat)
    requires FleetRun(chains, rules, cfg, members, steps) && members(c).Indexer? && m <= |members(c).run|
    ensures chains(c).chainId == c
    ensures Disciplined(chains(c), members(c).runtime, rules, cfg, members(c).run[..m])
    ensures Disciplined(chains(c), members(c).runtime, rules, cfg, members(c).run)
  {
    hide Disciplined, MembersApart, ActsOfMember;
    assert Contributes(chains, rules, cfg, members, steps, c);
    PrefixIsDisciplined(chains(c), members(c).runtime, rules, cfg, members(c).run, m);
  }

  lemma {:induction false} PrefixIsDisciplined(chain: ChainConfig, runtime: RuntimeConfig, rules: Rules,
                                               cfg: AssignmentConfig, run: seq<PassRun>, m: nat)
    requires Disciplined(chain, runtime, rules, cfg, run) && m <= |run|
    ensures Disciplined(chain, runtime, rules, cfg, run[..m])
  {
    hide Disciplined;
    if m < |run| {
      DisciplinedSplit(chain, runtime, rules, cfg, run);
      PrefixIsDisciplined(chain, runtime, rules, cfg, run[..|run| - 1], m);
      assert run[..|run| - 1][..m] == run[..m];
    } else {
      assert run[..m] == run;
    }
  }

  /** After a pass that was checked or whose world had settled, what the run has indexed is the current world's
      chain. */
  lemma SafeRunIndexesWorld(chain: ChainConfig, runtime: RuntimeConfig, rules: Rules, cfg: AssignmentConfig,
                            run: seq<PassRun>)
    requires Disciplined(chain, runtime, rules, cfg, run) && run != []
    requires var n := |run| - 1;
      CheckedPass(chain, runtime, rules, cfg, run, n) || SettledPass(chain, runtime, rules, cfg, run, n)
    ensures var n := |run| - 1;
      var next := ResultOf(chain, runtime, rules, cfg, run[n]).next;
      && chain.startBlock <= next
      && Hashes(BlocksOf(chain, runtime, rules, cfg, run)) == HashesOf(run[n].world, chain.startBlock, next)
  {
    hide ResultOf, Disciplined, HonestRun, MarksOk, BlocksOf, UpToDate, CheckedPass, SettledPass;
    var n := |run| - 1;
    var r := ResultOf(chain, runtime, rules, cfg, run[n]);
    AloneIsHonest(chain, runtime, rules, cfg, run);
    RunMarks(chain, runtime, rules, cfg, run);
    SafeRunIsCurrent(chain, runtime, rules, cfg, run);
    CurrentHashes(r.db, chain, BlocksOf(chain, runtime, rules, cfg, run), r.next, run[n].world);
  }

  /** The next pass does to the shared tables what it does alone. */
  lemma SharedPass(chains: Chains, rules: Rules, cfg: AssignmentConfig, members: Members, steps: seq<Step>, k: nat,
                   c: nat, m: nat)
    requires FleetRun(chains, rules, cfg, members, steps) && k <= |steps|
    requires StandsAfter(chains, rules, cfg, members, steps[..k], c, m) && m < |members(c).run|
    ensures var runtime, p := members(c).runtime, members(c).run[m];
      ActsOfPass(chains(c), runtime, rules, cfg, PassRun(TablesOf(chains, rules, cfg, steps[..k]), p.world, p.server))
      == ActsOfPass(chains(c), runtime, rules, cfg, p)
  {
    hide FleetRun, TablesOf, Disciplined, ActsOfRun, ActsOfPass, MarksUntouched, FleetFits, Applied, ResultOf;
    var chain, runtime, run := chains(c), members(c).runtime, members(c).run;
    FleetRunFits(chains, rules, cfg, members, steps);
    ChainOfFleet(chains, rules, cfg, members, steps, c, m);
    MarksAreAlone(chains, rules, cfg, steps[..k], c);
    AloneStart(chain, runtime, rules, cfg, run, m);
    PassReadsOwnMarks(chain, runtime, rules, cfg, run[m].before, TablesOf(chains, rules, cfg, steps[..k]),
                      run[m].world, run[m].server);
    assert run[m] == PassRun(run[m].before, run[m].world, run[m].server);
  }

  lemma AloneStart(chain: ChainConfig, runtime: RuntimeConfig, rules: Rules, cfg: AssignmentConfig, run: seq<PassRun>,
                   m: nat)
    requires Disciplined(chain, runtime, rules, cfg, run) && m < |run|
    ensures run[m].before == Applied(chain, rules, cfg, EMPTY_DB, ActsOfRun(chain, runtime, rules, cfg, run[..m]))
  {
    hide ResultOf, EveryCommitSafe, TruePass;
    assert StartsAlone(chain, runtime, rules, cfg, run, m);
    if m > 0 {
      PrefixIsDisciplined(chain, runtime, rules, cfg, run, m);
      RunIsActs(chain, runtime, rules, cfg, run[..m]);
      assert run[..m][m - 1] == run[m - 1];
    }
  }

  // ---- One chain ----

  /** A chain alone: after every pass the six columns are the sorted fold. */
  lemma RunKeepsView(chain: ChainConfig, runtime: RuntimeConfig, rules: Rules, cfg: AssignmentConfig, run: seq<PassRun>)
    requires Disciplined(chain, runtime, rules, cfg, run) && run != []
    ensures ViewOk(ResultOf(chain, runtime, rules, cfg, run[|run| - 1]).db, cfg)
  {
    hide ResultOf, Disciplined, ViewOk, TablesOf, ActsOfRun, FleetFits, BlocksOf, StepsApart;
    var chains: Chains := _ => chain;
    var acts := ActsOfRun(chain, runtime, rules, cfg, run);
    var steps := StepsOf(chain.chainId, acts);
    RunActsFit(chain, runtime, rules, cfg, run);
    RunIsActs(chain, runtime, rules, cfg, run);
    AloneFits(chain, rules, cfg, acts);
    FleetKeepsTables(chains, rules, cfg, steps);
    TablesAlone(chain, rules, cfg, acts);
  }

  lemma {:induction false} OwnAlone(c: nat, acts: seq<Act>)
    ensures Own(StepsOf(c, acts), c) == acts
  {
    if acts != [] {
      var n := |acts| - 1;
      OwnAlone(c, acts[..n]);
      assert StepsOf(c, acts)[..n] == StepsOf(c, acts[..n]);
      assert acts == acts[..n] + [acts[n]];
    }
  }

  lemma AloneFits(chain: ChainConfig, rules: Rules, cfg: AssignmentConfig, acts: seq<Act>)
    requires ActsFit(chain, rules, cfg, [], acts)
    ensures FleetFits(_ => chain, rules, cfg, StepsOf(chain.chainId, acts))
  {
    hide ActFits, After, IndexedBy;
    var steps := StepsOf(chain.chainId, acts);
    forall i | 0 <= i < |steps|
      ensures StepFits(_ => chain, rules, cfg, steps[..i], steps[i])
    {
      assert steps[..i] == StepsOf(chain.chainId, acts[..i]);
      OwnAlone(chain.chainId, acts[..i]);
      IndexedIsOwn(_ => chain, steps[..i], chain.chainId);
    }
  }

  lemma {:induction false} TablesAlone(chain: ChainConfig, rules: Rules, cfg: AssignmentConfig, acts: seq<Act>)
    ensures TablesOf(_ => chain, rules, cfg, StepsOf(chain.chainId, acts)) == Applied(chain, rules, cfg, EMPTY_DB, acts)
  {
    hide ApplyOp;
    if acts != [] {
      var n := |acts| - 1;
      var steps := StepsOf(chain.chainId, acts);
      assert steps[..n] == StepsOf(chain.chainId, acts[..n]);
      TablesAlone(chain, rules, cfg, acts[..n]);
      OneMoreStep(_ => chain, rules, cfg, steps);
    }
  }
}
