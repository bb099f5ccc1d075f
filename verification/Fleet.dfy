/** All chains at once, transaction by transaction (src/runner.rs, src/database.rs): the chains' tasks run concurrently
    on shared tables, so their transactions interleave in any order. As long as every commit is made in a world in
    which what its chain has indexed is current, the rows of every chain and the six assignment columns are
    right after every single transaction. */
module Fleet {
  import opened Schema
  import opened Assignments
  import opened DatabaseSpec
  import opened Views
  import opened History
  import opened RunnerSpec
  import opened RunnerSafety

  /** What one transaction of a chain does, and the world it sees. */
  datatype Act =
    | Opens
    | Commits(world: World, from: nat, end: nat, anchors: seq<BlockAnchor>)
    | RollsBack(block: nat)

  datatype Step = Step(chainId: nat, act: Act)

  /** The configuration of every chain, by chain id. */
  type Chains = nat -> ChainConfig

  function HashesOf(w: World, from: nat, end: nat): seq<string> {
    if from <= end then HashesBetween(w, from, end) else []
  }

  function OpOf(chains: Chains, rules: Rules, s: Step): Op {
    var chain := chains(s.chainId);
    match s.act
    case Opens => Open(s.chainId, chain.dataset, chain.startBlock)
    case Commits(w, from, end, anchors) =>
      Commit(EventsIn(rules, HashesOf(w, from, end)), anchors, s.chainId, chain.dataset, end)
    case RollsBack(block) => Rollback(s.chainId, chain.dataset, block)
  }

  function OpsOf(chains: Chains, rules: Rules, steps: seq<Step>): (ops: seq<Op>)
    ensures |ops| == |steps|
    ensures forall i :: 0 <= i < |steps| ==> ops[i] == OpOf(chains, rules, steps[i])
  {
    seq(|steps|, i requires 0 <= i < |steps| => OpOf(chains, rules, steps[i]))
  }

  /** The tables after the steps. */
  ghost function TablesOf(chains: Chains, rules: Rules, cfg: AssignmentConfig, steps: seq<Step>): Db {
    Run(OpsOf(chains, rules, steps), cfg)
  }

  /** The hashes of the blocks the chain has indexed after the steps. */
  function IndexedBy(chains: Chains, steps: seq<Step>, c: nat): seq<string> {
    if steps == [] then []
    else
      var n := |steps| - 1;
      var before := IndexedBy(chains, steps[..n], c);
      if steps[n].chainId != c then before else StepHashes(chains(c), before, steps[n].act)
  }

  function StepHashes(chain: ChainConfig, before: seq<string>, act: Act): seq<string> {
    match act
    case Opens => before
    case Commits(w, from, end, _) => before + HashesOf(w, from, end)
    case RollsBack(block) =>
      if chain.startBlock <= block <= chain.startBlock + |before| then before[..block - chain.startBlock] else before
  }

  // ---- What is asked of the worlds ----

  /** The events of one block come in an order that fits the order of their assignments. */
  ghost predicate BlocksInOrder(rules: Rules, w: World, cfg: AssignmentConfig) {
    forall n, i, j :: 0 <= i < j < |EventsOf(rules, w(n))| ==>
      AssignedInOrder(EventsOf(rules, w(n))[i], EventsOf(rules, w(n))[j], cfg)
  }

  predicate AssignedInOrder(d: Event, e: Event, cfg: AssignmentConfig) {
    var a, b := RowOf(d), RowOf(e);
    a.AssignedRow? && b.AssignedRow? && a.msgHash == b.msgHash ==> InOrder(a, b, cfg)
  }

  /** One chain's world: events carry their chain and height, equal keys mean equal rows, blocks are in order. */
  ghost predicate WorldFits(rules: Rules, c: nat, w: World, cfg: AssignmentConfig) {
    WorldOk(rules, c, w) && OneRowPerKey(rules, w) && BlocksInOrder(rules, w, cfg)
  }

  /** Events of different chains share no key, and their assignments of one message do not depend on their order. */
  ghost predicate Apart(rules: Rules, v: World, w: World, cfg: AssignmentConfig) {
    forall m, n, d, e :: d in EventsOf(rules, v(m)) && e in EventsOf(rules, w(n)) ==> Compatible(d, e, cfg)
  }

  /** The transaction continues where its chain stands. A commit is made in a world in which everything the chain has
      indexed is current. */
  ghost predicate ActFits(chain: ChainConfig, rules: Rules, cfg: AssignmentConfig, indexed: seq<string>, act: Act) {
    match act
    case Opens => true
    case Commits(w, from, end, _) =>
      && chain.startBlock + |indexed| == from <= end
      && IsCurrent(indexed, chain.startBlock, w) && WorldFits(rules, chain.chainId, w, cfg)
    case RollsBack(block) => chain.startBlock <= block <= chain.startBlock + |indexed|
  }

  ghost predicate StepFits(chains: Chains, rules: Rules, cfg: AssignmentConfig, before: seq<Step>, s: Step) {
    && chains(s.chainId).chainId == s.chainId
    && ActFits(chains(s.chainId), rules, cfg, IndexedBy(chains, before, s.chainId), s.act)
  }

  ghost predicate IsCurrent(indexed: seq<string>, start: nat, w: World) {
    forall i :: 0 <= i < |indexed| ==> indexed[i] == w(start + i)
  }

  /** The worlds in which two different chains commit are apart, in either order. */
  ghost predicate StepsApart(rules: Rules, s: Step, t: Step, cfg: AssignmentConfig) {
    s.chainId != t.chainId && s.act.Commits? && t.act.Commits? ==> Apart(rules, s.act.world, t.act.world, cfg)
  }

  ghost predicate FleetFits(chains: Chains, rules: Rules, cfg: AssignmentConfig, steps: seq<Step>) {
    && (forall i :: 0 <= i < |steps| ==> StepFits(chains, rules, cfg, steps[..i], steps[i]))
    && (forall i, j :: 0 <= i < |steps| && 0 <= j < |steps| ==> StepsApart(rules, steps[i], steps[j], cfg))
  }

  // ---- What survives ----

  lemma FleetSplit(chains: Chains, rules: Rules, cfg: AssignmentConfig, steps: seq<Step>)
    requires steps != [] && FleetFits(chains, rules, cfg, steps)
    ensures var n := |steps| - 1;
      && FleetFits(chains, rules, cfg, steps[..n]) && StepFits(chains, rules, cfg, steps[..n], steps[n])
      && OpsOf(chains, rules, steps)[..n] == OpsOf(chains, rules, steps[..n])
      && forall i :: 0 <= i < n ==> StepsApart(rules, steps[i], steps[n], cfg)
  {
    hide StepFits, StepsApart;
    var n := |steps| - 1;
    forall i | 0 <= i < n
      ensures StepFits(chains, rules, cfg, steps[..n][..i], steps[..n][i])
    {
      assert steps[..n][..i] == steps[..i];
    }
  }

  /** The event was committed by its chain in some block of a world that fits. */
  ghost predicate HasSource(rules: Rules, cfg: AssignmentConfig, steps: seq<Step>, d: Event) {
    exists j, n :: 0 <= j < |steps| && IsSource(rules, cfg, steps[j], n, d)
  }

  ghost predicate IsSource(rules: Rules, cfg: AssignmentConfig, s: Step, n: nat, d: Event) {
    && s.act.Commits? && WorldFits(rules, s.chainId, s.act.world, cfg)
    && s.chainId == d.meta.chainId && n == d.meta.blockNumber && d in EventsOf(rules, s.act.world(n))
  }

  lemma EventsOfHashes(rules: Rules, w: World, from: nat, end: nat)
    requires from <= end
    ensures forall e :: e in EventsIn(rules, HashesBetween(w, from, end))
                   <==> exists n :: from <= n < end && e in EventsOf(rules, w(n))
  {
    hide EventsIn, EventsOf;
    var hashes := HashesBetween(w, from, end);
    EventsInMember(rules, hashes);
    forall e
      ensures e in EventsIn(rules, hashes) <==> exists n :: from <= n < end && e in EventsOf(rules, w(n))
    {
      if e in EventsIn(rules, hashes) {
        var i :| 0 <= i < |hashes| && e in EventsOf(rules, hashes[i]);
        assert e in EventsOf(rules, w(from + i));
      }
      if n :| from <= n < end && e in EventsOf(rules, w(n)) {
        assert e in EventsOf(rules, hashes[n - from]);
      }
    }
  }

  /** Cutting what a chain has indexed keeps the events below the cut. */
  lemma CutEvents(rules: Rules, c: nat, start: nat, indexed: seq<string>, m: nat)
    requires m <= |indexed| && HeightsFit(rules, c, start, indexed)
    ensures forall e :: e in EventsIn(rules, indexed[..m])
                   <==> e in EventsIn(rules, indexed) && e.meta.blockNumber < start + m
    ensures HeightsFit(rules, c, start, indexed[..m])
  {
    hide EventsIn, EventsOf, BlockFits;
    EventsInMember(rules, indexed);
    EventsInMember(rules, indexed[..m]);
    forall i | 0 <= i < m
      ensures BlockFits(rules, c, start + i, indexed[..m][i])
    {
      assert BlockFits(rules, c, start + i, indexed[i]);
    }
    forall e
      ensures e in EventsIn(rules, indexed[..m]) <==> e in EventsIn(rules, indexed) && e.meta.blockNumber < start + m
    {
      if e in EventsIn(rules, indexed[..m]) {
        var i :| 0 <= i < m && e in EventsOf(rules, indexed[..m][i]);
        assert e in EventsOf(rules, indexed[i]);
        BlockHeight(rules, c, start + i, indexed[i], e);
      }
      if e in EventsIn(rules, indexed) && e.meta.blockNumber < start + m {
        var i :| 0 <= i < |indexed| && e in EventsOf(rules, indexed[i]);
        assert BlockFits(rules, c, start + i, indexed[i]);
        BlockHeight(rules, c, start + i, indexed[i], e);
        assert e in EventsOf(rules, indexed[..m][i]);
      }
    }
  }

  /** Every indexed block holds events of its chain and height. */
  ghost predicate HeightsFit(rules: Rules, c: nat, start: nat, indexed: seq<string>) {
    forall i :: 0 <= i < |indexed| ==> BlockFits(rules, c, start + i, indexed[i])
  }

  ghost predicate BlockFits(rules: Rules, c: nat, n: nat, hash: string) {
    forall e :: e in EventsOf(rules, hash) ==> e.meta.chainId == c && e.meta.blockNumber == n
  }

  lemma BlockHeight(rules: Rules, c: nat, n: nat, hash: string, e: Event)
    requires BlockFits(rules, c, n, hash) && e in EventsOf(rules, hash)
    ensures e.meta.chainId == c && e.meta.blockNumber == n
  {
  }

  /** What survives of a chain is exactly what it has indexed, and everything that survives was committed by its
      chain. */
  ghost predicate LiveIsIndexed(chains: Chains, rules: Rules, cfg: AssignmentConfig, steps: seq<Step>) {
    && (forall c :: HeightsFit(rules, c, chains(c).startBlock, IndexedBy(chains, steps, c)))
    && (forall d :: d in Live(OpsOf(chains, rules, steps))
               <==> d in EventsIn(rules, IndexedBy(chains, steps, d.meta.chainId)))
    && (forall d :: d in Live(OpsOf(chains, rules, steps)) ==> HasSource(rules, cfg, steps, d))
  }

  lemma {:induction false} FleetLives(chains: Chains, rules: Rules, cfg: AssignmentConfig, steps: seq<Step>)
    requires FleetFits(chains, rules, cfg, steps)
    ensures LiveIsIndexed(chains, rules, cfg, steps)
  {
    hide FleetFits, StepFits, StepsApart, WorldFits, EventsIn, LiveIsIndexed;
    if steps == [] {
      NothingLives(chains, rules, cfg);
    } else {
      var n := |steps| - 1;
      FleetSplit(chains, rules, cfg, steps);
      FleetLives(chains, rules, cfg, steps[..n]);
      assert steps == steps[..n] + [steps[n]];
      match steps[n].act
      case Opens => OpenLives(chains, rules, cfg, steps[..n], steps[n]);
      case Commits(_, _, _, _) => CommitLives(chains, rules, cfg, steps[..n], steps[n]);
      case RollsBack(_) => RollbackLives(chains, rules, cfg, steps[..n], steps[n]);
    }
  }

  lemma NothingLives(chains: Chains, rules: Rules, cfg: AssignmentConfig)
    ensures LiveIsIndexed(chains, rules, cfg, [])
  {
  }

  function StepLive(rules: Rules, live: seq<Event>, s: Step): seq<Event> {
    match s.act
    case Opens => live
    case Commits(w, from, end, _) => live + EventsIn(rules, HashesOf(w, from, end))
    case RollsBack(block) => Without(live, s.chainId, block)
  }

  /** One more step, in terms of what survives and what is indexed. */
  lemma StepParts(chains: Chains, rules: Rules, steps: seq<Step>, s: Step)
    ensures var all := steps + [s];
      && Live(OpsOf(chains, rules, all)) == StepLive(rules, Live(OpsOf(chains, rules, steps)), s)
      && forall c :: IndexedBy(chains, all, c)
                  == if c == s.chainId then StepHashes(chains(c), IndexedBy(chains, steps, c), s.act)
                     else IndexedBy(chains, steps, c)
  {
    hide EventsIn, HashesOf, StepHashes;
    var all := steps + [s];
    var ops := OpsOf(chains, rules, all);
    assert ops[..|steps|] == OpsOf(chains, rules, steps) && ops[|steps|] == OpOf(chains, rules, s);
    assert all[..|steps|] == steps;
  }

  lemma SourceStays(rules: Rules, cfg: AssignmentConfig, steps: seq<Step>, s: Step, d: Event)
    requires HasSource(rules, cfg, steps, d)
    ensures HasSource(rules, cfg, steps + [s], d)
  {
    hide IsSource;
    var j, n :| 0 <= j < |steps| && IsSource(rules, cfg, steps[j], n, d);
    assert IsSource(rules, cfg, (steps + [s])[j], n, d);
  }

  lemma OpenLives(chains: Chains, rules: Rules, cfg: AssignmentConfig, steps: seq<Step>, s: Step)
    requires LiveIsIndexed(chains, rules, cfg, steps) && s.act.Opens?
    ensures LiveIsIndexed(chains, rules, cfg, steps + [s])
  {
    hide Live, IndexedBy, HeightsFit, EventsIn, HasSource;
    StepParts(chains, rules, steps, s);
    forall d | d in Live(OpsOf(chains, rules, steps + [s]))
      ensures HasSource(rules, cfg, steps + [s], d)
    {
      SourceStays(rules, cfg, steps, s, d);
    }
  }

  lemma CommitLives(chains: Chains, rules: Rules, cfg: AssignmentConfig, steps: seq<Step>, s: Step)
    requires LiveIsIndexed(chains, rules, cfg, steps) && s.act.Commits? && StepFits(chains, rules, cfg, steps, s)
    ensures LiveIsIndexed(chains, rules, cfg, steps + [s])
  {
    hide Live, IndexedBy, HeightsFit, EventsIn, HasSource, OneRowPerKey, BlocksInOrder, IsCurrent;
    var w, from, end := s.act.world, s.act.from, s.act.end;
    var c, indexed := s.chainId, IndexedBy(chains, steps, s.chainId);
    var added := HashesBetween(w, from, end);
    StepParts(chains, rules, steps, s);
    EventsInConcat(rules, indexed, added);
    EventsOfHashes(rules, w, from, end);
    CommitHeights(rules, c, chains(c).startBlock, indexed, w, end);
    forall d | d in EventsIn(rules, added)
      ensures d.meta.chainId == c && HasSource(rules, cfg, steps + [s], d)
    {
      CommittedHasSource(rules, cfg, steps, s, d);
    }
    forall d | d in Live(OpsOf(chains, rules, steps))
      ensures HasSource(rules, cfg, steps + [s], d)
    {
      SourceStays(rules, cfg, steps, s, d);
    }
  }

  lemma CommittedHasSource(rules: Rules, cfg: AssignmentConfig, steps: seq<Step>, s: Step, d: Event)
    requires s.act.Commits? && WorldFits(rules, s.chainId, s.act.world, cfg)
    requires exists n :: s.act.from <= n < s.act.end && d in EventsOf(rules, s.act.world(n))
    ensures d.meta.chainId == s.chainId && HasSource(rules, cfg, steps + [s], d)
  {
    hide EventsOf, OneRowPerKey, BlocksInOrder;
    var n :| s.act.from <= n < s.act.end && d in EventsOf(rules, s.act.world(n));
    assert IsSource(rules, cfg, (steps + [s])[|steps|], n, d);
  }

  lemma CommitHeights(rules: Rules, c: nat, start: nat, indexed: seq<string>, w: World, end: nat)
    requires HeightsFit(rules, c, start, indexed) && WorldOk(rules, c, w) && start + |indexed| <= end
    ensures HeightsFit(rules, c, start, indexed + HashesBetween(w, start + |indexed|, end))
  {
    hide EventsOf;
    var all := indexed + HashesBetween(w, start + |indexed|, end);
    forall i | 0 <= i < |all|
      ensures BlockFits(rules, c, start + i, all[i])
    {
      if i < |indexed| {
        assert BlockFits(rules, c, start + i, indexed[i]);
      } else {
        assert all[i] == w(start + i);
      }
    }
  }

  lemma RollbackLives(chains: Chains, rules: Rules, cfg: AssignmentConfig, steps: seq<Step>, s: Step)
    requires LiveIsIndexed(chains, rules, cfg, steps) && s.act.RollsBack? && StepFits(chains, rules, cfg, steps, s)
    ensures LiveIsIndexed(chains, rules, cfg, steps + [s])
  {
    hide Live, IndexedBy, HeightsFit, EventsIn, HasSource, Orderly;
    var c, block := s.chainId, s.act.block;
    var indexed := IndexedBy(chains, steps, c);
    var live := Live(OpsOf(chains, rules, steps));
    StepParts(chains, rules, steps, s);
    WithoutKeeps(live, c, block, cfg);
    CutEvents(rules, c, chains(c).startBlock, indexed, block - chains(c).startBlock);
    forall d
      ensures d in Without(live, c, block) <==> d in EventsIn(rules, IndexedBy(chains, steps + [s], d.meta.chainId))
    {
      assert d in live <==> d in EventsIn(rules, IndexedBy(chains, steps, d.meta.chainId));
    }
    forall d | d in Live(OpsOf(chains, rules, steps + [s]))
      ensures HasSource(rules, cfg, steps + [s], d)
    {
      SourceStays(rules, cfg, steps, s, d);
    }
  }

  // ---- Order ----

  lemma OrderlyAppend(a: seq<Event>, b: seq<Event>, cfg: AssignmentConfig)
    requires Orderly(a, cfg) && Orderly(b, cfg)
    requires forall d, e :: d in a && e in b ==> Compatible(d, e, cfg)
    ensures Orderly(a + b, cfg)
  {
    hide Compatible;
    var all := a + b;
    forall i, j | 0 <= i < j < |all|
      ensures Compatible(all[i], all[j], cfg)
    {
      if j < |a| {
        assert all[i] == a[i] && all[j] == a[j];
      } else if i >= |a| {
        assert all[i] == b[i - |a|] && all[j] == b[j - |a|];
      } else {
        assert all[i] in a && all[j] in b;
      }
    }
  }

  /** Events of one world are compatible if the first is of a lower block. */
  lemma LowerIsCompatible(rules: Rules, c: nat, w: World, cfg: AssignmentConfig, m: nat, n: nat, d: Event, e: Event)
    requires WorldFits(rules, c, w, cfg) && m < n && d in EventsOf(rules, w(m)) && e in EventsOf(rules, w(n))
    ensures Compatible(d, e, cfg)
  {
    hide EventsOf, BlocksInOrder, RowOf;
    assert AgreeOnKey(d, e);
    RowSource(d);
    RowSource(e);
  }

  lemma BlockIsOrderly(rules: Rules, c: nat, w: World, cfg: AssignmentConfig, n: nat)
    requires WorldFits(rules, c, w, cfg)
    ensures Orderly(EventsOf(rules, w(n)), cfg)
  {
    hide EventsOf, RowOf, InOrder;
    var events := EventsOf(rules, w(n));
    forall i, j | 0 <= i < j < |events|
      ensures Compatible(events[i], events[j], cfg)
    {
      assert AssignedInOrder(events[i], events[j], cfg);
      assert events[i] in events && events[j] in events;
      assert AgreeOnKey(events[i], events[j]);
    }
  }

  /** Consecutive blocks of one world are orderly. */
  lemma {:induction false} BlocksAreOrderly(rules: Rules, c: nat, w: World, cfg: AssignmentConfig, from: nat, end: nat)
    requires WorldFits(rules, c, w, cfg) && from <= end
    ensures Orderly(EventsIn(rules, HashesBetween(w, from, end)), cfg)
    decreases end
  {
    hide EventsOf, Orderly, Compatible, WorldFits;
    if from < end {
      var lower := HashesBetween(w, from, end - 1);
      assert HashesBetween(w, from, end)[..end - 1 - from] == lower;
      BlocksAreOrderly(rules, c, w, cfg, from, end - 1);
      BlockIsOrderly(rules, c, w, cfg, end - 1);
      EventsOfHashes(rules, w, from, end - 1);
      forall d, e | d in EventsIn(rules, lower) && e in EventsOf(rules, w(end - 1))
        ensures Compatible(d, e, cfg)
      {
        var m :| from <= m < end - 1 && d in EventsOf(rules, w(m));
        LowerIsCompatible(rules, c, w, cfg, m, end - 1, d, e);
      }
      OrderlyAppend(EventsIn(rules, lower), EventsOf(rules, w(end - 1)), cfg);
    } else {
      NothingIsOrderly(rules, w, from, cfg);
    }
  }

  lemma NothingIsOrderly(rules: Rules, w: World, from: nat, cfg: AssignmentConfig)
    ensures Orderly(EventsIn(rules, HashesBetween(w, from, from)), cfg)
  {
  }

  /** A surviving event is compatible with every event of a commit that fits. */
  lemma SurvivorIsCompatible(chains: Chains, rules: Rules, cfg: AssignmentConfig, steps: seq<Step>, s: Step, d: Event,
                             e: Event, n: nat)
    requires LiveIsIndexed(chains, rules, cfg, steps) && StepFits(chains, rules, cfg, steps, s) && s.act.Commits?
    requires forall i :: 0 <= i < |steps| ==> StepsApart(rules, steps[i], s, cfg)
    requires d in Live(OpsOf(chains, rules, steps)) && s.act.from <= n && e in EventsOf(rules, s.act.world(n))
    ensures Compatible(d, e, cfg)
  {
    hide Live, IndexedBy, EventsIn, EventsOf, Compatible, HeightsFit, WorldFits;
    var w, chain, indexed := s.act.world, chains(s.chainId), IndexedBy(chains, steps, s.chainId);
    if d.meta.chainId == s.chainId {
      EventsInMember(rules, indexed);
      var i :| 0 <= i < |indexed| && d in EventsOf(rules, indexed[i]);
      LowerIsCompatible(rules, s.chainId, w, cfg, chain.startBlock + i, n, d, e);
    } else {
      assert HasSource(rules, cfg, steps, d);
      var j, m :| 0 <= j < |steps| && IsSource(rules, cfg, steps[j], m, d);
      assert StepsApart(rules, steps[j], s, cfg);
    }
  }

  /** At every point of a fleet run that fits, what survives is orderly. */
  lemma {:induction false} FleetIsOrderly(chains: Chains, rules: Rules, cfg: AssignmentConfig, steps: seq<Step>)
    requires FleetFits(chains, rules, cfg, steps)
    ensures OrderlyHistory(OpsOf(chains, rules, steps), cfg) && Orderly(Live(OpsOf(chains, rules, steps)), cfg)
  {
    hide FleetFits, Orderly, StepFits, StepsApart, LiveIsIndexed;
    if steps == [] {
      NoEventsOrderly(cfg);
    } else {
      var n := |steps| - 1;
      FleetSplit(chains, rules, cfg, steps);
      FleetIsOrderly(chains, rules, cfg, steps[..n]);
      FleetLives(chains, rules, cfg, steps[..n]);
      assert steps == steps[..n] + [steps[n]];
      StepIsOrderly(chains, rules, cfg, steps[..n], steps[n]);
    }
  }

  lemma NoEventsOrderly(cfg: AssignmentConfig)
    ensures Orderly([], cfg)
  {
  }

  lemma StepIsOrderly(chains: Chains, rules: Rules, cfg: AssignmentConfig, steps: seq<Step>, s: Step)
    requires LiveIsIndexed(chains, rules, cfg, steps) && StepFits(chains, rules, cfg, steps, s)
    requires forall i :: 0 <= i < |steps| ==> StepsApart(rules, steps[i], s, cfg)
    requires Orderly(Live(OpsOf(chains, rules, steps)), cfg)
    ensures Orderly(Live(OpsOf(chains, rules, steps + [s])), cfg)
  {
    hide Live, IndexedBy, EventsIn, EventsOf, Compatible, WorldFits, Orderly, LiveIsIndexed, StepsApart, IsCurrent;
    StepParts(chains, rules, steps, s);
    var live := Live(OpsOf(chains, rules, steps));
    match s.act
    case Opens =>
    case Commits(w, from, end, _) =>
      BlocksAreOrderly(rules, s.chainId, w, cfg, from, end);
      EventsOfHashes(rules, w, from, end);
      forall d, e | d in live && e in EventsIn(rules, HashesBetween(w, from, end))
        ensures Compatible(d, e, cfg)
      {
        var n :| from <= n < end && e in EventsOf(rules, w(n));
        SurvivorIsCompatible(chains, rules, cfg, steps, s, d, e, n);
      }
      OrderlyAppend(live, EventsIn(rules, HashesBetween(w, from, end)), cfg);
    case RollsBack(block) =>
      WithoutKeeps(live, s.chainId, block, cfg);
  }

  // ---- The tables ----

  /** After every transaction of a fleet run that fits, whatever the order in which the chains' transactions
      interleave and whatever is rolled back: the rows of every chain are exactly those of the blocks it has indexed
      (signature rows aside), and the six columns of every accepted row are the sorted fold of all assignments
      stored for it. */
  lemma FleetKeepsTables(chains: Chains, rules: Rules, cfg: AssignmentConfig, steps: seq<Step>)
    requires FleetFits(chains, rules, cfg, steps)
    ensures var db := TablesOf(chains, rules, cfg, steps);
      && ViewOk(db, cfg)
      && forall c :: HoldsExactly(db, c, EventsIn(rules, IndexedBy(chains, steps, c)))
  {
    hide FleetFits, OrderlyHistory, Live, EventsIn, IndexedBy, RowOf, ViewOk, HasSource, HeightsFit;
    var ops := OpsOf(chains, rules, steps);
    FleetIsOrderly(chains, rules, cfg, steps);
    FleetLives(chains, rules, cfg, steps);
    HistoryTracksLive(ops, cfg);
    var db := TablesOf(chains, rules, cfg, steps);
    forall c
      ensures HoldsExactly(db, c, EventsIn(rules, IndexedBy(chains, steps, c)))
    {
      IndexedEvents(rules, c, chains(c).startBlock, IndexedBy(chains, steps, c));
      TracksExactly(db, Live(ops), EventsIn(rules, IndexedBy(chains, steps, c)), c, cfg);
    }
  }

  lemma IndexedEvents(rules: Rules, c: nat, start: nat, indexed: seq<string>)
    requires HeightsFit(rules, c, start, indexed)
    ensures forall e :: e in EventsIn(rules, indexed) ==> e.meta.chainId == c
  {
    hide EventsIn, EventsOf, BlockFits;
    EventsInMember(rules, indexed);
    forall e | e in EventsIn(rules, indexed)
      ensures e.meta.chainId == c
    {
      var i :| 0 <= i < |indexed| && e in EventsOf(rules, indexed[i]);
      assert BlockFits(rules, c, start + i, indexed[i]);
      BlockHeight(rules, c, start + i, indexed[i], e);
    }
  }

  /** Tables that hold exactly some events hold, for one chain, exactly those of it. */
  lemma TracksExactly(db: Db, live: seq<Event>, own: seq<Event>, c: nat, cfg: AssignmentConfig)
    requires Tracks(db, live, cfg)
    requires forall d: Event :: d.meta.chainId == c ==> (d in live <==> d in own)
    requires forall d :: d in own ==> d.meta.chainId == c
    ensures HoldsExactly(db, c, own)
  {
    hide RowOf, ViewOk;
    forall r: Row | !r.SignatureRow? && r.chainId == c
      ensures Stored(db, r) <==> r in RowsOf(own)
    {
      if Stored(db, r) {
        var e :| e in live && RowOf(e) == r;
        RowSource(e);
        assert e in own;
        var i :| 0 <= i < |own| && own[i] == e;
        assert RowsOf(own)[i] == r;
      }
      if r in RowsOf(own) {
        var i :| 0 <= i < |own| && RowsOf(own)[i] == r;
        RowSource(own[i]);
        assert own[i] in own && own[i] in live;
      }
    }
  }
}
