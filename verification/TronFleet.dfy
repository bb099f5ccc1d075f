/** The Tron recovery beside the indexer (src/tron_recovery/storage.rs): it writes the same tables, and as long as the
    contents of Tron's assignments are distinct, each of its commits is exactly one transaction of a fleet run. */
module TronFleet {
  import opened Prelude
  import opened Schema
  import opened Assignments
  import opened DatabaseSpec
  import opened History
  import opened RunnerSpec
  import opened RunnerSafety
  import opened TronScan
  import opened TronStorage
  import opened Fleet
  import opened FleetRuns
  import opened Interleaving

  /** No assignment occurs again in a later block under another place. */
  ghost predicate ContentsDistinct(rules: Rules, w: World) {
    forall m, n, d, e :: m < n && d in EventsOf(rules, w(m)) && e in EventsOf(rules, w(n)) ==> !SameContent(RowOf(d), e)
  }

  lemma {:induction false} NothingToPreserve(rows: map<RowKey, Row>, events: seq<Event>)
    requires forall e :: e in events ==> PreservedEvent(rows, e) == Some(e)
    ensures Preserved(rows, events) == Some(events)
  {
    hide PreservedEvent;
    if events != [] {
      var n := |events| - 1;
      assert events == events[..n] + [events[n]];
      NothingToPreserve(rows, events[..n]);
    }
  }

  /** Every stored row comes from an event that survives. */
  lemma StoredIsLive(db: Db, live: seq<Event>, k: RowKey, cfg: AssignmentConfig) returns (d: Event)
    requires Tracks(db, live, cfg) && k in db.rows && !db.rows[k].SignatureRow?
    ensures d in live && RowOf(d) == db.rows[k] && KeyOfRow(db.rows[k]) == k
  {
    hide RowOf, ViewOf;
    assert Stored(db, db.rows[k]);
    d :| d in live && RowOf(d) == db.rows[k];
  }

  /** No stored row has the key of a message that is still to be committed. */
  lemma AcceptedIsNew(chains: Chains, rules: Rules, cfg: AssignmentConfig, steps: seq<Step>, s: Step, e: Event, n: nat)
    requires LiveIsIndexed(chains, rules, cfg, steps) && StepFits(chains, rules, cfg, steps, s) && s.act.Commits?
    requires forall i :: 0 <= i < |steps| ==> StepsApart(rules, steps[i], s, cfg)
    requires Tracks(TablesOf(chains, rules, cfg, steps), Live(OpsOf(chains, rules, steps)), cfg)
    requires e.MessageAccepted? && s.act.from <= n && e in EventsOf(rules, s.act.world(n))
    ensures AcceptedKey(e.msgHash) !in TablesOf(chains, rules, cfg, steps).rows
  {
    hide Tracks, LiveIsIndexed, StepFits, StepsApart, Live, TablesOf, EventsOf;
    var db, live := TablesOf(chains, rules, cfg, steps), Live(OpsOf(chains, rules, steps));
    forall k | k in db.rows && k.table == AcceptedTable
      ensures k.id != e.msgHash
    {
      KeyedByTable(db, live, k, cfg);
      var d := StoredIsLive(db, live, k, cfg);
      SurvivorIsCompatible(chains, rules, cfg, steps, s, d, e, n);
      SurvivorIsOther(chains, rules, cfg, steps, s, d, e, n);
    }
  }

  lemma KeyedByTable(db: Db, live: seq<Event>, k: RowKey, cfg: AssignmentConfig)
    requires Tracks(db, live, cfg) && k in db.rows
    ensures KeyOfRow(db.rows[k]) == k
  {
    hide ViewOf;
  }

  /** A surviving event of the chain is of a lower block than any still to be committed. */
  lemma SurvivorIsLower(chains: Chains, rules: Rules, cfg: AssignmentConfig, steps: seq<Step>, s: Step, d: Event,
                        n: nat)
    returns (m: nat)
    requires LiveIsIndexed(chains, rules, cfg, steps) && StepFits(chains, rules, cfg, steps, s) && s.act.Commits?
    requires d in Live(OpsOf(chains, rules, steps)) && s.act.from <= n && d.meta.chainId == s.chainId
    ensures m < n && d in EventsOf(rules, s.act.world(m))
  {
    hide Live, IndexedBy, EventsIn, EventsOf, HeightsFit, WorldFits, RowOf, HasSource;
    var w, chain, indexed := s.act.world, chains(s.chainId), IndexedBy(chains, steps, s.chainId);
    EventsInMember(rules, indexed);
    var i :| 0 <= i < |indexed| && d in EventsOf(rules, indexed[i]);
    assert indexed[i] == w(chain.startBlock + i);
    m := chain.startBlock + i;
  }

  /** So no surviving event has a row of such a block. */
  lemma SurvivorIsOther(chains: Chains, rules: Rules, cfg: AssignmentConfig, steps: seq<Step>, s: Step, d: Event,
                        e: Event, n: nat)
    requires LiveIsIndexed(chains, rules, cfg, steps) && StepFits(chains, rules, cfg, steps, s) && s.act.Commits?
    requires d in Live(OpsOf(chains, rules, steps)) && s.act.from <= n && e in EventsOf(rules, s.act.world(n))
    requires !RowOf(e).SignatureRow?
    ensures RowOf(d) != RowOf(e)
  {
    hide LiveIsIndexed, StepFits, Live, EventsOf, RowOf;
    RowSource(e);
    RowSource(d);
    FittingWorld(chains, rules, cfg, steps, s);
    EventHeight(rules, s.chainId, s.act.world, n, e);
    if d.meta.chainId == s.chainId {
      var m := SurvivorIsLower(chains, rules, cfg, steps, s, d, n);
      EventHeight(rules, s.chainId, s.act.world, m, d);
    }
  }

  lemma EventHeight(rules: Rules, c: nat, w: World, n: nat, e: Event)
    requires WorldOk(rules, c, w) && e in EventsOf(rules, w(n))
    ensures e.meta.chainId == c && e.meta.blockNumber == n
  {
    hide EventsOf;
  }

  lemma FittingWorld(chains: Chains, rules: Rules, cfg: AssignmentConfig, steps: seq<Step>, s: Step)
    requires StepFits(chains, rules, cfg, steps, s) && s.act.Commits?
    ensures s.act.from <= s.act.end && WorldOk(rules, s.chainId, s.act.world)
  {
    hide WorldOk, OneRowPerKey, BlocksInOrder, IndexedBy;
  }

  /** No stored assignment has the content of one that is still to be committed. */
  lemma AssignedIsNew(chains: Chains, rules: Rules, cfg: AssignmentConfig, steps: seq<Step>, s: Step, e: Event, n: nat)
    requires LiveIsIndexed(chains, rules, cfg, steps) && StepFits(chains, rules, cfg, steps, s) && s.act.Commits?
    requires s.chainId == CHAIN_ID && ContentsDistinct(rules, s.act.world)
    requires Tracks(TablesOf(chains, rules, cfg, steps), Live(OpsOf(chains, rules, steps)), cfg)
    requires e.MessageAssigned? && s.act.from <= n && e in EventsOf(rules, s.act.world(n))
    ensures MatchingIds(TablesOf(chains, rules, cfg, steps).rows, e) == {}
  {
    hide Tracks, LiveIsIndexed, StepFits, Live, TablesOf, EventsOf;
    var db, live := TablesOf(chains, rules, cfg, steps), Live(OpsOf(chains, rules, steps));
    forall k | k in db.rows && db.rows[k].AssignedRow? && db.rows[k].chainId == CHAIN_ID
      ensures !SameContent(db.rows[k], e)
    {
      var d := StoredIsLive(db, live, k, cfg);
      RowSource(d);
      var m := SurvivorIsLower(chains, rules, cfg, steps, s, d, n);
      assert d in EventsOf(rules, s.act.world(m));
    }
  }

  /** Each commit of the recovery is the next transaction of the fleet run: nothing stored is preserved or refused. */
  lemma RecoveryIsStep(chains: Chains, rules: Rules, cfg: AssignmentConfig, members: Members, steps: seq<Step>, k: nat)
    requires FleetRun(chains, rules, cfg, members, steps) && k < |steps|
    requires steps[k].chainId == CHAIN_ID && members(CHAIN_ID).Recovery? && steps[k].act.Commits?
    requires chains(CHAIN_ID).dataset == DATASET && ContentsDistinct(rules, steps[k].act.world)
    ensures var act := steps[k].act;
      RecoveryCommit(TablesOf(chains, rules, cfg, steps[..k]), EventsIn(rules, HashesOf(act.world, act.from, act.end)),
                     act.end, cfg)
      == Some(TablesOf(chains, rules, cfg, steps[..k + 1]))
  {
    hide FleetRun, FleetFits, TablesOf, StepFits, StepsApart, LiveIsIndexed, Tracks, Live, EventsIn, EventsOf,
        Committed, PreservedEvent, ContentsDistinct, OrderlyHistory, ActOf;
    var before, s := steps[..k], steps[k];
    var db, events := TablesOf(chains, rules, cfg, before), EventsIn(rules,
                                                                     HashesOf(s.act.world, s.act.from, s.act.end));
    FleetRunFits(chains, rules, cfg, members, steps);
    StepIsAct(chains, rules, cfg, members, steps, k);
    StepInFleet(chains, rules, cfg, steps, k);
    RecoveryHasNoAnchors(chains, rules, cfg, members, steps, k);
    forall e | e in events
      ensures PreservedEvent(db.rows, e) == Some(e)
    {
      NewEvent(chains, rules, cfg, before, s, e);
    }
    NothingToPreserve(db.rows, events);
    assert steps[..k + 1][..k] == before && steps[..k + 1][k] == s;
    OneMoreStep(chains, rules, cfg, steps[..k + 1]);
  }

  lemma NewEvent(chains: Chains, rules: Rules, cfg: AssignmentConfig, steps: seq<Step>, s: Step, e: Event)
    requires LiveIsIndexed(chains, rules, cfg, steps) && StepFits(chains, rules, cfg, steps, s) && s.act.Commits?
    requires forall i :: 0 <= i < |steps| ==> StepsApart(rules, steps[i], s, cfg)
    requires s.chainId == CHAIN_ID && ContentsDistinct(rules, s.act.world)
    requires Tracks(TablesOf(chains, rules, cfg, steps), Live(OpsOf(chains, rules, steps)), cfg)
    requires e in EventsIn(rules, HashesOf(s.act.world, s.act.from, s.act.end))
    ensures PreservedEvent(TablesOf(chains, rules, cfg, steps).rows, e) == Some(e)
  {
    hide TablesOf, StepsApart, LiveIsIndexed, Tracks, Live, EventsIn, EventsOf, ContentsDistinct, StepFits;
    FittingWorld(chains, rules, cfg, steps, s);
    EventsOfHashes(rules, s.act.world, s.act.from, s.act.end);
    var n :| s.act.from <= n < s.act.end && e in EventsOf(rules, s.act.world(n));
    if e.MessageAccepted? {
      AcceptedIsNew(chains, rules, cfg, steps, s, e, n);
    } else if e.MessageAssigned? {
      AssignedIsNew(chains, rules, cfg, steps, s, e, n);
    }
  }

  /** What the fleet results say of one step. */
  lemma StepInFleet(chains: Chains, rules: Rules, cfg: AssignmentConfig, steps: seq<Step>, k: nat)
    requires FleetFits(chains, rules, cfg, steps) && k < |steps|
    ensures LiveIsIndexed(chains, rules, cfg, steps[..k]) && StepFits(chains, rules, cfg, steps[..k], steps[k])
    ensures forall i :: 0 <= i < |steps[..k]| ==> StepsApart(rules, steps[..k][i], steps[k], cfg)
    ensures Tracks(TablesOf(chains, rules, cfg, steps[..k]), Live(OpsOf(chains, rules, steps[..k])), cfg)
  {
    hide StepFits, StepsApart, LiveIsIndexed, Tracks, OrderlyHistory, Live;
    FleetPrefix(chains, rules, cfg, steps, k);
    FleetLives(chains, rules, cfg, steps[..k]);
    FleetIsOrderly(chains, rules, cfg, steps[..k]);
    HistoryTracksLive(OpsOf(chains, rules, steps[..k]), cfg);
  }

  lemma RecoveryHasNoAnchors(chains: Chains, rules: Rules, cfg: AssignmentConfig, members: Members, steps: seq<Step>,
                             k: nat)
    requires FleetRun(chains, rules, cfg, members, steps) && k < |steps|
    requires members(steps[k].chainId).Recovery? && steps[k].act.Commits?
    ensures steps[k].act.anchors == []
  {
    hide MemberFits, MembersApart, ActsOfRun;
    var c := steps[k].chainId;
    assert Contributes(chains, rules, cfg, members, steps, c);
    OwnPrefix(steps, k, c);
    var own := Own(steps, c);
    assert steps[k].act in own;
    NoAnchors(chains(c).startBlock, members(c).world, members(c).ends);
  }

  lemma {:induction false} NoAnchors(start: nat, w: World, ends: seq<nat>)
    ensures forall act :: act in ActsOfRecovery(start, w, ends) && act.Commits? ==> act.anchors == []
  {
    if ends != [] {
      NoAnchors(start, w, ends[..|ends| - 1]);
    }
  }
}
