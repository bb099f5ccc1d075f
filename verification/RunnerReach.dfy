/** Which heights the reorg check looks at and what it makes of every kind of reply, stated on heights and replies alone
    (src/runner.rs). */
module RunnerReach {
  import opened Prelude
  import opened Assignments
  import opened DatabaseSpec
  import opened RunnerSpec
  import opened RunnerSafety
  import opened RunnerRuns
  import opened RunnerAnchors

  // ---- Header lists ----

  /** The header list answers for every height of the range. */
  predicate Answers<T>(page: Page<T>, from: nat, to: nat) {
    match (page.servedStart, page.servedEnd)
    case (Some(start), Some(end)) => start <= from && to <= end && !page.incomplete
    case _ => false
  }

  /** The last header of this height in the list. */
  predicate IsLastHeader(items: seq<Block>, i: nat, n: nat) {
    i < |items| && items[i].number == n && forall j :: i < j < |items| ==> items[j].number != n
  }

  /** The list has a header of this height with this hash and parent, and none of the height after it. */
  ghost predicate Heads(items: seq<Block>, n: nat, hash: string, parent: Option<string>) {
    exists i: nat :: IsLastHeader(items, i, n) && items[i].hash == hash && items[i].parentHash == parent
  }

  lemma {:induction false} BlockMapIs(items: seq<Block>)
    ensures forall n, i: nat :: IsLastHeader(items, i, n) ==> n in BlockMap(items) && BlockMap(items)[n] == items[i]
    ensures forall n :: n in BlockMap(items) ==> exists i: nat :: IsLastHeader(items, i, n)
    ensures forall n :: n in BlockMap(items) <==> HasHeader(items, n)
  {
    if items != [] {
      var m := |items| - 1;
      var before := items[..m];
      BlockMapIs(before);
      forall n, i: nat | IsLastHeader(items, i, n)
        ensures n in BlockMap(items) && BlockMap(items)[n] == items[i]
      {
        if i < m {
          assert items[m].number != n;
          assert IsLastHeader(before, i, n);
        }
      }
      forall n | n in BlockMap(items)
        ensures exists i: nat :: IsLastHeader(items, i, n)
      {
        if n == items[m].number {
          assert IsLastHeader(items, m, n);
        } else {
          assert n in BlockMap(before);
          var i: nat :| IsLastHeader(before, i, n);
          assert IsLastHeader(items, i, n);
        }
      }
    }
  }

  // ---- The reorg check ----

  /** A height the check must look at: indexed, as recent as the window reaches back, and above the finalized head. */
  predicate InReach(chain: ChainConfig, runtime: RuntimeConfig, next: nat, finalized: nat, n: nat) {
    chain.startBlock <= n < next && n + runtime.reorgWindowBlocks >= next && n > finalized
  }

  ghost predicate LowestInReach(chain: ChainConfig, runtime: RuntimeConfig, next: nat, finalized: nat, from: nat) {
    && InReach(chain, runtime, next, finalized, from)
    && forall n :: InReach(chain, runtime, next, finalized, n) ==> from <= n
  }

  /** The stored anchor of this height names the hash the header list has for it. */
  ghost predicate Confirmed(anchors: map<AnchorKey, BlockAnchor>, items: seq<Block>, chain: ChainConfig, n: nat) {
    var k := AnchorKey(chain.chainId, chain.dataset, n);
    k in anchors && exists parent :: Heads(items, n, anchors[k].blockHash, parent)
  }

  lemma WindowIsReach(chain: ChainConfig, runtime: RuntimeConfig, next: nat, finalized: nat, n: nat)
    ensures InReach(chain, runtime, next, finalized, n) ==> WindowStart(chain, runtime, next, finalized) <= n < next
    ensures next <= U64_MAX && WindowStart(chain, runtime, next, finalized) <= n < next ==>
              InReach(chain, runtime, next, finalized, n)
  {
  }

  lemma LastHeaderHeads(items: seq<Block>, n: nat)
    requires HasHeader(items, n)
    ensures n in BlockMap(items) && Heads(items, n, BlockMap(items)[n].hash, BlockMap(items)[n].parentHash)
  {
    BlockMapIs(items);
    var i: nat :| IsLastHeader(items, i, n);
  }

  lemma ConfirmedIff(anchors: map<AnchorKey, BlockAnchor>, items: seq<Block>, chain: ChainConfig, n: nat)
    ensures Confirmed(anchors, items, chain, n) <==> !Mismatch(anchors, BlockMap(items), chain, n)
  {
    BlockMapIs(items);
    var k := AnchorKey(chain.chainId, chain.dataset, n);
    if !Mismatch(anchors, BlockMap(items), chain, n) {
      var i: nat :| IsLastHeader(items, i, n);
      assert Heads(items, n, anchors[k].blockHash, items[i].parentHash);
    }
  }

  /** Exactly what a check decides, for every server, table and checkpoint. Without a height in reach there is
      nothing to ask. Otherwise it asks for the headers from the lowest height in reach to the checkpoint; a reply
      that does not answer for all of them leaves it undecided, and one that does decides for the lowest height in
      reach whose anchor it does not confirm. */
  lemma CheckDecides(chain: ChainConfig, runtime: RuntimeConfig, server: Server,
                     anchors: map<AnchorKey, BlockAnchor>, next: nat, finalized: nat, from: nat)
    requires 0 < next <= U64_MAX && server.finalized(AtWindowCheck) == Some(finalized)
    requires LowestInReach(chain, runtime, next, finalized, from)
    ensures var check, reply := CheckWindow(chain, runtime, server, anchors, next),
        server.blocks(AtWindowCheck, from, next - 1);
      && (check == CheckFailed <==> reply.None?)
      && (check == Unverified <==> reply.Some? && !Answers(reply.value, from, next - 1))
      && (check == Clean <==>
            && reply.Some? && Answers(reply.value, from, next - 1)
            && forall n :: InReach(chain, runtime, next, finalized, n) ==>
                 Confirmed(anchors, reply.value.items, chain, n))
      && (forall b :: check == RollBackTo(b) <==>
            && reply.Some? && Answers(reply.value, from, next - 1)
            && InReach(chain, runtime, next, finalized, b) && !Confirmed(anchors, reply.value.items, chain, b)
            && forall n :: InReach(chain, runtime, next, finalized, n) && n < b ==>
                 Confirmed(anchors, reply.value.items, chain, n))
  {
    hide Confirmed, Mismatch, BlockMap, InReach;
    forall n: nat
      ensures InReach(chain, runtime, next, finalized, n)
         <==> WindowStart(chain, runtime, next, finalized) <= n < next
    {
      WindowIsReach(chain, runtime, next, finalized, n);
    }
    assert InReach(chain, runtime, next, finalized, WindowStart(chain, runtime, next, finalized));
    assert WindowStart(chain, runtime, next, finalized) == from;
    var reply := server.blocks(AtWindowCheck, from, next - 1);
    if reply.Some? {
      forall n: nat
        ensures Confirmed(anchors, reply.value.items, chain, n)
           <==> !Mismatch(anchors, BlockMap(reply.value.items), chain, n)
      {
        ConfirmedIff(anchors, reply.value.items, chain, n);
      }
    }
  }

  lemma NothingToCheck(chain: ChainConfig, runtime: RuntimeConfig, server: Server,
                       anchors: map<AnchorKey, BlockAnchor>, next: nat)
    requires next <= U64_MAX
    ensures next == 0 ==> CheckWindow(chain, runtime, server, anchors, next) == Clean
    ensures next > 0 && server.finalized(AtWindowCheck).None? ==>
              CheckWindow(chain, runtime, server, anchors, next) == CheckFailed
    ensures server.finalized(AtWindowCheck).Some?
            && (forall n :: !InReach(chain, runtime, next, server.finalized(AtWindowCheck).value, n)) ==>
              CheckWindow(chain, runtime, server, anchors, next) == Clean
  {
    if next > 0 && server.finalized(AtWindowCheck).Some? {
      var from := WindowStart(chain, runtime, next, server.finalized(AtWindowCheck).value);
      WindowIsReach(chain, runtime, next, server.finalized(AtWindowCheck).value, from);
    }
  }

  /** A completed check has seen every change in reach: if it finds nothing, all those blocks are current, and the
      height it returns is not above any of them that is not. */
  lemma ReachIsChecked(db: Db, chain: ChainConfig, runtime: RuntimeConfig, server: Server, rules: Rules, w: World,
                       blocks: seq<IndexedBlock>, next: nat, finalized: nat, n: nat)
    requires MarksOk(db, chain, blocks, next) && Honest(server, rules, w)
    requires server.finalized(AtWindowCheck) == Some(finalized)
    requires chain.startBlock <= n < next && n + runtime.reorgWindowBlocks >= next && n > finalized
    requires blocks[n - chain.startBlock].hash != w(n)
    ensures var check := CheckWindow(chain, runtime, server, db.anchors, next);
      check != Clean && (check.RollBackTo? ==> chain.startBlock <= check.block <= n)
  {
    hide CheckWindow, Honest;
    WindowIsReach(chain, runtime, next, finalized, n);
    CheckSeesItsWindow(db, chain, runtime, server, rules, w, blocks, next);
    var check := CheckWindow(chain, runtime, server, db.anchors, next);
    if check.RollBackTo? {
      var cut := blocks[..check.block - chain.startBlock];
      assert forall i :: 0 <= i < |cut| ==> cut[i] == blocks[i];
    }
  }

  // ---- Runs in which only recent blocks change ----

  /** The check of the i-th pass completed, and every indexed block it found replaced was recent and not finalized. */
  ghost predicate OnlyRecentChanges(chain: ChainConfig, runtime: RuntimeConfig, rules: Rules, cfg: AssignmentConfig,
                                    run: seq<PassRun>, i: int)
    requires 0 <= i < |run|
  {
    var p, blocks := run[i], BlocksOf(chain, runtime, rules, cfg, run[..i]);
    && ResultOf(chain, runtime, rules, cfg, p).verified
    && forall k :: 0 <= k < |blocks| && blocks[k].hash != p.world(chain.startBlock + k) ==>
         && chain.startBlock + k + runtime.reorgWindowBlocks >= NextBlock(chain, p.before)
         && p.server.finalized(AtWindowCheck).Some?
         && chain.startBlock + k > p.server.finalized(AtWindowCheck).value
  }

  lemma RecentChangesAreChecked(chain: ChainConfig, runtime: RuntimeConfig, rules: Rules, cfg: AssignmentConfig,
                                run: seq<PassRun>, i: int)
    requires 0 <= i < |run| && OnlyRecentChanges(chain, runtime, rules, cfg, run, i)
    requires HonestRun(chain, runtime, rules, cfg, run)
    ensures CheckedPass(chain, runtime, rules, cfg, run, i)
  {
    hide ResultOf, BlocksOf, HonestRun, Honest, AnchorsTrue, MarksOk, WindowStart;
    var p, blocks := run[i], BlocksOf(chain, runtime, rules, cfg, run[..i]);
    var next := NextBlock(chain, p.before);
    forall k | 0 <= k < |blocks| && chain.startBlock + k < CheckedFrom(chain, runtime, p.server, next)
      ensures blocks[k].hash == p.world(chain.startBlock + k)
    {
      if blocks[k].hash != p.world(chain.startBlock + k) {
        WindowIsReach(chain, runtime, next, p.server.finalized(AtWindowCheck).value, chain.startBlock + k);
      }
    }
  }

  /** As long as only recent blocks above the finalized head are replaced, and no pass commits a block behind an
      incomplete check, the rows of the chain are exactly those of the current world after every checked pass: whatever
      the reorgs, short serves and failures. */
  lemma RecentReorgsAreHealed(chain: ChainConfig, runtime: RuntimeConfig, rules: Rules, cfg: AssignmentConfig,
                              run: seq<PassRun>)
    requires run != [] && GoodRun(chain, runtime, rules, cfg, run)
    requires forall i :: 0 <= i < |run| ==>
               OnlyRecentChanges(chain, runtime, rules, cfg, run, i) || IdlePass(chain, runtime, rules, cfg, run, i)
    requires OnlyRecentChanges(chain, runtime, rules, cfg, run, |run| - 1)
    ensures var p := run[|run| - 1];
      var r := ResultOf(chain, runtime, rules, cfg, p);
      && UpToDate(BlocksOf(chain, runtime, rules, cfg, run), chain.startBlock, p.world)
      && chain.startBlock <= r.next
      && HoldsExactly(r.db, chain.chainId, EventsIn(rules, HashesBetween(p.world, chain.startBlock, r.next)))
  {
    hide ResultOf, BlocksOf, GoodRun, HonestRun, OnlyRecentChanges, CheckedPass, IdlePass, SettledPass, HoldsExactly,
        UpToDate;
    GoodRunIsHonest(chain, runtime, rules, cfg, run);
    forall i | 0 <= i < |run|
      ensures SafePass(chain, runtime, rules, cfg, run, i)
    {
      if OnlyRecentChanges(chain, runtime, rules, cfg, run, i) {
        RecentChangesAreChecked(chain, runtime, rules, cfg, run, i);
      }
    }
    RecentChangesAreChecked(chain, runtime, rules, cfg, run, |run| - 1);
    CompleteChecksAreSafe(chain, runtime, rules, cfg, run);
    SafeRunIsCurrent(chain, runtime, rules, cfg, run);
  }
}
