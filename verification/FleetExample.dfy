/** The reorged run of `RunnerExample` is disciplined, and on its own it is a fleet run: the assumptions of the
    interleaving theorem can be met although a message moves from one block to another. */
module FleetExample {
  import opened DatabaseSpec
  import opened RunnerSpec
  import opened RunnerSafety
  import opened RunnerRuns
  import opened RunnerExample
  import opened Fleet
  import opened FleetRuns
  import opened Interleaving

  lemma ExampleWorldFits(one: string, two: string)
    requires one != "m2" && two != "m1" && !(one == "m1" && two == "m2")
    ensures WorldFits(RULES, 1, WorldOf(one, two), CFG)
  {
    hide WorldOk, OneRowPerKey;
    WorldIsFine(one, two);
    forall n: nat
      ensures |EventsOf(RULES, WorldOf(one, two)(n))| <= 1
    {
      EventsOfHash(WorldOf(one, two)(n));
    }
  }

  /** The run with complete checks and a reorg is disciplined. */
  lemma ReorgedRunIsDisciplined() returns (run: seq<PassRun>)
    ensures |run| == 2 && run[0].world(1) != run[1].world(1)
    ensures Disciplined(CHAIN, WIDE, RULES, CFG, run)
    ensures MessageStored(ResultOf(CHAIN, WIDE, RULES, CFG, run[1]).db, 2)
    ensures ViewOk(ResultOf(CHAIN, WIDE, RULES, CFG, run[1]).db, CFG)
  {
    hide ResultOf, GoodRun, EveryCommitSafe, WorldFits, Honest, ServerOf, MessageStored, ViewOk;
    run := ReorgedRunIsGood();
    ExampleWorldFits("m1", "a2");
    ExampleWorldFits("b1", "m2");
    ServerIsHonest(IN_ONE, 1, true);
    ServerIsHonest(IN_TWO, 2, true);
    forall i | 0 <= i < |run|
      ensures StartsAlone(CHAIN, WIDE, RULES, CFG, run, i) && TruePass(CHAIN, RULES, CFG, run[i])
    {
    }
    RunKeepsView(CHAIN, WIDE, RULES, CFG, run);
  }

  const CHAINS: Chains := (c: nat) => CHAIN.(chainId := c)

  /** Chain 1 makes these passes, all others none. */
  ghost function OnlyFirst(run: seq<PassRun>): Members {
    (c: nat) => Indexer(WIDE, if c == 1 then run else [])
  }

  /** Chain 1 with this run and every other chain idle are a fleet run. */
  lemma ReorgedFleet() returns (run: seq<PassRun>, steps: seq<Step>)
    ensures |run| == 2 && FleetRun(CHAINS, RULES, CFG, OnlyFirst(run), steps)
  {
    hide Disciplined, ActsOfPass, Apart, Contributes;
    run := ReorgedRunIsDisciplined();
    steps := StepsOf(1, ActsOfRun(CHAIN, WIDE, RULES, CFG, run));
    forall c: nat
      ensures Contributes(CHAINS, RULES, CFG, OnlyFirst(run), steps, c)
    {
      ContributesAlone(run, c);
    }
  }

  lemma ContributesAlone(run: seq<PassRun>, c: nat)
    requires Disciplined(CHAIN, WIDE, RULES, CFG, run)
    ensures Contributes(CHAINS, RULES, CFG, OnlyFirst(run), StepsOf(1, ActsOfRun(CHAIN, WIDE, RULES, CFG, run)), c)
  {
    hide Disciplined, ActsOfPass;
    var acts := ActsOfRun(CHAIN, WIDE, RULES, CFG, run);
    if c == 1 {
      OwnAlone(1, acts);
    } else {
      NothingOfOthers(c, acts);
      IdleIsDisciplined(CHAINS(c));
    }
  }

  lemma {:induction false} NothingOfOthers(c: nat, acts: seq<Act>)
    requires c != 1
    ensures Own(StepsOf(1, acts), c) == []
  {
    if acts != [] {
      var n := |acts| - 1;
      assert StepsOf(1, acts)[..n] == StepsOf(1, acts[..n]);
      NothingOfOthers(c, acts[..n]);
    }
  }

  lemma IdleIsDisciplined(chain: ChainConfig)
    ensures Disciplined(chain, WIDE, RULES, CFG, [])
  {
  }
}
