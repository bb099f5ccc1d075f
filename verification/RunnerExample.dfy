/** Three runs of a chain on which a reorg moves one message from block 1 to block 2 (src/runner.rs): with complete
    checks the rows stay exact; a height that goes away during an incomplete check and returns loses its message;
    and a window that slides past a stale block leaves its row. */
module RunnerExample {
  import opened Prelude
  import opened Schema
  import opened Assignments
  import opened DatabaseSpec
  import opened History
  import opened RunnerSpec
  import opened RunnerSafety
  import opened RunnerRuns
  import opened RunnerAnchors
  import opened RunnerReach

  const CHAIN := ChainConfig(1, "evm.logs", 0, 10, Latest)
  const CFG := AssignmentConfig([], [])

  /** The one message, as accepted in block `n`. */
  function Message(n: nat): Event {
    MessageAccepted(Metadata("1", 1, n, None, 0, "0xt", 0, 0, "0xc", None), "0xm", "0xc", 0, 1, "0xs", 46, "0xd", 0,
                    "0x")
  }

  function Contents(hash: string): seq<Log> {
    if hash == "m1" then [Log(1, Some(hash), None, "")] else if hash == "m2" then [Log(2, Some(hash), None, "")] else []
  }

  const RULES := Rules(Contents, (log: Log) => Some([Message(log.blockNumber)]))

  /** The blocks at heights 1 and 2; all others never change. */
  function WorldOf(one: string, two: string): World {
    n => if n == 1 then one else if n == 2 then two else "0"
  }

  /** The message is in block 1, in block 2, or gone. */
  const IN_ONE := WorldOf("m1", "a2")
  const IN_TWO := WorldOf("b1", "m2")
  const GONE := WorldOf("b1", "c2")

  function HeaderAt(w: World, n: nat): Block {
    Block(n, w(n), None)
  }

  function Headers(w: World, from: nat, to: nat): seq<Block> {
    if from <= to then seq(to - from + 1, i requires 0 <= i < to - from + 1 => HeaderAt(w, from + i)) else []
  }

  function Served<T>(items: seq<T>, from: nat, to: nat, incomplete: bool): Option<Page<T>> {
    if from <= to < U64_MAX then
      var start: u64, end: u64 := from, to;
      Some(Page(items, Some(start), Some(end), incomplete))
    else None
  }

  /** Serves every range of the world; block 0 is final. The window query is complete or not. */
  function ServerOf(w: World, latest: nat, complete: bool): Server {
    Server(Some(latest),
           _ => Some(0),
           (from: nat, to: nat) => Served(LogsBetween(RULES, w, from, to + 1), from, to, false),
           (ask: Ask, from: nat, to: nat) => Served(Headers(w, from, to), from, to, ask.AtWindowCheck? && !complete),
           true,
           _ => true)
  }

  lemma HeadersHold(w: World, from: nat, to: nat)
    ensures HonestBlocks(Headers(w, from, to), w)
    ensures forall n :: from <= n <= to ==> HasHeader(Headers(w, from, to), n)
  {
    var headers := Headers(w, from, to);
    forall b | b in headers
      ensures b.hash == w(b.number)
    {
      var i :| 0 <= i < |headers| && headers[i] == b;
      assert b == HeaderAt(w, from + i);
    }
    forall n | from <= n <= to
      ensures HasHeader(headers, n)
    {
      assert headers[n - from] == HeaderAt(w, n);
    }
  }

  lemma ServerIsHonest(w: World, latest: nat, complete: bool)
    ensures Honest(ServerOf(w, latest, complete), RULES, w)
    ensures RangeHeadsUpTo(ServerOf(w, latest, complete), 0) && CheckReadsFrom(ServerOf(w, latest, complete), 0)
  {
    var server := ServerOf(w, latest, complete);
    forall ask: Ask, from: nat, to: nat | server.blocks(ask, from, to).Some?
      ensures HonestBlocks(server.blocks(ask, from, to).value.items, w)
    {
      HeadersHold(w, from, to);
      assert server.blocks(ask, from, to)
          == Served(Headers(w, from, to), from, to, ask.AtWindowCheck? && !complete);
    }
  }

  // ---- One pass ----

  lemma {:induction false} EverythingDecodes(logs: seq<Log>)
    ensures DecodeAll(logs, RULES.decode).Some?
  {
    if logs != [] {
      EverythingDecodes(logs[..|logs| - 1]);
    }
  }

  lemma {:induction false} EveryHeightAnchored(from: nat, end: nat, blocks: map<nat, Block>)
    requires forall n :: from <= n < end ==> n in blocks
    ensures AnchorsFromBlocks(CHAIN, from, end, blocks).Some?
    decreases end
  {
    if from < end {
      EveryHeightAnchored(from, end - 1, blocks);
    }
  }

  lemma RangeIsCommitted(w: World, latest: nat, complete: bool, db: Db, from: nat, to: nat)
    requires from <= to < U64_MAX
    ensures var done := ProcessRange(CHAIN, ServerOf(w, latest, complete), RULES.decode, CFG, db, from, to);
      done.RangeDone? && done.next == to + 1 && !done.stop
  {
    hide Committed, DecodeAll, LogsBetween, AnchorsFromBlocks, Headers;
    var logs := LogsBetween(RULES, w, from, to + 1);
    EverythingDecodes(logs);
    var first := Max(from, 1);
    if first <= to {
      HeadersHold(w, first, to);
      BlockMapIsHonest(Headers(w, first, to), w);
      forall n | first <= n < to + 1
        ensures n in BlockMap(Headers(w, first, to))
      {
        assert HasHeader(Headers(w, first, to), n);
      }
      EveryHeightAnchored(first, to + 1, BlockMap(Headers(w, first, to)));
    }
  }

  lemma PollReachesLatest(w: World, latest: nat, complete: bool, db: Db, from: nat)
    requires latest < 10
    ensures Poll(CHAIN, ServerOf(w, latest, complete), RULES.decode, CFG, db, from, latest).next
        == Max(from, latest + 1)
  {
    hide ProcessRange;
    if from <= latest {
      RangeIsCommitted(w, latest, complete, db, from, latest);
    }
  }

  // ---- Runs ----

  ghost function After(runtime: RuntimeConfig, run: seq<PassRun>): Db {
    if run == [] then EMPTY_DB else ResultOf(CHAIN, runtime, RULES, CFG, run[|run| - 1]).db
  }

  /** One more pass in this world. */
  ghost function Then(runtime: RuntimeConfig, run: seq<PassRun>, w: World, latest: nat, complete: bool): seq<PassRun> {
    run + [PassRun(After(runtime, run), w, ServerOf(w, latest, complete))]
  }

  ghost function Blocks(runtime: RuntimeConfig, run: seq<PassRun>): seq<IndexedBlock> {
    BlocksOf(CHAIN, runtime, RULES, CFG, run)
  }

  function Zeros(n: nat): seq<nat> {
    seq(n, _ => 0)
  }

  ghost predicate Fine(runtime: RuntimeConfig, run: seq<PassRun>) {
    GoodRun(CHAIN, runtime, RULES, CFG, run) && MonotoneHeads(run, Zeros(|run|))
  }

  lemma EventsOfHash(hash: string)
    ensures EventsOf(RULES, hash) == if hash == "m1" then [Message(1)] else if hash == "m2" then [Message(2)] else []
  {
    var logs := Contents(hash);
    if logs != [] {
      assert logs[..0] == [] && DecodeAll([], RULES.decode) == Some([]);
      assert [] + [Message(logs[0].blockNumber)] == [Message(logs[0].blockNumber)];
    }
  }

  lemma WorldIsFine(one: string, two: string)
    requires one != "m2" && two != "m1" && !(one == "m1" && two == "m2")
    ensures WorldOk(RULES, 1, WorldOf(one, two)) && OneRowPerKey(RULES, WorldOf(one, two))
  {
    hide EventsOf, RowOf;
    var w := WorldOf(one, two);
    forall n: nat
      ensures EventsOf(RULES, w(n)) == if n == 1 && one == "m1" then [Message(1)]
                                       else if n == 2 && two == "m2" then [Message(2)] else []
    {
      EventsOfHash(w(n));
    }
    assert forall m: nat, n: nat, d, e :: d in EventsOf(RULES, w(m)) && e in EventsOf(RULES, w(n)) ==> d == e;
  }

  lemma EmptyRunIsFine(runtime: RuntimeConfig)
    ensures Fine(runtime, []) && Blocks(runtime, []) == []
  {
  }

  /** One more pass keeps the run fine. */
  lemma ThenIsFine(runtime: RuntimeConfig, run: seq<PassRun>, w: World, latest: nat, complete: bool)
    requires Fine(runtime, run) && WorldOk(RULES, 1, w) && OneRowPerKey(RULES, w)
    ensures Fine(runtime, Then(runtime, run, w, latest, complete))
  {
    hide ResultOf, WorldOk, OneRowPerKey, Honest, MonotoneHeads, HonestPass, GoodPass;
    var all := Then(runtime, run, w, latest, complete);
    HeadsStayZero(runtime, run, w, latest, complete);
    LastIsFine(runtime, run, w, latest, complete);
    forall i | 0 <= i < |all|
      ensures HonestPass(CHAIN, runtime, RULES, CFG, all, i) && GoodPass(CHAIN, runtime, RULES, CFG, all, i)
    {
      if i < |run| {
        assert HonestPass(CHAIN, runtime, RULES, CFG, run, i) && GoodPass(CHAIN, runtime, RULES, CFG, run, i);
        EarlierIsFine(runtime, run, w, latest, complete, i);
      }
    }
  }

  lemma EarlierIsFine(runtime: RuntimeConfig, run: seq<PassRun>, w: World, latest: nat, complete: bool, i: nat)
    requires i < |run| && HonestPass(CHAIN, runtime, RULES, CFG, run, i) && GoodPass(CHAIN, runtime, RULES, CFG, run, i)
    ensures var all := Then(runtime, run, w, latest, complete);
      HonestPass(CHAIN, runtime, RULES, CFG, all, i) && GoodPass(CHAIN, runtime, RULES, CFG, all, i)
  {
    hide ResultOf, WorldOk, OneRowPerKey, Honest, NeverMarked, NeverIndexed, MarksUntouched, RowsUntouched;
  }

  lemma LastIsFine(runtime: RuntimeConfig, run: seq<PassRun>, w: World, latest: nat, complete: bool)
    requires Fine(runtime, run) && WorldOk(RULES, 1, w) && OneRowPerKey(RULES, w)
    ensures var all := Then(runtime, run, w, latest, complete);
      HonestPass(CHAIN, runtime, RULES, CFG, all, |run|) && GoodPass(CHAIN, runtime, RULES, CFG, all, |run|)
  {
    hide ResultOf, WorldOk, OneRowPerKey, Honest, NeverMarked, NeverIndexed, MarksUntouched, RowsUntouched, Valid,
        HoldsBlocks, BlocksOk, ServerOf, HonestRun, GoodRun, MonotoneHeads;
    ServerIsHonest(w, latest, complete);
    Unchanged(After(runtime, run));
    if run != [] {
      RunRows(CHAIN, runtime, RULES, CFG, run);
    } else {
      EmptyIsNew();
    }
  }

  lemma HeadsStayZero(runtime: RuntimeConfig, run: seq<PassRun>, w: World, latest: nat, complete: bool)
    requires MonotoneHeads(run, Zeros(|run|))
    ensures var all := Then(runtime, run, w, latest, complete);
      MonotoneHeads(all, Zeros(|all|))
  {
    hide ResultOf, RangeHeadsUpTo, CheckReadsFrom, ServerOf;
    var all := Then(runtime, run, w, latest, complete);
    ServerIsHonest(w, latest, complete);
    assert forall i :: 0 <= i < |run| ==> all[i] == run[i];
  }

  lemma Unchanged(db: Db)
    ensures MarksUntouched(db, db, CHAIN) && (Valid(db) ==> RowsUntouched(db, db, CHAIN))
  {
  }

  lemma EmptyIsNew()
    ensures NeverMarked(EMPTY_DB, CHAIN) && NeverIndexed(EMPTY_DB, CHAIN)
  {
  }

  /** Where the check of the next pass starts looking. */
  function LookFrom(runtime: RuntimeConfig, next: nat): nat {
    Min(next, Max(SaturatingSub(next, runtime.reorgWindowBlocks), 1))
  }

  /** A check that is complete cuts at the lowest changed block of its window, one that is not cuts nothing. */
  ghost predicate CutsAt(runtime: RuntimeConfig, blocks: seq<IndexedBlock>, w: World, complete: bool, cut: nat) {
    && cut <= |blocks|
    && (if complete then
          && CurrentFrom(blocks[..cut], 0, w, LookFrom(runtime, |blocks|))
          && (cut < |blocks| ==> cut >= LookFrom(runtime, |blocks|) && blocks[cut].hash != w(cut))
        else cut == |blocks|)
  }

  lemma CutIsCurrent(runtime: RuntimeConfig, blocks: seq<IndexedBlock>, w: World, cut: nat)
    requires CutsAt(runtime, blocks, w, true, cut)
    ensures forall i :: LookFrom(runtime, |blocks|) <= i < cut ==> blocks[i].hash == w(i)
  {
    forall i | LookFrom(runtime, |blocks|) <= i < cut
      ensures blocks[i].hash == w(i)
    {
      assert blocks[..cut][i] == blocks[i];
    }
  }

  lemma CheckIsMade(runtime: RuntimeConfig, w: World, latest: nat, complete: bool,
                    anchors: map<AnchorKey, BlockAnchor>, next: nat)
    requires next < 10 && runtime.reorgWindowBlocks > 0
    ensures var r := CheckWindow(CHAIN, runtime, ServerOf(w, latest, complete), anchors, next);
      if next <= 1 then r == Clean else if complete then r.Clean? || r.RollBackTo? else r == Unverified
    ensures CheckedFrom(CHAIN, runtime, ServerOf(w, latest, complete), next) == LookFrom(runtime, next)
    ensures next > 0 ==>
              NoMissingHeader(ServerOf(w, latest, complete), CheckedFrom(CHAIN, runtime, ServerOf(w, latest, complete),
                                                                         next), next - 1)
  {
    hide Headers, FirstMismatch, BlockMap, HasHeader;
    var server, from := ServerOf(w, latest, complete), LookFrom(runtime, next);
    if next > 0 && from < next {
      HeadersHold(w, from, next - 1);
      assert server.blocks(AtWindowCheck, from, next - 1) == Served(Headers(w, from, next - 1), from, next - 1,
                                                                    !complete);
    }
  }

  /** What the next pass indexes. */
  lemma ThenBlocks(runtime: RuntimeConfig, run: seq<PassRun>, w: World, latest: nat, complete: bool) returns (cut: nat)
    requires Fine(runtime, run) && WorldOk(RULES, 1, w) && OneRowPerKey(RULES, w)
    requires latest < 10 && |Blocks(runtime, run)| < 10
    requires runtime.reorgWindowBlocks > 0 && runtime.headBufferBlocks == 0
    ensures var all := Then(runtime, run, w, latest, complete);
      var indexed := Blocks(runtime, run);
      && CutsAt(runtime, indexed, w, complete || |indexed| <= 1, cut)
      && Blocks(runtime, all) == Extended(indexed[..cut], w, cut, Max(cut, latest + 1))
      && ResultOf(CHAIN, runtime, RULES, CFG, all[|run|]).verified == (complete || |indexed| <= 1)
      && NextBlock(CHAIN, all[|run|].before) == |indexed|
  {
    hide ResultOf, WorldOk, OneRowPerKey, Honest, HonestRun, GoodRun, CheckWindow, CheckedFrom, ServerOf, MarksOk,
         AnchoredAbove, Poll, MonotoneHeads, CheckReadsFrom, RangeHeadsUpTo, NoMissingHeader, RolledBack, CurrentFrom;
    var server := ServerOf(w, latest, complete);
    var all := Then(runtime, run, w, latest, complete);
    var p, indexed := all[|run|], Blocks(runtime, run);
    assert all[..|run|] == run;
    ThenIsFine(runtime, run, w, latest, complete);
    ServerIsHonest(w, latest, complete);
    PassStart(runtime, run);
    CheckIsMade(runtime, w, latest, complete, Opened(CHAIN, p.before).anchors, |indexed|);
    RollsBackIff(Opened(CHAIN, p.before), CHAIN, runtime, server, RULES, w, indexed, |indexed|, 0);
    PassIsCheckThenPoll(CHAIN, runtime, RULES, CFG, p);
    var c := CheckedState(CHAIN, runtime, server, CFG, p.before);
    cut := c.next;
    ServerParts(w, latest, complete);
    PollReachesLatest(w, latest, complete, c.db, cut);
    NothingToLookAt(runtime, indexed, w);
    assert indexed[..|indexed|] == indexed;
  }

  lemma NothingToLookAt(runtime: RuntimeConfig, blocks: seq<IndexedBlock>, w: World)
    ensures |blocks| <= 1 ==> CurrentFrom(blocks, 0, w, LookFrom(runtime, |blocks|))
  {
  }

  lemma ServerParts(w: World, latest: nat, complete: bool)
    ensures ServerOf(w, latest, complete).latest == Some(latest) && ServerOf(w, latest, complete).rollbackCommits
  {
  }

  /** What the next pass starts with. */
  lemma PassStart(runtime: RuntimeConfig, run: seq<PassRun>)
    requires Fine(runtime, run)
    ensures var db, blocks := After(runtime, run), Blocks(runtime, run);
      && NextBlock(CHAIN, db) == |blocks|
      && MarksOk(Opened(CHAIN, db), CHAIN, blocks, |blocks|) && AnchoredAbove(Opened(CHAIN, db), CHAIN, |blocks|, 0)
  {
    hide ResultOf, GoodRun, HonestRun, MonotoneHeads, BlocksOf;
    if run == [] {
      EmptyIsNew();
      EmptyRunIsFine(runtime);
    } else {
      GoodRunIsHonest(CHAIN, runtime, RULES, CFG, run);
      RunMarks(CHAIN, runtime, RULES, CFG, run);
      RunKeepsAnchored(CHAIN, runtime, RULES, CFG, run, Zeros(|run|));
    }
  }

  // ---- The three runs ----

  const WIDE := RuntimeConfig(10, 0)
  const NARROW := RuntimeConfig(1, 0)

  lemma WorldsAreFine()
    ensures forall w :: w == IN_ONE || w == IN_TWO || w == GONE ==> WorldOk(RULES, 1, w) && OneRowPerKey(RULES, w)
  {
    WorldIsFine("m1", "a2");
    WorldIsFine("b1", "m2");
    WorldIsFine("b1", "c2");
  }

  /** The first pass indexes blocks 0 and 1 of the world with the message in block 1. */
  lemma FirstPass(runtime: RuntimeConfig) returns (run: seq<PassRun>)
    requires runtime.reorgWindowBlocks > 0 && runtime.headBufferBlocks == 0
    ensures run == Then(runtime, [], IN_ONE, 1, true) && Fine(runtime, run)
    ensures Blocks(runtime, run)
         == [IndexedBlock("0", [LaterBlock(IN_ONE, 1)]), IndexedBlock("m1", [])]
    ensures ResultOf(CHAIN, runtime, RULES, CFG, run[0]).verified
  {
    hide ResultOf, WorldOk, OneRowPerKey, Fine, BlocksOf;
    run := Then(runtime, [], IN_ONE, 1, true);
    WorldsAreFine();
    EmptyRunIsFine(runtime);
    ThenIsFine(runtime, [], IN_ONE, 1, true);
    var cut := ThenBlocks(runtime, [], IN_ONE, 1, true);
    TwoMore([], IN_ONE, 0);
    assert OneMore([], IN_ONE, 0) == [IndexedBlock("0", [])];
    assert [] + [LaterBlock(IN_ONE, 1)] == [LaterBlock(IN_ONE, 1)];
    assert OneMore([IndexedBlock("0", [])], IN_ONE, 1)[0] == IndexedBlock("0", [LaterBlock(IN_ONE, 1)]);
    assert OneMore([IndexedBlock("0", [])], IN_ONE, 1) == [IndexedBlock("0", [LaterBlock(IN_ONE, 1)]),
                                                           IndexedBlock("m1", [])];
  }

  lemma TwoMore(blocks: seq<IndexedBlock>, w: World, from: nat)
    ensures Extended(blocks, w, from, from) == blocks
    ensures Extended(blocks, w, from, from + 1) == OneMore(blocks, w, from)
    ensures Extended(blocks, w, from, from + 2) == OneMore(OneMore(blocks, w, from), w, from + 1)
  {
    assert Extended(blocks, w, from, from + 1) == OneMore(Extended(blocks, w, from, from), w, from);
    assert Extended(blocks, w, from, from + 2) == OneMore(Extended(blocks, w, from, from + 1), w, from + 1);
  }

  /** The row of the message of block `n` is stored. */
  ghost predicate MessageStored(db: Db, n: nat) {
    Stored(db, RowOf(Message(n)))
  }

  lemma MessageInBlock(hash: string, n: nat)
    requires n == 1 || n == 2
    ensures RowOf(Message(n)) in RowsOf(EventsOf(RULES, hash)) <==> hash == if n == 1 then "m1" else "m2"
    ensures KeyIn(EventsOf(RULES, hash), KeyOfRow(RowOf(Message(n)))) <==> hash == "m1" || hash == "m2"
  {
    EventsOfHash(hash);
    if hash == "m1" {
      assert RowsOf(EventsOf(RULES, hash))[0] == RowOf(Message(1)) && Message(1) in EventsOf(RULES, hash);
    }
    if hash == "m2" {
      assert RowsOf(EventsOf(RULES, hash))[0] == RowOf(Message(2)) && Message(2) in EventsOf(RULES, hash);
    }
  }

  /** The message of block `n` is stored exactly if some indexed block holds it and no later one carries its key. */
  lemma StoredMessage(runtime: RuntimeConfig, run: seq<PassRun>, n: nat)
    requires Fine(runtime, run) && run != [] && (n == 1 || n == 2)
    ensures MessageStored(After(runtime, run), n)
       <==> exists i :: 0 <= i < |Blocks(runtime, run)| && HoldsMessage(Blocks(runtime, run)[i], n)
  {
    hide ResultOf, GoodRun, BlocksOf, EventsOf, KeyIn, BlocksOk, Valid, MonotoneHeads, Survives, HoldsMessage;
    var r, blocks := RowOf(Message(n)), Blocks(runtime, run);
    RunRows(CHAIN, runtime, RULES, CFG, run);
    forall i | 0 <= i < |blocks|
      ensures Survives(RULES, blocks[i], r) <==> HoldsMessage(blocks[i], n)
    {
      SurvivingMessage(blocks[i], n);
    }
    assert MessageStored(After(runtime, run), n) <==> SurvivesIn(RULES, blocks, r);
  }

  lemma SurvivingMessage(b: IndexedBlock, n: nat)
    requires n == 1 || n == 2
    ensures Survives(RULES, b, RowOf(Message(n))) <==> HoldsMessage(b, n)
  {
    hide EventsOf, KeyIn, RowOf;
    MessageInBlock(b.hash, n);
    forall j | 0 <= j < |b.later|
      ensures KeyIn(EventsOf(RULES, LaterHash(b.later[j])), KeyOfRow(RowOf(Message(n))))
         <==> LaterHash(b.later[j]) == "m1" || LaterHash(b.later[j]) == "m2"
    {
      MessageInBlock(LaterHash(b.later[j]), n);
    }
  }

  predicate HoldsMessage(b: IndexedBlock, n: nat) {
    && b.hash == (if n == 1 then "m1" else "m2")
    && forall j :: 0 <= j < |b.later| ==> LaterHash(b.later[j]) != "m1" && LaterHash(b.later[j]) != "m2"
  }

  /** With complete checks: the second pass finds block 1 replaced, rolls it back, and indexes the message where it is
      now. All assumptions of the whole-run theorem hold although the message moved. */
  lemma ReorgedRunIsGood() returns (run: seq<PassRun>)
    ensures |run| == 2 && run[0].world(1) != run[1].world(1)
    ensures run == Then(WIDE, Then(WIDE, [], IN_ONE, 1, true), IN_TWO, 2, true)
    ensures GoodRun(CHAIN, WIDE, RULES, CFG, run) && EveryCommitSafe(CHAIN, WIDE, RULES, CFG, run)
    ensures forall i :: 0 <= i < 2 ==> OnlyRecentChanges(CHAIN, WIDE, RULES, CFG, run, i)
    ensures MessageStored(ResultOf(CHAIN, WIDE, RULES, CFG, run[0]).db, 1)
    ensures MessageStored(ResultOf(CHAIN, WIDE, RULES, CFG, run[1]).db, 2)
    ensures !MessageStored(ResultOf(CHAIN, WIDE, RULES, CFG, run[1]).db, 1)
  {
    hide ResultOf, WorldOk, OneRowPerKey, BlocksOf, GoodRun, MonotoneHeads, Stored, EveryCommitSafe, NextBlock,
        OnlyRecentChanges;
    WorldsAreFine();
    var one := FirstPass(WIDE);
    StoredMessage(WIDE, one, 1);
    assert HoldsMessage(Blocks(WIDE, one)[1], 1);
    run := Then(WIDE, one, IN_TWO, 2, true);
    ThenIsFine(WIDE, one, IN_TWO, 2, true);
    var cut := ThenBlocks(WIDE, one, IN_TWO, 2, true);
    CutIsCurrent(WIDE, Blocks(WIDE, one), IN_TWO, cut);
    assert Blocks(WIDE, one)[1].hash == "m1" && cut == 1;
    var kept := Blocks(WIDE, one)[..1];
    TwoMore(kept, IN_TWO, 1);
    assert Blocks(WIDE, run)[1].hash == "b1" && Blocks(WIDE, run)[2] == IndexedBlock("m2", []);
    assert HoldsMessage(Blocks(WIDE, run)[2], 2);
    StoredMessage(WIDE, run, 1);
    StoredMessage(WIDE, run, 2);
    BothChecked(one, run);
  }

  lemma BothChecked(one: seq<PassRun>, run: seq<PassRun>)
    requires |one| == 1 && run == Then(WIDE, one, IN_TWO, 2, true)
    requires |Blocks(WIDE, one)| == 2 && Blocks(WIDE, one)[0].hash == "0"
    requires ResultOf(CHAIN, WIDE, RULES, CFG, run[0]).verified && ResultOf(CHAIN, WIDE, RULES, CFG, run[1]).verified
    requires NextBlock(CHAIN, run[1].before) == 2
    ensures EveryCommitSafe(CHAIN, WIDE, RULES, CFG, run)
    ensures forall i :: 0 <= i < 2 ==> OnlyRecentChanges(CHAIN, WIDE, RULES, CFG, run, i)
  {
    hide ResultOf, BlocksOf, CheckedFrom, NextBlock;
    assert run[..1] == one && run[..0] == [];
    EmptyRunIsFine(WIDE);
    CheckIsMade(WIDE, IN_TWO, 2, true, map[], 2);
  }

  /** A height that goes away during an incomplete check and returns: every assumption of the whole-run theorem but
      `NoReturn` holds, the last check completes and everything indexed is current, but the message of block 1 is
      gone. */
  lemma FlappingRunLosesMessage() returns (run: seq<PassRun>)
    ensures |run| == 3 && run[0].world == run[2].world
    ensures GoodRun(CHAIN, WIDE, RULES, CFG, run)
    ensures ResultOf(CHAIN, WIDE, RULES, CFG, run[2]).verified && ResultOf(CHAIN, WIDE, RULES, CFG, run[2]).next == 3
    ensures UpToDate(BlocksOf(CHAIN, WIDE, RULES, CFG, run), 0, run[2].world)
    ensures RowOf(Message(1)) in RowsOf(EventsIn(RULES, HashesBetween(run[2].world, 0, 3)))
    ensures !MessageStored(ResultOf(CHAIN, WIDE, RULES, CFG, run[2]).db, 1)
  {
    hide ResultOf, WorldOk, OneRowPerKey, BlocksOf, GoodRun, MonotoneHeads, CheckedFrom, Stored, EventsIn, EventsOf;
    WorldsAreFine();
    var one := FirstPass(WIDE);
    var two := Then(WIDE, one, IN_TWO, 2, false);
    ThenIsFine(WIDE, one, IN_TWO, 2, false);
    var kept := ThenBlocks(WIDE, one, IN_TWO, 2, false);
    TwoMore(Blocks(WIDE, one), IN_TWO, 2);
    assert Blocks(WIDE, one)[..2] == Blocks(WIDE, one);
    run := Then(WIDE, two, IN_ONE, 2, true);
    ThenIsFine(WIDE, two, IN_ONE, 2, true);
    var cut := ThenBlocks(WIDE, two, IN_ONE, 2, true);
    CutIsCurrent(WIDE, Blocks(WIDE, two), IN_ONE, cut);
    assert Blocks(WIDE, two)[2].hash == "m2" && cut == 2;
    TwoMore(Blocks(WIDE, two)[..2], IN_ONE, 2);
    assert Blocks(WIDE, run)[1].hash == "m1" && Blocks(WIDE, run)[1].later[0] == LaterBlock(IN_TWO, 2);
    StoredMessage(WIDE, run, 1);
    GoodRunIsHonest(CHAIN, WIDE, RULES, CFG, run);
    RunMarks(CHAIN, WIDE, RULES, CFG, run);
    MessageInWorld(IN_ONE, 3);
  }

  lemma MessageInWorld(w: World, end: nat)
    requires end >= 2 && w(1) == "m1"
    ensures RowOf(Message(1)) in RowsOf(EventsIn(RULES, HashesBetween(w, 0, end)))
  {
    hide EventsIn;
    EventsOfHash("m1");
    EventsInMember(RULES, HashesBetween(w, 0, end));
    assert Message(1) in EventsOf(RULES, HashesBetween(w, 0, end)[1]);
    RowOfMember(EventsIn(RULES, HashesBetween(w, 0, end)), Message(1));
  }

  /** A window of one block that slides past a stale block during an incomplete check: the next check completes and
      reports nothing, block 1 is not current, and its row stays although the current world has no such message. */
  lemma BlindRunKeepsStaleRow() returns (run: seq<PassRun>)
    ensures |run| == 3 && run[1].world == run[2].world
    ensures GoodRun(CHAIN, NARROW, RULES, CFG, run)
    ensures ResultOf(CHAIN, NARROW, RULES, CFG, run[2]).verified
    ensures !UpToDate(BlocksOf(CHAIN, NARROW, RULES, CFG, run), 0, run[2].world)
    ensures forall n :: EventsOf(RULES, run[2].world(n)) == []
    ensures MessageStored(ResultOf(CHAIN, NARROW, RULES, CFG, run[2]).db, 1)
  {
    hide ResultOf, WorldOk, OneRowPerKey, BlocksOf, GoodRun, MonotoneHeads, CheckedFrom, Stored, EventsOf;
    WorldsAreFine();
    var one := FirstPass(NARROW);
    var two := Then(NARROW, one, GONE, 2, false);
    ThenIsFine(NARROW, one, GONE, 2, false);
    var kept := ThenBlocks(NARROW, one, GONE, 2, false);
    TwoMore(Blocks(NARROW, one), GONE, 2);
    assert Blocks(NARROW, one)[..2] == Blocks(NARROW, one);
    run := Then(NARROW, two, GONE, 2, true);
    ThenIsFine(NARROW, two, GONE, 2, true);
    var cut := ThenBlocks(NARROW, two, GONE, 2, true);
    assert cut == 3;
    TwoMore(Blocks(NARROW, two), GONE, 3);
    assert Blocks(NARROW, two)[..3] == Blocks(NARROW, two);
    var stale := Blocks(NARROW, run)[1];
    assert stale.hash == "m1" && stale.later == [LaterBlock(GONE, 2)];
    assert HoldsMessage(stale, 1);
    StoredMessage(NARROW, run, 1);
    forall n
      ensures EventsOf(RULES, GONE(n)) == []
    {
      EventsOfHash(GONE(n));
    }
  }
}
