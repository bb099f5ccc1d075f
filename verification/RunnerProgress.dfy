/** What becomes of every reply to a range, and how far a pass gets, stated on replies and heights alone
    (src/runner.rs, src/checkpoint.rs). */
module RunnerProgress {
  import opened Prelude
  import opened Schema
  import opened Assignments
  import opened DatabaseSpec
  import opened RunnerSpec
  import opened RunnerSafety
  import opened RunnerRuns
  import opened RunnerAnchors
  import opened RunnerReach
  import opened Planner

  // ---- Decoding ----

  /** The events are those of the logs one after another: each log's stand after those of the logs before it. */
  ghost predicate DecodedInOrder(logs: seq<Log>, decode: Decoder, events: seq<Event>) {
    exists starts: seq<nat> :: DecodedAt(logs, decode, events, starts)
  }

  ghost predicate DecodedAt(logs: seq<Log>, decode: Decoder, events: seq<Event>, starts: seq<nat>) {
    && |starts| == |logs| + 1 && starts[0] == 0 && starts[|logs|] == |events|
    && forall i :: 0 <= i < |logs| ==> IsShare(decode(logs[i]), events, starts[i], starts[i + 1])
  }

  ghost predicate IsShare(decoded: Option<seq<Event>>, events: seq<Event>, start: nat, end: nat) {
    start <= end <= |events| && decoded == Some(events[start..end])
  }

  lemma {:induction false} DecodeAllIff(logs: seq<Log>, decode: Decoder)
    ensures DecodeAll(logs, decode).None? <==> exists i :: 0 <= i < |logs| && decode(logs[i]).None?
    ensures DecodeAll(logs, decode).Some? ==> DecodedInOrder(logs, decode, DecodeAll(logs, decode).value)
  {
    hide DecodedAt;
    if logs == [] {
      NothingInOrder(logs, decode);
    } else {
      var n := |logs| - 1;
      var before := logs[..n];
      DecodeAllIff(before, decode);
      assert forall i :: 0 <= i < n ==> before[i] == logs[i];
      if DecodeAll(logs, decode).Some? {
        var starts :| DecodedAt(before, decode, DecodeAll(before, decode).value, starts);
        OneMoreLog(logs, decode, DecodeAll(before, decode).value, starts);
      }
    }
  }

  lemma NothingInOrder(logs: seq<Log>, decode: Decoder)
    requires logs == []
    ensures DecodedInOrder(logs, decode, [])
  {
    assert DecodedAt(logs, decode, [], [0]);
  }

  lemma OneMoreLog(logs: seq<Log>, decode: Decoder, events: seq<Event>, starts: seq<nat>)
    requires logs != [] && DecodedAt(logs[..|logs| - 1], decode, events, starts) && decode(logs[|logs| - 1]).Some?
    ensures DecodedInOrder(logs, decode, events + decode(logs[|logs| - 1]).value)
  {
    hide IsShare;
    var n := |logs| - 1;
    var all := events + decode(logs[n]).value;
    var more := starts + [|all|];
    forall i | 0 <= i < |logs|
      ensures IsShare(decode(logs[i]), all, more[i], more[i + 1])
    {
      if i < n {
        assert more[i] == starts[i] && more[i + 1] == starts[i + 1] && logs[..n][i] == logs[i];
        ShareOfLonger(decode(logs[i]), events, decode(logs[n]).value, starts[i], starts[i + 1]);
      } else {
        LastShare(decode(logs[n]), events);
      }
    }
    assert DecodedAt(logs, decode, all, more);
  }

  lemma ShareOfLonger(decoded: Option<seq<Event>>, events: seq<Event>, tail: seq<Event>, start: nat, end: nat)
    requires IsShare(decoded, events, start, end)
    ensures IsShare(decoded, events + tail, start, end)
  {
    assert (events + tail)[start..end] == events[start..end];
  }

  lemma LastShare(decoded: Option<seq<Event>>, events: seq<Event>)
    requires decoded.Some?
    ensures IsShare(decoded, events + decoded.value, |events|, |events| + |decoded.value|)
  {
    assert (events + decoded.value)[|events|..|events| + |decoded.value|] == decoded.value;
  }

  // ---- Anchors of a range ----

  /** Every height from the first to the last has a header. */
  ghost predicate HeadersFor(items: seq<Block>, first: nat, end: nat) {
    forall n :: first <= n < end ==> HasHeader(items, n)
  }

  /** One anchor for every height, in order, as the last header of the height has it. */
  ghost predicate AnchorsOf(anchors: seq<BlockAnchor>, chain: ChainConfig, items: seq<Block>, first: nat, end: nat) {
    && |anchors| == (if first <= end then end - first else 0)
    && forall i :: 0 <= i < |anchors| ==>
         && anchors[i].key == AnchorKey(chain.chainId, chain.dataset, first + i)
         && Heads(items, first + i, anchors[i].blockHash, anchors[i].parentHash)
  }

  lemma {:induction false} AnchorsFromBlocksIs(chain: ChainConfig, first: nat, end: nat, items: seq<Block>)
    ensures var r := AnchorsFromBlocks(chain, first, end, BlockMap(items));
      && (r.Some? <==> HeadersFor(items, first, end))
      && (r.Some? ==> AnchorsOf(r.value, chain, items, first, end))
    decreases end
  {
    hide BlockMap, HasHeader, Heads, IsLastHeader;
    if first < end {
      AnchorsFromBlocksIs(chain, first, end - 1, items);
      BlockMapIs(items);
      if HasHeader(items, end - 1) {
        LastHeaderHeads(items, end - 1);
      }
    }
  }

  /** A height of a protected range that is anchored: served, and above the finalized head. */
  predicate Unfinalized(from: nat, end: int, finalized: nat, n: nat) {
    from <= n <= end && n > finalized
  }

  ghost predicate LowestUnfinalized(from: nat, end: int, finalized: nat, first: nat) {
    Unfinalized(from, end, finalized, first) && forall n: nat :: Unfinalized(from, end, finalized, n) ==> first <= n
  }

  /** What a range is anchored with: on a chain that indexes finalized or durable blocks, what its logs name; on the
      others every served height above the finalized head, for which the headers are asked and must be complete. */
  ghost predicate Anchors(chain: ChainConfig, server: Server, from: nat, end: nat, logs: seq<Log>, r: AnchorResult) {
    if chain.finality.Finalized? || chain.finality.Durable? then
      r.AnchorsReady? && Increasing(r.anchors)
      && forall a :: a in r.anchors <==> exists i: nat :: NamedBy(chain, logs, i, a)
    else if server.finalized(AtRange(from)).None? then r == AnchorsFailed
    else
      var finalized := server.finalized(AtRange(from)).value;
      && ((forall n: nat :: !Unfinalized(from, end, finalized, n)) ==> r == AnchorsReady([]))
      && forall first :: LowestUnfinalized(from, end, finalized, first) ==>
           AnchorsFrom(chain, server.blocks(AtRange(from), first, end), first, end, r)
  }

  ghost predicate AnchorsFrom(chain: ChainConfig, reply: Option<Page<Block>>, first: nat, end: nat, r: AnchorResult) {
    if reply.None? then r == AnchorsFailed
    else if !Answers(reply.value, first, end) then r == AnchorsWaiting
    else if !HeadersFor(reply.value.items, first, end + 1) then r == AnchorsFailed
    else r.AnchorsReady? && AnchorsOf(r.anchors, chain, reply.value.items, first, end + 1)
  }

  lemma AnchorsForRangeIs(chain: ChainConfig, server: Server, from: nat, end: nat, logs: seq<Log>)
    requires end < U64_MAX
    ensures Anchors(chain, server, from, end, logs, AnchorsForRange(chain, server, from, end, logs))
  {
    hide Increasing, NamedBy, HeadersFor, AnchorsOf, AnchorsFromBlocks, BlockMap;
    LogAnchorsAreFirst(chain, logs);
    if UsesReorgProtection(chain.finality) && server.finalized(AtRange(from)).Some? {
      var finalized := server.finalized(AtRange(from)).value;
      var first := Max(from, SaturatingAdd(finalized, 1));
      assert first <= end ==> Unfinalized(from, end, finalized, first);
      if first <= end && server.blocks(AtRange(from), first, end).Some? {
        AnchorsFromBlocksIs(chain, first, end + 1, server.blocks(AtRange(from), first, end).value.items);
      }
    }
  }

  // ---- One range ----

  /** Where a served range ends: it is cut at the end of the request. */
  function ServedTo(page: Page<Log>, to: nat): nat
    requires page.servedEnd.Some?
  {
    if page.servedEnd.value <= to then page.servedEnd.value else to
  }

  ghost predicate Undecodable(page: Page<Log>, decode: Decoder) {
    exists i :: 0 <= i < |page.items| && decode(page.items[i]).None?
  }

  /** The range is anchored with these anchors, and committed with the events of its logs in order, if the transaction
      goes through. */
  ghost predicate Commits(chain: ChainConfig, server: Server, decode: Decoder, cfg: AssignmentConfig, db: Db, from: nat,
                          to: nat, page: Page<Log>, ready: AnchorResult, events: seq<Event>, r: RangeResult)
    requires page.servedEnd.Some?
  {
    var end := ServedTo(page, to);
    && Anchors(chain, server, from, end, page.items, ready) && DecodedInOrder(page.items, decode, events)
    && match ready
       case AnchorsFailed => r == RangeFailed
       case AnchorsWaiting => r == RangeIdle
       case AnchorsReady(anchors) =>
         r == if !server.rangeCommits(from) then RangeFailed
              else RangeDone(Committed(db, RowsOf(events), anchors, chain.chainId, chain.dataset, end + 1, cfg),
                             end + 1, page.incomplete || page.servedEnd.value < to)
  }

  /** What becomes of a range, for every reply. In particular a log that does not decode fails the whole range, and the
      poll stops at a page that is incomplete or ends early. */
  lemma RangeOutcome(chain: ChainConfig, server: Server, decode: Decoder, cfg: AssignmentConfig, db: Db, from: nat,
                     to: nat)
    ensures var r, reply := ProcessRange(chain, server, decode, cfg, db, from, to), server.logs(from, to);
      if reply.None? then r == RangeFailed
      else if reply.value.servedEnd.None? then r == RangeIdle
      else if reply.value.servedStart != Some(from) || Undecodable(reply.value, decode)
              || ServedTo(reply.value, to) >= U64_MAX then r == RangeFailed
      else exists ready, events ::
             Commits(chain, server, decode, cfg, db, from, to, reply.value, ready, events, r)
  {
    hide Anchors, DecodedInOrder, Committed, AnchorsForRange, DecodeAll;
    var reply := server.logs(from, to);
    if reply.Some? && reply.value.servedEnd.Some? {
      var page := reply.value;
      DecodeAllIff(page.items, decode);
      if ServedTo(page, to) < U64_MAX && page.servedStart == Some(from) && !Undecodable(page, decode) {
        AnchorsForRangeIs(chain, server, from, ServedTo(page, to), page.items);
        assert Commits(chain, server, decode, cfg, db, from, to, page,
                       AnchorsForRange(chain, server, from, ServedTo(page, to), page.items),
                       DecodeAll(page.items, decode).value,
                       ProcessRange(chain, server, decode, cfg, db, from, to));
      }
    }
  }

  // ---- How far a poll gets ----

  /** The server gives everything it takes to commit the whole range: all logs, which decode, the headers of its heights
      above the finalized head if the chain follows safe or latest blocks, and the commit. */
  ghost predicate Serves(chain: ChainConfig, server: Server, decode: Decoder, range: Range) {
    var reply := server.logs(range.from, range.to);
    && reply.Some? && reply.value.servedStart == Some(range.from)
    && reply.value.servedEnd.Some? && reply.value.servedEnd.value >= range.to
    && !Undecodable(reply.value, decode) && server.rangeCommits(range.from)
    && (chain.finality.Safe? || chain.finality.Latest? ==> ServesHeaders(server, range))
  }

  ghost predicate ServesHeaders(server: Server, range: Range) {
    server.finalized(AtRange(range.from)).Some? &&
    forall first :: LowestUnfinalized(range.from, range.to, server.finalized(AtRange(range.from)).value, first) ==>
      var reply := server.blocks(AtRange(range.from), first, range.to);
      reply.Some? && Answers(reply.value, first, range.to) && HeadersFor(reply.value.items, first, range.to + 1)
  }

  ghost predicate Complete(server: Server, range: Range) {
    var reply := server.logs(range.from, range.to);
    reply.Some? && !reply.value.incomplete
  }

  lemma AnchorsReadyIff(chain: ChainConfig, server: Server, range: Range, logs: seq<Log>)
    requires range.from <= range.to < U64_MAX
    ensures AnchorsForRange(chain, server, range.from, range.to, logs).AnchorsReady?
       <==> (chain.finality.Safe? || chain.finality.Latest? ==> ServesHeaders(server, range))
  {
    hide AnchorsForRange, Increasing, NamedBy, HeadersFor, Answers, AnchorsOf;
    AnchorsForRangeIs(chain, server, range.from, range.to, logs);
    var finalized := server.finalized(AtRange(range.from)).GetOr(0);
    var first := if finalized < range.from then range.from else finalized + 1;
    if first <= range.to {
      assert LowestUnfinalized(range.from, range.to, finalized, first);
    } else {
      assert forall n: nat :: !Unfinalized(range.from, range.to, finalized, n);
    }
  }

  /** A range is committed to its end if and only if the server gives all it takes, and it does not end at the largest
      height; then the poll goes on unless the page is marked incomplete. */
  lemma WholeRangeIff(chain: ChainConfig, server: Server, decode: Decoder, cfg: AssignmentConfig, db: Db, range: Range)
    requires range.from <= range.to <= U64_MAX
    ensures var r := ProcessRange(chain, server, decode, cfg, db, range.from, range.to);
      && (r.RangeDone? && r.next == range.to + 1 <==>
            Serves(chain, server, decode, range) && range.to < U64_MAX)
      && (r.RangeDone? && !r.stop <==>
            && Serves(chain, server, decode, range) && range.to < U64_MAX
            && Complete(server, range))
  {
    hide AnchorsForRange, DecodeAll, Committed, ServesHeaders, DecodedInOrder;
    var reply := server.logs(range.from, range.to);
    if reply.Some? {
      DecodeAllIff(reply.value.items, decode);
      if range.to < U64_MAX {
        AnchorsReadyIff(chain, server, range, reply.value.items);
      }
    }
  }

  /** Every range of the plan is served, and only the last may be marked incomplete. */
  ghost predicate PlanServed(chain: ChainConfig, server: Server, decode: Decoder, plan: seq<Range>) {
    && (forall i :: 0 <= i < |plan| ==> Serves(chain, server, decode, plan[i]))
    && (forall i :: 0 <= i < |plan| - 1 ==> Complete(server, plan[i]))
  }

  /** The exact reach of a poll: it gets past its target if and only if every planned range is served, and a full batch
      from the start of the last one, as well as the height after the target, is still a 64-bit number. */
  lemma {:induction false} PollReachesIff(chain: ChainConfig, server: Server, decode: Decoder, cfg: AssignmentConfig,
                                          db: Db, next: nat, target: nat)
    requires chain.batchSize > 0 && next <= target <= U64_MAX
    ensures var plan, polled := Planned(next, target, chain.batchSize),
        Poll(chain, server, decode, cfg, db, next, target);
      && plan != [] && polled.next <= target + 1
      && (polled.next > target <==>
            && PlanServed(chain, server, decode, plan) && target < U64_MAX
            && plan[|plan| - 1].from + chain.batchSize - 1 <= U64_MAX)
    decreases target + 1 - next
  {
    hide ProcessRange, Serves;
    PollFollowsPlan(chain, server, decode, cfg, db, next, target);
    if next + (chain.batchSize - 1) <= U64_MAX {
      var to := Min(next + (chain.batchSize - 1), target);
      WholeRangeIff(chain, server, decode, cfg, db, Range(next, to));
      var first, rest := Range(next, to), Planned(to + 1, target, chain.batchSize);
      assert Planned(next, target, chain.batchSize) == [first] + rest;
      PlanServedSplit(chain, server, decode, first, rest);
      if to < target {
        match ProcessRange(chain, server, decode, cfg, db, next, to)
        case RangeDone(db1, next1, stop) =>
          PollReachesIff(chain, server, decode, cfg, db1, to + 1, target);
        case _ =>
          PollReachesIff(chain, server, decode, cfg, db, to + 1, target);
      }
    }
  }

  lemma PlanServedSplit(chain: ChainConfig, server: Server, decode: Decoder, first: Range, rest: seq<Range>)
    ensures PlanServed(chain, server, decode, [first] + rest)
       <==> && Serves(chain, server, decode, first) && PlanServed(chain, server, decode, rest)
            && (rest == [] || Complete(server, first))
  {
    hide Serves;
    var plan := [first] + rest;
    assert forall i :: 0 <= i < |rest| ==> rest[i] == plan[i + 1];
    if PlanServed(chain, server, decode, plan) {
      assert plan[0] == first;
      forall i | 0 <= i < |rest|
        ensures Serves(chain, server, decode, rest[i])
        ensures i < |rest| - 1 ==> Complete(server, rest[i])
      {
        assert plan[i + 1] == rest[i];
      }
    }
    if Serves(chain, server, decode, first) && PlanServed(chain, server, decode, rest)
       && (rest == [] || Complete(server, first)) {
      forall i | 0 <= i < |plan|
        ensures Serves(chain, server, decode, plan[i])
        ensures i < |plan| - 1 ==> Complete(server, plan[i])
      {
        assert i > 0 ==> plan[i] == rest[i - 1];
      }
    }
  }

  /** The page of this range is marked incomplete or ends early. */
  ghost predicate EndsShort(server: Server, range: Range) {
    var reply := server.logs(range.from, range.to);
    reply.Some? && reply.value.servedEnd.Some? && (reply.value.incomplete || reply.value.servedEnd.value < range.to)
  }

  /** Why a poll ends before its target. It fails exactly where no range can be planned or the next range fails on the
      tables as they stand; otherwise the last range it asked for had nothing to commit yet, or its page ended short. */
  lemma {:induction false} PollEndsEarly(chain: ChainConfig, server: Server, decode: Decoder, cfg: AssignmentConfig,
                                         db: Db, next: nat, target: nat)
    ensures var polled := Poll(chain, server, decode, cfg, db, next, target);
      && (polled.next > target ==> polled.ok)
      && (!polled.ok ==>
            || chain.batchSize == 0 || polled.next + chain.batchSize - 1 > U64_MAX
            || ProcessRange(chain, server, decode, cfg, polled.db, polled.next,
                            Min(polled.next + chain.batchSize - 1, target)) == RangeFailed)
      && (polled.ok && polled.next <= target ==>
            && polled.queried != []
            && var last := polled.queried[|polled.queried| - 1];
               || EndsShort(server, last)
               || (last.from == polled.next
                   && ProcessRange(chain, server, decode, cfg, polled.db, last.from, last.to) == RangeIdle))
    decreases if next <= target then target - next + 1 else 0
  {
    hide ProcessRange, EndsShort;
    if next <= target && PlanNextRange(next, chain.batchSize).Some? {
      var to := Min(next + (chain.batchSize - 1), target);
      StopsShort(chain, server, decode, cfg, db, next, to);
      match ProcessRange(chain, server, decode, cfg, db, next, to)
      case RangeDone(db1, next1, stop) =>
        if !stop {
          PollEndsEarly(chain, server, decode, cfg, db1, next1, target);
        }
      case _ =>
    }
  }

  lemma StopsShort(chain: ChainConfig, server: Server, decode: Decoder, cfg: AssignmentConfig, db: Db, from: nat,
                   to: nat)
    ensures var r := ProcessRange(chain, server, decode, cfg, db, from, to);
      r.RangeDone? ==> (r.stop <==> EndsShort(server, Range(from, to)))
  {
    hide AnchorsForRange, DecodeAll, Committed;
  }

  // ---- How far a pass gets ----

  /** How far a pass goes after its check: to the head it read less the buffer and no further, and all the way
      exactly if the plan up to there is served. Where the head is below the buffer, that is height 0. */
  lemma PassReachesIff(chain: ChainConfig, runtime: RuntimeConfig, rules: Rules, cfg: AssignmentConfig, p: PassRun,
                       target: nat)
    requires chain.batchSize > 0 && p.server.latest.Some? && target <= U64_MAX
    requires target + runtime.headBufferBlocks == p.server.latest.value
             || (target == 0 && p.server.latest.value < runtime.headBufferBlocks)
    ensures var c, r := CheckedState(chain, runtime, p.server, cfg, p.before), ResultOf(chain, runtime, rules, cfg, p);
      && (c.failed || target < c.next ==> r.next == c.next && r.db == c.db && (r.ok <==> !c.failed))
      && (!c.failed && c.next <= target ==>
            var plan := Planned(c.next, target, chain.batchSize);
            && plan != [] && r.next <= target + 1
            && (r.next == target + 1 <==>
                  && PlanServed(chain, p.server, rules.decode, plan) && target < U64_MAX
                  && plan[|plan| - 1].from + chain.batchSize - 1 <= U64_MAX))
  {
    hide Poll, CheckWindow, PlanServed, Planned, Pass, RolledBack;
    var c := CheckedState(chain, runtime, p.server, cfg, p.before);
    PassIsCheckThenPoll(chain, runtime, rules, cfg, p);
    PassOk(chain, runtime, rules, cfg, p);
    assert SaturatingSub(p.server.latest.value, runtime.headBufferBlocks) == target;
    if c.next <= target {
      PollReachesIff(chain, p.server, rules.decode, cfg, c.db, c.next, target);
    } else {
      NothingToPoll(chain, p.server, rules.decode, cfg, c.db, c.next, target);
    }
  }

  lemma PassOk(chain: ChainConfig, runtime: RuntimeConfig, rules: Rules, cfg: AssignmentConfig, p: PassRun)
    requires p.server.latest.Some?
    ensures var c, r := CheckedState(chain, runtime, p.server, cfg, p.before), ResultOf(chain, runtime, rules, cfg, p);
      r.ok <==> !c.failed && Poll(chain, p.server, rules.decode, cfg, c.db, c.next,
                                  SaturatingSub(p.server.latest.value, runtime.headBufferBlocks)).ok
  {
    hide Poll, CheckWindow;
  }

  lemma NothingToPoll(chain: ChainConfig, server: Server, decode: Decoder, cfg: AssignmentConfig, db: Db, next: nat,
                      target: nat)
    requires next > target
    ensures Poll(chain, server, decode, cfg, db, next, target) == PollResult(db, next, true, [])
  {
  }

  // ---- Chains without reorg protection ----

  /** Both servers answer alike, except about headers and the finalized head. */
  ghost predicate SameLogs(s: Server, t: Server) {
    && s.latest == t.latest && (forall from, to :: s.logs(from, to) == t.logs(from, to))
    && (forall from :: s.rangeCommits(from) == t.rangeCommits(from))
  }

  lemma {:induction false} PollIgnoresHeaders(chain: ChainConfig, s: Server, t: Server, decode: Decoder,
                                              cfg: AssignmentConfig, db: Db, next: nat, target: nat)
    requires chain.finality.Finalized? || chain.finality.Durable?
    requires SameLogs(s, t)
    ensures Poll(chain, s, decode, cfg, db, next, target) == Poll(chain, t, decode, cfg, db, next, target)
    decreases if next <= target then target - next + 1 else 0
  {
    hide ProcessRange, SameLogs;
    if next <= target && PlanNextRange(next, chain.batchSize).Some? {
      var to := Min(next + (chain.batchSize - 1), target);
      RangeIgnoresHeaders(chain, s, t, decode, cfg, db, next, to);
      match ProcessRange(chain, s, decode, cfg, db, next, to)
      case RangeDone(db1, next1, stop) =>
        if !stop {
          PollIgnoresHeaders(chain, s, t, decode, cfg, db1, next1, target);
        }
      case _ =>
    }
  }

  lemma RangeIgnoresHeaders(chain: ChainConfig, s: Server, t: Server, decode: Decoder, cfg: AssignmentConfig, db: Db,
                            from: nat, to: nat)
    requires chain.finality.Finalized? || chain.finality.Durable?
    requires SameLogs(s, t)
    ensures ProcessRange(chain, s, decode, cfg, db, from, to) == ProcessRange(chain, t, decode, cfg, db, from, to)
  {
    hide DecodeAll, Committed, AnchorsFromLogs;
  }

  /** A chain that indexes finalized or durable blocks is never checked and never rolled back: its passes do not
      depend on anything the server says about headers and the finalized head, nor on whether a rollback would go
      through. */
  lemma UnprotectedPassIgnoresHeaders(chain: ChainConfig, runtime: RuntimeConfig, s: Server, t: Server, decode: Decoder,
                                      cfg: AssignmentConfig, db: Db)
    requires chain.finality.Finalized? || chain.finality.Durable?
    requires SameLogs(s, t)
    ensures Pass(chain, runtime, s, decode, cfg, db) == Pass(chain, runtime, t, decode, cfg, db)
    ensures !Pass(chain, runtime, s, decode, cfg, db).verified
  {
    hide Poll;
    if s.latest.Some? {
      PollIgnoresHeaders(chain, s, t, decode, cfg, Opened(chain, db), NextBlock(chain, db),
                         SaturatingSub(s.latest.value, runtime.headBufferBlocks));
    }
  }

  /** A chain that follows safe or latest blocks commits nothing in a pass whose check failed or whose rollback did
      not go through, and counts a pass as checked exactly if its check was decided and acted on. It polls on from
      its checkpoint after a check that passed or was left undecided, and from the one rolled back to otherwise. */
  lemma ProtectedPassIsChecked(chain: ChainConfig, runtime: RuntimeConfig, server: Server, decode: Decoder,
                               cfg: AssignmentConfig, db: Db)
    requires chain.finality.Safe? || chain.finality.Latest?
    ensures var check, r := CheckWindow(chain, runtime, server, db.anchors, NextBlock(chain, db)),
        Pass(chain, runtime, server, decode, cfg, db);
      && (r.verified <==> check == Clean || (check.RollBackTo? && server.rollbackCommits))
      && (check == CheckFailed || (check.RollBackTo? && !server.rollbackCommits) ==>
            !r.ok && r.queried == [] && r.db.rows == db.rows && r.db.view == db.view && r.db.anchors == db.anchors)
      && (server.latest.Some? ==>
            var target := SaturatingSub(server.latest.value, runtime.headBufferBlocks);
            && (check == Clean || check == Unverified ==>
                  && r.db == Poll(chain, server, decode, cfg, Opened(chain, db), NextBlock(chain, db), target).db
                  && r.next == Poll(chain, server, decode, cfg, Opened(chain, db), NextBlock(chain, db), target).next)
            && (check.RollBackTo? && server.rollbackCommits ==>
                  var back := RolledBack(Opened(chain, db), chain.chainId, chain.dataset, check.block, cfg);
                  && r.db == Poll(chain, server, decode, cfg, back, check.block, target).db
                  && r.next == Poll(chain, server, decode, cfg, back, check.block, target).next))
  {
    hide Poll, CheckWindow;
  }

  // ---- Nothing is skipped ----

  /** Every log of the block decodes. */
  ghost predicate Decodes(rules: Rules, hash: string) {
    forall log :: log in rules.contents(hash) ==> rules.decode(log).Some?
  }

  lemma {:induction false} LogOfRange(rules: Rules, w: World, from: nat, end: nat, n: nat, log: Log)
    requires from <= n < end && log in rules.contents(w(n))
    ensures log in LogsBetween(rules, w, from, end)
    decreases end
  {
    if n < end - 1 {
      LogOfRange(rules, w, from, end - 1, n, log);
    }
  }

  /** No poll passes a block with a log that does not decode. */
  lemma {:induction false} PollStopsAt(chain: ChainConfig, server: Server, rules: Rules, cfg: AssignmentConfig, db: Db,
                                       w: World, next: nat, target: nat, n: nat)
    requires Honest(server, rules, w) && !Decodes(rules, w(n)) && next <= n
    ensures Poll(chain, server, rules.decode, cfg, db, next, target).next <= n
    decreases if next <= target then target - next + 1 else 0
  {
    hide ProcessRange, Honest, Decodes;
    if next <= target && PlanNextRange(next, chain.batchSize).Some? {
      var to := Min(next + (chain.batchSize - 1), target);
      RangeStopsAt(chain, server, rules, cfg, db, w, next, to, n);
      match ProcessRange(chain, server, rules.decode, cfg, db, next, to)
      case RangeDone(db1, next1, stop) =>
        if !stop {
          PollStopsAt(chain, server, rules, cfg, db1, w, next1, target, n);
        }
      case _ =>
    }
  }

  lemma RangeStopsAt(chain: ChainConfig, server: Server, rules: Rules, cfg: AssignmentConfig, db: Db, w: World,
                     from: nat, to: nat, n: nat)
    requires Honest(server, rules, w) && !Decodes(rules, w(n)) && from <= n
    ensures var r := ProcessRange(chain, server, rules.decode, cfg, db, from, to);
      r.RangeDone? ==> r.next <= n
  {
    hide AnchorsForRange, Committed, DecodeAll, LogsBetween;
    var r := ProcessRange(chain, server, rules.decode, cfg, db, from, to);
    if r.RangeDone? && r.next > n {
      var page := server.logs(from, to).value;
      assert HonestLogs(page, rules, w, from, to);
      var log :| log in rules.contents(w(n)) && rules.decode(log).None?;
      LogOfRange(rules, w, from, r.next, n, log);
      assert log in page.items;
      DecodeAllIff(page.items, rules.decode);
    }
  }

  /** In every run, whatever fails and however often it is tried again: no block is indexed one of whose logs does not
      decode, and no log is skipped. */
  lemma {:induction false} IndexedBlocksDecode(chain: ChainConfig, runtime: RuntimeConfig, rules: Rules,
                                               cfg: AssignmentConfig, run: seq<PassRun>, i: nat)
    requires HonestRun(chain, runtime, rules, cfg, run) && i < |BlocksOf(chain, runtime, rules, cfg, run)|
    ensures Decodes(rules, BlocksOf(chain, runtime, rules, cfg, run)[i].hash)
  {
    hide ResultOf, HonestRun, Honest, AnchorsTrue, MarksOk, CheckedState, Decodes, SameTables, TablesAfter, Extended,
        UpToDate, CurrentBelow, CheckedFrom, LaterIn;
    var n := |run| - 1;
    HonestRunSplit(chain, runtime, rules, cfg, run);
    LastPassStart(chain, runtime, rules, cfg, run);
    var p, before := run[n], BlocksOf(chain, runtime, rules, cfg, run[..n]);
    var c, r := CheckedState(chain, runtime, p.server, cfg, p.before), ResultOf(chain, runtime, rules, cfg, p);
    CheckedMarks(chain, runtime, rules, cfg, p, before);
    PassShape(chain, runtime, rules, cfg, p, before);
    var cut := Below(before, c.next - chain.startBlock);
    ExtendedParts(cut, p.world, c.next, r.next);
    if i < |cut| {
      IndexedBlocksDecode(chain, runtime, rules, cfg, run[..n], i);
    } else if !Decodes(rules, p.world(chain.startBlock + i)) {
      PassStopsAt(chain, runtime, rules, cfg, p, chain.startBlock + i);
    }
  }

  lemma PassStopsAt(chain: ChainConfig, runtime: RuntimeConfig, rules: Rules, cfg: AssignmentConfig, p: PassRun, n: nat)
    requires Honest(p.server, rules, p.world) && !Decodes(rules, p.world(n))
    requires CheckedState(chain, runtime, p.server, cfg, p.before).next <= n
    ensures ResultOf(chain, runtime, rules, cfg, p).next <= n
  {
    hide Poll, CheckedState, Honest, Decodes;
    PassIsCheckThenPoll(chain, runtime, rules, cfg, p);
    var c := CheckedState(chain, runtime, p.server, cfg, p.before);
    if !c.failed && p.server.latest.Some? {
      PollStopsAt(chain, p.server, rules, cfg, c.db, p.world, c.next,
                  SaturatingSub(p.server.latest.value, runtime.headBufferBlocks), n);
    }
  }
}
