/** The query planner (src/planner.rs) and its agreement with the poll loop (src/runner.rs). */
module Planner {
  import opened Prelude
  import opened Assignments
  import opened DatabaseSpec
  import opened RunnerSpec

  /** Consecutive ranges from `from` to `to`, each as long as allowed except perhaps the last. */
  function Planned(from: nat, to: nat, maxLen: nat): seq<Range>
    requires maxLen > 0 && to <= U64_MAX
    decreases if from <= to then to - from + 1 else 0
  {
    if from > to then []
    else
      var end := Min(SaturatingAdd(from, maxLen - 1), to);
      [Range(from, end)] + Planned(end + 1, to, maxLen)
  }

  /** None when the source refuses the arguments. */
  method PlanEvmLogQueries(from: u64, to: u64, maxLen: u64, contracts: seq<string>, topics: seq<string>)
    returns (plans: Option<seq<Range>>)
    ensures plans.Some? <==> maxLen > 0 && from <= to && contracts != [] && topics != []
    ensures plans.Some? ==> plans.value == Planned(from, to, maxLen)
  {
    if maxLen == 0 || from > to || contracts == [] || topics == [] {
      return None;
    }
    var ranges: seq<Range> := [];
    assert ranges + Planned(from, to, maxLen) == Planned(from, to, maxLen);
    var nextFrom: u64 := from;
    while nextFrom <= to
      invariant nextFrom >= from && ranges + Planned(nextFrom, to, maxLen) == Planned(from, to, maxLen)
      decreases (to + 1) - nextFrom
    {
      var rangeEnd: u64 := Min(SaturatingAdd(nextFrom, maxLen - 1), to);
      assert Planned(nextFrom, to, maxLen) == [Range(nextFrom, rangeEnd)] + Planned(rangeEnd + 1, to, maxLen);
      ghost var rest := Planned(rangeEnd + 1, to, maxLen);
      assert ranges + ([Range(nextFrom, rangeEnd)] + rest) == ranges + [Range(nextFrom, rangeEnd)] + rest;
      ranges := ranges + [Range(nextFrom, rangeEnd)];
      if rangeEnd == U64_MAX {
        break;
      }
      nextFrom := rangeEnd + 1;
    }
    assert ranges + [] == ranges;
    plans := Some(ranges);
  }

  predicate Tiles(plan: seq<Range>, from: nat, to: nat, maxLen: nat) {
    && plan != [] && plan[0].from == from && plan[|plan| - 1].to == to
    && (forall i :: 0 <= i < |plan| ==> plan[i].from <= plan[i].to < plan[i].from + maxLen)
    && (forall i :: 1 <= i < |plan| ==> Follows(plan[i - 1], plan[i], maxLen))
  }

  /** The next range starts right after a full one. */
  predicate Follows(before: Range, next: Range, maxLen: nat) {
    next.from == before.to + 1 && next.from == before.from + maxLen
  }

  lemma TilesOneMore(first: Range, rest: seq<Range>, to: nat, maxLen: nat)
    requires first.from <= first.to == first.from + maxLen - 1 && Tiles(rest, first.to + 1, to, maxLen)
    ensures Tiles([first] + rest, first.from, to, maxLen)
  {
    var plan := [first] + rest;
    forall i | 1 <= i < |plan|
      ensures Follows(plan[i - 1], plan[i], maxLen)
    {
      if i > 1 {
        assert plan[i - 1] == rest[i - 2] && plan[i] == rest[i - 1];
      }
    }
  }

  /** The plan covers `[from, to]` without gap or overlap, in ranges no longer than allowed. */
  lemma {:induction false} PlanTiles(from: nat, to: nat, maxLen: nat)
    requires maxLen > 0 && from <= to <= U64_MAX
    ensures Tiles(Planned(from, to, maxLen), from, to, maxLen)
    decreases (to + 1) - from
  {
    hide Tiles;
    var end := Min(SaturatingAdd(from, maxLen - 1), to);
    if end < to {
      PlanTiles(end + 1, to, maxLen);
      TilesOneMore(Range(from, end), Planned(end + 1, to, maxLen), to, maxLen);
    } else {
      OneTile(from, to, maxLen);
      assert Planned(end + 1, to, maxLen) == [];
    }
  }

  lemma OneTile(from: nat, to: nat, maxLen: nat)
    requires from <= to < from + maxLen
    ensures Tiles([Range(from, to)] + [], from, to, maxLen)
  {
  }

  /** For every server and target, the ranges a pass queries are the plan's first ranges, and the whole plan if the
      pass goes past its target; so they tile what was indexed without gap or overlap. Where a full batch would
      overflow, the pass fails with the ranges queried so far. */
  lemma {:induction false} PollFollowsPlan(chain: ChainConfig, server: Server, decode: Decoder, cfg: AssignmentConfig,
                                           db: Db, next: nat, target: nat)
    requires chain.batchSize > 0 && next <= target <= U64_MAX
    ensures var polled := Poll(chain, server, decode, cfg, db, next, target);
      && polled.queried <= Planned(next, target, chain.batchSize)
      && (polled.next > target ==> polled.ok && polled.queried == Planned(next, target, chain.batchSize))
      && polled.next <= target + 1
    decreases target + 1 - next
  {
    hide ProcessRange;
    if next + (chain.batchSize - 1) <= U64_MAX {
      var to := Min(next + (chain.batchSize - 1), target);
      match ProcessRange(chain, server, decode, cfg, db, next, to)
      case RangeDone(db1, next1, stop) =>
        if !stop && next1 <= target {
          PollFollowsPlan(chain, server, decode, cfg, db1, next1, target);
        }
      case _ =>
    }
  }
}
