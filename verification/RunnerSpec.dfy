/** One pass of the indexer over one chain, as a function of the tables and of what the server answers
    (src/runner.rs, src/checkpoint.rs). A server is an arbitrary function of the question, so a
    statement about every server covers every sequence of answers. */
module RunnerSpec {
  import opened Prelude
  import opened Schema
  import opened Assignments
  import opened DatabaseSpec

  datatype FinalityMode = Finalized | Durable | Safe | Latest

  predicate UsesReorgProtection(mode: FinalityMode) {
    mode.Safe? || mode.Latest?
  }

  datatype ChainConfig = ChainConfig(chainId: nat, dataset: string, startBlock: nat, batchSize: nat,
                                     finality: FinalityMode)

  datatype RuntimeConfig = RuntimeConfig(reorgWindowBlocks: nat, headBufferBlocks: nat)

  datatype Log = Log(blockNumber: nat, blockHash: Option<string>, parentHash: Option<string>, payload: string)

  datatype Block = Block(number: nat, hash: string, parentHash: Option<string>)

  datatype Page<T> = Page(items: seq<T>, servedStart: Option<u64>, servedEnd: Option<u64>, incomplete: bool)

  /** `DatalensBlockQueryResult::covers`. */
  predicate Covers<T>(page: Page<T>, from: nat, to: nat) {
    !page.incomplete && page.servedStart.Some? && page.servedStart.value <= from
    && page.servedEnd.Some? && page.servedEnd.value >= to
  }

  /** Where in the pass a question is asked; equal questions may be answered differently. */
  datatype Ask = AtWindowCheck | AtRange(from: nat)

  /** Everything outside the indexer during one pass. None is a failed request; the commit flags
      say whether a transaction goes through. */
  datatype Server = Server(
    latest: Option<nat>,
    finalized: Ask -> Option<nat>,
    logs: (nat, nat) -> Option<Page<Log>>,
    blocks: (Ask, nat, nat) -> Option<Page<Block>>,
    rollbackCommits: bool,
    rangeCommits: nat -> bool)

  type Decoder = Log -> Option<seq<Event>>

  function DecodeAll(logs: seq<Log>, decode: Decoder): Option<seq<Event>> {
    if logs == [] then Some([])
    else
      var n := |logs| - 1;
      var rest := DecodeAll(logs[..n], decode);
      var last := decode(logs[n]);
      if rest.None? || last.None? then None else Some(rest.value + last.value)
  }

  datatype Range = Range(from: nat, to: nat)

  /** None for a zero batch size or an overflowing end. */
  function PlanNextRange(next: nat, batchSize: nat): Option<Range> {
    if batchSize == 0 || next + (batchSize - 1) > U64_MAX then None
    else Some(Range(next, next + (batchSize - 1)))
  }

  // ---- Anchors of a served range ----

  /** Collecting headers by height: the last header of a height wins. */
  function BlockMap(blocks: seq<Block>): map<nat, Block> {
    if blocks == [] then map[]
    else
      var n := |blocks| - 1;
      BlockMap(blocks[..n])[blocks[n].number := blocks[n]]
  }

  function AnchorAt(chain: ChainConfig, n: nat, hash: string, parentHash: Option<string>): BlockAnchor {
    BlockAnchor(AnchorKey(chain.chainId, chain.dataset, n), hash, parentHash)
  }

  /** One anchor for every height of `[from, end)`; None if a header is missing. */
  function AnchorsFromBlocks(chain: ChainConfig, from: nat, end: nat,
                             blocks: map<nat, Block>): Option<seq<BlockAnchor>> {
    if from >= end then Some([])
    else
      var rest := AnchorsFromBlocks(chain, from, end - 1, blocks);
      if rest.None? || end - 1 !in blocks then None
      else Some(rest.value + [AnchorAt(chain, end - 1, blocks[end - 1].hash, blocks[end - 1].parentHash)])
  }

  /** An ordered map entry filled only if vacant. */
  function AddAnchor(anchors: seq<BlockAnchor>, a: BlockAnchor): seq<BlockAnchor> {
    if anchors == [] then [a]
    else if anchors[0].key.blockNumber == a.key.blockNumber then anchors
    else if a.key.blockNumber < anchors[0].key.blockNumber then [a] + anchors
    else [anchors[0]] + AddAnchor(anchors[1..], a)
  }

  function AnchorsFromLogs(chain: ChainConfig, logs: seq<Log>): seq<BlockAnchor> {
    if logs == [] then []
    else
      var n := |logs| - 1;
      var rest := AnchorsFromLogs(chain, logs[..n]);
      match logs[n].blockHash
      case None => rest
      case Some(h) => AddAnchor(rest, AnchorAt(chain, logs[n].blockNumber, h, logs[n].parentHash))
  }

  datatype AnchorResult = AnchorsFailed | AnchorsWaiting | AnchorsReady(anchors: seq<BlockAnchor>)

  /** Without reorg protection, what the logs name; with it, every height of the range above the finalized head. */
  function AnchorsForRange(chain: ChainConfig, server: Server, from: nat, to: nat, logs: seq<Log>): AnchorResult {
    if !UsesReorgProtection(chain.finality) then AnchorsReady(AnchorsFromLogs(chain, logs))
    else match server.finalized(AtRange(from))
      case None => AnchorsFailed
      case Some(finalized) =>
        var first := Max(from, SaturatingAdd(finalized, 1));
        if first > to then AnchorsReady([])
        else match server.blocks(AtRange(from), first, to)
          case None => AnchorsFailed
          case Some(page) =>
            if !Covers(page, first, to) then AnchorsWaiting
            else match AnchorsFromBlocks(chain, first, to + 1, BlockMap(page.items))
              case None => AnchorsFailed
              case Some(anchors) => AnchorsReady(anchors)
  }

  // ---- One range ----

  datatype RangeResult =
    | RangeFailed
    | RangeIdle
    | RangeDone(db: Db, next: nat, stop: bool)

  /** Queries one range, decodes it, anchors it and commits it. Every failure leaves the tables as they were. */
  ghost function ProcessRange(chain: ChainConfig, server: Server, decode: Decoder, cfg: AssignmentConfig,
                              db: Db, from: nat, to: nat): (r: RangeResult)
    ensures r.RangeDone? && !r.stop ==> r.next == to + 1
    ensures r.RangeDone? ==> r.next <= U64_MAX && r.next <= to + 1
  {
    match server.logs(from, to)
    case None => RangeFailed
    case Some(page) =>
      if page.servedEnd.None? then RangeIdle
      else if page.servedStart.None? || page.servedStart.value != from then RangeFailed
      else
        var servedEnd := Min(page.servedEnd.value, to);
        match DecodeAll(page.items, decode)
        case None => RangeFailed
        case Some(events) =>
          if servedEnd + 1 > U64_MAX then RangeFailed
          else match AnchorsForRange(chain, server, from, servedEnd, page.items)
            case AnchorsFailed => RangeFailed
            case AnchorsWaiting => RangeIdle
            case AnchorsReady(anchors) =>
              if !server.rangeCommits(from) then RangeFailed
              else RangeDone(
                Committed(db, RowsOf(events), anchors, chain.chainId, chain.dataset, servedEnd + 1, cfg),
                servedEnd + 1, page.incomplete || servedEnd < to)
  }

  // ---- The poll loop ----

  datatype PollResult = PollResult(db: Db, next: nat, ok: bool, queried: seq<Range>)

  /** The loop of a pass; it ends for every server, because a range either stops it or reaches its end. */
  ghost function Poll(chain: ChainConfig, server: Server, decode: Decoder, cfg: AssignmentConfig,
                      db: Db, next: nat, target: nat): PollResult
    decreases if next <= target then target - next + 1 else 0
  {
    if next > target then PollResult(db, next, true, [])
    else match PlanNextRange(next, chain.batchSize)
      case None => PollResult(db, next, false, [])
      case Some(range) =>
        var to := Min(range.to, target);
        var asked := [Range(next, to)];
        match ProcessRange(chain, server, decode, cfg, db, next, to)
        case RangeFailed => PollResult(db, next, false, asked)
        case RangeIdle => PollResult(db, next, true, asked)
        case RangeDone(db1, next1, stop) =>
          if stop then PollResult(db1, next1, true, asked)
          else
            var rest := Poll(chain, server, decode, cfg, db1, next1, target);
            rest.(queried := asked + rest.queried)
  }

  // ---- The reorg check ----

  datatype CheckResult = CheckFailed | Unverified | Clean | RollBackTo(block: nat)

  function WindowStart(chain: ChainConfig, runtime: RuntimeConfig, next: nat, finalized: nat): nat {
    Max(chain.startBlock, Max(SaturatingSub(next, runtime.reorgWindowBlocks), SaturatingAdd(finalized, 1)))
  }

  /** The stored anchor of this height is missing, or the current header is missing or differs. */
  predicate Mismatch(anchors: map<AnchorKey, BlockAnchor>, current: map<nat, Block>, chain: ChainConfig, n: nat) {
    var k := AnchorKey(chain.chainId, chain.dataset, n);
    k !in anchors || n !in current || current[n].hash != anchors[k].blockHash
  }

  function FirstMismatch(anchors: map<AnchorKey, BlockAnchor>, current: map<nat, Block>, chain: ChainConfig,
                         from: nat, end: nat): (r: Option<nat>)
    ensures match r
            case None => forall n :: from <= n < end ==> !Mismatch(anchors, current, chain, n)
            case Some(b) => from <= b < end && Mismatch(anchors, current, chain, b)
                            && forall n :: from <= n < b ==> !Mismatch(anchors, current, chain, n)
    decreases end - from
  {
    if from >= end then None
    else if Mismatch(anchors, current, chain, from) then Some(from)
    else FirstMismatch(anchors, current, chain, from + 1, end)
  }

  /** `rollback_reorged_anchors` up to its decision. */
  function CheckWindow(chain: ChainConfig, runtime: RuntimeConfig, server: Server,
                       anchors: map<AnchorKey, BlockAnchor>, next: nat): CheckResult {
    if next == 0 then Clean
    else match server.finalized(AtWindowCheck)
      case None => CheckFailed
      case Some(finalized) =>
        var from := WindowStart(chain, runtime, next, finalized);
        if from > next - 1 then Clean
        else match server.blocks(AtWindowCheck, from, next - 1)
          case None => CheckFailed
          case Some(page) =>
            if !Covers(page, from, next - 1) then Unverified
            else match FirstMismatch(anchors, BlockMap(page.items), chain, from, next)
              case None => Clean
              case Some(b) => RollBackTo(b)
  }

  // ---- One pass ----

  /** `verified`: the window check completed, and the rollback it asked for, if any, went through. */
  datatype PassResult = PassResult(db: Db, next: nat, ok: bool, verified: bool, queried: seq<Range>)

  ghost function Opened(chain: ChainConfig, db: Db): Db {
    WithCheckpointCreated(db, chain.chainId, chain.dataset, chain.startBlock)
  }

  ghost function NextBlock(chain: ChainConfig, db: Db): nat {
    var k := CheckpointKey(chain.chainId, chain.dataset);
    if k in db.checkpoints then db.checkpoints[k] else chain.startBlock
  }

  ghost function AfterCheck(chain: ChainConfig, runtime: RuntimeConfig, server: Server, decode: Decoder,
                            cfg: AssignmentConfig, db: Db, next: nat, verified: bool): PassResult {
    match server.latest
    case None => PassResult(db, next, false, verified, [])
    case Some(latest) =>
      var polled := Poll(chain, server, decode, cfg, db, next, SaturatingSub(latest, runtime.headBufferBlocks));
      PassResult(polled.db, polled.next, polled.ok, verified, polled.queried)
  }

  ghost function Pass(chain: ChainConfig, runtime: RuntimeConfig, server: Server, decode: Decoder,
                      cfg: AssignmentConfig, db: Db): PassResult {
    var ready := Opened(chain, db);
    var next := NextBlock(chain, db);
    if !UsesReorgProtection(chain.finality) then
      AfterCheck(chain, runtime, server, decode, cfg, ready, next, false)
    else match CheckWindow(chain, runtime, server, ready.anchors, next)
      case CheckFailed => PassResult(ready, next, false, false, [])
      case Unverified => AfterCheck(chain, runtime, server, decode, cfg, ready, next, false)
      case Clean => AfterCheck(chain, runtime, server, decode, cfg, ready, next, true)
      case RollBackTo(b) =>
        if !server.rollbackCommits then PassResult(ready, next, false, false, [])
        else AfterCheck(chain, runtime, server, decode, cfg,
                        RolledBack(ready, chain.chainId, chain.dataset, b, cfg), b, true)
  }
}
