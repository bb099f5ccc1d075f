/** Which signature rows a rollback removes: they store the payload's chain, so they are also found
    through the block anchors they were sourced from (src/database.rs, src/schema/rows.rs). */
module SignatureRollback {
  import opened Prelude
  import opened Schema
  import opened DatabaseSpec
  import opened SignatureIds
  import opened Assignments
  import opened History
  import opened RunnerSpec
  import opened RunnerSafety
  import opened RunnerRuns
  import opened RunnerAnchors

  ghost predicate HexAnchors(anchors: map<AnchorKey, BlockAnchor>) {
    forall k :: k in anchors ==> IsHexHash(anchors[k].blockHash)
  }

  /** A rolled back anchor of this height whose hash starts with the same five digits. */
  ghost predicate AnchoredAt(anchors: map<AnchorKey, BlockAnchor>, m: Metadata, chainId: nat, dataset: string,
                             block: nat)
    requires m.blockHash.Some?
  {
    exists k :: k in anchors && AnchorOf(anchors[k], k, m, chainId, dataset, block)
  }

  ghost predicate AnchorOf(anchor: BlockAnchor, k: AnchorKey, m: Metadata, chainId: nat, dataset: string, block: nat)
    requires m.blockHash.Some?
  {
    && k.chainId == chainId && k.dataset == dataset && k.blockNumber >= block
    && k.blockNumber == m.blockNumber && HashPrefix(anchor.blockHash) == HashPrefix(m.blockHash.value)
  }

  /** Below 10^10, with hex hashes, a rollback removes the row of a signature event if and only if
      the payload names the rolled back chain at such a height, or the event's own height has a rolled back
      anchor with the same hash prefix. */
  lemma SignatureRemovedIff(db: Db, e: Event, chainId: nat, dataset: string, block: nat)
    requires e.SignatureSubmittion? && e.meta.blockHash.Some? && IsHexHash(e.meta.blockHash.value)
    requires e.meta.blockNumber < ID_HEIGHT_LIMIT && HexAnchors(db.anchors)
    ensures RemovedByRollback(db, RowOf(e), chainId, dataset, block)
       <==> (e.payloadChainId == chainId && e.meta.blockNumber >= block)
            || AnchoredAt(db.anchors, e.meta, chainId, dataset, block)
  {
    forall k | k in db.anchors && k.blockNumber == e.meta.blockNumber
      ensures SignatureHitBy(db.anchors[k], k, RowOf(e), chainId, dataset, block)
         <==> AnchorOf(db.anchors[k], k, e.meta, chainId, dataset, block)
    {
      PatternMatchesExactly(k.blockNumber, db.anchors[k].blockHash, e.meta);
    }
  }

  /** With the anchor of its block present, no signature row sourced from the chain at or above the
      rollback height survives, whatever chain its payload names. */
  lemma SignatureRollbackComplete(db: Db, e: Event, chainId: nat, dataset: string, block: nat)
    requires e.SignatureSubmittion? && e.meta.blockHash.Some? && IsHexHash(e.meta.blockHash.value)
    requires e.meta.blockNumber < ID_HEIGHT_LIMIT && e.meta.blockNumber >= block
    requires var k := AnchorKey(chainId, dataset, e.meta.blockNumber);
      k in db.anchors && db.anchors[k].blockHash == e.meta.blockHash.value
    requires KeyOfRow(RowOf(e)) in db.rows && db.rows[KeyOfRow(RowOf(e))] == RowOf(e)
    ensures KeyOfRow(RowOf(e)) !in KeptRows(db, chainId, dataset, block)
  {
    var k := AnchorKey(chainId, dataset, e.meta.blockNumber);
    OwnAnchorFindsRow(e.meta);
    assert SignatureHitBy(db.anchors[k], k, RowOf(e), chainId, dataset, block);
  }

  /** Signature rows are not isolated by chain: a row sourced from chain 46 whose payload names chain 1
      disappears when chain 1 is rolled back, although chain 46 is untouched. */
  lemma PayloadChainIsNotIsolated(db: Db, e: Event)
    requires e.SignatureSubmittion? && e.meta.chainId == 46 && e.payloadChainId == 1
    requires KeyOfRow(RowOf(e)) in db.rows && db.rows[KeyOfRow(RowOf(e))] == RowOf(e)
    ensures KeyOfRow(RowOf(e)) !in KeptRows(db, 1, "evm.logs", e.meta.blockNumber)
  {
    assert RemovedByRollback(db, RowOf(e), 1, "evm.logs", e.meta.blockNumber);
  }

  /** In every run with a monotone finalized head, the rollback a check asks for leaves no signature row of an
      indexed block at or above its height: the anchors are there. The event carries its block's hash and height,
      below 10^10. */
  lemma RunRollsBackSignatures(chain: ChainConfig, runtime: RuntimeConfig, rules: Rules, cfg: AssignmentConfig,
                               run: seq<PassRun>, heads: seq<nat>, server: Server, i: nat, e: Event)
    requires UsesReorgProtection(chain.finality) && run != [] && HonestRun(chain, runtime, rules, cfg, run)
    requires MonotoneHeads(run, heads) && CheckReadsFrom(server, heads[|run| - 1])
    requires var r := ResultOf(chain, runtime, rules, cfg, run[|run| - 1]);
      var blocks := BlocksOf(chain, runtime, rules, cfg, run);
      var check := CheckWindow(chain, runtime, server, r.db.anchors, r.next);
      && check.RollBackTo? && i < |blocks| && chain.startBlock + i >= check.block
      && SignatureOf(e, blocks[i].hash, chain.startBlock + i)
    ensures var r := ResultOf(chain, runtime, rules, cfg, run[|run| - 1]);
      var check := CheckWindow(chain, runtime, server, r.db.anchors, r.next);
      !Stored(RolledBack(r.db, chain.chainId, chain.dataset, check.block, cfg), RowOf(e))
  {
    hide ResultOf, CheckWindow, HonestRun, BlocksOf, RowOf, Like, MonotoneHeads, BlockMap, IsHexHash;
    var r := ResultOf(chain, runtime, rules, cfg, run[|run| - 1]);
    var blocks := BlocksOf(chain, runtime, rules, cfg, run);
    var b := CheckWindow(chain, runtime, server, r.db.anchors, r.next).block;
    RunMarks(chain, runtime, rules, cfg, run);
    RunKeepsAnchored(chain, runtime, rules, cfg, run, heads);
    RollbackIsMinimal(chain, runtime, server, r.db.anchors, r.next);
    var k := AnchorKey(chain.chainId, chain.dataset, chain.startBlock + i);
    assert k in r.db.anchors && r.db.anchors[k].blockHash == blocks[i].hash;
    if Stored(r.db, RowOf(e)) {
      SignatureRollbackComplete(r.db, e, chain.chainId, chain.dataset, b);
    }
  }

  /** A signature event of this block. */
  predicate SignatureOf(e: Event, hash: string, n: nat) {
    && e.SignatureSubmittion? && e.meta.blockHash == Some(hash) && IsHexHash(hash)
    && e.meta.blockNumber == n < ID_HEIGHT_LIMIT
  }

  lemma TallRow(e: Event)
    requires e.SignatureSubmittion?
    ensures var r := RowOf(e);
      && r.SignatureRow? && r.chainId == e.payloadChainId && r.blockNumber == e.meta.blockNumber
      && r.id == LegacyEventLogId(e.meta)
  {
  }

  /** At height 10^10 a signature row whose payload names another chain survives the rollback of its own block,
      although the block's anchor is there. */
  lemma TallRowSurvivesRollback(e: Event)
    requires e.SignatureSubmittion? && e.payloadChainId == 46
    requires e.meta.blockNumber == 10_000_000_000 && e.meta.blockHash == Some("0xabcdef")
    ensures var k := AnchorKey(1, "evm.logs", 10_000_000_000);
      var db := EMPTY_DB.(rows := map[KeyOfRow(RowOf(e)) := RowOf(e)],
                          anchors := map[k := BlockAnchor(k, "0xabcdef", None)]);
      KeyOfRow(RowOf(e)) in KeptRows(db, 1, "evm.logs", 10_000_000_000)
  {
    hide Like, RowOf, LegacyEventLogId, KeyOfRow, HashPrefix;
    TallRow(e);
    var digits := "abcdef";
    assert StripHexPrefix("0xabcdef") == digits;
    OwnAnchorFindsRow(e.meta);
    var k := AnchorKey(1, "evm.logs", 10_000_000_000);
    LoneRowIsKept(RowOf(e), k, BlockAnchor(k, "0xabcdef", None), 10_000_000_000);
  }

  lemma LoneRowIsKept(r: Row, k: AnchorKey, anchor: BlockAnchor, block: nat)
    requires r.SignatureRow? && r.chainId != k.chainId && !Like(AnchorPattern(k.blockNumber, anchor.blockHash), r.id)
    ensures var db := EMPTY_DB.(rows := map[KeyOfRow(r) := r], anchors := map[k := anchor]);
      KeyOfRow(r) in KeptRows(db, k.chainId, k.dataset, block)
  {
    hide Like, AnchorPattern, KeyOfRow;
  }
}
