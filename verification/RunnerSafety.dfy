/** What a pass does to the rows, anchors and checkpoint of its chain (src/runner.rs).

    A world gives the block hash of every height; a hash fixes the logs of its block. While a pass runs the
    world stands still and the server answers truthfully about it, as far as it answers at all. */
module RunnerSafety {
  import opened Prelude
  import opened Schema
  import opened Assignments
  import opened DatabaseSpec
  import opened Views
  import opened History
  import opened RunnerSpec

  type World = nat -> string

  datatype Rules = Rules(contents: string -> seq<Log>, decode: Decoder)

  /** The logs of the heights `[from, end)`, in order. */
  function LogsBetween(rules: Rules, w: World, from: nat, end: nat): seq<Log>
    decreases end
  {
    if from >= end then [] else LogsBetween(rules, w, from, end - 1) + rules.contents(w(end - 1))
  }

  function EventsOf(rules: Rules, hash: string): seq<Event> {
    DecodeAll(rules.contents(hash), rules.decode).GetOr([])
  }

  function EventsIn(rules: Rules, hashes: seq<string>): seq<Event> {
    if hashes == [] then []
    else EventsIn(rules, hashes[..|hashes| - 1]) + EventsOf(rules, hashes[|hashes| - 1])
  }

  function HashesBetween(w: World, from: nat, end: nat): (hashes: seq<string>)
    requires from <= end
    ensures |hashes| == end - from
    ensures forall i :: 0 <= i < |hashes| ==> hashes[i] == w(from + i)
  {
    seq(end - from, i requires 0 <= i < end - from => w(from + i))
  }

  // ---- Assumptions about the server and the world ----

  /** What the server serves is what the world holds: logs from the requested start to a served end not
      before it, and, if the served end lies beyond the request, the logs of the request only;
      headers carry the world's hashes. It may fail, serve less, or serve nothing. */
  ghost predicate Honest(server: Server, rules: Rules, w: World) {
    && (forall from, to :: server.logs(from, to).Some? ==> HonestLogs(server.logs(from, to).value, rules, w, from, to))
    && (forall ask, from, to :: server.blocks(ask, from, to).Some? ==>
          HonestBlocks(server.blocks(ask, from, to).value.items, w))
  }

  ghost predicate HonestLogs(page: Page<Log>, rules: Rules, w: World, from: nat, to: nat) {
    page.servedEnd.Some? && page.servedStart.Some? && page.servedStart.value == from ==>
      from <= page.servedEnd.value
      && page.items == LogsBetween(rules, w, from, Min(page.servedEnd.value, to) + 1)
  }

  ghost predicate HonestBlocks(blocks: seq<Block>, w: World) {
    forall b :: b in blocks ==> b.hash == w(b.number)
  }

  /** Events carry their chain and the height of their block. */
  ghost predicate WorldOk(rules: Rules, chainId: nat, w: World) {
    forall n, e :: e in EventsOf(rules, w(n)) ==> e.meta.chainId == chainId && e.meta.blockNumber == n
  }

  /** In this world, equal primary keys mean equal rows (signature rows aside). */
  ghost predicate OneRowPerKey(rules: Rules, w: World) {
    forall m, n, d, e :: d in EventsOf(rules, w(m)) && e in EventsOf(rules, w(n)) ==> AgreeOnKey(d, e)
  }

  predicate AgreeOnKey(d: Event, e: Event) {
    !RowOf(d).SignatureRow? && KeyOfRow(RowOf(d)) == KeyOfRow(RowOf(e)) ==> RowOf(d) == RowOf(e)
  }

  /** The chain's rows are exactly those of these events (signature rows aside). */
  ghost predicate HoldsExactly(db: Db, chainId: nat, events: seq<Event>) {
    forall r: Row :: !r.SignatureRow? && r.chainId == chainId ==> (Stored(db, r) <==> r in RowsOf(events))
  }

  // ---- Indexed blocks ----

  /** A block committed after another one, whether or not it has been rolled back since. */
  datatype LaterBlock = LaterBlock(world: World, number: nat)

  /** The block a height was indexed from, and every block committed since then. */
  datatype IndexedBlock = IndexedBlock(hash: string, later: seq<LaterBlock>)

  function LaterHash(l: LaterBlock): string {
    l.world(l.number)
  }

  /** The height after `blocks` is indexed from block `n` of the world. */
  function OneMore(blocks: seq<IndexedBlock>, w: World, n: nat): (more: seq<IndexedBlock>)
    ensures |more| == |blocks| + 1
  {
    seq(|blocks|, i requires 0 <= i < |blocks| => blocks[i].(later := blocks[i].later + [LaterBlock(w, n)]))
    + [IndexedBlock(w(n), [])]
  }

  /** Then the blocks `[from, end)` of the world are committed in order. */
  function Extended(blocks: seq<IndexedBlock>, w: World, from: nat, end: nat): seq<IndexedBlock>
    decreases end
  {
    if from >= end then blocks else OneMore(Extended(blocks, w, from, end - 1), w, end - 1)
  }

  function Hashes(blocks: seq<IndexedBlock>): (hashes: seq<string>)
    ensures |hashes| == |blocks|
    ensures forall i :: 0 <= i < |blocks| ==> hashes[i] == blocks[i].hash
  {
    seq(|blocks|, i requires 0 <= i < |blocks| => blocks[i].hash)
  }

  /** Extending adds the world's hashes on top, and the new blocks to what came later than each block below them. */
  lemma {:induction false} ExtendedParts(blocks: seq<IndexedBlock>, w: World, from: nat, end: nat)
    requires from <= end
    ensures var all := Extended(blocks, w, from, end);
      && |all| == |blocks| + (end - from)
      && (forall i :: 0 <= i < |blocks| ==> all[i].hash == blocks[i].hash)
      && (forall i :: |blocks| <= i < |all| ==> all[i].hash == w(from + i - |blocks|))
      && (forall i, j :: 0 <= i < |all| && 0 <= j < |all[i].later| ==>
            || (i < |blocks| && j < |blocks[i].later| && all[i].later[j] == blocks[i].later[j])
            || LaterIn(all[i].later[j], w, if i < |blocks| then from else from + i - |blocks| + 1, end))
      && (forall i :: 0 <= i < |blocks| ==> blocks[i].later <= all[i].later)
  {
    if from < end {
      ExtendedParts(blocks, w, from, end - 1);
    }
  }

  ghost predicate LaterIn(l: LaterBlock, w: World, from: nat, end: nat) {
    l.world == w && from <= l.number < end
  }

  // ---- Rows of indexed blocks ----

  ghost predicate KeyIn(events: seq<Event>, k: RowKey) {
    exists e :: e in events && KeyOfRow(RowOf(e)) == k
  }

  ghost predicate Overwritten(rules: Rules, b: IndexedBlock, k: RowKey) {
    exists j :: 0 <= j < |b.later| && KeyIn(EventsOf(rules, LaterHash(b.later[j])), k)
  }

  /** A row of the block whose key no later block carries. */
  ghost predicate Survives(rules: Rules, b: IndexedBlock, r: Row) {
    r in RowsOf(EventsOf(rules, b.hash)) && !Overwritten(rules, b, KeyOfRow(r))
  }

  ghost predicate SurvivesIn(rules: Rules, blocks: seq<IndexedBlock>, r: Row) {
    exists i :: 0 <= i < |blocks| && Survives(rules, blocks[i], r)
  }

  /** The chain's rows are exactly the surviving rows of the indexed blocks (signature rows aside). */
  ghost predicate HoldsBlocks(db: Db, chainId: nat, rules: Rules, blocks: seq<IndexedBlock>) {
    forall r: Row :: !r.SignatureRow? && r.chainId == chainId ==> (Stored(db, r) <==> SurvivesIn(rules, blocks, r))
  }

  /** The indexed blocks, as far as the rows go, hold events of the chain at their own heights, and so do the
      worlds of everything committed later, at greater heights. */
  ghost predicate BlocksOk(rules: Rules, chain: ChainConfig, blocks: seq<IndexedBlock>) {
    forall i :: 0 <= i < |blocks| ==> BlockOk(rules, chain, blocks[i], chain.startBlock + i)
  }

  ghost predicate BlockOk(rules: Rules, chain: ChainConfig, b: IndexedBlock, n: nat) {
    && (forall e :: e in EventsOf(rules, b.hash) ==> e.meta.chainId == chain.chainId && e.meta.blockNumber == n)
    && (forall j :: 0 <= j < |b.later| ==> LaterOk(rules, chain, b.later[j], n))
  }

  ghost predicate LaterOk(rules: Rules, chain: ChainConfig, l: LaterBlock, n: nat) {
    l.number > n && WorldOk(rules, chain.chainId, l.world) && OneRowPerKey(rules, l.world)
  }

  // ---- Anchors and checkpoint of indexed blocks ----

  ghost predicate AnchorsMatch(anchors: map<AnchorKey, BlockAnchor>, chain: ChainConfig, blocks: seq<IndexedBlock>) {
    forall k :: k in anchors && k.chainId == chain.chainId && k.dataset == chain.dataset ==>
      && chain.startBlock <= k.blockNumber < chain.startBlock + |blocks|
      && anchors[k].blockHash == blocks[k.blockNumber - chain.startBlock].hash
  }

  /** The checkpoint stands after the indexed blocks, and every anchor of the chain is one of theirs. */
  ghost predicate MarksOk(db: Db, chain: ChainConfig, blocks: seq<IndexedBlock>, next: nat) {
    && CheckpointKey(chain.chainId, chain.dataset) in db.checkpoints
    && db.checkpoints[CheckpointKey(chain.chainId, chain.dataset)] == next
    && chain.startBlock + |blocks| == next
    && AnchorsMatch(db.anchors, chain, blocks)
  }

  // ---- Decoding a served range ----

  lemma {:induction false} DecodeConcat(a: seq<Log>, b: seq<Log>, decode: Decoder)
    ensures DecodeAll(a + b, decode)
         == if DecodeAll(a, decode).None? || DecodeAll(b, decode).None? then None
            else Some(DecodeAll(a, decode).value + DecodeAll(b, decode).value)
  {
    if b == [] {
      assert a + b == a;
      assert DecodeAll(a, decode).Some? ==> DecodeAll(a, decode).value + [] == DecodeAll(a, decode).value;
    } else {
      var n := |b| - 1;
      assert (a + b)[..|a + b| - 1] == a + b[..n];
      DecodeConcat(a, b[..n], decode);
      if DecodeAll(a, decode).Some? && DecodeAll(b, decode).Some? {
        var x, y, z := DecodeAll(a, decode).value, DecodeAll(b[..n], decode).value, decode(b[n]).value;
        assert x + y + z == x + (y + z);
      }
    }
  }

  lemma {:induction false} DecodedRange(rules: Rules, w: World, from: nat, end: nat)
    requires from <= end && DecodeAll(LogsBetween(rules, w, from, end), rules.decode).Some?
    ensures DecodeAll(LogsBetween(rules, w, from, end), rules.decode).value
        == EventsIn(rules, HashesBetween(w, from, end))
  {
    hide DecodeAll, HashesBetween;
    HashesStep(w, from, end);
    NothingDecoded(rules);
    if from < end {
      DecodeConcat(LogsBetween(rules, w, from, end - 1), rules.contents(w(end - 1)), rules.decode);
      DecodedRange(rules, w, from, end - 1);
    }
  }

  lemma HashesStep(w: World, from: nat, end: nat)
    requires from <= end
    ensures from == end ==> HashesBetween(w, from, end) == []
    ensures from < end ==>
              && HashesBetween(w, from, end)[..end - 1 - from] == HashesBetween(w, from, end - 1)
              && HashesBetween(w, from, end)[end - 1 - from] == w(end - 1)
  {
  }

  lemma NothingDecoded(rules: Rules)
    ensures DecodeAll([], rules.decode) == Some([])
  {
  }

  lemma {:induction false} EventsInMember(rules: Rules, hashes: seq<string>)
    ensures forall e :: e in EventsIn(rules, hashes)
                   <==> exists i :: 0 <= i < |hashes| && e in EventsOf(rules, hashes[i])
  {
    if hashes != [] {
      var n := |hashes| - 1;
      EventsInMember(rules, hashes[..n]);
      forall e
        ensures e in EventsIn(rules, hashes) <==> exists i :: 0 <= i < |hashes| && e in EventsOf(rules, hashes[i])
      {
        if e in EventsIn(rules, hashes[..n]) {
          var i :| 0 <= i < n && e in EventsOf(rules, hashes[..n][i]);
          assert e in EventsOf(rules, hashes[i]);
        }
        if i :| 0 <= i < |hashes| && e in EventsOf(rules, hashes[i]) {
          assert i < n ==> hashes[..n][i] == hashes[i];
        }
      }
    }
  }

  lemma {:induction false} EventsInConcat(rules: Rules, a: seq<string>, b: seq<string>)
    ensures EventsIn(rules, a + b) == EventsIn(rules, a) + EventsIn(rules, b)
  {
    if b == [] {
      assert a + b == a;
    } else {
      assert (a + b)[..|a + b| - 1] == a + b[..|b| - 1];
      EventsInConcat(rules, a, b[..|b| - 1]);
    }
  }

  // ---- Committing events ----

  lemma RowsOfConcat(a: seq<Event>, b: seq<Event>)
    ensures RowsOf(a + b) == RowsOf(a) + RowsOf(b)
  {
  }

  /** Committing events that agree on keys: a row is stored afterwards if it is one of theirs, or was stored
      under a key that none of them carries. */
  lemma {:induction false} CommittedEvents(db: Db, events: seq<Event>, cfg: AssignmentConfig)
    requires Valid(db) && forall d, e :: d in events && e in events ==> AgreeOnKey(d, e)
    ensures var done := WrittenAll(db, RowsOf(events), cfg);
      && Valid(done)
      && forall r: Row :: !r.SignatureRow? ==>
           (Stored(done, r) <==> r in RowsOf(events) || (Stored(db, r) && !KeyIn(events, KeyOfRow(r))))
  {
    hide Valid, Written, RowOf, AgreeOnKey;
    if events != [] {
      var n := |events| - 1;
      var rest, e := events[..n], events[n];
      assert events == rest + [e];
      assert RowsOf(events)[..n] == RowsOf(rest);
      CommittedEvents(db, rest, cfg);
      RowSource(e);
      WrittenIsValid(WrittenAll(db, RowsOf(rest), cfg), RowOf(e), cfg);
      forall r: Row | !r.SignatureRow?
        ensures Stored(WrittenAll(db, RowsOf(events), cfg), r)
           <==> r in RowsOf(events) || (Stored(db, r) && !KeyIn(events, KeyOfRow(r)))
      {
        CommittedOne(db, rest, e, r, cfg);
      }
    }
  }

  lemma CommittedOne(db: Db, rest: seq<Event>, e: Event, r: Row, cfg: AssignmentConfig)
    requires var done := WrittenAll(db, RowsOf(rest), cfg);
      && Valid(done)
      && (Stored(done, r) <==> r in RowsOf(rest) || (Stored(db, r) && !KeyIn(rest, KeyOfRow(r))))
    requires !r.SignatureRow? && forall d :: d in rest ==> AgreeOnKey(d, e)
    ensures var after := WrittenAll(db, RowsOf(rest), cfg).rows[KeyOfRow(RowOf(e)) := RowOf(e)];
      (KeyOfRow(r) in after && after[KeyOfRow(r)] == r)
      <==> r in RowsOf(rest + [e]) || (Stored(db, r) && !KeyIn(rest + [e], KeyOfRow(r)))
  {
    hide Valid, RowOf;
    RowsOfConcat(rest, [e]);
    assert RowsOf([e]) == [RowOf(e)];
    assert KeyIn(rest + [e], KeyOfRow(r)) <==> KeyIn(rest, KeyOfRow(r)) || KeyOfRow(RowOf(e)) == KeyOfRow(r);
    if r in RowsOf(rest) {
      var i :| 0 <= i < |rest| && RowsOf(rest)[i] == r;
      assert rest[i] in rest && AgreeOnKey(rest[i], e);
    }
  }

  /** One block of the world on top of the indexed ones. */
  lemma BlockCommitted(db: Db, chainId: nat, rules: Rules, w: World, blocks: seq<IndexedBlock>, n: nat,
                       cfg: AssignmentConfig)
    requires Valid(db) && HoldsBlocks(db, chainId, rules, blocks) && OneRowPerKey(rules, w)
    ensures var done := WrittenAll(db, RowsOf(EventsOf(rules, w(n))), cfg);
      Valid(done) && HoldsBlocks(done, chainId, rules, OneMore(blocks, w, n))
  {
    hide Valid, WrittenAll, RowOf, AgreeOnKey;
    var events := EventsOf(rules, w(n));
    CommittedEvents(db, events, cfg);
    forall r: Row | !r.SignatureRow? && r.chainId == chainId
      ensures Stored(WrittenAll(db, RowsOf(events), cfg), r) <==> SurvivesIn(rules, OneMore(blocks, w, n), r)
    {
      SurvivesOneMore(rules, w, blocks, n, r);
    }
  }

  lemma SurvivesOneMore(rules: Rules, w: World, blocks: seq<IndexedBlock>, n: nat, r: Row)
    ensures SurvivesIn(rules, OneMore(blocks, w, n), r)
       <==> r in RowsOf(EventsOf(rules, w(n)))
            || (SurvivesIn(rules, blocks, r) && !KeyIn(EventsOf(rules, w(n)), KeyOfRow(r)))
  {
    hide KeyIn, EventsOf;
    var more := OneMore(blocks, w, n);
    forall i | 0 <= i < |blocks|
      ensures Survives(rules, more[i], r)
         <==> Survives(rules, blocks[i], r) && !KeyIn(EventsOf(rules, w(n)), KeyOfRow(r))
    {
      LaterByOne(rules, blocks[i], LaterBlock(w, n), KeyOfRow(r));
    }
    assert Survives(rules, more[|blocks|], r) <==> r in RowsOf(EventsOf(rules, w(n)));
    if SurvivesIn(rules, blocks, r) && !KeyIn(EventsOf(rules, w(n)), KeyOfRow(r)) {
      var i :| 0 <= i < |blocks| && Survives(rules, blocks[i], r);
      assert Survives(rules, more[i], r);
    }
  }

  lemma LaterByOne(rules: Rules, b: IndexedBlock, l: LaterBlock, k: RowKey)
    ensures Overwritten(rules, b.(later := b.later + [l]), k)
       <==> Overwritten(rules, b, k) || KeyIn(EventsOf(rules, LaterHash(l)), k)
  {
    hide KeyIn, EventsOf;
    var more := b.later + [l];
    assert more[|b.later|] == l;
    assert forall j :: 0 <= j < |b.later| ==> more[j] == b.later[j];
    if Overwritten(rules, b, k) {
      var j :| 0 <= j < |b.later| && KeyIn(EventsOf(rules, LaterHash(b.later[j])), k);
      assert KeyIn(EventsOf(rules, LaterHash(more[j])), k);
    }
    if KeyIn(EventsOf(rules, LaterHash(l)), k) {
      assert KeyIn(EventsOf(rules, LaterHash(more[|b.later|])), k);
    }
  }

  /** The blocks `[from, end)` of the world on top of the indexed ones. */
  lemma {:induction false} BlocksCommitted(db: Db, chainId: nat, rules: Rules, w: World, blocks: seq<IndexedBlock>,
                                           from: nat, end: nat, cfg: AssignmentConfig)
    requires Valid(db) && HoldsBlocks(db, chainId, rules, blocks) && OneRowPerKey(rules, w) && from <= end
    ensures var done := WrittenAll(db, RowsOf(EventsIn(rules, HashesBetween(w, from, end))), cfg);
      Valid(done) && HoldsBlocks(done, chainId, rules, Extended(blocks, w, from, end))
    decreases end
  {
    hide Valid, WrittenAll, HoldsBlocks, OneRowPerKey, EventsOf;
    if from < end {
      var lower := HashesBetween(w, from, end - 1);
      assert HashesBetween(w, from, end)[..end - 1 - from] == lower;
      BlocksCommitted(db, chainId, rules, w, blocks, from, end - 1, cfg);
      RowsOfConcat(EventsIn(rules, lower), EventsOf(rules, w(end - 1)));
      WrittenAllAppend(db, RowsOf(EventsIn(rules, lower)), RowsOf(EventsOf(rules, w(end - 1))), cfg);
      BlockCommitted(WrittenAll(db, RowsOf(EventsIn(rules, lower)), cfg), chainId, rules, w,
                     Extended(blocks, w, from, end - 1), end - 1, cfg);
    } else {
      NothingCommitted(db, rules, w, from, cfg);
    }
  }

  lemma NothingCommitted(db: Db, rules: Rules, w: World, from: nat, cfg: AssignmentConfig)
    ensures WrittenAll(db, RowsOf(EventsIn(rules, HashesBetween(w, from, from))), cfg) == db
  {
  }

  // ---- Anchors ----

  lemma {:induction false} BlockMapIsHonest(blocks: seq<Block>, w: World)
    requires HonestBlocks(blocks, w)
    ensures forall n :: n in BlockMap(blocks) ==> BlockMap(blocks)[n].number == n && BlockMap(blocks)[n].hash == w(n)
    ensures forall n :: n in BlockMap(blocks) <==> exists b :: b in blocks && b.number == n
  {
    if blocks != [] {
      var n := |blocks| - 1;
      assert blocks == blocks[..n] + [blocks[n]];
      BlockMapIsHonest(blocks[..n], w);
    }
  }

  lemma {:induction false} AnchorsCoverRange(chain: ChainConfig, from: nat, end: nat, blocks: map<nat, Block>, w: World)
    requires forall n :: n in blocks ==> blocks[n].hash == w(n)
    requires AnchorsFromBlocks(chain, from, end, blocks).Some?
    ensures var anchors := AnchorsFromBlocks(chain, from, end, blocks).value;
      && (forall a :: a in anchors ==> AnchorOfWorld(a, chain, w, from, end))
      && (forall n :: from <= n < end ==> AnchoredIn(anchors, chain, n))
    decreases end
  {
    if from < end {
      AnchorsCoverRange(chain, from, end - 1, blocks, w);
      var rest := AnchorsFromBlocks(chain, from, end - 1, blocks).value;
      var last := AnchorAt(chain, end - 1, blocks[end - 1].hash, blocks[end - 1].parentHash);
      var anchors := AnchorsFromBlocks(chain, from, end, blocks).value;
      assert anchors == rest + [last];
      forall n | from <= n < end
        ensures AnchoredIn(anchors, chain, n)
      {
        if n < end - 1 {
          assert AnchoredIn(rest, chain, n);
          var a :| a in rest && a.key == AnchorKey(chain.chainId, chain.dataset, n);
          assert a in anchors;
        } else {
          assert last in anchors;
        }
      }
    }
  }

  ghost predicate AnchorOfWorld(a: BlockAnchor, chain: ChainConfig, w: World, from: nat, end: nat) {
    && a.key.chainId == chain.chainId && a.key.dataset == chain.dataset
    && from <= a.key.blockNumber < end && a.blockHash == w(a.key.blockNumber)
  }

  lemma {:induction false} AnchorsStored(db: Db, anchors: seq<BlockAnchor>)
    ensures var after := WithAnchors(db, anchors).anchors;
      && (forall k :: k in after ==>
            (k in db.anchors && after[k] == db.anchors[k]) || (after[k] in anchors && after[k].key == k))
      && (forall k :: k in db.anchors ==> k in after)
      && (forall a :: a in anchors ==> a.key in after)
    ensures WithAnchors(db, anchors) == db.(anchors := WithAnchors(db, anchors).anchors)
  {
    if anchors != [] {
      var n := |anchors| - 1;
      assert anchors == anchors[..n] + [anchors[n]];
      AnchorsStored(db, anchors[..n]);
    }
  }

  /** The anchors of a served range carry the world's hashes and leave out only heights the
      range's own finalized head covers. */
  lemma RangeAnchorsAreHonest(chain: ChainConfig, server: Server, rules: Rules, w: World, from: nat, to: nat,
                              logs: seq<Log>)
    requires UsesReorgProtection(chain.finality) && Honest(server, rules, w)
    requires AnchorsForRange(chain, server, from, to, logs).AnchorsReady? && to < U64_MAX
    ensures RangeAnchors(AnchorsForRange(chain, server, from, to, logs).anchors, chain, server, w, from, to + 1)
  {
    var finalized := server.finalized(AtRange(from)).value;
    var first := Max(from, SaturatingAdd(finalized, 1));
    if first <= to {
      var page := server.blocks(AtRange(from), first, to).value;
      BlockMapIsHonest(page.items, w);
      AnchorsCoverRange(chain, first, to + 1, BlockMap(page.items), w);
    }
  }

  /** Anchors that carry the world's hashes and, on a protected chain, cover every height above the finalized head read
      for the range. */
  ghost predicate RangeAnchors(anchors: seq<BlockAnchor>, chain: ChainConfig, server: Server, w: World, from: nat,
                               end: nat) {
    && (forall a :: a in anchors ==> AnchorOfWorld(a, chain, w, from, end))
    && (UsesReorgProtection(chain.finality) ==>
          && server.finalized(AtRange(from)).Some?
          && forall n :: from <= n < end && n > server.finalized(AtRange(from)).value ==> AnchoredIn(anchors, chain, n))
  }

  ghost predicate AnchoredIn(anchors: seq<BlockAnchor>, chain: ChainConfig, n: nat) {
    exists a :: a in anchors && a.key == AnchorKey(chain.chainId, chain.dataset, n)
  }

  /** The logs a block hash stands for name that block, if they name one. */
  ghost predicate LogsNameTheirBlocks(rules: Rules, w: World) {
    forall n, log :: log in rules.contents(w(n)) ==> NamesBlock(log, n, w(n))
  }

  predicate NamesBlock(log: Log, n: nat, hash: string) {
    log.blockNumber == n && (log.blockHash.Some? ==> log.blockHash.value == hash)
  }

  /** A protected chain takes its anchors from headers, an unprotected one from logs. */
  ghost predicate AnchorsTrue(chain: ChainConfig, rules: Rules, w: World) {
    UsesReorgProtection(chain.finality) || LogsNameTheirBlocks(rules, w)
  }

  lemma {:induction false} AddedAnchor(anchors: seq<BlockAnchor>, a: BlockAnchor)
    ensures forall b :: b in AddAnchor(anchors, a) ==> b == a || b in anchors
  {
    if anchors != [] && anchors[0].key.blockNumber < a.key.blockNumber {
      AddedAnchor(anchors[1..], a);
    }
  }

  lemma {:induction false} LogAnchorsAreHonest(chain: ChainConfig, w: World, from: nat, end: nat, logs: seq<Log>)
    requires forall log :: log in logs ==>
               from <= log.blockNumber < end && NamesBlock(log, log.blockNumber, w(log.blockNumber))
    ensures forall a :: a in AnchorsFromLogs(chain, logs) ==> AnchorOfWorld(a, chain, w, from, end)
  {
    if logs != [] {
      var n := |logs| - 1;
      assert logs[n] in logs;
      LogAnchorsAreHonest(chain, w, from, end, logs[..n]);
      if logs[n].blockHash.Some? {
        AddedAnchor(AnchorsFromLogs(chain, logs[..n]),
                    AnchorAt(chain, logs[n].blockNumber, logs[n].blockHash.value, logs[n].parentHash));
      }
    }
  }

  lemma {:induction false} LogsInRange(rules: Rules, w: World, from: nat, end: nat)
    requires LogsNameTheirBlocks(rules, w)
    ensures forall log :: log in LogsBetween(rules, w, from, end) ==>
              from <= log.blockNumber < end && NamesBlock(log, log.blockNumber, w(log.blockNumber))
    decreases end
  {
    if from < end {
      LogsInRange(rules, w, from, end - 1);
    }
  }

  /** The anchors committed with the served blocks `[from, end)` of a request up to `to`. */
  ghost function ServedAnchors(chain: ChainConfig, server: Server, from: nat, to: nat, end: nat): seq<BlockAnchor> {
    var logs := if server.logs(from, to).Some? then server.logs(from, to).value.items else [];
    if end == 0 then []
    else match AnchorsForRange(chain, server, from, end - 1, logs)
      case AnchorsReady(anchors) => anchors
      case _ => []
  }

  /** What a committed range is made of. */
  lemma RangeShape(chain: ChainConfig, server: Server, rules: Rules, cfg: AssignmentConfig, db: Db, w: World,
                   next: nat, to: nat)
    requires AnchorsTrue(chain, rules, w) && next <= to && Honest(server, rules, w)
    requires ProcessRange(chain, server, rules.decode, cfg, db, next, to).RangeDone?
    ensures var done := ProcessRange(chain, server, rules.decode, cfg, db, next, to);
      && next < done.next
      && RangeAnchors(ServedAnchors(chain, server, next, to, done.next), chain, server, w, next, done.next)
      && done.db == Committed(db, RowsOf(EventsIn(rules, HashesBetween(w, next, done.next))),
                              ServedAnchors(chain, server, next, to, done.next),
                              chain.chainId, chain.dataset, done.next, cfg)
  {
    hide Committed, AnchorsForRange, RangeAnchors, EventsIn, DecodeAll, RowsOf, AnchorsTrue;
    var page := server.logs(next, to).value;
    var end := Min(page.servedEnd.value, to) + 1;
    assert HonestLogs(page, rules, w, next, to);
    DecodedRange(rules, w, next, end);
    if UsesReorgProtection(chain.finality) {
      RangeAnchorsAreHonest(chain, server, rules, w, next, end - 1, page.items);
    } else {
      NamedAnchorsAreHonest(chain, server, rules, w, next, end - 1, page.items);
    }
  }

  lemma NamedAnchorsAreHonest(chain: ChainConfig, server: Server, rules: Rules, w: World, from: nat, to: nat,
                              logs: seq<Log>)
    requires !UsesReorgProtection(chain.finality) && AnchorsTrue(chain, rules, w)
    requires logs == LogsBetween(rules, w, from, to + 1)
    ensures AnchorsForRange(chain, server, from, to, logs).AnchorsReady?
    ensures RangeAnchors(AnchorsForRange(chain, server, from, to, logs).anchors, chain, server, w, from, to + 1)
  {
    hide LogsBetween, AnchorsFromLogs, AnchorOfWorld, NamesBlock;
    LogsInRange(rules, w, from, to + 1);
    LogAnchorsAreHonest(chain, w, from, to + 1, logs);
  }

  // ---- One committed range, one poll ----

  ghost predicate SameTables(a: Db, b: Db) {
    a.rows == b.rows && a.view == b.view
  }

  /** The tables after the blocks `[from, end)` of the world are written. */
  ghost function TablesAfter(db: Db, rules: Rules, w: World, from: nat, end: nat, cfg: AssignmentConfig): Db
    requires from <= end
  {
    WrittenAll(db, RowsOf(EventsIn(rules, HashesBetween(w, from, end))), cfg)
  }

  /** A range step of a protected chain either leaves everything as it was or commits exactly the blocks from `next`
      to its served end: their rows, their anchors and the checkpoint. */
  lemma RangeExtends(chain: ChainConfig, server: Server, rules: Rules, cfg: AssignmentConfig, db: Db, w: World,
                     blocks: seq<IndexedBlock>, next: nat, to: nat)
    requires AnchorsTrue(chain, rules, w) && next <= to
    requires MarksOk(db, chain, blocks, next) && Honest(server, rules, w)
    ensures var done := ProcessRange(chain, server, rules.decode, cfg, db, next, to);
      done.RangeDone? ==>
        && next < done.next
        && MarksOk(done.db, chain, Extended(blocks, w, next, done.next), done.next)
        && SameTables(done.db, TablesAfter(db, rules, w, next, done.next, cfg))
  {
    hide Honest, AnchorsTrue, ProcessRange, AnchorOfWorld, WrittenAll, AnchorsMatch, ServedAnchors, AnchoredIn,
        EventsIn;
    match ProcessRange(chain, server, rules.decode, cfg, db, next, to)
    case RangeDone(db2, next2, _) =>
      RangeShape(chain, server, rules, cfg, db, w, next, to);
      var rows := RowsOf(EventsIn(rules, HashesBetween(w, next, next2)));
      var anchors := ServedAnchors(chain, server, next, to, next2);
      var written := WrittenAll(db, rows, cfg);
      WrittenAllFrame(db, db, rows, cfg);
      AnchorsStored(written, anchors);
      AnchorsExtend(written, chain, w, blocks, next, next2, anchors);
      ExtendedParts(blocks, w, next, next2);
    case _ =>
  }

  lemma AnchorsExtend(db: Db, chain: ChainConfig, w: World, blocks: seq<IndexedBlock>, next: nat, end: nat,
                      anchors: seq<BlockAnchor>)
    requires AnchorsMatch(db.anchors, chain, blocks) && chain.startBlock + |blocks| == next <= end
    requires forall a :: a in anchors ==> AnchorOfWorld(a, chain, w, next, end)
    ensures AnchorsMatch(WithAnchors(db, anchors).anchors, chain, Extended(blocks, w, next, end))
  {
    hide WithAnchors, Extended;
    var after := WithAnchors(db, anchors).anchors;
    var all := Extended(blocks, w, next, end);
    AnchorsStored(db, anchors);
    ExtendedParts(blocks, w, next, end);
    forall k | k in after && k.chainId == chain.chainId && k.dataset == chain.dataset
      ensures chain.startBlock <= k.blockNumber < chain.startBlock + |all|
      ensures after[k].blockHash == all[k.blockNumber - chain.startBlock].hash
    {
      if after[k] in anchors && after[k].key == k {
        assert AnchorOfWorld(after[k], chain, w, next, end);
      }
    }
  }

  lemma {:induction false} ExtendedTwice(blocks: seq<IndexedBlock>, w: World, from: nat, middle: nat, end: nat)
    requires from <= middle <= end
    ensures Extended(Extended(blocks, w, from, middle), w, middle, end) == Extended(blocks, w, from, end)
  {
    if middle < end {
      ExtendedTwice(blocks, w, from, middle, end - 1);
    }
  }

  /** Writing some blocks and then the next ones is writing them all. */
  lemma TablesTwice(db: Db, db1: Db, db2: Db, rules: Rules, w: World, from: nat, middle: nat, end: nat,
                    cfg: AssignmentConfig)
    requires from <= middle <= end && SameTables(db1, TablesAfter(db, rules, w, from, middle, cfg))
    requires SameTables(db2, TablesAfter(db1, rules, w, middle, end, cfg))
    ensures SameTables(db2, TablesAfter(db, rules, w, from, end, cfg))
  {
    hide WrittenAll, EventsIn;
    var a, b := HashesBetween(w, from, middle), HashesBetween(w, middle, end);
    var written := TablesAfter(db, rules, w, from, middle, cfg);
    assert HashesBetween(w, from, end) == a + b;
    EventsInConcat(rules, a, b);
    RowsOfConcat(EventsIn(rules, a), EventsIn(rules, b));
    WrittenAllAppend(db, RowsOf(EventsIn(rules, a)), RowsOf(EventsIn(rules, b)), cfg);
    WrittenAllFrame(written, db1, RowsOf(EventsIn(rules, b)), cfg);
  }

  /** A poll writes the blocks from `next` to where it stops, in order, wherever it fails or is served short. */
  lemma {:induction false} PollExtends(chain: ChainConfig, server: Server, rules: Rules, cfg: AssignmentConfig, db: Db,
                                       w: World, blocks: seq<IndexedBlock>, next: nat, target: nat)
    requires AnchorsTrue(chain, rules, w)
    requires MarksOk(db, chain, blocks, next) && Honest(server, rules, w)
    ensures var polled := Poll(chain, server, rules.decode, cfg, db, next, target);
      && next <= polled.next
      && MarksOk(polled.db, chain, Extended(blocks, w, next, polled.next), polled.next)
      && SameTables(polled.db, TablesAfter(db, rules, w, next, polled.next, cfg))
    decreases if next <= target then target - next + 1 else 0
  {
    hide MarksOk, Honest, AnchorsTrue, ProcessRange, WrittenAll, TablesAfter, SameTables;
    NothingPolled(db, rules, w, next, cfg);
    if next <= target {
      match PlanNextRange(next, chain.batchSize)
      case None =>
      case Some(range) =>
        var to := Min(range.to, target);
        RangeExtends(chain, server, rules, cfg, db, w, blocks, next, to);
        match ProcessRange(chain, server, rules.decode, cfg, db, next, to)
        case RangeFailed =>
        case RangeIdle =>
        case RangeDone(db1, next1, stop) =>
          if !stop {
            PollExtends(chain, server, rules, cfg, db1, w, Extended(blocks, w, next, next1), next1, target);
            var polled := Poll(chain, server, rules.decode, cfg, db1, next1, target);
            ExtendedTwice(blocks, w, next, next1, polled.next);
            TablesTwice(db, db1, polled.db, rules, w, next, next1, polled.next, cfg);
          }
    }
  }

  lemma NothingPolled(db: Db, rules: Rules, w: World, next: nat, cfg: AssignmentConfig)
    ensures SameTables(db, TablesAfter(db, rules, w, next, next, cfg))
  {
  }
}
