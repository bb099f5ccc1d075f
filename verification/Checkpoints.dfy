/** The in-memory checkpoint store (src/checkpoint.rs): what it does to checkpoints and anchors is what
    the Postgres store does to them, whatever the event tables hold. */
module Checkpoints {
  import opened Schema
  import opened Assignments
  import opened DatabaseSpec
  import opened Views

  /** The checkpoints and anchors, without the tables. */
  ghost function Marks(db: Db): Db {
    Db(map[], map[], db.anchors, db.checkpoints)
  }

  class InMemoryCheckpointStore {
    var checkpoints: map<CheckpointKey, nat>
    var anchors: map<AnchorKey, BlockAnchor>

    constructor ()
      ensures State() == EMPTY_DB
    {
      checkpoints, anchors := map[], map[];
    }

    ghost function State(): Db
      reads this
    {
      Db(map[], map[], anchors, checkpoints)
    }

    /** `entry(key).or_insert(start)`. */
    method ReadOrCreate(chainId: nat, dataset: string, startBlock: nat) returns (nextBlock: nat)
      modifies this`checkpoints
      ensures var k := CheckpointKey(chainId, dataset);
        && nextBlock == (if k in old(checkpoints) then old(checkpoints)[k] else startBlock)
        && checkpoints == old(checkpoints)[k := nextBlock]
    {
      var k := CheckpointKey(chainId, dataset);
      if k !in checkpoints {
        checkpoints := checkpoints[k := startBlock];
      }
      nextBlock := checkpoints[k];
    }

    method Advance(chainId: nat, dataset: string, nextBlock: nat)
      modifies this`checkpoints
      ensures State() == WithCheckpoint(old(State()), chainId, dataset, nextBlock)
    {
      checkpoints := checkpoints[CheckpointKey(chainId, dataset) := nextBlock];
    }

    method UpsertBlockAnchors(added: seq<BlockAnchor>)
      modifies this`anchors
      ensures State() == WithAnchors(old(State()), added)
    {
      var i := 0;
      while i < |added|
        invariant 0 <= i <= |added|
        invariant State() == WithAnchors(old(State()), added[..i])
      {
        anchors := anchors[added[i].key := added[i]];
        assert added[..i + 1][..i] == added[..i];
        i := i + 1;
      }
      assert added[..i] == added;
    }

    /** The stored anchors of the range, in block order. */
    method ReadBlockAnchors(chainId: nat, dataset: string, from: nat, last: nat) returns (found: seq<BlockAnchor>)
      requires forall k :: k in anchors ==> anchors[k].key == k
      ensures forall i, j :: 0 <= i < j < |found| ==> found[i].key.blockNumber < found[j].key.blockNumber
      ensures forall a :: a in found <==>
                && a.key in anchors && anchors[a.key] == a
                && a.key.chainId == chainId && a.key.dataset == dataset && from <= a.key.blockNumber <= last
    {
      hide Reads;
      found := [];
      var pending := set k | k in anchors && k.chainId == chainId && k.dataset == dataset
          && from <= k.blockNumber <= last;
      ghost var all, done := pending, {};
      NothingRead(anchors);
      while pending != {}
        invariant pending <= all && done == all - pending && Reads(anchors, found, done)
        invariant forall d, k :: d in done && k in pending ==> d.blockNumber < k.blockNumber
        decreases pending
      {
        var k := Lowest(pending, chainId, dataset);
        ReadsOneMore(anchors, found, done, k);
        found := found + [anchors[k]];
        pending, done := pending - {k}, done + {k};
      }
      assert done == all;
      ReadsAll(anchors, found, all);
    }

    /** `retain`, then the checkpoint. */
    method RollbackLegacyFrom(chainId: nat, dataset: string, block: nat, ghost cfg: AssignmentConfig)
      modifies this
      ensures State() == RolledBack(old(State()), chainId, dataset, block, cfg)
    {
      anchors := map k | k in anchors && (k.chainId != chainId || k.dataset != dataset || k.blockNumber < block)
          :: anchors[k];
      Advance(chainId, dataset, block);
      assert anchors == KeptAnchors(old(anchors), chainId, dataset, block);
    }
  }

  /** The anchors found so far are those of the keys read so far, in block order. */
  ghost predicate Reads(anchors: map<AnchorKey, BlockAnchor>, found: seq<BlockAnchor>, done: set<AnchorKey>) {
    && (forall a :: a in found <==> a.key in done && a.key in anchors && anchors[a.key] == a)
    && (forall i, j :: 0 <= i < j < |found| ==> found[i].key.blockNumber < found[j].key.blockNumber)
  }

  lemma NothingRead(anchors: map<AnchorKey, BlockAnchor>)
    ensures Reads(anchors, [], {})
  {
  }

  lemma ReadsOneMore(anchors: map<AnchorKey, BlockAnchor>, found: seq<BlockAnchor>, done: set<AnchorKey>, k: AnchorKey)
    requires Reads(anchors, found, done) && k in anchors && anchors[k].key == k
    requires forall d :: d in done ==> d.blockNumber < k.blockNumber
    ensures Reads(anchors, found + [anchors[k]], done + {k})
  {
    var more := found + [anchors[k]];
    forall i, j | 0 <= i < j < |more|
      ensures more[i].key.blockNumber < more[j].key.blockNumber
    {
      assert more[i] in found;
    }
  }

  lemma ReadsAll(anchors: map<AnchorKey, BlockAnchor>, found: seq<BlockAnchor>, all: set<AnchorKey>)
    requires Reads(anchors, found, all)
    ensures forall a :: a in found <==> a.key in all && a.key in anchors && anchors[a.key] == a
    ensures forall i, j :: 0 <= i < j < |found| ==> found[i].key.blockNumber < found[j].key.blockNumber
  {
  }

  method Lowest(keys: set<AnchorKey>, chainId: nat, dataset: string) returns (lowest: AnchorKey)
    requires keys != {} && forall k :: k in keys ==> k.chainId == chainId && k.dataset == dataset
    ensures lowest in keys && forall k :: k in keys && k != lowest ==> lowest.blockNumber < k.blockNumber
  {
    lowest :| lowest in keys;
    var rest := keys - {lowest};
    while rest != {}
      invariant rest <= keys && lowest in keys && lowest !in rest
      invariant forall k :: k in keys - rest && k != lowest ==> lowest.blockNumber < k.blockNumber
      decreases rest
    {
      var k :| k in rest;
      rest := rest - {k};
      if k.blockNumber < lowest.blockNumber {
        lowest := k;
      }
    }
  }

  lemma {:induction false} AnchorsIgnoreTables(db: Db, added: seq<BlockAnchor>)
    ensures Marks(WithAnchors(db, added)) == WithAnchors(Marks(db), added)
  {
    if added != [] {
      AnchorsIgnoreTables(db, added[..|added| - 1]);
    }
  }

  /** A committed range and a rollback change checkpoints and anchors as they would without any tables, so
      the in-memory store goes through the same checkpoints and anchors as the Postgres store. */
  lemma StoresAgree(db: Db, rows: seq<Row>, added: seq<BlockAnchor>, chainId: nat, dataset: string, block: nat,
                    cfg: AssignmentConfig)
    ensures Marks(Committed(db, rows, added, chainId, dataset, block, cfg))
         == WithCheckpoint(WithAnchors(Marks(db), added), chainId, dataset, block)
    ensures Marks(RolledBack(db, chainId, dataset, block, cfg)) == RolledBack(Marks(db), chainId, dataset, block, cfg)
  {
    WrittenAllFrame(db, db, rows, cfg);
    AnchorsIgnoreTables(WrittenAll(db, rows, cfg), added);
  }
}
