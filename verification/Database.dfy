/** The writer and the rollback as they run against the tables (src/database.rs). Each method is
    proved against the table functions of `DatabaseSpec`; a method stands for one transaction. */
module Database {
  import opened Prelude
  import opened Schema
  import opened Assignments
  import opened DatabaseSpec
  import opened SignatureIds
  import opened Views

  class Store {
    const cfg: AssignmentConfig
    var rows: map<RowKey, Row>
    var view: map<string, Columns>
    var anchors: map<AnchorKey, BlockAnchor>
    var checkpoints: map<CheckpointKey, nat>

    constructor (cfg: AssignmentConfig)
      ensures this.cfg == cfg && State() == EMPTY_DB
    {
      this.cfg := cfg;
      rows, view, anchors, checkpoints := map[], map[], map[], map[];
    }

    ghost function State(): Db
      reads this
    {
      Db(rows, view, anchors, checkpoints)
    }

    /** SELECT ... FROM ormp_message_assigned WHERE msg_hash = ANY(hashes) ORDER BY block_number, id. */
    method SelectAssignments(hashes: set<string>) returns (found: seq<Row>)
      requires Valid(State())
      ensures Listing(found, AssignmentsIn(rows, hashes))
      ensures forall r :: r in found ==>
                r.AssignedRow? && r.msgHash in hashes && KeyOfRow(r) in rows && rows[KeyOfRow(r)] == r
      ensures forall k :: k in rows && rows[k].AssignedRow? && rows[k].msgHash in hashes ==> rows[k] in found
    {
      found := [];
      var pending := set k | k in rows && rows[k].AssignedRow? && rows[k].msgHash in hashes;
      ghost var all := pending;
      ghost var done: set<Row> := {};
      while pending != {}
        invariant pending <= all
        invariant done == set k | k in all && k !in pending :: rows[k]
        invariant Listing(found, done)
        decreases pending
      {
        var k :| k in pending;
        assert rows[k] !in done && DistinctIds(done + {rows[k]});
        found := InsertSorted(found, rows[k], done);
        done := done + {rows[k]};
        pending := pending - {k};
      }
      assert done == AssignmentsIn(rows, hashes);
    }

    method UpsertRow(r: Row)
      modifies this`rows, this`view
      ensures State() == Upsert(old(State()), r)
    {
      rows := rows[KeyOfRow(r) := r];
      if r.AcceptedRow? && r.id !in view {
        view := view[r.id := NULL_COLUMNS];
      }
    }

    /** The early return and the CASE update, applied to the accepted row with this message hash, if any. */
    method BackfillMessageAssignment(r: Row)
      requires Valid(State()) && r.AssignedRow?
      modifies this`view
      ensures State() == Backfill(old(State()), r, cfg)
    {
      var legacyB49eOracleMatch := EqIgnoreAsciiCase(r.oracle, B49E_ORACLE);
      var oracleMatch := SqlContainsAddress(cfg.oracleAddresses, r.oracle) && !legacyB49eOracleMatch;
      var relayerMatch := SqlContainsAddress(cfg.relayerAddresses, r.relayer);
      if r.msgHash in view {
        assert AcceptedKey(r.msgHash) in rows && rows[AcceptedKey(r.msgHash)].AcceptedRow?;
        TwoMatchersAgree(rows[AcceptedKey(r.msgHash)], r, cfg, view[r.msgHash]);
      }
      if !oracleMatch && !legacyB49eOracleMatch && !relayerMatch {
        assert r.msgHash in view ==> view[r.msgHash := view[r.msgHash]] == view;
        return;
      }
      if r.msgHash in view {
        var stored := rows[AcceptedKey(r.msgHash)];
        view := view[r.msgHash := SqlBackfill(stored, r, cfg, view[r.msgHash])];
      }
    }

    /** Applies every stored assignment of a just accepted message, without clearing its columns first. */
    method BackfillAcceptedAssignment(r: Row)
      requires Valid(State()) && r.AcceptedRow? && AcceptedKey(r.msgHash) in rows && rows[AcceptedKey(r.msgHash)] == r
      modifies this`view
      ensures State() == old(State()).(view :=
                old(view)[r.msgHash := Fold(r, SortedRows(AssignmentsOf(rows, r.msgHash)), cfg, old(view)[r.msgHash])])
    {
      hide SortedRows, Apply, Listing, AssignmentsIn, AssignmentsOf, KeyOfRow, WellKeyed;
      var assignments := SelectAssignments({r.msgHash});
      var i := 0;
      while i < |assignments|
        invariant 0 <= i <= |assignments|
        invariant Valid(State()) && r.msgHash in old(view)
        invariant view == old(view)[r.msgHash := Fold(r, assignments[..i], cfg, old(view)[r.msgHash])]
      {
        BackfillMessageAssignment(assignments[i]);
        assert assignments[..i + 1][..i] == assignments[..i];
        i := i + 1;
      }
      assert assignments[..i] == assignments;
      ListingIsSortedRows(assignments, rows, r.msgHash);
    }

    method WriteLegacyEvent(e: Event)
      requires Valid(State())
      modifies this`rows, this`view
      ensures State() == Written(old(State()), RowOf(e), cfg) && Valid(State())
    {
      var r := RowOf(e);
      WrittenIsValid(State(), r, cfg);
      UpsertKeepsValid(State(), r);
      UpsertRow(r);
      if r.AssignedRow? {
        BackfillMessageAssignment(r);
      } else if r.AcceptedRow? {
        BackfillAcceptedAssignment(r);
      }
    }

    /** The events of one transaction, in order. */
    method WriteEvents(events: seq<Event>) returns (written: nat)
      requires Valid(State())
      modifies this`rows, this`view
      ensures State() == WrittenAll(old(State()), RowsOf(events), cfg) && Valid(State())
      ensures written == |events|
    {
      hide Written, Valid, RowOf;
      ghost var before := State();
      var i := 0;
      while i < |events|
        invariant 0 <= i <= |events|
        invariant Valid(State())
        invariant State() == WrittenAll(before, RowsOf(events)[..i], cfg)
      {
        WriteLegacyEvent(events[i]);
        assert RowsOf(events)[..i + 1][..i] == RowsOf(events)[..i];
        i := i + 1;
      }
      assert RowsOf(events)[..i] == RowsOf(events);
      written := |events|;
    }

    /** One transaction: the events, then the anchors, then the checkpoint. */
    method WriteEventsAndAdvanceCheckpoint(events: seq<Event>, newAnchors: seq<BlockAnchor>, chainId: nat,
                                           dataset: string, nextBlock: nat) returns (written: nat)
      requires Valid(State())
      modifies this
      ensures State() == Committed(old(State()), RowsOf(events), newAnchors, chainId, dataset, nextBlock, cfg)
      ensures Valid(State()) && written == |events|
    {
      written := WriteEvents(events);
      UpsertBlockAnchors(newAnchors);
      checkpoints := checkpoints[CheckpointKey(chainId, dataset) := nextBlock];
    }

    /** UPDATE ... SET next_block: no row, no change. */
    method Advance(chainId: nat, dataset: string, nextBlock: nat)
      modifies this`checkpoints
      ensures State() == if CheckpointKey(chainId, dataset) in old(checkpoints)
                         then WithCheckpoint(old(State()), chainId, dataset, nextBlock) else old(State())
    {
      if CheckpointKey(chainId, dataset) in checkpoints {
        checkpoints := checkpoints[CheckpointKey(chainId, dataset) := nextBlock];
      }
    }

    /** The default path: three steps, each its own transaction. Once the checkpoint row exists, it ends
        where the one transaction ends. */
    method WriteEventsThenAdvance(events: seq<Event>, newAnchors: seq<BlockAnchor>, chainId: nat, dataset: string,
                                  nextBlock: nat) returns (written: nat)
      requires Valid(State())
      modifies this
      ensures CheckpointKey(chainId, dataset) in old(checkpoints) ==>
                State() == Committed(old(State()), RowsOf(events), newAnchors, chainId, dataset, nextBlock, cfg)
      ensures CheckpointKey(chainId, dataset) !in old(checkpoints) ==>
                State() == Committed(old(State()), RowsOf(events), newAnchors, chainId, dataset, nextBlock, cfg)
                             .(checkpoints := old(checkpoints))
      ensures Valid(State()) && written == |events|
    {
      ghost var before := State();
      written := WriteEvents(events);
      UpsertBlockAnchors(newAnchors);
      WrittenAllFrame(before, before, RowsOf(events), cfg);
      AnchorsKeepCheckpoints(WrittenAll(before, RowsOf(events), cfg), newAnchors);
      Advance(chainId, dataset, nextBlock);
    }

    method UpsertBlockAnchors(newAnchors: seq<BlockAnchor>)
      modifies this`anchors
      ensures State() == WithAnchors(old(State()), newAnchors)
      ensures rows == old(rows) && view == old(view)
    {
      var i := 0;
      while i < |newAnchors|
        invariant 0 <= i <= |newAnchors|
        invariant State() == WithAnchors(old(State()), newAnchors[..i])
      {
        anchors := anchors[newAnchors[i].key := newAnchors[i]];
        assert newAnchors[..i + 1][..i] == newAnchors[..i];
        i := i + 1;
      }
      assert newAnchors[..i] == newAnchors;
    }

    /** INSERT ... ON CONFLICT DO NOTHING, then SELECT. */
    method ReadOrCreate(chainId: nat, dataset: string, startBlock: nat) returns (nextBlock: nat)
      modifies this`checkpoints
      ensures var k := CheckpointKey(chainId, dataset);
        && State() == WithCheckpointCreated(old(State()), chainId, dataset, startBlock)
        && k in checkpoints && nextBlock == checkpoints[k]
    {
      var k := CheckpointKey(chainId, dataset);
      if k !in checkpoints {
        checkpoints := checkpoints[k := startBlock];
      }
      nextBlock := checkpoints[k];
    }

    // ---- Rollback ----

    /** Removes signature rows through the anchors of the rolled back blocks. */
    method DeleteSignatureSubmittionsBySourceAnchors(chainId: nat, dataset: string, block: nat)
      modifies this`rows
      ensures rows == map k | k in old(rows) && !SignatureHit(anchors, old(rows)[k], chainId, dataset, block)
          :: old(rows)[k]
    {
      rows := map k | k in rows
                && !(rows[k].SignatureRow?
                     && exists a :: a in anchors && a.chainId == chainId && a.dataset == dataset
                         && a.blockNumber >= block
                                    && rows[k].blockNumber == a.blockNumber
                                    && Like(AnchorPattern(a.blockNumber, anchors[a].blockHash), rows[k].id))
                :: rows[k];
      assert forall k :: k in old(rows) ==>
        (SignatureHit(anchors, old(rows)[k], chainId, dataset, block) <==>
          (old(rows)[k].SignatureRow?
           && exists a :: a in anchors && SignatureHitBy(anchors[a], a, old(rows)[k], chainId, dataset, block)));
    }

    /** UPDATE ... SET the six columns to NULL WHERE msg_hash = ANY(hashes). */
    method ClearAssignmentColumns(hashes: set<string>)
      requires Valid(State())
      modifies this`view
      ensures view == map h | h in old(view) :: if h in hashes then NULL_COLUMNS else old(view)[h]
    {
      view := map h | h in view :: if h in hashes then NULL_COLUMNS else view[h];
    }

    /** Applies every stored assignment of the given messages, in one `(block_number, id)` order over all of them. */
    method ReapplyAssignments(hashes: set<string>, ghost before: map<string, Columns>)
      requires Valid(State()) && Refolded(State(), before, [], hashes, cfg)
      modifies this`view
      ensures Valid(State()) && view.Keys == before.Keys
      ensures forall h :: h in view ==> view[h] == if h in hashes then ViewOf(rows, h, cfg) else before[h]
    {
      hide Refolded, Backfill, ViewOf;
      var assignments := SelectAssignments(hashes);
      var i := 0;
      while i < |assignments|
        invariant 0 <= i <= |assignments|
        invariant Valid(State())
        invariant Refolded(State(), before, assignments[..i], hashes, cfg)
      {
        RefoldStep(State(), before, assignments[..i], assignments[i], hashes, cfg);
        assert assignments[..i + 1] == assignments[..i] + [assignments[i]];
        BackfillMessageAssignment(assignments[i]);
        i := i + 1;
      }
      assert assignments[..i] == assignments;
      RefoldedAll(State(), before, assignments, hashes, cfg);
    }

    /** The given messages end with the sorted fold of what is stored; the others keep their columns. */
    method RecomputeAcceptedAssignments(hashes: set<string>)
      requires Valid(State())
      modifies this`view
      ensures view.Keys == old(view).Keys
      ensures forall h :: h in view ==> view[h] == if h in hashes then ViewOf(rows, h, cfg) else old(view)[h]
    {
      hide ViewOf;
      if hashes == {} {
        return;
      }
      RefoldStart(State(), hashes, cfg);
      ClearAssignmentColumns(hashes);
      ReapplyAssignments(hashes, old(view));
    }

    /** DELETE FROM each legacy table WHERE chain_id = c AND block_number >= b. */
    method DeleteFromLegacyTables(chainId: nat, block: nat)
      modifies this`rows
      ensures rows == map k | k in old(rows) && !(old(rows)[k].chainId == chainId && old(rows)[k].blockNumber >= block)
                        :: old(rows)[k]
    {
      var tables := [HashImportedTable, AcceptedTable, AssignedTable, DispatchedTable, RecvTable, SentTable,
                     SignatureTable];
      var i := 0;
      while i < |tables|
        invariant 0 <= i <= |tables|
        invariant rows == map k | k in old(rows)
                            && !(k.table in tables[..i] && old(rows)[k].chainId == chainId
                                 && old(rows)[k].blockNumber >= block)
                            :: old(rows)[k]
      {
        rows := map k | k in rows && !(k.table == tables[i] && rows[k].chainId == chainId
                                       && rows[k].blockNumber >= block)
          :: rows[k];
        assert tables[..i + 1] == tables[..i] + [tables[i]];
        i := i + 1;
      }
      assert tables[..i] == tables;
      forall t: Table
        ensures t in tables
      {
        assert t == tables[0] || t == tables[1] || t == tables[2] || t == tables[3] || t == tables[4] || t == tables[5]
          || t == tables[6];
      }
    }

    /** The deletions of a rollback; an accepted row takes its six columns with it. */
    method DeleteRolledBackRows(chainId: nat, dataset: string, block: nat)
      requires Valid(State())
      modifies this`rows, this`view
      ensures rows == KeptRows(old(State()), chainId, dataset, block)
      ensures view == map h | h in old(view) && AcceptedKey(h) in rows :: old(view)[h]
      ensures Valid(State())
    {
      ghost var before := State();
      DeleteSignatureSubmittionsBySourceAnchors(chainId, dataset, block);
      DeleteFromLegacyTables(chainId, block);
      assert rows == KeptRows(before, chainId, dataset, block);
      view := map h | h in view && AcceptedKey(h) in rows :: view[h];
    }

    /** One transaction: the touched messages are read first, then rows are deleted table by table,
        then columns, anchors and the checkpoint are brought back. */
    method RollbackLegacyFrom(chainId: nat, dataset: string, block: nat)
      requires Valid(State())
      modifies this
      ensures State() == RolledBack(old(State()), chainId, dataset, block, cfg) && Valid(State())
    {
      hide ViewOf, KeptRows, RolledBack, WellKeyed, AssignmentsOf;
      ghost var before := State();
      var touched := set k | k in rows && rows[k].AssignedRow? && rows[k].chainId == chainId
          && rows[k].blockNumber >= block
        :: rows[k].msgHash;
      DeleteRolledBackRows(chainId, dataset, block);
      ghost var deleted := State();
      RecomputeAcceptedAssignments(touched);
      RollbackParts(before, deleted, view, chainId, dataset, block, cfg);
      anchors := map k | k in anchors && !(k.chainId == chainId && k.dataset == dataset && k.blockNumber >= block)
          :: anchors[k];
      checkpoints := checkpoints[CheckpointKey(chainId, dataset) := block];
    }
  }

  /** The deletions and the recomputed columns make up the rollback. */
  lemma RollbackParts(before: Db, deleted: Db, view: map<string, Columns>, chainId: nat, dataset: string, block: nat,
                      cfg: AssignmentConfig)
    requires Valid(deleted) && deleted.rows == KeptRows(before, chainId, dataset, block)
    requires deleted.view == map h | h in before.view && AcceptedKey(h) in deleted.rows :: before.view[h]
    requires view.Keys == deleted.view.Keys
    requires forall h :: h in view ==>
               view[h] == if h in TouchedMessages(before.rows, chainId, block) then ViewOf(deleted.rows, h, cfg)
                   else deleted.view[h]
    ensures RolledBack(before, chainId, dataset, block, cfg)
         == Db(deleted.rows, view, KeptAnchors(before.anchors, chainId, dataset, block),
               before.checkpoints[CheckpointKey(chainId, dataset) := block])
    ensures Valid(RolledBack(before, chainId, dataset, block, cfg))
  {
    hide ViewOf, KeptRows;
    assert view == RolledBack(before, chainId, dataset, block, cfg).view;
  }

  lemma {:induction false} AnchorsKeepCheckpoints(db: Db, anchors: seq<BlockAnchor>)
    ensures WithAnchors(db, anchors).checkpoints == db.checkpoints
  {
    if anchors != [] {
      AnchorsKeepCheckpoints(db, anchors[..|anchors| - 1]);
    }
  }

  // ---- Listings ----

  lemma {:induction false} ListingUnique(a: seq<Row>, b: seq<Row>, rows: set<Row>)
    requires Listing(a, rows) && Listing(b, rows)
    ensures a == b
  {
    assert b != [] ==> b[0] in a;
    if a != [] {
      assert a[0] in b;
      var m, n := |a| - 1, |b| - 1;
      LastIsGreatest(a);
      LastIsGreatest(b);
      assert a[m] in b && b[n] in a;
      OnlyOneBefore(a[m], b[n]);
      DropLast(a, rows);
      DropLast(b, rows);
      ListingUnique(a[..m], b[..n], rows - {a[m]});
      assert a == a[..m] + [a[m]] && b == b[..n] + [b[n]];
    }
  }

  lemma LastIsGreatest(a: seq<Row>)
    requires StrictlySorted(a) && a != []
    ensures forall x :: x in a ==> x == a[|a| - 1] || Before(x, a[|a| - 1])
  {
  }

  lemma OnlyOneBefore(a: Row, b: Row)
    ensures !(Before(a, b) && Before(b, a))
  {
    if Before(a, b) {
      BeforeIsStrict(a, b);
    }
  }

  lemma DropLast(a: seq<Row>, rows: set<Row>)
    requires Listing(a, rows) && a != []
    ensures Listing(a[..|a| - 1], rows - {a[|a| - 1]})
  {
    var n := |a| - 1;
    assert a == a[..n] + [a[n]];
    forall i | 0 <= i < n
      ensures a[i] != a[n]
    {
      BeforeIsStrict(a[i], a[n]);
    }
  }

  /** The subsequence of one message. */
  function OfMessage(s: seq<Row>, h: string): seq<Row>
    requires forall r :: r in s ==> r.AssignedRow?
  {
    if s == [] then []
    else
      var n := |s| - 1;
      var rest := OfMessage(s[..n], h);
      if s[n].msgHash == h then rest + [s[n]] else rest
  }

  lemma {:induction false} OfMessageSorted(s: seq<Row>, h: string)
    requires StrictlySorted(s) && forall r :: r in s ==> r.AssignedRow?
    ensures StrictlySorted(OfMessage(s, h))
    ensures forall r :: r in OfMessage(s, h) <==> r in s && r.msgHash == h
  {
    if s != [] {
      var n := |s| - 1;
      assert s == s[..n] + [s[n]];
      OfMessageSorted(s[..n], h);
      forall r | r in s[..n]
        ensures Before(r, s[n])
      {
      }
    }
  }

  ghost function AssignmentsIn(rows: map<RowKey, Row>, hashes: set<string>): set<Row> {
    set k | k in rows && rows[k].AssignedRow? && rows[k].msgHash in hashes :: rows[k]
  }

  lemma ListingIsSortedRows(s: seq<Row>, rows: map<RowKey, Row>, h: string)
    requires WellKeyed(rows) && Listing(s, AssignmentsIn(rows, {h}))
    ensures s == SortedRows(AssignmentsOf(rows, h))
  {
    assert AssignmentsIn(rows, {h}) == AssignmentsOf(rows, h);
    AssignmentsHaveDistinctIds(rows, h);
    SortedRowsAreListed(AssignmentsOf(rows, h));
    ListingUnique(s, SortedRows(AssignmentsOf(rows, h)), AssignmentsOf(rows, h));
  }

  /** The given messages hold the fold of their part of `s`, all others what they held before. */
  ghost predicate Refolded(db: Db, before: map<string, Columns>, s: seq<Row>, hashes: set<string>,
                           cfg: AssignmentConfig)
    requires Valid(db)
  {
    && db.view.Keys == before.Keys && (forall r :: r in s ==> r.AssignedRow?)
    && forall h :: h in db.view ==>
         db.view[h] == if h in hashes then Fold(db.rows[AcceptedKey(h)], OfMessage(s, h), cfg, NULL_COLUMNS)
             else before[h]
  }

  lemma RefoldStart(db: Db, hashes: set<string>, cfg: AssignmentConfig)
    requires Valid(db)
    ensures var cleared := db.(view := map h | h in db.view :: if h in hashes then NULL_COLUMNS else db.view[h]);
      Valid(cleared) && Refolded(cleared, db.view, [], hashes, cfg)
  {
  }

  lemma RefoldStep(db: Db, before: map<string, Columns>, s: seq<Row>, r: Row, hashes: set<string>,
                   cfg: AssignmentConfig)
    requires Valid(db) && Refolded(db, before, s, hashes, cfg)
    requires r.AssignedRow? && r.msgHash in hashes
    ensures Valid(Backfill(db, r, cfg)) && Refolded(Backfill(db, r, cfg), before, s + [r], hashes, cfg)
  {
    hide Apply;
    assert (s + [r])[..|s|] == s;
  }

  /** Once all their assignments are applied, the given messages hold the specified view. */
  lemma RefoldedAll(db: Db, before: map<string, Columns>, s: seq<Row>, hashes: set<string>, cfg: AssignmentConfig)
    requires Valid(db) && Refolded(db, before, s, hashes, cfg) && Listing(s, AssignmentsIn(db.rows, hashes))
    ensures db.view.Keys == before.Keys
    ensures forall h :: h in db.view ==> db.view[h] == if h in hashes then ViewOf(db.rows, h, cfg) else before[h]
  {
    forall h | h in db.view && h in hashes
      ensures OfMessage(s, h) == SortedRows(AssignmentsOf(db.rows, h))
    {
      OfMessageSorted(s, h);
      assert Listing(OfMessage(s, h), AssignmentsOf(db.rows, h));
      AssignmentsHaveDistinctIds(db.rows, h);
      SortedRowsAreListed(AssignmentsOf(db.rows, h));
      ListingUnique(OfMessage(s, h), SortedRows(AssignmentsOf(db.rows, h)), AssignmentsOf(db.rows, h));
    }
  }
}
