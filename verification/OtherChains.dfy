/** What another chain's writer may do between two passes leaves this chain's rows, anchors and checkpoint
    alone, provided no primary key is shared (src/database.rs). */
module OtherChains {
  import opened Schema
  import opened Assignments
  import opened DatabaseSpec
  import opened Views
  import opened History
  import opened RunnerSpec
  import opened RunnerSafety
  import opened RunnerRuns

  /** The event's key is not held by a row of a chain other than its own (signature rows aside). */
  ghost predicate OwnsKey(db: Db, chainId: nat, e: Event) {
    !RowOf(e).SignatureRow? && KeyOfRow(RowOf(e)) in db.rows ==> db.rows[KeyOfRow(RowOf(e))].chainId == chainId
  }

  /** Outside the signature table, every row of another chain was there before. */
  ghost predicate ForeignRowsKept(before: Db, after: Db, chainId: nat) {
    forall k :: k in after.rows && k.table != SignatureTable && after.rows[k].chainId != chainId ==>
      k in before.rows && before.rows[k] == after.rows[k]
  }

  lemma ForeignRowsKeptReflexive(db: Db, chainId: nat)
    ensures ForeignRowsKept(db, db, chainId)
  {
  }

  lemma ForeignRowsKeptStep(before: Db, db: Db, e: Event, chainId: nat, cfg: AssignmentConfig)
    requires ForeignRowsKept(before, db, chainId) && Valid(db) && e.meta.chainId == chainId
    ensures ForeignRowsKept(before, Written(db, RowOf(e), cfg), chainId)
  {
    hide Valid, Written;
    RowSource(e);
    WrittenIsValid(db, RowOf(e), cfg);
  }

  ghost predicate SameChainRows(before: Db, after: Db, chainId: nat) {
    forall r: Row :: !r.SignatureRow? && r.chainId == chainId ==> (Stored(after, r) <==> Stored(before, r))
  }

  lemma {:induction false} OtherRows(db: Db, chainId: nat, other: nat, events: seq<Event>, cfg: AssignmentConfig)
    requires Valid(db) && chainId != other
    requires forall e :: e in events ==> e.meta.chainId == other && OwnsKey(db, other, e)
    ensures var done := WrittenAll(db, RowsOf(events), cfg);
      Valid(done) && SameChainRows(db, done, chainId) && ForeignRowsKept(db, done, other)
  {
    hide Valid, Written, RowOf, ForeignRowsKept;
    if events == [] {
      ForeignRowsKeptReflexive(db, other);
    } else {
      var n := |events| - 1;
      var rest := events[..n];
      assert RowsOf(events)[..n] == RowsOf(rest);
      OtherRows(db, chainId, other, rest, cfg);
      var done := WrittenAll(db, RowsOf(rest), cfg);
      RowSource(events[n]);
      WrittenIsValid(done, RowOf(events[n]), cfg);
      ForeignRowsKeptStep(db, done, events[n], other, cfg);
      OtherRow(db, done, chainId, other, events[n], cfg);
    }
  }

  lemma OtherRow(db: Db, done: Db, chainId: nat, other: nat, e: Event, cfg: AssignmentConfig)
    requires Valid(done) && chainId != other && e.meta.chainId == other && OwnsKey(db, other, e)
    requires SameChainRows(db, done, chainId) && ForeignRowsKept(db, done, other)
    ensures SameChainRows(db, Written(done, RowOf(e), cfg), chainId)
  {
    hide Written, Valid, RowOf;
    var w := RowOf(e);
    var after := Written(done, w, cfg);
    RowSource(e);
    WrittenIsValid(done, w, cfg);
    assert after.rows == done.rows[KeyOfRow(w) := w];
    forall r: Row | !r.SignatureRow? && r.chainId == chainId
      ensures Stored(after, r) <==> Stored(db, r)
    {
      assert Stored(after, r) <==> Stored(done, r);
    }
  }

  lemma OtherAnchors(db: Db, chain: ChainConfig, other: nat, anchors: seq<BlockAnchor>)
    requires chain.chainId != other && forall a :: a in anchors ==> a.key.chainId == other
    ensures MarksUntouched(db, WithAnchors(db, anchors), chain)
    ensures SameTables(WithAnchors(db, anchors), db)
  {
    AnchorsStored(db, anchors);
  }

  /** A committed range of another chain. */
  lemma OtherCommitLeavesChain(db: Db, chain: ChainConfig, other: nat, dataset: string, events: seq<Event>,
                               anchors: seq<BlockAnchor>, next: nat, cfg: AssignmentConfig)
    requires Valid(db) && chain.chainId != other
    requires forall e :: e in events ==> e.meta.chainId == other && OwnsKey(db, other, e)
    requires forall a :: a in anchors ==> a.key.chainId == other
    ensures var after := Committed(db, RowsOf(events), anchors, other, dataset, next, cfg);
      MarksUntouched(db, after, chain) && RowsUntouched(db, after, chain)
  {
    hide RowOf, RowsOf, OwnsKey, WrittenAll, WithAnchors, ForeignRowsKept;
    var written := WrittenAll(db, RowsOf(events), cfg);
    OtherRows(db, chain.chainId, other, events, cfg);
    WrittenAllFrame(db, db, RowsOf(events), cfg);
    OtherAnchors(written, chain, other, anchors);
    SameRowsUntouched(db, written, Committed(db, RowsOf(events), anchors, other, dataset, next, cfg), chain);
  }

  lemma SameRowsUntouched(db: Db, written: Db, after: Db, chain: ChainConfig)
    requires Valid(written) && SameChainRows(db, written, chain.chainId) && SameTables(after, written)
    ensures RowsUntouched(db, after, chain)
  {
    forall r: Row | !r.SignatureRow? && r.chainId == chain.chainId
      ensures Stored(after, r) <==> Stored(db, r)
    {
      assert Stored(after, r) <==> Stored(written, r);
    }
  }

  /** A rollback of another chain. */
  lemma OtherRollbackLeavesChain(db: Db, chain: ChainConfig, other: nat, dataset: string, block: nat,
                                 cfg: AssignmentConfig)
    requires Valid(db) && chain.chainId != other
    ensures MarksUntouched(db, RolledBack(db, other, dataset, block, cfg), chain)
    ensures RowsUntouched(db, RolledBack(db, other, dataset, block, cfg), chain)
  {
    var after := RolledBack(db, other, dataset, block, cfg);
    RollbackRestoresView(db, other, dataset, block, cfg);
    forall r: Row | !r.SignatureRow? && r.chainId == chain.chainId
      ensures Stored(after, r) <==> Stored(db, r)
    {
      assert Stored(db, r) ==> !RemovedByRollback(db, r, other, dataset, block);
    }
  }
}
