/** Histories of commits and rollbacks against plain re-execution: rolling back equals never having
    indexed what was rolled back (src/database.rs). */
module History {
  import opened Schema
  import opened Assignments
  import opened DatabaseSpec
  import opened Views

  /** The transactions of the indexer: creating a checkpoint, committing a range, rolling back. */
  datatype Op =
    | Open(chainId: nat, dataset: string, start: nat)
    | Commit(events: seq<Event>, anchors: seq<BlockAnchor>, chainId: nat, dataset: string, next: nat)
    | Rollback(chainId: nat, dataset: string, block: nat)

  ghost function ApplyOp(db: Db, op: Op, cfg: AssignmentConfig): Db {
    match op
    case Open(c, ds, start) => WithCheckpointCreated(db, c, ds, start)
    case Commit(events, anchors, c, ds, next) => Committed(db, RowsOf(events), anchors, c, ds, next, cfg)
    case Rollback(c, ds, block) => RolledBack(db, c, ds, block, cfg)
  }

  ghost function RunFrom(db: Db, ops: seq<Op>, cfg: AssignmentConfig): Db {
    if ops == [] then db else ApplyOp(RunFrom(db, ops[..|ops| - 1], cfg), ops[|ops| - 1], cfg)
  }

  ghost function Run(ops: seq<Op>, cfg: AssignmentConfig): Db {
    RunFrom(EMPTY_DB, ops, cfg)
  }

  /** The events without those of one chain at or above a height. */
  function Without(events: seq<Event>, chainId: nat, block: nat): seq<Event> {
    if events == [] then []
    else
      var e := events[|events| - 1];
      var rest := Without(events[..|events| - 1], chainId, block);
      if e.meta.chainId == chainId && e.meta.blockNumber >= block then rest else rest + [e]
  }

  /** The events that no later rollback took back, in the order they were written. */
  function Live(ops: seq<Op>): seq<Event> {
    if ops == [] then []
    else
      var live := Live(ops[..|ops| - 1]);
      match ops[|ops| - 1]
      case Open(_, _, _) => live
      case Commit(events, _, _, _, _) => live + events
      case Rollback(c, _, block) => Without(live, c, block)
  }

  ghost function Replay(events: seq<Event>, cfg: AssignmentConfig): Db {
    WrittenAll(EMPTY_DB, RowsOf(events), cfg)
  }

  /** Equal primary keys mean equal rows (signature rows aside), and the assignments of a message arrive in
      `(block_number, id)` order as far as their order shows in its columns. */
  predicate Compatible(earlier: Event, later: Event, cfg: AssignmentConfig) {
    var a, b := RowOf(earlier), RowOf(later);
    && (!a.SignatureRow? && KeyOfRow(a) == KeyOfRow(b) ==> a == b)
    && (a.AssignedRow? && b.AssignedRow? && a.msgHash == b.msgHash ==> InOrder(a, b, cfg))
  }

  ghost predicate Orderly(events: seq<Event>, cfg: AssignmentConfig) {
    forall i, j :: 0 <= i < j < |events| ==> Compatible(events[i], events[j], cfg)
  }

  /** At every point the surviving events are orderly. */
  ghost predicate OrderlyHistory(ops: seq<Op>, cfg: AssignmentConfig) {
    if ops == [] then true
    else OrderlyHistory(ops[..|ops| - 1], cfg) && Orderly(Live(ops), cfg)
  }

  /** The signature table is excluded: its rows carry the payload's chain. */
  ghost function NonSignature(rows: map<RowKey, Row>): map<RowKey, Row> {
    map k | k in rows && k.table != SignatureTable :: rows[k]
  }

  /** The tables hold exactly the rows of these events, with the right assignment columns. */
  ghost predicate Tracks(db: Db, events: seq<Event>, cfg: AssignmentConfig) {
    && ViewOk(db, cfg)
    && forall r: Row :: !r.SignatureRow? ==>
         (Stored(db, r) <==> exists e :: e in events && RowOf(e) == r)
  }

  ghost predicate Stored(db: Db, r: Row) {
    KeyOfRow(r) in db.rows && db.rows[KeyOfRow(r)] == r
  }

  lemma RowSource(e: Event)
    ensures WellFormed(RowOf(e))
    ensures !RowOf(e).SignatureRow? ==>
              RowOf(e).chainId == e.meta.chainId && RowOf(e).blockNumber == e.meta.blockNumber
  {
  }

  /** One orderly event. */
  lemma TrackedWrite(db: Db, events: seq<Event>, e: Event, cfg: AssignmentConfig)
    requires Tracks(db, events, cfg)
    requires forall d :: d in events ==> Compatible(d, e, cfg)
    ensures Tracks(Written(db, RowOf(e), cfg), events + [e], cfg)
  {
    var w := RowOf(e);
    RowSource(e);
    WrittenIsValid(db, w, cfg);
    if !w.SignatureRow? && KeyOfRow(w) in db.rows {
      var r := db.rows[KeyOfRow(w)];
      assert Stored(db, r);
      var d :| d in events && RowOf(d) == r;
      assert Compatible(d, e, cfg);
    }
    TrackedRows(db, events, e, cfg);
    TrackedView(db, events, e, cfg);
  }

  lemma TrackedRows(db: Db, events: seq<Event>, e: Event, cfg: AssignmentConfig)
    requires Tracks(db, events, cfg)
    requires !RowOf(e).SignatureRow? && KeyOfRow(RowOf(e)) in db.rows ==> db.rows[KeyOfRow(RowOf(e))] == RowOf(e)
    ensures forall r: Row :: !r.SignatureRow? ==>
              (Stored(Written(db, RowOf(e), cfg), r) <==> exists d :: d in events + [e] && RowOf(d) == r)
  {
    RowSource(e);
    WrittenIsValid(db, RowOf(e), cfg);
    var db2 := Written(db, RowOf(e), cfg);
    forall r: Row | !r.SignatureRow?
      ensures Stored(db2, r) <==> exists d :: d in events + [e] && RowOf(d) == r
    {
      assert Stored(db2, r) <==> Stored(db, r) || r == RowOf(e);
      if Stored(db, r) {
        var d :| d in events && RowOf(d) == r;
        assert d in events + [e];
      }
      assert e in events + [e];
    }
  }

  lemma TrackedView(db: Db, events: seq<Event>, e: Event, cfg: AssignmentConfig)
    requires Tracks(db, events, cfg)
    requires forall d :: d in events ==> Compatible(d, e, cfg)
    requires !RowOf(e).SignatureRow? && KeyOfRow(RowOf(e)) in db.rows ==> db.rows[KeyOfRow(RowOf(e))] == RowOf(e)
    ensures ViewOk(Written(db, RowOf(e), cfg), cfg)
  {
    var w := RowOf(e);
    RowSource(e);
    WrittenIsValid(db, w, cfg);
    if w.AcceptedRow? {
      AcceptedWriteKeepsView(db, w, cfg);
    } else if w.AssignedRow? {
      forall r | r in AssignmentsOf(db.rows, w.msgHash)
        ensures r == w || InOrder(r, w, cfg)
      {
        StoredAssignment(db.rows, w.msgHash, r);
        assert Stored(db, r);
        var d :| d in events && RowOf(d) == r;
        assert Compatible(d, e, cfg);
      }
      InOrderAssignmentKeepsView(db, w, cfg);
    } else {
      forall h | h in db.view
        ensures Written(db, w, cfg).view[h] == ViewOf(Written(db, w, cfg).rows, h, cfg)
      {
        OtherMessagesUntouched(db, w, h, cfg);
      }
    }
  }

  lemma OrderlyLast(events: seq<Event>, e: Event, cfg: AssignmentConfig)
    requires Orderly(events + [e], cfg)
    ensures Orderly(events, cfg) && forall d :: d in events ==> Compatible(d, e, cfg)
  {
    var all := events + [e];
    forall i, j | 0 <= i < j < |events|
      ensures Compatible(events[i], events[j], cfg)
    {
      assert Compatible(all[i], all[j], cfg);
    }
    forall d | d in events
      ensures Compatible(d, e, cfg)
    {
      var i :| 0 <= i < |events| && events[i] == d;
      assert Compatible(all[i], all[|events|], cfg);
    }
  }

  lemma {:induction false} TrackedWrites(db: Db, before: seq<Event>, events: seq<Event>, cfg: AssignmentConfig)
    requires Tracks(db, before, cfg) && Orderly(before + events, cfg)
    ensures Tracks(WrittenAll(db, RowsOf(events), cfg), before + events, cfg)
  {
    if events == [] {
      assert before + events == before;
    } else {
      var n := |events| - 1;
      var earlier := before + events[..n];
      assert before + events == earlier + [events[n]];
      OrderlyLast(earlier, events[n], cfg);
      assert RowsOf(events)[..n] == RowsOf(events[..n]);
      TrackedWrites(db, before, events[..n], cfg);
      TrackedWrite(WrittenAll(db, RowsOf(events[..n]), cfg), earlier, events[n], cfg);
    }
  }

  /** What `Without` keeps, and that it keeps the order. */
  lemma {:induction false} WithoutKeeps(events: seq<Event>, chainId: nat, block: nat, cfg: AssignmentConfig)
    ensures forall e :: e in Without(events, chainId, block)
                   <==> e in events && !(e.meta.chainId == chainId && e.meta.blockNumber >= block)
    ensures Orderly(events, cfg) ==> Orderly(Without(events, chainId, block), cfg)
  {
    if events != [] {
      var n := |events| - 1;
      assert events == events[..n] + [events[n]];
      WithoutKeeps(events[..n], chainId, block, cfg);
    }
  }

  lemma TrackedRollback(db: Db, events: seq<Event>, chainId: nat, dataset: string, block: nat, cfg: AssignmentConfig)
    requires Tracks(db, events, cfg)
    ensures Tracks(RolledBack(db, chainId, dataset, block, cfg), Without(events, chainId, block), cfg)
  {
    var db2 := RolledBack(db, chainId, dataset, block, cfg);
    RollbackRestoresView(db, chainId, dataset, block, cfg);
    WithoutKeeps(events, chainId, block, cfg);
    forall r: Row | !r.SignatureRow?
      ensures Stored(db2, r) <==> exists e :: e in Without(events, chainId, block) && RowOf(e) == r
    {
      assert Stored(db2, r) <==> Stored(db, r) && !(r.chainId == chainId && r.blockNumber >= block);
      if Stored(db2, r) {
        var e :| e in events && RowOf(e) == r;
        RowSource(e);
        assert e in Without(events, chainId, block);
      }
      if e :| e in Without(events, chainId, block) && RowOf(e) == r {
        RowSource(e);
        assert e in events;
      }
    }
  }

  lemma {:induction false} AnchorsDoNotMatter(db: Db, anchors: seq<BlockAnchor>)
    ensures WithAnchors(db, anchors).rows == db.rows && WithAnchors(db, anchors).view == db.view
  {
    if anchors != [] {
      AnchorsDoNotMatter(db, anchors[..|anchors| - 1]);
    }
  }

  lemma TracksFrame(a: Db, b: Db, events: seq<Event>, cfg: AssignmentConfig)
    requires Tracks(a, events, cfg) && b.rows == a.rows && b.view == a.view
    ensures Tracks(b, events, cfg)
  {
    forall r: Row | !r.SignatureRow?
      ensures Stored(b, r) <==> exists e :: e in events && RowOf(e) == r
    {
      assert Stored(b, r) <==> Stored(a, r);
    }
  }

  /** After any orderly history of commits and rollbacks, of any chains, the tables hold exactly the surviving
      events. */
  lemma {:induction false} HistoryTracksLive(ops: seq<Op>, cfg: AssignmentConfig)
    requires OrderlyHistory(ops, cfg)
    ensures Tracks(Run(ops, cfg), Live(ops), cfg)
  {
    if ops != [] {
      var n := |ops| - 1;
      var db := Run(ops[..n], cfg);
      var live := Live(ops[..n]);
      HistoryTracksLive(ops[..n], cfg);
      match ops[n]
      case Open(c, ds, start) =>
        TracksFrame(db, Run(ops, cfg), live, cfg);
      case Commit(events, anchors, c, ds, next) =>
        TrackedWrites(db, live, events, cfg);
        var written := WrittenAll(db, RowsOf(events), cfg);
        AnchorsDoNotMatter(written, anchors);
        TracksFrame(written, Run(ops, cfg), live + events, cfg);
      case Rollback(c, ds, block) =>
        TrackedRollback(db, live, c, ds, block, cfg);
    }
  }

  /** The rows and the columns are determined by the events they track. */
  lemma TracksDetermines(a: Db, b: Db, events: seq<Event>, cfg: AssignmentConfig)
    requires Tracks(a, events, cfg) && Tracks(b, events, cfg)
    ensures NonSignature(a.rows) == NonSignature(b.rows) && a.view == b.view
  {
    SameStoredRows(a, b, events, cfg);
    SameStoredRows(b, a, events, cfg);
    SameColumns(a, b, events, cfg);
    SameColumns(b, a, events, cfg);
  }

  lemma SameColumns(a: Db, b: Db, events: seq<Event>, cfg: AssignmentConfig)
    requires Tracks(a, events, cfg) && Tracks(b, events, cfg)
    ensures forall h :: h in a.view ==> h in b.view && a.view[h] == b.view[h]
  {
    SameStoredRows(a, b, events, cfg);
    SameStoredRows(b, a, events, cfg);
    forall h | h in a.view
      ensures h in b.view && a.view[h] == b.view[h]
    {
      assert AcceptedKey(h) in a.rows;
      forall r
        ensures r in AssignmentsOf(a.rows, h) <==> r in AssignmentsOf(b.rows, h)
      {
        StoredAssignment(a.rows, h, r);
        StoredAssignment(b.rows, h, r);
        if r.AssignedRow? {
          assert Stored(a, r) <==> Stored(b, r);
        }
      }
      assert AssignmentsOf(a.rows, h) == AssignmentsOf(b.rows, h);
    }
  }

  lemma SameStoredRows(a: Db, b: Db, events: seq<Event>, cfg: AssignmentConfig)
    requires Tracks(a, events, cfg) && Tracks(b, events, cfg)
    ensures forall k :: k in a.rows && k.table != SignatureTable ==> k in b.rows && b.rows[k] == a.rows[k]
    ensures forall r: Row :: !r.SignatureRow? && Stored(a, r) ==> Stored(b, r)
  {
    forall k | k in a.rows && k.table != SignatureTable
      ensures k in b.rows && b.rows[k] == a.rows[k]
    {
      assert Stored(a, a.rows[k]);
      assert Stored(b, a.rows[k]);
    }
  }

  lemma ReplayTracks(events: seq<Event>, cfg: AssignmentConfig)
    requires Orderly(events, cfg)
    ensures Tracks(Replay(events, cfg), events, cfg)
  {
    assert Tracks(EMPTY_DB, [], cfg);
    assert [] + events == events;
    TrackedWrites(EMPTY_DB, [], events, cfg);
  }

  /** After any orderly history, the non-signature tables and the six derived columns are those of
      replaying, once and in order, the events that survive. */
  lemma HistoryEqualsReplay(ops: seq<Op>, cfg: AssignmentConfig)
    requires OrderlyHistory(ops, cfg)
    ensures NonSignature(Run(ops, cfg).rows) == NonSignature(Replay(Live(ops), cfg).rows)
    ensures Run(ops, cfg).view == Replay(Live(ops), cfg).view
  {
    HistoryTracksLive(ops, cfg);
    if ops != [] {
      ReplayTracks(Live(ops), cfg);
    } else {
      ReplayTracks([], cfg);
    }
    TracksDetermines(Run(ops, cfg), Replay(Live(ops), cfg), Live(ops), cfg);
  }

  /** Rolling chain `c` back to block `b` equals replaying the history without the events
      of chain `c` at height `b` or above. */
  lemma RollbackEqualsReexecution(events: seq<Event>, chainId: nat, dataset: string, block: nat, cfg: AssignmentConfig)
    requires Orderly(events, cfg)
    ensures var rolled := RolledBack(Replay(events, cfg), chainId, dataset, block, cfg);
      var clean := Replay(Without(events, chainId, block), cfg);
      NonSignature(rolled.rows) == NonSignature(clean.rows) && rolled.view == clean.view
  {
    ReplayTracks(events, cfg);
    TrackedRollback(Replay(events, cfg), events, chainId, dataset, block, cfg);
    WithoutKeeps(events, chainId, block, cfg);
    ReplayTracks(Without(events, chainId, block), cfg);
    TracksDetermines(RolledBack(Replay(events, cfg), chainId, dataset, block, cfg),
                     Replay(Without(events, chainId, block), cfg), Without(events, chainId, block), cfg);
  }
}
