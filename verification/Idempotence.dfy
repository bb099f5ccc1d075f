/** Writing a batch again changes nothing, so a crash at any point of the non-atomic default path
    followed by a rerun ends where a clean run ends (src/database.rs). */
module Idempotence {
  import opened Prelude
  import opened Schema
  import opened Assignments
  import opened DatabaseSpec
  import opened Views

  /** Equal keys mean equal rows within the batch. */
  ghost predicate KeysAgree(batch: seq<Row>) {
    && (forall r :: r in batch ==> WellFormed(r))
    && (forall a, b :: a in batch && b in batch && KeyOfRow(a) == KeyOfRow(b) ==> a == b)
  }

  /** Moreover an assignment that replaces a stored one is of the same message, oracle and relayer. Nothing is
      asked of the order of the batch, of the stored columns or of other stored rows. */
  ghost predicate Replayable(rows: map<RowKey, Row>, batch: seq<Row>) {
    && KeysAgree(batch)
    && (forall r :: r in batch && r.AssignedRow? && KeyOfRow(r) in rows ==> SameAssignment(rows[KeyOfRow(r)], r))
  }

  /** What the last write of the batch with an effect puts into one slot, given fixed rows. */
  ghost function LastEffect(rows: map<RowKey, Row>, batch: seq<Row>, h: string, role: Role,
                            cfg: AssignmentConfig): Option<Slot> {
    if batch == [] then None
    else
      var n := |batch| - 1;
      var e := Effect(rows, batch[n], h, role, cfg);
      if e.Some? then e else LastEffect(rows, batch[..n], h, role, cfg)
  }

  ghost predicate HoldsAll(rows: map<RowKey, Row>, batch: seq<Row>) {
    forall r :: r in batch ==> KeyOfRow(r) in rows && rows[KeyOfRow(r)] == r
  }

  lemma {:induction false} BatchIsStored(db: Db, batch: seq<Row>, cfg: AssignmentConfig)
    requires Valid(db) && KeysAgree(batch)
    ensures var rows := WrittenAll(db, batch, cfg).rows;
      && HoldsAll(rows, batch)
      && forall r: Row :: r.AssignedRow? && KeyOfRow(r) in rows && rows[KeyOfRow(r)] == r && r !in batch ==>
           KeyOfRow(r) in db.rows && db.rows[KeyOfRow(r)] == r
  {
    if batch != [] {
      var n := |batch| - 1;
      assert batch == batch[..n] + [batch[n]];
      BatchIsStored(db, batch[..n], cfg);
      WrittenAllKeepsValid(db, batch[..n], cfg);
      WrittenIsValid(WrittenAll(db, batch[..n], cfg), batch[n], cfg);
    }
  }

  /** The slot holds what the last write of the batch with an effect, judged by the stored rows, puts there. */
  ghost predicate SlotSettled(db: Db, batch: seq<Row>, h: string, role: Role, cfg: AssignmentConfig) {
    h in db.view && LastEffect(db.rows, batch, h, role, cfg).Some? ==>
      SlotOf(db.view[h], role) == LastEffect(db.rows, batch, h, role, cfg).value
  }

  /** A pass over rows that are all stored already changes no row, and each slot
      only by the last write with an effect. */
  lemma {:induction false} PassOverStoredRows(db: Db, batch: seq<Row>, cfg: AssignmentConfig)
    requires Valid(db) && HoldsAll(db.rows, batch) && forall r :: r in batch ==> WellFormed(r)
    ensures var done := WrittenAll(db, batch, cfg);
      && done == db.(view := done.view) && done.view.Keys == db.view.Keys
      && forall h, role :: h in db.view ==>
           SlotOf(done.view[h], role) == LastEffect(db.rows, batch, h, role, cfg).GetOr(SlotOf(db.view[h], role))
  {
    if batch != [] {
      var n := |batch| - 1;
      var w := batch[n];
      var before, done := WrittenAll(db, batch[..n], cfg), WrittenAll(db, batch, cfg);
      PassOverStoredRows(db, batch[..n], cfg);
      WrittenAllKeepsValid(db, batch[..n], cfg);
      WrittenIsValid(before, w, cfg);
      assert before.rows[KeyOfRow(w) := w] == db.rows;
      forall h, role | h in db.view
        ensures SlotOf(done.view[h], role) == LastEffect(db.rows, batch, h, role, cfg).GetOr(SlotOf(db.view[h], role))
      {
        StepEffect(before, w, h, role, cfg);
      }
    }
  }

  /** Whatever is stored, a second write of the batch changes nothing if and only if the first one left every
      slot as the last write with an effect, judged by the rows then stored, would set it. */
  lemma RewriteIsSettlement(db: Db, batch: seq<Row>, cfg: AssignmentConfig)
    requires Valid(db) && KeysAgree(batch)
    ensures var once := WrittenAll(db, batch, cfg);
      WrittenAll(once, batch, cfg) == once
      <==> forall h, role :: h in once.view ==> SlotSettled(once, batch, h, role, cfg)
  {
    var once := WrittenAll(db, batch, cfg);
    var twice := WrittenAll(once, batch, cfg);
    WrittenAllKeepsValid(db, batch, cfg);
    BatchIsStored(db, batch, cfg);
    PassOverStoredRows(once, batch, cfg);
    if forall h, role :: h in once.view ==> SlotSettled(once, batch, h, role, cfg) {
      forall h | h in once.view
        ensures twice.view[h] == once.view[h]
      {
        assert SlotSettled(once, batch, h, OracleRole, cfg) && SlotSettled(once, batch, h, RelayerRole, cfg);
        ColumnsEqual(twice.view[h], once.view[h]);
      }
      assert twice.view == once.view;
    }
  }

  // ---- The first pass, judged by the rows stored at each write ----

  function RowsAfter(rows: map<RowKey, Row>, batch: seq<Row>): map<RowKey, Row> {
    if batch == [] then rows
    else
      var n := |batch| - 1;
      RowsAfter(rows, batch[..n])[KeyOfRow(batch[n]) := batch[n]]
  }

  /** What the first pass puts into one slot: every write is judged by the rows stored at its time. */
  ghost function TimedEffect(rows: map<RowKey, Row>, batch: seq<Row>, h: string, role: Role,
                             cfg: AssignmentConfig): Option<Slot> {
    if batch == [] then None
    else
      var n := |batch| - 1;
      var e := Effect(RowsAfter(rows, batch), batch[n], h, role, cfg);
      if e.Some? then e else TimedEffect(rows, batch[..n], h, role, cfg)
  }

  lemma {:induction false} FirstPass(db: Db, batch: seq<Row>, h: string, role: Role, cfg: AssignmentConfig)
    requires Valid(db) && forall r :: r in batch ==> WellFormed(r)
    ensures var once := WrittenAll(db, batch, cfg);
      && Valid(once) && once.rows == RowsAfter(db.rows, batch)
      && (h in once.view ==>
            SlotOf(once.view[h], role)
            == TimedEffect(db.rows, batch, h, role, cfg).GetOr(SlotOf(StoredColumns(db, h), role)))
  {
    hide Effect, Written, Valid;
    if batch != [] {
      var n := |batch| - 1;
      var before, once := WrittenAll(db, batch[..n], cfg), WrittenAll(db, batch, cfg);
      FirstPass(db, batch[..n], h, role, cfg);
      WrittenIsValid(before, batch[n], cfg);
      if h in once.view {
        StepEffect(before, batch[n], h, role, cfg);
        if h !in before.view {
          NotStored(before, h);
          NoEffectBeforeAccepted(db, batch[..n], h, role, cfg);
          NotStored(db, h);
        }
      }
    }
  }

  lemma NotStored(db: Db, h: string)
    requires Valid(db)
    ensures AcceptedKey(h) !in db.rows <==> h !in db.view
  {
  }

  /** As long as a message is not stored, no write has an effect on its columns. */
  lemma {:induction false} NoEffectBeforeAccepted(db: Db, batch: seq<Row>, h: string, role: Role, cfg: AssignmentConfig)
    requires Valid(db) && forall r :: r in batch ==> WellFormed(r)
    requires AcceptedKey(h) !in RowsAfter(db.rows, batch)
    ensures AcceptedKey(h) !in db.rows && TimedEffect(db.rows, batch, h, role, cfg).None?
  {
    if batch != [] {
      NoEffectBeforeAccepted(db, batch[..|batch| - 1], h, role, cfg);
    }
  }

  lemma {:induction false} RowsAfterAppend(rows: map<RowKey, Row>, a: seq<Row>, b: seq<Row>)
    ensures RowsAfter(rows, a + b) == RowsAfter(RowsAfter(rows, a), b)
  {
    if b == [] {
      assert a + b == a;
    } else {
      assert (a + b)[..|a + b| - 1] == a + b[..|b| - 1];
      RowsAfterAppend(rows, a, b[..|b| - 1]);
    }
  }

  lemma {:induction false} EffectsAppend(rows: map<RowKey, Row>, a: seq<Row>, b: seq<Row>, h: string, role: Role,
                                         cfg: AssignmentConfig)
    ensures LastEffect(rows, a + b, h, role, cfg)
         == if LastEffect(rows, b, h, role, cfg).Some? then LastEffect(rows, b, h, role, cfg)
            else LastEffect(rows, a, h, role, cfg)
    ensures TimedEffect(rows, a + b, h, role, cfg)
         == if TimedEffect(RowsAfter(rows, a), b, h, role, cfg).Some?
             then TimedEffect(RowsAfter(rows, a), b, h, role, cfg)
            else TimedEffect(rows, a, h, role, cfg)
  {
    hide Effect;
    RowsAfterAppend(rows, a, b);
    if b == [] {
      assert a + b == a;
    } else {
      assert (a + b)[..|a + b| - 1] == a + b[..|b| - 1];
      EffectsAppend(rows, a, b[..|b| - 1], h, role, cfg);
    }
  }

  /** Apart from writes of the message itself, a write has the same effect whenever it is judged, as long as the
      accepted row is the same. */
  lemma {:induction false} AssignmentsAreTimeless(rows: map<RowKey, Row>, last: map<RowKey, Row>, batch: seq<Row>,
                                                  h: string, role: Role, cfg: AssignmentConfig)
    requires forall r :: r in batch ==> WellFormed(r) && !(r.AcceptedRow? && r.msgHash == h)
    requires AcceptedKey(h) in rows <==> AcceptedKey(h) in last
    requires AcceptedKey(h) in rows ==> rows[AcceptedKey(h)] == last[AcceptedKey(h)]
    ensures LastEffect(last, batch, h, role, cfg) == TimedEffect(rows, batch, h, role, cfg)
    ensures AcceptedKey(h) in RowsAfter(rows, batch) <==> AcceptedKey(h) in rows
    ensures AcceptedKey(h) in rows ==> RowsAfter(rows, batch)[AcceptedKey(h)] == rows[AcceptedKey(h)]
  {
    hide Matches;
    if batch != [] {
      AssignmentsAreTimeless(rows, last, batch[..|batch| - 1], h, role, cfg);
    }
  }

  // ---- Exactly when a second write is a no-op ----

  /** Some write of the batch from index `t` on stores the message again or sets the role's columns of it. */
  ghost predicate SetAgain(batch: seq<Row>, t: nat, accepted: Row, role: Role, cfg: AssignmentConfig)
    requires accepted.AcceptedRow?
  {
    exists j :: t <= j < |batch| && SetsColumns(batch[j], accepted, role, cfg)
  }

  predicate SetsColumns(w: Row, accepted: Row, role: Role, cfg: AssignmentConfig)
    requires accepted.AcceptedRow?
  {
    || (w.AcceptedRow? && w.msgHash == accepted.msgHash)
    || (w.AssignedRow? && w.msgHash == accepted.msgHash && Matches(role, accepted, w, cfg))
  }

  /** What the batch replaces after the message is written last does not change what that write shows: the
      greatest matching assignment at that time and the one at the end write the same, unless a later assignment of
      the batch sets the columns anyway or none matches at the end. */
  ghost predicate ReplacementsAgree(rows: map<RowKey, Row>, batch: seq<Row>, t: nat, role: Role, cfg: AssignmentConfig)
    requires t < |batch| && batch[t].AcceptedRow?
  {
    var h := batch[t].msgHash;
    var atWrite, last := RowsAfter(rows, batch[..t + 1]), RowsAfter(rows, batch);
    !SetAgain(batch, t + 1, batch[t], role, cfg) && Effect(last, batch[t], h, role, cfg).Some? ==>
      Effect(atWrite, batch[t], h, role, cfg) == Effect(last, batch[t], h, role, cfg)
  }

  ghost predicate ReplacementsHarmless(rows: map<RowKey, Row>, batch: seq<Row>, cfg: AssignmentConfig) {
    forall t, role :: 0 <= t < |batch| && batch[t].AcceptedRow? ==> ReplacementsAgree(rows, batch, t, role, cfg)
  }

  /** A message the batch does not write is settled after the first pass. */
  lemma UnwrittenIsSettled(db: Db, batch: seq<Row>, h: string, role: Role, cfg: AssignmentConfig)
    requires Valid(db) && KeysAgree(batch) && forall r :: r in batch ==> !(r.AcceptedRow? && r.msgHash == h)
    ensures SlotSettled(WrittenAll(db, batch, cfg), batch, h, role, cfg)
  {
    FirstPass(db, batch, h, role, cfg);
    AssignmentsAreTimeless(db.rows, db.rows, batch, h, role, cfg);
    AssignmentsAreTimeless(db.rows, RowsAfter(db.rows, batch), batch, h, role, cfg);
  }

  /** Rows of another key than any written later are still stored at the end. */
  lemma {:induction false} WrittenLaterOrKept(rows: map<RowKey, Row>, batch: seq<Row>, k: RowKey)
    ensures k in rows ==> k in RowsAfter(rows, batch)
    ensures k in RowsAfter(rows, batch) ==>
              || (k in rows && RowsAfter(rows, batch)[k] == rows[k])
              || (RowsAfter(rows, batch)[k] in batch && KeyOfRow(RowsAfter(rows, batch)[k]) == k)
  {
    if batch != [] {
      WrittenLaterOrKept(rows, batch[..|batch| - 1], k);
    }
  }

  lemma {:induction false} SetAgainIff(rows: map<RowKey, Row>, post: seq<Row>, accepted: Row, role: Role,
                                       cfg: AssignmentConfig)
    requires accepted.AcceptedRow? && AcceptedKey(accepted.msgHash) in rows && rows[AcceptedKey(accepted.msgHash)]
        == accepted
    requires forall r :: r in post ==> !(r.AcceptedRow? && r.msgHash == accepted.msgHash)
    ensures LastEffect(rows, post, accepted.msgHash, role, cfg).Some? <==> SetAgain(post, 0, accepted, role, cfg)
  {
    hide Matches;
    if post != [] {
      var n := |post| - 1;
      SetAgainIff(rows, post[..n], accepted, role, cfg);
      if SetAgain(post, 0, accepted, role, cfg) {
        var j :| 0 <= j < |post| && SetsColumns(post[j], accepted, role, cfg);
        assert j < n ==> SetsColumns(post[..n][j], accepted, role, cfg);
      }
      if SetAgain(post[..n], 0, accepted, role, cfg) {
        var j :| 0 <= j < n && SetsColumns(post[..n][j], accepted, role, cfg);
        assert SetsColumns(post[j], accepted, role, cfg);
      }
    }
  }

  /** If no stored assignment sets the columns, no stored write has an effect on them. */
  lemma {:induction false} NoBestNoEffect(rows: map<RowKey, Row>, batch: seq<Row>, h: string, role: Role,
                                          cfg: AssignmentConfig)
    requires WellKeyed(rows) && AcceptedKey(h) in rows && BestOf(rows, h, role, cfg).None?
    requires HoldsAll(rows, batch)
    ensures LastEffect(rows, batch, h, role, cfg).None?
  {
    hide Matches, Best;
    if batch != [] {
      var w := batch[|batch| - 1];
      NoBestNoEffect(rows, batch[..|batch| - 1], h, role, cfg);
      AssignmentsHaveDistinctIds(rows, h);
      BestWins(role, rows[AcceptedKey(h)], AssignmentsOf(rows, h), cfg);
      StoredAssignment(rows, h, w);
    }
  }

  /** An assignment that sets the columns at the end, and was not written later, set them before. */
  lemma BestWasThere(before: map<RowKey, Row>, post: seq<Row>, accepted: Row, role: Role, cfg: AssignmentConfig)
    requires accepted.AcceptedRow?
    requires var h, last := accepted.msgHash, RowsAfter(before, post);
      && WellKeyed(before) && WellKeyed(last)
      && AcceptedKey(h) in before && before[AcceptedKey(h)] == accepted
      && AcceptedKey(h) in last && last[AcceptedKey(h)] == accepted
    requires !SetAgain(post, 0, accepted, role, cfg)
    requires BestOf(RowsAfter(before, post), accepted.msgHash, role, cfg).Some?
    ensures BestOf(before, accepted.msgHash, role, cfg).Some?
  {
    hide Matches, Best;
    var h, last := accepted.msgHash, RowsAfter(before, post);
    AssignmentsHaveDistinctIds(before, h);
    AssignmentsHaveDistinctIds(last, h);
    BestWins(role, accepted, AssignmentsOf(last, h), cfg);
    var m :| Wins(role, accepted, AssignmentsOf(last, h), cfg, m);
    StoredAssignment(last, h, m);
    WrittenLaterOrKept(before, post, KeyOfRow(m));
    forall r | r in post
      ensures r != m
    {
      var j :| 0 <= j < |post| && post[j] == r;
      NotSetAgain(post, 0, accepted, role, cfg, j);
    }
    StoredAssignment(before, h, m);
    BestWins(role, accepted, AssignmentsOf(before, h), cfg);
  }

  /** The write splits the batch; all its parts are judged as `SlotSettled` and `ReplacementsAgree` judge them. */
  lemma SplitAtWrite(db: Db, batch: seq<Row>, t: nat, role: Role, cfg: AssignmentConfig)
    requires Valid(db) && KeysAgree(batch) && t < |batch| && batch[t].AcceptedRow?
    requires forall j :: t < j < |batch| ==> !(batch[j].AcceptedRow? && batch[j].msgHash == batch[t].msgHash)
    ensures var h, a := batch[t].msgHash, batch[t];
      var pre, post := batch[..t], batch[t + 1..];
      var atWrite, last := RowsAfter(db.rows, batch[..t + 1]), RowsAfter(db.rows, batch);
      var again := LastEffect(last, post, h, role, cfg);
      && last == RowsAfter(atWrite, post) && WellKeyed(atWrite) && WellKeyed(last)
      && AcceptedKey(h) in atWrite && atWrite[AcceptedKey(h)] == a
      && AcceptedKey(h) in last && last[AcceptedKey(h)] == a
      && (again.Some? <==> SetAgain(post, 0, a, role, cfg))
      && LastEffect(last, batch, h, role, cfg)
         == (if again.Some? then again
             else if Effect(last, a, h, role, cfg).Some? then Effect(last, a, h, role, cfg)
             else LastEffect(last, pre, h, role, cfg))
      && TimedEffect(db.rows, batch, h, role, cfg)
         == (if again.Some? then again
             else if Effect(atWrite, a, h, role, cfg).Some? then Effect(atWrite, a, h, role, cfg)
             else TimedEffect(db.rows, pre, h, role, cfg))
  {
    hide Effect, Valid;
    var h, a := batch[t].msgHash, batch[t];
    var pre, post := batch[..t], batch[t + 1..];
    var atWrite, last := RowsAfter(db.rows, batch[..t + 1]), RowsAfter(db.rows, batch);
    assert batch == batch[..t + 1] + post;
    assert batch[..t + 1][..t] == pre;
    assert a in batch && WellFormed(a);
    assert KeyOfRow(a) == AcceptedKey(h);
    FirstPass(db, batch[..t + 1], h, role, cfg);
    FirstPass(db, batch, h, role, cfg);
    ValidIsWellKeyed(WrittenAll(db, batch[..t + 1], cfg));
    ValidIsWellKeyed(WrittenAll(db, batch, cfg));
    EffectsAppend(db.rows, batch[..t + 1], post, h, role, cfg);
    EffectsAppend(last, batch[..t + 1], post, h, role, cfg);
    RowsAfterAppend(db.rows, batch[..t + 1], post);
    AssignmentsAreTimeless(atWrite, atWrite, post, h, role, cfg);
    AssignmentsAreTimeless(atWrite, last, post, h, role, cfg);
    SetAgainIff(last, post, a, role, cfg);
  }

  lemma ValidIsWellKeyed(db: Db)
    requires Valid(db)
    ensures WellKeyed(db.rows)
  {
  }

  lemma SetAgainShift(batch: seq<Row>, t: nat, accepted: Row, role: Role, cfg: AssignmentConfig)
    requires accepted.AcceptedRow? && t <= |batch|
    ensures SetAgain(batch, t, accepted, role, cfg) <==> SetAgain(batch[t..], 0, accepted, role, cfg)
  {
    hide SetsColumns;
    if SetAgain(batch, t, accepted, role, cfg) {
      var j :| t <= j < |batch| && SetsColumns(batch[j], accepted, role, cfg);
      assert SetsColumns(batch[t..][j - t], accepted, role, cfg);
    }
    if SetAgain(batch[t..], 0, accepted, role, cfg) {
      var j :| 0 <= j < |batch| - t && SetsColumns(batch[t..][j], accepted, role, cfg);
      assert SetsColumns(batch[t + j], accepted, role, cfg);
    }
  }

  /** The last write of each message settles its columns or not, by `ReplacementsAgree`. */
  lemma WrittenIsSettledIff(db: Db, batch: seq<Row>, t: nat, role: Role, cfg: AssignmentConfig)
    requires Valid(db) && KeysAgree(batch) && t < |batch| && batch[t].AcceptedRow?
    requires forall j :: t < j < |batch| ==> !(batch[j].AcceptedRow? && batch[j].msgHash == batch[t].msgHash)
    ensures SlotSettled(WrittenAll(db, batch, cfg), batch, batch[t].msgHash, role, cfg)
       <==> ReplacementsAgree(db.rows, batch, t, role, cfg)
  {
    hide LastEffect, TimedEffect, RowsAfter, SetAgain, WrittenAll, KeyOfRow;
    var h, a := batch[t].msgHash, batch[t];
    var pre, post := batch[..t], batch[t + 1..];
    var atWrite, last := RowsAfter(db.rows, batch[..t + 1]), RowsAfter(db.rows, batch);
    FirstPass(db, batch, h, role, cfg);
    SplitAtWrite(db, batch, t, role, cfg);
    SetAgainShift(batch, t + 1, a, role, cfg);
    if !SetAgain(post, 0, a, role, cfg) {
      if BestOf(last, h, role, cfg).None? {
        BatchIsStored(db, batch, cfg);
        NoBestNoEffect(last, pre, h, role, cfg);
      } else {
        BestWasThere(atWrite, post, a, role, cfg);
      }
    }
  }

  /** Some write of the message is the last one. */
  lemma {:induction false} LastWrite(batch: seq<Row>, h: string) returns (t: nat)
    requires exists r :: r in batch && r.AcceptedRow? && r.msgHash == h
    ensures t < |batch| && batch[t].AcceptedRow? && batch[t].msgHash == h
    ensures forall j :: t < j < |batch| ==> !(batch[j].AcceptedRow? && batch[j].msgHash == h)
  {
    var n := |batch| - 1;
    if batch[n].AcceptedRow? && batch[n].msgHash == h {
      t := n;
    } else {
      assert batch == batch[..n] + [batch[n]];
      t := LastWrite(batch[..n], h);
      assert batch[t] == batch[..n][t];
    }
  }

  /** For a batch in which equal keys mean equal rows, a second write changes nothing if and only if, for every
      message the batch writes, what it replaces afterwards does not change what that write shows. */
  lemma RewriteChangesNothingIff(db: Db, batch: seq<Row>, cfg: AssignmentConfig)
    requires Valid(db) && KeysAgree(batch)
    ensures WrittenAll(WrittenAll(db, batch, cfg), batch, cfg) == WrittenAll(db, batch, cfg)
       <==> ReplacementsHarmless(db.rows, batch, cfg)
  {
    hide SlotSettled, ReplacementsAgree, WrittenAll;
    var once := WrittenAll(db, batch, cfg);
    RewriteIsSettlement(db, batch, cfg);
    if ReplacementsHarmless(db.rows, batch, cfg) {
      forall h, role | h in once.view
        ensures SlotSettled(once, batch, h, role, cfg)
      {
        if exists r :: r in batch && r.AcceptedRow? && r.msgHash == h {
          var t := LastWrite(batch, h);
          WrittenIsSettledIff(db, batch, t, role, cfg);
        } else {
          UnwrittenIsSettled(db, batch, h, role, cfg);
        }
      }
    }
    if forall h, role :: h in once.view ==> SlotSettled(once, batch, h, role, cfg) {
      forall t, role | 0 <= t < |batch| && batch[t].AcceptedRow?
        ensures ReplacementsAgree(db.rows, batch, t, role, cfg)
      {
        SettledReplacementsAgree(db, batch, t, role, cfg);
      }
    }
  }

  lemma SettledReplacementsAgree(db: Db, batch: seq<Row>, t: nat, role: Role, cfg: AssignmentConfig)
    requires Valid(db) && KeysAgree(batch) && t < |batch| && batch[t].AcceptedRow?
    requires var once := WrittenAll(db, batch, cfg);
      batch[t].msgHash in once.view ==> SlotSettled(once, batch, batch[t].msgHash, role, cfg)
    ensures ReplacementsAgree(db.rows, batch, t, role, cfg)
  {
    hide SlotSettled, WrittenAll, RowsAfter;
    BatchIsStored(db, batch, cfg);
    WrittenAllKeepsValid(db, batch, cfg);
    assert batch[t] in batch;
    if j :| t < j < |batch| && batch[j].AcceptedRow? && batch[j].msgHash == batch[t].msgHash {
      assert SetsColumns(batch[j], batch[t], role, cfg);
    } else {
      WrittenIsSettledIff(db, batch, t, role, cfg);
    }
  }

  // ---- A condition on the replaced rows alone ----

  /** An assignment of the same parties sets what the replaced one set, so such replacements are harmless. */
  lemma ReplayableIsHarmless(db: Db, batch: seq<Row>, cfg: AssignmentConfig)
    requires Valid(db) && Replayable(db.rows, batch)
    ensures ReplacementsHarmless(db.rows, batch, cfg)
  {
    hide ReplacementsAgree, Valid;
    forall t, role | 0 <= t < |batch| && batch[t].AcceptedRow?
      ensures ReplacementsAgree(db.rows, batch, t, role, cfg)
    {
      if !SetAgain(batch, t + 1, batch[t], role, cfg) {
        SamePartiesAgree(db, batch, t, role, cfg);
      } else {
        AgreesIfSetAgain(db.rows, batch, t, role, cfg);
      }
    }
  }

  lemma AgreesIfSetAgain(rows: map<RowKey, Row>, batch: seq<Row>, t: nat, role: Role, cfg: AssignmentConfig)
    requires t < |batch| && batch[t].AcceptedRow? && SetAgain(batch, t + 1, batch[t], role, cfg)
    ensures ReplacementsAgree(rows, batch, t, role, cfg)
  {
  }

  lemma SamePartiesAgree(db: Db, batch: seq<Row>, t: nat, role: Role, cfg: AssignmentConfig)
    requires Valid(db) && Replayable(db.rows, batch) && t < |batch| && batch[t].AcceptedRow?
    requires !SetAgain(batch, t + 1, batch[t], role, cfg)
    ensures ReplacementsAgree(db.rows, batch, t, role, cfg)
  {
    hide LastEffect, TimedEffect, RowsAfter, SetAgain, WrittenAll, Best;
    var h, a := batch[t].msgHash, batch[t];
    var post := batch[t + 1..];
    var atWrite, last := RowsAfter(db.rows, batch[..t + 1]), RowsAfter(db.rows, batch);
    forall j | t < j < |batch|
      ensures !(batch[j].AcceptedRow? && batch[j].msgHash == h)
    {
      NotSetAgain(batch, t + 1, a, role, cfg, j);
    }
    SplitAtWrite(db, batch, t, role, cfg);
    AssignmentsHaveDistinctIds(atWrite, h);
    AssignmentsHaveDistinctIds(last, h);
    forall r | Matches(role, a, r, cfg)
      ensures r in AssignmentsOf(atWrite, h) <==> r in AssignmentsOf(last, h)
    {
      StoredAssignment(atWrite, h, r);
      StoredAssignment(last, h, r);
      if r.msgHash == h {
        MatchStays(db, batch, t, r, role, cfg);
      }
    }
    BestDependsOnMatches(role, a, AssignmentsOf(atWrite, h), AssignmentsOf(last, h), cfg);
  }

  lemma NotSetAgain(batch: seq<Row>, from: nat, accepted: Row, role: Role, cfg: AssignmentConfig, j: nat)
    requires accepted.AcceptedRow? && !SetAgain(batch, from, accepted, role, cfg) && from <= j < |batch|
    ensures !SetsColumns(batch[j], accepted, role, cfg)
  {
  }

  /** A matching assignment is stored at the write exactly if it is stored at the end. */
  lemma MatchStays(db: Db, batch: seq<Row>, t: nat, r: Row, role: Role, cfg: AssignmentConfig)
    requires Valid(db) && Replayable(db.rows, batch) && t < |batch| && batch[t].AcceptedRow?
    requires !SetAgain(batch, t + 1, batch[t], role, cfg)
    requires r.AssignedRow? && r.msgHash == batch[t].msgHash && Matches(role, batch[t], r, cfg)
    ensures var atWrite, last := RowsAfter(db.rows, batch[..t + 1]), RowsAfter(db.rows, batch);
      (KeyOfRow(r) in atWrite && atWrite[KeyOfRow(r)] == r) <==> (KeyOfRow(r) in last && last[KeyOfRow(r)] == r)
  {
    hide SetAgain, RowsAfter, Valid;
    var k := KeyOfRow(r);
    var post := batch[t + 1..];
    assert batch == batch[..t + 1] + post;
    RowsAfterAppend(db.rows, batch[..t + 1], post);
    var atWrite, last := RowsAfter(db.rows, batch[..t + 1]), RowsAfter(db.rows, batch);
    WrittenLaterOrKept(atWrite, post, k);
    if k in last && last[k] in post && KeyOfRow(last[k]) == k {
      var j :| 0 <= j < |post| && post[j] == last[k];
      NotSetAgain(batch, t + 1, batch[t], role, cfg, t + 1 + j);
      assert batch[t + 1 + j] == last[k];
      if k in atWrite && atWrite[k] == r {
        ReplacedAtWrite(db, batch, t, last[k], r);
      }
    }
  }

  /** What a later assignment of the batch replaces is of the same parties. */
  lemma ReplacedAtWrite(db: Db, batch: seq<Row>, t: nat, w: Row, r: Row)
    requires Valid(db) && Replayable(db.rows, batch) && t < |batch| && w in batch && r.AssignedRow?
    requires KeyOfRow(w) == KeyOfRow(r)
    requires var atWrite := RowsAfter(db.rows, batch[..t + 1]); KeyOfRow(r) in atWrite && atWrite[KeyOfRow(r)] == r
    ensures SameAssignment(r, w)
  {
    hide Valid, RowsAfter;
    WrittenLaterOrKept(db.rows, batch[..t + 1], KeyOfRow(r));
    if r in batch[..t + 1] {
      assert r in batch;
    }
  }

  /** Then the first pass leaves every slot as the last write with an effect, judged by the rows then stored, sets
      it. */
  lemma FirstPassSettles(db: Db, batch: seq<Row>, h: string, role: Role, cfg: AssignmentConfig)
    requires Valid(db) && Replayable(db.rows, batch)
    ensures SlotSettled(WrittenAll(db, batch, cfg), batch, h, role, cfg)
  {
    ReplayableIsHarmless(db, batch, cfg);
    RewriteChangesNothingIff(db, batch, cfg);
    RewriteIsSettlement(db, batch, cfg);
  }

  /** Writing a batch twice equals writing it once, derived columns included, whatever the order of the batch. */
  lemma BatchIdempotent(db: Db, batch: seq<Row>, cfg: AssignmentConfig)
    requires Valid(db) && Replayable(db.rows, batch)
    ensures WrittenAll(WrittenAll(db, batch, cfg), batch, cfg) == WrittenAll(db, batch, cfg)
  {
    ReplayableIsHarmless(db, batch, cfg);
    RewriteChangesNothingIff(db, batch, cfg);
  }

  // ---- Crash and rerun ----

  function AnchorMap(anchors: seq<BlockAnchor>): map<AnchorKey, BlockAnchor> {
    if anchors == [] then map[]
    else
      var n := |anchors| - 1;
      AnchorMap(anchors[..n])[anchors[n].key := anchors[n]]
  }

  lemma {:induction false} WithAnchorsMerges(db: Db, anchors: seq<BlockAnchor>)
    ensures WithAnchors(db, anchors) == db.(anchors := db.anchors + AnchorMap(anchors))
  {
    if anchors != [] {
      WithAnchorsMerges(db, anchors[..|anchors| - 1]);
    }
  }

  lemma {:induction false} AnchorMapKeys(anchors: seq<BlockAnchor>, q: nat)
    requires q <= |anchors|
    ensures AnchorMap(anchors[..q]).Keys <= AnchorMap(anchors).Keys
  {
    if q < |anchors| {
      AnchorMapKeys(anchors[..|anchors| - 1], q);
      assert anchors[..|anchors| - 1][..q] == anchors[..q];
    } else {
      assert anchors[..q] == anchors;
    }
  }

  /** Where a crash can leave the default path: after some events, after all events and some anchors,
      or after the checkpoint as well. */
  datatype CrashPoint = InEvents(p: nat) | InAnchors(q: nat) | AfterCheckpoint

  ghost function CrashedAt(db: Db, rows: seq<Row>, anchors: seq<BlockAnchor>, chainId: nat, dataset: string, next: nat,
                           cfg: AssignmentConfig, at: CrashPoint): Db
    requires at.InEvents? ==> at.p <= |rows|
    requires at.InAnchors? ==> at.q <= |anchors|
  {
    match at
    case InEvents(p) => WrittenAll(db, rows[..p], cfg)
    case InAnchors(q) => WithAnchors(WrittenAll(db, rows, cfg), anchors[..q])
    case AfterCheckpoint => Committed(db, rows, anchors, chainId, dataset, next, cfg)
  }

  lemma PrefixThenWhole(db: Db, batch: seq<Row>, p: nat, cfg: AssignmentConfig)
    requires Valid(db) && Replayable(db.rows, batch) && p <= |batch|
    ensures WrittenAll(WrittenAll(db, batch[..p], cfg), batch, cfg) == WrittenAll(db, batch, cfg)
  {
    assert batch == batch[..p] + batch[p..];
    BatchIdempotent(db, batch[..p], cfg);
    WrittenAllAppend(db, batch[..p], batch[p..], cfg);
    WrittenAllAppend(WrittenAll(db, batch[..p], cfg), batch[..p], batch[p..], cfg);
  }

  /** Rewriting the batch over a state that already holds its rows and columns is no change at all. */
  lemma RewriteIsNoChange(db: Db, crashed: Db, rows: seq<Row>, cfg: AssignmentConfig)
    requires Valid(db) && Replayable(db.rows, rows)
    requires crashed.rows == WrittenAll(db, rows, cfg).rows && crashed.view == WrittenAll(db, rows, cfg).view
    ensures WrittenAll(crashed, rows, cfg) == crashed
  {
    BatchIdempotent(db, rows, cfg);
    WrittenAllFrame(WrittenAll(db, rows, cfg), crashed, rows, cfg);
  }

  lemma AnchorsRewritten(db: Db, anchors: seq<BlockAnchor>, q: nat)
    requires q <= |anchors|
    ensures WithAnchors(WithAnchors(db, anchors[..q]), anchors) == WithAnchors(db, anchors)
  {
    var partial := WithAnchors(db, anchors[..q]);
    WithAnchorsMerges(db, anchors[..q]);
    WithAnchorsMerges(partial, anchors);
    WithAnchorsMerges(db, anchors);
    AnchorMapKeys(anchors, q);
    assert db.anchors + AnchorMap(anchors[..q]) + AnchorMap(anchors) == db.anchors + AnchorMap(anchors);
  }

  /** Wherever the default path crashes, rerunning the whole range gives the tables, anchors and
      checkpoint of a run that did not crash. */
  lemma CrashThenRerun(db: Db, rows: seq<Row>, anchors: seq<BlockAnchor>, chainId: nat, dataset: string, next: nat,
                       cfg: AssignmentConfig, at: CrashPoint)
    requires Valid(db) && Replayable(db.rows, rows)
    requires at.InEvents? ==> at.p <= |rows|
    requires at.InAnchors? ==> at.q <= |anchors|
    ensures Committed(CrashedAt(db, rows, anchors, chainId, dataset, next, cfg, at), rows, anchors, chainId, dataset,
                      next, cfg)
         == Committed(db, rows, anchors, chainId, dataset, next, cfg)
  {
    if at.InEvents? {
      PrefixThenWhole(db, rows, at.p, cfg);
    } else {
      var written := WrittenAll(db, rows, cfg);
      var crashed := CrashedAt(db, rows, anchors, chainId, dataset, next, cfg, at);
      WithAnchorsMerges(written, if at.InAnchors? then anchors[..at.q] else anchors);
      RewriteIsNoChange(db, crashed, rows, cfg);
      if at.InAnchors? {
        AnchorsRewritten(written, anchors, at.q);
      } else {
        assert anchors[..|anchors|] == anchors;
        AnchorsRewritten(written, anchors, |anchors|);
        WithAnchorsMerges(crashed, anchors);
        WithAnchorsMerges(WithAnchors(written, anchors), anchors);
      }
    }
  }
}
