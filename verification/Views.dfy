/** The six assignment columns as a maintained view: what one write changes, what a rollback
    re-establishes, and exactly when a write keeps the view equal to the sorted fold. */
module Views {
  import opened Prelude
  import opened Schema
  import opened Assignments
  import opened DatabaseSpec

  /** What the sorted fold of a set of assignments ends up writing for one role. */
  ghost function Best(role: Role, accepted: Row, rows: set<Row>, cfg: AssignmentConfig): Option<Slot> {
    LastMatch(role, accepted, SortedRows(rows), cfg)
  }

  ghost predicate Wins(role: Role, accepted: Row, rows: set<Row>, cfg: AssignmentConfig, m: Row) {
    && m in rows && Matches(role, accepted, m, cfg)
    && forall r :: r in rows && Matches(role, accepted, r, cfg) ==> r == m || Before(r, m)
  }

  lemma {:induction false} LastMatchWins(role: Role, accepted: Row, s: seq<Row>, cfg: AssignmentConfig)
    requires StrictlySorted(s)
    ensures match LastMatch(role, accepted, s, cfg)
            case None => forall r :: r in s ==> !Matches(role, accepted, r, cfg)
            case Some(v) => exists m :: Wins(role, accepted, (set r | r in s), cfg, m) && v == WrittenSlot(role, m)
  {
    if s != [] {
      var n := |s| - 1;
      var last := s[n];
      assert s == s[..n] + [last];
      if Matches(role, accepted, last, cfg) {
        assert Wins(role, accepted, (set r | r in s), cfg, last);
      } else {
        LastMatchWins(role, accepted, s[..n], cfg);
        if LastMatch(role, accepted, s[..n], cfg).Some? {
          var m :| Wins(role, accepted, (set r | r in s[..n]), cfg, m)
                   && LastMatch(role, accepted, s[..n], cfg).value == WrittenSlot(role, m);
          assert Wins(role, accepted, (set r | r in s), cfg, m);
        }
      }
    }
  }

  /** The sorted fold takes the greatest matching assignment, and there is none to take
      exactly when nothing matches. */
  lemma BestWins(role: Role, accepted: Row, rows: set<Row>, cfg: AssignmentConfig)
    requires DistinctIds(rows)
    ensures match Best(role, accepted, rows, cfg)
            case None => forall r :: r in rows ==> !Matches(role, accepted, r, cfg)
            case Some(v) => exists m :: Wins(role, accepted, rows, cfg, m) && v == WrittenSlot(role, m)
  {
    var s := SortedRows(rows);
    SortedRowsAreListed(rows);
    LastMatchWins(role, accepted, s, cfg);
    assert (set r | r in s) == rows;
  }

  lemma BestIs(role: Role, accepted: Row, rows: set<Row>, cfg: AssignmentConfig, m: Row)
    requires DistinctIds(rows) && Wins(role, accepted, rows, cfg, m)
    ensures Best(role, accepted, rows, cfg) == Some(WrittenSlot(role, m))
  {
    BestWins(role, accepted, rows, cfg);
    var n :| Wins(role, accepted, rows, cfg, n) && Best(role, accepted, rows, cfg) == Some(WrittenSlot(role, n));
    if n != m {
      BeforeIsStrict(n, m);
    }
  }

  /** Two sets with the same matching assignments fold to the same slot. */
  lemma BestDependsOnMatches(role: Role, accepted: Row, a: set<Row>, b: set<Row>, cfg: AssignmentConfig)
    requires DistinctIds(a) && DistinctIds(b)
    requires forall r :: Matches(role, accepted, r, cfg) ==> (r in a <==> r in b)
    ensures Best(role, accepted, a, cfg) == Best(role, accepted, b, cfg)
  {
    BestWins(role, accepted, a, cfg);
    BestWins(role, accepted, b, cfg);
    if Best(role, accepted, a, cfg).Some? {
      var m :| Wins(role, accepted, a, cfg, m) && Best(role, accepted, a, cfg).value == WrittenSlot(role, m);
      assert Wins(role, accepted, b, cfg, m);
      BestIs(role, accepted, b, cfg, m);
    }
  }

  lemma ColumnsEqual(a: Columns, b: Columns)
    requires forall role :: SlotOf(a, role) == SlotOf(b, role)
    ensures a == b
  {
    assert SlotOf(a, OracleRole) == SlotOf(b, OracleRole);
    assert SlotOf(a, RelayerRole) == SlotOf(b, RelayerRole);
  }

  ghost function BestOf(rows: map<RowKey, Row>, msgHash: string, role: Role, cfg: AssignmentConfig): Option<Slot>
    requires AcceptedKey(msgHash) in rows
  {
    Best(role, rows[AcceptedKey(msgHash)], AssignmentsOf(rows, msgHash), cfg)
  }

  /** Reading the specified view role by role. */
  lemma ViewOfSlot(rows: map<RowKey, Row>, msgHash: string, role: Role, cfg: AssignmentConfig)
    requires AcceptedKey(msgHash) in rows
    ensures SlotOf(ViewOf(rows, msgHash, cfg), role) == BestOf(rows, msgHash, role, cfg).GetOr(NULL_SLOT)
  {
    FoldIsLastMatch(role, rows[AcceptedKey(msgHash)], SortedRows(AssignmentsOf(rows, msgHash)), cfg, NULL_COLUMNS);
  }

  /** The row under this key is an assignment of the message that sets the role's columns. */
  ghost predicate SetsRole(rows: map<RowKey, Row>, h: string, role: Role, cfg: AssignmentConfig, k: RowKey)
    requires AcceptedKey(h) in rows
  {
    k in rows && rows[k].AssignedRow? && rows[k].msgHash == h && Matches(role, rows[AcceptedKey(h)], rows[k], cfg)
  }

  /** And it is the latest of them, by height and then by id. */
  ghost predicate SetsRoleLast(rows: map<RowKey, Row>, h: string, role: Role, cfg: AssignmentConfig, k: RowKey)
    requires AcceptedKey(h) in rows
  {
    && SetsRole(rows, h, role, cfg, k)
    && forall j :: SetsRole(rows, h, role, cfg, j) && j != k ==>
         || rows[j].blockNumber < rows[k].blockNumber
         || (rows[j].blockNumber == rows[k].blockNumber && StrLess(rows[j].id, rows[k].id))
  }

  /** What a right view shows for a role: what the latest stored assignment of the message that sets its columns
      writes, and NULLs if there is none. */
  lemma ViewShows(db: Db, h: string, role: Role, cfg: AssignmentConfig)
    requires Valid(db) && AcceptedKey(h) in db.rows
    ensures var shown := SlotOf(ViewOf(db.rows, h, cfg), role);
      if forall k :: !SetsRole(db.rows, h, role, cfg, k) then shown == NULL_SLOT
      else exists k :: SetsRoleLast(db.rows, h, role, cfg, k) && shown == WrittenSlot(role, db.rows[k])
  {
    hide Matches, WrittenSlot, ViewOf, AssignmentsOf, Best, SetsRoleLast;
    var rows := AssignmentsOf(db.rows, h);
    AssignmentsHaveDistinctIds(db.rows, h);
    ViewOfSlot(db.rows, h, role, cfg);
    BestWins(role, db.rows[AcceptedKey(h)], rows, cfg);
    SetsRoleIff(db, h, role, cfg);
    if BestOf(db.rows, h, role, cfg).Some? {
      var r :| Wins(role, db.rows[AcceptedKey(h)], rows, cfg, r) && BestOf(db.rows, h, role, cfg).value
          == WrittenSlot(role, r);
      WinnerIsLast(db, h, role, cfg, r);
    }
  }

  lemma SetsRoleIff(db: Db, h: string, role: Role, cfg: AssignmentConfig)
    requires Valid(db) && AcceptedKey(h) in db.rows
    ensures forall k :: SetsRole(db.rows, h, role, cfg, k) ==>
              db.rows[k] in AssignmentsOf(db.rows, h) && KeyOfRow(db.rows[k]) == k
    ensures forall r :: r in AssignmentsOf(db.rows, h) && Matches(role, db.rows[AcceptedKey(h)], r, cfg) ==>
              SetsRole(db.rows, h, role, cfg, KeyOfRow(r)) && db.rows[KeyOfRow(r)] == r
  {
    hide Matches;
  }

  lemma WinnerIsLast(db: Db, h: string, role: Role, cfg: AssignmentConfig, r: Row)
    requires Valid(db) && AcceptedKey(h) in db.rows
    requires Wins(role, db.rows[AcceptedKey(h)], AssignmentsOf(db.rows, h), cfg, r)
    ensures SetsRoleLast(db.rows, h, role, cfg, KeyOfRow(r)) && db.rows[KeyOfRow(r)] == r
  {
    hide Matches, AssignmentsOf;
    SetsRoleIff(db, h, role, cfg);
  }

  lemma StoredAssignment(rows: map<RowKey, Row>, h: string, r: Row)
    requires WellKeyed(rows)
    ensures r in AssignmentsOf(rows, h)
       <==> KeyOfRow(r) in rows && rows[KeyOfRow(r)] == r && r.AssignedRow? && r.msgHash == h
  {
  }

  /** The assignments of a message after a row is stored: an assignment takes the place of the one under its id. */
  lemma AssignmentsAfterWrite(rows: map<RowKey, Row>, w: Row, h: string)
    requires WellKeyed(rows)
    ensures AssignmentsOf(rows[KeyOfRow(w) := w], h)
         == AssignmentsOf(rows, h) - (if KeyOfRow(w) in rows then {rows[KeyOfRow(w)]} else {})
            + (if w.AssignedRow? && w.msgHash == h then {w} else {})
  {
    var after := rows[KeyOfRow(w) := w];
    forall r
      ensures r in AssignmentsOf(after, h)
         <==> (r in AssignmentsOf(rows, h) && !(KeyOfRow(w) in rows && r == rows[KeyOfRow(w)]))
              || (r == w && w.AssignedRow? && w.msgHash == h)
    {
      StoredAssignment(rows, h, r);
      StoredAssignment(after, h, r);
    }
  }

  /** The same for an assignment that is new or unchanged. */
  lemma AssignmentsAfterUpsert(rows: map<RowKey, Row>, w: Row, h: string)
    requires WellKeyed(rows)
    requires w.AssignedRow? && KeyOfRow(w) in rows ==> rows[KeyOfRow(w)] == w
    ensures AssignmentsOf(rows[KeyOfRow(w) := w], h)
         == AssignmentsOf(rows, h) + (if w.AssignedRow? && w.msgHash == h then {w} else {})
  {
    AssignmentsAfterWrite(rows, w, h);
    if KeyOfRow(w) in rows {
      StoredAssignment(rows, h, rows[KeyOfRow(w)]);
    }
  }

  // ---- One write ----

  lemma UpsertKeepsValid(db: Db, w: Row)
    requires WellFormed(w) && Valid(db)
    ensures Valid(Upsert(db, w))
  {
  }

  lemma WrittenIsValid(db: Db, w: Row, cfg: AssignmentConfig)
    requires WellFormed(w) && Valid(db)
    ensures Valid(Written(db, w, cfg)) && Written(db, w, cfg).rows == db.rows[KeyOfRow(w) := w]
  {
  }

  /** What writing `w` puts into one role's columns of message `h`, given the rows after the upsert. */
  ghost function Effect(rows: map<RowKey, Row>, w: Row, h: string, role: Role, cfg: AssignmentConfig): Option<Slot> {
    if AcceptedKey(h) !in rows then None
    else if w.AcceptedRow? && w.msgHash == h then BestOf(rows, h, role, cfg)
    else if w.AssignedRow? && w.msgHash == h && Matches(role, rows[AcceptedKey(h)], w, cfg)
    then Some(WrittenSlot(role, w))
    else None
  }

  ghost function StoredColumns(db: Db, h: string): Columns {
    if h in db.view then db.view[h] else NULL_COLUMNS
  }

  /** A write changes a slot exactly where it has an effect, and keeps every other slot. */
  lemma StepEffect(db: Db, w: Row, h: string, role: Role, cfg: AssignmentConfig)
    requires WellFormed(w) && Valid(db) && h in Written(db, w, cfg).view
    ensures SlotOf(Written(db, w, cfg).view[h], role)
         == Effect(db.rows[KeyOfRow(w) := w], w, h, role, cfg).GetOr(SlotOf(StoredColumns(db, h), role))
  {
    var db1 := Upsert(db, w);
    if w.AcceptedRow? {
      FoldIsLastMatch(role, w, SortedRows(AssignmentsOf(db1.rows, w.msgHash)), cfg, db1.view[w.msgHash]);
    }
  }

  lemma {:induction false} WrittenAllKeepsValid(db: Db, rows: seq<Row>, cfg: AssignmentConfig)
    requires Valid(db) && forall r :: r in rows ==> WellFormed(r)
    ensures Valid(WrittenAll(db, rows, cfg))
  {
    if rows != [] {
      var n := |rows| - 1;
      WrittenAllKeepsValid(db, rows[..n], cfg);
      WrittenIsValid(WrittenAll(db, rows[..n], cfg), rows[n], cfg);
    }
  }

  lemma {:induction false} WrittenAllAppend(db: Db, a: seq<Row>, b: seq<Row>, cfg: AssignmentConfig)
    ensures WrittenAll(db, a + b, cfg) == WrittenAll(WrittenAll(db, a, cfg), b, cfg)
  {
    if b == [] {
      assert a + b == a;
    } else {
      var n := |b| - 1;
      assert (a + b)[..|a + b| - 1] == a + b[..n];
      WrittenAllAppend(db, a, b[..n], cfg);
    }
  }

  /** Writing events reads and changes neither anchors nor checkpoints. */
  lemma {:induction false} WrittenAllFrame(db: Db, other: Db, rows: seq<Row>, cfg: AssignmentConfig)
    requires other.rows == db.rows && other.view == db.view
    ensures WrittenAll(other, rows, cfg)
         == other.(rows := WrittenAll(db, rows, cfg).rows, view := WrittenAll(db, rows, cfg).view)
    ensures WrittenAll(db, rows, cfg).anchors == db.anchors && WrittenAll(db, rows, cfg).checkpoints == db.checkpoints
  {
    if rows != [] {
      WrittenAllFrame(db, other, rows[..|rows| - 1], cfg);
    }
  }

  // ---- Exactly when a write keeps the view right ----

  /** If the assignment sets the role's columns at all, the one the sorted fold takes last writes the same. */
  ghost predicate RoleArrivesAsLast(rows: map<RowKey, Row>, w: Row, role: Role, cfg: AssignmentConfig)
    requires w.AssignedRow? && AcceptedKey(w.msgHash) in rows
  {
    var accepted := rows[AcceptedKey(w.msgHash)];
    Matches(role, accepted, w, cfg) ==>
      forall r :: Wins(role, accepted, AssignmentsOf(rows, w.msgHash), cfg, r) ==>
          WrittenSlot(role, r) == WrittenSlot(role, w)
  }

  ghost predicate ArrivesAsLast(rows: map<RowKey, Row>, w: Row, cfg: AssignmentConfig)
    requires w.AssignedRow? && AcceptedKey(w.msgHash) in rows
  {
    RoleArrivesAsLast(rows, w, OracleRole, cfg) && RoleArrivesAsLast(rows, w, RelayerRole, cfg)
  }

  /** If the replaced assignment set the role's columns and its successor does not set them, what is left of its
      message folds to what was shown. */
  ghost predicate RemainderShows(before: map<RowKey, Row>, after: map<RowKey, Row>, replaced: Row, w: Row, role: Role,
                                 cfg: AssignmentConfig)
    requires replaced.AssignedRow? && w.AssignedRow?
    requires AcceptedKey(replaced.msgHash) in before && AcceptedKey(replaced.msgHash) in after
  {
    var accepted := before[AcceptedKey(replaced.msgHash)];
    Matches(role, accepted, replaced, cfg) && !(w.msgHash == replaced.msgHash && Matches(role, accepted, w, cfg)) ==>
      BestOf(after, replaced.msgHash, role, cfg) == BestOf(before, replaced.msgHash, role, cfg)
  }

  /** The stored row under the assignment's id, if its message is accepted, leaves its message's columns right. */
  ghost predicate ReplacementShows(rows: map<RowKey, Row>, w: Row, cfg: AssignmentConfig)
    requires WellKeyed(rows) && w.AssignedRow?
  {
    KeyOfRow(w) in rows && AcceptedKey(rows[KeyOfRow(w)].msgHash) in rows ==>
      var after, replaced := rows[KeyOfRow(w) := w], rows[KeyOfRow(w)];
      && RemainderShows(rows, after, replaced, w, OracleRole, cfg)
      && RemainderShows(rows, after, replaced, w, RelayerRole, cfg)
  }

  /** Two assignments of one message to the same oracle and relayer; their blocks and fees may differ. */
  predicate SameAssignment(a: Row, b: Row) {
    a.AssignedRow? && b.AssignedRow? && a.msgHash == b.msgHash && a.oracle == b.oracle && a.relayer == b.relayer
  }

  /** Whether the assignment sets the role's columns of some accepted row. */
  predicate CanMatch(role: Role, assignment: Row, cfg: AssignmentConfig)
    requires assignment.AssignedRow?
  {
    match role
    case OracleRole =>
      ContainsAddress(cfg.oracleAddresses, assignment.oracle) || EqIgnoreAsciiCase(assignment.oracle, B49E_ORACLE)
    case RelayerRole => ContainsAddress(cfg.relayerAddresses, assignment.relayer)
  }

  /** Both assignments can set one role's columns, and not to the same. */
  predicate ClashIn(role: Role, a: Row, b: Row, cfg: AssignmentConfig)
    requires a.AssignedRow? && b.AssignedRow?
  {
    CanMatch(role, a, cfg) && CanMatch(role, b, cfg) && WrittenSlot(role, a) != WrittenSlot(role, b)
  }

  /** The order of two assignments of one message shows in its columns only if they clash. */
  predicate InOrder(earlier: Row, later: Row, cfg: AssignmentConfig)
    requires earlier.AssignedRow? && later.AssignedRow?
  {
    || earlier == later || Before(earlier, later)
    || !(ClashIn(OracleRole, earlier, later, cfg) || ClashIn(RelayerRole, earlier, later, cfg))
  }

  lemma OtherColumnsUntouched(db: Db, w: Row, h: string, cfg: AssignmentConfig)
    requires WellFormed(w) && Valid(db) && h in Written(db, w, cfg).view
    requires !((w.AcceptedRow? || w.AssignedRow?) && w.msgHash == h)
    ensures h in db.view && Written(db, w, cfg).view[h] == db.view[h]
  {
    hide Best, SortedRows, Fold, Apply;
  }

  lemma OtherMessagesUntouched(db: Db, w: Row, h: string, cfg: AssignmentConfig)
    requires WellFormed(w) && ViewOk(db, cfg) && h in Written(db, w, cfg).view
    requires w.AssignedRow? && KeyOfRow(w) in db.rows ==> db.rows[KeyOfRow(w)].msgHash != h
    requires !((w.AcceptedRow? || w.AssignedRow?) && w.msgHash == h)
    ensures Written(db, w, cfg).view[h] == ViewOf(Written(db, w, cfg).rows, h, cfg)
  {
    hide Best, Fold, SortedRows;
    var db2 := Written(db, w, cfg);
    OtherColumnsUntouched(db, w, h, cfg);
    WrittenIsValid(db, w, cfg);
    AssignmentsAfterWrite(db.rows, w, h);
    if KeyOfRow(w) in db.rows {
      StoredAssignment(db.rows, h, db.rows[KeyOfRow(w)]);
    }
    assert AssignmentsOf(db2.rows, h) == AssignmentsOf(db.rows, h);
  }

  /** Some stored assignment of the message sets the oracle columns of this accepted row. */
  ghost predicate OracleSet(rows: map<RowKey, Row>, accepted: Row, cfg: AssignmentConfig)
    requires accepted.AcceptedRow?
  {
    exists r :: r in AssignmentsOf(rows, accepted.msgHash) && Matches(OracleRole, accepted, r, cfg)
  }

  /** The slot before and after an accepted write, and the slot it should be. */
  lemma AcceptedSlots(db: Db, w: Row, role: Role, cfg: AssignmentConfig)
    requires WellFormed(w) && ViewOk(db, cfg) && w.AcceptedRow?
    ensures var db2, stored := Written(db, w, cfg), AssignmentsOf(db.rows, w.msgHash);
      && SlotOf(db2.view[w.msgHash], role) == Best(role, w, stored,
                                                   cfg).GetOr(SlotOf(StoredColumns(db, w.msgHash), role))
      && SlotOf(ViewOf(db2.rows, w.msgHash, cfg), role) == Best(role, w, stored, cfg).GetOr(NULL_SLOT)
    ensures SlotOf(StoredColumns(db, w.msgHash), role)
         == if KeyOfRow(w) in db.rows
            then Best(role, db.rows[KeyOfRow(w)], AssignmentsOf(db.rows, w.msgHash), cfg).GetOr(NULL_SLOT)
            else NULL_SLOT
  {
    var h := w.msgHash;
    StepEffect(db, w, h, role, cfg);
    ViewOfSlot(Written(db, w, cfg).rows, h, role, cfg);
    AssignmentsAfterUpsert(db.rows, w, h);
    assert AssignmentsOf(Written(db, w, cfg).rows, h) == AssignmentsOf(db.rows, h);
    if h in db.view {
      ViewOfSlot(db.rows, h, role, cfg);
    }
  }

  lemma AcceptedSlotRightIff(db: Db, w: Row, role: Role, cfg: AssignmentConfig)
    requires WellFormed(w) && ViewOk(db, cfg) && w.AcceptedRow?
    ensures var db2 := Written(db, w, cfg);
      SlotOf(db2.view[w.msgHash], role) == SlotOf(ViewOf(db2.rows, w.msgHash, cfg), role)
      <==> (role == OracleRole && KeyOfRow(w) in db.rows && OracleSet(db.rows, db.rows[KeyOfRow(w)], cfg)
            ==> OracleSet(db.rows, w, cfg))
  {
    var stored := AssignmentsOf(db.rows, w.msgHash);
    AcceptedSlots(db, w, role, cfg);
    AssignmentsHaveDistinctIds(db.rows, w.msgHash);
    BestWins(role, w, stored, cfg);
    if KeyOfRow(w) in db.rows {
      BestWins(role, db.rows[KeyOfRow(w)], stored, cfg);
    }
  }

  /** Writing an accepted message keeps the view right if and only if it does not replace a stored row whose
      oracle columns were set by a row for which no stored assignment sets them: the upsert leaves
      the old columns in place. The order in which the assignments arrived does not matter. */
  lemma AcceptedWriteKeepsViewIff(db: Db, w: Row, cfg: AssignmentConfig)
    requires WellFormed(w) && ViewOk(db, cfg) && w.AcceptedRow?
    ensures ViewOk(Written(db, w, cfg), cfg)
       <==> (KeyOfRow(w) in db.rows && OracleSet(db.rows, db.rows[KeyOfRow(w)], cfg) ==> OracleSet(db.rows, w, cfg))
  {
    var db2 := Written(db, w, cfg);
    WrittenIsValid(db, w, cfg);
    forall h | h in db2.view && h != w.msgHash
      ensures db2.view[h] == ViewOf(db2.rows, h, cfg)
    {
      OtherMessagesUntouched(db, w, h, cfg);
    }
    AcceptedSlotRightIff(db, w, OracleRole, cfg);
    AcceptedSlotRightIff(db, w, RelayerRole, cfg);
  }

  /** In particular, an accepted row that is new or unchanged keeps the view right. */
  lemma AcceptedWriteKeepsView(db: Db, w: Row, cfg: AssignmentConfig)
    requires WellFormed(w) && ViewOk(db, cfg) && w.AcceptedRow?
    requires KeyOfRow(w) in db.rows ==> db.rows[KeyOfRow(w)] == w
    ensures ViewOk(Written(db, w, cfg), cfg)
  {
    AcceptedWriteKeepsViewIff(db, w, cfg);
  }

  /** A slot of the sorted fold is determined by what the fold takes last. */
  lemma SameSlotSameBest(a: map<RowKey, Row>, b: map<RowKey, Row>, h: string, role: Role, cfg: AssignmentConfig)
    requires WellKeyed(a) && WellKeyed(b) && AcceptedKey(h) in a && AcceptedKey(h) in b
    ensures BestOf(a, h, role, cfg).GetOr(NULL_SLOT) == BestOf(b, h, role, cfg).GetOr(NULL_SLOT)
       <==> BestOf(a, h, role, cfg) == BestOf(b, h, role, cfg)
  {
    AssignmentsHaveDistinctIds(a, h);
    AssignmentsHaveDistinctIds(b, h);
    BestWins(role, a[AcceptedKey(h)], AssignmentsOf(a, h), cfg);
    BestWins(role, b[AcceptedKey(h)], AssignmentsOf(b, h), cfg);
  }

  /** A slot that the written assignment sets is right exactly when the greatest matching assignment writes the same. */
  lemma SetSlotRightIff(db: Db, w: Row, role: Role, cfg: AssignmentConfig)
    requires ViewOk(db, cfg) && w.AssignedRow? && w.msgHash in db.view
    requires Matches(role, db.rows[AcceptedKey(w.msgHash)], w, cfg)
    ensures var db2 := Written(db, w, cfg);
      SlotOf(db2.view[w.msgHash], role) == SlotOf(ViewOf(db2.rows, w.msgHash, cfg), role)
      <==> RoleArrivesAsLast(db.rows[KeyOfRow(w) := w], w, role, cfg)
  {
    var h := w.msgHash;
    var rows := db.rows[KeyOfRow(w) := w];
    var after := AssignmentsOf(rows, h);
    StepEffect(db, w, h, role, cfg);
    ViewOfSlot(rows, h, role, cfg);
    AssignmentsHaveDistinctIds(rows, h);
    AssignmentsAfterWrite(db.rows, w, h);
    BestWins(role, rows[AcceptedKey(h)], after, cfg);
    forall r | Wins(role, rows[AcceptedKey(h)], after, cfg, r)
      ensures Best(role, rows[AcceptedKey(h)], after, cfg) == Some(WrittenSlot(role, r))
    {
      BestIs(role, rows[AcceptedKey(h)], after, cfg, r);
    }
  }

  /** A slot that the written assignment does not set is right exactly when the fold takes the same as before. */
  lemma KeptSlotRightIff(db: Db, w: Row, h: string, role: Role, cfg: AssignmentConfig)
    requires ViewOk(db, cfg) && w.AssignedRow? && h in db.view
    requires !(w.msgHash == h && Matches(role, db.rows[AcceptedKey(h)], w, cfg))
    ensures var db2 := Written(db, w, cfg);
      SlotOf(db2.view[h], role) == SlotOf(ViewOf(db2.rows, h, cfg), role)
      <==> BestOf(db.rows[KeyOfRow(w) := w], h, role, cfg) == BestOf(db.rows, h, role, cfg)
  {
    StepEffect(db, w, h, role, cfg);
    ViewOfSlot(db.rows, h, role, cfg);
    ViewOfSlot(db.rows[KeyOfRow(w) := w], h, role, cfg);
    SameSlotSameBest(db.rows[KeyOfRow(w) := w], db.rows, h, role, cfg);
  }

  /** Unless the replaced assignment set it, such a slot folds as before. */
  lemma UnsetSlotFoldsAsBefore(rows: map<RowKey, Row>, w: Row, h: string, role: Role, cfg: AssignmentConfig)
    requires WellKeyed(rows) && w.AssignedRow? && AcceptedKey(h) in rows
    requires !(w.msgHash == h && Matches(role, rows[AcceptedKey(h)], w, cfg))
    requires KeyOfRow(w) in rows && rows[KeyOfRow(w)].msgHash == h ==>
               !Matches(role, rows[AcceptedKey(h)], rows[KeyOfRow(w)], cfg)
    ensures BestOf(rows[KeyOfRow(w) := w], h, role, cfg) == BestOf(rows, h, role, cfg)
  {
    hide Matches;
    var after := rows[KeyOfRow(w) := w];
    AssignmentsHaveDistinctIds(rows, h);
    AssignmentsHaveDistinctIds(after, h);
    AssignmentsAfterWrite(rows, w, h);
    BestDependsOnMatches(role, rows[AcceptedKey(h)], AssignmentsOf(rows, h), AssignmentsOf(after, h), cfg);
  }

  /** Whether one role's columns of one message are right after an assignment is written. */
  lemma AssignedSlotRightIff(db: Db, w: Row, h: string, role: Role, cfg: AssignmentConfig)
    requires ViewOk(db, cfg) && w.AssignedRow? && h in db.view
    ensures var db2 := Written(db, w, cfg);
      SlotOf(db2.view[h], role) == SlotOf(ViewOf(db2.rows, h, cfg), role)
      <==> && (w.msgHash == h ==> RoleArrivesAsLast(db.rows[KeyOfRow(w) := w], w, role, cfg))
           && (KeyOfRow(w) in db.rows && db.rows[KeyOfRow(w)].msgHash == h ==>
                 RemainderShows(db.rows, db.rows[KeyOfRow(w) := w], db.rows[KeyOfRow(w)], w, role, cfg))
  {
    hide Matches, Written, BestOf, ViewOf;
    if w.msgHash == h && Matches(role, db.rows[AcceptedKey(h)], w, cfg) {
      SetSlotRightIff(db, w, role, cfg);
    } else {
      KeptSlotRightIff(db, w, h, role, cfg);
      if !(KeyOfRow(w) in db.rows && db.rows[KeyOfRow(w)].msgHash == h
           && Matches(role, db.rows[AcceptedKey(h)], db.rows[KeyOfRow(w)], cfg)) {
        UnsetSlotFoldsAsBefore(db.rows, w, h, role, cfg);
      }
    }
  }

  /** Writing an assignment keeps the view right if and only if, for every role it matches, the greatest matching
      assignment then stored writes the same columns, and, if it replaces another row, the message of that row
      still folds to the columns shown in every role only the replaced row set. */
  lemma AssignedWriteKeepsViewIff(db: Db, w: Row, cfg: AssignmentConfig)
    requires ViewOk(db, cfg) && w.AssignedRow?
    ensures ViewOk(Written(db, w, cfg), cfg)
       <==> && (w.msgHash in db.view ==> ArrivesAsLast(db.rows[KeyOfRow(w) := w], w, cfg))
            && ReplacementShows(db.rows, w, cfg)
  {
    hide ViewOf, ArrivesAsLast, ReplacementShows, Written;
    var db2 := Written(db, w, cfg);
    WrittenIsValid(db, w, cfg);
    ReplacementOfNothing(db, w, cfg);
    AssignedWriteKeepsMessages(db, w, cfg);
    forall h | h in db2.view
      ensures db2.view[h] == ViewOf(db2.rows, h, cfg)
         <==> && (w.msgHash == h ==> ArrivesAsLast(db2.rows, w, cfg))
              && (KeyOfRow(w) in db.rows && db.rows[KeyOfRow(w)].msgHash == h ==> ReplacementShows(db.rows, w, cfg))
    {
      AssignedMessageRightIff(db, w, h, cfg);
    }
  }

  lemma AssignedWriteKeepsMessages(db: Db, w: Row, cfg: AssignmentConfig)
    requires Valid(db) && w.AssignedRow?
    ensures Written(db, w, cfg).view.Keys == db.view.Keys
  {
  }

  lemma ReplacementOfNothing(db: Db, w: Row, cfg: AssignmentConfig)
    requires Valid(db) && w.AssignedRow?
    ensures KeyOfRow(w) !in db.rows || db.rows[KeyOfRow(w)].msgHash !in db.view ==> ReplacementShows(db.rows, w, cfg)
  {
    hide RemainderShows;
  }

  /** Whether one message's columns are right after an assignment is written. */
  lemma AssignedMessageRightIff(db: Db, w: Row, h: string, cfg: AssignmentConfig)
    requires ViewOk(db, cfg) && w.AssignedRow? && h in db.view
    ensures var db2 := Written(db, w, cfg);
      db2.view[h] == ViewOf(db2.rows, h, cfg)
      <==> && (w.msgHash == h ==> ArrivesAsLast(db2.rows, w, cfg))
           && (KeyOfRow(w) in db.rows && db.rows[KeyOfRow(w)].msgHash == h ==> ReplacementShows(db.rows, w, cfg))
  {
    hide ViewOf, RoleArrivesAsLast, RemainderShows;
    var db2 := Written(db, w, cfg);
    AssignedSlotRightIff(db, w, h, OracleRole, cfg);
    AssignedSlotRightIff(db, w, h, RelayerRole, cfg);
    SlotsMakeColumns(db2.view[h], ViewOf(db2.rows, h, cfg));
  }

  lemma SlotsMakeColumns(a: Columns, b: Columns)
    ensures a == b
       <==> SlotOf(a, OracleRole) == SlotOf(b, OracleRole) && SlotOf(a, RelayerRole) == SlotOf(b, RelayerRole)
  {
  }

  /** In particular, an assignment that arrives in order after every stored one of its message keeps the view right,
      be it new or in the place of one of the same message, oracle and relayer. */
  lemma InOrderAssignmentKeepsView(db: Db, w: Row, cfg: AssignmentConfig)
    requires ViewOk(db, cfg) && w.AssignedRow?
    requires KeyOfRow(w) in db.rows ==> SameAssignment(db.rows[KeyOfRow(w)], w)
    requires forall r :: r in AssignmentsOf(db.rows, w.msgHash) ==> KeyOfRow(r) == KeyOfRow(w) || InOrder(r, w, cfg)
    ensures ViewOk(Written(db, w, cfg), cfg)
  {
    hide Matches, ViewOf, Written, ReplacementShows, ArrivesAsLast, InOrder;
    AssignedWriteKeepsViewIff(db, w, cfg);
    SameAssignmentShows(db.rows, w, cfg);
    if w.msgHash in db.view {
      OrderedArrivesAsLast(db.rows, w, cfg);
    }
  }

  /** An assignment sets what the one of the same message, oracle and relayer set that it replaces. */
  lemma SameAssignmentShows(rows: map<RowKey, Row>, w: Row, cfg: AssignmentConfig)
    requires WellKeyed(rows) && w.AssignedRow?
    requires KeyOfRow(w) in rows ==> SameAssignment(rows[KeyOfRow(w)], w)
    ensures ReplacementShows(rows, w, cfg)
  {
    hide BestOf;
  }

  lemma OrderedArrivesAsLast(rows: map<RowKey, Row>, w: Row, cfg: AssignmentConfig)
    requires WellKeyed(rows) && w.AssignedRow? && AcceptedKey(w.msgHash) in rows
    requires forall r :: r in AssignmentsOf(rows, w.msgHash) ==> KeyOfRow(r) == KeyOfRow(w) || InOrder(r, w, cfg)
    ensures ArrivesAsLast(rows[KeyOfRow(w) := w], w, cfg)
  {
    hide Matches, InOrder;
    var after := rows[KeyOfRow(w) := w];
    AssignmentsAfterWrite(rows, w, w.msgHash);
    forall role, r | Matches(role, after[AcceptedKey(w.msgHash)], w, cfg)
                     && Wins(role, after[AcceptedKey(w.msgHash)], AssignmentsOf(after, w.msgHash), cfg, r)
      ensures WrittenSlot(role, r) == WrittenSlot(role, w)
    {
      StoredAssignment(after, w.msgHash, r);
      if r != w {
        BeforeIsStrict(w, r);
        InOrderWritesTheSame(role, after[AcceptedKey(w.msgHash)], r, w, cfg);
      }
    }
  }

  /** An assignment that arrives in order although it sorts before the other writes the same where both match. */
  lemma InOrderWritesTheSame(role: Role, accepted: Row, r: Row, w: Row, cfg: AssignmentConfig)
    requires r.AssignedRow? && w.AssignedRow? && InOrder(r, w, cfg) && r != w && !Before(r, w)
    requires Matches(role, accepted, r, cfg) && Matches(role, accepted, w, cfg)
    ensures WrittenSlot(role, r) == WrittenSlot(role, w)
  {
    hide Before, WrittenSlot;
  }

  /** Whether writing one row over these tables keeps a right view right. */
  ghost predicate WriteFits(db: Db, w: Row, cfg: AssignmentConfig)
    requires Valid(db)
  {
    && (w.AcceptedRow? && KeyOfRow(w) in db.rows && OracleSet(db.rows, db.rows[KeyOfRow(w)], cfg) ==>
          OracleSet(db.rows, w, cfg))
    && (w.AssignedRow? ==>
          && (w.msgHash in db.view ==> ArrivesAsLast(db.rows[KeyOfRow(w) := w], w, cfg))
          && ReplacementShows(db.rows, w, cfg))
  }

  /** One write keeps the view right if and only if it fits. */
  lemma WriteKeepsViewIff(db: Db, w: Row, cfg: AssignmentConfig)
    requires WellFormed(w) && ViewOk(db, cfg)
    ensures ViewOk(Written(db, w, cfg), cfg) <==> WriteFits(db, w, cfg)
  {
    hide ViewOf, ArrivesAsLast, ReplacementShows, OracleSet;
    if w.AcceptedRow? {
      AcceptedWriteKeepsViewIff(db, w, cfg);
    } else if w.AssignedRow? {
      AssignedWriteKeepsViewIff(db, w, cfg);
    } else {
      WrittenIsValid(db, w, cfg);
      forall h | h in Written(db, w, cfg).view
        ensures Written(db, w, cfg).view[h] == ViewOf(Written(db, w, cfg).rows, h, cfg)
      {
        OtherMessagesUntouched(db, w, h, cfg);
      }
    }
  }

  // ---- Rollback ----

  lemma UntouchedAssignments(db: Db, chainId: nat, dataset: string, block: nat, h: string)
    requires h !in TouchedMessages(db.rows, chainId, block)
    ensures AssignmentsOf(KeptRows(db, chainId, dataset, block), h) == AssignmentsOf(db.rows, h)
  {
    forall k | k in db.rows && db.rows[k].AssignedRow? && db.rows[k].msgHash == h
      ensures k in KeptRows(db, chainId, dataset, block)
    {
      assert !RemovedByRollback(db, db.rows[k], chainId, dataset, block);
    }
    var kept := KeptRows(db, chainId, dataset, block);
    forall r
      ensures r in AssignmentsOf(kept, h) <==> r in AssignmentsOf(db.rows, h)
    {
      if r in AssignmentsOf(db.rows, h) {
        var k :| k in db.rows && db.rows[k].AssignedRow? && db.rows[k].msgHash == h && db.rows[k] == r;
        assert k in kept && kept[k] == r;
      }
    }
  }

  /** A rollback leaves every touched message with exactly the sorted fold of what remains, even where the
      view was wrong before; untouched messages that remain keep their columns and their fold. */
  lemma RollbackRestoresView(db: Db, chainId: nat, dataset: string, block: nat, cfg: AssignmentConfig)
    requires Valid(db)
    ensures var db2 := RolledBack(db, chainId, dataset, block, cfg);
      && Valid(db2)
      && (forall h :: h in db2.view && h in TouchedMessages(db.rows, chainId, block) ==>
            db2.view[h] == ViewOf(db2.rows, h, cfg))
      && (forall h :: h in db2.view && h !in TouchedMessages(db.rows, chainId, block) ==>
            && h in db.view && db2.view[h] == db.view[h]
            && ViewOf(db2.rows, h, cfg) == ViewOf(db.rows, h, cfg))
      && (ViewOk(db, cfg) ==> ViewOk(db2, cfg))
  {
    var db2 := RolledBack(db, chainId, dataset, block, cfg);
    forall h | h in db2.view && h !in TouchedMessages(db.rows, chainId, block)
      ensures ViewOf(db2.rows, h, cfg) == ViewOf(db.rows, h, cfg)
    {
      UntouchedAssignments(db, chainId, dataset, block, h);
    }
  }

  /** A stored assignment of the message is of the chain and at or above the block. */
  ghost predicate LosesAssignment(rows: map<RowKey, Row>, chainId: nat, block: nat, h: string) {
    exists k :: k in rows && rows[k].AssignedRow? && rows[k].msgHash == h && AtOrAbove(rows[k], chainId, block)
  }

  predicate AtOrAbove(r: Row, chainId: nat, block: nat) {
    r.chainId == chainId && block <= r.blockNumber
  }

  /** A rollback row by row, column by column and anchor by anchor. Rows go by their own chain and height, and
      signature rows also by an anchor; the columns of a message that stays are refolded exactly if it loses an
      assignment; anchors go by chain, dataset and height; and of the checkpoints only the chain's moves. */
  lemma RollbackIs(db: Db, chainId: nat, dataset: string, block: nat, cfg: AssignmentConfig)
    requires Valid(db)
    ensures var after := RolledBack(db, chainId, dataset, block, cfg);
      && (forall k :: k in after.rows <==>
            && k in db.rows && !AtOrAbove(db.rows[k], chainId, block)
            && !SignatureHit(db.anchors, db.rows[k], chainId, dataset, block))
      && (forall k :: k in after.rows ==> after.rows[k] == db.rows[k])
      && (forall h :: h in after.view <==> h in db.view && !AtOrAbove(db.rows[AcceptedKey(h)], chainId, block))
      && (forall h :: h in after.view && LosesAssignment(db.rows, chainId, block, h) ==>
            after.view[h] == ViewOf(after.rows, h, cfg))
      && (forall h :: h in after.view && !LosesAssignment(db.rows, chainId, block, h) ==> after.view[h] == db.view[h])
      && (forall a :: a in after.anchors <==>
            a in db.anchors && !(a.chainId == chainId && a.dataset == dataset && block <= a.blockNumber))
      && (forall a :: a in after.anchors ==> after.anchors[a] == db.anchors[a])
      && (forall c :: c in after.checkpoints <==> c in db.checkpoints || c == CheckpointKey(chainId, dataset))
      && (forall c :: c in after.checkpoints ==>
            after.checkpoints[c] == if c == CheckpointKey(chainId, dataset) then block else db.checkpoints[c])
  {
    hide SignatureHitBy, ViewOf;
  }
}
