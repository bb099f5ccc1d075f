/** Where the maintained assignment columns differ from the sorted fold, and where a second write of a
    batch is not a no-op: concrete histories for each condition the positive results ask for. */
module ViewLimits {
  import opened Prelude
  import opened Schema
  import opened Assignments
  import opened DatabaseSpec
  import opened Views
  import opened Idempotence

  function Accepted(block: nat): Row {
    AcceptedRow("0xh", block, "0xt", 0, 46, 0, "0xh", "0xc", 0, 46, "0xs", 1, "0xd", 0, "0x")
  }

  function Assigned(id: string, block: nat, oracle: string, relayer: string, fee: nat): Row {
    AssignedRow(id, block, "0xt", 0, 46, "0xh", oracle, relayer, 0, fee, "0x")
  }

  const RELAYER := AssignmentConfig([], ["0xr"])

  lemma RelayerMatches(block: nat, assignment: Row)
    requires assignment.AssignedRow?
    ensures assignment.relayer == "0xr" ==> Matches(RelayerRole, Accepted(block), assignment, RELAYER)
    ensures assignment.relayer == "" ==> !Matches(RelayerRole, Accepted(block), assignment, RELAYER)
  {
    MembershipTestsAgree(["0xr"], assignment.relayer);
    assert EqIgnoreAsciiCase(["0xr"][0], "0xr");
    assert |Lower("0xr")| == 3 && |Lower("")| == 0;
  }

  /** A new assignment that sorts before the one the columns show, and would write something else, breaks the view. */
  lemma LateArrivalBreaksView(db: Db, w: Row, shown: Row, role: Role, cfg: AssignmentConfig)
    requires ViewOk(db, cfg) && w.AssignedRow? && AcceptedKey(w.msgHash) in db.rows && KeyOfRow(w) !in db.rows
    requires Matches(role, db.rows[AcceptedKey(w.msgHash)], w, cfg)
    requires Wins(role, db.rows[AcceptedKey(w.msgHash)], AssignmentsOf(db.rows, w.msgHash), cfg, shown)
    requires Before(w, shown) && WrittenSlot(role, w) != WrittenSlot(role, shown)
    ensures !ViewOk(Written(db, w, cfg), cfg)
  {
    hide Matches, WrittenSlot, Before, ViewOf;
    var rows := db.rows[KeyOfRow(w) := w];
    AssignedWriteKeepsViewIff(db, w, cfg);
    AssignmentsAfterUpsert(db.rows, w, w.msgHash);
    assert Wins(role, rows[AcceptedKey(w.msgHash)], AssignmentsOf(rows, w.msgHash), cfg, shown);
    assert !RoleArrivesAsLast(rows, w, role, cfg);
  }

  /** The ids of logs 9 and 10 of one transaction sort against their order in it, because ids sort as text. */
  lemma TextOrderOfLogs()
    ensures StrLess("46-5-0xt-10", "46-5-0xt-9")
  {
    var a, b := "46-5-0xt-10", "46-5-0xt-9";
    assert a[..9] == b[..9];
    SamePrefix(a, b, 9);
  }

  lemma {:induction false} SamePrefix(a: string, b: string, n: nat)
    requires n < |a| && n < |b| && a[..n] == b[..n] && a[n] < b[n]
    ensures StrLess(a, b)
  {
    if n > 0 {
      assert a[0] == a[..n][0] == b[..n][0] == b[0];
      assert a[1..][..n - 1] == a[..n][1..] == b[..n][1..] == b[1..][..n - 1];
      SamePrefix(a[1..], b[1..], n - 1);
    }
  }

  /** Logs 9 and 10 of one transaction assign one message and arrive in log order: the columns show log 10, the
      sorted fold shows log 9. */
  lemma OutOfOrderBreaksView()
    ensures !ViewOk(WrittenAll(EMPTY_DB, [Accepted(5), Assigned("46-5-0xt-9", 5, "", "0xr", 1),
                                          Assigned("46-5-0xt-10", 5, "", "0xr", 2)], RELAYER), RELAYER)
  {
    hide Matches, ViewOf, Written, Valid, StrLess;
    var accepted := Accepted(5);
    var ninth, tenth := Assigned("46-5-0xt-9", 5, "", "0xr", 1), Assigned("46-5-0xt-10", 5, "", "0xr", 2);
    ThreeWrites(EMPTY_DB, accepted, ninth, tenth, RELAYER);
    var two := AcceptedThenAssigned(accepted, ninth, RELAYER);
    RelayerMatches(5, ninth);
    RelayerMatches(5, tenth);
    TextOrderOfLogs();
    assert Wins(RelayerRole, accepted, AssignmentsOf(two.rows, "0xh"), RELAYER, ninth);
    LateArrivalBreaksView(two, tenth, ninth, RelayerRole, RELAYER);
  }

  /** A message and its only assignment. */
  lemma AcceptedThenAssigned(accepted: Row, given: Row, cfg: AssignmentConfig) returns (db: Db)
    requires accepted.AcceptedRow? && given.AssignedRow? && WellFormed(accepted) && given.msgHash == accepted.id
    ensures db == Written(Written(EMPTY_DB, accepted, cfg), given, cfg)
    ensures ViewOk(db, cfg) && db.rows == map[KeyOfRow(accepted) := accepted, KeyOfRow(given) := given]
    ensures AssignmentsOf(db.rows, accepted.id) == {given}
  {
    hide ViewOf, Matches;
    var one := Written(EMPTY_DB, accepted, cfg);
    db := Written(one, given, cfg);
    AcceptedWriteKeepsView(EMPTY_DB, accepted, cfg);
    WrittenIsValid(EMPTY_DB, accepted, cfg);
    assert AssignmentsOf(one.rows, accepted.id) == {};
    InOrderAssignmentKeepsView(one, given, cfg);
    WrittenIsValid(one, given, cfg);
    AssignmentsAfterUpsert(one.rows, given, accepted.id);
  }

  lemma ThreeWrites(db: Db, a: Row, b: Row, c: Row, cfg: AssignmentConfig)
    ensures WrittenAll(db, [a, b, c], cfg) == Written(Written(Written(db, a, cfg), b, cfg), c, cfg)
  {
    hide Written;
    assert [a, b, c][..2] == [a, b] && [a, b][..1] == [a] && [a][..0] == [];
    assert WrittenAll(db, [a], cfg) == Written(db, a, cfg);
    assert WrittenAll(db, [a, b], cfg) == Written(Written(db, a, cfg), b, cfg);
  }

  // ---- The accepted upsert keeps old columns ----

  /** A message stored again one block below the oracle's cutover keeps the oracle columns it had at the cutover,
      although no stored assignment sets them any more: the upsert does not clear them. */
  lemma StaleColumnsBreakView()
    ensures var cutover := B49E_DARWINIA_FROM_BLOCK;
      !ViewOk(WrittenAll(EMPTY_DB, [Accepted(cutover), Assigned("a", 2, B49E_ORACLE, "", 1), Accepted(cutover - 1)],
                         RELAYER), RELAYER)
  {
    hide ViewOf, Written, Valid;
    var before, after, x := Accepted(B49E_DARWINIA_FROM_BLOCK), Accepted(B49E_DARWINIA_FROM_BLOCK - 1),
        Assigned("a", 2, B49E_ORACLE, "", 1);
    ThreeWrites(EMPTY_DB, before, x, after, RELAYER);
    var two := AcceptedThenAssigned(before, x, RELAYER);
    AcceptedWriteKeepsViewIff(two, after, RELAYER);
    assert Matches(OracleRole, before, x, RELAYER) && !Matches(OracleRole, after, x, RELAYER);
    assert OracleSet(two.rows, before, RELAYER) && !OracleSet(two.rows, after, RELAYER);
  }

  // ---- A second pass that is not a no-op ----

  /** The batch names another relayer than the stored assignment it replaces. */
  const REPLACING := [Accepted(1), Assigned("a", 2, "", "", 2)]

  /** Stored before the message: the assignments `a` of block 2 and `b` of block 1. */
  const TWO_ASSIGNED := EMPTY_DB.(rows := map[
    RowKey(AssignedTable, "a") := Assigned("a", 2, "", "0xr", 2),
    RowKey(AssignedTable, "b") := Assigned("b", 1, "", "0xr", 1)])

  /** One pass over the batch shows the greatest stored assignment that matches, before `a` is replaced. */
  lemma PassShows(db: Db, shown: Row)
    requires Valid(db) && Wins(RelayerRole, Accepted(1), AssignmentsOf(db.rows, "0xh"), RELAYER, shown)
    ensures var once := WrittenAll(db, REPLACING, RELAYER);
      && Valid(once) && "0xh" in once.view && once.view["0xh"].relayer == WrittenSlot(RelayerRole, shown)
      && once.rows == db.rows[AcceptedKey("0xh") := Accepted(1)][RowKey(AssignedTable, "a") := REPLACING[1]]
  {
    hide Written, Wins, Matches;
    var first := Written(db, REPLACING[0], RELAYER);
    TwoWrites(db, REPLACING[0], REPLACING[1], RELAYER);
    WrittenIsValid(db, REPLACING[0], RELAYER);
    WrittenIsValid(first, REPLACING[1], RELAYER);
    FoldShows(db, shown);
    SilentAssignment(first, REPLACING[1]);
  }

  lemma BeforeAndAfterReplacing(rows: map<RowKey, Row>)
    requires WellKeyed(rows) && rows.Keys == TWO_ASSIGNED.rows.Keys + {AcceptedKey("0xh")}
    requires rows[RowKey(AssignedTable, "a")] == REPLACING[1] && rows[RowKey(AssignedTable, "b")]
        == TWO_ASSIGNED.rows[RowKey(AssignedTable, "b")]
    requires rows[AcceptedKey("0xh")] == Accepted(1)
    ensures Wins(RelayerRole, Accepted(1), AssignmentsOf(TWO_ASSIGNED.rows, "0xh"), RELAYER,
                 Assigned("a", 2, "", "0xr", 2))
    ensures Wins(RelayerRole, Accepted(1), AssignmentsOf(rows, "0xh"), RELAYER, Assigned("b", 1, "", "0xr", 1))
  {
    hide Matches;
    var a, b, silent := Assigned("a", 2, "", "0xr", 2), Assigned("b", 1, "", "0xr", 1), REPLACING[1];
    RelayerMatches(1, a);
    RelayerMatches(1, b);
    RelayerMatches(1, silent);
    assert TWO_ASSIGNED.rows[KeyOfRow(a)] == a && TWO_ASSIGNED.rows[KeyOfRow(b)] == b;
    assert rows[KeyOfRow(silent)] == silent && rows[KeyOfRow(b)] == b;
  }

  /** With keys that agree within the batch but a replaced assignment of another relayer, the second write of the
      batch moves the relayer columns from the replaced assignment to another stored one. */
  lemma ReplacedAssignmentBreaksIdempotence()
    ensures Valid(TWO_ASSIGNED) && KeysAgree(REPLACING) && !Replayable(TWO_ASSIGNED.rows, REPLACING)
    ensures WrittenAll(WrittenAll(TWO_ASSIGNED, REPLACING, RELAYER), REPLACING, RELAYER) != WrittenAll(TWO_ASSIGNED,
        REPLACING, RELAYER)
  {
    hide WrittenAll, Matches, Wins;
    var once := WrittenAll(TWO_ASSIGNED, REPLACING, RELAYER);
    var expected := TWO_ASSIGNED.rows[AcceptedKey("0xh") := Accepted(1)][RowKey(AssignedTable, "a") := REPLACING[1]];
    BeforeAndAfterReplacing(expected);
    PassShows(TWO_ASSIGNED, Assigned("a", 2, "", "0xr", 2));
    PassShows(once, Assigned("b", 1, "", "0xr", 1));
    assert REPLACING[1] in REPLACING && KeyOfRow(REPLACING[1]) == RowKey(AssignedTable, "a");
  }

  lemma TwoWrites(db: Db, a: Row, b: Row, cfg: AssignmentConfig)
    ensures WrittenAll(db, [a, b], cfg) == Written(Written(db, a, cfg), b, cfg)
  {
    hide Written;
    assert [a, b][..1] == [a] && [a][..0] == [];
    assert WrittenAll(db, [a], cfg) == Written(db, a, cfg);
  }

  /** Writing the message shows the greatest stored assignment that matches. */
  lemma FoldShows(db: Db, shown: Row)
    requires Valid(db) && Wins(RelayerRole, Accepted(1), AssignmentsOf(db.rows, "0xh"), RELAYER, shown)
    ensures "0xh" in Written(db, Accepted(1), RELAYER).view
    ensures Written(db, Accepted(1), RELAYER).view["0xh"].relayer == WrittenSlot(RelayerRole, shown)
  {
    var w := Accepted(1);
    var rows := db.rows[KeyOfRow(w) := w];
    AssignmentsAfterUpsert(db.rows, w, "0xh");
    AssignmentsHaveDistinctIds(rows, "0xh");
    BestIs(RelayerRole, w, AssignmentsOf(rows, "0xh"), RELAYER, shown);
    StepEffect(db, w, "0xh", RelayerRole, RELAYER);
  }

  /** An assignment that names no known relayer leaves the relayer columns. */
  lemma SilentAssignment(db: Db, w: Row)
    requires Valid(db) && "0xh" in db.view && db.rows[AcceptedKey("0xh")] == Accepted(1)
    requires w.AssignedRow? && w.relayer == ""
    ensures "0xh" in Written(db, w, RELAYER).view && Written(db, w, RELAYER).view["0xh"].relayer
        == db.view["0xh"].relayer
  {
    RelayerMatches(1, w);
    StepEffect(db, w, "0xh", RelayerRole, RELAYER);
  }
}
