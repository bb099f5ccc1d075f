/** How one assignment event changes the six assignment columns of an accepted message
    (src/schema/assignments.rs), and the SQL rendering of the same rule (src/database.rs). */
module Assignments {
  import opened Prelude
  import opened Schema

  datatype AssignmentConfig = AssignmentConfig(oracleAddresses: seq<string>, relayerAddresses: seq<string>)

  /** One role's three columns: address, assigned flag, fee. */
  datatype Slot = Slot(address: Option<string>, flagged: Option<bool>, fee: Option<nat>)

  const NULL_SLOT := Slot(None, None, None)

  /** The six assignment columns. */
  datatype Columns = Columns(oracle: Slot, relayer: Slot)

  const NULL_COLUMNS := Columns(NULL_SLOT, NULL_SLOT)

  datatype Role = OracleRole | RelayerRole

  function SlotOf(c: Columns, role: Role): Slot {
    match role
    case OracleRole => c.oracle
    case RelayerRole => c.relayer
  }

  const B49E_ORACLE := "0xb49e82067a54b3e8c5d9db2f378fdb6892c04d2e"
  const B49E_ORACLE_FROM_BLOCK := 22_474_070
  const B49E_DARWINIA_FROM_BLOCK := 6_634_860
  const B49E_ARBITRUM_FROM_BLOCK := 334_644_126
  const MIXED_CASE_ACCEPTED_ID := "0x5e6f833385d1a3041e8033e64c32c7c931104bc56881ef155fcb6032e87617df"
  const MIXED_CASE_ACCEPTED_ORACLE := "0x8d8a2Bd991c1d900C59a82a2EEb0DF44e0671aaB"

  // ---- The in-memory matcher ----

  /** Lower-cases the candidate before the case-insensitive comparison. */
  predicate ContainsAddress(addresses: seq<string>, candidate: string) {
    var lowered := Lower(candidate);
    exists i :: 0 <= i < |addresses| && EqIgnoreAsciiCase(addresses[i], lowered)
  }

  function AcceptedOracleValue(acceptedId: string, oracle: string): string {
    if acceptedId == MIXED_CASE_ACCEPTED_ID && EqIgnoreAsciiCase(oracle, MIXED_CASE_ACCEPTED_ORACLE)
    then MIXED_CASE_ACCEPTED_ORACLE
    else oracle
  }

  /** The three per-chain cutovers from which the b49e oracle counts. */
  predicate B49eCutover(accepted: Row)
    requires accepted.AcceptedRow?
  {
    || (accepted.chainId == 1 && accepted.fromChainId == 1 && accepted.toChainId == 46
        && accepted.blockNumber >= B49E_ORACLE_FROM_BLOCK)
    || (accepted.chainId == 46 && accepted.fromChainId == 46
        && accepted.blockNumber >= B49E_DARWINIA_FROM_BLOCK)
    || (accepted.chainId == 42_161 && accepted.fromChainId == 42_161
        && accepted.blockNumber >= B49E_ARBITRUM_FROM_BLOCK)
  }

  predicate IsOracleAssignmentForAccepted(accepted: Row, assignment: Row, cfg: AssignmentConfig)
    requires accepted.AcceptedRow? && assignment.AssignedRow?
  {
    || (ContainsAddress(cfg.oracleAddresses, assignment.oracle) && !EqIgnoreAsciiCase(assignment.oracle, B49E_ORACLE))
    || (EqIgnoreAsciiCase(assignment.oracle, B49E_ORACLE) && B49eCutover(accepted))
  }

  /** Does this assignment set the role's columns of this accepted row? */
  predicate Matches(role: Role, accepted: Row, assignment: Row, cfg: AssignmentConfig) {
    && accepted.AcceptedRow? && assignment.AssignedRow?
    && match role
       case OracleRole => IsOracleAssignmentForAccepted(accepted, assignment, cfg)
       case RelayerRole => ContainsAddress(cfg.relayerAddresses, assignment.relayer)
  }

  /** What a matching assignment writes. */
  function WrittenSlot(role: Role, assignment: Row): Slot
    requires assignment.AssignedRow?
  {
    match role
    case OracleRole =>
      Slot(Some(AcceptedOracleValue(assignment.msgHash, assignment.oracle)), Some(true), Some(assignment.oracleFee))
    case RelayerRole => Slot(Some(assignment.relayer), Some(true), Some(assignment.relayerFee))
  }

  /** The effect of one assignment on the six columns of its own message. */
  function Apply(accepted: Row, assignment: Row, cfg: AssignmentConfig, cols: Columns): Columns {
    Columns(
      if Matches(OracleRole, accepted, assignment, cfg) then WrittenSlot(OracleRole, assignment) else cols.oracle,
      if Matches(RelayerRole, accepted, assignment, cfg) then WrittenSlot(RelayerRole, assignment) else cols.relayer)
  }

  /** An accepted row held in memory, whose six columns are changed in place. */
  class AcceptedRecord {
    const row: Row
    var columns: Columns

    constructor (row: Row, columns: Columns)
      ensures this.row == row && this.columns == columns
    {
      this.row := row;
      this.columns := columns;
    }

    /** Returns which roles were updated. */
    method ApplyAssignmentToAccepted(assignment: Row, cfg: AssignmentConfig)
      returns (oracleUpdated: bool, relayerUpdated: bool)
      requires row.AcceptedRow? && assignment.AssignedRow?
      modifies this
      ensures row.id != assignment.msgHash ==> columns == old(columns) && !oracleUpdated && !relayerUpdated
      ensures row.id == assignment.msgHash ==>
                && columns == SqlBackfill(row, assignment, cfg, old(columns))
                && oracleUpdated == Matches(OracleRole, row, assignment, cfg)
                && relayerUpdated == Matches(RelayerRole, row, assignment, cfg)
    {
      oracleUpdated, relayerUpdated := false, false;
      if row.id != assignment.msgHash {
        return;
      }
      if ContainsAddress(cfg.relayerAddresses, assignment.relayer) {
        columns := columns.(relayer := Slot(Some(assignment.relayer), Some(true), Some(assignment.relayerFee)));
        relayerUpdated := true;
      }
      if IsOracleAssignmentForAccepted(row, assignment, cfg) {
        columns := columns.(oracle := Slot(Some(AcceptedOracleValue(row.id, assignment.oracle)), Some(true),
                                           Some(assignment.oracleFee)));
        oracleUpdated := true;
      }
      TwoMatchersAgree(row, assignment, cfg, old(columns));
    }
  }

  // ---- The SQL matcher ----

  /** The writer's own membership test, which does not lower-case first. */
  predicate SqlContainsAddress(addresses: seq<string>, candidate: string) {
    exists i :: 0 <= i < |addresses| && EqIgnoreAsciiCase(addresses[i], candidate)
  }

  /** The condition of the three oracle CASE expressions over the stored row, with the parameters bound to it. */
  predicate SqlOracleCase(stored: Row, bound2: bool, bound8: bool, bound9: nat, bound10: nat, bound11: nat)
    requires stored.AcceptedRow?
  {
    bound2
    || (bound8
        && ((stored.chainId == 1 && stored.fromChainId == 1 && stored.toChainId == 46 && stored.blockNumber >= bound9)
            || (stored.chainId == 46 && stored.fromChainId == 46 && stored.blockNumber >= bound10)
            || (stored.chainId == 42161 && stored.fromChainId == 42161 && stored.blockNumber >= bound11)))
  }

  /** The bound parameters of the backfill statement, its early return, and its six CASE expressions over the
      stored row. */
  function SqlBackfill(stored: Row, assignment: Row, cfg: AssignmentConfig, cols: Columns): Columns
    requires stored.AcceptedRow? && assignment.AssignedRow?
  {
    var legacyB49eOracleMatch := EqIgnoreAsciiCase(assignment.oracle, B49E_ORACLE);
    var oracleMatch := SqlContainsAddress(cfg.oracleAddresses, assignment.oracle) && !legacyB49eOracleMatch;
    var relayerMatch := SqlContainsAddress(cfg.relayerAddresses, assignment.relayer);
    if !oracleMatch && !legacyB49eOracleMatch && !relayerMatch then cols
    else
      var takeOracle := SqlOracleCase(stored, oracleMatch, legacyB49eOracleMatch, B49E_ORACLE_FROM_BLOCK,
                                      B49E_DARWINIA_FROM_BLOCK, B49E_ARBITRUM_FROM_BLOCK);
      var oracleValue := AcceptedOracleValue(assignment.msgHash, assignment.oracle);
      Columns(
        Slot(if takeOracle then Some(oracleValue) else cols.oracle.address,
             if takeOracle then Some(true) else cols.oracle.flagged,
             if takeOracle then Some(assignment.oracleFee) else cols.oracle.fee),
        Slot(if relayerMatch then Some(assignment.relayer) else cols.relayer.address,
             if relayerMatch then Some(true) else cols.relayer.flagged,
             if relayerMatch then Some(assignment.relayerFee) else cols.relayer.fee))
  }

  lemma MembershipTestsAgree(addresses: seq<string>, candidate: string)
    ensures ContainsAddress(addresses, candidate) <==> SqlContainsAddress(addresses, candidate)
  {
    LowerIdempotent(candidate);
    if SqlContainsAddress(addresses, candidate) {
      var i :| 0 <= i < |addresses| && EqIgnoreAsciiCase(addresses[i], candidate);
      assert EqIgnoreAsciiCase(addresses[i], Lower(candidate));
    }
    if ContainsAddress(addresses, candidate) {
      var i :| 0 <= i < |addresses| && EqIgnoreAsciiCase(addresses[i], Lower(candidate));
      assert EqIgnoreAsciiCase(addresses[i], candidate);
    }
  }

  /** The SQL CASE update with its early return computes what the in-memory matcher computes. */
  lemma TwoMatchersAgree(accepted: Row, assignment: Row, cfg: AssignmentConfig, cols: Columns)
    requires accepted.AcceptedRow? && assignment.AssignedRow?
    ensures SqlBackfill(accepted, assignment, cfg, cols) == Apply(accepted, assignment, cfg, cols)
  {
    MembershipTestsAgree(cfg.oracleAddresses, assignment.oracle);
    MembershipTestsAgree(cfg.relayerAddresses, assignment.relayer);
  }

  /** What one assignment leaves in the six columns of a stored message. The b49e oracle sets the oracle columns if and
      only if the message is past the cutover of its chain, whatever is configured; any other oracle if and only if it
      is configured, and under its own spelling but for one message. A relayer sets its columns if and only if it is
      configured. */
  lemma BackfillColumns(stored: Row, assignment: Row, cfg: AssignmentConfig, cols: Columns)
    requires stored.AcceptedRow? && assignment.AssignedRow?
    ensures EqIgnoreAsciiCase(assignment.oracle, "0xb49e82067a54b3e8c5d9db2f378fdb6892c04d2e") ==>
              SqlBackfill(stored, assignment, cfg, cols).oracle
              == if || (stored.chainId == 1 && stored.fromChainId == 1 && stored.toChainId == 46
                        && stored.blockNumber >= 22474070)
                    || (stored.chainId == 46 && stored.fromChainId == 46 && stored.blockNumber >= 6634860)
                    || (stored.chainId == 42161 && stored.fromChainId == 42161 && stored.blockNumber >= 334644126)
                 then Slot(Some(assignment.oracle), Some(true), Some(assignment.oracleFee)) else cols.oracle
    ensures !EqIgnoreAsciiCase(assignment.oracle, "0xb49e82067a54b3e8c5d9db2f378fdb6892c04d2e") ==>
              SqlBackfill(stored, assignment, cfg, cols).oracle
              == if exists a :: a in cfg.oracleAddresses && EqIgnoreAsciiCase(a, assignment.oracle)
                 then Slot(Some(StoredOracle(assignment.msgHash, assignment.oracle)), Some(true),
                           Some(assignment.oracleFee)) else cols.oracle
    ensures SqlBackfill(stored, assignment, cfg, cols).relayer
            == if exists a :: a in cfg.relayerAddresses && EqIgnoreAsciiCase(a, assignment.relayer)
               then Slot(Some(assignment.relayer), Some(true), Some(assignment.relayerFee)) else cols.relayer
  {
    ListedIff(cfg.oracleAddresses, assignment.oracle);
    ListedIff(cfg.relayerAddresses, assignment.relayer);
    if EqIgnoreAsciiCase(assignment.oracle, B49E_ORACLE) {
      OtherOracle(assignment.oracle);
    }
  }

  /** An oracle as the indexer stores it: one message keeps the mixed-case spelling it had. */
  function StoredOracle(message: string, oracle: string): string {
    if message == "0x5e6f833385d1a3041e8033e64c32c7c931104bc56881ef155fcb6032e87617df"
       && EqIgnoreAsciiCase(oracle, "0x8d8a2Bd991c1d900C59a82a2EEb0DF44e0671aaB")
    then "0x8d8a2Bd991c1d900C59a82a2EEb0DF44e0671aaB" else oracle
  }

  lemma ListedIff(addresses: seq<string>, candidate: string)
    ensures SqlContainsAddress(addresses, candidate)
       <==> exists a :: a in addresses && EqIgnoreAsciiCase(a, candidate)
  {
    if a :| a in addresses && EqIgnoreAsciiCase(a, candidate) {
      var i :| 0 <= i < |addresses| && addresses[i] == a;
      assert EqIgnoreAsciiCase(addresses[i], candidate);
    }
  }

  lemma LowerAt(s: string, i: nat)
    requires i < |s|
    ensures Lower(s)[i] == LowerChar(s[i])
  {
  }

  /** No text is both oracles ignoring case. */
  lemma OtherOracle(oracle: string)
    requires EqIgnoreAsciiCase(oracle, B49E_ORACLE)
    ensures !EqIgnoreAsciiCase(oracle, MIXED_CASE_ACCEPTED_ORACLE)
  {
    assert B49E_ORACLE[2] == 'b' && MIXED_CASE_ACCEPTED_ORACLE[2] == '8';
    LowerAt(B49E_ORACLE, 2);
    LowerAt(MIXED_CASE_ACCEPTED_ORACLE, 2);
  }

  // ---- Folding assignments ----

  /** Applies the assignments one after another. */
  function Fold(accepted: Row, assignments: seq<Row>, cfg: AssignmentConfig, cols: Columns): Columns {
    if assignments == [] then cols
    else
      var n := |assignments| - 1;
      Apply(accepted, assignments[n], cfg, Fold(accepted, assignments[..n], cfg, cols))
  }

  /** What the last matching assignment of the sequence writes, if any matches. */
  function LastMatch(role: Role, accepted: Row, assignments: seq<Row>, cfg: AssignmentConfig): Option<Slot> {
    if assignments == [] then None
    else
      var n := |assignments| - 1;
      if Matches(role, accepted, assignments[n], cfg) then Some(WrittenSlot(role, assignments[n]))
      else LastMatch(role, accepted, assignments[..n], cfg)
  }

  /** A fold is last-writer-wins in each role. */
  lemma {:induction false} FoldIsLastMatch(role: Role, accepted: Row, s: seq<Row>, cfg: AssignmentConfig, cols: Columns)
    ensures SlotOf(Fold(accepted, s, cfg, cols), role)
         == LastMatch(role, accepted, s, cfg).GetOr(SlotOf(cols, role))
  {
    if s != [] {
      FoldIsLastMatch(role, accepted, s[..|s| - 1], cfg, cols);
    }
  }

  // ---- The order of assignments: (block_number, id) ----

  predicate Before(a: Row, b: Row) {
    a.blockNumber < b.blockNumber || (a.blockNumber == b.blockNumber && StrLess(a.id, b.id))
  }

  lemma BeforeIsStrict(a: Row, b: Row)
    requires Before(a, b)
    ensures !Before(b, a) && a != b
  {
    StrLessIrreflexive(a.id);
    if Before(b, a) {
      StrLessTransitive(a.id, b.id, a.id);
    }
  }

  lemma BeforeTransitive(a: Row, b: Row, c: Row)
    requires Before(a, b) && Before(b, c)
    ensures Before(a, c)
  {
    if a.blockNumber == c.blockNumber {
      StrLessTransitive(a.id, b.id, c.id);
    }
  }

  ghost predicate DistinctIds(s: set<Row>) {
    forall a, b :: a in s && b in s && a.id == b.id ==> a == b
  }

  predicate StrictlySorted(s: seq<Row>) {
    forall i, j :: 0 <= i < j < |s| ==> Before(s[i], s[j])
  }

  /** `s` is the set `rows` in `(block_number, id)` order: the result of SELECT ... ORDER BY. */
  ghost predicate Listing(s: seq<Row>, rows: set<Row>) {
    StrictlySorted(s) && forall r :: r in s <==> r in rows
  }

  /** Where `r` goes in a sorted sequence. */
  method InsertSorted(s: seq<Row>, r: Row, ghost rows: set<Row>) returns (t: seq<Row>)
    requires Listing(s, rows) && DistinctIds(rows + {r}) && r !in rows
    ensures Listing(t, rows + {r})
  {
    var i := 0;
    while i < |s| && Before(s[i], r)
      invariant 0 <= i <= |s|
      invariant forall j :: 0 <= j < i ==> Before(s[j], r)
    {
      i := i + 1;
    }
    InsertKeepsListing(s, i, r, rows);
    t := s[..i] + [r] + s[i..];
  }

  lemma InsertKeepsListing(s: seq<Row>, i: nat, r: Row, rows: set<Row>)
    requires Listing(s, rows) && DistinctIds(rows + {r}) && r !in rows && i <= |s|
    requires forall j :: 0 <= j < i ==> Before(s[j], r)
    requires i < |s| ==> !Before(s[i], r)
    ensures Listing(s[..i] + [r] + s[i..], rows + {r})
  {
    var t := s[..i] + [r] + s[i..];
    forall j | i <= j < |s|
      ensures Before(r, s[j])
    {
      assert s[i] in rows;
      StrLessTotal(s[i].id, r.id);
      if i < j {
        BeforeTransitive(r, s[i], s[j]);
      }
    }
    forall x
      ensures x in t <==> x in rows + {r}
    {
      assert s == s[..i] + s[i..];
      assert x in s <==> x in s[..i] || x in s[i..];
    }
  }

  lemma {:induction false} ListingExists(rows: set<Row>) returns (s: seq<Row>)
    requires DistinctIds(rows)
    ensures Listing(s, rows)
    decreases rows
  {
    if rows == {} {
      s := [];
    } else {
      var r :| r in rows;
      var rest := ListingExists(rows - {r});
      var i := 0;
      while i < |rest| && Before(rest[i], r)
        invariant 0 <= i <= |rest|
        invariant forall j :: 0 <= j < i ==> Before(rest[j], r)
      {
        i := i + 1;
      }
      assert rows - {r} + {r} == rows;
      InsertKeepsListing(rest, i, r, rows - {r});
      s := rest[..i] + [r] + rest[i..];
    }
  }

  /** The rows in `(block_number, id)` order (no order is claimed unless ids are distinct). */
  ghost function SortedRows(rows: set<Row>): seq<Row> {
    if exists s :: Listing(s, rows) then
      var s :| Listing(s, rows);
      s
    else []
  }

  lemma SortedRowsAreListed(rows: set<Row>)
    requires DistinctIds(rows)
    ensures Listing(SortedRows(rows), rows)
  {
    var s := ListingExists(rows);
  }
}
