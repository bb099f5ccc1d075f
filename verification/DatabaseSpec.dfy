/** The tables as values, and what one event write and one rollback do to them (src/database.rs).
    `view` holds the six assignment columns of each accepted message. */
module DatabaseSpec {
  import opened Prelude
  import opened Schema
  import opened Assignments
  import opened SignatureIds

  datatype AnchorKey = AnchorKey(chainId: nat, dataset: string, blockNumber: nat)

  datatype BlockAnchor = BlockAnchor(key: AnchorKey, blockHash: string, parentHash: Option<string>)

  datatype CheckpointKey = CheckpointKey(chainId: nat, dataset: string)

  datatype Db = Db(
    rows: map<RowKey, Row>,
    view: map<string, Columns>,
    anchors: map<AnchorKey, BlockAnchor>,
    checkpoints: map<CheckpointKey, nat>)

  const EMPTY_DB := Db(map[], map[], map[], map[])

  ghost predicate WellKeyed(rows: map<RowKey, Row>) {
    forall k :: k in rows ==> KeyOfRow(rows[k]) == k
  }

  /** Rows sit under their own key, an accepted row is keyed by its message hash, and
      the assignment columns exist for exactly the accepted rows. */
  ghost predicate Valid(db: Db) {
    && WellKeyed(db.rows)
    && (forall k :: k in db.rows && k.table == AcceptedTable ==> db.rows[k].msgHash == k.id)
    && (forall h :: h in db.view <==> AcceptedKey(h) in db.rows)
  }

  /** The stored assignments of one message. */
  ghost function AssignmentsOf(rows: map<RowKey, Row>, msgHash: string): set<Row> {
    set k | k in rows && rows[k].AssignedRow? && rows[k].msgHash == msgHash :: rows[k]
  }

  lemma AssignmentsHaveDistinctIds(rows: map<RowKey, Row>, msgHash: string)
    requires WellKeyed(rows)
    ensures DistinctIds(AssignmentsOf(rows, msgHash))
  {
  }

  /** The simple specification of the six columns: fold every stored assignment of the message
      in `(block_number, id)` order, starting from NULLs. */
  ghost function ViewOf(rows: map<RowKey, Row>, msgHash: string, cfg: AssignmentConfig): Columns
    requires AcceptedKey(msgHash) in rows
  {
    Fold(rows[AcceptedKey(msgHash)], SortedRows(AssignmentsOf(rows, msgHash)), cfg, NULL_COLUMNS)
  }

  /** The maintained columns agree with the simple specification on every accepted row. */
  ghost predicate ViewOk(db: Db, cfg: AssignmentConfig) {
    Valid(db) && forall h :: h in db.view ==> db.view[h] == ViewOf(db.rows, h, cfg)
  }

  // ---- Writing one event ----

  ghost function Upsert(db: Db, r: Row): Db {
    db.(rows := db.rows[KeyOfRow(r) := r],
        view := if r.AcceptedRow? && r.id !in db.view then db.view[r.id := NULL_COLUMNS] else db.view)
  }

  /** `UPDATE ormp_message_accepted ... WHERE id = msg_hash` for one assignment. */
  ghost function Backfill(db: Db, r: Row, cfg: AssignmentConfig): Db
    requires r.AssignedRow?
  {
    if r.msgHash in db.view && AcceptedKey(r.msgHash) in db.rows then
      db.(view := db.view[r.msgHash := Apply(db.rows[AcceptedKey(r.msgHash)], r, cfg, db.view[r.msgHash])])
    else db
  }

  /** Upserts the row of one event, then maintains the assignment columns: an assignment is applied to
      its message, an accepted message takes every assignment already stored for it. */
  ghost function Written(db: Db, r: Row, cfg: AssignmentConfig): Db {
    var db1 := Upsert(db, r);
    if r.AssignedRow? then Backfill(db1, r, cfg)
    else if r.AcceptedRow? then
      db1.(view := db1.view[r.id := Fold(r, SortedRows(AssignmentsOf(db1.rows, r.id)), cfg, db1.view[r.id])])
    else db1
  }

  ghost function WrittenAll(db: Db, rows: seq<Row>, cfg: AssignmentConfig): Db {
    if rows == [] then db
    else Written(WrittenAll(db, rows[..|rows| - 1], cfg), rows[|rows| - 1], cfg)
  }

  ghost function WithAnchors(db: Db, anchors: seq<BlockAnchor>): Db {
    if anchors == [] then db
    else
      var n := |anchors| - 1;
      var rest := WithAnchors(db, anchors[..n]);
      rest.(anchors := rest.anchors[anchors[n].key := anchors[n]])
  }

  ghost function WithCheckpoint(db: Db, chainId: nat, dataset: string, next: nat): Db {
    db.(checkpoints := db.checkpoints[CheckpointKey(chainId, dataset) := next])
  }

  /** INSERT ... ON CONFLICT DO NOTHING: the checkpoint is created if it is missing. */
  ghost function WithCheckpointCreated(db: Db, chainId: nat, dataset: string, start: nat): Db {
    if CheckpointKey(chainId, dataset) in db.checkpoints then db else WithCheckpoint(db, chainId, dataset, start)
  }

  /** One indexed range in one transaction: the events' rows, then anchors, then the checkpoint. */
  ghost function Committed(db: Db, rows: seq<Row>, anchors: seq<BlockAnchor>, chainId: nat, dataset: string,
                           next: nat, cfg: AssignmentConfig): Db {
    WithCheckpoint(WithAnchors(WrittenAll(db, rows, cfg), anchors), chainId, dataset, next)
  }

  // ---- Rolling back ----

  /** A signature row is also removed when a rolled back anchor matches its height and id prefix. */
  ghost predicate SignatureHit(anchors: map<AnchorKey, BlockAnchor>, r: Row, chainId: nat, dataset: string,
                               block: nat) {
    && r.SignatureRow?
    && exists k :: k in anchors && SignatureHitBy(anchors[k], k, r, chainId, dataset, block)
  }

  ghost predicate SignatureHitBy(anchor: BlockAnchor, k: AnchorKey, r: Row, chainId: nat, dataset: string, block: nat) {
    && k.chainId == chainId && k.dataset == dataset && k.blockNumber >= block
    && r.blockNumber == k.blockNumber
    && Like(AnchorPattern(k.blockNumber, anchor.blockHash), r.id)
  }

  ghost predicate RemovedByRollback(db: Db, r: Row, chainId: nat, dataset: string, block: nat) {
    || (r.chainId == chainId && r.blockNumber >= block)
    || SignatureHit(db.anchors, r, chainId, dataset, block)
  }

  ghost function KeptRows(db: Db, chainId: nat, dataset: string, block: nat): map<RowKey, Row> {
    map k | k in db.rows && !RemovedByRollback(db, db.rows[k], chainId, dataset, block) :: db.rows[k]
  }

  /** The messages some of whose assignments are rolled back. */
  ghost function TouchedMessages(rows: map<RowKey, Row>, chainId: nat, block: nat): set<string> {
    set k | k in rows && rows[k].AssignedRow? && rows[k].chainId == chainId && rows[k].blockNumber >= block
      :: rows[k].msgHash
  }

  ghost function KeptAnchors(anchors: map<AnchorKey, BlockAnchor>, chainId: nat, dataset: string, block: nat)
    : map<AnchorKey, BlockAnchor> {
    map k | k in anchors && !(k.chainId == chainId && k.dataset == dataset && k.blockNumber >= block) :: anchors[k]
  }

  ghost function RolledBack(db: Db, chainId: nat, dataset: string, block: nat, cfg: AssignmentConfig): Db {
    var rows := KeptRows(db, chainId, dataset, block);
    var touched := TouchedMessages(db.rows, chainId, block);
    Db(rows,
       map h | h in db.view && AcceptedKey(h) in rows ::
         if h in touched then ViewOf(rows, h, cfg) else db.view[h],
       KeptAnchors(db.anchors, chainId, dataset, block),
       db.checkpoints[CheckpointKey(chainId, dataset) := block])
  }
}
