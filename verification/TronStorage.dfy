/** Committing a recovered range (src/tron_recovery/storage.rs): conflicts abort it, existing ids and
    metadata are kept, and committing the same range again changes nothing. */
module TronStorage {
  import opened Prelude
  import opened Schema
  import opened Assignments
  import opened DatabaseSpec
  import opened Database
  import opened Views
  import opened Idempotence
  import opened TronScan

  const DATASET := "tron.ormp-recovery.v1"

  // ---- The three queries ----

  /** The stored message differs from the event in what the chain confirms (not in timestamp or log index). */
  predicate Conflicts(stored: Row, e: Event)
    requires stored.AcceptedRow? && e.MessageAccepted?
  {
    || stored.chainId != e.meta.chainId || stored.blockNumber != e.meta.blockNumber
    || !EqIgnoreAsciiCase(stored.transactionHash, e.meta.transactionHash)
    || stored.channel != e.channel || stored.index != e.index || stored.fromChainId != e.fromChainId
    || stored.sender != e.sender || stored.toChainId != e.toChainId || stored.recipient != e.recipient
    || stored.gasLimit != e.gasLimit || stored.encoded != e.encoded || stored.msgHash != e.msgHash
  }

  /** The stored row is this assignment, whatever its id. */
  predicate SameContent(stored: Row, e: Event) {
    && stored.AssignedRow? && e.MessageAssigned?
    && stored.chainId == CHAIN_ID && EqIgnoreAsciiCase(stored.transactionHash, e.meta.transactionHash)
    && stored.msgHash == e.msgHash && stored.oracle == e.oracle && stored.relayer == e.relayer
    && stored.oracleFee == e.oracleFee && stored.relayerFee == e.relayerFee && stored.params == e.params
  }

  function MatchingIds(rows: map<RowKey, Row>, e: Event): set<string> {
    set k | k in rows && SameContent(rows[k], e) :: rows[k].id
  }

  /** The event with the timestamp, log index or id already stored for it; None on a conflict or on
      several stored copies of one assignment. */
  ghost function PreservedEvent(rows: map<RowKey, Row>, e: Event): Option<Event> {
    if e.MessageAccepted? && AcceptedKey(e.msgHash) in rows && rows[AcceptedKey(e.msgHash)].AcceptedRow? then
      var stored := rows[AcceptedKey(e.msgHash)];
      if Conflicts(stored, e) then None
      else Some(WithMeta(e, e.meta.(blockTimestamp := stored.blockTimestamp, logIndex := stored.logIndex)))
    else if e.MessageAssigned? && MatchingIds(rows, e) != {} then
      if |MatchingIds(rows, e)| > 1 then None
      else
        var id :| id in MatchingIds(rows, e);
        Some(WithMeta(e, e.meta.(id := id)))
    else Some(e)
  }

  ghost function Preserved(rows: map<RowKey, Row>, events: seq<Event>): Option<seq<Event>> {
    if events == [] then Some([])
    else
      var n := |events| - 1;
      var rest := Preserved(rows, events[..n]);
      var last := PreservedEvent(rows, events[n]);
      if rest.None? || last.None? then None else Some(rest.value + [last.value])
  }

  /** The whole commit; None leaves the tables alone. */
  ghost function RecoveryCommit(db: Db, events: seq<Event>, next: nat, cfg: AssignmentConfig): Option<Db> {
    match Preserved(db.rows, events)
    case None => None
    case Some(kept) => Some(Committed(db, RowsOf(kept), [], CHAIN_ID, DATASET, next, cfg))
  }

  class RecoveryStore {
    const store: Store

    constructor (store: Store)
      ensures this.store == store
    {
      this.store := store;
    }

    /** Rewrites the batch event by event, then writes it in one transaction, which goes through or not. */
    method Commit(events: seq<Event>, next: nat, goesThrough: bool) returns (ok: bool)
      requires Valid(store.State())
      modifies store
      ensures Valid(store.State())
      ensures var db := RecoveryCommit(old(store.State()), events, next, store.cfg);
        && ok == (db.Some? && goesThrough)
        && store.State() == if ok then db.value else old(store.State())
    {
      var kept := [];
      var i := 0;
      while i < |events|
        invariant 0 <= i <= |events|
        invariant store.State() == old(store.State())
        invariant Preserved(store.rows, events[..i]) == Some(kept)
      {
        assert events[..i + 1][..i] == events[..i];
        var event := PreserveOne(events[i]);
        if event.None? {
          PreservedFails(store.rows, events, i);
          return false;
        }
        kept := kept + [event.value];
        i := i + 1;
      }
      assert events[..i] == events;
      ok := goesThrough;
      if ok {
        var written := store.WriteEventsAndAdvanceCheckpoint(kept, [], CHAIN_ID, DATASET, next);
      }
    }

    method PreserveOne(e: Event) returns (r: Option<Event>)
      requires Valid(store.State())
      ensures r == PreservedEvent(store.rows, e)
    {
      if e.MessageAccepted? && AcceptedKey(e.msgHash) in store.rows && store.rows[AcceptedKey(e.msgHash)].AcceptedRow? {
        var stored := store.rows[AcceptedKey(e.msgHash)];
        if Conflicts(stored, e) {
          return None;
        }
        return Some(WithMeta(e, e.meta.(blockTimestamp := stored.blockTimestamp, logIndex := stored.logIndex)));
      }
      if e.MessageAssigned? {
        var ids := MatchingIds(store.rows, e);
        if |ids| > 1 {
          return None;
        }
        if ids != {} {
          var id :| id in ids;
          SingleElement(ids, id);
          return Some(WithMeta(e, e.meta.(id := id)));
        }
      }
      r := Some(e);
    }
  }

  lemma SingleElement(s: set<string>, x: string)
    requires |s| <= 1 && x in s
    ensures forall y :: y in s ==> y == x
  {
    assert |s - {x}| == 0;
  }

  lemma {:induction false} PreservedFails(rows: map<RowKey, Row>, events: seq<Event>, i: nat)
    requires i < |events| && PreservedEvent(rows, events[i]).None?
    ensures Preserved(rows, events).None?
    decreases |events|
  {
    if i < |events| - 1 {
      PreservedFails(rows, events[..|events| - 1], i);
    }
  }

  /** A commit aborts, before any write, if and only if some event conflicts with a stored message
      or some assignment is already stored more than once. */
  lemma {:induction false} AbortsIff(rows: map<RowKey, Row>, events: seq<Event>)
    ensures Preserved(rows, events).None? <==> exists e :: e in events && PreservedEvent(rows, e).None?
    ensures Preserved(rows, events).Some? ==>
              && |Preserved(rows, events).value| == |events|
              && forall i :: 0 <= i < |events| ==>
                   PreservedEvent(rows, events[i]) == Some(Preserved(rows, events).value[i])
  {
    if events != [] {
      var n := |events| - 1;
      assert events == events[..n] + [events[n]];
      AbortsIff(rows, events[..n]);
    }
  }

  /** The event as it would have been had it given this row. */
  function AsStored(e: Event, stored: Row): Event {
    WithMeta(e, e.meta.(id := stored.id, chainId := stored.chainId, blockNumber := stored.blockNumber,
                        transactionHash := stored.transactionHash, blockTimestamp := stored.blockTimestamp,
                        logIndex := if stored.AcceptedRow? then stored.logIndex else e.meta.logIndex))
  }

  /** The row under the event's message hash is not a row of the same message at the same height of the same chain in a
      transaction of the same hash, ignoring case. */
  ghost predicate StoredDifferently(rows: map<RowKey, Row>, e: Event) {
    && e.MessageAccepted? && RowKey(AcceptedTable, e.msgHash) in rows
    && var stored := rows[RowKey(AcceptedTable, e.msgHash)];
       !(&& stored == RowOf(AsStored(e, stored))
         && stored.chainId == e.meta.chainId && stored.blockNumber == e.meta.blockNumber
         && EqIgnoreAsciiCase(stored.transactionHash, e.meta.transactionHash))
  }

  /** The row under this key is a row of the same assignment on chain 728126428, in a transaction of the same hash,
      ignoring case. */
  ghost predicate IsCopyOf(rows: map<RowKey, Row>, k: RowKey, e: Event) {
    && k in rows && e.MessageAssigned? && rows[k] == RowOf(AsStored(e, rows[k]))
    && rows[k].chainId == 728126428 && EqIgnoreAsciiCase(rows[k].transactionHash, e.meta.transactionHash)
  }

  ghost predicate StoredTwice(rows: map<RowKey, Row>, e: Event) {
    exists j, k :: j != k && IsCopyOf(rows, j, e) && IsCopyOf(rows, k, e)
  }

  /** Exactly when a commit is refused: some message is already stored with other content, or some assignment is
      already stored twice. */
  lemma CommitRefusedIff(db: Db, events: seq<Event>, next: nat, cfg: AssignmentConfig)
    requires Valid(db)
    ensures RecoveryCommit(db, events, next, cfg).None?
       <==> exists e :: e in events && (StoredDifferently(db.rows, e) || StoredTwice(db.rows, e))
  {
    hide StoredDifferently, StoredTwice, PreservedEvent;
    AbortsIff(db.rows, events);
    forall e
      ensures PreservedEvent(db.rows, e).None? <==> StoredDifferently(db.rows, e) || StoredTwice(db.rows, e)
    {
      RefusedIff(db, e);
    }
  }

  lemma RefusedIff(db: Db, e: Event)
    requires Valid(db)
    ensures PreservedEvent(db.rows, e).None? <==> StoredDifferently(db.rows, e) || StoredTwice(db.rows, e)
  {
    hide RowOf, AsStored, Conflicts, IsCopyOf, EqIgnoreAsciiCase;
    CopiesAreMatches(db, e);
    if e.MessageAccepted? && AcceptedKey(e.msgHash) in db.rows {
      ConflictsIff(db.rows[AcceptedKey(e.msgHash)], e);
    }
    ManyIff(MatchingIds(db.rows, e));
  }

  lemma ConflictsIff(stored: Row, e: Event)
    requires stored.AcceptedRow? && e.MessageAccepted? && stored.id == e.msgHash
    ensures !Conflicts(stored, e)
       <==> && stored == RowOf(AsStored(e, stored))
            && stored.chainId == e.meta.chainId && stored.blockNumber == e.meta.blockNumber
            && EqIgnoreAsciiCase(stored.transactionHash, e.meta.transactionHash)
  {
  }

  /** The stored copies of an assignment are the rows the query for it finds. */
  lemma CopiesAreMatches(db: Db, e: Event)
    requires Valid(db)
    ensures forall k :: IsCopyOf(db.rows, k, e) <==> k in db.rows && SameContent(db.rows[k], e)
    ensures forall id :: id in MatchingIds(db.rows, e) <==> IsCopyOf(db.rows, RowKey(AssignedTable, id), e)
    ensures StoredTwice(db.rows, e) <==> exists x, y :: x != y && x in MatchingIds(db.rows, e)
                                                        && y in MatchingIds(db.rows, e)
  {
    forall k
      ensures IsCopyOf(db.rows, k, e) <==> k in db.rows && SameContent(db.rows[k], e)
      ensures IsCopyOf(db.rows, k, e) ==> k == RowKey(AssignedTable, k.id) && db.rows[k].id == k.id
    {
    }
  }

  lemma ManyIff(s: set<string>)
    ensures |s| > 1 <==> exists x, y :: x != y && x in s && y in s
  {
    if |s| > 1 {
      var x :| x in s;
      assert |s - {x}| > 0;
      var y :| y in s - {x};
      assert x != y && x in s && y in s;
    }
    if x, y :| x != y && x in s && y in s {
      assert {x, y} <= s;
      SubsetSize({x, y}, s);
    }
  }

  lemma SubsetSize(a: set<string>, b: set<string>)
    requires a <= b
    ensures |a| <= |b|
  {
    assert b == a + (b - a);
  }

  /** What a commit writes for each event: a stored message keeps its timestamp and log index, a stored
      assignment its id, and nothing else of the event changes. */
  lemma CommitKeeps(db: Db, events: seq<Event>, kept: seq<Event>, i: nat)
    requires Valid(db) && Preserved(db.rows, events) == Some(kept) && i < |events|
    ensures |kept| == |events|
    ensures var e, p := events[i], kept[i];
      var stored := if e.MessageAccepted? && RowKey(AcceptedTable, e.msgHash) in db.rows
                    then Some(db.rows[RowKey(AcceptedTable, e.msgHash)]) else None;
      && p == WithMeta(e, p.meta)
      && (stored.Some? ==>
            p.meta == e.meta.(blockTimestamp := stored.value.blockTimestamp, logIndex := stored.value.logIndex))
      && (forall k :: IsCopyOf(db.rows, k, e) ==> p.meta == e.meta.(id := k.id))
      && (stored.None? && (forall k :: !IsCopyOf(db.rows, k, e)) ==> p == e)
  {
    hide IsCopyOf, SameContent, RowOf, Conflicts, Preserved, WithMeta;
    AbortsIff(db.rows, events);
    CopiesAreMatches(db, events[i]);
    PreservedKeepsContent(db.rows, events[i]);
    assert PreservedEvent(db.rows, events[i]) == Some(kept[i]);
    forall k | IsCopyOf(db.rows, k, events[i])
      ensures kept[i].meta == events[i].meta.(id := k.id)
    {
      CopyKey(db, k, events[i]);
    }
  }

  lemma CopyKey(db: Db, k: RowKey, e: Event)
    requires Valid(db) && IsCopyOf(db.rows, k, e)
    ensures e.MessageAssigned? && k.id in MatchingIds(db.rows, e)
  {
    assert SameContent(db.rows[k], e);
    assert db.rows[k].id == k.id;
  }

  // ---- Replay ----

  /** Every event of the batch is of the recovered chain, and no assignment occurs twice in it under different
      places. */
  ghost predicate DistinctContents(events: seq<Event>) {
    && (forall e :: e in events ==> e.meta.chainId == CHAIN_ID)
    && (forall i, j :: 0 <= i < j < |events| && events[i].MessageAssigned? ==>
        !SameContent(RowOf(events[i]), events[j]))
  }

  lemma PreservedKeepsContent(rows: map<RowKey, Row>, e: Event)
    requires PreservedEvent(rows, e).Some?
    ensures var p := PreservedEvent(rows, e).value;
      && p == WithMeta(e, e.meta.(id := p.meta.id, blockTimestamp := p.meta.blockTimestamp,
                                  logIndex := p.meta.logIndex))
      && (e.MessageAccepted? ==> p.meta.id == e.meta.id)
      && (e.MessageAssigned? ==> p.meta.blockTimestamp == e.meta.blockTimestamp && p.meta.logIndex == e.meta.logIndex)
      && (!e.MessageAccepted? && !e.MessageAssigned? ==> p == e)
      && (e.MessageAssigned? && e.meta.chainId == CHAIN_ID ==> SameContent(RowOf(p), e))
      && (e.MessageAssigned? ==> forall id :: id in MatchingIds(rows, e) ==> id == p.meta.id)
  {
    if e.MessageAssigned? && MatchingIds(rows, e) != {} {
      SingleElement(MatchingIds(rows, e), PreservedEvent(rows, e).value.meta.id);
    }
  }

  /** Once the preserved batch is stored, an accepted event is preserved to the same event again. */
  lemma AcceptedAgain(rows: map<RowKey, Row>, after: map<RowKey, Row>, e: Event)
    requires e.MessageAccepted? && PreservedEvent(rows, e).Some?
    requires var r := RowOf(PreservedEvent(rows, e).value); KeyOfRow(r) in after && after[KeyOfRow(r)] == r
    ensures PreservedEvent(after, e) == PreservedEvent(rows, e)
  {
    PreservedKeepsContent(rows, e);
  }

  /** Once the preserved batch is stored, an assignment finds exactly the row it was stored under. */
  lemma AssignedAgain(db: Db, after: Db, events: seq<Event>, kept: seq<Event>, i: nat)
    requires Valid(db) && Valid(after) && DistinctContents(events) && i < |events| && events[i].MessageAssigned?
    requires Preserved(db.rows, events) == Some(kept)
    requires HoldsAll(after.rows, RowsOf(kept))
    requires forall r: Row ::
               r.AssignedRow? && KeyOfRow(r) in after.rows && after.rows[KeyOfRow(r)] == r && r !in RowsOf(kept) ==>
                 KeyOfRow(r) in db.rows && db.rows[KeyOfRow(r)] == r
    ensures PreservedEvent(after.rows, events[i]) == PreservedEvent(db.rows, events[i])
  {
    hide RowOf, SameContent, Valid, PreservedEvent, DistinctContents;
    AbortsIff(db.rows, events);
    var e, p := events[i], kept[i];
    OwnRowMatches(db, after, events, kept, i);
    forall id | id in MatchingIds(after.rows, e)
      ensures id == p.meta.id
    {
      var k :| k in after.rows && SameContent(after.rows[k], e) && after.rows[k].id == id;
      RowUnderOwnKey(after, k, e);
      MatchIsOwn(db, after, events, kept, i, after.rows[k]);
    }
    assert MatchingIds(after.rows, e) == {p.meta.id};
    PreservedWhenSingle(db.rows, after.rows, e);
  }

  lemma RowUnderOwnKey(db: Db, k: RowKey, e: Event)
    requires Valid(db) && k in db.rows && SameContent(db.rows[k], e)
    ensures KeyOfRow(db.rows[k]) == k && db.rows[k].AssignedRow?
  {
  }

  lemma OwnRowMatches(db: Db, after: Db, events: seq<Event>, kept: seq<Event>, i: nat)
    requires DistinctContents(events) && i < |events| && events[i].MessageAssigned?
    requires Preserved(db.rows, events) == Some(kept) && HoldsAll(after.rows, RowsOf(kept))
    ensures |kept| == |events| && kept[i].meta.id in MatchingIds(after.rows, events[i])
  {
    hide Preserved, PreservedEvent;
    AbortsIff(db.rows, events);
    PreservedKeepsContent(db.rows, events[i]);
    var r := RowOf(kept[i]);
    assert RowsOf(kept)[i] == r;
    assert after.rows[KeyOfRow(r)] == r;
  }

  lemma PreservedWhenSingle(rows: map<RowKey, Row>, after: map<RowKey, Row>, e: Event)
    requires e.MessageAssigned? && PreservedEvent(rows, e).Some?
    requires MatchingIds(after, e) == {PreservedEvent(rows, e).value.meta.id}
    ensures PreservedEvent(after, e) == PreservedEvent(rows, e)
  {
    hide SameContent;
    assert |MatchingIds(after, e)| == 1;
  }

  lemma MatchIsOwn(db: Db, after: Db, events: seq<Event>, kept: seq<Event>, i: nat, x: Row)
    requires Valid(db) && Valid(after) && DistinctContents(events) && i < |events| && events[i].MessageAssigned?
    requires Preserved(db.rows, events) == Some(kept) && |kept| == |events|
    requires KeyOfRow(x) in after.rows && after.rows[KeyOfRow(x)] == x && SameContent(x, events[i])
    requires x !in RowsOf(kept) ==> KeyOfRow(x) in db.rows && db.rows[KeyOfRow(x)] == x
    ensures x.id == kept[i].meta.id
  {
    AbortsIff(db.rows, events);
    PreservedKeepsContent(db.rows, events[i]);
    if x in RowsOf(kept) {
      var j :| 0 <= j < |kept| && RowsOf(kept)[j] == x;
      PreservedKeepsContent(db.rows, events[j]);
      SameContentOfBoth(events[i], events[j], kept[j]);
    } else {
      assert x.id in MatchingIds(db.rows, events[i]);
    }
  }

  /** Two events of a batch that one row restates are the same assignment. */
  lemma SameContentOfBoth(e: Event, d: Event, p: Event)
    requires e.MessageAssigned? && SameContent(RowOf(p), e) && e.meta.chainId == CHAIN_ID && d.meta.chainId == CHAIN_ID
    requires p == WithMeta(d, d.meta.(id := p.meta.id, blockTimestamp := p.meta.blockTimestamp,
                                      logIndex := p.meta.logIndex))
    ensures SameContent(RowOf(e), d) && SameContent(RowOf(d), e)
  {
  }

  /** No other stored assignment has taken the id of an assignment that is not stored yet. */
  ghost predicate FreshIds(rows: map<RowKey, Row>, events: seq<Event>) {
    forall e :: e in events && e.MessageAssigned? && MatchingIds(rows, e) == {} ==>
        RowKey(AssignedTable, e.meta.id) !in rows
  }

  /** No assignment that is not stored yet carries the id another assignment of the batch is stored under. */
  ghost predicate IdsApart(rows: map<RowKey, Row>, events: seq<Event>) {
    forall e, d :: e in events && d in events && e.MessageAssigned? && MatchingIds(rows, e) == {} ==>
      e.meta.id !in MatchingIds(rows, d)
  }

  lemma FreshIdsAreApart(db: Db, events: seq<Event>)
    requires Valid(db) && FreshIds(db.rows, events)
    ensures IdsApart(db.rows, events)
  {
    hide MatchingIds, Valid;
    forall d | d in events
      ensures forall id :: id in MatchingIds(db.rows, d) ==> RowKey(AssignedTable, id) in db.rows
    {
      MatchedIdIsStored(db, d);
    }
  }

  /** Committing a committed range again rewrites its events to the same rows, whatever the ids of its new
      assignments replace: no row changes and no assignment row is added; and no column changes if and only if what
      the batch replaced does not change what its messages show. */
  lemma ReplayKeepsRows(db: Db, events: seq<Event>, kept: seq<Event>, next: nat, again: nat, cfg: AssignmentConfig)
    requires Valid(db) && DistinctContents(events) && Preserved(db.rows, events) == Some(kept)
    requires KeysAgree(RowsOf(events)) && IdsApart(db.rows, events)
    ensures var first := RecoveryCommit(db, events, next, cfg).value;
      && RecoveryCommit(first, events, again, cfg).Some?
      && var second := RecoveryCommit(first, events, again, cfg).value;
         && second.rows == first.rows && second.anchors == first.anchors
         && (second.view == first.view <==> ReplacementsHarmless(db.rows, RowsOf(kept), cfg))
  {
    hide KeysAgree, Valid, ReplacementsHarmless, WrittenAll;
    var rows := RowsOf(kept);
    var written := WrittenAll(db, rows, cfg);
    var first := RecoveryCommit(db, events, next, cfg).value;
    KeptKeysAgree(db, events, kept);
    RowsAreWellFormed(kept);
    WrittenAllKeepsValid(db, rows, cfg);
    BatchIsStored(db, rows, cfg);
    AbortsIff(db.rows, events);
    assert first == WithCheckpoint(written, CHAIN_ID, DATASET, next);
    PreservedAgain(db, written, events, kept);
    PassOverStoredRows(written, rows, cfg);
    WrittenAllFrame(written, first, rows, cfg);
    RewriteChangesNothingIff(db, rows, cfg);
  }

  /** In particular, nothing changes if the assignments not stored yet have ids of their own. */
  lemma ReplayChangesNothing(db: Db, events: seq<Event>, kept: seq<Event>, next: nat, again: nat, cfg: AssignmentConfig)
    requires Valid(db) && DistinctContents(events) && Preserved(db.rows, events) == Some(kept)
    requires KeysAgree(RowsOf(events)) && FreshIds(db.rows, events)
    ensures var first := RecoveryCommit(db, events, next, cfg).value;
      && RecoveryCommit(first, events, again, cfg).Some?
      && var second := RecoveryCommit(first, events, again, cfg).value;
         second.rows == first.rows && second.view == first.view && second.anchors == first.anchors
  {
    hide KeysAgree, Valid, ReplacementsHarmless, RecoveryCommit;
    FreshIdsAreApart(db, events);
    KeptIsReplayable(db, events, kept);
    ReplayableIsHarmless(db, RowsOf(kept), cfg);
    ReplayKeepsRows(db, events, kept, next, again, cfg);
  }

  lemma KeptIsReplayable(db: Db, events: seq<Event>, kept: seq<Event>)
    requires Valid(db) && DistinctContents(events) && Preserved(db.rows, events) == Some(kept)
    requires KeysAgree(RowsOf(events)) && FreshIds(db.rows, events)
    ensures Replayable(db.rows, RowsOf(kept))
  {
    hide Preserved, PreservedEvent, RowOf, KeyOfRow, SameAssignment, DistinctContents, FreshIds, MatchingIds, Valid,
        KeysAgree;
    AbortsIff(db.rows, events);
    FreshIdsAreApart(db, events);
    KeptKeysAgree(db, events, kept);
    forall r | r in RowsOf(kept) && r.AssignedRow? && KeyOfRow(r) in db.rows
      ensures SameAssignment(db.rows[KeyOfRow(r)], r)
    {
      var i :| 0 <= i < |kept| && RowsOf(kept)[i] == r;
      ReplacedRowMatches(db, events, kept[i], i);
    }
  }

  /** Reusing stored ids keeps the batch free of key clashes. */
  lemma KeptKeysAgree(db: Db, events: seq<Event>, kept: seq<Event>)
    requires Valid(db) && DistinctContents(events) && Preserved(db.rows, events) == Some(kept)
    requires KeysAgree(RowsOf(events)) && IdsApart(db.rows, events)
    ensures KeysAgree(RowsOf(kept))
  {
    hide Preserved, PreservedEvent, RowOf, KeyOfRow, DistinctContents, IdsApart, MatchingIds, Valid;
    AbortsIff(db.rows, events);
    RowsAreWellFormed(kept);
    forall a, b | a in RowsOf(kept) && b in RowsOf(kept) && KeyOfRow(a) == KeyOfRow(b)
      ensures a == b
    {
      var i :| 0 <= i < |kept| && RowsOf(kept)[i] == a;
      var j :| 0 <= j < |kept| && RowsOf(kept)[j] == b;
      if i < j {
        KeptPairAgrees(db, events, kept, i, j);
      } else if j < i {
        KeptPairAgrees(db, events, kept, j, i);
      }
    }
  }

  lemma ReplacedRowMatches(db: Db, events: seq<Event>, p: Event, i: nat)
    requires Valid(db) && DistinctContents(events) && FreshIds(db.rows, events) && i < |events|
    requires PreservedEvent(db.rows, events[i]) == Some(p) && RowOf(p).AssignedRow? && KeyOfRow(RowOf(p)) in db.rows
    ensures SameAssignment(db.rows[KeyOfRow(RowOf(p))], RowOf(p))
  {
    hide PreservedEvent, DistinctContents;
    PreservedKeepsContent(db.rows, events[i]);
    assert events[i] in events;
    MatchedOrSame(db.rows, events[i]);
    assert MatchingIds(db.rows, events[i]) != {};
    assert p.meta.id in MatchingIds(db.rows, events[i]);
  }

  lemma MatchedOrSame(rows: map<RowKey, Row>, e: Event)
    requires e.MessageAssigned? && PreservedEvent(rows, e).Some?
    ensures if MatchingIds(rows, e) == {} then PreservedEvent(rows, e) == Some(e)
            else PreservedEvent(rows, e).value.meta.id in MatchingIds(rows, e)
  {
  }

  /** Two events of the batch that are stored under one key are stored as one row. */
  lemma KeptPairAgrees(db: Db, events: seq<Event>, kept: seq<Event>, i: nat, j: nat)
    requires Valid(db) && DistinctContents(events) && |kept| == |events| && i < j < |events|
    requires PreservedEvent(db.rows, events[i]) == Some(kept[i]) && PreservedEvent(db.rows, events[j]) == Some(kept[j])
    requires KeysAgree(RowsOf(events)) && IdsApart(db.rows, events)
    requires KeyOfRow(RowOf(kept[i])) == KeyOfRow(RowOf(kept[j]))
    ensures RowOf(kept[i]) == RowOf(kept[j])
  {
    hide DistinctContents, IdsApart, MatchingIds, PreservedEvent, KeysAgree, Conflicts, Valid, RowOf, SameContent;
    PreservedKeepsContent(db.rows, events[i]);
    PreservedKeepsContent(db.rows, events[j]);
    KeyTellsKind(kept[i], kept[j]);
    KeyOfEvent(events[i], kept[i]);
    KeyOfEvent(events[j], kept[j]);
    if events[i].MessageAssigned? {
      KeptIdsDiffer(db, events, kept, i, j);
    } else {
      EventPairAgrees(events, i, j);
      if events[i].MessageAccepted? {
        AcceptedPairAgrees(db.rows, events[i], events[j]);
      }
    }
  }

  /** Events stored under one key are of one kind, and assignments among them have one id. */
  lemma KeyTellsKind(p: Event, q: Event)
    requires KeyOfRow(RowOf(p)) == KeyOfRow(RowOf(q))
    ensures (p.MessageAssigned? <==> q.MessageAssigned?) && (p.MessageAccepted? <==> q.MessageAccepted?)
    ensures p.MessageAssigned? ==> p.meta.id == q.meta.id
  {
  }

  /** Other timestamps, log indices or ids change no key but an assignment's. */
  lemma KeyOfEvent(e: Event, p: Event)
    requires p == WithMeta(e, p.meta)
    ensures e.MessageAssigned? <==> p.MessageAssigned?
    ensures e.MessageAccepted? <==> p.MessageAccepted?
    ensures e.MessageAccepted? ==> KeyOfRow(RowOf(p)) == KeyOfRow(RowOf(e))
  {
  }

  lemma EventPairAgrees(events: seq<Event>, i: nat, j: nat)
    requires KeysAgree(RowsOf(events)) && i < j < |events|
    ensures KeyOfRow(RowOf(events[i])) == KeyOfRow(RowOf(events[j])) ==> RowOf(events[i]) == RowOf(events[j])
  {
    hide RowOf, KeyOfRow;
    assert RowsOf(events)[i] == RowOf(events[i]) && RowsOf(events)[j] == RowOf(events[j]);
  }

  lemma AcceptedPairAgrees(rows: map<RowKey, Row>, e: Event, d: Event)
    requires e.MessageAccepted? && d.MessageAccepted? && RowOf(e) == RowOf(d)
    requires PreservedEvent(rows, e).Some? && PreservedEvent(rows, d).Some?
    ensures RowOf(PreservedEvent(rows, e).value) == RowOf(PreservedEvent(rows, d).value)
  {
  }

  /** Two assignments of the batch are stored under different ids. */
  lemma KeptIdsDiffer(db: Db, events: seq<Event>, kept: seq<Event>, i: nat, j: nat)
    requires Valid(db) && DistinctContents(events) && |kept| == |events| && i < j < |events|
    requires PreservedEvent(db.rows, events[i]) == Some(kept[i]) && PreservedEvent(db.rows, events[j]) == Some(kept[j])
    requires KeysAgree(RowsOf(events)) && IdsApart(db.rows, events)
    requires events[i].MessageAssigned? && events[j].MessageAssigned?
    ensures kept[i].meta.id != kept[j].meta.id
  {
    hide PreservedEvent, KeysAgree, MatchingIds, Valid;
    assert events[i] in events && events[j] in events;
    MatchedOrSame(db.rows, events[i]);
    MatchedOrSame(db.rows, events[j]);
    EventPairAgrees(events, i, j);
    assert !SameContent(RowOf(events[i]), events[j]);
    MatchesOfOneRow(db, events[i], events[j]);
  }

  /** Two different assignments do not match the same stored row. */
  lemma MatchesOfOneRow(db: Db, e: Event, d: Event)
    requires Valid(db) && e.MessageAssigned? && d.MessageAssigned? && e.meta.chainId == CHAIN_ID
    requires !SameContent(RowOf(e), d)
    ensures MatchingIds(db.rows, e) !! MatchingIds(db.rows, d)
  {
    forall id | id in MatchingIds(db.rows, e)
      ensures id !in MatchingIds(db.rows, d)
    {
      var k :| k in db.rows && SameContent(db.rows[k], e) && db.rows[k].id == id;
      assert k == RowKey(AssignedTable, id);
      assert !SameContent(db.rows[k], d);
    }
  }

  lemma PreservedAgain(db: Db, after: Db, events: seq<Event>, kept: seq<Event>)
    requires Valid(db) && Valid(after) && DistinctContents(events) && Preserved(db.rows, events) == Some(kept)
    requires HoldsAll(after.rows, RowsOf(kept))
    requires forall r: Row ::
               r.AssignedRow? && KeyOfRow(r) in after.rows && after.rows[KeyOfRow(r)] == r && r !in RowsOf(kept) ==>
                 KeyOfRow(r) in db.rows && db.rows[KeyOfRow(r)] == r
    ensures Preserved(after.rows, events) == Some(kept)
  {
    AbortsIff(db.rows, events);
    AbortsIff(after.rows, events);
    forall i | 0 <= i < |events|
      ensures PreservedEvent(after.rows, events[i]) == Some(kept[i])
    {
      assert RowsOf(kept)[i] == RowOf(kept[i]);
      if events[i].MessageAccepted? {
        AcceptedAgain(db.rows, after.rows, events[i]);
      } else if events[i].MessageAssigned? {
        AssignedAgain(db, after, events, kept, i);
      }
    }
    assert Preserved(after.rows, events).value == kept;
  }

  /** A commit never changes the timestamp or log index of a stored message. */
  lemma AcceptedMetadataSurvives(db: Db, events: seq<Event>, kept: seq<Event>, next: nat, cfg: AssignmentConfig,
                                 h: string)
    requires Valid(db) && Preserved(db.rows, events) == Some(kept)
    requires AcceptedKey(h) in db.rows && db.rows[AcceptedKey(h)].AcceptedRow?
    ensures var after := RecoveryCommit(db, events, next, cfg).value.rows;
      && AcceptedKey(h) in after && after[AcceptedKey(h)].AcceptedRow?
      && after[AcceptedKey(h)].blockTimestamp == db.rows[AcceptedKey(h)].blockTimestamp
      && after[AcceptedKey(h)].logIndex == db.rows[AcceptedKey(h)].logIndex
  {
    hide Written, WrittenAll, Valid, Preserved, KeyOfRow, RowsOf;
    KeptRowsRestate(db, events, kept, h);
    LastWriteOfKey(db, RowsOf(kept), AcceptedKey(h), cfg);
  }

  /** Every row of the preserved batch under a stored message's key carries the stored metadata. */
  lemma KeptRowsRestate(db: Db, events: seq<Event>, kept: seq<Event>, h: string)
    requires Preserved(db.rows, events) == Some(kept)
    requires AcceptedKey(h) in db.rows && db.rows[AcceptedKey(h)].AcceptedRow?
    ensures forall r :: r in RowsOf(kept) && KeyOfRow(r) == AcceptedKey(h) ==>
              && r.AcceptedRow? && r.blockTimestamp == db.rows[AcceptedKey(h)].blockTimestamp
              && r.logIndex == db.rows[AcceptedKey(h)].logIndex
  {
    hide MatchingIds, Conflicts;
    AbortsIff(db.rows, events);
    forall r | r in RowsOf(kept) && KeyOfRow(r) == AcceptedKey(h)
      ensures r.AcceptedRow?
      ensures r.blockTimestamp == db.rows[AcceptedKey(h)].blockTimestamp && r.logIndex
          == db.rows[AcceptedKey(h)].logIndex
    {
      var i :| 0 <= i < |kept| && RowsOf(kept)[i] == r;
      PreservedKeepsContent(db.rows, events[i]);
      assert PreservedEvent(db.rows, events[i]) == Some(kept[i]);
    }
  }

  /** An assignment row appears under a new id only if no row with its content was stored: legacy ids are kept. */
  lemma LegacyIdsAreKept(db: Db, events: seq<Event>, kept: seq<Event>, next: nat, cfg: AssignmentConfig, id: string)
    requires Valid(db) && Preserved(db.rows, events) == Some(kept)
    requires var k := RowKey(AssignedTable, id);
      k in RecoveryCommit(db, events, next, cfg).value.rows && k !in db.rows
    ensures exists e :: e in events && e.MessageAssigned? && e.meta.id == id && MatchingIds(db.rows, e) == {}
  {
    hide PreservedEvent, MatchingIds, Written, Valid;
    AbortsIff(db.rows, events);
    var k := RowKey(AssignedTable, id);
    LastWriteOfKey(db, RowsOf(kept), k, cfg);
    var r :| r in RowsOf(kept) && KeyOfRow(r) == k;
    var i :| 0 <= i < |kept| && RowsOf(kept)[i] == r;
    PreservedKeepsContent(db.rows, events[i]);
    NewIdMatchesNothing(db, events[i], kept[i]);
    assert events[i] in events;
  }

  lemma NewIdMatchesNothing(db: Db, e: Event, p: Event)
    requires Valid(db) && PreservedEvent(db.rows, e) == Some(p)
    requires KeyOfRow(RowOf(p)).table == AssignedTable && KeyOfRow(RowOf(p)) !in db.rows
    ensures e.MessageAssigned? && e.meta.id == RowOf(p).id && MatchingIds(db.rows, e) == {}
  {
    PreservedKeepsContent(db.rows, e);
    MatchedIdIsStored(db, e);
    assert p.meta.id !in MatchingIds(db.rows, e);
    assert forall x :: x !in MatchingIds(db.rows, e);
  }

  lemma MatchedIdIsStored(db: Db, e: Event)
    requires Valid(db)
    ensures forall x :: x in MatchingIds(db.rows, e) ==> RowKey(AssignedTable, x) in db.rows
  {
  }

  /** A stored row is the one there before or one of the batch. */
  lemma {:induction false} LastWriteOfKey(db: Db, rows: seq<Row>, k: RowKey, cfg: AssignmentConfig)
    requires Valid(db) && forall r :: r in rows ==> WellFormed(r)
    ensures var after := WrittenAll(db, rows, cfg).rows;
      && (k in db.rows ==> k in after)
      && (k in after ==> (k in db.rows && after[k] == db.rows[k]) || (after[k] in rows && KeyOfRow(after[k]) == k))
  {
    if rows != [] {
      var n := |rows| - 1;
      assert rows == rows[..n] + [rows[n]];
      LastWriteOfKey(db, rows[..n], k, cfg);
      WrittenAllKeepsValid(db, rows[..n], cfg);
      WrittenIsValid(WrittenAll(db, rows[..n], cfg), rows[n], cfg);
    }
  }
}
