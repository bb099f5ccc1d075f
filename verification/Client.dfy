/** The Datalens client's paging and retry loops (src/datalens/client.rs). */
module Client {
  import opened Prelude

  datatype IncompleteReason = Pending | ProviderError | BudgetExhausted | NotFollowedYet

  predicate RetriesImmediately(reason: IncompleteReason) {
    reason.Pending? || reason.ProviderError?
  }

  datatype QueryPage<T> = QueryPage(
    rows: seq<T>,
    servedEnd: Option<u64>,
    incompleteReason: Option<IncompleteReason>,
    nextCursor: Option<string>)

  datatype Reply<T> = Page(page: QueryPage<T>) | Failure(retryable: bool)

  /** What the server answers to one request: the attempt, the request's number within it and the cursor sent. */
  type Server<!T> = (nat, nat, Option<string>) -> Reply<T>

  // ---- One attempt: following the page cursors ----

  /** The cursor sent with the k-th request of an attempt is the one the request before returned. */
  function CursorAt<T>(server: Server<T>, attempt: nat, k: nat): Option<string>
    decreases k, 0
  {
    if k == 0 then None
    else
      var before := ReplyAt(server, attempt, k - 1);
      if before.Page? then before.page.nextCursor else None
  }

  function ReplyAt<T>(server: Server<T>, attempt: nat, k: nat): Reply<T>
    decreases k, 1
  {
    server(attempt, k, CursorAt(server, attempt, k))
  }

  ghost predicate Continues<T>(reply: Reply<T>) {
    reply.Page? && reply.page.nextCursor.Some?
  }

  /** The first n replies are pages that each name a next cursor, all different. */
  ghost predicate Follows<T>(server: Server<T>, attempt: nat, n: nat) {
    && (forall k :: 0 <= k < n ==> Continues(ReplyAt(server, attempt, k)))
    && (forall i, j :: 1 <= i < j <= n ==> CursorAt(server, attempt, i) != CursorAt(server, attempt, j))
  }

  /** The attempt is over after exactly n requests. */
  ghost predicate EndsAfter<T>(server: Server<T>, attempt: nat, n: nat) {
    n > 0 && Follows(server, attempt, n - 1) && !Follows(server, attempt, n)
  }

  function RowsUpTo<T>(server: Server<T>, attempt: nat, n: nat): seq<T> {
    if n == 0 then []
    else
      var reply := ReplyAt(server, attempt, n - 1);
      RowsUpTo(server, attempt, n - 1) + (if reply.Page? then reply.page.rows else [])
  }

  /** An attempt of n requests yields the last page with the rows of all pages in order;
      a repeated cursor is fatal. */
  function Outcome<T>(server: Server<T>, attempt: nat, n: nat): Reply<T>
    requires n > 0
  {
    match ReplyAt(server, attempt, n - 1)
    case Failure(retryable) => Failure(retryable)
    case Page(page) =>
      if page.nextCursor.Some? then Failure(false)
      else Page(page.(rows := RowsUpTo(server, attempt, n)))
  }

  ghost predicate IsOutcome<T>(server: Server<T>, attempt: nat, outcome: Reply<T>) {
    exists n :: EndsAfter(server, attempt, n) && outcome == Outcome(server, attempt, n)
  }

  /** An attempt has one outcome. */
  lemma OutcomeIsUnique<T>(server: Server<T>, attempt: nat, r: Reply<T>, q: Reply<T>)
    requires IsOutcome(server, attempt, r) && IsOutcome(server, attempt, q)
    ensures r == q
  {
    hide Follows, Outcome;
    var n :| EndsAfter(server, attempt, n) && r == Outcome(server, attempt, n);
    var m :| EndsAfter(server, attempt, m) && q == Outcome(server, attempt, m);
    AttemptEndsOnce(server, attempt, n, m);
  }

  /** The server names only cursors of a finite set. */
  ghost predicate CursorsWithin<T>(server: Server<T>, cursors: set<string>) {
    forall attempt: nat, k: nat ::
      Continues(ReplyAt(server, attempt, k)) ==> CursorAt(server, attempt, k + 1).value in cursors
  }

  /** An attempt ends after only one number of requests. */
  lemma AttemptEndsOnce<T>(server: Server<T>, attempt: nat, n: nat, m: nat)
    requires EndsAfter(server, attempt, n) && EndsAfter(server, attempt, m)
    ensures n == m
  {
    if n < m {
      assert Follows(server, attempt, n);
    } else if m < n {
      assert Follows(server, attempt, m);
    }
  }

  /** Distinct cursors from a finite set run out. */
  lemma {:induction false} FollowsIsBounded<T>(server: Server<T>, attempt: nat, n: nat, cursors: set<string>)
    requires CursorsWithin(server, cursors) && Follows(server, attempt, n)
    ensures n <= |cursors|
  {
    var names := seq(n, k requires 0 <= k < n => ReplyAt(server, attempt, k).page.nextCursor.value);
    forall i | 0 <= i < n
      ensures names[i] in cursors && CursorAt(server, attempt, i + 1) == Some(names[i])
    {
      assert Continues(ReplyAt(server, attempt, i));
    }
    CountDistinct(names, cursors);
  }

  lemma {:induction false} CountDistinct(names: seq<string>, cursors: set<string>)
    requires forall i :: 0 <= i < |names| ==> names[i] in cursors
    requires forall i, j :: 0 <= i < j < |names| ==> names[i] != names[j]
    ensures |names| <= |cursors|
  {
    if names != [] {
      CountDistinct(names[1..], cursors - {names[0]});
    }
  }

  ghost predicate IsSeen<T>(server: Server<T>, attempt: nat, n: nat, c: string) {
    exists k :: 1 <= k <= n && CursorAt(server, attempt, k) == Some(c)
  }

  /** One more page with a next cursor either goes on or ends the attempt, by whether the cursor is new. */
  lemma NextCursor<T>(server: Server<T>, attempt: nat, n: nat, c: string)
    requires Follows(server, attempt, n)
    requires ReplyAt(server, attempt, n).Page? && ReplyAt(server, attempt, n).page.nextCursor == Some(c)
    ensures CursorAt(server, attempt, n + 1) == Some(c)
    ensures if IsSeen(server, attempt, n, c) then EndsAfter(server, attempt, n + 1) else Follows(server, attempt, n + 1)
    ensures forall d :: IsSeen(server, attempt, n + 1, d) <==> IsSeen(server, attempt, n, d) || d == c
  {
    assert CursorAt(server, attempt, n + 1) == Some(c);
    if IsSeen(server, attempt, n, c) {
      var k :| 1 <= k <= n && CursorAt(server, attempt, k) == Some(c);
      assert CursorAt(server, attempt, k) == CursorAt(server, attempt, n + 1);
    }
  }

  /** The replies to an attempt's requests. */
  function Replies<T>(server: Server<T>, attempt: nat, n: nat): (replies: seq<Reply<T>>)
    ensures |replies| == n
    ensures forall k :: 0 <= k < n ==> replies[k] == ReplyAt(server, attempt, k)
  {
    seq(n, k requires 0 <= k < n => ReplyAt(server, attempt, k))
  }

  /** The first request carries no cursor, and each one after it the cursor that the page before named. */
  ghost predicate IsExchange<T>(server: Server<T>, attempt: nat, replies: seq<Reply<T>>) {
    && (replies != [] ==> replies[0] == server(attempt, 0, None))
    && forall k :: 0 <= k < |replies| - 1 ==>
         && replies[k].Page? && replies[k].page.nextCursor.Some?
         && replies[k + 1] == server(attempt, k + 1, replies[k].page.nextCursor)
  }

  /** The reply names a cursor that an earlier one has named. */
  ghost predicate RepeatsCursor<T>(replies: seq<Reply<T>>, k: nat) {
    && k < |replies| && replies[k].Page? && replies[k].page.nextCursor.Some?
    && exists j :: 0 <= j < k && replies[j].Page? && replies[j].page.nextCursor == replies[k].page.nextCursor
  }

  /** The rows of each page stand after the rows of the pages before it, in the order of the requests, and there are
      no others. */
  ghost predicate InOrder<T>(replies: seq<Reply<T>>, rows: seq<T>) {
    exists starts: seq<nat> :: StartsAt(replies, rows, starts)
  }

  ghost predicate StartsAt<T>(replies: seq<Reply<T>>, rows: seq<T>, starts: seq<nat>) {
    && |starts| == |replies| + 1 && starts[0] == 0 && starts[|replies|] == |rows|
    && forall k :: 0 <= k < |replies| ==> IsPart(replies[k], rows, starts[k], starts[k + 1])
  }

  /** These rows, from one position to the other, are the reply's. */
  ghost predicate IsPart<T>(reply: Reply<T>, rows: seq<T>, start: nat, end: nat) {
    reply.Page? && end == start + |reply.page.rows| <= |rows| && rows[start..end] == reply.page.rows
  }

  lemma OneMorePage<T>(replies: seq<Reply<T>>, rows: seq<T>, starts: seq<nat>, reply: Reply<T>)
    requires StartsAt(replies, rows, starts) && reply.Page?
    ensures StartsAt(replies + [reply], rows + reply.page.rows, starts + [|rows| + |reply.page.rows|])
  {
    hide IsPart;
    var all, longer, more := replies + [reply], rows + reply.page.rows, starts + [|rows| + |reply.page.rows|];
    forall k | 0 <= k < |all|
      ensures IsPart(all[k], longer, more[k], more[k + 1])
    {
      if k < |replies| {
        assert more[k] == starts[k] && more[k + 1] == starts[k + 1];
        PartOfLonger(replies[k], rows, reply.page.rows, starts[k], starts[k + 1]);
      } else {
        LastPart(reply, rows);
      }
    }
  }

  lemma PartOfLonger<T>(reply: Reply<T>, rows: seq<T>, tail: seq<T>, start: nat, end: nat)
    requires IsPart(reply, rows, start, end)
    ensures IsPart(reply, rows + tail, start, end)
  {
    assert (rows + tail)[start..end] == rows[start..end];
  }

  lemma LastPart<T>(reply: Reply<T>, rows: seq<T>)
    requires reply.Page?
    ensures IsPart(reply, rows + reply.page.rows, |rows|, |rows| + |reply.page.rows|)
  {
  }

  lemma {:induction false} RowsInOrder<T>(server: Server<T>, attempt: nat, n: nat)
    requires forall k :: 0 <= k < n ==> ReplyAt(server, attempt, k).Page?
    ensures InOrder(Replies(server, attempt, n), RowsUpTo(server, attempt, n))
  {
    hide ReplyAt, StartsAt;
    var replies := Replies(server, attempt, n);
    if n == 0 {
      NoPages(replies, RowsUpTo(server, attempt, n));
    } else {
      RowsInOrder(server, attempt, n - 1);
      var before, rows := Replies(server, attempt, n - 1), RowsUpTo(server, attempt, n - 1);
      var starts :| StartsAt(before, rows, starts);
      OneMorePage(before, rows, starts, ReplyAt(server, attempt, n - 1));
      assert replies == before + [ReplyAt(server, attempt, n - 1)];
    }
  }

  lemma NoPages<T>(replies: seq<Reply<T>>, rows: seq<T>)
    requires replies == [] && rows == []
    ensures InOrder(replies, rows)
  {
    assert StartsAt(replies, rows, [0]);
  }

  lemma RequestsCarryCursors<T>(server: Server<T>, attempt: nat, n: nat)
    requires n > 0 && Follows(server, attempt, n - 1)
    ensures IsExchange(server, attempt, Replies(server, attempt, n))
  {
    var replies := Replies(server, attempt, n);
    forall k | 0 <= k < n - 1
      ensures Continues(replies[k]) && replies[k + 1] == server(attempt, k + 1, replies[k].page.nextCursor)
    {
      assert Continues(ReplyAt(server, attempt, k));
      assert CursorAt(server, attempt, k + 1) == replies[k].page.nextCursor;
      assert replies[k + 1] == ReplyAt(server, attempt, k + 1);
    }
  }

  lemma CursorNamed<T>(server: Server<T>, attempt: nat, n: nat, k: nat)
    requires k < n && Replies(server, attempt, n)[k].Page?
    ensures CursorAt(server, attempt, k + 1) == Replies(server, attempt, n)[k].page.nextCursor
  {
  }

  /** An attempt of n requests stops at the last one: it failed, named no cursor or repeated one, and the replies before
      did none of it. */
  lemma StopsAtLast<T>(server: Server<T>, attempt: nat, n: nat)
    requires EndsAfter(server, attempt, n)
    ensures var replies := Replies(server, attempt, n);
      && (forall k :: 0 <= k < n - 1 ==> !RepeatsCursor(replies, k))
      && (Continues(replies[n - 1]) ==> RepeatsCursor(replies, n - 1))
  {
    hide CursorAt, ReplyAt;
    var replies := Replies(server, attempt, n);
    forall k | 0 <= k < n - 1
      ensures !RepeatsCursor(replies, k)
    {
      CursorNamed(server, attempt, n, k);
      forall j | 0 <= j < k && replies[j].Page?
        ensures replies[j].page.nextCursor != replies[k].page.nextCursor
      {
        CursorNamed(server, attempt, n, j);
      }
    }
    if Continues(replies[n - 1]) {
      var i, j :| 1 <= i < j <= n && CursorAt(server, attempt, i) == CursorAt(server, attempt, j);
      assert j == n && Continues(ReplyAt(server, attempt, i - 1));
      CursorNamed(server, attempt, n, i - 1);
      CursorNamed(server, attempt, n, n - 1);
    }
  }

  /** What an attempt gives, from its replies alone: the rows of all its pages in order with the rest of the last
      page; a failure as the server gave it; a final failure for a repeated cursor. */
  ghost predicate Gives<T>(replies: seq<Reply<T>>, r: Reply<T>) {
    replies != [] &&
    var last := replies[|replies| - 1];
    if last.Failure? then r == last
    else if last.page.nextCursor.Some? then RepeatsCursor(replies, |replies| - 1) && r == Failure(false)
    else r.Page? && r.page == last.page.(rows := r.page.rows) && InOrder(replies, r.page.rows)
  }

  lemma AttemptGives<T>(server: Server<T>, attempt: nat, n: nat)
    requires EndsAfter(server, attempt, n)
    ensures IsExchange(server, attempt, Replies(server, attempt, n))
    ensures Gives(Replies(server, attempt, n), Outcome(server, attempt, n))
  {
    hide CursorAt, ReplyAt, RepeatsCursor, InOrder, IsExchange;
    RequestsCarryCursors(server, attempt, n);
    StopsAtLast(server, attempt, n);
    var last := Replies(server, attempt, n)[n - 1];
    if last.Page? {
      forall k | 0 <= k < n
        ensures ReplyAt(server, attempt, k).Page?
      {
        assert k < n - 1 ==> Continues(ReplyAt(server, attempt, k));
      }
      RowsInOrder(server, attempt, n);
    }
  }

  method QueryPages<T>(server: Server<T>, attempt: nat, ghost cursors: set<string>) returns (r: Reply<T>, ghost n: nat)
    requires CursorsWithin(server, cursors)
    ensures EndsAfter(server, attempt, n) && r == Outcome(server, attempt, n)
    ensures IsOutcome(server, attempt, r) && n <= |cursors| + 1
    ensures IsExchange(server, attempt, Replies(server, attempt, n)) && Gives(Replies(server, attempt, n), r)
  {
    hide CursorAt, IsSeen, CursorsWithin, Gives, IsExchange, Replies;
    var cursor: Option<string> := None;
    var rows: seq<T> := [];
    var seen: set<string> := {};
    var sent: nat := 0;
    Start(server, attempt);
    while true
      invariant Follows(server, attempt, sent)
      invariant cursor == CursorAt(server, attempt, sent) && rows == RowsUpTo(server, attempt, sent)
      invariant forall c :: c in seen <==> IsSeen(server, attempt, sent, c)
      invariant sent <= |cursors|
      decreases |cursors| - sent
    {
      var reply := server(attempt, sent, cursor);
      assert reply == ReplyAt(server, attempt, sent);
      n := sent + 1;
      if reply.Failure? {
        AttemptGives(server, attempt, n);
        return Failure(reply.retryable), n;
      }
      rows := rows + reply.page.rows;
      if reply.page.nextCursor.None? {
        AttemptGives(server, attempt, n);
        return Page(reply.page.(rows := rows)), n;
      }
      NextCursor(server, attempt, sent, reply.page.nextCursor.value);
      if reply.page.nextCursor.value in seen {
        AttemptGives(server, attempt, n);
        return Failure(false), n;
      }
      seen := seen + {reply.page.nextCursor.value};
      cursor := reply.page.nextCursor;
      sent := sent + 1;
      FollowsIsBounded(server, attempt, sent, cursors);
    }
  }

  lemma Start<T>(server: Server<T>, attempt: nat)
    ensures Follows(server, attempt, 0) && CursorAt(server, attempt, 0) == None
    ensures forall c :: !IsSeen(server, attempt, 0, c)
  {
  }

  // ---- Attempts ----

  function ServedRank<T>(page: QueryPage<T>): nat {
    if page.servedEnd.Some? then SaturatingAdd(page.servedEnd.value, 1) else 0
  }

  /** The rank orders pages by how far they are served, with nothing served last; the two highest ends tie. */
  lemma RankOrdersServes<T>(p: QueryPage<T>, q: QueryPage<T>)
    ensures ServedRank(p) < ServedRank(q) <==>
              && q.servedEnd.Some?
              && (p.servedEnd.None? || (p.servedEnd.value < q.servedEnd.value && p.servedEnd.value < U64_MAX - 1))
  {
  }

  predicate IsFinal<T>(page: QueryPage<T>) {
    page.incompleteReason.None? || !RetriesImmediately(page.incompleteReason.value)
  }

  /** After this outcome the client makes another attempt if it has one left. */
  ghost predicate GoesOn<T>(outcome: Reply<T>) {
    if outcome.Page? then !IsFinal(outcome.page) else outcome.retryable
  }

  /** The two reasons for which a page is asked again at once; every other page ends the query, and of failures only the
      retryable ones do not. */
  lemma GoesOnIff<T>(outcome: Reply<T>)
    ensures GoesOn(outcome)
       <==> if outcome.Page?
            then outcome.page.incompleteReason == Some(Pending) || outcome.page.incompleteReason == Some(ProviderError)
            else outcome.retryable
  {
  }

  /** The page at `best` ranks above all earlier pages and no page ranks above it. */
  ghost predicate IsBest<T>(outcomes: seq<Reply<T>>, best: nat) {
    && best < |outcomes| && outcomes[best].Page?
    && (forall i :: 0 <= i < |outcomes| && outcomes[i].Page? ==>
        ServedRank(outcomes[i].page) <= ServedRank(outcomes[best].page))
    && (forall i :: 0 <= i < best && outcomes[i].Page? ==>
        ServedRank(outcomes[i].page) < ServedRank(outcomes[best].page))
  }

  /** Served further: some height against none, or a greater one; beyond U64_MAX - 1 there is no difference. */
  predicate Further<T>(p: QueryPage<T>, q: QueryPage<T>) {
    && p.servedEnd.Some?
    && (q.servedEnd.None? || (q.servedEnd.value < p.servedEnd.value && q.servedEnd.value < U64_MAX - 1))
  }

  /** The best page is the first one than which no page is served further. */
  lemma BestIsFurthest<T>(outcomes: seq<Reply<T>>, best: nat)
    ensures IsBest(outcomes, best)
       <==> && best < |outcomes| && outcomes[best].Page?
            && (forall i :: 0 <= i < |outcomes| && outcomes[i].Page? ==>
                  !Further(outcomes[i].page, outcomes[best].page))
            && (forall i :: 0 <= i < best && outcomes[i].Page? ==> Further(outcomes[best].page, outcomes[i].page))
  {
    hide ServedRank;
    forall i, j | 0 <= i < |outcomes| && 0 <= j < |outcomes| && outcomes[i].Page? && outcomes[j].Page?
      ensures ServedRank(outcomes[i].page) < ServedRank(outcomes[j].page)
         <==> Further(outcomes[j].page, outcomes[i].page)
    {
      RankOrdersServes(outcomes[i].page, outcomes[j].page);
    }
  }

  /** The outcomes are those of the attempts 1, 2, ... made; all but the last are followed by another. */
  ghost predicate AttemptsMade<T>(server: Server<T>, maxAttempts: nat, outcomes: seq<Reply<T>>) {
    && |outcomes| <= maxAttempts
    && (forall i :: 0 <= i < |outcomes| ==> IsOutcome(server, i + 1, outcomes[i]))
    && (forall i :: 0 <= i < |outcomes| - 1 ==> GoesOn(outcomes[i]))
    && (|outcomes| == maxAttempts || (outcomes != [] && !GoesOn(outcomes[|outcomes| - 1])))
  }

  /** What a query with these attempts returns. */
  ghost predicate Answers<T>(outcomes: seq<Reply<T>>, r: Option<QueryPage<T>>) {
    var n := |outcomes|;
    if n > 0 && outcomes[n - 1].Page? && IsFinal(outcomes[n - 1].page) then r == Some(outcomes[n - 1].page)
    else if exists o :: o in outcomes && o.Page? then
      exists best: nat :: IsBest(outcomes, best) && r == Some(outcomes[best].page)
    else r == None
  }

  /** The page kept after these outcomes, at index `at`. */
  ghost predicate KeepsBest<T>(outcomes: seq<Reply<T>>, best: Option<QueryPage<T>>, at: nat) {
    if best.Some? then IsBest(outcomes, at) && best == Some(outcomes[at].page)
    else forall i :: 0 <= i < |outcomes| ==> outcomes[i].Failure?
  }

  lemma KeepsBestStep<T>(outcomes: seq<Reply<T>>, best: Option<QueryPage<T>>, at: nat, outcome: Reply<T>)
    requires KeepsBest(outcomes, best, at)
    ensures if outcome.Page? && (best.None? || ServedRank(outcome.page) > ServedRank(best.value))
            then KeepsBest(outcomes + [outcome], Some(outcome.page), |outcomes|)
            else KeepsBest(outcomes + [outcome], best, at)
  {
    var all := outcomes + [outcome];
    assert forall i :: 0 <= i < |all| ==> all[i] == if i < |outcomes| then outcomes[i] else outcome;
  }

  /** The answer of a query: some attempts are made, and they answer it. */
  ghost predicate IsAnswer<T(!new)>(server: Server<T>, maxAttempts: nat, r: Option<QueryPage<T>>) {
    exists outcomes :: AttemptsMade(server, maxAttempts, outcomes) && Answers(outcomes, r)
  }

  /** A query has one answer. */
  lemma AnswerIsUnique<T(!new)>(server: Server<T>, maxAttempts: nat, r: Option<QueryPage<T>>, q: Option<QueryPage<T>>)
    requires IsAnswer(server, maxAttempts, r) && IsAnswer(server, maxAttempts, q)
    ensures r == q
  {
    hide AttemptsMade, IsBest;
    var one :| AttemptsMade(server, maxAttempts, one) && Answers(one, r);
    var other :| AttemptsMade(server, maxAttempts, other) && Answers(other, q);
    if |one| <= |other| {
      AttemptsAgree(server, maxAttempts, one, other);
    } else {
      AttemptsAgree(server, maxAttempts, other, one);
    }
    BestIsUnique(one);
  }

  lemma BestIsUnique<T>(outcomes: seq<Reply<T>>)
    ensures forall i: nat, j: nat :: IsBest(outcomes, i) && IsBest(outcomes, j) ==> i == j
  {
  }

  lemma KeptIsAnswer<T>(outcomes: seq<Reply<T>>, best: Option<QueryPage<T>>, at: nat)
    requires KeepsBest(outcomes, best, at)
    requires outcomes != [] && outcomes[|outcomes| - 1].Page? ==> !IsFinal(outcomes[|outcomes| - 1].page)
    ensures Answers(outcomes, best)
  {
  }

  lemma AttemptsAgree<T>(server: Server<T>, maxAttempts: nat, one: seq<Reply<T>>, other: seq<Reply<T>>)
    requires AttemptsMade(server, maxAttempts, one) && AttemptsMade(server, maxAttempts, other)
    requires |one| <= |other|
    ensures one == other
  {
    hide IsOutcome;
    forall i | 0 <= i < |one|
      ensures one[i] == other[i] && (i < |other| - 1 ==> GoesOn(one[i]))
    {
      OutcomeIsUnique(server, i + 1, one[i], other[i]);
    }
  }

  /** Makes attempts until a page needs no immediate retry, an error is final or none is left. */
  method PostQuery<T(!new)>(server: Server<T>, maxAttempts: nat, ghost cursors: set<string>)
      returns (r: Option<QueryPage<T>>)
    requires CursorsWithin(server, cursors)
    ensures IsAnswer(server, maxAttempts, r)
  {
    hide IsOutcome, IsBest, CursorsWithin, EndsAfter, Outcome;
    var best: Option<QueryPage<T>> := None;
    ghost var at: nat := 0;
    ghost var outcomes: seq<Reply<T>> := [];
    for attempt := 1 to maxAttempts + 1
      invariant |outcomes| == attempt - 1
      invariant forall i :: 0 <= i < |outcomes| ==> IsOutcome(server, i + 1, outcomes[i])
      invariant forall i :: 0 <= i < |outcomes| ==> GoesOn(outcomes[i])
      invariant KeepsBest(outcomes, best, at)
    {
      var outcome, n := QueryPages(server, attempt, cursors);
      KeepsBestStep(outcomes, best, at, outcome);
      outcomes := outcomes + [outcome];
      match outcome
      case Page(page) =>
        if IsFinal(page) {
          assert AttemptsMade(server, maxAttempts, outcomes);
          return Some(page);
        }
        if best.None? || ServedRank(page) > ServedRank(best.value) {
          best, at := Some(page), attempt - 1;
        }
        if attempt == maxAttempts {
          break;
        }
      case Failure(retryable) =>
        if !retryable || attempt == maxAttempts {
          KeptIsAnswer(outcomes, best, at);
          assert AttemptsMade(server, maxAttempts, outcomes);
          return best;
        }
    }
    KeptIsAnswer(outcomes, best, at);
    assert AttemptsMade(server, maxAttempts, outcomes);
    r := best;
  }
}
