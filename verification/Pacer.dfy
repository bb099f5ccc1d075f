/** The request pacer shared by all chain tasks (`wait_for_request_slot`, src/datalens/client.rs). A run is
    the sequence of lock acquisitions of all tasks in the order the mutex grants them, so every
    interleaving of the tasks is one such sequence. */
module Pacer {
  import opened Prelude

  /** One acquisition of the pacer's lock: the clock when the task reads the elapsed time,
      and the clock when it stamps its slot. */
  datatype Turn = Turn(task: nat, read: nat, stamp: nat)

  /** The clock never runs backwards within the lock or from one holder to the next. */
  ghost predicate Monotone(turns: seq<Turn>) {
    && (forall i :: 0 <= i < |turns| ==> turns[i].read <= turns[i].stamp)
    && (forall i, j :: 0 <= i < j < |turns| ==> turns[i].stamp <= turns[j].read)
  }

  /** How long a holder must sleep; None grants the slot. */
  function Delay(interval: nat, last: Option<nat>, read: nat): Option<nat> {
    if last.None? || SaturatingSub(read, last.value) >= interval then None
    else Some(interval - SaturatingSub(read, last.value))
  }

  /** The last stamp after the turns. */
  function LastStamp(interval: nat, turns: seq<Turn>): Option<nat> {
    if turns == [] then None
    else
      var n := |turns| - 1;
      var before := LastStamp(interval, turns[..n]);
      if Delay(interval, before, turns[n].read).None? then Some(turns[n].stamp) else before
  }

  predicate Granted(interval: nat, turns: seq<Turn>, k: nat)
    requires k < |turns|
  {
    Delay(interval, LastStamp(interval, turns[..k]), turns[k].read) == None
  }

  class RequestPacer {
    const minInterval: nat
    var lastRequestAt: Option<nat>

    constructor (minInterval: nat)
      ensures this.minInterval == minInterval && lastRequestAt == None
    {
      this.minInterval := minInterval;
      lastRequestAt := None;
    }

    /** One turn under the lock: takes the slot, or leaves the pacer alone and says how long to sleep. */
    method TakeSlot(read: nat, stamp: nat) returns (delay: Option<nat>)
      modifies this
      ensures delay == Delay(minInterval, old(lastRequestAt), read)
      ensures lastRequestAt == if delay.None? then Some(stamp) else old(lastRequestAt)
    {
      match lastRequestAt {
        case Some(last) =>
          var elapsed := SaturatingSub(read, last);
          if elapsed >= minInterval {
            lastRequestAt := Some(stamp);
            delay := None;
          } else {
            delay := Some(minInterval - elapsed);
          }
        case None =>
          lastRequestAt := Some(stamp);
          delay := None;
      }
    }

    /** All tasks' turns on a new pacer, in lock order: exactly the granted turns return a slot. */
    method TakeTurns(turns: seq<Turn>) returns (granted: seq<bool>)
      requires lastRequestAt == None
      modifies this
      ensures |granted| == |turns|
      ensures forall k :: 0 <= k < |turns| ==> granted[k] == Granted(minInterval, turns, k)
      ensures lastRequestAt == LastStamp(minInterval, turns)
    {
      granted := [];
      for k := 0 to |turns|
        invariant |granted| == k && lastRequestAt == LastStamp(minInterval, turns[..k])
        invariant forall i :: 0 <= i < k ==> granted[i] == Granted(minInterval, turns, i)
      {
        var delay := TakeSlot(turns[k].read, turns[k].stamp);
        PrefixAgrees(minInterval, turns, k + 1, k);
        assert turns[..k + 1][..k] == turns[..k];
        granted := granted + [delay.None?];
      }
      assert turns[..|turns|] == turns;
    }
  }

  lemma PrefixAgrees(interval: nat, turns: seq<Turn>, n: nat, k: nat)
    requires k < n <= |turns|
    ensures Granted(interval, turns[..n], k) == Granted(interval, turns, k)
  {
    assert turns[..n][..k] == turns[..k];
  }

  /** The last stamp is that of the latest granted turn. */
  lemma {:induction false} LastStampIs(interval: nat, turns: seq<Turn>, n: nat) returns (k: nat)
    requires n <= |turns| && LastStamp(interval, turns[..n]).Some?
    ensures k < n && Granted(interval, turns, k) && LastStamp(interval, turns[..n]) == Some(turns[k].stamp)
    ensures forall i :: k < i < n ==> !Granted(interval, turns, i)
  {
    PrefixAgrees(interval, turns, n, n - 1);
    assert turns[..n][..n - 1] == turns[..n - 1];
    if Granted(interval, turns, n - 1) {
      k := n - 1;
    } else {
      k := LastStampIs(interval, turns, n - 1);
    }
  }

  /** After a granted turn there is a last stamp, at least as late. */
  lemma {:induction false} LastStampFrom(interval: nat, turns: seq<Turn>, i: nat, n: nat)
    requires i < n <= |turns| && Monotone(turns) && Granted(interval, turns, i)
    ensures LastStamp(interval, turns[..n]).Some? && LastStamp(interval, turns[..n]).value >= turns[i].stamp
  {
    PrefixAgrees(interval, turns, n, n - 1);
    assert turns[..n][..n - 1] == turns[..n - 1];
    if i < n - 1 {
      LastStampFrom(interval, turns, i, n - 1);
      assert turns[i].stamp <= turns[n - 1].read;
    }
  }

  // ---- Rate limit ----

  /** Whatever the interleaving, two granted slots are at least the interval apart. */
  lemma SlotsAreApart(interval: nat, turns: seq<Turn>, i: nat, j: nat)
    requires Monotone(turns) && i < j < |turns| && Granted(interval, turns, i) && Granted(interval, turns, j)
    ensures turns[j].stamp - turns[i].stamp >= interval
  {
    LastStampFrom(interval, turns, i, j);
    var k := LastStampIs(interval, turns, j);
    assert turns[k].stamp <= turns[j].read;
  }

  ghost function SlotsIn(interval: nat, turns: seq<Turn>, start: nat, length: nat): set<nat> {
    set k: nat | k < |turns| && Granted(interval, turns, k) && start <= turns[k].stamp <= start + length
  }

  /** A window of length T holds at most T / interval + 1 granted slots. */
  lemma {:induction false} WindowHolds(interval: nat, turns: seq<Turn>, start: nat, length: nat)
    requires Monotone(turns) && interval > 0
    ensures |SlotsIn(interval, turns, start, length)| <= length / interval + 1
    decreases length
  {
    hide Granted, Monotone;
    var slots := SlotsIn(interval, turns, start, length);
    if slots != {} {
      var last := LatestOf(slots);
      SlotsBefore(interval, turns, start, length, last);
      if length < interval {
        assert slots == {last};
      } else {
        WindowHolds(interval, turns, start, length - interval);
        SubsetSize(slots - {last}, SlotsIn(interval, turns, start, length - interval));
        LessByOne(length, interval);
      }
    }
  }

  /** All slots of a window but the last end an interval earlier. */
  lemma SlotsBefore(interval: nat, turns: seq<Turn>, start: nat, length: nat, last: nat)
    requires Monotone(turns) && last in SlotsIn(interval, turns, start, length)
    requires forall k :: k in SlotsIn(interval, turns, start, length) ==> k <= last
    ensures if length < interval then SlotsIn(interval, turns, start, length) == {last}
            else SlotsIn(interval, turns, start, length) - {last} <= SlotsIn(interval, turns, start, length - interval)
  {
    hide LastStamp;
    forall k | k in SlotsIn(interval, turns, start, length) && k != last
      ensures turns[k].stamp + interval <= turns[last].stamp
    {
      SlotsAreApart(interval, turns, k, last);
    }
  }

  lemma LessByOne(length: nat, interval: nat)
    requires 0 < interval <= length
    ensures (length - interval) / interval + 1 == length / interval
  {
    var p, q := length / interval, (length - interval) / interval + 1;
    assert length == interval * p + length % interval;
    assert length - interval == interval * (q - 1) + (length - interval) % interval;
    assert interval * (q - 1) == interval * q - interval;
    if p < q {
      Multiples(interval, p, q);
    } else if q < p {
      Multiples(interval, q, p);
    }
  }

  lemma Multiples(n: nat, p: int, q: int)
    requires n > 0 && p < q
    ensures n * q >= n * p + n
  {
    assert n * (q - p - 1) >= 0;
    assert n * (q - p - 1) == n * q - n * p - n;
  }

  lemma {:induction false} LatestOf(s: set<nat>) returns (m: nat)
    requires s != {}
    ensures m in s && forall k :: k in s ==> k <= m
    decreases |s|
  {
    var x :| x in s;
    if s == {x} {
      m := x;
    } else {
      assert s == (s - {x}) + {x};
      m := LatestOf(s - {x});
      m := if m < x then x else m;
    }
  }

  lemma {:induction false} SubsetSize(a: set<nat>, b: set<nat>)
    requires a <= b
    ensures |a| <= |b|
  {
    assert b == a + (b - a);
  }

  // ---- No slot is wasted ----

  /** A refused task that comes back when its delay is over finds the slot free unless another turn took one. */
  lemma {:induction false} DelayIsEnough(interval: nat, turns: seq<Turn>, i: nat, j: nat)
    requires Monotone(turns) && i < j < |turns|
    requires !Granted(interval, turns, i)
    requires turns[j].read >= turns[i].read + Delay(interval, LastStamp(interval, turns[..i]), turns[i].read).value
    ensures exists k :: i < k <= j && Granted(interval, turns, k)
  {
    if forall k :: i < k < j ==> !Granted(interval, turns, k) {
      NoGrantKeepsStamp(interval, turns, i, j);
      var last := LastStampIs(interval, turns, i);
      assert turns[last].stamp <= turns[i].read;
      assert Granted(interval, turns, j);
    }
  }

  lemma {:induction false} NoGrantKeepsStamp(interval: nat, turns: seq<Turn>, i: nat, j: nat)
    requires i <= j <= |turns| && forall k :: i <= k < j ==> !Granted(interval, turns, k)
    ensures LastStamp(interval, turns[..j]) == LastStamp(interval, turns[..i])
  {
    if i < j {
      PrefixAgrees(interval, turns, j, j - 1);
      assert turns[..j][..j - 1] == turns[..j - 1];
      NoGrantKeepsStamp(interval, turns, i, j - 1);
    }
  }

  /** The delay is the least one: every turn before it is over is refused, whoever takes it. */
  lemma {:induction false} DelayIsLeast(interval: nat, turns: seq<Turn>, i: nat, j: nat)
    requires Monotone(turns) && i < j < |turns|
    requires !Granted(interval, turns, i)
    requires turns[j].read < turns[i].read + Delay(interval, LastStamp(interval, turns[..i]), turns[i].read).value
    ensures !Granted(interval, turns, j)
    decreases j
  {
    forall k | i <= k < j
      ensures !Granted(interval, turns, k)
    {
      if i < k {
        DelayIsLeast(interval, turns, i, k);
      }
    }
    NoGrantKeepsStamp(interval, turns, i, j);
    var last := LastStampIs(interval, turns, i);
    assert turns[last].stamp <= turns[i].read;
  }
}
