/** Which booking carries which of the charged leave days. */
module LeaveShares {
  import opened Calendar
  import opened Numbers
  import opened Sorting
  import opened Leave
  import opened LeaveLaws
  import opened Wrappers

  /** Range `i` starts before range `j`, or with it and is listed first. */
  predicate Precedes(ranges: seq<Range>, i: nat, j: nat)
    requires i < |ranges| && j < |ranges|
  {
    ranges[i].from < ranges[j].from || (ranges[i].from == ranges[j].from && i <= j)
  }

  /** The day belongs to range `i`: the first of the ranges that cover it. */
  predicate IsOwner(ranges: seq<Range>, i: nat, day: Date) {
    && i < |ranges|
    && InRange(ranges[i], day)
    && forall j: nat | j < |ranges| && InRange(ranges[j], day) :: Precedes(ranges, i, j)
  }

  /** How many of `days` belong to range `i`. */
  function CountOwned(ranges: seq<Range>, days: seq<Date>, i: nat): nat {
    if days == [] then 0
    else
      var n := |days| - 1;
      CountOwned(ranges, days[..n], i) + if IsOwner(ranges, i, days[n]) then 1 else 0
  }

  // ---------------------------------------------------------------------
  // Ranges in order of their start
  // ---------------------------------------------------------------------

  function StartKey(ranges: seq<Range>): int -> int {
    (i: int) => if 0 <= i < |ranges| then ranges[i].from else 0
  }

  function IndicesFrom(k: int, n: int): (r: seq<int>)
    requires k <= n
    ensures forall i :: i in r <==> k <= i < n
    ensures forall i, j | 0 <= i < j < |r| :: r[i] < r[j]
    decreases n - k
  {
    if k == n then []
    else
      var rest := IndicesFrom(k + 1, n);
      assert forall j | 0 <= j < |rest| :: rest[j] in rest;
      [k] + rest
  }

  ghost predicate InOrder(order: seq<int>, ranges: seq<Range>) {
    && (forall i :: i in order <==> 0 <= i < |ranges|)
    && (forall p, q | 0 <= p < q < |order| :: Before(StartKey(ranges), order[p], order[q]))
  }

  method FindOwner(order: seq<int>, ranges: seq<Range>, day: Date) returns (owner: Option<nat>)
    requires InOrder(order, ranges)
    ensures owner.Some? ==> IsOwner(ranges, owner.value, day)
    ensures owner.None? ==> !Booked(ranges, day)
    ensures owner.Some? ==>
      && owner.value < |ranges| && ranges[owner.value].from <= day <= ranges[owner.value].to
      && forall j | 0 <= j < |ranges| && ranges[j].from <= day <= ranges[j].to ::
           ranges[owner.value].from < ranges[j].from || (ranges[owner.value].from == ranges[j].from && owner.value <= j)
    ensures owner.None? ==> forall j | 0 <= j < |ranges| :: day < ranges[j].from || ranges[j].to < day
  {
    assert forall p | 0 <= p < |order| :: order[p] in order;
    for p := 0 to |order|
      invariant forall q | 0 <= q < p :: !InRange(ranges[order[q]], day)
    {
      if InRange(ranges[order[p]], day) {
        forall j: nat | j < |ranges| && InRange(ranges[j], day) ensures Precedes(ranges, order[p], j) {
          assert j in order;
          var q :| 0 <= q < |order| && order[q] == j;
          assert q > p ==> Before(StartKey(ranges), order[p], order[q]);
        }
        OwnerMeans(ranges, order[p], day);
        return Some(order[p]);
      }
    }
    forall i: nat | i < |ranges| ensures !InRange(ranges[i], day) {
      assert i in order;
    }
    return None;
  }

  /** The owner covers the day, and of all that do it starts first, or is listed first of those. */
  lemma OwnerMeans(ranges: seq<Range>, i: nat, day: Date)
    ensures IsOwner(ranges, i, day) <==>
      && i < |ranges| && ranges[i].from <= day <= ranges[i].to
      && forall j | 0 <= j < |ranges| && ranges[j].from <= day <= ranges[j].to ::
           ranges[i].from < ranges[j].from || (ranges[i].from == ranges[j].from && i <= j)
  {
    if IsOwner(ranges, i, day) {
      forall j | 0 <= j < |ranges| && ranges[j].from <= day <= ranges[j].to
        ensures ranges[i].from < ranges[j].from || (ranges[i].from == ranges[j].from && i <= j)
      {
        assert InRange(ranges[j], day) && Precedes(ranges, i, j);
      }
    }
  }

  /** The days a booking carries. */
  function DaysOf(ranges: seq<Range>, days: seq<Date>, i: nat): set<Date> {
    set d | d in days && i < |ranges| && ranges[i].from <= d <= ranges[i].to
            && forall j | 0 <= j < |ranges| && ranges[j].from <= d <= ranges[j].to ::
                 ranges[i].from < ranges[j].from || (ranges[i].from == ranges[j].from && i <= j)
  }

  lemma OneMoreDay(ranges: seq<Range>, front: seq<Date>, last: Date, i: nat)
    requires last !in front
    ensures |DaysOf(ranges, front + [last], i)|
         == |DaysOf(ranges, front, i)| + if IsOwner(ranges, i, last) then 1 else 0
  {
    OwnerMeans(ranges, i, last);
    hide IsOwner;
    if IsOwner(ranges, i, last) {
      assert DaysOf(ranges, front + [last], i) == DaysOf(ranges, front, i) + {last};
    } else {
      assert DaysOf(ranges, front + [last], i) == DaysOf(ranges, front, i);
    }
  }

  /** The share of a booking is the number of charged days it covers and no booking before it does. */
  lemma {:induction false} ShareIsCount(ranges: seq<Range>, days: seq<Date>, i: nat)
    requires forall p, q | 0 <= p < q < |days| :: days[p] < days[q]
    ensures CountOwned(ranges, days, i) == |DaysOf(ranges, days, i)|
  {
    hide IsOwner;
    if days == [] {
      assert DaysOf(ranges, days, i) == {};
    } else {
      var n := |days| - 1;
      var front, last := days[..n], days[n];
      ShareIsCount(ranges, front, i);
      assert days == front + [last] && last !in front;
      hide DaysOf;
      OneMoreDay(ranges, front, last, i);
    }
  }

  lemma OwnerIsUnique(ranges: seq<Range>, i: nat, j: nat, day: Date)
    requires IsOwner(ranges, i, day) && IsOwner(ranges, j, day)
    ensures i == j
  {
    assert Precedes(ranges, i, j) && Precedes(ranges, j, i);
  }

  method ScheduledDaysPerRange(a: Account, windowStart: Date, windowEnd: Date) returns (counts: seq<nat>)
    ensures |counts| == |a.ranges|
    ensures forall i: nat | i < |counts| :: counts[i] == CountOwned(a.ranges, LeaveDays(a, windowStart, windowEnd), i)
  {
    counts := seq(|a.ranges|, _ => 0);
    if a.ranges == [] {
      return;
    }
    var indices := IndicesFrom(0, |a.ranges|);
    var order := SortByKey(indices, StartKey(a.ranges));
    SortOrders(indices, StartKey(a.ranges));
    var days := ScheduledLeaveDays(a, windowStart, windowEnd);
    for n := 0 to |days|
      invariant |counts| == |a.ranges|
      invariant forall i: nat | i < |counts| :: counts[i] == CountOwned(a.ranges, days[..n], i)
    {
      var owner := FindOwner(order, a.ranges, days[n]);
      assert days[..n + 1][..n] == days[..n];
      match owner {
        case Some(o) =>
          forall i: nat | i < |counts| ensures IsOwner(a.ranges, i, days[n]) <==> i == o {
            if IsOwner(a.ranges, i, days[n]) { OwnerIsUnique(a.ranges, i, o, days[n]); }
          }
          counts := counts[o := counts[o] + 1];
        case None =>
          assert forall i: nat | i < |counts| :: !InRange(a.ranges[i], days[n]);
      }
    }
    assert days[..|days|] == days;
  }

  // ---------------------------------------------------------------------
  // The shares add up
  // ---------------------------------------------------------------------

  lemma {:induction false} OwnerExists(ranges: seq<Range>, n: nat, day: Date) returns (owner: nat)
    requires n <= |ranges| && exists i: nat :: i < n && InRange(ranges[i], day)
    ensures owner < n && InRange(ranges[owner], day)
    ensures forall j: nat | j < n && InRange(ranges[j], day) :: Precedes(ranges, owner, j)
  {
    var last := n - 1;
    if exists i: nat :: i < last && InRange(ranges[i], day) {
      owner := OwnerExists(ranges, last, day);
      if InRange(ranges[last], day) && ranges[last].from < ranges[owner].from {
        owner := last;
      }
    } else {
      owner := last;
    }
  }

  /** The shares of the first `n` ranges. */
  function TotalOwned(ranges: seq<Range>, days: seq<Date>, n: nat): nat {
    if n == 0 then 0 else TotalOwned(ranges, days, n - 1) + CountOwned(ranges, days, n - 1)
  }

  lemma {:induction false} TotalGrowsByOne(ranges: seq<Range>, days: seq<Date>, day: Date, owner: nat, n: nat)
    requires IsOwner(ranges, owner, day)
    ensures TotalOwned(ranges, days + [day], n) == TotalOwned(ranges, days, n) + if owner < n then 1 else 0
  {
    if n > 0 {
      TotalGrowsByOne(ranges, days, day, owner, n - 1);
      assert (days + [day])[..|days|] == days;
      if IsOwner(ranges, n - 1, day) {
        OwnerIsUnique(ranges, n - 1, owner, day);
      }
    }
  }

  lemma {:induction false} TotalOfNoDays(ranges: seq<Range>, n: nat)
    ensures TotalOwned(ranges, [], n) == 0
  {
    if n > 0 {
      TotalOfNoDays(ranges, n - 1);
    }
  }

  lemma {:induction false} BookedDaysAreShared(ranges: seq<Range>, days: seq<Date>)
    requires forall d | d in days :: Booked(ranges, d)
    ensures TotalOwned(ranges, days, |ranges|) == |days|
  {
    if days == [] {
      TotalOfNoDays(ranges, |ranges|);
    } else {
      var n := |days| - 1;
      assert days[n] in days;
      BookedDaysAreShared(ranges, days[..n]);
      var owner := OwnerExists(ranges, |ranges|, days[n]);
      TotalGrowsByOne(ranges, days[..n], days[n], owner, |ranges|);
      assert days[..n] + [days[n]] == days;
    }
  }

  /** The shares of the bookings add up to the days charged, whatever the quota refused. */
  lemma SharesAddUp(a: Account, windowStart: Date, windowEnd: Date)
    ensures TotalOwned(a.ranges, LeaveDays(a, windowStart, windowEnd), |a.ranges|)
         == |LeaveDays(a, windowStart, windowEnd)|
  {
    ChargedDays(a, Max(windowStart, a.contractStart), windowEnd);
    BookedDaysAreShared(a.ranges, LeaveDays(a, windowStart, windowEnd));
  }

  // ---------------------------------------------------------------------
  // Order of the bookings
  // ---------------------------------------------------------------------

  /** `listed` holds the same bookings in another order: its booking `j` is booking `from[j]`. */
  ghost predicate Reordered(ranges: seq<Range>, listed: seq<Range>, from: seq<nat>) {
    && |from| == |listed| == |ranges|
    && (forall j | 0 <= j < |from| :: from[j] < |ranges| && listed[j] == ranges[from[j]])
    && (forall i: nat | i < |ranges| :: i in from)
  }

  ghost predicate DistinctStarts(ranges: seq<Range>) {
    forall i, j | 0 <= i < j < |ranges| :: ranges[i].from != ranges[j].from
  }

  lemma OwnerFollowsOrder(ranges: seq<Range>, listed: seq<Range>, from: seq<nat>, j: nat, day: Date)
    requires Reordered(ranges, listed, from) && DistinctStarts(ranges) && j < |listed|
    ensures IsOwner(listed, j, day) <==> IsOwner(ranges, from[j], day)
  {
    if IsOwner(listed, j, day) {
      forall i: nat | i < |ranges| && InRange(ranges[i], day) ensures Precedes(ranges, from[j], i) {
        assert i in from;
        var k :| 0 <= k < |from| && from[k] == i;
        assert Precedes(listed, j, k);
        if ranges[from[j]].from == ranges[i].from {
          assert from[j] == i;
        }
      }
    }
    if IsOwner(ranges, from[j], day) {
      forall k: nat | k < |listed| && InRange(listed[k], day) ensures Precedes(listed, j, k) {
        assert Precedes(ranges, from[j], from[k]);
        if listed[j].from == listed[k].from {
          assert from[j] == from[k];
          SameBooking(ranges, listed, from, j, k);
        }
      }
    }
  }

  /** A reordering lists no booking twice. */
  lemma SameBooking(ranges: seq<Range>, listed: seq<Range>, from: seq<nat>, j: nat, k: nat)
    requires Reordered(ranges, listed, from) && j < |from| && k < |from| && from[j] == from[k]
    ensures j == k
  {
    if j != k {
      var without := from[..j] + from[j + 1..];
      forall i: nat | i < |ranges| ensures i in without {
        assert i in from;
        var m :| 0 <= m < |from| && from[m] == i;
        var p := if m == j then k else m;
        assert from[p] == i;
        assert without[if p < j then p else p - 1] == i;
      }
      TooFewNumbers(without, |ranges|);
    }
  }

  lemma {:induction false} TooFewNumbers(xs: seq<nat>, n: nat)
    requires forall i: nat | i < n :: i in xs
    ensures |xs| >= n
  {
    if n > 0 {
      assert n - 1 in xs;
      var m :| 0 <= m < |xs| && xs[m] == n - 1;
      var without := xs[..m] + xs[m + 1..];
      forall i: nat | i < n - 1 ensures i in without {
        assert i in xs;
        var p :| 0 <= p < |xs| && xs[p] == i;
        assert without[if p < m then p else p - 1] == i;
      }
      TooFewNumbers(without, n - 1);
    }
  }

  lemma {:induction false} CountFollowsOrder(
      ranges: seq<Range>, listed: seq<Range>, from: seq<nat>, days: seq<Date>, j: nat)
    requires Reordered(ranges, listed, from) && DistinctStarts(ranges) && j < |listed|
    ensures CountOwned(listed, days, j) == CountOwned(ranges, days, from[j])
  {
    if days != [] {
      var n := |days| - 1;
      CountFollowsOrder(ranges, listed, from, days[..n], j);
      OwnerFollowsOrder(ranges, listed, from, j, days[n]);
    }
  }

  /** Listing bookings with distinct starts in another order charges the same days and gives
      every booking the share it had. */
  lemma SharesFollowTheBookings(a: Account, listed: seq<Range>, from: seq<nat>, windowStart: Date, windowEnd: Date)
    requires Reordered(a.ranges, listed, from) && DistinctStarts(a.ranges)
    ensures
      var b := a.(ranges := listed);
      && LeaveDays(b, windowStart, windowEnd) == LeaveDays(a, windowStart, windowEnd)
      && forall j: nat | j < |listed| ::
           CountOwned(listed, LeaveDays(b, windowStart, windowEnd), j)
             == CountOwned(a.ranges, LeaveDays(a, windowStart, windowEnd), from[j])
  {
    hide CountOwned;
    var b := a.(ranges := listed);
    forall d ensures Booked(listed, d) <==> Booked(a.ranges, d) {
      if Booked(a.ranges, d) {
        var i :| 0 <= i < |a.ranges| && InRange(a.ranges[i], d);
        assert i in from;
        var k :| 0 <= k < |from| && from[k] == i;
        assert InRange(listed[k], d);
      }
      if Booked(listed, d) {
        var j :| 0 <= j < |listed| && InRange(listed[j], d);
        assert InRange(a.ranges[from[j]], d);
      }
    }
    ChargedDependsOnDays(a, b, Max(windowStart, a.contractStart), windowEnd);
    forall j: nat | j < |listed|
      ensures CountOwned(listed, LeaveDays(b, windowStart, windowEnd), j)
           == CountOwned(a.ranges, LeaveDays(a, windowStart, windowEnd), from[j])
    {
      CountFollowsOrder(a.ranges, listed, from, LeaveDays(a, windowStart, windowEnd), j);
    }
  }
}
