/** Which weekdays a contract places work on, and how that and the weekly hours change over time. */
module WorkSchedules {
  import opened Calendar
  import opened Sorting
  import opened Wrappers

  function PotentialWorkdaysPerWeek(workdaysPerWeek: int): nat {
    if workdaysPerWeek <= 0 then 0
    else if workdaysPerWeek <= 5 then 5
    else if workdaysPerWeek == 6 then 6
    else 7
  }

  predicate IsPotentialWorkday(date: Date, workdaysPerWeek: int) {
    if workdaysPerWeek <= 0 then false
    else if workdaysPerWeek <= 5 then Weekday(date) < 5
    else if workdaysPerWeek == 6 then Weekday(date) < 6
    else true
  }

  /** Rounds half away from zero. */
  function Round(x: real): int {
    if x >= 0.0 then (x + 0.5).Floor else -((0.5 - x).Floor)
  }

  /** `weekdays` holds the worked weekdays, Monday being 0; empty means no pattern is recorded
      and only the count `fallbackDaysPerWeek` is known. */
  datatype WorkSchedule = WorkSchedule(weekdays: set<nat>, fallbackDaysPerWeek: int)
  {
    static function WithoutFixedDays(workdaysPerWeek: int): WorkSchedule {
      WorkSchedule({}, workdaysPerWeek)
    }

    predicate HasFixedDays() {
      weekdays != {}
    }

    /** No recorded days and no pool of potential ones either. */
    predicate IsIrregular() {
      !HasFixedDays() && PotentialWorkdaysPerWeek(fallbackDaysPerWeek) == 0
    }

    predicate Covers(date: Date) {
      if !HasFixedDays() then
        IsIrregular() || IsPotentialWorkday(date, fallbackDaysPerWeek)
      else
        Weekday(date) in weekdays
    }

    /** How many days of one ISO week may be charged to a leave account. */
    function WeeklyLeaveCap(): (cap: Option<int>)
      ensures cap.Some? <==> weekdays == {} && fallbackDaysPerWeek >= 1
      ensures cap.Some? ==> cap.value == fallbackDaysPerWeek
    {
      if HasFixedDays() || IsIrregular() then None else Some(fallbackDaysPerWeek)
    }

    function DaysPerWeek(): nat {
      if HasFixedDays() then |weekdays| else PotentialWorkdaysPerWeek(fallbackDaysPerWeek)
    }

    /** Minutes one working day carries. */
    function DayMinutes(weeklyHours: real): int {
      if DaysPerWeek() == 0 || weeklyHours <= 0.0 then 0
      else Round(weeklyHours / DaysPerWeek() as real * 60.0)
    }

    /** What `Fixed` builds: recorded days are Monday to Friday. */
    ghost predicate Recordable() {
      weekdays <= {0, 1, 2, 3, 4}
    }
  }

  /** A contract with known working days, as ISO weekday numbers; one day outside Monday to
      Friday refuses the whole pattern, and so does an empty list. */
  method Fixed(weekdays: seq<int>) returns (schedule: Option<WorkSchedule>)
    ensures schedule.Some? <==> weekdays != [] && forall day | day in weekdays :: 1 <= day <= 5
    ensures schedule.Some? ==>
      && schedule.value.HasFixedDays() && schedule.value.Recordable()
      && forall w: nat :: w in schedule.value.weekdays <==> w + 1 in weekdays
  {
    var bits: set<nat> := {};
    for i := 0 to |weekdays|
      invariant forall k | 0 <= k < i :: 1 <= weekdays[k] <= 5
      invariant forall w: nat :: w in bits <==> w + 1 in weekdays[..i]
      invariant bits <= {0, 1, 2, 3, 4}
      invariant bits == {} <==> i == 0
    {
      var day := weekdays[i];
      if !(1 <= day <= 5) {
        assert day in weekdays;
        return None;
      }
      bits := bits + {day - 1};
    }
    assert weekdays[..|weekdays|] == weekdays;
    if bits == {} {
      return None;
    }
    return Some(WorkSchedule(bits, 0));
  }

  // ---------------------------------------------------------------------
  // Dated histories
  // ---------------------------------------------------------------------

  datatype Dated<T> = Dated(validFrom: Date, value: T)

  function ValidFrom<T>(): Dated<T> -> int {
    (e: Dated<T>) => e.validFrom
  }

  /** The last entry of a sorted list that has begun by `date`. */
  function LastBegun<T>(sorted: seq<Dated<T>>, date: Date): Option<Dated<T>> {
    if sorted == [] then None
    else
      var last := sorted[|sorted| - 1];
      if last.validFrom <= date then Some(last) else LastBegun(sorted[..|sorted| - 1], date)
  }

  /** The entry in force on `date`, found without sorting: the latest one that has begun, and
      of several dated the same day the one listed last. */
  function InForce<T>(entries: seq<Dated<T>>, date: Date): Option<Dated<T>> {
    if entries == [] then None
    else Later(entries[0], InForce(entries[1..], date), date)
  }

  function Later<T>(e: Dated<T>, other: Option<Dated<T>>, date: Date): Option<Dated<T>> {
    if e.validFrom <= date && (other.None? || e.validFrom > other.value.validFrom) then Some(e) else other
  }

  lemma {:induction false} LastBegunIsLate<T(!new)>(sorted: seq<Dated<T>>, date: Date)
    requires Sorted(sorted, ValidFrom())
    ensures LastBegun(sorted, date).None? ==> forall i | 0 <= i < |sorted| :: sorted[i].validFrom > date
    ensures LastBegun(sorted, date).Some? ==>
      && LastBegun(sorted, date).value in sorted
      && LastBegun(sorted, date).value.validFrom <= date
      && forall i | 0 <= i < |sorted| && sorted[i].validFrom <= date ::
           sorted[i].validFrom <= LastBegun(sorted, date).value.validFrom
  {
    if sorted != [] {
      var n := |sorted| - 1;
      forall i | 0 <= i < n ensures sorted[i].validFrom <= sorted[n].validFrom {
        assert ValidFrom()(sorted[i]) <= ValidFrom()(sorted[n]);
      }
      assert Sorted(sorted[..n], ValidFrom()) by {
        forall i, j | 0 <= i < j < n ensures ValidFrom()(sorted[..n][i]) <= ValidFrom()(sorted[..n][j]) {
          assert ValidFrom()(sorted[i]) <= ValidFrom()(sorted[j]);
        }
      }
      LastBegunIsLate(sorted[..n], date);
    }
  }

  lemma {:induction false} LastBegunCons<T(!new)>(e: Dated<T>, rest: seq<Dated<T>>, date: Date)
    ensures LastBegun([e] + rest, date)
         == if LastBegun(rest, date).Some? then LastBegun(rest, date)
            else if e.validFrom <= date then Some(e) else None
  {
    if rest != [] {
      var n := |rest| - 1;
      assert ([e] + rest)[..|rest|] == [e] + rest[..n];
      LastBegunCons(e, rest[..n], date);
    } else {
      assert [e] + rest == [e] && [e][..0] == [];
    }
  }

  lemma SortedTail<T(!new)>(sorted: seq<Dated<T>>)
    requires sorted != [] && Sorted(sorted, ValidFrom())
    ensures Sorted(sorted[1..], ValidFrom())
  {
    var tail := sorted[1..];
    forall i, j | 0 <= i < j < |tail| ensures ValidFrom()(tail[i]) <= ValidFrom()(tail[j]) {
      assert ValidFrom()(sorted[i + 1]) <= ValidFrom()(sorted[j + 1]);
    }
  }

  lemma FirstIsEarliest<T(!new)>(sorted: seq<Dated<T>>, e: Dated<T>)
    requires Sorted(sorted, ValidFrom()) && e in sorted
    ensures sorted[0].validFrom <= e.validFrom
  {
    var k :| 0 <= k < |sorted| && sorted[k] == e;
    assert k == 0 || ValidFrom()(sorted[0]) <= ValidFrom()(sorted[k]);
  }

  lemma {:induction false} LastBegunAfterInsert<T(!new)>(e: Dated<T>, sorted: seq<Dated<T>>, date: Date)
    requires Sorted(sorted, ValidFrom())
    ensures LastBegun(Insert(e, sorted, ValidFrom()), date) == Later(e, LastBegun(sorted, date), date)
  {
    LastBegunIsLate(sorted, date);
    hide Sorted;
    if sorted == [] || e.validFrom <= sorted[0].validFrom {
      LastBegunCons(e, sorted, date);
      if LastBegun(sorted, date).Some? {
        FirstIsEarliest(sorted, LastBegun(sorted, date).value);
      }
    } else {
      var tail := sorted[1..];
      assert sorted == [sorted[0]] + tail;
      SortedTail(sorted);
      LastBegunAfterInsert(e, tail, date);
      LastBegunCons(sorted[0], tail, date);
      LastBegunCons(sorted[0], Insert(e, tail, ValidFrom()), date);
    }
  }

  /** Sorting the entries and searching from the end finds the entry in force. */
  lemma {:induction false} SortedLookup<T(!new)>(entries: seq<Dated<T>>, date: Date)
    ensures LastBegun(SortByKey(entries, ValidFrom()), date) == InForce(entries, date)
  {
    if entries != [] {
      SortedLookup(entries[1..], date);
      SortSorts(entries[1..], ValidFrom());
      LastBegunAfterInsert(entries[0], SortByKey(entries[1..], ValidFrom()), date);
    }
  }

  /** Recording an entry anywhere in the list changes nothing on the dates before it. */
  lemma {:induction false} RecordingLeavesEarlierDates<T(!new)>(
      entries: seq<Dated<T>>, k: nat, e: Dated<T>, date: Date)
    requires k <= |entries| && date < e.validFrom
    ensures InForce(entries[..k] + [e] + entries[k..], date) == InForce(entries, date)
  {
    var more := entries[..k] + [e] + entries[k..];
    if k == 0 {
      assert more[0] == e && more[1..] == entries;
    } else {
      RecordingLeavesEarlierDates(entries[1..], k - 1, e, date);
      assert entries[1..][..k - 1] == entries[1..k] && entries[1..][k - 1..] == entries[k..];
      assert more[0] == entries[0] && more[1..] == entries[1..k] + [e] + entries[k..];
    }
  }

  datatype WorkScheduleHistory = WorkScheduleHistory(entries: seq<Dated<WorkSchedule>>, fallback: WorkSchedule)
  {
    static function New(entries: seq<Dated<WorkSchedule>>, fallback: WorkSchedule): WorkScheduleHistory {
      WorkScheduleHistory(SortByKey(entries, ValidFrom()), fallback)
    }

    static function WithoutHistory(fallback: WorkSchedule): WorkScheduleHistory {
      WorkScheduleHistory([], fallback)
    }

    function On(date: Date): WorkSchedule {
      match LastBegun(entries, date)
      case Some(e) => e.value
      case None => fallback
    }
  }

  datatype WeeklyHoursHistory = WeeklyHoursHistory(entries: seq<Dated<real>>, fallback: real)
  {
    static function New(entries: seq<Dated<real>>, fallback: real): WeeklyHoursHistory {
      WeeklyHoursHistory(SortByKey(entries, ValidFrom()), fallback)
    }

    /** A date before the first entry reads the first entry. */
    function On(date: Date): real {
      match LastBegun(entries, date)
      case Some(e) => e.value
      case None => if entries != [] then entries[0].value else fallback
    }
  }

  /** The entries may arrive in any order: the schedule of a date is that of the latest entry
      that has begun, else the fallback. */
  lemma ScheduleInForce(entries: seq<Dated<WorkSchedule>>, fallback: WorkSchedule, date: Date)
    ensures WorkScheduleHistory.New(entries, fallback).On(date)
         == match InForce(entries, date) case Some(e) => e.value case None => fallback
  {
    SortedLookup(entries, date);
  }

  /** Recording a change of working days never rewrites the dates before it. */
  lemma ScheduleChangeLeavesThePast(
      entries: seq<Dated<WorkSchedule>>, k: nat, e: Dated<WorkSchedule>, fallback: WorkSchedule, date: Date)
    requires k <= |entries| && date < e.validFrom
    ensures WorkScheduleHistory.New(entries[..k] + [e] + entries[k..], fallback).On(date)
         == WorkScheduleHistory.New(entries, fallback).On(date)
  {
    ScheduleInForce(entries, fallback, date);
    ScheduleInForce(entries[..k] + [e] + entries[k..], fallback, date);
    RecordingLeavesEarlierDates(entries, k, e, date);
  }

  /** The first entry after sorting: of the earliest date, and listed first among those. */
  ghost predicate IsEarliest<T(!new)>(entries: seq<Dated<T>>, i: int) {
    && 0 <= i < |entries|
    && (forall j | 0 <= j < |entries| :: entries[i].validFrom <= entries[j].validFrom)
    && (forall j | 0 <= j < i :: entries[i].validFrom < entries[j].validFrom)
  }

  lemma {:induction false} SortedStartsWithEarliest<T(!new)>(entries: seq<Dated<T>>) returns (i: int)
    requires entries != []
    ensures IsEarliest(entries, i) && SortByKey(entries, ValidFrom())[0] == entries[i]
  {
    var tail := entries[1..];
    if tail == [] {
      i := 0;
    } else {
      var j := SortedStartsWithEarliest(tail);
      var first := SortByKey(tail, ValidFrom())[0];
      i := if entries[0].validFrom <= first.validFrom then 0 else j + 1;
      forall m | 0 <= m < |entries| ensures entries[i].validFrom <= entries[m].validFrom {
        if m > 0 { assert tail[m - 1] == entries[m]; }
      }
      forall m | 0 <= m < i ensures entries[i].validFrom < entries[m].validFrom {
        if m > 0 { assert tail[m - 1] == entries[m]; }
      }
    }
  }

  lemma EarliestIsUnique<T(!new)>(entries: seq<Dated<T>>, i: int, j: int)
    requires IsEarliest(entries, i) && IsEarliest(entries, j)
    ensures i == j
  {
    assert entries[i].validFrom <= entries[j].validFrom <= entries[i].validFrom;
  }

  lemma {:induction false} NothingInForce<T(!new)>(entries: seq<Dated<T>>, date: Date)
    requires forall i | 0 <= i < |entries| :: entries[i].validFrom > date
    ensures InForce(entries, date).None?
  {
    if entries != [] {
      forall i | 0 <= i < |entries| - 1 ensures entries[1..][i].validFrom > date {
        assert entries[1..][i] == entries[i + 1];
      }
      NothingInForce(entries[1..], date);
      assert entries[0].validFrom > date;
    }
  }

  lemma HoursInForce(entries: seq<Dated<real>>, fallback: real, date: Date)
    ensures WeeklyHoursHistory.New(entries, fallback).On(date)
         == match InForce(entries, date)
            case Some(e) => e.value
            case None => if entries == [] then fallback else SortByKey(entries, ValidFrom())[0].value
  {
    SortedLookup(entries, date);
  }

  /** Recording a change of weekly hours leaves every earlier date alone when some entry already
      begins before it, or on the same day and listed before it. */
  lemma HoursChangeLeavesThePast(entries: seq<Dated<real>>, k: nat, e: Dated<real>, fallback: real, date: Date)
    requires k <= |entries| && date < e.validFrom
    requires exists i | 0 <= i < |entries| ::
      entries[i].validFrom < e.validFrom || (i < k && entries[i].validFrom == e.validFrom)
    ensures WeeklyHoursHistory.New(entries[..k] + [e] + entries[k..], fallback).On(date)
         == WeeklyHoursHistory.New(entries, fallback).On(date)
  {
    var more := entries[..k] + [e] + entries[k..];
    RecordingLeavesEarlierDates(entries, k, e, date);
    var i := SortedStartsWithEarliest(entries);
    var j := SortedStartsWithEarliest(more);
    var shifted := if i < k then i else i + 1;
    assert more[shifted] == entries[i];
    forall m | 0 <= m < |more| ensures more[shifted].validFrom <= more[m].validFrom {
      if m != k { assert more[m] == entries[if m < k then m else m - 1]; }
    }
    forall m | 0 <= m < shifted ensures more[shifted].validFrom < more[m].validFrom {
      if m != k { assert more[m] == entries[if m < k then m else m - 1]; }
    }
    assert IsEarliest(more, shifted);
    EarliestIsUnique(more, j, shifted);
    HoursInForce(entries, fallback, date);
    HoursInForce(more, fallback, date);
  }

  /** Without such an entry it rewrites all of the past: every earlier date now reads the new
      hours, so it is unchanged exactly when it read the same hours before. The two lemmas cover
      every history between them. */
  lemma FirstHoursRewriteThePast(entries: seq<Dated<real>>, k: nat, e: Dated<real>, fallback: real, date: Date)
    requires k <= |entries| && date < e.validFrom
    requires forall i | 0 <= i < |entries| ::
      entries[i].validFrom > e.validFrom || (i >= k && entries[i].validFrom == e.validFrom)
    ensures WeeklyHoursHistory.New(entries[..k] + [e] + entries[k..], fallback).On(date) == e.value
  {
    var more := entries[..k] + [e] + entries[k..];
    forall m | 0 <= m < |more| ensures more[m].validFrom >= e.validFrom && (m < k ==> more[m].validFrom > e.validFrom) {
      if m != k { assert more[m] == entries[if m < k then m else m - 1]; }
    }
    HoursInForce(more, fallback, date);
    NothingInForce(more, date);
    var j := SortedStartsWithEarliest(more);
    assert more[k] == e;
    assert IsEarliest(more, k);
    EarliestIsUnique(more, j, k);
  }


  // ---------------------------------------------------------------------
  // In plain numbers
  // ---------------------------------------------------------------------

  /** The entry in force is a listed one that begins no later than the date, none that has begun is later,
      and none listed behind it begins the same day; there is none only when all begin after the date. */
  lemma {:induction false} EntryInForce<T(!new)>(entries: seq<Dated<T>>, date: Date) returns (i: int)
    ensures InForce(entries, date).Some? ==>
      && 0 <= i < |entries| && InForce(entries, date) == Some(entries[i]) && entries[i].validFrom <= date
      && (forall j | 0 <= j < |entries| && entries[j].validFrom <= date :: entries[j].validFrom <= entries[i].validFrom)
      && (forall j | i < j < |entries| :: entries[j].validFrom != entries[i].validFrom)
    ensures InForce(entries, date).None? ==> forall j | 0 <= j < |entries| :: entries[j].validFrom > date
  {
    i := 0;
    if entries != [] {
      var k := EntryInForce(entries[1..], date);
      assert forall j | 0 < j < |entries| :: entries[j] == entries[1..][j - 1];
      var rest := InForce(entries[1..], date);
      i := if Later(entries[0], rest, date) == rest && rest.Some? then k + 1 else 0;
    }
  }

  /** Which days a schedule works: the recorded weekdays, else those of the pool, else every day. */
  lemma WorkedDays(s: WorkSchedule, date: Date)
    ensures s.Covers(date) <==>
      if s.weekdays != {} then date % 7 in s.weekdays
      else if s.fallbackDaysPerWeek <= 0 then true
      else if s.fallbackDaysPerWeek <= 5 then date % 7 <= 4
      else if s.fallbackDaysPerWeek == 6 then date % 7 <= 5
      else true
    ensures s.weekdays == {} && s.fallbackDaysPerWeek <= 0 ==> s.DaysPerWeek() == 0
    ensures s.weekdays == {} && 1 <= s.fallbackDaysPerWeek <= 5 ==> s.DaysPerWeek() == 5
    ensures s.weekdays == {} && s.fallbackDaysPerWeek == 6 ==> s.DaysPerWeek() == 6
    ensures s.weekdays == {} && s.fallbackDaysPerWeek >= 7 ==> s.DaysPerWeek() == 7
    ensures s.weekdays != {} ==> s.DaysPerWeek() == |s.weekdays|
  {
  }

  /** The minutes of a working day are its share of the weekly hours to the nearest minute, upwards from
      the half; without weekly hours or working days they are none. */
  lemma DayMinutesAreNearest(s: WorkSchedule, weeklyHours: real)
    ensures weeklyHours <= 0.0 || s.DaysPerWeek() == 0 ==> s.DayMinutes(weeklyHours) == 0
    ensures weeklyHours > 0.0 && s.DaysPerWeek() > 0 ==>
      var share := weeklyHours / s.DaysPerWeek() as real * 60.0;
      s.DayMinutes(weeklyHours) as real - 0.5 <= share < s.DayMinutes(weeklyHours) as real + 0.5
  {
    if weeklyHours > 0.0 && s.DaysPerWeek() > 0 {
      var share := weeklyHours / s.DaysPerWeek() as real;
      assert share >= 0.0;
    }
  }

  /** 37.5 hours on four days are 562.5 minutes a day, which counts as 563. */
  lemma HalfMinutesRoundUp(s: WorkSchedule)
    requires s.DaysPerWeek() == 4
    ensures s.DayMinutes(37.5) == 563
  {
  }
}
