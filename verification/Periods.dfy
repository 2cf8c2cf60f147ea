/** Months as the `YYYY-MM` strings the monthly jobs store and compare. */
module Periods {
  import opened Calendar
  import opened Decimal
  import opened Wrappers

  datatype Month = Month(year: int, month: int)

  predicate ValidMonth(m: Month) {
    1 <= m.month <= 12
  }

  /** Months on one line: consecutive months have consecutive numbers. */
  function Ordinal(m: Month): int {
    12 * m.year + m.month - 1
  }

  function FromOrdinal(n: int): (m: Month)
    ensures ValidMonth(m) && Ordinal(m) == n
  {
    Month(n / 12, n % 12 + 1)
  }

  lemma OrdinalOrder(a: Month, b: Month)
    requires ValidMonth(a) && ValidMonth(b)
    ensures Ordinal(a) == Ordinal(b) <==> a == b
    ensures Ordinal(a) > Ordinal(b) <==> LaterMonth(a, b)
    ensures FromOrdinal(Ordinal(a)) == a
  {
  }

  predicate LaterMonth(a: Month, b: Month) {
    a.year > b.year || (a.year == b.year && a.month > b.month)
  }

  function Preceding(m: Month): Month {
    if m.month == 1 then Month(m.year - 1, 12) else Month(m.year, m.month - 1)
  }

  /** The year on at least four characters, a minus sign counting as one of them. */
  function FormatYear(year: int): string {
    if year >= 0 then ZeroPadded(year, 4) else "-" + ZeroPadded(-year, 3)
  }

  function FormatPeriod(m: Month): string
    requires ValidMonth(m)
  {
    FormatYear(m.year) + "-" + ZeroPadded(m.month, 2)
  }

  /** The text before and after the first `-`. */
  function SplitOnce(s: string): Option<(string, string)> {
    if s == "" then None
    else if s[0] == '-' then Some(("", s[1..]))
    else
      match SplitOnce(s[1..])
      case None => None
      case Some(parts) => Some(([s[0]] + parts.0, parts.1))
  }

  function ParseYearMonth(period: string): (r: Option<Month>)
    ensures r.Some? ==> ValidMonth(r.value) && I32_MIN < r.value.year <= I32_MAX
  {
    match SplitOnce(period)
    case None => None
    case Some(parts) =>
      match ParseI32(parts.0)
      case None => None
      case Some(year) =>
        match ParseU32(parts.1)
        case None => None
        case Some(month) =>
          if !(1 <= month <= 12) || year == I32_MIN then None else Some(Month(year, month))
  }

  // ---------------------------------------------------------------------
  // Formatting and parsing
  // ---------------------------------------------------------------------

  lemma {:induction false} SplitsAtFirstDash(head: string, tail: string)
    requires forall i | 0 <= i < |head| :: head[i] != '-'
    ensures SplitOnce(head + "-" + tail) == Some((head, tail))
  {
    var s := head + "-" + tail;
    if head == "" {
      assert s[0] == '-' && s[1..] == tail;
    } else {
      SplitsAtFirstDash(head[1..], tail);
      assert s[1..] == head[1..] + "-" + tail;
      assert [head[0]] + head[1..] == head;
    }
  }

  lemma {:induction false} SplitHasNoDash(s: string)
    ensures SplitOnce(s).Some? ==> forall i | 0 <= i < |SplitOnce(s).value.0| :: SplitOnce(s).value.0[i] != '-'
  {
    if s != "" && s[0] != '-' {
      SplitHasNoDash(s[1..]);
    }
  }

  /** Parsing undoes formatting exactly for the years that are not negative: a minus sign in
      front of the year is taken for the separator. */
  lemma ParseUndoesFormat(m: Month)
    requires ValidMonth(m) && m.year <= I32_MAX
    ensures ParseYearMonth(FormatPeriod(m)) == Some(m) <==> m.year >= 0
    ensures m.year < 0 ==> ParseYearMonth(FormatPeriod(m)) == None
  {
    var monthText := ZeroPadded(m.month, 2);
    ZeroPaddedOf(m.month, 2);
    assert IsDigit(monthText[0]);
    assert ParseU32(monthText) == Some(m.month);
    if m.year >= 0 {
      var yearText := ZeroPadded(m.year, 4);
      ZeroPaddedOf(m.year, 4);
      assert IsDigit(yearText[0]);
      SplitsAtFirstDash(yearText, monthText);
      assert ParseI32(yearText) == Some(m.year);
    } else {
      var rest := ZeroPadded(-m.year, 3) + "-" + monthText;
      assert FormatPeriod(m) == "-" + rest;
      assert SplitOnce("-" + rest) == Some(("", rest)) by {
        assert ("-" + rest)[0] == '-' && ("-" + rest)[1..] == rest;
      }
    }
  }

  /** No text parses to a negative year. */
  lemma ParsedYearsAreNotNegative(period: string)
    requires ParseYearMonth(period).Some?
    ensures ParseYearMonth(period).value.year >= 0
  {
    SplitHasNoDash(period);
  }

  /** Neither of two years is, as text, overtaken by a later year with more digits. */
  predicate YearTextsInOrder(a: nat, b: nat) {
    var ya, yb := ZeroPadded(a, 4), ZeroPadded(b, 4);
    if |ya| <= |yb| then |ya| == |yb| || !TextLess(yb[..|ya|], ya) else !TextLess(ya[..|yb|], yb)
  }

  lemma ShorterYearText(y: string, longer: string, x: string, z: string)
    requires AllDigits(y) && AllDigits(longer) && |y| < |longer| && x != "" && x[0] == '-'
    ensures TextLess(y + x, longer + z) <==> !TextLess(longer[..|y|], y)
    ensures TextLess(longer + z, y + x) <==> TextLess(longer[..|y|], y)
  {
    var p, q := longer[..|y|], longer[|y|..];
    assert longer + z == p + (q + z) && IsDigit(q[0]) && (q + z)[0] == q[0];
    TextLessConcat(y, p, x, q + z);
    TextLessConcat(p, y, q + z, x);
    TextOrderIsStrict(y, p);
    TextOrderIsStrict(p, y);
    TextOrderIsTotal(y, p);
  }

  /** The order of the texts of two months is the order of the months if and only if their years have
      equally many digits, four at least, or the shorter year is not greater, as text, than the equally
      long beginning of the longer one. */
  lemma TextOrderIsMonthOrderWhen(a: Month, b: Month)
    requires ValidMonth(a) && ValidMonth(b) && a.year >= 0 && b.year >= 0
    ensures (TextLess(FormatPeriod(a), FormatPeriod(b)) <==> Ordinal(a) < Ordinal(b)) <==> YearTextsInOrder(a.year, b.year)
  {
    var ya, yb := ZeroPadded(a.year, 4), ZeroPadded(b.year, 4);
    var ma, mb := "-" + ZeroPadded(a.month, 2), "-" + ZeroPadded(b.month, 2);
    assert FormatPeriod(a) == ya + ma && FormatPeriod(b) == yb + mb;
    ZeroPaddedOf(a.year, 4);
    ZeroPaddedOf(b.year, 4);
    if |ya| < |yb| {
      LongerIsLarger(a.year, b.year, 4);
      ShorterYearText(ya, yb, ma, mb);
    } else if |yb| < |ya| {
      LongerIsLarger(b.year, a.year, 4);
      ShorterYearText(yb, ya, mb, ma);
    } else {
      EqualYearTexts(a, b);
    }
  }

  /** Different months have different texts. */
  lemma TextsDiffer(a: Month, b: Month)
    requires ValidMonth(a) && ValidMonth(b) && a.year >= 0 && b.year >= 0 && a != b
    ensures FormatPeriod(a) != FormatPeriod(b)
  {
    hide FormatPeriod;
    TextOrderIsMonthOrderWhen(a, b);
    TextOrderIsMonthOrderWhen(b, a);
    OrdinalOrder(a, b);
    TextOrderIsStrict(FormatPeriod(a), FormatPeriod(a));
    assert YearTextsInOrder(a.year, b.year) == YearTextsInOrder(b.year, a.year);
  }

  lemma EqualYearTexts(a: Month, b: Month)
    requires ValidMonth(a) && ValidMonth(b) && a.year >= 0 && b.year >= 0
    requires |ZeroPadded(a.year, 4)| == |ZeroPadded(b.year, 4)|
    ensures TextLess(FormatPeriod(a), FormatPeriod(b)) <==> Ordinal(a) < Ordinal(b)
  {
    var ya, yb := ZeroPadded(a.year, 4), ZeroPadded(b.year, 4);
    var ma, mb := ZeroPadded(a.month, 2), ZeroPadded(b.month, 2);
    assert FormatPeriod(a) == ya + ("-" + ma) && FormatPeriod(b) == yb + ("-" + mb);
    ZeroPaddedOf(a.year, 4);
    ZeroPaddedOf(b.year, 4);
    ZeroPaddedOf(a.month, 2);
    ZeroPaddedOf(b.month, 2);
    TextOrderIsValueOrder(ya, yb);
    TextOrderIsValueOrder(ma, mb);
    TextOrderIsStrict("-", "-");
    TextLessConcat("-", "-", ma, mb);
    TextLessConcat(ya, yb, "-" + ma, "-" + mb);
  }

  /** Years of four digits are always in order, and different months have different texts. */
  lemma TextOrderIsMonthOrder(a: Month, b: Month)
    requires ValidMonth(a) && ValidMonth(b) && 0 <= a.year <= 9999 && 0 <= b.year <= 9999
    ensures TextLess(FormatPeriod(a), FormatPeriod(b)) <==> Ordinal(a) < Ordinal(b)
    ensures FormatPeriod(a) == FormatPeriod(b) <==> a == b
  {
    ZeroPaddedOf(a.year, 4);
    ZeroPaddedOf(b.year, 4);
    EqualYearTexts(a, b);
    EqualYearTexts(b, a);
    TextOrderIsStrict(FormatPeriod(a), FormatPeriod(a));
    OrdinalOrder(a, b);
  }

  /** Four-digit and five-digit years are such a pair of lengths: the year 10000 sorts before 9999. */
  lemma TextOrderFailsForFiveDigitYears()
    ensures
      var early, late := Month(9999, 12), Month(10000, 1);
      Ordinal(early) < Ordinal(late) && TextLess(FormatPeriod(late), FormatPeriod(early))
  {
    assert Digits(9999) == Digits(999) + "9" && Digits(999) == Digits(99) + "9" && Digits(99) == Digits(9) + "9";
    assert Digits(10000) == Digits(1000) + "0" && Digits(1000) == Digits(100) + "0";
    assert Digits(100) == Digits(10) + "0" && Digits(10) == Digits(1) + "0";
    assert FormatPeriod(Month(9999, 12))[0] == '9';
    assert FormatPeriod(Month(10000, 1))[0] == '1';
  }

  // ---------------------------------------------------------------------
  // Months of a date
  // ---------------------------------------------------------------------

  function MonthAt(date: Date): Month {
    Month(YearOf(date), MonthOf(date))
  }

  function PreviousPeriod(today: Date): string {
    FormatPeriod(Preceding(MonthAt(today)))
  }

  function CurrentPeriod(today: Date): string {
    FormatPeriod(MonthAt(today))
  }

  function PeriodBefore(period: string): Option<string> {
    match ParseYearMonth(period)
    case None => None
    case Some(m) => Some(FormatPeriod(Preceding(m)))
  }

  /** Unreadable text is never later than anything. */
  predicate PeriodIsAfter(left: string, right: string) {
    match (ParseYearMonth(left), ParseYearMonth(right))
    case (Some(l), Some(r)) => LaterMonth(l, r)
    case _ => false
  }

  /** The last year the date library can represent. */
  const MAX_YEAR := 262142
  const MIN_YEAR := -262143

  predicate Representable(year: int) {
    MIN_YEAR <= year <= MAX_YEAR
  }

  function Following(m: Month): Month {
    if m.month == 12 then Month(m.year + 1, 1) else Month(m.year, m.month + 1)
  }

  function FirstDay(m: Month): Date
    requires ValidMonth(m)
  {
    MonthStart(m.year, m.month)
  }

  /** The day before the first of the next month; 28 when there is no such date. */
  function LastDayOfMonth(m: Month): int
    requires ValidMonth(m)
  {
    if Representable(Following(m).year) then DayOf(FirstDay(Following(m)) - 1) else 28
  }

  lemma FollowingMonth(m: Month)
    requires ValidMonth(m)
    ensures FirstDay(Following(m)) == MonthStart(m.year, m.month + 1) == FirstDay(m) + DaysInMonth(m.year, m.month)
    ensures Following(m) == FromOrdinal(Ordinal(m) + 1)
  {
    hide YearStart, IsLeap;
    DayOfNewYear(m.year);
    OrdinalOrder(Following(m), FromOrdinal(Ordinal(m) + 1));
  }

  lemma DayBeforeFollowing(m: Month)
    requires ValidMonth(m)
    ensures DayOf(FirstDay(Following(m)) - 1) == DaysInMonth(m.year, m.month)
  {
    FollowingMonth(m);
    CivilDate(m.year, m.month, DaysInMonth(m.year, m.month));
  }

  lemma LastDayIsMonthLength(m: Month)
    requires ValidMonth(m) && Representable(m.year)
    ensures LastDayOfMonth(m) == DaysInMonth(m.year, m.month) <==> m != Month(MAX_YEAR, 12)
  {
    DayBeforeFollowing(m);
  }

  lemma DaysOfMonth(m: Month, d: Date)
    requires ValidMonth(m)
    ensures FirstDay(m) <= d < FirstDay(Following(m)) <==> MonthAt(d) == m
  {
    FollowingMonth(m);
    if FirstDay(m) <= d < FirstDay(Following(m)) {
      CivilDate(m.year, m.month, d - FirstDay(m) + 1);
    }
  }

  /** First and last day of a period. */
  function PeriodBounds(period: string): Option<(Date, Date)> {
    match ParseYearMonth(period)
    case None => None
    case Some(m) =>
      if !Representable(m.year) then None else Some((FirstDay(m), FirstDay(m) + LastDayOfMonth(m) - 1))
  }

  lemma BoundsOfText(m: Month)
    requires ValidMonth(m) && 0 <= m.year <= MAX_YEAR + 1
    ensures PeriodBounds(FormatPeriod(m))
         == if m.year <= MAX_YEAR then Some((FirstDay(m), FirstDay(m) + LastDayOfMonth(m) - 1)) else None
  {
    hide FormatPeriod, ParseYearMonth;
    ParseUndoesFormat(m);
  }

  lemma BoundsOfMonth(m: Month)
    requires ValidMonth(m) && 0 <= m.year <= MAX_YEAR && m != Month(MAX_YEAR, 12)
    ensures PeriodBounds(FormatPeriod(m)) == Some((FirstDay(m), FirstDay(Following(m)) - 1))
  {
    hide FirstDay, PeriodBounds, FormatPeriod, LastDayOfMonth;
    BoundsOfText(m);
    LastDayIsMonthLength(m);
    FollowingMonth(m);
  }

  /** Days counted from the first of a month are the month exactly when they are as many as it has. */
  lemma DaysCounted(m: Month, days: int)
    requires ValidMonth(m) && 28 <= days <= DaysInMonth(m.year, m.month)
    ensures (forall d :: FirstDay(m) <= d <= FirstDay(m) + days - 1 <==> MonthAt(d) == m)
       <==> days == DaysInMonth(m.year, m.month)
  {
    hide FirstDay, MonthAt;
    FollowingMonth(m);
    forall d ensures FirstDay(m) <= d < FirstDay(Following(m)) <==> MonthAt(d) == m {
      DaysOfMonth(m, d);
    }
    assert MonthAt(FirstDay(Following(m)) - 1) == m;
  }

  /** The bounds of a month hold exactly its days and those of the next month begin the day after, for
      every month of a year that is not negative but the very last the date library knows: that one loses
      its last days and has no successor. */
  lemma PeriodsAbut(m: Month)
    requires ValidMonth(m) && 0 <= m.year <= MAX_YEAR
    ensures
      var bounds := PeriodBounds(FormatPeriod(m));
      var next := PeriodBounds(FormatPeriod(FromOrdinal(Ordinal(m) + 1)));
      && bounds.Some?
      && ((forall d :: bounds.value.0 <= d <= bounds.value.1 <==> MonthAt(d) == m) <==> m != Month(MAX_YEAR, 12))
      && (next.Some? <==> m != Month(MAX_YEAR, 12))
      && (next.Some? ==> next.value.0 == bounds.value.1 + 1)
  {
    hide FirstDay, MonthAt, FormatPeriod, PeriodBounds;
    FollowingMonth(m);
    BoundsOfText(m);
    BoundsOfText(Following(m));
    LastDayIsMonthLength(m);
    DaysCounted(m, LastDayOfMonth(m));
  }

  // ---------------------------------------------------------------------
  // Catching up on missed months
  // ---------------------------------------------------------------------

  /** The texts of the months numbered `from` to `to`, in order. */
  function PeriodsBetween(from: int, to: int): (periods: seq<string>)
    ensures |periods| == if to < from then 0 else to - from + 1
    decreases if to < from then 0 else to - from + 1
  {
    if to < from then [] else PeriodsBetween(from, to - 1) + [FormatPeriod(FromOrdinal(to))]
  }

  lemma {:induction false} PeriodBetweenAt(from: int, to: int, k: nat)
    requires k < |PeriodsBetween(from, to)|
    ensures PeriodsBetween(from, to)[k] == FormatPeriod(FromOrdinal(from + k))
    decreases if to < from then 0 else to - from + 1
  {
    if k < to - from {
      PeriodBetweenAt(from, to - 1, k);
    }
  }

  lemma PeriodsGrow(from: int, at: Month)
    requires ValidMonth(at) && from <= Ordinal(at) + 1
    ensures Ordinal(Following(at)) == Ordinal(at) + 1
    ensures PeriodsBetween(from, Ordinal(at) + 1)
         == PeriodsBetween(from, Ordinal(at)) + [FormatPeriod(Following(at))]
  {
    OrdinalOrder(Following(at), at);
  }

  /** Advances month by month from `last`; the loop stops on the target and never passes it. */
  method MonthsAfter(last: Month, target: Month) returns (periods: seq<string>)
    requires ValidMonth(last) && ValidMonth(target) && Ordinal(last) < Ordinal(target)
    ensures periods == PeriodsBetween(Ordinal(last) + 1, Ordinal(target))
  {
    hide FormatPeriod, FromOrdinal;
    var at := last;
    periods := [];
    while true
      invariant ValidMonth(at) && Ordinal(last) <= Ordinal(at) < Ordinal(target)
      invariant periods == PeriodsBetween(Ordinal(last) + 1, Ordinal(at))
      decreases Ordinal(target) - Ordinal(at)
    {
      PeriodsGrow(Ordinal(last) + 1, at);
      at := if at.month == 12 then Month(at.year + 1, 1) else Month(at.year, at.month + 1);
      periods := periods + [FormatPeriod(at)];
      if at == target {
        break;
      }
      OrdinalOrder(at, target);
      if LaterMonth(at, target) {
        assert false;
      }
    }
  }

  /** What is still to be queued once both months are readable. */
  function PeriodsAfter(last: Month, wanted: Month, target: string): seq<string> {
    if Ordinal(last) > Ordinal(wanted) then [target] else PeriodsBetween(Ordinal(last) + 1, Ordinal(wanted))
  }

  /** The months a job still has to queue: only the target when nothing usable or something later
      is on record, and otherwise every month after the recorded one up to the target, once each
      and in order. */
  function Backfill(lastQueued: string, target: string): seq<string> {
    var last := ParseYearMonth(lastQueued);
    var wanted := ParseYearMonth(target);
    if lastQueued == "" || last.None? then [target]
    else if wanted.None? then []
    else PeriodsAfter(last.value, wanted.value, target)
  }

  method PeriodsToBackfill(lastQueued: string, target: string) returns (periods: seq<string>)
    ensures periods == Backfill(lastQueued, target)
  {
    hide ParseYearMonth;
    if lastQueued == "" {
      return [target];
    }
    var last := ParseYearMonth(lastQueued);
    if last.None? {
      return [target];
    }
    var wanted := ParseYearMonth(target);
    if wanted.None? {
      return [];
    }
    periods := CatchUp(last.value, wanted.value, target);
  }

  method CatchUp(last: Month, wanted: Month, target: string) returns (periods: seq<string>)
    requires ValidMonth(last) && ValidMonth(wanted)
    ensures periods == PeriodsAfter(last, wanted, target)
  {
    OrdinalOrder(last, wanted);
    OrdinalOrder(wanted, last);
    if LaterMonth(last, wanted) {
      return [target];
    }
    if last == wanted {
      return [];
    }
    periods := MonthsAfter(last, wanted);
  }

  /** Every month queued by a backfill can be read back, so the job never loses its place. */
  lemma BackfilledPeriodsParse(last: Month, target: Month, k: nat)
    requires ValidMonth(last) && ValidMonth(target) && 0 <= last.year && target.year <= I32_MAX
    requires k < Ordinal(target) - Ordinal(last)
    ensures
      var periods := PeriodsBetween(Ordinal(last) + 1, Ordinal(target));
      k < |periods| && ParseYearMonth(periods[k]) == Some(FromOrdinal(Ordinal(last) + 1 + k))
  {
    hide ParseYearMonth, FormatPeriod;
    PeriodBetweenAt(Ordinal(last) + 1, Ordinal(target), k);
    ParseUndoesFormat(FromOrdinal(Ordinal(last) + 1 + k));
  }

  // ---------------------------------------------------------------------
  // The day of month the reports wait for
  // ---------------------------------------------------------------------

  function ClampDay(dayOfMonth: nat): nat {
    if dayOfMonth < 1 then 1 else if dayOfMonth > 28 then 28 else dayOfMonth
  }

  datatype Ceiling = Unrestricted | Through(period: string) | Failed

  /** The newest period a scheduled run may process. */
  function ProcessThroughPeriod(today: Date, dayOfMonth: nat): Ceiling {
    if DayOf(today) >= ClampDay(dayOfMonth) then Unrestricted
    else
      match PeriodBefore(PreviousPeriod(today))
      case None => Failed
      case Some(p) => Through(p)
  }

  predicate PeriodIsDeferred(period: string, ceiling: Ceiling) {
    ceiling.Through? && PeriodIsAfter(period, ceiling.period)
  }

  /** Before the configured day exactly the just-finished month and later ones wait; from that day on
      nothing does. In the first months of the calendar the ceiling itself cannot be read: then nothing
      waits, and in January of the year 0 there is not even a ceiling. */
  lemma OnlyTheLastMonthWaits(today: Date, dayOfMonth: nat, m: Month)
    requires ValidMonth(m) && m.year <= I32_MAX && YearOf(today) <= I32_MAX
    ensures
      var previous := Preceding(MonthAt(today));
      var ceiling := ProcessThroughPeriod(today, dayOfMonth);
      && (ceiling.Failed? <==> DayOf(today) < dayOfMonth && DayOf(today) < 28 && previous.year < 0)
      && (PeriodIsDeferred(FormatPeriod(m), ceiling) <==>
            && DayOf(today) < dayOfMonth && DayOf(today) < 28
            && m.year >= 0 && Preceding(previous).year >= 0
            && Ordinal(m) >= Ordinal(MonthAt(today)) - 1)
  {
    hide FormatPeriod, ParseYearMonth;
    var previous := Preceding(MonthAt(today));
    var ceiling := Preceding(previous);
    ParseUndoesFormat(m);
    ParseUndoesFormat(previous);
    ParseUndoesFormat(ceiling);
  }


  // ---------------------------------------------------------------------
  // In plain text
  // ---------------------------------------------------------------------

  /** A month of a year of four digits is written as `YYYY-MM`. */
  lemma PeriodsHaveSevenCharacters(m: Month)
    requires ValidMonth(m) && 0 <= m.year <= 9999
    ensures
      var text := FormatPeriod(m);
      && |text| == 7 && text[4] == '-'
      && AllDigits(text[..4]) && Value(text[..4]) == m.year
      && AllDigits(text[5..]) && Value(text[5..]) == m.month
  {
    var y, mm := ZeroPadded(m.year, 4), ZeroPadded(m.month, 2);
    ZeroPaddedOf(m.year, 4);
    ZeroPaddedOf(m.month, 2);
    var text := FormatPeriod(m);
    assert text == y + "-" + mm;
    assert text[..4] == y && text[5..] == mm;
  }

  /** Two digit strings with a dash between them are read as their values when these are a year and a month,
      and otherwise not at all. */
  lemma DigitsAreRead(y: string, m: string)
    requires y != "" && m != "" && AllDigits(y) && AllDigits(m)
    ensures ParseYearMonth(y + "-" + m)
         == if Value(y) <= 2147483647 && 1 <= Value(m) <= 12 then Some(Month(Value(y), Value(m))) else None
  {
    SplitsAtFirstDash(y, m);
    assert IsDigit(y[0]) && IsDigit(m[0]);
  }

  /** What is queued for two months that can be read: the target alone when the marker is later, nothing when
      it is the target, and otherwise the months between, as many as there are and each at its place. */
  lemma BackfillCases(last: Month, target: Month, k: nat)
    requires ValidMonth(last) && ValidMonth(target) && 0 <= last.year <= I32_MAX && 0 <= target.year <= I32_MAX
    ensures
      var periods := Backfill(FormatPeriod(last), FormatPeriod(target));
      && (Ordinal(last) > Ordinal(target) ==> periods == [FormatPeriod(target)])
      && (Ordinal(last) <= Ordinal(target) ==> |periods| == Ordinal(target) - Ordinal(last))
      && (k < Ordinal(target) - Ordinal(last) ==>
            k < |periods| && periods[k] == FormatPeriod(FromOrdinal(Ordinal(last) + 1 + k)))
  {
    hide FormatPeriod, ParseYearMonth;
    ParseUndoesFormat(last);
    ParseUndoesFormat(target);
    EmptyIsUnreadable();
    if k < Ordinal(target) - Ordinal(last) {
      PeriodBetweenAt(Ordinal(last) + 1, Ordinal(target), k);
    }
  }

  lemma EmptyIsUnreadable()
    ensures ParseYearMonth("") == None
  {
  }

  /** Without a readable marker only the target is queued, and for an unreadable target nothing after a
      readable one. */
  lemma UnreadableBackfill(lastQueued: string, target: string)
    ensures ParseYearMonth(lastQueued).None? ==> Backfill(lastQueued, target) == [target]
    ensures ParseYearMonth(lastQueued).Some? && ParseYearMonth(target).None? ==> Backfill(lastQueued, target) == []
  {
    EmptyIsUnreadable();
  }


  /** A plus sign is read over in front of either number, a minus sign in front of the month is not. */
  lemma SignsAreRead(y: string, m: string)
    requires y != "" && m != "" && AllDigits(y) && AllDigits(m)
    ensures ParseYearMonth("+" + y + "-" + m) == ParseYearMonth(y + "-" + m)
    ensures ParseYearMonth(y + "-" + "+" + m) == ParseYearMonth(y + "-" + m)
    ensures ParseYearMonth(y + "-" + "-" + m) == None
  {
    SplitsAtFirstDash(y, m);
    SplitsAtFirstDash("+" + y, m);
    SplitsAtFirstDash(y, "+" + m);
    SplitsAtFirstDash(y, "-" + m);
    assert IsDigit(y[0]) && IsDigit(m[0]);
    assert ("+" + y)[1..] == y && ("+" + m)[1..] == m;
    assert y + "-" + "+" + m == y + "-" + ("+" + m);
    assert y + "-" + "-" + m == y + "-" + ("-" + m);
  }
}
