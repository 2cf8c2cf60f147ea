/** The notice that tells the administrators once that a month's report is held back. */
module HoldNotices {
  import opened Decimal
  import opened Periods
  import opened Wrappers

  /** A report held back: its month, counted as in `Periods.Ordinal`, whether the stored marker can be
      read and whether the new one can be saved. */
  datatype Hold = Hold(month: int, readable: bool, saved: bool)

  /** The marker after the decision, and whether the administrators are told. A marker that cannot be
      read counts as empty. */
  function Noticed(marker: string, period: string, readable: bool, saved: bool): (string, bool) {
    var reported := if readable then marker else "";
    if !TextLess(reported, period) then (marker, false)
    else (if saved then period else marker, true)
  }

  class HoldNotice {
    var marker: string

    constructor ()
      ensures marker == ""
    {
      marker := "";
    }

    method NotifyAdminsOfHold(period: string, readable: bool, saved: bool) returns (told: bool)
      modifies this
      ensures (marker, told) == Noticed(old(marker), period, readable, saved)
    {
      var reported := if readable then marker else "";
      if reported == period || TextLess(period, reported) {
        TextOrderIsStrict(reported, period);
        return false;
      }
      TextOrderIsTotal(reported, period);
      if saved {
        marker := period;
      }
      return true;
    }
  }

  // ---------------------------------------------------------------------
  // Months instead of texts
  // ---------------------------------------------------------------------

  predicate FourDigitYear(month: int) {
    0 <= FromOrdinal(month).year <= 9999
  }

  function MarkerText(latest: Option<int>): string {
    if latest.Some? then FormatPeriod(FromOrdinal(latest.value)) else ""
  }

  predicate Told(latest: Option<int>, hold: Hold) {
    !hold.readable || latest.None? || latest.value < hold.month
  }

  function Latest(latest: Option<int>, hold: Hold): Option<int> {
    if Told(latest, hold) && hold.saved then Some(hold.month) else latest
  }

  ghost predicate Sound(latest: Option<int>) {
    latest.Some? ==> FourDigitYear(latest.value)
  }

  /** The decision on the stored texts is the decision on the months if and only if the marker is not
      consulted or its year and the month's are in order as texts. */
  lemma TextsDecideAsMonths(latest: Option<int>, hold: Hold)
    requires hold.month >= 0 && (latest.Some? ==> latest.value >= 0)
    ensures Noticed(MarkerText(latest), FormatPeriod(FromOrdinal(hold.month)), hold.readable, hold.saved)
         == (MarkerText(Latest(latest, hold)), Told(latest, hold))
       <==> !hold.readable || latest.None?
            || YearTextsInOrder(FromOrdinal(latest.value).year, FromOrdinal(hold.month).year)
  {
    assert FormatPeriod(FromOrdinal(hold.month)) != "";
    if latest.Some? {
      TextOrderIsMonthOrderWhen(FromOrdinal(latest.value), FromOrdinal(hold.month));
    }
  }

  /** Years of four digits always are. */
  lemma FourDigitsDecide(latest: Option<int>, hold: Hold)
    requires Sound(latest) && FourDigitYear(hold.month)
    ensures Noticed(MarkerText(latest), FormatPeriod(FromOrdinal(hold.month)), hold.readable, hold.saved)
         == (MarkerText(Latest(latest, hold)), Told(latest, hold))
  {
    TextsDecideAsMonths(latest, hold);
    if latest.Some? {
      ZeroPaddedOf(FromOrdinal(latest.value).year, 4);
      ZeroPaddedOf(FromOrdinal(hold.month).year, 4);
    }
  }

  /** A decision about an earlier month tells the administrators and puts that month in the marker's place
      if and only if it is saved and the marker cannot be read or the two years are out of order as texts. */
  lemma MarkerFalls(latest: int, hold: Hold)
    requires 0 <= hold.month < latest
    ensures
      var period := FormatPeriod(FromOrdinal(hold.month));
      Noticed(MarkerText(Some(latest)), period, hold.readable, hold.saved) == (period, true) <==>
        hold.saved && (!hold.readable || !YearTextsInOrder(FromOrdinal(latest).year, FromOrdinal(hold.month).year))
  {
    hide FormatPeriod, YearTextsInOrder, TextLess;
    YearsNotNegative(latest, hold.month);
    TextOrderIsMonthOrderWhen(FromOrdinal(latest), FromOrdinal(hold.month));
    NothingBeforeEmpty(FromOrdinal(hold.month));
    TextsDiffer(FromOrdinal(latest), FromOrdinal(hold.month));
  }

  lemma NothingBeforeEmpty(m: Month)
    requires ValidMonth(m)
    ensures TextLess("", FormatPeriod(m))
  {
  }

  lemma YearsNotNegative(a: int, b: int)
    requires a >= 0 && b >= 0
    ensures FromOrdinal(a).year >= 0 && FromOrdinal(b).year >= 0
  {
  }

  /** With years of four digits a decision lets the marker fall exactly when the marker cannot be read and an earlier month is
      saved in its place; the administrators are then told about that earlier month. */
  lemma MarkerFallsOnlyUnread(latest: int, hold: Hold)
    requires FourDigitYear(latest) && FourDigitYear(hold.month)
    ensures
      var (after, told) :=
        Noticed(MarkerText(Some(latest)), FormatPeriod(FromOrdinal(hold.month)), hold.readable, hold.saved);
      TextLess(after, MarkerText(Some(latest))) <==> !hold.readable && hold.saved && hold.month < latest
  {
    FourDigitsDecide(Some(latest), hold);
    TextOrderIsMonthOrder(FromOrdinal(hold.month), FromOrdinal(latest));
    TextOrderIsStrict(MarkerText(Some(latest)), "");
  }

  // ---------------------------------------------------------------------
  // All nights
  // ---------------------------------------------------------------------

  /** The marker after a sequence of held reports. */
  function MarkerAfter(marker: string, holds: seq<Hold>): string
    decreases |holds|
  {
    if holds == [] then marker
    else
      var period := FormatPeriod(FromOrdinal(holds[0].month));
      MarkerAfter(Noticed(marker, period, holds[0].readable, holds[0].saved).0, holds[1..])
  }

  /** The months the administrators are told about, in order. */
  function Notices(marker: string, holds: seq<Hold>): seq<int>
    decreases |holds|
  {
    if holds == [] then []
    else
      var period := FormatPeriod(FromOrdinal(holds[0].month));
      var (after, told) := Noticed(marker, period, holds[0].readable, holds[0].saved);
      (if told then [holds[0].month] else []) + Notices(after, holds[1..])
  }

  ghost predicate Increasing(months: seq<int>) {
    forall i, j | 0 <= i < j < |months| :: months[i] < months[j]
  }

  /** While the marker can be read it never falls and nobody is told about a month up to it; when it
      can be saved too, the notices rise strictly, so however many nights a report is held no month is
      announced twice, and in the end every held month is covered. */
  lemma {:induction false} NoticesRise(latest: Option<int>, holds: seq<Hold>) returns (last: Option<int>)
    requires Sound(latest)
    requires forall i | 0 <= i < |holds| :: FourDigitYear(holds[i].month) && holds[i].readable
    ensures Sound(last) && MarkerAfter(MarkerText(latest), holds) == MarkerText(last)
    ensures latest.Some? ==> last.Some? && latest.value <= last.value
    ensures latest.Some? ==> forall m | m in Notices(MarkerText(latest), holds) :: latest.value < m
    ensures (forall i | 0 <= i < |holds| :: holds[i].saved) ==>
      && Increasing(Notices(MarkerText(latest), holds))
      && forall i | 0 <= i < |holds| :: last.Some? && holds[i].month <= last.value
    decreases |holds|
  {
    hide Noticed, FormatPeriod, MarkerText, TextLess, FourDigitYear;
    if holds == [] {
      last := latest;
    } else {
      FourDigitsDecide(latest, holds[0]);
      last := NoticesRise(Latest(latest, holds[0]), holds[1..]);
      var later := Notices(MarkerText(Latest(latest, holds[0])), holds[1..]);
      assert forall i | 0 < i < |holds| :: holds[i] == holds[1..][i - 1];
      if Told(latest, holds[0]) && holds[0].saved {
        forall j | 0 <= j < |later| ensures holds[0].month < later[j] {
          assert later[j] in later;
        }
      }
    }
  }
}
