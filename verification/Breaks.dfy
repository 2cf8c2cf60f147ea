/** The automatic break deduction of one day.
    Clock times are seconds after midnight. */
module Breaks {
  import opened Numbers
  import opened Sorting
  import opened Wrappers

  datatype Interval = Interval(start: int, end: int)

  datatype Rule = Rule(threshold: int, deduction: int)

  /** Integer division as Rust performs it: the quotient is cut towards zero. */
  function TruncatedDiv(a: int, b: int): int
    requires b > 0
  {
    if a >= 0 then a / b else -(-a / b)
  }

  function Minutes(e: Interval): int {
    TruncatedDiv(e.end - e.start, 60)
  }

  function StartOf(): Interval -> int {
    (e: Interval) => e.start
  }

  /** What the entry form lets through: an entry ends after it starts. */
  ghost predicate Proper(entries: seq<Interval>) {
    forall i | 0 <= i < |entries| :: entries[i].start < entries[i].end
  }

  predicate At(e: Interval, t: int) {
    e.start <= t < e.end
  }

  /** Some entry is running at second `t`. */
  ghost predicate Worked(entries: seq<Interval>, t: int) {
    exists i | 0 <= i < |entries| :: At(entries[i], t)
  }

  ghost predicate SameTimeWorked(a: seq<Interval>, b: seq<Interval>) {
    forall t :: Worked(a, t) <==> Worked(b, t)
  }

  // ---------------------------------------------------------------------
  // Merging entries into blocks
  // ---------------------------------------------------------------------

  /** One step of the merge: extend the last block or open a new one. */
  function Merge(blocks: seq<Interval>, e: Interval): seq<Interval> {
    if blocks != [] && e.start <= blocks[|blocks| - 1].end then
      var last := blocks[|blocks| - 1];
      blocks[|blocks| - 1 := last.(end := Max(last.end, e.end))]
    else
      blocks + [e]
  }

  function Blocks(sorted: seq<Interval>): seq<Interval> {
    if sorted == [] then [] else Merge(Blocks(sorted[..|sorted| - 1]), sorted[|sorted| - 1])
  }

  /** Non-empty blocks in order, with a real pause between any two of them. */
  ghost predicate Separated(blocks: seq<Interval>) {
    && Proper(blocks)
    && forall i, j | 0 <= i < j < |blocks| :: blocks[i].end < blocks[j].start
  }

  lemma WorkedSplit(front: seq<Interval>, e: Interval, t: int)
    ensures Worked(front + [e], t) <==> Worked(front, t) || At(e, t)
  {
    var all := front + [e];
    if Worked(front, t) {
      var i :| 0 <= i < |front| && At(front[i], t);
      assert At(all[i], t);
    }
    if At(e, t) {
      assert At(all[|front|], t);
    }
  }

  lemma SeparatedSplit(front: seq<Interval>, e: Interval)
    ensures Separated(front + [e]) <==>
      Separated(front) && e.start < e.end && forall i | 0 <= i < |front| :: front[i].end < e.start
  {
    var all := front + [e];
    if Separated(all) {
      assert all[|front|] == e;
      forall i | 0 <= i < |front| ensures front[i].start < front[i].end && front[i].end < e.start {
        assert all[i] == front[i];
      }
      forall i, j | 0 <= i < j < |front| ensures front[i].end < front[j].start {
        assert all[i] == front[i] && all[j] == front[j];
      }
    }
  }

  lemma MergeKeepsBlocks(blocks: seq<Interval>, e: Interval)
    requires Separated(blocks) && e.start < e.end
    requires blocks != [] ==> blocks[|blocks| - 1].start <= e.start
    ensures Separated(Merge(blocks, e))
    ensures forall t :: Worked(Merge(blocks, e), t) <==> Worked(blocks, t) || At(e, t)
  {
    var n := |blocks| - 1;
    if blocks != [] {
      var front, last := blocks[..n], blocks[n];
      assert blocks == front + [last];
      SeparatedSplit(front, last);
      if e.start <= last.end {
        var longer := last.(end := Max(last.end, e.end));
        assert Merge(blocks, e) == front + [longer];
        SeparatedSplit(front, longer);
        forall t ensures Worked(Merge(blocks, e), t) <==> Worked(blocks, t) || At(e, t) {
          WorkedSplit(front, last, t);
          WorkedSplit(front, longer, t);
        }
        return;
      }
    }
    SeparatedSplit(blocks, e);
    forall t ensures Worked(Merge(blocks, e), t) <==> Worked(blocks, t) || At(e, t) {
      WorkedSplit(blocks, e, t);
    }
  }

  ghost predicate AscendingStarts(entries: seq<Interval>) {
    forall i, j | 0 <= i < j < |entries| :: entries[i].start <= entries[j].start
  }

  ghost predicate MaximalBlocks(blocks: seq<Interval>, entries: seq<Interval>) {
    && Separated(blocks)
    && SameTimeWorked(blocks, entries)
  }

  /** The last block starts no later than the last entry. */
  predicate EndsBehind(blocks: seq<Interval>, sorted: seq<Interval>) {
    sorted != [] ==> blocks != [] && blocks[|blocks| - 1].start <= sorted[|sorted| - 1].start
  }

  /** The merge yields the maximal blocks of the time worked. */
  lemma {:induction false} BlocksAreMaximal(sorted: seq<Interval>)
    requires Proper(sorted) && AscendingStarts(sorted)
    ensures MaximalBlocks(Blocks(sorted), sorted) && EndsBehind(Blocks(sorted), sorted)
  {
    if sorted != [] {
      var n := |sorted| - 1;
      BlocksAreMaximal(sorted[..n]);
      assert sorted == sorted[..n] + [sorted[n]];
      MergeKeepsMaximal(Blocks(sorted[..n]), sorted[..n], sorted[n]);
    }
  }

  lemma MergeKeepsMaximal(blocks: seq<Interval>, front: seq<Interval>, e: Interval)
    requires MaximalBlocks(blocks, front) && EndsBehind(blocks, front) && e.start < e.end
    requires front == [] ==> blocks == []
    requires front != [] ==> front[|front| - 1].start <= e.start
    ensures MaximalBlocks(Merge(blocks, e), front + [e]) && EndsBehind(Merge(blocks, e), front + [e])
  {
    MergeKeepsBlocks(blocks, e);
    forall t ensures Worked(Merge(blocks, e), t) <==> Worked(front + [e], t) {
      WorkedSplit(front, e, t);
    }
  }

  lemma FirstBlockLeads(blocks: seq<Interval>, t: int)
    requires Separated(blocks) && Worked(blocks, t)
    ensures blocks[0].start <= t
    ensures t <= blocks[0].end ==> t < blocks[0].end
    ensures t >= blocks[0].end ==> Worked(blocks[1..], t)
  {
    var i :| 0 <= i < |blocks| && At(blocks[i], t);
    if i > 0 {
      assert blocks[0].end < blocks[i].start;
      assert blocks[1..][i - 1] == blocks[i];
    }
  }

  /** Separated blocks are determined by the time they cover. */
  lemma {:induction false} BlocksAreUnique(a: seq<Interval>, b: seq<Interval>)
    requires Separated(a) && Separated(b) && SameTimeWorked(a, b)
    ensures a == b
  {
    if a == [] || b == [] {
      NothingWorked(a, b);
      NothingWorked(b, a);
    } else {
      assert At(a[0], a[0].start) && At(b[0], b[0].start);
      FirstBlockLeads(b, a[0].start);
      FirstBlockLeads(a, b[0].start);
      FirstBlockNotLonger(a, b);
      FirstBlockNotLonger(b, a);
      assert a[0] == b[0];
      forall t ensures Worked(a[1..], t) <==> Worked(b[1..], t) {
        TailWorked(a, t);
        TailWorked(b, t);
      }
      BlocksAreUnique(a[1..], b[1..]);
      assert a == [a[0]] + a[1..] && b == [b[0]] + b[1..];
    }
  }

  lemma NothingWorked(a: seq<Interval>, b: seq<Interval>)
    requires Proper(b) && SameTimeWorked(a, b)
    ensures a == [] ==> b == []
  {
    if b != [] {
      assert At(b[0], b[0].start);
      assert Worked(b, b[0].start);
    }
  }

  lemma FirstBlockNotLonger(a: seq<Interval>, b: seq<Interval>)
    requires Separated(a) && Separated(b) && a != [] && b != []
    requires forall t | Worked(a, t) :: Worked(b, t)
    requires a[0].start < b[0].end
    ensures a[0].end <= b[0].end
  {
    if b[0].end < a[0].end {
      assert At(a[0], b[0].end);
      FirstBlockLeads(b, b[0].end);
    }
  }

  lemma TailWorked(a: seq<Interval>, t: int)
    requires Separated(a) && a != []
    ensures Worked(a[1..], t) <==> Worked(a, t) && t >= a[0].end
  {
    if Worked(a[1..], t) {
      var i :| 0 <= i < |a[1..]| && At(a[1..][i], t);
      assert At(a[i + 1], t);
    }
    if Worked(a, t) && t >= a[0].end {
      FirstBlockLeads(a, t);
    }
  }

  // ---------------------------------------------------------------------
  // The deduction
  // ---------------------------------------------------------------------

  function WorkedMinutes(blocks: seq<Interval>): int {
    if blocks == [] then 0 else Minutes(blocks[0]) + WorkedMinutes(blocks[1..])
  }

  ghost predicate Exceeds(rules: seq<Rule>, i: int, worked: int) {
    0 <= i < |rules| && worked > rules[i].threshold
  }

  /** Rule `i` decides: nothing that is exceeded has a greater threshold, and among
      equal thresholds it is the one listed last. */
  ghost predicate Decides(rules: seq<Rule>, i: int, worked: int) {
    && Exceeds(rules, i, worked)
    && forall j | Exceeds(rules, j, worked) ::
         && rules[j].threshold <= rules[i].threshold
         && (j > i ==> rules[j].threshold < rules[i].threshold)
  }

  /** The minutes of break that `worked` minutes of work call for. */
  function Required(rules: seq<Rule>, worked: int): (r: int)
    ensures (exists i :: Exceeds(rules, i, worked)) || r == 0
    ensures forall i | Decides(rules, i, worked) :: r == rules[i].deduction
  {
    match DecidingRule(rules, worked)
    case None => 0
    case Some(i) => rules[i].deduction
  }

  function DecidingRule(rules: seq<Rule>, worked: int): (r: Option<nat>)
    ensures r.Some? ==> Decides(rules, r.value, worked)
    ensures r.None? ==> forall i :: !Exceeds(rules, i, worked)
  {
    if rules == [] then None
    else
      var n := |rules| - 1;
      var front := rules[..n];
      var best := DecidingRule(front, worked);
      assert forall j | 0 <= j < n :: Exceeds(rules, j, worked) <==> Exceeds(front, j, worked);
      assert forall j | Exceeds(rules, j, worked) :: j < n || j == n;
      if worked > rules[n].threshold && (best.None? || front[best.value].threshold <= rules[n].threshold)
      then Some(n) else best
  }

  /** The deduction as a function of the maximal blocks of the day. */
  function DeductionOf(blocks: seq<Interval>, rules: seq<Rule>): int
    requires blocks != []
  {
    var worked := WorkedMinutes(blocks);
    var span := Minutes(Interval(blocks[0].start, blocks[|blocks| - 1].end));
    Max(Required(rules, worked) - Max(span - worked, 0), 0)
  }

  function DayAutoBreak(entries: seq<Interval>, rules: seq<Rule>): int {
    if entries == [] || rules == [] then 0
    else
      var blocks := Blocks(SortByKey(entries, StartOf()));
      if blocks == [] then 0 else DeductionOf(blocks, rules)
  }

  lemma {:induction false} WorkedMinutesAppend(blocks: seq<Interval>, e: Interval)
    ensures WorkedMinutes(blocks + [e]) == WorkedMinutes(blocks) + Minutes(e)
  {
    if blocks == [] {
      assert WorkedMinutes([e]) == Minutes(e) + WorkedMinutes([e][1..]);
      assert [] + [e] == [e];
    } else {
      WorkedMinutesAppend(blocks[1..], e);
      assert (blocks + [e])[1..] == blocks[1..] + [e];
    }
  }

  lemma BlocksStep(sorted: seq<Interval>, n: nat)
    requires n < |sorted|
    ensures Blocks(sorted[..n + 1]) == Merge(Blocks(sorted[..n]), sorted[n])
  {
    assert sorted[..n + 1][..n] == sorted[..n];
  }

  /** The in-place merge loop of the deduction. */
  method MergeIntoBlocks(sorted: seq<Interval>) returns (blocks: seq<Interval>)
    ensures blocks == Blocks(sorted)
    ensures sorted != [] ==> blocks != []
  {
    blocks := [];
    for n := 0 to |sorted|
      invariant blocks == Blocks(sorted[..n])
      invariant n > 0 ==> blocks != []
    {
      BlocksStep(sorted, n);
      var e := sorted[n];
      if blocks != [] {
        var last := blocks[|blocks| - 1];
        if e.start <= last.end {
          if e.end > last.end {
            blocks := blocks[|blocks| - 1 := last.(end := e.end)];
          }
          continue;
        }
      }
      blocks := blocks + [e];
    }
    assert sorted[..|sorted|] == sorted;
  }

  method SumMinutes(blocks: seq<Interval>) returns (worked: int)
    ensures worked == WorkedMinutes(blocks)
  {
    worked := 0;
    for n := 0 to |blocks|
      invariant worked == WorkedMinutes(blocks[..n])
    {
      WorkedMinutesAppend(blocks[..n], blocks[n]);
      assert blocks[..n + 1] == blocks[..n] + [blocks[n]];
      worked := worked + TruncatedDiv(blocks[n].end - blocks[n].start, 60);
    }
    assert blocks[..|blocks|] == blocks;
  }

  method ComputeDayAutoBreak(entries: seq<Interval>, rules: seq<Rule>) returns (deduction: int)
    ensures deduction == DayAutoBreak(entries, rules)
  {
    if entries == [] || rules == [] {
      return 0;
    }
    var blocks := MergeIntoBlocks(SortByKey(entries, StartOf()));
    var worked := SumMinutes(blocks);
    var span := TruncatedDiv(blocks[|blocks| - 1].end - blocks[0].start, 60);
    var taken := Max(span - worked, 0);
    return Max(Required(rules, worked) - taken, 0);
  }

  // ---------------------------------------------------------------------
  // What the deduction depends on
  // ---------------------------------------------------------------------

  lemma WorkedByMembers(a: seq<Interval>, b: seq<Interval>, t: int)
    requires forall e :: e in a ==> e in b
    ensures Worked(a, t) ==> Worked(b, t)
  {
    if Worked(a, t) {
      var i :| 0 <= i < |a| && At(a[i], t);
      assert a[i] in b;
      var j :| 0 <= j < |b| && b[j] == a[i];
    }
  }

  lemma DayBlocks(entries: seq<Interval>) returns (blocks: seq<Interval>)
    requires Proper(entries) && entries != []
    ensures blocks != [] && blocks == Blocks(SortByKey(entries, StartOf()))
    ensures Separated(blocks) && SameTimeWorked(blocks, entries)
  {
    var sorted := SortByKey(entries, StartOf());
    SortSorts(entries, StartOf());
    assert AscendingStarts(sorted) by {
      forall i, j | 0 <= i < j < |sorted| ensures sorted[i].start <= sorted[j].start {
        assert StartOf()(sorted[i]) <= StartOf()(sorted[j]);
      }
    }
    assert Proper(sorted) by {
      forall i | 0 <= i < |sorted| ensures sorted[i].start < sorted[i].end {
        assert sorted[i] in entries;
      }
    }
    BlocksAreMaximal(sorted);
    blocks := Blocks(sorted);
    forall t ensures Worked(sorted, t) <==> Worked(entries, t) {
      WorkedByMembers(sorted, entries, t);
      WorkedByMembers(entries, sorted, t);
    }
  }

  /** Only the time worked matters, to the second: reordering entries, listing one twice or
      cutting one in two never changes the deduction. */
  lemma DeductionDependsOnTimeWorked(a: seq<Interval>, b: seq<Interval>, rules: seq<Rule>)
    requires Proper(a) && Proper(b) && SameTimeWorked(a, b)
    ensures DayAutoBreak(a, rules) == DayAutoBreak(b, rules)
  {
    NothingWorked(a, b);
    NothingWorked(b, a);
    if a != [] && b != [] {
      var ba := DayBlocks(a);
      var bb := DayBlocks(b);
      BlocksAreUnique(ba, bb);
    }
  }

  lemma ReorderingChangesNothing(a: seq<Interval>, b: seq<Interval>, rules: seq<Rule>)
    requires Proper(a) && Proper(b)
    requires forall e :: e in a <==> e in b
    ensures DayAutoBreak(a, rules) == DayAutoBreak(b, rules)
  {
    forall t ensures Worked(a, t) <==> Worked(b, t) {
      WorkedByMembers(a, b, t);
      WorkedByMembers(b, a, t);
    }
    DeductionDependsOnTimeWorked(a, b, rules);
  }

  lemma CuttingChangesNothing(front: seq<Interval>, e: Interval, cut: int, back: seq<Interval>, rules: seq<Rule>)
    requires Proper(front + [e] + back) && e.start < cut < e.end
    ensures DayAutoBreak(front + [e] + back, rules)
         == DayAutoBreak(front + [Interval(e.start, cut), Interval(cut, e.end)] + back, rules)
  {
    var whole := front + [e] + back;
    var left, right := Interval(e.start, cut), Interval(cut, e.end);
    var parts := front + [left, right] + back;
    forall i | 0 <= i < |parts| ensures parts[i].start < parts[i].end {
      if i < |front| {
        assert parts[i] == whole[i];
      } else if i >= |front| + 2 {
        assert parts[i] == whole[i - 1];
      }
    }
    forall t ensures Worked(whole, t) <==> Worked(parts, t) {
      assert whole[|front|] == e && parts[|front|] == left && parts[|front| + 1] == right;
      if Worked(whole, t) {
        var i :| 0 <= i < |whole| && At(whole[i], t);
        if i < |front| { assert parts[i] == whole[i]; }
        else if i > |front| { assert parts[i + 1] == whole[i]; }
        else if t < cut { assert At(parts[|front|], t); }
        else { assert At(parts[|front| + 1], t); }
      }
      if Worked(parts, t) {
        var i :| 0 <= i < |parts| && At(parts[i], t);
        if i < |front| { assert whole[i] == parts[i]; }
        else if i > |front| + 1 { assert whole[i - 1] == parts[i]; }
        else { assert At(whole[|front|], t); }
      }
    }
    DeductionDependsOnTimeWorked(whole, parts, rules);
  }

  // ---------------------------------------------------------------------
  // Counting seconds: the deduction without blocks
  // ---------------------------------------------------------------------

  function Seconds(from: int, to: int): (s: set<int>)
    ensures forall t :: t in s <==> from <= t < to
    ensures |s| == Max(to - from, 0)
    decreases Max(to - from, 0)
  {
    if to <= from then {} else Seconds(from, to - 1) + {to - 1}
  }

  /** Every second of the day at which some entry is running. */
  function SecondsWorked(entries: seq<Interval>): set<int> {
    if entries == [] then {}
    else
      var n := |entries| - 1;
      SecondsWorked(entries[..n]) + Seconds(entries[n].start, entries[n].end)
  }

  lemma {:induction false} SecondsWorkedAt(entries: seq<Interval>, t: int)
    ensures t in SecondsWorked(entries) <==> Worked(entries, t)
  {
    if entries != [] {
      var n := |entries| - 1;
      assert entries == entries[..n] + [entries[n]];
      SecondsWorkedAt(entries[..n], t);
      WorkedSplit(entries[..n], entries[n], t);
    }
  }

  ghost predicate MinuteGranular(entries: seq<Interval>) {
    forall i | 0 <= i < |entries| :: entries[i].start % 60 == 0 && entries[i].end % 60 == 0
  }

  lemma {:induction false} WorkedMinutesCountSeconds(blocks: seq<Interval>)
    requires Separated(blocks) && MinuteGranular(blocks)
    ensures 60 * WorkedMinutes(blocks) == |SecondsWorked(blocks)|
  {
    if blocks != [] {
      var n := |blocks| - 1;
      var front, last := blocks[..n], blocks[n];
      assert blocks == front + [last];
      assert MinuteGranular(front);
      SeparatedSplit(front, last);
      WorkedMinutesCountSeconds(front);
      WorkedMinutesAppend(front, last);
      SecondsApart(front, last);
      WholeMinutes(last);
    }
  }

  lemma SecondsApart(front: seq<Interval>, last: Interval)
    requires Separated(front + [last])
    ensures |SecondsWorked(front) + Seconds(last.start, last.end)|
         == |SecondsWorked(front)| + last.end - last.start
  {
    SeparatedSplit(front, last);
    forall t | t in SecondsWorked(front) ensures t !in Seconds(last.start, last.end) {
      SecondsWorkedAt(front, t);
    }
    assert SecondsWorked(front) !! Seconds(last.start, last.end);
  }

  lemma WholeMinutes(e: Interval)
    requires e.start % 60 == 0 && e.end % 60 == 0
    ensures 60 * Minutes(e) == e.end - e.start
  {
  }

  /** Merging whole-minute entries gives whole-minute blocks. */
  lemma {:induction false} BlocksStayGranular(sorted: seq<Interval>)
    requires MinuteGranular(sorted)
    ensures MinuteGranular(Blocks(sorted))
  {
    if sorted != [] {
      BlocksStayGranular(sorted[..|sorted| - 1]);
    }
  }

  /** The day runs from `first` to `last`: both are edges of work and nothing lies outside. */
  ghost predicate Spans(entries: seq<Interval>, first: int, last: int) {
    && Worked(entries, first) && Worked(entries, last - 1)
    && forall t | Worked(entries, t) :: first <= t < last
  }

  lemma BlocksSpan(blocks: seq<Interval>, entries: seq<Interval>)
    requires blocks != [] && Separated(blocks) && SameTimeWorked(blocks, entries)
    ensures Spans(entries, blocks[0].start, blocks[|blocks| - 1].end)
  {
    var n := |blocks| - 1;
    assert blocks[0].start <= blocks[0].start < blocks[0].end;
    assert blocks[n].start <= blocks[n].end - 1 < blocks[n].end;
    assert Worked(blocks, blocks[0].start) && Worked(blocks, blocks[n].end - 1);
    forall t | Worked(entries, t) ensures blocks[0].start <= t < blocks[n].end {
      assert Worked(blocks, t);
      var i :| 0 <= i < |blocks| && At(blocks[i], t);
      if i < n {
        assert blocks[i].end < blocks[n].start;
      }
      if i > 0 {
        assert blocks[0].end < blocks[i].start;
      }
    }
  }

  /** The break still owed after `worked` seconds of work and `paused` seconds of pauses. */
  function Shortfall(rules: seq<Rule>, worked: int, paused: int): int {
    Max(Required(rules, worked / 60) - paused / 60, 0)
  }

  /** For whole-minute entries the deduction is what the minutes worked call for, less the
      minutes of the day's span in which nobody worked, and never negative. */
  lemma DeductionCountsMinutes(entries: seq<Interval>, rules: seq<Rule>, first: int, last: int)
    requires Proper(entries) && MinuteGranular(entries) && Spans(entries, first, last) && rules != []
    ensures
      var worked := SecondsWorked(entries);
      var pauses := Seconds(first, last) - worked;
      DayAutoBreak(entries, rules) == Shortfall(rules, |worked|, |pauses|)
  {
    var blocks := DayBlocks(entries);
    DayBlocksGranular(entries);
    BlocksSpan(blocks, entries);
    SpanIsUnique(entries, first, last, blocks[0].start, blocks[|blocks| - 1].end);
    SameSeconds(blocks, entries);
    SecondsInSpan(entries, first, last);
    BlockDeduction(blocks, rules, |SecondsWorked(entries)|, |Seconds(first, last) - SecondsWorked(entries)|);
  }

  lemma DayBlocksGranular(entries: seq<Interval>)
    requires MinuteGranular(entries)
    ensures MinuteGranular(Blocks(SortByKey(entries, StartOf())))
  {
    var sorted := SortByKey(entries, StartOf());
    forall i | 0 <= i < |sorted| ensures sorted[i].start % 60 == 0 && sorted[i].end % 60 == 0 {
      assert sorted[i] in entries;
    }
    BlocksStayGranular(sorted);
  }

  lemma SpanIsUnique(entries: seq<Interval>, a: int, b: int, c: int, d: int)
    requires Spans(entries, a, b) && Spans(entries, c, d)
    ensures a == c && b == d
  {
  }

  lemma BlockDeduction(blocks: seq<Interval>, rules: seq<Rule>, worked: int, paused: int)
    requires Separated(blocks) && MinuteGranular(blocks) && blocks != []
    requires worked == |SecondsWorked(blocks)| && paused >= 0
    requires worked + paused == blocks[|blocks| - 1].end - blocks[0].start
    ensures DeductionOf(blocks, rules) == Shortfall(rules, worked, paused)
  {
    WorkedMinutesCountSeconds(blocks);
    var day := Interval(blocks[0].start, blocks[|blocks| - 1].end);
    WholeMinutes(day);
    WholeMinutesDiffer(WorkedMinutes(blocks), Minutes(day), worked, paused);
  }

  lemma WholeMinutesDiffer(a: int, b: int, worked: int, paused: int)
    requires 60 * a == worked && worked + paused == 60 * b && paused >= 0
    ensures worked / 60 == a && paused / 60 == b - a >= 0
  {
  }

  lemma SameSeconds(blocks: seq<Interval>, entries: seq<Interval>)
    requires SameTimeWorked(blocks, entries)
    ensures SecondsWorked(blocks) == SecondsWorked(entries)
  {
    forall t ensures t in SecondsWorked(blocks) <==> t in SecondsWorked(entries) {
      SecondsWorkedAt(blocks, t);
      SecondsWorkedAt(entries, t);
    }
  }

  lemma SecondsInSpan(entries: seq<Interval>, first: int, last: int)
    requires Spans(entries, first, last)
    ensures |Seconds(first, last) - SecondsWorked(entries)| == last - first - |SecondsWorked(entries)| >= 0
  {
    var span, worked := Seconds(first, last), SecondsWorked(entries);
    hide SecondsWorked, Seconds;
    forall t | t in worked ensures t in span {
      SecondsWorkedAt(entries, t);
    }
    SecondsWorkedAt(entries, first);
    SubsetDifference(span, worked);
  }

  lemma SubsetDifference(all: set<int>, part: set<int>)
    requires part <= all
    ensures |all - part| == |all| - |part| >= 0
  {
    assert all == (all - part) + part;
  }

  // ---------------------------------------------------------------------
  // Working through a pause never lowers the deduction
  // ---------------------------------------------------------------------

  lemma MinutesSuperadditive(a: int, b: int)
    requires a >= 0 && b >= 0
    ensures a / 60 + b / 60 <= (a + b) / 60
  {
  }

  lemma MinutesMonotone(a: int, b: int)
    requires 0 <= a <= b
    ensures 0 <= a / 60 <= b / 60
  {
  }

  /** Blocks lying inside one long block and the blocks after it add up to no more. */
  lemma {:induction false} CoveredBlocksAreShorter(small: seq<Interval>, from: int, large: seq<Interval>)
    requires Separated(small) && Separated(large) && large != []
    requires large[0].start <= from <= large[0].end
    requires forall i | 0 <= i < |small| :: from <= small[i].start
    requires forall t | Worked(small, t) :: Worked(large, t)
    ensures WorkedMinutes(small) <= (large[0].end - from) / 60 + WorkedMinutes(large[1..])
    decreases |small| + |large|
  {
    if small == [] {
      WorkedMinutesNotNegative(large[1..]);
    } else if small[0].start < large[0].end {
      var b := small[0];
      FirstBlockNotLonger(small, large);
      forall t | Worked(small[1..], t) ensures Worked(large, t) {
        TailWorked(small, t);
      }
      CoveredBlocksAreShorter(small[1..], b.end, large);
      MinutesSuperadditive(b.end - b.start, large[0].end - b.end);
      MinutesMonotone(large[0].end - b.start, large[0].end - from);
    } else {
      var rest := large[1..];
      forall t | Worked(small, t) ensures Worked(rest, t) {
        FirstBlockLeads(small, t);
        TailWorked(large, t);
      }
      assert Worked(small, small[0].start);
      FirstBlockLeads(rest, small[0].start);
      forall i | 0 <= i < |small| ensures rest[0].start <= small[i].start {
        assert i > 0 ==> small[0].end < small[i].start;
      }
      CoveredBlocksAreShorter(small, rest[0].start, rest);
    }
  }

  lemma {:induction false} WorkedMinutesNotNegative(blocks: seq<Interval>)
    requires Separated(blocks)
    ensures WorkedMinutes(blocks) >= 0
  {
    if blocks != [] {
      WorkedMinutesNotNegative(blocks[1..]);
    }
  }

  /** Deductions are not negative and do not fall when the threshold rises. */
  ghost predicate GradedRules(rules: seq<Rule>) {
    && (forall i | 0 <= i < |rules| :: rules[i].deduction >= 0)
    && (forall i, j | 0 <= i < |rules| && 0 <= j < |rules| && rules[i].threshold <= rules[j].threshold ::
          rules[i].deduction <= rules[j].deduction)
  }

  lemma RequiredGrows(rules: seq<Rule>, less: int, more: int)
    requires GradedRules(rules) && less <= more
    ensures Required(rules, less) <= Required(rules, more)
  {
    var a, b := DecidingRule(rules, less), DecidingRule(rules, more);
    if a.Some? {
      assert Exceeds(rules, a.value, more);
    }
  }

  /** Work booked into a pause of the day never lowers the deduction. */
  lemma FillingAPauseNeverLowersTheDeduction(
      before: seq<Interval>, after: seq<Interval>, rules: seq<Rule>, first: int, last: int)
    requires Proper(before) && Proper(after) && GradedRules(rules)
    requires Spans(before, first, last) && Spans(after, first, last)
    requires forall t | Worked(before, t) :: Worked(after, t)
    ensures DayAutoBreak(before, rules) <= DayAutoBreak(after, rules)
  {
    var small := DayBlocks(before);
    var large := DayBlocks(after);
    MoreIsWorked(small, large, before, after, first, last);
    if rules != [] {
      hide DayAutoBreak, Required, Blocks, SortByKey, WorkedMinutes, Minutes;
      var less, more, span := WorkedMinutes(small), WorkedMinutes(large), Minutes(Interval(first, last));
      DayFromBlocks(before, rules, small, less, span);
      DayFromBlocks(after, rules, large, more, span);
      RequiredGrows(rules, less, more);
    }
  }

  lemma MoreIsWorked(small: seq<Interval>, large: seq<Interval>, before: seq<Interval>, after: seq<Interval>,
                     first: int, last: int)
    requires small != [] && Separated(small) && SameTimeWorked(small, before)
    requires large != [] && Separated(large) && SameTimeWorked(large, after)
    requires Spans(before, first, last) && Spans(after, first, last)
    requires forall t | Worked(before, t) :: Worked(after, t)
    ensures WorkedMinutes(small) <= WorkedMinutes(large)
    ensures first == small[0].start == large[0].start
    ensures last == small[|small| - 1].end == large[|large| - 1].end
  {
    BlocksSpan(small, before);
    BlocksSpan(large, after);
    SpanIsUnique(before, first, last, small[0].start, small[|small| - 1].end);
    SpanIsUnique(after, first, last, large[0].start, large[|large| - 1].end);
    forall i | 0 <= i < |small| ensures first <= small[i].start {
      assert i > 0 ==> small[0].end < small[i].start;
    }
    CoveredBlocksAreShorter(small, first, large);
  }

  // ---------------------------------------------------------------------
  // In plain numbers
  // ---------------------------------------------------------------------

  /** Without entries or without rules nothing is deducted. */
  lemma NothingToDeduct(entries: seq<Interval>, rules: seq<Rule>)
    requires entries == [] || rules == []
    ensures DayAutoBreak(entries, rules) == 0
  {
  }

  /** The rule that counts is the one with the greatest threshold below the minutes worked, of equal ones
      the last; at the threshold itself it does not count yet. */
  lemma RequiredMinutes(rules: seq<Rule>, worked: int, i: int)
    ensures (forall j | 0 <= j < |rules| :: worked <= rules[j].threshold) ==> Required(rules, worked) == 0
    ensures
      && 0 <= i < |rules| && worked > rules[i].threshold
      && (forall j | 0 <= j < |rules| && worked > rules[j].threshold ::
            rules[j].threshold <= rules[i].threshold && (j > i ==> rules[j].threshold < rules[i].threshold))
      ==> Required(rules, worked) == rules[i].deduction
  {
  }

  /** One entry: its whole minutes decide, and no break has been taken. */
  lemma OneEntry(e: Interval, rules: seq<Rule>)
    requires e.start < e.end && rules != []
    ensures DayAutoBreak([e], rules) == Max(Required(rules, (e.end - e.start) / 60), 0)
  {
    SortedOne(e);
    assert [e][..0] == [];
    assert Blocks([e]) == [e];
    assert WorkedMinutes([e]) == Minutes(e) + WorkedMinutes([]);
  }

  lemma SortedOne(e: Interval)
    ensures SortByKey([e], StartOf()) == [e]
  {
    assert [e][1..] == [];
  }

  /** Two entries with a pause between them, of `x` and `y` whole minutes in a span of `z`: the whole minutes
      of each count, and what remains of the span is break already taken. */
  lemma TwoEntries(a: Interval, b: Interval, rules: seq<Rule>, x: int, y: int, z: int, worked: int)
    requires a.start < a.end < b.start < b.end && rules != []
    requires 0 <= x && 60 * x <= a.end - a.start < 60 * x + 60 && 0 <= y && 60 * y <= b.end - b.start < 60 * y + 60
    requires 0 <= z && 60 * z <= b.end - a.start < 60 * z + 60
    requires worked == x + y
    ensures DayAutoBreak([a, b], rules) == Max(Required(rules, worked) - Max(z - worked, 0), 0)
  {
    hide DayAutoBreak, Required, Minutes;
    MinutesOf(a, x);
    MinutesOf(b, y);
    MinutesOf(Interval(a.start, b.end), z);
    DayOfTwo(a, b, rules, worked, z);
  }

  lemma DayOfTwo(a: Interval, b: Interval, rules: seq<Rule>, worked: int, span: int)
    requires a.start < a.end < b.start < b.end && rules != []
    requires worked == Minutes(a) + Minutes(b) && span == Minutes(Interval(a.start, b.end))
    ensures DayAutoBreak([a, b], rules) == Max(Required(rules, worked) - Max(span - worked, 0), 0)
  {
    hide DayAutoBreak, Required, Minutes, Blocks, WorkedMinutes, SortByKey;
    BlocksOfTwo(a, b);
    MinutesOfTwo(a, b);
    DayFromBlocks([a, b], rules, [a, b], worked, span);
  }

  lemma DayFromBlocks(entries: seq<Interval>, rules: seq<Rule>, blocks: seq<Interval>, worked: int, span: int)
    requires entries != [] && rules != [] && blocks != [] && blocks == Blocks(SortByKey(entries, StartOf()))
    requires worked == WorkedMinutes(blocks)
    requires span == Minutes(Interval(blocks[0].start, blocks[|blocks| - 1].end))
    ensures DayAutoBreak(entries, rules) == Max(Required(rules, worked) - Max(span - worked, 0), 0)
  {
    hide Blocks, WorkedMinutes, SortByKey, Minutes, Required;
  }

  lemma MinutesOf(e: Interval, minutes: int)
    requires 0 <= 60 * minutes <= e.end - e.start < 60 * minutes + 60
    ensures Minutes(e) == minutes
  {
  }

  lemma BlocksOfTwo(a: Interval, b: Interval)
    requires a.start < a.end < b.start < b.end
    ensures SortByKey([a, b], StartOf()) == [a, b] && Blocks([a, b]) == [a, b]
  {
    SortedOne(b);
    assert [a, b][1..] == [b];
    assert [a][..0] == [] && [a, b][..1] == [a];
    assert Blocks([a]) == [a];
  }

  lemma MinutesOfTwo(a: Interval, b: Interval)
    ensures WorkedMinutes([a, b]) == Minutes(a) + Minutes(b)
  {
    assert [a, b][1..] == [b] && [b][1..] == [];
    assert WorkedMinutes([b]) == Minutes(b) + WorkedMinutes([]);
  }

  /** The documented day: 08:00 to 18:00 with half an hour off at 14:00 owes 45 minutes and has taken 30. */
  lemma DocumentedDay()
    ensures DayAutoBreak([Interval(28800, 50400), Interval(52200, 64800)], [Rule(360, 30), Rule(540, 45)]) == 15
  {
    hide DayAutoBreak, Required;
    TwoEntries(Interval(28800, 50400), Interval(52200, 64800), [Rule(360, 30), Rule(540, 45)], 360, 210, 600, 570);
    RequiredMinutes([Rule(360, 30), Rule(540, 45)], 570, 1);
  }
}
