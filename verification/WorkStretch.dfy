/** How long the work in a row is that a new entry would become part of. */
module WorkStretch {
  import opened Breaks
  import opened Numbers

  /** Two intervals with a pause shorter than `rest` between them, or none at all. */
  predicate WithinReach(e: Interval, s: Interval, rest: int) {
    e.start - s.end < rest && s.start - e.end < rest
  }

  predicate Inside(e: Interval, s: Interval) {
    s.start <= e.start && e.end <= s.end
  }

  function Hull(a: Interval, b: Interval): Interval {
    Interval(Min(a.start, b.start), Max(a.end, b.end))
  }

  /** A started minute counts as a whole one. */
  function StartedMinutes(s: Interval): int {
    TruncatedDiv(s.end - s.start + 59, 60)
  }

  /** Everything within reach of `s` is part of it. */
  ghost predicate Closed(s: Interval, existing: seq<Interval>, rest: int) {
    forall i | 0 <= i < |existing| && WithinReach(existing[i], s, rest) :: Inside(existing[i], s)
  }

  /** The least interval around the candidate that is closed under absorption. */
  ghost predicate IsStretch(s: Interval, candidate: Interval, existing: seq<Interval>, rest: int) {
    && Inside(candidate, s)
    && Closed(s, existing, rest)
    && forall other: Interval | Inside(candidate, other) && Closed(other, existing, rest) :: Inside(s, other)
  }

  function OutsideCount(existing: seq<Interval>, s: Interval): nat {
    if existing == [] then 0
    else (if Inside(existing[0], s) then 0 else 1) + OutsideCount(existing[1..], s)
  }

  lemma {:induction false} OutsideShrinks(existing: seq<Interval>, s: Interval, grown: Interval)
    requires Inside(s, grown)
    ensures OutsideCount(existing, grown) <= OutsideCount(existing, s)
    ensures (exists i | 0 <= i < |existing| :: !Inside(existing[i], s) && Inside(existing[i], grown))
            ==> OutsideCount(existing, grown) < OutsideCount(existing, s)
  {
    if existing != [] {
      OutsideShrinks(existing[1..], s, grown);
      if i :| 0 <= i < |existing| && !Inside(existing[i], s) && Inside(existing[i], grown) {
        if i > 0 {
          assert existing[1..][i - 1] == existing[i];
        }
      }
    }
  }

  // ---------------------------------------------------------------------
  // Chains of short pauses
  // ---------------------------------------------------------------------

  /** A chain of short pauses that starts at the candidate. */
  ghost predicate Chain(path: seq<Interval>, candidate: Interval, existing: seq<Interval>, rest: int) {
    && path != [] && path[0] == candidate
    && (forall k | 0 < k < |path| :: path[k] in existing)
    && (forall k | 0 < k < |path| :: WithinReach(path[k - 1], path[k], rest))
  }

  /** A chain of pauses shorter than `rest` leads from the candidate to `e`. */
  ghost predicate Linked(e: Interval, candidate: Interval, existing: seq<Interval>, rest: int) {
    exists path :: Chain(path, candidate, existing, rest) && path[|path| - 1] == e
  }

  lemma CandidateLinked(candidate: Interval, existing: seq<Interval>, rest: int)
    ensures Linked(candidate, candidate, existing, rest)
  {
    assert Chain([candidate], candidate, existing, rest);
  }

  lemma LinkExtends(m: Interval, e: Interval, candidate: Interval, existing: seq<Interval>, rest: int)
    requires Linked(m, candidate, existing, rest) && e in existing && WithinReach(m, e, rest)
    ensures Linked(e, candidate, existing, rest)
  {
    var path :| Chain(path, candidate, existing, rest) && path[|path| - 1] == m;
    var longer := path + [e];
    forall k | 0 < k < |longer| ensures longer[k] in existing && WithinReach(longer[k - 1], longer[k], rest) {
      if k < |path| {
        assert path[k] in existing && WithinReach(path[k - 1], path[k], rest);
      }
    }
    assert Chain(longer, candidate, existing, rest);
  }

  predicate CloseTo(p: int, m: Interval, rest: int) {
    m.start - p < rest && p - m.end < rest
  }

  /** Some linked entry is less than `rest` away from the point `p`. */
  ghost predicate Woven(p: int, candidate: Interval, existing: seq<Interval>, rest: int) {
    exists m :: Linked(m, candidate, existing, rest) && CloseTo(p, m, rest)
  }

  /** The edges of `s` belong to linked entries, and every point of it is close to one. */
  ghost predicate WovenThrough(s: Interval, candidate: Interval, existing: seq<Interval>, rest: int) {
    && (exists m :: Linked(m, candidate, existing, rest) && m.start == s.start)
    && (exists m :: Linked(m, candidate, existing, rest) && m.end == s.end)
    && forall p | s.start <= p <= s.end :: Woven(p, candidate, existing, rest)
  }

  /** Entries end no earlier than they start and the shortest rest break is at least a second;
      the settings allow 1 to 480 minutes. */
  ghost predicate Sensible(candidate: Interval, existing: seq<Interval>, rest: int) {
    && rest > 0
    && candidate.start <= candidate.end
    && forall i | 0 <= i < |existing| :: existing[i].start <= existing[i].end
  }

  lemma LinkedAreProper(x: Interval, candidate: Interval, existing: seq<Interval>, rest: int)
    requires Sensible(candidate, existing, rest) && Linked(x, candidate, existing, rest)
    ensures x.start <= x.end
  {
    var path :| Chain(path, candidate, existing, rest) && path[|path| - 1] == x;
    if |path| > 1 {
      assert x in existing;
    }
  }

  /** An entry within reach of a woven interval is itself linked. */
  lemma ReachMeansLinked(s: Interval, e: Interval, candidate: Interval, existing: seq<Interval>, rest: int)
    requires Sensible(candidate, existing, rest) && e in existing && s.start <= s.end
    requires WovenThrough(s, candidate, existing, rest) && WithinReach(e, s, rest)
    ensures Linked(e, candidate, existing, rest)
  {
    var m: Interval;
    if e.start < s.start {
      m :| Linked(m, candidate, existing, rest) && m.start == s.start;
    } else if e.start > s.end {
      m :| Linked(m, candidate, existing, rest) && m.end == s.end;
    } else {
      assert Woven(e.start, candidate, existing, rest);
      m :| Linked(m, candidate, existing, rest) && CloseTo(e.start, m, rest);
    }
    LinkedAreProper(m, candidate, existing, rest);
    LinkExtends(m, e, candidate, existing, rest);
  }

  lemma AbsorbingKeepsWoven(s: Interval, e: Interval, candidate: Interval, existing: seq<Interval>, rest: int)
    requires Sensible(candidate, existing, rest) && e in existing && s.start <= s.end
    requires WovenThrough(s, candidate, existing, rest) && WithinReach(e, s, rest)
    ensures WovenThrough(Hull(s, e), candidate, existing, rest)
  {
    ReachMeansLinked(s, e, candidate, existing, rest);
    var h := Hull(s, e);
    forall p | h.start <= p <= h.end ensures Woven(p, candidate, existing, rest) {
      if !(s.start <= p <= s.end) {
        assert CloseTo(p, e, rest);
      }
    }
  }

  lemma {:induction false} StretchIsWoven(
      w: Interval, s: Interval, candidate: Interval, existing: seq<Interval>, rest: int)
    requires Sensible(candidate, existing, rest) && IsStretch(s, candidate, existing, rest)
    requires Inside(candidate, w) && Inside(w, s) && WovenThrough(w, candidate, existing, rest)
    ensures WovenThrough(s, candidate, existing, rest)
    decreases OutsideCount(existing, w)
  {
    if Closed(w, existing, rest) {
      assert w == s;
    } else {
      var i :| 0 <= i < |existing| && WithinReach(existing[i], w, rest) && !Inside(existing[i], w);
      var grown := Hull(w, existing[i]);
      assert WithinReach(existing[i], s, rest);
      AbsorbingKeepsWoven(w, existing[i], candidate, existing, rest);
      OutsideShrinks(existing, w, grown);
      StretchIsWoven(grown, s, candidate, existing, rest);
    }
  }

  lemma {:induction false} ChainStaysInside(
      path: seq<Interval>, s: Interval, candidate: Interval, existing: seq<Interval>, rest: int)
    requires Chain(path, candidate, existing, rest)
    requires Inside(candidate, s) && Closed(s, existing, rest)
    ensures Inside(path[|path| - 1], s)
  {
    if |path| > 1 {
      var n := |path| - 1;
      ChainStaysInside(path[..n], s, candidate, existing, rest);
      assert WithinReach(path[n - 1], path[n], rest) && path[n] in existing;
    }
  }

  /** The stretch is the hull of exactly the entries that chains of pauses shorter than the
      minimum link to the candidate, and every other entry lies at least the minimum away. */
  lemma StretchIsHullOfLinked(s: Interval, candidate: Interval, existing: seq<Interval>, rest: int)
    requires Sensible(candidate, existing, rest) && IsStretch(s, candidate, existing, rest)
    ensures exists m :: Linked(m, candidate, existing, rest) && m.start == s.start
    ensures exists m :: Linked(m, candidate, existing, rest) && m.end == s.end
    ensures forall e | e in existing ::
      && (Linked(e, candidate, existing, rest) <==> Inside(e, s))
      && (!Linked(e, candidate, existing, rest) ==> e.start - s.end >= rest || s.start - e.end >= rest)
  {
    CandidateLinked(candidate, existing, rest);
    forall p | candidate.start <= p <= candidate.end ensures Woven(p, candidate, existing, rest) {
      assert CloseTo(p, candidate, rest);
    }
    StretchIsWoven(candidate, s, candidate, existing, rest);
    forall e | e in existing
      ensures Linked(e, candidate, existing, rest) <==> Inside(e, s)
      ensures Linked(e, candidate, existing, rest) <==> WithinReach(e, s, rest)
    {
      if Linked(e, candidate, existing, rest) {
        var path :| Chain(path, candidate, existing, rest) && path[|path| - 1] == e;
        ChainStaysInside(path, s, candidate, existing, rest);
      }
      if WithinReach(e, s, rest) {
        ReachMeansLinked(s, e, candidate, existing, rest);
      }
      if Inside(e, s) {
        assert WithinReach(e, s, rest);
      }
    }
  }

  // ---------------------------------------------------------------------
  // What the result depends on
  // ---------------------------------------------------------------------

  /** There is only one stretch, and neither the order nor the repetition of entries matters. */
  lemma StretchIgnoresOrder(s: Interval, t: Interval, candidate: Interval,
                            existing: seq<Interval>, listed: seq<Interval>, rest: int)
    requires forall e :: e in existing <==> e in listed
    requires IsStretch(s, candidate, existing, rest) && IsStretch(t, candidate, listed, rest)
    ensures s == t
  {
    StretchNeverShrinks(s, t, candidate, existing, listed, rest, rest);
    StretchNeverShrinks(t, s, candidate, listed, existing, rest, rest);
  }

  /** Adding entries or raising the minimum rest break never shortens the stretch. */
  lemma StretchNeverShrinks(s: Interval, t: Interval, candidate: Interval,
                            existing: seq<Interval>, more: seq<Interval>, rest: int, longerRest: int)
    requires rest <= longerRest && forall e | e in existing :: e in more
    requires IsStretch(s, candidate, existing, rest) && IsStretch(t, candidate, more, longerRest)
    ensures Inside(s, t) && StartedMinutes(s) <= StartedMinutes(t)
  {
    forall i | 0 <= i < |existing| && WithinReach(existing[i], t, rest) ensures Inside(existing[i], t) {
      assert existing[i] in more;
    }
    assert Closed(t, existing, rest);
  }

  // ---------------------------------------------------------------------
  // The fixpoint loop
  // ---------------------------------------------------------------------

  /** One round: the hull of `s` and every entry within its reach. */
  method Grow(s: Interval, existing: seq<Interval>, rest: int) returns (grown: Interval)
    ensures Inside(s, grown)
    ensures forall i | 0 <= i < |existing| && WithinReach(existing[i], s, rest) :: Inside(existing[i], grown)
    ensures grown == s || exists i | 0 <= i < |existing| :: !Inside(existing[i], s) && Inside(existing[i], grown)
    ensures forall other: Interval | Inside(s, other) && Closed(other, existing, rest) :: Inside(grown, other)
  {
    grown := s;
    for n := 0 to |existing|
      invariant Inside(s, grown)
      invariant forall i | 0 <= i < n && WithinReach(existing[i], s, rest) :: Inside(existing[i], grown)
      invariant grown == s || exists i | 0 <= i < n :: !Inside(existing[i], s) && Inside(existing[i], grown)
      invariant forall other: Interval | Inside(s, other) && Closed(other, existing, rest) :: Inside(grown, other)
    {
      var e := existing[n];
      if WithinReach(e, s, rest) {
        forall other: Interval | Inside(s, other) && Closed(other, existing, rest) ensures Inside(e, other) {
          assert WithinReach(existing[n], other, rest);
        }
        assert Inside(e, s) ==> Hull(grown, e) == grown;
        grown := Hull(grown, e);
      }
    }
  }

  /** The minutes of work in a row around the candidate; the loop ends for every input. */
  method WorkStretchMinutes(candidate: Interval, existing: seq<Interval>, minRestMinutes: int)
      returns (minutes: int)
    ensures exists s :: IsStretch(s, candidate, existing, 60 * minRestMinutes) && minutes == StartedMinutes(s)
    ensures candidate.start <= candidate.end ==>
      exists s :: IsStretch(s, candidate, existing, 60 * minRestMinutes) && 60 * (minutes - 1) < s.end - s.start <= 60 * minutes
  {
    var rest := 60 * minRestMinutes;
    var s := candidate;
    while true
      invariant Inside(candidate, s)
      invariant forall other: Interval | Inside(candidate, other) && Closed(other, existing, rest) :: Inside(s, other)
      decreases OutsideCount(existing, s)
    {
      var grown := Grow(s, existing, rest);
      if grown == s {
        break;
      }
      OutsideShrinks(existing, s, grown);
      s := grown;
    }
    assert IsStretch(s, candidate, existing, rest);
    if candidate.start <= candidate.end {
      MinutesAreStarted(s);
    }
    return TruncatedDiv(s.end - s.start + 59, 60);
  }


  // ---------------------------------------------------------------------
  // In plain numbers
  // ---------------------------------------------------------------------

  lemma MinutesAreStarted(s: Interval)
    requires s.start <= s.end
    ensures 60 * (StartedMinutes(s) - 1) < s.end - s.start <= 60 * StartedMinutes(s)
  {
  }

  /** An entry is part of the stretch exactly when a chain leads to it from the candidate in which no entry
      begins or ends `rest` seconds or more away from the one before it. */
  lemma StretchByPauses(s: Interval, candidate: Interval, existing: seq<Interval>, rest: int, e: Interval)
    requires rest > 0 && candidate.start <= candidate.end
    requires forall i | 0 <= i < |existing| :: existing[i].start <= existing[i].end
    requires IsStretch(s, candidate, existing, rest) && e in existing
    ensures s.start <= candidate.start && candidate.end <= s.end
    ensures s.start <= e.start && e.end <= s.end <==>
      exists path: seq<Interval> ::
        && path != [] && path[0] == candidate && path[|path| - 1] == e
        && (forall k | 0 < k < |path| :: path[k] in existing)
        && (forall k | 0 < k < |path| :: path[k].start - path[k - 1].end < rest && path[k - 1].start - path[k].end < rest)
  {
    StretchIsHullOfLinked(s, candidate, existing, rest);
    if Linked(e, candidate, existing, rest) {
      var path :| Chain(path, candidate, existing, rest) && path[|path| - 1] == e;
      assert forall k | 0 < k < |path| :: WithinReach(path[k - 1], path[k], rest);
    }
    if path: seq<Interval> :|
        && path != [] && path[0] == candidate && path[|path| - 1] == e
        && (forall k | 0 < k < |path| :: path[k] in existing)
        && (forall k | 0 < k < |path| :: path[k].start - path[k - 1].end < rest && path[k - 1].start - path[k].end < rest) {
      assert Chain(path, candidate, existing, rest);
    }
  }

  /** A pause of exactly the minimum ends a stretch: when every entry lies at least that far away, the
      candidate stands alone. */
  lemma AloneWhenPausesSuffice(s: Interval, candidate: Interval, existing: seq<Interval>, rest: int)
    requires IsStretch(s, candidate, existing, rest)
    requires forall i | 0 <= i < |existing| ::
      existing[i].start - candidate.end >= rest || candidate.start - existing[i].end >= rest
    ensures s == candidate
  {
    assert Closed(candidate, existing, rest);
  }
}
