/**
 * Where a record goes, in times and rates: which segments it joins, and that it begins a new one
 * only when it joins none.
 */
module TraceJoins {
  import opened Wrappers
  import opened SampleTimes
  import opened TraceSegments
  import opened TraceInvariants
  import L = TraceLists
  import O = TraceOrder

  /** The rates differ by less than a ten-thousandth of the segment's. */
  predicate NearRate(s: Segment, r: Record) {
    var hertz := Hertz(r.samprate);
    s.samprate != 0.0 && Abs(s.samprate - hertz) < 0.0001 * Abs(s.samprate)
  }

  /** The record begins a sample period after the segment ends, give or take half a period. */
  predicate JoinsEnd(s: Segment, r: Record) {
    var period := Period(r.samprate);
    -period <= 2 * (r.starttime - s.endtime - period) <= period && NearRate(s, r)
  }

  /** The segment begins a sample period after the record ends, give or take half a period. */
  predicate JoinsStart(s: Segment, r: Record) {
    var period := Period(r.samprate);
    -period <= 2 * (s.starttime - EndTime(r) - period) <= period && NearRate(s, r)
  }

  lemma NearIsTolerable(s: Segment, r: Record)
    ensures RateFits(r, s) <==> NearRate(s, r)
  {
    var a, b := Hertz(r.samprate), s.samprate;
    hide Hertz;
    if b != 0.0 {
      QuotientNear(a, b);
    }
  }

  lemma QuotientNear(a: real, b: real)
    requires b != 0.0
    ensures -0.0001 < 1.0 - a / b < 0.0001 <==> Abs(b - a) < 0.0001 * Abs(b)
  {
    var q := Quotient(a, b);
    Difference(a, b, q);
    AbsProduct(1.0 - q, b);
    Fraction(Abs(b));
    ScaledLess(Abs(1.0 - q), 0.0001, Abs(b));
    hide Product;
  }

  lemma Quotient(a: real, b: real) returns (q: real)
    requires b != 0.0
    ensures q == a / b && q * b == a
  {
    q := a / b;
  }

  lemma Difference(a: real, b: real, q: real)
    requires q * b == a
    ensures b - a == Product(1.0 - q, b)
  {}

  lemma AbsProduct(x: real, y: real)
    ensures Abs(Product(x, y)) == Product(Abs(x), Abs(y))
  {}

  lemma Fraction(x: real)
    ensures Product(0.0001, x) == 0.0001 * x
  {}

  lemma ScaledLess(x: real, y: real, b: real)
    requires b > 0.0
    ensures x < y <==> Product(x, b) < Product(y, b)
  {}

  lemma JoinsAreFits(s: Segment, r: Record)
    ensures JoinsEnd(s, r) <==> FitsAfter(s, r) && RateFits(r, s)
    ensures JoinsStart(s, r) <==> FitsBefore(s, r) && RateFits(r, s)
  {
    hide EndTime, Period, NearRate, RateFits;
    NearIsTolerable(s, r);
  }

  // ----------------------------------------------------------------- what becomes of segments

  /** The segment with the record behind it. */
  predicate AtEnd(s: Segment, was: Segment, r: Record) {
    && s.records == was.records + [r] && s.starttime == was.starttime && s.endtime == EndTime(r)
    && s.samplecnt == was.samplecnt + r.samplecnt && s.datasamples == was.datasamples + r.datasamples
    && s.samprate == was.samprate && s.sampletype == was.sampletype
  }

  /** The segment with the record in front of it. */
  predicate AtStart(s: Segment, was: Segment, r: Record) {
    && s.records == [r] + was.records && s.starttime == r.starttime && s.endtime == was.endtime
    && s.samplecnt == was.samplecnt + r.samplecnt && s.datasamples == r.datasamples + was.datasamples
    && s.samprate == was.samprate && s.sampletype == was.sampletype
  }

  /** Two segments with the record between them. */
  predicate Healed(s: Segment, a: Segment, r: Record, b: Segment) {
    && s.records == a.records + [r] + b.records && s.starttime == a.starttime && s.endtime == b.endtime
    && s.samplecnt == a.samplecnt + r.samplecnt + b.samplecnt && s.datasamples == a.datasamples + r.datasamples + b.datasamples
    && s.samprate == a.samprate && s.sampletype == a.sampletype
  }

  /** A segment of the record alone. */
  predicate Alone(s: Segment, r: Record) {
    && s.records == [r] && s.starttime == r.starttime && s.endtime == EndTime(r) && s.samplecnt == r.samplecnt
    && s.datasamples == r.datasamples && s.samprate == Hertz(r.samprate) && s.sampletype == r.sampletype
  }

  /** A new segment, and the others as they were. */
  ghost predicate Begun(now: seq<Segment>, segs: seq<Segment>, r: Record) {
    exists s :: Alone(s, r) && multiset(now) == multiset(segs) + multiset{s}
  }

  /** The record is joined to segment i at its end, and the others are as they were. */
  ghost predicate Appends(now: seq<Segment>, segs: seq<Segment>, i: nat, r: Record) {
    i < |segs| && JoinsEnd(segs[i], r) && exists s :: AtEnd(s, segs[i], r) && multiset(now) == multiset(segs[i := s])
  }

  ghost predicate Prepends(now: seq<Segment>, segs: seq<Segment>, i: nat, r: Record) {
    i < |segs| && JoinsStart(segs[i], r) && exists s :: AtStart(s, segs[i], r) && multiset(now) == multiset(segs[i := s])
  }

  /** The record closes the gap between segments i and j, and the others are as they were. */
  ghost predicate Heals(now: seq<Segment>, segs: seq<Segment>, i: nat, j: nat, r: Record) {
    && i < |segs| && j < |segs| && i != j && JoinsEnd(segs[i], r) && JoinsStart(segs[j], r)
    && exists s :: Healed(s, segs[i], r, segs[j]) && multiset(now) + multiset{segs[i]} + multiset{segs[j]} == multiset(segs) + multiset{s}
  }

  ghost predicate SomeEnd(segs: seq<Segment>, r: Record) {
    exists i :: 0 <= i < |segs| && JoinsEnd(segs[i], r)
  }

  ghost predicate SomeStart(segs: seq<Segment>, r: Record) {
    exists i :: 0 <= i < |segs| && JoinsStart(segs[i], r)
  }

  /** The segments after an addition: in order, those after it was placed. */
  lemma AddedAre(t: Trace, r: Record, autoheal: bool)
    requires |t.segs| > 0 && Place(t, r, autoheal).ok
    ensures AddTo(t, r, autoheal).0 && multiset(AddTo(t, r, autoheal).1.segs) == multiset(Place(t, r, autoheal).segs)
  {
    hide Place, Resorted;
    var p := Place(t, r, autoheal);
    ResortedPermutes(p.segs, p.at);
  }

  lemma FoundBefore(segs: seq<Segment>, r: Record, f: Found)
    requires InList(f, |segs|) && f.before.Some? && f.after.None? && TypeFits(r, segs[f.before.value]) && JoinsEnd(segs[f.before.value], r)
    ensures PlaceFound(segs, r, f).ok && Appends(PlaceFound(segs, r, f).segs, segs, f.before.value, r)
  {
    hide JoinsEnd, EndTime;
    assert AtEnd(Appended(segs[f.before.value], r), segs[f.before.value], r);
  }

  lemma FoundAfter(segs: seq<Segment>, r: Record, f: Found)
    requires InList(f, |segs|) && f.before.None? && f.after.Some? && TypeFits(r, segs[f.after.value]) && JoinsStart(segs[f.after.value], r)
    ensures PlaceFound(segs, r, f).ok && Prepends(PlaceFound(segs, r, f).segs, segs, f.after.value, r)
  {
    hide JoinsStart, EndTime;
    assert AtStart(Prepended(segs[f.after.value], r), segs[f.after.value], r);
  }

  lemma FoundNone(segs: seq<Segment>, r: Record, f: Found)
    requires InList(f, |segs|) && f.before.None? && f.after.None?
    ensures PlaceFound(segs, r, f).ok && Begun(PlaceFound(segs, r, f).segs, segs, r)
  {
    hide Insert, Fresh, Begun;
    InsertedBegins(segs, r, if f.follow.Some? then f.follow.value + 1 else 0);
  }

  lemma InsertedBegins(segs: seq<Segment>, r: Record, at: nat)
    requires at <= |segs|
    ensures Begun(Insert(segs, at, Fresh(r)), segs, r)
  {
    hide EndTime;
    assert segs == segs[..at] + segs[at..];
    assert Alone(Fresh(r), r);
  }

  lemma FoundBoth(segs: seq<Segment>, r: Record, f: Found)
    requires InList(f, |segs|) && f.before.Some? && f.after.Some? && TypeFits(r, segs[f.before.value])
    requires segs[f.after.value].datasamples != [] ==> segs[f.after.value].sampletype == segs[f.before.value].sampletype
    requires JoinsEnd(segs[f.before.value], r) && JoinsStart(segs[f.after.value], r)
    ensures PlaceFound(segs, r, f).ok && Heals(PlaceFound(segs, r, f).segs, segs, f.before.value, f.after.value, r)
  {
    hide JoinsEnd, JoinsStart, EndTime;
    var i, j := f.before.value, f.after.value;
    var s := Joined(Appended(segs[i], r), segs[j]);
    assert Healed(s, segs[i], r, segs[j]);
    OneForTwo(segs, i, j, s);
  }

  lemma OneForTwo(segs: seq<Segment>, i: nat, j: nat, s: Segment)
    requires i < |segs| && j < |segs| && i != j
    ensures multiset(Remove(segs[i := s], j)) + multiset{segs[i]} + multiset{segs[j]} == multiset(segs) + multiset{s}
  {
    LessOne(segs[i := s], j);
    Exchanged(segs, i, s);
    Sum3(multiset(Remove(segs[i := s], j)), multiset{segs[i]}, multiset{segs[j]}, multiset(segs[i := s]), multiset(segs), multiset{s});
  }

  lemma LessOne(segs: seq<Segment>, j: nat)
    requires j < |segs|
    ensures multiset(Remove(segs, j)) + multiset{segs[j]} == multiset(segs)
  {
    assert segs == segs[..j] + [segs[j]] + segs[j + 1..];
  }

  lemma Exchanged(segs: seq<Segment>, i: nat, s: Segment)
    requires i < |segs|
    ensures multiset(segs[i := s]) + multiset{segs[i]} == multiset(segs) + multiset{s}
  {}

  lemma Sum3<T>(rest: multiset<T>, a: multiset<T>, b: multiset<T>, changed: multiset<T>, all: multiset<T>, s: multiset<T>)
    requires rest + b == changed && changed + a == all + s
    ensures rest + a + b == all + s
  {
    assert rest + a + b == rest + b + a;
  }

  // ------------------------------------------------------------------------- the search

  /** What a search has found joins, and something is found exactly if something joins. */
  lemma {:induction false} SearchFinds(segs: seq<Segment>, r: Record, autoheal: bool, k: nat, f: Found)
    requires k <= |segs| && !Settled(f, autoheal)
    ensures var g := Search(segs, r, autoheal, k, f);
            (g.before.Some? || g.after.Some?) <==>
            (f.before.Some? || f.after.Some? || exists i :: k <= i < |segs| && (JoinsEnd(segs[i], r) || JoinsStart(segs[i], r)))
    decreases |segs| - k
  {
    hide FitsAfter, FitsBefore, RateFits, JoinsEnd, JoinsStart;
    if k < |segs| {
      JoinsAreFits(segs[k], r);
      var f' := Looked(segs[k], k, r, f);
      if !Settled(f', autoheal) {
        SearchFinds(segs, r, autoheal, k + 1, f');
      }
    }
  }

  /** Without autoheal one thing is found at most. */
  lemma {:induction false} SearchFindsOne(segs: seq<Segment>, r: Record, k: nat, f: Found)
    requires k <= |segs| && f.before.None? && f.after.None?
    ensures var g := Search(segs, r, false, k, f); g.before.None? || g.after.None?
    decreases |segs| - k
  {
    hide FitsAfter, FitsBefore, RateFits;
    if k < |segs| && !Settled(Looked(segs[k], k, r, f), false) {
      SearchFindsOne(segs, r, k + 1, Looked(segs[k], k, r, f));
    }
  }

  /** With it both are found when both are there. */
  lemma {:induction false} SearchFindsBoth(segs: seq<Segment>, r: Record, k: nat, f: Found)
    requires k <= |segs| && !Settled(f, true) && Period(r.samprate) > 0 && forall i | 0 <= i < |segs| :: segs[i].starttime <= segs[i].endtime
    ensures var g := Search(segs, r, true, k, f);
            && (g.before.Some? <==> f.before.Some? || exists i :: k <= i < |segs| && JoinsEnd(segs[i], r))
            && (g.after.Some? <==> f.after.Some? || exists i :: k <= i < |segs| && JoinsStart(segs[i], r))
    decreases |segs| - k
  {
    hide FitsAfter, FitsBefore, RateFits, JoinsEnd, JoinsStart, EndTime, Period;
    if k < |segs| {
      JoinsAreFits(segs[k], r);
      NotBoth(segs[k], r);
      var f' := Looked(segs[k], k, r, f);
      if !Settled(f', true) {
        SearchFindsBoth(segs, r, k + 1, f');
      }
    }
  }

  /** No segment is joined at both of its ends. */
  lemma NotBoth(s: Segment, r: Record)
    requires Period(r.samprate) > 0 && s.starttime <= s.endtime
    ensures !(FitsAfter(s, r) && FitsBefore(s, r))
  {
    SampleTimeForward(r.starttime, r.samplecnt - 1, r.samprate);
    hide Period, SampleTime;
  }

  // ------------------------------------------------------------------ where a record goes

  /** Types do not stand in the way. */
  ghost predicate TypesFit(t: Trace, r: Record) {
    OfType(t.segs, r.sampletype)
  }

  /** A record that joins the end of the last segment goes there, whatever else is in the list. */
  lemma LastIsJoined(t: Trace, r: Record, autoheal: bool)
    requires |t.segs| > 0 && JoinsEnd(t.segs[|t.segs| - 1], r) && TypeFits(r, t.segs[|t.segs| - 1])
    ensures AddTo(t, r, autoheal).0 && Appends(AddTo(t, r, autoheal).1.segs, t.segs, |t.segs| - 1, r)
  {
    hide AddTo, FitsAfter, FitsBefore, RateFits, JoinsEnd, PlaceFound, EndTime, Period;
    var n := |t.segs| - 1;
    JoinsAreFits(t.segs[n], r);
    FoundBefore(t.segs, r, Found(Some(n), None, None));
    AddedAre(t, r, autoheal);
    SameAppends(AddTo(t, r, autoheal).1.segs, Place(t, r, autoheal).segs, t.segs, n, r);
  }

  lemma SameAppends(now: seq<Segment>, placed: seq<Segment>, segs: seq<Segment>, i: nat, r: Record)
    requires multiset(now) == multiset(placed)
    ensures Appends(placed, segs, i, r) ==> Appends(now, segs, i, r)
    ensures Prepends(placed, segs, i, r) ==> Prepends(now, segs, i, r)
    ensures Begun(placed, segs, r) ==> Begun(now, segs, r)
  {
    hide JoinsEnd, JoinsStart, AtEnd, AtStart, Alone;
  }

  lemma SameHeals(now: seq<Segment>, placed: seq<Segment>, segs: seq<Segment>, i: nat, j: nat, r: Record)
    requires multiset(now) == multiset(placed) && Heals(placed, segs, i, j, r)
    ensures Heals(now, segs, i, j, r)
  {
    hide JoinsEnd, JoinsStart, Healed;
  }

  /** The times that are tracked enclose all segments. */
  lemma Enclosed(t: Trace, i: nat)
    requires Good(t) && i < |t.segs|
    ensures t.earliest <= t.segs[i].starttime <= t.segs[i].endtime <= t.latest
  {
    hide EndTime, Sorted, Steady;
    var s := t.segs[i];
    assert Coherent(s);
    var a, b := s.records[0], s.records[|s.records| - 1];
    InRecords(t.segs, i, 0);
    InRecords(t.segs, i, |s.records| - 1);
    assert Inside(a, s.starttime, s.endtime, s.sampletype);
  }

  lemma {:induction false} InRecords(segs: seq<Segment>, i: nat, k: nat)
    requires i < |segs| && k < |segs[i].records|
    ensures segs[i].records[k] in Records(segs)
  {
    if i > 0 {
      InRecords(segs[1..], i - 1, k);
    }
  }

  /** A record that joins some segment is not beyond all coverage. */
  lemma NotBeyond(t: Trace, r: Record, i: nat)
    requires Good(t) && i < |t.segs|
    ensures JoinsEnd(t.segs[i], r) ==> r.starttime - Period(r.samprate) - Period(r.samprate) / 2 <= t.latest
    ensures JoinsStart(t.segs[i], r) ==> EndTime(r) + Period(r.samprate) + Period(r.samprate) / 2 >= t.earliest
    ensures JoinsEnd(t.segs[i], r) ==> EndTime(r) + Period(r.samprate) + Period(r.samprate) / 2 >= t.earliest
    ensures JoinsStart(t.segs[i], r) ==> r.starttime - Period(r.samprate) - Period(r.samprate) / 2 <= t.latest
  {
    Enclosed(t, i);
    PeriodNotNegative(r.samprate);
    SampleTimeForward(r.starttime, r.samplecnt - 1, r.samprate);
    hide Good, Period, SampleTime, NearRate;
  }

  /** The record closes a gap: with autoheal, unless it joins the end of the last segment or the start of the first. */
  ghost predicate Closes(t: Trace, r: Record, autoheal: bool) {
    && autoheal && |t.segs| > 0 && !JoinsEnd(t.segs[|t.segs| - 1], r) && !JoinsStart(t.segs[0], r)
    && SomeEnd(t.segs, r) && SomeStart(t.segs, r)
  }

  /**
   * Where a record goes: it begins a new segment exactly when it joins none; when it closes a gap,
   * the two segments become one; otherwise it is joined to one at its end or at its start.
   */
  lemma WhereItGoes(t: Trace, r: Record, autoheal: bool)
    requires Good(t) && TypesFit(t, r) && Period(r.samprate) > 0
    ensures AddTo(t, r, autoheal).0
    ensures var now := AddTo(t, r, autoheal).1.segs;
            && (!SomeEnd(t.segs, r) && !SomeStart(t.segs, r) ==> Begun(now, t.segs, r))
            && (Closes(t, r, autoheal) ==> exists i: nat, j: nat :: Heals(now, t.segs, i, j, r))
            && ((SomeEnd(t.segs, r) || SomeStart(t.segs, r)) && !Closes(t, r, autoheal) ==>
                  exists i: nat :: Appends(now, t.segs, i, r) || Prepends(now, t.segs, i, r))
  {
    hide *;
    var p := PlacedAs(t, r, autoheal);
    AddedAre(t, r, autoheal);
    NoneCloses(t, r, autoheal);
    var now := AddTo(t, r, autoheal).1.segs;
    if Closes(t, r, autoheal) {
      var i: nat, j: nat :| Heals(p.segs, t.segs, i, j, r);
      SameHeals(now, p.segs, t.segs, i, j, r);
    } else if SomeEnd(t.segs, r) || SomeStart(t.segs, r) {
      var i: nat :| Appends(p.segs, t.segs, i, r) || Prepends(p.segs, t.segs, i, r);
      SameAppends(now, p.segs, t.segs, i, r);
    } else {
      SameAppends(now, p.segs, t.segs, 0, r);
    }
  }

  /** The same before segments are put in order. */
  lemma PlacedAs(t: Trace, r: Record, autoheal: bool) returns (p: Placed)
    requires Good(t) && TypesFit(t, r) && Period(r.samprate) > 0
    ensures |t.segs| > 0 && p == Place(t, r, autoheal) && p.ok
    ensures !SomeEnd(t.segs, r) && !SomeStart(t.segs, r) ==> Begun(p.segs, t.segs, r)
    ensures Closes(t, r, autoheal) ==> exists i: nat, j: nat :: Heals(p.segs, t.segs, i, j, r)
    ensures (SomeEnd(t.segs, r) || SomeStart(t.segs, r)) && !Closes(t, r, autoheal) ==>
              exists i: nat :: Appends(p.segs, t.segs, i, r) || Prepends(p.segs, t.segs, i, r)
  {
    hide Sorted, AllCoherent, Tracks, FitsAfter, FitsBefore, RateFits, JoinsEnd, JoinsStart, PlaceFound, EndTime, Period, Begun, Appends, Prepends, Heals, Search;
    p := Place(t, r, autoheal);
    var n := |t.segs| - 1;
    JoinsAreFits(t.segs[n], r);
    JoinsAreFits(t.segs[0], r);
    if JoinsEnd(t.segs[n], r) {
      FoundBefore(t.segs, r, Found(Some(n), None, None));
    } else if r.starttime - Period(r.samprate) - Period(r.samprate) / 2 > t.latest {
      NoneBeyond(t, r);
      InsertedBegins(t.segs, r, n + 1);
      InsertAtEnds(t.segs, Fresh(r));
    } else if EndTime(r) + Period(r.samprate) + Period(r.samprate) / 2 < t.earliest {
      NoneBeyond(t, r);
      InsertedBegins(t.segs, r, 0);
      InsertAtEnds(t.segs, Fresh(r));
    } else if JoinsStart(t.segs[0], r) {
      FoundAfter(t.segs, r, Found(None, Some(0), None));
    } else {
      SearchPlaces(t, r, autoheal);
    }
  }

  lemma InsertAtEnds(segs: seq<Segment>, s: Segment)
    ensures Insert(segs, |segs|, s) == segs + [s] && Insert(segs, 0, s) == [s] + segs
  {}

  /** Beyond all coverage nothing is joined. */
  lemma NoneBeyond(t: Trace, r: Record)
    requires Good(t)
    requires r.starttime - Period(r.samprate) - Period(r.samprate) / 2 > t.latest || EndTime(r) + Period(r.samprate) + Period(r.samprate) / 2 < t.earliest
    ensures !SomeEnd(t.segs, r) && !SomeStart(t.segs, r)
  {
    hide Good, JoinsEnd, JoinsStart, EndTime, Period;
    forall i | 0 <= i < |t.segs| ensures !JoinsEnd(t.segs[i], r) && !JoinsStart(t.segs[i], r) {
      NotBeyond(t, r, i);
    }
  }

  /** What the search of the complete list makes of the segments. */
  lemma SearchPlaces(t: Trace, r: Record, autoheal: bool)
    requires Good(t) && TypesFit(t, r) && Period(r.samprate) > 0 && |t.segs| > 0
    requires !JoinsEnd(t.segs[|t.segs| - 1], r) && !JoinsStart(t.segs[0], r)
    ensures var f := Search(t.segs, r, autoheal, 0, NOTHING);
            InList(f, |t.segs|) &&
            var p := PlaceFound(t.segs, r, f);
            && p.ok
            && (!SomeEnd(t.segs, r) && !SomeStart(t.segs, r) ==> Begun(p.segs, t.segs, r))
            && (Closes(t, r, autoheal) ==> exists i: nat, j: nat :: Heals(p.segs, t.segs, i, j, r))
            && ((SomeEnd(t.segs, r) || SomeStart(t.segs, r)) && !Closes(t, r, autoheal) ==>
                  exists i: nat :: Appends(p.segs, t.segs, i, r) || Prepends(p.segs, t.segs, i, r))
  {
    hide Sorted, AllCoherent, Tracks, FitsAfter, FitsBefore, RateFits, JoinsEnd, JoinsStart, PlaceFound, EndTime, Period, Begun, Appends, Prepends, Heals, Search;
    var segs := t.segs;
    var f := Search(segs, r, autoheal, 0, NOTHING);
    SearchInList(segs, r, autoheal, 0, NOTHING);
    SearchJustified(segs, r, autoheal, 0, NOTHING);
    SearchFinds(segs, r, autoheal, 0, NOTHING);
    if autoheal {
      forall i | 0 <= i < |segs| ensures segs[i].starttime <= segs[i].endtime {
        Enclosed(t, i);
      }
      SearchFindsBoth(segs, r, 0, NOTHING);
    } else {
      SearchFindsOne(segs, r, 0, NOTHING);
    }
    if f.before.Some? {
      JoinsAreFits(segs[f.before.value], r);
    }
    if f.after.Some? {
      JoinsAreFits(segs[f.after.value], r);
    }
    if f.before.Some? && f.after.Some? {
      FoundBoth(segs, r, f);
    } else if f.before.Some? {
      FoundBefore(segs, r, f);
    } else if f.after.Some? {
      FoundAfter(segs, r, f);
    } else {
      FoundNone(segs, r, f);
    }
  }

  /** How the number of segments changes. */
  lemma SegmentCount(t: Trace, r: Record, autoheal: bool)
    requires |t.segs| > 0 && Good(t) && TypesFit(t, r) && Period(r.samprate) > 0
    ensures |AddTo(t, r, autoheal).1.segs| - |t.segs|
         == if !SomeEnd(t.segs, r) && !SomeStart(t.segs, r) then 1 else if Closes(t, r, autoheal) then -1 else 0
  {
    hide *;
    WhereItGoes(t, r, autoheal);
    var now := AddTo(t, r, autoheal).1.segs;
    if !SomeEnd(t.segs, r) && !SomeStart(t.segs, r) {
      NoneCloses(t, r, autoheal);
      BegunCounts(now, t.segs, r);
    } else if Closes(t, r, autoheal) {
      var i: nat, j: nat :| Heals(now, t.segs, i, j, r);
      HealsCounts(now, t.segs, i, j, r);
    } else {
      var i: nat :| Appends(now, t.segs, i, r) || Prepends(now, t.segs, i, r);
      JoinedCounts(now, t.segs, i, r);
    }
  }

  lemma NoneCloses(t: Trace, r: Record, autoheal: bool)
    ensures Closes(t, r, autoheal) ==> SomeEnd(t.segs, r) && SomeStart(t.segs, r)
  {}

  lemma BegunCounts(now: seq<Segment>, segs: seq<Segment>, r: Record)
    requires Begun(now, segs, r)
    ensures |now| == |segs| + 1
  {
    hide Alone;
    var s :| Alone(s, r) && multiset(now) == multiset(segs) + multiset{s};
    assert |now| == |multiset(now)| == |multiset(segs)| + 1;
  }

  lemma HealsCounts(now: seq<Segment>, segs: seq<Segment>, i: nat, j: nat, r: Record)
    requires Heals(now, segs, i, j, r)
    ensures |now| == |segs| - 1
  {
    hide Healed, JoinsEnd, JoinsStart;
    var s :| Healed(s, segs[i], r, segs[j]) && multiset(now) + multiset{segs[i]} + multiset{segs[j]} == multiset(segs) + multiset{s};
    assert |multiset(now) + multiset{segs[i]} + multiset{segs[j]}| == |multiset(now)| + 2 == |now| + 2;
    assert |multiset(segs) + multiset{s}| == |multiset(segs)| + 1 == |segs| + 1;
  }

  lemma JoinedCounts(now: seq<Segment>, segs: seq<Segment>, i: nat, r: Record)
    requires Appends(now, segs, i, r) || Prepends(now, segs, i, r)
    ensures |now| == |segs|
  {
    hide AtEnd, AtStart, JoinsEnd, JoinsStart;
    var s :| multiset(now) == multiset(segs[i := s]);
    assert |now| == |multiset(now)| == |multiset(segs[i := s])| == |segs[i := s]|;
  }

  // ----------------------------------------------------------- a series in order of time

  /** Records of one kind, each in step with the one before it. */
  predicate OneAfterAnother(rs: seq<Record>) {
    && |rs| > 0 && rs[0].samprate != 0.0
    && (forall k | 0 <= k < |rs| :: rs[k].samprate == rs[0].samprate && rs[k].sampletype == rs[0].sampletype)
    && forall k | 0 < k < |rs| :: O.InStep(rs[k - 1], rs[k], Period(rs[0].samprate))
  }

  /** The segment is all of these records. */
  predicate MadeOf(s: Segment, rs: seq<Record>)
    requires |rs| > 0
  {
    && s.records == rs && s.starttime == rs[0].starttime && s.endtime == EndTime(rs[|rs| - 1])
    && s.samprate == Hertz(rs[0].samprate) && s.sampletype == rs[0].sampletype
    && s.datasamples == Data(rs) && s.samplecnt == Count(rs)
  }

  /** The list has one trace ID with one segment, which is all of these records. */
  ghost predicate OneSegment(list: Option<seq<L.Entry>>, rs: seq<Record>, split: bool)
    requires |rs| > 0
  {
    && list.Some? && |list.value| == 1
    && var t := list.value[0].trace; O.OneEntry(list, rs[0], t, split) && |t.segs| == 1 && MadeOf(t.segs[0], rs)
  }

  /** The records of the additions. */
  function Of(adds: seq<L.Addition>): (rs: seq<Record>)
    ensures |rs| == |adds|
  {
    seq(|adds|, i requires 0 <= i < |adds| => adds[i].record)
  }

  lemma HertzNotZero(samprate: real)
    requires samprate != 0.0
    ensures Hertz(samprate) > 0.0 || Hertz(samprate) < 0.0
  {
    HertzIs(samprate);
  }

  /** One more record behind the only segment. */
  lemma JoinsNext(t: Trace, rs: seq<Record>, r: Record, autoheal: bool)
    requires |rs| > 0 && |t.segs| == 1 && MadeOf(t.segs[0], rs) && OneAfterAnother(rs + [r])
    ensures AddTo(t, r, autoheal).0 && |AddTo(t, r, autoheal).1.segs| == 1 && MadeOf(AddTo(t, r, autoheal).1.segs[0], rs + [r])
  {
    hide AddTo, Period, EndTime, Hertz, Data, Count;
    var all, n := rs + [r], |rs|;
    assert all[n] == r && all[n - 1] == rs[n - 1] && all[0] == rs[0];
    assert O.InStep(all[n - 1], all[n], Period(all[0].samprate));
    HertzNotZero(rs[0].samprate);
    assert JoinsEnd(t.segs[0], r);
    LastIsJoined(t, r, autoheal);
    SumsMore(rs, r);
    OnlyOne(AddTo(t, r, autoheal).1.segs, t.segs, r);
  }

  lemma OnlyOne(now: seq<Segment>, segs: seq<Segment>, r: Record)
    requires |segs| == 1 && Appends(now, segs, 0, r)
    ensures |now| == 1 && AtEnd(now[0], segs[0], r)
  {
    hide JoinsEnd, AtEnd;
    JoinedCounts(now, segs, 0, r);
    var s :| AtEnd(s, segs[0], r) && multiset(now) == multiset(segs[0 := s]);
    assert now[0] in multiset(now);
  }

  lemma StartsSegment(r: Record)
    ensures |NewTrace(r).segs| == 1 && MadeOf(NewTrace(r).segs[0], [r])
  {
    SumsOne(r);
    hide EndTime, Hertz;
  }

  /**
   * Records of a series, each within half a period of where the one before it leads, end in one
   * segment with all their data in order, with autoheal or without.
   */
  lemma {:induction false} SeriesJoins(adds: seq<L.Addition>, split: bool)
    requires OneAfterAnother(Of(adds)) && O.OneName(Of(adds), split)
    ensures OneSegment(L.AddAll(adds, split), Of(adds), split)
  {
    hide L.AddAll, L.AddRecord, L.Refused, AddTo, MadeOf, NewTrace;
    var n, rs := |adds| - 1, Of(adds);
    O.AddAllLast(adds, split);
    if n == 0 {
      assert adds[..0] == [] && rs == [rs[0]];
      O.FirstArrives(rs[0], split, adds[0].autoheal);
      StartsSegment(rs[0]);
    } else {
      assert Of(adds[..n]) == rs[..n] && rs == rs[..n] + [rs[n]];
      SeriesJoins(adds[..n], split);
      var t := L.AddAll(adds[..n], split).value[0].trace;
      JoinsNext(t, rs[..n], rs[n], adds[n].autoheal);
      O.NextArrives(rs[0], t, rs[n], split, adds[n].autoheal);
    }
  }

  /** Segments stand in the order of their starts, of those that start together the longer first. */
  lemma InTimeOrder(t: Trace, i: nat, j: nat)
    requires Good(t) && i < j < |t.segs|
    ensures t.segs[i].starttime <= t.segs[j].starttime
    ensures t.segs[i].starttime == t.segs[j].starttime ==> t.segs[i].endtime >= t.segs[j].endtime
  {
    hide AllCoherent, Tracks;
    assert !OutOfOrder(t.segs[i], t.segs[j]);
  }

  /**
   * Single samples at 1 Hz, each half a second after the one before: when the third arrives before
   * the second it takes its place, and the second begins a segment of its own.
   */
  lemma CloseRecordsSplit(a: Record, b: Record, c: Record)
    requires a.samplecnt == 1 && b.samplecnt == 1 && c.samplecnt == 1 && a.samprate == 1.0 && b.samprate == 1.0 && c.samprate == 1.0
    requires a.sampletype == b.sampletype == c.sampletype && b.starttime == a.starttime + 500_000_000 && c.starttime == a.starttime + 1_000_000_000
    ensures OneAfterAnother([a, b, c])
    ensures var t := AddTo(NewTrace(a), c, true).1; |t.segs| == 1 && |AddTo(t, b, true).1.segs| == 2
  {
    hide *;
    StartsSegment(a);
    Half(a, b, c);
    TwoJoin(a, c);
    BetweenJoinsNone(AddTo(NewTrace(a), c, true).1, [a, c], b);
  }

  lemma Half(a: Record, b: Record, c: Record)
    requires a.samplecnt == 1 && b.samplecnt == 1 && c.samplecnt == 1 && a.samprate == 1.0 && b.samprate == 1.0 && c.samprate == 1.0
    requires a.sampletype == b.sampletype == c.sampletype && b.starttime == a.starttime + 500_000_000 && c.starttime == a.starttime + 1_000_000_000
    ensures OneAfterAnother([a, b, c]) && OneAfterAnother([a, c]) && Period(b.samprate) > 0
    ensures EndTime(c) >= b.starttime && EndTime(b) >= a.starttime
  {
    OneHertz();
    EndsAtStart(a);
    EndsAtStart(b);
    EndsAtStart(c);
    hide Period, EndTime;
  }

  lemma EndsAtStart(r: Record)
    requires r.samplecnt == 1
    ensures EndTime(r) == r.starttime
  {}

  lemma TwoJoin(a: Record, c: Record)
    requires OneAfterAnother([a, c])
    ensures var t := AddTo(NewTrace(a), c, true).1; Good(t) && |t.segs| == 1 && MadeOf(t.segs[0], [a, c])
  {
    hide *;
    assert [a] + [c] == [a, c];
    StartsSegment(a);
    JoinsNext(NewTrace(a), [a], c, true);
    FirstGood(a, c);
  }

  lemma FirstGood(a: Record, c: Record)
    requires AddTo(NewTrace(a), c, true).0
    ensures Good(AddTo(NewTrace(a), c, true).1)
  {
    hide *;
    NewGood(a);
    AddKeeps(NewTrace(a), c, true);
  }

  /** A record that begins and ends within the coverage of the only segment is not joined to it. */
  lemma BetweenJoinsNone(t: Trace, rs: seq<Record>, r: Record)
    requires |rs| > 0 && Good(t) && |t.segs| == 1 && MadeOf(t.segs[0], rs)
    requires rs[0].samprate == r.samprate && Period(r.samprate) > 0 && rs[0].sampletype == r.sampletype
    requires EndTime(rs[|rs| - 1]) >= r.starttime && EndTime(r) >= rs[0].starttime
    ensures |AddTo(t, r, true).1.segs| == 2
  {
    hide AddTo, Good, Period, EndTime, Hertz, NearRate;
    assert !JoinsEnd(t.segs[0], r) && !JoinsStart(t.segs[0], r);
    SegmentCount(t, r, true);
  }

  lemma OneHertz()
    ensures Period(1.0) == 1_000_000_000 && Hertz(1.0) == 1.0
  {}

  // --------------------------------------------------------------- arrival in another order

  /** The numbers below n in some order. */
  predicate Order(order: seq<nat>, n: nat) {
    && |order| == n && (forall i | 0 <= i < n :: order[i] < n)
    && forall i, j | 0 <= i < j < n :: order[i] != order[j]
  }

  /** Records that arrive in this order make one segment of all of them. */
  ghost predicate MakesOne(rs: seq<Record>, order: seq<nat>)
    requires |rs| > 0 && Order(order, |rs|)
  {
    var t := O.AddInOrder(NewTrace(rs[order[0]]), rs, order[1..]);
    |t.segs| == 1 && t.segs[0].records == rs
  }

  /**
   * With autoheal every order of arrival makes one segment of the records exactly when each of them
   * begins more than one and a half periods after the one before the last ends.
   */
  lemma AnyOrderExactly(rs: seq<Record>)
    requires OneAfterAnother(rs) && Period(rs[0].samprate) > 0
    ensures (forall order | Order(order, |rs|) :: MakesOne(rs, order))
       <==> forall k | 1 < k < |rs| :: 2 * (rs[k].starttime - EndTime(rs[k - 2])) > 3 * Period(rs[0].samprate)
  {
    hide EndTime, Period, MakesOne;
    if forall k | 1 < k < |rs| :: 2 * (rs[k].starttime - EndTime(rs[k - 2])) > 3 * Period(rs[0].samprate) {
      forall order | Order(order, |rs|) ensures MakesOne(rs, order) {
        SeriesMakesOne(rs, order);
      }
    } else {
      var k :| 1 < k < |rs| && !(2 * (rs[k].starttime - EndTime(rs[k - 2])) > 3 * Period(rs[0].samprate));
      LateSplits(rs, k - 1);
      LateOrder(|rs|, k - 1);
    }
  }

  lemma SeriesMakesOne(rs: seq<Record>, order: seq<nat>)
    requires O.Series(rs) && Order(order, |rs|)
    ensures MakesOne(rs, order)
  {
    hide O.Series, O.AddInOrder;
    O.AnyOrder(rs, order);
  }

  /** All numbers below n in their order, but m at the end. */
  function Late(n: nat, m: nat): (order: seq<nat>)
    requires m < n
    ensures |order| == n && forall i | 0 <= i < n :: order[i] < n
  {
    seq(n, i requires 0 <= i < n => if i < m then i else if i < n - 1 then i + 1 else m)
  }

  lemma LateOrder(n: nat, m: nat)
    requires m < n
    ensures Order(Late(n, m), n)
  {}

  /** The series without record m. */
  function Without(rs: seq<Record>, m: nat): (less: seq<Record>)
    requires m < |rs|
    ensures |less| == |rs| - 1
  {
    rs[..m] + rs[m + 1..]
  }

  /** Record m begins and ends close enough to its neighbours for them to join without it. */
  predicate Close(rs: seq<Record>, m: nat)
    requires 0 < m < |rs| - 1
  {
    2 * (rs[m + 1].starttime - EndTime(rs[m - 1])) <= 3 * Period(rs[0].samprate)
  }

  lemma WithoutIsSeries(rs: seq<Record>, m: nat)
    requires OneAfterAnother(rs) && 0 < m < |rs| - 1 && Close(rs, m)
    ensures OneAfterAnother(Without(rs, m))
  {
    hide EndTime, Period;
    var less, period := Without(rs, m), Period(rs[0].samprate);
    O.Lasts(rs[m]);
    assert O.InStep(rs[m - 1], rs[m], period) && O.InStep(rs[m], rs[m + 1], period);
    forall k | 0 < k < |less| ensures O.InStep(less[k - 1], less[k], period) {
      if k != m {
        var at := if k < m then k else k + 1;
        assert O.InStep(rs[at - 1], rs[at], period) && less[k] == rs[at] && less[k - 1] == rs[at - 1];
      }
    }
  }

  /** The first j records in that order. */
  function LateTrace(rs: seq<Record>, m: nat, j: nat): Trace
    requires m < |rs| && 0 < j <= |rs|
  {
    O.AddInOrder(NewTrace(rs[0]), rs, Late(|rs|, m)[1..j])
  }

  lemma LateAdds(rs: seq<Record>, m: nat, j: nat)
    requires m < |rs| && 0 < j < |rs|
    ensures |LateTrace(rs, m, j).segs| > 0
    ensures LateTrace(rs, m, j + 1) == AddTo(LateTrace(rs, m, j), if j < |rs| - 1 then Without(rs, m)[j] else rs[m], true).1
  {
    hide AddTo, NewTrace;
    var order := Late(|rs|, m);
    assert |NewTrace(rs[0]).segs| > 0 by {
      StartsSegment(rs[0]);
    }
    var more := order[1..j + 1];
    assert more[..|more| - 1] == order[1..j] && more[|more| - 1] == order[j];
  }

  /** Records that arrive in their order, all but one, make one segment. */
  lemma {:induction false} OthersJoin(rs: seq<Record>, m: nat, j: nat)
    requires 0 < m < |rs| - 1 && OneAfterAnother(Without(rs, m)) && 0 < j < |rs|
    ensures var t := LateTrace(rs, m, j);
            Good(t) && |t.segs| == 1 && MadeOf(t.segs[0], Without(rs, m)[..j])
  {
    hide AddTo, NewTrace, Good, MadeOf, OneAfterAnother, LateTrace;
    var less := Without(rs, m);
    if j == 1 {
      OneJoins(rs, m);
    } else {
      OthersJoin(rs, m, j - 1);
      LateAdds(rs, m, j - 1);
      assert less[..j] == less[..j - 1] + [less[j - 1]];
      SeriesPrefix(less, j);
      JoinsNext(LateTrace(rs, m, j - 1), less[..j - 1], less[j - 1], true);
      AddKeeps(LateTrace(rs, m, j - 1), less[j - 1], true);
    }
  }

  lemma OneJoins(rs: seq<Record>, m: nat)
    requires 0 < m < |rs| - 1
    ensures var t := LateTrace(rs, m, 1); Good(t) && |t.segs| == 1 && MadeOf(t.segs[0], Without(rs, m)[..1])
  {
    hide NewTrace, Good, MadeOf;
    assert Without(rs, m)[..1] == [rs[0]];
    StartsSegment(rs[0]);
    NewGood(rs[0]);
    assert Late(|rs|, m)[1..1] == [];
  }

  lemma SeriesPrefix(rs: seq<Record>, j: nat)
    requires OneAfterAnother(rs) && 0 < j <= |rs|
    ensures OneAfterAnother(rs[..j])
  {
    hide EndTime, Period;
  }

  lemma {:induction false} EndsLater(rs: seq<Record>, i: nat, j: nat)
    requires OneAfterAnother(rs) && i <= j < |rs|
    ensures rs[i].starttime <= EndTime(rs[j])
  {
    hide EndTime, Period;
    O.Lasts(rs[j]);
    if i < j {
      EndsLater(rs, i, j - 1);
      assert O.InStep(rs[j - 1], rs[j], Period(rs[0].samprate));
      PeriodNotNegative(rs[0].samprate);
    }
  }

  /** A record that arrives when its neighbours have joined begins a segment of its own. */
  lemma LateSplits(rs: seq<Record>, m: nat)
    requires OneAfterAnother(rs) && Period(rs[0].samprate) > 0 && 0 < m < |rs| - 1 && Close(rs, m)
    ensures Order(Late(|rs|, m), |rs|) && !MakesOne(rs, Late(|rs|, m))
  {
    hide AddTo, NewTrace, Good, MadeOf, EndTime, Period, Close, LateTrace, O.AddInOrder;
    var n, less := |rs|, Without(rs, m);
    LateOrder(n, m);
    WithoutIsSeries(rs, m);
    OthersJoin(rs, m, n - 1);
    LateAdds(rs, m, n - 1);
    assert less[..n - 1] == less && less[0] == rs[0] && less[n - 2] == rs[n - 1];
    EndsLater(rs, m, n - 1);
    EndsLater(rs, 0, m);
    BetweenJoinsNone(LateTrace(rs, m, n - 1), less, rs[m]);
    LateIsAll(rs, m);
  }

  lemma LateIsAll(rs: seq<Record>, m: nat)
    requires 0 < m < |rs| && Order(Late(|rs|, m), |rs|) && |LateTrace(rs, m, |rs|).segs| == 2
    ensures !MakesOne(rs, Late(|rs|, m))
  {
    hide NewTrace, O.AddInOrder;
    assert Late(|rs|, m)[1..] == Late(|rs|, m)[1..|rs|];
  }
}
