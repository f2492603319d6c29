/**
 * The segments of one trace ID as values: what adding a record makes of them, and what
 * every way of adding one keeps.
 */
module TraceSegments {
  import opened Wrappers
  import opened SampleTimes

  type Sample = int

  /** A record; `behind` is the byte that its array of 64 has behind the NUL of the source identifier. */
  datatype Record = Record(sid: string, behind: nat, pubversion: nat, starttime: int, samprate: real,
                           samplecnt: nat, sampletype: char, datasamples: seq<Sample>)

  /** A segment, with the records it was made from in time order. */
  datatype Segment = Segment(starttime: int, endtime: int, samprate: real, samplecnt: nat,
                             sampletype: char, datasamples: seq<Sample>, records: seq<Record>)

  /** msr3_endtime */
  function EndTime(r: Record): int {
    SampleTime(r.starttime, r.samplecnt - 1, r.samprate)
  }

  /** The end of a record is the time of its last sample. */
  lemma EndTimeOnTime(r: Record)
    ensures OnTime(r.starttime, r.samplecnt - 1, r.samprate, EndTime(r))
  {
    SampleOnTime(r.starttime, r.samplecnt - 1, r.samprate);
  }

  /** MS_ISRATETOLERABLE; a quotient by zero is never tolerable. */
  predicate RateTolerable(a: real, b: real) {
    b != 0.0 && -0.0001 < 1.0 - a / b < 0.0001
  }

  predicate RateFits(r: Record, s: Segment) {
    RateTolerable(Hertz(r.samprate), s.samprate)
  }

  /** A gap that is off the sample period by no more than half of it. */
  predicate Within(gap: int, period: int) {
    -(period / 2) <= gap - period <= period / 2
  }

  predicate FitsAfter(s: Segment, r: Record) {
    Within(r.starttime - s.endtime, Period(r.samprate))
  }

  predicate FitsBefore(s: Segment, r: Record) {
    Within(s.starttime - EndTime(r), Period(r.samprate))
  }

  predicate TypeFits(r: Record, s: Segment) {
    r.datasamples != [] ==> r.sampletype == s.sampletype
  }

  /** mstl3_msr2seg */
  function Fresh(r: Record): Segment {
    Segment(r.starttime, EndTime(r), Hertz(r.samprate), r.samplecnt, r.sampletype, r.datasamples, [r])
  }

  /** mstl3_addmsrtoseg at the end of a segment */
  function Appended(s: Segment, r: Record): Segment {
    s.(endtime := EndTime(r), samplecnt := s.samplecnt + r.samplecnt,
       datasamples := s.datasamples + r.datasamples, records := s.records + [r])
  }

  /** mstl3_addmsrtoseg at the beginning of a segment */
  function Prepended(s: Segment, r: Record): Segment {
    s.(starttime := r.starttime, samplecnt := s.samplecnt + r.samplecnt,
       datasamples := r.datasamples + s.datasamples, records := [r] + s.records)
  }

  /** mstl3_addsegtoseg */
  function Joined(s: Segment, t: Segment): Segment {
    s.(endtime := t.endtime, samplecnt := s.samplecnt + t.samplecnt,
       datasamples := s.datasamples + t.datasamples, records := s.records + t.records)
  }

  // ------------------------------------------------------------------ where a record goes

  /** What the search of the segment list has seen: where the record fits, and what it follows. */
  datatype Found = Found(before: Option<nat>, after: Option<nat>, follow: Option<nat>)

  /** How the record fits a segment: 1 after it, 2 before it, 0 not at all. */
  function Whence(s: Segment, r: Record, f: Found): (w: nat)
    ensures w <= 2 && (w == 1 ==> f.before.None?) && (w == 2 ==> f.after.None?)
  {
    if f.after.None? && FitsBefore(s, r) then 2
    else if f.before.None? && FitsAfter(s, r) then 1
    else 0
  }

  /** One round of the search. */
  function Looked(s: Segment, k: nat, r: Record, f: Found): Found {
    var f := if r.starttime > s.starttime then f.(follow := Some(k)) else f;
    if !RateFits(r, s) then f
    else match Whence(s, r, f)
      case 0 => f
      case 1 => f.(before := Some(k))
      case _ => f.(after := Some(k))
  }

  /** The search is over: with autoheal when both neighbours are found, otherwise when one is. */
  predicate Settled(f: Found, autoheal: bool) {
    if autoheal then f.before.Some? && f.after.Some? else f.before.Some? || f.after.Some?
  }

  /** The search from segment k on. */
  function Search(segs: seq<Segment>, r: Record, autoheal: bool, k: nat, f: Found): Found
    requires k <= |segs|
    decreases |segs| - k
  {
    if k == |segs| then f
    else
      var f := Looked(segs[k], k, r, f);
      if Settled(f, autoheal) then f else Search(segs, r, autoheal, k + 1, f)
  }

  const NOTHING := Found(None, None, None)

  /** What adding coverage yields: whether it succeeds, the segments, and the one to sort into place. */
  datatype Placed = Placed(ok: bool, segs: seq<Segment>, at: nat)

  function Insert(segs: seq<Segment>, at: nat, s: Segment): seq<Segment>
    requires at <= |segs|
  {
    segs[..at] + [s] + segs[at..]
  }

  function Remove(segs: seq<Segment>, at: nat): seq<Segment>
    requires at < |segs|
  {
    segs[..at] + segs[at + 1..]
  }

  /** The places the search found are in the list, and no segment is found twice. */
  predicate InList(f: Found, n: nat) {
    && (f.before.Some? ==> f.before.value < n)
    && (f.after.Some? ==> f.after.value < n)
    && (f.follow.Some? ==> f.follow.value < n)
    && (f.before.Some? ==> f.before != f.after)
  }

  /** The search of the complete segment list found these. */
  function PlaceFound(segs: seq<Segment>, r: Record, f: Found): (p: Placed)
    requires InList(f, |segs|)
    ensures |p.segs| > 0 && (p.ok ==> p.at < |p.segs|)
  {
    match f
    case Found(Some(i), None, _) =>
      if TypeFits(r, segs[i]) then Placed(true, segs[i := Appended(segs[i], r)], i) else Placed(false, segs, i)
    case Found(Some(i), Some(j), _) =>
      if !TypeFits(r, segs[i]) then Placed(false, segs, i)
      else
        var s := Appended(segs[i], r);
        if segs[j].datasamples != [] && segs[j].sampletype != s.sampletype then Placed(false, segs[i := s], i)
        else Placed(true, Remove(segs[i := Joined(s, segs[j])], j), if j < i then i - 1 else i)
    case Found(None, Some(j), _) =>
      if TypeFits(r, segs[j]) then Placed(true, segs[j := Prepended(segs[j], r)], j) else Placed(false, segs, j)
    case Found(None, None, follow) =>
      var at := if follow.Some? then follow.value + 1 else 0;
      Placed(true, Insert(segs, at, Fresh(r)), at)
  }

  lemma {:induction false} SearchInList(segs: seq<Segment>, r: Record, autoheal: bool, k: nat, f: Found)
    requires k <= |segs| && InList(f, k)
    ensures InList(Search(segs, r, autoheal, k, f), |segs|)
    decreases |segs| - k
  {
    hide RateFits, FitsBefore, FitsAfter;
    if k < |segs| {
      SearchInList(segs, r, autoheal, k + 1, Looked(segs[k], k, r, f));
    }
  }

  /** The segments of a trace ID and what is tracked beside them. */
  datatype Trace = Trace(pubversion: nat, earliest: int, latest: int, segs: seq<Segment>)

  /** The first record of a trace ID. */
  function NewTrace(r: Record): Trace {
    Trace(r.pubversion, r.starttime, EndTime(r), [Fresh(r)])
  }

  /** Where the record goes: the simple cases first, then the complete list. */
  function Place(t: Trace, r: Record, autoheal: bool): (p: Placed)
    requires |t.segs| > 0
    ensures |p.segs| > 0 && (p.ok ==> p.at < |p.segs|)
  {
    var n, period := |t.segs| - 1, Period(r.samprate);
    if FitsAfter(t.segs[n], r) && RateFits(r, t.segs[n]) then PlaceFound(t.segs, r, Found(Some(n), None, None))
    else if r.starttime - period - period / 2 > t.latest then Placed(true, t.segs + [Fresh(r)], n + 1)
    else if EndTime(r) + period + period / 2 < t.earliest then Placed(true, [Fresh(r)] + t.segs, 0)
    else if FitsBefore(t.segs[0], r) && RateFits(r, t.segs[0]) then PlaceFound(t.segs, r, Found(None, Some(0), None))
    else
      SearchInList(t.segs, r, autoheal, 0, NOTHING);
      PlaceFound(t.segs, r, Search(t.segs, r, autoheal, 0, NOTHING))
  }

  /** s is out of order before t: segments are sorted by start, then by end the other way. */
  predicate OutOfOrder(s: Segment, t: Segment) {
    s.starttime > t.starttime || (s.starttime == t.starttime && s.endtime < t.endtime)
  }

  function Swapped(segs: seq<Segment>, i: nat): seq<Segment>
    requires i + 1 < |segs|
  {
    segs[i := segs[i + 1]][i + 1 := segs[i]]
  }

  /** Move segment i down the list as far as it must go; where it ends. */
  function Sink(segs: seq<Segment>, i: nat): (r: (seq<Segment>, nat))
    requires i < |segs|
    ensures |r.0| == |segs| && i <= r.1 < |segs|
    decreases |segs| - i
  {
    if i + 1 < |segs| && OutOfOrder(segs[i], segs[i + 1]) then Sink(Swapped(segs, i), i + 1) else (segs, i)
  }

  /** Move segment i up the list as far as it must go. */
  function Rise(segs: seq<Segment>, i: nat): (r: seq<Segment>)
    requires i < |segs|
    ensures |r| == |segs|
    decreases i
  {
    if i > 0 && OutOfOrder(segs[i - 1], segs[i]) then Rise(Swapped(segs, i - 1), i - 1) else segs
  }

  function Resorted(segs: seq<Segment>, i: nat): (r: seq<Segment>)
    requires i < |segs|
    ensures |r| == |segs|
  {
    var (segs, i) := Sink(segs, i);
    Rise(segs, i)
  }

  function Max(a: int, b: int): int {
    if a < b then b else a
  }

  /** What adding a record to a trace ID makes of it, and whether that succeeds. */
  function AddTo(t: Trace, r: Record, autoheal: bool): (a: (bool, Trace))
    requires |t.segs| > 0
    ensures |a.1.segs| > 0
  {
    var p := Place(t, r, autoheal);
    if !p.ok then (false, t.(segs := p.segs))
    else (true, Trace(Max(t.pubversion, r.pubversion), Min(t.earliest, r.starttime), Max(t.latest, EndTime(r)),
                      Resorted(p.segs, p.at)))
  }

  // ------------------------------------------------------------------------- the order

  ghost predicate Sorted(segs: seq<Segment>) {
    forall i, j | 0 <= i < j < |segs| :: !OutOfOrder(segs[i], segs[j])
  }

  ghost predicate SortedBut(segs: seq<Segment>, at: nat) {
    forall i, j | 0 <= i < j < |segs| && i != at && j != at :: !OutOfOrder(segs[i], segs[j])
  }

  ghost predicate SortedFrom(segs: seq<Segment>, at: nat) {
    at < |segs| && forall j | at < j < |segs| :: !OutOfOrder(segs[at], segs[j])
  }

  lemma {:induction false} SinkSorts(segs: seq<Segment>, i: nat)
    requires i < |segs| && SortedBut(segs, i)
    ensures SortedBut(Sink(segs, i).0, Sink(segs, i).1) && SortedFrom(Sink(segs, i).0, Sink(segs, i).1)
    ensures multiset(Sink(segs, i).0) == multiset(segs)
    decreases |segs| - i
  {
    if i + 1 < |segs| && OutOfOrder(segs[i], segs[i + 1]) {
      SinkSorts(Swapped(segs, i), i + 1);
    }
  }

  lemma {:induction false} RiseSorts(segs: seq<Segment>, i: nat)
    requires i < |segs| && SortedBut(segs, i) && SortedFrom(segs, i)
    ensures Sorted(Rise(segs, i)) && multiset(Rise(segs, i)) == multiset(segs)
    decreases i
  {
    hide SortedBut, SortedFrom, Sorted, OutOfOrder;
    if i > 0 && OutOfOrder(segs[i - 1], segs[i]) {
      RiseStep(segs, i);
      RiseSorts(Swapped(segs, i - 1), i - 1);
    } else {
      RisenIsSorted(segs, i);
    }
  }

  lemma RiseStep(segs: seq<Segment>, i: nat)
    requires 0 < i < |segs| && SortedBut(segs, i) && SortedFrom(segs, i) && OutOfOrder(segs[i - 1], segs[i])
    ensures SortedBut(Swapped(segs, i - 1), i - 1) && SortedFrom(Swapped(segs, i - 1), i - 1)
    ensures multiset(Swapped(segs, i - 1)) == multiset(segs)
  {}

  lemma RisenIsSorted(segs: seq<Segment>, i: nat)
    requires i < |segs| && SortedBut(segs, i) && SortedFrom(segs, i) && (i > 0 ==> !OutOfOrder(segs[i - 1], segs[i]))
    ensures Sorted(segs)
  {
    forall j | 0 <= j < i ensures !OutOfOrder(segs[j], segs[i]) {
      assert j < i - 1 ==> !OutOfOrder(segs[j], segs[i - 1]);
    }
  }

  /** One segment out of place is put into place, and nothing is lost. */
  lemma ResortedSorts(segs: seq<Segment>, i: nat)
    requires i < |segs| && SortedBut(segs, i)
    ensures Sorted(Resorted(segs, i)) && multiset(Resorted(segs, i)) == multiset(segs)
  {
    SinkSorts(segs, i);
    RiseSorts(Sink(segs, i).0, Sink(segs, i).1);
  }
}
