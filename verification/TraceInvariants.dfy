/**
 * What adding records to a trace ID keeps: the segments are sorted, every record added is in
 * exactly one of them, and each segment is the gapless concatenation of its records.
 */
module TraceInvariants {
  import opened Wrappers
  import opened SampleTimes
  import opened TraceSegments

  // ------------------------------------------------------------------- one segment

  function Count(records: seq<Record>): nat {
    if records == [] then 0 else Count(records[..|records| - 1]) + records[|records| - 1].samplecnt
  }

  function Data(records: seq<Record>): seq<Sample> {
    if records == [] then [] else Data(records[..|records| - 1]) + records[|records| - 1].datasamples
  }

  lemma {:induction false} Sums(rs: seq<Record>, qs: seq<Record>)
    ensures Count(rs + qs) == Count(rs) + Count(qs) && Data(rs + qs) == Data(rs) + Data(qs)
  {
    SumsNone();
    hide Count, Data;
    if qs == [] {
      assert rs + qs == rs;
    } else {
      var less, r := qs[..|qs| - 1], qs[|qs| - 1];
      Sums(rs, less);
      SumsMore(less, r);
      SumsMore(rs + less, r);
      assert qs == less + [r] && rs + qs == rs + less + [r];
    }
  }

  lemma SumsNone()
    ensures Count([]) == 0 && Data([]) == []
  {}

  lemma SumsMore(rs: seq<Record>, r: Record)
    ensures Count(rs + [r]) == Count(rs) + r.samplecnt && Data(rs + [r]) == Data(rs) + r.datasamples
  {
    assert (rs + [r])[..|rs|] == rs;
  }

  lemma SumsOne(r: Record)
    ensures Count([r]) == r.samplecnt && Data([r]) == r.datasamples
  {
    assert [r][..0] == [];
  }

  /** b starts one sample period after a ends, give or take half a period of one of the two. */
  predicate Follows(a: Record, b: Record) {
    var gap := b.starttime - EndTime(a);
    Within(gap, Period(a.samprate)) || Within(gap, Period(b.samprate))
  }

  predicate Steady(records: seq<Record>) {
    forall k | 0 <= k < |records| - 1 :: Follows(records[k], records[k + 1])
  }

  /** The record lies within the times and, if it has data, is of the type. */
  predicate Inside(r: Record, starttime: int, endtime: int, sampletype: char) {
    starttime <= r.starttime <= EndTime(r) <= endtime && (r.datasamples != [] ==> r.sampletype == sampletype)
  }

  /** A segment is what its records make: their times, their counts, their data in time order. */
  predicate Coherent(s: Segment) {
    && |s.records| > 0
    && s.starttime == s.records[0].starttime && s.endtime == EndTime(s.records[|s.records| - 1])
    && s.samplecnt == Count(s.records) && s.datasamples == Data(s.records)
    && Steady(s.records)
    && forall k | 0 <= k < |s.records| :: Inside(s.records[k], s.starttime, s.endtime, s.sampletype)
  }

  lemma FreshCoherent(r: Record)
    ensures Coherent(Fresh(r))
  {
    SumsOne(r);
    SampleTimeForward(r.starttime, r.samplecnt - 1, r.samprate);
  }

  lemma {:induction false} NoData(records: seq<Record>, k: nat)
    requires Data(records) == [] && k < |records|
    ensures records[k].datasamples == []
  {
    if k < |records| - 1 {
      NoData(records[..|records| - 1], k);
    }
  }

  /** Two segments whose touching records follow each other make one. */
  lemma JoinedCoherent(s: Segment, t: Segment)
    requires Coherent(s) && Coherent(t)
    requires t.datasamples != [] ==> t.sampletype == s.sampletype
    requires Follows(s.records[|s.records| - 1], t.records[0])
    ensures Coherent(Joined(s, t))
  {
    hide EndTime;
    Sums(s.records, t.records);
    var a, b := s.records[|s.records| - 1], t.records[0];
    PeriodNotNegative(a.samprate);
    PeriodNotNegative(b.samprate);
    forall k | 0 <= k < |t.records| ensures t.datasamples == [] ==> t.records[k].datasamples == [] {
      if t.datasamples == [] {
        NoData(t.records, k);
      }
    }
    assert Inside(a, s.starttime, s.endtime, s.sampletype) && Inside(b, t.starttime, t.endtime, t.sampletype);
    forall k | 0 <= k < |s.records + t.records| ensures Inside((s.records + t.records)[k], s.starttime, t.endtime, s.sampletype) {
      if k < |s.records| {
        assert Inside(s.records[k], s.starttime, s.endtime, s.sampletype);
      } else {
        assert Inside(t.records[k - |s.records|], t.starttime, t.endtime, t.sampletype);
      }
    }
  }

  lemma AppendedCoherent(s: Segment, r: Record)
    requires Coherent(s) && TypeFits(r, s) && FitsAfter(s, r)
    ensures Coherent(Appended(s, r))
  {
    FreshCoherent(r);
    JoinedCoherent(s, Fresh(r));
  }

  lemma PrependedCoherent(s: Segment, r: Record)
    requires Coherent(s) && TypeFits(r, s) && FitsBefore(s, r)
    ensures Coherent(Prepended(s, r))
  {
    FreshCoherent(r);
    // the merged segment takes its rate and type from s
    var t := Fresh(r).(sampletype := s.sampletype, samprate := s.samprate);
    assert Coherent(t);
    JoinedCoherent(t, s);
    assert Joined(t, s) == Prepended(s, r);
  }

  // ------------------------------------------------------------------- all segments

  /** All records of the segments. */
  ghost function Records(segs: seq<Segment>): multiset<Record> {
    if segs == [] then multiset{} else multiset(segs[0].records) + Records(segs[1..])
  }

  lemma RecordsStep(s: Segment, segs: seq<Segment>)
    ensures Records([s] + segs) == multiset(s.records) + Records(segs)
  {
    assert ([s] + segs)[1..] == segs;
  }

  lemma {:induction false} RecordsConcat(segs: seq<Segment>, more: seq<Segment>)
    ensures Records(segs + more) == Records(segs) + Records(more)
  {
    NoRecords();
    hide Records;
    if segs == [] {
      assert segs + more == more;
    } else {
      RecordsConcat(segs[1..], more);
      RecordsStep(segs[0], segs[1..]);
      RecordsStep(segs[0], segs[1..] + more);
      assert segs == [segs[0]] + segs[1..];
      assert segs + more == [segs[0]] + (segs[1..] + more);
    }
  }

  lemma NoRecords()
    ensures Records([]) == multiset{}
  {}

  lemma RecordsOne(s: Segment)
    ensures Records([s]) == multiset(s.records)
  {
    assert [s][1..] == [];
  }

  lemma RecordsInsert(segs: seq<Segment>, at: nat, s: Segment)
    requires at <= |segs|
    ensures Records(Insert(segs, at, s)) == Records(segs) + multiset(s.records)
  {
    hide Records;
    RecordsOne(s);
    RecordsConcat(segs[..at], [s]);
    RecordsConcat(segs[..at] + [s], segs[at..]);
    RecordsConcat(segs[..at], segs[at..]);
    assert segs[..at] + segs[at..] == segs;
  }

  lemma RecordsRemove(segs: seq<Segment>, at: nat)
    requires at < |segs|
    ensures Records(segs) == Records(Remove(segs, at)) + multiset(segs[at].records)
  {
    hide Records;
    RecordsInsert(Remove(segs, at), at, segs[at]);
    assert Insert(Remove(segs, at), at, segs[at]) == segs;
  }

  lemma RecordsUpdate(segs: seq<Segment>, at: nat, s: Segment)
    requires at < |segs|
    ensures Records(segs[at := s]) + multiset(segs[at].records) == Records(segs) + multiset(s.records)
  {
    hide Records;
    RecordsRemove(segs, at);
    RecordsInsert(Remove(segs, at), at, s);
    assert Insert(Remove(segs, at), at, s) == segs[at := s];
  }

  lemma {:induction false} RecordsPermuted(segs: seq<Segment>, other: seq<Segment>)
    requires multiset(segs) == multiset(other)
    ensures Records(segs) == Records(other)
  {
    hide Records;
    if segs == [] {
      assert |other| == |multiset(segs)|;
    } else {
      assert segs == [segs[0]] + segs[1..];
      assert segs[0] in multiset(other);
      var j :| 0 <= j < |other| && other[j] == segs[0];
      assert other == other[..j] + [other[j]] + other[j + 1..];
      assert multiset(segs) == multiset(segs[1..]) + multiset{segs[0]};
      assert multiset(other) == multiset(Remove(other, j)) + multiset{segs[0]};
      Cancel(multiset(segs[1..]), multiset{segs[0]}, multiset(Remove(other, j)));
      RecordsStep(segs[0], segs[1..]);
      RecordsPermuted(segs[1..], Remove(other, j));
      RecordsRemove(other, j);
    }
  }

  lemma Cancel<T>(a: multiset<T>, b: multiset<T>, c: multiset<T>)
    requires a + b == c + b
    ensures a == c
  {
    assert a == (a + b) - b && c == (c + b) - b;
  }

  lemma Rearrange<T>(rest: multiset<T>, a: multiset<T>, b: multiset<T>, all: multiset<T>, one: multiset<T>, s: multiset<T>)
    requires rest + b + a == all + s && s == a + one + b
    ensures rest == all + one
  {
    assert rest + b + a == rest + (a + b);
    assert all + s == all + one + (a + b);
    Cancel(rest, a + b, all + one);
  }

  ghost predicate AllCoherent(segs: seq<Segment>) {
    forall k | 0 <= k < |segs| :: Coherent(segs[k])
  }

  /** What is tracked beside the segments: the first and last time and the largest publication version. */
  ghost predicate Tracks(t: Trace, records: multiset<Record>) {
    && (forall r | r in records :: t.earliest <= r.starttime && EndTime(r) <= t.latest && r.pubversion <= t.pubversion)
    && (exists r | r in records :: r.starttime == t.earliest)
    && (exists r | r in records :: EndTime(r) == t.latest)
    && (exists r | r in records :: r.pubversion == t.pubversion)
  }

  ghost predicate Good(t: Trace) {
    |t.segs| > 0 && Sorted(t.segs) && AllCoherent(t.segs) && Tracks(t, Records(t.segs))
  }

  /** What the search found fits. */
  ghost predicate Justified(segs: seq<Segment>, r: Record, f: Found) {
    && InList(f, |segs|)
    && (f.before.Some? ==> FitsAfter(segs[f.before.value], r) && RateFits(r, segs[f.before.value]))
    && (f.after.Some? ==> FitsBefore(segs[f.after.value], r) && RateFits(r, segs[f.after.value]))
  }

  lemma {:induction false} SearchJustified(segs: seq<Segment>, r: Record, autoheal: bool, k: nat, f: Found)
    requires k <= |segs| && InList(f, k) && Justified(segs, r, f)
    ensures Justified(segs, r, Search(segs, r, autoheal, k, f))
    decreases |segs| - k
  {
    hide RateFits, FitsBefore, FitsAfter;
    if k < |segs| {
      SearchJustified(segs, r, autoheal, k + 1, Looked(segs[k], k, r, f));
    }
  }

  /** Placing a record keeps all but one segment in order, keeps each coherent and loses no record. */
  ghost predicate PlacedWell(p: Placed, segs: seq<Segment>, r: Record) {
    && p.ok && p.at < |p.segs| && SortedBut(p.segs, p.at) && AllCoherent(p.segs)
    && Records(p.segs) == Records(segs) + multiset{r}
  }

  lemma UpdatedWell(segs: seq<Segment>, r: Record, at: nat, s: Segment)
    requires Sorted(segs) && AllCoherent(segs) && at < |segs| && Coherent(s)
    requires multiset(s.records) == multiset(segs[at].records) + multiset{r}
    ensures PlacedWell(Placed(true, segs[at := s], at), segs, r)
  {
    hide Coherent, OutOfOrder, Records;
    RecordsUpdate(segs, at, s);
    Cancel(Records(segs[at := s]), multiset(segs[at].records), Records(segs) + multiset{r});
  }

  lemma InsertedWell(segs: seq<Segment>, r: Record, at: nat)
    requires Sorted(segs) && AllCoherent(segs) && at <= |segs|
    ensures PlacedWell(Placed(true, Insert(segs, at, Fresh(r)), at), segs, r)
  {
    hide Coherent, OutOfOrder, Records;
    FreshCoherent(r);
    RecordsInsert(segs, at, Fresh(r));
  }

  lemma MergedWell(segs: seq<Segment>, r: Record, i: nat, j: nat, s: Segment)
    requires Sorted(segs) && AllCoherent(segs) && i < |segs| && j < |segs| && i != j && Coherent(s)
    requires multiset(s.records) == multiset(segs[i].records) + multiset{r} + multiset(segs[j].records)
    ensures PlacedWell(Placed(true, Remove(segs[i := s], j), if j < i then i - 1 else i), segs, r)
  {
    hide Coherent, OutOfOrder, Records;
    RecordsUpdate(segs, i, s);
    RecordsRemove(segs[i := s], j);
    var rest, a, b := Records(Remove(segs[i := s], j)), multiset(segs[i].records), multiset(segs[j].records);
    Rearrange(rest, a, b, Records(segs), multiset{r}, multiset(s.records));
  }

  lemma PlaceFoundWell(segs: seq<Segment>, r: Record, f: Found)
    requires Sorted(segs) && AllCoherent(segs) && Justified(segs, r, f)
    ensures var p := PlaceFound(segs, r, f); p.ok ==> PlacedWell(p, segs, r)
  {
    hide PlacedWell, FitsAfter, FitsBefore, RateFits, Sorted, Coherent, EndTime;
    match f
    case Found(Some(i), None, _) =>
      if TypeFits(r, segs[i]) {
        AppendedCoherent(segs[i], r);
        UpdatedWell(segs, r, i, Appended(segs[i], r));
      }
    case Found(None, Some(j), _) =>
      if TypeFits(r, segs[j]) {
        PrependedCoherent(segs[j], r);
        UpdatedWell(segs, r, j, Prepended(segs[j], r));
      }
    case Found(None, None, _) =>
      InsertedWell(segs, r, if f.follow.Some? then f.follow.value + 1 else 0);
    case Found(Some(i), Some(j), _) =>
      if PlaceFound(segs, r, f).ok {
        AppendedCoherent(segs[i], r);
        var s := Appended(segs[i], r);
        TouchesNext(segs[j], s, r);
        JoinedCoherent(s, segs[j]);
        MergedWell(segs, r, i, j, Joined(s, segs[j]));
      }
  }

  lemma TouchesNext(t: Segment, s: Segment, r: Record)
    requires Coherent(t) && FitsBefore(t, r) && s.records != [] && s.records[|s.records| - 1] == r
    ensures Follows(s.records[|s.records| - 1], t.records[0])
  {}

  lemma PlaceWell(t: Trace, r: Record, autoheal: bool)
    requires Good(t)
    ensures var p := Place(t, r, autoheal); p.ok ==> PlacedWell(p, t.segs, r)
  {
    hide PlacedWell, FitsAfter, FitsBefore, RateFits, PlaceFound, Search, Tracks, Sorted, AllCoherent, Records, Period, EndTime;
    var n := |t.segs| - 1;
    InsertedWell(t.segs, r, 0);
    InsertedWell(t.segs, r, n + 1);
    assert Insert(t.segs, n + 1, Fresh(r)) == t.segs + [Fresh(r)];
    assert Insert(t.segs, 0, Fresh(r)) == [Fresh(r)] + t.segs;
    if FitsAfter(t.segs[n], r) && RateFits(r, t.segs[n]) {
      PlaceFoundWell(t.segs, r, Found(Some(n), None, None));
    }
    if FitsBefore(t.segs[0], r) && RateFits(r, t.segs[0]) {
      PlaceFoundWell(t.segs, r, Found(None, Some(0), None));
    }
    SearchInList(t.segs, r, autoheal, 0, NOTHING);
    SearchJustified(t.segs, r, autoheal, 0, NOTHING);
    PlaceFoundWell(t.segs, r, Search(t.segs, r, autoheal, 0, NOTHING));
  }

  lemma TracksMore(t: Trace, t': Trace, records: multiset<Record>, r: Record)
    requires Tracks(t, records)
    requires t'.pubversion == Max(t.pubversion, r.pubversion)
    requires t'.earliest == Min(t.earliest, r.starttime) && t'.latest == Max(t.latest, EndTime(r))
    ensures Tracks(t', records + multiset{r})
  {
    hide EndTime;
    var more := records + multiset{r};
    assert r in more;
    var a :| a in records && a.starttime == t.earliest;
    var b :| b in records && EndTime(b) == t.latest;
    var c :| c in records && c.pubversion == t.pubversion;
    assert a in more && b in more && c in more;
  }

  /** Adding a record keeps the invariant and adds that record, once. */
  lemma AddKeeps(t: Trace, r: Record, autoheal: bool)
    requires Good(t) && AddTo(t, r, autoheal).0
    ensures Good(AddTo(t, r, autoheal).1)
    ensures Records(AddTo(t, r, autoheal).1.segs) == Records(t.segs) + multiset{r}
  {
    hide Place, Coherent, EndTime, Resorted, Sorted, SortedBut, Tracks, Records;
    PlaceWell(t, r, autoheal);
    var p := Place(t, r, autoheal);
    var segs := Resorted(p.segs, p.at);
    ResortedSorts(p.segs, p.at);
    RecordsPermuted(p.segs, segs);
    forall k | 0 <= k < |segs| ensures Coherent(segs[k]) {
      assert segs[k] in multiset(segs);
    }
    TracksMore(t, AddTo(t, r, autoheal).1, Records(t.segs), r);
    NotEmpty(segs, p.segs);
  }

  lemma NotEmpty(segs: seq<Segment>, other: seq<Segment>)
    requires multiset(segs) == multiset(other) && |other| > 0
    ensures |segs| > 0
  {
    assert other[0] in multiset(other);
  }

  lemma NewGood(r: Record)
    ensures Good(NewTrace(r)) && Records(NewTrace(r).segs) == multiset{r}
  {
    FreshCoherent(r);
    RecordsOne(Fresh(r));
    assert r in multiset{r};
  }

  // ------------------------------------------------------------------------- failure

  ghost predicate OfType(segs: seq<Segment>, sampletype: char) {
    forall k | 0 <= k < |segs| :: segs[k].sampletype == sampletype
  }

  /** Sample types are all that can stand in the way: with one type the record finds its place. */
  lemma OneTypeFits(t: Trace, r: Record, autoheal: bool)
    requires |t.segs| > 0 && OfType(t.segs, r.sampletype)
    ensures AddTo(t, r, autoheal).0 && OfType(AddTo(t, r, autoheal).1.segs, r.sampletype)
  {
    hide Place, Resorted;
    PlaceOfType(t, r, autoheal);
    var p := Place(t, r, autoheal);
    ResortedPermutes(p.segs, p.at);
    var segs := Resorted(p.segs, p.at);
    forall k | 0 <= k < |segs| ensures segs[k].sampletype == r.sampletype {
      assert segs[k] in multiset(segs);
    }
  }

  lemma PlaceOfType(t: Trace, r: Record, autoheal: bool)
    requires |t.segs| > 0 && OfType(t.segs, r.sampletype)
    ensures Place(t, r, autoheal).ok && OfType(Place(t, r, autoheal).segs, r.sampletype)
  {
    hide RateFits, FitsAfter, FitsBefore, Search, EndTime, Period, PlaceFound;
    var n := |t.segs| - 1;
    SearchInList(t.segs, r, autoheal, 0, NOTHING);
    FoundOfType(t.segs, r, Search(t.segs, r, autoheal, 0, NOTHING));
    FoundOfType(t.segs, r, Found(Some(n), None, None));
    FoundOfType(t.segs, r, Found(None, Some(0), None));
  }

  lemma FoundOfType(segs: seq<Segment>, r: Record, f: Found)
    requires InList(f, |segs|) && OfType(segs, r.sampletype)
    ensures PlaceFound(segs, r, f).ok && OfType(PlaceFound(segs, r, f).segs, r.sampletype)
  {}

  lemma ResortedPermutes(segs: seq<Segment>, i: nat)
    requires i < |segs|
    ensures multiset(Resorted(segs, i)) == multiset(segs)
  {
    SinkPermutes(segs, i);
    RisePermutes(Sink(segs, i).0, Sink(segs, i).1);
  }

  lemma {:induction false} SinkPermutes(segs: seq<Segment>, i: nat)
    requires i < |segs|
    ensures multiset(Sink(segs, i).0) == multiset(segs)
    decreases |segs| - i
  {
    if i + 1 < |segs| && OutOfOrder(segs[i], segs[i + 1]) {
      SinkPermutes(Swapped(segs, i), i + 1);
    }
  }

  lemma {:induction false} RisePermutes(segs: seq<Segment>, i: nat)
    requires i < |segs|
    ensures multiset(Rise(segs, i)) == multiset(segs)
    decreases i
  {
    if i > 0 && OutOfOrder(segs[i - 1], segs[i]) {
      RisePermutes(Swapped(segs, i - 1), i - 1);
    }
  }
}
