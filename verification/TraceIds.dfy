/** The doubly linked list of segments of one trace ID, changed in place. */
module TraceIds {
  import opened Wrappers
  import opened SampleTimes
  import opened TraceSegments
  import opened TraceInvariants

  class TraceSeg {
    var starttime: int
    var endtime: int
    var samprate: real
    var samplecnt: nat
    var datasamples: seq<Sample>
    var numsamples: nat
    var sampletype: char
    var prev: TraceSeg?
    var next: TraceSeg?
    ghost var records: seq<Record>

    ghost function Value(): Segment
      reads this
    {
      Segment(starttime, endtime, samprate, samplecnt, sampletype, datasamples, records)
    }

    /** mstl3_msr2seg */
    constructor (r: Record, endtime: int)
      requires endtime == EndTime(r)
      ensures Value() == Fresh(r) && numsamples == |datasamples| && prev == null && next == null
    {
      this.starttime, this.endtime := r.starttime, endtime;
      samprate, samplecnt, sampletype := Hertz(r.samprate), r.samplecnt, r.sampletype;
      datasamples, numsamples := r.datasamples, |r.datasamples|;
      prev, next := null, null;
      records := [r];
    }

    /** mstl3_addmsrtoseg: at the end when whence is 1, at the beginning when it is 2. */
    method AddRecord(r: Record, endtime: int, whence: nat) returns (ok: bool)
      requires endtime == EndTime(r) && (whence == 1 || whence == 2) && numsamples == |datasamples|
      modifies this
      ensures ok == TypeFits(r, old(Value())) && numsamples == |datasamples|
      ensures Value() == if !ok then old(Value()) else if whence == 1 then Appended(old(Value()), r) else Prepended(old(Value()), r)
      ensures prev == old(prev) && next == old(next)
    {
      if r.datasamples != [] && r.sampletype != sampletype {
        return false;
      }
      if whence == 1 {
        this.endtime := endtime;
        datasamples := datasamples + r.datasamples;
        records := records + [r];
      } else {
        starttime := r.starttime;
        datasamples := r.datasamples + datasamples;
        records := [r] + records;
      }
      samplecnt := samplecnt + r.samplecnt;
      numsamples := numsamples + |r.datasamples|;
      return true;
    }

    /** Whether the record fits after the segment, 1, or before it, 2, where no such segment is known yet. */
    method Fits(r: Record, endtime: int, nsdelta: int, noBefore: bool, noAfter: bool, ghost f: Found) returns (whence: nat)
      requires endtime == EndTime(r) && nsdelta == Period(r.samprate)
      requires noBefore == f.before.None? && noAfter == f.after.None?
      ensures whence == Whence(Value(), r, f)
    {
      hide EndTime, Period;
      var nstimetol := nsdelta / 2;
      whence := 0;
      var postgap := r.starttime - this.endtime - nsdelta;
      if noBefore && -nstimetol <= postgap <= nstimetol {
        whence := 1;
      }
      var pregap := starttime - endtime - nsdelta;
      if noAfter && -nstimetol <= pregap <= nstimetol {
        whence := 2;
      }
    }

    /** mstl3_addsegtoseg */
    method AddSegment(other: TraceSeg) returns (ok: bool)
      requires other != this && numsamples == |datasamples| && other.numsamples == |other.datasamples|
      modifies this
      ensures ok == (other.datasamples != [] ==> other.sampletype == old(sampletype)) && numsamples == |datasamples|
      ensures Value() == if ok then Joined(old(Value()), other.Value()) else old(Value())
      ensures prev == old(prev) && next == old(next)
    {
      if other.datasamples != [] && other.sampletype != sampletype {
        return false;
      }
      endtime := other.endtime;
      samplecnt := samplecnt + other.samplecnt;
      datasamples := datasamples + other.datasamples;
      numsamples := numsamples + other.numsamples;
      records := records + other.records;
      return true;
    }
  }

  ghost predicate Distinct(segs: seq<TraceSeg>) {
    forall i, j | 0 <= i < j < |segs| :: segs[i] != segs[j]
  }

  ghost function Nodes(segs: seq<TraceSeg>): set<TraceSeg> {
    set s | s in segs
  }

  ghost function Node(segs: seq<TraceSeg>, i: int): TraceSeg? {
    if 0 <= i < |segs| then segs[i] else null
  }

  /** These are the links of nodes chained in this order, both ways. */
  ghost predicate Chain(segs: seq<TraceSeg>, prevs: seq<TraceSeg?>, nexts: seq<TraceSeg?>) {
    && Distinct(segs) && |prevs| == |nexts| == |segs|
    && (forall i | 0 <= i < |segs| :: prevs[i] == Node(segs, i - 1))
    && (forall i | 0 <= i < |segs| :: nexts[i] == Node(segs, i + 1))
  }

  ghost function Prevs(segs: seq<TraceSeg>): seq<TraceSeg?>
    reads segs
  {
    seq(|segs|, i requires 0 <= i < |segs| reads segs => segs[i].prev)
  }

  ghost function Nexts(segs: seq<TraceSeg>): seq<TraceSeg?>
    reads segs
  {
    seq(|segs|, i requires 0 <= i < |segs| reads segs => segs[i].next)
  }

  ghost predicate Linked(segs: seq<TraceSeg>)
    reads segs
  {
    Chain(segs, Prevs(segs), Nexts(segs))
  }

  lemma Links(segs: seq<TraceSeg>, i: nat)
    requires Linked(segs) && i < |segs|
    ensures segs[i].prev == Node(segs, i - 1) && segs[i].next == Node(segs, i + 1)
  {
    assert Prevs(segs)[i] == segs[i].prev && Nexts(segs)[i] == segs[i].next;
  }

  lemma ChainedIsLinked(segs: seq<TraceSeg>)
    requires Distinct(segs)
    requires forall i | 0 <= i < |segs| :: segs[i].prev == Node(segs, i - 1)
    requires forall i | 0 <= i < |segs| :: segs[i].next == Node(segs, i + 1)
    ensures Linked(segs)
  {
    hide Node;
  }

  lemma Snapshot(segs: seq<TraceSeg>)
    requires Linked(segs)
    ensures Distinct(segs) && |Prevs(segs)| == |Nexts(segs)| == |segs|
    ensures forall i | 0 <= i < |segs| :: Prevs(segs)[i] == segs[i].prev
    ensures forall i | 0 <= i < |segs| :: Nexts(segs)[i] == segs[i].next
  {}

  lemma HoldSwapped(segs: seq<TraceSeg>, values: seq<Segment>, at: nat)
    requires Hold(segs, values) && at + 1 < |segs|
    ensures Hold(SwappedNodes(segs, at), Swapped(values, at))
  {}

  /** The nodes hold these values. */
  ghost predicate Hold(segs: seq<TraceSeg>, values: seq<Segment>)
    reads segs
  {
    |values| == |segs| && forall i | 0 <= i < |segs| :: segs[i].Value() == values[i] && segs[i].numsamples == |segs[i].datasamples|
  }

  ghost function Inserted(segs: seq<TraceSeg>, at: nat, s: TraceSeg): seq<TraceSeg>
    requires at <= |segs|
  {
    segs[..at] + [s] + segs[at..]
  }

  ghost function Removed(segs: seq<TraceSeg>, at: nat): seq<TraceSeg>
    requires at < |segs|
  {
    segs[..at] + segs[at + 1..]
  }

  lemma InsertedNodes(segs: seq<TraceSeg>, at: nat, s: TraceSeg)
    requires at <= |segs|
    ensures Nodes(Inserted(segs, at, s)) == Nodes(segs) + {s}
  {
    assert segs == segs[..at] + segs[at..];
  }

  lemma RemovedNodes(segs: seq<TraceSeg>, at: nat)
    requires at < |segs|
    ensures Nodes(Removed(segs, at)) <= Nodes(segs)
  {}

  class TraceId {
    var sid: string
    var behind: nat
    var pubversion: nat
    var earliest: int
    var latest: int
    var numsegments: nat
    var first: TraceSeg?
    var last: TraceSeg?
    var next: TraceId?
    ghost var segs: seq<TraceSeg>

    /** The trace ID of a first record */
    constructor (r: Record, endtime: int)
      requires endtime == EndTime(r)
      ensures Is(NewTrace(r)) && fresh(segs) && sid == r.sid && behind == r.behind && next == null && first != null
    {
      sid, behind, pubversion := r.sid, r.behind, r.pubversion;
      earliest, latest := r.starttime, endtime;
      numsegments := 1;
      var seg := new TraceSeg(r, endtime);
      first, last := seg, seg;
      next := null;
      segs := [seg];
      new;
      hide EndTime;
      assert Prevs(segs) == [null] && Nexts(segs) == [null];
    }

    /** The list from first to last is chained both ways and holds these values. */
    ghost predicate ListIs(values: seq<Segment>)
      reads this`segs, this`first, this`last, this`numsegments, segs
    {
      && |values| == |segs| > 0 && first == segs[0] && last == segs[|segs| - 1] && numsegments == |segs|
      && Linked(segs) && Hold(segs, values)
    }

    ghost predicate Is(t: Trace)
      reads this`segs, this`first, this`last, this`numsegments, this`pubversion, this`earliest, this`latest, segs
    {
      ListIs(t.segs) && pubversion == t.pubversion && earliest == t.earliest && latest == t.latest
    }

    /** Move segment `at` down the list. */
    method MoveDown(seg: TraceSeg, ghost at: nat, ghost values: seq<Segment>)
      requires ListIs(values) && at + 1 < |segs| && seg == segs[at]
      modifies this`first, this`last, this`segs, Nodes(segs)
      ensures segs == SwappedNodes(old(segs), at)
      ensures ListIs(Swapped(values, at))
    {
      hide Linked, Hold, SwappedNodes, Swapped, Distinct, Prevs, Nexts;
      Snapshot(segs);
      Ends(segs, at);
      SwappedEnds(segs, at);
      SwappedLength(values, at);
      var after := SwapDown(seg, segs, at, values);
      if first == seg {
        first := after;
      }
      if last == after {
        last := seg;
      }
      segs := SwappedNodes(segs, at);
    }

    /** Move segment `at` up the list. */
    method MoveUp(seg: TraceSeg, ghost at: nat, ghost values: seq<Segment>)
      requires ListIs(values) && 0 < at < |segs| && seg == segs[at]
      modifies this`first, this`last, this`segs, Nodes(segs)
      ensures segs == SwappedNodes(old(segs), at - 1)
      ensures ListIs(Swapped(values, at - 1))
    {
      hide Linked, Hold, SwappedNodes, Swapped, Distinct, Prevs, Nexts;
      Snapshot(segs);
      Ends(segs, at - 1);
      SwappedEnds(segs, at - 1);
      SwappedLength(values, at - 1);
      var before := SwapUp(seg, segs, at, values);
      if first == before {
        first := seg;
      }
      if last == seg {
        last := before;
      }
      segs := SwappedNodes(segs, at - 1);
    }

    /** Put a new segment behind a segment, or first when there is none. */
    method InsertBehind(follow: TraceSeg?, seg: TraceSeg, ghost at: nat, ghost values: seq<Segment>, ghost value: Segment)
      requires ListIs(values) && at <= |segs| && follow == Node(segs, at - 1)
      requires seg !in segs && seg.prev == null && seg.next == null && seg.Value() == value && seg.numsamples == |seg.datasamples|
      modifies this`first, this`last, this`segs, this`numsegments, Nodes(segs), seg
      ensures segs == Inserted(old(segs), at, seg) && ListIs(Insert(values, at, value))
      ensures Nodes(segs) == old(Nodes(segs)) + {seg}
    {
      hide Linked, Hold;
      Snapshot(segs);
      if follow == null {
        assert at == 0;
        LinkFirst(first, seg, segs, values, value);
        first := seg;
      } else {
        LinkBehind(follow, seg, segs, at, values, value);
        if follow == last {
          last := seg;
        }
      }
      numsegments := numsegments + 1;
      InsertedNodes(segs, at, seg);
      segs := Inserted(segs, at, seg);
    }

    /** Take a segment that is not the first from the list. */
    method Unlink(seg: TraceSeg, ghost at: nat, ghost values: seq<Segment>)
      requires ListIs(values) && 0 < at < |segs| && seg == segs[at]
      modifies this`last, this`segs, this`numsegments, Nodes(segs)
      ensures segs == Removed(old(segs), at) && ListIs(Remove(values, at)) && Nodes(segs) <= old(Nodes(segs))
    {
      hide Linked, Hold;
      Snapshot(segs);
      Links(segs, at);
      if seg == last {
        last := last.prev;
      }
      LinkPast(seg, segs, at, values);
      numsegments := numsegments - 1;
      RemovedNodes(segs, at);
      segs := Removed(segs, at);
    }

    /** The place the search found at a position of the list. */
    ghost predicate Points(s: TraceSeg?, at: Option<nat>)
      reads this
    {
      if at.None? then s == null else at.value < |segs| && s == segs[at.value]
    }

    /** The search of the complete segment list. */
    method Search(r: Record, endtime: int, autoheal: bool, nsdelta: int, ghost values: seq<Segment>)
        returns (before: TraceSeg?, after: TraceSeg?, follow: TraceSeg?, ghost f: Found)
      requires ListIs(values) && endtime == EndTime(r) && nsdelta == Period(r.samprate)
      ensures f == TraceSegments.Search(values, r, autoheal, 0, NOTHING) && InList(f, |segs|)
      ensures Points(before, f.before) && Points(after, f.after) && Points(follow, f.follow)
    {
      hide Linked, EndTime, Period, RateTolerable, Hertz, FitsBefore, FitsAfter;
      var search := first;
      before, after, follow := null, null, null;
      f := NOTHING;
      ghost var k := 0;
      while search != null
        invariant k <= |segs| && search == Node(segs, k) && InList(f, k) && !Settled(f, autoheal)
        invariant Points(before, f.before) && Points(after, f.after) && Points(follow, f.follow)
        invariant TraceSegments.Search(values, r, autoheal, k, f) == TraceSegments.Search(values, r, autoheal, 0, NOTHING)
        decreases |segs| - k
      {
        Links(segs, k);
        assert search.Value() == values[k];
        ghost var g := Looked(values[k], k, r, f);
        if r.starttime > search.starttime {
          follow := search;
        }
        var whence := search.Fits(r, endtime, nsdelta, before == null, after == null, f);
        if whence != 0 && RateTolerable(Hertz(r.samprate), search.samprate) {
          if whence == 1 {
            before := search;
          } else {
            after := search;
          }
          if !autoheal || (before != null && after != null) {
            f := g;
            return;
          }
        }
        f := g;
        search := search.next;
        k := k + 1;
      }
    }

    /** Sort the modified segment into place. */
    method Resort(seg: TraceSeg, ghost at: nat, ghost values: seq<Segment>)
      requires ListIs(values) && at < |segs| && seg == segs[at]
      modifies this`first, this`last, this`segs, Nodes(segs)
      ensures ListIs(Resorted(values, at)) && Nodes(segs) == old(Nodes(segs))
    {
      hide Linked, Hold;
      ghost var i: nat, now := at, values;
      while seg.next != null && (seg.starttime > seg.next.starttime || (seg.starttime == seg.next.starttime && seg.endtime < seg.next.endtime))
        invariant ListIs(now) && i < |segs| && seg == segs[i] && Nodes(segs) == old(Nodes(segs))
        invariant Sink(now, i) == Sink(values, at)
        decreases |segs| - i
      {
        NextIs(segs, now, i);
        SwappedSame(segs, i);
        MoveDown(seg, i, now);
        now, i := Swapped(now, i), i + 1;
      }
      NextIs(segs, now, i);
      ghost var mid, j: nat := now, i;
      while seg.prev != null && (seg.starttime < seg.prev.starttime || (seg.starttime == seg.prev.starttime && seg.endtime > seg.prev.endtime))
        invariant ListIs(now) && i < |segs| && seg == segs[i] && Nodes(segs) == old(Nodes(segs))
        invariant Rise(now, i) == Rise(mid, j)
        decreases i
      {
        NextIs(segs, now, i);
        SwappedSame(segs, i - 1);
        MoveUp(seg, i, now);
        now, i := Swapped(now, i - 1), i - 1;
      }
      NextIs(segs, now, i);
    }

    /** No segment of another list gets into this one. */
    twostate predicate Grows()
      reads this, segs
    {
      forall s | s in Nodes(segs) :: s in old(Nodes(segs)) || fresh(s)
    }

    /** Add the record's coverage to the end of a segment, or to the beginning. */
    method Extend(seg: TraceSeg, r: Record, endtime: int, whence: nat, ghost at: nat, ghost values: seq<Segment>) returns (ok: bool)
      requires ListIs(values) && at < |segs| && seg == segs[at] && endtime == EndTime(r) && (whence == 1 || whence == 2)
      modifies seg
      ensures ok == TypeFits(r, values[at])
      ensures ListIs(if !ok then values else values[at := if whence == 1 then Appended(values[at], r) else Prepended(values[at], r)])
    {
      hide Linked, Hold, Appended, Prepended, TypeFits, EndTime;
      ok := ExtendAt(seg, r, endtime, whence, segs, at, values);
    }

    /** Add the record between two segments, which become one. */
    method Merge(before: TraceSeg, after: TraceSeg, r: Record, endtime: int, ghost i: nat, ghost j: nat, ghost values: seq<Segment>)
        returns (ok: bool, ghost p: Placed)
      requires ListIs(values) && i < |segs| && 0 < j < |segs| && i != j && before == segs[i] && after == segs[j] && endtime == EndTime(r)
      modifies this`last, this`segs, this`numsegments, Nodes(segs)
      ensures p == PlaceFound(values, r, Found(Some(i), Some(j), None)) && ok == p.ok && ListIs(p.segs)
      ensures p.at < |segs| && (ok ==> segs[p.at] == before) && Nodes(segs) <= old(Nodes(segs))
    {
      hide Linked, Hold, Appended, Joined, EndTime;
      p := PlaceFound(values, r, Found(Some(i), Some(j), None));
      ok := Extend(before, r, endtime, 1, i, values);
      if !ok {
        return;
      }
      ghost var extended := values[i := Appended(values[i], r)];
      ok := JoinAt(before, after, segs, i, j, extended);
      if !ok {
        return;
      }
      assert extended[i := Joined(extended[i], values[j])] == values[i := Joined(extended[i], values[j])];
      Unlink(after, j, values[i := Joined(extended[i], values[j])]);
    }

    /** Add the record where the search of the complete list found it fits. */
    method AddFound(before: TraceSeg?, after: TraceSeg?, follow: TraceSeg?, r: Record, endtime: int, ghost f: Found, ghost values: seq<Segment>)
        returns (seg: TraceSeg?, ghost p: Placed)
      requires ListIs(values) && endtime == EndTime(r) && InList(f, |segs|)
      requires Points(before, f.before) && Points(after, f.after) && Points(follow, f.follow)
      requires f.before.Some? && f.after.Some? ==> 0 < f.after.value
      modifies this`first, this`last, this`segs, this`numsegments, Nodes(segs)
      ensures p == PlaceFound(values, r, f) && p.ok == (seg != null) && ListIs(p.segs) && Grows()
      ensures p.ok ==> p.at < |segs| && seg == segs[p.at]
    {
      hide Linked, Hold, Appended, Prepended, Joined, EndTime, Insert, Fresh, TypeFits;
      p := PlaceFound(values, r, f);
      if before != null {
        var ok;
        if after != null {
          ok, p := Merge(before, after, r, endtime, f.before.value, f.after.value, values);
        } else {
          ok := Extend(before, r, endtime, 1, f.before.value, values);
        }
        seg := if ok then before else null;
      } else if after != null {
        var ok := Extend(after, r, endtime, 2, f.after.value, values);
        seg := if ok then after else null;
      } else {
        seg := AddSegment(follow, r, endtime, p.at, values);
      }
    }

    /** A new segment behind a segment, or first. */
    method AddSegment(follow: TraceSeg?, r: Record, endtime: int, ghost at: nat, ghost values: seq<Segment>) returns (seg: TraceSeg)
      requires ListIs(values) && at <= |segs| && follow == Node(segs, at - 1) && endtime == EndTime(r)
      modifies this`first, this`last, this`segs, this`numsegments, Nodes(segs)
      ensures ListIs(Insert(values, at, Fresh(r))) && at < |segs| && seg == segs[at] && Grows()
    {
      hide Linked, Hold, EndTime, Insert, Fresh;
      seg := new TraceSeg(r, endtime);
      InsertBehind(follow, seg, at, values, Fresh(r));
    }

    /** The record's coverage goes where it fits; null when the sample types do not match. */
    method AddToSegment(r: Record, endtime: int, autoheal: bool, ghost t: Trace) returns (seg: TraceSeg?, ghost p: Placed)
      requires Is(t) && endtime == EndTime(r)
      modifies this`first, this`last, this`segs, this`numsegments, Nodes(segs)
      ensures p == Place(t, r, autoheal) && p.ok == (seg != null) && ListIs(p.segs) && Grows()
      ensures p.ok ==> p.at < |segs| && seg == segs[p.at]
    {
      hide Linked, Hold, Appended, Prepended, Joined, EndTime, Insert, Fresh, TypeFits, TraceSegments.Search, PlaceFound, RateTolerable, Hertz, Period;
      p := Place(t, r, autoheal);
      var nsdelta := Period(r.samprate);
      var nstimetol := nsdelta / 2;
      var lastgap := r.starttime - last.endtime - nsdelta;
      var firstgap := first.starttime - endtime - nsdelta;
      ghost var n := |segs| - 1;
      NextIs(segs, t.segs, 0);
      NextIs(segs, t.segs, n);
      InsertEnds(t.segs, Fresh(r));
      if -nstimetol <= lastgap <= nstimetol && RateTolerable(Hertz(r.samprate), last.samprate) {
        seg, p := AddFound(last, null, null, r, endtime, Found(Some(n), None, None), t.segs);
      } else if r.starttime - nsdelta - nstimetol > latest {
        seg := AddSegment(last, r, endtime, n + 1, t.segs);
      } else if endtime + nsdelta + nstimetol < earliest {
        seg := AddSegment(null, r, endtime, 0, t.segs);
      } else if -nstimetol <= firstgap <= nstimetol && RateTolerable(Hertz(r.samprate), first.samprate) {
        seg, p := AddFound(null, first, null, r, endtime, Found(None, Some(0), None), t.segs);
      } else {
        seg, p := AddSearched(r, endtime, autoheal, nsdelta, t.segs);
      }
    }

    /** Where the search of the complete list finds it fits. */
    method AddSearched(r: Record, endtime: int, autoheal: bool, nsdelta: int, ghost values: seq<Segment>) returns (seg: TraceSeg?, ghost p: Placed)
      requires ListIs(values) && endtime == EndTime(r) && nsdelta == Period(r.samprate)
      requires !(FitsBefore(values[0], r) && RateFits(r, values[0]))
      modifies this`first, this`last, this`segs, this`numsegments, Nodes(segs)
      ensures InList(TraceSegments.Search(values, r, autoheal, 0, NOTHING), |values|)
      ensures p == PlaceFound(values, r, TraceSegments.Search(values, r, autoheal, 0, NOTHING))
      ensures p.ok == (seg != null) && ListIs(p.segs) && Grows()
      ensures p.ok ==> p.at < |segs| && seg == segs[p.at]
    {
      hide Linked, Hold, EndTime, TraceSegments.Search, PlaceFound, FitsBefore, RateFits, Period;
      SearchInList(values, r, autoheal, 0, NOTHING);
      AfterNotFirst(values, r, autoheal);
      ghost var f;
      var before, after, follow;
      before, after, follow, f := Search(r, endtime, autoheal, nsdelta, values);
      seg, p := AddFound(before, after, follow, r, endtime, f, values);
    }

    /** mstl3_addmsr_recordptr on a matching trace ID */
    method AddCoverage(r: Record, endtime: int, autoheal: bool, ghost t: Trace) returns (seg: TraceSeg?)
      requires Is(t) && endtime == EndTime(r)
      modifies this`first, this`last, this`segs, this`numsegments, this`pubversion, this`earliest, this`latest, Nodes(segs)
      ensures (seg != null) == AddTo(t, r, autoheal).0 && Is(AddTo(t, r, autoheal).1) && Grows()
    {
      hide Linked, Hold, EndTime, Place, Resorted;
      ghost var p;
      seg, p := AddToSegment(r, endtime, autoheal, t);
      if seg == null {
        return;
      }
      if r.pubversion > pubversion {
        pubversion := r.pubversion;
      }
      if r.starttime < earliest {
        earliest := r.starttime;
      }
      if endtime > latest {
        latest := endtime;
      }
      Resort(seg, p.at, p.segs);
    }
  }

  lemma InsertEnds(values: seq<Segment>, s: Segment)
    ensures Insert(values, 0, s) == [s] + values && Insert(values, |values|, s) == values + [s]
  {}

  /** The segment to be removed is not the first: that one would have taken the record at once. */
  lemma AfterNotFirst(segs: seq<Segment>, r: Record, autoheal: bool)
    requires |segs| > 0 && !(FitsBefore(segs[0], r) && RateFits(r, segs[0]))
    ensures var f := TraceSegments.Search(segs, r, autoheal, 0, NOTHING);
            f.after.Some? ==> 0 < f.after.value
  {
    SearchJustified(segs, r, autoheal, 0, NOTHING);
  }

  lemma SwappedSame(segs: seq<TraceSeg>, i: nat)
    requires i + 1 < |segs|
    ensures Nodes(SwappedNodes(segs, i)) == Nodes(segs)
  {
    var now := SwappedNodes(segs, i);
    forall s | s in segs ensures s in now {
      var k :| 0 <= k < |segs| && segs[k] == s;
      assert now[if k == i then i + 1 else if k == i + 1 then i else k] == s;
    }
  }

  /** What a node's neighbours are and hold. */
  lemma NextIs(segs: seq<TraceSeg>, values: seq<Segment>, i: nat)
    requires Linked(segs) && Hold(segs, values) && i < |segs| == |values|
    ensures segs[i].Value() == values[i]
    ensures segs[i].next == Node(segs, i + 1) && (i + 1 < |segs| ==> segs[i].next.Value() == values[i + 1])
    ensures segs[i].prev == Node(segs, i - 1) && (i > 0 ==> segs[i].prev.Value() == values[i - 1])
  {
    Links(segs, i);
    hide Linked;
  }

  /** Only the first node is first, and only the last is last. */
  lemma Ends(segs: seq<TraceSeg>, i: nat)
    requires Distinct(segs) && i + 1 < |segs|
    ensures segs[0] == segs[i] <==> i == 0
    ensures segs[|segs| - 1] == segs[i + 1] <==> i + 2 == |segs|
  {}

  lemma SwappedEnds(segs: seq<TraceSeg>, i: nat)
    requires i + 1 < |segs|
    ensures var now, n := SwappedNodes(segs, i), |segs| - 1;
            now[0] == (if i == 0 then segs[1] else segs[0]) && now[n] == (if i + 1 == n then segs[i] else segs[n])
  {}

  lemma SwappedLength(values: seq<Segment>, i: nat)
    requires i + 1 < |values|
    ensures |Swapped(values, i)| == |values|
  {}

  ghost function SwappedNodes(segs: seq<TraceSeg>, i: nat): (r: seq<TraceSeg>)
    requires i + 1 < |segs|
    ensures |r| == |segs| && r[i] == segs[i + 1] && r[i + 1] == segs[i]
  {
    segs[i := segs[i + 1]][i + 1 := segs[i]]
  }

  /** Swap a node with the next one. */
  method SwapDown(seg: TraceSeg, ghost segs: seq<TraceSeg>, ghost at: nat, ghost values: seq<Segment>) returns (after: TraceSeg)
    requires Linked(segs) && Hold(segs, values) && at + 1 < |segs| && seg == segs[at]
    modifies segs
    ensures after == segs[at + 1] && Linked(SwappedNodes(segs, at)) && Hold(SwappedNodes(segs, at), Swapped(values, at))
  {
    hide Chain, Prevs, Nexts;
    Links(segs, at);
    Links(segs, at + 1);
    Snapshot(segs);
    ghost var prevs, nexts := Prevs(segs), Nexts(segs);
    hide Linked;
    after := seg.next;
    RelinkDown(seg, after);
    HoldSwapped(segs, values, at);
    SwappedLinked(segs, prevs, nexts, at);
  }

  /** After RelinkDown the nodes are chained in the new order. */
  lemma SwappedLinked(was: seq<TraceSeg>, prevs: seq<TraceSeg?>, nexts: seq<TraceSeg?>, at: nat)
    requires Chain(was, prevs, nexts) && at + 1 < |was|
    requires forall i | 0 <= i < |was| && i != at && i != at + 1 && i != at + 2 :: was[i].prev == prevs[i]
    requires forall i | 0 <= i < |was| && i != at && i != at + 1 && i != at - 1 :: was[i].next == nexts[i]
    requires was[at].next == nexts[at + 1] && was[at].prev == was[at + 1]
    requires was[at + 1].next == was[at] && was[at + 1].prev == prevs[at]
    requires at > 0 ==> was[at - 1].next == was[at + 1]
    requires at + 2 < |was| ==> was[at + 2].prev == was[at]
    ensures Linked(SwappedNodes(was, at))
  {
    hide Node, Linked, SwappedNodes;
    var now := SwappedNodes(was, at);
    forall i | 0 <= i < |now| ensures now[i].prev == Node(now, i - 1) && now[i].next == Node(now, i + 1) {
      NodeSwapped(was, at, i - 1);
      NodeSwapped(was, at, i);
      NodeSwapped(was, at, i + 1);
      assert prevs[at] == Node(was, at - 1) && nexts[at + 1] == Node(was, at + 2);
    }
    DistinctSwapped(was, at);
    ChainedIsLinked(now);
  }

  lemma DistinctSwapped(was: seq<TraceSeg>, at: nat)
    requires Distinct(was) && at + 1 < |was|
    ensures Distinct(SwappedNodes(was, at))
  {}

  lemma NodeSwapped(was: seq<TraceSeg>, at: nat, i: int)
    requires at + 1 < |was|
    ensures Node(SwappedNodes(was, at), i) == Node(was, if i == at then at + 1 else if i == at + 1 then at else i)
    ensures 0 <= i < |was| ==> Node(SwappedNodes(was, at), i) == SwappedNodes(was, at)[i] == was[if i == at then at + 1 else if i == at + 1 then at else i]
  {}

  ghost function Maybe(s: TraceSeg?): set<TraceSeg> {
    if s == null then {} else {s}
  }

  method RelinkDown(seg: TraceSeg, after: TraceSeg)
    requires seg.next == after && after != seg && seg.prev != seg && seg.prev != after && after.next != seg && after.next != after
    requires seg.prev != null ==> seg.prev != after.next
    modifies ({seg, after} + Maybe(after.next))`prev, ({seg, after} + Maybe(seg.prev))`next
    ensures seg.next == old(after.next) && seg.prev == after && after.next == seg && after.prev == old(seg.prev)
    ensures old(seg.prev) != null ==> old(seg.prev).next == after
    ensures old(after.next) != null ==> old(after.next).prev == seg
  {
      if seg.prev != null {
        seg.prev.next := after;
      }
      if after.next != null {
        after.next.prev := seg;
      }
      after.prev := seg.prev;
      seg.prev := after;
      seg.next := after.next;
      after.next := seg;
  }

  /** Swap a node with the one before it. */
  method SwapUp(seg: TraceSeg, ghost segs: seq<TraceSeg>, ghost at: nat, ghost values: seq<Segment>) returns (before: TraceSeg)
    requires Linked(segs) && Hold(segs, values) && 0 < at < |segs| && seg == segs[at]
    modifies segs
    ensures before == segs[at - 1] && Linked(SwappedNodes(segs, at - 1)) && Hold(SwappedNodes(segs, at - 1), Swapped(values, at - 1))
  {
    hide Chain, Prevs, Nexts;
    Links(segs, at);
    Links(segs, at - 1);
    Snapshot(segs);
    ghost var prevs, nexts := Prevs(segs), Nexts(segs);
    hide Linked;
    before := seg.prev;
    RelinkUp(seg, before);
    HoldSwapped(segs, values, at - 1);
    SwappedLinked(segs, prevs, nexts, at - 1);
  }

  method RelinkUp(seg: TraceSeg, before: TraceSeg)
    requires seg.prev == before && before != seg && seg.next != seg && seg.next != before && before.prev != seg && before.prev != before
    requires seg.next != null ==> seg.next != before.prev
    modifies ({seg, before} + Maybe(seg.next))`prev, ({seg, before} + Maybe(before.prev))`next
    ensures before.next == old(seg.next) && before.prev == seg && seg.next == before && seg.prev == old(before.prev)
    ensures old(before.prev) != null ==> old(before.prev).next == seg
    ensures old(seg.next) != null ==> old(seg.next).prev == before
  {
    if seg.next != null {
      seg.next.prev := before;
    }
    if before.prev != null {
      before.prev.next := seg;
    }
    before.next := seg.next;
    seg.next := before;
    seg.prev := before.prev;
    before.prev := seg;
  }

  // ------------------------------------------------------------ inserting and removing

  lemma InsertedLinked(was: seq<TraceSeg>, prevs: seq<TraceSeg?>, nexts: seq<TraceSeg?>, at: nat, s: TraceSeg)
    requires Chain(was, prevs, nexts) && at <= |was| && s !in was
    requires forall i | 0 <= i < |was| && i != at :: was[i].prev == prevs[i]
    requires forall i | 0 <= i < |was| && i != at - 1 :: was[i].next == nexts[i]
    requires s.prev == Node(was, at - 1) && s.next == Node(was, at)
    requires at > 0 ==> was[at - 1].next == s
    requires at < |was| ==> was[at].prev == s
    ensures Linked(Inserted(was, at, s))
  {
    hide Node, Linked;
    var now := Inserted(was, at, s);
    forall i | 0 <= i < |now| ensures now[i].prev == Node(now, i - 1) && now[i].next == Node(now, i + 1) {
      NodeInserted(was, at, s, i - 1);
      NodeInserted(was, at, s, i + 1);
      if i != at {
        assert now[i] == was[if i < at then i else i - 1];
      }
    }
    DistinctInserted(was, at, s);
    ChainedIsLinked(now);
  }

  lemma DistinctInserted(was: seq<TraceSeg>, at: nat, s: TraceSeg)
    requires Distinct(was) && at <= |was| && s !in was
    ensures Distinct(Inserted(was, at, s))
  {}

  lemma NodeInserted(was: seq<TraceSeg>, at: nat, s: TraceSeg, i: int)
    requires at <= |was|
    ensures Node(Inserted(was, at, s), i) == if i < at then Node(was, i) else if i == at then s else Node(was, i - 1)
  {}

  lemma HoldInserted(segs: seq<TraceSeg>, values: seq<Segment>, at: nat, s: TraceSeg, value: Segment)
    requires Hold(segs, values) && at <= |segs| && s.Value() == value && s.numsamples == |s.datasamples|
    ensures Hold(Inserted(segs, at, s), Insert(values, at, value))
  {}

  /** The new segment as first in the list. */
  method LinkFirst(first: TraceSeg, seg: TraceSeg, ghost segs: seq<TraceSeg>, ghost values: seq<Segment>, ghost value: Segment)
    requires Linked(segs) && Hold(segs, values) && |segs| > 0 && first == segs[0]
    requires seg !in segs && seg.prev == null && seg.next == null && seg.Value() == value && seg.numsamples == |seg.datasamples|
    modifies first`prev, seg`next
    ensures Linked(Inserted(segs, 0, seg)) && Hold(Inserted(segs, 0, seg), Insert(values, 0, value))
  {
    hide Chain, Prevs, Nexts;
    Snapshot(segs);
    ghost var prevs, nexts := Prevs(segs), Nexts(segs);
    hide Linked;
    seg.next := first;
    first.prev := seg;
    InsertedLinked(segs, prevs, nexts, 0, seg);
    HoldInserted(segs, values, 0, seg, value);
  }

  /** The new segment behind the one it follows. */
  method LinkBehind(follow: TraceSeg, seg: TraceSeg, ghost segs: seq<TraceSeg>, ghost at: nat, ghost values: seq<Segment>, ghost value: Segment)
    requires Linked(segs) && Hold(segs, values) && 0 < at <= |segs| && follow == segs[at - 1]
    requires seg !in segs && seg.prev == null && seg.next == null && seg.Value() == value && seg.numsamples == |seg.datasamples|
    modifies seg`prev, seg`next, follow`next, segs`prev
    ensures Linked(Inserted(segs, at, seg)) && Hold(Inserted(segs, at, seg), Insert(values, at, value))
  {
    hide Chain, Prevs, Nexts;
    Links(segs, at - 1);
    Snapshot(segs);
    ghost var prevs, nexts := Prevs(segs), Nexts(segs);
    hide Linked;
    seg.next := follow.next;
    seg.prev := follow;
    if follow.next != null {
      follow.next.prev := seg;
    }
    follow.next := seg;
    InsertedLinked(segs, prevs, nexts, at, seg);
    HoldInserted(segs, values, at, seg, value);
  }

  lemma RemovedLinked(was: seq<TraceSeg>, prevs: seq<TraceSeg?>, nexts: seq<TraceSeg?>, at: nat)
    requires Chain(was, prevs, nexts) && at < |was|
    requires forall i | 0 <= i < |was| && i != at + 1 :: was[i].prev == prevs[i]
    requires forall i | 0 <= i < |was| && i != at - 1 :: was[i].next == nexts[i]
    requires at > 0 ==> was[at - 1].next == nexts[at]
    requires at + 1 < |was| ==> was[at + 1].prev == prevs[at]
    ensures Linked(Removed(was, at))
  {
    hide Node, Linked;
    var now := Removed(was, at);
    forall i | 0 <= i < |now| ensures now[i].prev == Node(now, i - 1) && now[i].next == Node(now, i + 1) {
      var k := if i < at then i else i + 1;
      assert now[i] == was[k];
      NodeRemoved(was, at, i - 1);
      NodeRemoved(was, at, i + 1);
      if i == at {
        assert prevs[at] == Node(was, at - 1);
      }
      if i == at - 1 {
        assert nexts[at] == Node(was, at + 1);
      }
    }
    DistinctRemoved(was, at);
    ChainedIsLinked(now);
  }

  lemma DistinctRemoved(was: seq<TraceSeg>, at: nat)
    requires Distinct(was) && at < |was|
    ensures Distinct(Removed(was, at))
  {}

  lemma NodeRemoved(was: seq<TraceSeg>, at: nat, i: int)
    requires at < |was|
    ensures Node(Removed(was, at), i) == Node(was, if i < at then i else i + 1)
  {}

  lemma HoldRemoved(segs: seq<TraceSeg>, values: seq<Segment>, at: nat)
    requires Hold(segs, values) && at < |segs|
    ensures Hold(Removed(segs, at), Remove(values, at))
  {}

  /** Join the neighbours of a node that is not the first. */
  method LinkPast(seg: TraceSeg, ghost segs: seq<TraceSeg>, ghost at: nat, ghost values: seq<Segment>)
    requires Linked(segs) && Hold(segs, values) && 0 < at < |segs| && seg == segs[at]
    modifies segs`prev, segs`next
    ensures Linked(Removed(segs, at)) && Hold(Removed(segs, at), Remove(values, at))
  {
    hide Chain, Prevs, Nexts;
    Links(segs, at);
    Snapshot(segs);
    ghost var prevs, nexts := Prevs(segs), Nexts(segs);
    hide Linked;
    if seg.prev != null {
      seg.prev.next := seg.next;
    }
    if seg.next != null {
      seg.next.prev := seg.prev;
    }
    RemovedLinked(segs, prevs, nexts, at);
    HoldRemoved(segs, values, at);
  }

  // --------------------------------------------------------------- changing one segment

  lemma RestoredLinked(segs: seq<TraceSeg>, prevs: seq<TraceSeg?>, nexts: seq<TraceSeg?>)
    requires Chain(segs, prevs, nexts)
    requires forall i | 0 <= i < |segs| :: segs[i].prev == prevs[i] && segs[i].next == nexts[i]
    ensures Linked(segs)
  {
    assert Prevs(segs) == prevs && Nexts(segs) == nexts;
  }

  /** Add a record to a segment of the list. */
  method ExtendAt(seg: TraceSeg, r: Record, endtime: int, whence: nat, ghost segs: seq<TraceSeg>, ghost at: nat, ghost values: seq<Segment>)
      returns (ok: bool)
    requires Linked(segs) && Hold(segs, values) && at < |segs| && seg == segs[at]
    requires endtime == EndTime(r) && (whence == 1 || whence == 2)
    modifies seg
    ensures Linked(segs) && ok == TypeFits(r, values[at])
    ensures Hold(segs, if !ok then values else values[at := if whence == 1 then Appended(values[at], r) else Prepended(values[at], r)])
  {
    hide Chain, Prevs, Nexts, Appended, Prepended, TypeFits, EndTime;
    Snapshot(segs);
    ghost var prevs, nexts := Prevs(segs), Nexts(segs);
    hide Linked;
    ok := seg.AddRecord(r, endtime, whence);
    RestoredLinked(segs, prevs, nexts);
  }

  /** Add a segment of the list to another. */
  method JoinAt(seg: TraceSeg, other: TraceSeg, ghost segs: seq<TraceSeg>, ghost at: nat, ghost j: nat, ghost values: seq<Segment>)
      returns (ok: bool)
    requires Linked(segs) && Hold(segs, values) && at < |segs| && j < |segs| && at != j && seg == segs[at] && other == segs[j]
    modifies seg
    ensures Linked(segs) && ok == (values[j].datasamples != [] ==> values[j].sampletype == values[at].sampletype)
    ensures Hold(segs, if ok then values[at := Joined(values[at], values[j])] else values)
  {
    hide Chain, Prevs, Nexts, Joined;
    Snapshot(segs);
    ghost var prevs, nexts := Prevs(segs), Nexts(segs);
    hide Linked;
    assert seg.Value() == values[at] && other.Value() == values[j];
    ok := seg.AddSegment(other);
    RestoredLinked(segs, prevs, nexts);
  }
}
