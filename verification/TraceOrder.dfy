/**
 * With autoheal the order in which the records of a series arrive does not matter:
 * at every point the segments are the longest runs of records that are there.
 */
module TraceOrder {
  import opened Wrappers
  import opened SampleTimes
  import opened TraceSegments
  import opened TraceInvariants
  import L = TraceLists

  /**
   * Records of one kind, each starting one sample period after the one before it ends, give or take
   * half a period, and more than one and a half after the one before that.
   */
  predicate Series(rs: seq<Record>) {
    && |rs| > 0 && Period(rs[0].samprate) > 0
    && (forall k | 0 <= k < |rs| :: rs[k].samprate == rs[0].samprate && rs[k].sampletype == rs[0].sampletype)
    && (forall k | 0 < k < |rs| :: InStep(rs[k - 1], rs[k], Period(rs[0].samprate)))
    && forall k | 1 < k < |rs| :: 2 * (rs[k].starttime - EndTime(rs[k - 2])) > 3 * Period(rs[0].samprate)
  }

  /** The time from the end of one record to the start of the next is off the period by at most half of it. */
  predicate InStep(a: Record, b: Record, period: int) {
    -period <= 2 * (b.starttime - EndTime(a) - period) <= period
  }

  /** Records of two samples and more are far enough apart. */
  lemma TwoSamplesApart(rs: seq<Record>)
    requires |rs| > 0 && Period(rs[0].samprate) > 0
    requires forall k | 0 <= k < |rs| :: rs[k].samprate == rs[0].samprate && rs[k].sampletype == rs[0].sampletype && rs[k].samplecnt >= 2
    requires forall k | 0 < k < |rs| :: InStep(rs[k - 1], rs[k], Period(rs[0].samprate))
    ensures Series(rs)
  {
    hide Period, EndTime;
    forall k | 1 < k < |rs| ensures 2 * (rs[k].starttime - EndTime(rs[k - 2])) > 3 * Period(rs[0].samprate) {
      assert InStep(rs[k - 1], rs[k], Period(rs[0].samprate)) && InStep(rs[k - 2], rs[k - 1], Period(rs[0].samprate));
      LastsOnePeriod(rs[k - 1]);
    }
  }

  lemma LastsOnePeriod(r: Record)
    requires r.samplecnt >= 2
    ensures EndTime(r) >= r.starttime + Period(r.samprate)
  {
    var n, rate := (r.samplecnt - 1) as real, r.samprate;
    if rate > 0.0 {
      QuotientGrows(n, rate);
    } else if rate < 0.0 {
      ProductGrows(n, -rate);
    }
  }

  lemma QuotientGrows(n: real, rate: real)
    requires n >= 1.0 && rate > 0.0
    ensures n / rate * NSTMODULUS as real >= NSTMODULUS as real / rate
  {
    var q, one := n / rate, NSTMODULUS as real / rate;
    assert q * rate == n && one * rate == NSTMODULUS as real;
    assert q >= 1.0 / rate;
  }

  lemma ProductGrows(n: real, period: real)
    requires n >= 1.0 && period > 0.0
    ensures n * period * NSTMODULUS as real >= NSTMODULUS as real * period
  {
    assert n * period >= period;
  }

  lemma SameRate(rate: real)
    requires Period(rate) > 0
    ensures RateTolerable(Hertz(rate), Hertz(rate))
  {}

  lemma {:induction false} SeriesTimes(rs: seq<Record>, i: nat, j: nat)
    requires Series(rs) && i < j < |rs|
    ensures rs[j].starttime > EndTime(rs[i])
    ensures j == i + 1 ==> InStep(rs[i], rs[j], Period(rs[0].samprate))
    ensures j > i + 1 ==> 2 * (rs[j].starttime - EndTime(rs[i])) > 3 * Period(rs[0].samprate)
  {
    hide EndTime, Period;
    if j > i + 1 {
      SeriesTimes(rs, i, j - 1);
      Lasts(rs[j - 1]);
    }
  }

  lemma Lasts(r: Record)
    ensures r.starttime <= EndTime(r)
  {
    SampleTimeForward(r.starttime, r.samplecnt - 1, r.samprate);
  }

  /** A run of records, from the first up to the second. */
  type Run = (nat, nat)

  /** The segment is made of the records of a run. */
  predicate Tile(s: Segment, run: Run, rs: seq<Record>)
    requires |rs| > 0
  {
    && run.0 < run.1 <= |rs| && s.records == rs[run.0..run.1]
    && s.starttime == rs[run.0].starttime && s.endtime == EndTime(rs[run.1 - 1])
    && s.samprate == Hertz(rs[0].samprate) && s.sampletype == rs[0].sampletype
  }

  /** A record outside the run fits its segment exactly when it is next to it. */
  lemma TileFits(s: Segment, run: Run, rs: seq<Record>, k: nat)
    requires Series(rs) && Tile(s, run, rs) && k < |rs| && (k < run.0 || run.1 <= k)
    ensures FitsAfter(s, rs[k]) <==> k == run.1
    ensures FitsBefore(s, rs[k]) <==> k + 1 == run.0
    ensures rs[k].starttime > s.starttime <==> run.1 <= k
    ensures RateFits(rs[k], s) && TypeFits(rs[k], s)
    ensures k > run.1 ==> 2 * (rs[k].starttime - s.endtime) > 3 * Period(rs[0].samprate)
    ensures k + 1 < run.0 ==> 2 * (s.starttime - EndTime(rs[k])) > 3 * Period(rs[0].samprate)
    ensures k < run.0 ==> EndTime(rs[k]) <= s.endtime
    ensures run.1 <= k ==> s.endtime <= EndTime(rs[k])
  {
    hide EndTime, Period, RateTolerable, Hertz;
    SameRate(rs[0].samprate);
    Lasts(rs[k]);
    Lasts(rs[run.0]);
    Lasts(rs[run.1 - 1]);
    if k < run.0 {
      SeriesTimes(rs, k, run.0);
      if run.0 < run.1 - 1 {
        SeriesTimes(rs, run.0, run.1 - 1);
      }
    } else {
      SeriesTimes(rs, run.1 - 1, k);
      if run.0 < run.1 - 1 {
        SeriesTimes(rs, run.0, run.1 - 1);
      }
    }
  }

  predicate Separate(runs: seq<Run>) {
    (forall i | 0 <= i < |runs| :: runs[i].0 < runs[i].1) && forall i, j | 0 <= i < j < |runs| :: runs[i].1 < runs[j].0
  }

  predicate Covers(runs: seq<Run>, k: nat) {
    exists i :: 0 <= i < |runs| && runs[i].0 <= k < runs[i].1
  }

  /** How many runs lie before k. */
  function Pos(runs: seq<Run>, k: nat): (p: nat)
    ensures p <= |runs| && (forall i | 0 <= i < p :: runs[i].1 <= k) && (p < |runs| ==> k < runs[p].1)
  {
    if runs == [] || k < runs[0].1 then 0
    else
      var p := Pos(runs[1..], k);
      assert forall i | 0 < i <= p :: runs[i] == runs[1..][i - 1];
      p + 1
  }

  predicate TouchesLeft(runs: seq<Run>, k: nat) {
    var p := Pos(runs, k); p > 0 && runs[p - 1].1 == k
  }

  predicate TouchesRight(runs: seq<Run>, k: nat) {
    var p := Pos(runs, k); p < |runs| && runs[p].0 == k + 1
  }

  /** The runs once k is there too. */
  function Cover(runs: seq<Run>, k: nat): seq<Run> {
    var p := Pos(runs, k);
    if TouchesLeft(runs, k) && TouchesRight(runs, k) then runs[p - 1 := (runs[p - 1].0, runs[p].1)][..p] + runs[p + 1..]
    else if TouchesLeft(runs, k) then runs[p - 1 := (runs[p - 1].0, k + 1)]
    else if TouchesRight(runs, k) then runs[p := (k, runs[p].1)]
    else runs[..p] + [(k, k + 1)] + runs[p..]
  }

  /** The runs cover m at one of these places. */
  lemma CoversAt(runs: seq<Run>, i: nat, m: nat)
    requires i < |runs| && runs[i].0 <= m < runs[i].1
    ensures Covers(runs, m)
  {}

  lemma CoversUpdated(runs: seq<Run>, i: nat, run: Run, m: nat)
    requires i < |runs|
    ensures Covers(runs[i := run], m) <==> Covers(runs[..i] + runs[i + 1..], m) || run.0 <= m < run.1
  {
    CoversInserted(runs[..i] + runs[i + 1..], i, run, m);
    var less := runs[..i] + runs[i + 1..];
    assert less[..i] + [run] + less[i..] == runs[i := run];
  }

  lemma CoversInserted(runs: seq<Run>, p: nat, run: Run, m: nat)
    requires p <= |runs|
    ensures Covers(runs[..p] + [run] + runs[p..], m) <==> Covers(runs, m) || run.0 <= m < run.1
  {
    var now := runs[..p] + [run] + runs[p..];
    if Covers(now, m) {
      var i: nat :| i < |now| && now[i].0 <= m < now[i].1;
      if i < p {
        CoversAt(runs, i, m);
      } else if i > p {
        CoversAt(runs, i - 1, m);
      }
    }
    if Covers(runs, m) {
      var i: nat :| i < |runs| && runs[i].0 <= m < runs[i].1;
      CoversAt(now, if i < p then i else i + 1, m);
    }
    if run.0 <= m < run.1 {
      CoversAt(now, p, m);
    }
  }

  lemma Uncovered(runs: seq<Run>, i: nat, m: nat)
    requires i < |runs| && !Covers(runs, m)
    ensures m < runs[i].0 || runs[i].1 <= m
  {}

  /** What a place is about: the runs before it end at or before k, those from it on begin after. */
  lemma PosSplits(runs: seq<Run>, k: nat)
    requires Separate(runs) && !Covers(runs, k)
    ensures var p := Pos(runs, k); (forall i | 0 <= i < p :: runs[i].1 <= k) && (forall i | p <= i < |runs| :: k < runs[i].0)
  {
    var p := Pos(runs, k);
    if p < |runs| {
      Uncovered(runs, p, k);
    }
  }

  lemma UpdateSeparate(runs: seq<Run>, i: nat, run: Run)
    requires Separate(runs) && i < |runs| && run.0 < run.1
    requires (i > 0 ==> runs[i - 1].1 < run.0) && (i + 1 < |runs| ==> run.1 < runs[i + 1].0)
    ensures Separate(runs[i := run])
  {}

  lemma InsertSeparate(runs: seq<Run>, p: nat, run: Run)
    requires Separate(runs) && p <= |runs| && run.0 < run.1
    requires (p > 0 ==> runs[p - 1].1 < run.0) && (p < |runs| ==> run.1 < runs[p].0)
    ensures Separate(runs[..p] + [run] + runs[p..])
  {
    var now := runs[..p] + [run] + runs[p..];
    forall i, j | 0 <= i < j < |now| ensures now[i].1 < now[j].0 {
      InsertedAt(runs, p, run, i);
      InsertedAt(runs, p, run, j);
      RunsAround(runs, p, run, if i < p then i else i - 1, if j < p then j else j - 1);
    }
    forall i | 0 <= i < |now| ensures now[i].0 < now[i].1 {
      InsertedAt(runs, p, run, i);
    }
  }

  lemma InsertedAt(runs: seq<Run>, p: nat, run: Run, i: nat)
    requires p <= |runs| && i <= |runs|
    ensures (runs[..p] + [run] + runs[p..])[i] == if i < p then runs[i] else if i == p then run else runs[i - 1]
  {}

  lemma RunsAround(runs: seq<Run>, p: nat, run: Run, i: int, j: int)
    requires Separate(runs) && p <= |runs| && run.0 < run.1
    requires (p > 0 ==> runs[p - 1].1 < run.0) && (p < |runs| ==> run.1 < runs[p].0)
    ensures 0 <= i < j < |runs| ==> runs[i].1 < runs[j].0
    ensures 0 <= i < p ==> runs[i].1 < run.0
    ensures p <= j < |runs| ==> run.1 < runs[j].0
  {}

  /** One run for the two on either side of k. */
  function Merged(runs: seq<Run>, i: nat): seq<Run>
    requires i + 1 < |runs|
  {
    runs[i := (runs[i].0, runs[i + 1].1)][..i + 1] + runs[i + 2..]
  }

  lemma MergedSeparate(runs: seq<Run>, i: nat)
    requires Separate(runs) && i + 1 < |runs|
    ensures Separate(Merged(runs, i))
  {}

  lemma MergedCovers(runs: seq<Run>, i: nat, k: nat, m: nat)
    requires Separate(runs) && i + 1 < |runs| && runs[i].1 == k && runs[i + 1].0 == k + 1
    ensures Covers(Merged(runs, i), m) <==> Covers(runs, m) || m == k
  {
    hide Covers;
    var less := runs[..i + 1] + runs[i + 2..];
    assert Merged(runs, i) == less[i := (runs[i].0, runs[i + 1].1)];
    CoversUpdated(less, i, (runs[i].0, runs[i + 1].1), m);
    OwnRun(less, i, m);
    OwnRun(runs, i + 1, m);
  }

  /** A place of the runs counts by itself. */
  lemma OwnRun(runs: seq<Run>, i: nat, m: nat)
    requires i < |runs|
    ensures Covers(runs, m) <==> Covers(runs[..i] + runs[i + 1..], m) || runs[i].0 <= m < runs[i].1
  {
    CoversUpdated(runs, i, runs[i], m);
    assert runs[i := runs[i]] == runs;
  }

  lemma WiderCovers(runs: seq<Run>, i: nat, run: Run, k: nat, m: nat)
    requires i < |runs| && (runs[i].0 <= m < runs[i].1 || m == k <==> run.0 <= m < run.1)
    ensures Covers(runs[i := run], m) <==> Covers(runs, m) || m == k
  {
    hide Covers;
    OwnRun(runs, i, m);
    CoversUpdated(runs, i, run, m);
  }

  lemma CoverSeparate(runs: seq<Run>, k: nat)
    requires Separate(runs) && !Covers(runs, k)
    ensures Separate(Cover(runs, k))
  {
    PosSplits(runs, k);
    var p := Pos(runs, k);
    hide Pos, Covers, Merged;
    if TouchesLeft(runs, k) && TouchesRight(runs, k) {
      MergedSeparate(runs, p - 1);
      MergedIsCover(runs, k);
    } else if TouchesLeft(runs, k) {
      UpdateSeparate(runs, p - 1, (runs[p - 1].0, k + 1));
    } else if TouchesRight(runs, k) {
      UpdateSeparate(runs, p, (k, runs[p].1));
    } else {
      InsertSeparate(runs, p, (k, k + 1));
    }
  }

  /** Covering k covers just k more. */
  lemma CoverCovers(runs: seq<Run>, k: nat, m: nat)
    requires Separate(runs) && !Covers(runs, k)
    ensures Covers(Cover(runs, k), m) <==> Covers(runs, m) || m == k
  {
    hide Pos, Covers, Merged;
    var p := Pos(runs, k);
    if TouchesLeft(runs, k) && TouchesRight(runs, k) {
      MergedCovers(runs, p - 1, k, m);
      MergedIsCover(runs, k);
    } else if TouchesLeft(runs, k) {
      WiderCovers(runs, p - 1, (runs[p - 1].0, k + 1), k, m);
    } else if TouchesRight(runs, k) {
      WiderCovers(runs, p, (k, runs[p].1), k, m);
    } else {
      CoversInserted(runs, p, (k, k + 1), m);
    }
  }

  lemma MergedIsCover(runs: seq<Run>, k: nat)
    requires TouchesLeft(runs, k) && TouchesRight(runs, k)
    ensures Cover(runs, k) == Merged(runs, Pos(runs, k) - 1)
  {}

  // --------------------------------------------------------------------- the segments

  /** The segments are the runs, and the trace's times are theirs. */
  ghost predicate Tiled(t: Trace, runs: seq<Run>, rs: seq<Record>)
    requires |rs| > 0
  {
    && |t.segs| == |runs| > 0 && Separate(runs)
    && (forall i | 0 <= i < |runs| :: Tile(t.segs[i], runs[i], rs))
    && t.earliest == t.segs[0].starttime && t.latest == t.segs[|runs| - 1].endtime
  }

  /** Where the search finds that k goes. */
  function Goes(runs: seq<Run>, k: nat): Found {
    SeenUpTo(runs, k, |runs|)
  }

  /** What the search has found after looking at the first j segments. */
  function SeenUpTo(runs: seq<Run>, k: nat, j: nat): Found {
    var p := Pos(runs, k);
    Found(if TouchesLeft(runs, k) && p <= j then Some(p - 1) else None,
          if TouchesRight(runs, k) && p < j then Some(p) else None,
          if p > 0 && j > 0 then Some((if j < p then j else p) - 1) else None)
  }

  /** Which run is next to k. */
  lemma NextTo(runs: seq<Run>, k: nat, j: nat)
    requires Separate(runs) && !Covers(runs, k) && j < |runs|
    ensures var p := Pos(runs, k);
            && (runs[j].1 <= k <==> j < p) && (k < runs[j].0 <==> p <= j)
            && (k == runs[j].1 <==> TouchesLeft(runs, k) && j == p - 1)
            && (k + 1 == runs[j].0 <==> TouchesRight(runs, k) && j == p)
  {
    PosSplits(runs, k);
    hide Pos, Covers;
  }

  lemma LookedSees(segs: seq<Segment>, runs: seq<Run>, rs: seq<Record>, k: nat, j: nat)
    requires Series(rs) && Separate(runs) && |segs| == |runs| && forall i | 0 <= i < |runs| :: Tile(segs[i], runs[i], rs)
    requires k < |rs| && !Covers(runs, k) && j < |runs|
    ensures Looked(segs[j], j, rs[k], SeenUpTo(runs, k, j)) == SeenUpTo(runs, k, j + 1)
  {
    hide Series, Separate, Tile, FitsAfter, FitsBefore, RateFits, EndTime, Pos, Covers, TouchesLeft, TouchesRight;
    NextTo(runs, k, j);
    TileFits(segs[j], runs[j], rs, k);
  }

  /** Where k goes when that is at an end of the list. */
  lemma GoesAtEnds(runs: seq<Run>, k: nat)
    requires Separate(runs) && !Covers(runs, k) && |runs| > 0
    ensures var n := |runs| - 1;
            && (k == runs[n].1 ==> Goes(runs, k) == Found(Some(n), None, Some(n)))
            && (k > runs[n].1 ==> Goes(runs, k) == Found(None, None, Some(n)))
            && (k + 1 < runs[0].0 ==> Goes(runs, k) == NOTHING)
            && (k + 1 == runs[0].0 ==> Goes(runs, k) == Found(None, Some(0), None))
  {
    hide Pos, Covers, Separate, TouchesLeft, TouchesRight;
    NextTo(runs, k, 0);
    NextTo(runs, k, |runs| - 1);
  }

  lemma {:induction false} SearchGoes(segs: seq<Segment>, runs: seq<Run>, rs: seq<Record>, k: nat, j: nat)
    requires Series(rs) && Separate(runs) && |segs| == |runs| && forall i | 0 <= i < |runs| :: Tile(segs[i], runs[i], rs)
    requires k < |rs| && !Covers(runs, k) && j <= |runs|
    ensures Search(segs, rs[k], true, j, SeenUpTo(runs, k, j)) == Goes(runs, k)
    decreases |runs| - j
  {
    hide Series, Separate, Tile, FitsAfter, FitsBefore, RateFits, EndTime, Pos, Covers, Looked;
    if j < |runs| {
      LookedSees(segs, runs, rs, k, j);
      SearchGoes(segs, runs, rs, k, j + 1);
    }
  }

  /** The shortcuts for the ends of the list lead where the search would. */
  lemma PlaceGoes(t: Trace, runs: seq<Run>, rs: seq<Record>, k: nat)
    requires Series(rs) && Tiled(t, runs, rs) && k < |rs| && !Covers(runs, k)
    ensures InList(Goes(runs, k), |t.segs|) && Place(t, rs[k], true) == PlaceFound(t.segs, rs[k], Goes(runs, k))
  {
    hide Series, Separate, Tile, RateFits, TypeFits, EndTime, Covers, Period, Fresh, Search, Goes, Insert;
    var n, r := |runs| - 1, rs[k];
    SeriesPeriod(rs, k);
    Uncovered(runs, 0, k);
    Uncovered(runs, n, k);
    TileFits(t.segs[0], runs[0], rs, k);
    TileFits(t.segs[n], runs[n], rs, k);
    GoesAtEnds(runs, k);
    SearchGoes(t.segs, runs, rs, k, 0);
    SeenNothing(runs, k);
    SearchInList(t.segs, r, true, 0, NOTHING);
    InsertAtEnds(t.segs, Fresh(r));
    SeparateEnds(runs);
  }

  lemma SeriesPeriod(rs: seq<Record>, k: nat)
    requires Series(rs) && k < |rs|
    ensures rs[k].samprate == rs[0].samprate && Period(rs[0].samprate) > 0 && rs[k].starttime <= EndTime(rs[k])
  {}

  lemma SeenNothing(runs: seq<Run>, k: nat)
    ensures SeenUpTo(runs, k, 0) == NOTHING
  {}

  lemma InsertAtEnds(segs: seq<Segment>, s: Segment)
    ensures Insert(segs, |segs|, s) == segs + [s] && Insert(segs, 0, s) == [s] + segs
  {}

  lemma SeparateEnds(runs: seq<Run>)
    requires Separate(runs) && |runs| > 0
    ensures runs[0].0 < runs[0].1 <= runs[|runs| - 1].1 && runs[0].0 <= runs[|runs| - 1].0 < runs[|runs| - 1].1
  {}

  // ------------------------------------------------------------------- one more record

  lemma TileAppended(s: Segment, run: Run, rs: seq<Record>, k: nat)
    requires Series(rs) && Tile(s, run, rs) && k == run.1 < |rs|
    ensures Tile(Appended(s, rs[k]), (run.0, k + 1), rs)
  {
    hide Series, EndTime;
    assert rs[run.0..k + 1] == rs[run.0..k] + [rs[k]];
  }

  lemma TilePrepended(s: Segment, run: Run, rs: seq<Record>, k: nat)
    requires Series(rs) && Tile(s, run, rs) && k + 1 == run.0
    ensures Tile(Prepended(s, rs[k]), (k, run.1), rs)
  {
    hide Series, EndTime;
    assert rs[k..run.1] == [rs[k]] + rs[run.0..run.1];
  }

  lemma TileJoined(s: Segment, run: Run, t: Segment, next: Run, rs: seq<Record>)
    requires |rs| > 0 && Tile(s, run, rs) && Tile(t, next, rs) && run.1 == next.0
    ensures Tile(Joined(s, t), (run.0, next.1), rs)
  {
    hide EndTime;
    assert rs[run.0..next.1] == rs[run.0..run.1] + rs[next.0..next.1];
  }

  lemma TileFresh(rs: seq<Record>, k: nat)
    requires Series(rs) && k < |rs|
    ensures Tile(Fresh(rs[k]), (k, k + 1), rs)
  {
    assert rs[k..k + 1] == [rs[k]];
  }

  ghost predicate Tiles(segs: seq<Segment>, runs: seq<Run>, rs: seq<Record>)
    requires |rs| > 0
  {
    |segs| == |runs| && forall i | 0 <= i < |runs| :: Tile(segs[i], runs[i], rs)
  }

  lemma TilesMerged(segs: seq<Segment>, runs: seq<Run>, rs: seq<Record>, i: nat, s: Segment)
    requires |rs| > 0 && Tiles(segs, runs, rs) && i + 1 < |runs| && Tile(s, (runs[i].0, runs[i + 1].1), rs)
    ensures Tiles(Remove(segs[i := s], i + 1), Merged(runs, i), rs)
  {
    hide Tile;
  }

  lemma TilesUpdated(segs: seq<Segment>, runs: seq<Run>, rs: seq<Record>, i: nat, s: Segment, run: Run)
    requires |rs| > 0 && Tiles(segs, runs, rs) && i < |runs| && Tile(s, run, rs)
    ensures Tiles(segs[i := s], runs[i := run], rs)
  {
    hide Tile;
  }

  lemma TilesInserted(segs: seq<Segment>, runs: seq<Run>, rs: seq<Record>, i: nat, s: Segment, run: Run)
    requires |rs| > 0 && Tiles(segs, runs, rs) && i <= |runs| && Tile(s, run, rs)
    ensures Tiles(Insert(segs, i, s), runs[..i] + [run] + runs[i..], rs)
  {
    hide Tile;
  }

  lemma TileType(s: Segment, run: Run, rs: seq<Record>)
    requires |rs| > 0 && Tile(s, run, rs)
    ensures s.sampletype == rs[0].sampletype
  {}

  /** The segments after the record is placed are the runs with k. */
  lemma PlaceFoundTiles(segs: seq<Segment>, runs: seq<Run>, rs: seq<Record>, k: nat)
    requires Series(rs) && Separate(runs) && Tiles(segs, runs, rs) && k < |rs| && !Covers(runs, k)
    requires InList(Goes(runs, k), |segs|)
    ensures var p := PlaceFound(segs, rs[k], Goes(runs, k)); p.ok && Tiles(p.segs, Cover(runs, k), rs)
  {
    hide Series, Separate, Tile, EndTime, Covers, Fresh, Appended, Prepended, Joined, Merged, Remove, Insert, TypeFits, FitsAfter, FitsBefore, RateFits;
    var p := Pos(runs, k);
    if p > 0 {
      NextTo(runs, k, p - 1);
    }
    if p < |runs| {
      NextTo(runs, k, p);
    }
    if TouchesLeft(runs, k) {
      TileFits(segs[p - 1], runs[p - 1], rs, k);
      TileAppended(segs[p - 1], runs[p - 1], rs, k);
      var s, run := Appended(segs[p - 1], rs[k]), (runs[p - 1].0, k + 1);
      if TouchesRight(runs, k) {
        TileJoined(s, run, segs[p], runs[p], rs);
        TileType(s, run, rs);
        TileType(segs[p], runs[p], rs);
        TilesMerged(segs, runs, rs, p - 1, Joined(s, segs[p]));
        MergedIsCover(runs, k);
      } else {
        TilesUpdated(segs, runs, rs, p - 1, s, run);
      }
    } else if TouchesRight(runs, k) {
      TileFits(segs[p], runs[p], rs, k);
      TilePrepended(segs[p], runs[p], rs, k);
      TilesUpdated(segs, runs, rs, p, Prepended(segs[p], rs[k]), (k, runs[p].1));
    } else {
      TileFresh(rs, k);
      TilesInserted(segs, runs, rs, p, Fresh(rs[k]), (k, k + 1));
    }
  }

  // ------------------------------------------------------------------------- any order

  /** Segments in order stay where they are. */
  lemma SortedStays(segs: seq<Segment>, i: nat)
    requires i < |segs| && Sorted(segs)
    ensures Resorted(segs, i) == segs
  {
    hide OutOfOrder;
  }

  lemma {:induction false} RunStarts(rs: seq<Record>, i: nat, j: nat)
    requires Series(rs) && i < j < |rs|
    ensures rs[i].starttime < rs[j].starttime && EndTime(rs[i]) < EndTime(rs[j])
  {
    SeriesTimes(rs, i, j);
    hide EndTime, Period;
  }

  lemma TilesSorted(segs: seq<Segment>, runs: seq<Run>, rs: seq<Record>)
    requires Series(rs) && Separate(runs) && Tiles(segs, runs, rs)
    ensures Sorted(segs)
  {
    hide EndTime, Series;
    forall i, j | 0 <= i < j < |segs| ensures !OutOfOrder(segs[i], segs[j]) {
      assert Tile(segs[i], runs[i], rs) && Tile(segs[j], runs[j], rs);
      RunStarts(rs, runs[i].0, runs[j].0);
    }
  }

  /** The earliest start and latest end of the runs, with k. */
  lemma TimesCover(t: Trace, runs: seq<Run>, rs: seq<Record>, k: nat, segs: seq<Segment>)
    requires Series(rs) && Tiled(t, runs, rs) && k < |rs| && !Covers(runs, k) && Tiles(segs, Cover(runs, k), rs)
    ensures |segs| > 0 && segs[0].starttime == Min(t.earliest, rs[k].starttime)
    ensures segs[|segs| - 1].endtime == Max(t.latest, EndTime(rs[k]))
  {
    hide Series, Separate, EndTime, Covers, Cover, FitsAfter, FitsBefore, RateFits, TypeFits, Pos, TouchesLeft, TouchesRight;
    var n := |runs| - 1;
    CoverEnds(runs, k);
    NextTo(runs, k, 0);
    NextTo(runs, k, n);
    Uncovered(runs, 0, k);
    Uncovered(runs, n, k);
    TileFits(t.segs[0], runs[0], rs, k);
    TileFits(t.segs[n], runs[n], rs, k);
  }

  lemma CoverEnds(runs: seq<Run>, k: nat)
    requires Separate(runs) && !Covers(runs, k) && |runs| > 0
    ensures var now := Cover(runs, k);
            |now| > 0 && now[0].0 == Min(runs[0].0, k) && now[|now| - 1].1 == Max(runs[|runs| - 1].1, k + 1)
  {
    hide Covers, Pos, Separate, Merged, TouchesLeft, TouchesRight, Cover;
    var p, n := Pos(runs, k), |runs| - 1;
    NextTo(runs, k, 0);
    NextTo(runs, k, n);
    SeparateEnds(runs);
    Uncovered(runs, 0, k);
    Uncovered(runs, n, k);
    if TouchesLeft(runs, k) && TouchesRight(runs, k) {
      TouchedPlaces(runs, k);
      MergedIsCover(runs, k);
      MergedEnds(runs, p - 1);
    } else {
      CoverEndsOnce(runs, k);
    }
  }

  lemma TouchedPlaces(runs: seq<Run>, k: nat)
    ensures TouchesLeft(runs, k) ==> Pos(runs, k) > 0
    ensures TouchesRight(runs, k) ==> Pos(runs, k) < |runs|
  {}

  /** The ends when at most one run grows. */
  lemma CoverEndsOnce(runs: seq<Run>, k: nat)
    requires !(TouchesLeft(runs, k) && TouchesRight(runs, k)) && |runs| > 0
    ensures var p, now := Pos(runs, k), Cover(runs, k);
            && |now| > 0
            && now[0].0 == (if p == 0 then k else runs[0].0)
            && now[|now| - 1].1 == (if p == |runs| then k + 1 else runs[|runs| - 1].1)
  {
    hide Pos;
  }

  lemma MergedEnds(runs: seq<Run>, i: nat)
    requires i + 1 < |runs|
    ensures var now := Merged(runs, i); |now| == |runs| - 1 && now[0].0 == runs[0].0 && now[|now| - 1].1 == runs[|runs| - 1].1
  {}

  /** Adding one more record of the series covers just that record more. */
  lemma AddTiles(t: Trace, runs: seq<Run>, rs: seq<Record>, k: nat)
    requires Series(rs) && Tiled(t, runs, rs) && k < |rs| && !Covers(runs, k)
    ensures AddTo(t, rs[k], true).0 && Tiled(AddTo(t, rs[k], true).1, Cover(runs, k), rs)
  {
    hide Series, Separate, Tile, EndTime, Covers, Cover, Place, PlaceFound, Goes, Sorted, Resorted;
    PlaceGoes(t, runs, rs, k);
    PlaceFoundTiles(t.segs, runs, rs, k);
    var p := Place(t, rs[k], true);
    CoverSeparate(runs, k);
    TilesSorted(p.segs, Cover(runs, k), rs);
    SortedStays(p.segs, p.at);
    TimesCover(t, runs, rs, k, p.segs);
  }

  /** Add records of the series in some order to a trace ID. */
  function AddInOrder(t: Trace, rs: seq<Record>, order: seq<nat>): (t': Trace)
    requires |t.segs| > 0 && forall i | 0 <= i < |order| :: order[i] < |rs|
    ensures |t'.segs| > 0
  {
    if order == [] then t
    else AddTo(AddInOrder(t, rs, order[..|order| - 1]), rs[order[|order| - 1]], true).1
  }

  /** The runs that some of the series make. */
  function RunsOf(order: seq<nat>): (runs: seq<Run>)
    requires |order| > 0
  {
    if |order| == 1 then [(order[0], order[0] + 1)] else Cover(RunsOf(order[..|order| - 1]), order[|order| - 1])
  }

  /** The runs cover just these. */
  ghost predicate Exactly(runs: seq<Run>, order: seq<nat>) {
    forall k: nat {:trigger Covers(runs, k)} :: Covers(runs, k) <==> k in order
  }

  lemma {:induction false} RunsCover(order: seq<nat>)
    requires |order| > 0 && forall i, j | 0 <= i < j < |order| :: order[i] != order[j]
    ensures Separate(RunsOf(order)) && Exactly(RunsOf(order), order) && |RunsOf(order)| > 0
  {
    hide Cover, Covers;
    if |order| == 1 {
      forall m: nat ensures Covers(RunsOf(order), m) <==> m in order {
        CoversOne(order[0], m);
      }
    } else {
      var less, k := order[..|order| - 1], order[|order| - 1];
      RunsCover(less);
      CoverSeparate(RunsOf(less), k);
      CoverEnds(RunsOf(less), k);
      hide RunsOf, Separate;
      assert order == less + [k];
      forall m: nat ensures Covers(RunsOf(order), m) <==> m in order {
        CoverCovers(RunsOf(less), k, m);
      }
    }
  }

  lemma CoversOne(k: nat, m: nat)
    ensures Covers([(k, k + 1)], m) <==> m == k
  {
    var runs := [(k, k + 1)];
    if m == k {
      CoversAt(runs, 0, m);
    }
  }

  /** At every point the segments are the runs of the records added so far. */
  lemma {:induction false} OrderTiles(rs: seq<Record>, order: seq<nat>)
    requires Series(rs) && |order| > 0 && forall i | 0 <= i < |order| :: order[i] < |rs|
    requires forall i, j | 0 <= i < j < |order| :: order[i] != order[j]
    ensures Tiled(AddInOrder(NewTrace(rs[order[0]]), rs, order[1..]), RunsOf(order), rs)
  {
    hide Series, Tile, EndTime, Covers, Cover, AddTo, Fresh, Separate;
    var first := NewTrace(rs[order[0]]);
    RunsCover(order);
    if |order| == 1 {
      assert order[1..] == [];
      TileFresh(rs, order[0]);
      FreshTimes(rs[order[0]]);
    } else {
      var less, k := order[..|order| - 1], order[|order| - 1];
      OrderTiles(rs, less);
      RunsCover(less);
      assert order[1..][..|order| - 2] == less[1..];
      AddTiles(AddInOrder(first, rs, less[1..]), RunsOf(less), rs, k);
    }
  }

  lemma FreshTimes(r: Record)
    ensures Fresh(r).starttime == r.starttime && Fresh(r).endtime == EndTime(r)
  {}

  /** Runs that cover everything are one run. */
  lemma FullCover(runs: seq<Run>, n: nat)
    requires Separate(runs) && n > 0 && forall k: nat {:trigger Covers(runs, k)} :: Covers(runs, k) <==> k < n
    ensures runs == [(0, n)]
  {
    assert Covers(runs, 0) && Covers(runs, n - 1);
    var last := runs[|runs| - 1];
    CoversAt(runs, |runs| - 1, last.1 - 1);
    CoversAt(runs, 0, runs[0].0);
    assert Covers(runs, runs[0].1) <==> runs[0].1 < n;
  }

  lemma {:induction false} OrderGood(rs: seq<Record>, order: seq<nat>)
    requires Series(rs) && |order| > 0 && forall i | 0 <= i < |order| :: order[i] < |rs|
    requires forall i, j | 0 <= i < j < |order| :: order[i] != order[j]
    ensures Good(AddInOrder(NewTrace(rs[order[0]]), rs, order[1..]))
  {
    hide Series, Good, Cover, Covers, Tile, Exactly, EndTime, AddTo;
    var first := NewTrace(rs[order[0]]);
    if |order| == 1 {
      assert order[1..] == [];
      NewGood(rs[order[0]]);
    } else {
      var less, k := order[..|order| - 1], order[|order| - 1];
      OrderGood(rs, less);
      OrderTiles(rs, less);
      RunsCover(less);
      assert order[1..][..|order| - 2] == less[1..];
      NextIsAdded(rs, order);
      AddKeeps(AddInOrder(first, rs, less[1..]), rs[k], true);
    }
  }

  /** None of the series is refused by the segments of those before it. */
  lemma NextIsAdded(rs: seq<Record>, order: seq<nat>)
    requires Series(rs) && |order| > 1 && forall i | 0 <= i < |order| :: order[i] < |rs|
    requires forall i, j | 0 <= i < j < |order| :: order[i] != order[j]
    ensures var n := |order| - 1; AddTo(AddInOrder(NewTrace(rs[order[0]]), rs, order[..n][1..]), rs[order[n]], true).0
  {
    hide Series, Good, Cover, Covers, Tile, Exactly, EndTime, AddTo;
    var less, k := order[..|order| - 1], order[|order| - 1];
    OrderTiles(rs, less);
    RunsCover(less);
    NewOne(less, k);
    assert Exactly(RunsOf(less), less);
    StillOut(less, k);
    AddTiles(AddInOrder(NewTrace(rs[order[0]]), rs, less[1..]), RunsOf(less), rs, k);
  }

  lemma NewOne(less: seq<nat>, k: nat)
    requires forall i, j | 0 <= i < j <= |less| :: (less + [k])[i] != (less + [k])[j]
    ensures k !in less
  {
    var all := less + [k];
    forall i | 0 <= i < |less| ensures less[i] != k {
      assert all[i] != all[|less|];
    }
  }

  lemma StillOut(less: seq<nat>, k: nat)
    requires |less| > 0 && Exactly(RunsOf(less), less) && k !in less
    ensures !Covers(RunsOf(less), k)
  {
    assert Covers(RunsOf(less), k) <==> k in less;
  }

  lemma OneTile(t: Trace, rs: seq<Record>)
    requires |rs| > 0 && Tiled(t, [(0, |rs|)], rs) && Good(t)
    ensures && |t.segs| == 1 && t.segs[0].records == rs
            && t.segs[0].starttime == rs[0].starttime && t.segs[0].endtime == EndTime(rs[|rs| - 1])
            && t.segs[0].datasamples == Data(rs) && t.segs[0].samplecnt == Count(rs)
  {
    hide EndTime, Records, Tracks;
    assert rs[0..|rs|] == rs;
    assert Tile(t.segs[0], (0, |rs|), rs) && Coherent(t.segs[0]);
  }

  /**
   * Whatever the order in which the records of a series arrive, autoheal makes one segment of
   * them, with all their data in time order.
   */
  lemma AnyOrder(rs: seq<Record>, order: seq<nat>)
    requires Series(rs) && |order| == |rs| && forall i | 0 <= i < |order| :: order[i] < |rs|
    requires forall i, j | 0 <= i < j < |order| :: order[i] != order[j]
    ensures var t := AddInOrder(NewTrace(rs[order[0]]), rs, order[1..]);
            && |t.segs| == 1 && t.segs[0].records == rs
            && t.segs[0].starttime == rs[0].starttime && t.segs[0].endtime == EndTime(rs[|rs| - 1])
            && t.segs[0].datasamples == Data(rs) && t.segs[0].samplecnt == Count(rs)
  {
    hide Tiled, Good, AddInOrder, EndTime, RunsOf, Separate, Covers;
    OrderTiles(rs, order);
    OrderGood(rs, order);
    RunsCover(order);
    forall k: nat ensures k in order <==> k < |rs| {
      EveryIndex(order, k);
    }
    FullCover(RunsOf(order), |rs|);
    OneTile(AddInOrder(NewTrace(rs[order[0]]), rs, order[1..]), rs);
  }

  /** The additions of the series, in the order of arrival. */
  function Arrivals(rs: seq<Record>, order: seq<nat>): (adds: seq<L.Addition>)
    requires forall i | 0 <= i < |order| :: order[i] < |rs|
    ensures |adds| == |order|
  {
    seq(|order|, i requires 0 <= i < |order| => L.Addition(rs[order[i]], true))
  }

  /** They belong to one trace ID, and none is refused. */
  predicate OneName(rs: seq<Record>, split: bool) {
    forall k | 0 <= k < |rs| :: rs[k].sid == rs[0].sid && L.Version(split, rs[k].pubversion) == L.Version(split, rs[0].pubversion) && !L.Refused(rs[k])
  }

  /** The trace ID that has been made of some arrivals. */
  ghost predicate OneEntry(list: Option<seq<L.Entry>>, r: Record, t: Trace, split: bool) {
    list == Some([L.Entry(r.sid, r.behind, t)]) && L.Version(split, t.pubversion) == L.Version(split, r.pubversion)
  }

  lemma {:induction false} ArrivalsAdd(rs: seq<Record>, order: seq<nat>, split: bool)
    requires Series(rs) && OneName(rs, split) && |order| > 0 && forall i | 0 <= i < |order| :: order[i] < |rs|
    requires forall i, j | 0 <= i < j < |order| :: order[i] != order[j]
    ensures OneEntry(L.AddAll(Arrivals(rs, order), split), rs[order[0]], AddInOrder(NewTrace(rs[order[0]]), rs, order[1..]), split)
  {
    hide Series, AddTo, L.Refused, L.AddRecord, L.AddAll, Fresh;
    var first := rs[order[0]];
    var adds := Arrivals(rs, order);
    var n := |order| - 1;
    AddAllLast(adds, split);
    if n == 0 {
      assert order[1..] == [];
      FirstArrives(first, split, true);
    } else {
      var less := order[..n];
      ArrivalsAdd(rs, less, split);
      assert adds[..n] == Arrivals(rs, less);
      assert order[1..][..n - 1] == less[1..];
      NextIsAdded(rs, order);
      NextArrives(first, AddInOrder(NewTrace(first), rs, less[1..]), rs[order[n]], split, true);
    }
  }

  lemma AddAllLast(adds: seq<L.Addition>, split: bool)
    requires adds != []
    ensures var n := |adds| - 1; var less := L.AddAll(adds[..n], split);
            L.AddAll(adds, split) ==
            if less.None? then None
            else var (ok, now) := L.AddRecord(less.value, adds[n].record, split, adds[n].autoheal); if ok then Some(now) else None
    ensures L.AddAll([], split) == Some([])
  {
    hide L.AddRecord;
  }

  lemma FirstArrives(r: Record, split: bool, autoheal: bool)
    requires !L.Refused(r)
    ensures L.AddRecord([], r, split, autoheal).0 && OneEntry(Some(L.AddRecord([], r, split, autoheal).1), r, NewTrace(r), split)
  {
    hide L.Refused, Fresh;
    var e := L.Entry(r.sid, r.behind, NewTrace(r));
    assert [] + [e] + [] == [e];
    assert L.Rank([], r, split) == 0;
  }

  lemma NextArrives(first: Record, t: Trace, r: Record, split: bool, autoheal: bool)
    requires |t.segs| > 0 && !L.Refused(r) && AddTo(t, r, autoheal).0
    requires r.sid == first.sid && L.Version(split, t.pubversion) == L.Version(split, r.pubversion) == L.Version(split, first.pubversion)
    ensures var (ok, now) := L.AddRecord([L.Entry(first.sid, first.behind, t)], r, split, autoheal);
            ok && OneEntry(Some(now), first, AddTo(t, r, autoheal).1, split)
  {
    hide L.Refused, Place, Resorted;
    var e := L.Entry(first.sid, first.behind, t);
    assert !L.Before(e, r, split) && L.Matches(e, r, split);
    assert L.Rank([e], r, split) == 0;
    assert [e][0 := e.(trace := AddTo(t, r, autoheal).1)] == [e.(trace := AddTo(t, r, autoheal).1)];
  }

  /**
   * So a trace list to which the records of a series are added in any order has one trace ID with
   * one segment, which holds all their data in time order.
   */
  lemma AnyOrderInList(rs: seq<Record>, order: seq<nat>, split: bool)
    requires Series(rs) && OneName(rs, split) && |order| == |rs| && forall i | 0 <= i < |order| :: order[i] < |rs|
    requires forall i, j | 0 <= i < j < |order| :: order[i] != order[j]
    ensures var list := L.AddAll(Arrivals(rs, order), split);
            && list.Some? && |list.value| == 1 && list.value[0].sid == rs[0].sid && |list.value[0].trace.segs| == 1
            && var s := list.value[0].trace.segs[0];
               && s.records == rs && s.starttime == rs[0].starttime && s.endtime == EndTime(rs[|rs| - 1])
               && s.datasamples == Data(rs) && s.samplecnt == Count(rs)
  {
    hide AddInOrder, EndTime, L.AddAll, Fresh, Data, Count;
    ArrivalsAdd(rs, order, split);
    AnyOrder(rs, order);
  }

  /** n different numbers below n are all of them. */
  lemma EveryIndex(order: seq<nat>, k: nat)
    requires forall i | 0 <= i < |order| :: order[i] < |order|
    requires forall i, j | 0 <= i < j < |order| :: order[i] != order[j]
    ensures k in order <==> k < |order|
  {
    var all := Upto(|order|);
    var got := set i | 0 <= i < |order| :: order[i];
    Different(order);
    if k < |order| && k !in order {
      assert got <= all - {k};
      Subset(got, all - {k});
    }
  }

  ghost function Upto(n: nat): (s: set<nat>)
    ensures |s| == n && forall k: nat :: k in s <==> k < n
  {
    if n == 0 then {} else Upto(n - 1) + {n - 1}
  }

  lemma {:induction false} Different(order: seq<nat>)
    requires forall i, j | 0 <= i < j < |order| :: order[i] != order[j]
    ensures |set i | 0 <= i < |order| :: order[i]| == |order|
  {
    if order != [] {
      var less := order[..|order| - 1];
      Different(less);
      assert (set i | 0 <= i < |order| :: order[i]) == (set i | 0 <= i < |less| :: less[i]) + {order[|order| - 1]};
    }
  }

  lemma {:induction false} Subset<T>(a: set<T>, b: set<T>)
    requires a <= b
    ensures |a| <= |b|
  {
    if a != {} {
      var x :| x in a;
      Subset(a - {x}, b - {x});
    }
  }
}
