/** The list of trace IDs, changed in place. */
module TraceListStore {
  import opened Wrappers
  import opened TraceSegments
  import opened TraceInvariants
  import opened TraceIds
  import opened TraceLists
  import NsTime

  /** Compare source names, and publication versions when splitting; how many bytes of the names agree. */
  method CompareNames(sid: string, behind: nat, pubversion: nat, r: Record, splitversion: bool) returns (cmp: int, mag: nat)
    requires IsSid(sid) && IsSid(r.sid)
    ensures cmp == Compare(sid, behind, pubversion, r, splitversion) && mag == Agree(sid, r.sid, 0)
  {
    AgreeIs(sid, r.sid, 0);
    mag := 0;
    while Byte(sid, mag) == Byte(r.sid, mag) && mag < |sid|
      invariant mag <= |sid| && Agree(sid, r.sid, mag) == Agree(sid, r.sid, 0)
      decreases |sid| - mag
    {
      mag := mag + 1;
    }
    if Byte(sid, mag) == Byte(r.sid, mag) {
      mag := mag + 1;
      // what lies behind the NUL of the first name, against the NUL of the second
      cmp := Signed(if |sid| == SIDLEN - 1 then pubversion else behind);
    } else {
      cmp := Byte(sid, mag) - Byte(r.sid, mag);
    }
    if cmp == 0 && splitversion && pubversion != r.pubversion {
      cmp := if pubversion < r.pubversion then -1 else 1;
    }
  }

  ghost function IdAt(ids: seq<TraceId>, i: int): TraceId? {
    if 0 <= i < |ids| then ids[i] else null
  }

  /** The sign of the comparison says on which side of the record an entry is. */
  lemma CompareSign(e: Entry, r: Record, split: bool)
    requires TidyEntry(e) && Tidy(r)
    ensures var cmp := Compare(e.sid, e.behind, e.trace.pubversion, r, split);
            (cmp < 0 <==> Before(e, r, split)) && (cmp == 0 <==> Matches(e, r, split))
  {
    AgreeIs(e.sid, r.sid, 0);
  }

  /** A matching entry stands at the record's rank. */
  lemma MatchAtRank(list: seq<Entry>, r: Record, split: bool, k: nat)
    requires Ascending(list, split) && k < |list| && Matches(list[k], r, split)
    ensures Rank(list, r, split) == k
  {
    hide Precedes;
    var n := Rank(list, r, split);
    NotBeforeItself(list[k], r, split);
    assert n < k ==> Before(list[n], r, split);
  }

  lemma NotBeforeItself(e: Entry, r: Record, split: bool)
    requires Matches(e, r, split)
    ensures !Before(e, r, split)
  {}

  /** Of two entries before the record the later one agrees with it longer, or as long and is closer. */
  lemma NearerWins(d: Entry, e: Entry, r: Record, split: bool)
    requires TidyEntry(d) && TidyEntry(e) && Tidy(r) && Before(d, r, split) && Before(e, r, split)
    requires Precedes(d.sid, Version(split, d.trace.pubversion), e.sid, Version(split, e.trace.pubversion))
    ensures Agree(d.sid, r.sid, 0) <= Agree(e.sid, r.sid, 0)
    ensures Agree(d.sid, r.sid, 0) == Agree(e.sid, r.sid, 0) ==>
              Compare(d.sid, d.behind, d.trace.pubversion, r, split) <= Compare(e.sid, e.behind, e.trace.pubversion, r, split)
  {
    AgreeSymmetric(d.sid, e.sid);
    AgreeIs(d.sid, e.sid, 0);
    if d.sid != e.sid && d.sid != r.sid {
      NearerAgreesLonger(d.sid, e.sid, r.sid);
    }
  }

  ghost function AllNodes(ids: seq<TraceId>): (nodes: set<TraceSeg>)
    reads ids`segs
    ensures forall i, s | 0 <= i < |ids| && s in ids[i].segs :: s in nodes
  {
    set i, s | 0 <= i < |ids| && s in ids[i].segs :: s
  }

  /** The IDs are chained in this order. */
  ghost predicate ChainedIds(ids: seq<TraceId>)
    reads ids`next
  {
    && (forall i, j | 0 <= i < j < |ids| :: ids[i] != ids[j])
    && (forall i {:trigger ids[i].next} | 0 <= i < |ids| :: ids[i].next == IdAt(ids, i + 1))
  }

  /** No two IDs share a segment. */
  ghost predicate Apart(ids: seq<TraceId>)
    reads ids`segs
  {
    forall i, j | 0 <= i < j < |ids| :: Nodes(ids[i].segs) !! Nodes(ids[j].segs)
  }

  /** The IDs are those of the entries. */
  ghost predicate HoldIds(ids: seq<TraceId>, list: seq<Entry>)
    reads ids`sid, ids`behind, ids`segs, ids`first, ids`last, ids`numsegments, ids`pubversion, ids`earliest, ids`latest, AllNodes(ids)
  {
    |ids| == |list| && forall i | 0 <= i < |ids| :: ids[i].sid == list[i].sid && ids[i].behind == list[i].behind && ids[i].Is(list[i].trace)
  }

  ghost function WithId(ids: seq<TraceId>, n: nat, id: TraceId): seq<TraceId>
    requires n <= |ids|
  {
    ids[..n] + [id] + ids[n..]
  }

  lemma WithIdAt(ids: seq<TraceId>, n: nat, id: TraceId, i: int)
    requires n <= |ids|
    ensures IdAt(WithId(ids, n, id), i) == if i < n then IdAt(ids, i) else if i == n then id else IdAt(ids, i - 1)
    ensures 0 <= i <= |ids| ==> WithId(ids, n, id)[i] == if i < n then ids[i] else if i == n then id else ids[i - 1]
  {}

  lemma StillThere(ids: seq<TraceId>, n: nat, id: TraceId)
    requires n <= |ids|
    ensures |WithId(ids, n, id)| == |ids| + 1 && id in WithId(ids, n, id) && forall x | x in ids :: x in WithId(ids, n, id)
  {
    assert ids == ids[..n] + ids[n..];
  }

  lemma ChainedWith(ids: seq<TraceId>, n: nat, id: TraceId)
    requires n <= |ids| && id !in ids && forall i, j | 0 <= i < j < |ids| :: ids[i] != ids[j]
    requires forall i {:trigger ids[i].next} | 0 <= i < |ids| :: ids[i].next == if i == n - 1 then id else IdAt(ids, i + 1)
    requires id.next == IdAt(ids, n)
    ensures ChainedIds(WithId(ids, n, id))
  {
    var now := WithId(ids, n, id);
    hide IdAt, WithId;
    forall i | 0 <= i < |now| ensures now[i].next == IdAt(now, i + 1) {
      WithIdAt(ids, n, id, i);
      WithIdAt(ids, n, id, i + 1);
    }
    DistinctWith(ids, n, id);
  }

  lemma DistinctWith(ids: seq<TraceId>, n: nat, id: TraceId)
    requires n <= |ids| && id !in ids && forall i, j | 0 <= i < j < |ids| :: ids[i] != ids[j]
    ensures var now := WithId(ids, n, id); |now| == |ids| + 1 && forall i, j | 0 <= i < j < |now| :: now[i] != now[j]
  {}

  lemma ApartWith(ids: seq<TraceId>, n: nat, id: TraceId)
    requires n <= |ids| && Apart(ids) && Nodes(id.segs) !! AllNodes(ids)
    ensures Apart(WithId(ids, n, id))
  {
    var now := WithId(ids, n, id);
    hide WithId;
    forall i, j | 0 <= i < j < |now| ensures Nodes(now[i].segs) !! Nodes(now[j].segs) {
      WithIdAt(ids, n, id, i);
      WithIdAt(ids, n, id, j);
    }
  }

  lemma HoldWith(ids: seq<TraceId>, list: seq<Entry>, n: nat, id: TraceId, e: Entry)
    requires n <= |ids| && HoldIds(ids, list) && id.sid == e.sid && id.behind == e.behind && id.Is(e.trace)
    ensures HoldIds(WithId(ids, n, id), list[..n] + [e] + list[n..])
  {
    hide TraceId.Is;
  }

  ghost function IdSet(ids: seq<TraceId>): set<TraceId> {
    set id | id in ids
  }

  lemma AllNodesWith(ids: seq<TraceId>, n: nat, id: TraceId)
    requires n <= |ids|
    ensures AllNodes(WithId(ids, n, id)) == AllNodes(ids) + Nodes(id.segs) && IdSet(WithId(ids, n, id)) == IdSet(ids) + {id}
  {
    var now := WithId(ids, n, id);
    forall i | 0 <= i < |ids| ensures ids[i] in now {
      assert now[if i < n then i else i + 1] == ids[i];
    }
    assert now[n] == id;
    forall s | s in AllNodes(ids) ensures s in AllNodes(now) {
      var i :| 0 <= i < |ids| && s in ids[i].segs;
      assert now[if i < n then i else i + 1] == ids[i];
    }
  }

  class TraceList {
    var numtraces: nat
    var traces: TraceId?
    var last: TraceId?
    ghost var ids: seq<TraceId>

    /** The list from the first ID on. */
    ghost predicate Chained()
      reads this`numtraces, this`traces, this`ids, ids`next
    {
      numtraces == |ids| && traces == IdAt(ids, 0) && ChainedIds(ids)
    }

    /** The last ID used is in the list; there is none only as long as there are no IDs. */
    ghost predicate LastIn()
      reads this`last, this`ids
    {
      if last == null then ids == [] else last in ids
    }

    ghost predicate Is(list: seq<Entry>)
      reads this`numtraces, this`traces, this`ids, ids, AllNodes(ids)
    {
      Chained() && Apart(ids) && HoldIds(ids, list)
    }

    ghost predicate Names(list: seq<Entry>)
      reads this, ids
    {
      |ids| == |list| && forall i | 0 <= i < |ids| :: ids[i].sid == list[i].sid && ids[i].behind == list[i].behind && ids[i].pubversion == list[i].trace.pubversion
    }

    /** The closest name so far, among the first m entries. */
    ghost predicate Closest(list: seq<Entry>, r: Record, split: bool, m: nat, lt: TraceId?, ltcmp: int, ltmag: nat)
      reads this
    {
      m <= |list| == |ids| && lt == IdAt(ids, m - 1)
      && if m == 0 then ltcmp == 0 && ltmag == 0
         else ltcmp == Compare(list[m - 1].sid, list[m - 1].behind, list[m - 1].trace.pubversion, r, split) < 0
              && ltmag == Agree(list[m - 1].sid, r.sid, 0)
    }

    /** One entry before the record is closer than all before it. */
    lemma CloserStep(list: seq<Entry>, r: Record, split: bool, k: nat, lt: TraceId?, ltcmp: int, ltmag: nat, cmp: int, mag: nat)
      requires GoodList(list, split) && Tidy(r) && k < Rank(list, r, split)
      requires Closest(list, r, split, k, lt, ltcmp, ltmag)
      requires cmp == Compare(list[k].sid, list[k].behind, list[k].trace.pubversion, r, split) && mag == Agree(list[k].sid, r.sid, 0)
      ensures ((ltcmp == 0 || cmp >= ltcmp) && mag >= ltmag) || mag > ltmag
      ensures Closest(list, r, split, k + 1, ids[k], cmp, mag)
    {
      hide Precedes, Good, Own, Compare, Agree;
      assert GoodEntry(list[k], split) && Before(list[k], r, split);
      CompareSign(list[k], r, split);
      if k > 0 {
        assert GoodEntry(list[k - 1], split) && Before(list[k - 1], r, split);
        NearerWins(list[k - 1], list[k], r, split);
      }
    }

    /**
     * The search for a trace ID, beginning with the one last used.  Without a match, `lt` is the
     * ID behind which the record's belongs.
     */
    method Find(r: Record, splitversion: bool, ghost list: seq<Entry>) returns (id: TraceId?, lt: TraceId?)
      requires Chained() && LastIn() && Names(list) && GoodList(list, splitversion) && Tidy(r)
      ensures var n := Rank(list, r, splitversion);
              if n < |list| && Matches(list[n], r, splitversion) then id == ids[n] else id == null && lt == IdAt(ids, n - 1)
    {
      hide Precedes, Compare, Agree, GoodList, Matches, Before, Rank, Closest;
      id, lt := null, null;
      if last == null {
        return;
      }
      ghost var n := Rank(list, r, splitversion);
      ghost var j: nat :| j < |ids| && ids[j] == last;
      var cmp, mag := CompareId(last, r, splitversion, list, j);
      if cmp == 0 {
        return last, null;
      }
      var search, ltcmp, ltmag: nat := traces, 0, 0;
      ghost var k: nat := 0;
      ClosestStart(list, r, splitversion);
      while search != null
        invariant k <= |ids| && search == IdAt(ids, k)
        invariant n < k ==> !Matches(list[n], r, splitversion)
        invariant Closest(list, r, splitversion, if k < n then k else n, lt, ltcmp, ltmag)
        decreases |ids| - k
      {
        cmp, mag := CompareId(search, r, splitversion, list, k);
        if cmp == 0 {
          return search, null;
        }
        if cmp < 0 {
          CloserStep(list, r, splitversion, k, lt, ltcmp, ltmag, cmp, mag);
          if (ltcmp == 0 || cmp >= ltcmp) && mag >= ltmag {
            ltcmp, ltmag, lt := cmp, mag, search;
          } else if mag > ltmag {
            ltcmp, ltmag, lt := cmp, mag, search;
          }
        }
        search := search.next;
        k := k + 1;
      }
      ClosestLast(list, r, splitversion, n, lt, ltcmp, ltmag);
    }

    lemma ClosestStart(list: seq<Entry>, r: Record, split: bool)
      requires |ids| == |list|
      ensures Closest(list, r, split, 0, null, 0, 0)
    {}

    lemma ClosestLast(list: seq<Entry>, r: Record, split: bool, n: nat, lt: TraceId?, ltcmp: int, ltmag: nat)
      requires Closest(list, r, split, n, lt, ltcmp, ltmag)
      ensures lt == IdAt(ids, n - 1)
    {}

    /** Compare an ID of the list with the record: it comes before, matches and is the record's place, or neither. */
    method CompareId(id: TraceId, r: Record, splitversion: bool, ghost list: seq<Entry>, ghost k: nat) returns (cmp: int, mag: nat)
      requires Names(list) && GoodList(list, splitversion) && Tidy(r) && k < |list| && id == ids[k]
      ensures cmp == Compare(list[k].sid, list[k].behind, list[k].trace.pubversion, r, splitversion) && mag == Agree(list[k].sid, r.sid, 0)
      ensures cmp < 0 <==> k < Rank(list, r, splitversion)
      ensures cmp == 0 <==> Matches(list[k], r, splitversion)
      ensures cmp == 0 ==> k == Rank(list, r, splitversion)
    {
      hide Precedes, Good, Own, Compare, Agree;
      assert GoodEntry(list[k], splitversion);
      cmp, mag := CompareNames(id.sid, id.behind, id.pubversion, r, splitversion);
      CompareSign(list[k], r, splitversion);
      if cmp == 0 {
        MatchAtRank(list, r, splitversion, k);
      }
      if cmp < 0 {
        RankPast(list, r, splitversion, k);
      }
    }

    /** Nothing of another list gets into this one. */
    twostate predicate Grows()
      reads this`ids, ids`segs
    {
      fresh(IdSet(ids) - old(IdSet(ids))) && fresh(AllNodes(ids) - old(AllNodes(ids)))
    }

    method SetLast(id: TraceId, ghost list: seq<Entry>)
      requires Is(list) && id in ids
      modifies this`last
      ensures Is(list) && last == id && AllNodes(ids) == old(AllNodes(ids))
    {
      hide TraceId.Is;
      last := id;
    }

    /** Add the record's coverage to the matching trace ID. */
    method AddToId(id: TraceId, r: Record, endtime: int, autoheal: bool, ghost n: nat, ghost list: seq<Entry>) returns (seg: TraceSeg?)
      requires Is(list) && n < |ids| && id == ids[n] && endtime == EndTime(r)
      modifies ids[n], ids[n].segs
      ensures var (ok, trace) := AddTo(list[n].trace, r, autoheal); ok == (seg != null) && Is(list[n := list[n].(trace := trace)])
      ensures Grows()
    {
      hide AddTo, Good, EndTime, TraceId.Is;
      seg := id.AddCoverage(r, endtime, autoheal, list[n].trace);
      forall s | s in AllNodes(ids) ensures s in old(AllNodes(ids)) || fresh(s) {
        var i :| 0 <= i < |ids| && s in ids[i].segs;
        assert i == n ==> s in Nodes(ids[n].segs);
      }
    }

    /** A new trace ID behind the closest one before it, or first. */
    method LinkId(id: TraceId, lt: TraceId?, ghost n: nat, ghost list: seq<Entry>, ghost e: Entry)
      requires Is(list) && n <= |ids| == |list| && n <= |ids| && lt == IdAt(ids, n - 1) && id !in ids
      requires id.Is(e.trace) && id.sid == e.sid && id.behind == e.behind && Nodes(id.segs) !! AllNodes(ids)
      modifies this`traces, this`ids, this`numtraces, this`last, ids`next, id`next
      ensures ids == WithId(old(ids), n, id) && Is(list[..n] + [e] + list[n..]) && last == id
    {
      hide TraceId.Is, Apart, HoldIds, WithId, AllNodes, Nodes;
      if traces == null || lt == null {
        id.next := traces;
        traces := id;
      } else {
        id.next := lt.next;
        lt.next := id;
      }
      ChainedWith(ids, n, id);
      ApartWith(ids, n, id);
      WithIdAt(ids, n, id, 0);
      StillThere(ids, n, id);
      numtraces := numtraces + 1;
      last := id;
      ghost var was := ids;
      ids := WithId(was, n, id);
      HoldWith(was, list, n, id, e);
    }

    constructor ()
      ensures Is([]) && LastIn() && ids == []
    {
      numtraces, traces, last, ids := 0, null, null, [];
    }

    /** Add the record's coverage to the matching trace ID, which is then the one last used. */
    method AddToMatch(id: TraceId, r: Record, endtime: int, autoheal: bool, ghost n: nat, ghost list: seq<Entry>) returns (seg: TraceSeg?)
      requires Is(list) && LastIn() && n < |ids| && id == ids[n] && endtime == EndTime(r)
      modifies this`last, ids[n], ids[n].segs
      ensures var (ok, trace) := AddTo(list[n].trace, r, autoheal); ok == (seg != null) && Is(list[n := list[n].(trace := trace)])
      ensures Grows() && LastIn()
    {
      hide AddTo, EndTime, Is, Apart, ChainedIds, HoldIds;
      LengthOf(list);
      seg := AddToId(id, r, endtime, autoheal, n, list);
      if seg != null {
        SetLast(id, list[n := list[n].(trace := AddTo(list[n].trace, r, autoheal).1)]);
      }
    }

    lemma LengthOf(list: seq<Entry>)
      requires Is(list)
      ensures |ids| == |list| && forall i | 0 <= i < |list| :: |list[i].trace.segs| > 0
    {}

    /** A new trace ID with one segment. */
    method Create(r: Record, endtime: int, lt: TraceId?, ghost n: nat, ghost list: seq<Entry>) returns (id: TraceId)
      requires Is(list) && endtime == EndTime(r) && n <= |list| == |ids| && lt == IdAt(ids, n - 1)
      modifies this`traces, this`ids, this`numtraces, this`last, ids`next
      ensures Is(list[..n] + [Entry(r.sid, r.behind, NewTrace(r))] + list[n..]) && id in ids && id.first != null && Grows() && last == id
    {
      hide EndTime, TraceId.Is, ChainedIds, Apart, WithId, IdAt, NewTrace;
      id := new TraceId(r, endtime);
      LinkId(id, lt, n, list, Entry(r.sid, r.behind, NewTrace(r)));
      StillThere(old(ids), n, id);
      AllNodesWith(old(ids), n, id);
    }

    /** mstl3_addmsr_recordptr; the size of the samples is looked up where they are copied, before anything is changed. */
    method AddRecord(r: Record, splitversion: bool, autoheal: bool, ghost list: seq<Entry>) returns (seg: TraceSeg?)
      requires Is(list) && LastIn() && GoodList(list, splitversion) && Tidy(r)
      modifies this, IdSet(ids), AllNodes(ids)
      ensures (seg != null) == TraceLists.AddRecord(list, r, splitversion, autoheal).0
      ensures Is(TraceLists.AddRecord(list, r, splitversion, autoheal).1) && LastIn() && Grows()
    {
      hide GoodList, Tidy, EndTime, AddTo, Rank, Matches, Is, TraceLists.AddRecord, Apart, ChainedIds, HoldIds, WithId, NewTrace;
      LengthOf(list);
      var endtime := EndTime(r);
      if endtime == NsTime.NSTERROR || (r.datasamples != [] && !KnownType(r.sampletype)) {
        RefusedFails(list, r, splitversion, autoheal);
        seg := null;
      } else {
        seg := AddAccepted(r, endtime, splitversion, autoheal, list);
      }
    }

    /** Find the trace ID and add the record to it. */
    method AddAccepted(r: Record, endtime: int, splitversion: bool, autoheal: bool, ghost list: seq<Entry>) returns (seg: TraceSeg?)
      requires Is(list) && LastIn() && GoodList(list, splitversion) && Tidy(r) && endtime == EndTime(r) && !Refused(r)
      modifies this, IdSet(ids), AllNodes(ids)
      ensures (seg != null) == TraceLists.AddRecord(list, r, splitversion, autoheal).0
      ensures Is(TraceLists.AddRecord(list, r, splitversion, autoheal).1) && LastIn() && Grows()
    {
      hide GoodList, Tidy, EndTime, AddTo, Rank, Matches, Is, TraceLists.AddRecord, Apart, ChainedIds, HoldIds, WithId, NewTrace, Refused;
      NamesOf(list);
      LengthOf(list);
      var id, lt := Find(r, splitversion, list);
      ghost var n := Rank(list, r, splitversion);
      AddRecordIs(list, r, splitversion, autoheal);
      ghost var found := n < |list| && Matches(list[n], r, splitversion);
      seg := AddAt(id, lt, r, endtime, autoheal, n, found, list);
    }

    /** Add the record to the trace ID found, or to a new one. */
    method AddAt(id: TraceId?, lt: TraceId?, r: Record, endtime: int, autoheal: bool, ghost n: nat, ghost found: bool, ghost list: seq<Entry>)
        returns (seg: TraceSeg?)
      requires Is(list) && LastIn() && endtime == EndTime(r) && n <= |list| == |ids| && (found ==> n < |list|)
      requires if found then id == ids[n] else id == null && lt == IdAt(ids, n - 1)
      requires forall i | 0 <= i < |list| :: |list[i].trace.segs| > 0
      modifies this, IdSet(ids), AllNodes(ids)
      ensures LastIn() && Grows()
      ensures found ==> var (ok, trace) := AddTo(list[n].trace, r, autoheal); ok == (seg != null) && Is(list[n := list[n].(trace := trace)])
      ensures !found ==> seg != null && Is(list[..n] + [Entry(r.sid, r.behind, NewTrace(r))] + list[n..])
    {
      hide EndTime, AddTo, Is, Apart, ChainedIds, HoldIds, WithId, NewTrace;
      if id == null {
        var made := Create(r, endtime, lt, n, list);
        seg := made.first;
      } else {
        seg := AddToMatch(id, r, endtime, autoheal, n, list);
      }
    }

    lemma NamesOf(list: seq<Entry>)
      requires Is(list)
      ensures Chained() && Names(list) && |ids| == |list|
    {}
  }

  lemma RefusedFails(list: seq<Entry>, r: Record, split: bool, autoheal: bool)
    requires Refused(r) && forall i | 0 <= i < |list| :: |list[i].trace.segs| > 0
    ensures TraceLists.AddRecord(list, r, split, autoheal) == (false, list)
  {}

  lemma AddRecordIs(list: seq<Entry>, r: Record, split: bool, autoheal: bool)
    requires !Refused(r) && forall i | 0 <= i < |list| :: |list[i].trace.segs| > 0
    ensures var n := Rank(list, r, split);
            TraceLists.AddRecord(list, r, split, autoheal) ==
            if n < |list| && Matches(list[n], r, split)
            then (AddTo(list[n].trace, r, autoheal).0, list[n := list[n].(trace := AddTo(list[n].trace, r, autoheal).1)])
            else (true, list[..n] + [Entry(r.sid, r.behind, NewTrace(r))] + list[n..])
  {}

  /** An entry before the record stands before its rank. */
  lemma RankPast(list: seq<Entry>, r: Record, split: bool, k: nat)
    requires GoodList(list, split) && Tidy(r) && k < |list| && Before(list[k], r, split)
    ensures k < Rank(list, r, split)
  {
    hide Precedes, Good, Own;
    var n := Rank(list, r, split);
    if n < k {
      assert GoodEntry(list[n], split) && GoodEntry(list[k], split);
      PrecedesTransitive(list[n].sid, Version(split, list[n].trace.pubversion), list[k].sid, Version(split, list[k].trace.pubversion),
                         r.sid, Version(split, r.pubversion));
    }
  }

  /**
   * Any run of additions to an empty list.  When all succeed the list is what AddAll makes of
   * them: in order without duplicates, and every record added is in it exactly once.
   */
  method Run(adds: seq<Addition>, splitversion: bool) returns (list: TraceList, ok: bool)
    requires forall i | 0 <= i < |adds| :: Tidy(adds[i].record)
    ensures ok == AddAll(adds, splitversion).Some?
    ensures ok ==> var entries := AddAll(adds, splitversion).value;
                   list.Is(entries) && GoodList(entries, splitversion) && AllRecords(entries) == Added(adds)
  {
    hide GoodList, Tidy, TraceLists.AddRecord, TraceList.Is, TraceList.LastIn, AddAll;
    AddNone(splitversion);
    list := new TraceList();
    ghost var entries: seq<Entry> := [];
    assert adds[..0] == [];
    for i := 0 to |adds|
      invariant AddAll(adds[..i], splitversion) == Some(entries)
      invariant list.Is(entries) && list.LastIn() && fresh(list)
      invariant fresh(IdSet(list.ids)) && fresh(AllNodes(list.ids))
    {
      RunIsGood(adds[..i], splitversion);
      AddOneMore(adds, i, splitversion);
      var seg := list.AddRecord(adds[i].record, splitversion, adds[i].autoheal, entries);
      if seg == null {
        FailsForGood(adds, i + 1, splitversion);
        return list, false;
      }
      entries := TraceLists.AddRecord(entries, adds[i].record, splitversion, adds[i].autoheal).1;
    }
    assert adds[..|adds|] == adds;
    RunIsGood(adds, splitversion);
    return list, true;
  }

  lemma AddNone(split: bool)
    ensures AddAll([], split) == Some([])
  {}

  lemma AddOneMore(adds: seq<Addition>, i: nat, split: bool)
    requires i < |adds| && AddAll(adds[..i], split).Some?
    ensures var (ok, list) := TraceLists.AddRecord(AddAll(adds[..i], split).value, adds[i].record, split, adds[i].autoheal);
            AddAll(adds[..i + 1], split) == if ok then Some(list) else None
  {
    assert adds[..i + 1][..i] == adds[..i];
  }

  lemma {:induction false} FailsForGood(adds: seq<Addition>, n: nat, split: bool)
    requires n <= |adds| && AddAll(adds[..n], split).None?
    ensures AddAll(adds, split).None?
    decreases |adds| - n
  {
    hide TraceLists.AddRecord;
    if n < |adds| {
      assert adds[..n + 1][..n] == adds[..n];
      FailsForGood(adds, n + 1, split);
    } else {
      assert adds[..n] == adds;
    }
  }
}
