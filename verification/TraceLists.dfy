/**
 * The list of trace IDs as values: what adding a record makes of it, and what every run of
 * additions keeps.
 */
module TraceLists {
  import opened Wrappers
  import opened TraceSegments
  import opened TraceInvariants
  import NsTime

  // ------------------------------------------------------------------ comparing source IDs

  /** LM_SIDLEN: the bytes of a source identifier, with its NUL. */
  const SIDLEN: nat := 64

  /** The bytes of a C string, none of them a NUL, that fits a source identifier. */
  predicate IsSid(s: string) {
    |s| < SIDLEN && forall i | 0 <= i < |s| :: 0 as char < s[i] < 256 as char
  }

  /** A byte as a signed char. */
  function Signed(b: nat): int {
    if b < 128 then b else b - 256
  }

  /** A byte of the string up to its NUL; what follows that is not asked for. */
  function Byte(s: string, i: nat): int {
    if i >= |s| then 0 else Signed(s[i] as nat)
  }

  /** How many bytes agree from i on; the NUL counts when it is reached. */
  function Agree(s: string, t: string, i: nat): nat
    decreases |s| - i
  {
    if Byte(s, i) != Byte(t, i) then i else if i >= |s| then i + 1 else Agree(s, t, i + 1)
  }

  /** The byte behind the NUL of a name: in its array, or the publication version behind the array. */
  function Behind(sid: string, behind: nat, pubversion: nat): nat {
    if |sid| == SIDLEN - 1 then pubversion else behind
  }

  /**
   * The comparison of source names, and of publication versions when splitting on them.  When
   * the names agree the byte behind the NUL of the first is compared with the NUL of the second.
   */
  function Compare(sid: string, behind: nat, pubversion: nat, r: Record, splitversion: bool): int {
    var cmp := if sid == r.sid then Signed(Behind(sid, behind, pubversion))
               else var i := Agree(sid, r.sid, 0); Byte(sid, i) - Byte(r.sid, i);
    if cmp == 0 && splitversion && pubversion != r.pubversion
    then (if pubversion < r.pubversion then -1 else 1)
    else cmp
  }

  lemma {:induction false} AgreeIs(s: string, t: string, i: nat)
    requires IsSid(s) && IsSid(t) && i <= |s| && forall j | 0 <= j < i :: Byte(s, j) == Byte(t, j)
    ensures var m := Agree(s, t, i);
            && (forall j | 0 <= j < m :: Byte(s, j) == Byte(t, j))
            && if s == t then m == |s| + 1 else m <= |s| && Byte(s, m) != Byte(t, m)
    decreases |s| - i
  {
    if Byte(s, i) == Byte(t, i) {
      if i < |s| {
        assert s[i] != 0 as char;
        AgreeIs(s, t, i + 1);
      } else {
        SameBytes(s, t);
      }
    }
  }

  lemma EndsDiffer(s: string, t: string)
    requires IsSid(s) && IsSid(t) && |s| < |t|
    ensures Byte(s, |s|) != Byte(t, |s|)
  {}

  lemma SameBytes(s: string, t: string)
    requires IsSid(s) && IsSid(t) && forall j | 0 <= j <= |s| :: Byte(s, j) == Byte(t, j)
    ensures s == t
  {
    if |t| > |s| {
      EndsDiffer(s, t);
    }
    if |s| > |t| {
      EndsDiffer(t, s);
    }
    forall j | 0 <= j < |s| ensures s[j] == t[j] {
      assert Byte(s, j) == Byte(t, j);
    }
  }

  /** A source identifier with a zero byte behind its NUL. */
  predicate Tidy(r: Record) {
    IsSid(r.sid) && Behind(r.sid, r.behind, r.pubversion) == 0
  }

  /**
   * A record is matched with a trace ID of its name, and version, exactly when the byte behind
   * that name in the trace ID is zero.
   */
  lemma MatchesExactlyWhen(sid: string, behind: nat, pubversion: nat, r: Record, splitversion: bool)
    requires IsSid(sid) && IsSid(r.sid) && behind < 256 && pubversion < 256
    ensures Compare(sid, behind, pubversion, r, splitversion) == 0
            <==> sid == r.sid && (splitversion ==> pubversion == r.pubversion) && Behind(sid, behind, pubversion) == 0
  {
    AgreeIs(sid, r.sid, 0);
  }

  /** So the trace ID made of an untidy record is not even matched by that record. */
  lemma UntidyNeverMatches(r: Record, splitversion: bool)
    requires IsSid(r.sid) && r.behind < 256 && r.pubversion < 256
    ensures Compare(r.sid, r.behind, r.pubversion, r, splitversion) == 0 <==> Tidy(r)
  {
    MatchesExactlyWhen(r.sid, r.behind, r.pubversion, r, splitversion);
  }

  // ------------------------------------------------------------------------ the list

  datatype Entry = Entry(sid: string, behind: nat, trace: Trace)

  function Version(splitversion: bool, pubversion: nat): nat {
    if splitversion then pubversion else 0
  }

  /** (s, v) comes before (t, w) in the list. */
  predicate Precedes(s: string, v: nat, t: string, w: nat) {
    if s == t then v < w else var m := Agree(s, t, 0); Byte(s, m) < Byte(t, m)
  }

  /** The place of a byte in the order of signed characters, the end of a name included: from 128 on they come first. */
  function Place(s: string, i: nat): nat {
    if i >= |s| then 128 else (s[i] as int + 128) % 256
  }

  /**
   * Names stand in the order of dictionaries, by that order of bytes, and equal ones in that of
   * their versions.
   */
  lemma PrecedesInDictionary(s: string, v: nat, t: string, w: nat)
    requires IsSid(s) && IsSid(t)
    ensures Precedes(s, v, t, w)
            <==> (s == t && v < w) || exists m :: 0 <= m <= |s| && m <= |t| && s[..m] == t[..m] && Place(s, m) < Place(t, m)
  {
    hide Agree;
    AgreeIs(s, t, 0);
    var m := Agree(s, t, 0);
    forall k: nat ensures Place(s, k) < Place(t, k) <==> Byte(s, k) < Byte(t, k) {
      PlaceIsByte(s, t, k);
    }
    if s != t {
      SamePrefix(s, t, m);
      forall k | 0 <= k <= |s| && k <= |t| && s[..k] == t[..k] && Place(s, k) < Place(t, k) ensures k == m {
        FirstDifference(s, t, k, m);
      }
    } else {
      forall k | 0 <= k <= |s| ensures !(Place(s, k) < Place(t, k)) {}
    }
  }

  lemma PlaceIsByte(s: string, t: string, k: nat)
    requires IsSid(s) && IsSid(t)
    ensures Place(s, k) < Place(t, k) <==> Byte(s, k) < Byte(t, k)
  {}

  lemma SamePrefix(s: string, t: string, m: nat)
    requires IsSid(s) && IsSid(t) && m <= |s| && forall j | 0 <= j < m :: Byte(s, j) == Byte(t, j)
    ensures m <= |t| && s[..m] == t[..m]
  {
    if |t| < m {
      EndsDiffer(t, s);
    }
    forall j | 0 <= j < m ensures s[j] == t[j] {
      assert Byte(s, j) == Byte(t, j);
    }
  }

  lemma FirstDifference(s: string, t: string, k: nat, m: nat)
    requires IsSid(s) && IsSid(t) && k <= |s| && k <= |t| && s[..k] == t[..k] && Byte(s, k) != Byte(t, k)
    requires m <= |s| && m <= |t| && s[..m] == t[..m] && Byte(s, m) != Byte(t, m)
    ensures k == m
  {
    if k < m {
      PrefixAt(s, t, m, k);
    } else if m < k {
      PrefixAt(s, t, k, m);
    }
  }

  lemma PrefixAt(s: string, t: string, m: nat, i: nat)
    requires i < m <= |s| && m <= |t| && s[..m] == t[..m]
    ensures s[i] == t[i]
  {
    assert s[..m][i] == t[..m][i];
  }

  lemma PrecedesTransitive(s: string, u: nat, t: string, v: nat, x: string, w: nat)
    requires IsSid(s) && IsSid(t) && IsSid(x)
    requires Precedes(s, u, t, v) && Precedes(t, v, x, w)
    ensures Precedes(s, u, x, w)
  {
    AgreeIs(s, t, 0);
    AgreeIs(t, x, 0);
    AgreeIs(s, x, 0);
    if s == x && s != t {
      AgreeSymmetric(s, t);
    }
  }

  lemma AgreeSymmetric(s: string, t: string)
    requires IsSid(s) && IsSid(t)
    ensures Agree(s, t, 0) == Agree(t, s, 0)
  {
    AgreeIs(s, t, 0);
    AgreeIs(t, s, 0);
  }

  /** For names in order, the nearer one agrees with the third at least as far, and differs less where it agrees as far. */
  lemma NearerAgreesLonger(s: string, t: string, x: string)
    requires IsSid(s) && IsSid(t) && IsSid(x) && s != t && s != x
    requires Precedes(s, 0, t, 0) && (t == x || Precedes(t, 0, x, 0))
    ensures Agree(s, x, 0) <= Agree(t, x, 0)
    ensures Agree(s, x, 0) == Agree(t, x, 0) ==> t != x && Byte(s, Agree(s, x, 0)) <= Byte(t, Agree(t, x, 0))
  {
    AgreeIs(s, t, 0);
    AgreeIs(t, x, 0);
    AgreeIs(s, x, 0);
    AgreeSymmetric(s, x);
    AgreeIs(x, s, 0);
  }

  // ------------------------------------------------------------------- adding a record

  /** The entry comes before the record. */
  predicate Before(e: Entry, r: Record, split: bool) {
    Precedes(e.sid, Version(split, e.trace.pubversion), r.sid, Version(split, r.pubversion))
  }

  predicate Matches(e: Entry, r: Record, split: bool) {
    e.sid == r.sid && Version(split, e.trace.pubversion) == Version(split, r.pubversion)
  }

  /** How many entries from the front come before the record. */
  function Rank(list: seq<Entry>, r: Record, split: bool): (n: nat)
    ensures n <= |list| && (forall i | 0 <= i < n :: Before(list[i], r, split)) && (n < |list| ==> !Before(list[n], r, split))
  {
    if list == [] || !Before(list[0], r, split) then 0
    else
      var n := Rank(list[1..], r, split);
      assert forall i | 0 < i <= n :: list[i] == list[1..][i - 1];
      n + 1
  }

  /** ms_samplesize knows the sample type. */
  predicate KnownType(sampletype: char) {
    sampletype == 'a' || sampletype == 'i' || sampletype == 'f' || sampletype == 'd'
  }

  /**
   * Whatever the list, the record is refused: the time of its last sample is the one that stands
   * for an error, or the size of the samples that come with it is not known.
   */
  predicate Refused(r: Record) {
    EndTime(r) == NsTime.NSTERROR || (r.datasamples != [] && !KnownType(r.sampletype))
  }

  /** What adding a record makes of the list, and whether that succeeds. */
  function AddRecord(list: seq<Entry>, r: Record, split: bool, autoheal: bool): (a: (bool, seq<Entry>))
    requires forall i | 0 <= i < |list| :: |list[i].trace.segs| > 0
    ensures forall i | 0 <= i < |a.1| :: |a.1[i].trace.segs| > 0
  {
    var n := Rank(list, r, split);
    if Refused(r) then (false, list)
    else if n < |list| && Matches(list[n], r, split) then
      var (ok, trace) := AddTo(list[n].trace, r, autoheal);
      (ok, list[n := list[n].(trace := trace)])
    else (true, list[..n] + [Entry(r.sid, r.behind, NewTrace(r))] + list[n..])
  }

  predicate InOrder(e: Entry, f: Entry, split: bool) {
    Precedes(e.sid, Version(split, e.trace.pubversion), f.sid, Version(split, f.trace.pubversion))
  }

  ghost predicate Ascending(list: seq<Entry>, split: bool) {
    forall i, j | 0 <= i < j < |list| :: InOrder(list[i], list[j], split)
  }

  /** All the entry's records belong to it. */
  ghost predicate Own(e: Entry, split: bool) {
    forall r | r in Records(e.trace.segs) :: Matches(e, r, split)
  }

  predicate TidyEntry(e: Entry) {
    IsSid(e.sid) && Behind(e.sid, e.behind, e.trace.pubversion) == 0
  }

  ghost predicate GoodEntry(e: Entry, split: bool) {
    TidyEntry(e) && Good(e.trace) && Own(e, split)
  }

  ghost predicate GoodList(list: seq<Entry>, split: bool) {
    Ascending(list, split) && forall i | 0 <= i < |list| :: GoodEntry(list[i], split)
  }

  ghost function AllRecords(list: seq<Entry>): multiset<Record> {
    if list == [] then multiset{} else Records(list[0].trace.segs) + AllRecords(list[1..])
  }

  lemma {:induction false} AllRecordsAt(list: seq<Entry>, n: nat)
    requires n < |list|
    ensures AllRecords(list) == AllRecords(list[..n] + list[n + 1..]) + Records(list[n].trace.segs)
  {
    hide Records;
    if n == 0 {
      assert list[..0] + list[1..] == list[1..];
    } else {
      AllRecordsAt(list[1..], n - 1);
      WithoutFirst(list, n);
    }
  }

  lemma WithoutFirst(list: seq<Entry>, n: nat)
    requires 0 < n < |list|
    ensures var less := list[..n] + list[n + 1..]; less[0] == list[0] && less[1..] == list[1..][..n - 1] + list[1..][n..]
  {}

  /** Every entry past the rank that does not match comes after the record. */
  lemma RankSplits(list: seq<Entry>, r: Record, split: bool, i: nat)
    requires GoodList(list, split) && Tidy(r) && Rank(list, r, split) <= i < |list|
    requires i == Rank(list, r, split) ==> !Matches(list[i], r, split)
    ensures Precedes(r.sid, Version(split, r.pubversion), list[i].sid, Version(split, list[i].trace.pubversion))
  {
    hide Good, Own, Precedes;
    var n := Rank(list, r, split);
    assert GoodEntry(list[n], split) && GoodEntry(list[i], split);
    if !Matches(list[n], r, split) {
      Trichotomy(list[n], r, split);
    }
    if n < i && !Matches(list[n], r, split) {
      PrecedesTransitive(r.sid, Version(split, r.pubversion), list[n].sid, Version(split, list[n].trace.pubversion),
                         list[i].sid, Version(split, list[i].trace.pubversion));
    }
  }

  lemma Trichotomy(e: Entry, r: Record, split: bool)
    requires IsSid(e.sid) && IsSid(r.sid) && !Before(e, r, split) && !Matches(e, r, split)
    ensures Precedes(r.sid, Version(split, r.pubversion), e.sid, Version(split, e.trace.pubversion))
  {
    AgreeSymmetric(e.sid, r.sid);
    AgreeIs(e.sid, r.sid, 0);
  }

  /** Adding a record keeps the list good, and adds that record, once. */
  lemma AddRecordKeeps(list: seq<Entry>, r: Record, split: bool, autoheal: bool)
    requires GoodList(list, split) && Tidy(r) && AddRecord(list, r, split, autoheal).0
    ensures GoodList(AddRecord(list, r, split, autoheal).1, split)
    ensures AllRecords(AddRecord(list, r, split, autoheal).1) == AllRecords(list) + multiset{r}
  {
    var n := Rank(list, r, split);
    if n < |list| && Matches(list[n], r, split) {
      UpdateKeeps(list, r, split, autoheal, n);
    } else {
      InsertKeeps(list, r, split, n);
    }
  }

  /** Apart from refused records only sample types can stand in the way: with one type, all others are added. */
  lemma OneTypeSucceeds(list: seq<Entry>, r: Record, split: bool, autoheal: bool)
    requires forall i | 0 <= i < |list| :: |list[i].trace.segs| > 0 && OfType(list[i].trace.segs, r.sampletype)
    ensures var (ok, now) := AddRecord(list, r, split, autoheal);
            && (ok <==> EndTime(r) != -2145916800000000000 && (r.datasamples == [] || r.sampletype in "aifd"))
            && forall i | 0 <= i < |now| :: OfType(now[i].trace.segs, r.sampletype)
  {
    hide AddTo, Refused, Matches, OfType, NewTrace, Rank;
    RefusedExactly(r);
    var n, now := Rank(list, r, split), AddRecord(list, r, split, autoheal).1;
    if Refused(r) {
      assert now == list;
    } else if n < |list| && Matches(list[n], r, split) {
      OneTypeFits(list[n].trace, r, autoheal);
      var e := list[n].(trace := AddTo(list[n].trace, r, autoheal).1);
      assert now == list[n := e];
    } else {
      NewOfType(r);
      var e := Entry(r.sid, r.behind, NewTrace(r));
      assert now == list[..n] + [e] + list[n..];
      forall i | 0 <= i < |now| ensures OfType(now[i].trace.segs, r.sampletype) {
        assert now[i] == if i < n then list[i] else if i == n then e else list[i - 1];
      }
    }
  }

  lemma RefusedExactly(r: Record)
    ensures Refused(r) <==> EndTime(r) == -2145916800000000000 || (r.datasamples != [] && r.sampletype !in "aifd")
  {
    hide EndTime;
    assert "aifd"[0] == 'a' && "aifd"[1] == 'i' && "aifd"[2] == 'f' && "aifd"[3] == 'd';
  }

  lemma NewOfType(r: Record)
    ensures OfType(NewTrace(r).segs, r.sampletype)
  {}

  lemma UpdateKeeps(list: seq<Entry>, r: Record, split: bool, autoheal: bool, n: nat)
    requires GoodList(list, split) && Tidy(r) && n < |list| && Matches(list[n], r, split)
    requires |list[n].trace.segs| > 0
    requires AddTo(list[n].trace, r, autoheal).0
    ensures var now := list[n := list[n].(trace := AddTo(list[n].trace, r, autoheal).1)];
            GoodList(now, split) && AllRecords(now) == AllRecords(list) + multiset{r}
  {
    hide Good, Records, AllRecords, Place, Tidy, Precedes;
    assert GoodEntry(list[n], split);
    AddKeeps(list[n].trace, r, autoheal);
    var now := list[n := list[n].(trace := AddTo(list[n].trace, r, autoheal).1)];
    AllRecordsAt(list, n);
    AllRecordsAt(now, n);
    assert now[..n] + now[n + 1..] == list[..n] + list[n + 1..];
    assert Version(split, now[n].trace.pubversion) == Version(split, list[n].trace.pubversion);
    assert TidyEntry(now[n]) by { StaysTidy(list[n], r, split, autoheal); }
  }

  lemma StaysTidy(e: Entry, r: Record, split: bool, autoheal: bool)
    requires TidyEntry(e) && Tidy(r) && Matches(e, r, split) && |e.trace.segs| > 0
    ensures TidyEntry(e.(trace := AddTo(e.trace, r, autoheal).1))
  {
    hide Place;
  }

  lemma InsertKeeps(list: seq<Entry>, r: Record, split: bool, n: nat)
    requires GoodList(list, split) && Tidy(r) && n == Rank(list, r, split)
    requires n < |list| ==> !Matches(list[n], r, split)
    ensures var now := list[..n] + [Entry(r.sid, r.behind, NewTrace(r))] + list[n..];
            GoodList(now, split) && AllRecords(now) == AllRecords(list) + multiset{r}
  {
    hide GoodEntry, Records, AllRecords, Ascending, NewTrace;
    NewEntryGood(r, split);
    var now := list[..n] + [Entry(r.sid, r.behind, NewTrace(r))] + list[n..];
    InsertAscends(list, r, split, n);
    AllRecordsInserted(list, n, Entry(r.sid, r.behind, NewTrace(r)));
  }

  lemma AllRecordsInserted(list: seq<Entry>, n: nat, e: Entry)
    requires n <= |list|
    ensures AllRecords(list[..n] + [e] + list[n..]) == AllRecords(list) + Records(e.trace.segs)
  {
    hide Records, AllRecords;
    var now := list[..n] + [e] + list[n..];
    AllRecordsAt(now, n);
    assert now[..n] + now[n + 1..] == list;
  }

  lemma NewEntryGood(r: Record, split: bool)
    requires Tidy(r)
    ensures GoodEntry(Entry(r.sid, r.behind, NewTrace(r)), split) && Records(NewTrace(r).segs) == multiset{r}
  {
    hide Good, Records, IsSid;
    NewGood(r);
  }

  lemma InsertAscends(list: seq<Entry>, r: Record, split: bool, n: nat)
    requires GoodList(list, split) && Tidy(r) && n == Rank(list, r, split)
    requires n < |list| ==> !Matches(list[n], r, split)
    ensures Ascending(list[..n] + [Entry(r.sid, r.behind, NewTrace(r))] + list[n..], split)
  {
    hide GoodEntry, Tidy, Precedes, NewTrace, Rank;
    NewVersion(r);
    var e := Entry(r.sid, r.behind, NewTrace(r));
    var now := list[..n] + [e] + list[n..];
    forall i, j | 0 <= i < j < |now| ensures InOrder(now[i], now[j], split) {
      InsertedEntry(list, n, e, i);
      InsertedEntry(list, n, e, j);
      if i == n {
        RankSplits(list, r, split, j - 1);
      } else if j == n {
        assert Before(list[i], r, split);
      } else {
        assert InOrder(list[if i < n then i else i - 1], list[if j < n then j else j - 1], split);
      }
    }
  }

  lemma NewVersion(r: Record)
    ensures NewTrace(r).pubversion == r.pubversion
  {}

  lemma InsertedEntry(list: seq<Entry>, n: nat, e: Entry, i: nat)
    requires n <= |list| && i <= |list|
    ensures (list[..n] + [e] + list[n..])[i] == if i < n then list[i] else if i == n then e else list[i - 1]
  {}

  /** One addition of a run. */
  datatype Addition = Addition(record: Record, autoheal: bool)

  /** A run of additions to an empty list, None when one of them fails. */
  function AddAll(adds: seq<Addition>, split: bool): (list: Option<seq<Entry>>)
    ensures list.Some? ==> forall i | 0 <= i < |list.value| :: |list.value[i].trace.segs| > 0
  {
    if adds == [] then Some([])
    else
      match AddAll(adds[..|adds| - 1], split)
      case None => None
      case Some(list) =>
        var last := adds[|adds| - 1];
        var (ok, now) := AddRecord(list, last.record, split, last.autoheal);
        if ok then Some(now) else None
  }

  /** The records of a run. */
  ghost function Added(adds: seq<Addition>): multiset<Record> {
    multiset(seq(|adds|, i requires 0 <= i < |adds| => adds[i].record))
  }

  /**
   * After any run of successful additions the trace IDs are in order without duplicates, each
   * is good, and every record added is in exactly one segment of the trace ID it belongs to.
   */
  lemma {:induction false} RunIsGood(adds: seq<Addition>, split: bool)
    requires forall i | 0 <= i < |adds| :: Tidy(adds[i].record)
    ensures var list := AddAll(adds, split);
            list.Some? ==> GoodList(list.value, split) && AllRecords(list.value) == Added(adds)
  {
    hide GoodList, AddRecord, AllRecords, Tidy;
    if adds == [] {
      EmptyGood(split);
    } else if AddAll(adds, split).Some? {
      var less, last := adds[..|adds| - 1], adds[|adds| - 1];
      RunIsGood(less, split);
      AddRecordKeeps(AddAll(less, split).value, last.record, split, last.autoheal);
      AddedSnoc(adds);
    }
  }

  lemma EmptyGood(split: bool)
    ensures GoodList([], split) && AllRecords([]) == multiset{}
  {}

  lemma AddedSnoc(adds: seq<Addition>)
    requires adds != []
    ensures Added(adds) == Added(adds[..|adds| - 1]) + multiset{adds[|adds| - 1].record}
  {
    var n := |adds| - 1;
    var records := seq(|adds|, i requires 0 <= i < |adds| => adds[i].record);
    assert records == records[..n] + [records[n]];
    assert records[..n] == seq(n, i requires 0 <= i < n => adds[..n][i].record);
  }
}
