/**
 * Cutting a stream of records where they were joined: what detection finds at the beginning of
 * records that packing emits, of both versions.
 */
module Framing {
  import opened Wrappers
  import opened Bytes
  import opened PowersOfTwo
  import opened SampleTimes
  import opened NsTime
  import opened PackData
  import opened PackLoop
  import opened Record3
  import opened Record2
  import opened Pack3
  import opened Pack2
  import opened Unpack3
  import opened RecordRoundTrip
  import opened Detect

  /** The memory begins with these bytes. */
  predicate Begins(memory: seq<Byte>, bs: seq<Byte>, n: nat) {
    n <= |bs| && n <= |memory| && memory[..n] == bs[..n]
  }

  lemma BeginsSame(memory: seq<Byte>, bs: seq<Byte>, n: nat, k: nat)
    requires Begins(memory, bs, n) && k < n
    ensures memory[k] == bs[k]
  {
    assert memory[..n][k] == bs[..n][k];
  }

  // --------------------------------------------------------------------- version 3

  /** With its fixed header a version 3 record is found. */
  lemma Detected3(memory: seq<Byte>, n: nat, bs: seq<Byte>, h: Header, nsamples: nat, payload: seq<Byte>)
    requires IsRecord(bs, h, nsamples, payload) && Valid(h.time) && |bs| < 0x8000_0000
    requires MINRECLEN <= n <= |memory| && Begins(memory, bs, MINRECLEN)
    ensures Enough(memory, n) && Detected(memory, n) == (|bs|, 3)
  {
    hide *;
    RecordLength(bs, h, nsamples, payload);
    SameStart(memory, bs);
    FoundByHeader(memory, n);
  }

  lemma RecordLength(bs: seq<Byte>, h: Header, nsamples: nat, payload: seq<Byte>)
    requires IsRecord(bs, h, nsamples, payload) && Valid(h.time) && |bs| < 0x8000_0000
    ensures |bs| >= MINRECLEN && ValidHeader3(bs) && Length3(bs) == |bs|
  {
    hide *;
    RecordFramed(bs, h, nsamples, payload);
    HasHeader(bs, h, nsamples, payload);
    HeaderValid(bs, h);
    LengthOfFramed(bs);
  }

  lemma HasHeader(bs: seq<Byte>, h: Header, nsamples: nat, payload: seq<Byte>)
    requires IsRecord(bs, h, nsamples, payload)
    ensures HeaderIs(bs, h)
  {
    hide HeaderIs, CrcIsRight, Bytes.Number;
  }

  lemma LengthOfFramed(bs: seq<Byte>)
    requires Framed(bs) && |bs| < 0x8000_0000
    ensures |bs| >= MINRECLEN && Length3(bs) == |bs|
  {
    hide Bytes.Number;
  }

  lemma SameStart(memory: seq<Byte>, bs: seq<Byte>)
    requires MINRECLEN <= |memory| && MINRECLEN <= |bs| && Begins(memory, bs, MINRECLEN)
    ensures ValidHeader3(memory) == ValidHeader3(bs) && Length3(memory) == Length3(bs)
  {
    hide Bytes.Number;
    forall k | 0 <= k < MINRECLEN ensures memory[k] == bs[k] {
      BeginsSame(memory, bs, MINRECLEN, k);
    }
    NumberSame(memory, bs, 34, 2);
    NumberSame(memory, bs, 36, 4);
  }

  lemma FoundByHeader(memory: seq<Byte>, n: nat)
    requires MINRECLEN <= n <= |memory| && ValidHeader3(memory)
    ensures Enough(memory, n) && Detected(memory, n) == (Length3(memory), 3)
  {
    hide ValidHeader3, ValidHeader2, Length3;
  }

  // --------------------------------------------------------------------- version 2

  /**
   * The years 0x0708 and 0x0808 and the days 0x0001, 0x0100 and 0x0101: read in the wrong byte
   * order they are sane as well, so that the byte order is taken for the other one.
   */
  predicate Misread(t: Fields) {
    (t.year == 1800 || t.year == 2056) && (t.yday == 1 || t.yday == 256 || t.yday == 257)
  }

  /** The byte order of a record is found out exactly when its start is none of these. */
  lemma SwappedExactlyWhen(bs: seq<Byte>, t: Fields)
    requires Time2Is(bs, t) && Valid(t) && 1677 <= t.year <= 2262
    ensures Swapped2(bs) <==> !Misread(t)
  {
    var yh, yl, dh, dl := OfByte(bs[20]), OfByte(bs[21]), OfByte(bs[22]), OfByte(bs[23]);
    hide OfByte;
    SwappedYear(yh, yl);
    SwappedDay(dh, dl);
  }

  lemma SwappedYear(high: nat, low: nat)
    requires high < 256 && low < 256 && 1677 <= high * 256 + low <= 2262
    ensures 1900 <= high + 256 * low <= 2100 <==> high * 256 + low == 1800 || high * 256 + low == 2056
  {}

  lemma SwappedDay(high: nat, low: nat)
    requires high < 256 && low < 256 && 1 <= high * 256 + low <= 366
    ensures 1 <= high + 256 * low <= 366 <==> high * 256 + low == 1 || high * 256 + low == 256 || high * 256 + low == 257
  {}

  lemma {:induction false} ExponentSmall(e: nat)
    requires Power2(e) <= MAXRECLEN
    ensures e < 18
  {
    if e >= 18 {
      TooLong(e);
    }
  }

  /** The signature of an emitted record. */
  lemma ValidEmitted(memory: seq<Byte>, bs: seq<Byte>, m: Msr2, t: Fields)
    requires Begins(memory, bs, MINRECLEN) && Fixed2Is(bs, m) && Time2Is(bs, t) && Valid(t) && Quality(m.quality)
    ensures ValidHeader2(memory) && !ValidHeader3(memory) && Swapped2(memory) == Swapped2(bs)
  {
    hide Quality, Big16, Fixed2Is, Time2Is, Valid, Number2, SequenceByte;
    Signature(bs, m);
    ClockBytes(bs, t);
    forall k | 0 <= k < MINRECLEN ensures memory[k] == bs[k] {
      BeginsSame(memory, bs, MINRECLEN, k);
    }
    SameOrder(memory, bs);
  }

  lemma Signature(bs: seq<Byte>, m: Msr2)
    requires Fixed2Is(bs, m) && Quality(m.quality)
    ensures (forall i | 0 <= i < 6 :: SequenceByte(bs[i])) && Quality(bs[6]) && bs[7] == ' ' as Byte && bs[0] != 'M' as Byte
  {
    hide Quality, Big16;
    assert forall k | 0 <= k < 6 :: bs[k] == bs[0..6][k] == '0' as Byte;
  }

  lemma SameOrder(memory: seq<Byte>, bs: seq<Byte>)
    requires |memory| >= 24 && |bs| >= 24 && memory[20] == bs[20] && memory[21] == bs[21] && memory[22] == bs[22] && memory[23] == bs[23]
    ensures Swapped2(memory) == Swapped2(bs)
  {}

  lemma ClockBytes(bs: seq<Byte>, t: Fields)
    requires Time2Is(bs, t) && Valid(t)
    ensures bs[24] <= 23 && bs[25] <= 59 && bs[26] <= 60
  {
    hide Big16;
    ClockByte(bs[24], t.hour, 23);
    ClockByte(bs[25], t.min, 59);
    ClockByte(bs[26], t.sec, 60);
  }

  /** Once its blockette 1000 is in the buffer, a record whose byte order is found out is found with its length. */
  lemma Detected2(memory: seq<Byte>, n: nat, bs: seq<Byte>, m: Msr2, t: Fields)
    requires Header2Is(bs, m) && Time2Is(bs, t) && Valid(t) && 1677 <= t.year <= 2262 && Quality(m.quality) && m.reclen <= MAXRECLEN
    requires FIXED_LENGTH + BLOCKETTE_LENGTH <= n && n + 8 <= |memory| && Begins(memory, bs, FIXED_LENGTH + BLOCKETTE_LENGTH)
    requires !Misread(t)
    ensures Detected(memory, n) == (m.reclen, 2)
  {
    hide Fixed2Is, Time2Is, Quality, ValidHeader2, ValidHeader3, Swapped2, Misread, BlockettesAre, Valid, Number2, ShiftedOne, Begins;
    BeginsLess(memory, bs, FIXED_LENGTH + BLOCKETTE_LENGTH, MINRECLEN);
    ValidEmitted(memory, bs, m, t);
    SwappedExactlyWhen(bs, t);
    FirstBlockette(memory, bs, m);
    FoundAtOnce(memory, n);
  }

  lemma BeginsLess(memory: seq<Byte>, bs: seq<Byte>, n: nat, k: nat)
    requires Begins(memory, bs, n) && k <= n
    ensures Begins(memory, bs, k)
  {
    assert memory[..n][..k] == memory[..k] && bs[..n][..k] == bs[..k];
  }

  /** The header leads to the blockette 1000. */
  lemma FirstBlockette(memory: seq<Byte>, bs: seq<Byte>, m: Msr2)
    requires Header2Is(bs, m) && m.reclen <= MAXRECLEN && Begins(memory, bs, FIXED_LENGTH + BLOCKETTE_LENGTH)
    ensures Number2(memory, 46, true) == FIXED_LENGTH && Number2(memory, FIXED_LENGTH, true) == 1000 && ShiftedOne(memory[54]) == m.reclen
  {
    hide Fixed2Is, Big16, OfByte, Code, Power2;
    LinkOf(bs, m);
    BeginsBig16(memory, bs, FIXED_LENGTH + BLOCKETTE_LENGTH, 46);
    BeginsBig16(memory, bs, FIXED_LENGTH + BLOCKETTE_LENGTH, 48);
    BeginsSame(memory, bs, FIXED_LENGTH + BLOCKETTE_LENGTH, 54);
    ExponentSmall(OfByte(bs[54]));
  }

  lemma FoundAtOnce(memory: seq<Byte>, n: nat)
    requires FIXED_LENGTH + BLOCKETTE_LENGTH <= n && n + 8 <= |memory| && ValidHeader2(memory) && !ValidHeader3(memory) && Swapped2(memory)
    requires Number2(memory, 46, true) == FIXED_LENGTH && Number2(memory, FIXED_LENGTH, true) == 1000
    ensures Detected(memory, n) == (ShiftedOne(memory[54]), 2)
  {
    hide ValidHeader2, ValidHeader3, Swapped2, Number2, ShiftedOne;
  }

  lemma LinkOf(bs: seq<Byte>, m: Msr2)
    requires Fixed2Is(bs, m)
    ensures Big16(bs, 46) == FIXED_LENGTH
  {}

  // ------------------------------------------------------- when the byte order is misread

  lemma MisreadLink(bs: seq<Byte>)
    requires |bs| >= FIXED_LENGTH && Big16(bs, 46) == FIXED_LENGTH
    ensures Number2(bs, 46, false) == 12288
  {}

  const MISREAD_LINK: nat := 12288

  /** In the wrong byte order the blockettes are looked for at 12288, and the header that follows if there is none. */
  lemma MisreadWalks(memory: seq<Byte>, n: nat, bs: seq<Byte>, m: Msr2, t: Fields)
    requires Header2Is(bs, m) && Time2Is(bs, t) && Valid(t) && 1677 <= t.year <= 2262 && Quality(m.quality)
    requires FIXED_LENGTH + BLOCKETTE_LENGTH <= n && n + 8 <= |memory| && Begins(memory, bs, FIXED_LENGTH + BLOCKETTE_LENGTH)
    requires Misread(t)
    ensures Detected(memory, n)
         == match WalkBlockettes(memory, n, MISREAD_LINK, false)
            case Length(reclen) => (reclen, 2)
            case Invalid => (-1, 2)
            case NoLength => if ScanHeaders(memory, n, 64).Some? then (ScanHeaders(memory, n, 64).value as int, 2) else (0, 2)
  {
    hide Fixed2Is, Time2Is, Quality, ValidHeader2, ValidHeader3, Swapped2, Misread, BlockettesAre, Valid, Number2, ShiftedOne, Begins,
      WalkBlockettes, ScanHeaders;
    BeginsLess(memory, bs, FIXED_LENGTH + BLOCKETTE_LENGTH, MINRECLEN);
    ValidEmitted(memory, bs, m, t);
    SwappedExactlyWhen(bs, t);
    LinkOf(bs, m);
    BeginsBig16(memory, bs, FIXED_LENGTH + BLOCKETTE_LENGTH, 46);
    MisreadLink(memory);
  }

  /**
   * A record whose start is misread is found with its length all the same: by a blockette 1000 with
   * that length to which a chain from 12288 on leads, or, if no chain leads to one or breaks, by the
   * header of the next record, the first at a multiple of 64 bytes.
   */
  ghost predicate FoundNevertheless(memory: seq<Byte>, n: nat, reclen: int) {
    n + 8 <= |memory|
    && (|| Leads(memory, n, MISREAD_LINK, false, reclen)
        || (FirstHeader(memory, n, reclen) && !Breaks(memory, n, MISREAD_LINK, false) && forall l :: !Leads(memory, n, MISREAD_LINK, false, l)))
  }

  lemma FoundExactly(memory: seq<Byte>, n: nat, reclen: int)
    requires n + 8 <= |memory|
    ensures FoundNevertheless(memory, n, reclen) <==>
            match WalkBlockettes(memory, n, MISREAD_LINK, false)
            case Length(l) => l == reclen
            case Invalid => false
            case NoLength => ScanHeaders(memory, n, 64) == Some(reclen)
  {
    hide WalkBlockettes, ScanHeaders, Leads, Breaks, FirstHeader;
    forall l ensures WalkBlockettes(memory, n, MISREAD_LINK, false) == Length(l) <==> Leads(memory, n, MISREAD_LINK, false, l) {
      WalkExactly(memory, n, MISREAD_LINK, false, l);
    }
    WalkExactly(memory, n, MISREAD_LINK, false, reclen);
    ScanExactly(memory, n, reclen);
  }

  /** With its blockette 1000 in the buffer, a record is found with its length exactly when its start is not misread or it is found nevertheless. */
  lemma DetectedExactlyWhen(memory: seq<Byte>, n: nat, bs: seq<Byte>, m: Msr2, t: Fields)
    requires Header2Is(bs, m) && Time2Is(bs, t) && Valid(t) && 1677 <= t.year <= 2262 && Quality(m.quality) && 0 < m.reclen <= MAXRECLEN
    requires FIXED_LENGTH + BLOCKETTE_LENGTH <= n && n + 8 <= |memory| && Begins(memory, bs, FIXED_LENGTH + BLOCKETTE_LENGTH)
    ensures Detected(memory, n) == (m.reclen, 2) <==> !Misread(t) || FoundNevertheless(memory, n, m.reclen)
  {
    hide Header2Is, Time2Is, Quality, Misread, Valid, Begins, Detected, FoundNevertheless, WalkBlockettes, ScanHeaders;
    if Misread(t) {
      MisreadWalks(memory, n, bs, m, t);
      FoundExactly(memory, n, m.reclen);
    } else {
      Detected2(memory, n, bs, m, t);
    }
  }

  /** Up to 12288 bytes there is no chain, and the next header decides. */
  lemma NextHeaderDecides(memory: seq<Byte>, n: nat, reclen: int)
    requires n + 8 <= |memory| && n < MISREAD_LINK
    ensures FoundNevertheless(memory, n, reclen) <==> FirstHeader(memory, n, reclen)
  {
    hide FirstHeader, Linked, Found1000, BrokenAt, ShiftedOne;
  }

  /**
   * With fewer than 56 bytes in the buffer a record has no length yet, except that with 48 to 51
   * bytes it is taken for no record at all when what happens to be behind them is an invalid link.
   */
  lemma NotYetDetected(memory: seq<Byte>, n: nat, bs: seq<Byte>, m: Msr2, t: Fields)
    requires Header2Is(bs, m) && Time2Is(bs, t) && Valid(t) && 1677 <= t.year <= 2262 && Quality(m.quality)
    requires MINRECLEN <= n < FIXED_LENGTH + BLOCKETTE_LENGTH && n + 8 <= |memory| && Begins(memory, bs, n) && !Misread(t)
    ensures Detected(memory, n) == if FIXED_LENGTH <= n < 52 && BadLink(Big16(memory, 50), FIXED_LENGTH) then (-1, 2) else (0, 2)
  {
    hide Fixed2Is, Time2Is, Quality, ValidHeader2, ValidHeader3, Swapped2, Misread, BlockettesAre, Valid, ShiftedOne, Begins, Big16, Number2, BadLink;
    BeginsLess(memory, bs, n, MINRECLEN);
    ValidEmitted(memory, bs, m, t);
    SwappedExactlyWhen(bs, t);
    if FIXED_LENGTH <= n {
      LinkOf(bs, m);
      BeginsBig16(memory, bs, n, 46);
      AsBig16(memory, 46);
      AsBig16(memory, 50);
      if 52 <= n {
        NextOf(bs, m);
        BeginsBig16(memory, bs, n, 50);
      }
      ShortWalk(memory, n);
    }
  }

  /** Whatever else is in the buffer and behind it, a record whose start is not misread has no length below 56 bytes and this length from there on, */
  lemma ArrivalDoesNotMatter(memory: seq<Byte>, n: nat, bs: seq<Byte>, m: Msr2, t: Fields)
    requires Header2Is(bs, m) && Time2Is(bs, t) && Valid(t) && 1677 <= t.year <= 2262 && Quality(m.quality) && m.reclen <= MAXRECLEN
    requires MINRECLEN <= n && n + 8 <= |memory| && Begins(memory, bs, if n < 56 then n else 56) && !Misread(t)
    requires n < 48 || 52 <= n
    ensures Detected(memory, n) == if n < 56 then (0, 2) else (m.reclen, 2)
  {
    hide Header2Is, Time2Is, Quality, Misread, Valid, Begins, Detected;
    if n < 56 {
      NotYetDetected(memory, n, bs, m, t);
    } else {
      Detected2(memory, n, bs, m, t);
    }
  }

  /** but with 48 to 51 bytes in the buffer what is behind them decides whether reading waits for more or finds no record at all. */
  lemma ArrivalMatters(n: nat, bs: seq<Byte>, m: Msr2, t: Fields) returns (bad: seq<Byte>, good: seq<Byte>)
    requires Header2Is(bs, m) && Time2Is(bs, t) && Valid(t) && 1677 <= t.year <= 2262 && Quality(m.quality)
    requires 48 <= n < 52 && n <= |bs| && !Misread(t)
    ensures |bad| == |good| == n + 8 && Begins(bad, bs, n) && Begins(good, bs, n)
    ensures Detected(bad, n) == (-1, 2) && Detected(good, n) == (0, 2)
  {
    hide Header2Is, Time2Is, Quality, Misread, Valid, Begins, Detected, OfByte;
    bad, good := Behind(bs, n, 1), Behind(bs, n, 0);
    BehindBegins(bs, n, 1);
    BehindBegins(bs, n, 0);
    BehindLink(bs, m, n, 1);
    BehindLink(bs, m, n, 0);
    NotYetDetected(bad, n, bs, m, t);
    NotYetDetected(good, n, bs, m, t);
  }

  /** A memory with some bytes of a record and a link behind them. */
  function Behind(bs: seq<Byte>, n: nat, link: Byte): seq<Byte>
    requires 48 <= n < 52 && n <= |bs|
  {
    seq(n + 8, i requires 0 <= i < n + 8 => if i < n then bs[i] else if i == 51 then link else 0)
  }

  lemma BehindBegins(bs: seq<Byte>, n: nat, link: Byte)
    requires 48 <= n < 52 && n <= |bs|
    ensures Begins(Behind(bs, n, link), bs, n)
  {
    assert Behind(bs, n, link)[..n] == bs[..n];
  }

  lemma BehindLink(bs: seq<Byte>, m: Msr2, n: nat, link: Byte)
    requires Header2Is(bs, m) && 48 <= n < 52 && n <= |bs| && link <= 1
    ensures Big16(Behind(bs, n, link), 50) == OfByte(link) && OfByte(1) == 1 && OfByte(0) == 0
  {
    NextOf(bs, m);
    hide Fixed2Is, BlockettesAre;
    var memory := Behind(bs, n, link);
    assert memory[51] == link;
    assert memory[50] == if n == 51 then bs[50] else 0;
  }

  lemma ShortWalk(memory: seq<Byte>, n: nat)
    requires FIXED_LENGTH <= n < FIXED_LENGTH + BLOCKETTE_LENGTH && n + 8 <= |memory|
    requires var next := Number2(memory, 50, true); n < 52 || next == 0 || next == FIXED_LENGTH + BLOCKETTE_LENGTH
    ensures WalkBlockettes(memory, n, FIXED_LENGTH, true) == if n < 52 && BadLink(Number2(memory, 50, true), FIXED_LENGTH) then Invalid else NoLength
  {
    hide Number2, ShiftedOne;
  }

  lemma AsBig16(memory: seq<Byte>, at: nat)
    requires at + 2 <= |memory|
    ensures Number2(memory, at, true) == Big16(memory, at)
  {}

  lemma BeginsBig16(memory: seq<Byte>, bs: seq<Byte>, n: nat, at: nat)
    requires Begins(memory, bs, n) && at + 2 <= n
    ensures at + 2 <= |bs| && Big16(memory, at) == Big16(bs, at)
  {
    BeginsSame(memory, bs, n, at);
    BeginsSame(memory, bs, n, at + 1);
  }

  lemma NextOf(bs: seq<Byte>, m: Msr2)
    requires BlockettesAre(bs, m)
    ensures Big16(bs, 50) == 0 || Big16(bs, 50) == FIXED_LENGTH + BLOCKETTE_LENGTH
  {
    hide Big16, OfByte;
  }

  // ------------------------------------------------------------------------- the stream

  function Flat(records: seq<seq<Byte>>): seq<Byte> {
    if records == [] then [] else Flat(records[..|records| - 1]) + records[|records| - 1]
  }

  /** Where record i begins. */
  function Offset(records: seq<seq<Byte>>, i: nat): nat
    requires i <= |records|
  {
    |Flat(records[..i])|
  }

  lemma {:induction false} FlatSplits(records: seq<seq<Byte>>, i: nat)
    requires i <= |records|
    ensures Offset(records, i) <= |Flat(records)| && Flat(records)[..Offset(records, i)] == Flat(records[..i])
    decreases |records| - i
  {
    if i == |records| {
      assert records[..i] == records;
    } else {
      FlatSplits(records, i + 1);
      assert records[..i + 1][..i] == records[..i];
    }
  }

  /** At its offset the stream goes on with the record. */
  lemma RecordAt(records: seq<seq<Byte>>, i: nat)
    requires i < |records|
    ensures Offset(records, i + 1) == Offset(records, i) + |records[i]| <= |Flat(records)|
    ensures Flat(records)[Offset(records, i)..][..|records[i]|] == records[i]
  {
    FlatSplits(records, i);
    FlatSplits(records, i + 1);
    assert records[..i + 1][..i] == records[..i];
    var s, a, b := Flat(records), Offset(records, i), Offset(records, i + 1);
    assert s[a..][..b - a] == s[..b][a..];
  }

  /** What is left of a stream. */
  function From(stream: seq<Byte>, p: nat): seq<Byte> {
    if p <= |stream| then stream[p..] else []
  }

  /** Wherever the record begins, detection finds it when all of it and perhaps more is in the buffer. */
  ghost predicate Found(record: seq<Byte>, version: nat) {
    |record| > 0 &&
    forall memory: seq<Byte>, n: nat | |record| <= n && n + 8 <= |memory| && memory[..|record|] == record ::
      Enough(memory, n) && Detected(memory, n) == (|record|, version)
  }

  /** Records of version 3 are found, */
  lemma Emitted3Found(m: Msr, records: seq<seq<Byte>>, parts: seq<Part>, i: nat)
    requires Emitted(m, records, parts) && i < |records| && m.reclen < 0x8000_0000
    ensures Found(records[i], 3)
  {
    hide IsRecord, IsPayload, PackCount, SampleTime, TimeOf, Valid, Detected, Enough;
    var r, h := records[i], HeaderOf(m, parts[i].time);
    assert PartIs(m, r, Sum(parts[..i]), parts[i]);
    RecordFramed(r, h, parts[i].count, parts[i].payload);
    forall memory: seq<Byte>, n: nat | |r| <= n && n + 8 <= |memory| && memory[..|r|] == r
      ensures Enough(memory, n) && Detected(memory, n) == (|r|, 3)
    {
      assert Begins(memory, r, |r|);
      BeginsLess(memory, r, |r|, MINRECLEN);
      Detected3(memory, n, r, h, parts[i].count, parts[i].payload);
    }
  }

  /** and records of version 2 whose start is not misread. */
  lemma Emitted2Found(m: Msr2, records: seq<seq<Byte>>, parts: seq<Part>, i: nat)
    requires ValidMsr2(m) && Fits2(m) && Emitted2(m, records, parts) && i < |records| && !Misread(parts[i].time)
    ensures Found(records[i], 2)
  {
    hide Fixed2Is, BlockettesAre, Cleared, Holds2, Quality, SampleTime, TimeOf, Valid, Time2Is, Detected, Enough, Misread, PowerOfTwo, Big16;
    var r, t, before := records[i], parts[i].time, Sum(parts[..i]);
    assert PartIs2(m, r, before, parts[i]);
    BeforeEnd(m, before, parts[i]);
    assert Int64(SampleTime(m.starttime, before, m.samprate));
    YearOfTime(t);
    LongEnough(m, r);
    forall memory: seq<Byte>, n: nat | |r| <= n && n + 8 <= |memory| && memory[..|r|] == r
      ensures Enough(memory, n) && Detected(memory, n) == (|r|, 2)
    {
      assert Begins(memory, r, |r|);
      BeginsLess(memory, r, |r|, FIXED_LENGTH + BLOCKETTE_LENGTH);
      Detected2(memory, n, r, m, t);
      SpaceEnough(memory, n);
    }
  }

  lemma BeforeEnd(m: Msr2, before: nat, part: Part)
    requires Holds2(m, before, part)
    ensures before <= Size(m.data)
  {
    hide PackCount, IsPayload;
  }

  lemma SpaceEnough(memory: seq<Byte>, n: nat)
    requires n + 8 <= |memory|
    ensures Enough(memory, n)
  {}

  /** In a stream of such records each is found with its length and version, however much of the stream is in the buffer. */
  lemma StreamDetected(records: seq<seq<Byte>>, versions: seq<nat>, i: nat, n: nat, behind: seq<Byte>)
    requires i < |records| == |versions| && Found(records[i], versions[i]) && |behind| >= 8
    requires |records[i]| <= n <= |Flat(records)| - Offset(records, i)
    ensures Enough(From(Flat(records) + behind, Offset(records, i)), n)
    ensures Detected(From(Flat(records) + behind, Offset(records, i)), n) == (|records[i]|, versions[i])
  {
    hide Detected, Enough;
    RecordAt(records, i);
    var memory := From(Flat(records) + behind, Offset(records, i));
    assert memory[..|records[i]|] == Flat(records)[Offset(records, i)..][..|records[i]|];
  }

  /** Bytes taken for a record; of none when the rest is not taken for one. */
  datatype Piece = Piece(at: nat, length: nat, version: nat)

  /** The records into which repeated detection cuts the bytes from p up to the end. */
  function Cuts(memory: seq<Byte>, end: nat, p: nat): seq<Piece>
    requires p <= end && end + 8 <= |memory|
    decreases end - p
  {
    if p == end then []
    else
      SpaceEnough(memory[p..], end - p);
      var (reclen, version) := Detected(memory[p..], end - p);
      if reclen <= 0 || p + reclen > end then [Piece(p, 0, 0)] else [Piece(p, reclen, version)] + Cuts(memory, end, p + reclen)
  }

  /** The records from i on, as they were joined. */
  function Bounds(records: seq<seq<Byte>>, versions: seq<nat>, i: nat): seq<Piece>
    requires i <= |records| == |versions|
    decreases |records| - i
  {
    if i == |records| then [] else [Piece(Offset(records, i), |records[i]|, versions[i])] + Bounds(records, versions, i + 1)
  }

  /** The first n bytes of the memory are taken for this record. */
  predicate Right(memory: seq<Byte>, n: nat, record: seq<Byte>, version: nat) {
    Enough(memory, n) && Detected(memory, n) == (|record|, version)
  }

  /** With all of the stream behind it in the buffer the record is found. */
  predicate RightAt(records: seq<seq<Byte>>, versions: seq<nat>, k: nat, behind: seq<Byte>)
    requires k < |records| == |versions|
  {
    Right(Rest(records, k, behind), Left(records, k), records[k], versions[k])
  }

  /** The memory from record i on, */
  function Rest(records: seq<seq<Byte>>, i: nat, behind: seq<Byte>): seq<Byte>
    requires i <= |records|
  {
    From(Flat(records) + behind, Offset(records, i))
  }

  /** and how much of that is stream. */
  function Left(records: seq<seq<Byte>>, i: nat): nat
    requires i <= |records|
  {
    var n := |Flat(records)| - Offset(records, i);
    if n < 0 then 0 else n
  }

  /** Repeated detection cuts a stream of records of both versions where they were joined exactly when it finds each of them. */
  lemma {:induction false} CutExactlyWhen(records: seq<seq<Byte>>, versions: seq<nat>, i: nat, behind: seq<Byte>)
    requires i <= |records| == |versions| && |behind| >= 8 && forall k | 0 <= k < |records| :: |records[k]| > 0
    ensures Offset(records, i) <= |Flat(records)|
    ensures Cuts(Flat(records) + behind, |Flat(records)|, Offset(records, i)) == Bounds(records, versions, i)
            <==> forall k | i <= k < |records| :: RightAt(records, versions, k, behind)
    decreases |records| - i
  {
    hide Detected, Enough, Offset, Cuts, Bounds, Flat, Right, RightAt;
    FlatSplits(records, i);
    BoundsStep(records, versions, i);
    if i == |records| {
      WholeOffset(records);
      CutsEnd(Flat(records) + behind, |Flat(records)|);
    } else {
      RecordAt(records, i);
      CutExactlyWhen(records, versions, i + 1, behind);
      RestBegins(records, i, behind);
      CutsStep(Flat(records) + behind, |Flat(records)|, Offset(records, i), records[i], versions[i], Bounds(records, versions, i + 1));
      RightAtIs(records, versions, i, behind);
      assert (forall k | i <= k < |records| :: RightAt(records, versions, k, behind))
        <==> RightAt(records, versions, i, behind) && forall k | i + 1 <= k < |records| :: RightAt(records, versions, k, behind);
    }
  }

  lemma RightAtIs(records: seq<seq<Byte>>, versions: seq<nat>, i: nat, behind: seq<Byte>)
    requires i < |records| == |versions| && Offset(records, i) <= |Flat(records)|
    ensures RightAt(records, versions, i, behind)
            <==> Right(From(Flat(records) + behind, Offset(records, i)), |Flat(records)| - Offset(records, i), records[i], versions[i])
  {
    hide Offset, Flat, From, Right;
  }

  lemma BoundsStep(records: seq<seq<Byte>>, versions: seq<nat>, i: nat)
    requires i <= |records| == |versions|
    ensures Bounds(records, versions, i) == if i == |records| then [] else [Piece(Offset(records, i), |records[i]|, versions[i])] + Bounds(records, versions, i + 1)
  {
    hide Offset;
  }

  lemma CutsEnd(memory: seq<Byte>, end: nat)
    requires end + 8 <= |memory|
    ensures Cuts(memory, end, end) == []
  {}

  /** The first cut is right, and what follows are the rest, exactly when all are. */
  lemma CutsStep(memory: seq<Byte>, end: nat, p: nat, record: seq<Byte>, version: nat, rest: seq<Piece>)
    requires end + 8 <= |memory| && |record| > 0 && p + |record| <= end
    ensures Cuts(memory, end, p) == [Piece(p, |record|, version)] + rest
            <==> Right(From(memory, p), end - p, record, version) && Cuts(memory, end, p + |record|) == rest
  {
    hide Detected, Enough;
    var memory' := From(memory, p);
    assert memory' == memory[p..];
    SpaceEnough(memory', end - p);
    var (reclen, found) := Detected(memory', end - p);
    if reclen <= 0 || p + reclen > end {
      FirstPiece(Piece(p, 0, 0), [], Piece(p, |record|, version), rest);
      assert Cuts(memory, end, p) == [Piece(p, 0, 0)] + [];
    } else {
      FirstPiece(Piece(p, reclen, found), Cuts(memory, end, p + reclen), Piece(p, |record|, version), rest);
    }
  }

  lemma FirstPiece(a: Piece, s: seq<Piece>, b: Piece, t: seq<Piece>)
    ensures [a] + s == [b] + t <==> a == b && s == t
  {
    if [a] + s == [b] + t {
      assert ([a] + s)[0] == ([b] + t)[0];
      assert ([a] + s)[1..] == s && ([b] + t)[1..] == t;
    }
  }

  /** Records that are found wherever they begin are cut where they were joined. */
  lemma StreamIsCut(records: seq<seq<Byte>>, versions: seq<nat>, behind: seq<Byte>)
    requires |records| == |versions| && |behind| >= 8
    requires forall k | 0 <= k < |records| :: Found(records[k], versions[k])
    ensures Cuts(Flat(records) + behind, |Flat(records)|, 0) == Bounds(records, versions, 0)
  {
    hide Detected, Enough, Found, Offset, Cuts, Bounds, Flat;
    forall k | 0 <= k < |records| ensures |records[k]| > 0 && RightAt(records, versions, k, behind) {
      FoundSome(records[k], versions[k]);
      RecordAt(records, k);
      StreamDetected(records, versions, k, |Flat(records)| - Offset(records, k), behind);
    }
    FirstOffset(records);
    CutExactlyWhen(records, versions, 0, behind);
  }

  lemma FirstOffset(records: seq<seq<Byte>>)
    ensures Offset(records, 0) == 0
  {
    assert records[..0] == [];
  }

  lemma FoundSome(record: seq<Byte>, version: nat)
    requires Found(record, version)
    ensures |record| > 0
  {}

  lemma WholeOffset(records: seq<seq<Byte>>)
    ensures Offset(records, |records|) == |Flat(records)|
  {
    assert records[..|records|] == records;
  }

  // -------------------------------------------------------- packing runs of version 2

  /** Record i of a run is found in the stream. */
  ghost predicate FoundAt(records: seq<seq<Byte>>, parts: seq<Part>, i: nat, behind: seq<Byte>, reclen: int)
    requires i < |records| == |parts|
  {
    !Misread(parts[i].time) || FoundNevertheless(Rest(records, i, behind), Left(records, i), reclen)
  }

  lemma EmittedFacts(m: Msr2, records: seq<seq<Byte>>, parts: seq<Part>, i: nat)
    requires ValidMsr2(m) && Fits2(m) && Emitted2(m, records, parts) && i < |records|
    ensures |records| == |parts| && |records[i]| == m.reclen && 128 <= m.reclen <= MAXRECLEN && m.reclen % 64 == 0
    ensures Header2Is(records[i], m) && Time2Is(records[i], parts[i].time) && Valid(parts[i].time) && 1677 <= parts[i].time.year <= 2262
    ensures Quality(m.quality)
  {
    hide Fixed2Is, BlockettesAre, Cleared, Holds2, Quality, SampleTime, TimeOf, Valid, Time2Is, PowerOfTwo, Big16;
    var r, t, before := records[i], parts[i].time, Sum(parts[..i]);
    assert PartIs2(m, r, before, parts[i]);
    BeforeEnd(m, before, parts[i]);
    assert Int64(SampleTime(m.starttime, before, m.samprate));
    YearOfTime(t);
    InFrames(m.reclen);
  }

  lemma RestBegins(records: seq<seq<Byte>>, i: nat, behind: seq<Byte>)
    requires i < |records|
    ensures Left(records, i) == |records[i]| + Left(records, i + 1)
    ensures |Rest(records, i, behind)| == Left(records, i) + |behind|
    ensures Rest(records, i, behind)[..|records[i]|] == records[i] && Rest(records, i, behind)[|records[i]|..] == Rest(records, i + 1, behind)
  {
    hide Offset, Flat;
    RecordAt(records, i);
    FlatSplits(records, i);
    FlatSplits(records, i + 1);
    var s, p, r := Flat(records), Offset(records, i), records[i];
    assert (s + behind)[p..][..|r|] == s[p..][..|r|];
    assert (s + behind)[p..][|r|..] == (s + behind)[p + |r|..];
  }

  /** Each record of the run is found exactly when its start is not misread or it is found nevertheless. */
  lemma RightExactly(m: Msr2, records: seq<seq<Byte>>, parts: seq<Part>, versions: seq<nat>, i: nat, behind: seq<Byte>)
    requires ValidMsr2(m) && Fits2(m) && Emitted2(m, records, parts) && |records| == |parts| == |versions| && i < |records| && |behind| >= 8
    requires versions[i] == 2
    ensures RightAt(records, versions, i, behind) <==> FoundAt(records, parts, i, behind, m.reclen)
  {
    hide ValidMsr2, Fits2, Emitted2, Header2Is, Time2Is, Valid, Quality, Rest, Left, Detected, Enough, Misread, FoundNevertheless;
    EmittedFacts(m, records, parts, i);
    RestBegins(records, i, behind);
    var memory, n := Rest(records, i, behind), Left(records, i);
    assert Begins(memory, records[i], |records[i]|);
    BeginsLess(memory, records[i], |records[i]|, FIXED_LENGTH + BLOCKETTE_LENGTH);
    SpaceEnough(memory, n);
    DetectedExactlyWhen(memory, n, records[i], m, parts[i].time);
  }

  /** Repeated detection cuts the output of a run where its records were joined exactly when each is found. */
  lemma EmittedIsCut(m: Msr2, records: seq<seq<Byte>>, parts: seq<Part>, behind: seq<Byte>)
    requires ValidMsr2(m) && Fits2(m) && Emitted2(m, records, parts) && |records| == |parts| && |behind| >= 8
    ensures Cuts(Flat(records) + behind, |Flat(records)|, 0) == Bounds(records, seq(|records|, i => 2), 0)
            <==> forall i | 0 <= i < |records| :: FoundAt(records, parts, i, behind, m.reclen)
  {
    hide ValidMsr2, Fits2, Emitted2, FoundAt, RightAt, Cuts, Bounds, Header2Is, Time2Is, Valid, Quality, Offset, Flat;
    var versions := seq(|records|, i => 2);
    forall k | 0 <= k < |records|
      ensures |records[k]| > 0 && (RightAt(records, versions, k, behind) <==> FoundAt(records, parts, k, behind, m.reclen))
    {
      EmittedFacts(m, records, parts, k);
      RightExactly(m, records, parts, versions, k, behind);
    }
    FirstOffset(records);
    CutExactlyWhen(records, versions, 0, behind);
  }

  /** None of the blocks of 64 bytes of a record behind the first begins like a header. */
  ghost predicate NoHeaderWithin(bs: seq<Byte>) {
    forall k: nat | 64 + 64 * k + 64 <= |bs| :: !ValidHeader2(bs[64 + 64 * k..])
  }

  lemma SameHeader2(memory: seq<Byte>, bs: seq<Byte>, at: nat)
    requires |bs| <= |memory| && memory[..|bs|] == bs && at + 64 <= |bs|
    ensures ValidHeader2(memory[at..]) <==> ValidHeader2(bs[at..])
  {
    hide Quality, SequenceByte;
    forall i | 0 <= i < 27 ensures memory[at..][i] == bs[at..][i] {
      assert memory[..|bs|][at + i] == memory[at + i];
    }
  }

  lemma FirstBehind(memory: seq<Byte>, n: nat, bs: seq<Byte>)
    requires |bs| <= n <= |memory| && memory[..|bs|] == bs && |bs| % 64 == 0 && |bs| >= 128
    ensures FirstHeader(memory, n, |bs|) <==> HeaderAt(memory, n, |bs|) && NoHeaderWithin(bs)
  {
    hide ValidHeader2;
    forall k: nat | 64 + 64 * k < |bs| ensures HeaderAt(memory, n, 64 + 64 * k) <==> ValidHeader2(bs[64 + 64 * k..]) {
      SameHeader2(memory, bs, 64 + 64 * k);
    }
  }

  /** Behind a record of the run there is a header exactly if there is another record. */
  lemma HeaderBehind(m: Msr2, records: seq<seq<Byte>>, parts: seq<Part>, i: nat, behind: seq<Byte>)
    requires ValidMsr2(m) && Fits2(m) && Emitted2(m, records, parts) && i < |records| && |behind| >= 8
    ensures HeaderAt(Rest(records, i, behind), Left(records, i), m.reclen) <==> i + 1 < |records|
  {
    hide ValidMsr2, Fits2, Emitted2, Header2Is, Time2Is, Valid, Quality, Rest, Left, ValidHeader2;
    EmittedFacts(m, records, parts, i);
    RestBegins(records, i, behind);
    if i + 1 < |records| {
      EmittedFacts(m, records, parts, i + 1);
      RestBegins(records, i + 1, behind);
      var memory, r := Rest(records, i + 1, behind), records[i + 1];
      assert Begins(memory, r, |r|);
      BeginsLess(memory, r, |r|, MINRECLEN);
      HeaderFixed(r, m);
      ValidEmitted(memory, r, m, parts[i + 1].time);
    } else {
      NothingLeft(records);
    }
  }

  lemma HeaderFixed(bs: seq<Byte>, m: Msr2)
    requires Header2Is(bs, m)
    ensures Fixed2Is(bs, m)
  {
    hide Fixed2Is, BlockettesAre;
  }

  lemma NothingLeft(records: seq<seq<Byte>>)
    ensures Left(records, |records|) == 0
  {
    WholeOffset(records);
  }

  /**
   * The output of a run of less than 12288 bytes is cut where its records were joined exactly when
   * every record that begins at a misread time is followed by another and has no block within that
   * begins like a header.
   */
  lemma ShortRunIsCut(m: Msr2, records: seq<seq<Byte>>, parts: seq<Part>, behind: seq<Byte>)
    requires ValidMsr2(m) && Fits2(m) && Emitted2(m, records, parts) && |records| == |parts| && |behind| >= 8 && |Flat(records)| < MISREAD_LINK
    ensures Cuts(Flat(records) + behind, |Flat(records)|, 0) == Bounds(records, seq(|records|, i => 2), 0)
            <==> forall i | 0 <= i < |records| && Misread(parts[i].time) :: i + 1 < |records| && NoHeaderWithin(records[i])
  {
    hide ValidMsr2, Fits2, Emitted2, Cuts, Bounds, Header2Is, Time2Is, Valid, Quality, Offset, Flat, Misread, NoHeaderWithin, FoundNevertheless, HeaderAt, Rest;
    forall i | 0 <= i < |records|
      ensures FoundAt(records, parts, i, behind, m.reclen) <==> (Misread(parts[i].time) ==> i + 1 < |records| && NoHeaderWithin(records[i]))
    {
      EmittedFacts(m, records, parts, i);
      RestBegins(records, i, behind);
      NextHeaderDecides(Rest(records, i, behind), Left(records, i), m.reclen);
      FirstBehind(Rest(records, i, behind), Left(records, i), records[i]);
      HeaderBehind(m, records, parts, i, behind);
    }
    EmittedIsCut(m, records, parts, behind);
  }
}
