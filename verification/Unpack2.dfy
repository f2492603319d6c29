/**
 * Unpacking the data of version 2 records, and exactly when that gives back what was packed: the
 * test for empty frames may take header bytes for empty frames.
 */
module Unpack2 {
  import opened Wrappers
  import opened Bytes
  import opened PowersOfTwo
  import opened SampleTimes
  import opened NsTime
  import opened PackData
  import opened PackLoop
  import opened Record3
  import opened Record2
  import opened Pack2
  import opened Trimming
  import opened RecordRoundTrip
  import opened SteimFormat
  import opened SteimGreedy
  import opened ConstantSeries

  /** msr3_data_bounds and msr3_unpack_data on a version 2 record. */
  function UnpackData2(bs: seq<Byte>, samplecnt: nat, dataoffset: nat, encoding: Encoding): Option<Samples> {
    if dataoffset < MINRECLEN || dataoffset >= |bs| then None
    else
      var size := |bs| - dataoffset;
      var rawsize := samplecnt * SampleBytes(encoding);
      var size := if Fixed(encoding) && rawsize < size then rawsize % 0x1_0000 else size;
      var size := if size % 64 == 0 && encoding.Steim? then TrimFrames(bs, size) else size;
      Decode(bs[dataoffset..dataoffset + size], samplecnt, encoding, PayloadSwap(encoding, true))
  }

  /** The data of a record whose first blockette is a blockette 1000. */
  function DataOf(bs: seq<Byte>): Option<Samples> {
    if |bs| < FIXED_LENGTH + BLOCKETTE_LENGTH then None
    else UnpackData2(bs, Big16(bs, 30), Big16(bs, 44), EncodingOf(bs[52]))
  }

  /** Records for which two bytes are enough for all numbers. */
  predicate InRange2(m: Msr2) {
    Fits2(m) && m.reclen <= 32768
  }

  /**
   * The record would lose frames of a payload of so many bytes: counted from the beginning of the
   * record, the last frame of the payload and what is behind it up to the size of the payload area
   * are blockettes, and nothing but zeros.
   */
  ghost predicate EmptyFrom(m: Msr2, used: nat) {
    var size := m.reclen - DataOffset2(m);
    && m.encoding.Steim? && 128 <= used <= size <= DataOffset2(m)
    && forall j | 0 <= j < |m.blockettes| && used - 64 <= FIXED_LENGTH + BLOCKETTE_LENGTH + j < size :: m.blockettes[j] == 0
  }

  /** The payload of the record comes through the test for empty frames. */
  ghost predicate Intact(m: Msr2, part: Part) {
    !EmptyFrom(m, |part.payload|)
  }

  lemma OffsetInFrames(m: Msr2)
    requires m.encoding.Steim?
    ensures DataOffset2(m) % 64 == 0
  {}

  lemma LengthInFrames(m: Msr2)
    requires Fits2(m)
    ensures m.reclen % 64 == 0
  {
    InFrames(m.reclen);
  }

  /** Fewer samples in a record than two bytes can count. */
  lemma CountFits(s: Samples, maxdatabytes: nat, encoding: Encoding)
    requires maxdatabytes <= 32768
    ensures PackCount(s, maxdatabytes, encoding) < 0x1_0000
  {
    hide Stuck, Reach, DataSlots, Differences;
    if encoding.Steim? && s.Ints? && maxdatabytes >= 64 && |s.xs| > 0 {
      var f := maxdatabytes / 64;
      ReachBound(encoding.ver, Differences(s.xs, 0), DataSlots(16 * f));
      FrameSlots(f);
      var slots := DataSlots(16 * f);
      assert slots * 7 <= 15 * 512 * 7;
    }
  }

  /** An encoding that packs is one that is known. */
  lemma Known(s: Samples, n: nat, maxdatabytes: nat, encoding: Encoding)
    requires n == PackCount(s, maxdatabytes, encoding) && n > 0
    ensures encoding != Unknown && EncodingOf(Code(encoding)) == encoding
  {
    hide Stuck, Reach, DataSlots, Differences;
  }

  lemma SomeBytes(bs: seq<Byte>, s: Samples, n: nat, encoding: Encoding)
    requires IsPayload(bs, s, n, encoding, true) && n > 0 && encoding != Unknown
    ensures |bs| > 0
  {
    hide Through, PayloadSamples, FramesBegin, Tight;
  }

  /** The samples have one size: what is behind them is not read. */
  lemma PlainDataBack(bs: seq<Byte>, d: nat, s: Samples, n: nat, payload: seq<Byte>, encoding: Encoding)
    requires MINRECLEN <= d && d + |payload| <= |bs| < 0x1_0000 && bs[d..d + |payload|] == payload && |payload| > 0
    requires Fixed(encoding) && IsPayload(payload, s, n, encoding, true)
    ensures UnpackData2(bs, n, d, encoding) == Some(Through(Take(s, n), encoding))
  {
    hide Through, FramesBegin, Decode, TrimFrames, Tight;
    assert n * SampleBytes(encoding) == |payload|;
  }

  /** The payload that a reader takes decodes to the samples packed, exactly when the record is intact. */
  lemma DataBack2(m: Msr2, bs: seq<Byte>, s: Samples, n: nat, part: Part)
    requires InRange2(m) && IsRecord2(bs, m, n, part.payload) && n > 0 && m.encoding != Unknown && IsPayload(part.payload, s, n, m.encoding, true)
    ensures UnpackData2(bs, n, DataOffset2(m), m.encoding) == if Intact(m, part) then Some(Through(Take(s, n), m.encoding)) else None
  {
    hide Header2Is, Cleared, Big16, Through, FramesBegin, Decode, TrimFrames, Tight, Untrimmed, PowerOfTwo, EmptyFrom;
    var d, size := DataOffset2(m), m.reclen - DataOffset2(m);
    SomeBytes(part.payload, s, n, m.encoding);
    if m.encoding.Steim? {
      OffsetInFrames(m);
      LengthInFrames(m);
      UntrimmedExactly(m, bs, n, part.payload);
      TrimmedDecodes(bs, d, size, part.payload, s, n, m.encoding, true);
    } else {
      PlainDataBack(bs, d, s, n, part.payload, m.encoding);
      OnlySteim(m, part);
    }
  }

  lemma OnlySteim(m: Msr2, part: Part)
    requires !m.encoding.Steim?
    ensures Intact(m, part)
  {}

  /** The count, the data offset and the encoding that the record gives. */
  lemma OwnNumbers(m: Msr2, bs: seq<Byte>, n: nat, payload: seq<Byte>)
    requires IsRecord2(bs, m, n, payload) && n < 0x1_0000 && m.reclen <= 32768
    ensures FIXED_LENGTH + BLOCKETTE_LENGTH <= |bs| == m.reclen
    ensures Big16(bs, 30) == n && Big16(bs, 44) == DataOffset2(m) && bs[52] == Code(m.encoding)
  {
    hide OfByte, Big16, DataOffset2, Code, Fixed2Is;
  }

  /**
   * The data of a record that packing emits is the samples packed exactly when the record is
   * intact, whatever stale bytes are behind its payload; otherwise it is refused.
   */
  lemma UnpacksBack2(m: Msr2, bs: seq<Byte>, before: nat, part: Part)
    requires InRange2(m) && PartIs2(m, bs, before, part)
    ensures before + part.count <= Size(m.data)
    ensures DataOf(bs) == if Intact(m, part) then Some(Through(Take(Drop(m.data, before), part.count), m.encoding)) else None
  {
    hide IsPayload, PackCount, TimeOf, SampleTime, Time2Is, UnpackData2, OfByte, Valid, IsRecord2, DataOffset2, Big16, Code, EncodingOf, Intact, Fits2;
    CountFits(Drop(m.data, before), m.reclen - DataOffset2(m), m.encoding);
    Known(Drop(m.data, before), part.count, m.reclen - DataOffset2(m), m.encoding);
    OwnNumbers(m, bs, part.count, part.payload);
    DataBack2(m, bs, Drop(m.data, before), part.count, part);
  }

  // ------------------------------------------------------------------------ conservation

  /** All samples of some records, unpacked one after the other. */
  function Gather2(records: seq<seq<Byte>>, none: Samples): Option<Samples> {
    if records == [] then Some(none)
    else
      match (Gather2(records[..|records| - 1], none), DataOf(records[|records| - 1]))
      case (Some(s), Some(t)) => Some(Append(s, t))
      case _ => None
  }

  ghost predicate AllIntact(m: Msr2, parts: seq<Part>) {
    forall i | 0 <= i < |parts| :: Intact(m, parts[i])
  }

  /** The records hold the samples packed, each once and in order, and give them back exactly when all are intact. */
  lemma {:induction false} Conserves2(m: Msr2, records: seq<seq<Byte>>, parts: seq<Part>)
    requires InRange2(m) && Emitted2(m, records, parts)
    ensures Sum(parts) <= Size(m.data) && |records| == |parts|
    ensures Gather2(records, Take(m.data, 0))
         == if AllIntact(m, parts) then Some(Through(Take(m.data, Sum(parts)), m.encoding)) else None
    decreases |records|
  {
    hide InRange2, PartIs2, Through, Take, Drop, Append, DataOf, Intact, AllIntact, Gather2, Sum, Emitted2;
    AsMany(m, records, parts);
    GatherLast(records, Take(m.data, 0));
    SumLast(parts);
    if records == [] {
      NothingThrough(m.data, m.encoding);
      NoneBroken(m);
    } else {
      var n := |records| - 1;
      EmittedLess2(m, records, parts);
      Conserves2(m, records[..n], parts[..n]);
      UnpacksBack2(m, records[n], Sum(parts[..n]), parts[n]);
      TakeMore(m.data, Sum(parts[..n]), parts[n].count, m.encoding);
      LastIntact(m, parts);
    }
  }

  lemma GatherLast(records: seq<seq<Byte>>, none: Samples)
    ensures Gather2(records, none) ==
            if records == [] then Some(none)
            else
              match (Gather2(records[..|records| - 1], none), DataOf(records[|records| - 1]))
              case (Some(s), Some(t)) => Some(Append(s, t))
              case _ => None
  {
    hide DataOf, Append;
  }

  lemma SumLast(parts: seq<Part>)
    ensures Sum(parts) == if parts == [] then 0 else Sum(parts[..|parts| - 1]) + parts[|parts| - 1].count
  {}

  lemma NoneBroken(m: Msr2)
    ensures AllIntact(m, [])
  {}

  lemma LastIntact(m: Msr2, parts: seq<Part>)
    requires |parts| > 0
    ensures var n := |parts| - 1; AllIntact(m, parts) <==> AllIntact(m, parts[..n]) && Intact(m, parts[n])
  {
    hide Intact;
    var n := |parts| - 1;
    assert forall i | 0 <= i < n :: parts[..n][i] == parts[i];
    if AllIntact(m, parts) {
      assert forall i | 0 <= i < n :: Intact(m, parts[i]);
    }
  }

  lemma EmittedLess2(m: Msr2, records: seq<seq<Byte>>, parts: seq<Part>)
    requires Emitted2(m, records, parts) && |records| > 0
    ensures var n := |records| - 1; Emitted2(m, records[..n], parts[..n]) && PartIs2(m, records[n], Sum(parts[..n]), parts[n])
  {
    hide PartIs2;
    var n := |records| - 1;
    forall i | 0 <= i < n ensures PartIs2(m, records[..n][i], Sum(parts[..n][..i]), parts[..n][i]) {
      assert parts[..n][..i] == parts[..i];
    }
  }

  lemma AsMany(m: Msr2, records: seq<seq<Byte>>, parts: seq<Part>)
    requires Emitted2(m, records, parts)
    ensures |records| == |parts|
  {}

  // --------------------------------------------------------------- what the header decides

  lemma FramesIn(n: nat) returns (f: nat)
    requires n % 64 == 0
    ensures n == 64 * f
  {
    f := n / 64;
  }

  lemma PayloadFits(m: Msr2, bs: seq<Byte>, nsamples: nat, payload: seq<Byte>)
    requires IsRecord2(bs, m, nsamples, payload)
    ensures DataOffset2(m) + |payload| <= |bs| == m.reclen && HeaderLength2(m) <= |bs|
  {
    hide Big16, Header2Is, DataOffset2;
    LongEnough(m, bs);
  }

  lemma FrameByte(m: Msr2, bs: seq<Byte>, nsamples: nat, payload: seq<Byte>, o: nat)
    requires IsRecord2(bs, m, nsamples, payload) && |payload| % 64 == 0 && o % 64 == 0 && o < |payload| && FramesBegin(payload)
    ensures DataOffset2(m) + o < |bs| && bs[DataOffset2(m) + o] != 0
  {
    hide Big16, Header2Is, DataOffset2;
    var f := FramesIn(o);
    assert payload[64 * f] != 0;
    assert bs[DataOffset2(m)..DataOffset2(m) + |payload|][o] == payload[o];
  }

  lemma BlocketteByte(m: Msr2, bs: seq<Byte>, j: nat)
    requires BlockettesAre(bs, m) && j < |m.blockettes|
    ensures bs[FIXED_LENGTH + BLOCKETTE_LENGTH + j] == m.blockettes[j]
  {
    hide Big16, OfByte;
    assert bs[56..HeaderLength2(m)][j] == bs[56 + j];
  }

  lemma FirstByte(m: Msr2, bs: seq<Byte>)
    requires Fixed2Is(bs, m)
    ensures bs[0] != 0
  {
    hide Big16;
    assert bs[0..6][0] == bs[0];
  }

  /** Behind the last frame in use, or in it, the test meets a byte that is not zero. */
  lemma FirstLook(m: Msr2, bs: seq<Byte>, nsamples: nat, payload: seq<Byte>) returns (w: nat, k: nat)
    requires IsRecord2(bs, m, nsamples, payload) && m.encoding.Steim? && m.reclen % 64 == 0
    requires |payload| % 64 == 0 && |payload| > 0 && FramesBegin(payload) && !EmptyFrom(m, |payload|)
    ensures |payload| <= w <= m.reclen - DataOffset2(m) && w % 64 == 0 && w - 64 <= k < w && bs[k] != 0
  {
    hide *;
    var d, used, size := DataOffset2(m), |payload|, m.reclen - DataOffset2(m);
    PayloadFits(m, bs, nsamples, payload);
    OffsetInFrames(m);
    SizeInFrames(m.reclen, d);
    if d + used <= size {
      SumInFrames(d, used);
      SizeInFrames(used, 64);
      FrameByte(m, bs, nsamples, payload, used - 64);
      w, k := d + used, d + used - 64;
    } else if size >= d + 64 {
      SizeInFrames(size, d);
      SizeInFrames(size - d, 64);
      FrameByte(m, bs, nsamples, payload, size - d - 64);
      w, k := size, size - 64;
    } else {
      NoLonger(size, d);
      w, k := HeaderLook(m, bs, nsamples, payload, used);
    }
  }

  lemma NoLonger(a: int, b: int)
    requires a % 64 == 0 && b % 64 == 0 && a < b + 64
    ensures a <= b
  {}

  /** The same where that is in the header. */
  lemma HeaderLook(m: Msr2, bs: seq<Byte>, nsamples: nat, payload: seq<Byte>, used: nat) returns (w: nat, k: nat)
    requires IsRecord2(bs, m, nsamples, payload) && m.encoding.Steim? && !EmptyFrom(m, used) && |bs| >= 1
    requires used % 64 == 0 && 0 < used <= m.reclen - DataOffset2(m) <= DataOffset2(m) && (m.reclen - DataOffset2(m)) % 64 == 0
    ensures used <= w <= m.reclen - DataOffset2(m) && w % 64 == 0 && w - 64 <= k < w < |bs| && bs[k] != 0
  {
    hide *;
    PayloadFits(m, bs, nsamples, payload);
    Below(0, used);
    if used == 64 {
      w, k := 64, 0;
      NotEmpty(m, bs, nsamples, payload);
    } else {
      Below(64, used);
      k := HeaderByte(m, bs, nsamples, payload, used);
      w := UpToFrame(k, used, m.reclen - DataOffset2(m));
    }
  }

  /** The end of the frame in which a byte is. */
  lemma UpToFrame(k: nat, used: nat, size: nat) returns (w: nat)
    requires used % 64 == 0 && size % 64 == 0 && used - 64 <= k < size && used >= 64
    ensures used <= w <= size && w % 64 == 0 && w - 64 <= k < w
  {
    w := 64 * (k / 64) + 64;
    assert used == 64 * (used / 64) && size == 64 * (size / 64);
  }

  lemma NotEmpty(m: Msr2, bs: seq<Byte>, nsamples: nat, payload: seq<Byte>)
    requires IsRecord2(bs, m, nsamples, payload)
    ensures bs[0] != 0
  {
    hide Big16, Fixed2Is, BlockettesAre, Cleared;
    FirstByte(m, bs);
  }

  lemma SumInFrames(a: int, b: int)
    requires a % 64 == 0 && b % 64 == 0
    ensures (a + b) % 64 == 0
  {}

  lemma SizeInFrames(reclen: int, d: nat)
    requires reclen % 64 == 0 && d % 64 == 0
    ensures (reclen - d) % 64 == 0
  {}

  lemma HeaderByte(m: Msr2, bs: seq<Byte>, nsamples: nat, payload: seq<Byte>, used: nat) returns (k: nat)
    requires IsRecord2(bs, m, nsamples, payload) && m.encoding.Steim? && !EmptyFrom(m, used)
    requires 128 <= used <= m.reclen - DataOffset2(m) <= DataOffset2(m)
    ensures used - 64 <= k < m.reclen - DataOffset2(m) && bs[k] != 0
  {
    hide Big16, DataOffset2, BlockettesAre, Fixed2Is;
    var size := m.reclen - DataOffset2(m);
    var j :| 0 <= j < |m.blockettes| && used - 64 <= FIXED_LENGTH + BLOCKETTE_LENGTH + j < size && m.blockettes[j] != 0;
    k := FIXED_LENGTH + BLOCKETTE_LENGTH + j;
    LongEnough(m, bs);
    BlocketteByte(m, bs, j);
  }

  lemma EmptyByte(m: Msr2, bs: seq<Byte>, used: nat, k: nat)
    requires BlockettesAre(bs, m) && Cleared(bs, m) && EmptyFrom(m, used) && used - 64 <= k < m.reclen - DataOffset2(m)
    ensures bs[k] == 0
  {
    hide BlockettesAre, DataOffset2;
    if k < HeaderLength2(m) {
      BlocketteByte(m, bs, k - FIXED_LENGTH - BLOCKETTE_LENGTH);
    }
  }

  lemma {:induction false} TrimsAll(bs: seq<Byte>, size: nat, used: nat)
    requires used <= size <= |bs| && size % 64 == 0 && used % 64 == 0 && used >= 64 && forall k | used - 64 <= k < size :: bs[k] == 0
    ensures TrimFrames(bs, size) <= used - 64
    decreases size
  {
    assert TrimFrames(bs, size) == TrimFrames(bs, size - 64);
    if used < size {
      Below(used, size);
      TrimsAll(bs, size - 64, used);
    }
  }

  lemma Below(a: nat, b: nat)
    requires a < b && a % 64 == 0 && b % 64 == 0
    ensures a <= b - 64
  {}

  /** The test for empty frames leaves the payload alone exactly when its record is intact. */
  lemma UntrimmedExactly(m: Msr2, bs: seq<Byte>, nsamples: nat, payload: seq<Byte>)
    requires IsRecord2(bs, m, nsamples, payload) && m.encoding.Steim? && m.reclen % 64 == 0
    requires |payload| % 64 == 0 && |payload| > 0 && FramesBegin(payload)
    ensures 0 <= m.reclen - DataOffset2(m) <= |bs| && (m.reclen - DataOffset2(m)) % 64 == 0
    ensures Untrimmed(bs, m.reclen - DataOffset2(m), |payload|) <==> !EmptyFrom(m, |payload|)
  {
    hide Big16, DataOffset2, TrimFrames, BlockettesAre, Fixed2Is, EmptyFrom, Cleared, FramesBegin;
    PayloadFits(m, bs, nsamples, payload);
    OffsetInFrames(m);
    SizeInFrames(m.reclen, DataOffset2(m));
    var size := m.reclen - DataOffset2(m);
    if EmptyFrom(m, |payload|) {
      EmptySmall(m, |payload|);
      forall k | |payload| - 64 <= k < size ensures bs[k] == 0 {
        EmptyByte(m, bs, |payload|, k);
      }
      TrimsAll(bs, size, |payload|);
    } else {
      var w, k := FirstLook(m, bs, nsamples, payload);
      TrimAtLeast(bs, size, w, k);
    }
  }

  lemma EmptySmall(m: Msr2, used: nat)
    requires EmptyFrom(m, used)
    ensures 128 <= used <= m.reclen - DataOffset2(m) && EmptyFrom(m, m.reclen - DataOffset2(m))
  {}

  /** The header keeps all payloads: what could be taken for the last frame of a full one is not empty. */
  ghost predicate HeaderBlock(m: Msr2) {
    var size := m.reclen - DataOffset2(m);
    size < 0 || !EmptyFrom(m, size)
  }

  /** Such a header keeps every record of every data set intact. */
  lemma HeaderKeepsIntact(m: Msr2, part: Part)
    requires HeaderBlock(m)
    ensures Intact(m, part)
  {
    hide EmptyFrom, HeaderBlock;
    KeptAnyway(m, |part.payload|);
  }

  /** How many bytes the payload of the first record has. */
  ghost function FirstPayload(m: Msr2): nat {
    var size := m.reclen - DataOffset2(m);
    if size >= 0 && m.encoding.Steim? then PayloadBytes(m.data, size, m.encoding.ver) else 0
  }

  lemma FirstPart(m: Msr2, records: seq<seq<Byte>>, parts: seq<Part>)
    requires InRange2(m) && Emitted2(m, records, parts) && |records| >= 1 && m.encoding.Steim?
    ensures |parts| == |records| && |parts[0].payload| == FirstPayload(m) && m.data.Ints?
  {
    hide IsRecord2, Valid, TimeOf, SampleTime, Time2Is, PayloadBytes, IsPayload, DataOffset2, PowerOfTwo, Stuck, Reach, DataSlots;
    assert parts[..0] == [];
    assert PartIs2(m, records[0], Sum(parts[..0]), parts[0]);
    NoneDropped(m.data);
  }

  lemma NoneDropped(s: Samples)
    ensures Drop(s, 0) == s
  {}

  /** When there is another record, the first is full. */
  lemma FirstIsFull(m: Msr2, records: seq<seq<Byte>>, parts: seq<Part>)
    requires InRange2(m) && Emitted2(m, records, parts) && |records| >= 2 && m.encoding.Steim?
    ensures FirstPayload(m) == m.reclen - DataOffset2(m)
  {
    hide IsRecord2, Valid, TimeOf, SampleTime, Time2Is, IsPayload, DataOffset2, PowerOfTwo, Stuck, Reach, DataSlots, FramesUsed, Differences;
    LengthInFrames(m);
    OffsetInFrames(m);
    SizeInFrames(m.reclen, DataOffset2(m));
    assert parts[..0] == [] && parts[..1] == [parts[0]];
    assert PartIs2(m, records[0], Sum(parts[..0]), parts[0]) && PartIs2(m, records[1], Sum(parts[..1]), parts[1]);
    assert Sum(parts[..1]) == parts[0].count;
    NoneDropped(m.data);
    AllUsed(m.encoding.ver, Differences(m.data.xs, 0), (m.reclen - DataOffset2(m)) / 64);
  }

  /** All records are intact exactly when the first is. */
  lemma FirstDecides(m: Msr2, records: seq<seq<Byte>>, parts: seq<Part>)
    requires InRange2(m) && Emitted2(m, records, parts) && |records| >= 1
    ensures AllIntact(m, parts) <==> !EmptyFrom(m, FirstPayload(m))
  {
    hide Emitted2, EmptyFrom, InRange2, FirstPayload;
    AsMany(m, records, parts);
    if m.encoding.Steim? {
      FirstPart(m, records, parts);
      assert Intact(m, parts[0]) <==> !EmptyFrom(m, FirstPayload(m));
      if |records| >= 2 && Intact(m, parts[0]) {
        FirstIsFull(m, records, parts);
        forall i | 0 <= i < |parts| ensures Intact(m, parts[i]) {
          HeaderKeepsIntact(m, parts[i]);
        }
      }
    } else {
      forall i | 0 <= i < |parts| ensures Intact(m, parts[i]) {
        OnlySteim(m, parts[i]);
      }
      PlainKept(m, FirstPayload(m));
    }
  }

  /**
   * Whether samples come back is decided by the header and how many bytes the payload of the first
   * record has; when there is a second record the first is full.
   */
  lemma HeaderDecides(m: Msr2, records: seq<seq<Byte>>, parts: seq<Part>)
    requires InRange2(m) && Emitted2(m, records, parts) && |records| >= 1
    ensures Gather2(records, Take(m.data, 0)) == if EmptyFrom(m, FirstPayload(m)) then None else Some(Through(Take(m.data, Sum(parts)), m.encoding))
    ensures |records| >= 2 ==> (EmptyFrom(m, FirstPayload(m)) <==> !HeaderBlock(m))
  {
    hide Emitted2, DataOffset2, Intact, Gather2, Through, Fits2, EmptyFrom, FirstPayload, AllIntact;
    Conserves2(m, records, parts);
    FirstDecides(m, records, parts);
    if |records| >= 2 {
      if m.encoding.Steim? {
        FirstIsFull(m, records, parts);
      } else {
        PlainKept(m, FirstPayload(m));
      }
    }
  }

  lemma PlainKept(m: Msr2, used: nat)
    requires !m.encoding.Steim?
    ensures !EmptyFrom(m, used) && HeaderBlock(m)
  {}

  /** Packing with a flush and unpacking every record gives all samples back exactly when the first record keeps its payload. */
  method PackAndUnpack2(m: Msr2) returns (recordcnt: int, samples: Option<Samples>, ghost records: seq<seq<Byte>>, ghost parts: seq<Part>)
    requires ValidMsr2(m) && Size(m.data) > 0 && m.reclen <= 32768
    ensures Emitted2(m, records, parts) && |records| == |parts| && (recordcnt >= 0 ==> Fits2(m) && Sum(parts) == Size(m.data))
    ensures recordcnt == -1 && Fits2(m) ==>
              DataOffset2(m) <= m.reclen && Sum(parts) <= Size(m.data) &&
              PackCount(Drop(m.data, Sum(parts)), m.reclen - DataOffset2(m), m.encoding) == -1
    ensures recordcnt == -1 || recordcnt == |records|
    ensures recordcnt >= 0 ==> samples == if EmptyFrom(m, FirstPayload(m)) then None else Some(Through(m.data, m.encoding))
    ensures recordcnt >= 0 && HeaderBlock(m) ==> samples == Some(Through(m.data, m.encoding))
  {
    hide ValidMsr2, Emitted2, PackCount, Through, Gather2, Fits2, DataOffset2, HeaderBlock, EmptyFrom, FirstPayload;
    var packed, rs;
    recordcnt, packed, rs, parts := PackMseed2(m, true);
    records, samples := rs, None;
    AsMany(m, records, parts);
    if recordcnt >= 0 {
      assert parts != [];
      HeaderDecides(m, records, parts);
      samples := Gather2(rs, Take(m.data, 0));
      TakeAll(m.data);
      if HeaderBlock(m) {
        KeptAnyway(m, FirstPayload(m));
      }
    }
  }

  lemma KeptAnyway(m: Msr2, used: nat)
    requires HeaderBlock(m)
    ensures !EmptyFrom(m, used)
  {
    hide EmptyFrom;
    if EmptyFrom(m, used) {
      EmptySmall(m, used);
    }
  }

  // ------------------------------------------------------------------------- an instance

  /** A blockette 500 for a timing exception without a clock status: the 128 bytes for that are zero. */
  ghost predicate WithoutClockStatus(b: seq<Byte>) {
    |b| == 200 && forall k | 72 <= k < 200 :: b[k] == 0
  }

  /** In records of 512 bytes one such blockette behind the first is enough to lose payloads of four frames. */
  lemma ClockStatusMissing(m: Msr2)
    requires m.reclen == 512 && m.encoding.Steim? && WithoutClockStatus(m.blockettes)
    ensures InRange2(m) && DataOffset2(m) == 256 && EmptyFrom(m, 256) && !HeaderBlock(m)
  {
    assert HeaderLength2(m) == 256;
    Fits512(m);
  }

  /**
   * And with every header that does not keep all payloads there are series that are packed into
   * records and do not come back: constant ones that are just long enough.
   */
  method LosesConstantSeries(m: Msr2, used: nat) returns (recordcnt: int, samples: Option<Samples>)
    requires ValidMsr2(m) && InRange2(m) && EmptyFrom(m, used) && used % 64 == 0 && m.data == Ints(Zeros(JustEnough(m.encoding.ver, used / 64)))
    ensures recordcnt >= 1 && samples == None
  {
    hide ValidMsr2, Emitted2, PackCount, Through, Fits2, DataOffset2, HeaderBlock, FirstPayload, PayloadBytes, Zeros;
    ghost var records, parts;
    recordcnt, samples, records, parts := PackAndUnpack2(m);
    TakesUsed(m, used);
    if recordcnt < 0 {
      EmptySmall(m, used);
      ZerosPack(m.encoding.ver, JustEnough(m.encoding.ver, used / 64), Sum(parts), m.reclen - DataOffset2(m));
    }
  }

  lemma TakesUsed(m: Msr2, used: nat)
    requires InRange2(m) && EmptyFrom(m, used) && used % 64 == 0 && m.data == Ints(Zeros(JustEnough(m.encoding.ver, used / 64)))
    ensures FirstPayload(m) == used && PackCount(m.data, m.reclen - DataOffset2(m), m.encoding) == Size(m.data)
  {
    hide PackCount, PayloadBytes, DataOffset2, Zeros, JustEnough, Fits2;
    TakesFrames(m.encoding.ver, used / 64, m.reclen - DataOffset2(m));
  }

  lemma Fits512(m: Msr2)
    requires m.reclen == 512 && HeaderLength2(m) <= 512
    ensures Fits2(m)
  {
    assert PowerOfTwo(8) && PowerOfTwo(32) && PowerOfTwo(128) && PowerOfTwo(512);
  }
}
