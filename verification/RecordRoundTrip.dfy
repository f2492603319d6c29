/** Unpacking the records that packing emits gives back what was packed. */
module RecordRoundTrip {
  import opened Wrappers
  import opened Bytes
  import opened SampleTimes
  import opened NsTime
  import opened PackData
  import opened Record3
  import opened PackLoop
  import opened Pack3
  import opened Trimming
  import opened Unpack3
  import opened SteimWords
  import opened SteimFormat
  import opened SteimGreedy
  import opened ConstantSeries
  import Calendar
  import Crc32c

  lemma {:induction false} WholeString(s: seq<Byte>)
    requires NoNul(s)
    ensures StrLen(s) == |s|
  {
    if s != [] {
      WholeString(s[1..]);
    }
  }

  /** A time that the range checks on reading let through: not in 1677, nor the one that stands for an error. */
  predicate Readable(time: int) {
    time >= Calendar.DayOf(1678) * 86400 * NSTMODULUS && time != NSTERROR
  }

  lemma RecordFramed(bs: seq<Byte>, h: Header, n: nat, payload: seq<Byte>)
    requires IsRecord(bs, h, n, payload)
    ensures Framed(bs) && |bs| == DataOffset(h) + |payload|
  {
    hide Bytes.Number, TimeIs, CrcIsRight;
  }

  /** The fields come back from the header. */
  lemma HeaderBack(bs: seq<Byte>, h: Header, n: nat, payload: seq<Byte>, time: int)
    requires IsRecord(bs, h, n, payload) && |payload| < 0x1_0000 && Framed(bs)
    requires Valid(h.time) && TimeOf(h.time) == time && 1677 <= h.time.year <= 2262
    ensures HeaderFields(bs).starttime == if Readable(time) then time else NSTERROR
    ensures var u := HeaderFields(bs);
            && u.flags == h.flags && u.sid == h.sid && u.encoding == h.encoding && u.rate == h.rate
            && u.samplecnt == n && u.pubversion == h.pubversion && u.extra == h.extra && u.datalength == |payload| && u.data == None
    ensures TimeAt(bs) == h.time
  {
    hide Bytes.Number, TimeToNstime, TimeOf, Calendar.DayOf, CrcIsRight, TimeIs, RestIs, TimeAt, Valid;
    TimeBack(bs, h.time);
    RestBack(bs, h, n, payload);
    CheckedRoundTrip(h.time, time);
  }

  lemma TimeBack(bs: seq<Byte>, t: Fields)
    requires TimeIs(bs, t)
    ensures TimeAt(bs) == t
  {
    hide Bytes.Number;
  }

  lemma RestBack(bs: seq<Byte>, h: Header, n: nat, payload: seq<Byte>)
    requires RestIs(bs, h) && Framed(bs) && Bytes.Number(bs, 24, 4) == n && Bytes.Number(bs, 36, 4) == |payload| < 0x1_0000
    ensures var u := HeaderFields(bs);
            && u.flags == h.flags && u.sid == h.sid && u.starttime == TimeToNstime(TimeAt(bs)) && u.encoding == h.encoding
            && u.rate == h.rate && u.samplecnt == n && u.pubversion == h.pubversion && u.extra == h.extra
            && u.datalength == |payload| && u.data == None
  {
    hide Bytes.Number, TimeToNstime, TimeAt;
  }

  /** The bytes between the fixed header and the payload. */
  function Names(m: Msr): seq<Byte> {
    m.sid + m.extra
  }

  /**
   * The record would lose frames of a payload of so many bytes: counted from the beginning of the
   * record, its last frame is in the identifier and the extra headers, and nothing but zeros.
   */
  ghost predicate EmptyBlock(m: Msr, used: nat) {
    128 <= used <= HeaderLength(m) && forall j | 0 <= j < |Names(m)| && used - 64 <= HEADER_LENGTH + j < used :: Names(m)[j] == 0
  }

  /** The test for empty frames leaves a payload alone exactly when its header has no such block. */
  lemma UntrimmedExactly(m: Msr, bs: seq<Byte>, time: Fields, n: nat, payload: seq<Byte>)
    requires IsRecord(bs, HeaderOf(m, time), n, payload) && |payload| > 0 && |payload| % 64 == 0 && FramesBegin(payload)
    ensures |payload| <= |bs| && (Untrimmed(bs, |payload|, |payload|) <==> !EmptyBlock(m, |payload|))
  {
    hide Bytes.Number, TimeIs, CrcIsRight, TrimFrames, FramesBegin, Names;
    var h, size := HeaderOf(m, time), |payload|;
    RecordFramed(bs, h, n, payload);
    assert DataOffset(h) == HeaderLength(m);
    if EmptyBlock(m, size) {
      forall i | size - 64 <= i < size ensures bs[i] == 0 {
        NameByte(m, bs, time, i);
      }
      Trims(bs, size);
    } else {
      var k := LastByte(m, bs, time, payload);
      NoTrim(bs, size, k);
    }
  }

  lemma Trims(bs: seq<Byte>, size: nat)
    requires 64 <= size <= |bs| && size % 64 == 0 && forall k | size - 64 <= k < size :: bs[k] == 0
    ensures TrimFrames(bs, size) < size
  {}

  lemma NoTrim(bs: seq<Byte>, size: nat, k: nat)
    requires size <= |bs| && size % 64 == 0 && 0 < size && size - 64 <= k < size && bs[k] != 0
    ensures TrimFrames(bs, size) == size
  {}

  /** A byte of the record that is not zero, in the 64 bytes up to the payload's size. */
  lemma LastByte(m: Msr, bs: seq<Byte>, time: Fields, payload: seq<Byte>) returns (k: nat)
    requires RestIs(bs, HeaderOf(m, time)) && bs[HeaderLength(m)..] == payload && |payload| % 64 == 0 && FramesBegin(payload)
    requires 0 < |payload| <= |bs| && !EmptyBlock(m, |payload|)
    ensures |payload| - 64 <= k < |payload| && bs[k] != 0
  {
    hide *;
    var d, size := HeaderLength(m), |payload|;
    LongHeader(m, bs, time);
    if d < size {
      k := FrameByte(bs, d, payload);
    } else if size == 64 {
      k := 0;
    } else {
      SecondBlock(size);
      var j := NotEmpty(m, size);
      k := HEADER_LENGTH + j;
      NameByte(m, bs, time, k);
    }
  }

  lemma LongHeader(m: Msr, bs: seq<Byte>, time: Fields)
    requires RestIs(bs, HeaderOf(m, time))
    ensures HEADER_LENGTH <= HeaderLength(m) == HEADER_LENGTH + |Names(m)| && |bs| >= HeaderLength(m) && bs[0] != 0
    ensures bs[HEADER_LENGTH..HeaderLength(m)] == Names(m)
  {
    hide Bytes.Number;
    Glue(bs, 40, 40 + |m.sid|, HeaderLength(m));
  }

  lemma Glue(bs: seq<Byte>, a: nat, b: nat, c: nat)
    requires a <= b <= c <= |bs|
    ensures bs[a..c] == bs[a..b] + bs[b..c]
  {}

  lemma SecondBlock(size: nat)
    requires size % 64 == 0 && size > 0 && size != 64
    ensures size >= 128
  {}

  /** The beginning of the last frame of the payload that lies before its size in the record. */
  lemma FrameByte(bs: seq<Byte>, d: nat, payload: seq<Byte>) returns (k: nat)
    requires HEADER_LENGTH <= d < |payload| <= |bs| && bs[d..] == payload && |payload| % 64 == 0 && FramesBegin(payload)
    ensures |payload| - 64 <= k < |payload| && bs[k] != 0
  {
    var f := FrameBefore(d, |payload|);
    k := d + 64 * f;
    assert payload[64 * f] != 0;
    assert bs[k] == bs[d..][64 * f];
  }

  lemma NotEmpty(m: Msr, size: nat) returns (j: nat)
    requires 128 <= size <= HeaderLength(m) && !EmptyBlock(m, size)
    ensures j < |Names(m)| && size - 64 <= HEADER_LENGTH + j < size && Names(m)[j] != 0
  {
    var i :| 0 <= i < |Names(m)| && size - 64 <= HEADER_LENGTH + i < size && Names(m)[i] != 0;
    j := i;
  }

  /** Which frame begins in the last 64 bytes below the size. */
  lemma FrameBefore(d: nat, size: nat) returns (f: nat)
    requires d < size && size % 64 == 0 && d >= HEADER_LENGTH
    ensures f < size / 64 && size - 64 <= d + 64 * f < size
  {
    f := (size - d - 1) / 64;
  }

  /** Between the fixed header and the payload there are identifier and extra headers. */
  lemma NameByte(m: Msr, bs: seq<Byte>, time: Fields, k: nat)
    requires RestIs(bs, HeaderOf(m, time)) && HEADER_LENGTH <= k < HeaderLength(m)
    ensures |bs| >= HeaderLength(m) == HEADER_LENGTH + |Names(m)| && bs[k] == Names(m)[k - HEADER_LENGTH]
  {
    hide *;
    LongHeader(m, bs, time);
    assert bs[HEADER_LENGTH..HeaderLength(m)][k - HEADER_LENGTH] == bs[k];
  }

  /** What packing must be asked for: records and payload lengths that are in range, and an encoding. */
  predicate InRange(m: Msr) {
    m.reclen <= MAXRECLEN && m.reclen - HeaderLength(m) < 0x1_0000 && m.encoding != Unknown
  }

  /** A payload of so many bytes comes through the test for empty frames. */
  ghost predicate Kept(m: Msr, size: nat) {
    m.encoding.Steim? ==> !EmptyBlock(m, size)
  }

  /** The samples of a record come back exactly when nothing is taken for an empty frame. */
  lemma DataBack(m: Msr, bs: seq<Byte>, before: nat, part: Part)
    requires PartIs(m, bs, before, part) && InRange(m) && NoNul(m.sid) && Size(m.data) < 0x8000_0000 && part.payload != []
    requires Framed(bs) && HeaderFields(bs).sid == m.sid && HeaderFields(bs).extra == m.extra && HeaderFields(bs).encoding == Code(m.encoding)
    requires HeaderFields(bs).samplecnt == part.count && HeaderFields(bs).datalength == |part.payload|
    ensures UnpackData(bs, HeaderFields(bs))
         == if Kept(m, |part.payload|) then Ok(Through(Take(Drop(m.data, before), part.count), m.encoding)) else Err(GenError)
  {
    hide Bytes.Number, Decode, HeaderFields, Through, TimeIs, CrcIsRight, FramesBegin, Tight, PackCount, TrimFrames, SampleTime, TimeOf, HeaderIs,
      EmptyBlock, Untrimmed, PayloadBytes;
    var h, d := HeaderOf(m, part.time), HeaderLength(m);
    RecordFramed(bs, h, part.count, part.payload);
    WholeString(m.sid);
    CodeBack(m.encoding);
    assert bs[d..d + |part.payload|] == part.payload;
    if m.encoding.Steim? {
      UntrimmedExactly(m, bs, part.time, part.count, part.payload);
      TrimmedDecodes(bs, d, |part.payload|, part.payload, Drop(m.data, before), part.count, m.encoding, false);
    }
  }

  lemma CodeBack(encoding: Encoding)
    ensures EncodingOf(Code(encoding)) == encoding
  {}

  /** The room for the payload of a record. */
  function Room(m: Msr): nat {
    if HeaderLength(m) <= m.reclen then m.reclen - HeaderLength(m) else 0
  }

  /** The header keeps all payloads. */
  ghost predicate HeaderKeeps(m: Msr) {
    forall size: nat | size <= Room(m) && size % 64 == 0 :: Kept(m, size)
  }

  /** Times that are read as such, and a header that keeps all payloads: all records come back. */
  ghost predicate Restorable(m: Msr) {
    InRange(m) && HeaderKeeps(m) && forall n: nat | n < Size(m.data) :: Readable(SampleTime(m.starttime, n, m.samprate))
  }

  /** How many bytes a Steim payload of the samples left after so many has. */
  ghost function PayloadSize(m: Msr, before: nat): nat {
    if m.encoding.Steim? && before <= Size(m.data) then PayloadBytes(Drop(m.data, before), Room(m), m.encoding.ver) else 0
  }

  /** The record that begins after so many samples comes back: its time is read as such and its payload kept. */
  ghost predicate ComesBack(m: Msr, before: nat) {
    Readable(SampleTime(m.starttime, before, m.samprate)) && Kept(m, PayloadSize(m, before))
  }

  /** The samples and the time of a record, unpacked. */
  ghost predicate Restored(m: Msr, u: Unpacked, before: nat, count: nat) {
    && before + count <= Size(m.data)
    && u.flags == m.flags && u.sid == m.sid && u.encoding == Code(m.encoding) && u.rate == m.rate
    && u.pubversion == m.pubversion && u.extra == m.extra && u.samplecnt == count
    && u.starttime == SampleTime(m.starttime, before, m.samprate)
    && u.data == Some(Through(Take(Drop(m.data, before), count), m.encoding))
  }

  lemma ClockByte(b: Byte, v: int, bound: Byte)
    requires b as int == v <= bound as int
    ensures b <= bound
  {}

  lemma HeaderValid(bs: seq<Byte>, h: Header)
    requires HeaderIs(bs, h) && Valid(h.time)
    ensures ValidHeader3(bs)
  {
    hide Bytes.Number;
    ClockByte(bs[12], h.time.hour, 23);
    ClockByte(bs[13], h.time.min, 59);
    ClockByte(bs[14], h.time.sec, 60);
  }

  lemma PayloadNotEmpty(bs: seq<Byte>, s: Samples, n: nat, encoding: Encoding)
    requires IsPayload(bs, s, n, encoding, false) && n > 0 && encoding != Unknown
    ensures bs != []
  {}

  /** A record that packing emits unpacks, with its CRC checked, to what was packed, exactly when it comes back. */
  lemma UnpacksBack(m: Msr, bs: seq<Byte>, before: nat, part: Part)
    requires ValidMsr(m) && InRange(m) && PartIs(m, bs, before, part)
    ensures Framed(bs) && (Unpack(bs, true, true).Ok? <==> ComesBack(m, before))
    ensures Unpack(bs, true, true).Ok? ==> Restored(m, Unpack(bs, true, true).value, before, part.count)
  {
    hide IsPayload, CrcIsRight, TimeIs, RestIs, NoNul, PackCount, SampleTime, TimeOf, HeaderFields, UnpackData, ValidHeader3, Bytes.Number, Valid, Readable, Kept, PayloadSize;
    var h := HeaderOf(m, part.time);
    RecordFramed(bs, h, part.count, part.payload);
    assert Int64(SampleTime(m.starttime, before, m.samprate));
    YearOfTime(part.time);
    HeaderBack(bs, h, part.count, part.payload, SampleTime(m.starttime, before, m.samprate));
    PayloadNotEmpty(part.payload, Drop(m.data, before), part.count, m.encoding);
    HeaderValid(bs, h);
    SizeOf(m, bs, before, part);
    DataBack(m, bs, before, part);
    CrcOfRecord(bs);
    SidLength(bs, h);
    if Readable(SampleTime(m.starttime, before, m.samprate)) {
      ReadableIsNoError(SampleTime(m.starttime, before, m.samprate));
    }
  }

  lemma SizeOf(m: Msr, bs: seq<Byte>, before: nat, part: Part)
    requires InRange(m) && PartIs(m, bs, before, part)
    ensures Kept(m, PayloadSize(m, before)) <==> Kept(m, |part.payload|)
  {
    hide IsRecord, IsPayload, PackCount, SampleTime, TimeOf, PayloadBytes, EmptyBlock;
  }

  lemma ReadableIsNoError(time: int)
    requires Readable(time)
    ensures time != NSTERROR
  {}

  /** Times that are read and a header that keeps all payloads are enough, */
  lemma RestorableComesBack(m: Msr, before: nat)
    requires Restorable(m) && before < Size(m.data)
    ensures ComesBack(m, before)
  {
    hide SampleTime, Readable, EmptyBlock, Differences, Kept;
    if m.encoding.Steim? {
      SizeInRoom(Drop(m.data, before), Room(m), m.encoding.ver);
    } else {
      NoFrames(m);
    }
  }

  lemma NoFrames(m: Msr)
    requires !m.encoding.Steim?
    ensures Kept(m, 0)
  {}

  lemma SizeInRoom(s: Samples, room: nat, ver: Version)
    ensures PayloadBytes(s, room, ver) <= room && PayloadBytes(s, room, ver) % 64 == 0
  {
    hide FramesUsed, Differences;
    if s.Ints? {
      UsedAtMost(ver, Differences(s.xs, 0), room / 64);
    }
  }

  lemma {:induction false} UsedAtMost(ver: Version, ds: seq<bv32>, maxframes: nat)
    ensures FramesUsed(ver, ds, maxframes) <= maxframes
  {
    hide Reach, DataSlots;
    if maxframes > 0 {
      UsedAtMost(ver, ds, maxframes - 1);
    }
  }

  /** and a header keeps all payloads when its extra headers hold no NUL. */
  lemma NothingToTrim(m: Msr)
    requires NoNul(m.sid) && NoNul(m.extra)
    ensures HeaderKeeps(m)
  {
    forall size: nat | size <= Room(m) && size % 64 == 0 ensures Kept(m, size) {
      if 128 <= size <= HeaderLength(m) {
        assert Names(m)[size - 1 - HEADER_LENGTH] != 0;
      }
    }
  }

  lemma FirstOf1902()
    ensures TimeOf(Fields(1902, 1, 0, 0, 0, 0)) == NSTERROR && Valid(Fields(1902, 1, 0, 0, 0, 0))
  {
    Calendar.DayOfClosed(1902);
    hide Calendar.DayOf;
  }

  /** The time that stands for an error is one a record can have, the first second of 1902.  Such a record is refused. */
  lemma ErrorTime(m: Msr, bs: seq<Byte>, part: Part)
    requires ValidMsr(m) && InRange(m) && PartIs(m, bs, 0, part) && m.starttime == NSTERROR
    ensures Framed(bs) && Unpack(bs, true, true).Err? && part.time == Fields(1902, 1, 0, 0, 0, 0)
  {
    hide Unpack, ValidMsr, InRange, Framed, Kept, IsRecord, IsPayload, PackCount, Valid, TimeOf, Calendar.DayOf;
    UnpacksBack(m, bs, 0, part);
    FirstOf1902();
    TimeInjective(part.time, Fields(1902, 1, 0, 0, 0, 0));
  }

  lemma CrcOfRecord(bs: seq<Byte>)
    requires CrcIsRight(bs)
    ensures |bs| >= HEADER_LENGTH && Bytes.Number(bs, 28, 4) == AsNumber(Crc32c.Crc(WithoutCrc(bs), 0))
  {}

  lemma SidLength(bs: seq<Byte>, h: Header)
    requires RestIs(bs, h)
    ensures |bs| > 33 && bs[33] as int == |h.sid|
  {}

  // ------------------------------------------------------------------------ conservation

  function Append(s: Samples, t: Samples): Samples {
    match (s, t)
    case (Chars(a), Chars(b)) => Chars(a + b)
    case (Ints(a), Ints(b)) => Ints(a + b)
    case (Floats(a), Floats(b)) => Floats(a + b)
    case (Doubles(a), Doubles(b)) => Doubles(a + b)
    case _ => s
  }

  /** All samples of some records, unpacked one after the other. */
  function Gather(records: seq<seq<Byte>>, none: Samples): Option<Samples> {
    if records == [] then Some(none)
    else
      var last := records[|records| - 1];
      match Gather(records[..|records| - 1], none)
      case None => None
      case Some(s) =>
        if !Framed(last) then None
        else
          var u := Unpack(last, true, true);
          if u.Ok? && u.value.data.Some? then Some(Append(s, u.value.data.value)) else None
  }

  lemma TakeMore(s: Samples, n: nat, k: nat, encoding: Encoding)
    requires n + k <= Size(s)
    ensures Append(Through(Take(s, n), encoding), Through(Take(Drop(s, n), k), encoding)) == Through(Take(s, n + k), encoding)
  {
    hide Through16;
    match s
    case Chars(cs) => assert cs[..n] + cs[n..][..k] == cs[..n + k];
    case Floats(fs) => assert fs[..n] + fs[n..][..k] == fs[..n + k];
    case Doubles(ds) => assert ds[..n] + ds[n..][..k] == ds[..n + k];
    case Ints(xs) =>
      assert xs[..n] + xs[n..][..k] == xs[..n + k];
      assert Each16(xs[..n]) + Each16(xs[n..][..k]) == Each16(xs[..n + k]);
  }

  /** All records come back. */
  ghost predicate AllComeBack(m: Msr, parts: seq<Part>) {
    forall i | 0 <= i < |parts| :: ComesBack(m, Sum(parts[..i]))
  }

  lemma AllButLast(m: Msr, parts: seq<Part>)
    requires |parts| > 0
    ensures var n := |parts| - 1;
            AllComeBack(m, parts) <==> AllComeBack(m, parts[..n]) && ComesBack(m, Sum(parts[..n]))
  {
    hide ComesBack;
    var n := |parts| - 1;
    forall i | 0 <= i < n ensures parts[..n][..i] == parts[..i] {}
    if AllComeBack(m, parts[..n]) {
      forall i | 0 <= i < n ensures ComesBack(m, Sum(parts[..i])) {
        assert ComesBack(m, Sum(parts[..n][..i]));
      }
    }
    if AllComeBack(m, parts) {
      forall i | 0 <= i < n ensures ComesBack(m, Sum(parts[..n][..i])) {
        assert ComesBack(m, Sum(parts[..i]));
      }
    }
  }

  /** The records that packing emits hold the samples packed, each once and in order, exactly when all of them come back. */
  lemma {:induction false} Conserves(m: Msr, records: seq<seq<Byte>>, parts: seq<Part>)
    requires ValidMsr(m) && InRange(m) && Emitted(m, records, parts)
    ensures Sum(parts) <= Size(m.data) && |records| == |parts|
    ensures Gather(records, Take(m.data, 0))
         == if AllComeBack(m, parts) then Some(Through(Take(m.data, Sum(parts)), m.encoding)) else None
    decreases |records|
  {
    hide ValidMsr, InRange, PartIs, Through, Take, Drop, Append, Unpack, Framed, AllComeBack, ComesBack;
    Lengths(m, records, parts);
    if records == [] {
      NothingThrough(m.data, m.encoding);
      assert AllComeBack(m, parts) by { NothingLost(m); }
    } else {
      AllButLast(m, parts);
      var n := |records| - 1;
      EmittedLess(m, records, parts);
      Conserves(m, records[..n], parts[..n]);
      UnpacksBack(m, records[n], Sum(parts[..n]), parts[n]);
      PartInData(m, records[n], Sum(parts[..n]), parts[n]);
      TakeMore(m.data, Sum(parts[..n]), parts[n].count, m.encoding);
    }
  }

  lemma Lengths(m: Msr, records: seq<seq<Byte>>, parts: seq<Part>)
    requires Emitted(m, records, parts)
    ensures |records| == |parts|
  {}

  lemma NothingLost(m: Msr)
    ensures AllComeBack(m, [])
  {}

  lemma EmittedLess(m: Msr, records: seq<seq<Byte>>, parts: seq<Part>)
    requires Emitted(m, records, parts) && |records| > 0
    ensures var n := |records| - 1; Emitted(m, records[..n], parts[..n]) && PartIs(m, records[n], Sum(parts[..n]), parts[n])
  {
    hide PartIs;
    var n := |records| - 1;
    forall i | 0 <= i < n ensures PartIs(m, records[..n][i], Sum(parts[..n][..i]), parts[..n][i]) {
      assert parts[..n][..i] == parts[..i];
    }
  }

  lemma NothingThrough(s: Samples, encoding: Encoding)
    ensures Through(Take(s, 0), encoding) == Take(s, 0)
  {
    hide Through16;
    if s.Ints? {
      assert Each16(s.xs[..0]) == s.xs[..0];
    }
  }

  lemma PartInData(m: Msr, bs: seq<Byte>, before: nat, part: Part)
    requires PartIs(m, bs, before, part)
    ensures 0 < part.count && before + part.count <= Size(m.data)
  {
    hide IsRecord, IsPayload, PackCount, SampleTime, TimeOf;
  }

  /**
   * Packing with a flush and unpacking every record conserves the samples, exactly when all
   * records come back.
   */
  method PackAndUnpack(m: Msr, address: nat) returns (recordcnt: int, samples: Option<Samples>, ghost records: seq<seq<Byte>>, ghost parts: seq<Part>)
    requires ValidMsr(m) && Size(m.data) > 0 && InRange(m)
    ensures Emitted(m, records, parts) && |records| == |parts| && (recordcnt == -1 || recordcnt == |records|)
    ensures recordcnt >= 0 ==> Sum(parts) == Size(m.data)
    ensures recordcnt == -1 && MINRECLEN <= m.reclen && HeaderLength(m) <= m.reclen ==>
              Sum(parts) <= Size(m.data) && PackCount(Drop(m.data, Sum(parts)), m.reclen - HeaderLength(m), m.encoding) == -1
    ensures recordcnt >= 0 ==> samples == if AllComeBack(m, parts) then Some(Through(m.data, m.encoding)) else None
    ensures recordcnt >= 0 && Restorable(m) ==> samples == Some(Through(m.data, m.encoding))
  {
    hide ValidMsr, Restorable, Emitted, PackCount, MaxSamples, Full, Through, Gather, AllComeBack;
    var packed, rs;
    recordcnt, packed, rs, parts := PackMseed3(m, true, address);
    records := rs;
    Lengths(m, records, parts);
    samples := None;
    if recordcnt >= 0 {
      Conserves(m, records, parts);
      samples := Gather(rs, Take(m.data, 0));
      TakeAll(m.data);
      if Restorable(m) {
        AllRestorable(m, records, parts);
      }
    }
  }

  lemma AllRestorable(m: Msr, records: seq<seq<Byte>>, parts: seq<Part>)
    requires ValidMsr(m) && Restorable(m) && Emitted(m, records, parts)
    ensures |records| == |parts| && AllComeBack(m, parts)
  {
    hide ValidMsr, Restorable, PartIs, ComesBack;
    forall i | 0 <= i < |parts| ensures ComesBack(m, Sum(parts[..i])) {
      PartInData(m, records[i], Sum(parts[..i]), parts[i]);
      RestorableComesBack(m, Sum(parts[..i]));
    }
  }

  /**
   * And with every header that does not keep all payloads there are series that are packed into
   * records and do not come back: constant ones that are just long enough.
   */
  method LosesConstantSeries3(m: Msr, used: nat, address: nat) returns (recordcnt: int, samples: Option<Samples>)
    requires ValidMsr(m) && InRange(m) && MINRECLEN <= m.reclen && m.encoding.Steim?
    requires EmptyBlock(m, used) && used % 64 == 0 && used <= Room(m) && m.data == Ints(Zeros(JustEnough(m.encoding.ver, used / 64)))
    ensures recordcnt >= 1 && samples == None
  {
    hide ValidMsr, Emitted, PackCount, Through, PayloadBytes, Zeros, AllComeBack, EmptyBlock;
    ghost var records, parts;
    recordcnt, samples, records, parts := PackAndUnpack(m, address);
    EmptyIsLong(m, used);
    TakesFrames(m.encoding.ver, used / 64, Room(m));
    if recordcnt < 0 {
      ZerosPack(m.encoding.ver, JustEnough(m.encoding.ver, used / 64), Sum(parts), Room(m));
    } else {
      FirstLost(m, used, parts);
    }
  }

  lemma EmptyIsLong(m: Msr, used: nat)
    requires EmptyBlock(m, used)
    ensures used >= 128
  {}

  lemma FirstLost(m: Msr, used: nat, parts: seq<Part>)
    requires m.encoding.Steim? && EmptyBlock(m, used) && |parts| > 0 && used == PayloadBytes(m.data, Room(m), m.encoding.ver)
    ensures !AllComeBack(m, parts)
  {
    hide PayloadBytes, EmptyBlock, Readable;
    assert parts[..0] == [];
    assert Drop(m.data, 0) == m.data;
    assert !ComesBack(m, Sum(parts[..0]));
  }

  /** Such are headers with 127 NULs of extra headers and more in a row. */
  lemma LongGap(m: Msr, used: nat)
    requires m.extra == seq(|m.extra|, i => 0) && |m.extra| >= 127
    requires used == (HEADER_LENGTH + |m.sid| + 127) / 64 * 64
    ensures EmptyBlock(m, used)
  {
    forall j | 0 <= j < |Names(m)| && used - 64 <= HEADER_LENGTH + j < used ensures Names(m)[j] == 0 {
      assert Names(m)[j] == m.extra[j - |m.sid|];
    }
  }

  lemma TakeAll(s: Samples)
    ensures Take(s, Size(s)) == s
  {}

  /** What comes through an encoding is what went in, except for integers that do not fit 16 bits. */
  lemma LosslessExactlyWhen(s: Samples, encoding: Encoding)
    ensures Through(s, encoding) == s <==> encoding == Int16 && s.Ints? ==> forall i | 0 <= i < |s.xs| :: Is16(s.xs[i])
  {
    hide Through16, Is16;
    if s.Ints? && encoding == Int16 {
      forall i | 0 <= i < |s.xs| ensures Each16(s.xs)[i] == s.xs[i] <==> Is16(s.xs[i]) {
        Survives16(s.xs[i]);
      }
      if forall i | 0 <= i < |s.xs| :: Is16(s.xs[i]) {
        assert Each16(s.xs) == s.xs;
      }
    }
  }
}
