/** Records written one after the other are read back one after the other. */
module RecordStream {
  import opened Wrappers
  import opened Bytes
  import opened SampleTimes
  import opened NsTime
  import opened PackData
  import opened Record3
  import opened PackLoop
  import opened Pack3
  import opened Unpack3
  import opened Detect
  import opened Framing
  import opened Reader
  import opened RecordRoundTrip

  /** All data and CRCs of all records, and no byte is skipped. */
  predicate Everything(o: Options) {
    o.unpackData && o.validateCrc && o.select.None? && !o.skipNotData
  }

  /** What is made of a record that begins at p. */
  function Made(record: seq<Byte>, p: nat): Outcome
    requires Framed(record)
  {
    match Unpack(record, true, true)
    case Ok(u) => Record(u, p, p + |record|)
    case Err(e) => Stopped(e)
  }

  /** Detection finds the record that begins here, */
  lemma ParsesWhole(bs: seq<Byte>, record: seq<Byte>, o: Options)
    requires Everything(o) && MINRECLEN <= |record| <= |bs| && |record| <= MAXRECLEN && bs[..|record|] == record
    requires Framed(record) && ValidHeader3(record)
    ensures Version3(bs)
    ensures Parse(bs, o) == match Unpack(record, true, true) case Ok(u) => Parsed(u, |record|) case Err(e) => Failed(e)
  {
    hide Length3, Sum3, Framed, ValidHeader2, ValidHeader3, Unpack, Detected;
    assert forall k | 0 <= k < MINRECLEN :: record[k] == bs[..|record|][k] == bs[k];
    SameHeader(record, bs);
    FramedSum(record);
    Length3Is(bs);
    Detects3(bs);
  }

  /** and what unpacking makes of it is returned. */
  lemma LooksUp(bs: seq<Byte>, record: seq<Byte>, p: nat, o: Options)
    requires Everything(o) && MINRECLEN <= |record| <= |bs| && |record| <= MAXRECLEN && bs[..|record|] == record
    requires Framed(record) && ValidHeader3(record)
    ensures Version3(bs) && LookAt(bs, p, o) == Look.Found(Made(record, p))
  {
    hide Framed, ValidHeader3, Unpack, Version3, Parse;
    ParsesWhole(bs, record, o);
  }

  lemma FramedSum(bs: seq<Byte>)
    requires Framed(bs)
    ensures Sum3(bs) == |bs|
  {
    hide Bytes.Number;
  }

  /** A record that packing emits, as the reader needs it. */
  lemma EmittedUnpacks(m: Msr, records: seq<seq<Byte>>, parts: seq<Part>, i: nat)
    requires ValidMsr(m) && InRange(m) && Emitted(m, records, parts) && i < |records|
    ensures var r := records[i]; MINRECLEN <= |r| <= MAXRECLEN && Framed(r) && ValidHeader3(r)
    ensures var r := Unpack(records[i], true, true);
            && (r.Ok? <==> ComesBack(m, Sum(parts[..i])))
            && (r.Ok? ==> Restored(m, r.value, Sum(parts[..i]), parts[i].count))
  {
    hide IsPayload, CrcIsRight, TimeIs, RestIs, PackCount, SampleTime, TimeOf, Unpack, Restored, ValidMsr, Framed, Valid, ComesBack, ValidHeader3;
    assert PartIs(m, records[i], Sum(parts[..i]), parts[i]);
    UnpacksBack(m, records[i], Sum(parts[..i]), parts[i]);
    RecordFramed(records[i], HeaderOf(m, parts[i].time), parts[i].count, parts[i].payload);
    HeaderValid(records[i], HeaderOf(m, parts[i].time));
  }

  /** What the reader makes of a record. */
  function ReadOf(records: seq<seq<Byte>>, i: nat): Outcome
    requires i < |records|
  {
    if Framed(records[i]) then Made(records[i], Offset(records, i)) else EndOfFile
  }

  lemma LookIsRecord(m: Msr, records: seq<seq<Byte>>, parts: seq<Part>, i: nat, o: Options)
    requires ValidMsr(m) && InRange(m) && Emitted(m, records, parts) && i < |records| && Everything(o)
    ensures Offset(records, i) + MINRECLEN <= Offset(records, i + 1) <= |Flat(records)|
    ensures ReadOf(records, i).Record? ==> ReadOf(records, i).next == Offset(records, i + 1)
    ensures ReadOf(records, i).Record? || ReadOf(records, i).Stopped?
    ensures var rest := From(Flat(records), Offset(records, i));
            |rest| >= MINRECLEN && Version3(rest) && LookAt(rest, Offset(records, i), o) == Look.Found(ReadOf(records, i))
  {
    hide ValidMsr, InRange, Emitted, Unpack, LookAt, Version3, Framed, Restored;
    EmittedUnpacks(m, records, parts, i);
    RecordAt(records, i);
    LooksUp(Flat(records)[Offset(records, i)..], records[i], Offset(records, i), o);
  }

  /** Reading at a record's boundary returns what that record unpacks to, and goes on at the next boundary. */
  lemma NextIsRecord(m: Msr, records: seq<seq<Byte>>, parts: seq<Part>, i: nat, count: nat, o: Options)
    requires ValidMsr(m) && InRange(m) && Emitted(m, records, parts) && i < |records| && Everything(o)
    ensures Offset(records, i) < Offset(records, i + 1) <= |Flat(records)|
    ensures Next(Flat(records), Offset(records, i), count, o) == ReadOf(records, i)
    ensures ReadOf(records, i).Record? ==> ReadOf(records, i).next == Offset(records, i + 1)
    ensures ReadOf(records, i).Record? || ReadOf(records, i).Stopped?
  {
    hide ValidMsr, InRange, Emitted, Unpack, LookAt, Version3, Framed, Restored;
    LookIsRecord(m, records, parts, i, o);
  }

  lemma {:induction false} EmittedIsClean(m: Msr, records: seq<seq<Byte>>, parts: seq<Part>, i: nat, o: Options)
    requires ValidMsr(m) && InRange(m) && Emitted(m, records, parts) && i <= |records| && Everything(o)
    ensures Offset(records, i) <= |Flat(records)| && Clean(Flat(records), Offset(records, i), o)
    decreases |records| - i
  {
    hide ValidMsr, InRange, Emitted, Unpack, LookAt, Version3, Framed, Restored;
    if i < |records| {
      LookIsRecord(m, records, parts, i, o);
      EmittedIsClean(m, records, parts, i + 1, o);
    } else {
      assert records[..i] == records;
    }
  }

  /** After the last record comes the end. */
  lemma NextIsEnd(records: seq<seq<Byte>>, count: nat, o: Options)
    requires count > 0
    ensures Offset(records, |records|) == |Flat(records)| && Next(Flat(records), |Flat(records)|, count, o) == EndOfFile
  {
    assert records[..|records|] == records;
  }

  /** The record read is the next part of the samples. */
  lemma GatherOne(m: Msr, records: seq<seq<Byte>>, parts: seq<Part>, i: nat)
    requires ValidMsr(m) && InRange(m) && Emitted(m, records, parts) && i < |records| == |parts|
    ensures Sum(parts[..i + 1]) <= Size(m.data) && (ReadOf(records, i).Record? <==> ComesBack(m, Sum(parts[..i])))
    ensures ReadOf(records, i).Record? ==>
              && ReadOf(records, i).u.data.Some?
              && Append(Through(PackData.Take(m.data, Sum(parts[..i])), m.encoding), ReadOf(records, i).u.data.value)
                 == Through(PackData.Take(m.data, Sum(parts[..i + 1])), m.encoding)
  {
    hide ValidMsr, InRange, Emitted, Unpack, Framed, Through, PackData.Take, Drop, Append, ComesBack, Offset, ValidHeader3, Restored, PartIs;
    EmittedUnpacks(m, records, parts, i);
    PartOf(m, records, parts, i);
    PartInData(m, records[i], Sum(parts[..i]), parts[i]);
    assert parts[..i + 1][..i] == parts[..i];
    if ReadOf(records, i).Record? {
      AppendsNext(m, ReadOf(records, i).u, Sum(parts[..i]), parts[i].count);
    }
  }

  lemma AppendsNext(m: Msr, u: Unpacked, before: nat, count: nat)
    requires Restored(m, u, before, count)
    ensures before + count <= Size(m.data) && u.data.Some?
    ensures Append(Through(PackData.Take(m.data, before), m.encoding), u.data.value) == Through(PackData.Take(m.data, before + count), m.encoding)
  {
    hide Through, Append;
    TakeMore(m.data, before, count, m.encoding);
  }

  lemma PartOf(m: Msr, records: seq<seq<Byte>>, parts: seq<Part>, i: nat)
    requires Emitted(m, records, parts) && i < |records|
    ensures |records| == |parts| && PartIs(m, records[i], Sum(parts[..i]), parts[i])
  {
    hide PartIs;
  }

  /** Some records have been read, all of which come back. */
  ghost predicate ReadSoFar(m: Msr, parts: seq<Part>, i: nat)
    requires i <= |parts|
  {
    forall k | 0 <= k < i :: ComesBack(m, Sum(parts[..k]))
  }

  lemma ReadOneMore(m: Msr, parts: seq<Part>, i: nat)
    requires i < |parts| && ReadSoFar(m, parts, i)
    ensures ComesBack(m, Sum(parts[..i])) ==> ReadSoFar(m, parts, i + 1)
    ensures !ComesBack(m, Sum(parts[..i])) ==> !AllComeBack(m, parts)
  {
    hide ComesBack;
  }

  lemma NothingRead(m: Msr, parts: seq<Part>)
    ensures ReadSoFar(m, parts, 0) && (ReadSoFar(m, parts, |parts|) <==> AllComeBack(m, parts))
  {
    hide ComesBack;
  }

  /** Read all records of a stream up to its end; None if a record is refused. */
  method ReadBack(m: Msr, address: nat, msfp: MS3FileParam, ghost records: seq<seq<Byte>>, ghost parts: seq<Part>)
      returns (samples: Option<Samples>)
    requires ValidMsr(m) && InRange(m) && Emitted(m, records, parts) && |records| > 0
    requires msfp.Valid() && msfp.input.stream == Flat(records) && msfp.streampos == 0 && msfp.recordcount == 0
    modifies msfp, msfp.readbuffer, msfp.input
    ensures Sum(parts) <= Size(m.data) && |records| == |parts|
    ensures samples == if AllComeBack(m, parts) then Some(Through(PackData.Take(m.data, Sum(parts)), m.encoding)) else None
  {
    hide ValidMsr, InRange, Emitted, Through, PackData.Take, Clean, LookAt, Next, Unpack, Framed, ReadOf, Offset, Append, MS3FileParam.Valid, ComesBack, AllComeBack, ReadSoFar, Sum;
    var o := Options(true, true, false, None);
    Conserves(m, records, parts);
    NothingRead(m, parts);
    var read := PackData.Take(m.data, 0);
    ghost var i := 0;
    AtStart(m, records, parts);
    EmittedIsClean(m, records, parts, 0, o);
    samples := None;
    var done := false;
    while !done
      invariant msfp.Valid() && 0 <= i <= |records| && Sum(parts[..i]) <= Size(m.data) && ReadSoFar(m, parts, i)
      invariant read == Through(PackData.Take(m.data, Sum(parts[..i])), m.encoding)
      invariant !done ==> msfp.recordcount == i && msfp.streampos == Offset(records, i) <= |Flat(records)| && Clean(Flat(records), msfp.streampos, o)
      invariant samples == if done && i == |records| then Some(read) else None
      invariant done && i < |records| ==> !AllComeBack(m, parts)
      decreases !done, |records| - i
    {
      if i < |records| {
        NextIsRecord(m, records, parts, i, i, o);
        GatherOne(m, records, parts, i);
        ReadOneMore(m, parts, i);
      } else {
        NextIsEnd(records, i, o);
      }
      var x := msfp.ReadRecord(o, address);
      match x
      case Record(u, _, _) =>
        read := Append(read, u.data.value);
        i := i + 1;
      case EndOfFile => done, samples := true, Some(read);
      case Stopped(_) => done := true;
    }
    assert parts[..|parts|] == parts;
  }

  lemma AtStart(m: Msr, records: seq<seq<Byte>>, parts: seq<Part>)
    ensures Offset(records, 0) == 0 && Sum(parts[..0]) == 0
    ensures PackData.Take(m.data, 0) == Through(PackData.Take(m.data, 0), m.encoding)
  {
    NothingThrough(m.data, m.encoding);
    assert records[..0] == [] && parts[..0] == [];
  }

  /**
   * Pack samples into records, write these to a stream and read the stream in whatever pieces it
   * arrives, checking CRCs: the samples come back exactly when all records do, and always when
   * their times are read as such and the extra headers hold no NUL.
   */
  method PackAndRead(m: Msr, address: nat) returns (recordcnt: int, samples: Option<Samples>, ghost records: seq<seq<Byte>>, ghost parts: seq<Part>)
    requires ValidMsr(m) && Size(m.data) > 0 && InRange(m)
    ensures Emitted(m, records, parts) && |records| == |parts|
    ensures recordcnt >= 0 ==> samples == if AllComeBack(m, parts) then Some(Through(m.data, m.encoding)) else None
    ensures recordcnt >= 0 && Restorable(m) ==> samples == Some(Through(m.data, m.encoding))
  {
    hide ValidMsr, InRange, Emitted, PackCount, MaxSamples, Through, PackData.Take, Restorable, AllComeBack;
    var packed, rs;
    recordcnt, packed, rs, parts := PackMseed3(m, true, address);
    records, samples := rs, None;
    Lengths(m, records, parts);
    if recordcnt >= 0 {
      var input := new Input(Flat(rs));
      var msfp := new MS3FileParam(input);
      samples := ReadBack(m, address, msfp, records, parts);
      TakeAll(m.data);
      if Restorable(m) {
        AllRestorable(m, records, parts);
      }
    }
  }
}
