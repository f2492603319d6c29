/** Packing data samples into miniSEED version 3 records. */
module Pack3 {
  import opened Bytes
  import opened SampleTimes
  import opened NsTime
  import opened PackData
  import opened Record3
  import opened PackLoop
  import Crc32c

  /** The parts of an MS3Record that packing uses; the sample rate comes with the 8 bytes of its field. */
  datatype Msr = Msr(reclen: int, sid: seq<Byte>, flags: Byte, starttime: int, samprate: real, rate: seq<Byte>,
                     encoding: Encoding, pubversion: Byte, extra: seq<Byte>, data: Samples)

  /** What the types of the fields guarantee, and times of all samples that fit 64 bits. */
  ghost predicate ValidMsr(m: Msr) {
    && |m.sid| < 64 && NoNul(m.sid) && |m.extra| < 0x1_0000 && |m.rate| == 8 && Size(m.data) < 0x8000_0000
    && forall n: nat | n <= Size(m.data) :: Int64(SampleTime(m.starttime, n, m.samprate))
  }

  function HeaderOf(m: Msr, time: Fields): Header {
    Header(m.flags, time, Code(m.encoding), m.rate, m.pubversion, m.sid, m.extra)
  }

  function HeaderLength(m: Msr): nat {
    HEADER_LENGTH + |m.sid| + |m.extra|
  }

  /** Store a start time. */
  method PutTime(rawrec: array<Byte>, t: Fields)
    requires rawrec.Length >= HEADER_LENGTH && Valid(t) && 0 <= t.year < 0x1_0000
    modifies rawrec
    ensures TimeIs(rawrec[..], t) && Same(rawrec[..], old(rawrec[..]), 0, 4) && Same(rawrec[..], old(rawrec[..]), 15, rawrec.Length)
  {
    hide Bytes.Number, AsByte;
    Powers();
    Put(rawrec, 4, t.nsec, 4);
    ghost var s1 := rawrec[..];
    Put(rawrec, 8, t.year, 2);
    ghost var s2 := rawrec[..];
    Put(rawrec, 10, t.yday, 2);
    ghost var s3 := rawrec[..];
    rawrec[12], rawrec[13], rawrec[14] := AsByte(t.hour), AsByte(t.min), AsByte(t.sec);
    NumberSame(s1, rawrec[..], 4, 4);
    NumberSame(s2, rawrec[..], 8, 2);
    NumberSame(s3, rawrec[..], 10, 2);
  }

  lemma Powers()
    ensures Power(2) == 0x1_0000 && Power(4) == 0x1_0000_0000
  {
    assert Power(1) == 256 && Power(3) == 0x100_0000;
  }

  /** Store the CRC of the first reclen bytes. */
  method Seal(rawrec: array<Byte>, reclen: nat, address: nat)
    requires HEADER_LENGTH <= reclen <= rawrec.Length
    modifies rawrec
    ensures CrcIsRight(rawrec[..reclen])
    ensures Same(rawrec[..], old(rawrec[..]), 0, 28) && Same(rawrec[..], old(rawrec[..]), 32, rawrec.Length)
  {
    hide Bytes.Number, Crc32c.Crc, AsNumber, WithoutCrc;
    Powers();
    ghost var was := rawrec[..reclen];
    ZeroCrc(rawrec, 0, reclen);
    assert rawrec[0..reclen] == rawrec[..reclen];
    ghost var zeroed := rawrec[..reclen];
    var crc := CrcOf(rawrec[..reclen], address);
    Put(rawrec, 28, AsNumber(crc), 4);
    SameWithoutCrc(was, rawrec[..reclen]);
    NumberSame(rawrec[..], rawrec[..reclen], 28, 4);
  }

  /** msr3_pack_header3: the offset of the data, or -1 for an error. */
  method PackHeader3(m: Msr, record: array<Byte>) returns (dataoffset: int, ghost time: Fields)
    requires ValidMsr(m) && record.Length == m.reclen
    modifies record
    ensures dataoffset == if m.reclen < MINRECLEN || m.reclen > MAXRECLEN || m.reclen < HeaderLength(m) then -1 else HeaderLength(m)
    ensures dataoffset >= 0 ==> Valid(time) && TimeOf(time) == m.starttime && HeaderIs(record[..], HeaderOf(m, time))
  {
    hide Bytes.Number, TimeOf, SampleTime, TimeIs, AsByte, Code;
    time := Fields(0, 0, 0, 0, 0, 0);
    if m.reclen < MINRECLEN || m.reclen > MAXRECLEN {
      return -1, time;
    }
    if m.reclen < HeaderLength(m) {
      return -1, time;
    }
    StartIs64(m);
    var t := NstimeToTime(m.starttime);
    time := t.value;
    PutTime(record, t.value);
    ghost var s1 := record[..];
    PutFixed(m, record);
    ghost var s2 := record[..];
    PutNames(m, record);
    FixedKept(m, s2, record[..]);
    TimeKept(s1, record[..], time);
    dataoffset := HeaderLength(m);
  }

  /** The values of fixed places other than the time. */
  ghost predicate FixedIs(m: Msr, bs: seq<Byte>) {
    && |bs| >= HEADER_LENGTH
    && bs[0] == 'M' as Byte && bs[1] == 'S' as Byte && bs[2] == 3 && bs[3] == m.flags
    && bs[15] == Code(m.encoding) && bs[16..24] == m.rate && bs[32] == m.pubversion
    && bs[33] as int == |m.sid| && Bytes.Number(bs, 34, 2) == |m.extra|
  }

  lemma FixedKept(m: Msr, bs: seq<Byte>, cs: seq<Byte>)
    requires FixedIs(m, bs) && Same(bs, cs, 0, 40)
    ensures FixedIs(m, cs)
  {
    hide Bytes.Number, Code;
    NumberSame(bs, cs, 34, 2);
    assert cs[16..24] == bs[16..24];
  }

  method PutFixed(m: Msr, record: array<Byte>)
    requires |m.sid| < 64 && |m.extra| < 0x1_0000 && |m.rate| == 8 && record.Length >= HEADER_LENGTH
    modifies record
    ensures FixedIs(m, record[..]) && Same(record[..], old(record[..]), 4, 15)
  {
    hide Bytes.Number, AsByte, Code;
    Powers();
    record[0], record[1], record[2], record[3] := 'M' as Byte, 'S' as Byte, 3, m.flags;
    record[15] := Code(m.encoding);
    Copy(record, 16, m.rate);
    ghost var s := record[..];
    record[32], record[33] := m.pubversion, AsByte(|m.sid|);
    Put(record, 34, |m.extra|, 2);
    assert record[16..24] == s[16..24];
  }

  method PutNames(m: Msr, record: array<Byte>)
    requires HeaderLength(m) <= record.Length
    modifies record
    ensures record[40..40 + |m.sid|] == m.sid && record[40 + |m.sid|..HeaderLength(m)] == m.extra
    ensures Same(record[..], old(record[..]), 0, 40)
  {
    Copy(record, 40, m.sid);
    ghost var s := record[..];
    Copy(record, 40 + |m.sid|, m.extra);
    assert record[40..40 + |m.sid|] == s[40..40 + |m.sid|];
  }

  lemma StartIs64(m: Msr)
    requires ValidMsr(m)
    ensures Int64(m.starttime)
  {
    assert Int64(SampleTime(m.starttime, 0, m.samprate));
  }

  lemma HeaderKept(bs: seq<Byte>, cs: seq<Byte>, h: Header)
    requires HeaderIs(bs, h) && Same(bs, cs, 0, 24) && Same(bs, cs, 32, 36) && Same(bs, cs, 40, DataOffset(h))
    requires |cs| >= DataOffset(h)
    ensures HeaderIs(cs, h)
  {
    hide Bytes.Number;
    RestKept(bs, cs, h);
    TimeKept(bs, cs, h.time);
  }

  /** Copy the encoded data into the record, and set its counts and CRC. */
  method FinishRecord(rawrec: array<Byte>, dataoffset: nat, packsamples: nat, encoded: seq<Byte>, address: nat, ghost h: Header)
      returns (rec: seq<Byte>)
    requires HeaderIs(rawrec[..], h) && dataoffset == DataOffset(h) && dataoffset + |encoded| <= rawrec.Length
    requires packsamples < 0x8000_0000 && |encoded| < 0x1_0000
    modifies rawrec
    ensures HeaderIs(rawrec[..], h) && IsRecord(rec, h, packsamples, encoded)
  {
    hide Bytes.Number, HeaderIs, CrcIsRight;
    Powers();
    ghost var was := rawrec[..];
    Copy(rawrec, dataoffset, encoded);
    Put(rawrec, 24, packsamples, 4);
    ghost var s1 := rawrec[..];
    Put(rawrec, 36, |encoded|, 4);
    ghost var s2 := rawrec[..];
    var reclen := dataoffset + |encoded|;
    Seal(rawrec, reclen, address);
    rec := rawrec[..reclen];
    HeaderKept(was, rawrec[..], h);
    HeaderKept(was, rec, h);
    NumberSame(s1, rec, 24, 4);
    NumberSame(s2, rec, 36, 4);
    assert rec[dataoffset..] == encoded;
  }

  // --------------------------------------------------------------------- the record loop

  /** The record of a part that begins after so many samples. */
  ghost predicate PartIs(m: Msr, bs: seq<Byte>, before: nat, part: Part) {
    && Valid(part.time) && TimeOf(part.time) == SampleTime(m.starttime, before, m.samprate)
    && IsRecord(bs, HeaderOf(m, part.time), part.count, part.payload)
    && 0 < part.count && before + part.count <= Size(m.data)
    && |part.payload| < 0x1_0000 && HeaderLength(m) + |part.payload| <= m.reclen
    && part.count == PackCount(Drop(m.data, before), m.reclen - HeaderLength(m), m.encoding)
    && (m.reclen - HeaderLength(m) < 0x1_0000 ==>
          && IsPayload(part.payload, Drop(m.data, before), part.count, m.encoding, false)
          && (m.encoding.Steim? ==> |part.payload| == PayloadBytes(Drop(m.data, before), m.reclen - HeaderLength(m), m.encoding.ver)))
  }

  /** The records are those of the parts, one after the other. */
  ghost predicate Emitted(m: Msr, records: seq<seq<Byte>>, parts: seq<Part>) {
    |records| == |parts| && forall i | 0 <= i < |records| :: PartIs(m, records[i], Sum(parts[..i]), parts[i])
  }

  lemma EmittedMore(m: Msr, records: seq<seq<Byte>>, parts: seq<Part>, bs: seq<Byte>, part: Part)
    requires Emitted(m, records, parts) && PartIs(m, bs, Sum(parts), part)
    ensures Emitted(m, records + [bs], parts + [part]) && Sum(parts + [part]) == Sum(parts) + part.count
  {
    hide PartIs;
    var more := parts + [part];
    assert more[..|parts|] == parts;
    forall i | 0 <= i <= |records| ensures PartIs(m, (records + [bs])[i], Sum(more[..i]), more[i]) {
      if i < |records| {
        assert more[..i] == parts[..i];
      }
    }
  }

  /**
   * msr3_pack_mseed3, for data with at least one sample.  The records are those handed to the
   * record handler; after an error (-1) those that came before it.
   */
  method PackMseed3(m: Msr, flush: bool, address: nat)
      returns (recordcnt: int, packedsamples: nat, records: seq<seq<Byte>>, ghost parts: seq<Part>)
    requires ValidMsr(m) && Size(m.data) > 0
    ensures Emitted(m, records, parts) && packedsamples == Sum(parts) <= Size(m.data)
    ensures InTime(m.starttime, m.samprate, parts)
    ensures recordcnt == -1 || recordcnt == |records|
    ensures recordcnt >= 0 && flush ==> packedsamples == Size(m.data)
    ensures recordcnt >= 0 ==> MINRECLEN <= m.reclen <= MAXRECLEN && HeaderLength(m) <= m.reclen
    ensures recordcnt == -1 && MINRECLEN <= m.reclen <= MAXRECLEN && HeaderLength(m) <= m.reclen ==>
              PackCount(Drop(m.data, packedsamples), m.reclen - HeaderLength(m), m.encoding) == -1
    ensures recordcnt >= 0 && !flush ==>
              var maxdatabytes := m.reclen - HeaderLength(m);
              && Size(m.data) - packedsamples <= MaxSamples(m.data, m.encoding, maxdatabytes)
              && (maxdatabytes < 0x1_0000 ==> forall i | 0 <= i < |parts| :: Full(m.encoding, parts[i].payload, maxdatabytes))
  {
    hide IsRecord, HeaderIs, IsPayload, SampleTime, TimeOf, PackCount, PartIs, Full, InTime;
    recordcnt, packedsamples, records, parts := -1, 0, [], [];
    NoneInTime(m.starttime, m.samprate);
    if m.reclen < HeaderLength(m) {
      return;
    }
    var rawrec := new Byte[m.reclen];
    ghost var time;
    var dataoffset;
    dataoffset, time := PackHeader3(m, rawrec);
    if dataoffset < 0 {
      return;
    }
    var maxdatabytes := m.reclen - dataoffset;
    var maxsamples := MaxSamples(m.data, m.encoding, maxdatabytes);
    StartIs(m);
    while Size(m.data) - packedsamples > maxsamples || flush
      invariant packedsamples == Sum(parts) && Emitted(m, records, parts) && InTime(m.starttime, m.samprate, parts)
      invariant packedsamples < Size(m.data)
      invariant Valid(time) && TimeOf(time) == SampleTime(m.starttime, packedsamples, m.samprate)
      invariant HeaderIs(rawrec[..], HeaderOf(m, time))
      invariant !flush && maxdatabytes < 0x1_0000 ==> forall i | 0 <= i < |parts| :: Full(m.encoding, parts[i].payload, maxdatabytes)
      decreases Size(m.data) - packedsamples
    {
      var n, rec;
      ghost var part;
      n, rec, part := PackRecord(m, rawrec, dataoffset, packedsamples, address, time);
      if n < 0 {
        return;
      }
      EmittedMore(m, records, parts, rec, part);
      InTimeMore(m.starttime, m.samprate, parts, part);
      records, parts := records + [rec], parts + [part];
      packedsamples := packedsamples + n;
      if packedsamples >= Size(m.data) {
        break;
      }
      time := SetStart(m, rawrec, packedsamples, time);
    }
    recordcnt := |records|;
  }

  /** Pack the next samples into the record. */
  method PackRecord(m: Msr, rawrec: array<Byte>, dataoffset: nat, before: nat, address: nat, ghost time: Fields)
      returns (n: int, rec: seq<Byte>, ghost part: Part)
    requires Size(m.data) < 0x8000_0000 && before < Size(m.data) && HeaderLength(m) == dataoffset <= rawrec.Length == m.reclen
    requires Valid(time) && TimeOf(time) == SampleTime(m.starttime, before, m.samprate)
    requires HeaderIs(rawrec[..], HeaderOf(m, time))
    modifies rawrec
    ensures HeaderIs(rawrec[..], HeaderOf(m, time))
    ensures n == -1 || n == part.count
    ensures n == -1 ==> PackCount(Drop(m.data, before), m.reclen - dataoffset, m.encoding) == -1
    ensures n >= 0 ==> PartIs(m, rec, before, part) && 0 < n && before + n <= Size(m.data)
    ensures part.time == time
    ensures n >= 0 && m.reclen - dataoffset < 0x1_0000 && Size(m.data) - before > MaxSamples(m.data, m.encoding, m.reclen - dataoffset) ==>
              Full(m.encoding, part.payload, m.reclen - dataoffset)
  {
    hide IsRecord, HeaderIs, IsPayload, SampleTime, TimeOf, PackCount, Full, PartIs, Valid, PayloadBytes;
    var maxdatabytes := m.reclen - dataoffset;
    var left := Drop(m.data, before);
    var datalength, encoded;
    n, datalength, encoded := MsrPackData(left, maxdatabytes, m.encoding, false);
    rec, part := [], Part(time, 0, []);
    if n < 0 {
      return -1, rec, part;
    }
    PacksSome(left, maxdatabytes, m.encoding);
    rec := FinishRecord(rawrec, dataoffset, n, encoded, address, HeaderOf(m, time));
    part := Part(time, n, encoded);
    PartMade(m, rec, before, part);
    if maxdatabytes < 0x1_0000 && Size(left) > MaxSamples(m.data, m.encoding, maxdatabytes) {
      FillsUp(left, m.encoding, maxdatabytes, n, encoded, false);
    }
  }

  /** Update the record's start time for the next record. */
  method SetStart(m: Msr, rawrec: array<Byte>, before: nat, ghost was: Fields) returns (ghost time: Fields)
    requires ValidMsr(m) && before <= Size(m.data) && rawrec.Length >= HeaderLength(m)
    requires HeaderIs(rawrec[..], HeaderOf(m, was))
    modifies rawrec
    ensures Valid(time) && TimeOf(time) == SampleTime(m.starttime, before, m.samprate)
    ensures HeaderIs(rawrec[..], HeaderOf(m, time))
  {
    hide SampleTime, TimeOf, Bytes.Number, Code, TimeIs;
    ghost var bs := rawrec[..];
    var nextstarttime := SampleTime(m.starttime, before, m.samprate);
    var t := NstimeToTime(nextstarttime);
    PutTime(rawrec, t.value);
    time := t.value;
    OtherTime(m, bs, was, time);
    RestKept(bs, rawrec[..], HeaderOf(m, time));
  }

  lemma OtherTime(m: Msr, bs: seq<Byte>, was: Fields, time: Fields)
    requires RestIs(bs, HeaderOf(m, was))
    ensures RestIs(bs, HeaderOf(m, time))
  {
    hide Bytes.Number;
  }

  lemma StartIs(m: Msr)
    ensures SampleTime(m.starttime, 0, m.samprate) == m.starttime
  {}

  lemma PartMade(m: Msr, bs: seq<Byte>, before: nat, part: Part)
    requires Valid(part.time) && TimeOf(part.time) == SampleTime(m.starttime, before, m.samprate)
    requires IsRecord(bs, HeaderOf(m, part.time), part.count, part.payload)
    requires 0 < part.count && before + part.count <= Size(m.data)
    requires |part.payload| < 0x1_0000 && HeaderLength(m) + |part.payload| <= m.reclen
    requires part.count == PackCount(Drop(m.data, before), m.reclen - HeaderLength(m), m.encoding)
    requires m.reclen - HeaderLength(m) < 0x1_0000 ==> IsPayload(part.payload, Drop(m.data, before), part.count, m.encoding, false)
    requires m.reclen - HeaderLength(m) < 0x1_0000 && m.encoding.Steim? ==> |part.payload| == PayloadBytes(Drop(m.data, before), m.reclen - HeaderLength(m), m.encoding.ver)
    ensures PartIs(m, bs, before, part)
  {}

  /**
   * That INT16 records need not be full: the samples that may wait are counted at 4 bytes, so one
   * more than those are packed into a record that has room for about as many again.
   */
  method Int16LeavesRoom(m: Msr, address: nat) returns (records: seq<seq<Byte>>, ghost parts: seq<Part>)
    requires ValidMsr(m) && m.encoding == Int16 && m.data.Ints? && MINRECLEN <= m.reclen <= MAXRECLEN
    requires HeaderLength(m) + 8 <= m.reclen < HeaderLength(m) + 0x1_0000 && Size(m.data) == (m.reclen - HeaderLength(m)) / 4 + 1
    ensures Emitted(m, records, parts) && |records| == |parts| == 1
    ensures |parts[0].payload| == 2 * Size(m.data) < 2 * ((m.reclen - HeaderLength(m)) / 2)
  {
    hide IsRecord, HeaderIs, Decode, SampleTime, TimeOf, Emitted, Full, Valid;
    var recordcnt, packed;
    recordcnt, packed, records, parts := PackMseed3(m, false, address);
    AllInOne(m, records, parts);
  }

  lemma AllInOne(m: Msr, records: seq<seq<Byte>>, parts: seq<Part>)
    requires Emitted(m, records, parts) && Sum(parts) > 0 && m.encoding == Int16 && m.data.Ints?
    requires HeaderLength(m) + 8 <= m.reclen < HeaderLength(m) + 0x1_0000 && Size(m.data) <= (m.reclen - HeaderLength(m)) / 2
    ensures |records| == |parts| == 1 && |parts[0].payload| == 2 * Size(m.data)
  {
    hide Emitted;
    FirstTakesAll(m, records, parts);
    if |records| > 1 {
      SecondBegins(m, records, parts);
    }
  }

  lemma FirstTakesAll(m: Msr, records: seq<seq<Byte>>, parts: seq<Part>)
    requires Emitted(m, records, parts) && Sum(parts) > 0 && m.encoding == Int16 && m.data.Ints?
    requires HeaderLength(m) + 8 <= m.reclen < HeaderLength(m) + 0x1_0000 && Size(m.data) <= (m.reclen - HeaderLength(m)) / 2
    ensures |records| == |parts| > 0 && parts[0].count == Size(m.data) && |parts[0].payload| == 2 * Size(m.data)
  {
    hide IsRecord, HeaderIs, Decode, SampleTime, TimeOf, Valid;
    assert parts[..0] == [];
    assert PartIs(m, records[0], Sum(parts[..0]), parts[0]);
    assert Drop(m.data, 0) == m.data;
  }

  lemma SecondBegins(m: Msr, records: seq<seq<Byte>>, parts: seq<Part>)
    requires Emitted(m, records, parts) && |records| > 1
    ensures |parts| > 1 && parts[0].count < Size(m.data)
  {
    hide IsRecord, HeaderIs, IsPayload, SampleTime, TimeOf, Valid, PackCount, PayloadBytes;
    assert parts[..1] == [parts[0]];
    assert PartIs(m, records[1], Sum(parts[..1]), parts[1]);
  }
}
