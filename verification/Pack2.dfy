/**
 * Packing data samples into miniSEED version 2 records: records of one length, made one after the
 * other in one buffer, whose payload area keeps whatever was in it behind the payload.
 */
module Pack2 {
  import opened Bytes
  import opened PowersOfTwo
  import opened SampleTimes
  import opened NsTime
  import opened PackData
  import opened PackLoop
  import opened Record2
  import opened SteimFormat
  import opened SteimGreedy

  method FindDataOffset(m: Msr2, headerlen: nat) returns (dataoffset: nat)
    requires headerlen == HeaderLength2(m) <= m.reclen && m.reclen % 64 == 0
    ensures dataoffset == DataOffset2(m) && headerlen <= dataoffset <= m.reclen
  {
    if !m.encoding.Steim? {
      return headerlen;
    }
    dataoffset := 64;
    ghost var f := 1;
    while dataoffset < headerlen
      invariant dataoffset == 64 * f && 64 * (f - 1) < headerlen
    {
      dataoffset := dataoffset + 64;
      f := f + 1;
    }
    RoundedUp(headerlen, f);
    NoLater(m.reclen, headerlen, f);
  }

  lemma RoundedUp(n: nat, f: nat)
    requires 64 * (f - 1) < n <= 64 * f
    ensures (n + 63) / 64 * 64 == 64 * f
  {}

  lemma NoLater(reclen: nat, n: nat, f: nat)
    requires reclen % 64 == 0 && n <= reclen && 64 * (f - 1) < n
    ensures 64 * f <= reclen
  {
    assert reclen == 64 * (reclen / 64);
  }

  /** The part of a record that begins after so many samples. */
  ghost predicate PartIs2(m: Msr2, bs: seq<Byte>, before: nat, part: Part) {
    && IsRecord2(bs, m, part.count, part.payload)
    && Valid(part.time) && TimeOf(part.time) == SampleTime(m.starttime, before, m.samprate) && Time2Is(bs, part.time)
    && Holds2(m, before, part)
  }

  /** The payload takes what the encoder takes of the samples left. */
  ghost predicate Holds2(m: Msr2, before: nat, part: Part) {
    && 0 < part.count && before + part.count <= Size(m.data) && DataOffset2(m) <= m.reclen
    && part.count == PackCount(Drop(m.data, before), m.reclen - DataOffset2(m), m.encoding)
    && (m.reclen - DataOffset2(m) < 0x1_0000 ==>
          && IsPayload(part.payload, Drop(m.data, before), part.count, m.encoding, true)
          && (m.encoding.Steim? ==> |part.payload| == PayloadBytes(Drop(m.data, before), m.reclen - DataOffset2(m), m.encoding.ver)))
  }

  ghost predicate Emitted2(m: Msr2, records: seq<seq<Byte>>, parts: seq<Part>) {
    |records| == |parts| && forall i | 0 <= i < |records| :: PartIs2(m, records[i], Sum(parts[..i]), parts[i])
  }

  lemma NothingEmitted(m: Msr2)
    ensures Emitted2(m, [], []) && Sum([]) == 0
  {}

  lemma EmittedMore2(m: Msr2, records: seq<seq<Byte>>, parts: seq<Part>, bs: seq<Byte>, part: Part)
    requires Emitted2(m, records, parts) && PartIs2(m, bs, Sum(parts), part)
    ensures Emitted2(m, records + [bs], parts + [part]) && Sum(parts + [part]) == Sum(parts) + part.count
    ensures |records| == |parts|
  {
    hide PartIs2;
    var more := parts + [part];
    assert more[..|parts|] == parts;
    forall i | 0 <= i <= |records| ensures PartIs2(m, (records + [bs])[i], Sum(more[..i]), more[i]) {
      if i < |records| {
        assert more[..i] == parts[..i];
      }
    }
  }

  /** What the record buffer holds at the head of the loop. */
  ghost predicate Ready(m: Msr2, bs: seq<Byte>, before: nat, time: Fields) {
    && |bs| == m.reclen && Header2Is(bs, m) && Cleared(bs, m) && Big16(bs, 44) == DataOffset2(m) % 0x1_0000
    && Valid(time) && TimeOf(time) == SampleTime(m.starttime, before, m.samprate) && Time2Is(bs, time)
  }

  /** Pack the next samples into the record; what is behind them in the record stays. */
  method PackRecord2(m: Msr2, rawrec: array<Byte>, dataoffset: nat, before: nat, ghost time: Fields)
      returns (n: int, ghost part: Part)
    requires Size(m.data) < 0x8000_0000 && before < Size(m.data)
    requires HeaderLength2(m) <= DataOffset2(m) == dataoffset <= rawrec.Length == m.reclen && Ready(m, rawrec[..], before, time)
    modifies rawrec
    ensures n == -1 || n == part.count
    ensures n == -1 ==> PackCount(Drop(m.data, before), m.reclen - dataoffset, m.encoding) == -1
    ensures TimeOf(part.time) == SampleTime(m.starttime, before, m.samprate)
    ensures n != -1 ==> 0 < n && before + n <= Size(m.data) && PartIs2(m, rawrec[..], before, part) && Ready(m, rawrec[..], before, time)
    ensures n != -1 && m.reclen - dataoffset < 0x1_0000 && Size(m.data) - before > MaxSamples(m.data, m.encoding, m.reclen - dataoffset) ==>
              Full(m.encoding, part.payload, m.reclen - dataoffset)
  {
    hide SampleTime, TimeOf, Valid, Big16, OfByte, Stuck, Reach, DataSlots, IsPayload, Ready, Full, PartIs2, Time2Is, PayloadBytes, MaxSamples, StoredAs;
    ReadyTime(m, rawrec[..], before, time);
    var maxdatabytes := m.reclen - dataoffset;
    var left := Drop(m.data, before);
    part := Part(time, 0, []);
    var datalength, encoded;
    n, datalength, encoded := MsrPackData(left, maxdatabytes, m.encoding, true);
    if n < 0 {
      return -1, part;
    }
    PacksSome(left, maxdatabytes, m.encoding);
    part := Part(time, n, encoded);
    ghost var was := rawrec[..];
    Copy(rawrec, dataoffset, encoded);
    PutBig16(rawrec, 30, n);
    ReadyStays(m, was, rawrec[..], before, time);
    PartMade2(m, rawrec[..], before, part);
    SameLimit(m.data, before, m.encoding, maxdatabytes);
    if maxdatabytes < 0x1_0000 && Size(left) > MaxSamples(m.data, m.encoding, maxdatabytes) {
      FillsUp(left, m.encoding, maxdatabytes, n, encoded, true);
    }
  }

  lemma SameLimit(data: Samples, before: nat, encoding: Encoding, maxdatabytes: nat)
    requires before <= Size(data)
    ensures MaxSamples(Drop(data, before), encoding, maxdatabytes) == MaxSamples(data, encoding, maxdatabytes)
  {}

  lemma ReadyTime(m: Msr2, bs: seq<Byte>, before: nat, time: Fields)
    requires Ready(m, bs, before, time)
    ensures TimeOf(time) == SampleTime(m.starttime, before, m.samprate)
  {}

  lemma ReadyStays(m: Msr2, bs: seq<Byte>, cs: seq<Byte>, before: nat, time: Fields)
    requires Ready(m, bs, before, time) && |cs| == |bs| && DataOffset2(m) >= HeaderLength2(m)
    requires forall k | 0 <= k < DataOffset2(m) && k < |bs| && k != 30 && k != 31 :: cs[k] == bs[k]
    ensures Ready(m, cs, before, time)
  {
    hide Big16, OfByte, TimeOf, SampleTime, Valid, Fixed2Is, BlockettesAre, Time2Is, DataOffset2;
    Big16Same(bs, cs, 44);
    Time2Kept(bs, cs, time);
    Fixed2Kept(bs, cs, m);
    BlockettesKept(bs, cs, m);
  }

  lemma PartMade2(m: Msr2, bs: seq<Byte>, before: nat, part: Part)
    requires Ready(m, bs, before, part.time) && Holds2(m, before, part) && Big16(bs, 30) == part.count % 0x1_0000
    requires DataOffset2(m) + |part.payload| <= |bs| && bs[DataOffset2(m)..DataOffset2(m) + |part.payload|] == part.payload
    ensures PartIs2(m, bs, before, part)
  {
    hide Big16, OfByte, TimeOf, SampleTime, Valid, Fixed2Is, BlockettesAre, Time2Is, DataOffset2, Holds2;
  }

  /** The record length and the header fit. */
  predicate Fits2(m: Msr2) {
    Length2Fits(m.reclen) && HeaderLength2(m) <= m.reclen
  }

  /** msr3_pack_mseed2, for data with at least one sample.  The records are those handed to the record handler. */
  method PackMseed2(m: Msr2, flush: bool) returns (recordcnt: int, packedsamples: nat, records: seq<seq<Byte>>, ghost parts: seq<Part>)
    requires ValidMsr2(m) && Size(m.data) > 0
    ensures Emitted2(m, records, parts) && packedsamples == Sum(parts) <= Size(m.data)
    ensures InTime(m.starttime, m.samprate, parts)
    ensures recordcnt == -1 || recordcnt == |records|
    ensures recordcnt >= 0 ==> Fits2(m) && DataOffset2(m) <= m.reclen
    ensures recordcnt >= 0 && flush ==> packedsamples == Size(m.data)
    ensures recordcnt == -1 && Fits2(m) ==>
              DataOffset2(m) <= m.reclen && PackCount(Drop(m.data, packedsamples), m.reclen - DataOffset2(m), m.encoding) == -1
    ensures recordcnt >= 0 && !flush ==>
              var maxdatabytes := m.reclen - DataOffset2(m);
              && Size(m.data) - packedsamples <= MaxSamples(m.data, m.encoding, maxdatabytes)
              && (maxdatabytes < 0x1_0000 ==> forall i | 0 <= i < |parts| :: Full(m.encoding, parts[i].payload, maxdatabytes))
  {
    hide SampleTime, TimeOf, Valid, Ready, PartIs2, PackCount, PowerOfTwo, Header2Is, Time2Is, Full, DataOffset2, MaxSamples, Emitted2, Sum, InTime;
    NothingEmitted(m);
    NoneInTime(m.starttime, m.samprate);
    recordcnt, packedsamples, records, parts := -1, 0, [], [];
    if m.reclen < 128 || !PowerOfTwo(m.reclen) {
      return;
    }
    InFrames(m.reclen);
    var rawrec := new Byte[m.reclen];
    var headerlen;
    ghost var time;
    headerlen, time := PackHeader2(m, rawrec);
    if headerlen < 0 {
      return;
    }
    var dataoffset := FindDataOffset(m, headerlen);
    ClearHeader(m, rawrec, headerlen, dataoffset, time);
    var maxdatabytes := m.reclen - dataoffset;
    var maxsamples := MaxSamples(m.data, m.encoding, maxdatabytes);
    while Size(m.data) - packedsamples > maxsamples || flush
      invariant packedsamples == Sum(parts) && Emitted2(m, records, parts) && packedsamples < Size(m.data)
      invariant InTime(m.starttime, m.samprate, parts)
      invariant Ready(m, rawrec[..], packedsamples, time)
      invariant !flush && maxdatabytes < 0x1_0000 ==> forall i | 0 <= i < |parts| :: Full(m.encoding, parts[i].payload, maxdatabytes)
      decreases Size(m.data) - packedsamples
    {
      var n;
      ghost var part;
      n, part := PackRecord2(m, rawrec, dataoffset, packedsamples, time);
      if n < 0 {
        return;
      }
      EmittedMore2(m, records, parts, rawrec[..], part);
      InTimeMore(m.starttime, m.samprate, parts, part);
      records, parts := records + [rawrec[..]], parts + [part];
      ghost var before := packedsamples;
      packedsamples := packedsamples + n;
      if packedsamples >= Size(m.data) {
        break;
      }
      time := SetStart2(m, rawrec, before, packedsamples, time);
    }
    recordcnt := |records|;
  }

  /** Zeros up to the data, and the data offset in the header. */
  method ClearHeader(m: Msr2, rawrec: array<Byte>, headerlen: nat, dataoffset: nat, ghost time: Fields)
    requires ValidMsr2(m) && rawrec.Length == m.reclen && headerlen == HeaderLength2(m) <= dataoffset == DataOffset2(m) <= m.reclen
    requires Header2Is(rawrec[..], m) && Valid(time) && TimeOf(time) == m.starttime && Time2Is(rawrec[..], time)
    modifies rawrec
    ensures Ready(m, rawrec[..], 0, time)
  {
    hide SampleTime, TimeOf, Valid, Big16, OfByte, Fixed2Is, BlockettesAre, Time2Is, DataOffset2;
    ghost var was := rawrec[..];
    forall k | headerlen <= k < dataoffset {
      rawrec[k] := 0;
    }
    ghost var s := rawrec[..];
    PutBig16(rawrec, 44, dataoffset);
    FirstTime(m);
    Time2Kept(was, rawrec[..], time);
    Fixed2Kept(was, rawrec[..], m);
    BlockettesKept(was, rawrec[..], m);
  }

  /** The start time of the next record. */
  method SetStart2(m: Msr2, rawrec: array<Byte>, ghost was: nat, before: nat, ghost time0: Fields) returns (ghost time: Fields)
    requires ValidMsr2(m) && 0 < before <= Size(m.data) && rawrec.Length == m.reclen && Ready(m, rawrec[..], was, time0)
    modifies rawrec
    ensures Ready(m, rawrec[..], before, time)
    ensures forall k | 0 <= k < rawrec.Length && !(20 <= k < 30) :: rawrec[k] == old(rawrec[k])
  {
    hide SampleTime, TimeOf, Valid, Big16, OfByte, Fixed2Is, BlockettesAre, Time2Is, DataOffset2;
    ghost var bs := rawrec[..];
    var nextstarttime := SampleTime(m.starttime, before, m.samprate);
    var t := NstimeToTime(nextstarttime);
    LongEnough(m, bs);
    PutTime2(rawrec, t.value);
    time := t.value;
    Big16Same(bs, rawrec[..], 44);
    Fixed2Kept(bs, rawrec[..], m);
    BlockettesKept(bs, rawrec[..], m);
  }

  lemma LongEnough(m: Msr2, bs: seq<Byte>)
    requires Header2Is(bs, m)
    ensures |bs| >= HeaderLength2(m)
  {
    hide Big16;
  }
}
