/** Unpacking miniSEED version 3 records, and that it undoes packing. */
module Unpack3 {
  import opened Wrappers
  import opened Bytes
  import opened NsTime
  import opened PackData
  import opened Trimming
  import opened Record3
  import Crc32c

  const SIDLEN: nat := 64

  /** The error codes that occur here: MS_GENERROR, MS_NOTSEED, MS_OUTOFRANGE and MS_INVALIDCRC. */
  datatype Error = GenError | NotSeed | OutOfRange | InvalidCrc

  datatype Result<+T> = Ok(value: T) | Err(error: Error)

  /** What is made of a record; the data is that of the payload when it has been unpacked. */
  datatype Unpacked = Unpacked(flags: Byte, sid: seq<Byte>, starttime: int, encoding: Byte, rate: seq<Byte>, samplecnt: nat,
                               crc: nat, pubversion: Byte, extra: seq<Byte>, datalength: nat, data: Option<Samples>)

  /** MS3_ISVALIDHEADER */
  predicate ValidHeader3(bs: seq<Byte>)
    requires |bs| >= 15
  {
    bs[0] == 'M' as Byte && bs[1] == 'S' as Byte && bs[2] == 3 && bs[12] <= 23 && bs[13] <= 59 && bs[14] <= 60
  }

  /** The start time in a header. */
  function TimeAt(bs: seq<Byte>): Fields
    requires |bs| >= HEADER_LENGTH
  {
    Fields(Bytes.Number(bs, 8, 2), Bytes.Number(bs, 10, 2), bs[12] as int, bs[13] as int, bs[14] as int, Bytes.Number(bs, 4, 4))
  }

  /** The lengths in the header are those of the record. */
  predicate Framed(bs: seq<Byte>) {
    && |bs| >= HEADER_LENGTH
    && |bs| == HEADER_LENGTH + bs[33] as int + Bytes.Number(bs, 34, 2) + Bytes.Number(bs, 36, 4)
  }

  /** strlen of the source identifier. */
  function StrLen(s: seq<Byte>): (n: nat)
    ensures n <= |s|
  {
    if s == [] || s[0] == 0 then 0 else 1 + StrLen(s[1..])
  }

  /** msr3_data_bounds: the offset and the size of the payload. */
  function DataBounds(bs: seq<Byte>, u: Unpacked): (b: (nat, nat))
    requires Framed(bs) && u.datalength <= |bs|
    ensures b.1 <= u.datalength
  {
    var encoding := EncodingOf(u.encoding);
    var rawsize := u.samplecnt * SampleBytes(encoding);
    var size := if Fixed(encoding) && rawsize < u.datalength
                then rawsize % 0x1_0000 else u.datalength;
    (HEADER_LENGTH + StrLen(u.sid) + |u.extra|, if size % 64 == 0 && encoding.Steim? then TrimFrames(bs, size) else size)
  }

  /** msr3_unpack_data */
  function UnpackData(bs: seq<Byte>, u: Unpacked): Result<Samples>
    requires Framed(bs) && u.datalength <= |bs| && u.samplecnt > 0
  {
    if |bs| < MINRECLEN || |bs| > MAXRECLEN then Err(OutOfRange)
    else if u.samplecnt > 0x7FFF_FFFF then Err(GenError)
    else
      var (dataoffset, datasize) := DataBounds(bs, u);
      if dataoffset < MINRECLEN || dataoffset >= |bs| || dataoffset + datasize > |bs| then Err(GenError)
      else
        var encoding := EncodingOf(u.encoding);
        match Decode(bs[dataoffset..dataoffset + datasize], u.samplecnt, encoding, PayloadSwap(encoding, false))
        case None => Err(GenError)
        case Some(data) => Ok(data)
  }

  /** What the header says. */
  function HeaderFields(bs: seq<Byte>): (u: Unpacked)
    requires Framed(bs)
    ensures u.datalength <= |bs|
  {
    var sidlength, extralength := bs[33] as int, Bytes.Number(bs, 34, 2);
    Unpacked(bs[3], bs[40..40 + sidlength], TimeToNstime(TimeAt(bs)), bs[15], bs[16..24], Bytes.Number(bs, 24, 4),
             Bytes.Number(bs, 28, 4), bs[32], bs[40 + sidlength..40 + sidlength + extralength],
             Bytes.Number(bs, 36, 4) % 0x1_0000, None)
  }

  /** msr3_unpack_mseed3 on a record of the length its header gives. */
  function Unpack(bs: seq<Byte>, unpackData: bool, validateCrc: bool): (r: Result<Unpacked>)
    requires Framed(bs)
    ensures r.Ok? ==> r.value.datalength <= |bs|
  {
    hide Framed, HeaderFields, UnpackData, ValidHeader3, Bytes.Number, WithoutCrc;
    if |bs| < MINRECLEN || |bs| > MAXRECLEN then Err(OutOfRange)
    else if !ValidHeader3(bs) then Err(NotSeed)
    else if bs[33] as int >= SIDLEN then Err(GenError)
    else if validateCrc && Bytes.Number(bs, 28, 4) != AsNumber(Crc32c.Crc(WithoutCrc(bs), 0)) then Err(InvalidCrc)
    else
      var u := HeaderFields(bs);
      if u.starttime == NSTERROR then Err(GenError)
      else if unpackData && u.samplecnt > 0 then
        match UnpackData(bs, u)
        case Ok(data) => Ok(u.(data := Some(data)))
        case Err(e) => Err(e)
      else Ok(u)
  }

  // -------------------------------------------------------------------------- in place

  /**
   * Whether the CRC in the record's header is that of the record, whose CRC field is zero
   * meanwhile and restored afterwards.
   */
  method CheckCrc(buffer: array<Byte>, at: nat, reclen: nat, address: nat) returns (ok: bool)
    requires at + reclen <= buffer.Length && reclen >= HEADER_LENGTH
    modifies buffer
    ensures buffer[..] == old(buffer[..])
    ensures var bs := old(buffer[at..at + reclen]); ok == (Bytes.Number(bs, 28, 4) == AsNumber(Crc32c.Crc(WithoutCrc(bs), 0)))
  {
    hide Bytes.Number, Crc32c.Crc, AsNumber, WithoutCrc;
    ghost var was := buffer[..];
    var headercrc := Bytes.Number(buffer[..], at + 28, 4);
    NumberStored(was, at + 28, 4);
    HeaderCrc(was, at, reclen);
    assert buffer[at..at + reclen] == was[at..at + reclen];
    ZeroCrc(buffer, at, reclen);
    var crc := CrcOf(buffer[at..at + reclen], address);
    Put(buffer, at + 28, headercrc, 4);
    CrcRestored(was, buffer[..], at);
    ok := headercrc == AsNumber(crc);
  }

  lemma HeaderCrc(buffer: seq<Byte>, at: nat, reclen: nat)
    requires at + reclen <= |buffer| && reclen >= HEADER_LENGTH
    ensures Bytes.Number(buffer, at + 28, 4) == Bytes.Number(buffer[at..at + reclen], 28, 4)
  {
    var bs := buffer[at..at + reclen];
    SliceOfSlice(buffer, at, reclen, 28, 32);
    NumberShift(buffer, at + 28, bs, 28, 4);
  }

  lemma CrcRestored(was: seq<Byte>, now: seq<Byte>, at: nat)
    requires |was| == |now| && at + 32 <= |was| && now[at + 28..at + 32] == was[at + 28..at + 32]
    requires forall k | 0 <= k < |was| && !(at + 28 <= k < at + 32) :: now[k] == was[k]
    ensures now == was
  {
    forall k | at + 28 <= k < at + 32 ensures now[k] == was[k] {
      assert now[at + 28..at + 32][k - at - 28] == was[at + 28..at + 32][k - at - 28];
    }
  }

  /** msr3_unpack_data with msr3_data_bounds */
  method UnpackSamples(record: seq<Byte>, u: Unpacked) returns (r: Result<Samples>)
    requires Framed(record) && u.datalength <= |record| && u.samplecnt > 0
    ensures r == UnpackData(record, u)
  {
    hide Bytes.Number, Decode, TrimFrames;
    if |record| < MINRECLEN || |record| > MAXRECLEN {
      return Err(OutOfRange);
    }
    if u.samplecnt > 0x7FFF_FFFF {
      return Err(GenError);
    }
    var encoding := EncodingOf(u.encoding);
    var dataoffset, datasize := HEADER_LENGTH + StrLen(u.sid) + |u.extra|, u.datalength;
    if Fixed(encoding) {
      var rawsize := u.samplecnt * SampleBytes(encoding);
      if rawsize < datasize {
        datasize := rawsize % 0x1_0000;
      }
    }
    if datasize % 64 == 0 && encoding.Steim? {
      datasize := Trim(record, datasize);
    }
    if dataoffset < MINRECLEN || dataoffset >= |record| || dataoffset + datasize > |record| {
      return Err(GenError);
    }
    var data := MsDecodeData(record[dataoffset..dataoffset + datasize], u.samplecnt, encoding, PayloadSwap(encoding, false));
    r := if data.None? then Err(GenError) else Ok(data.value);
  }

  /** msr3_unpack_mseed3 on a record in a buffer. */
  method UnpackMseed3(buffer: array<Byte>, at: nat, reclen: nat, unpackData: bool, validateCrc: bool, address: nat)
      returns (r: Result<Unpacked>)
    requires at + reclen <= buffer.Length && Framed(buffer[at..at + reclen])
    modifies buffer
    ensures buffer[..] == old(buffer[..]) && r == Unpack(buffer[at..at + reclen], unpackData, validateCrc)
  {
    hide Bytes.Number, UnpackData, TimeToNstime;
    var record := buffer[at..at + reclen];
    if reclen < MINRECLEN || reclen > MAXRECLEN {
      return Err(OutOfRange);
    }
    if !ValidHeader3(record) {
      return Err(NotSeed);
    }
    if record[33] as int >= SIDLEN {
      return Err(GenError);
    }
    if validateCrc {
      var ok := CheckCrc(buffer, at, reclen, address);
      assert buffer[at..at + reclen] == record;
      if !ok {
        return Err(InvalidCrc);
      }
    }
    var u := HeaderFields(record);
    if u.starttime == NSTERROR {
      return Err(GenError);
    }
    if unpackData && u.samplecnt > 0 {
      var data := UnpackSamples(record, u);
      match data
      case Ok(samples) => return Ok(u.(data := Some(samples)));
      case Err(e) => return Err(e);
    }
    return Ok(u);
  }
}
