/**
 * The bytes of a miniSEED version 2 record: 48 of fixed header, a blockette 1000, other blockettes
 * and the payload.  All numbers have their highest byte first.
 */
module Record2 {
  import opened Bytes
  import opened PowersOfTwo
  import opened SampleTimes
  import opened NsTime
  import opened PackData
  import opened PackLoop
  import opened Record3

  /**
   * What packing uses of an MS3Record: its identifier as the 12 bytes of station, location,
   * channel and network, and what is made of its sample rate (4 bytes) and of its extra headers,
   * the data quality, the flags (3 bytes), the time correction (4 bytes) and the blockettes that
   * follow the first.
   */
  datatype Msr2 = Msr2(reclen: int, codes: seq<Byte>, quality: Byte, rate: seq<Byte>, flags: seq<Byte>, correction: seq<Byte>,
                       blockettes: seq<Byte>, count: Byte, starttime: int, samprate: real, encoding: Encoding, data: Samples)

  /** What the types and the makers of the fields guarantee, and times of all samples that fit 64 bits. */
  ghost predicate ValidMsr2(m: Msr2) {
    && |m.codes| == 12 && Quality(m.quality) && |m.rate| == 4 && |m.flags| == 3 && |m.correction| == 4 && Size(m.data) < 0x8000_0000
    && forall n: nat | n <= Size(m.data) :: Int64(SampleTime(m.starttime, n, m.samprate))
  }

  /** MS2_ISDATAINDICATOR */
  predicate Quality(b: Byte) {
    b == 'D' as Byte || b == 'R' as Byte || b == 'Q' as Byte || b == 'M' as Byte
  }

  const FIXED_LENGTH: nat := 48
  const BLOCKETTE_LENGTH: nat := 8

  /** The header with its blockettes. */
  function HeaderLength2(m: Msr2): nat {
    FIXED_LENGTH + BLOCKETTE_LENGTH + |m.blockettes|
  }

  /** The offset of the data: behind the blockettes, for Steim at the next multiple of 64. */
  function DataOffset2(m: Msr2): nat {
    if m.encoding.Steim? then (HeaderLength2(m) + 63) / 64 * 64 else HeaderLength2(m)
  }

  /** A start time, to a tenth of a millisecond. */
  ghost predicate Time2Is(bs: seq<Byte>, t: Fields) {
    && |bs| >= FIXED_LENGTH && Big16(bs, 20) == t.year && Big16(bs, 22) == t.yday
    && OfByte(bs[24]) == t.hour && OfByte(bs[25]) == t.min && OfByte(bs[26]) == t.sec && Big16(bs, 28) == t.nsec / 100000
  }

  /** The fixed header outside its time, its number of samples and its data offset. */
  ghost predicate Fixed2Is(bs: seq<Byte>, m: Msr2) {
    && |bs| >= FIXED_LENGTH
    && bs[0..6] == SEQUENCE && bs[6] == m.quality && bs[7] == ' ' as Byte && bs[8..20] == m.codes && bs[27] == 0
    && bs[32..36] == m.rate && bs[36..39] == m.flags && bs[39] == m.count && bs[40..44] == m.correction && Big16(bs, 46) == FIXED_LENGTH
  }

  const SEQUENCE: seq<Byte> := ['0' as Byte, '0' as Byte, '0' as Byte, '0' as Byte, '0' as Byte, '0' as Byte]

  /** The blockettes, the first of which is a blockette 1000 with encoding, byte order and length of the record. */
  ghost predicate BlockettesAre(bs: seq<Byte>, m: Msr2) {
    && |bs| >= HeaderLength2(m)
    && Big16(bs, 48) == 1000 && Big16(bs, 50) == (if m.blockettes == [] then 0 else FIXED_LENGTH + BLOCKETTE_LENGTH)
    && bs[52] == Code(m.encoding) && bs[53] == 1 && Power2(OfByte(bs[54])) == m.reclen && bs[55] == 0
    && bs[56..HeaderLength2(m)] == m.blockettes
  }

  /** The header outside what the record loop stores. */
  ghost predicate Header2Is(bs: seq<Byte>, m: Msr2) {
    Fixed2Is(bs, m) && BlockettesAre(bs, m)
  }

  /** Zeros between header and data. */
  ghost predicate Cleared(bs: seq<Byte>, m: Msr2) {
    |bs| >= DataOffset2(m) && forall k | HeaderLength2(m) <= k < DataOffset2(m) :: bs[k] == 0
  }

  /** A record with so many samples in this payload. */
  ghost predicate IsRecord2(bs: seq<Byte>, m: Msr2, nsamples: nat, payload: seq<Byte>) {
    && |bs| == m.reclen && Header2Is(bs, m) && Cleared(bs, m)
    && Big16(bs, 30) == nsamples % 0x1_0000 && Big16(bs, 44) == DataOffset2(m) % 0x1_0000
    && DataOffset2(m) + |payload| <= |bs| && bs[DataOffset2(m)..DataOffset2(m) + |payload|] == payload
  }

  // --------------------------------------------------------------------- storing numbers

  method PutBig16(a: array<Byte>, at: nat, v: nat)
    requires at + 2 <= a.Length
    modifies a
    ensures Big16(a[..], at) == v % 0x1_0000
    ensures forall k | 0 <= k < a.Length && k != at && k != at + 1 :: a[k] == old(a[k])
  {
    hide OfByte, Low;
    a[at], a[at + 1] := Low(v / 256), Low(v);
    LowPair(v);
    assert a[..][at] == Low(v / 256) && a[..][at + 1] == Low(v);
  }

  lemma LowPair(v: nat)
    ensures OfByte(Low(v / 256)) * 256 + OfByte(Low(v)) == v % 0x1_0000
  {
    hide Low, OfByte;
    PairModulo(v, v / 256 / 256, v / 256 % 256, v % 256);
  }

  lemma PairModulo(v: nat, c: nat, d: nat, b: nat)
    requires v == 0x1_0000 * c + 256 * d + b && d < 256 && b < 256
    ensures v % 0x1_0000 == d * 256 + b
  {}

  lemma Big16Same(bs: seq<Byte>, cs: seq<Byte>, at: nat)
    requires at + 2 <= |bs| && at + 2 <= |cs| && bs[at] == cs[at] && bs[at + 1] == cs[at + 1]
    ensures Big16(bs, at) == Big16(cs, at)
  {}

  /** The start time of a record. */
  method PutTime2(rawrec: array<Byte>, t: Fields)
    requires rawrec.Length >= FIXED_LENGTH && Valid(t) && 0 <= t.year < 0x1_0000
    modifies rawrec
    ensures Time2Is(rawrec[..], t)
    ensures forall k | 0 <= k < rawrec.Length && !(20 <= k < 30 && k != 27) :: rawrec[k] == old(rawrec[k])
  {
    hide OfByte, Low, Big16;
    InBytes(t);
    PutBig16(rawrec, 20, t.year);
    ghost var s1 := rawrec[..];
    PutBig16(rawrec, 22, t.yday);
    ghost var s2 := rawrec[..];
    rawrec[24], rawrec[25], rawrec[26] := Low(t.hour), Low(t.min), Low(t.sec);
    PutBig16(rawrec, 28, t.nsec / 100000);
    hide Valid;
    Big16Same(s1, rawrec[..], 20);
    Big16Same(s2, rawrec[..], 22);
  }

  /** All numbers of a time fit the bytes they have. */
  lemma InBytes(t: Fields)
    requires Valid(t) && 0 <= t.year < 0x1_0000
    ensures t.year % 0x1_0000 == t.year && 0 <= t.yday && t.yday % 0x1_0000 == t.yday && t.nsec >= 0
    ensures 0 <= t.hour && t.hour % 256 == t.hour && 0 <= t.min && t.min % 256 == t.min && 0 <= t.sec && t.sec % 256 == t.sec
    ensures t.nsec / 100000 % 0x1_0000 == t.nsec / 100000
  {}

  // ------------------------------------------------------------------------- the header

  /** The exponent of a record length. */
  method FindExponent(reclen: nat) returns (reclenexp: nat)
    requires PowerOfTwo(reclen) && 128 <= reclen <= MAXRECLEN
    ensures Power2(reclenexp) == reclen && reclenexp < 32
  {
    hide PowerOfTwo;
    ghost var e := Exponent(reclen);
    Sixty4(e);
    var reclenfind := 1;
    reclenexp := 1;
    while reclenfind <= MAXRECLEN
      invariant 1 <= reclenexp <= e && Power2(reclenexp - 1) == reclenfind < reclen
      decreases e - reclenexp
    {
      reclenfind := reclenfind * 2;
      if reclenfind == reclen {
        break;
      }
      if reclenexp < e {
        Power2Grows(reclenexp, e);
      }
      reclenexp := reclenexp + 1;
    }
    if reclenexp >= 18 {
      TooLong(reclenexp);
    }
  }

  lemma TooLong(e: nat)
    requires e >= 18
    ensures Power2(e) > MAXRECLEN
  {
    Small();
    assert Power2(8) == 256 && Power2(9) == 512 && Power2(10) == 1024 && Power2(11) == 2048 && Power2(12) == 4096;
    assert Power2(13) == 8192 && Power2(14) == 16384 && Power2(15) == 32768 && Power2(16) == 65536 && Power2(17) == 131072;
    Power2Grows(17, e);
  }

  /** The first 20 bytes of the fixed header. */
  method PutCodes(m: Msr2, record: array<Byte>)
    requires |m.codes| == 12 && record.Length >= FIXED_LENGTH
    modifies record
    ensures record[0..6] == SEQUENCE && record[6] == m.quality && record[7] == ' ' as Byte && record[8..20] == m.codes
    ensures forall k | 20 <= k < record.Length :: record[k] == old(record[k])
  {
    Copy(record, 0, SEQUENCE);
    ghost var s := record[..];
    record[6], record[7] := m.quality, ' ' as Byte;
    Copy(record, 8, m.codes);
    assert record[0..6] == s[0..6];
  }

  /** The bytes from 30 on. */
  method PutRates(m: Msr2, record: array<Byte>)
    requires |m.rate| == 4 && |m.flags| == 3 && |m.correction| == 4 && record.Length >= FIXED_LENGTH
    modifies record
    ensures record[32..36] == m.rate && record[36..39] == m.flags && record[39] == m.count && record[40..44] == m.correction
    ensures Big16(record[..], 46) == FIXED_LENGTH
    ensures forall k | 0 <= k < record.Length && !(30 <= k < FIXED_LENGTH) :: record[k] == old(record[k])
  {
    hide OfByte, Low, Big16;
    PutBig16(record, 30, 0);
    Copy(record, 32, m.rate);
    ghost var s1 := record[..];
    Copy(record, 36, m.flags);
    ghost var s2 := record[..];
    record[39] := m.count;
    Copy(record, 40, m.correction);
    ghost var s3 := record[..];
    PutBig16(record, 44, 0);
    PutBig16(record, 46, FIXED_LENGTH);
    assert record[32..36] == s1[32..36] && record[36..39] == s2[36..39] && record[40..44] == s3[40..44];
  }

  /** The fixed header, of a record that begins at this time. */
  method PutFixed2(m: Msr2, record: array<Byte>, t: Fields)
    requires |m.codes| == 12 && |m.rate| == 4 && |m.flags| == 3 && |m.correction| == 4 && record.Length >= FIXED_LENGTH
    requires Valid(t) && 0 <= t.year < 0x1_0000
    modifies record
    ensures Fixed2Is(record[..], m) && Time2Is(record[..], t)
    ensures forall k | FIXED_LENGTH <= k < record.Length :: record[k] == old(record[k])
  {
    hide OfByte, Big16, Valid;
    PutCodes(m, record);
    ghost var s1 := record[..];
    PutTime2(record, t);
    ghost var s2 := record[..];
    record[27] := 0;
    PutRates(m, record);
    Time2Kept(s2, record[..], t);
    assert record[0..6] == s1[0..6] && record[8..20] == s1[8..20];
    FixedMade(m, record[..]);
  }

  lemma FixedMade(m: Msr2, bs: seq<Byte>)
    requires |bs| >= FIXED_LENGTH && bs[0..6] == SEQUENCE && bs[6] == m.quality && bs[7] == ' ' as Byte && bs[8..20] == m.codes
    requires bs[27] == 0 && bs[32..36] == m.rate && bs[36..39] == m.flags && bs[39] == m.count && bs[40..44] == m.correction
    requires Big16(bs, 46) == FIXED_LENGTH
    ensures Fixed2Is(bs, m)
  {}

  lemma Time2Kept(bs: seq<Byte>, cs: seq<Byte>, t: Fields)
    requires Time2Is(bs, t) && Same(bs, cs, 20, 27) && Same(bs, cs, 28, 30) && |cs| >= FIXED_LENGTH
    ensures Time2Is(cs, t)
  {
    Big16Same(bs, cs, 20);
    Big16Same(bs, cs, 22);
    Big16Same(bs, cs, 28);
    hide Big16, OfByte;
  }

  lemma Fixed2Kept(bs: seq<Byte>, cs: seq<Byte>, m: Msr2)
    requires Fixed2Is(bs, m) && |cs| >= FIXED_LENGTH
    requires Same(bs, cs, 0, 20) && bs[27] == cs[27] && Same(bs, cs, 32, 44) && Same(bs, cs, 46, 48)
    ensures Fixed2Is(cs, m)
  {
    Big16Same(bs, cs, 46);
    hide Big16;
    assert cs[0..6] == bs[0..6] && cs[8..20] == bs[8..20];
    assert cs[32..36] == bs[32..36] && cs[36..39] == bs[36..39] && cs[40..44] == bs[40..44];
  }

  lemma BlockettesKept(bs: seq<Byte>, cs: seq<Byte>, m: Msr2)
    requires BlockettesAre(bs, m) && Same(bs, cs, 48, HeaderLength2(m))
    ensures BlockettesAre(cs, m)
  {
    Big16Same(bs, cs, 48);
    Big16Same(bs, cs, 50);
    hide Big16, OfByte;
    assert cs[56..HeaderLength2(m)] == bs[56..HeaderLength2(m)];
  }

  /** Blockette 1000. */
  method PutBlockette1000(m: Msr2, record: array<Byte>, reclenexp: nat)
    requires record.Length >= FIXED_LENGTH + BLOCKETTE_LENGTH
    modifies record
    ensures Big16(record[..], 48) == 1000
    ensures Big16(record[..], 50) == (if m.blockettes == [] then 0 else FIXED_LENGTH + BLOCKETTE_LENGTH) % 0x1_0000
    ensures record[52] == Code(m.encoding) && record[53] == 1 && record[54] == Low(reclenexp) && record[55] == 0
    ensures forall k | 0 <= k < record.Length && !(48 <= k < 56) :: record[k] == old(record[k])
  {
    hide OfByte, Low, Big16, Code;
    PutBig16(record, 48, 1000);
    ghost var s1 := record[..];
    PutBig16(record, 50, if m.blockettes == [] then 0 else FIXED_LENGTH + BLOCKETTE_LENGTH);
    ghost var s2 := record[..];
    record[52], record[53], record[54], record[55] := Code(m.encoding), 1, Low(reclenexp), 0;
    Big16Same(s1, record[..], 48);
    Big16Same(s2, record[..], 50);
  }

  /** Blockette 1000, and the others behind it. */
  method PutBlockettes(m: Msr2, record: array<Byte>, reclenexp: nat)
    requires Power2(reclenexp) == m.reclen == record.Length && reclenexp < 32 && HeaderLength2(m) <= record.Length
    modifies record
    ensures BlockettesAre(record[..], m)
    ensures forall k | 0 <= k < FIXED_LENGTH :: record[k] == old(record[k])
  {
    hide OfByte, Low, Big16, Power2, Code, BlockettesAre;
    PutBlockette1000(m, record, reclenexp);
    ghost var s := record[..];
    Copy(record, 56, m.blockettes);
    Big16Same(s, record[..], 48);
    Big16Same(s, record[..], 50);
    assert record[..][56..HeaderLength2(m)] == record[56..HeaderLength2(m)];
    BlockettesMade(m, record[..], reclenexp);
  }

  lemma BlockettesMade(m: Msr2, bs: seq<Byte>, reclenexp: nat)
    requires |bs| >= HeaderLength2(m) && Big16(bs, 48) == 1000 && bs[56..HeaderLength2(m)] == m.blockettes
    requires Big16(bs, 50) == (if m.blockettes == [] then 0 else FIXED_LENGTH + BLOCKETTE_LENGTH) % 0x1_0000
    requires bs[52] == Code(m.encoding) && bs[53] == 1 && bs[54] == Low(reclenexp) && bs[55] == 0
    requires Power2(reclenexp) == m.reclen && reclenexp < 256
    ensures BlockettesAre(bs, m)
  {
    hide Big16, OfByte, Power2, Code;
    ByteBack(reclenexp);
  }

  lemma ByteBack(n: nat)
    requires n < 256
    ensures OfByte(Low(n)) == n
  {}

  /** The record lengths that version 2 has. */
  predicate Length2Fits(reclen: int) {
    128 <= reclen <= MAXRECLEN && PowerOfTwo(reclen)
  }

  /** msr3_pack_header2, behind the parsing of identifier and extra headers: the length of the header, -1 for an error. */
  method PackHeader2(m: Msr2, record: array<Byte>) returns (headerlen: int, ghost time: Fields)
    requires ValidMsr2(m) && record.Length == m.reclen
    modifies record
    ensures headerlen == if Length2Fits(m.reclen) && HeaderLength2(m) <= m.reclen then HeaderLength2(m) else -1
    ensures headerlen >= 0 ==> Header2Is(record[..], m) && Valid(time) && TimeOf(time) == m.starttime && Time2Is(record[..], time)
  {
    hide SampleTime, TimeOf, Valid, OfByte, Big16, PowerOfTwo, Power2, Fixed2Is, BlockettesAre, Time2Is;
    time := Fields(0, 0, 0, 0, 0, 0);
    headerlen := -1;
    if m.reclen < 128 || m.reclen > MAXRECLEN || !PowerOfTwo(m.reclen) {
      return;
    }
    var reclenexp := FindExponent(m.reclen);
    assert SampleTime(m.starttime, 0, m.samprate) == m.starttime && Int64(m.starttime) by { FirstTime(m); }
    var t := NstimeToTime(m.starttime);
    time := t.value;
    PutFixed2(m, record, t.value);
    ghost var s1 := record[..];
    if m.reclen - FIXED_LENGTH - BLOCKETTE_LENGTH < |m.blockettes| {
      return;
    }
    PutBlockettes(m, record, reclenexp);
    Fixed2Kept(s1, record[..], m);
    Time2Kept(s1, record[..], time);
    headerlen := HeaderLength2(m);
  }

  lemma FirstTime(m: Msr2)
    requires ValidMsr2(m)
    ensures SampleTime(m.starttime, 0, m.samprate) == m.starttime && Int64(m.starttime)
  {
    assert Int64(SampleTime(m.starttime, 0, m.samprate));
  }
}
