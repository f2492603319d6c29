/** The bytes of a miniSEED version 3 record: 40 of fixed header, source identifier, extra headers and payload. */
module Record3 {
  import opened Bytes
  import opened NsTime
  import opened PackData
  import opened SteimWords
  import Crc32c

  const HEADER_LENGTH: nat := 40
  const MINRECLEN: int := 40
  const MAXRECLEN: int := 131172

  /** What a record says of its data, beside their number and the payload. */
  datatype Header = Header(flags: Byte, time: Fields, encoding: Byte, rate: seq<Byte>, pubversion: Byte,
                           sid: seq<Byte>, extra: seq<Byte>)

  function Code(encoding: Encoding): Byte {
    match encoding
    case Text => 0
    case Int16 => 1
    case Int32 => 3
    case Float32 => 4
    case Float64 => 5
    case Steim(Steim1) => 10
    case Steim(Steim2) => 11
    case Unknown => 255
  }

  function EncodingOf(code: Byte): Encoding {
    if code == 0 then Text else if code == 1 then Int16 else if code == 3 then Int32
    else if code == 4 then Float32 else if code == 5 then Float64
    else if code == 10 then Steim(Steim1) else if code == 11 then Steim(Steim2) else Unknown
  }

  /** The codes of the encodings in both versions of records. */
  lemma CodesAre(encoding: Encoding)
    ensures Code(encoding) as int == match encoding
      case Text => 0 case Int16 => 1 case Int32 => 3 case Float32 => 4 case Float64 => 5
      case Steim(ver) => (if ver == Steim1 then 10 else 11)
      case Unknown => 255
    ensures encoding != Unknown ==> forall code: Byte :: EncodingOf(code) == encoding <==> code == Code(encoding)
  {}

  /** No byte is a NUL. */
  predicate NoNul(s: seq<Byte>) {
    forall i | 0 <= i < |s| :: s[i] != 0
  }

  /** The offset of the payload. */
  function DataOffset(h: Header): nat {
    HEADER_LENGTH + |h.sid| + |h.extra|
  }

  /** The start time, at bytes 4 to 14. */
  ghost predicate TimeIs(bs: seq<Byte>, t: Fields) {
    && |bs| >= HEADER_LENGTH
    && Bytes.Number(bs, 4, 4) == t.nsec && Bytes.Number(bs, 8, 2) == t.year && Bytes.Number(bs, 10, 2) == t.yday
    && bs[12] as int == t.hour && bs[13] as int == t.min && bs[14] as int == t.sec
  }

  /** All else that comes from the header. */
  ghost predicate RestIs(bs: seq<Byte>, h: Header) {
    && |bs| >= DataOffset(h)
    && bs[0] == 'M' as Byte && bs[1] == 'S' as Byte && bs[2] == 3 && bs[3] == h.flags
    && bs[15] == h.encoding && bs[16..24] == h.rate && bs[32] == h.pubversion
    && bs[33] as int == |h.sid| && Bytes.Number(bs, 34, 2) == |h.extra|
    && bs[40..40 + |h.sid|] == h.sid && bs[40 + |h.sid|..DataOffset(h)] == h.extra
  }

  ghost predicate HeaderIs(bs: seq<Byte>, h: Header) {
    TimeIs(bs, h.time) && RestIs(bs, h)
  }

  /** The record with its CRC field set to zero. */
  function WithoutCrc(bs: seq<Byte>): (r: seq<Byte>)
    requires |bs| >= HEADER_LENGTH
    ensures |r| == |bs|
  {
    bs[..28] + [0, 0, 0, 0] + bs[32..]
  }

  /** The record's CRC is the CRC-32C of the record without it. */
  ghost predicate CrcIsRight(bs: seq<Byte>) {
    |bs| >= HEADER_LENGTH && Bytes.Number(bs, 28, 4) == AsNumber(Crc32c.Crc(WithoutCrc(bs), 0))
  }

  /** A complete record with so many samples in this payload. */
  ghost predicate IsRecord(bs: seq<Byte>, h: Header, nsamples: nat, payload: seq<Byte>) {
    && HeaderIs(bs, h) && CrcIsRight(bs)
    && Bytes.Number(bs, 24, 4) == nsamples && Bytes.Number(bs, 36, 4) == |payload|
    && bs[DataOffset(h)..] == payload
  }

  // --------------------------------------------------------------------- storing numbers

  /** A number stored at a position. */
  method Put(a: array<Byte>, at: nat, v: nat, n: nat)
    requires at + n <= a.Length && v < Power(n)
    modifies a
    ensures Bytes.Number(a[..], at, n) == v && a[at..at + n] == Store(v, n)
    ensures forall k | 0 <= k < a.Length && !(at <= k < at + n) :: a[k] == old(a[k])
  {
    hide Low;
    ghost var before := a[..];
    var left := v;
    for i := 0 to n
      invariant forall k | 0 <= k < a.Length && !(at <= k < at + i) :: a[k] == before[k]
      invariant a[at..at + i] + Store(left, n - i) == Store(v, n)
    {
      assert Store(left, n - i) == [Low(left)] + Store(left / 256, n - i - 1);
      a[at + i] := Low(left);
      assert a[at..at + i + 1] == a[at..at + i] + [Low(left)];
      left := left / 256;
    }
    assert a[at..at + n] == Store(v, n);
    Stored(a[..], at, v, n);
  }

  lemma Stored(bs: seq<Byte>, at: nat, v: nat, n: nat)
    requires at + n <= |bs| && v < Power(n) && bs[at..at + n] == Store(v, n)
    ensures Bytes.Number(bs, at, n) == v
  {
    hide Low;
    StoreNumber(v, n);
    assert bs[at..at + n] == Store(v, n)[0..n];
    NumberShift(bs, at, Store(v, n), 0, n);
  }

  /** The bytes agree from one place up to another. */
  ghost predicate Same(bs: seq<Byte>, cs: seq<Byte>, from: nat, to: nat) {
    to <= |bs| && to <= |cs| && forall k | from <= k < to :: bs[k] == cs[k]
  }

  lemma NumberSame(bs: seq<Byte>, cs: seq<Byte>, at: nat, n: nat)
    requires Same(bs, cs, at, at + n)
    ensures Bytes.Number(bs, at, n) == Bytes.Number(cs, at, n)
  {
    assert bs[at..at + n] == cs[at..at + n];
    NumberShift(bs, at, cs, at, n);
  }

  /** A change outside the header's other fields leaves them as they are. */
  lemma RestKept(bs: seq<Byte>, cs: seq<Byte>, h: Header)
    requires RestIs(bs, h) && Same(bs, cs, 0, 4) && Same(bs, cs, 15, 24) && Same(bs, cs, 32, 36) && Same(bs, cs, 40, DataOffset(h))
    ensures RestIs(cs, h)
  {
    NumberSame(bs, cs, 34, 2);
    hide Bytes.Number;
    assert bs[16..24] == cs[16..24];
    assert bs[40..40 + |h.sid|] == cs[40..40 + |h.sid|];
    assert bs[40 + |h.sid|..DataOffset(h)] == cs[40 + |h.sid|..DataOffset(h)];
  }

  lemma TimeKept(bs: seq<Byte>, cs: seq<Byte>, t: Fields)
    requires TimeIs(bs, t) && Same(bs, cs, 4, 15) && |cs| >= HEADER_LENGTH
    ensures TimeIs(cs, t)
  {
    NumberSame(bs, cs, 4, 4);
    NumberSame(bs, cs, 8, 2);
    NumberSame(bs, cs, 10, 2);
  }

  /** memset of the CRC field of a record in a buffer. */
  method ZeroCrc(buffer: array<Byte>, at: nat, reclen: nat)
    requires at + reclen <= buffer.Length && reclen >= HEADER_LENGTH
    modifies buffer
    ensures buffer[at..at + reclen] == WithoutCrc(old(buffer[at..at + reclen]))
    ensures forall k | 0 <= k < buffer.Length && !(at + 28 <= k < at + 32) :: buffer[k] == old(buffer[k])
  {
    buffer[at + 28], buffer[at + 29], buffer[at + 30], buffer[at + 31] := 0, 0, 0, 0;
  }

  /** The CRC of a record without its CRC field, as ms_crc32c computes it wherever the record stands. */
  method CrcOf(record: seq<Byte>, address: nat) returns (crc: bv32)
    requires |record| >= HEADER_LENGTH
    ensures crc == Crc32c.Crc(record, 0)
  {
    hide Crc32c.Crc, Crc32c.BytesTaken;
    Crc32c.TakenIsLength(address, |record|);
    crc := Crc32c.MsCrc32c(record, address, |record|, 0, false);
    assert record[..|record|] == record;
  }

  /** What is left of a CRC field does not matter without it. */
  lemma SameWithoutCrc(bs: seq<Byte>, cs: seq<Byte>)
    requires |bs| == |cs| >= HEADER_LENGTH && Same(bs, cs, 0, 28) && Same(bs, cs, 32, |bs|)
    ensures WithoutCrc(bs) == WithoutCrc(cs)
  {
    assert bs[..28] == cs[..28] && bs[32..] == cs[32..];
  }
}
