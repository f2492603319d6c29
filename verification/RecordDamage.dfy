/** Which bytes are accepted as a version 3 record, and that damage to a record is noticed. */
module RecordDamage {
  import opened Bytes
  import opened NsTime
  import opened Record3
  import opened Unpack3
  import Crc32c

  /** Bytes with the lengths of a record begin "MS", version 3, with a time of day and an identifier of fewer than 64 bytes. */
  predicate LooksLikeRecord(bs: seq<Byte>) {
    && 40 <= |bs| <= 131172
    && bs[..3] == ['M' as Byte, 'S' as Byte, 3]
    && bs[12] <= 23 && bs[13] <= 59 && bs[14] <= 60 && bs[33] < 64
  }

  /**
   * Without its payload a record is unpacked exactly when it looks like one, its start time stands
   * for a time and, if that is asked for, its CRC is right; which refusal is reported when it is not.
   */
  lemma AcceptedExactly(bs: seq<Byte>, validateCrc: bool)
    requires Framed(bs)
    ensures Unpack(bs, false, validateCrc).Ok?
       <==> LooksLikeRecord(bs) && (validateCrc ==> CrcIsRight(bs)) && TimeToNstime(TimeAt(bs)) != NSTERROR
    ensures Unpack(bs, false, validateCrc) == Err(InvalidCrc) <==> LooksLikeRecord(bs) && validateCrc && !CrcIsRight(bs)
    ensures Unpack(bs, false, validateCrc) == Err(NotSeed) ==> bs[..3] != ['M' as Byte, 'S' as Byte, 3] || bs[12] > 23 || bs[13] > 59 || bs[14] > 60
  {
    hide Bytes.Number, Crc32c.Crc, AsNumber, WithoutCrc, TimeToNstime, TimeAt;
    assert bs[..3] == [bs[0], bs[1], bs[2]];
  }

  /** Unpacking the payload as well refuses whatever is refused without. */
  lemma DataAsWell(bs: seq<Byte>, validateCrc: bool)
    requires Framed(bs)
    ensures Unpack(bs, false, validateCrc).Err? ==> Unpack(bs, true, validateCrc) == Unpack(bs, false, validateCrc)
  {
    hide Bytes.Number, Crc32c.Crc, AsNumber, WithoutCrc, TimeToNstime, TimeAt, UnpackData, Framed, ValidHeader3;
  }

  /** The bytes differ, and only within four successive ones. */
  predicate DiffersWithin(bs: seq<Byte>, damaged: seq<Byte>, at: nat) {
    && |damaged| == |bs| && at + 4 <= |bs| && damaged != bs
    && forall k | 0 <= k < |bs| && !(at <= k < at + 4) :: damaged[k] == bs[k]
  }

  /**
   * A record with a right CRC in which up to four successive bytes are changed, before, behind or
   * within its CRC, is refused, and for its CRC when it still looks like a record.
   */
  lemma DamageIsNoticed(bs: seq<Byte>, damaged: seq<Byte>, at: nat, unpackData: bool)
    requires CrcIsRight(bs) && Framed(damaged) && DiffersWithin(bs, damaged, at) && (at + 4 <= 28 || at == 28 || 32 <= at)
    ensures Unpack(damaged, unpackData, true).Err?
    ensures LooksLikeRecord(damaged) ==> Unpack(damaged, unpackData, true) == Err(InvalidCrc)
  {
    CrcIsWrong(bs, damaged, at);
    AcceptedExactly(damaged, true);
    DataAsWell(damaged, true);
  }

  lemma CrcIsWrong(bs: seq<Byte>, damaged: seq<Byte>, at: nat)
    requires CrcIsRight(bs) && DiffersWithin(bs, damaged, at) && (at + 4 <= 28 || at == 28 || 32 <= at)
    ensures !CrcIsRight(damaged)
  {
    hide Bytes.Number, Crc32c.Crc, AsNumber;
    if at == 28 {
      assert WithoutCrc(damaged) == WithoutCrc(bs);
      if Bytes.Number(damaged, 28, 4) == Bytes.Number(bs, 28, 4) {
        NumberStored(bs, 28, 4);
        NumberStored(damaged, 28, 4);
        SameBytes(bs, damaged, 28);
      }
    } else {
      assert damaged[28..32] == bs[28..32];
      NumberShift(damaged, 28, bs, 28, 4);
      OthersDiffer(bs, damaged, at);
      AsNumberInjective(Crc32c.Crc(WithoutCrc(bs), 0), Crc32c.Crc(WithoutCrc(damaged), 0));
    }
  }

  lemma SameBytes(bs: seq<Byte>, damaged: seq<Byte>, at: nat)
    requires DiffersWithin(bs, damaged, at)
    ensures damaged[at..at + 4] != bs[at..at + 4]
  {
    if damaged[at..at + 4] == bs[at..at + 4] {
      forall k | 0 <= k < |bs| ensures damaged[k] == bs[k] {
        if at <= k < at + 4 {
          assert damaged[at..at + 4][k - at] == bs[at..at + 4][k - at];
        }
      }
    }
  }

  lemma AsNumberInjective(x: bv32, y: bv32)
    requires x != y
    ensures AsNumber(x) != AsNumber(y)
  {
    hide *;
    NumberBack(x);
    NumberBack(y);
  }

  function OfNumber(n: nat): bv32
    requires n < 0x1_0000_0000
  {
    n as bv32
  }

  lemma NumberBack(x: bv32)
    ensures OfNumber(AsNumber(x)) == x
  {}

  lemma OthersDiffer(bs: seq<Byte>, damaged: seq<Byte>, at: nat)
    requires |bs| >= HEADER_LENGTH && DiffersWithin(bs, damaged, at) && (at + 4 <= 28 || 32 <= at)
    ensures Crc32c.Crc(WithoutCrc(bs), 0) != Crc32c.Crc(WithoutCrc(damaged), 0)
  {
    hide Crc32c.Crc, WithoutCrc;
    var x, y := WithoutCrc(bs), WithoutCrc(damaged);
    StillDiffers(bs, damaged, at);
    SameBytes(x, y, at);
    SameAround(x, y, at);
    Crc32c.BurstsAreDetected(x[..at], x[at..at + 4], y[at..at + 4], x[at + 4..], 0);
  }

  lemma StillDiffers(bs: seq<Byte>, damaged: seq<Byte>, at: nat)
    requires |bs| >= HEADER_LENGTH && DiffersWithin(bs, damaged, at) && (at + 4 <= 28 || 32 <= at)
    ensures at + 4 <= |bs| == |damaged| && DiffersWithin(WithoutCrc(bs), WithoutCrc(damaged), at)
  {
    var x, y := WithoutCrc(bs), WithoutCrc(damaged);
    forall k | 0 <= k < |bs| ensures x[k] == (if 28 <= k < 32 then 0 else bs[k]) && y[k] == if 28 <= k < 32 then 0 else damaged[k] {
    }
    if x == y {
      forall k | 0 <= k < |bs| ensures bs[k] == damaged[k] {
        assert x[k] == y[k];
      }
    }
  }

  lemma SameAround(x: seq<Byte>, y: seq<Byte>, at: nat)
    requires DiffersWithin(x, y, at)
    ensures at + 4 <= |x| == |y|
    ensures x == x[..at] + x[at..at + 4] + x[at + 4..] && y == x[..at] + y[at..at + 4] + x[at + 4..]
  {
    assert y[..at] == x[..at] && y[at + 4..] == x[at + 4..];
    assert y == y[..at] + y[at..at + 4] + y[at + 4..];
  }
}
