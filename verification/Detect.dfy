/** Detecting records in a buffer: their version and length. */
module Detect {
  import opened Wrappers
  import opened Bytes
  import opened PowersOfTwo
  import opened Record3
  import opened Record2
  import opened Unpack3
  import opened ByteOrder

  // ---------------------------------------------------------------------- version 2

  predicate SequenceByte(b: Byte) {
    '0' as Byte <= b <= '9' as Byte || b == ' ' as Byte || b == 0
  }

  /** MS2_ISVALIDHEADER */
  predicate ValidHeader2(bs: seq<Byte>)
    requires |bs| >= 27
  {
    && (forall i | 0 <= i < 6 :: SequenceByte(bs[i]))
    && Quality(bs[6]) && (bs[7] == ' ' as Byte || bs[7] == 0) && bs[24] <= 23 && bs[25] <= 59 && bs[26] <= 60
  }

  /** A 16-bit number of a version 2 record, on a little-endian host. */
  function Number2(bs: seq<Byte>, at: nat, swapflag: bool): nat
    requires at + 2 <= |bs|
  {
    if swapflag then Big16(bs, at) else OfByte(bs[at]) + 256 * OfByte(bs[at + 1])
  }

  /** The byte order needs swapping: the year and the day are not sane as they stand. */
  predicate Swapped2(bs: seq<Byte>)
    requires |bs| >= 24
  {
    !(1900 <= Number2(bs, 20, false) <= 2100 && 1 <= Number2(bs, 22, false) <= 366)
  }

  /** Numbers are taken as they stand exactly when their lowest bytes first make a year from 1900 to 2100 and a day of it. */
  lemma SwappedIs(bs: seq<Byte>)
    requires |bs| >= 24
    ensures Swapped2(bs) <==> !(1900 <= Little16(bs, 20) <= 2100 && 1 <= Little16(bs, 22) <= 366)
    ensures forall at: nat | at + 2 <= |bs| :: Number2(bs, at, false) == Little16(bs, at) && Number2(bs, at, true) == Big16(bs, at)
  {}

  datatype Walk = Length(reclen: int) | NoLength | Invalid

  /** 1 shifted to a record length, as a 32-bit integer; shifts by 32 and more wrap as they do on common hosts. */
  function ShiftedOne(exponent: Byte): int {
    var e := OfByte(exponent) % 32;
    if e == 31 then -0x8000_0000 else Power2(e)
  }

  /** Record lengths are powers of two; beyond what 32 bits hold the shift begins anew. */
  lemma ShiftsAre(exponent: Byte)
    ensures exponent < 31 ==> ShiftedOne(exponent) == Power2(OfByte(exponent))
    ensures exponent == 31 ==> ShiftedOne(exponent) == -2147483648
    ensures 32 <= exponent < 63 ==> ShiftedOne(exponent) == Power2(OfByte(exponent) - 32)
    ensures ShiftedOne(7) == 128 && ShiftedOne(9) == 512 && ShiftedOne(12) == 4096
  {
    hide Power2;
    Powers();
  }

  lemma Powers()
    ensures Power2(7) == 128 && Power2(9) == 512 && Power2(12) == 4096
  {
    assert Power2(4) == 16 && Power2(8) == 256;
  }

  /** The walk through the blockettes of a record in the first n bytes of a memory that goes on a little further. */
  function WalkBlockettes(memory: seq<Byte>, n: nat, offset: nat, swapflag: bool): Walk
    requires n + 8 <= |memory|
    decreases if offset <= n then n - offset + 1 else 0
  {
    if offset == 0 || offset <= 47 || offset > n then NoLength
    else
      var kind, next := Number2(memory, offset, swapflag), Number2(memory, offset + 2, swapflag);
      if kind == 1000 && offset + 8 <= n then Length(ShiftedOne(memory[offset + 6]))
      else if next == 0 then NoLength
      else if next < 4 || next - 4 <= offset then Invalid
      else WalkBlockettes(memory, n, next, swapflag)
  }

  /** The next version 2 header at a multiple of 64 bytes. */
  function ScanHeaders(memory: seq<Byte>, n: nat, at: nat): Option<nat>
    requires n <= |memory|
    decreases if at <= n then n - at else 0
  {
    if at + 48 >= n then None
    else if ValidHeader2(memory[at..]) then Some(at)
    else ScanHeaders(memory, n, at + 64)
  }

  /** The record length a version 3 header gives, as C adds it up in 32 bits. */
  function Length3(bs: seq<Byte>): int
    requires |bs| >= HEADER_LENGTH
  {
    var sum := (HEADER_LENGTH + bs[33] as int + Bytes.Number(bs, 34, 2) + Bytes.Number(bs, 36, 4)) % 0x1_0000_0000;
    if sum < 0x8000_0000 then sum else sum - 0x1_0000_0000
  }

  /** The memory is what detection reads: with a version 2 header eight bytes more than the buffer. */
  predicate Enough(memory: seq<Byte>, n: nat) {
    n <= |memory| && (n < MINRECLEN || ValidHeader3(memory) || !ValidHeader2(memory) || n + 8 <= |memory|)
  }

  /** ms3_detect: the record length, 0 if there is a record but not its length, -1 if there is none; and the version. */
  function Detected(memory: seq<Byte>, n: nat): (int, nat)
    requires Enough(memory, n)
  {
    if n < MINRECLEN then (-1, 0)
    else if ValidHeader3(memory) then (Length3(memory), 3)
    else if ValidHeader2(memory) then
      match WalkBlockettes(memory, n, Number2(memory, 46, Swapped2(memory)), Swapped2(memory))
      case Length(reclen) => (reclen, 2)
      case Invalid => (-1, 2)
      case NoLength =>
        match ScanHeaders(memory, n, 64)
        case None => (0, 2)
        case Some(at) => (at, 2)
    else (-1, 0)
  }

  /** A signature of version 3: MS and 3, and a time of day in range. */
  predicate Signature3(memory: seq<Byte>)
    requires |memory| >= 40
  {
    memory[0] == 0x4D && memory[1] == 0x53 && memory[2] == 3 && memory[12] <= 23 && memory[13] <= 59 && memory[14] <= 60
  }

  /** One of version 2: six digits, blanks or NULs, a quality and a blank or NUL, and a time of day in range. */
  predicate Signature2(memory: seq<Byte>)
    requires |memory| >= 40
  {
    && (forall i | 0 <= i < 6 :: 0x30 <= memory[i] <= 0x39 || memory[i] == 0x20 || memory[i] == 0)
    && (memory[6] == 0x44 || memory[6] == 0x52 || memory[6] == 0x51 || memory[6] == 0x4D) && (memory[7] == 0x20 || memory[7] == 0)
    && memory[24] <= 23 && memory[25] <= 59 && memory[26] <= 60
  }

  /** The version found goes by these signatures. */
  lemma Signatures(memory: seq<Byte>, n: nat)
    requires Enough(memory, n)
    ensures Detected(memory, n).1 == if n < 40 then 0 else if Signature3(memory) then 3 else if Signature2(memory) then 2 else 0
    ensures Detected(memory, n).1 == 0 ==> Detected(memory, n) == (-1, 0)
  {
    hide WalkBlockettes, ScanHeaders, Swapped2, Length3, ValidHeader2, ValidHeader3, Signature2, Signature3;
    if n >= 40 {
      IsSignature3(memory);
      IsSignature2(memory);
    }
  }

  lemma IsSignature3(memory: seq<Byte>)
    requires |memory| >= 40
    ensures ValidHeader3(memory) <==> Signature3(memory)
  {}

  lemma IsSignature2(memory: seq<Byte>)
    requires |memory| >= 40
    ensures ValidHeader2(memory) <==> Signature2(memory)
  {}

  // -------------------------------------------------------------------------- in place

  /** ms3_detect on the first n bytes of a memory. */
  method MsDetect(memory: seq<Byte>, n: nat) returns (reclen: int, version: nat)
    requires Enough(memory, n)
    ensures (reclen, version) == Detected(memory, n)
  {
    hide ValidHeader2, ValidHeader3, Bytes.Number, Number2, ShiftedOne;
    reclen, version := -1, 0;
    if n < MINRECLEN {
      return;
    }
    if ValidHeader3(memory) {
      return Length3(memory), 3;
    }
    if !ValidHeader2(memory) {
      return;
    }
    version := 2;
    var swapflag := Swapped2(memory);
    var offset := Number2(memory, 46, swapflag);
    while offset != 0 && offset > 47 && offset <= n
      invariant WalkBlockettes(memory, n, offset, swapflag) == WalkBlockettes(memory, n, Number2(memory, 46, swapflag), swapflag)
      decreases if offset <= n then n - offset + 1 else 0
    {
      var kind, next := Number2(memory, offset, swapflag), Number2(memory, offset + 2, swapflag);
      if kind == 1000 && offset + 8 <= n {
        return ShiftedOne(memory[offset + 6]), 2;
      }
      if next != 0 && (next < 4 || next - 4 <= offset) {
        return -1, 2;
      }
      if next == 0 {
        break;
      }
      offset := next;
    }
    var at := 64;
    while at + 48 < n
      invariant at >= 64 && ScanHeaders(memory, n, at) == ScanHeaders(memory, n, 64)
      decreases n - at
    {
      if ValidHeader2(memory[at..]) {
        return at, 2;
      }
      at := at + 64;
    }
    return 0, 2;
  }

  // --------------------------------------------------------------- what walk and scan find

  /** Offsets of blockettes, each but the last with a link to the next, none but the last a blockette 1000 that is all there. */
  ghost predicate Chain(memory: seq<Byte>, n: nat, offsets: seq<nat>, swapflag: bool)
    requires n + 8 <= |memory|
  {
    && |offsets| > 0
    && (forall i | 0 <= i < |offsets| :: 47 < offsets[i] <= n)
    && (forall i | 0 <= i < |offsets| - 1 :: Linked(memory, n, offsets[i], offsets[i + 1], swapflag))
  }

  ghost predicate Linked(memory: seq<Byte>, n: nat, offset: nat, next: nat, swapflag: bool)
    requires n + 8 <= |memory|
  {
    offset <= n && !Found1000(memory, n, offset, swapflag) && Number2(memory, offset + 2, swapflag) == next && next > offset + 4
  }

  ghost predicate Found1000(memory: seq<Byte>, n: nat, offset: nat, swapflag: bool)
    requires n + 8 <= |memory| && offset <= n
  {
    Number2(memory, offset, swapflag) == 1000 && offset + 8 <= n
  }

  /** The walk finds the length in the blockette 1000 at the end of a chain. */
  lemma {:induction false} WalkFindsChain(memory: seq<Byte>, n: nat, offset: nat, swapflag: bool) returns (offsets: seq<nat>)
    requires n + 8 <= |memory| && WalkBlockettes(memory, n, offset, swapflag).Length?
    ensures Chain(memory, n, offsets, swapflag) && offsets[0] == offset && Found1000(memory, n, offsets[|offsets| - 1], swapflag)
    ensures WalkBlockettes(memory, n, offset, swapflag) == Length(ShiftedOne(memory[offsets[|offsets| - 1] + 6]))
    decreases if offset <= n then n - offset + 1 else 0
  {
    hide Number2, ShiftedOne;
    offsets := [offset];
    if !Found1000(memory, n, offset, swapflag) {
      var next := Number2(memory, offset + 2, swapflag);
      var rest := WalkFindsChain(memory, n, next, swapflag);
      Longer(memory, n, offset, rest, swapflag);
      offsets := [offset] + rest;
    }
  }

  /** And whenever such a chain is there the walk finds that length. */
  lemma {:induction false} ChainIsWalked(memory: seq<Byte>, n: nat, offsets: seq<nat>, swapflag: bool)
    requires n + 8 <= |memory| && Chain(memory, n, offsets, swapflag) && Found1000(memory, n, offsets[|offsets| - 1], swapflag)
    ensures WalkBlockettes(memory, n, offsets[0], swapflag) == Length(ShiftedOne(memory[offsets[|offsets| - 1] + 6]))
    decreases |offsets|
  {
    hide Number2, ShiftedOne;
    if |offsets| > 1 {
      assert Linked(memory, n, offsets[0], offsets[1], swapflag);
      Shorter(memory, n, offsets, swapflag);
      ChainIsWalked(memory, n, offsets[1..], swapflag);
    }
  }

  /** A header with 48 bytes and more behind it. */
  predicate HeaderAt(memory: seq<Byte>, n: nat, at: nat) {
    at + 48 < n <= |memory| && ValidHeader2(memory[at..])
  }

  /** The scan finds a header at a multiple of 64 bytes, */
  lemma {:induction false} ScanFinds(memory: seq<Byte>, n: nat, at: nat) returns (j: nat)
    requires n <= |memory| && ScanHeaders(memory, n, at).Some?
    ensures ScanHeaders(memory, n, at).value == at + 64 * j && HeaderAt(memory, n, at + 64 * j)
    decreases if at <= n then n - at else 0
  {
    hide ValidHeader2;
    j := 0;
    if !ValidHeader2(memory[at..]) {
      j := ScanFinds(memory, n, at + 64);
      j := j + 1;
    }
  }

  /** and none is in front of that one. */
  lemma {:induction false} ScanFindsFirst(memory: seq<Byte>, n: nat, at: nat, k: nat)
    requires HeaderAt(memory, n, at + 64 * k)
    ensures ScanHeaders(memory, n, at).Some? && ScanHeaders(memory, n, at).value <= at + 64 * k
    decreases k
  {
    hide ValidHeader2;
    if k > 0 && !ValidHeader2(memory[at..]) {
      ScanFindsFirst(memory, n, at + 64, k - 1);
    }
  }

  /** A header at a multiple of 64 bytes, none in front of it. */
  ghost predicate FirstHeader(memory: seq<Byte>, n: nat, at: int) {
    at >= 64 && at % 64 == 0 && HeaderAt(memory, n, at) && forall k: nat | 64 + 64 * k < at :: !HeaderAt(memory, n, 64 + 64 * k)
  }

  /** The scan finds just that. */
  lemma ScanExactly(memory: seq<Byte>, n: nat, at: int)
    requires n <= |memory|
    ensures ScanHeaders(memory, n, 64) == Some(at) <==> FirstHeader(memory, n, at)
  {
    hide HeaderAt;
    if ScanHeaders(memory, n, 64).Some? {
      var j := ScanFinds(memory, n, 64);
      forall k: nat | 64 + 64 * k < 64 + 64 * j ensures !HeaderAt(memory, n, 64 + 64 * k) {
        if HeaderAt(memory, n, 64 + 64 * k) {
          ScanFindsFirst(memory, n, 64, k);
        }
      }
      if FirstHeader(memory, n, at) {
        var k := at / 64 - 1;
        assert at == 64 + 64 * k;
        ScanFindsFirst(memory, n, 64, k);
        assert 64 + 64 * j >= at;
      }
    } else if FirstHeader(memory, n, at) {
      assert at == 64 + 64 * (at / 64 - 1);
      ScanFindsFirst(memory, n, 64, at / 64 - 1);
    }
  }

  /** A chain leads to a blockette 1000 with this record length. */
  ghost predicate Leads(memory: seq<Byte>, n: nat, offset: nat, swapflag: bool, reclen: int)
    requires n + 8 <= |memory|
  {
    exists offsets ::
      && Chain(memory, n, offsets, swapflag) && offsets[0] == offset && Found1000(memory, n, offsets[|offsets| - 1], swapflag)
      && ShiftedOne(memory[offsets[|offsets| - 1] + 6]) == reclen
  }

  /** A link that is not behind the blockette it is in. */
  predicate BadLink(next: nat, offset: nat) {
    next != 0 && (next < 4 || next - 4 <= offset)
  }

  /** A chain ends with such a link. */
  ghost predicate Breaks(memory: seq<Byte>, n: nat, offset: nat, swapflag: bool)
    requires n + 8 <= |memory|
  {
    exists offsets ::
      && Chain(memory, n, offsets, swapflag) && offsets[0] == offset && BrokenAt(memory, n, offsets[|offsets| - 1], swapflag)
  }

  ghost predicate BrokenAt(memory: seq<Byte>, n: nat, offset: nat, swapflag: bool)
    requires n + 8 <= |memory| && offset <= n
  {
    !Found1000(memory, n, offset, swapflag) && BadLink(Number2(memory, offset + 2, swapflag), offset)
  }

  /** The walk finds a length exactly when a chain leads to it, and is given up exactly when one breaks. */
  lemma WalkExactly(memory: seq<Byte>, n: nat, offset: nat, swapflag: bool, reclen: int)
    requires n + 8 <= |memory|
    ensures WalkBlockettes(memory, n, offset, swapflag) == Length(reclen) <==> Leads(memory, n, offset, swapflag, reclen)
    ensures WalkBlockettes(memory, n, offset, swapflag) == Invalid <==> Breaks(memory, n, offset, swapflag)
  {
    hide Found1000, BrokenAt, ShiftedOne, WalkBlockettes, Linked;
    if WalkBlockettes(memory, n, offset, swapflag).Length? {
      var offsets := WalkFindsChain(memory, n, offset, swapflag);
      ChainEnds(memory, n, offsets, swapflag);
    }
    if WalkBlockettes(memory, n, offset, swapflag).Invalid? {
      var offsets := WalkFindsBreak(memory, n, offset, swapflag);
      ChainEnds(memory, n, offsets, swapflag);
    }
    if Leads(memory, n, offset, swapflag, reclen) {
      var offsets :| Chain(memory, n, offsets, swapflag) && offsets[0] == offset && Found1000(memory, n, offsets[|offsets| - 1], swapflag)
                     && ShiftedOne(memory[offsets[|offsets| - 1] + 6]) == reclen;
      ChainIsWalked(memory, n, offsets, swapflag);
    }
    if Breaks(memory, n, offset, swapflag) {
      var offsets :| Chain(memory, n, offsets, swapflag) && offsets[0] == offset && BrokenAt(memory, n, offsets[|offsets| - 1], swapflag);
      BreakIsWalked(memory, n, offsets, swapflag);
    }
  }

  lemma ChainEnds(memory: seq<Byte>, n: nat, offsets: seq<nat>, swapflag: bool)
    requires n + 8 <= |memory| && Chain(memory, n, offsets, swapflag)
    ensures |offsets| > 0 && offsets[|offsets| - 1] <= n
  {}

  lemma Longer(memory: seq<Byte>, n: nat, offset: nat, rest: seq<nat>, swapflag: bool)
    requires n + 8 <= |memory| && 47 < offset <= n && Chain(memory, n, rest, swapflag) && Linked(memory, n, offset, rest[0], swapflag)
    ensures Chain(memory, n, [offset] + rest, swapflag)
  {
    hide Linked;
    var offsets := [offset] + rest;
    forall i | 0 <= i < |offsets| - 1 ensures Linked(memory, n, offsets[i], offsets[i + 1], swapflag) {
      if i > 0 {
        assert Linked(memory, n, rest[i - 1], rest[i], swapflag);
      }
    }
  }

  lemma {:induction false} WalkFindsBreak(memory: seq<Byte>, n: nat, offset: nat, swapflag: bool) returns (offsets: seq<nat>)
    requires n + 8 <= |memory| && WalkBlockettes(memory, n, offset, swapflag).Invalid?
    ensures Chain(memory, n, offsets, swapflag) && offsets[0] == offset && BrokenAt(memory, n, offsets[|offsets| - 1], swapflag)
    decreases if offset <= n then n - offset + 1 else 0
  {
    hide Number2, ShiftedOne;
    offsets := [offset];
    if !BrokenAt(memory, n, offset, swapflag) {
      var rest := WalkFindsBreak(memory, n, Number2(memory, offset + 2, swapflag), swapflag);
      Longer(memory, n, offset, rest, swapflag);
      offsets := [offset] + rest;
    }
  }

  lemma {:induction false} BreakIsWalked(memory: seq<Byte>, n: nat, offsets: seq<nat>, swapflag: bool)
    requires n + 8 <= |memory| && Chain(memory, n, offsets, swapflag) && BrokenAt(memory, n, offsets[|offsets| - 1], swapflag)
    ensures WalkBlockettes(memory, n, offsets[0], swapflag) == Invalid
    decreases |offsets|
  {
    hide Number2, ShiftedOne;
    if |offsets| > 1 {
      assert Linked(memory, n, offsets[0], offsets[1], swapflag);
      Shorter(memory, n, offsets, swapflag);
      BreakIsWalked(memory, n, offsets[1..], swapflag);
    }
  }

  lemma Shorter(memory: seq<Byte>, n: nat, offsets: seq<nat>, swapflag: bool)
    requires n + 8 <= |memory| && Chain(memory, n, offsets, swapflag) && |offsets| > 1
    ensures Chain(memory, n, offsets[1..], swapflag)
  {
    hide Linked;
    var rest := offsets[1..];
    forall i | 0 <= i < |rest| - 1 ensures Linked(memory, n, rest[i], rest[i + 1], swapflag) {
      assert Linked(memory, n, offsets[i + 1], offsets[i + 2], swapflag);
    }
  }

  lemma SameNumber2(memory: seq<Byte>, more: seq<Byte>, n: nat, at: nat, swapflag: bool)
    requires at + 2 <= n <= |memory| && n <= |more| && memory[..n] == more[..n]
    ensures Number2(memory, at, swapflag) == Number2(more, at, swapflag)
  {
    assert memory[..n][at] == more[..n][at] && memory[..n][at + 1] == more[..n][at + 1];
  }

  lemma {:induction false} WalkReaches(memory: seq<Byte>, n: nat, offset: nat, swapflag: bool)
    requires n + 8 <= |memory| && WalkBlockettes(memory, n, offset, swapflag).Length?
    ensures 47 < offset && offset + 8 <= n
    decreases if offset <= n then n - offset + 1 else 0
  {
    hide Number2, ShiftedOne;
    if !Found1000(memory, n, offset, swapflag) {
      WalkReaches(memory, n, Number2(memory, offset + 2, swapflag), swapflag);
    }
  }

  /** A length found stays the same when more of the stream gets into the buffer. */
  lemma {:induction false} LengthStays(memory: seq<Byte>, n: nat, more: seq<Byte>, k: nat, offset: nat, swapflag: bool)
    requires n + 8 <= |memory| && n <= k && k + 8 <= |more| && memory[..n] == more[..n]
    requires WalkBlockettes(memory, n, offset, swapflag).Length?
    ensures WalkBlockettes(more, k, offset, swapflag) == WalkBlockettes(memory, n, offset, swapflag)
    decreases if offset <= n then n - offset + 1 else 0
  {
    hide Number2, ShiftedOne;
    WalkReaches(memory, n, offset, swapflag);
    SameNumber2(memory, more, n, offset, swapflag);
    SameNumber2(memory, more, n, offset + 2, swapflag);
    assert memory[..n][offset + 6] == more[..n][offset + 6];
    if !Found1000(memory, n, offset, swapflag) {
      LengthStays(memory, n, more, k, Number2(memory, offset + 2, swapflag), swapflag);
    }
  }
}
