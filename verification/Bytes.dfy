/** Numbers and words as the bytes of a little-endian host. */
module Bytes {
  import opened SteimWords

  type Byte = bv8

  // ----------------------------------------------------------------------- numbers

  /** A number as a byte; counted up, which proves more easily than a conversion. */
  function AsByte(v: int): (b: Byte)
    requires 0 <= v < 256
    ensures b as int == v
    decreases v
  {
    if v == 0 then 0 else AsByte(v - 1) + 1
  }

  function Low(n: nat): (b: Byte)
    ensures OfByte(b) == n % 256
  {
    AsByte(n % 256)
  }

  function OfByte(b: Byte): (n: nat)
    ensures n < 256
  {
    b as nat
  }

  function AsNumber(w: bv32): (n: nat)
    ensures n < 0x1_0000_0000
  {
    w as nat
  }

  /** The number of n bytes at a position, lowest byte first. */
  function Number(bs: seq<Byte>, at: nat, n: nat): nat
    requires at + n <= |bs|
    decreases n
  {
    if n == 0 then 0 else OfByte(bs[at]) + 256 * Number(bs, at + 1, n - 1)
  }

  /** A number in n bytes; what does not fit is dropped, as a C conversion does. */
  function Store(v: nat, n: nat): (bs: seq<Byte>)
    ensures |bs| == n
    decreases n
  {
    if n == 0 then [] else [Low(v)] + Store(v / 256, n - 1)
  }

  /** The number of two bytes at a position, highest byte first. */
  function Big16(bs: seq<Byte>, at: nat): nat
    requires at + 2 <= |bs|
  {
    OfByte(bs[at]) * 256 + OfByte(bs[at + 1])
  }

  function Power(n: nat): nat {
    if n == 0 then 1 else 256 * Power(n - 1)
  }

  lemma {:induction false} StoreNumber(v: nat, n: nat)
    requires v < Power(n)
    ensures Number(Store(v, n), 0, n) == v
    decreases n
  {
    hide Low, OfByte;
    if n > 0 {
      var bs, rest := Store(v, n), Store(v / 256, n - 1);
      StoreNumber(v / 256, n - 1);
      NumberShift(bs, 1, rest, 0, n - 1);
    }
  }

  lemma LowOfByte(b: Byte, v: nat)
    ensures Low(OfByte(b) + 256 * v) == b && (OfByte(b) + 256 * v) / 256 == v
  {}

  /** Storing the number of some bytes makes these bytes. */
  lemma {:induction false} NumberStored(bs: seq<Byte>, at: nat, n: nat)
    requires at + n <= |bs|
    ensures Store(Number(bs, at, n), n) == bs[at..at + n] && Number(bs, at, n) < Power(n)
    decreases n
  {
    hide Low, Store, OfByte;
    StoreStep(Number(bs, at, n), n);
    if n > 0 {
      NumberStored(bs, at + 1, n - 1);
      LowOfByte(bs[at], Number(bs, at + 1, n - 1));
      assert bs[at..at + n] == [bs[at]] + bs[at + 1..at + n];
    }
  }

  lemma StoreStep(v: nat, n: nat)
    ensures Store(v, n) == if n == 0 then [] else [Low(v)] + Store(v / 256, n - 1)
  {
    hide Low;
  }

  /** Equal bytes are equal numbers, wherever they stand. */
  lemma {:induction false} NumberShift(bs: seq<Byte>, at: nat, cs: seq<Byte>, to: nat, n: nat)
    requires at + n <= |bs| && to + n <= |cs| && bs[at..at + n] == cs[to..to + n]
    ensures Number(bs, at, n) == Number(cs, to, n)
    decreases n
  {
    if n > 0 {
      assert bs[at] == bs[at..at + n][0] && cs[to] == cs[to..to + n][0];
      assert bs[at + 1..at + n] == bs[at..at + n][1..];
      assert cs[to + 1..to + n] == cs[to..to + n][1..];
      NumberShift(bs, at + 1, cs, to + 1, n - 1);
    }
  }

  lemma SliceOfSlice(s: seq<Byte>, at: nat, n: nat, from: nat, to: nat)
    requires at + n <= |s| && from <= to <= n
    ensures s[at..at + n][from..to] == s[at + from..at + to]
  {
    var x, y := s[at..at + n][from..to], s[at + from..at + to];
    forall k | 0 <= k < to - from ensures x[k] == y[k] {
      assert x[k] == s[at..at + n][from + k];
    }
  }

  // ------------------------------------------------------------------------- words

  function WordOf(a: Byte, b: Byte, c: Byte, d: Byte): bv32 {
    a as bv32 | (b as bv32 << 8) | (c as bv32 << 16) | (d as bv32 << 24)
  }

  function ByteOf(w: bv32, k: nat): Byte
    requires k < 4
  {
    var shifted := if k == 0 then w else if k == 1 then w >> 8 else if k == 2 then w >> 16 else w >> 24;
    (shifted & 0xFF) as Byte
  }

  lemma WordOfBytes(w: bv32)
    ensures WordOf(ByteOf(w, 0), ByteOf(w, 1), ByteOf(w, 2), ByteOf(w, 3)) == w
  {}

  function FromWords(ws: seq<bv32>): (bs: seq<Byte>)
    ensures |bs| == 4 * |ws|
  {
    seq(4 * |ws|, i requires 0 <= i < 4 * |ws| => ByteOf(ws[i / 4], i % 4))
  }

  function ToWords(bs: seq<Byte>): (ws: seq<bv32>)
    ensures |ws| == |bs| / 4
  {
    seq(|bs| / 4, i requires 0 <= i < |bs| / 4 => WordOf(bs[4 * i], bs[4 * i + 1], bs[4 * i + 2], bs[4 * i + 3]))
  }

  lemma WordBytesAt(ws: seq<bv32>, i: nat, k: nat)
    requires i < |ws| && k < 4
    ensures FromWords(ws)[4 * i + k] == ByteOf(ws[i], k)
  {
    assert (4 * i + k) / 4 == i && (4 * i + k) % 4 == k;
  }

  /** Words come back from their bytes. */
  lemma WordsRoundTrip(ws: seq<bv32>)
    ensures ToWords(FromWords(ws)) == ws
  {
    hide WordOf, ByteOf, FromWords;
    forall i | 0 <= i < |ws| ensures ToWords(FromWords(ws))[i] == ws[i] {
      WordOfBytes(ws[i]);
      WordBytesAt(ws, i, 0);
      WordBytesAt(ws, i, 1);
      WordBytesAt(ws, i, 2);
      WordBytesAt(ws, i, 3);
    }
  }

  // ------------------------------------------------------------------------ halves

  function Low16(h: bv32): bv32 {
    h & 0xFFFF
  }

  function HalfOf(a: Byte, b: Byte): bv32 {
    a as bv32 | (b as bv32 << 8)
  }

  function FromHalves(hs: seq<bv32>): (bs: seq<Byte>)
    ensures |bs| == 2 * |hs|
  {
    seq(2 * |hs|, i requires 0 <= i < 2 * |hs| => ByteOf(hs[i / 2], i % 2))
  }

  function ToHalves(bs: seq<Byte>): (hs: seq<bv32>)
    ensures |hs| == |bs| / 2
  {
    seq(|bs| / 2, i requires 0 <= i < |bs| / 2 => HalfOf(bs[2 * i], bs[2 * i + 1]))
  }

  lemma HalfOfBytes(h: bv32)
    ensures HalfOf(ByteOf(h, 0), ByteOf(h, 1)) == Low16(h)
  {}

  lemma HalvesRoundTrip(hs: seq<bv32>)
    ensures ToHalves(FromHalves(hs)) == seq(|hs|, i requires 0 <= i < |hs| => Low16(hs[i]))
  {
    hide HalfOf, ByteOf, Low16;
    var bs := FromHalves(hs);
    forall i | 0 <= i < |hs| ensures ToHalves(bs)[i] == Low16(hs[i]) {
      HalfOfBytes(hs[i]);
      assert bs[2 * i] == ByteOf(hs[i], 0) && bs[2 * i + 1] == ByteOf(hs[i], 1);
    }
  }

  // ------------------------------------------------------------------------- longs

  function Lower(x: bv64): bv32 {
    (x & 0xFFFF_FFFF) as bv32
  }

  function Upper(x: bv64): bv32 {
    (x >> 32) as bv32
  }

  function LongOf(lower: bv32, upper: bv32): bv64 {
    (upper as bv64 << 32) | lower as bv64
  }

  /** A 64-bit word in the other byte order: both halves swapped, and their places. */
  function HostLong(x: bv64, swap: bool): bv64 {
    if swap then LongOf(Host(Upper(x), true), Host(Lower(x), true)) else x
  }

  lemma LongOfHalves(x: bv64)
    ensures LongOf(Lower(x), Upper(x)) == x
  {}

  lemma HalvesOfLong(lower: bv32, upper: bv32)
    ensures Lower(LongOf(lower, upper)) == lower && Upper(LongOf(lower, upper)) == upper
  {}

  lemma HostLongInvolution(x: bv64, swap: bool)
    ensures HostLong(HostLong(x, swap), swap) == x
  {
    if swap {
      hide Host, Lower, Upper, LongOf;
      HalvesOfLong(Host(Upper(x), true), Host(Lower(x), true));
      HostInvolution(Lower(x), true);
      HostInvolution(Upper(x), true);
      LongOfHalves(x);
    }
  }

  function FromLongs(xs: seq<bv64>): (bs: seq<Byte>)
    ensures |bs| == 8 * |xs|
  {
    FromWords(seq(2 * |xs|, i requires 0 <= i < 2 * |xs| => if i % 2 == 0 then Lower(xs[i / 2]) else Upper(xs[i / 2])))
  }

  function ToLongs(bs: seq<Byte>): (xs: seq<bv64>)
    ensures |xs| == |bs| / 8
  {
    seq(|bs| / 8, i requires 0 <= i < |bs| / 8 => LongOf(ToWords(bs)[2 * i], ToWords(bs)[2 * i + 1]))
  }

  lemma LongsRoundTrip(xs: seq<bv64>)
    ensures ToLongs(FromLongs(xs)) == xs
  {
    hide Lower, Upper, LongOf, FromWords, ToWords;
    var ws := seq(2 * |xs|, i requires 0 <= i < 2 * |xs| => if i % 2 == 0 then Lower(xs[i / 2]) else Upper(xs[i / 2]));
    WordsRoundTrip(ws);
    forall i | 0 <= i < |xs| ensures ToLongs(FromLongs(xs))[i] == xs[i] {
      LongOfHalves(xs[i]);
      assert ws[2 * i] == Lower(xs[i]) && ws[2 * i + 1] == Upper(xs[i]);
    }
  }
}
