/**
 * Byte order: a swapped word is stored with its highest byte first, so that the number which its
 * bytes make, read that way, is the value of the word.
 */
module ByteOrder {
  import opened SteimWords
  import opened Bytes

  // ------------------------------------------------------------------- bytes change places

  lemma SwappedBytes(w: bv32, k: nat)
    requires k < 4
    ensures ByteOf(Host(w, true), k) == ByteOf(w, 3 - k)
  {
    SwappedBytesAre(w);
  }

  lemma SwappedBytesAre(w: bv32)
    ensures ByteOf(Host(w, true), 0) == ByteOf(w, 3) && ByteOf(Host(w, true), 1) == ByteOf(w, 2)
    ensures ByteOf(Host(w, true), 2) == ByteOf(w, 1) && ByteOf(Host(w, true), 3) == ByteOf(w, 0)
  {}

  lemma SwappedHalf(h: bv32)
    ensures ByteOf(Half(h, true), 0) == ByteOf(h, 1) && ByteOf(Half(h, true), 1) == ByteOf(h, 0)
    ensures ByteOf(Half(h, false), 0) == ByteOf(h, 0) && ByteOf(Half(h, false), 1) == ByteOf(h, 1)
  {}

  /** The bytes of a 64-bit word in memory. */
  function LongByte(x: bv64, k: nat): Byte
    requires k < 8
  {
    ByteOf(if k < 4 then Lower(x) else Upper(x), k % 4)
  }

  lemma SwappedLong(x: bv64, k: nat)
    requires k < 8
    ensures LongByte(HostLong(x, true), k) == LongByte(x, 7 - k)
  {
    hide Host, Lower, Upper, LongOf, ByteOf;
    HalvesOfLong(Host(Upper(x), true), Host(Lower(x), true));
    SwappedBytes(if k < 4 then Upper(x) else Lower(x), k % 4);
  }

  // -------------------------------------------------------------------------- as numbers

  /** The number of four bytes at a position, highest byte first. */
  function Big32(bs: seq<Byte>, at: nat): nat
    requires at + 4 <= |bs|
  {
    16777216 * OfByte(bs[at]) + 65536 * OfByte(bs[at + 1]) + 256 * OfByte(bs[at + 2]) + OfByte(bs[at + 3])
  }

  /** The same with the lowest byte first, and for two bytes. */
  function Little32(bs: seq<Byte>, at: nat): nat
    requires at + 4 <= |bs|
  {
    OfByte(bs[at]) + 256 * OfByte(bs[at + 1]) + 65536 * OfByte(bs[at + 2]) + 16777216 * OfByte(bs[at + 3])
  }

  function Little16(bs: seq<Byte>, at: nat): nat
    requires at + 2 <= |bs|
  {
    OfByte(bs[at]) + 256 * OfByte(bs[at + 1])
  }

  /** Numbers in headers have their lowest byte first. */
  lemma NumberIsLittle(bs: seq<Byte>, at: nat)
    ensures at + 2 <= |bs| ==> Number(bs, at, 2) == Little16(bs, at)
    ensures at + 4 <= |bs| ==> Number(bs, at, 4) == Little32(bs, at)
  {
    hide OfByte;
    if at + 4 <= |bs| {
      assert Number(bs, at + 3, 1) == OfByte(bs[at + 3]);
      assert Number(bs, at + 2, 2) == OfByte(bs[at + 2]) + 256 * OfByte(bs[at + 3]);
    }
  }

  function Push(high: bv32, low: Byte): bv32 {
    (high << 8) | low as bv32
  }

  lemma PushedNumber(high: bv32, low: Byte)
    requires high < 0x100_0000
    ensures AsNumber(Push(high, low)) == 256 * AsNumber(high) + OfByte(low)
  {}

  function Above(w: bv32): bv32 {
    w >> 8
  }

  lemma Pushed(w: bv32)
    ensures Above(w) < 0x100_0000 && w == Push(Above(w), ByteOf(w, 0))
  {}

  lemma NextByte(w: bv32)
    ensures ByteOf(Above(w), 0) == ByteOf(w, 1) && ByteOf(Above(w), 1) == ByteOf(w, 2) && ByteOf(Above(w), 2) == ByteOf(w, 3)
  {}

  lemma ThreeAbove(w: bv32)
    ensures Above(Above(Above(w))) < 0x100
  {}

  lemma SmallWord(w: bv32)
    requires w < 0x100
    ensures AsNumber(w) == OfByte(ByteOf(w, 0))
  {}

  /** A word is the number of its bytes. */
  lemma WordNumber(w: bv32)
    ensures AsNumber(w) == OfByte(ByteOf(w, 0)) + 256 * OfByte(ByteOf(w, 1)) + 65536 * OfByte(ByteOf(w, 2)) + 16777216 * OfByte(ByteOf(w, 3))
  {
    hide *;
    var h1 := Above(w);
    var h2 := Above(h1);
    var h3 := Above(h2);
    Pushed(w);
    Pushed(h1);
    Pushed(h2);
    NextByte(w);
    NextByte(h1);
    NextByte(h2);
    ThreeAbove(w);
    PushedNumber(h1, ByteOf(w, 0));
    PushedNumber(h2, ByteOf(h1, 0));
    PushedNumber(h3, ByteOf(h2, 0));
    SmallWord(h3);
  }

  /** A word stored with a swap reads as a number with its highest byte first, without one with its lowest byte first. */
  lemma StoredWord(ws: seq<bv32>, i: nat, w: bv32, swap: bool)
    requires i < |ws| && ws[i] == Host(w, swap)
    ensures 4 * i + 4 <= |FromWords(ws)| && Number32(FromWords(ws), 4 * i, swap) == AsNumber(w)
  {
    hide Host, ByteOf, OfByte, AsNumber, FromWords;
    WordBytesAt(ws, i, 0);
    WordBytesAt(ws, i, 1);
    WordBytesAt(ws, i, 2);
    WordBytesAt(ws, i, 3);
    HostPlain(w);
    SwappedBytesAre(w);
    WordNumber(w);
  }

  lemma HalfNumber(h: bv32)
    ensures AsNumber(h) % 65536 == OfByte(ByteOf(h, 0)) + 256 * OfByte(ByteOf(h, 1))
  {
    hide *;
    WordNumber(h);
    var low, high := OfByte(ByteOf(h, 0)) + 256 * OfByte(ByteOf(h, 1)), OfByte(ByteOf(h, 2)) + 256 * OfByte(ByteOf(h, 3));
    LowPart(low, high);
  }

  lemma LowPart(low: nat, high: nat)
    requires low < 65536
    ensures (low + 65536 * high) % 65536 == low
  {}

  /** The same for the lower halves of words. */
  lemma StoredHalf(hs: seq<bv32>, i: nat, h: bv32, swap: bool)
    requires i < |hs| && hs[i] == Half(h, swap)
    ensures 2 * i + 2 <= |FromHalves(hs)| && Number16(FromHalves(hs), 2 * i, swap) == AsNumber(h) % 65536
  {
    SwappedHalf(h);
    HalfNumber(h);
    hide Half, ByteOf, OfByte, AsNumber;
    assert FromHalves(hs)[2 * i] == ByteOf(hs[i], 0) && FromHalves(hs)[2 * i + 1] == ByteOf(hs[i], 1);
  }

  /** The value of a 64-bit word. */
  function LongNumber(x: bv64): nat {
    4294967296 * AsNumber(Upper(x)) + AsNumber(Lower(x))
  }

  lemma LongsAsWords(xs: seq<bv64>) returns (ws: seq<bv32>)
    ensures FromLongs(xs) == FromWords(ws) && |ws| == 2 * |xs|
    ensures forall i | 0 <= i < |xs| :: ws[2 * i] == Lower(xs[i]) && ws[2 * i + 1] == Upper(xs[i])
  {
    ws := seq(2 * |xs|, i requires 0 <= i < 2 * |xs| => if i % 2 == 0 then Lower(xs[i / 2]) else Upper(xs[i / 2]));
  }

  /** The number of eight bytes at a position, in either order. */
  function Number64(bs: seq<Byte>, at: nat, big: bool): nat
    requires at + 8 <= |bs|
  {
    if big then 4294967296 * Big32(bs, at) + Big32(bs, at + 4) else Little32(bs, at) + 4294967296 * Little32(bs, at + 4)
  }

  lemma StoredLong(xs: seq<bv64>, i: nat, x: bv64, swap: bool)
    requires i < |xs| && xs[i] == HostLong(x, swap)
    ensures 8 * i + 8 <= |FromLongs(xs)| && Number64(FromLongs(xs), 8 * i, swap) == LongNumber(x)
  {
    hide Lower, Upper, LongOf, HostLong, Host, FromWords, FromLongs, AsNumber, OfByte;
    LongWords(x, swap);
    var ws := LongsAsWords(xs);
    StoredWord(ws, 2 * i, if swap then Upper(x) else Lower(x), swap);
    StoredWord(ws, 2 * i + 1, if swap then Lower(x) else Upper(x), swap);
  }

  lemma LongWords(x: bv64, swap: bool)
    ensures Lower(HostLong(x, swap)) == Host(if swap then Upper(x) else Lower(x), swap)
    ensures Upper(HostLong(x, swap)) == Host(if swap then Lower(x) else Upper(x), swap)
  {
    HalvesOfLong(Host(Upper(x), true), Host(Lower(x), true));
    HostPlain(Lower(x));
    HostPlain(Upper(x));
    hide Host, Lower, Upper, LongOf;
  }

  /** The number of four bytes, in either order, and of two. */
  function Number32(bs: seq<Byte>, at: nat, big: bool): nat
    requires at + 4 <= |bs|
  {
    if big then Big32(bs, at) else Little32(bs, at)
  }

  function Number16(bs: seq<Byte>, at: nat, big: bool): nat
    requires at + 2 <= |bs|
  {
    if big then Big16(bs, at) else Little16(bs, at)
  }

  // ---------------------------------------------------------------- words of Steim frames

  /** The k-th pair of bits of a byte, the highest first. */
  function Pair(b: Byte, k: nat): bv32
    requires k < 4
  {
    match k
    case 0 => (b >> 6) as bv32
    case 1 => ((b >> 4) & 3) as bv32
    case 2 => ((b >> 2) & 3) as bv32
    case _ => (b & 3) as bv32
  }

  /** The nibble of word k stands in byte k / 4 of the control word as it is stored, the first of four highest. */
  lemma NibbleInByte(w: bv32, k: nat)
    requires k < 16
    ensures Nibble(Host(w, true), k) == Pair(ByteOf(w, k / 4), k % 4)
  {
    hide Host, Nibble, ByteOf, Pair;
    SwappedBytesAre(w);
    NibbleOfByte(Host(w, true), k);
  }

  lemma NibbleOfByte(c: bv32, k: nat)
    requires k < 16
    ensures Nibble(c, k) == Pair(ByteOf(c, 3 - k / 4), k % 4)
  {
    hide Nibble, ByteOf, Pair;
    NibblesOfByte(c, k / 4);
    assert k == 4 * (k / 4) + k % 4;
  }

  lemma NibblesOfByte(c: bv32, i: nat)
    requires i < 4
    ensures Nibble(c, 4 * i) == Pair(ByteOf(c, 3 - i), 0) && Nibble(c, 4 * i + 1) == Pair(ByteOf(c, 3 - i), 1)
    ensures Nibble(c, 4 * i + 2) == Pair(ByteOf(c, 3 - i), 2) && Nibble(c, 4 * i + 3) == Pair(ByteOf(c, 3 - i), 3)
  {
    match i
    case 0 => HighestNibbles(c);
    case 1 => HigherNibbles(c);
    case 2 => LowerNibbles(c);
    case _ => LowestNibbles(c);
  }

  lemma HighestNibbles(c: bv32)
    ensures Nibble(c, 0) == Pair(ByteOf(c, 3), 0) && Nibble(c, 1) == Pair(ByteOf(c, 3), 1)
    ensures Nibble(c, 2) == Pair(ByteOf(c, 3), 2) && Nibble(c, 3) == Pair(ByteOf(c, 3), 3)
  {}

  lemma HigherNibbles(c: bv32)
    ensures Nibble(c, 4) == Pair(ByteOf(c, 2), 0) && Nibble(c, 5) == Pair(ByteOf(c, 2), 1)
    ensures Nibble(c, 6) == Pair(ByteOf(c, 2), 2) && Nibble(c, 7) == Pair(ByteOf(c, 2), 3)
  {}

  lemma LowerNibbles(c: bv32)
    ensures Nibble(c, 8) == Pair(ByteOf(c, 1), 0) && Nibble(c, 9) == Pair(ByteOf(c, 1), 1)
    ensures Nibble(c, 10) == Pair(ByteOf(c, 1), 2) && Nibble(c, 11) == Pair(ByteOf(c, 1), 3)
  {}

  lemma LowestNibbles(c: bv32)
    ensures Nibble(c, 12) == Pair(ByteOf(c, 0), 0) && Nibble(c, 13) == Pair(ByteOf(c, 0), 1)
    ensures Nibble(c, 14) == Pair(ByteOf(c, 0), 2) && Nibble(c, 15) == Pair(ByteOf(c, 0), 3)
  {}
}
