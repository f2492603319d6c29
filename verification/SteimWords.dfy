/**
 * One 32-bit word of a Steim frame: how differences are stored in it and how
 * they are read back.
 *
 * An int32_t is a bv32 in two's complement, so the subtraction that makes a
 * difference and the addition that undoes it are the wrapping ones.  The host
 * is little endian; `swap` is the caller's swapflag.
 */
module SteimWords {
  import opened Wrappers

  datatype Version = Steim1 | Steim2

  // ---------------------------------------------------------------- byte order

  function Swap4(w: bv32): bv32 {
    (w << 24) | ((w & 0xFF00) << 8) | ((w >> 8) & 0xFF00) | (w >> 24)
  }

  function Swap2(h: bv32): bv32 {
    ((h & 0xFF) << 8) | ((h >> 8) & 0xFF)
  }

  /** The word as the host sees it, for a word stored with or without a swap. */
  function Host(w: bv32, swap: bool): bv32 {
    if swap then Swap4(w) else w
  }

  function Half(h: bv32, swap: bool): bv32 {
    if swap then Swap2(h) else h & 0xFFFF
  }

  lemma HostPlain(w: bv32)
    ensures Host(w, false) == w
  {}

  lemma HostInvolution(w: bv32, swap: bool)
    ensures Host(Host(w, swap), swap) == w
  {}

  // ------------------------------------------------------------- signed values

  function Plus(a: bv32, b: bv32): bv32 {
    a + b
  }

  function Minus(a: bv32, b: bv32): bv32 {
    a - b
  }

  lemma PlusDirect(a: bv32, b: bv32)
    ensures Plus(a, b - a) == b
  {}

  /** Adding a difference back gives the value it leads to, whether or not the subtraction wrapped. */
  lemma PlusMinus(a: bv32, b: bv32)
    ensures Plus(a, Minus(b, a)) == b
  {
    hide Plus;
    PlusDirect(a, b);
  }

  lemma MinusDirect(a: bv32, d: bv32)
    ensures Minus(a + d, a) == d
  {}

  /** Two consecutive samples determine the difference between them. */
  lemma MinusPlus(a: bv32, d: bv32)
    ensures Minus(Plus(a, d), a) == d
  {
    hide Minus;
    MinusDirect(a, d);
  }

  predicate SignedLeq(a: bv32, b: bv32) {
    (a ^ 0x8000_0000) <= (b ^ 0x8000_0000)
  }

  predicate Between(lo: bv32, v: bv32, hi: bv32) {
    SignedLeq(lo, v) && SignedLeq(v, hi)
  }

  /** The width chosen by the BITWIDTH macro. */
  function BitWidth(v: bv32): nat {
    if Between(0xFFFF_FFF8, v, 7) then 4
    else if Between(0xFFFF_FFF0, v, 15) then 5
    else if Between(0xFFFF_FFE0, v, 31) then 6
    else if Between(0xFFFF_FF80, v, 127) then 8
    else if Between(0xFFFF_FE00, v, 511) then 10
    else if Between(0xFFFF_C000, v, 16383) then 15
    else if Between(0xFFFF_8000, v, 32767) then 16
    else if Between(0xE000_0000, v, 536870911) then 30
    else 32
  }

  /** Sign extension as the decoder does it: flip the sign bit and subtract it. */
  function SignExtend(x: bv32, signBit: bv32): bv32 {
    (x ^ signBit) - signBit
  }

  /** The field of a word that starts at bit `start` and is `mask` wide. */
  function Field(w: bv32, start: bv5, mask: bv32): (f: bv32)
    ensures f <= mask
  {
    (w >> start) & mask
  }

  lemma RangesGrow(v: bv32)
    ensures Between(0xFFFF_FFF8, v, 7) ==> Between(0xFFFF_FFF0, v, 15)
    ensures Between(0xFFFF_FFF0, v, 15) ==> Between(0xFFFF_FFE0, v, 31)
    ensures Between(0xFFFF_FFE0, v, 31) ==> Between(0xFFFF_FF80, v, 127)
    ensures Between(0xFFFF_FF80, v, 127) ==> Between(0xFFFF_FE00, v, 511)
    ensures Between(0xFFFF_FE00, v, 511) ==> Between(0xFFFF_C000, v, 16383)
    ensures Between(0xFFFF_C000, v, 16383) ==> Between(0xFFFF_8000, v, 32767)
    ensures Between(0xFFFF_8000, v, 32767) ==> Between(0xE000_0000, v, 536870911)
  {}

  lemma ExtendedRange(x: bv32)
    ensures x <= 0xF ==> Between(0xFFFF_FFF8, SignExtend(x, 8), 7)
    ensures x <= 0x1F ==> Between(0xFFFF_FFF0, SignExtend(x, 0x10), 15)
    ensures x <= 0x3F ==> Between(0xFFFF_FFE0, SignExtend(x, 0x20), 31)
    ensures x <= 0xFF ==> Between(0xFFFF_FF80, SignExtend(x, 0x80), 127)
    ensures x <= 0x3FF ==> Between(0xFFFF_FE00, SignExtend(x, 0x200), 511)
    ensures x <= 0x7FFF ==> Between(0xFFFF_C000, SignExtend(x, 0x4000), 16383)
    ensures x <= 0x3FFF_FFFF ==> Between(0xE000_0000, SignExtend(x, 0x2000_0000), 536870911)
  {}

  /** Conversely, a sign-extended field has the width of that field. */
  lemma ExtendedWidth(x: bv32)
    ensures x <= 0xF ==> BitWidth(SignExtend(x, 8)) <= 4
    ensures x <= 0x1F ==> BitWidth(SignExtend(x, 0x10)) <= 5
    ensures x <= 0x3F ==> BitWidth(SignExtend(x, 0x20)) <= 6
    ensures x <= 0xFF ==> BitWidth(SignExtend(x, 0x80)) <= 8
    ensures x <= 0x3FF ==> BitWidth(SignExtend(x, 0x200)) <= 10
    ensures x <= 0x7FFF ==> BitWidth(SignExtend(x, 0x4000)) <= 15
    ensures x <= 0x3FFF_FFFF ==> BitWidth(SignExtend(x, 0x2000_0000)) <= 30
  {
    ExtendedRange(x);
    RangesGrow(SignExtend(x, 8));
    RangesGrow(SignExtend(x, 0x10));
    RangesGrow(SignExtend(x, 0x20));
    RangesGrow(SignExtend(x, 0x80));
    RangesGrow(SignExtend(x, 0x200));
    RangesGrow(SignExtend(x, 0x4000));
    hide SignExtend, SignedLeq, Between;
  }

  /** The field widths of Steim-2. */
  predicate FieldSize(n: nat) {
    n == 4 || n == 5 || n == 6 || n == 8 || n == 10 || n == 15 || n == 30
  }

  /** The n-bit field of a word that starts at bit `start`, read as a signed number. */
  function SignedField(w: bv32, start: bv5, n: nat): bv32
    requires FieldSize(n)
  {
    SignExtend(Field(w, start, Mask(n)), SignBit(n))
  }

  lemma SignedFieldWidth(w: bv32, start: bv5, n: nat)
    requires FieldSize(n)
    ensures BitWidth(SignedField(w, start, n)) <= n
  {
    ExtendedWidth(Field(w, start, Mask(n)));
    hide SignExtend, BitWidth, Field;
  }

  function Mask(n: nat): bv32 {
    match n
    case 4 => 0xF
    case 5 => 0x1F
    case 6 => 0x3F
    case 8 => 0xFF
    case 10 => 0x3FF
    case 15 => 0x7FFF
    case _ => 0x3FFF_FFFF
  }

  function SignBit(n: nat): bv32 {
    match n
    case 4 => 8
    case 5 => 0x10
    case 6 => 0x20
    case 8 => 0x80
    case 10 => 0x200
    case 15 => 0x4000
    case _ => 0x2000_0000
  }

  // ------------------------------------------------------------- control words

  /** The position of the nibble of word `widx` in a control word: 30 - 2 * widx. */
  function NibbleShift(widx: nat): bv5
    requires widx < 16
  {
    match widx
    case 0 => 30
    case 1 => 28
    case 2 => 26
    case 3 => 24
    case 4 => 22
    case 5 => 20
    case 6 => 18
    case 7 => 16
    case 8 => 14
    case 9 => 12
    case 10 => 10
    case 11 => 8
    case 12 => 6
    case 13 => 4
    case 14 => 2
    case _ => 0
  }

  function TwoBitsAt(c: bv32, s: bv5): bv32 {
    (c >> s) & 3
  }

  function OrAt(c: bv32, x: bv32, s: bv5): bv32 {
    c | (x << s)
  }

  function Nibble(ctrl: bv32, widx: nat): bv32
    requires widx < 16
  {
    TwoBitsAt(ctrl, NibbleShift(widx))
  }

  function SetNibble(ctrl: bv32, widx: nat, nib: bv32): bv32
    requires widx < 16
  {
    OrAt(ctrl, nib, NibbleShift(widx))
  }

  lemma NibbleShiftEven(widx: nat)
    requires widx < 16
    ensures NibbleShift(widx) & 1 == 0
  {}

  lemma NibbleShiftInjective(v: nat, w: nat)
    requires v < 16 && w < 16 && v != w
    ensures NibbleShift(v) != NibbleShift(w)
  {}

  lemma OrSameBits(c: bv32, nib: bv32, s: bv5)
    requires nib <= 3 && s & 1 == 0 && TwoBitsAt(c, s) == 0
    ensures TwoBitsAt(OrAt(c, nib, s), s) == nib
  {}

  lemma OrOtherBits(c: bv32, nib: bv32, s: bv5, t: bv5)
    requires nib <= 3 && s & 1 == 0 && t & 1 == 0 && s != t
    ensures TwoBitsAt(OrAt(c, nib, s), t) == TwoBitsAt(c, t)
  {}

  /** Or-ing a nibble into an empty place sets it ... */
  lemma SetNibbleHere(ctrl: bv32, widx: nat, nib: bv32)
    requires widx < 16 && nib <= 3 && Nibble(ctrl, widx) == 0
    ensures Nibble(SetNibble(ctrl, widx, nib), widx) == nib
  {
    hide NibbleShift, TwoBitsAt, OrAt;
    NibbleShiftEven(widx);
    OrSameBits(ctrl, nib, NibbleShift(widx));
  }

  /** ... and disturbs no other nibble. */
  lemma SetNibbleElsewhere(ctrl: bv32, widx: nat, nib: bv32, k: nat)
    requires widx < 16 && k < 16 && k != widx && nib <= 3
    ensures Nibble(SetNibble(ctrl, widx, nib), k) == Nibble(ctrl, k)
  {
    hide NibbleShift, TwoBitsAt, OrAt;
    NibbleShiftEven(widx);
    NibbleShiftEven(k);
    NibbleShiftInjective(widx, k);
    OrOtherBits(ctrl, nib, NibbleShift(widx), NibbleShift(k));
  }

  lemma ZeroControl(widx: nat)
    requires widx < 16
    ensures Nibble(0, widx) == 0
  {
    var s := NibbleShift(widx);
    assert (0 as bv32) >> s == 0;
  }

  // ------------------------------------------------- reading a word (the format)

  function ByteDiffs(w: bv32): seq<bv32> {
    [SignedField(w, 0, 8), SignedField(w, 8, 8),
     SignedField(w, 16, 8), SignedField(w, 24, 8)]
  }

  /** The differences in one Steim-1 word; `w` is the word as stored. */
  function WordDiffs1(nib: bv32, w: bv32, swap: bool): seq<bv32> {
    if nib == 1 then ByteDiffs(w)
    else if nib == 2 then
      [SignExtend(Half(w & 0xFFFF, swap), 0x8000), SignExtend(Half(w >> 16, swap), 0x8000)]
    else if nib == 3 then [Host(w, swap)]
    else []
  }

  /** How many differences a Steim-2 word holds, by its nibble and its own top two bits; None if undefined. */
  function Count2(nib: bv32, dnib: bv32): Option<nat> {
    if nib == 0 then Some(0)
    else if nib == 1 then Some(4)
    else if nib == 2 then
      if dnib == 0 then None else if dnib == 1 then Some(1) else if dnib == 2 then Some(2) else Some(3)
    else
      if dnib == 0 then Some(5) else if dnib == 1 then Some(6) else if dnib == 2 then Some(7) else None
  }

  /** The `m` differences of a Steim-2 word other than the byte-wise one; `x` is the word in host order. */
  function Fields2(x: bv32, m: nat): (d: seq<bv32>)
    requires m <= 7
    ensures m != 4 ==> |d| == m
  {
    match m
    case 1 => [SignedField(x, 0, 30)]
    case 2 => [SignedField(x, 15, 15), SignedField(x, 0, 15)]
    case 3 => [SignedField(x, 20, 10), SignedField(x, 10, 10), SignedField(x, 0, 10)]
    case 5 => [SignedField(x, 24, 6), SignedField(x, 18, 6), SignedField(x, 12, 6), SignedField(x, 6, 6),
               SignedField(x, 0, 6)]
    case 6 => [SignedField(x, 25, 5), SignedField(x, 20, 5), SignedField(x, 15, 5), SignedField(x, 10, 5),
               SignedField(x, 5, 5), SignedField(x, 0, 5)]
    case 7 => [SignedField(x, 24, 4), SignedField(x, 20, 4), SignedField(x, 16, 4), SignedField(x, 12, 4),
               SignedField(x, 8, 4), SignedField(x, 4, 4), SignedField(x, 0, 4)]
    case _ => []
  }

  /** The differences in one Steim-2 word, or None for an undefined nibble pair; `w` is the word as stored. */
  function WordDiffs2(nib: bv32, w: bv32, swap: bool): Option<seq<bv32>> {
    var x := Host(w, swap);
    match Count2(nib, Field(x, 30, 3))
    case None => None
    case Some(m) => Some(if m == 4 then ByteDiffs(w) else Fields2(x, m))
  }

  function WordDiffs(ver: Version, nib: bv32, w: bv32, swap: bool): Option<seq<bv32>> {
    match ver
    case Steim1 => Some(WordDiffs1(nib, w, swap))
    case Steim2 => WordDiffs2(nib, w, swap)
  }

  // ---------------------------------------------------- writing a word (encoder)

  lemma Cut4(v: bv32)
    requires Between(0xFFFF_FFF8, v, 7)
    ensures SignExtend(v & 0xF, 8) == v
  {}

  lemma Cut5(v: bv32)
    requires Between(0xFFFF_FFF0, v, 15)
    ensures SignExtend(v & 0x1F, 0x10) == v
  {}

  lemma Cut6(v: bv32)
    requires Between(0xFFFF_FFE0, v, 31)
    ensures SignExtend(v & 0x3F, 0x20) == v
  {}

  lemma Cut8(v: bv32)
    requires Between(0xFFFF_FF80, v, 127)
    ensures SignExtend(v & 0xFF, 0x80) == v
  {}

  lemma Cut10(v: bv32)
    requires Between(0xFFFF_FE00, v, 511)
    ensures SignExtend(v & 0x3FF, 0x200) == v
  {}

  lemma Cut15(v: bv32)
    requires Between(0xFFFF_C000, v, 16383)
    ensures SignExtend(v & 0x7FFF, 0x4000) == v
  {}

  lemma Cut16(v: bv32)
    requires Between(0xFFFF_8000, v, 32767)
    ensures SignExtend(v & 0xFFFF, 0x8000) == v
  {}

  lemma Cut30(v: bv32)
    requires Between(0xE000_0000, v, 536870911)
    ensures SignExtend(v & 0x3FFF_FFFF, 0x2000_0000) == v
  {}

  /** A value whose BITWIDTH is at most `n` survives being cut to `n` bits. */
  lemma CutAndExtend(v: bv32)
    ensures BitWidth(v) <= 4 ==> SignExtend(v & 0xF, 8) == v
    ensures BitWidth(v) <= 5 ==> SignExtend(v & 0x1F, 0x10) == v
    ensures BitWidth(v) <= 6 ==> SignExtend(v & 0x3F, 0x20) == v
    ensures BitWidth(v) <= 8 ==> SignExtend(v & 0xFF, 0x80) == v
    ensures BitWidth(v) <= 10 ==> SignExtend(v & 0x3FF, 0x200) == v
    ensures BitWidth(v) <= 15 ==> SignExtend(v & 0x7FFF, 0x4000) == v
    ensures BitWidth(v) <= 16 ==> SignExtend(v & 0xFFFF, 0x8000) == v
    ensures BitWidth(v) <= 30 ==> SignExtend(v & 0x3FFF_FFFF, 0x2000_0000) == v
  {
    RangesGrow(v);
    hide SignExtend;
    if BitWidth(v) <= 4 { Cut4(v); }
    if BitWidth(v) <= 5 { Cut5(v); }
    if BitWidth(v) <= 6 { Cut6(v); }
    if BitWidth(v) <= 8 { Cut8(v); }
    if BitWidth(v) <= 10 { Cut10(v); }
    if BitWidth(v) <= 15 { Cut15(v); }
    if BitWidth(v) <= 16 { Cut16(v); }
    if BitWidth(v) <= 30 { Cut30(v); }
  }

  function Word4x8(a: bv32, b: bv32, c: bv32, d: bv32): bv32 {
    (a & 0xFF) | ((b & 0xFF) << 8) | ((c & 0xFF) << 16) | ((d & 0xFF) << 24)
  }

  function Word2x16(a: bv32, b: bv32, swap: bool): bv32 {
    Half(a & 0xFFFF, swap) | (Half(b & 0xFFFF, swap) << 16)
  }

  function Word7x4(a: bv32, b: bv32, c: bv32, d: bv32, e: bv32, f: bv32, g: bv32): bv32 {
    (g & 0xF) | ((f & 0xF) << 4) | ((e & 0xF) << 8) | ((d & 0xF) << 12) |
    ((c & 0xF) << 16) | ((b & 0xF) << 20) | ((a & 0xF) << 24) | (2 << 30)
  }

  function Word6x5(a: bv32, b: bv32, c: bv32, d: bv32, e: bv32, f: bv32): bv32 {
    (f & 0x1F) | ((e & 0x1F) << 5) | ((d & 0x1F) << 10) | ((c & 0x1F) << 15) |
    ((b & 0x1F) << 20) | ((a & 0x1F) << 25) | (1 << 30)
  }

  function Word5x6(a: bv32, b: bv32, c: bv32, d: bv32, e: bv32): bv32 {
    (e & 0x3F) | ((d & 0x3F) << 6) | ((c & 0x3F) << 12) | ((b & 0x3F) << 18) | ((a & 0x3F) << 24)
  }

  function Word3x10(a: bv32, b: bv32, c: bv32): bv32 {
    (c & 0x3FF) | ((b & 0x3FF) << 10) | ((a & 0x3FF) << 20) | (3 << 30)
  }

  function Word2x15(a: bv32, b: bv32): bv32 {
    (b & 0x7FFF) | ((a & 0x7FFF) << 15) | (2 << 30)
  }

  function Word1x30(a: bv32): bv32 {
    (a & 0x3FFF_FFFF) | (1 << 30)
  }

  lemma Fields4x8(a: bv32, b: bv32, c: bv32, d: bv32)
    ensures Field(Word4x8(a, b, c, d), 0, 0xFF) == a & 0xFF
    ensures Field(Word4x8(a, b, c, d), 8, 0xFF) == b & 0xFF
    ensures Field(Word4x8(a, b, c, d), 16, 0xFF) == c & 0xFF
    ensures Field(Word4x8(a, b, c, d), 24, 0xFF) == d & 0xFF
  {}

  lemma Fields7x4(a: bv32, b: bv32, c: bv32, d: bv32, e: bv32, f: bv32, g: bv32)
    ensures var w := Word7x4(a, b, c, d, e, f, g);
            && Field(w, 30, 3) == 2 && Field(w, 24, 0xF) == a & 0xF && Field(w, 20, 0xF) == b & 0xF
            && Field(w, 16, 0xF) == c & 0xF && Field(w, 12, 0xF) == d & 0xF && Field(w, 8, 0xF) == e & 0xF
            && Field(w, 4, 0xF) == f & 0xF && Field(w, 0, 0xF) == g & 0xF
  {}

  lemma Fields6x5(a: bv32, b: bv32, c: bv32, d: bv32, e: bv32, f: bv32)
    ensures var w := Word6x5(a, b, c, d, e, f);
            && Field(w, 30, 3) == 1 && Field(w, 25, 0x1F) == a & 0x1F && Field(w, 20, 0x1F) == b & 0x1F
            && Field(w, 15, 0x1F) == c & 0x1F && Field(w, 10, 0x1F) == d & 0x1F
            && Field(w, 5, 0x1F) == e & 0x1F && Field(w, 0, 0x1F) == f & 0x1F
  {}

  lemma Fields5x6(a: bv32, b: bv32, c: bv32, d: bv32, e: bv32)
    ensures var w := Word5x6(a, b, c, d, e);
            && Field(w, 30, 3) == 0 && Field(w, 24, 0x3F) == a & 0x3F && Field(w, 18, 0x3F) == b & 0x3F
            && Field(w, 12, 0x3F) == c & 0x3F && Field(w, 6, 0x3F) == d & 0x3F && Field(w, 0, 0x3F) == e & 0x3F
  {}

  lemma Fields3x10(a: bv32, b: bv32, c: bv32)
    ensures var w := Word3x10(a, b, c);
            && Field(w, 30, 3) == 3 && Field(w, 20, 0x3FF) == a & 0x3FF
            && Field(w, 10, 0x3FF) == b & 0x3FF && Field(w, 0, 0x3FF) == c & 0x3FF
  {}

  lemma Fields2x15(a: bv32, b: bv32)
    ensures var w := Word2x15(a, b);
            && Field(w, 30, 3) == 2 && Field(w, 15, 0x7FFF) == a & 0x7FFF && Field(w, 0, 0x7FFF) == b & 0x7FFF
  {}

  lemma Fields1x30(a: bv32)
    ensures Field(Word1x30(a), 30, 3) == 1 && Field(Word1x30(a), 0, 0x3FFF_FFFF) == a & 0x3FFF_FFFF
  {}

  lemma Fields2x16(a: bv32, b: bv32, swap: bool)
    ensures Half(Word2x16(a, b, swap) & 0xFFFF, swap) == a & 0xFFFF
    ensures Half(Word2x16(a, b, swap) >> 16, swap) == b & 0xFFFF
  {}

  // ------------------------------------- each encoded word reads back what it holds

  lemma Reads4x8(a: bv32, b: bv32, c: bv32, d: bv32, swap: bool)
    requires BitWidth(a) <= 8 && BitWidth(b) <= 8 && BitWidth(c) <= 8 && BitWidth(d) <= 8
    ensures WordDiffs1(1, Word4x8(a, b, c, d), swap) == [a, b, c, d]
    ensures WordDiffs2(1, Word4x8(a, b, c, d), swap) == Some([a, b, c, d])
  {
    Fields4x8(a, b, c, d);
    CutAndExtend(a); CutAndExtend(b); CutAndExtend(c); CutAndExtend(d);
    hide SignExtend, Field, Word4x8, BitWidth, Host;
  }

  lemma Reads2x16(a: bv32, b: bv32, swap: bool)
    requires BitWidth(a) <= 16 && BitWidth(b) <= 16
    ensures WordDiffs1(2, Word2x16(a, b, swap), swap) == [a, b]
  {
    Fields2x16(a, b, swap);
    CutAndExtend(a); CutAndExtend(b);
    hide SignExtend, Half, Word2x16, BitWidth;
  }

  lemma Reads1x32(a: bv32, swap: bool)
    ensures WordDiffs1(3, Host(a, swap), swap) == [a]
  {
    HostInvolution(a, swap);
  }

  lemma Reads7x4(a: bv32, b: bv32, c: bv32, d: bv32, e: bv32, f: bv32, g: bv32, swap: bool)
    requires BitWidth(a) <= 4 && BitWidth(b) <= 4 && BitWidth(c) <= 4 && BitWidth(d) <= 4
    requires BitWidth(e) <= 4 && BitWidth(f) <= 4 && BitWidth(g) <= 4
    ensures WordDiffs2(3, Host(Word7x4(a, b, c, d, e, f, g), swap), swap) == Some([a, b, c, d, e, f, g])
  {
    HostInvolution(Word7x4(a, b, c, d, e, f, g), swap);
    Fields7x4(a, b, c, d, e, f, g);
    CutAndExtend(a); CutAndExtend(b); CutAndExtend(c); CutAndExtend(d);
    CutAndExtend(e); CutAndExtend(f); CutAndExtend(g);
    hide SignExtend, Field, Word7x4, BitWidth, Host;
  }

  lemma Reads6x5(a: bv32, b: bv32, c: bv32, d: bv32, e: bv32, f: bv32, swap: bool)
    requires BitWidth(a) <= 5 && BitWidth(b) <= 5 && BitWidth(c) <= 5
    requires BitWidth(d) <= 5 && BitWidth(e) <= 5 && BitWidth(f) <= 5
    ensures WordDiffs2(3, Host(Word6x5(a, b, c, d, e, f), swap), swap) == Some([a, b, c, d, e, f])
  {
    HostInvolution(Word6x5(a, b, c, d, e, f), swap);
    Fields6x5(a, b, c, d, e, f);
    CutAndExtend(a); CutAndExtend(b); CutAndExtend(c);
    CutAndExtend(d); CutAndExtend(e); CutAndExtend(f);
    hide SignExtend, Field, Word6x5, BitWidth, Host;
  }

  lemma Reads5x6(a: bv32, b: bv32, c: bv32, d: bv32, e: bv32, swap: bool)
    requires BitWidth(a) <= 6 && BitWidth(b) <= 6 && BitWidth(c) <= 6 && BitWidth(d) <= 6 && BitWidth(e) <= 6
    ensures WordDiffs2(3, Host(Word5x6(a, b, c, d, e), swap), swap) == Some([a, b, c, d, e])
  {
    HostInvolution(Word5x6(a, b, c, d, e), swap);
    Fields5x6(a, b, c, d, e);
    CutAndExtend(a); CutAndExtend(b); CutAndExtend(c); CutAndExtend(d); CutAndExtend(e);
    hide SignExtend, Field, Word5x6, BitWidth, Host;
  }

  lemma Reads3x10(a: bv32, b: bv32, c: bv32, swap: bool)
    requires BitWidth(a) <= 10 && BitWidth(b) <= 10 && BitWidth(c) <= 10
    ensures WordDiffs2(2, Host(Word3x10(a, b, c), swap), swap) == Some([a, b, c])
  {
    HostInvolution(Word3x10(a, b, c), swap);
    Fields3x10(a, b, c);
    CutAndExtend(a); CutAndExtend(b); CutAndExtend(c);
    hide SignExtend, Field, Word3x10, BitWidth, Host;
  }

  lemma Reads2x15(a: bv32, b: bv32, swap: bool)
    requires BitWidth(a) <= 15 && BitWidth(b) <= 15
    ensures WordDiffs2(2, Host(Word2x15(a, b), swap), swap) == Some([a, b])
  {
    HostInvolution(Word2x15(a, b), swap);
    Fields2x15(a, b);
    CutAndExtend(a); CutAndExtend(b);
    hide SignExtend, Field, Word2x15, BitWidth, Host;
  }

  lemma Reads1x30(a: bv32, swap: bool)
    requires BitWidth(a) <= 30
    ensures WordDiffs2(2, Host(Word1x30(a), swap), swap) == Some([a])
  {
    HostInvolution(Word1x30(a), swap);
    Fields1x30(a);
    CutAndExtend(a);
    hide SignExtend, Field, Word1x30, BitWidth, Host;
  }

  // -------------------------------------------- the word for a given run of differences

  /** The nibble of the Steim-2 word that holds `m` differences. */
  function Nibble2(m: nat): bv32 {
    if m >= 5 then 3 else if m == 4 then 1 else 2
  }

  /** The Steim-2 word, as stored, that holds the differences `d`. */
  function Word2(d: seq<bv32>, swap: bool): bv32
    requires 1 <= |d| <= 7
  {
    match |d|
    case 7 => Host(Word7x4(d[0], d[1], d[2], d[3], d[4], d[5], d[6]), swap)
    case 6 => Host(Word6x5(d[0], d[1], d[2], d[3], d[4], d[5]), swap)
    case 5 => Host(Word5x6(d[0], d[1], d[2], d[3], d[4]), swap)
    case 4 => Word4x8(d[0], d[1], d[2], d[3])
    case 3 => Host(Word3x10(d[0], d[1], d[2]), swap)
    case 2 => Host(Word2x15(d[0], d[1]), swap)
    case _ => Host(Word1x30(d[0]), swap)
  }

  /** The nibble of the Steim-1 word that holds `m` differences. */
  function Nibble1(m: nat): bv32 {
    if m == 4 then 1 else if m == 2 then 2 else 3
  }

  /** The Steim-1 word, as stored, that holds the differences `d`. */
  function Word1(d: seq<bv32>, swap: bool): bv32
    requires |d| == 4 || |d| == 2 || |d| == 1
  {
    match |d|
    case 4 => Word4x8(d[0], d[1], d[2], d[3])
    case 2 => Word2x16(d[0], d[1], swap)
    case _ => Host(d[0], swap)
  }

  /** The widest difference allowed in a word holding `m` of them; 0 if there is no such word. */
  function Width(ver: Version, m: nat): nat {
    match ver
    case Steim1 => if m == 4 then 8 else if m == 2 then 16 else if m == 1 then 32 else 0
    case Steim2 =>
      if m == 7 then 4 else if m == 6 then 5 else if m == 5 then 6 else if m == 4 then 8
      else if m == 3 then 10 else if m == 2 then 15 else if m == 1 then 30 else 0
  }

  /** A Steim-2 word reads back as the differences it was built from. */
  lemma Word2Reads(d: seq<bv32>, swap: bool)
    requires 1 <= |d| <= 7 && forall i | 0 <= i < |d| :: BitWidth(d[i]) <= Width(Steim2, |d|)
    ensures WordDiffs2(Nibble2(|d|), Word2(d, swap), swap) == Some(d)
  {
    hide *;
    if |d| >= 5 {
      LongReads(d, swap);
    } else {
      ShortReads(d, swap);
    }
  }

  lemma LongReads(d: seq<bv32>, swap: bool)
    requires 5 <= |d| <= 7 && forall i | 0 <= i < |d| :: BitWidth(d[i]) <= Width(Steim2, |d|)
    ensures WordDiffs2(Nibble2(|d|), Word2(d, swap), swap) == Some(d)
  {
    hide BitWidth, Host, WordDiffs2;
    hide Word7x4, Word6x5, Word5x6, Word4x8, Word3x10, Word2x15, Word1x30;
    match |d|
    case 7 =>
      assert d == [d[0], d[1], d[2], d[3], d[4], d[5], d[6]];
      Reads7x4(d[0], d[1], d[2], d[3], d[4], d[5], d[6], swap);
    case 6 =>
      assert d == [d[0], d[1], d[2], d[3], d[4], d[5]];
      Reads6x5(d[0], d[1], d[2], d[3], d[4], d[5], swap);
    case _ =>
      assert d == [d[0], d[1], d[2], d[3], d[4]];
      Reads5x6(d[0], d[1], d[2], d[3], d[4], swap);
  }

  lemma ShortReads(d: seq<bv32>, swap: bool)
    requires 1 <= |d| <= 4 && forall i | 0 <= i < |d| :: BitWidth(d[i]) <= Width(Steim2, |d|)
    ensures WordDiffs2(Nibble2(|d|), Word2(d, swap), swap) == Some(d)
  {
    hide BitWidth, Host, WordDiffs2;
    hide Word7x4, Word6x5, Word5x6, Word4x8, Word3x10, Word2x15, Word1x30;
    match |d|
    case 4 =>
      assert d == [d[0], d[1], d[2], d[3]];
      Reads4x8(d[0], d[1], d[2], d[3], swap);
    case 3 =>
      assert d == [d[0], d[1], d[2]];
      Reads3x10(d[0], d[1], d[2], swap);
    case 2 =>
      assert d == [d[0], d[1]];
      Reads2x15(d[0], d[1], swap);
    case _ =>
      assert d == [d[0]];
      Reads1x30(d[0], swap);
  }

  /** A Steim-1 word reads back as the differences it was built from. */
  lemma Word1Reads(d: seq<bv32>, swap: bool)
    requires |d| == 4 || |d| == 2 || |d| == 1
    requires forall i | 0 <= i < |d| :: BitWidth(d[i]) <= Width(Steim1, |d|)
    ensures WordDiffs1(Nibble1(|d|), Word1(d, swap), swap) == d
  {
    hide BitWidth, Host, WordDiffs1, Word4x8, Word2x16;
    match |d|
    case 4 => Reads4x8(d[0], d[1], d[2], d[3], swap);
    case 2 => Reads2x16(d[0], d[1], swap);
    case _ => Reads1x32(d[0], swap);
  }

  lemma ZeroNibble(ver: Version, w: bv32, swap: bool)
    ensures WordDiffs(ver, 0, w, swap) == Some([])
  {}

  lemma FieldWidths2(x: bv32, m: nat)
    requires 1 <= m <= 7 && m != 4
    ensures forall i | 0 <= i < m :: BitWidth(Fields2(x, m)[i]) <= Width(Steim2, m)
  {
    hide BitWidth, SignedField;
    match m
    case 1 =>
      SignedFieldWidth(x, 0, 30);
    case 2 =>
      SignedFieldWidth(x, 15, 15); SignedFieldWidth(x, 0, 15);
    case 3 =>
      SignedFieldWidth(x, 20, 10); SignedFieldWidth(x, 10, 10); SignedFieldWidth(x, 0, 10);
    case 5 =>
      SignedFieldWidth(x, 24, 6); SignedFieldWidth(x, 18, 6); SignedFieldWidth(x, 12, 6); SignedFieldWidth(x, 6, 6); SignedFieldWidth(x, 0, 6);
    case 6 =>
      SignedFieldWidth(x, 25, 5); SignedFieldWidth(x, 20, 5); SignedFieldWidth(x, 15, 5); SignedFieldWidth(x, 10, 5); SignedFieldWidth(x, 5, 5); SignedFieldWidth(x, 0, 5);
    case _ =>
      SignedFieldWidth(x, 24, 4); SignedFieldWidth(x, 20, 4); SignedFieldWidth(x, 16, 4); SignedFieldWidth(x, 12, 4); SignedFieldWidth(x, 8, 4); SignedFieldWidth(x, 4, 4); SignedFieldWidth(x, 0, 4);
  }

  /** Every difference in a Steim-2 word fits the width of that kind of word. */
  lemma WordDiffs2Widths(nib: bv32, w: bv32, swap: bool)
    requires WordDiffs2(nib, w, swap).Some?
    ensures var d := WordDiffs2(nib, w, swap).value;
            |d| <= 7 && forall i | 0 <= i < |d| :: BitWidth(d[i]) <= Width(Steim2, |d|)
  {
    hide BitWidth, SignedField, Field, Host, Fields2, ByteDiffs;
    var x := Host(w, swap);
    var m := Count2(nib, Field(x, 30, 3)).value;
    if m == 4 {
      ByteWidths(w);
    } else if m != 0 {
      FieldWidths2(x, m);
    }
  }

  lemma HalfWidth(h: bv32, swap: bool)
    ensures BitWidth(SignExtend(Half(h, swap), 0x8000)) <= 16
  {
    var x := Half(h, swap);
    HalfSmall(h, swap);
    ExtendedHalf(x);
    RangesGrow(SignExtend(x, 0x8000));
    hide SignExtend, Between, Half;
  }

  lemma HalfSmall(h: bv32, swap: bool)
    ensures Half(h, swap) <= 0xFFFF
  {}

  lemma ExtendedHalf(x: bv32)
    requires x <= 0xFFFF
    ensures Between(0xFFFF_8000, SignExtend(x, 0x8000), 32767)
  {}

  lemma AnyWidth(v: bv32)
    ensures BitWidth(v) <= 32
  {}

  /** The same for a Steim-1 word. */
  lemma WordDiffs1Widths(nib: bv32, w: bv32, swap: bool)
    ensures var d := WordDiffs1(nib, w, swap);
            (|d| == 0 || |d| == 1 || |d| == 2 || |d| == 4) && forall i | 0 <= i < |d| :: BitWidth(d[i]) <= Width(Steim1, |d|)
  {
    hide BitWidth, Host, Half, SignExtend, ByteDiffs;
    ByteWidths(w);
    HalfWidth(w & 0xFFFF, swap);
    HalfWidth(w >> 16, swap);
    AnyWidth(Host(w, swap));
  }

  lemma ByteWidths(w: bv32)
    ensures |ByteDiffs(w)| == 4 && forall i | 0 <= i < 4 :: BitWidth(ByteDiffs(w)[i]) <= 8
  {
    SignedFieldWidth(w, 0, 8);
    SignedFieldWidth(w, 8, 8);
    SignedFieldWidth(w, 16, 8);
    SignedFieldWidth(w, 24, 8);
    hide BitWidth, SignedField;
  }
}
