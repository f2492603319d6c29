/**
 * CRC-32C: the table-driven, sliced computation equals the bit-by-bit definition
 * of section 12.1 of RFC 3720.
 */
module Crc32c {
  import opened Bytes

  // ------------------------------------------------------- the bit-by-bit definition

  /** The Castagnoli polynomial, low bit first. */
  const POLYNOMIAL: bv32 := 0x82F6_3B78

  function Xor(a: bv32, b: bv32): bv32 {
    a ^ b
  }

  function Low(x: bv32): bv32 {
    x & 0xFF
  }

  function High(x: bv32): bv32 {
    x >> 8
  }

  function Up(x: bv32): bv32 {
    x << 8
  }

  /** What the bit shifted out feeds back. */
  function Feedback(x: bv32): bv32 {
    if x & 1 == 1 then POLYNOMIAL else 0
  }

  /** One step of the shift register. */
  function Shift(x: bv32): bv32 {
    Xor(x >> 1, Feedback(x))
  }

  /** The register after the eight steps that one byte takes. */
  function Shift8(x: bv32): bv32 {
    Shift(Shift(Shift(Shift(Shift(Shift(Shift(Shift(x))))))))
  }

  /** The register after the steps for n bytes of zeros. */
  function Shifts(x: bv32, n: nat): bv32 {
    if n == 0 then x else Shift8(Shifts(x, n - 1))
  }

  /** Feed one byte. */
  function Feed(crc: bv32, b: Byte): bv32 {
    Shift8(Xor(crc, b as bv32))
  }

  /** Feed a byte string. */
  function Register(crc: bv32, s: seq<Byte>): bv32 {
    if s == [] then crc else Feed(Register(crc, s[..|s| - 1]), s[|s| - 1])
  }

  function Invert(x: bv32): bv32 {
    !x
  }

  lemma InvertTwice(x: bv32)
    ensures Invert(Invert(x)) == x
  {}

  /** The CRC of a byte string that follows one whose CRC is `previous` (0 if there is none). */
  function Crc(s: seq<Byte>, previous: bv32): bv32 {
    Invert(Register(Invert(previous), s))
  }

  // ------------------------------------------------------------------- the tables

  /** Entry `x` of table k: table 0 holds the effect of one byte, each next table that of one zero byte more. */
  function Table(k: nat, x: bv32): bv32 {
    if k == 0 then Shift8(x) else Reduce(Table(k - 1, x))
  }

  /** The recurrence by which each table is made from the one before. */
  function Reduce(t: bv32): bv32 {
    Xor(High(t), Shift8(Low(t)))
  }

  // ------------------------------------------------------------------- linearity

  lemma XorIs(a: bv32, b: bv32)
    ensures Xor(a, b) == a ^ b
  {}

  lemma XorCommutes(a: bv32, b: bv32)
    ensures Xor(a, b) == Xor(b, a)
  {}

  lemma XorDirect(a: bv32, b: bv32, c: bv32)
    ensures Xor(a ^ b, c) == Xor(a, b ^ c)
  {}

  lemma XorAssociates(a: bv32, b: bv32, c: bv32)
    ensures Xor(Xor(a, b), c) == Xor(a, Xor(b, c))
  {
    hide Xor;
    XorIs(a, b);
    XorIs(b, c);
    XorDirect(a, b, c);
  }

  lemma XorSwap(a: bv32, b: bv32, c: bv32, d: bv32)
    ensures Xor(Xor(a, b), Xor(c, d)) == Xor(Xor(a, c), Xor(b, d))
  {
    hide Xor;
    XorAssociates(a, b, Xor(c, d));
    XorAssociates(b, c, d);
    XorCommutes(b, c);
    XorAssociates(c, b, d);
    XorAssociates(a, c, Xor(b, d));
  }

  lemma FeedbackDirect(a: bv32, b: bv32)
    ensures Feedback(a ^ b) == Feedback(a) ^ Feedback(b)
    ensures (a ^ b) >> 1 == (a >> 1) ^ (b >> 1)
  {}

  lemma FeedbackXor(a: bv32, b: bv32)
    ensures Feedback(Xor(a, b)) == Xor(Feedback(a), Feedback(b))
    ensures Xor(a, b) >> 1 == Xor(a >> 1, b >> 1)
  {
    hide Xor, Feedback;
    FeedbackDirect(a, b);
    XorIs(a, b);
    XorIs(Feedback(a), Feedback(b));
    XorIs(a >> 1, b >> 1);
  }

  lemma ShiftXor(a: bv32, b: bv32)
    ensures Shift(Xor(a, b)) == Xor(Shift(a), Shift(b))
  {
    FeedbackXor(a, b);
    XorSwap(a >> 1, b >> 1, Feedback(a), Feedback(b));
    hide Feedback, Xor;
  }

  lemma Shift8Xor(a: bv32, b: bv32)
    ensures Shift8(Xor(a, b)) == Xor(Shift8(a), Shift8(b))
  {
    hide Shift, Xor;
    ShiftXor(a, b);
    var a1, b1 := Shift(a), Shift(b);
    ShiftXor(a1, b1);
    var a2, b2 := Shift(a1), Shift(b1);
    ShiftXor(a2, b2);
    var a3, b3 := Shift(a2), Shift(b2);
    ShiftXor(a3, b3);
    var a4, b4 := Shift(a3), Shift(b3);
    ShiftXor(a4, b4);
    var a5, b5 := Shift(a4), Shift(b4);
    ShiftXor(a5, b5);
    var a6, b6 := Shift(a5), Shift(b5);
    ShiftXor(a6, b6);
    var a7, b7 := Shift(a6), Shift(b6);
    ShiftXor(a7, b7);
  }

  lemma {:induction false} ShiftsXor(a: bv32, b: bv32, n: nat)
    ensures Shifts(Xor(a, b), n) == Xor(Shifts(a, n), Shifts(b, n))
  {
    hide Shift8, Xor;
    if n > 0 {
      ShiftsXor(a, b, n - 1);
      Shift8Xor(Shifts(a, n - 1), Shifts(b, n - 1));
    }
  }

  lemma {:induction false} ShiftsAdd(x: bv32, m: nat, n: nat)
    ensures Shifts(x, m + n) == Shifts(Shifts(x, m), n)
  {
    hide Shift8;
    if n > 0 {
      ShiftsAdd(x, m, n - 1);
    }
  }

  /** Bits above the low byte just move down. */
  lemma Shift8High(x: bv32)
    requires x <= 0xFF_FFFF
    ensures Shift8(Up(x)) == x
  {}

  // --------------------------------------------------- the tables hold what they should

  lemma LowAndHighDirect(t: bv32)
    ensures t == ((t >> 8) << 8) ^ (t & 0xFF) && t >> 8 <= 0xFF_FFFF
  {}

  lemma LowAndHigh(t: bv32)
    ensures t == Xor(Up(High(t)), Low(t)) && High(t) <= 0xFF_FFFF
  {
    LowAndHighDirect(t);
    XorIs(Up(High(t)), Low(t));
    hide Xor;
  }

  /** The recurrence of the tables is one byte of zeros. */
  lemma ReduceIsShift8(t: bv32)
    ensures Reduce(t) == Shift8(t)
  {
    hide Shift8, Xor, Up, High, Low;
    LowAndHigh(t);
    Shift8Xor(Up(High(t)), Low(t));
    Shift8High(High(t));
  }

  /** Table k holds the effect of k + 1 bytes. */
  lemma {:induction false} TableIsShifts(k: nat, x: bv32)
    ensures Table(k, x) == Shifts(x, k + 1)
  {
    if k == 0 {
      assert Shifts(x, 0) == x;
    } else {
      TableIsShifts(k - 1, x);
      ReduceIsShift8(Table(k - 1, x));
    }
    hide Shift8, Reduce;
  }

  // --------------------------------------------------------------- one byte, one word

  /** The byte-wise step: one table lookup. */
  function TableFeed(crc: bv32, b: Byte): bv32 {
    Xor(High(crc), Table(0, Xor(Low(crc), b as bv32)))
  }

  lemma TableFeedIsFeed(crc: bv32, b: Byte)
    ensures TableFeed(crc, b) == Feed(crc, b)
  {
    hide Shift8, Xor, Up, High, Low;
    LowAndHigh(crc);
    var h, l := High(crc), Low(crc);
    XorAssociates(Up(h), l, b as bv32);
    Shift8Xor(Up(h), Xor(l, b as bv32));
    Shift8High(h);
  }

  /** Four bytes read as a little-endian word. */
  function Word(s: seq<Byte>): bv32
    requires |s| == 4
  {
    WordOf(s[0], s[1], s[2], s[3])
  }

  /** Four lookups in tables base + 3 .. base. */
  function Slice(base: nat, c: bv32): bv32 {
    Xor(Xor(Xor(Table(base + 3, c & 0xFF), Table(base + 2, (c >> 8) & 0xFF)), Table(base + 1, (c >> 16) & 0xFF)),
        Table(base, c >> 24))
  }

  lemma ShiftsUp(x: bv32, n: nat)
    requires x <= 0xFF_FFFF
    ensures Shifts(Up(x), n + 1) == Shifts(x, n)
  {
    hide Shift8;
    ShiftsAdd(Up(x), 1, n);
    assert Shifts(Up(x), 0) == Up(x);
    assert Shifts(Up(x), 1) == Shift8(Up(x));
    Shift8High(x);
  }

  lemma UpBound(x: bv32)
    ensures x <= 0xFF ==> x <= 0xFF_FFFF && Up(x) <= 0xFF_FFFF && Up(Up(x)) <= 0xFF_FFFF
  {}

  lemma BytesOfWord(c: bv32)
    ensures c == ((((c & 0xFF) ^ (((c >> 8) & 0xFF) << 8)) ^ ((((c >> 16) & 0xFF) << 8) << 8)) ^ ((((c >> 24) << 8) << 8) << 8))
    ensures c >> 24 <= 0xFF && (c >> 16) & 0xFF <= 0xFF && (c >> 8) & 0xFF <= 0xFF
  {}

  lemma XorIsUp(a: bv32, b: bv32, c: bv32, d: bv32)
    ensures Xor(Xor(Xor(a, Up(b)), Up(Up(c))), Up(Up(Up(d)))) == ((a ^ (b << 8)) ^ ((c << 8) << 8)) ^ (((d << 8) << 8) << 8)
  {}

  lemma WordFromBytes(c: bv32)
    ensures c == Xor(Xor(Xor(c & 0xFF, Up((c >> 8) & 0xFF)), Up(Up((c >> 16) & 0xFF))), Up(Up(Up(c >> 24))))
  {
    BytesOfWord(c);
    XorIsUp(c & 0xFF, (c >> 8) & 0xFF, (c >> 16) & 0xFF, c >> 24);
    hide Xor, Up;
  }

  /** The lookups for four bytes undo the shifts that put the bytes where they are. */
  lemma SliceOfBytes(base: nat, x0: bv32, x1: bv32, x2: bv32, x3: bv32)
    requires x1 <= 0xFF && x2 <= 0xFF && x3 <= 0xFF
    ensures Shifts(Xor(Xor(Xor(x0, Up(x1)), Up(Up(x2))), Up(Up(Up(x3)))), base + 4)
         == Xor(Xor(Xor(Table(base + 3, x0), Table(base + 2, x1)), Table(base + 1, x2)), Table(base, x3))
  {
    UpBound(x1);
    UpBound(x2);
    UpBound(x3);
    hide Xor, Shifts, Table, Up;
    ShiftsXor(x0, Up(x1), base + 4);
    ShiftsXor(Xor(x0, Up(x1)), Up(Up(x2)), base + 4);
    ShiftsXor(Xor(Xor(x0, Up(x1)), Up(Up(x2))), Up(Up(Up(x3))), base + 4);
    ShiftsUp(x1, base + 3);
    ShiftsUp(Up(x2), base + 3);
    ShiftsUp(x2, base + 2);
    ShiftsUp(Up(Up(x3)), base + 3);
    ShiftsUp(Up(x3), base + 2);
    ShiftsUp(x3, base + 1);
    TableIsShifts(base + 3, x0);
    TableIsShifts(base + 2, x1);
    TableIsShifts(base + 1, x2);
    TableIsShifts(base, x3);
  }

  /** The sliced lookups shift in as many bytes of zeros as the tables say. */
  lemma SliceIsShifts(base: nat, c: bv32)
    ensures Slice(base, c) == Shifts(c, base + 4)
  {
    hide Xor, Shifts, Table, Up;
    BytesOfWord(c);
    WordFromBytes(c);
    SliceOfBytes(base, c & 0xFF, (c >> 8) & 0xFF, (c >> 16) & 0xFF, c >> 24);
  }

  /** Feeding a byte pulls the bytes above it down by one. */
  lemma FeedPulls(crc: bv32, b: Byte, w: bv32)
    requires w <= 0xFF_FFFF
    ensures Shift8(Xor(crc, Xor(b as bv32, Up(w)))) == Xor(Feed(crc, b), w)
  {
    hide Xor, Shift8;
    XorAssociates(crc, b as bv32, Up(w));
    Shift8Xor(Xor(crc, b as bv32), Up(w));
    Shift8High(w);
  }

  /** A few bytes as a word, layer by layer: a byte, and above it the bytes that follow. */
  function Layers(s: seq<Byte>): bv32
    requires |s| <= 4
  {
    if s == [] then 0 else Xor(s[0] as bv32, Up(Layers(s[1..])))
  }

  lemma LayerBounds(b: bv32, w: bv32)
    requires b <= 0xFF
    ensures w <= 0 ==> Xor(b, Up(w)) <= 0xFF
    ensures w <= 0xFF ==> Xor(b, Up(w)) <= 0xFFFF
    ensures w <= 0xFFFF ==> Xor(b, Up(w)) <= 0xFF_FFFF
  {}

  lemma LayersSmall(s: seq<Byte>)
    requires |s| <= 3
    ensures Layers(s) <= (if |s| == 0 then 0 else if |s| == 1 then 0xFF else if |s| == 2 then 0xFFFF else 0xFF_FFFF)
  {
    hide Xor, Up;
    if s != [] {
      LayersSmall(s[1..]);
      LayerBounds(s[0] as bv32, Layers(s[1..]));
    }
  }

  lemma WordDirect(b0: bv32, b1: bv32, b2: bv32, b3: bv32)
    requires b0 <= 0xFF && b1 <= 0xFF && b2 <= 0xFF && b3 <= 0xFF
    ensures b0 | (b1 << 8) | (b2 << 16) | (b3 << 24) == XorOfFour(b0, b1, b2, b3)
  {}

  function XorOfFour(b0: bv32, b1: bv32, b2: bv32, b3: bv32): bv32 {
    b0 ^ ((b1 ^ ((b2 ^ (b3 << 8)) << 8)) << 8)
  }

  lemma XorsUpDirect(b0: bv32, b1: bv32, b2: bv32, b3: bv32)
    ensures Xor(b0, Up(Xor(b1, Up(Xor(b2, Up(Xor(b3, Up(0)))))))) == b0 ^ ((b1 ^ ((b2 ^ (b3 << 8)) << 8)) << 8)
  {}

  lemma XorsUp(b0: bv32, b1: bv32, b2: bv32, b3: bv32)
    ensures Xor(b0, Up(Xor(b1, Up(Xor(b2, Up(Xor(b3, Up(0)))))))) == XorOfFour(b0, b1, b2, b3)
  {
    hide Xor, Up;
    XorsUpDirect(b0, b1, b2, b3);
  }

  lemma LayersUnroll(s: seq<Byte>, b: bv32, rest: seq<Byte>)
    requires 0 < |s| <= 4 && b == s[0] as bv32 && rest == s[1..]
    ensures Layers(s) == Xor(b, Up(Layers(rest)))
  {
    hide Xor, Up;
  }

  lemma LayersOfFour(s: seq<Byte>, b0: bv32, b1: bv32, b2: bv32, b3: bv32)
    requires |s| == 4 && b0 == s[0] as bv32 && b1 == s[1] as bv32 && b2 == s[2] as bv32 && b3 == s[3] as bv32
    ensures Layers(s) == XorOfFour(b0, b1, b2, b3)
  {
    hide Xor, Up, XorOfFour, Layers;
    XorsUp(b0, b1, b2, b3);
    LayersUnroll(s, b0, s[1..]);
    LayersUnroll(s[1..], b1, s[2..]);
    LayersUnroll(s[2..], b2, s[3..]);
    LayersUnroll(s[3..], b3, []);
    LayersNone();
  }

  lemma LayersNone()
    ensures Layers([]) == 0
  {}

  lemma WordOfFour(s: seq<Byte>)
    requires |s| == 4
    ensures Word(s) == XorOfFour(s[0] as bv32, s[1] as bv32, s[2] as bv32, s[3] as bv32)
  {
    hide XorOfFour;
    WordDirect(s[0] as bv32, s[1] as bv32, s[2] as bv32, s[3] as bv32);
  }

  lemma WordIsLayers(s: seq<Byte>)
    requires |s| == 4
    ensures Word(s) == Layers(s)
  {
    hide Xor, Up, Word, Layers, XorOfFour;
    LayersOfFour(s, s[0] as bv32, s[1] as bv32, s[2] as bv32, s[3] as bv32);
    WordOfFour(s);
  }

  lemma XorZero(a: bv32)
    ensures Xor(a, 0) == a
  {}

  /** Feeding one string and then another is feeding both. */
  lemma {:induction false} RegisterConcat(crc: bv32, a: seq<Byte>, b: seq<Byte>)
    ensures Register(crc, a + b) == Register(Register(crc, a), b)
  {
    hide Feed;
    if b == [] {
      assert a + b == a;
    } else {
      assert (a + b)[..|a + b| - 1] == a + b[..|b| - 1];
      RegisterConcat(crc, a, b[..|b| - 1]);
    }
  }

  /** Feeding a few bytes one after another is feeding them all at once. */
  lemma {:induction false} LayersFeed(crc: bv32, s: seq<Byte>)
    requires |s| <= 4
    ensures Register(crc, s) == Shifts(Xor(crc, Layers(s)), |s|)
    decreases |s|
  {
    hide Xor, Feed, Shift8, Up;
    if s == [] {
      XorZero(crc);
    } else {
      var b, rest := s[0], s[1..];
      LayersSmall(rest);
      FeedPulls(crc, b, Layers(rest));
      ShiftsAdd(Xor(crc, Layers(s)), 1, |rest|);
      assert Shifts(Xor(crc, Layers(s)), 0) == Xor(crc, Layers(s));
      LayersFeed(Feed(crc, b), rest);
      assert s == [b] + rest && [b][..0] == [];
      RegisterConcat(crc, [b], rest);
    }
  }

  /** The slice-by-4 step. */
  lemma Slice4Feeds(crc: bv32, s: seq<Byte>)
    requires |s| == 4
    ensures Slice(0, Xor(crc, Word(s))) == Register(crc, s)
  {
    WordIsLayers(s);
    LayersFeed(crc, s);
    SliceIsShifts(0, Xor(crc, Word(s)));
    hide Xor, Word, Slice, Layers, Shifts, Register;
  }

  /** The slice-by-8 step. */
  lemma Slice8Feeds(crc: bv32, s: seq<Byte>)
    requires |s| == 8
    ensures Xor(Slice(4, Xor(Word(s[..4]), crc)), Slice(0, Word(s[4..]))) == Register(crc, s)
  {
    hide Xor, Word, Slice, Layers, Shifts, Register;
    var u, v := s[..4], s[4..];
    var c1 := Xor(Word(u), crc);
    XorCommutes(Word(u), crc);
    Slice4Feeds(crc, u);
    Slice4Feeds(Register(crc, u), v);
    assert s == u + v;
    RegisterConcat(crc, u, v);
    SliceIsShifts(4, c1);
    SliceIsShifts(0, c1);
    ShiftsAdd(c1, 4, 4);
    SliceIsShifts(0, Word(v));
    SliceIsShifts(0, Xor(Register(crc, u), Word(v)));
    ShiftsXor(Register(crc, u), Word(v), 4);
  }

  // --------------------------------------------------------------------- the code

  /** s_crc_generic_sb1: `input` is the memory from the input pointer on. */
  method Sb1(input: seq<Byte>, length: int, crc0: bv32) returns (crc: bv32)
    requires length <= |input|
    ensures crc == Register(crc0, input[..if length < 0 then 0 else length])
  {
    hide Table, Xor, Feed;
    crc := crc0;
    var i := 0;
    while i < length
      invariant 0 <= i && (i <= length || i == 0)
      invariant crc == Register(crc0, input[..i])
    {
      TableFeedIsFeed(crc, input[i]);
      crc := TableFeed(crc, input[i]);
      assert input[..i + 1][..i] == input[..i];
      i := i + 1;
    }
  }

  /** s_crc_generic_sb4 */
  method Sb4(input: seq<Byte>, length: int, crc0: bv32) returns (crc: bv32)
    requires length <= |input|
    ensures crc == Register(crc0, input[..if length < 0 then 0 else length])
  {
    hide Table, Xor, Feed, Word, Slice, Register;
    crc := crc0;
    var remaining, at := length, 0;
    RegisterNone(crc0);
    while remaining >= 4
      invariant 0 <= at && remaining == length - at
      invariant at == 0 || 0 <= remaining
      invariant crc == Register(crc0, input[..at])
    {
      var word := input[at..at + 4];
      Slice4Feeds(crc, word);
      RegisterConcat(crc0, input[..at], word);
      assert input[..at] + word == input[..at + 4];
      crc := Slice(0, Xor(crc, Word(word)));
      at, remaining := at + 4, remaining - 4;
    }
    ghost var rest := input[at..][..if remaining < 0 then 0 else remaining];
    RegisterConcat(crc0, input[..at], rest);
    assert input[..at] + rest == input[..if length < 0 then 0 else length];
    crc := Sb1(input[at..], remaining, crc);
  }

  lemma RegisterNone(crc: bv32)
    ensures Register(crc, []) == crc
  {}

  /** s_crc_generic_sb8 */
  method Sb8(input: seq<Byte>, length: int, crc0: bv32) returns (crc: bv32)
    requires length <= |input|
    ensures crc == Register(crc0, input[..if length < 0 then 0 else length])
  {
    hide Table, Xor, Feed, Word, Slice, Register;
    crc := crc0;
    var remaining, at := length, 0;
    RegisterNone(crc0);
    while remaining >= 8
      invariant 0 <= at && remaining == length - at
      invariant at == 0 || 0 <= remaining
      invariant crc == Register(crc0, input[..at])
    {
      var words := input[at..at + 8];
      Slice8Feeds(crc, words);
      RegisterConcat(crc0, input[..at], words);
      assert input[..at] + words == input[..at + 8];
      var c1 := Xor(Word(words[..4]), crc);
      var c2 := Word(words[4..]);
      crc := Xor(Slice(4, c1), Slice(0, c2));
      at, remaining := at + 8, remaining - 8;
    }
    ghost var rest := input[at..][..if remaining < 0 then 0 else remaining];
    RegisterConcat(crc0, input[..at], rest);
    assert input[..at] + rest == input[..if length < 0 then 0 else length];
    crc := Sb4(input[at..], remaining, crc);
  }

  /** How many bytes precede the first address that is a multiple of four. */
  function Leading(address: nat): (n: nat)
    ensures n < 4 && (address + n) % 4 == 0
  {
    (4 - address % 4) % 4
  }

  /**
   * The number of bytes the sliced computation takes in.  The alignment step compares an unsigned
   * difference with zero, so it also runs when there are fewer bytes than it is about to read.
   */
  function BytesTaken(address: nat, length: int): nat {
    var leading := Leading(address);
    if leading > length then (if leading == 0 then 0 else leading) else length
  }

  /** s_crc_generic_align: returns the CRC and how many bytes it moved the input pointer by. */
  method Align(input: seq<Byte>, address: nat, length: int, crc0: bv32) returns (crc: bv32, moved: nat)
    requires BytesTaken(address, length) <= |input|
    ensures moved == if Leading(address) != length then Leading(address) else 0
    ensures moved <= |input| && crc == Register(crc0, input[..moved])
  {
    hide Register;
    RegisterNone(crc0);
    var leading := Leading(address);
    crc, moved := crc0, 0;
    if leading != 0 && length - leading != 0 {
      crc := Sb1(input, leading, crc);
      moved := leading;
    }
  }

  /** s_crc32c_sb8, between the two inversions. */
  method SlicedRegister(input: seq<Byte>, address: nat, length: int, crc0: bv32) returns (crc: bv32)
    requires BytesTaken(address, length) <= |input|
    ensures crc == Register(crc0, input[..BytesTaken(address, length)])
  {
    hide Register, BytesTaken;
    var moved;
    crc, moved := Align(input, address, length, crc0);
    var left := length - moved;
    BytesSplit(address, length, moved);
    ghost var rest := input[moved..][..if left < 0 then 0 else left];
    RegisterConcat(crc0, input[..moved], rest);
    assert input[..moved] + rest == input[..BytesTaken(address, length)];
    crc := Sb8(input[moved..], left, crc);
  }

  lemma BytesSplit(address: nat, length: int, moved: nat)
    requires moved == if Leading(address) != length then Leading(address) else 0
    ensures BytesTaken(address, length) == moved + if length - moved < 0 then 0 else length - moved
  {}

  /** ms_crc32c, with s_crc32c_no_slice for a big-endian host. */
  method MsCrc32c(input: seq<Byte>, address: nat, length: int, previous: bv32, bigEndianHost: bool) returns (crc: bv32)
    requires if bigEndianHost then length <= |input| else BytesTaken(address, length) <= |input|
    ensures !bigEndianHost ==> crc == Crc(input[..BytesTaken(address, length)], previous)
    ensures bigEndianHost ==> crc == Crc(input[..if length < 0 then 0 else length], previous)
  {
    hide Register, BytesTaken;
    var register;
    if bigEndianHost {
      register := Sb1(input, length, Invert(previous));
    } else {
      register := SlicedRegister(input, address, length, Invert(previous));
    }
    crc := Invert(register);
  }

  /** The CRC of the first `length` bytes is what comes out exactly when there are as many as the alignment step reads. */
  lemma TakenIsLength(address: nat, length: nat)
    ensures BytesTaken(address, length) == length <==> length >= Leading(address)
    ensures length < Leading(address) ==> BytesTaken(address, length) == Leading(address)
  {}

  /** Two bytes at an address one past a multiple of four: a third byte is taken in and changes the result. */
  lemma ShortUnalignedInput()
    ensures Leading(1) == 3 && BytesTaken(1, 2) == 3
    ensures Crc([0, 0, 0], 0) != Crc([0, 0], 0)
  {
    hide Shift8;
    var two: seq<Byte> := [0, 0];
    assert [0 as Byte, 0, 0][..2] == two && two[..1] == [0] && [0 as Byte][..0] == [];
    ZeroBytes();
    assert Register(0xFFFF_FFFF, [0]) == 0xad82acae;
    assert Register(0xFFFF_FFFF, two) == 0xe9e882d;
  }

  lemma ZeroBytes()
    ensures Shift8(0xFFFF_FFFF) == 0xad82acae
    ensures Shift8(0xad82acae) == 0xe9e882d
    ensures Shift8(0xe9e882d) == 0x9f9b5c85
  {}

  // ------------------------------------------------------------------- what it is for

  /** Computing on in pieces gives the CRC of the whole. */
  lemma CrcChains(a: seq<Byte>, b: seq<Byte>, previous: bv32)
    ensures Crc(a + b, previous) == Crc(b, Crc(a, previous))
  {
    hide Register, Invert;
    RegisterConcat(Invert(previous), a, b);
    InvertTwice(Register(Invert(previous), a));
  }

  /** The step run backwards. */
  function Unshift(y: bv32): bv32 {
    if y >> 31 == 1 then ((y ^ POLYNOMIAL) << 1) | 1 else y << 1
  }

  lemma UnshiftShift(x: bv32)
    ensures Unshift(Shift(x)) == x
  {}

  lemma Shift8Injective(x: bv32, y: bv32)
    requires Shift8(x) == Shift8(y)
    ensures x == y
  {
    hide Shift, Unshift;
    var x1, x2, x3, x4, x5, x6, x7 := Shift(x), Shift(Shift(x)), Shift(Shift(Shift(x))), Shift(Shift(Shift(Shift(x)))),
      Shift(Shift(Shift(Shift(Shift(x))))), Shift(Shift(Shift(Shift(Shift(Shift(x)))))), Shift(Shift(Shift(Shift(Shift(Shift(Shift(x)))))));
    var y1, y2, y3, y4, y5, y6, y7 := Shift(y), Shift(Shift(y)), Shift(Shift(Shift(y))), Shift(Shift(Shift(Shift(y)))),
      Shift(Shift(Shift(Shift(Shift(y))))), Shift(Shift(Shift(Shift(Shift(Shift(y)))))), Shift(Shift(Shift(Shift(Shift(Shift(Shift(y)))))));
    UnshiftShift(x7); UnshiftShift(y7);
    UnshiftShift(x6); UnshiftShift(y6);
    UnshiftShift(x5); UnshiftShift(y5);
    UnshiftShift(x4); UnshiftShift(y4);
    UnshiftShift(x3); UnshiftShift(y3);
    UnshiftShift(x2); UnshiftShift(y2);
    UnshiftShift(x1); UnshiftShift(y1);
    UnshiftShift(x); UnshiftShift(y);
  }

  lemma XorCancels(a: bv32, b: bv32, c: bv32)
    requires Xor(a, b) == Xor(a, c)
    ensures b == c
  {
    assert b == a ^ (a ^ b) && c == a ^ (a ^ c);
  }

  lemma {:induction false} ShiftsInjective(x: bv32, y: bv32, n: nat)
    requires Shifts(x, n) == Shifts(y, n)
    ensures x == y
  {
    hide Shift8;
    if n > 0 {
      Shift8Injective(Shifts(x, n - 1), Shifts(y, n - 1));
      ShiftsInjective(x, y, n - 1);
    }
  }

  /** A byte string of given content takes different registers to different registers. */
  lemma {:induction false} RegisterInjective(x: bv32, y: bv32, s: seq<Byte>)
    requires Register(x, s) == Register(y, s)
    ensures x == y
  {
    hide Shift8, Xor;
    if s == [] {
    } else {
      var x', y' := Register(x, s[..|s| - 1]), Register(y, s[..|s| - 1]);
      var b := s[|s| - 1] as bv32;
      Shift8Injective(Xor(x', b), Xor(y', b));
      XorCommutes(x', b);
      XorCommutes(y', b);
      XorCancels(b, x', y');
      RegisterInjective(x, y, s[..|s| - 1]);
    }
  }

  lemma LayersInjective(a: seq<Byte>, b: seq<Byte>)
    requires |a| == 4 == |b| && Layers(a) == Layers(b)
    ensures a == b
  {
    hide *;
    WordIsLayers(a);
    WordIsLayers(b);
    WordsInjective(a, b);
  }

  lemma WordsInjective(a: seq<Byte>, b: seq<Byte>)
    requires |a| == 4 == |b| && Word(a) == Word(b)
    ensures a == b
  {
    hide WordOf;
    WordInjective(a[0], a[1], a[2], a[3], b[0], b[1], b[2], b[3]);
  }

  lemma WordInjective(a0: Byte, a1: Byte, a2: Byte, a3: Byte, b0: Byte, b1: Byte, b2: Byte, b3: Byte)
    requires WordOf(a0, a1, a2, a3) == WordOf(b0, b1, b2, b3)
    ensures a0 == b0 && a1 == b1 && a2 == b2 && a3 == b3
  {}

  /** Two strings that differ only within four consecutive bytes have different CRCs. */
  lemma BurstsAreDetected(front: seq<Byte>, a: seq<Byte>, b: seq<Byte>, back: seq<Byte>, previous: bv32)
    requires |a| == 4 == |b| && a != b
    ensures Crc(front + a + back, previous) != Crc(front + b + back, previous)
  {
    hide Register, Xor, Shifts, Layers, Invert;
    var p := Invert(previous);
    var r := Register(p, front);
    RegisterConcat(p, front + a, back);
    RegisterConcat(p, front + b, back);
    RegisterConcat(p, front, a);
    RegisterConcat(p, front, b);
    LayersFeed(r, a);
    LayersFeed(r, b);
    if Crc(front + a + back, previous) == Crc(front + b + back, previous) {
      InvertTwice(Register(p, front + a + back));
      InvertTwice(Register(p, front + b + back));
      RegisterInjective(Register(r, a), Register(r, b), back);
      ShiftsInjective(Xor(r, Layers(a)), Xor(r, Layers(b)), 4);
      XorCancels(r, Layers(a), Layers(b));
      LayersInjective(a, b);
    }
  }

  // --------------------------------------------------------------------- a known value

  /** The digits 1 to 9 as text. */
  const DIGITS: seq<Byte> := ['1' as Byte, '2' as Byte, '3' as Byte, '4' as Byte, '5' as Byte, '6' as Byte, '7' as Byte, '8' as Byte, '9' as Byte]

  lemma FeedsDigit1()
    ensures Feed(0xFFFF_FFFF, '1' as Byte) == 0x6F0A_661C
  {
    var x := Xor(0xFFFF_FFFF, '1' as Byte as bv32);
    assert x == 0xFFFF_FFCE;
    assert Shift(0xFFFF_FFCE) == 0x7FFF_FFE7 && Shift(0x7FFF_FFE7) == 0xBD09_C48B && Shift(0xBD09_C48B) == 0xDC72_D93D && Shift(0xDC72_D93D) == 0xECCF_57E6;
    assert Shift(0xECCF_57E6) == 0x7667_ABF3 && Shift(0x7667_ABF3) == 0xB9C5_EE81 && Shift(0xB9C5_EE81) == 0xDE14_CC38 && Shift(0xDE14_CC38) == 0x6F0A_661C;
    hide Shift, Xor;
  }

  lemma FeedsDigit2()
    ensures Feed(0x6F0A_661C, '2' as Byte) == 0x8CAA_3B9F
  {
    var x := Xor(0x6F0A_661C, '2' as Byte as bv32);
    assert x == 0x6F0A_662E;
    assert Shift(0x6F0A_662E) == 0x3785_3317 && Shift(0x3785_3317) == 0x9934_A2F3 && Shift(0x9934_A2F3) == 0xCE6C_6A01 && Shift(0xCE6C_6A01) == 0xE5C0_0E78;
    assert Shift(0xE5C0_0E78) == 0x72E0_073C && Shift(0x72E0_073C) == 0x3970_039E && Shift(0x3970_039E) == 0x1CB8_01CF && Shift(0x1CB8_01CF) == 0x8CAA_3B9F;
    hide Shift, Xor;
  }

  lemma FeedsDigit3()
    ensures Feed(0x8CAA_3B9F, '3' as Byte) == 0xEF84_D04D
  {
    var x := Xor(0x8CAA_3B9F, '3' as Byte as bv32);
    assert x == 0x8CAA_3BAC;
    assert Shift(0x8CAA_3BAC) == 0x4655_1DD6 && Shift(0x4655_1DD6) == 0x232A_8EEB && Shift(0x232A_8EEB) == 0x9363_7C0D && Shift(0x9363_7C0D) == 0xCB47_857E;
    assert Shift(0xCB47_857E) == 0x65A3_C2BF && Shift(0x65A3_C2BF) == 0xB027_DA27 && Shift(0xB027_DA27) == 0xDAE5_D66B && Shift(0xDAE5_D66B) == 0xEF84_D04D;
    hide Shift, Xor;
  }

  lemma FeedsDigit4()
    ensures Feed(0xEF84_D04D, '4' as Byte) == 0x09C5_0B11
  {
    var x := Xor(0xEF84_D04D, '4' as Byte as bv32);
    assert x == 0xEF84_D079;
    assert Shift(0xEF84_D079) == 0xF534_5344 && Shift(0xF534_5344) == 0x7A9A_29A2 && Shift(0x7A9A_29A2) == 0x3D4D_14D1 && Shift(0x3D4D_14D1) == 0x9C50_B110;
    assert Shift(0x9C50_B110) == 0x4E28_5888 && Shift(0x4E28_5888) == 0x2714_2C44 && Shift(0x2714_2C44) == 0x138A_1622 && Shift(0x138A_1622) == 0x09C5_0B11;
    hide Shift, Xor;
  }

  lemma FeedsDigit5()
    ensures Feed(0x09C5_0B11, '5' as Byte) == 0xE72E_DCCA
  {
    var x := Xor(0x09C5_0B11, '5' as Byte as bv32);
    assert x == 0x09C5_0B24;
    assert Shift(0x09C5_0B24) == 0x04E2_8592 && Shift(0x04E2_8592) == 0x0271_42C9 && Shift(0x0271_42C9) == 0x83CE_9A1C && Shift(0x83CE_9A1C) == 0x41E7_4D0E;
    assert Shift(0x41E7_4D0E) == 0x20F3_A687 && Shift(0x20F3_A687) == 0x928F_E83B && Shift(0x928F_E83B) == 0xCBB1_CF65 && Shift(0xCBB1_CF65) == 0xE72E_DCCA;
    hide Shift, Xor;
  }

  lemma FeedsDigit6()
    ensures Feed(0xE72E_DCCA, '6' as Byte) == 0xBECA_8E79
  {
    var x := Xor(0xE72E_DCCA, '6' as Byte as bv32);
    assert x == 0xE72E_DCFC;
    assert Shift(0xE72E_DCFC) == 0x7397_6E7E && Shift(0x7397_6E7E) == 0x39CB_B73F && Shift(0x39CB_B73F) == 0x9E13_E0E7 && Shift(0x9E13_E0E7) == 0xCDFF_CB0B;
    assert Shift(0xCDFF_CB0B) == 0xE409_DEFD && Shift(0xE409_DEFD) == 0xF0F2_D406 && Shift(0xF0F2_D406) == 0x7879_6A03 && Shift(0x7879_6A03) == 0xBECA_8E79;
    hide Shift, Xor;
  }

  lemma FeedsDigit7()
    ensures Feed(0xBECA_8E79, '7' as Byte) == 0xEDBD_6815
  {
    var x := Xor(0xBECA_8E79, '7' as Byte as bv32);
    assert x == 0xBECA_8E4E;
    assert Shift(0xBECA_8E4E) == 0x5F65_4727 && Shift(0x5F65_4727) == 0xAD44_98EB && Shift(0xAD44_98EB) == 0xD454_770D && Shift(0xD454_770D) == 0xE8DC_00FE;
    assert Shift(0xE8DC_00FE) == 0x746E_007F && Shift(0x746E_007F) == 0xB8C1_3B47 && Shift(0xB8C1_3B47) == 0xDE96_A6DB && Shift(0xDE96_A6DB) == 0xEDBD_6815;
    hide Shift, Xor;
  }

  lemma FeedsDigit8()
    ensures Feed(0xEDBD_6815, '8' as Byte) == 0x9F78_7F65
  {
    var x := Xor(0xEDBD_6815, '8' as Byte as bv32);
    assert x == 0xEDBD_682D;
    assert Shift(0xEDBD_682D) == 0xF428_8F6E && Shift(0xF428_8F6E) == 0x7A14_47B7 && Shift(0x7A14_47B7) == 0xBFFC_18A3 && Shift(0xBFFC_18A3) == 0xDD08_3729;
    assert Shift(0xDD08_3729) == 0xEC72_20EC && Shift(0xEC72_20EC) == 0x7639_1076 && Shift(0x7639_1076) == 0x3B1C_883B && Shift(0x3B1C_883B) == 0x9F78_7F65;
    hide Shift, Xor;
  }

  lemma FeedsDigit9()
    ensures Feed(0x9F78_7F65, '9' as Byte) == 0x1CF9_6D7C
  {
    var x := Xor(0x9F78_7F65, '9' as Byte as bv32);
    assert x == 0x9F78_7F5C;
    assert Shift(0x9F78_7F5C) == 0x4FBC_3FAE && Shift(0x4FBC_3FAE) == 0x27DE_1FD7 && Shift(0x27DE_1FD7) == 0x9119_3493 && Shift(0x9119_3493) == 0xCA7A_A131;
    assert Shift(0xCA7A_A131) == 0xE7CB_6BE0 && Shift(0xE7CB_6BE0) == 0x73E5_B5F0 && Shift(0x73E5_B5F0) == 0x39F2_DAF8 && Shift(0x39F2_DAF8) == 0x1CF9_6D7C;
    hide Shift, Xor;
  }

  /** One byte more. */
  lemma FedMore(s: seq<Byte>, b: Byte, r: bv32, next: bv32) returns (more: seq<Byte>)
    requires Register(0xFFFF_FFFF, s) == r && Feed(r, b) == next
    ensures more == s + [b] && Register(0xFFFF_FFFF, more) == next
  {
    hide Feed;
    more := s + [b];
    assert more[..|s|] == s;
  }

  /** The check value of CRC-32C, that of the nine digits. */
  lemma CheckValue()
    ensures Crc(DIGITS, 0) == 0xE306_9283
  {
    InvertedEnds();
    hide Feed, Invert, Register;
    var s: seq<Byte> := [];
    NothingFed(0xFFFF_FFFF);
    FeedsDigit1();
    s := FedMore(s, '1' as Byte, 0xFFFF_FFFF, 0x6F0A_661C);
    FeedsDigit2();
    s := FedMore(s, '2' as Byte, 0x6F0A_661C, 0x8CAA_3B9F);
    FeedsDigit3();
    s := FedMore(s, '3' as Byte, 0x8CAA_3B9F, 0xEF84_D04D);
    FeedsDigit4();
    s := FedMore(s, '4' as Byte, 0xEF84_D04D, 0x09C5_0B11);
    FeedsDigit5();
    s := FedMore(s, '5' as Byte, 0x09C5_0B11, 0xE72E_DCCA);
    FeedsDigit6();
    s := FedMore(s, '6' as Byte, 0xE72E_DCCA, 0xBECA_8E79);
    FeedsDigit7();
    s := FedMore(s, '7' as Byte, 0xBECA_8E79, 0xEDBD_6815);
    FeedsDigit8();
    s := FedMore(s, '8' as Byte, 0xEDBD_6815, 0x9F78_7F65);
    FeedsDigit9();
    s := FedMore(s, '9' as Byte, 0x9F78_7F65, 0x1CF9_6D7C);
    assert s == DIGITS;
  }

  lemma NothingFed(crc: bv32)
    ensures Register(crc, []) == crc
  {}

  lemma InvertedEnds()
    ensures Invert(0) == 0xFFFF_FFFF && Invert(0x1CF9_6D7C) == 0xE306_9283
  {}
}
