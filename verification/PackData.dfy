/**
 * The payload of a record: packing samples in one of the encodings and unpacking them again.
 * Text, 16- and 32-bit integers, floating-point numbers and the two Steim compressions are modelled.
 */
module PackData {
  import opened Wrappers
  import opened Bytes
  import opened SteimWords
  import opened SteimFormat
  import opened SteimGreedy
  import SteimEncoder
  import SteimDecoder
  import opened ByteOrder

  /**
   * Data samples with their type: text ('a'), 32-bit integers ('i'), floats ('f') or doubles ('d').
   * A floating-point number is its bits.
   */
  datatype Samples = Chars(cs: seq<Byte>) | Ints(xs: seq<bv32>) | Floats(fs: seq<bv32>) | Doubles(ds: seq<bv64>)

  datatype Encoding = Text | Int16 | Int32 | Float32 | Float64 | Steim(ver: Version) | Unknown

  function Size(s: Samples): nat {
    match s
    case Chars(cs) => |cs|
    case Ints(xs) => |xs|
    case Floats(fs) => |fs|
    case Doubles(ds) => |ds|
  }

  /** ms_samplesize */
  function SampleSize(s: Samples): nat {
    match s case Chars(_) => 1 case Doubles(_) => 8 case _ => 4
  }

  function Take(s: Samples, n: nat): Samples
    requires n <= Size(s)
  {
    match s
    case Chars(cs) => Chars(cs[..n])
    case Ints(xs) => Ints(xs[..n])
    case Floats(fs) => Floats(fs[..n])
    case Doubles(ds) => Doubles(ds[..n])
  }

  function Drop(s: Samples, n: nat): Samples
    requires n <= Size(s)
  {
    match s
    case Chars(cs) => Chars(cs[n..])
    case Ints(xs) => Ints(xs[n..])
    case Floats(fs) => Floats(fs[n..])
    case Doubles(ds) => Doubles(ds[n..])
  }

  // -------------------------------------------------------------------- 16-bit integers

  /** A 16-bit integer as the 32-bit one the decoder makes of it. */
  function Extend16(h: bv32): bv32 {
    if h & 0x8000 == 0 then h & 0xFFFF else h | 0xFFFF_0000
  }

  /** Stored and read back, a sample comes through its lower 16 bits. */
  function Through16(x: bv32): bv32 {
    Extend16(x & 0xFFFF)
  }

  function Each16(xs: seq<bv32>): (ys: seq<bv32>)
    ensures |ys| == |xs|
  {
    seq(|xs|, i requires 0 <= i < |xs| => Through16(xs[i]))
  }

  lemma HalfTwice(x: bv32, swap: bool)
    ensures Extend16(Half(Half(x, swap), swap)) == Through16(x)
    ensures Low16(Half(x, swap)) == Half(x, swap)
  {}

  /** A 16-bit integer: from 0 to 0x7FFF, or, below zero, from 0xFFFF8000 on. */
  predicate Is16(x: bv32) {
    x <= 0x7FFF || 0xFFFF_8000 <= x
  }

  lemma Is16Bits(x: bv32)
    ensures Is16(x) <==> x & 0xFFFF_8000 == 0 || x & 0xFFFF_8000 == 0xFFFF_8000
  {}

  lemma ThroughLow(x: bv32)
    requires x & 0x8000 == 0
    ensures Through16(x) == x & 0xFFFF
  {}

  lemma ThroughHigh(x: bv32)
    requires x & 0x8000 != 0
    ensures Through16(x) == x | 0xFFFF_0000
  {}

  lemma Masks(x: bv32)
    ensures x & 0xFFFF == x <==> x & 0xFFFF_0000 == 0
    ensures x | 0xFFFF_0000 == x <==> x & 0xFFFF_0000 == 0xFFFF_0000
  {}

  lemma MaskSplits(x: bv32)
    ensures x & 0xFFFF_8000 == 0 <==> x & 0xFFFF_0000 == 0 && x & 0x8000 == 0
    ensures x & 0xFFFF_8000 == 0xFFFF_8000 <==> x & 0xFFFF_0000 == 0xFFFF_0000 && x & 0x8000 != 0
  {}

  lemma ThroughBits(x: bv32)
    ensures Through16(x) == x <==> x & 0xFFFF_8000 == 0 || x & 0xFFFF_8000 == 0xFFFF_8000
  {
    hide Through16;
    Masks(x);
    MaskSplits(x);
    if x & 0x8000 == 0 {
      ThroughLow(x);
    } else {
      ThroughHigh(x);
    }
  }

  /** A sample survives 16 bits exactly when it is a 16-bit integer. */
  lemma Survives16(x: bv32)
    ensures Through16(x) == x <==> Is16(x)
  {
    hide Through16, Is16;
    Is16Bits(x);
    ThroughBits(x);
  }

  // ---------------------------------------------------------------------------- encoders

  /** msr_encode_text, on the samples that are left */
  method EncodeText(input: seq<Byte>, output: array<Byte>, outputlength: int) returns (length: int)
    requires outputlength <= output.Length
    modifies output
    ensures length == if |input| == 0 then 0 else if outputlength <= 0 then -1 else Min(|input|, outputlength)
    ensures length > 0 ==> output[..length] == input[..length]
    ensures length > 0 ==> forall k | length <= k < outputlength :: output[k] == 0
  {
    if |input| <= 0 {
      return 0;
    }
    if outputlength <= 0 {
      return -1;
    }
    length := if |input| < outputlength then |input| else outputlength;
    forall k | 0 <= k < length {
      output[k] := input[k];
    }
    forall k | length <= k < outputlength {
      output[k] := 0;
    }
  }

  function Halves(xs: seq<bv32>, swap: bool): (hs: seq<bv32>)
    ensures |hs| == |xs|
  {
    seq(|xs|, i requires 0 <= i < |xs| => Half(xs[i], swap))
  }

  function Words(xs: seq<bv32>, swap: bool): (ws: seq<bv32>)
    ensures |ws| == |xs|
  {
    seq(|xs|, i requires 0 <= i < |xs| => Host(xs[i], swap))
  }

  function Longs(xs: seq<bv64>, swap: bool): (ws: seq<bv64>)
    ensures |ws| == |xs|
  {
    seq(|xs|, i requires 0 <= i < |xs| => HostLong(xs[i], swap))
  }

  /** msr_encode_int16; an odd last byte of the buffer is not modelled. */
  method EncodeInt16(input: seq<bv32>, output: array<bv32>, outputlength: int, swap: bool) returns (idx: int)
    requires outputlength <= 2 * output.Length
    modifies output
    ensures idx == if |input| == 0 then 0 else if outputlength <= 0 then -1 else Min(|input|, outputlength / 2)
    ensures idx > 0 ==> output[..idx] == Halves(input[..idx], swap)
    ensures idx > 0 ==> HalvesStored(FromHalves(output[..idx]), input[..idx], swap)
    ensures idx > 0 ==> forall k | idx <= k < outputlength / 2 :: output[k] == 0
  {
    hide Half, FromHalves, HalvesStored;
    if |input| <= 0 {
      return 0;
    }
    if outputlength <= 0 {
      return -1;
    }
    idx := 0;
    var left := outputlength;
    while idx < |input| && left >= 2
      invariant 0 <= idx <= |input| && left == outputlength - 2 * idx && 0 <= left
      invariant forall k | 0 <= k < idx :: output[k] == Half(input[k], swap)
    {
      output[idx] := Half(input[idx], swap);
      left := left - 2;
      idx := idx + 1;
    }
    forall k | idx <= k < outputlength / 2 {
      output[k] := 0;
    }
    assert output[..idx] == Halves(input[..idx], swap);
    HalvesAreStored(input[..idx], swap);
  }

  /** msr_encode_int32, and msr_encode_float32 on the bits of floats; up to three last bytes of the buffer are not modelled. */
  method EncodeInt32(input: seq<bv32>, output: array<bv32>, outputlength: int, swap: bool) returns (idx: int)
    requires outputlength <= 4 * output.Length
    modifies output
    ensures idx == if |input| == 0 then 0 else if outputlength <= 0 then -1 else Min(|input|, outputlength / 4)
    ensures idx > 0 ==> output[..idx] == Words(input[..idx], swap)
    ensures idx > 0 ==> WordsStored(FromWords(output[..idx]), input[..idx], swap)
    ensures idx > 0 ==> forall k | idx <= k < outputlength / 4 :: output[k] == 0
  {
    hide Host, FromWords, WordsStored;
    if |input| <= 0 {
      return 0;
    }
    if outputlength <= 0 {
      return -1;
    }
    idx := 0;
    var left := outputlength;
    while idx < |input| && left >= 4
      invariant 0 <= idx <= |input| && left == outputlength - 4 * idx && 0 <= left
      invariant forall k | 0 <= k < idx :: output[k] == Host(input[k], swap)
    {
      output[idx] := Host(input[idx], swap);
      left := left - 4;
      idx := idx + 1;
    }
    forall k | idx <= k < outputlength / 4 {
      output[k] := 0;
    }
    assert output[..idx] == Words(input[..idx], swap);
    WordsAreStored(input[..idx], swap);
  }

  /** msr_encode_float64; up to seven last bytes of the buffer are not modelled. */
  method EncodeFloat64(input: seq<bv64>, output: array<bv64>, outputlength: int, swap: bool) returns (idx: int)
    requires outputlength <= 8 * output.Length
    modifies output
    ensures idx == if |input| == 0 then 0 else if outputlength <= 0 then -1 else Min(|input|, outputlength / 8)
    ensures idx > 0 ==> output[..idx] == Longs(input[..idx], swap)
    ensures idx > 0 ==> LongsStored(FromLongs(output[..idx]), input[..idx], swap)
    ensures idx > 0 ==> forall k | idx <= k < outputlength / 8 :: output[k] == 0
  {
    hide HostLong, FromLongs, LongsStored;
    if |input| <= 0 {
      return 0;
    }
    if outputlength <= 0 {
      return -1;
    }
    idx := 0;
    var left := outputlength;
    while idx < |input| && left >= 8
      invariant 0 <= idx <= |input| && left == outputlength - 8 * idx && 0 <= left
      invariant forall k | 0 <= k < idx :: output[k] == HostLong(input[k], swap)
    {
      output[idx] := HostLong(input[idx], swap);
      left := left - 8;
      idx := idx + 1;
    }
    forall k | idx <= k < outputlength / 8 {
      output[k] := 0;
    }
    assert output[..idx] == Longs(input[..idx], swap);
    LongsAreStored(input[..idx], swap);
  }

  // ------------------------------------------------------------------- what is stored

  /** The bytes are these integers, or bits of floats, one after the other in the byte order asked for. */
  predicate WordsStored(bs: seq<Byte>, xs: seq<bv32>, swap: bool) {
    |bs| == 4 * |xs| && forall i | 0 <= i < |xs| :: Number32(bs, 4 * i, swap) == AsNumber(xs[i])
  }

  predicate HalvesStored(bs: seq<Byte>, xs: seq<bv32>, swap: bool) {
    |bs| == 2 * |xs| && forall i | 0 <= i < |xs| :: Number16(bs, 2 * i, swap) == AsNumber(xs[i]) % 65536
  }

  predicate LongsStored(bs: seq<Byte>, xs: seq<bv64>, swap: bool) {
    |bs| == 8 * |xs| && forall i | 0 <= i < |xs| :: Number64(bs, 8 * i, swap) == LongNumber(xs[i])
  }

  lemma WordsAreStored(xs: seq<bv32>, swap: bool)
    ensures WordsStored(FromWords(Words(xs, swap)), xs, swap)
  {
    hide FromWords, Host, AsNumber, Number32;
    forall i | 0 <= i < |xs| ensures Number32(FromWords(Words(xs, swap)), 4 * i, swap) == AsNumber(xs[i]) {
      StoredWord(Words(xs, swap), i, xs[i], swap);
    }
  }

  lemma HalvesAreStored(xs: seq<bv32>, swap: bool)
    ensures HalvesStored(FromHalves(Halves(xs, swap)), xs, swap)
  {
    hide FromHalves, Half, AsNumber, Number16;
    forall i | 0 <= i < |xs| ensures Number16(FromHalves(Halves(xs, swap)), 2 * i, swap) == AsNumber(xs[i]) % 65536 {
      StoredHalf(Halves(xs, swap), i, xs[i], swap);
    }
  }

  lemma LongsAreStored(xs: seq<bv64>, swap: bool)
    ensures LongsStored(FromLongs(Longs(xs, swap)), xs, swap)
  {
    hide FromLongs, HostLong, LongNumber, Number64;
    forall i | 0 <= i < |xs| ensures Number64(FromLongs(Longs(xs, swap)), 8 * i, swap) == LongNumber(xs[i]) {
      StoredLong(Longs(xs, swap), i, xs[i], swap);
    }
  }

  /** How the first n samples stand in a payload; a Steim payload begins with the first and the last of them, big endian. */
  ghost predicate StoredAs(bs: seq<Byte>, s: Samples, n: nat, encoding: Encoding, swapflag: bool) {
    n <= Size(s) &&
    match (encoding, s)
    case (Text, Chars(cs)) => bs == cs[..n]
    case (Int16, Ints(xs)) => HalvesStored(bs, xs[..n], swapflag)
    case (Int32, Ints(xs)) => WordsStored(bs, xs[..n], swapflag)
    case (Float32, Floats(fs)) => WordsStored(bs, fs[..n], swapflag)
    case (Float64, Doubles(ds)) => LongsStored(bs, ds[..n], swapflag)
    case (Steim(_), Ints(xs)) => n > 0 && |bs| >= 64 && Big32(bs, 4) == AsNumber(xs[0]) && Big32(bs, 8) == AsNumber(xs[n - 1])
    case _ => false
  }

  // ---------------------------------------------------------------------------- decoding

  /** ms_decode_data: what the first `count` samples of a payload are; None for an error, also when it has fewer. */
  function Decode(bs: seq<Byte>, count: nat, encoding: Encoding, swap: bool): Option<Samples> {
    match encoding
    case Text => if count <= |bs| then Some(Chars(bs[..count])) else None
    case Int16 =>
      if 2 * count <= |bs|
      then Some(Ints(seq(count, i requires 0 <= i < count => Extend16(Half(ToHalves(bs)[i], swap)))))
      else None
    case Int32 =>
      if 4 * count <= |bs|
      then Some(Ints(seq(count, i requires 0 <= i < count => Host(ToWords(bs)[i], swap))))
      else None
    case Float32 =>
      if 4 * count <= |bs|
      then Some(Floats(seq(count, i requires 0 <= i < count => Host(ToWords(bs)[i], swap))))
      else None
    case Float64 =>
      if 8 * count <= |bs|
      then Some(Doubles(seq(count, i requires 0 <= i < count => HostLong(ToLongs(bs)[i], swap))))
      else None
    case Steim(ver) =>
      if |bs| < 64 then None
      else
        (match PayloadSamples(ver, ToWords(bs[..64 * (|bs| / 64)]), count, swap)
         case None => None
         case Some(xs) => if |xs| == count then Some(Ints(xs)) else None)
    case Unknown => None
  }

  /** What comes back of samples that are packed and unpacked. */
  function Through(s: Samples, encoding: Encoding): Samples {
    if s.Ints? && encoding == Int16 then Ints(Each16(s.xs)) else s
  }

  lemma Int16Decodes(xs: seq<bv32>, swap: bool)
    ensures Decode(FromHalves(Halves(xs, swap)), |xs|, Int16, swap) == Some(Ints(Each16(xs)))
  {
    hide Extend16, Half, FromHalves, ToHalves, Low16, Through16;
    var hs := Halves(xs, swap);
    HalvesRoundTrip(hs);
    forall i | 0 <= i < |xs| ensures Extend16(Half(ToHalves(FromHalves(hs))[i], swap)) == Each16(xs)[i] {
      HalfTwice(xs[i], swap);
    }
    assert Decode(FromHalves(hs), |xs|, Int16, swap).value.xs == Each16(xs);
  }

  lemma Int32Decodes(xs: seq<bv32>, swap: bool)
    ensures Decode(FromWords(Words(xs, swap)), |xs|, Int32, swap) == Some(Ints(xs))
  {
    hide Host, FromWords, ToWords;
    var ws := Words(xs, swap);
    WordsRoundTrip(ws);
    forall i | 0 <= i < |xs| ensures Host(ToWords(FromWords(ws))[i], swap) == xs[i] {
      HostInvolution(xs[i], swap);
    }
    assert Decode(FromWords(ws), |xs|, Int32, swap).value.xs == xs;
  }

  lemma Float32Decodes(fs: seq<bv32>, swap: bool)
    ensures Decode(FromWords(Words(fs, swap)), |fs|, Float32, swap) == Some(Floats(fs))
  {
    hide Host, FromWords, ToWords;
    var ws := Words(fs, swap);
    WordsRoundTrip(ws);
    forall i | 0 <= i < |fs| ensures Host(ToWords(FromWords(ws))[i], swap) == fs[i] {
      HostInvolution(fs[i], swap);
    }
    assert Decode(FromWords(ws), |fs|, Float32, swap).value.fs == fs;
  }

  lemma Float64Decodes(ds: seq<bv64>, swap: bool)
    ensures Decode(FromLongs(Longs(ds, swap)), |ds|, Float64, swap) == Some(Doubles(ds))
  {
    hide HostLong, FromLongs, ToLongs;
    var ws := Longs(ds, swap);
    LongsRoundTrip(ws);
    forall i | 0 <= i < |ds| ensures HostLong(ToLongs(FromLongs(ws))[i], swap) == ds[i] {
      HostLongInvolution(ds[i], swap);
    }
    assert Decode(FromLongs(ws), |ds|, Float64, swap).value.ds == ds;
  }

  lemma SteimDecodes(ver: Version, ws: seq<bv32>, xs: seq<bv32>, swap: bool)
    requires |ws| >= 16 && |ws| % 16 == 0 && PayloadSamples(ver, ws, |xs|, swap) == Some(xs)
    ensures Decode(FromWords(ws), |xs|, Steim(ver), swap) == Some(Ints(xs))
  {
    hide PayloadSamples, FromWords, ToWords;
    WordsRoundTrip(ws);
    var bs := FromWords(ws);
    WholeFrames(|ws|);
    assert bs[..|bs|] == bs;
  }

  lemma WholeFrames(n: nat)
    requires n % 16 == 0
    ensures 64 * (4 * n / 64) == 4 * n && n >= 16 ==> 4 * n >= 64
  {
    var f := n / 16;
    assert 4 * n == 64 * f;
  }

  /** Decoding the samples of the first frames only fails. */
  ghost predicate Tight(bs: seq<Byte>, n: nat, encoding: Encoding, swap: bool) {
    forall f | 0 <= f < |bs| / 64 :: Decode(bs[..64 * f], n, encoding, swap) == None
  }

  lemma LeanIsTight(ver: Version, ws: seq<bv32>, n: nat, swap: bool)
    requires |ws| % 16 == 0 && Lean(ver, ws, n, swap)
    ensures Tight(FromWords(ws), n, Steim(ver), swap)
  {
    hide PayloadSamples, FromWords, ToWords;
    var bs := FromWords(ws);
    forall f | 0 <= f < |bs| / 64 ensures Decode(bs[..64 * f], n, Steim(ver), swap) == None {
      if f > 0 {
        FirstWords(ws, 16 * f);
        WordsRoundTrip(ws[..16 * f]);
        assert FewerIn(ver, ws[..16 * f], n, swap);
        assert bs[..64 * f][..64 * f] == bs[..64 * f];
      }
    }
  }

  lemma FirstWords(ws: seq<bv32>, k: nat)
    requires k <= |ws|
    ensures FromWords(ws)[..4 * k] == FromWords(ws[..k])
  {
    hide ByteOf;
  }

  // ----------------------------------------------------------------------------- packing

  /** The first byte of every 64-byte frame is not zero. */
  predicate FramesBegin(bs: seq<Byte>) {
    forall f | 0 <= f < |bs| / 64 :: bs[64 * f] != 0
  }

  lemma ControlByte(w: bv32, k: nat)
    requires (k == 1 || k == 3) && Nibble(Host(w, true), k) != 0
    ensures ByteOf(w, 0) != 0
  {}

  lemma StartedBytes(ws: seq<bv32>)
    requires |ws| % 16 == 0 && SteimEncoder.Started(ws, true)
    ensures FramesBegin(FromWords(ws))
  {
    hide Nibble, Host, ByteOf, FromWords;
    forall f | 0 <= f < |ws| / 16 ensures FromWords(ws)[64 * f] != 0 {
      var g := SteimEncoder.FirstSlot(f);
      assert g / 16 == f && g % 16 == (if f == 0 then 3 else 1);
      ControlByte(ws[16 * f], g % 16);
      WordBytesAt(ws, 16 * f, 0);
    }
  }

  /** How many of the samples go into a payload of at most maxdatabytes bytes; -1 for an error. */
  function PackCount(s: Samples, maxdatabytes: nat, encoding: Encoding): (n: int)
    ensures -1 <= n <= Size(s)
  {
    match encoding
    case Text => if !s.Chars? then -1 else if |s.cs| == 0 then 0 else if maxdatabytes == 0 then -1 else Min(|s.cs|, maxdatabytes)
    case Int16 => if !s.Ints? || maxdatabytes < 2 then -1 else Min(|s.xs|, maxdatabytes / 2)
    case Int32 => if !s.Ints? || maxdatabytes < 4 then -1 else Min(|s.xs|, maxdatabytes / 4)
    case Float32 => if !s.Floats? || maxdatabytes < 4 then -1 else Min(|s.fs|, maxdatabytes / 4)
    case Float64 => if !s.Doubles? || maxdatabytes < 8 then -1 else Min(|s.ds|, maxdatabytes / 8)
    case Steim(ver) =>
      if !s.Ints? || maxdatabytes < 64 then -1
      else if |s.xs| == 0 then 0
      else
        var ds, slots := Differences(s.xs, 0), DataSlots(16 * (maxdatabytes / 64));
        if Stuck(ver, ds, slots) then -1 else Reach(ver, ds, slots)
    case Unknown => -1
  }

  /** How many frames the encoder fills: no more than all the differences need. */
  function FramesUsed(ver: Version, ds: seq<bv32>, maxframes: nat): nat {
    if maxframes > 0 && Reach(ver, ds, DataSlots(16 * (maxframes - 1))) == |ds| then FramesUsed(ver, ds, maxframes - 1) else maxframes
  }

  /** How many bytes a Steim payload of the samples takes where there is room for so many. */
  function PayloadBytes(s: Samples, maxdatabytes: nat, ver: Version): nat {
    if s.Ints? then 64 * FramesUsed(ver, Differences(s.xs, 0), maxdatabytes / 64) else 0
  }

  lemma {:induction false} UsedExactly(ver: Version, ds: seq<bv32>, f: nat, maxframes: nat)
    requires 0 < f <= maxframes && Reach(ver, ds, DataSlots(16 * (f - 1))) < |ds|
    requires f == maxframes || Reach(ver, ds, DataSlots(16 * f)) == |ds|
    ensures FramesUsed(ver, ds, maxframes) == f
    decreases maxframes
  {
    hide Reach, DataSlots;
    if f < maxframes {
      DataSlotsMonotone(16 * f, 16 * (maxframes - 1));
      ReachMonotone(ver, ds, DataSlots(16 * f), DataSlots(16 * (maxframes - 1)));
      UsedExactly(ver, ds, f, maxframes - 1);
    }
  }

  /** Samples that do not all fit fill the frames. */
  lemma AllUsed(ver: Version, ds: seq<bv32>, maxframes: nat)
    requires Reach(ver, ds, DataSlots(16 * maxframes)) < |ds|
    ensures FramesUsed(ver, ds, maxframes) == maxframes
  {
    hide Reach, DataSlots;
    if maxframes > 0 {
      DataSlotsMonotone(16 * (maxframes - 1), 16 * maxframes);
      ReachMonotone(ver, ds, DataSlots(16 * (maxframes - 1)), DataSlots(16 * maxframes));
    }
  }

  /** Steim payloads are big endian, whatever the record is. */
  function PayloadSwap(encoding: Encoding, swapflag: bool): bool {
    encoding.Steim? || swapflag
  }

  /** How many bytes a sample takes, where all take the same. */
  function SampleBytes(encoding: Encoding): nat {
    match encoding case Text => 1 case Int16 => 2 case Float64 => 8 case _ => 4
  }

  predicate Fixed(encoding: Encoding) {
    encoding == Text || encoding == Int16 || encoding == Int32 || encoding == Float32 || encoding == Float64
  }

  /** The bytes are the payload of the first n samples: they unpack to these, and are no more than needed. */
  ghost predicate IsPayload(bs: seq<Byte>, s: Samples, n: nat, encoding: Encoding, swapflag: bool) {
    && n <= Size(s)
    && Decode(bs, n, encoding, PayloadSwap(encoding, swapflag)) == Some(Through(Take(s, n), encoding))
    && (Fixed(encoding) ==> |bs| == SampleBytes(encoding) * n)
    && (encoding.Steim? ==> |bs| % 64 == 0 && FramesBegin(bs) && Tight(bs, n, encoding, true))
  }

  /**
   * msr_pack_data.  The number of bytes is reported in 16 bits; `bytes` is that much of what the
   * encoder left in the destination.
   */
  method MsrPackData(src: Samples, maxdatabytes: nat, encoding: Encoding, swapflag: bool)
      returns (nsamples: int, byteswritten: nat, bytes: seq<Byte>)
    ensures nsamples == PackCount(src, maxdatabytes, encoding)
    ensures |bytes| == byteswritten <= maxdatabytes && byteswritten < 0x1_0000
    ensures nsamples > 0 && maxdatabytes < 0x1_0000 ==> IsPayload(bytes, src, nsamples, encoding, swapflag)
    ensures nsamples > 0 && maxdatabytes < 0x1_0000 ==> StoredAs(bytes, src, nsamples, encoding, swapflag)
    ensures nsamples > 0 && encoding == Text ==> byteswritten == nsamples % 0x1_0000
    ensures nsamples > 0 && encoding.Steim? && maxdatabytes < 0x1_0000 ==> |bytes| == PayloadBytes(src, maxdatabytes, encoding.ver)
  {
    nsamples, byteswritten, bytes := -1, 0, [];
    match encoding
    case Text => nsamples, byteswritten, bytes := PackText(src, maxdatabytes, swapflag);
    case Int16 => nsamples, byteswritten, bytes := PackInt16(src, maxdatabytes, swapflag);
    case Int32 => nsamples, byteswritten, bytes := PackInt32(src, maxdatabytes, swapflag);
    case Float32 => nsamples, byteswritten, bytes := PackFloat32(src, maxdatabytes, swapflag);
    case Float64 => nsamples, byteswritten, bytes := PackFloat64(src, maxdatabytes, swapflag);
    case Steim(ver) => nsamples, byteswritten, bytes := PackSteim(src, maxdatabytes, ver, swapflag);
    case Unknown =>
  }

  /** The text branch of msr_pack_data */
  method PackText(src: Samples, maxdatabytes: nat, swapflag: bool) returns (nsamples: int, byteswritten: nat, bytes: seq<Byte>)
    ensures nsamples == PackCount(src, maxdatabytes, Text)
    ensures |bytes| == byteswritten <= maxdatabytes && byteswritten < 0x1_0000
    ensures nsamples > 0 ==> byteswritten == nsamples % 0x1_0000
    ensures nsamples > 0 && maxdatabytes < 0x1_0000 ==> IsPayload(bytes, src, nsamples, Text, swapflag)
    ensures nsamples > 0 && maxdatabytes < 0x1_0000 ==> StoredAs(bytes, src, nsamples, Text, swapflag)
  {
    nsamples, byteswritten, bytes := -1, 0, [];
    if !src.Chars? {
      return;
    }
    var dest := new Byte[maxdatabytes];
    nsamples := EncodeText(src.cs, dest, maxdatabytes);
    if nsamples > 0 {
      byteswritten := nsamples % 0x1_0000;
      bytes := dest[..byteswritten];
      assert maxdatabytes < 0x1_0000 ==> bytes[..nsamples] == src.cs[..nsamples];
    }
  }

  /** The Int16 branch of msr_pack_data */
  method PackInt16(src: Samples, maxdatabytes: nat, swapflag: bool) returns (nsamples: int, byteswritten: nat, bytes: seq<Byte>)
    ensures nsamples == PackCount(src, maxdatabytes, Int16)
    ensures |bytes| == byteswritten <= maxdatabytes && byteswritten < 0x1_0000
    ensures nsamples > 0 && maxdatabytes < 0x1_0000 ==> IsPayload(bytes, src, nsamples, Int16, swapflag)
    ensures nsamples > 0 && maxdatabytes < 0x1_0000 ==> StoredAs(bytes, src, nsamples, Int16, swapflag)
  {
    hide FromWords, ToWords, FromHalves, ToHalves, Extend16, Half, Host, Each16, Decode, WordsStored, HalvesStored, LongsStored;
    nsamples, byteswritten, bytes := -1, 0, [];
    if !src.Ints? || maxdatabytes < 2 {
      return;
    }
    var dest := new bv32[(maxdatabytes + 1) / 2];
    nsamples := EncodeInt16(src.xs, dest, maxdatabytes, swapflag);
    if nsamples > 0 {
      byteswritten := nsamples * 2 % 0x1_0000;
      bytes := FromHalves(dest[..nsamples])[..byteswritten];
      assert maxdatabytes < 0x1_0000 ==> bytes == FromHalves(dest[..nsamples]);
      Int16Decodes(src.xs[..nsamples], swapflag);
      HalvesAreStored(src.xs[..nsamples], swapflag);
    }
  }

  /** The Int32 branch of msr_pack_data */
  method PackInt32(src: Samples, maxdatabytes: nat, swapflag: bool) returns (nsamples: int, byteswritten: nat, bytes: seq<Byte>)
    ensures nsamples == PackCount(src, maxdatabytes, Int32)
    ensures |bytes| == byteswritten <= maxdatabytes && byteswritten < 0x1_0000
    ensures nsamples > 0 && maxdatabytes < 0x1_0000 ==> IsPayload(bytes, src, nsamples, Int32, swapflag)
    ensures nsamples > 0 && maxdatabytes < 0x1_0000 ==> StoredAs(bytes, src, nsamples, Int32, swapflag)
  {
    hide FromWords, ToWords, FromHalves, ToHalves, Extend16, Half, Host, Each16, Decode, WordsStored, HalvesStored, LongsStored;
    nsamples, byteswritten, bytes := -1, 0, [];
    if !src.Ints? || maxdatabytes < 4 {
      return;
    }
    var dest := new bv32[(maxdatabytes + 3) / 4];
    nsamples := EncodeInt32(src.xs, dest, maxdatabytes, swapflag);
    if nsamples > 0 {
      byteswritten := nsamples * 4 % 0x1_0000;
      bytes := FromWords(dest[..nsamples])[..byteswritten];
      assert maxdatabytes < 0x1_0000 ==> bytes == FromWords(dest[..nsamples]);
      Int32Decodes(src.xs[..nsamples], swapflag);
      WordsAreStored(src.xs[..nsamples], swapflag);
    }
  }

  /** The Float32 branch of msr_pack_data */
  method PackFloat32(src: Samples, maxdatabytes: nat, swapflag: bool) returns (nsamples: int, byteswritten: nat, bytes: seq<Byte>)
    ensures nsamples == PackCount(src, maxdatabytes, Float32)
    ensures |bytes| == byteswritten <= maxdatabytes && byteswritten < 0x1_0000
    ensures nsamples > 0 && maxdatabytes < 0x1_0000 ==> IsPayload(bytes, src, nsamples, Float32, swapflag)
    ensures nsamples > 0 && maxdatabytes < 0x1_0000 ==> StoredAs(bytes, src, nsamples, Float32, swapflag)
  {
    hide FromWords, ToWords, Host, Each16, Decode, WordsStored, HalvesStored, LongsStored;
    nsamples, byteswritten, bytes := -1, 0, [];
    if !src.Floats? || maxdatabytes < 4 {
      return;
    }
    var dest := new bv32[(maxdatabytes + 3) / 4];
    nsamples := EncodeInt32(src.fs, dest, maxdatabytes, swapflag);
    if nsamples > 0 {
      byteswritten := nsamples * 4 % 0x1_0000;
      bytes := FromWords(dest[..nsamples])[..byteswritten];
      assert maxdatabytes < 0x1_0000 ==> bytes == FromWords(dest[..nsamples]);
      Float32Decodes(src.fs[..nsamples], swapflag);
      WordsAreStored(src.fs[..nsamples], swapflag);
    }
  }

  /** The Float64 branch of msr_pack_data */
  method PackFloat64(src: Samples, maxdatabytes: nat, swapflag: bool) returns (nsamples: int, byteswritten: nat, bytes: seq<Byte>)
    ensures nsamples == PackCount(src, maxdatabytes, Float64)
    ensures |bytes| == byteswritten <= maxdatabytes && byteswritten < 0x1_0000
    ensures nsamples > 0 && maxdatabytes < 0x1_0000 ==> IsPayload(bytes, src, nsamples, Float64, swapflag)
    ensures nsamples > 0 && maxdatabytes < 0x1_0000 ==> StoredAs(bytes, src, nsamples, Float64, swapflag)
  {
    hide FromLongs, ToLongs, HostLong, Each16, Decode, WordsStored, HalvesStored, LongsStored;
    nsamples, byteswritten, bytes := -1, 0, [];
    if !src.Doubles? || maxdatabytes < 8 {
      return;
    }
    var dest := new bv64[(maxdatabytes + 7) / 8];
    nsamples := EncodeFloat64(src.ds, dest, maxdatabytes, swapflag);
    if nsamples > 0 {
      byteswritten := nsamples * 8 % 0x1_0000;
      bytes := FromLongs(dest[..nsamples])[..byteswritten];
      assert maxdatabytes < 0x1_0000 ==> bytes == FromLongs(dest[..nsamples]);
      Float64Decodes(src.ds[..nsamples], swapflag);
      LongsAreStored(src.ds[..nsamples], swapflag);
    }
  }

  /** The Steim branches of msr_pack_data; the result is always big endian. */
  method PackSteim(src: Samples, maxdatabytes: nat, ver: Version, swapflag: bool)
      returns (nsamples: int, byteswritten: nat, bytes: seq<Byte>)
    ensures nsamples == PackCount(src, maxdatabytes, Steim(ver))
    ensures |bytes| == byteswritten <= maxdatabytes && byteswritten < 0x1_0000
    ensures nsamples > 0 && maxdatabytes < 0x1_0000 ==> IsPayload(bytes, src, nsamples, Steim(ver), swapflag)
    ensures nsamples > 0 && maxdatabytes < 0x1_0000 ==> StoredAs(bytes, src, nsamples, Steim(ver), swapflag)
    ensures nsamples > 0 && maxdatabytes < 0x1_0000 ==> |bytes| == PayloadBytes(src, maxdatabytes, ver)
  {
    hide *;
    nsamples, byteswritten, bytes := -1, 0, [];
    SteimCount(src, maxdatabytes, ver);
    if !src.Ints? || maxdatabytes < 64 {
      return;
    }
    SizeOfInts(src);
    var dest := new bv32[(maxdatabytes + 3) / 4];
    ghost var frames;
    nsamples, byteswritten, frames := SteimEncoder.Encode(ver, src.xs, dest, maxdatabytes, 0, true);
    if nsamples > 0 {
      InSixteenBits(frames, maxdatabytes);
      bytes := FromWords(dest[..byteswritten / 4]);
      if maxdatabytes < 0x1_0000 {
        SteimPayload(ver, dest[..16 * frames], src, nsamples, swapflag);
        SteimStored(ver, dest[..16 * frames], src, nsamples, swapflag);
        SteimBytes(ver, src, maxdatabytes, frames);
      }
    }
  }

  lemma SteimBytes(ver: Version, src: Samples, maxdatabytes: nat, frames: nat)
    requires src.Ints? && 0 < frames <= maxdatabytes / 64
    requires var ds := Differences(src.xs, 0);
             Reach(ver, ds, DataSlots(16 * (frames - 1))) < |ds| &&
             (frames == maxdatabytes / 64 || Reach(ver, ds, DataSlots(16 * frames)) == |ds|)
    ensures PayloadBytes(src, maxdatabytes, ver) == 64 * frames
  {
    hide Reach, DataSlots, Differences;
    UsedExactly(ver, Differences(src.xs, 0), frames, maxdatabytes / 64);
  }

  lemma SteimCount(s: Samples, maxdatabytes: nat, ver: Version)
    ensures PackCount(s, maxdatabytes, Steim(ver)) ==
            if !s.Ints? || maxdatabytes < 64 then -1
            else if |s.xs| == 0 then 0
            else
              var ds, slots := Differences(s.xs, 0), DataSlots(16 * (maxdatabytes / 64));
              if Stuck(ver, ds, slots) then -1 else Reach(ver, ds, slots)
  {
    hide Stuck, Reach, DataSlots, Differences;
  }

  lemma InSixteenBits(frames: nat, maxdatabytes: nat)
    requires frames <= maxdatabytes / 64
    ensures var bytes := 64 * frames % 0x1_0000; bytes % 4 == 0 && bytes / 4 <= (maxdatabytes + 3) / 4 && bytes <= maxdatabytes
    ensures maxdatabytes < 0x1_0000 ==> 64 * frames % 0x1_0000 == 64 * frames && 64 * frames / 4 == 16 * frames <= (maxdatabytes + 3) / 4
  {
    var q, r := frames / 1024, frames % 1024;
    FramesModulo(frames, q, r);
    Quarter(r, maxdatabytes);
    if maxdatabytes < 0x1_0000 {
      FramesModulo(frames, 0, frames);
      Quarter(frames, maxdatabytes);
    }
  }

  lemma FramesModulo(frames: nat, q: nat, r: nat)
    requires frames == 1024 * q + r && r < 1024
    ensures 64 * frames % 0x1_0000 == 64 * r && r <= frames
  {
    assert 64 * frames == 0x1_0000 * q + 64 * r;
  }

  lemma Quarter(r: nat, maxdatabytes: nat)
    requires 64 * r <= maxdatabytes
    ensures 64 * r % 4 == 0 && 64 * r / 4 == 16 * r <= (maxdatabytes + 3) / 4
  {}

  lemma SizeOfInts(s: Samples)
    requires s.Ints?
    ensures Size(s) == |s.xs|
  {}

  /** X0 and Xn as bytes. */
  lemma SteimStored(ver: Version, ws: seq<bv32>, src: Samples, n: nat, swapflag: bool)
    requires src.Ints? && 0 < n <= |src.xs| && |ws| >= 16 && Host(ws[1], true) == src.xs[0] && Host(ws[2], true) == src.xs[n - 1]
    ensures StoredAs(FromWords(ws), src, n, Steim(ver), swapflag)
  {
    hide Host, FromWords, AsNumber, Big32, Little32;
    HostInvolution(ws[1], true);
    HostInvolution(ws[2], true);
    StoredWord(ws, 1, src.xs[0], true);
    StoredWord(ws, 2, src.xs[n - 1], true);
  }

  /** The words of frames that hold the first samples, as bytes, are their payload. */
  lemma SteimPayload(ver: Version, ws: seq<bv32>, src: Samples, n: nat, swapflag: bool)
    requires src.Ints? && 0 < n <= |src.xs| && |ws| >= 16 && |ws| % 16 == 0
    requires PayloadSamples(ver, ws, n, true) == Some(src.xs[..n]) && SteimEncoder.Started(ws, true) && Lean(ver, ws, n, true)
    ensures IsPayload(FromWords(ws), src, n, Steim(ver), swapflag)
  {
    hide *;
    StartedBytes(ws);
    LeanIsTight(ver, ws, n, true);
    SteimDecodes(ver, ws, src.xs[..n], true);
    FrameBytes(ws);
    SteimIsPayload(ver, FromWords(ws), src, n, swapflag);
  }

  lemma FrameBytes(ws: seq<bv32>)
    requires |ws| % 16 == 0
    ensures |FromWords(ws)| % 64 == 0
  {
    hide FromWords;
  }

  lemma SteimIsPayload(ver: Version, bs: seq<Byte>, src: Samples, n: nat, swapflag: bool)
    requires src.Ints? && n <= |src.xs| && Decode(bs, n, Steim(ver), true) == Some(Ints(src.xs[..n]))
    requires |bs| % 64 == 0 && FramesBegin(bs) && Tight(bs, n, Steim(ver), true)
    ensures IsPayload(bs, src, n, Steim(ver), swapflag)
  {
    hide Decode, FramesBegin, Tight;
  }

  // ---------------------------------------------------------------------------- decoders

  /** msr_decode_int16 */
  method DecodeInt16(input: seq<bv32>, samplecount: nat, output: array<bv32>, outputlength: int, swap: bool) returns (idx: int)
    requires samplecount <= |input| && samplecount <= output.Length && outputlength == 4 * samplecount
    modifies output
    ensures idx == samplecount && forall k | 0 <= k < samplecount :: output[k] == Extend16(Half(input[k], swap))
  {
    if samplecount <= 0 {
      return 0;
    }
    idx := 0;
    var left := outputlength;
    while idx < samplecount && left >= 4
      invariant 0 <= idx <= samplecount && left == outputlength - 4 * idx
      invariant forall k | 0 <= k < idx :: output[k] == Extend16(Half(input[k], swap))
    {
      output[idx] := Extend16(Half(input[idx], swap));
      left := left - 4;
      idx := idx + 1;
    }
  }

  /** msr_decode_int32, and msr_decode_float32 on the bits of floats */
  method DecodeInt32(input: seq<bv32>, samplecount: nat, output: array<bv32>, outputlength: int, swap: bool) returns (idx: int)
    requires samplecount <= |input| && samplecount <= output.Length && outputlength == 4 * samplecount
    modifies output
    ensures idx == samplecount && forall k | 0 <= k < samplecount :: output[k] == Host(input[k], swap)
  {
    if samplecount <= 0 {
      return 0;
    }
    idx := 0;
    var left := outputlength;
    while idx < samplecount && left >= 4
      invariant 0 <= idx <= samplecount && left == outputlength - 4 * idx
      invariant forall k | 0 <= k < idx :: output[k] == Host(input[k], swap)
    {
      output[idx] := Host(input[idx], swap);
      left := left - 4;
      idx := idx + 1;
    }
  }

  /** msr_decode_float64 */
  method DecodeFloat64(input: seq<bv64>, samplecount: nat, output: array<bv64>, outputlength: int, swap: bool) returns (idx: int)
    requires samplecount <= |input| && samplecount <= output.Length && outputlength == 8 * samplecount
    modifies output
    ensures idx == samplecount && forall k | 0 <= k < samplecount :: output[k] == HostLong(input[k], swap)
  {
    hide HostLong;
    if samplecount <= 0 {
      return 0;
    }
    idx := 0;
    var left := outputlength;
    while idx < samplecount && left >= 8
      invariant 0 <= idx <= samplecount && left == outputlength - 8 * idx
      invariant forall k | 0 <= k < idx :: output[k] == HostLong(input[k], swap)
    {
      output[idx] := HostLong(input[idx], swap);
      left := left - 8;
      idx := idx + 1;
    }
  }

  /** ms_decode_data; a payload with fewer bytes than the samples need is not read past its end but refused. */
  method MsDecodeData(input: seq<Byte>, samplecount: nat, encoding: Encoding, swapflag: bool) returns (r: Option<Samples>)
    requires samplecount > 0
    ensures r == Decode(input, samplecount, encoding, swapflag)
  {
    hide PayloadSamples, ToWords, ToHalves, ToLongs, Extend16, Half, Host, HostLong;
    match encoding
    case Text =>
      if |input| < samplecount {
        return None;
      }
      r := Some(Chars(input[..samplecount]));
    case Int16 =>
      if |input| < 2 * samplecount {
        return None;
      }
      var output := new bv32[samplecount];
      var n := DecodeInt16(ToHalves(input), samplecount, output, 4 * samplecount, swapflag);
      assert output[..] == Decode(input, samplecount, encoding, swapflag).value.xs;
      r := Some(Ints(output[..]));
    case Int32 =>
      if |input| < 4 * samplecount {
        return None;
      }
      var output := new bv32[samplecount];
      var n := DecodeInt32(ToWords(input), samplecount, output, 4 * samplecount, swapflag);
      assert output[..] == Decode(input, samplecount, encoding, swapflag).value.xs;
      r := Some(Ints(output[..]));
    case Float32 =>
      if |input| < 4 * samplecount {
        return None;
      }
      var output := new bv32[samplecount];
      var n := DecodeInt32(ToWords(input), samplecount, output, 4 * samplecount, swapflag);
      assert output[..] == Decode(input, samplecount, encoding, swapflag).value.fs;
      r := Some(Floats(output[..]));
    case Float64 =>
      if |input| < 8 * samplecount {
        return None;
      }
      var output := new bv64[samplecount];
      var n := DecodeFloat64(ToLongs(input), samplecount, output, 8 * samplecount, swapflag);
      assert output[..] == Decode(input, samplecount, encoding, swapflag).value.ds;
      r := Some(Doubles(output[..]));
    case Steim(ver) =>
      if |input| < 64 {
        return None;
      }
      var output := new bv32[samplecount];
      var n := SteimDecoder.Decode(ver, ToWords(input), |input|, samplecount, output, 4 * samplecount, swapflag);
      WordsOfFrames(input);
      r := if n != samplecount then None else Some(Ints(output[..n]));
    case Unknown => r := None;
  }

  lemma WordsOfFrames(bs: seq<Byte>)
    ensures ToWords(bs)[..16 * (|bs| / 64)] == ToWords(bs[..64 * (|bs| / 64)])
  {}
}
