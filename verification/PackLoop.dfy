/** What the record loops of both versions share. */
module PackLoop {
  import opened Bytes
  import opened NsTime
  import opened SampleTimes
  import opened PackData
  import opened SteimWords
  import opened SteimFormat
  import opened SteimGreedy
  import SteimEncoder

  /** One record of a run of packing: its start time, how many samples it has and their payload. */
  datatype Part = Part(time: Fields, count: nat, payload: seq<Byte>)

  function Sum(parts: seq<Part>): nat {
    if parts == [] then 0 else Sum(parts[..|parts| - 1]) + parts[|parts| - 1].count
  }

  /** Each part has the time of its first sample, rounded: so many sample periods after the start. */
  ghost predicate InTime(starttime: int, samprate: real, parts: seq<Part>) {
    forall i | 0 <= i < |parts| :: OnTime(starttime, Sum(parts[..i]), samprate, TimeOf(parts[i].time))
  }

  lemma NoneInTime(starttime: int, samprate: real)
    ensures InTime(starttime, samprate, [])
  {}

  lemma InTimeMore(starttime: int, samprate: real, parts: seq<Part>, part: Part)
    requires InTime(starttime, samprate, parts) && TimeOf(part.time) == SampleTime(starttime, Sum(parts), samprate)
    ensures InTime(starttime, samprate, parts + [part])
  {
    hide SampleTime, TimeOf, OnTime;
    var more := parts + [part];
    SampleOnTime(starttime, Sum(parts), samprate);
    forall i | 0 <= i < |more| ensures OnTime(starttime, Sum(more[..i]), samprate, TimeOf(more[i].time)) {
      assert more[..i] == parts[..i];
    }
    assert parts[..|parts|] == parts;
  }

  /** Copy a byte string to a position. */
  method Copy(a: array<Byte>, at: nat, s: seq<Byte>)
    requires at + |s| <= a.Length
    modifies a
    ensures a[at..at + |s|] == s
    ensures forall k | 0 <= k < a.Length && !(at <= k < at + |s|) :: a[k] == old(a[k])
  {
    forall k | 0 <= k < |s| {
      a[at + k] := s[k];
    }
  }

  /** The most samples left that may wait for the next record: STEIM1_FRAME_MAX_SAMPLES and STEIM2_FRAME_MAX_SAMPLES per frame. */
  function MaxSamples(s: Samples, encoding: Encoding, maxdatabytes: nat): nat {
    match encoding
    case Steim(Steim1) => maxdatabytes / 64 * 60
    case Steim(Steim2) => maxdatabytes / 64 * 105
    case _ => maxdatabytes / SampleSize(s)
  }

  /**
   * What may wait: as many samples as the words of so many frames hold at most, 15 words in each but
   * for the first, or as many as fill the record.
   */
  lemma MaxSamplesAre(s: Samples, encoding: Encoding, maxdatabytes: nat)
    ensures encoding.Steim? ==> MaxSamples(s, encoding, maxdatabytes) == maxdatabytes / 64 * (15 * Width1(encoding.ver))
    ensures !encoding.Steim? ==> MaxSamples(s, encoding, maxdatabytes) == maxdatabytes / if s.Chars? then 1 else if s.Doubles? then 8 else 4
  {}

  /** The largest number of differences that fit a word. */
  function Width1(ver: Version): (m: nat)
    ensures forall k | k > m :: Width(ver, k) == 0
    ensures Width(ver, m) > 0
  {
    if ver == Steim1 then 4 else 7
  }

  /** The record uses all of its room that its encoding can; with INT16 about half of it at least. */
  predicate Full(encoding: Encoding, payload: seq<Byte>, maxdatabytes: nat) {
    match encoding
    case Text => |payload| == maxdatabytes
    case Int16 => |payload| >= 2 * (maxdatabytes / 4 + 1) || |payload| == 2 * (maxdatabytes / 2)
    case Int32 => |payload| == 4 * (maxdatabytes / 4)
    case Float32 => |payload| == 4 * (maxdatabytes / 4)
    case Float64 => |payload| == 8 * (maxdatabytes / 8)
    case Steim(_) => |payload| == 64 * (maxdatabytes / 64)
    case _ => true
  }

  /** A payload with room for all samples takes some, unless packing fails. */
  lemma PacksSome(s: Samples, maxdatabytes: nat, encoding: Encoding)
    requires Size(s) > 0 && PackCount(s, maxdatabytes, encoding) >= 0
    ensures 0 < PackCount(s, maxdatabytes, encoding)
  {
    hide Stuck, Reach, DataSlots;
    if encoding.Steim? && s.Ints? && maxdatabytes >= 64 {
      SteimEncoder.EncodedSome(encoding.ver, s.xs, 0, maxdatabytes / 64);
    }
  }

  lemma {:induction false} ReachBound(ver: Version, ds: seq<bv32>, k: nat)
    ensures Reach(ver, ds, k) <= k * (if ver == Steim1 then 4 else 7)
  {
    hide BitWidth;
    if k > 0 {
      ReachBound(ver, ds, k - 1);
    }
  }

  lemma {:induction false} FrameSlots(f: nat)
    ensures DataSlots(16 * f) <= 15 * f
  {
    if f > 0 {
      var g := 16 * (f - 1);
      FrameSlots(f - 1);
      assert DataSlots(g + 1) == DataSlots(g);
      SlotsAtMost(g + 1, 15);
    }
  }

  lemma {:induction false} SlotsAtMost(g: nat, n: nat)
    ensures DataSlots(g + n) <= DataSlots(g) + n
  {
    if n > 0 {
      SlotsAtMost(g, n - 1);
    }
  }

  /** When more samples are left than may wait, the record is filled: not all of them fit it. */
  lemma FillsUp(left: Samples, encoding: Encoding, maxdatabytes: nat, n: nat, bytes: seq<Byte>, swapflag: bool)
    requires n == PackCount(left, maxdatabytes, encoding) && 0 < n
    requires Size(left) > MaxSamples(left, encoding, maxdatabytes) && IsPayload(bytes, left, n, encoding, swapflag)
    requires encoding.Steim? ==> |bytes| == PayloadBytes(left, maxdatabytes, encoding.ver)
    ensures Full(encoding, bytes, maxdatabytes)
  {
    hide Stuck, Reach, DataSlots, Decode, FramesBegin, Tight;
    if encoding.Steim? {
      var f := maxdatabytes / 64;
      ReachBound(encoding.ver, Differences(left.xs, 0), DataSlots(16 * f));
      FrameSlots(f);
      AllUsed(encoding.ver, Differences(left.xs, 0), f);
    }
  }
}
