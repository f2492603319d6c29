/**
 * Where the payload of a record ends.  The test for empty frames at its end looks at the record
 * from its beginning on, not at the payload, whose place it takes for the record's first bytes.
 */
module Trimming {
  import opened Wrappers
  import opened Bytes
  import opened PackData
  import opened SteimWords
  import opened SteimFormat
  import SteimDecoder

  /** The 64 bytes up to an end are zero. */
  predicate Empty(bs: seq<Byte>, end: nat)
    requires 64 <= end <= |bs|
  {
    forall k | end - 64 <= k < end :: bs[k] == 0
  }

  /** The size of the payload without what looks like empty frames at its end; where that is looked for is not in the payload. */
  function TrimFrames(bs: seq<Byte>, datasize: nat): (n: nat)
    requires datasize <= |bs| && datasize % 64 == 0
    ensures n <= datasize
  {
    if datasize > 0 && Empty(bs, datasize) then TrimFrames(bs, datasize - 64) else datasize
  }

  /** The loop of msr3_data_bounds that looks for empty frames. */
  method Trim(record: seq<Byte>, size: nat) returns (datasize: nat)
    requires size <= |record| && size % 64 == 0
    ensures datasize == TrimFrames(record, size)
  {
    hide Empty;
    datasize := size;
    while datasize > 0 && Empty(record, datasize)
      invariant datasize <= size && datasize % 64 == 0 && TrimFrames(record, datasize) == TrimFrames(record, size)
    {
      datasize := datasize - 64;
    }
  }

  /** Trimming stops at a byte that is not zero. */
  lemma {:induction false} TrimAtLeast(bs: seq<Byte>, size: nat, w: nat, k: nat)
    requires size <= |bs| && size % 64 == 0 && w % 64 == 0 && 0 < w <= size && w - 64 <= k < w && bs[k] != 0
    ensures w <= TrimFrames(bs, size) <= size && TrimFrames(bs, size) % 64 == 0
    decreases size
  {
    if forall i | size - 64 <= i < size :: bs[i] == 0 {
      TrimAtLeast(bs, size - 64, w, k);
    } else {
      assert TrimFrames(bs, size) == size;
    }
  }

  // ------------------------------------------------------- more bytes than the payload has

  lemma SamplesPrefix(ver: Version, ws: seq<bv32>, more: seq<bv32>, need: nat, swap: bool)
    requires 16 <= |ws| <= |more| && more[..|ws|] == ws
    requires PayloadSamples(ver, ws, need, swap).Some? && |PayloadSamples(ver, ws, need, swap).value| == need
    ensures PayloadSamples(ver, more, need, swap) == PayloadSamples(ver, ws, need, swap)
  {
    hide PayloadDiffs, Host;
    PayloadPrefix(ver, ws, more, |ws|, need, swap);
    assert more[..|ws|][1] == more[1];
    var ds := PayloadDiffs(ver, ws, |ws|, need, swap).value;
    IntegrateLength(Host(ws[1], swap), ds);
    SteimDecoder.PayloadEnough(ver, more, |ws|, |more|, need, swap);
  }

  lemma IntegrateLength(x0: bv32, ds: seq<bv32>)
    ensures |Integrate(x0, ds)| == |ds|
  {}

  /** The same for the bytes of whole frames. */
  lemma SteimDecodesPrefix(ver: Version, bs: seq<Byte>, more: seq<Byte>, n: nat, swap: bool)
    requires |bs| % 64 == 0 && |bs| <= |more| && more[..|bs|] == bs
    requires Decode(bs, n, Steim(ver), swap).Some? && Decode(bs, n, Steim(ver), swap).value.Ints?
    requires |Decode(bs, n, Steim(ver), swap).value.xs| == n
    ensures Decode(more, n, Steim(ver), swap) == Decode(bs, n, Steim(ver), swap)
  {
    hide PayloadSamples, WordOf;
    var k := 64 * (|more| / 64);
    var ws, ls := ToWords(bs), ToWords(more[..k]);
    assert bs[..64 * (|bs| / 64)] == bs;
    forall i | 0 <= i < |ws| ensures ls[i] == ws[i] {
      assert more[..|bs|][4 * i] == more[4 * i] && more[..|bs|][4 * i + 1] == more[4 * i + 1];
      assert more[..|bs|][4 * i + 2] == more[4 * i + 2] && more[..|bs|][4 * i + 3] == more[4 * i + 3];
    }
    assert ls[..|ws|] == ws;
    SamplesPrefix(ver, ws, ls, n, swap);
  }

  /** What is trimmed is not more than what is behind the payload in use. */
  ghost predicate Untrimmed(bs: seq<Byte>, size: nat, used: nat)
    requires size <= |bs| && size % 64 == 0
  {
    used <= TrimFrames(bs, size)
  }

  lemma {:induction false} TrimsFrames(bs: seq<Byte>, size: nat)
    requires size <= |bs| && size % 64 == 0
    ensures TrimFrames(bs, size) % 64 == 0
    decreases size
  {
    if size >= 64 && TrimFrames(bs, size) != size {
      TrimsFrames(bs, size - 64);
    }
  }

  /** Trimmed payloads decode to the samples packed exactly when nothing in use is trimmed, and fail otherwise. */
  lemma TrimmedDecodes(bs: seq<Byte>, d: nat, size: nat, payload: seq<Byte>, s: Samples, n: nat, encoding: Encoding, swapflag: bool)
    requires d + size <= |bs| && size % 64 == 0 && |payload| <= size && bs[d..d + |payload|] == payload
    requires encoding.Steim? && IsPayload(payload, s, n, encoding, swapflag)
    ensures Decode(bs[d..d + TrimFrames(bs, size)], n, encoding, true)
         == if Untrimmed(bs, size, |payload|) then Some(Through(PackData.Take(s, n), encoding)) else None
  {
    hide Decode, TrimFrames, FramesBegin, Through, PackData.Take;
    TrimsFrames(bs, size);
    var t := TrimFrames(bs, size);
    var piece := bs[d..d + t];
    if |payload| <= t {
      SliceOfSlice(bs, d, t, 0, |payload|);
      DecodesInts(encoding.ver, payload, n, true);
      SteimDecodesPrefix(encoding.ver, payload, piece, n, true);
    } else {
      SliceOfSlice(bs, d, |payload|, 0, t);
      assert payload[..64 * (t / 64)] == piece;
    }
  }

  lemma DecodesInts(ver: Version, bs: seq<Byte>, n: nat, swap: bool)
    requires Decode(bs, n, Steim(ver), swap).Some?
    ensures Decode(bs, n, Steim(ver), swap).value.Ints? && |Decode(bs, n, Steim(ver), swap).value.xs| == n
  {
    hide PayloadSamples;
  }
}
