/**
 * The two Steim encoders, which fill `output` frame by frame from a sliding
 * window of differences.
 */
module SteimEncoder {
  import opened Wrappers
  import opened SteimWords
  import opened SteimFormat
  import opened SteimGreedy

  /**
   * The window: from `off` on, `diffs` holds the `count` differences that follow the
   * first `out` ones, and `bitwidth` holds their widths.
   */
  ghost predicate Window(diffs: array<bv32>, bitwidth: array<nat>, off: nat, count: nat, ds: seq<bv32>, out: nat)
    reads diffs, bitwidth
  {
    && diffs.Length == bitwidth.Length && diffs as object != bitwidth
    && off + count <= diffs.Length
    && out + count <= |ds|
    && (forall j | off <= j < off + count :: diffs[j] == ds[out + j - off])
    && (forall j | off <= j < off + count :: bitwidth[j] == BitWidth(diffs[j]))
  }

  /** Shift the unpacked differences to the front of the window. */
  method ShiftWindow(diffs: array<bv32>, bitwidth: array<nat>, packed: nat, diffcount: nat, ghost ds: seq<bv32>, ghost out: nat)
    requires Window(diffs, bitwidth, packed, diffcount, ds, out)
    modifies diffs, bitwidth
    ensures Window(diffs, bitwidth, 0, diffcount, ds, out)
  {
    hide BitWidth;
    for idx := 0 to diffcount
      invariant Window(diffs, bitwidth, 0, idx, ds, out)
      invariant Window(diffs, bitwidth, packed + idx, diffcount - idx, ds, out + idx)
    {
      diffs[idx], bitwidth[idx] := diffs[packed + idx], bitwidth[packed + idx];
    }
  }

  /** Load differences behind those in the window until it is full or the input is used up. */
  method LoadWindow(input: seq<bv32>, ghost diff0: bv32, diffs: array<bv32>, bitwidth: array<nat>,
                    diffcount0: nat, inputidx0: nat)
    returns (diffcount: nat, inputidx: nat)
    requires inputidx0 < |input| && diffcount0 <= inputidx0 + 1
    requires Window(diffs, bitwidth, 0, diffcount0, Differences(input, diff0), inputidx0 + 1 - diffcount0)
    modifies diffs, bitwidth
    ensures Window(diffs, bitwidth, 0, diffcount, Differences(input, diff0), inputidx0 + 1 - diffcount0)
    ensures diffcount == Min(diffs.Length, |input| - (inputidx0 + 1 - diffcount0))
    ensures inputidx + 1 - diffcount == inputidx0 + 1 - diffcount0 && inputidx < |input|
  {
    hide BitWidth, Minus;
    ghost var ds, out := Differences(input, diff0), inputidx0 + 1 - diffcount0;
    diffcount, inputidx := diffcount0, inputidx0;
    while diffcount < diffs.Length && inputidx < |input| - 1
      invariant diffcount <= diffs.Length && inputidx < |input| && inputidx + 1 - diffcount == out
      invariant Window(diffs, bitwidth, 0, diffcount, ds, out)
    {
      var d := Minus(input[inputidx + 1], input[inputidx]);
      diffs[diffcount] := d;
      bitwidth[diffcount] := BitWidth(d);
      assert ds[inputidx + 1] == DifferenceAt(input, diff0, inputidx + 1) == d;
      diffcount, inputidx := diffcount + 1, inputidx + 1;
    }
  }

  /** The first `m` widths are at most `w`. */
  predicate Narrow(bitwidth: array<nat>, m: nat, w: nat)
    requires m <= bitwidth.Length
    reads bitwidth
  {
    forall j | 0 <= j < m :: bitwidth[j] <= w
  }

  lemma WindowFits(ver: Version, diffs: array<bv32>, bitwidth: array<nat>, diffcount: nat, ds: seq<bv32>, out: nat, m: nat)
    requires Window(diffs, bitwidth, 0, diffcount, ds, out)
    requires diffcount == Min(diffs.Length, |ds| - out) && 0 < m <= diffs.Length
    ensures Fits(ver, ds, out, m) <==> diffcount >= m && Narrow(bitwidth, m, Width(ver, m))
    ensures Fits(ver, ds, out, m) ==> ds[out..out + m] == diffs[..m]
    ensures Fits(ver, ds, out, m) ==> forall j | 0 <= j < m :: BitWidth(diffs[j]) <= Width(ver, m)
  {
    hide BitWidth, Width;
    if diffcount >= m && Narrow(bitwidth, m, Width(ver, m)) {
      forall i | out <= i < out + m ensures BitWidth(ds[i]) <= Width(ver, m) {
        assert bitwidth[i - out] <= Width(ver, m);
        assert diffs[i - out] == ds[i];
      }
    }
    if Fits(ver, ds, out, m) {
      forall j | 0 <= j < m ensures bitwidth[j] <= Width(ver, m) {
        assert diffs[j] == ds[out + j];
      }
    }
  }

  lemma OneFits(diffs: array<bv32>, bitwidth: array<nat>, diffcount: nat, ds: seq<bv32>, out: nat)
    requires Window(diffs, bitwidth, 0, diffcount, ds, out) && diffcount > 0
    ensures ds[out..out + 1] == diffs[..1] && BitWidth(diffs[0]) <= Width(Steim1, 1)
  {}

  /** Choose and build one Steim-2 word from the front of the window; `packed` is 0 if no word fits. */
  method BuildWord2(diffs: array<bv32>, bitwidth: array<nat>, diffcount: nat, swap: bool, ghost ds: seq<bv32>, ghost out: nat)
    returns (packed: nat, nib: bv32, word: bv32)
    requires diffs.Length == 7 == bitwidth.Length && Window(diffs, bitwidth, 0, diffcount, ds, out)
    requires diffcount == Min(7, |ds| - out)
    ensures packed == Step(Steim2, ds, out) && nib <= 3
    ensures packed > 0 ==> WordDiffs2(nib, word, swap) == Some(ds[out..out + packed])
  {
    hide BitWidth, WordDiffs2, Fits, Window, Word2;
    WindowFits(Steim2, diffs, bitwidth, diffcount, ds, out, 7);
    WindowFits(Steim2, diffs, bitwidth, diffcount, ds, out, 6);
    WindowFits(Steim2, diffs, bitwidth, diffcount, ds, out, 5);
    WindowFits(Steim2, diffs, bitwidth, diffcount, ds, out, 4);
    WindowFits(Steim2, diffs, bitwidth, diffcount, ds, out, 3);
    WindowFits(Steim2, diffs, bitwidth, diffcount, ds, out, 2);
    WindowFits(Steim2, diffs, bitwidth, diffcount, ds, out, 1);
    packed := if diffcount == 7 && Narrow(bitwidth, 7, 4) then 7
              else if diffcount >= 6 && Narrow(bitwidth, 6, 5) then 6
              else if diffcount >= 5 && Narrow(bitwidth, 5, 6) then 5
              else if diffcount >= 4 && Narrow(bitwidth, 4, 8) then 4
              else if diffcount >= 3 && Narrow(bitwidth, 3, 10) then 3
              else if diffcount >= 2 && Narrow(bitwidth, 2, 15) then 2
              else if diffcount >= 1 && Narrow(bitwidth, 1, 30) then 1
              else 0;
    nib, word := 0, 0;
    if packed > 0 {
      nib, word := Nibble2(packed), Word2(diffs[..packed], swap);
      Word2Reads(diffs[..packed], swap);
    }
  }

  /** Choose and build one Steim-1 word from the front of the window. */
  method BuildWord1(diffs: array<bv32>, bitwidth: array<nat>, diffcount: nat, swap: bool, ghost ds: seq<bv32>, ghost out: nat)
    returns (packed: nat, nib: bv32, word: bv32)
    requires diffs.Length == 4 == bitwidth.Length && Window(diffs, bitwidth, 0, diffcount, ds, out)
    requires diffcount == Min(4, |ds| - out) && diffcount > 0
    ensures packed == Step(Steim1, ds, out) > 0 && nib <= 3
    ensures WordDiffs1(nib, word, swap) == ds[out..out + packed]
  {
    hide BitWidth, WordDiffs1, Fits, Window, Word1;
    WindowFits(Steim1, diffs, bitwidth, diffcount, ds, out, 4);
    WindowFits(Steim1, diffs, bitwidth, diffcount, ds, out, 2);
    OneFits(diffs, bitwidth, diffcount, ds, out);
    packed := if diffcount == 4 && Narrow(bitwidth, 4, 8) then 4
              else if diffcount >= 2 && Narrow(bitwidth, 2, 16) then 2
              else 1;
    nib, word := Nibble1(packed), Word1(diffs[..packed], swap);
    Word1Reads(diffs[..packed], swap);
  }

  function WindowSize(ver: Version): nat {
    match ver case Steim1 => 4 case Steim2 => 7
  }

  method BuildWord(ver: Version, diffs: array<bv32>, bitwidth: array<nat>, diffcount: nat, swap: bool, ghost ds: seq<bv32>, ghost out: nat)
    returns (packed: nat, nib: bv32, word: bv32)
    requires diffs.Length == WindowSize(ver) && Window(diffs, bitwidth, 0, diffcount, ds, out)
    requires diffcount == Min(WindowSize(ver), |ds| - out) && diffcount > 0
    ensures packed == Step(ver, ds, out) && nib <= 3
    ensures packed > 0 ==> WordDiffs(ver, nib, word, swap) == Some(ds[out..out + packed])
  {
    hide Step, WordDiffs1, WordDiffs2;
    match ver
    case Steim1 => packed, nib, word := BuildWord1(diffs, bitwidth, diffcount, swap, ds, out);
    case Steim2 => packed, nib, word := BuildWord2(diffs, bitwidth, diffcount, swap, ds, out);
  }

  /** The first |chunks| words hold the first `out` differences, as many as the encoder's choices pack there. */
  ghost predicate Encoded(ver: Version, ws: seq<bv32>, chunks: seq<seq<bv32>>, swap: bool, done: nat, ds: seq<bv32>, out: nat) {
    && Holds(ver, ws, chunks, swap, done)
    && out == Reach(ver, ds, DataSlots(|chunks|))
    && !Stuck(ver, ds, DataSlots(|chunks|))
    && Flatten(chunks) == ds[..out]
    && Paced(ver, ds, chunks)
  }

  /** Up to every word the chunks hold as many differences as the encoder's choices pack there. */
  ghost predicate Paced(ver: Version, ds: seq<bv32>, chunks: seq<seq<bv32>>) {
    forall g | 0 <= g <= |chunks| :: |Flatten(chunks[..g])| == Reach(ver, ds, DataSlots(g))
  }

  lemma PacedSnoc(ver: Version, ds: seq<bv32>, chunks: seq<seq<bv32>>, c: seq<bv32>)
    requires Paced(ver, ds, chunks) && |Flatten(chunks + [c])| == Reach(ver, ds, DataSlots(|chunks| + 1))
    ensures Paced(ver, ds, chunks + [c])
  {
    hide Reach, DataSlots, Flatten;
    var more := chunks + [c];
    forall g | 0 <= g <= |more| ensures |Flatten(more[..g])| == Reach(ver, ds, DataSlots(g)) {
      if g <= |chunks| {
        assert more[..g] == chunks[..g];
      } else {
        assert more[..g] == more;
      }
    }
  }

  lemma EncodedReach(ver: Version, ws: seq<bv32>, chunks: seq<seq<bv32>>, swap: bool, done: nat, ds: seq<bv32>, out: nat)
    requires Encoded(ver, ws, chunks, swap, done, ds, out)
    ensures out == Reach(ver, ds, DataSlots(|chunks|)) && !Stuck(ver, ds, DataSlots(|chunks|))
  {}

  /** A word that carries nothing, which is right if it cannot carry anything or nothing is left. */
  lemma EncodedSkip(ver: Version, ws: seq<bv32>, chunks: seq<seq<bv32>>, swap: bool, done: nat, ds: seq<bv32>, out: nat)
    requires Encoded(ver, ws, chunks, swap, done, ds, out) && |chunks| < |ws| && |chunks| / 16 == done
    requires DataSlot(|chunks|) ==> out == |ds| && Nibble(ws[16 * done], |chunks| % 16) == 0
    ensures Encoded(ver, ws, chunks + [[]], swap, done, ds, out)
  {
    hide Holds, Nibble, Step, Paced;
    HoldsEmpty(ver, ws, chunks, swap, done);
    ReachMonotone(ver, ds, DataSlots(|chunks|), DataSlots(|chunks| + 1));
    FlattenSnoc(chunks, []);
    PacedSnoc(ver, ds, chunks, []);
  }

  lemma {:induction false} EncodedPad(ver: Version, ws: seq<bv32>, chunks: seq<seq<bv32>>, swap: bool, done: nat, ds: seq<bv32>, out: nat)
    returns (chunks': seq<seq<bv32>>)
    requires Encoded(ver, ws, chunks, swap, done, ds, out)
    requires 16 * done <= |chunks| <= 16 * (done + 1) <= |ws|
    requires |chunks| == 16 * (done + 1) || out == |ds|
    requires forall k | |chunks| - 16 * done <= k < 16 :: Nibble(ws[16 * done], k) == 0
    ensures |chunks'| == 16 * (done + 1) && Encoded(ver, ws, chunks', swap, done, ds, out)
    decreases 16 * (done + 1) - |chunks|
  {
    hide Encoded, Nibble;
    chunks' := chunks;
    if |chunks| < 16 * (done + 1) {
      assert |chunks| / 16 == done && |chunks| % 16 == |chunks| - 16 * done;
      EncodedSkip(ver, ws, chunks, swap, done, ds, out);
      chunks' := EncodedPad(ver, ws, chunks + [[]], swap, done, ds, out);
    }
  }

  /** The words of a frame that precede its first difference. */
  lemma EncodedStart(ver: Version, ws: seq<bv32>, chunks: seq<seq<bv32>>, swap: bool, done: nat, ds: seq<bv32>, out: nat)
    returns (chunks': seq<seq<bv32>>)
    requires Encoded(ver, ws, chunks, swap, done, ds, out) && |chunks| == 16 * done && 16 * (done + 1) <= |ws|
    ensures |chunks'| == 16 * done + if done == 0 then 3 else 1
    ensures Encoded(ver, ws, chunks', swap, done, ds, out)
  {
    hide Encoded, Nibble;
    EncodedSkip(ver, ws, chunks, swap, done, ds, out);
    chunks' := chunks + [[]];
    if done == 0 {
      EncodedSkip(ver, ws, chunks', swap, done, ds, out);
      chunks' := chunks' + [[]];
      EncodedSkip(ver, ws, chunks', swap, done, ds, out);
      chunks' := chunks' + [[]];
    }
  }

  /** One more word and its nibble. */
  lemma EncodedWord(ver: Version, ws: seq<bv32>, chunks: seq<seq<bv32>>, swap: bool, done: nat, ds: seq<bv32>, out: nat,
                    nib: bv32, w: bv32, packed: nat)
    requires Encoded(ver, ws, chunks, swap, done, ds, out) && |chunks| < |ws| && |chunks| / 16 == done
    requires DataSlot(|chunks|) && nib <= 3 && Nibble(ws[16 * done], |chunks| % 16) == 0
    requires packed == Step(ver, ds, out) > 0 && out + packed <= |ds|
    requires WordDiffs(ver, nib, w, swap) == Some(ds[out..out + packed])
    ensures var g, c := |chunks|, 16 * done;
            && Encoded(ver, ws[g := w][c := SetNibble(ws[c], g % 16, nib)], chunks + [ds[out..out + packed]], swap, done, ds, out + packed)
            && forall k | g % 16 < k < 16 :: Nibble(SetNibble(ws[c], g % 16, nib), k) == Nibble(ws[c], k)
  {
    hide Holds, Nibble, SetNibble, Step, WordDiffs, Paced;
    HoldsWrite(ver, ws, chunks, swap, done, nib, w, ds[out..out + packed]);
    FlattenSnoc(chunks, ds[out..out + packed]);
    assert ds[..out] + ds[out..out + packed] == ds[..out + packed];
    PacedSnoc(ver, ds, chunks, ds[out..out + packed]);
  }

  /** The encoder has loaded `inputidx + 1` differences and packed all but the last `diffcount` of them. */
  ghost predicate Position(ver: Version, input: seq<bv32>, ds: seq<bv32>, diffs: array<bv32>, bitwidth: array<nat>,
                           packed: nat, diffcount: nat, inputidx: nat, out: nat)
    reads diffs, bitwidth
  {
    && diffs.Length == WindowSize(ver) && |ds| == |input|
    && inputidx < |input| && inputidx + 1 == out + diffcount
    && (diffcount == WindowSize(ver) ==> packed == 0)
    && Window(diffs, bitwidth, packed, diffcount, ds, out)
  }

  /** Before a word is chosen: as many unpacked differences as the window takes. */
  method Refill(ver: Version, input: seq<bv32>, ghost diff0: bv32, diffs: array<bv32>, bitwidth: array<nat>,
                packed: nat, diffcount0: nat, inputidx0: nat, ghost out: nat)
    returns (diffcount: nat, inputidx: nat)
    requires Position(ver, input, Differences(input, diff0), diffs, bitwidth, packed, diffcount0, inputidx0, out)
    modifies diffs, bitwidth
    ensures Position(ver, input, Differences(input, diff0), diffs, bitwidth, 0, diffcount, inputidx, out)
    ensures diffcount == Min(WindowSize(ver), |input| - out)
  {
    hide BitWidth, Differences;
    if diffcount0 < diffs.Length {
      ShiftWindow(diffs, bitwidth, packed, diffcount0, Differences(input, diff0), out);
    }
    diffcount, inputidx := LoadWindow(input, diff0, diffs, bitwidth, diffcount0, inputidx0);
  }

  lemma WindowAdvance(diffs: array<bv32>, bitwidth: array<nat>, diffcount: nat, ds: seq<bv32>, out: nat, packed: nat)
    requires Window(diffs, bitwidth, 0, diffcount, ds, out) && packed <= diffcount
    ensures Window(diffs, bitwidth, packed, diffcount - packed, ds, out + packed)
  {
    hide BitWidth;
  }

  /** Zero a frame and, in the first one, store X0; returns the first word that carries differences. */
  method StartFrame(ver: Version, x0: bv32, output: array<bv32>, frameidx: nat, swap: bool,
                    ghost ds: seq<bv32>, ghost out: nat, ghost chunks0: seq<seq<bv32>>)
    returns (widx: nat, ghost chunks: seq<seq<bv32>>)
    requires 16 * (frameidx + 1) <= output.Length && |chunks0| == 16 * frameidx
    requires Encoded(ver, output[..], chunks0, swap, frameidx, ds, out)
    modifies output
    ensures forall k | 0 <= k < output.Length && k / 16 != frameidx :: output[k] == old(output[k])
    ensures widx == (if frameidx == 0 then 3 else 1) && |chunks| == 16 * frameidx + widx
    ensures forall k | widx <= k < 16 :: Nibble(output[16 * frameidx], k) == 0
    ensures Encoded(ver, output[..], chunks, swap, frameidx, ds, out)
    ensures frameidx == 0 ==> Host(output[1], swap) == x0
  {
    ghost var ws0 := output[..];
    var frame := 16 * frameidx;
    forall k | frame <= k < frame + 16 {
      output[k] := 0;
    }
    widx := 1;
    if frameidx == 0 {
      output[1] := Host(x0, swap);
      HostInvolution(x0, swap);
      widx := 3;
    }
    forall k | 0 <= k < 16 ensures Nibble(0, k) == 0 { ZeroControl(k); }
    hide Nibble, Host, Step;
    HoldsPrefix(ver, ws0, output[..], chunks0, swap, frameidx);
    chunks := EncodedStart(ver, output[..], chunks0, swap, frameidx, ds, out);
  }

  /** Refill the window and write one word; `packed` is 0 if the next difference fits no word. */
  method EncodeWord(ver: Version, input: seq<bv32>, ghost diff0: bv32, output: array<bv32>, frameidx: nat, widx: nat, swap: bool,
                    diffs: array<bv32>, bitwidth: array<nat>,
                    packed0: nat, diffcount0: nat, inputidx0: nat, ghost out0: nat, ghost chunks0: seq<seq<bv32>>)
    returns (packed: nat, diffcount: nat, inputidx: nat, ghost chunks: seq<seq<bv32>>)
    requires output != diffs && output as object != bitwidth
    requires 16 * (frameidx + 1) <= output.Length && |chunks0| == 16 * frameidx + widx && out0 < |input|
    requires widx < 16 && DataSlot(16 * frameidx + widx)
    requires Position(ver, input, Differences(input, diff0), diffs, bitwidth, packed0, diffcount0, inputidx0, out0)
    requires Encoded(ver, output[..], chunks0, swap, frameidx, Differences(input, diff0), out0)
    requires forall k | widx <= k < 16 :: Nibble(output[16 * frameidx], k) == 0
    modifies output, diffs, bitwidth
    ensures forall k | 0 <= k < output.Length && k != 16 * frameidx && k != 16 * frameidx + widx :: output[k] == old(output[k])
    ensures packed == Step(ver, Differences(input, diff0), out0) && out0 + packed <= |input|
    ensures packed > 0 ==> Position(ver, input, Differences(input, diff0), diffs, bitwidth, packed, diffcount, inputidx, out0 + packed)
    ensures |chunks| == 16 * frameidx + widx + if packed > 0 then 1 else 0
    ensures Encoded(ver, output[..], chunks, swap, frameidx, Differences(input, diff0), out0 + packed)
    ensures packed > 0 ==> forall k | widx < k < 16 :: Nibble(output[16 * frameidx], k) == 0
  {
    hide Encoded, Step, WordDiffs, SetNibble, Nibble, Window, Differences;
    ghost var ds := Differences(input, diff0);
    ghost var ws0 := output[..];
    diffcount, inputidx := Refill(ver, input, diff0, diffs, bitwidth, packed0, diffcount0, inputidx0, out0);
    var nib, word;
    packed, nib, word := BuildWord(ver, diffs, bitwidth, diffcount, swap, ds, out0);
    StepAtMostWindow(ver, ds, out0);
    chunks := chunks0;
    assert Window(diffs, bitwidth, 0, diffcount, ds, out0);
    if packed > 0 {
      output[16 * frameidx + widx] := word;
      output[16 * frameidx] := SetNibble(output[16 * frameidx], widx, nib);
      assert |chunks| / 16 == frameidx && |chunks| % 16 == widx;
      EncodedWord(ver, ws0, chunks, swap, frameidx, ds, out0, nib, word, packed);
      assert output[..] == ws0[16 * frameidx + widx := word][16 * frameidx := SetNibble(ws0[16 * frameidx], widx, nib)];
      chunks := chunks + [ds[out0..out0 + packed]];
      WindowAdvance(diffs, bitwidth, diffcount, ds, out0, packed);
      diffcount := diffcount - packed;
    }
  }

  lemma StepAtMostWindow(ver: Version, ds: seq<bv32>, p: nat)
    requires p <= |ds|
    ensures Step(ver, ds, p) <= WindowSize(ver) && p + Step(ver, ds, p) <= |ds|
  {
    hide BitWidth;
  }

  /**
   * Fill one frame of `output`, word by word, until it is full or no differences are left.
   * `ok` is false when a difference fits no word.
   */
  method EncodeFrame(ver: Version, input: seq<bv32>, ghost diff0: bv32, output: array<bv32>, frameidx: nat, swap: bool,
                     diffs: array<bv32>, bitwidth: array<nat>,
                     packed0: nat, diffcount0: nat, inputidx0: nat, out0: nat, ghost chunks0: seq<seq<bv32>>)
    returns (ok: bool, packed: nat, diffcount: nat, inputidx: nat, out: nat, ghost chunks: seq<seq<bv32>>)
    requires output != diffs && output as object != bitwidth
    requires 16 * (frameidx + 1) <= output.Length && |chunks0| == 16 * frameidx && out0 < |input|
    requires Position(ver, input, Differences(input, diff0), diffs, bitwidth, packed0, diffcount0, inputidx0, out0)
    requires Encoded(ver, output[..], chunks0, swap, frameidx, Differences(input, diff0), out0)
    modifies output, diffs, bitwidth
    ensures forall k | 0 <= k < output.Length && k / 16 != frameidx :: output[k] == old(output[k])
    ensures !ok ==> Stuck(ver, Differences(input, diff0), DataSlots(16 * (frameidx + 1)))
    ensures ok ==> |chunks| == 16 * (frameidx + 1) && out <= |input|
    ensures ok ==> Position(ver, input, Differences(input, diff0), diffs, bitwidth, packed, diffcount, inputidx, out)
    ensures ok ==> Encoded(ver, output[..], chunks, swap, frameidx + 1, Differences(input, diff0), out)
    ensures ok && frameidx == 0 ==> Host(output[1], swap) == input[0]
  {
    hide Encoded, Nibble, Host, Step, Position;
    ghost var ds := Differences(input, diff0);
    packed, diffcount, inputidx, out := packed0, diffcount0, inputidx0, out0;
    var widx;
    widx, chunks := StartFrame(ver, input[0], output, frameidx, swap, ds, out, chunks0);
    while widx < 16 && out < |input|
      invariant 1 <= widx <= 16 && (frameidx == 0 ==> 3 <= widx) && out <= |input|
      invariant |chunks| == 16 * frameidx + widx
      invariant forall k | 0 <= k < output.Length && k / 16 != frameidx :: output[k] == old(output[k])
      invariant Position(ver, input, ds, diffs, bitwidth, packed, diffcount, inputidx, out)
      invariant Encoded(ver, output[..], chunks, swap, frameidx, ds, out)
      invariant forall k | widx <= k < 16 :: Nibble(output[16 * frameidx], k) == 0
      invariant frameidx == 0 ==> Host(output[1], swap) == input[0]
    {
      ghost var g := 16 * frameidx + widx;
      packed, diffcount, inputidx, chunks :=
        EncodeWord(ver, input, diff0, output, frameidx, widx, swap, diffs, bitwidth, packed, diffcount, inputidx, out, chunks);
      if packed == 0 {
        EncodedReach(ver, output[..], chunks, swap, frameidx, ds, out);
        StuckStays(ver, ds, out, g, 16 * (frameidx + 1));
        return false, packed, diffcount, inputidx, out, chunks;
      }
      out := out + packed;
      widx := widx + 1;
    }
    ghost var ws := output[..];
    chunks := EncodedPad(ver, ws, chunks, swap, frameidx, ds, out);
    EncodedFinishFrame(ver, ws, chunks, swap, frameidx, ds, out);
    output[16 * frameidx] := Host(output[16 * frameidx], swap);
    assert output[..] == ws[16 * frameidx := Host(ws[16 * frameidx], swap)];
    ok := true;
  }

  lemma StuckStays(ver: Version, ds: seq<bv32>, out: nat, g: nat, end: nat)
    requires g < end && DataSlot(g)
    requires out == Reach(ver, ds, DataSlots(g)) < |ds| && Step(ver, ds, out) == 0
    ensures Stuck(ver, ds, DataSlots(end))
  {
    hide Step;
    DataSlotsMonotone(g + 1, end);
    ReachRests(ver, ds, DataSlots(g), DataSlots(end) - 1);
  }

  lemma EncodedFinishFrame(ver: Version, ws: seq<bv32>, chunks: seq<seq<bv32>>, swap: bool, done: nat, ds: seq<bv32>, out: nat)
    requires Encoded(ver, ws, chunks, swap, done, ds, out) && |chunks| == 16 * (done + 1)
    ensures Encoded(ver, ws[16 * done := Host(ws[16 * done], swap)], chunks, swap, done + 1, ds, out)
  {
    hide Holds, Host, Step, Paced;
    HoldsFinishFrame(ver, ws, chunks, swap, done);
  }

  /** The first word of a frame that carries differences. */
  function FirstSlot(f: nat): nat {
    16 * f + if f == 0 then 3 else 1
  }

  /** When the last frame is needed, every frame carries differences from its first word on. */
  lemma EncodedStarts(ver: Version, ws: seq<bv32>, chunks: seq<seq<bv32>>, swap: bool, done: nat, ds: seq<bv32>, out: nat, f: nat)
    requires Encoded(ver, ws, chunks, swap, done, ds, out) && |chunks| == 16 * done && f < done
    requires Reach(ver, ds, DataSlots(16 * (done - 1))) < |ds|
    ensures SlotNibble(ws, FirstSlot(f), swap, done) != 0
  {
    hide Step, SlotNibble, DataSlot, Stuck, WordDiffs;
    var g := FirstSlot(f);
    FirstSlots(f);
    var k := DataSlots(g);
    DataSlotsMonotone(16 * f, 16 * (done - 1));
    ReachMonotone(ver, ds, k, DataSlots(16 * (done - 1)));
    DataSlotsMonotone(g + 1, 16 * done);
    StillSteps(ver, ds, k, DataSlots(16 * done));
    hide Reach, DataSlots;
    ChunkNotEmpty(ver, ds, chunks, g);
    assert SlotDiffs(ver, ws, g, swap, done) == Some(chunks[g]);
    NoNibbleNoDiffs(ver, ws[g], swap);
  }

  /** The first n frames. */
  function Frames(ws: seq<bv32>, n: nat): seq<bv32> {
    if 16 * n <= |ws| then ws[..16 * n] else ws
  }

  /** Every frame of a payload carries differences from its first word on. */
  ghost predicate Started(ws: seq<bv32>, swap: bool) {
    forall f | 0 <= f < |ws| / 16 :: SlotNibble(ws, FirstSlot(f), swap, |ws| / 16) != 0
  }

  lemma EncodedStarted(ver: Version, ws: seq<bv32>, chunks: seq<seq<bv32>>, swap: bool, done: nat, ds: seq<bv32>, out: nat)
    requires 0 < |chunks| == 16 * done <= |ws|
    requires Reach(ver, ds, DataSlots(16 * (done - 1))) < |ds|
    requires Encoded(ver, ws, chunks, swap, done, ds, out)
    ensures Started(Frames(ws, done), swap)
  {
    hide Encoded, Reach, DataSlots;
    forall f | 0 <= f < done ensures SlotNibble(ws[..16 * done], FirstSlot(f), swap, done) != 0 {
      EncodedStarts(ver, ws, chunks, swap, done, ds, out, f);
    }
  }

  lemma EncodedRoom(ver: Version, ws: seq<bv32>, chunks: seq<seq<bv32>>, swap: bool, done: nat, ds: seq<bv32>, out: nat)
    requires Encoded(ver, ws, chunks, swap, done, ds, out)
    ensures |chunks| <= |ws|
  {}

  /** An encoder that is not done and does not give up goes on. */
  lemma StillSteps(ver: Version, ds: seq<bv32>, k: nat, end: nat)
    requires k < end && Reach(ver, ds, k) < |ds| && !Stuck(ver, ds, end)
    ensures Reach(ver, ds, k + 1) > Reach(ver, ds, k)
  {
    hide Step;
    if Step(ver, ds, Reach(ver, ds, k)) == 0 {
      ReachRests(ver, ds, k, end - 1);
    }
  }

  lemma ChunkNotEmpty(ver: Version, ds: seq<bv32>, chunks: seq<seq<bv32>>, g: nat)
    requires Paced(ver, ds, chunks) && g < |chunks|
    requires Reach(ver, ds, DataSlots(g + 1)) > Reach(ver, ds, DataSlots(g))
    ensures chunks[g] != []
  {
    hide Reach, DataSlots;
    assert chunks[..g + 1] == chunks[..g] + [chunks[g]];
    FlattenSnoc(chunks[..g], chunks[g]);
  }

  lemma FirstSlots(f: nat)
    ensures DataSlot(FirstSlot(f)) && DataSlots(FirstSlot(f)) == DataSlots(16 * f) && DataSlots(FirstSlot(f) + 1) == DataSlots(16 * f) + 1
  {
    if f == 0 {
      assert DataSlots(1) == 0 && DataSlots(2) == 0 && DataSlots(3) == 0;
    }
  }

  lemma NoNibbleNoDiffs(ver: Version, w: bv32, swap: bool)
    ensures WordDiffs(ver, 0, w, swap) == Some([])
  {}

  /** Whole frames that hold the first differences of `input` decode to its first samples. */
  lemma EncodedDecodes(ver: Version, ws: seq<bv32>, chunks: seq<seq<bv32>>, swap: bool, done: nat,
                       input: seq<bv32>, diff0: bv32, out: nat)
    requires Encoded(ver, ws, chunks, swap, done, Differences(input, diff0), out)
    requires |chunks| == 16 * done && 0 < done && 0 < |input| && Host(ws[1], swap) == input[0]
    ensures PayloadSamples(ver, ws[..16 * done], out, swap) == Some(input[..out])
  {
    hide SlotDiffs, Host, Plus, Minus, Step;
    var payload, ds := ws[..16 * done], Differences(input, diff0);
    HoldsPrefix(ver, ws, payload, chunks, swap, done);
    HoldsAllDone(ver, payload, chunks, swap, done);
    HoldsDecodes(ver, payload, chunks, |payload|, out, swap);
    assert chunks[..|payload|] == chunks && ds[..out][..out] == ds[..out];
    IntegrateDifferences(input, diff0, out);
  }

  /** When the last frame is needed, no fewer frames hold as many samples. */
  lemma EncodedLean(ver: Version, ws: seq<bv32>, chunks: seq<seq<bv32>>, swap: bool, done: nat, ds: seq<bv32>, out: nat)
    requires 0 < |chunks| == 16 * done <= |ws|
    requires Reach(ver, ds, DataSlots(16 * (done - 1))) < |ds|
    requires Encoded(ver, ws, chunks, swap, done, ds, out)
    ensures Lean(ver, Frames(ws, done), out, swap)
  {
    hide Encoded, Reach, PayloadDiffs, DataSlots;
    forall f | 0 < f < done ensures FewerIn(ver, ws[..16 * done][..16 * f], out, swap) {
      EncodedFewer(ver, ws, chunks, swap, done, ds, out, f);
      assert ws[..16 * done][..16 * f] == ws[..16 * f];
    }
  }

  lemma EncodedFewer(ver: Version, ws: seq<bv32>, chunks: seq<seq<bv32>>, swap: bool, done: nat, ds: seq<bv32>, out: nat, f: nat)
    requires Encoded(ver, ws, chunks, swap, done, ds, out) && |chunks| == 16 * done <= |ws| && 0 < f < done
    requires Reach(ver, ds, DataSlots(16 * (done - 1))) < |ds|
    ensures FewerIn(ver, ws[..16 * f], out, swap)
  {
    hide SlotDiffs, Step, Reach, DataSlots, PayloadDiffs, Host, Stuck;
    var payload := ws[..16 * done];
    HoldsPrefix(ver, ws, payload, chunks, swap, done);
    HoldsAllDone(ver, payload, chunks, swap, done);
    HoldsDecodes(ver, payload, chunks, 16 * f, out, swap);
    LastFrameTakes(ver, ds, done, f);
    assert |Flatten(chunks[..16 * f])| == Reach(ver, ds, DataSlots(16 * f));
    assert payload[..16 * f] == ws[..16 * f];
    PayloadPrefix(ver, ws[..16 * f], payload, 16 * f, out, swap);
  }

  lemma LastFrameTakes(ver: Version, ds: seq<bv32>, done: nat, f: nat)
    requires f < done && Reach(ver, ds, DataSlots(16 * (done - 1))) < |ds| && !Stuck(ver, ds, DataSlots(16 * done))
    ensures Reach(ver, ds, DataSlots(16 * f)) < Reach(ver, ds, DataSlots(16 * done))
  {
    hide Step, Reach, DataSlots, Stuck, DataSlot;
    var k := DataSlots(16 * (done - 1));
    FirstSlots(done - 1);
    DataSlotsMonotone(16 * f, 16 * (done - 1));
    DataSlotsMonotone(FirstSlot(done - 1) + 1, 16 * done);
    StillSteps(ver, ds, k, DataSlots(16 * done));
    ReachMonotone(ver, ds, DataSlots(16 * f), k);
    ReachMonotone(ver, ds, k + 1, DataSlots(16 * done));
  }

  /** Giving up in some frame is giving up within the whole buffer; finishing early is finishing. */
  lemma WholeBuffer(ver: Version, ds: seq<bv32>, f: nat, maxframes: nat)
    requires f <= maxframes
    ensures Stuck(ver, ds, DataSlots(16 * f)) ==> Stuck(ver, ds, DataSlots(16 * maxframes))
    ensures Reach(ver, ds, DataSlots(16 * f)) == |ds| ==>
              Reach(ver, ds, DataSlots(16 * maxframes)) == |ds| && !Stuck(ver, ds, DataSlots(16 * maxframes))
  {
    hide Step;
    var j, k := DataSlots(16 * f), DataSlots(16 * maxframes);
    DataSlotsMonotone(16 * f, 16 * maxframes);
    if Stuck(ver, ds, j) {
      ReachRests(ver, ds, j - 1, k - 1);
    }
    if Reach(ver, ds, j) == |ds| {
      ReachMonotone(ver, ds, j, k);
      if Stuck(ver, ds, k) {
        StuckEarlier(ver, ds, j, k);
      }
    }
  }

  /** An encoder that gives up has not packed everything. */
  lemma StuckEarlier(ver: Version, ds: seq<bv32>, j: nat, k: nat)
    requires j <= k && Stuck(ver, ds, k)
    ensures Reach(ver, ds, j) < |ds|
  {
    hide Step;
    if j < k {
      ReachMonotone(ver, ds, j, k - 1);
    }
  }

  /** Store the last sample encoded as Xn in the first frame. */
  method StoreXn(ver: Version, input: seq<bv32>, ghost diff0: bv32, output: array<bv32>, ghost frames: nat, swap: bool,
                 out: nat, ghost chunks: seq<seq<bv32>>)
    requires 0 < out <= |input| && 0 < frames && |chunks| == 16 * frames <= output.Length
    requires Encoded(ver, output[..], chunks, swap, frames, Differences(input, diff0), out)
    requires Host(output[1], swap) == input[0]
    modifies output
    requires Reach(ver, Differences(input, diff0), DataSlots(16 * (frames - 1))) < |input|
    ensures PayloadSamples(ver, output[..16 * frames], out, swap) == Some(input[..out])
    ensures Host(output[1], swap) == input[0] && Host(output[2], swap) == input[out - 1]
    ensures Started(output[..16 * frames], swap) && Lean(ver, output[..16 * frames], out, swap)
    ensures forall k | 0 <= k < output.Length && k != 2 :: output[k] == old(output[k])
  {
    hide Host, Encoded, PayloadSamples, Differences, Lean, Started;
    ghost var ws := output[..];
    EncodedReach(ver, ws, chunks, swap, frames, Differences(input, diff0), out);
    output[2] := Host(input[out - 1], swap);
    HostInvolution(input[out - 1], swap);
    assert output[..] == ws[2 := Host(input[out - 1], swap)];
    EncodedConstants(ver, ws, chunks, swap, frames, Differences(input, diff0), out, 2, output[2]);
    EncodedDecodes(ver, output[..], chunks, swap, frames, input, diff0, out);
    EncodedRoom(ver, output[..], chunks, swap, frames, Differences(input, diff0), out);
    EncodedStarted(ver, output[..], chunks, swap, frames, Differences(input, diff0), out);
    EncodedLean(ver, output[..], chunks, swap, frames, Differences(input, diff0), out);
    assert output[..][..16 * frames] == output[..16 * frames];
  }

  /** Fill frames until none are left or every sample is encoded; the result is -1 if some difference fits no word. */
  method EncodeFrames(ver: Version, input: seq<bv32>, output: array<bv32>, maxframes: nat, diff0: bv32, swap: bool)
    returns (r: int, frames: nat)
    requires |input| > 0 && 16 * maxframes <= output.Length
    modifies output
    ensures var ds, slots := Differences(input, diff0), DataSlots(16 * maxframes);
            r == if Stuck(ver, ds, slots) then -1 else Reach(ver, ds, slots)
    ensures 0 <= r <= |input| || r == -1
    ensures r >= 0 ==> frames <= maxframes && (r > 0 <==> frames > 0) && (r == |input| || frames == maxframes)
    ensures r > 0 ==> PayloadSamples(ver, output[..16 * frames], r, swap) == Some(input[..r])
    ensures r > 0 ==> Host(output[1], swap) == input[0]
    ensures r > 0 ==> Host(output[2], swap) == input[r - 1] && Started(output[..16 * frames], swap)
    ensures r > 0 ==> Lean(ver, output[..16 * frames], r, swap)
    ensures r > 0 ==> Reach(ver, Differences(input, diff0), DataSlots(16 * (frames - 1))) < |input|
    ensures r > 0 ==> r == Reach(ver, Differences(input, diff0), DataSlots(16 * frames))
    ensures r >= 0 ==> forall k | 16 * frames <= k < output.Length :: output[k] == old(output[k])
  {
    hide BitWidth, Host, Step, Stuck, Encoded, PayloadSamples, Differences, Window, Position, Started, Lean, Reach, DataSlots;
    ghost var ds := Differences(input, diff0);
    var diffs := new bv32[WindowSize(ver)];
    var bitwidth := new nat[WindowSize(ver)];
    diffs[0], bitwidth[0] := diff0, BitWidth(diff0);
    var packed: nat, diffcount: nat, inputidx: nat, out: nat := 0, 1, 0, 0;
    ghost var chunks: seq<seq<bv32>> := [];
    frames := 0;
    EncodedNothing(ver, output[..], swap, ds);
    PositionStart(ver, diffs, bitwidth, input, diff0);
    while frames < maxframes && out < |input|
      invariant frames <= maxframes && out <= |input| && |chunks| == 16 * frames
      invariant Position(ver, input, ds, diffs, bitwidth, packed, diffcount, inputidx, out)
      invariant Encoded(ver, output[..], chunks, swap, frames, ds, out)
      invariant frames > 0 ==> Host(output[1], swap) == input[0]
      invariant frames > 0 ==> Reach(ver, ds, DataSlots(16 * (frames - 1))) < |input|
      invariant forall k | 16 * frames <= k < output.Length :: output[k] == old(output[k])
    {
      EncodedReach(ver, output[..], chunks, swap, frames, ds, out);
      var ok;
      ok, packed, diffcount, inputidx, out, chunks :=
        EncodeFrame(ver, input, diff0, output, frames, swap, diffs, bitwidth, packed, diffcount, inputidx, out, chunks);
      if !ok {
        WholeBuffer(ver, ds, frames + 1, maxframes);
        return -1, 0;
      }
      frames := frames + 1;
    }
    EncodedReach(ver, output[..], chunks, swap, frames, ds, out);
    WholeBuffer(ver, ds, frames, maxframes);
    r := out;
    if frames > 0 {
      EncodedSome(ver, input, diff0, frames);
      StoreXn(ver, input, diff0, output, frames, swap, out, chunks);
    }
  }

  /**
   * msr_encode_steim1 and msr_encode_steim2.  `input` holds the samplecount samples to encode.
   * The result is the number of samples encoded or -1; `byteswritten` is left alone (here: 0) unless
   * the encoder gets to fill frames.  `frames` is the number of frames filled.
   *
   * With a swapped output and a buffer shorter than one frame the code would swap through a null
   * pointer, so its callers must not ask for that.
   */
  method Encode(ver: Version, input: seq<bv32>, output: array<bv32>, outputlength: int, diff0: bv32, swap: bool)
    returns (r: int, byteswritten: nat, ghost frames: nat)
    requires outputlength <= 4 * output.Length
    requires swap && |input| > 0 ==> outputlength <= 0 || 64 <= outputlength
    modifies output
    ensures |input| == 0 ==> r == 0
    ensures |input| > 0 && outputlength <= 0 ==> r == -1
    ensures |input| > 0 && outputlength > 0 ==>
              var ds, slots := Differences(input, diff0), DataSlots(16 * (outputlength / 64));
              r == if Stuck(ver, ds, slots) then -1 else Reach(ver, ds, slots)
    ensures r > 0 ==> r <= |input| && 0 < frames <= outputlength / 64 && byteswritten == (64 * frames) % 0x1_0000
    ensures r > 0 ==> PayloadSamples(ver, output[..16 * frames], r, swap) == Some(input[..r])
    ensures r > 0 ==> Host(output[1], swap) == input[0]
    ensures r > 0 ==> Host(output[2], swap) == input[r - 1] && Started(output[..16 * frames], swap)
    ensures r > 0 ==> Lean(ver, output[..16 * frames], r, swap)
    ensures r > 0 ==> r == |input| || frames == outputlength / 64
    ensures r > 0 ==> Reach(ver, Differences(input, diff0), DataSlots(16 * (frames - 1))) < |input|
    ensures r > 0 ==> r == Reach(ver, Differences(input, diff0), DataSlots(16 * frames))
    ensures r <= 0 ==> byteswritten == 0
    ensures r > 0 ==> forall k | 16 * frames <= k < output.Length :: output[k] == old(output[k])
  {
    hide PayloadSamples, Host, Stuck, Reach, Started, Lean;
    r, byteswritten, frames := 0, 0, 0;
    if |input| == 0 {
      return;
    }
    if outputlength <= 0 {
      return -1, 0, 0;
    }
    var maxframes := outputlength / 64;
    var used;
    r, used := EncodeFrames(ver, input, output, maxframes, diff0, swap);
    if r >= 0 {
      byteswritten, frames := (used * 64) % 0x1_0000, used;
    }
  }

  lemma PositionStart(ver: Version, diffs: array<bv32>, bitwidth: array<nat>, input: seq<bv32>, diff0: bv32)
    requires diffs.Length == bitwidth.Length == WindowSize(ver) && diffs as object != bitwidth && |input| > 0
    requires diffs[0] == diff0 && bitwidth[0] == BitWidth(diff0)
    ensures Position(ver, input, Differences(input, diff0), diffs, bitwidth, 0, 1, 0, 0)
  {
    hide BitWidth;
    assert Differences(input, diff0)[0] == DifferenceAt(input, diff0, 0);
  }

  /** The first frame takes at least one sample. */
  lemma EncodedSome(ver: Version, input: seq<bv32>, diff0: bv32, frames: nat)
    requires frames > 0 && |input| > 0 && !Stuck(ver, Differences(input, diff0), DataSlots(16 * frames))
    ensures Reach(ver, Differences(input, diff0), DataSlots(16 * frames)) > 0
  {
    hide Step;
    var ds, k := Differences(input, diff0), DataSlots(16 * frames);
    assert DataSlots(4) == 1 by { assert DataSlots(3) == 0; }
    DataSlotsMonotone(4, 16 * frames);
    if Reach(ver, ds, k) == 0 {
      ReachMonotone(ver, ds, k - 1, k);
    }
  }

  lemma EncodedConstants(ver: Version, ws: seq<bv32>, chunks: seq<seq<bv32>>, swap: bool, done: nat, ds: seq<bv32>, out: nat,
                         i: nat, w: bv32)
    requires Encoded(ver, ws, chunks, swap, done, ds, out) && i < |ws| && (i == 1 || i == 2)
    ensures Encoded(ver, ws[i := w], chunks, swap, done, ds, out)
  {
    hide Holds, Step, Paced;
    HoldsConstants(ver, ws, chunks, swap, done, i, w);
  }

  lemma EncodedNothing(ver: Version, ws: seq<bv32>, swap: bool, ds: seq<bv32>)
    ensures Encoded(ver, ws, [], swap, 0, ds, 0)
  {
    assert ds[..0] == [];
  }
}
