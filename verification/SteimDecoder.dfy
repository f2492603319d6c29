/** The Steim decoders, proved to compute the payload's meaning. */
module SteimDecoder {
  import opened Wrappers
  import opened SteimWords
  import opened SteimFormat

  lemma {:induction false} IntegrateSnoc(x0: bv32, es: seq<bv32>, e: bv32)
    ensures Integrate(x0, es + [e]) == Integrate(x0, es) + [if es == [] then x0 else Plus(Integrate(x0, es)[|es| - 1], e)]
  {
    hide Plus;
    assert (es + [e])[..|es|] == es;
    assert es == [] ==> Integrate(x0, es + [e]) == [x0];
  }

  /** Once enough differences are found, the words that follow do not matter. */
  lemma {:induction false} PayloadEnough(ver: Version, ws: seq<bv32>, g: nat, h: nat, need: nat, swap: bool)
    requires g <= h <= |ws|
    requires PayloadDiffs(ver, ws, g, need, swap).Some? && |PayloadDiffs(ver, ws, g, need, swap).value| == need
    ensures PayloadDiffs(ver, ws, h, need, swap) == PayloadDiffs(ver, ws, g, need, swap)
  {
    hide SlotDiffs;
    if g < h {
      PayloadEnough(ver, ws, g, h - 1, need, swap);
    }
  }

  /** A word that cannot be read, or that is needed, makes the payload what it is from there on. */
  lemma {:induction false} PayloadFails(ver: Version, ws: seq<bv32>, g: nat, h: nat, need: nat, swap: bool)
    requires g <= h <= |ws| && PayloadDiffs(ver, ws, g, need, swap) == None
    ensures PayloadDiffs(ver, ws, h, need, swap) == None
  {
    hide SlotDiffs;
    if g < h {
      PayloadFails(ver, ws, g, h - 1, need, swap);
    }
  }

  /** Add the differences of one word to the output until `need` samples are there. */
  method ApplyDiffs(diff: seq<bv32>, x0: bv32, output: array<bv32>, n0: nat, need: nat, ghost es: seq<bv32>)
    returns (n: nat)
    requires n0 == |es| < need <= output.Length
    requires output[..n0] == Integrate(x0, es)
    modifies output
    ensures n == Min(need, n0 + |diff|)
    ensures output[..n] == Integrate(x0, (es + diff)[..n])
    ensures forall k | n <= k < output.Length :: output[k] == old(output[k])
  {
    hide Plus, Integrate;
    n := n0;
    var idx := 0;
    assert (es + diff)[..n] == es;
    while idx < |diff| && n < need
      invariant 0 <= idx <= |diff| && n == n0 + idx <= need
      invariant output[..n] == Integrate(x0, (es + diff)[..n])
      invariant forall k | n <= k < output.Length :: output[k] == old(output[k])
    {
      ghost var before := output[..n];
      ghost var so := (es + diff)[..n];
      IntegrateSnoc(x0, so, diff[idx]);
      output[n] := if n == 0 then x0 else Plus(output[n - 1], diff[idx]);
      assert output[..n + 1] == before + [output[n]];
      assert (es + diff)[..n + 1] == so + [diff[idx]];
      n, idx := n + 1, idx + 1;
    }
  }

  /**
   * msr_decode_steim1 and msr_decode_steim2: -1 for unusable arguments or, in Steim-2, an undefined
   * nibble pair; otherwise the number of samples stored in `output`.  The code trusts its caller that
   * `output` has room for samplecount samples.
   */
  method Decode(ver: Version, input: seq<bv32>, inputlength: int, samplecount: int, output: array<bv32>,
                outputlength: int, swap: bool)
    returns (r: int)
    requires inputlength / 4 <= |input| && samplecount <= output.Length
    modifies output
    ensures inputlength <= 0 ==> r == 0
    ensures inputlength > 0 && (outputlength <= 0 || inputlength < 64) ==> r == -1
    ensures inputlength >= 64 && outputlength > 0 ==>
              match PayloadSamples(ver, input[..16 * (inputlength / 64)], if samplecount < 0 then 0 else samplecount, swap)
              case None => r == -1
              case Some(xs) => r == |xs| && output[..r] == xs
    ensures r <= output.Length
    ensures r >= 0 ==> forall k | r <= k < output.Length :: output[k] == old(output[k])
  {
    if inputlength <= 0 {
      return 0;
    }
    var maxframes := inputlength / 64;
    if outputlength <= 0 || maxframes <= 0 {
      return -1;
    }
    hide Integrate, Host, PayloadDiffs;
    r := DecodeFrames(ver, input[..16 * maxframes], if samplecount < 0 then 0 else samplecount, output, swap);
  }

  /** Decode frame after frame until the payload is used up or enough samples are there. */
  method DecodeFrames(ver: Version, ws: seq<bv32>, need: nat, output: array<bv32>, swap: bool)
    returns (r: int)
    requires |ws| >= 16 && |ws| % 16 == 0 && need <= output.Length
    modifies output
    ensures match PayloadSamples(ver, ws, need, swap)
            case None => r == -1
            case Some(xs) => r == |xs| && output[..r] == xs
    ensures r >= 0 ==> forall k | r <= k < output.Length :: output[k] == old(output[k])
  {
    hide Integrate, Host, PayloadDiffs;
    var maxframes := |ws| / 16;
    var x0 := Host(ws[1], swap);
    var n: nat, frameidx: nat := 0, 0;
    ghost var es: seq<bv32> := [];
    PayloadNothing(ver, ws, need, swap, x0);
    while frameidx < maxframes && n < need
      invariant frameidx <= maxframes && n == |es| <= need
      invariant PayloadDiffs(ver, ws, 16 * frameidx, need, swap) == Some(es)
      invariant output[..n] == Integrate(x0, es)
      invariant forall k | n <= k < output.Length :: output[k] == old(output[k])
    {
      var ok;
      ok, n, es := DecodeFrame(ver, ws, frameidx, x0, output, n, need, swap, es);
      frameidx := frameidx + 1;
      if !ok {
        PayloadFails(ver, ws, 16 * frameidx, |ws|, need, swap);
        return -1;
      }
    }
    if n == need {
      PayloadEnough(ver, ws, 16 * frameidx, |ws|, need, swap);
    }
    r := n;
  }

  lemma PayloadNothing(ver: Version, ws: seq<bv32>, need: nat, swap: bool, x0: bv32)
    ensures PayloadDiffs(ver, ws, 0, need, swap) == Some([]) && Integrate(x0, []) == []
  {}

  /** Words that carry no differences add none. */
  lemma PayloadSkip(ver: Version, ws: seq<bv32>, g: nat, need: nat, swap: bool, es: seq<bv32>)
    requires g < |ws| && !DataSlot(g) && PayloadDiffs(ver, ws, g, need, swap) == Some(es)
    ensures PayloadDiffs(ver, ws, g + 1, need, swap) == Some(es)
  {
    hide WordDiffs;
    assert (es + [])[..Min(need, |es|)] == es;
  }

  lemma PayloadWord(ver: Version, ws: seq<bv32>, g: nat, need: nat, swap: bool, es: seq<bv32>, ctrl: bv32)
    requires g < |ws| && DataSlot(g) && PayloadDiffs(ver, ws, g, need, swap) == Some(es) && |es| < need
    requires ctrl == Host(ws[16 * (g / 16)], swap)
    ensures match WordDiffs(ver, Nibble(ctrl, g % 16), ws[g], swap)
            case None => PayloadDiffs(ver, ws, g + 1, need, swap) == None
            case Some(more) => PayloadDiffs(ver, ws, g + 1, need, swap) == Some((es + more)[..Min(need, |es| + |more|)])
  {
    hide WordDiffs, Nibble, Host;
  }

  /** Decode the words of one frame until it is used up or enough samples are there; not `ok` is an undefined word. */
  method DecodeFrame(ver: Version, ws: seq<bv32>, frameidx: nat, x0: bv32, output: array<bv32>, n0: nat, need: nat, swap: bool,
                     ghost es0: seq<bv32>)
    returns (ok: bool, n: nat, ghost es: seq<bv32>)
    requires 16 * (frameidx + 1) <= |ws| && n0 == |es0| < need <= output.Length
    requires PayloadDiffs(ver, ws, 16 * frameidx, need, swap) == Some(es0)
    requires output[..n0] == Integrate(x0, es0)
    modifies output
    ensures !ok ==> PayloadDiffs(ver, ws, 16 * (frameidx + 1), need, swap) == None
    ensures ok ==> n0 <= n == |es| <= need && PayloadDiffs(ver, ws, 16 * (frameidx + 1), need, swap) == Some(es)
    ensures ok ==> output[..n] == Integrate(x0, es)
    ensures ok ==> forall k | n <= k < output.Length :: output[k] == old(output[k])
  {
    hide WordDiffs, Nibble, Integrate, Host, PayloadDiffs;
    var frame := 16 * frameidx;
    var ctrl := Host(ws[frame], swap);
    ok, n, es := true, n0, es0;
    var widx := 1;
    PayloadSkip(ver, ws, frame, need, swap, es);
    if frameidx == 0 {
      PayloadSkip(ver, ws, 1, need, swap, es);
      PayloadSkip(ver, ws, 2, need, swap, es);
      widx := 3;
    }
    while widx < 16 && n < need
      invariant 1 <= widx <= 16 && (frameidx == 0 ==> 3 <= widx) && n0 <= n == |es| <= need
      invariant PayloadDiffs(ver, ws, frame + widx, need, swap) == Some(es)
      invariant output[..n] == Integrate(x0, es)
      invariant forall k | n <= k < output.Length :: output[k] == old(output[k])
    {
      var g := frame + widx;
      assert g / 16 == frameidx && g % 16 == widx;
      PayloadWord(ver, ws, g, need, swap, es, ctrl);
      match WordDiffs(ver, Nibble(ctrl, widx), ws[g], swap)
      case None =>
        PayloadFails(ver, ws, g + 1, 16 * (frameidx + 1), need, swap);
        return false, n, es;
      case Some(diff) =>
        n := ApplyDiffs(diff, x0, output, n, need, es);
        es := (es + diff)[..n];
        widx := widx + 1;
    }
    if n == need {
      PayloadEnough(ver, ws, frame + widx, 16 * (frameidx + 1), need, swap);
    }
  }
}
