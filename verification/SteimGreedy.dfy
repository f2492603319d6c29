/**
 * How many differences go into each word: the choice both encoders make, and
 * why for Steim-2 no other choice covers more samples in as many words.
 */
module SteimGreedy {
  import opened Wrappers
  import opened SteimWords
  import opened SteimFormat

  /** `m` differences from position p on fit one word. */
  predicate Fits(ver: Version, ds: seq<bv32>, p: nat, m: nat) {
    && p + m <= |ds|
    && forall i | p <= i < p + m :: BitWidth(ds[i]) <= Width(ver, m)
  }

  /** The choice the encoders make at position p: the first word in their list that fits, 0 if none does. */
  function Step(ver: Version, ds: seq<bv32>, p: nat): nat {
    match ver
    case Steim1 =>
      if Fits(ver, ds, p, 4) then 4 else if Fits(ver, ds, p, 2) then 2
      else if p < |ds| then 1 else 0
    case Steim2 =>
      if Fits(ver, ds, p, 7) then 7 else if Fits(ver, ds, p, 6) then 6
      else if Fits(ver, ds, p, 5) then 5 else if Fits(ver, ds, p, 4) then 4
      else if Fits(ver, ds, p, 3) then 3 else if Fits(ver, ds, p, 2) then 2
      else if Fits(ver, ds, p, 1) then 1 else 0
  }

  /** The number of differences the encoder has packed after k words; it stays put once it cannot go on. */
  function Reach(ver: Version, ds: seq<bv32>, k: nat): (p: nat)
    ensures p <= |ds|
  {
    if k == 0 then 0 else
    var p := Reach(ver, ds, k - 1);
    p + Step(ver, ds, p)
  }

  /** The encoder meets an unencodable difference within the first k words. */
  predicate Stuck(ver: Version, ds: seq<bv32>, k: nat) {
    k > 0 && Reach(ver, ds, k - 1) < |ds| && Step(ver, ds, Reach(ver, ds, k - 1)) == 0
  }

  lemma ReachMonotone(ver: Version, ds: seq<bv32>, j: nat, k: nat)
    requires j <= k
    ensures Reach(ver, ds, j) <= Reach(ver, ds, k)
  {}

  /** Once no word fits, the encoder stays where it is. */
  lemma {:induction false} ReachRests(ver: Version, ds: seq<bv32>, j: nat, k: nat)
    requires j <= k && Step(ver, ds, Reach(ver, ds, j)) == 0
    ensures Reach(ver, ds, k) == Reach(ver, ds, j)
  {
    hide Step;
    if j < k {
      ReachRests(ver, ds, j, k - 1);
    }
  }

  lemma {:induction false} DataSlotsMonotone(g: nat, h: nat)
    requires g <= h
    ensures DataSlots(g) <= DataSlots(h)
  {
    if g < h {
      DataSlotsMonotone(g, h - 1);
    }
  }

  /** A run that fits one Steim-2 word still does after dropping some of its ends. */
  lemma SubrunFits(ds: seq<bv32>, p: nat, m: nat, p': nat, m': nat)
    requires 1 <= m <= 7 && Fits(Steim2, ds, p, m)
    requires p <= p' && p' + m' <= p + m && 1 <= m'
    ensures Fits(Steim2, ds, p', m')
  {
    assert Width(Steim2, m) <= Width(Steim2, m');
  }

  /** The encoder's choice is the longest run that fits. */
  lemma StepIsLongest(ds: seq<bv32>, p: nat, m: nat)
    requires 1 <= m <= 7 && Fits(Steim2, ds, p, m)
    ensures Step(Steim2, ds, p) >= m
  {}

  /** If some packing has covered no more than the encoder, neither has it one word later. */
  lemma StaysAhead(ds: seq<bv32>, c: nat, m: nat, k: nat)
    requires 1 <= m <= 7 && Fits(Steim2, ds, c, m)
    requires c <= Reach(Steim2, ds, k)
    ensures c + m <= Reach(Steim2, ds, k + 1)
  {
    var p := Reach(Steim2, ds, k);
    if p < c + m {
      SubrunFits(ds, c, m, p, c + m - p);
      StepIsLongest(ds, p, c + m - p);
    }
  }

  /**
   * The decoder cannot find more differences in g words than the encoder can put there, even if
   * the encoder starts s differences later: what the decoder finds from there on is in `ds`.
   */
  lemma {:induction false} PayloadCovers(ws: seq<bv32>, g: nat, need: nat, swap: bool, ds: seq<bv32>, s: nat)
    requires g <= |ws| && need <= s + |ds|
    requires PayloadDiffs(Steim2, ws, g, need, swap).Some?
    requires |ds| > 0 ==> BitWidth(ds[0]) <= 4
    requires var es := PayloadDiffs(Steim2, ws, g, need, swap).value; forall i | 0 < i < |es| - s :: es[s + i] == ds[i]
    ensures |PayloadDiffs(Steim2, ws, g, need, swap).value| <= s + Reach(Steim2, ds, DataSlots(g))
  {
    hide BitWidth, WordDiffs2, Nibble, Host, PayloadDiffs, Reach;
    if g == 0 {
      NoWords(ws, need, swap);
    } else {
      PayloadStep(Steim2, ws, g, need, swap);
      var prev := PayloadDiffs(Steim2, ws, g - 1, need, swap).value;
      var es := PayloadDiffs(Steim2, ws, g, need, swap).value;
      PayloadCovers(ws, g - 1, need, swap, ds, s);
      if prev == es {
        ReachMonotone(Steim2, ds, DataSlots(g - 1), DataSlots(g));
      } else if |es| > s {
        var more := SlotDiffs(Steim2, ws, g - 1, swap, |ws|).value;
        WordDiffs2Widths(SlotNibble(ws, g - 1, swap, |ws|), ws[g - 1], swap);
        var c := if |prev| > s then |prev| - s else 0;
        var m := |es| - s - c;
        WidthShrinks(|more|, m);
        forall i | c <= i < c + m ensures BitWidth(ds[i]) <= Width(Steim2, m) {
          assert es[s + i] == es[|prev|..][s + i - |prev|] == more[s + i - |prev|];
        }
        StaysAhead(ds, c, m, DataSlots(g - 1));
      }
    }
  }

  lemma NoWords(ws: seq<bv32>, need: nat, swap: bool)
    ensures PayloadDiffs(Steim2, ws, 0, need, swap) == Some([])
  {}

  lemma WidthShrinks(m: nat, m': nat)
    requires 1 <= m' <= m <= 7
    ensures 4 <= Width(Steim2, m) <= Width(Steim2, m')
  {}

  /** The samples determine all differences but the first. */
  lemma {:induction false} IntegrateInjective(x0: bv32, es: seq<bv32>, i: nat)
    requires 0 < i < |es|
    ensures es[i] == Minus(Integrate(x0, es)[i], Integrate(x0, es)[i - 1])
  {
    hide Plus, Minus;
    var front := es[..|es| - 1];
    var xs := Integrate(x0, front);
    if i == |es| - 1 {
      MinusPlus(xs[i - 1], es[i]);
    } else {
      IntegrateInjective(x0, front, i);
    }
  }

  /**
   * Whatever payload the decoder reads as the samples of xs from a up to b, an encoder that
   * starts at a or later, at p, gets at least as far in as many words.
   */
  lemma GetsAsFar(xs: seq<bv32>, ws: seq<bv32>, a: nat, b: nat, p: nat, swap: bool)
    requires |ws| >= 16 && a <= b <= |xs| && a <= p <= |xs|
    requires PayloadSamples(Steim2, ws, b - a, swap) == Some(xs[a..b])
    ensures b <= p + Reach(Steim2, Differences(xs[p..], 0), DataSlots(|ws|))
  {
    hide BitWidth, Integrate, Host, Minus, Reach, DataSlots, PayloadDiffs, PayloadSamples, DifferenceAt;
    var x0, es := SamplesIntegrate(Steim2, ws, b - a, swap);
    var rest := xs[p..];
    var ds := Differences(rest, 0);
    var s := p - a;
    forall i | 0 < i < |es| - s ensures es[s + i] == ds[i] {
      IntegrateInjective(x0, es, s + i);
      assert xs[a..b][s + i] == rest[i] && xs[a..b][s + i - 1] == rest[i - 1];
      LaterDifference(rest, i);
    }
    if rest != [] {
      FirstDifference(rest);
    }
    PayloadCovers(ws, |ws|, b - a, swap, ds, s);
  }

  /** The samples of a payload are its differences, integrated. */
  lemma SamplesIntegrate(ver: Version, ws: seq<bv32>, count: nat, swap: bool) returns (x0: bv32, es: seq<bv32>)
    requires |ws| >= 16 && PayloadSamples(ver, ws, count, swap).Some?
    ensures PayloadDiffs(ver, ws, |ws|, count, swap) == Some(es)
    ensures PayloadSamples(ver, ws, count, swap) == Some(Integrate(x0, es)) && |Integrate(x0, es)| == |es|
  {
    hide Integrate, PayloadDiffs, Host;
    x0, es := Host(ws[1], swap), PayloadDiffs(ver, ws, |ws|, count, swap).value;
  }

  lemma LaterDifference(xs: seq<bv32>, i: nat)
    requires 0 < i < |xs|
    ensures Differences(xs, 0)[i] == Minus(xs[i], xs[i - 1])
  {}

  lemma FirstDifference(xs: seq<bv32>)
    requires |xs| > 0
    ensures BitWidth(Differences(xs, 0)[0]) <= 4
  {
    ZeroWidth();
  }

  /**
   * Steim-2 packing is optimal: whatever payload the decoder reads as the first c
   * samples of xs, the encoder covers at least c samples in as many words.
   */
  lemma GreedyIsOptimal(xs: seq<bv32>, ws: seq<bv32>, c: nat, swap: bool)
    requires |ws| >= 16 && c <= |xs|
    requires PayloadSamples(Steim2, ws, c, swap) == Some(xs[..c])
    ensures c <= Reach(Steim2, Differences(xs, 0), DataSlots(|ws|))
  {
    hide Reach, DataSlots, Differences, PayloadSamples;
    assert xs[0..] == xs && xs[0..c] == xs[..c];
    GetsAsFar(xs, ws, 0, c, 0, swap);
  }

  lemma ZeroWidth()
    ensures BitWidth(0) == 4
  {}
}
