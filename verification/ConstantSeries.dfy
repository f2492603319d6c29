/** Constant series, whose differences are all zero: how many frames their payloads take. */
module ConstantSeries {
  import opened SteimWords
  import opened SteimFormat
  import opened SteimGreedy
  import opened PackData
  import SteimEncoder

  function Zeros(n: nat): (xs: seq<bv32>)
    ensures |xs| == n
  {
    seq(n, i => 0)
  }

  /** The differences of a constant series. */
  function NoChange(n: nat): (ds: seq<bv32>)
    ensures |ds| == n
  {
    Differences(Zeros(n), 0)
  }

  /** The most differences that go into a word. */
  function Most(ver: Version): nat {
    if ver == Steim1 then 4 else 7
  }

  lemma ZeroDifference(n: nat, p: nat)
    requires p < n
    ensures BitWidth(NoChange(n)[p]) == 4
  {
    assert DifferenceAt(Zeros(n), 0, p) == 0;
    ZeroWidth();
  }

  /** One and the most of them fit a word. */
  lemma ZerosFit(ver: Version, n: nat, p: nat, m: nat)
    requires p + m <= n && (m == 1 || m == Most(ver))
    ensures Fits(ver, NoChange(n), p, m)
  {
    hide BitWidth, NoChange;
    forall i | p <= i < p + m ensures BitWidth(NoChange(n)[i]) <= Width(ver, m) {
      ZeroDifference(n, i);
      FourFit(ver, m);
    }
  }

  lemma FourFit(ver: Version, m: nat)
    requires m == 1 || m == Most(ver)
    ensures 4 <= Width(ver, m)
  {}

  lemma ZeroStep(ver: Version, n: nat, p: nat)
    requires p < n
    ensures Step(ver, NoChange(n), p) > 0 && (p + Most(ver) <= n ==> Step(ver, NoChange(n), p) == Most(ver))
  {
    hide Fits, NoChange;
    ZerosFit(ver, n, p, 1);
    ZeroDifference(n, p);
    if p + Most(ver) <= n {
      ZerosFit(ver, n, p, Most(ver));
    }
  }

  lemma ZerosNotStuck(ver: Version, n: nat, k: nat)
    ensures !Stuck(ver, NoChange(n), k)
  {
    hide Step, Differences, Zeros, Reach;
    if Stuck(ver, NoChange(n), k) {
      ZeroStep(ver, n, Reach(ver, NoChange(n), k - 1));
    }
  }

  /** While there are enough the words are full. */
  lemma {:induction false} ZerosReach(ver: Version, n: nat, k: nat)
    requires k * Most(ver) <= n
    ensures Reach(ver, NoChange(n), k) == k * Most(ver)
  {
    hide Step, NoChange;
    if k > 0 {
      ZerosReach(ver, n, k - 1);
      ZeroStep(ver, n, (k - 1) * Most(ver));
    }
  }

  /** The encoder takes any number of constant samples. */
  lemma ZerosPack(ver: Version, n: nat, k: nat, maxdatabytes: nat)
    requires k <= n && maxdatabytes >= 64
    ensures PackCount(PackData.Drop(Ints(Zeros(n)), k), maxdatabytes, Steim(ver)) >= 0
  {
    hide Step, Stuck, DataSlots, Reach, Differences;
    assert Zeros(n)[k..] == Zeros(n - k);
    ZerosNotStuck(ver, n - k, DataSlots(16 * (maxdatabytes / 64)));
  }

  /** One sample more than f - 1 frames hold. */
  function JustEnough(ver: Version, f: nat): nat
    requires f > 0
  {
    DataSlots(16 * (f - 1)) * Most(ver) + 1
  }

  /** So many constant samples make a payload of f frames. */
  lemma TakesFrames(ver: Version, f: nat, maxdatabytes: nat)
    requires 0 < f <= maxdatabytes / 64
    ensures var s := Ints(Zeros(JustEnough(ver, f)));
            PayloadBytes(s, maxdatabytes, ver) == 64 * f && PackCount(s, maxdatabytes, Steim(ver)) == JustEnough(ver, f)
  {
    hide Step, Stuck, DataSlots, Reach, Zeros, Differences;
    var n, k := JustEnough(ver, f), DataSlots(16 * (f - 1));
    var ds, all := NoChange(n), DataSlots(16 * (maxdatabytes / 64));
    ZeroDifference(n, 0);
    ZerosReach(ver, n, k);
    SteimEncoder.FirstSlots(f - 1);
    DataSlotsMonotone(SteimEncoder.FirstSlot(f - 1) + 1, 16 * f);
    OneMore(ver, n, k);
    ReachMonotone(ver, ds, k + 1, DataSlots(16 * f));
    UsedExactly(ver, ds, f, maxdatabytes / 64);
    DataSlotsMonotone(16 * f, 16 * (maxdatabytes / 64));
    ReachMonotone(ver, ds, DataSlots(16 * f), all);
    ZerosNotStuck(ver, n, all);
  }

  lemma OneMore(ver: Version, n: nat, k: nat)
    requires Reach(ver, NoChange(n), k) == n - 1
    ensures Reach(ver, NoChange(n), k + 1) >= n
  {
    hide Step, NoChange;
    ZeroStep(ver, n, n - 1);
  }
}
