/**
 * When the choice of Steim-1 words is optimal.  There is no word for three differences, so a word
 * of two that takes the first of a run of narrow differences can cost a word.
 */
module Steim1Packing {
  import opened Wrappers
  import opened SteimWords
  import opened SteimFormat
  import opened SteimGreedy

  // ------------------------------------------------------------- packing into whole words

  function Covered(words: seq<nat>): nat {
    if words == [] then 0 else Covered(words[..|words| - 1]) + words[|words| - 1]
  }

  /** Words of one, two or four differences, one after the other, that hold the first differences. */
  predicate IsPacking(ds: seq<bv32>, words: seq<nat>) {
    words == [] || (IsPacking(ds, words[..|words| - 1]) && IsWord(ds, Covered(words[..|words| - 1]), words[|words| - 1]))
  }

  predicate IsWord(ds: seq<bv32>, c: nat, m: nat) {
    (m == 1 || m == 2 || m == 4) && Fits(Steim1, ds, c, m)
  }

  /** No other packing into as many words covers more, however many these are. */
  ghost predicate Optimal(ds: seq<bv32>) {
    forall words | IsPacking(ds, words) :: Covered(words) <= Reach(Steim1, ds, |words|)
  }

  predicate Narrow(ds: seq<bv32>, p: nat, m: nat) {
    p + m <= |ds| && forall i | p <= i < p + m :: BitWidth(ds[i]) <= 8
  }

  predicate Wide(ds: seq<bv32>, i: nat) {
    i < |ds| && BitWidth(ds[i]) > 8
  }

  /** Word k of the encoder holds a wide difference and the first of a run of narrow ones from q up to e, a multiple of four. */
  predicate Straddles(ds: seq<bv32>, k: nat, q: nat, e: nat) {
    && 0 < q < e <= |ds| && (e - q) % 4 == 0 && Narrow(ds, q, e - q) && (e == |ds| || Wide(ds, e))
    && Reach(Steim1, ds, k) == q - 1 && Wide(ds, q - 1) && Step(Steim1, ds, q - 1) == 2
  }

  ghost predicate NoneStraddles(ds: seq<bv32>) {
    forall k, q, e :: !Straddles(ds, k, q, e)
  }

  /** The encoder got to the run in which it stands, just past c, by such a word, and has taken j words of four since. */
  predicate LateAt(ds: seq<bv32>, k: nat, c: nat, q: nat, j: nat) {
    && 0 < q && c == q + 4 * j && j < k && Narrow(ds, q, 4 * j + 4)
    && Reach(Steim1, ds, k - 1 - j) == q - 1 && Wide(ds, q - 1) && Step(Steim1, ds, q - 1) == 2
  }

  /** The encoder is not behind; one before it another packing can only take four if the encoder is late. */
  ghost predicate Ahead(ds: seq<bv32>, k: nat, c: nat) {
    var p := Reach(Steim1, ds, k);
    c <= p && (c + 1 == p && Narrow(ds, c, 4) ==> exists q, j :: LateAt(ds, k, c, q, j))
  }

  /** The encoder's choice is four exactly for narrow differences, and two at least for two narrow ones. */
  lemma StepIs(ds: seq<bv32>, p: nat)
    requires p < |ds|
    ensures Step(Steim1, ds, p) == 1 || Step(Steim1, ds, p) == 2 || Step(Steim1, ds, p) == 4
    ensures Step(Steim1, ds, p) == 4 <==> Narrow(ds, p, 4)
    ensures Narrow(ds, p, 2) ==> Step(Steim1, ds, p) >= 2
  {
    hide BitWidth;
  }

  lemma WordOfFour(ds: seq<bv32>, c: nat)
    ensures IsWord(ds, c, 4) <==> Narrow(ds, c, 4)
  {
    hide BitWidth;
  }

  lemma NarrowWithin(ds: seq<bv32>, p: nat, m: nat, q: nat, n: nat)
    requires Narrow(ds, p, m) && p <= q && q + n <= p + m
    ensures Narrow(ds, q, n)
  {}

  lemma NarrowJoin(ds: seq<bv32>, p: nat, m: nat, n: nat)
    requires Narrow(ds, p, m) && Narrow(ds, p + m, n)
    ensures Narrow(ds, p, m + n)
  {}

  /** A run that cannot be moved on by one ends there. */
  lemma RunEnds(ds: seq<bv32>, c: nat, m: nat)
    requires Narrow(ds, c, m) && !Narrow(ds, c + 1, m)
    ensures c + m == |ds| || Wide(ds, c + m)
  {
    hide BitWidth;
  }

  /** And one that cannot be moved back begins there. */
  lemma RunBegins(ds: seq<bv32>, c: nat, m: nat)
    requires Narrow(ds, c + 1, m) && !Narrow(ds, c, m) && m > 0
    ensures Wide(ds, c)
  {
    hide BitWidth;
  }

  /** A late encoder that comes to the end of the run has straddled its beginning. */
  lemma LateStraddles(ds: seq<bv32>, k: nat, c: nat, q: nat, j: nat)
    requires LateAt(ds, k, c, q, j) && (c + 4 == |ds| || Wide(ds, c + 4))
    ensures !NoneStraddles(ds)
  {
    hide BitWidth, Reach, Step, Wide;
    var e := c + 4;
    assert e - q == 4 * (j + 1);
    assert Straddles(ds, k - 1 - j, q, e);
  }

  lemma LateOn(ds: seq<bv32>, k: nat, c: nat, q: nat, j: nat)
    requires LateAt(ds, k, c, q, j) && Narrow(ds, c + 4, 4)
    ensures LateAt(ds, k + 1, c + 4, q, j + 1)
  {
    hide BitWidth, Reach, Step, Narrow, Wide;
    NarrowJoin(ds, q, 4 * j + 4, 4);
  }

  /** One word more of both. */
  lemma AheadStep(ds: seq<bv32>, k: nat, c: nat, m: nat)
    requires Ahead(ds, k, c) && IsWord(ds, c, m) && NoneStraddles(ds)
    ensures Ahead(ds, k + 1, c + m)
  {
    hide Step, Narrow, Wide, LateAt, NoneStraddles;
    var p, s := Reach(Steim1, ds, k), Step(Steim1, ds, Reach(Steim1, ds, k));
    var p', c' := p + s, c + m;
    ReachNext(ds, k);
    InRoom(ds, c, m);
    WordOfFour(ds, c);
    hide Reach, IsWord;
    if p < |ds| {
      StepIs(ds, p);
    }
    if c' > p' {
      Overtakes(ds, k, c, m);
    } else if c' + 1 == p' && Narrow(ds, c', 4) {
      InRun(ds, c', 4);
      if s == 4 {
        var q, j :| LateAt(ds, k, c, q, j);
        LateOn(ds, k, c, q, j);
      } else {
        JustLate(ds, k, c');
      }
    }
  }

  lemma ReachNext(ds: seq<bv32>, k: nat)
    ensures Reach(Steim1, ds, k + 1) == Reach(Steim1, ds, k) + Step(Steim1, ds, Reach(Steim1, ds, k))
  {}

  lemma InRoom(ds: seq<bv32>, c: nat, m: nat)
    requires IsWord(ds, c, m)
    ensures c + m <= |ds| && (m == 1 || m == 2 || m == 4)
  {}

  lemma InRun(ds: seq<bv32>, c: nat, m: nat)
    requires Narrow(ds, c, m)
    ensures c + m <= |ds|
  {}

  /** Only a late encoder can be overtaken. */
  lemma Overtakes(ds: seq<bv32>, k: nat, c: nat, m: nat)
    requires Ahead(ds, k, c) && IsWord(ds, c, m) && c + m > Reach(Steim1, ds, k) + Step(Steim1, ds, Reach(Steim1, ds, k))
    ensures !NoneStraddles(ds)
  {
    hide Step, Narrow, Wide, LateAt, NoneStraddles;
    var p := Reach(Steim1, ds, k);
    InRoom(ds, c, m);
    hide Reach;
    StepIs(ds, p);
    WordOfFour(ds, c);
    Longest(ds, p, c, m);
    hide IsWord;
    NarrowWithin(ds, c, 4, p, 2);
    var q, j :| LateAt(ds, k, c, q, j);
    RunEnds(ds, c, 4);
    LateStraddles(ds, k, c, q, j);
  }

  /** Where the word would take more than the choice of the encoder, it takes four and the encoder is one ahead. */
  lemma Longest(ds: seq<bv32>, p: nat, c: nat, m: nat)
    requires c <= p < |ds| && IsWord(ds, c, m) && c + m > p + Step(Steim1, ds, p)
    ensures m == 4 && p == c + 1
  {
    hide BitWidth;
  }

  /** An encoder that stands before a run, on a difference that is wide, is late. */
  lemma JustLate(ds: seq<bv32>, k: nat, q: nat)
    requires q > 0 && Reach(Steim1, ds, k) == q - 1 && Step(Steim1, ds, q - 1) == 2 && Narrow(ds, q, 4) && !Narrow(ds, q - 1, 4)
    ensures LateAt(ds, k + 1, q, q, 0)
  {
    hide Reach, Step, Narrow, Wide;
    RunBegins(ds, q - 1, 4);
  }

  lemma {:induction false} StaysAheadUnless(ds: seq<bv32>, words: seq<nat>)
    requires IsPacking(ds, words) && NoneStraddles(ds)
    ensures Ahead(ds, |words|, Covered(words))
  {
    hide IsWord, Ahead, NoneStraddles, Step;
    if words == [] {
      AheadAtFirst(ds);
    } else {
      var n := |words| - 1;
      StaysAheadUnless(ds, words[..n]);
      AheadStep(ds, n, Covered(words[..n]), words[n]);
    }
  }

  lemma AheadAtFirst(ds: seq<bv32>)
    ensures Ahead(ds, 0, 0)
  {}

  // ---------------------------------------------------------------- packing that is better

  lemma PackingMore(ds: seq<bv32>, words: seq<nat>, m: nat)
    requires IsPacking(ds, words) && IsWord(ds, Covered(words), m)
    ensures IsPacking(ds, words + [m]) && Covered(words + [m]) == Covered(words) + m
  {
    assert (words + [m])[..|words|] == words;
  }

  /** The words of the encoder. */
  lemma {:induction false} OwnWords(ds: seq<bv32>, k: nat) returns (words: seq<nat>)
    requires Reach(Steim1, ds, k) < |ds|
    ensures |words| == k && IsPacking(ds, words) && Covered(words) == Reach(Steim1, ds, k)
  {
    words := [];
    if k > 0 {
      var p := Reach(Steim1, ds, k - 1);
      words := OwnWords(ds, k - 1);
      StepIsWord(ds, p);
      hide Step, IsWord;
      PackingMore(ds, words, Step(Steim1, ds, p));
      words := words + [Step(Steim1, ds, p)];
    }
  }

  lemma StepIsWord(ds: seq<bv32>, p: nat)
    requires p < |ds|
    ensures IsWord(ds, p, Step(Steim1, ds, p))
  {}

  /** Words of four for a run of narrow differences. */
  lemma {:induction false} Fours(ds: seq<bv32>, words: seq<nat>, n: nat) returns (more: seq<nat>)
    requires IsPacking(ds, words) && Narrow(ds, Covered(words), 4 * n)
    ensures IsPacking(ds, more) && |more| == |words| + n && Covered(more) == Covered(words) + 4 * n
  {
    hide BitWidth;
    more := words;
    if n > 0 {
      more := Fours(ds, words, n - 1);
      PackingMore(ds, more, 4);
      more := more + [4];
    }
  }

  /** The encoder takes words of four as long as it can. */
  lemma {:induction false} TakesFours(ds: seq<bv32>, k: nat, p: nat, n: nat)
    requires Reach(Steim1, ds, k) == p && Narrow(ds, p, 4 * n)
    ensures Reach(Steim1, ds, k + n) == p + 4 * n
  {
    hide Narrow, Step;
    if n > 0 {
      NarrowWithin(ds, p, 4 * n, p, 4 * (n - 1));
      NarrowWithin(ds, p, 4 * n, p + 4 * (n - 1), 4);
      InRun(ds, p + 4 * (n - 1), 4);
      TakesFours(ds, k, p, n - 1);
      StepIs(ds, p + 4 * (n - 1));
    }
  }

  /** A packing that takes the wide difference by itself gets one further in as many words. */
  lemma GetsFurther(ds: seq<bv32>, k: nat, q: nat, e: nat) returns (words: seq<nat>)
    requires Straddles(ds, k, q, e)
    ensures IsPacking(ds, words) && Covered(words) == e && Reach(Steim1, ds, |words|) == e - 1
  {
    hide BitWidth, Step, Reach, Fits, IsPacking, Covered, Narrow, Wide;
    var n := (e - q) / 4;
    assert e == q + 4 * n;
    words := OwnWords(ds, k);
    OneFits(ds, q - 1);
    hide IsWord;
    PackingMore(ds, words, 1);
    words := Fours(ds, words + [1], n);
    ReachNext(ds, k);
    NarrowWithin(ds, q, 4 * n, q + 1, 4 * (n - 1));
    TakesFours(ds, k + 1, q + 1, n - 1);
    EndsWithTwo(ds, q, e);
    ReachNext(ds, k + n);
  }

  lemma EndsWithTwo(ds: seq<bv32>, q: nat, e: nat)
    requires q + 4 <= e <= |ds| && Narrow(ds, q, e - q) && (e == |ds| || Wide(ds, e))
    ensures Step(Steim1, ds, e - 3) == 2
  {
    hide BitWidth, Step;
    StepIs(ds, e - 3);
    NarrowWithin(ds, q, e - q, e - 3, 2);
  }

  lemma OneFits(ds: seq<bv32>, p: nat)
    requires p < |ds|
    ensures IsWord(ds, p, 1)
  {}

  /**
   * The choice of words is optimal exactly when no word of two takes a wide difference and the
   * first of a run of narrow ones whose length is a multiple of four.
   */
  lemma OptimalExactlyWhen(ds: seq<bv32>)
    ensures Optimal(ds) <==> NoneStraddles(ds)
  {
    hide Straddles, IsPacking, Reach, Covered;
    if NoneStraddles(ds) {
      forall words | IsPacking(ds, words) ensures Covered(words) <= Reach(Steim1, ds, |words|) {
        StaysAheadUnless(ds, words);
      }
    } else {
      var k, q, e :| Straddles(ds, k, q, e);
      var words := GetsFurther(ds, k, q, e);
      assert Covered(words) == e;
    }
  }

  /**
   * Differences that come from samples: of nine samples the fifth differs from the one before it by
   * 200.  The encoder has packed eight after three words (4, 2, 2), while 4, 1 and 4 hold all nine.
   */
  lemma GreedyIsNotOptimalForSteim1(xs: seq<bv32>)
    requires xs == [0, 0, 0, 0, 200, 200, 200, 200, 200]
    ensures var ds := Differences(xs, 0);
            Reach(Steim1, ds, 3) == 8 && IsPacking(ds, [4, 1, 4]) && Covered([4, 1, 4]) == 9 && !Optimal(ds)
  {
    var ds := Differences(xs, 0);
    hide Optimal, Reach;
    assert forall i: nat | i < 9 :: ds[i] == DifferenceAt(xs, 0, i);
    JumpWidths(ds);
    NineDifferences(ds);
  }

  lemma JumpWidths(ds: seq<bv32>)
    requires ds == [0, 0, 0, 0, 200, 0, 0, 0, 0]
    ensures BitWidth(ds[4]) == 10 && Narrow(ds, 0, 4) && Narrow(ds, 5, 4)
  {
    assert BitWidth(0) == 4 && BitWidth(200) == 10;
    hide BitWidth;
  }

  lemma NineReach(ds: seq<bv32>)
    requires |ds| == 9 && 8 < BitWidth(ds[4]) <= 16 && Narrow(ds, 0, 4) && Narrow(ds, 5, 4)
    ensures Reach(Steim1, ds, 3) == 8
  {
    hide BitWidth;
    assert Reach(Steim1, ds, 1) == 4;
    assert Reach(Steim1, ds, 2) == 6;
  }

  lemma NineDifferences(ds: seq<bv32>)
    requires |ds| == 9 && 8 < BitWidth(ds[4]) <= 16 && Narrow(ds, 0, 4) && Narrow(ds, 5, 4)
    ensures Reach(Steim1, ds, 3) == 8 && IsPacking(ds, [4, 1, 4]) && Covered([4, 1, 4]) == 9 && !Optimal(ds)
  {
    NineReach(ds);
    hide BitWidth, Reach, Step, IsPacking, Covered, IsWord;
    WordOfFour(ds, 0);
    OneFits(ds, 4);
    WordOfFour(ds, 5);
    NoWordsYet(ds);
    Adds(ds, [], 0, 4, [4]);
    Adds(ds, [4], 4, 1, [4, 1]);
    Adds(ds, [4, 1], 5, 4, [4, 1, 4]);
  }

  lemma NoWordsYet(ds: seq<bv32>)
    ensures IsPacking(ds, []) && Covered([]) == 0
  {}

  lemma Adds(ds: seq<bv32>, words: seq<nat>, c: nat, m: nat, more: seq<nat>)
    requires IsPacking(ds, words) && Covered(words) == c && IsWord(ds, c, m) && more == words + [m]
    ensures IsPacking(ds, more) && Covered(more) == c + m
  {
    hide IsWord;
    PackingMore(ds, words, m);
  }

  // -------------------------------------------------------- packing that ends within a word

  /** The first r differences in a word; the decoder does not ask for the others. */
  predicate CutWord(ds: seq<bv32>, c: nat, r: nat) {
    && 1 <= r <= 4 && c + r <= |ds|
    && (r == 1 || (r == 2 && Fits(Steim1, ds, c, 2)) || (r >= 3 && Narrow(ds, c, r)))
  }

  /** No other packing covers more, not even one that ends within a word. */
  ghost predicate CutOptimal(ds: seq<bv32>) {
    forall words, r | IsPacking(ds, words) && CutWord(ds, Covered(words), r) :: Covered(words) + r <= Reach(Steim1, ds, |words| + 1)
  }

  /** Word k of the encoder begins where there are just three narrow differences. */
  predicate ThreeLeft(ds: seq<bv32>, k: nat) {
    Narrow(ds, Reach(Steim1, ds, k), 3) && !Narrow(ds, Reach(Steim1, ds, k), 4)
  }

  ghost predicate NeverThree(ds: seq<bv32>) {
    forall k :: !ThreeLeft(ds, k)
  }

  lemma CutStep(ds: seq<bv32>, k: nat, c: nat, r: nat)
    requires c <= Reach(Steim1, ds, k) && CutWord(ds, c, r) && !ThreeLeft(ds, k)
    ensures c + r <= Reach(Steim1, ds, k + 1)
  {
    var p := Reach(Steim1, ds, k);
    ReachNext(ds, k);
    hide Reach;
    if p < c + r {
      StepIs(ds, p);
      CutLongest(ds, p, c, r);
    }
  }

  lemma CutLongest(ds: seq<bv32>, p: nat, c: nat, r: nat)
    requires c <= p < c + r && CutWord(ds, c, r) && !(Narrow(ds, p, 3) && !Narrow(ds, p, 4))
    ensures c + r <= p + Step(Steim1, ds, p)
  {
    hide BitWidth;
  }

  lemma WholeWord(ds: seq<bv32>, c: nat, m: nat)
    requires IsWord(ds, c, m)
    ensures CutWord(ds, c, m)
  {
    hide BitWidth;
  }

  lemma {:induction false} NotBehind(ds: seq<bv32>, words: seq<nat>)
    requires IsPacking(ds, words) && NeverThree(ds)
    ensures Covered(words) <= Reach(Steim1, ds, |words|)
  {
    hide IsWord, CutWord, ThreeLeft, Step;
    if words != [] {
      var n := |words| - 1;
      NotBehind(ds, words[..n]);
      WholeWord(ds, Covered(words[..n]), words[n]);
      CutStep(ds, n, Covered(words[..n]), words[n]);
    }
  }

  /** Against packings that may end within a word the choice is optimal exactly when the encoder never stands before just three. */
  lemma CutOptimalExactlyWhen(ds: seq<bv32>)
    ensures CutOptimal(ds) <==> NeverThree(ds)
  {
    hide ThreeLeft, IsPacking, Reach, Covered, CutWord;
    if NeverThree(ds) {
      forall words, r | IsPacking(ds, words) && CutWord(ds, Covered(words), r)
        ensures Covered(words) + r <= Reach(Steim1, ds, |words| + 1)
      {
        NotBehind(ds, words);
        CutStep(ds, |words|, Covered(words), r);
      }
    } else {
      var k :| ThreeLeft(ds, k);
      ThreeCut(ds, k);
      var words := OwnWords(ds, k);
      assert CutWord(ds, Covered(words), 3);
    }
  }

  lemma ThreeCut(ds: seq<bv32>, k: nat)
    requires ThreeLeft(ds, k)
    ensures Reach(Steim1, ds, k) < |ds| && CutWord(ds, Reach(Steim1, ds, k), 3) && Reach(Steim1, ds, k + 1) == Reach(Steim1, ds, k) + 2
  {
    var p := Reach(Steim1, ds, k);
    ReachNext(ds, k);
    hide Reach, Step;
    InRun(ds, p, 3);
    StepIs(ds, p);
    NarrowWithin(ds, p, 3, p, 2);
  }

  // ------------------------------------------------------------------ what the decoder reads

  /** The decoder cannot find more differences in g words than such an encoder puts there. */
  lemma {:induction false} PayloadCovers1(ws: seq<bv32>, g: nat, need: nat, swap: bool, ds: seq<bv32>)
    requires g <= |ws| && need <= |ds| && NeverThree(ds) && (|ds| > 0 ==> BitWidth(ds[0]) <= 4)
    requires PayloadDiffs(Steim1, ws, g, need, swap).Some?
    requires var es := PayloadDiffs(Steim1, ws, g, need, swap).value; forall i | 0 < i < |es| :: es[i] == ds[i]
    ensures |PayloadDiffs(Steim1, ws, g, need, swap).value| <= Reach(Steim1, ds, DataSlots(g))
  {
    hide BitWidth, WordDiffs1, Nibble, Host, PayloadDiffs, Reach, ThreeLeft, CutWord;
    if g == 0 {
      NoWords1(ws, need, swap);
    } else {
      PayloadStep(Steim1, ws, g, need, swap);
      var prev := PayloadDiffs(Steim1, ws, g - 1, need, swap).value;
      var es := PayloadDiffs(Steim1, ws, g, need, swap).value;
      PayloadCovers1(ws, g - 1, need, swap, ds);
      if prev == es {
        ReachMonotone(Steim1, ds, DataSlots(g - 1), DataSlots(g));
      } else {
        var more := SlotDiffs(Steim1, ws, g - 1, swap, |ws|).value;
        WordDiffs1Widths(SlotNibble(ws, g - 1, swap, |ws|), ws[g - 1], swap);
        var c, r := |prev|, |es| - |prev|;
        forall i | c <= i < c + r ensures BitWidth(ds[i]) <= Width(Steim1, |more|) {
          assert es[i] == es[c..][i - c] == more[i - c];
        }
        CutOfWord(ds, c, r, |more|);
        CutStep(ds, DataSlots(g - 1), c, r);
      }
    }
  }

  lemma NoWords1(ws: seq<bv32>, need: nat, swap: bool)
    ensures PayloadDiffs(Steim1, ws, 0, need, swap) == Some([])
  {}

  lemma CutOfWord(ds: seq<bv32>, c: nat, r: nat, m: nat)
    requires (m == 1 || m == 2 || m == 4) && 1 <= r <= m && c + r <= |ds| && forall i | c <= i < c + r :: BitWidth(ds[i]) <= Width(Steim1, m)
    ensures CutWord(ds, c, r)
  {
    hide BitWidth;
  }

  /**
   * So when the encoder never stands before just three narrow differences, no payload that the
   * decoder reads as the first c samples has fewer words than the encoder needs for them.
   */
  lemma GreedyIsOptimal1(xs: seq<bv32>, ws: seq<bv32>, c: nat, swap: bool)
    requires |ws| >= 16 && c <= |xs| && NeverThree(Differences(xs, 0))
    requires PayloadSamples(Steim1, ws, c, swap) == Some(xs[..c])
    ensures c <= Reach(Steim1, Differences(xs, 0), DataSlots(|ws|))
  {
    hide BitWidth, Integrate, Host, Minus, Reach, DataSlots, PayloadDiffs, PayloadSamples, DifferenceAt, NeverThree;
    var x0, es := SamplesIntegrate(Steim1, ws, c, swap);
    var ds := Differences(xs, 0);
    forall i | 0 < i < |es| ensures es[i] == ds[i] {
      IntegrateInjective(x0, es, i);
      assert xs[..c][i] == xs[i] && xs[..c][i - 1] == xs[i - 1];
      LaterDifference(xs, i);
    }
    if xs != [] {
      FirstDifference(xs);
    }
    PayloadCovers1(ws, |ws|, c, swap, ds);
  }
}
