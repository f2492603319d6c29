/**
 * The payload of a Steim record: what a sequence of 32-bit words means.
 *
 * The words come in frames of 16.  Word 0 of a frame holds the 2-bit nibbles
 * of its other words; words 1 and 2 of the first frame are the forward and
 * reverse integration constants X0 and Xn.
 */
module SteimFormat {
  import opened Wrappers
  import opened SteimWords

  /** Word `g` of a payload carries differences (or is empty). */
  predicate DataSlot(g: nat) {
    g % 16 != 0 && g != 1 && g != 2
  }

  /** The nibble of word `g`; the control words of the first `done` frames have been swapped. */
  function SlotNibble(ws: seq<bv32>, g: nat, swap: bool, done: nat): bv32
    requires g < |ws|
  {
    Nibble(Host(ws[16 * (g / 16)], swap && g / 16 < done), g % 16)
  }

  /** The differences in word `g`; the whole payload is stored with byte order `swap`. */
  function SlotDiffs(ver: Version, ws: seq<bv32>, g: nat, swap: bool, done: nat): Option<seq<bv32>>
    requires g < |ws|
  {
    if DataSlot(g) then WordDiffs(ver, SlotNibble(ws, g, swap, done), ws[g], swap) else Some([])
  }

  /** The first `need` differences found in words 0..g, or None if a word on the way is undefined. */
  function PayloadDiffs(ver: Version, ws: seq<bv32>, g: nat, need: nat, swap: bool): (r: Option<seq<bv32>>)
    requires g <= |ws|
    ensures r.Some? ==> |r.value| <= need
  {
    if g == 0 then Some([])
    else
      match PayloadDiffs(ver, ws, g - 1, need, swap)
      case None => None
      case Some(ds) =>
        if |ds| == need then Some(ds)
        else
          match SlotDiffs(ver, ws, g - 1, swap, |ws|)
          case None => None
          case Some(more) => Some((ds + more)[..Min(need, |ds| + |more|)])
  }

  /** What word g - 1 contributes. */
  lemma PayloadStep(ver: Version, ws: seq<bv32>, g: nat, need: nat, swap: bool)
    requires 0 < g <= |ws| && PayloadDiffs(ver, ws, g, need, swap).Some?
    ensures PayloadDiffs(ver, ws, g - 1, need, swap).Some?
    ensures var prev, es := PayloadDiffs(ver, ws, g - 1, need, swap).value, PayloadDiffs(ver, ws, g, need, swap).value;
            && prev <= es
            && (prev != es ==>
                  var word := SlotDiffs(ver, ws, g - 1, swap, |ws|);
                  word.Some? && |es| - |prev| <= |word.value| && es[|prev|..] == word.value[..|es| - |prev|])
  {
    hide SlotDiffs;
  }

  /** Forward integration: the samples whose first value is `x0` and whose later differences are `ds[1..]`. */
  function Integrate(x0: bv32, ds: seq<bv32>): (xs: seq<bv32>)
    ensures |xs| == |ds|
  {
    if |ds| == 0 then []
    else if |ds| == 1 then [x0]
    else
      var xs := Integrate(x0, ds[..|ds| - 1]);
      xs + [Plus(xs[|xs| - 1], ds[|ds| - 1])]
  }

  /** The first `count` samples of a payload of whole frames. */
  function PayloadSamples(ver: Version, ws: seq<bv32>, count: nat, swap: bool): (r: Option<seq<bv32>>)
    requires |ws| >= 16
  {
    match PayloadDiffs(ver, ws, |ws|, count, swap)
    case None => None
    case Some(ds) => Some(Integrate(Host(ws[1], swap), ds))
  }

  /** More words behind those needed do not matter. */
  lemma {:induction false} PayloadPrefix(ver: Version, ws: seq<bv32>, more: seq<bv32>, g: nat, need: nat, swap: bool)
    requires g <= |ws| <= |more| && more[..|ws|] == ws
    ensures PayloadDiffs(ver, more, g, need, swap) == PayloadDiffs(ver, ws, g, need, swap)
  {
    hide WordDiffs, Host, Nibble;
    if g > 0 {
      PayloadPrefix(ver, ws, more, g - 1, need, swap);
      SameSlot(ver, ws, more, g - 1, swap);
    }
  }

  lemma SameSlot(ver: Version, ws: seq<bv32>, more: seq<bv32>, g: nat, swap: bool)
    requires g < |ws| <= |more| && more[..|ws|] == ws
    ensures SlotDiffs(ver, more, g, swap, |more|) == SlotDiffs(ver, ws, g, swap, |ws|)
  {
    hide WordDiffs, Host, Nibble;
    assert more[..|ws|][g] == more[g] && more[..|ws|][16 * (g / 16)] == more[16 * (g / 16)];
  }

  /** Fewer frames of the payload hold fewer samples. */
  ghost predicate Lean(ver: Version, ws: seq<bv32>, need: nat, swap: bool) {
    forall f | 0 < f < |ws| / 16 :: FewerIn(ver, ws[..16 * f], need, swap)
  }

  ghost predicate FewerIn(ver: Version, ws: seq<bv32>, need: nat, swap: bool) {
    |ws| >= 16 && (PayloadSamples(ver, ws, need, swap).Some? ==> |PayloadSamples(ver, ws, need, swap).value| < need)
  }

  /** The differences of a sample sequence; the first one relates it to an earlier sample. */
  function Differences(xs: seq<bv32>, diff0: bv32): (ds: seq<bv32>)
    ensures |ds| == |xs|
    ensures forall i: nat | i < |xs| :: ds[i] == DifferenceAt(xs, diff0, i)
  {
    seq(|xs|, i requires 0 <= i < |xs| => DifferenceAt(xs, diff0, i))
  }

  function DifferenceAt(xs: seq<bv32>, diff0: bv32, i: nat): bv32
    requires i < |xs|
  {
    if i == 0 then diff0 else Minus(xs[i], xs[i - 1])
  }

  /** Integration undoes differencing. */
  lemma {:induction false} IntegrateDifferences(xs: seq<bv32>, diff0: bv32, k: nat)
    requires k <= |xs|
    ensures |xs| > 0 ==> Integrate(xs[0], Differences(xs, diff0)[..k]) == xs[..k]
  {
    if k >= 2 {
      hide *;
      var ds := Differences(xs, diff0);
      IntegrateDifferences(xs, diff0, k - 1);
      IntegrateStep(xs[0], ds, k);
      NextDifference(xs, diff0, k - 1);
    }
  }

  lemma IntegrateStep(x0: bv32, ds: seq<bv32>, k: nat)
    requires 2 <= k <= |ds|
    ensures Integrate(x0, ds[..k]) == Integrate(x0, ds[..k - 1]) + [Plus(Integrate(x0, ds[..k - 1])[k - 2], ds[k - 1])]
  {
    hide Plus;
    assert ds[..k][..k - 1] == ds[..k - 1];
  }

  lemma NextDifference(xs: seq<bv32>, diff0: bv32, i: nat)
    requires 0 < i < |xs|
    ensures xs[..i] + [Plus(xs[..i][i - 1], Differences(xs, diff0)[i])] == xs[..i + 1]
  {
    PlusMinus(xs[i - 1], xs[i]);
    hide Plus, Minus;
  }

  // ------------------------------------------------------- payloads built slot by slot

  function Flatten(chunks: seq<seq<bv32>>): seq<bv32> {
    if chunks == [] then [] else Flatten(chunks[..|chunks| - 1]) + chunks[|chunks| - 1]
  }

  lemma FlattenSnoc(chunks: seq<seq<bv32>>, c: seq<bv32>)
    ensures Flatten(chunks + [c]) == Flatten(chunks) + c
  {
    assert (chunks + [c])[..|chunks|] == chunks;
  }

  /** Word k holds exactly chunks[k], for every k below |chunks|. */
  ghost predicate Holds(ver: Version, ws: seq<bv32>, chunks: seq<seq<bv32>>, swap: bool, done: nat) {
    && |chunks| <= |ws|
    && forall k | 0 <= k < |chunks| :: SlotDiffs(ver, ws, k, swap, done) == Some(chunks[k])
  }

  lemma {:induction false} HoldsDecodes(ver: Version, ws: seq<bv32>, chunks: seq<seq<bv32>>, g: nat, need: nat, swap: bool)
    requires Holds(ver, ws, chunks, swap, |ws|) && g <= |chunks|
    ensures PayloadDiffs(ver, ws, g, need, swap) == Some(Flatten(chunks[..g])[..Min(need, |Flatten(chunks[..g])|)])
  {
    hide SlotDiffs;
    if g == 0 {
      assert chunks[..g] == [];
    } else {
      HoldsDecodes(ver, ws, chunks, g - 1, need, swap);
      assert chunks[..g] == chunks[..g - 1] + [chunks[g - 1]];
      FlattenSnoc(chunks[..g - 1], chunks[g - 1]);
      hide Flatten;
      TakesOn(Flatten(chunks[..g - 1]), chunks[g - 1], need);
    }
  }

  lemma TakesOn(all: seq<bv32>, more: seq<bv32>, need: nat)
    ensures |all| >= need ==> (all + more)[..Min(need, |all + more|)] == all[..need]
    ensures |all| < need ==> all[..Min(need, |all|)] == all
  {}

  /** The number of words below `g` that can carry differences. */
  function DataSlots(g: nat): nat {
    if g == 0 then 0 else DataSlots(g - 1) + if DataSlot(g - 1) then 1 else 0
  }

  /** Starting a frame zeroes its words, which disturbs no earlier word. */
  lemma HoldsPrefix(ver: Version, ws: seq<bv32>, ws': seq<bv32>, chunks: seq<seq<bv32>>, swap: bool, done: nat)
    requires Holds(ver, ws, chunks, swap, done) && |chunks| <= |ws'|
    requires forall k | 0 <= k < |chunks| :: ws'[k] == ws[k]
    ensures Holds(ver, ws', chunks, swap, done)
  {
    hide WordDiffs, Nibble, Host;
    forall k | 0 <= k < |chunks| ensures SlotDiffs(ver, ws', k, swap, done) == Some(chunks[k]) {
      assert SlotDiffs(ver, ws, k, swap, done) == Some(chunks[k]);
    }
  }

  lemma HoldsSnoc(ver: Version, ws: seq<bv32>, chunks: seq<seq<bv32>>, swap: bool, done: nat, c: seq<bv32>)
    requires Holds(ver, ws, chunks, swap, done) && |chunks| < |ws|
    requires SlotDiffs(ver, ws, |chunks|, swap, done) == Some(c)
    ensures Holds(ver, ws, chunks + [c], swap, done)
  {
    hide SlotDiffs;
  }

  /** Writing word g and its nibble in a frame still under construction. */
  lemma HoldsWrite(ver: Version, ws: seq<bv32>, chunks: seq<seq<bv32>>, swap: bool, done: nat,
                   nib: bv32, w: bv32, ds: seq<bv32>)
    requires Holds(ver, ws, chunks, swap, done) && |chunks| < |ws| && |chunks| / 16 == done
    requires DataSlot(|chunks|) && nib <= 3 && Nibble(ws[16 * done], |chunks| % 16) == 0
    requires WordDiffs(ver, nib, w, swap) == Some(ds)
    ensures var g, c := |chunks|, 16 * done;
            && Holds(ver, ws[g := w][c := SetNibble(ws[c], g % 16, nib)], chunks + [ds], swap, done)
            && forall k | g % 16 < k < 16 :: Nibble(SetNibble(ws[c], g % 16, nib), k) == Nibble(ws[c], k)
  {
    var g, c := |chunks|, 16 * done;
    var ctrl := SetNibble(ws[c], g % 16, nib);
    var ws' := ws[g := w][c := ctrl];
    SetNibbleHere(ws[c], g % 16, nib);
    forall k | 0 <= k < 16 && k != g % 16 ensures Nibble(ctrl, k) == Nibble(ws[c], k) {
      SetNibbleElsewhere(ws[c], g % 16, nib, k);
    }
    HoldsUpdated(ver, ws, chunks, swap, done, ctrl, w);
    hide WordDiffs, Nibble, SetNibble, SlotDiffs, DataSlot, Holds;
    NotControl(g, g);
    SlotWritten(ver, ws', g, swap, done, nib, ds);
    HoldsSnoc(ver, ws', chunks, swap, done, ds);
  }

  /** Data words are not control words, and earlier frames have other control words. */
  lemma NotControl(k: nat, g: nat)
    requires k <= g
    ensures DataSlot(k) ==> k != 16 * (g / 16)
    ensures k / 16 <= g / 16 && (k / 16 < g / 16 ==> 16 * (k / 16) < 16 * (g / 16) <= g)
  {}

  /** The next word, and a control word that has the same nibbles so far. */
  lemma HoldsUpdated(ver: Version, ws: seq<bv32>, chunks: seq<seq<bv32>>, swap: bool, done: nat, ctrl: bv32, w: bv32)
    requires Holds(ver, ws, chunks, swap, done) && |chunks| < |ws| && |chunks| / 16 == done && DataSlot(|chunks|)
    requires forall k | 0 <= k < 16 && k != |chunks| % 16 :: Nibble(ctrl, k) == Nibble(ws[16 * done], k)
    ensures Holds(ver, ws[|chunks| := w][16 * done := ctrl], chunks, swap, done)
  {
    hide WordDiffs, Nibble, SlotDiffs, DataSlot;
    var g := |chunks|;
    forall k | 0 <= k < g ensures SlotDiffs(ver, ws[g := w][16 * done := ctrl], k, swap, done) == Some(chunks[k]) {
      assert SlotDiffs(ver, ws, k, swap, done) == Some(chunks[k]);
      NotControl(k, g);
      SlotUntouched(ver, ws, ws[g := w][16 * done := ctrl], k, swap, done);
    }
  }

  lemma SlotUntouched(ver: Version, ws: seq<bv32>, ws': seq<bv32>, k: nat, swap: bool, done: nat)
    requires k < |ws| == |ws'| && 16 * done < |ws| && k / 16 <= done
    requires DataSlot(k) ==> ws'[k] == ws[k]
    requires k / 16 < done ==> ws'[16 * (k / 16)] == ws[16 * (k / 16)]
    requires k / 16 == done && DataSlot(k) ==> Nibble(ws'[16 * done], k % 16) == Nibble(ws[16 * done], k % 16)
    ensures SlotDiffs(ver, ws', k, swap, done) == SlotDiffs(ver, ws, k, swap, done)
  {
    HostPlain(ws[16 * done]);
    HostPlain(ws'[16 * done]);
    hide WordDiffs, Nibble, Host;
  }

  lemma SlotWritten(ver: Version, ws: seq<bv32>, g: nat, swap: bool, done: nat, nib: bv32, ds: seq<bv32>)
    requires g < |ws| && g / 16 == done && DataSlot(g)
    requires Nibble(ws[16 * done], g % 16) == nib && WordDiffs(ver, nib, ws[g], swap) == Some(ds)
    ensures SlotDiffs(ver, ws, g, swap, done) == Some(ds)
  {
    HostPlain(ws[16 * done]);
    hide WordDiffs, Nibble, Host;
  }

  /** A word that carries nothing: a control word, X0, Xn, or a word whose nibble is still zero. */
  lemma HoldsEmpty(ver: Version, ws: seq<bv32>, chunks: seq<seq<bv32>>, swap: bool, done: nat)
    requires Holds(ver, ws, chunks, swap, done) && |chunks| < |ws| && |chunks| / 16 == done
    requires DataSlot(|chunks|) ==> Nibble(ws[16 * done], |chunks| % 16) == 0
    ensures Holds(ver, ws, chunks + [[]], swap, done)
    ensures Flatten(chunks + [[]]) == Flatten(chunks)
  {
    var g := |chunks|;
    FlattenSnoc(chunks, []);
    ZeroNibble(ver, ws[g], swap);
    HostPlain(ws[16 * done]);
    hide Nibble, Host, WordDiffs, Holds;
    HoldsSnoc(ver, ws, chunks, swap, done, []);
  }

  /** Storing the control word of a finished frame in its final byte order. */
  lemma HoldsFinishFrame(ver: Version, ws: seq<bv32>, chunks: seq<seq<bv32>>, swap: bool, done: nat)
    requires Holds(ver, ws, chunks, swap, done) && |chunks| == 16 * (done + 1)
    ensures Holds(ver, ws[16 * done := Host(ws[16 * done], swap)], chunks, swap, done + 1)
  {
    var c := 16 * done;
    var ws' := ws[c := Host(ws[c], swap)];
    hide WordDiffs, Nibble, Host, SlotDiffs;
    forall k | 0 <= k < |chunks| ensures SlotDiffs(ver, ws', k, swap, done + 1) == Some(chunks[k]) {
      assert SlotDiffs(ver, ws, k, swap, done) == Some(chunks[k]);
      if k / 16 < done {
        SlotOfDoneFrame(ver, ws, ws', k, swap, done);
      } else {
        SlotOfLastFrame(ver, ws, ws', k, swap, done);
      }
    }
  }

  lemma SlotOfDoneFrame(ver: Version, ws: seq<bv32>, ws': seq<bv32>, k: nat, swap: bool, done: nat)
    requires k < |ws| == |ws'| && k / 16 < done
    requires ws'[k] == ws[k] && ws'[16 * (k / 16)] == ws[16 * (k / 16)]
    ensures SlotDiffs(ver, ws', k, swap, done + 1) == SlotDiffs(ver, ws, k, swap, done)
  {
    hide WordDiffs, Nibble, Host;
  }

  lemma SlotOfLastFrame(ver: Version, ws: seq<bv32>, ws': seq<bv32>, k: nat, swap: bool, done: nat)
    requires k < |ws| == |ws'| && k / 16 == done
    requires DataSlot(k) ==> ws'[k] == ws[k]
    requires ws'[16 * done] == Host(ws[16 * done], swap)
    ensures SlotDiffs(ver, ws', k, swap, done + 1) == SlotDiffs(ver, ws, k, swap, done)
  {
    HostInvolution(ws[16 * done], swap);
    HostPlain(ws[16 * done]);
    hide WordDiffs, Nibble, Host;
  }

  /** X0 and Xn are not among the words that carry differences. */
  lemma HoldsConstants(ver: Version, ws: seq<bv32>, chunks: seq<seq<bv32>>, swap: bool, done: nat, i: nat, w: bv32)
    requires Holds(ver, ws, chunks, swap, done) && i < |ws| && (i == 1 || i == 2)
    ensures Holds(ver, ws[i := w], chunks, swap, done)
  {
    hide WordDiffs, Nibble, Host;
    forall k | 0 <= k < |chunks| ensures SlotDiffs(ver, ws[i := w], k, swap, done) == Some(chunks[k]) {
      assert SlotDiffs(ver, ws, k, swap, done) == Some(chunks[k]);
    }
  }

  /** Every frame stored: the byte order of the control words no longer depends on where we stopped. */
  lemma HoldsAllDone(ver: Version, ws: seq<bv32>, chunks: seq<seq<bv32>>, swap: bool, done: nat)
    requires Holds(ver, ws, chunks, swap, done) && |chunks| == 16 * done == |ws|
    ensures Holds(ver, ws, chunks, swap, |ws|)
  {
    hide WordDiffs, Nibble, Host;
    forall k | 0 <= k < |chunks| ensures SlotDiffs(ver, ws, k, swap, |ws|) == Some(chunks[k]) {
      assert SlotDiffs(ver, ws, k, swap, done) == Some(chunks[k]);
    }
  }
}
