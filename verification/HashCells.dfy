/**
 * The cells of a JSON object's hash table: open addressing with linear probing.
 *
 * A cell holds the index of an item or INVALID.  Item t, whose hash sends it to cell
 * Home(hashes[t]), sits in cell ixs[t]; a probe from its home cell finds it if it meets
 * no empty cell on the way.
 */
module HashCells {

  const INVALID: int := -1

  /** hash & (capacity - 1); the capacity of a table in use is a power of two. */
  function Home(hash: nat, capacity: nat): (c: nat)
    requires capacity > 0
    ensures c < capacity
  {
    hash % capacity
  }

  /** How many steps a probe takes from cell a to cell b. */
  function Dist(a: nat, b: nat, capacity: nat): (d: nat)
    requires a < capacity && b < capacity
    ensures d < capacity
  {
    if b >= a then b - a else b - a + capacity
  }

  /** The cell reached from a in d steps. */
  function Ahead(a: nat, d: nat, capacity: nat): (c: nat)
    requires a < capacity && d < capacity
    ensures c < capacity && Dist(a, c, capacity) == d
  {
    if a + d < capacity then a + d else a + d - capacity
  }

  /** Items and cells refer to each other, leaving out the cell `hole`. */
  ghost predicate Linked(cells: seq<int>, ixs: seq<int>, count: nat, hole: int) {
    && count <= |ixs|
    && (forall t | 0 <= t < count :: 0 <= ixs[t] < |cells| && ixs[t] != hole && cells[ixs[t]] == t)
    && (forall c | 0 <= c < |cells| && c != hole :: cells[c] == INVALID || (0 <= cells[c] < count && ixs[cells[c]] == c))
  }

  /** A probe for item t gets past cell c. */
  ghost predicate Passes(cells: seq<int>, ixs: seq<int>, hashes: seq<nat>, t: nat, c: nat)
    requires t < |ixs| && t < |hashes| && c < |cells| && 0 <= ixs[t] < |cells|
  {
    Dist(Home(hashes[t], |cells|), c, |cells|) < Dist(Home(hashes[t], |cells|), ixs[t], |cells|)
  }

  /** No probe for an item meets an empty cell before the item; `hole` does not count as empty. */
  ghost predicate Reachable(cells: seq<int>, ixs: seq<int>, hashes: seq<nat>, count: nat, hole: int)
    requires Linked(cells, ixs, count, hole) && count <= |hashes|
  {
    forall t, c | 0 <= t < count && 0 <= c < |cells| && c != hole && cells[c] == INVALID :: !Passes(cells, ixs, hashes, t, c)
  }

  /** A hash table without holes. */
  ghost predicate Table(cells: seq<int>, ixs: seq<int>, hashes: seq<nat>, count: nat) {
    && Linked(cells, ixs, count, INVALID)
    && count <= |hashes|
    && Reachable(cells, ixs, hashes, count, INVALID)
  }

  // ------------------------------------------------------------------- counting cells

  ghost function Below(n: nat): (s: set<int>)
    ensures |s| == n && forall c :: c in s <==> 0 <= c < n
  {
    if n == 0 then {} else Below(n - 1) + {n - 1}
  }

  ghost function Members(ixs: seq<int>): (s: set<int>)
    ensures |s| <= |ixs| && forall t | 0 <= t < |ixs| :: ixs[t] in s
  {
    if ixs == [] then {} else Members(ixs[..|ixs| - 1]) + {ixs[|ixs| - 1]}
  }

  /** With fewer items than cells some cell is empty; with one fewer still, some cell other than the hole is. */
  lemma EmptyCell(cells: seq<int>, ixs: seq<int>, count: nat, hole: int) returns (e: nat)
    requires Linked(cells, ixs, count, hole)
    requires count + (if 0 <= hole < |cells| then 1 else 0) < |cells|
    ensures e < |cells| && e != hole && cells[e] == INVALID
  {
    var used := Members(ixs[..count]) + if 0 <= hole < |cells| then {hole} else {};
    assert forall t | 0 <= t < count :: ixs[t] == ixs[..count][t] && ixs[t] in used;
    var all := Below(|cells|);
    assert all <= used ==> used == all + (used - all);
    var c :| c in all && c !in used;
    e := c;
  }

  // ----------------------------------------------------------------------- insertion

  /** Storing a new item in the first empty cell from its home on. */
  lemma Insert(cells: seq<int>, ixs: seq<int>, hashes: seq<nat>, count: nat, hash: nat, cell: nat)
    requires Table(cells, ixs, hashes, count) && count < |ixs| && count < |hashes|
    requires cell < |cells| && cells[cell] == INVALID
    requires forall c | 0 <= c < |cells| && cells[c] == INVALID :: Dist(Home(hash, |cells|), cell, |cells|) <= Dist(Home(hash, |cells|), c, |cells|)
    ensures Table(cells[cell := count], ixs[count := cell], hashes[count := hash], count + 1)
  {
    hide Home;
    var cells', ixs', hashes' := cells[cell := count], ixs[count := cell], hashes[count := hash];
    assert Linked(cells', ixs', count + 1, INVALID);
    forall t, c | 0 <= t < count + 1 && 0 <= c < |cells'| && cells'[c] == INVALID
      ensures !Passes(cells', ixs', hashes', t, c)
    {
      assert cells[c] == INVALID;
      if t < count {
        assert !Passes(cells, ixs, hashes, t, c);
      }
    }
  }

  // ------------------------------------------------------------------------- removal

  /** Moving the last item into the place of item `ix`. */
  lemma MoveLast(cells: seq<int>, ixs: seq<int>, hashes: seq<nat>, count: nat, ix: nat)
    returns (cells': seq<int>, ixs': seq<int>, hashes': seq<nat>)
    requires Table(cells, ixs, hashes, count) && ix < count
    ensures ixs' == ixs[ix := ixs[count - 1]] && hashes' == hashes[ix := hashes[count - 1]]
    ensures cells' == if ix < count - 1 then cells[ixs[count - 1] := ix] else cells
    ensures Linked(cells', ixs', count - 1, ixs[ix])
    ensures Reachable(cells', ixs', hashes', count - 1, ixs[ix])
  {
    hide Home, Dist;
    ixs', hashes' := ixs[ix := ixs[count - 1]], hashes[ix := hashes[count - 1]];
    cells' := if ix < count - 1 then cells[ixs[count - 1] := ix] else cells;
    var hole := ixs[ix];
    assert Linked(cells', ixs', count - 1, hole);
    forall t, c | 0 <= t < count - 1 && 0 <= c < |cells'| && c != hole && cells'[c] == INVALID
      ensures !Passes(cells', ixs', hashes', t, c)
    {
      assert cells[c] == INVALID;
      assert !Passes(cells, ixs, hashes, if t == ix then count - 1 else t, c);
    }
  }

  /** The test of the backward shift: the cell j is reached from home cell k by way of cell i. */
  predicate MustMove(i: nat, j: nat, k: nat) {
    (j > i && (k <= i || k > j)) || (j < i && (k <= i && k > j))
  }

  lemma MustMoveMeans(i: nat, j: nat, k: nat, capacity: nat)
    requires i < capacity && j < capacity && k < capacity && i != j
    ensures MustMove(i, j, k) <==> Dist(k, i, capacity) < Dist(k, j, capacity)
  {}

  /**
   * While the backward shift runs: `i` is the hole, everything else is linked and reachable, and no probe
   * for an item in the cells from the hole up to `j` passes the hole.
   */
  ghost predicate Shifting(cells: seq<int>, ixs: seq<int>, hashes: seq<nat>, count: nat, i: nat, j: nat) {
    && Linked(cells, ixs, count, i) && i < |cells| && j < |cells|
    && count <= |hashes|
    && Reachable(cells, ixs, hashes, count, i)
    && forall t | 0 <= t < count && Dist(i, ixs[t], |cells|) <= Dist(i, j, |cells|) :: !Passes(cells, ixs, hashes, t, i)
  }

  /** The item after the scanned cells may stay where it is. */
  lemma ShiftSkips(cells: seq<int>, ixs: seq<int>, hashes: seq<nat>, count: nat, i: nat, j: nat, j': nat)
    requires Shifting(cells, ixs, hashes, count, i, j)
    requires Dist(i, j, |cells|) + 1 < |cells| && j' == Ahead(j, 1, |cells|) && cells[j'] != INVALID
    requires !MustMove(i, j', Home(hashes[cells[j']], |cells|))
    ensures Shifting(cells, ixs, hashes, count, i, j')
  {
    hide Home;
    var s := cells[j'];
    MustMoveMeans(i, j', Home(hashes[s], |cells|), |cells|);
    forall t | 0 <= t < count && Dist(i, ixs[t], |cells|) <= Dist(i, j', |cells|)
      ensures !Passes(cells, ixs, hashes, t, i)
    {
      if Dist(i, ixs[t], |cells|) > Dist(i, j, |cells|) {
        assert ixs[t] == j';
      }
    }
  }

  /** The item after the scanned cells moves into the hole, and its cell becomes the hole. */
  lemma ShiftMoves(cells: seq<int>, ixs: seq<int>, hashes: seq<nat>, count: nat, i: nat, j: nat, j': nat)
    requires Shifting(cells, ixs, hashes, count, i, j)
    requires Dist(i, j, |cells|) + 1 < |cells| && j' == Ahead(j, 1, |cells|) && cells[j'] != INVALID
    requires MustMove(i, j', Home(hashes[cells[j']], |cells|))
    ensures Shifting(cells[i := cells[j']], ixs[cells[j'] := i], hashes, count, j', j')
  {
    hide Home;
    var s := cells[j'];
    MustMoveMeans(i, j', Home(hashes[s], |cells|), |cells|);
    var cells', ixs' := cells[i := s], ixs[s := i];
    assert Linked(cells', ixs', count, j');
    forall t, c | 0 <= t < count && 0 <= c < |cells'| && c != j' && cells'[c] == INVALID
      ensures !Passes(cells', ixs', hashes, t, c)
    {
      assert cells[c] == INVALID && c != i;
      assert !Passes(cells, ixs, hashes, t, c);
    }
  }

  /** At the first empty cell the hole can become empty too. */
  lemma ShiftEnds(cells: seq<int>, ixs: seq<int>, hashes: seq<nat>, count: nat, i: nat, j: nat, j': nat)
    requires Shifting(cells, ixs, hashes, count, i, j)
    requires Dist(i, j, |cells|) + 1 < |cells| && j' == Ahead(j, 1, |cells|) && cells[j'] == INVALID
    ensures Table(cells[i := INVALID], ixs, hashes, count)
  {
    hide Home;
    var cells' := cells[i := INVALID];
    assert Linked(cells', ixs, count, INVALID);
    forall t, c | 0 <= t < count && 0 <= c < |cells'| && cells'[c] == INVALID
      ensures !Passes(cells', ixs, hashes, t, c)
    {
      if c != i {
        assert !Passes(cells, ixs, hashes, t, c);
      } else {
        assert !Passes(cells, ixs, hashes, t, j');
      }
    }
  }
}
