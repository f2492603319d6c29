/** JSON objects: an ordered list of items behind a hash table, changed in place. */
module JsonObject {
  import opened Wrappers
  import opened HashCells
  import opened PowersOfTwo

  const STARTING_CAPACITY: nat := 16

  /** One step of hash_string: hash * 33 + c in 64 bits. */
  function HashStep(hash: nat, c: char): nat {
    ((hash * 33) + (c as int)) % 0x1_0000_0000_0000_0000
  }

  /** The hash of a key. */
  function Hash(key: string): nat {
    if key == "" then 5381 else HashStep(Hash(key[..|key| - 1]), key[|key| - 1])
  }

  function Power33(n: nat): nat {
    if n == 0 then 1 else 33 * Power33(n - 1)
  }

  /** The bytes of a key as the digits of a number to the base 33, the first highest. */
  function Digits(key: string): nat {
    if key == "" then 0 else key[0] as int * Power33(|key| - 1) + Digits(key[1..])
  }

  lemma {:induction false} DigitsMore(key: string, c: char)
    ensures Digits(key + [c]) == 33 * Digits(key) + c as int
    decreases |key|
  {
    if key == "" {
      assert [c][1..] == "";
    } else {
      DigitsMore(key[1..], c);
      assert (key + [c])[1..] == key[1..] + [c];
    }
  }

  lemma StepModulo(n: nat, c: char)
    ensures HashStep(n % 0x1_0000_0000_0000_0000, c) == (33 * n + c as int) % 0x1_0000_0000_0000_0000
  {
    var q, r := n / 0x1_0000_0000_0000_0000, n % 0x1_0000_0000_0000_0000;
    Multiple(33 * r + c as int, 33 * q);
    assert 33 * n + c as int == 33 * r + c as int + 0x1_0000_0000_0000_0000 * (33 * q);
  }

  lemma Multiple(a: nat, k: nat)
    ensures (a + 0x1_0000_0000_0000_0000 * k) % 0x1_0000_0000_0000_0000 == a % 0x1_0000_0000_0000_0000
  {}

  /** The hash is that number, behind 5381, in 64 bits. */
  lemma {:induction false} HashIs(key: string)
    ensures Hash(key) == (5381 * Power33(|key|) + Digits(key)) % 0x1_0000_0000_0000_0000
  {
    hide HashStep;
    if key != "" {
      var less, c := key[..|key| - 1], key[|key| - 1];
      HashIs(less);
      assert key == less + [c];
      DigitsMore(less, c);
      StepModulo(5381 * Power33(|less|) + Digits(less), c);
    }
  }

  /** hash_string; a key holds no NUL. */
  method HashString(key: string) returns (hash: nat)
    ensures hash == Hash(key)
  {
    hide HashStep;
    hash := 5381;
    for i := 0 to |key|
      invariant hash == Hash(key[..i])
    {
      hash := HashStep(hash, key[i]);
      assert key[..i + 1][..i] == key[..i];
    }
    assert key[..|key|] == key;
  }

  /** (unsigned int)(capacity * 0.7f); the float nearest to 0.7 is 11744051 / 2^24. */
  function ItemCapacity(capacity: nat): (n: nat)
    ensures capacity > 0 ==> n < capacity
    ensures capacity >= 2 ==> n > 0
  {
    capacity * 11744051 / 16777216
  }

  /** The first `count` hashes are those of the first `count` names. */
  ghost predicate HashesOf(hashes: seq<nat>, names: seq<string>, count: nat) {
    && count <= |hashes| && count <= |names|
    && forall t | 0 <= t < count :: hashes[t] == Hash(names[t])
  }

  /** The items in order, as names and values. */
  datatype Item<V> = Item(name: string, value: V)

  function Zip<V>(names: seq<string>, values: seq<V>): (items: seq<Item<V>>)
    requires |names| == |values|
    ensures |items| == |names| && forall i | 0 <= i < |names| :: items[i] == Item(names[i], values[i])
  {
    if names == [] then [] else Zip(names[..|names| - 1], values[..|values| - 1]) + [Item(names[|names| - 1], values[|values| - 1])]
  }

  /** No two items have the same name. */
  ghost predicate Distinct<V>(items: seq<Item<V>>) {
    forall t, u | 0 <= t < u < |items| :: items[t].name != items[u].name
  }

  lemma DistinctSnoc<V>(items: seq<Item<V>>, item: Item<V>)
    requires Distinct(items) && !HasName(items, item.name)
    ensures Distinct(items + [item])
  {}

  lemma DistinctPrefix<V>(items: seq<Item<V>>, i: nat)
    requires Distinct(items) && i < |items|
    ensures !HasName(items[..i], items[i].name) && items[..i + 1] == items[..i] + [items[i]]
  {}

  ghost predicate HasName<V>(items: seq<Item<V>>, name: string) {
    exists i :: 0 <= i < |items| && items[i].name == name
  }

  /** What removing item `ix` leaves: the last item takes its place. */
  function Without<V>(items: seq<Item<V>>, ix: nat): seq<Item<V>>
    requires ix < |items|
  {
    items[ix := items[|items| - 1]][..|items| - 1]
  }

  /** What json_object_remove_internal leaves. */
  ghost function Removed<V>(items: seq<Item<V>>, name: string): seq<Item<V>> {
    if i :| 0 <= i < |items| && items[i].name == name then Without(items, i) else items
  }

  lemma RemovedAt<V>(items: seq<Item<V>>, name: string, i: nat)
    requires Distinct(items) && i < |items| && items[i].name == name
    ensures Removed(items, name) == Without(items, i)
  {}

  /** The map an object stands for. */
  ghost function AsMap<V>(items: seq<Item<V>>): map<string, V> {
    if items == [] then map[] else AsMap(items[..|items| - 1])[items[|items| - 1].name := items[|items| - 1].value]
  }

  lemma {:induction false} MapOfNames<V>(items: seq<Item<V>>, name: string)
    ensures name in AsMap(items) <==> HasName(items, name)
  {
    if items != [] {
      var front, last := items[..|items| - 1], items[|items| - 1];
      MapOfNames(front, name);
      if HasName(items, name) && last.name != name {
        var i :| 0 <= i < |items| && items[i].name == name;
        assert front[i].name == name;
      }
    }
  }

  lemma {:induction false} MapOfItem<V>(items: seq<Item<V>>, i: nat)
    requires Distinct(items) && i < |items|
    ensures items[i].name in AsMap(items) && AsMap(items)[items[i].name] == items[i].value
  {
    var front := items[..|items| - 1];
    if i < |front| {
      MapOfItem(front, i);
      assert front[i] == items[i];
    }
  }

  /** Items with the same names and values stand for the same map, whatever their order. */
  lemma MapFromItems<V>(items: seq<Item<V>>, m: map<string, V>)
    requires Distinct(items)
    requires forall i | 0 <= i < |items| :: items[i].name in m && m[items[i].name] == items[i].value
    requires forall n | n in m :: HasName(items, n)
    ensures AsMap(items) == m
  {
    hide AsMap;
    forall n ensures n in AsMap(items) <==> n in m {
      MapOfNames(items, n);
    }
    forall n | n in m ensures AsMap(items)[n] == m[n] {
      var i :| 0 <= i < |items| && items[i].name == n;
      MapOfItem(items, i);
    }
  }

  /** Adding a new item adds a key. */
  lemma AddedMap<V>(items: seq<Item<V>>, name: string, value: V)
    ensures AsMap(items + [Item(name, value)]) == AsMap(items)[name := value]
  {
    assert (items + [Item(name, value)])[..|items|] == items;
  }

  /** Setting an item sets its key. */
  lemma UpdatedMap<V>(items: seq<Item<V>>, name: string, value: V)
    requires Distinct(items)
    ensures Distinct(Updated(items, name, value))
    ensures AsMap(Updated(items, name, value)) == AsMap(items)[name := value]
  {
    if HasName(items, name) {
      var i :| 0 <= i < |items| && items[i].name == name;
      UpdatedAt(items, name, value, i);
      var items' := items[i := Item(name, value)];
      forall j | 0 <= j < |items| ensures items[j].name in AsMap(items) && AsMap(items)[items[j].name] == items[j].value {
        MapOfItem(items, j);
      }
      forall n | n in AsMap(items)[name := value] ensures HasName(items', n) {
        MapOfNames(items, n);
        var j :| 0 <= j < |items| && items[j].name == n;
        assert items'[j].name == n;
      }
      MapFromItems(items', AsMap(items)[name := value]);
    } else {
      UpdatedNew(items, name, value);
      AddedMap(items, name, value);
    }
  }

  lemma WithoutAt<V>(items: seq<Item<V>>, ix: nat, j: nat)
    requires ix < |items| && j < |items| - 1
    ensures |Without(items, ix)| == |items| - 1 && Without(items, ix)[j] == if j == ix then items[|items| - 1] else items[j]
  {}

  lemma WithoutLength<V>(items: seq<Item<V>>, ix: nat)
    requires ix < |items|
    ensures |Without(items, ix)| == |items| - 1
  {}

  lemma OtherStays<V>(items: seq<Item<V>>, ix: nat, name: string)
    requires ix < |items| && HasName(items, name) && name != items[ix].name
    ensures HasName(Without(items, ix), name)
  {
    hide Without;
    var j :| 0 <= j < |items| && items[j].name == name;
    var k := if j == |items| - 1 then ix else j;
    WithoutAt(items, ix, k);
    assert Without(items, ix)[k].name == name;
  }

  lemma WithoutMap<V>(items: seq<Item<V>>, i: nat)
    requires Distinct(items) && i < |items| && Distinct(Without(items, i))
    ensures AsMap(Without(items, i)) == AsMap(items) - {items[i].name}
  {
    hide AsMap, Without, HasName;
    var less, name := Without(items, i), items[i].name;
    WithoutLength(items, i);
    forall j | 0 <= j < |less|
      ensures less[j].name in AsMap(items) - {name} && AsMap(items)[less[j].name] == less[j].value
    {
      WithoutAt(items, i, j);
      MapOfItem(items, if j == i then |items| - 1 else j);
    }
    forall n | n in AsMap(items) - {name} ensures HasName(less, n) {
      MapOfNames(items, n);
      OtherStays(items, i, n);
    }
    MapFromItems(less, AsMap(items) - {name});
  }

  /** Removing an item removes its key, and only that. */
  lemma RemovedMap<V>(items: seq<Item<V>>, name: string)
    requires Distinct(items)
    ensures Distinct(Removed(items, name))
    ensures AsMap(Removed(items, name)) == AsMap(items) - {name}
  {
    if HasName(items, name) {
      var i :| 0 <= i < |items| && items[i].name == name;
      RemovedAt(items, name, i);
      DistinctWithout(items, i);
      WithoutMap(items, i);
    } else {
      MapOfNames(items, name);
    }
  }

  class JsonObject<V(0)> {
    var cells: array<int>
    var hashes: array<nat>
    var names: array<string>
    var values: array<V>
    var cellIxs: array<int>
    var count: nat
    var itemCapacity: nat
    var cellCapacity: nat

    /** The arrays the object owns. */
    ghost function Arrays(): set<object>
      reads this
    {
      {cells as object, hashes, names, values, cellIxs}
    }

    ghost predicate Shape()
      reads this
    {
      && cells.Length == cellCapacity
      && hashes.Length == names.Length == values.Length == cellIxs.Length == itemCapacity
      && count <= itemCapacity == ItemCapacity(cellCapacity)
      && (cellCapacity == 0 || PowerOfTwo(cellCapacity))
      && cells != cellIxs
      && cells as object != hashes && cells as object != names && cells as object != values
      && cellIxs as object != hashes && cellIxs as object != names && cellIxs as object != values
      && hashes as object != names && hashes as object != values && names as object != values
    }

    ghost predicate Valid()
      reads this, cells, hashes, names, values, cellIxs
      ensures Valid() ==> count <= names.Length && count <= values.Length
    {
      && Shape()
      && Table(cells[..], cellIxs[..], hashes[..], count)
      && HashesOf(hashes[..], names[..], count)
      && Distinct(Items())
    }

    ghost function Items(): (items: seq<Item<V>>)
      reads this, names, values
      requires count <= names.Length && count <= values.Length
      ensures |items| == count && forall i | 0 <= i < count :: items[i] == Item(names[i], values[i])
    {
      Zip(names[..count], values[..count])
    }

    /** json_object_init */
    constructor Init(capacity: nat)
      requires capacity == 0 || PowerOfTwo(capacity)
      ensures Valid() && Items() == [] && cellCapacity == capacity
      ensures fresh(Arrays())
    {
      var items := ItemCapacity(capacity);
      cells := new int[capacity](_ => INVALID);
      hashes := new nat[items];
      names := new string[items];
      values := new V[items];
      cellIxs := new int[items];
      count, itemCapacity, cellCapacity := 0, items, capacity;
    }

    /** json_object_get_cell_ix: the cell of `key`, or the empty cell where it belongs. */
    method GetCellIx(key: string, hash: nat) returns (ix: int, found: bool)
      requires Valid() && hash == Hash(key)
      ensures found == HasName(Items(), key)
      ensures found ==> 0 <= ix < cellCapacity && 0 <= cells[ix] < count && cellIxs[cells[ix]] == ix && Items()[cells[ix]].name == key
      ensures !found && cellCapacity == 0 ==> ix == INVALID
      ensures !found && cellCapacity > 0 ==>
                && 0 <= ix < cellCapacity && cells[ix] == INVALID
                && forall c | 0 <= c < cellCapacity && cells[c] == INVALID ::
                     Dist(Home(hash, cellCapacity), ix, cellCapacity) <= Dist(Home(hash, cellCapacity), c, cellCapacity)
    {
      hide Hash, Home, PowerOfTwo;
      ghost var cs, xs, hs := cells[..], cellIxs[..], hashes[..];
      if cellCapacity == 0 {
        return INVALID, false;
      }
      var home := Home(hash, cellCapacity);
      for i := 0 to cellCapacity
        invariant forall c | 0 <= c < cellCapacity && Dist(home, c, cellCapacity) < i :: cells[c] != INVALID && names[cells[c]] != key
      {
        ix := Ahead(home, i, cellCapacity);
        var cell := cells[ix];
        if cell == INVALID {
          forall t | 0 <= t < count ensures names[t] != key {
            assert cs[xs[t]] == t && hs[t] == Hash(names[..][t]);
            assert !Passes(cs, xs, hs, t, ix);
          }
          assert forall t | 0 <= t < count :: Items()[t].name == names[t];
          return ix, false;
        }
        if hash == hashes[cell] && names[cell] == key {
          assert Items()[cell].name == key;
          return ix, true;
        }
      }
      var e := EmptyCell(cs, xs, count, INVALID);
      assert false;
    }

    /** The end of json_object_add and json_object_set_value: a new item, stored in an empty cell. */
    method Append(name: string, value: V, hash: nat, cell: nat)
      requires Valid() && count < itemCapacity && hash == Hash(name)
      requires !HasName(Items(), name)
      requires cell < cellCapacity && cells[cell] == INVALID
      requires forall c | 0 <= c < cellCapacity && cells[c] == INVALID ::
                 Dist(Home(hash, cellCapacity), cell, cellCapacity) <= Dist(Home(hash, cellCapacity), c, cellCapacity)
      modifies `count, cells, hashes, names, values, cellIxs
      ensures Valid() && Items() == old(Items()) + [Item(name, value)]
    {
      hide Hash, ItemCapacity, Home, Linked, Reachable, Table, Distinct, HasName, Zip, PowerOfTwo;
      ghost var cs, xs, hs, old_ := cells[..], cellIxs[..], hashes[..], Items();
      Insert(cs, xs, hs, count, hash, cell);
      DistinctSnoc(old_, Item(name, value));
      names[count] := name;
      cells[cell] := count;
      values[count] := value;
      cellIxs[count] := cell;
      hashes[count] := hash;
      assert cells[..] == cs[cell := count] && cellIxs[..] == xs[count := cell] && hashes[..] == hs[count := hash];
      count := count + 1;
      assert Items() == old_ + [Item(name, value)];
    }

    /** json_object_grow_and_rehash: the same items in a table of at least twice the size. */
    method GrowAndRehash()
      requires Valid()
      modifies this
      ensures Valid() && Items() == old(Items())
      ensures count < itemCapacity && cellCapacity > 0
      ensures fresh(Arrays())
      decreases 1, 0
    {
      hide Hash, HasName, Table, Distinct, ItemCapacity, HashesOf, Zip, PowerOfTwo;
      var grown := Rehashed();
      TakeOver(grown);
    }

    /** The object takes the place of the grown one. */
    method TakeOver(grown: JsonObject<V>)
      requires grown.Valid() && grown != this && grown.count == count
      modifies this
      ensures Valid() && Items() == grown.Items() && Arrays() == grown.Arrays()
      ensures count == old(count) && itemCapacity == grown.itemCapacity && cellCapacity == grown.cellCapacity
    {
      hide Hash, HasName, Table, Distinct, ItemCapacity, HashesOf, Zip, PowerOfTwo;
      cells, hashes, names, values, cellIxs := grown.cells, grown.hashes, grown.names, grown.values, grown.cellIxs;
      itemCapacity, cellCapacity := grown.itemCapacity, grown.cellCapacity;
    }

    /** The new_object of json_object_grow_and_rehash. */
    method Rehashed() returns (grown: JsonObject<V>)
      requires Valid()
      ensures fresh(grown) && fresh(grown.Arrays()) && grown.Valid() && grown.Items() == Items()
      ensures grown.count < grown.itemCapacity && grown.cellCapacity > 0
      decreases 0, 2
    {
      var capacity := if cellCapacity * 2 > STARTING_CAPACITY then cellCapacity * 2 else STARTING_CAPACITY;
      hide Hash, HasName, Table, Distinct, ItemCapacity, HashesOf, Zip, PowerOfTwo;
      ItemCapacityGrows(cellCapacity, capacity);
      grown := new JsonObject<V>.Init(capacity);
      grown.AddAll(names, values, count, Items());
    }

    /** The loop of json_object_grow_and_rehash, which adds n items to an object with room for more. */
    method AddAll(ns: array<string>, vs: array<V>, n: nat, ghost items: seq<Item<V>>)
      requires Valid() && count == 0 && n < itemCapacity
      requires n == |items| && Distinct(items) && n <= ns.Length && n <= vs.Length && {ns as object, vs} !! {this} + Arrays()
      requires forall i | 0 <= i < n :: items[i] == Item(ns[i], vs[i])
      modifies this, Arrays()
      ensures Valid() && Items() == items
      ensures unchanged(`cells, `hashes, `names, `values, `cellIxs, `itemCapacity, `cellCapacity)
      decreases 0, 1
    {
      hide Hash, HasName, Table, Distinct, ItemCapacity, HashesOf, Zip, PowerOfTwo;
      for i := 0 to n
        invariant Valid() && Items() == items[..i]
        invariant unchanged(`cells, `hashes, `names, `values, `cellIxs, `itemCapacity, `cellCapacity)
        invariant ns[..] == old(ns[..]) && vs[..] == old(vs[..])
      {
        DistinctPrefix(items, i);
        assert ns[i] == old(ns[..])[i] && vs[i] == old(vs[..])[i];
        var status := Add(ns[i], vs[i]);
      }
    }

    /** json_object_add: fails, changing nothing, if the name is there already. */
    method Add(name: string, value: V) returns (success: bool)
      requires Valid()
      modifies this, cells, hashes, names, values, cellIxs
      ensures Valid() && success == !HasName(old(Items()), name)
      ensures Items() == if success then old(Items()) + [Item(name, value)] else old(Items())
      ensures old(count < itemCapacity) ==> unchanged(`cells, `hashes, `names, `values, `cellIxs, `itemCapacity, `cellCapacity)
      ensures fresh(Arrays() - old(Arrays()))
      decreases if count >= itemCapacity then 2 else 0, 0
    {
      hide Hash, HasName, Table, Dist, Distinct, HashesOf, Zip, PowerOfTwo;
      var hash := HashString(name);
      var ix, found := GetCellIx(name, hash);
      if found {
        return false;
      }
      if count >= itemCapacity {
        GrowAndRehash();
        ix, found := GetCellIx(name, hash);
      }
      Append(name, value, hash, ix);
      return true;
    }

    /** json_object_set_value: replaces the value of an existing item, or adds a new one at the end. */
    method SetValue(name: string, value: V)
      requires Valid()
      modifies this, Arrays()
      ensures Valid()
      ensures Items() == Updated(old(Items()), name, value)
      ensures fresh(Arrays() - old(Arrays()))
    {
      hide Hash, Table, Dist, Distinct, HashesOf, Zip, ItemCapacity, PowerOfTwo;
      ghost var before := Items();
      var hash := HashString(name);
      var ix, found := GetCellIx(name, hash);
      if found {
        var item := cells[ix];
        values[item] := value;
        UpdatedAt(before, name, value, item);
        assert Items() == before[item := Item(name, value)];
        DistinctUpdate(before, name, value, item);
        return;
      }
      UpdatedNew(before, name, value);
      hide HasName, Updated;
      if count < itemCapacity {
        CellsForItems(cellCapacity, count);
      }
      if count >= itemCapacity {
        GrowAndRehash();
        ix, found := GetCellIx(name, hash);
      }
      Append(name, value, hash, ix);
    }

    /** json_object_getn_value */
    method GetnValue(name: string) returns (value: Option<V>)
      requires Valid()
      ensures value == if name in AsMap(Items()) then Some(AsMap(Items())[name]) else None
    {
      hide Hash, Table, Dist, Distinct, HashesOf, Zip, ItemCapacity, PowerOfTwo;
      var hash := HashString(name);
      var ix, found := GetCellIx(name, hash);
      if !found {
        MapOfNames(Items(), name);
        return None;
      }
      MapOfItem(Items(), cells[ix]);
      return Some(values[cells[ix]]);
    }

    /** json_object_remove_internal: fails, changing nothing, if there is no such item. */
    method Remove(name: string) returns (success: bool)
      requires Valid()
      modifies this, Arrays()
      ensures Valid() && success == HasName(old(Items()), name)
      ensures Items() == Removed(old(Items()), name)
      ensures unchanged(`cells, `hashes, `names, `values, `cellIxs, `itemCapacity, `cellCapacity)
    {
      hide Hash, Table, Dist, Distinct, HashesOf, Zip, ItemCapacity, PowerOfTwo;
      var hash := HashString(name);
      var cell, found := GetCellIx(name, hash);
      if !found {
        return false;
      }
      var item := cells[cell];
      RemovedAt(Items(), name, item);
      MoveLastItem(item);
      BackwardShift(cell);
      return true;
    }

    /** Copy item `from` over item `to` and let its cell refer to the new place. */
    method CopyItem(from: nat, to: nat)
      requires Shape() && from < itemCapacity && to < itemCapacity && 0 <= cellIxs[from] < cellCapacity
      modifies Arrays()
      ensures names[..] == old(names[..][to := names[from]]) && values[..] == old(values[..][to := values[from]])
      ensures cellIxs[..] == old(cellIxs[..][to := cellIxs[from]]) && hashes[..] == old(hashes[..][to := hashes[from]])
      ensures cells[..] == old(cells[..][cellIxs[from] := to])
    {
      hide ItemCapacity;
      names[to] := names[from];
      values[to] := values[from];
      cellIxs[to] := cellIxs[from];
      hashes[to] := hashes[from];
      cells[cellIxs[to]] := to;
    }

    /** Move the last item into the place of `item`, whose cell becomes a hole. */
    method MoveLastItem(item: nat)
      requires Valid() && item < count
      modifies this`count, Arrays()
      ensures Shape() && count == old(count) - 1 && Items() == Without(old(Items()), item)
      ensures var hole := old(cellIxs[item]);
              && 0 <= hole < cellCapacity
              && Linked(cells[..], cellIxs[..], count, hole)
              && Reachable(cells[..], cellIxs[..], hashes[..], count, hole)
      ensures HashesOf(hashes[..], names[..], count) && Distinct(Items())
    {
      hide Hash, Linked, Reachable, Distinct, ItemCapacity, HashesOf, Zip, Without, Table, PowerOfTwo;
      ghost var cs, xs, hs, ns, vs := cells[..], cellIxs[..], hashes[..], names[..], values[..];
      var last := count - 1;
      LinkedItem(cs, xs, hs, count, last);
      if item < last {
        CopyItem(last, item);
      }
      count := last;
      ItemMoved(cs, xs, hs, ns, vs, last, item, cells[..], cellIxs[..], hashes[..], names[..], values[..]);
    }

    /** One of the operations above. */
    method Do(op: Operation<V>)
      requires Valid()
      modifies this, Arrays()
      ensures Valid() && Items() == Perform(old(Items()), op)
      ensures fresh(Arrays() - old(Arrays()))
    {
      hide HasName, Updated, Removed, Table, Distinct, ItemCapacity, HashesOf, Zip, PowerOfTwo;
      match op
      case Add(n, v) => var success := Add(n, v);
      case Set(n, v) => SetValue(n, v);
      case Remove(n) => var success := Remove(n);
    }

    /** Close the hole `cell`: move later items of its cluster back until an empty cell is met. */
    method BackwardShift(cell: nat)
      requires Shape() && cell < cellCapacity && count < itemCapacity
      requires Linked(cells[..], cellIxs[..], count, cell)
      requires Reachable(cells[..], cellIxs[..], hashes[..], count, cell)
      requires HashesOf(hashes[..], names[..], count)
      requires Distinct(Items())
      modifies cells, cellIxs
      ensures Valid()
    {
      hide Hash, Home, Distinct, ItemCapacity, HashesOf, Zip, PowerOfTwo;
      ItemsBelowCells(cellCapacity, count);
      ghost var e := EmptyCell(cells[..], cellIxs[..], count, cell);
      hide Shifting, Table, Linked, Reachable, MustMove, Dist, Ahead;
      StartShift(cells[..], cellIxs[..], hashes[..], count, cell);
      DistZero(cell, e, cellCapacity);
      var i: nat, j: nat, x: nat := cell, cell, 0;
      while x < cellCapacity - 1
        invariant 0 <= x && i < cellCapacity && j < cellCapacity
        invariant Dist(cell, i, cellCapacity) <= Dist(cell, j, cellCapacity) == x < Dist(cell, e, cellCapacity)
        invariant cells[e] == INVALID
        invariant Shifting(cells[..], cellIxs[..], hashes[..], count, i, j)
      {
        ghost var cs, xs, hs, j0 := cells[..], cellIxs[..], hashes[..], j;
        StepOn(cell, i, j, e, cellCapacity);
        j := Ahead(j, 1, cellCapacity);
        if cells[j] == INVALID {
          ShiftEnds(cs, xs, hs, count, i, j0, j);
          break;
        }
        ShiftingLinks(cs, xs, hs, count, i, j0, j);
        var k := Home(hashes[cells[j]], cellCapacity);
        if MustMove(i, j, k) {
          ShiftMoves(cs, xs, hs, count, i, j0, j);
          cellIxs[cells[j]] := i;
          cells[i] := cells[j];
          assert cells[..] == cs[i := cs[j]] && cellIxs[..] == xs[cs[j] := i];
          i := j;
        } else {
          ShiftSkips(cs, xs, hs, count, i, j0, j);
        }
        x := x + 1;
      }
      ghost var cs := cells[..];
      cells[i] := INVALID;
      assert cells[..] == cs[i := INVALID];
    }
  }

  lemma ZipWithout<V>(ns: seq<string>, vs: seq<V>, ns': seq<string>, vs': seq<V>, last: nat, ix: nat)
    requires ix <= last < |ns| && last < |vs|
    requires ns' == ns[ix := ns[last]] && vs' == vs[ix := vs[last]]
    ensures Zip(ns'[..last], vs'[..last]) == Without(Zip(ns[..last + 1], vs[..last + 1]), ix)
  {
    var after, before := Zip(ns'[..last], vs'[..last]), Zip(ns[..last + 1], vs[..last + 1]);
    forall i | 0 <= i < last ensures after[i] == Without(before, ix)[i] {}
  }

  lemma HashesMoved(ns: seq<string>, hs: seq<nat>, ns': seq<string>, hs': seq<nat>, last: nat, ix: nat)
    requires ix <= last < |ns| && last < |hs|
    requires ns' == ns[ix := ns[last]] && hs' == hs[ix := hs[last]]
    requires HashesOf(hs, ns, last + 1)
    ensures HashesOf(hs', ns', last)
  {
    hide Hash;
  }

  lemma LinkedItem(cells: seq<int>, ixs: seq<int>, hashes: seq<nat>, count: nat, t: nat)
    requires Table(cells, ixs, hashes, count) && t < count
    ensures 0 <= ixs[t] < |cells|
  {}

  /** The table and the items after the last item has taken the place of another. */
  lemma ItemMoved<V>(cs: seq<int>, xs: seq<int>, hs: seq<nat>, ns: seq<string>, vs: seq<V>, last: nat, item: nat,
                     cs': seq<int>, xs': seq<int>, hs': seq<nat>, ns': seq<string>, vs': seq<V>)
    requires item <= last < |ns| == |vs| == |xs| == |hs|
    requires Table(cs, xs, hs, last + 1) && HashesOf(hs, ns, last + 1) && Distinct(Zip(ns[..last + 1], vs[..last + 1]))
    requires if item == last then cs' == cs && xs' == xs && hs' == hs && ns' == ns && vs' == vs
             else xs' == xs[item := xs[last]] && hs' == hs[item := hs[last]] && ns' == ns[item := ns[last]] && vs' == vs[item := vs[last]]
                  && 0 <= xs[last] < |cs| && cs' == cs[xs[last] := item]
    ensures 0 <= xs[item] < |cs'| && Linked(cs', xs', last, xs[item]) && Reachable(cs', xs', hs', last, xs[item])
    ensures HashesOf(hs', ns', last)
    ensures Zip(ns'[..last], vs'[..last]) == Without(Zip(ns[..last + 1], vs[..last + 1]), item)
    ensures Distinct(Zip(ns'[..last], vs'[..last]))
  {
    LinkedItem(cs, xs, hs, last + 1, item);
    hide Hash, Linked, Reachable, Distinct, HashesOf, Zip, Without, Table, PowerOfTwo;
    var cs1, xs1, hs1 := MoveLast(cs, xs, hs, last + 1, item);
    assert xs' == xs1 && hs' == hs1 && cs' == cs1;
    assert ns' == ns[item := ns[last]] && vs' == vs[item := vs[last]];
    ZipWithout(ns, vs, ns', vs', last, item);
    HashesMoved(ns, hs, ns', hs', last, item);
    DistinctWithout(Zip(ns[..last + 1], vs[..last + 1]), item);
  }

  lemma CellsForItems(capacity: nat, count: nat)
    requires count < ItemCapacity(capacity)
    ensures capacity > 0
  {}

  lemma ItemsBelowCells(capacity: nat, count: nat)
    requires count < ItemCapacity(capacity)
    ensures count + 1 < capacity
  {}

  lemma DistZero(a: nat, b: nat, capacity: nat)
    requires a < capacity && b < capacity
    ensures Dist(a, a, capacity) == 0 && (a != b ==> Dist(a, b, capacity) > 0)
  {}

  /** One step on from j, which lies between the start and the empty cell e; the hole i is not ahead of j. */
  lemma StepOn(start: nat, i: nat, j: nat, e: nat, capacity: nat)
    requires start < capacity && i < capacity && j < capacity && e < capacity
    requires Dist(start, i, capacity) <= Dist(start, j, capacity) < Dist(start, e, capacity)
    ensures Dist(i, j, capacity) + 1 < capacity && i != e
    ensures var j' := Ahead(j, 1, capacity);
            j' != i && Dist(start, j', capacity) == Dist(start, j, capacity) + 1 && (j' != e ==> Dist(start, j', capacity) < Dist(start, e, capacity))
    ensures Dist(start, e, capacity) <= capacity - 1
  {}

  /** Before anything is scanned. */
  lemma StartShift(cells: seq<int>, ixs: seq<int>, hashes: seq<nat>, count: nat, hole: nat)
    requires Linked(cells, ixs, count, hole) && count <= |hashes| && hole < |cells|
    requires Reachable(cells, ixs, hashes, count, hole)
    ensures Shifting(cells, ixs, hashes, count, hole, hole)
  {}

  lemma ShiftingLinks(cells: seq<int>, ixs: seq<int>, hashes: seq<nat>, count: nat, i: nat, j: nat, j': nat)
    requires Shifting(cells, ixs, hashes, count, i, j) && j' < |cells| && j' != i && cells[j'] != INVALID
    ensures 0 <= cells[j'] < count <= |ixs| && ixs[cells[j']] == j' && count <= |hashes|
  {}

  /** Setting a value: in place if the name is there, at the end otherwise. */
  ghost function Updated<V>(items: seq<Item<V>>, name: string, value: V): seq<Item<V>> {
    if items == [] then [Item(name, value)]
    else if items[0].name == name then [Item(name, value)] + items[1..]
    else [items[0]] + Updated(items[1..], name, value)
  }

  lemma {:induction false} UpdatedAt<V>(items: seq<Item<V>>, name: string, value: V, i: nat)
    requires Distinct(items) && i < |items| && items[i].name == name
    ensures Updated(items, name, value) == items[i := Item(name, value)]
  {
    if i > 0 {
      assert forall t, u | 0 <= t < u < |items[1..]| :: items[1..][t] == items[t + 1] && items[1..][u] == items[u + 1];
      UpdatedAt(items[1..], name, value, i - 1);
    }
  }

  lemma {:induction false} UpdatedNew<V>(items: seq<Item<V>>, name: string, value: V)
    requires !HasName(items, name)
    ensures Updated(items, name, value) == items + [Item(name, value)]
  {
    if items != [] {
      UpdatedNew(items[1..], name, value);
    }
  }

  lemma DistinctUpdate<V>(items: seq<Item<V>>, name: string, value: V, i: nat)
    requires Distinct(items) && i < |items| && items[i].name == name
    ensures Distinct(items[i := Item(name, value)])
  {}

  lemma DistinctWithout<V>(items: seq<Item<V>>, i: nat)
    requires Distinct(items) && i < |items|
    ensures Distinct(Without(items, i)) && !HasName(Without(items, i), items[i].name)
  {}

  lemma ItemCapacityGrows(old_: nat, new_: nat)
    requires new_ == if old_ * 2 > STARTING_CAPACITY then old_ * 2 else STARTING_CAPACITY
    requires old_ == 0 || PowerOfTwo(old_)
    ensures ItemCapacity(old_) < ItemCapacity(new_) && PowerOfTwo(new_)
  {
    hide PowerOfTwo, ItemCapacity;
    if old_ * 2 > STARTING_CAPACITY {
      DoubleIsPower(old_);
      MoreItems(old_, old_ * 2);
    } else {
      StartIsPower();
      MoreItems(old_, STARTING_CAPACITY);
    }
  }

  lemma DoubleIsPower(n: nat)
    requires PowerOfTwo(n)
    ensures PowerOfTwo(n * 2)
  {}

  lemma StartIsPower()
    ensures PowerOfTwo(STARTING_CAPACITY)
  {
    assert PowerOfTwo(2) && PowerOfTwo(4) && PowerOfTwo(8);
  }

  lemma MoreItems(a: nat, b: nat)
    requires a + 2 <= b
    ensures ItemCapacity(a) < ItemCapacity(b)
  {
    var x, y := a * 11744051, b * 11744051;
    assert y >= x + 16777216;
  }

  // ---------------------------------------------------------------------- whole runs

  datatype Operation<V> = Add(name: string, value: V) | Set(name: string, value: V) | Remove(name: string)

  ghost function Perform<V>(items: seq<Item<V>>, op: Operation<V>): seq<Item<V>> {
    match op
    case Add(n, v) => if HasName(items, n) then items else items + [Item(n, v)]
    case Set(n, v) => Updated(items, n, v)
    case Remove(n) => Removed(items, n)
  }

  ghost function PerformAll<V>(items: seq<Item<V>>, ops: seq<Operation<V>>): seq<Item<V>> {
    if ops == [] then items else Perform(PerformAll(items, ops[..|ops| - 1]), ops[|ops| - 1])
  }

  /** The same operations on a plain map. */
  ghost function MapAfter<V>(ops: seq<Operation<V>>): map<string, V> {
    if ops == [] then map[] else
    var m := MapAfter(ops[..|ops| - 1]);
    match ops[|ops| - 1]
    case Add(n, v) => if n in m then m else m[n := v]
    case Set(n, v) => m[n := v]
    case Remove(n) => m - {n}
  }

  /** After any run of operations the object stands for the map those operations make. */
  lemma {:induction false} RunIsMap<V>(ops: seq<Operation<V>>)
    ensures Distinct(PerformAll([], ops)) && AsMap(PerformAll([], ops)) == MapAfter(ops)
  {
    if ops != [] {
      RunIsMap(ops[..|ops| - 1]);
      var items := PerformAll([], ops[..|ops| - 1]);
      match ops[|ops| - 1]
      case Add(n, v) =>
        MapOfNames(items, n);
        AddedMap(items, n, v);
        if !HasName(items, n) { DistinctSnoc(items, Item(n, v)); }
      case Set(n, v) => UpdatedMap(items, n, v);
      case Remove(n) => RemovedMap(items, n);
    }
  }

  /** Any run of operations on a new object, and what looking up a key then finds. */
  method Run<V(0)>(ops: seq<Operation<V>>, key: string) returns (value: Option<V>)
    ensures value == if key in MapAfter(ops) then Some(MapAfter(ops)[key]) else None
  {
    hide HasName, Updated, Removed, Table, Distinct, ItemCapacity, HashesOf, Zip, PowerOfTwo, AsMap, MapAfter, Perform;
    hide JsonObject.Valid, JsonObject.Items;
    var o := new JsonObject<V>.Init(0);
    assert PerformAll([], ops[..0]) == [];
    for i := 0 to |ops|
      invariant fresh(o) && fresh(o.Arrays()) && o.Valid()
      invariant o.Items() == PerformAll([], ops[..i])
    {
      assert ops[..i + 1][..i] == ops[..i];
      o.Do(ops[i]);
    }
    assert ops[..|ops|] == ops;
    RunIsMap(ops);
    value := o.GetnValue(key);
  }
}
