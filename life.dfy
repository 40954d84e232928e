/**
 * The Life rules both engines share (src/model.js:57-122 and src/app.js:355-457),
 * stated over Map contents (`Table`).
 *
 * The two engines differ only in the values they store for a live and a dead
 * cell: src/model.js stores 1 and 0, src/app.js stores true and false. Every
 * definition here takes those two markers as the parameters `on` and `off`.
 */
module Life {
  import opened GridKeys
  import opened SparseGrid

  /** The Moore offsets, in the order the source lists them. */
  const Offsets: seq<(int, int)> := [(-1, -1), (-1, 0), (-1, 1), (0, -1), (0, 1), (1, -1), (1, 0), (1, 1)]

  /** `_getNeighbors`: each offset added to (x, y). */
  function Neighbors(x: int, y: int): seq<Coord> {
    seq(8, i requires 0 <= i < 8 => (Offsets[i].0 + x, Offsets[i].1 + y))
  }

  /** The Moore neighbourhood, stated independently of the offset list. */
  predicate Adjacent(c: Coord, d: Coord) {
    d != c && -1 <= d.0 - c.0 <= 1 && -1 <= d.1 - c.1 <= 1
  }

  /** Exactly the eight Moore neighbours, each listed once. */
  lemma NeighborsAreMoore(x: int, y: int)
    ensures |Neighbors(x, y)| == 8 && Distinct(Neighbors(x, y))
    ensures forall d :: d in Neighbors(x, y) <==> Adjacent((x, y), d)
  {
    var ns := Neighbors(x, y);
    forall d | Adjacent((x, y), d)
      ensures d in ns
    {
      var dx, dy := d.0 - x, d.1 - y;
      var i := if dx == -1 then 1 + dy else if dx == 0 then (if dy == -1 then 3 else 4) else 6 + dy;
      assert ns[i] == d;
    }
  }

  predicate IsAlive<V(==)>(t: Table<V>, c: Coord, on: V) {
    c in t.entries && t.entries[c] == on
  }

  /** Every stored value is one of the two markers. */
  ghost predicate OnlyMarkers<V>(t: Table<V>, on: V, off: V) {
    forall c :: c in t.entries ==> t.entries[c] == on || t.entries[c] == off
  }

  /** How many of `ns` hold the live marker. */
  function CountOn<V(==)>(t: Table<V>, ns: seq<Coord>, on: V): (n: nat)
    ensures n <= |ns|
  {
    if ns == [] then 0
    else (if IsAlive(t, ns[0], on) then 1 else 0) + CountOn(t, ns[1..], on)
  }

  /** The neighbour count of the update loop: live markers among the eight neighbours. */
  function AliveNeighbors<V(==)>(t: Table<V>, c: Coord, on: V): nat {
    CountOn(t, Neighbors(c.0, c.1), on)
  }

  lemma {:induction false} CountOnIsSetSize<V>(t: Table<V>, ns: seq<Coord>, on: V)
    requires Distinct(ns)
    ensures CountOn(t, ns, on) == |set d | d in ns && IsAlive(t, d, on)|
  {
    if ns != [] {
      assert Distinct(ns[1..]);
      CountOnIsSetSize(t, ns[1..], on);
      var rest := set d | d in ns[1..] && IsAlive(t, d, on);
      assert ns[0] !in rest;
      if IsAlive(t, ns[0], on) {
        assert (set d | d in ns && IsAlive(t, d, on)) == rest + {ns[0]};
      } else {
        assert (set d | d in ns && IsAlive(t, d, on)) == rest;
      }
    }
  }

  /** The neighbour count is the number of live Moore neighbours. */
  lemma AliveNeighborsCountsMoore<V>(t: Table<V>, c: Coord, on: V)
    ensures AliveNeighbors(t, c, on) == |set d | Adjacent(c, d) && d in t.entries && IsAlive(t, d, on)|
    ensures AliveNeighbors(t, c, on) <= 8
  {
    NeighborsAreMoore(c.0, c.1);
    CountOnIsSetSize(t, Neighbors(c.0, c.1), on);
    assert (set d | d in Neighbors(c.0, c.1) && IsAlive(t, d, on))
        == (set d | Adjacent(c, d) && d in t.entries && IsAlive(t, d, on));
  }

  /**
   * The neighbour loop of `_activate`: each of `ns` that is not yet a key is
   * added with the dead marker; keys already present keep their values.
   */
  function AddAbsent<V>(t: Table<V>, ns: seq<Coord>, off: V): (r: Table<V>)
    ensures t.Valid() ==> r.Valid()
    ensures forall d :: d in r.entries <==> d in t.entries || d in ns
    ensures forall d :: d in t.entries ==> r.entries[d] == t.entries[d]
    ensures forall d :: d in r.entries && d !in t.entries ==> r.entries[d] == off
    decreases |ns|
  {
    if ns == [] then t
    else
      var u := AddAbsent(t, ns[..|ns| - 1], off);
      var n := ns[|ns| - 1];
      assert forall d :: d in ns <==> d in ns[..|ns| - 1] || d == n;
      if n in u.entries then u else u.Put(n, off)
  }

  /** One more pass of the neighbour loop of `_activate`. */
  lemma AddAbsentSnoc<V>(t: Table<V>, ns: seq<Coord>, i: nat, off: V)
    requires i < |ns|
    ensures AddAbsent(t, ns[..i + 1], off) ==
      var u := AddAbsent(t, ns[..i], off);
      if ns[i] in u.entries then u else u.Put(ns[i], off)
  {
    assert ns[..i + 1][..i] == ns[..i];
  }

  /**
   * `_activate`: the cell gets the live marker and its untracked neighbours
   * get the dead marker; nothing else changes.
   */
  function Activated<V>(t: Table<V>, c: Coord, on: V, off: V): (r: Table<V>)
    ensures t.Valid() ==> r.Valid()
    ensures r.Get(c) == Some(on)
    ensures forall d :: d in r.entries <==> d in t.entries || d == c || d in Neighbors(c.0, c.1)
    ensures forall d :: d != c && d in t.entries ==> r.entries[d] == t.entries[d]
    ensures forall d :: d != c && d !in t.entries && d in r.entries ==> r.entries[d] == off
  {
    AddAbsent(t.Put(c, on), Neighbors(c.0, c.1), off)
  }

  /** B3/S23: which tracked cells are alive in the next generation. */
  predicate Rule<V(==)>(v: V, n: nat, on: V, off: V) {
    (v == on && (n == 2 || n == 3)) || (v == off && n == 3)
  }

  /** A tracked dead cell with exactly three live neighbours: it is activated by the update. */
  predicate Born<V(==)>(cur: Table<V>, d: Coord, on: V, off: V) {
    d in cur.entries && cur.entries[d] == off && AliveNeighbors(cur, d, on) == 3
  }

  /**
   * The write the update makes for a cell holding `v` with `n` live
   * neighbours: untrack it when it has none, kill it when it dies of under-
   * or overpopulation, activate it when it is born, otherwise leave it.
   */
  function Apply<V(==)>(next: Table<V>, c: Coord, v: V, n: nat, on: V, off: V): Table<V> {
    if n == 0 then next.Remove(c)
    else if v == on && (n < 2 || n > 3) then next.Put(c, off)
    else if v == off && n == 3 then Activated(next, c, on, off)
    else next
  }

  /**
   * One pass of the update loop body for the tracked cell `c`: the count is
   * read from the old state `cur`, the write goes to `next`.
   */
  function Visit<V(==)>(cur: Table<V>, next: Table<V>, c: Coord, on: V, off: V): Table<V>
    requires c in cur.entries
  {
    Apply(next, c, cur.entries[c], AliveNeighbors(cur, c, on), on, off)
  }

  /** The update loop after visiting the keys `ks`, starting from a copy of `cur`. */
  function StepPrefix<V(==)>(cur: Table<V>, ks: seq<Coord>, on: V, off: V): Table<V>
    requires forall k :: k in ks ==> k in cur.entries
    decreases |ks|
  {
    if ks == [] then cur
    else Visit(cur, StepPrefix(cur, ks[..|ks| - 1], on, off), ks[|ks| - 1], on, off)
  }

  /** One more visit extends the loop's prefix by one key of the Map's order. */
  lemma StepPrefixSnoc<V>(cur: Table<V>, keys: seq<Coord>, i: nat, on: V, off: V)
    requires cur.Valid() && keys == cur.order && i < |keys|
    ensures forall k :: k in keys[..i + 1] ==> k in cur.entries
    ensures StepPrefix(cur, keys[..i + 1], on, off) == Visit(cur, StepPrefix(cur, keys[..i], on, off), keys[i], on, off)
  {
    assert keys[..i + 1][..i] == keys[..i];
  }

  /** `update`: visit every tracked cell of `cur` in the Map's insertion order. */
  function NextGeneration<V(==)>(cur: Table<V>, on: V, off: V): (r: Table<V>)
    requires cur.Valid()
    ensures r.Valid()
  {
    NextGenerationValid(cur, cur.order, on, off);
    StepPrefix(cur, cur.order, on, off)
  }

  lemma {:induction false} NextGenerationValid<V>(cur: Table<V>, ks: seq<Coord>, on: V, off: V)
    requires cur.Valid()
    requires forall k :: k in ks ==> k in cur.entries
    ensures StepPrefix(cur, ks, on, off).Valid()
    decreases |ks|
  {
    if ks != [] {
      NextGenerationValid(cur, ks[..|ks| - 1], on, off);
    }
  }

  /**
   * What holds after the update loop has visited the keys `ks`: unvisited
   * keys still hold their old values, visited keys are alive exactly as the
   * rule says, visited keys with live neighbours are still tracked, and every
   * other tracked key is a dead neighbour added by a birth.
   */
  ghost predicate PrefixFacts<V>(cur: Table<V>, ks: seq<Coord>, next: Table<V>, on: V, off: V)
    requires forall k :: k in ks ==> k in cur.entries
  {
    && next.Valid()
    && (forall c :: c in cur.entries && c !in ks ==> c in next.entries && next.entries[c] == cur.entries[c])
    && (forall c :: c in ks ==> (IsAlive(next, c, on) <==> Rule(cur.entries[c], AliveNeighbors(cur, c, on), on, off)))
    && (forall c :: c in ks && AliveNeighbors(cur, c, on) > 0 ==> c in next.entries)
    && (forall c :: c in next.entries && !(c in cur.entries && (c !in ks || AliveNeighbors(cur, c, on) > 0)) ==>
          next.entries[c] == off && exists j :: 0 <= j < |ks| && Born(cur, ks[j], on, off) && c in Neighbors(ks[j].0, ks[j].1))
  }

  /**
   * What one visit of the tracked cell `k` does to `next`, giving `r`: `k`
   * ends up alive exactly as the rule says and tracked exactly when it has
   * live neighbours; every other cell keeps its entry, and a cell the visit
   * adds is a dead neighbour of a birth at `k`.
   */
  ghost predicate VisitFacts<V>(cur: Table<V>, next: Table<V>, k: Coord, r: Table<V>, on: V, off: V)
    requires k in cur.entries
  {
    && r.Valid()
    && (IsAlive(r, k, on) <==> Rule(cur.entries[k], AliveNeighbors(cur, k, on), on, off))
    && (k in r.entries <==> AliveNeighbors(cur, k, on) > 0)
    && (forall c :: c != k && c in next.entries ==> c in r.entries && r.entries[c] == next.entries[c])
    && (forall c :: c in r.entries && c !in next.entries ==>
          r.entries[c] == off && Born(cur, k, on, off) && c in Neighbors(k.0, k.1))
  }

  lemma VisitEffect<V>(cur: Table<V>, next: Table<V>, k: Coord, on: V, off: V)
    requires cur.Valid() && next.Valid() && on != off
    requires k in cur.entries && k in next.entries && next.entries[k] == cur.entries[k]
    ensures VisitFacts(cur, next, k, Visit(cur, next, k, on, off), on, off)
  {
    var r := Visit(cur, next, k, on, off);
    forall c | c in r.entries && c !in next.entries
      ensures r.entries[c] == off && Born(cur, k, on, off) && c in Neighbors(k.0, k.1)
    {
      assert r.Get(c).Some? && next.Get(c).None?;
    }
  }

  /** The prefix facts extend by one key over any result with the facts of a visit. */
  lemma PrefixFactsSnoc<V>(cur: Table<V>, ks: seq<Coord>, k: Coord, next: Table<V>, r: Table<V>, on: V, off: V)
    requires on != off
    requires forall c :: c in ks ==> c in cur.entries
    requires k in cur.entries && k !in ks
    requires PrefixFacts(cur, ks, next, on, off)
    requires VisitFacts(cur, next, k, r, on, off)
    ensures PrefixFacts(cur, ks + [k], r, on, off)
  {
    var ks' := ks + [k];
    assert forall c :: c in ks' <==> c in ks || c == k;
    // Visited keys: the rule.
    forall c | c in ks'
      ensures IsAlive(r, c, on) <==> Rule(cur.entries[c], AliveNeighbors(cur, c, on), on, off)
    {
      if c != k && c !in next.entries && c in r.entries {
        assert r.entries[c] == off;
      }
    }
    // Everything else that is tracked is a dead neighbour of a birth.
    forall c | c in r.entries && !(c in cur.entries && (c !in ks' || AliveNeighbors(cur, c, on) > 0))
      ensures r.entries[c] == off
      ensures exists j :: 0 <= j < |ks'| && Born(cur, ks'[j], on, off) && c in Neighbors(ks'[j].0, ks'[j].1)
    {
      if c in next.entries {
        var j :| 0 <= j < |ks| && Born(cur, ks[j], on, off) && c in Neighbors(ks[j].0, ks[j].1);
        assert ks'[j] == ks[j];
      } else {
        assert ks'[|ks|] == k;
      }
    }
  }

  lemma {:induction false} StepPrefixFacts<V>(cur: Table<V>, ks: seq<Coord>, on: V, off: V)
    requires cur.Valid() && on != off
    requires Distinct(ks) && forall k :: k in ks ==> k in cur.entries
    ensures PrefixFacts(cur, ks, StepPrefix(cur, ks, on, off), on, off)
    decreases |ks|
  {
    if ks != [] {
      var init := ks[..|ks| - 1];
      var k := ks[|ks| - 1];
      assert ks == init + [k];
      assert Distinct(init) && k !in init;
      StepPrefixFacts(cur, init, on, off);
      var next := StepPrefix(cur, init, on, off);
      VisitEffect(cur, next, k, on, off);
      PrefixFactsSnoc(cur, init, k, next, Visit(cur, next, k, on, off), on, off);
    }
  }

  /**
   * After `update` the live cells are exactly the previously tracked cells
   * that were alive with two or three live neighbours or dead with exactly three.
   */
  lemma NextGenerationAlive<V>(cur: Table<V>, on: V, off: V)
    requires cur.Valid() && on != off
    ensures forall c :: IsAlive(NextGeneration(cur, on, off), c, on) <==>
      c in cur.entries && Rule(cur.entries[c], AliveNeighbors(cur, c, on), on, off)
  {
    StepPrefixFacts(cur, cur.order, on, off);
  }

  /**
   * After `update` a tracked cell is either a cell that was tracked and had a
   * live neighbour, or a dead cell added (or re-added after eviction) as the
   * neighbour of a birth. In particular a tracked cell with no live
   * neighbours is evicted unless a birth re-adds it.
   */
  lemma NextGenerationTracked<V>(cur: Table<V>, on: V, off: V)
    requires cur.Valid() && on != off
    ensures forall c :: c in cur.entries && AliveNeighbors(cur, c, on) > 0 ==> c in NextGeneration(cur, on, off).entries
    ensures forall c :: c in NextGeneration(cur, on, off).entries ==>
      (c in cur.entries && AliveNeighbors(cur, c, on) > 0) ||
      (NextGeneration(cur, on, off).entries[c] == off && exists b :: Born(cur, b, on, off) && c in Neighbors(b.0, b.1))
  {
    StepPrefixFacts(cur, cur.order, on, off);
    var r := NextGeneration(cur, on, off);
    forall c | c in r.entries && !(c in cur.entries && AliveNeighbors(cur, c, on) > 0)
      ensures r.entries[c] == off && exists b :: Born(cur, b, on, off) && c in Neighbors(b.0, b.1)
    {
      var j :| 0 <= j < |cur.order| && Born(cur, cur.order[j], on, off) && c in Neighbors(cur.order[j].0, cur.order[j].1);
    }
  }

  /** 1 for a live cell, 0 otherwise. */
  function LiveBit<V(==)>(t: Table<V>, c: Coord, on: V): nat {
    if IsAlive(t, c, on) then 1 else 0
  }

  lemma CountOnStep<V>(t: Table<V>, ns: seq<Coord>, i: nat, on: V)
    requires i < |ns|
    ensures CountOn(t, ns[i..], on) == LiveBit(t, ns[i], on) + CountOn(t, ns[i + 1..], on)
  {
    assert ns[i..][1..] == ns[i + 1..];
  }

  lemma CountOnEight<V>(t: Table<V>, ns: seq<Coord>, on: V)
    requires |ns| == 8
    ensures CountOn(t, ns, on) ==
      LiveBit(t, ns[0], on) + LiveBit(t, ns[1], on) + LiveBit(t, ns[2], on) + LiveBit(t, ns[3], on) +
      LiveBit(t, ns[4], on) + LiveBit(t, ns[5], on) + LiveBit(t, ns[6], on) + LiveBit(t, ns[7], on)
  {
    assert CountOn(t, ns[7..], on) == LiveBit(t, ns[7], on) by {
      CountOnStep(t, ns, 7, on);
      assert ns[8..] == [];
    }
    assert CountOn(t, ns[6..], on) == LiveBit(t, ns[6], on) + LiveBit(t, ns[7], on) by {
      CountOnStep(t, ns, 6, on);
    }
    assert CountOn(t, ns[5..], on) == LiveBit(t, ns[5], on) + LiveBit(t, ns[6], on) + LiveBit(t, ns[7], on) by {
      CountOnStep(t, ns, 5, on);
    }
    assert CountOn(t, ns[4..], on) ==
      LiveBit(t, ns[4], on) + LiveBit(t, ns[5], on) + LiveBit(t, ns[6], on) + LiveBit(t, ns[7], on) by {
      CountOnStep(t, ns, 4, on);
    }
    assert CountOn(t, ns[3..], on) == LiveBit(t, ns[3], on) +
      LiveBit(t, ns[4], on) + LiveBit(t, ns[5], on) + LiveBit(t, ns[6], on) + LiveBit(t, ns[7], on) by {
      CountOnStep(t, ns, 3, on);
    }
    assert CountOn(t, ns[2..], on) == LiveBit(t, ns[2], on) + LiveBit(t, ns[3], on) +
      LiveBit(t, ns[4], on) + LiveBit(t, ns[5], on) + LiveBit(t, ns[6], on) + LiveBit(t, ns[7], on) by {
      CountOnStep(t, ns, 2, on);
    }
    assert CountOn(t, ns[1..], on) == LiveBit(t, ns[1], on) + LiveBit(t, ns[2], on) + LiveBit(t, ns[3], on) +
      LiveBit(t, ns[4], on) + LiveBit(t, ns[5], on) + LiveBit(t, ns[6], on) + LiveBit(t, ns[7], on) by {
      CountOnStep(t, ns, 1, on);
    }
    CountOnStep(t, ns, 0, on);
    assert ns[0..] == ns;
  }

  /** The neighbour count written out over the eight neighbours, in the source's order. */
  lemma AliveNeighborsUnfold<V>(t: Table<V>, c: Coord, on: V)
    ensures AliveNeighbors(t, c, on) ==
      LiveBit(t, (c.0 - 1, c.1 - 1), on) + LiveBit(t, (c.0 - 1, c.1), on) + LiveBit(t, (c.0 - 1, c.1 + 1), on) +
      LiveBit(t, (c.0, c.1 - 1), on) + LiveBit(t, (c.0, c.1 + 1), on) +
      LiveBit(t, (c.0 + 1, c.1 - 1), on) + LiveBit(t, (c.0 + 1, c.1), on) + LiveBit(t, (c.0 + 1, c.1 + 1), on)
  {
    var ns := Neighbors(c.0, c.1);
    CountOnEight(t, ns, on);
  }

  /** The key the update visits last is deleted when it has no live neighbour. */
  lemma LastVisitedEvicted<V>(cur: Table<V>, on: V, off: V)
    requires cur.Valid() && |cur.order| > 0
    requires AliveNeighbors(cur, cur.order[|cur.order| - 1], on) == 0
    ensures cur.order[|cur.order| - 1] !in NextGeneration(cur, on, off).entries
  {
    StepPrefixSnoc(cur, cur.order, |cur.order| - 1, on, off);
    assert cur.order[..|cur.order|] == cur.order;
  }

  /**
   * The example's insertion order: the 7-by-3 block x = 1..3, y = -3..3,
   * column by column, then the origin.
   */
  function ColumnOrder(): seq<Coord> {
    seq(21, i requires 0 <= i < 21 => (1 + i / 7, i % 7 - 3)) + [(0, 0)]
  }

  /** The live cells of the example: the column x = 2, y = -2..2. */
  predicate OnColumn(c: Coord) {
    c.0 == 2 && -2 <= c.1 <= 2
  }

  /** The tracked cells of the example: every neighbour of the column, and the origin. */
  predicate OnTracked(c: Coord) {
    (1 <= c.0 <= 3 && -3 <= c.1 <= 3) || c == (0, 0)
  }

  /**
   * A live column of five cells with its whole neighbourhood tracked, and the
   * origin tracked dead after it, as toggling (0,0) on and off again leaves it.
   */
  function ColumnBeforeOrigin(): Table<bool> {
    Table(map c | c in ColumnOrder() :: OnColumn(c), ColumnOrder())
  }

  lemma ColumnBeforeOriginCells(cur: Table<bool>)
    requires cur == ColumnBeforeOrigin()
    ensures cur.Valid() && |cur.order| > 0 && cur.order[|cur.order| - 1] == (0, 0)
    ensures forall c :: IsAlive(cur, c, true) <==> OnColumn(c)
    ensures forall c :: c in cur.entries <==> OnTracked(c)
  {
    var order := ColumnOrder();
    forall c | OnTracked(c)
      ensures c in order
    {
      if c != (0, 0) {
        var i := 7 * (c.0 - 1) + c.1 + 3;
        assert order[i] == c;
      }
    }
    assert order[21] == (0, 0);
  }

  lemma ColumnCounts(t: Table<bool>)
    requires forall c :: IsAlive(t, c, true) <==> OnColumn(c)
    ensures AliveNeighbors(t, (0, 0), true) == 0
    ensures AliveNeighbors(t, (1, -1), true) == 3
    ensures AliveNeighbors(t, (1, 0), true) == 3
    ensures AliveNeighbors(t, (1, 1), true) == 3
  {
    AliveNeighborsUnfold(t, (0, 0), true);
    AliveNeighborsUnfold(t, (1, -1), true);
    AliveNeighborsUnfold(t, (1, 0), true);
    AliveNeighborsUnfold(t, (1, 1), true);
  }

  /**
   * The update can lose a birth. The start tracks every neighbour of every
   * live cell, so its first update agrees with B3/S23 everywhere. That update
   * gives birth at (1,-1), (1,0) and (1,1), and afterwards visits (0,0),
   * which had no live neighbour before the step and is deleted. After the
   * step (0,0) has three live neighbours, yet being untracked it is still
   * dead after the second update.
   */
  lemma MissedBirth(cur: Table<bool>)
    requires cur == ColumnBeforeOrigin()
    ensures cur.Valid()
    ensures forall c, d :: IsAlive(cur, c, true) && Adjacent(c, d) ==> d in cur.entries
    ensures
      var g1 := NextGeneration(cur, true, false);
      && (0, 0) !in g1.entries
      && AliveNeighbors(g1, (0, 0), true) == 3
      && !IsAlive(NextGeneration(g1, true, false), (0, 0), true)
  {
    ColumnBeforeOriginCells(cur);
    MissedBirthOf(cur);
  }

  /** A tracked dead cell with three live neighbours is alive after the update. */
  lemma BornCell(cur: Table<bool>, c: Coord)
    requires cur.Valid() && c in cur.entries && !IsAlive(cur, c, true)
    requires AliveNeighbors(cur, c, true) == 3
    ensures LiveBit(NextGeneration(cur, true, false), c, true) == 1
  {
    assert cur.entries[c] == false;
    NextGenerationAlive(cur, true, false);
  }

  /** An untracked cell is dead after the update. */
  lemma UntrackedCell(cur: Table<bool>, c: Coord)
    requires cur.Valid() && c !in cur.entries
    ensures LiveBit(NextGeneration(cur, true, false), c, true) == 0
  {
    NextGenerationAlive(cur, true, false);
  }

  /** A table whose live neighbours of the origin are exactly the three cells right of it. */
  lemma OriginSeesThree(t: Table<bool>)
    requires forall c :: Adjacent((0, 0), c) ==> (IsAlive(t, c, true) <==> c.0 == 1)
    ensures AliveNeighbors(t, (0, 0), true) == 3
  {
    AliveNeighborsUnfold(t, (0, 0), true);
  }

  /** After one update of the example the origin has three live neighbours. */
  lemma ColumnRefillsOrigin(cur: Table<bool>)
    requires cur.Valid()
    requires forall c :: IsAlive(cur, c, true) <==> OnColumn(c)
    requires forall c :: c in cur.entries <==> OnTracked(c)
    ensures AliveNeighbors(NextGeneration(cur, true, false), (0, 0), true) == 3
  {
    var g1 := NextGeneration(cur, true, false);
    forall c | Adjacent((0, 0), c)
      ensures IsAlive(g1, c, true) <==> c.0 == 1
    {
      if c.0 == 1 {
        ColumnCounts(cur);
        BornCell(cur, c);
      } else {
        UntrackedCell(cur, c);
      }
    }
    OriginSeesThree(g1);
  }

  /** The same, for any table with the example's cells whose last key is the origin. */
  lemma MissedBirthOf(cur: Table<bool>)
    requires cur.Valid() && |cur.order| > 0 && cur.order[|cur.order| - 1] == (0, 0)
    requires forall c :: IsAlive(cur, c, true) <==> OnColumn(c)
    requires forall c :: c in cur.entries <==> OnTracked(c)
    ensures
      var g1 := NextGeneration(cur, true, false);
      && (0, 0) !in g1.entries
      && AliveNeighbors(g1, (0, 0), true) == 3
      && !IsAlive(NextGeneration(g1, true, false), (0, 0), true)
  {
    var g1 := NextGeneration(cur, true, false);
    assert (0, 0) !in g1.entries by {
      ColumnCounts(cur);
      LastVisitedEvicted(cur, true, false);
    }
    ColumnRefillsOrigin(cur);
    NextGenerationValid(cur, cur.order, true, false);
    NextGenerationAlive(g1, true, false);
  }

  lemma {:induction false} StepPrefixMarkers<V>(cur: Table<V>, ks: seq<Coord>, on: V, off: V)
    requires OnlyMarkers(cur, on, off)
    requires forall k :: k in ks ==> k in cur.entries
    ensures OnlyMarkers(StepPrefix(cur, ks, on, off), on, off)
    decreases |ks|
  {
    if ks != [] {
      StepPrefixMarkers(cur, ks[..|ks| - 1], on, off);
    }
  }

  /** `update` stores only the two markers when it starts from a state that does. */
  lemma NextGenerationMarkers<V>(cur: Table<V>, on: V, off: V)
    requires cur.Valid() && OnlyMarkers(cur, on, off)
    ensures OnlyMarkers(NextGeneration(cur, on, off), on, off)
  {
    StepPrefixMarkers(cur, cur.order, on, off);
  }

  /** `toggle`: a live cell is killed; a dead or untracked cell is activated. */
  function Toggled<V(==)>(t: Table<V>, c: Coord, on: V, off: V): Table<V> {
    if t.Get(c) == Some(on) then t.Put(c, off) else Activated(t, c, on, off)
  }

  /** A toggle flips exactly one cell's liveness and keeps that cell tracked. */
  lemma ToggledFlips<V>(t: Table<V>, c: Coord, on: V, off: V)
    requires on != off
    ensures t.Valid() ==> Toggled(t, c, on, off).Valid()
    ensures c in Toggled(t, c, on, off).entries
    ensures IsAlive(Toggled(t, c, on, off), c, on) <==> !IsAlive(t, c, on)
    ensures forall d :: d != c ==> (IsAlive(Toggled(t, c, on, off), d, on) <==> IsAlive(t, d, on))
    ensures !IsAlive(t, c, on) ==> forall d :: d in Neighbors(c.0, c.1) ==> d in Toggled(t, c, on, off).entries
  {
    var r := Toggled(t, c, on, off);
    if !IsAlive(t, c, on) {
      forall d | d != c
        ensures IsAlive(r, d, on) <==> IsAlive(t, d, on)
      {
        if d !in t.entries && d in r.entries {
          assert r.entries[d] == off;
        }
      }
    }
  }

  lemma ToggledMarkers<V>(t: Table<V>, c: Coord, on: V, off: V)
    requires OnlyMarkers(t, on, off)
    ensures OnlyMarkers(Toggled(t, c, on, off), on, off)
  {
  }

  /** Activating each cell of a pattern in turn (`setState`, src/app.js:401-403). */
  function Seeded<V>(t: Table<V>, pattern: seq<Coord>, on: V, off: V): (r: Table<V>)
    ensures t.Valid() ==> r.Valid()
    decreases |pattern|
  {
    if pattern == [] then t
    else Activated(Seeded(t, pattern[..|pattern| - 1], on, off), pattern[|pattern| - 1], on, off)
  }

  lemma SeededSnoc<V>(t: Table<V>, pattern: seq<Coord>, i: nat, on: V, off: V)
    requires i < |pattern|
    ensures Seeded(t, pattern[..i + 1], on, off) == Activated(Seeded(t, pattern[..i], on, off), pattern[i], on, off)
  {
    assert pattern[..i + 1][..i] == pattern[..i];
  }

  /** Some cell of the pattern has `c` among its neighbours. */
  ghost predicate NearPattern(c: Coord, pattern: seq<Coord>) {
    exists i :: 0 <= i < |pattern| && c in Neighbors(pattern[i].0, pattern[i].1)
  }

  lemma NearPatternSnoc(c: Coord, init: seq<Coord>, p: Coord)
    ensures NearPattern(c, init + [p]) <==> NearPattern(c, init) || c in Neighbors(p.0, p.1)
  {
    var pattern := init + [p];
    if NearPattern(c, pattern) {
      var i :| 0 <= i < |pattern| && c in Neighbors(pattern[i].0, pattern[i].1);
      if i < |init| {
        assert init[i] == pattern[i];
      }
    }
    if NearPattern(c, init) {
      var i :| 0 <= i < |init| && c in Neighbors(init[i].0, init[i].1);
      assert pattern[i] == init[i];
    }
    if c in Neighbors(p.0, p.1) {
      assert pattern[|init|] == p;
    }
  }

  /** Activation makes one more cell alive and no other. */
  lemma ActivatedAlive<V>(t: Table<V>, p: Coord, on: V, off: V)
    requires on != off
    ensures forall c :: IsAlive(Activated(t, p, on, off), c, on) <==> c == p || IsAlive(t, c, on)
  {
    var r := Activated(t, p, on, off);
    forall c | c != p && c in r.entries && c !in t.entries
      ensures !IsAlive(r, c, on)
    {
    }
  }

  /**
   * Seeding an empty Map makes exactly the pattern cells alive, and tracks
   * exactly the pattern cells and their neighbours, with only the two markers stored.
   */
  lemma {:induction false} SeededFromEmpty<V>(pattern: seq<Coord>, on: V, off: V)
    requires on != off
    ensures OnlyMarkers(Seeded(EmptyTable(), pattern, on, off), on, off)
    ensures forall c :: IsAlive(Seeded(EmptyTable(), pattern, on, off), c, on) <==> c in pattern
    ensures forall c :: c in Seeded(EmptyTable(), pattern, on, off).entries <==> c in pattern || NearPattern(c, pattern)
    decreases |pattern|
  {
    if pattern != [] {
      var init := pattern[..|pattern| - 1];
      var p := pattern[|pattern| - 1];
      assert pattern == init + [p];
      SeededFromEmpty(init, on, off);
      ActivatedAlive(Seeded(EmptyTable(), init, on, off), p, on, off);
      forall c
        ensures NearPattern(c, pattern) <==> NearPattern(c, init) || c in Neighbors(p.0, p.1)
      {
        NearPatternSnoc(c, init, p);
      }
    }
  }

  /** An engine's fields: the current state, the baseline kept for reset, and the generation counter. */
  datatype Engine<V> = Engine(state: Table<V>, baseline: Table<V>, counter: nat)

  /** `toggle`: flip one cell, then recapture the baseline and zero the counter. */
  function AfterToggle<V(==)>(e: Engine<V>, c: Coord, on: V, off: V): Engine<V> {
    var s := Toggled(e.state, c, on, off);
    Engine(s, s, 0)
  }

  /** `update`: the next generation; the baseline is left alone. */
  function AfterUpdate<V(==)>(e: Engine<V>, on: V, off: V): Engine<V>
    requires e.state.Valid()
  {
    Engine(NextGeneration(e.state, on, off), e.baseline, e.counter + 1)
  }

  /** `n` calls of `update`: the counter grows by exactly `n` and the baseline never changes. */
  function AfterUpdates<V(==)>(e: Engine<V>, n: nat, on: V, off: V): (r: Engine<V>)
    requires e.state.Valid()
    ensures r.state.Valid()
    ensures r.baseline == e.baseline
    ensures r.counter == e.counter + n
    decreases n
  {
    if n == 0 then e else AfterUpdate(AfterUpdates(e, n - 1, on, off), on, off)
  }
}
