/**
 * The sparse grid of src/Grid.js (and its copy at src/model.js:1-48).
 *
 * A `Grid` wraps one JavaScript Map. The Map's contents are modelled by the
 * value `Table`: its entries, keyed by coordinate, and the order in which its
 * keys were first inserted, which is the order a Map iterates in. Setting an
 * existing key keeps its place; deleting a key drops it; setting it again
 * appends it at the end.
 */
module SparseGrid {
  import opened GridKeys

  predicate Distinct(s: seq<Coord>) {
    forall i, j :: 0 <= i < j < |s| ==> s[i] != s[j]
  }

  /** `s` without any occurrence of `c`, the rest in order. */
  function Without(s: seq<Coord>, c: Coord): (r: seq<Coord>)
    ensures forall d :: d in r <==> d in s && d != c
    ensures c !in s ==> r == s
  {
    if s == [] then []
    else if s[0] == c then Without(s[1..], c)
    else [s[0]] + Without(s[1..], c)
  }

  lemma {:induction false} WithoutDistinct(s: seq<Coord>, c: Coord)
    ensures Distinct(s) ==> Distinct(Without(s, c))
    ensures Distinct(s) && c in s ==> |Without(s, c)| == |s| - 1
  {
    if s != [] && Distinct(s) {
      assert Distinct(s[1..]);
      WithoutDistinct(s[1..], c);
      if s[0] != c {
        assert s[0] !in s[1..];
      }
    }
  }

  lemma {:induction false} DistinctCardinality(s: seq<Coord>)
    requires Distinct(s)
    ensures |set c | c in s| == |s|
  {
    if s != [] {
      assert Distinct(s[1..]);
      DistinctCardinality(s[1..]);
      assert (set c | c in s) == (set c | c in s[1..]) + {s[0]};
      assert s[0] !in s[1..];
    }
  }

  /** The contents of one JavaScript Map keyed by coordinates. */
  datatype Table<V> = Table(entries: map<Coord, V>, order: seq<Coord>)
  {
    /** The insertion order lists every key exactly once. */
    ghost predicate Valid() {
      Distinct(order) && forall c :: c in entries <==> c in order
    }

    /** Map.prototype.get: the stored value, or undefined. */
    function Get(c: Coord): Option<V> {
      if c in entries then Some(entries[c]) else None
    }

    /** Map.prototype.size. */
    function Size(): nat {
      |order|
    }

    /** Map.prototype.set: overwrite in place, or append a new key. */
    function Put(c: Coord, v: V): (r: Table<V>)
      ensures r.Get(c) == Some(v)
      ensures forall d :: d != c ==> r.Get(d) == Get(d)
      ensures Valid() ==> r.Valid()
      ensures r.Size() == if c in entries then Size() else Size() + 1
    {
      if c in entries then Table(entries[c := v], order) else Table(entries[c := v], order + [c])
    }

    /** Map.prototype.delete: a no-op when the key is absent. */
    function Remove(c: Coord): (r: Table<V>)
      ensures r.Get(c) == None
      ensures forall d :: d != c ==> r.Get(d) == Get(d)
      ensures Valid() ==> r.Valid()
      ensures Valid() ==> r.Size() == if c in entries then Size() - 1 else Size()
      ensures Valid() && c !in entries ==> r == this
    {
      WithoutDistinct(order, c);
      Table(entries - {c}, Without(order, c))
    }
  }

  function EmptyTable<V>(): (t: Table<V>)
    ensures t.Valid() && t.Size() == 0
    ensures forall c :: t.Get(c) == None
  {
    Table(map[], [])
  }

  /** The size counts the tracked coordinates. */
  lemma SizeCountsEntries<V>(t: Table<V>)
    requires t.Valid()
    ensures t.Size() == |t.entries|
  {
    DistinctCardinality(t.order);
    assert t.entries.Keys == set c | c in t.order;
  }

  /** A Map keyed by the strings `${x},${y}`, as the grid and the engines use it. */
  class Grid<V> {
    var dict: Table<V>

    ghost predicate Valid()
      reads this
    {
      dict.Valid()
    }

    constructor ()
      ensures Valid() && dict == EmptyTable()
    {
      dict := EmptyTable();
    }

    method Get(x: int, y: int) returns (r: Option<V>)
      requires Valid()
      ensures r.Some? <==> (x, y) in dict.entries
      ensures r.Some? ==> r.value == dict.entries[(x, y)]
    {
      r := dict.Get((x, y));
    }

    method Set(x: int, y: int, a: V)
      requires Valid()
      modifies this
      ensures Valid() && dict == old(dict).Put((x, y), a)
    {
      dict := dict.Put((x, y), a);
    }

    method Delete(x: int, y: int)
      requires Valid()
      modifies this
      ensures Valid() && dict == old(dict).Remove((x, y))
    {
      dict := dict.Remove((x, y));
    }

    method Has(x: int, y: int) returns (b: bool)
      requires Valid()
      ensures b <==> dict.Get((x, y)).Some?
    {
      b := (x, y) in dict.entries;
    }

    method Size() returns (n: nat)
      requires Valid()
      ensures n == |dict.entries|
    {
      n := |dict.order|;
      SizeCountsEntries(dict);
    }

    /** A new grid over a new Map with the same entries in the same order. */
    method Copy() returns (g: Grid<V>)
      requires Valid()
      ensures fresh(g) && g.Valid() && g.dict == dict
    {
      g := new Grid();
      g.dict := dict;
    }

    /** Map.prototype.entries: each stored key string with its value, in insertion order. */
    method KeyedEntries() returns (es: seq<(string, V)>)
      requires Valid()
      ensures |es| == |dict.order|
      ensures forall i :: 0 <= i < |es| ==> es[i] == (EncodeKey(dict.order[i]), dict.entries[dict.order[i]])
    {
      var t := dict;
      es := seq(|t.order|, i requires 0 <= i < |t.order| && t.Valid() => (EncodeKey(t.order[i]), t.entries[t.order[i]]));
    }

    /**
     * The grid's iterator (and `entries`): every tracked coordinate exactly
     * once, as (x, y, value), with the key string decoded back into numbers,
     * in insertion order.
     */
    method Entries() returns (es: seq<(int, int, V)>)
      requires Valid()
      ensures |es| == |dict.order|
      ensures forall i :: 0 <= i < |es| ==> es[i] == (dict.order[i].0, dict.order[i].1, dict.entries[dict.order[i]])
      ensures forall c :: c in dict.entries <==> c in CoordsOf(es)
      ensures Distinct(CoordsOf(es))
    {
      var raw := KeyedEntries();
      es := [];
      var i := 0;
      while i < |raw|
        invariant 0 <= i <= |raw|
        invariant |es| == i
        invariant forall j :: 0 <= j < i ==> es[j] == (dict.order[j].0, dict.order[j].1, dict.entries[dict.order[j]])
      {
        var (key, v) := raw[i];
        var x, y := ParseKey(key, dict.order[i]);
        es := es + [(x, y, v)];
        i := i + 1;
      }
      assert CoordsOf(es) == dict.order;
    }
  }

  /** The coordinates an iteration yields, in the order it yields them. */
  function CoordsOf<V>(es: seq<(int, int, V)>): (cs: seq<Coord>)
    ensures |cs| == |es|
    ensures forall i :: 0 <= i < |es| ==> cs[i] == (es[i].0, es[i].1)
  {
    seq(|es|, i requires 0 <= i < |es| => (es[i].0, es[i].1))
  }

  /**
   * Mutating a copy leaves the original alone, and mutating the original
   * leaves the copy alone: `mid` is the original's contents between the
   * write to the copy and the write to the original.
   */
  method CopyIsIndependent<V>(g: Grid<V>, x: int, y: int, a: V) returns (h: Grid<V>, ghost mid: Table<V>)
    requires g.Valid()
    modifies g
    ensures fresh(h) && h.Valid() && g.Valid()
    ensures mid == old(g.dict)
    ensures h.dict == old(g.dict).Put((x, y), a)
    ensures g.dict == old(g.dict).Remove((x, y))
  {
    h := g.Copy();
    h.Set(x, y, a);
    mid := g.dict;
    g.Delete(x, y);
  }
}
