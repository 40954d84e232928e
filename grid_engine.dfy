/**
 * The engine of src/model.js: class `Model` over two `Grid`s holding 1 for a
 * live cell and 0 for a dead but tracked one.
 */
module GridEngine {
  import opened GridKeys
  import opened SparseGrid
  import opened Life

  /**
   * The neighbour count of `update` as written: the neighbours' values,
   * undefined and 0 filtered out, summed.
   */
  function TruthySum(t: Table<int>, ns: seq<Coord>): int {
    if ns == [] then 0
    else
      (match t.Get(ns[0]) case Some(v) => (if v != 0 then v else 0) case None => 0)
      + TruthySum(t, ns[1..])
  }

  function NeighborSum(t: Table<int>, x: int, y: int): int {
    TruthySum(t, Neighbors(x, y))
  }

  lemma {:induction false} TruthySumCountsLive(t: Table<int>, ns: seq<Coord>)
    requires OnlyMarkers(t, 1, 0)
    ensures TruthySum(t, ns) == CountOn(t, ns, 1)
  {
    if ns != [] {
      TruthySumCountsLive(t, ns[1..]);
    }
  }

  /** On a grid holding only 0 and 1, the summed count is the number of live neighbours. */
  lemma NeighborSumCountsLive(t: Table<int>, x: int, y: int)
    requires OnlyMarkers(t, 1, 0)
    ensures NeighborSum(t, x, y) == AliveNeighbors(t, (x, y), 1)
    ensures NeighborSum(t, x, y) <= 8
  {
    TruthySumCountsLive(t, Neighbors(x, y));
  }

  class Model {
    var state: Grid<int>
    var startingState: Grid<int>
    var stateCounter: nat

    /** The two grids are distinct objects holding only 0 and 1. */
    ghost predicate Valid()
      reads this, state, startingState
    {
      && state != startingState
      && state.Valid() && startingState.Valid()
      && OnlyMarkers(state.dict, 1, 0) && OnlyMarkers(startingState.dict, 1, 0)
    }

    ghost function Contents(): Engine<int>
      reads this, state, startingState
    {
      Engine(state.dict, startingState.dict, stateCounter)
    }

    constructor ()
      ensures Valid() && fresh(state) && fresh(startingState)
      ensures Contents() == Engine(EmptyTable(), EmptyTable(), 0)
    {
      var start := new Grid<int>();
      var current := start.Copy();
      startingState := start;
      state := current;
      stateCounter := 0;
    }

    /** `_activate`: set the cell to 1 and add each untracked neighbour as 0. */
    method Activate(s: Grid<int>, x: int, y: int)
      requires s.Valid()
      modifies s
      ensures s.Valid() && s.dict == Activated(old(s.dict), (x, y), 1, 0)
    {
      s.Set(x, y, 1);
      var ns := Neighbors(x, y);
      for i := 0 to |ns|
        invariant s.Valid()
        invariant s.dict == AddAbsent(old(s.dict).Put((x, y), 1), ns[..i], 0)
      {
        AddAbsentSnoc(old(s.dict).Put((x, y), 1), ns, i, 0);
        var (x2, y2) := ns[i];
        var present := s.Has(x2, y2);
        if !present {
          s.Set(x2, y2, 0);
        }
      }
      assert ns[..|ns|] == ns;
    }

    /** `_kill`: set the cell to 0, keeping it tracked. */
    method Kill(s: Grid<int>, x: int, y: int)
      requires s.Valid()
      modifies s
      ensures s.Valid() && s.dict == old(s.dict).Put((x, y), 0)
    {
      s.Set(x, y, 0);
    }

    /**
     * `toggle`: kill a cell holding 1, otherwise activate it; then the
     * starting state becomes a new copy of the state and the counter is zeroed.
     */
    method Toggle(x: int, y: int)
      requires Valid()
      modifies this, state
      ensures Valid() && Contents() == AfterToggle(old(Contents()), (x, y), 1, 0)
      ensures state == old(state) && fresh(startingState)
    {
      ToggledMarkers(state.dict, (x, y), 1, 0);
      var v := state.Get(x, y);
      if v == Some(1) {
        Kill(state, x, y);
      } else {
        Activate(state, x, y);
      }
      startingState := state.Copy();
      stateCounter := 0;
    }

    /** The rule branch of the `update` loop body, writing to `s` for the cell (x, y). */
    method ApplyRule(s: Grid<int>, x: int, y: int, v: int, count: nat)
      requires s.Valid()
      modifies s
      ensures s.Valid() && s.dict == Apply(old(s.dict), (x, y), v, count, 1, 0)
    {
      if count == 0 {
        s.Delete(x, y);
      } else if v == 1 && (count < 2 || count > 3) {
        Kill(s, x, y);
      } else if v == 0 && count == 3 {
        Activate(s, x, y);
      }
    }

    /**
     * The loop of `update`: counts are read from the state, which is not
     * written; every write goes to a new copy of it.
     */
    method NextState() returns (newState: Grid<int>)
      requires Valid()
      ensures fresh(newState) && newState.Valid()
      ensures newState.dict == NextGeneration(state.dict, 1, 0)
    {
      ghost var cur := state.dict;
      newState := state.Copy();
      var cells := state.Entries();
      for i := 0 to |cells|
        invariant fresh(newState) && newState.Valid()
        invariant newState.dict == StepPrefix(cur, cur.order[..i], 1, 0)
      {
        ghost var before := newState.dict;
        var (x, y, v) := cells[i];
        assert (x, y) == cur.order[i] && v == cur.entries[(x, y)];
        NeighborSumCountsLive(cur, x, y);
        var count := NeighborSum(state.dict, x, y);
        ApplyRule(newState, x, y, v, count);
        assert newState.dict == Visit(cur, before, (x, y), 1, 0);
        StepPrefixSnoc(cur, cur.order, i, 1, 0);
      }
      assert cur.order[..|cells|] == cur.order;
    }

    /** `update`: the next state replaces the state and the counter goes up by one. */
    method Update()
      requires Valid()
      modifies this
      ensures Valid() && Contents() == AfterUpdate(old(Contents()), 1, 0)
      ensures fresh(state) && startingState == old(startingState)
    {
      var newState := NextState();
      NextGenerationMarkers(state.dict, 1, 0);
      state := newState;
      stateCounter := stateCounter + 1;
    }
  }
}
