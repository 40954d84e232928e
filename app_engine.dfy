/**
 * The engine of src/app.js: class `Model` over raw Maps keyed by `${x},${y}`
 * holding true for a live cell and false for a dead but tracked one, and the
 * clear/reset decision of class `Controller`.
 */
module AppEngine {
  import opened GridKeys
  import opened SparseGrid
  import opened Life

  /** `setState(pattern)`: a new state seeded from the pattern, copied into the baseline; the counter is kept. */
  function AfterSetState(e: Engine<bool>, pattern: seq<Coord>): Engine<bool> {
    var s := Seeded(EmptyTable(), pattern, true, false);
    Engine(s, s, e.counter)
  }

  /** `reset`: the baseline becomes the state again and the counter is zeroed. */
  function AfterReset(e: Engine<bool>): (r: Engine<bool>)
    ensures r.counter == 0 && r.state == r.baseline == e.baseline
  {
    Engine(e.baseline, e.baseline, 0)
  }

  /** `clear`: both Maps empty, counter zero; clearing again changes nothing. */
  function AfterClear(e: Engine<bool>): (r: Engine<bool>)
    ensures r.state.Valid() && r.baseline.Valid()
    ensures r.state.Size() == 0 && r.baseline.Size() == 0 && r.counter == 0
  {
    Engine(EmptyTable(), EmptyTable(), 0)
  }

  /** A second clear gives the same engine as the first. */
  lemma ClearIsIdempotent(e: Engine<bool>)
    ensures AfterClear(AfterClear(e)) == AfterClear(e)
  {
  }

  /** The clear/reset control: reset after some updates, clear otherwise. */
  function AfterClearReset(e: Engine<bool>): Engine<bool> {
    if e.counter > 0 then AfterReset(e) else AfterClear(e)
  }

  /**
   * A toggle, then any number of updates, then a reset gives back exactly
   * the engine the toggle produced: its state, its baseline and counter 0.
   */
  lemma ResetUndoesUpdates(e: Engine<bool>, c: Coord, n: nat)
    requires e.state.Valid()
    ensures
      var t := AfterToggle(e, c, true, false);
      t.state.Valid() && AfterReset(AfterUpdates(t, n, true, false)) == t
  {
    ToggledFlips(e.state, c, true, false);
  }

  /** The clear/reset control always lands on a state equal to its baseline, with counter 0. */
  lemma ClearResetRealigns(e: Engine<bool>)
    ensures AfterClearReset(e).state == AfterClearReset(e).baseline
    ensures AfterClearReset(e).counter == 0
    ensures e.counter > 0 ==> AfterClearReset(e).state == e.baseline
    ensures e.counter == 0 ==> AfterClearReset(e).state.Valid() && AfterClearReset(e).state.Size() == 0
  {
  }

  class Model {
    var state: Grid<bool>
    var state0: Grid<bool>
    var count: nat

    /** The state and the baseline are distinct Maps. */
    ghost predicate Valid()
      reads this, state, state0
    {
      state != state0 && state.Valid() && state0.Valid()
    }

    ghost function Contents(): Engine<bool>
      reads this, state, state0
    {
      Engine(state.dict, state0.dict, count)
    }

    constructor ()
      ensures Valid() && fresh(state) && fresh(state0)
      ensures Contents() == Engine(EmptyTable(), EmptyTable(), 0)
    {
      state := new Grid<bool>();
      state0 := new Grid<bool>();
      count := 0;
    }

    /** `_get` */
    method Get(s: Grid<bool>, x: int, y: int) returns (r: Option<bool>)
      requires s.Valid()
      ensures r.Some? <==> (x, y) in s.dict.entries
      ensures r.Some? ==> r.value == s.dict.entries[(x, y)]
    {
      r := s.Get(x, y);
    }

    /** `_set` */
    method Set(s: Grid<bool>, x: int, y: int, a: bool)
      requires s.Valid()
      modifies s
      ensures s.Valid() && s.dict == old(s.dict).Put((x, y), a)
    {
      s.Set(x, y, a);
    }

    /** `_delete` */
    method Delete(s: Grid<bool>, x: int, y: int)
      requires s.Valid()
      modifies s
      ensures s.Valid() && s.dict == old(s.dict).Remove((x, y))
    {
      s.Delete(x, y);
    }

    /** `_has` */
    method Has(s: Grid<bool>, x: int, y: int) returns (b: bool)
      requires s.Valid()
      ensures b <==> (x, y) in s.dict.entries
    {
      b := s.Has(x, y);
    }

    /** `_activate`: set the cell to true and add each untracked neighbour as false. */
    method Activate(s: Grid<bool>, x: int, y: int)
      requires s.Valid()
      modifies s
      ensures s.Valid() && s.dict == Activated(old(s.dict), (x, y), true, false)
    {
      Set(s, x, y, true);
      var ns := Neighbors(x, y);
      for i := 0 to |ns|
        invariant s.Valid()
        invariant s.dict == AddAbsent(old(s.dict).Put((x, y), true), ns[..i], false)
      {
        AddAbsentSnoc(old(s.dict).Put((x, y), true), ns, i, false);
        var (x2, y2) := ns[i];
        var present := Has(s, x2, y2);
        if !present {
          Set(s, x2, y2, false);
        }
      }
      assert ns[..|ns|] == ns;
    }

    /** `_kill`: set the cell to false, keeping it tracked. */
    method Kill(s: Grid<bool>, x: int, y: int)
      requires s.Valid()
      modifies s
      ensures s.Valid() && s.dict == old(s.dict).Put((x, y), false)
    {
      Set(s, x, y, false);
    }

    /** `getState` */
    method GetState() returns (s: Grid<bool>)
      ensures s == state
    {
      s := state;
    }

    /** `getCount` */
    method GetCount() returns (n: nat)
      ensures n == count
    {
      n := count;
    }

    /**
     * `_setState`: the given Map becomes the state, a new copy of it the
     * baseline, and the counter is zeroed. The given Map may be the old baseline.
     */
    method SetStateTo(s: Grid<bool>)
      requires s.Valid()
      modifies this
      ensures Valid() && state == s && fresh(state0)
      ensures Contents() == Engine(s.dict, s.dict, 0)
    {
      state := s;
      state0 := s.Copy();
      count := 0;
    }

    /** The first half of `setState`: a new Map with every pattern cell activated in turn. */
    method Seed(pattern: seq<Coord>) returns (s: Grid<bool>)
      ensures fresh(s) && s.Valid()
      ensures s.dict == Seeded(EmptyTable(), pattern, true, false)
    {
      s := new Grid<bool>();
      for i := 0 to |pattern|
        invariant fresh(s) && s.Valid()
        invariant s.dict == Seeded(EmptyTable(), pattern[..i], true, false)
      {
        SeededSnoc(EmptyTable(), pattern, i, true, false);
        var (x, y) := pattern[i];
        Activate(s, x, y);
      }
      assert pattern[..|pattern|] == pattern;
    }

    /**
     * `setState(pattern)`: the seeded Map becomes the state and a new copy
     * of it the baseline; the counter is kept.
     */
    method SetState(pattern: seq<Coord>)
      requires Valid()
      modifies this
      ensures Valid() && fresh(state) && fresh(state0)
      ensures Contents() == AfterSetState(old(Contents()), pattern)
    {
      var s := Seed(pattern);
      state := s;
      state0 := s.Copy();
      assert Contents() == Engine(s.dict, s.dict, old(count));
    }

    /**
     * `toggle`: kill a live cell, otherwise (dead or untracked) activate it,
     * in place; then a new copy becomes the baseline and the counter is zeroed.
     */
    method Toggle(x: int, y: int) returns (s: Grid<bool>)
      requires Valid()
      modifies this, state
      ensures Valid() && Contents() == AfterToggle(old(Contents()), (x, y), true, false)
      ensures s == state && state == old(state) && fresh(state0)
    {
      var isAlive := Get(state, x, y);
      if isAlive == Some(true) {
        Kill(state, x, y);
      } else {
        Activate(state, x, y);
      }
      state0 := state.Copy();
      count := 0;
      s := state;
    }

    /** The rule branch of the `update` loop body, writing to `s` for the cell (x, y). */
    method ApplyRule(s: Grid<bool>, x: int, y: int, isAlive: bool, n: nat)
      requires s.Valid()
      modifies s
      ensures s.Valid() && s.dict == Apply(old(s.dict), (x, y), isAlive, n, true, false)
    {
      if n == 0 {
        Delete(s, x, y);
      } else if isAlive && (n < 2 || n > 3) {
        Kill(s, x, y);
      } else if !isAlive && n == 3 {
        Activate(s, x, y);
      }
    }

    /**
     * The loop of `update`: counts are read from the state, which is not
     * written; every write goes to a new copy of it.
     */
    method NextState() returns (newState: Grid<bool>)
      requires Valid()
      ensures fresh(newState) && newState.Valid()
      ensures newState.dict == NextGeneration(state.dict, true, false)
    {
      ghost var cur := state.dict;
      newState := state.Copy();
      var cells := state.KeyedEntries();
      for i := 0 to |cells|
        invariant fresh(newState) && newState.Valid()
        invariant newState.dict == StepPrefix(cur, cur.order[..i], true, false)
      {
        ghost var before := newState.dict;
        var (xy, isAlive) := cells[i];
        var x, y := ParseKey(xy, cur.order[i]);
        var n := AliveNeighbors(state.dict, (x, y), true);
        ApplyRule(newState, x, y, isAlive, n);
        assert newState.dict == Visit(cur, before, (x, y), true, false);
        StepPrefixSnoc(cur, cur.order, i, true, false);
      }
      assert cur.order[..|cells|] == cur.order;
    }

    /** `update`: the next state replaces the state and the counter goes up by one. */
    method Update() returns (s: Grid<bool>)
      requires Valid()
      modifies this
      ensures Valid() && s == state && fresh(state) && state0 == old(state0)
      ensures Contents() == AfterUpdate(old(Contents()), true, false)
    {
      var newState := NextState();
      count := count + 1;
      state := newState;
      s := state;
    }

    /** `reset`: the baseline Map itself becomes the state, and a new copy of it the baseline. */
    method Reset()
      requires Valid()
      modifies this
      ensures Valid() && Contents() == AfterReset(old(Contents()))
      ensures state == old(state0) && fresh(state0)
    {
      SetStateTo(state0);
    }

    /** `clear`: a new empty Map becomes the state, and a new copy of it the baseline. */
    method Clear()
      requires Valid()
      modifies this
      ensures Valid() && Contents() == AfterClear(old(Contents()))
      ensures fresh(state) && fresh(state0)
    {
      var empty := new Grid<bool>();
      SetStateTo(empty);
    }
  }

  /** The five cells the controller loads at start-up (src/app.js:17-23). */
  const InitialPattern: seq<Coord> := [(-2, -1), (-1, 0), (0, -2), (0, -1), (0, 0)]

  class Controller {
    const model: Model

    /** Loads the initial pattern into the model; binding the view is not modelled. */
    constructor (m: Model)
      requires m.Valid()
      modifies m
      ensures model == m && m.Valid()
      ensures m.Contents() == AfterSetState(old(m.Contents()), InitialPattern)
    {
      model := m;
      new;
      m.SetState(InitialPattern);
    }

    /** `handleClearReset`: reset when some updates have run since the baseline, clear otherwise. */
    method HandleClearReset()
      requires model.Valid()
      modifies model
      ensures model.Valid() && model.Contents() == AfterClearReset(old(model.Contents()))
    {
      var n := model.GetCount();
      if n > 0 {
        model.Reset();
      } else {
        model.Clear();
      }
    }
  }
}
