# Game of Life engine: a verified model

This project models the simulation core of an infinite-plane Conway's Game of
Life (rule B3/S23) written in JavaScript, and proves properties of it. The
repository holds the engine three times:

- `src/Grid.js` is a sparse grid over a JavaScript `Map` keyed by the string
  `` `${x},${y}` ``, and `src/model.js:1-48` is an identical copy of it.
- `src/model.js` has a `Model` engine over two such grids. It stores 1 for a
  live cell and 0 for a dead cell that is still tracked.
- `src/app.js:332-467` has a second `Model` engine over raw Maps with the same
  keys. It stores `true`/`false` and adds `setState`, `reset` and `clear`.
  The controller's clear-or-reset decision (`src/app.js:54-64`) sits on top
  of it.

Modules, one per file:

- `GridKeys` (`grid_keys.dfy`) holds the string key `${x},${y}` and its
  decoding by `split(",")` and `parseInt`. The round trip is proved, and so
  the rest of the model may key every Map by the integer pair itself.
- `SparseGrid` (`sparse_grid.dfy`) has two parts.
  - The value `Table` holds a Map's contents: its entries, plus its keys in
    insertion order, which is the order a Map iterates in.
  - The class `Grid` wraps one mutable Map. It models `src/Grid.js`, its copy
    in `src/model.js`, and the raw Maps of `src/app.js`.
- `Life` (`life.dfy`) holds the rules both engines share, as functions over
  `Table`: neighbours, activation, one update pass, toggling, seeding, and
  the engine's state machine (state, baseline, counter). It is generic in
  the two markers a cell may hold: 1/0 for `src/model.js`, `true`/`false`
  for `src/app.js`.
- `GridEngine` (`grid_engine.dfy`) is the class `Model` of `src/model.js`.
- `AppEngine` (`app_engine.dfy`) is the class `Model` of `src/app.js` and
  the controller's clear/reset decision.

Each engine method is proved against a function over `Life.Engine` or
`Table`. Its postcondition says that the engine's contents (`Contents()`)
after the call equal that function applied to the contents before: a `Life`
function, an `AppEngine` function built from them, or `Table.Put`. The `Life`
lemmas then state what those functions mean:

- after `update` the live cells are exactly the tracked cells the B3/S23
  rule keeps or makes alive;
- a tracked cell with no live neighbour survives `update` only as a dead
  neighbour of a birth that re-adds it;
- a toggle flips exactly one cell;
- seeding makes exactly the pattern alive;
- a reset after any number of updates restores the state the last toggle
  produced.

The update iterates the Map's keys in their insertion order, as the source
does. The set of tracked dead cells after a step depends on that order. A
tracked dead cell with no live neighbour is deleted when its turn comes,
even if a birth earlier in the same pass has just made it a neighbour of a
live cell.

`Life.MissedBirth` proves this on an example. The start is a live column
x = 2, y = -2..2, with every neighbour of it tracked, and then (0,0) tracked
dead, as toggling it on and off again leaves it. The first update gives
birth at (1,-1), (1,0) and (1,1), and then
deletes (0,0), which had no live neighbour before the step. After the step
(0,0) has three live neighbours, but it is untracked and the second update
leaves it dead. The model keeps this behaviour of the source.

## Model

| member | source | states |
|---|---|---|
| GridKeys.IntToString | src/Grid.js:7 | an integer prints as a non-empty string with a leading '-' exactly when it is negative, and never contains ',' |
| GridKeys.ParseIntRoundTrip | src/Grid.js:38 | parseInt of a printed integer gives back that integer, negatives included |
| GridKeys.KeyRoundTrip | src/Grid.js:38 | splitting the key `${x},${y}` written at src/Grid.js:7 on "," and parsing each part gives back (x, y) for all integers |
| GridKeys.EncodeKeyInjective | src/Grid.js:7 | distinct coordinates get distinct keys, so a Map keyed by the strings is a Map keyed by the pairs |
| GridKeys.ParseKey | src/app.js:435 | decoding a key the grid wrote yields the coordinate it was written from |
| SparseGrid.Table.Put | src/Grid.js:9-11 | after `set` the key holds the new value, every other key is unchanged, the key order stays duplicate-free, and the size grows by one exactly when the key was new |
| SparseGrid.Table.Remove | src/Grid.js:12-14 | after `delete` the key is absent, every other key is unchanged, the size drops by one exactly when the key was present, and deleting an absent key changes nothing |
| SparseGrid.EmptyTable | src/Grid.js:2-4 | a new Map is well formed, has size 0, and every lookup returns undefined |
| SparseGrid.SizeCountsEntries | src/Grid.js:20-22 | the Map's size equals the number of tracked coordinates |
| SparseGrid.Grid.constructor | src/Grid.js:2-4 | a new grid wraps an empty Map |
| SparseGrid.Grid.Get | src/Grid.js:6-8 | `get` returns a value exactly when the coordinate is tracked, and that value is the stored one |
| SparseGrid.Grid.Set | src/Grid.js:9-11 | `set` updates the wrapped Map as Map.set does and keeps it well formed |
| SparseGrid.Grid.Delete | src/Grid.js:12-14 | `delete` updates the wrapped Map as Map.delete does and keeps it well formed |
| SparseGrid.Grid.Has | src/Grid.js:16-18 | `has` holds exactly when `get` finds a stored value |
| SparseGrid.Grid.Size | src/Grid.js:20-22 | `size` is the number of tracked coordinates |
| SparseGrid.Grid.Copy | src/Grid.js:24-28 | `copy` returns a new grid over a new Map with the same entries in the same order |
| SparseGrid.CopyIsIndependent | src/Grid.js:24-28 | after a copy, a write to the copy leaves the original's contents as they were (the snapshot `mid`), and a write to the original then leaves the copy alone |
| SparseGrid.Grid.KeyedEntries | src/app.js:434 | the Map's entries are each key string with its value, in insertion order |
| SparseGrid.Grid.Entries | src/Grid.js:30-47 | iteration yields every tracked coordinate exactly once as (x, y, v) with v its stored value, in insertion order |
| Life.NeighborsAreMoore | src/model.js:57-67 | `_getNeighbors` returns 8 distinct coordinates, and they are exactly the cells within 1 on both axes other than the cell itself |
| Life.AliveNeighborsCountsMoore | src/app.js:438-441 | the update's neighbour count is the number of live Moore neighbours, at most 8 |
| Life.AddAbsent | src/model.js:74-78 | the neighbour loop of `_activate` tracks every listed neighbour, keeps every existing value, and stores new neighbours as dead |
| Life.Activated | src/model.js:69-79 | `_activate` makes the cell live, tracks all 8 neighbours, changes no value that was present, and adds only dead neighbours |
| Life.NextGeneration | src/model.js:99-119 | one pass of the update over the Map's order yields a well-formed Map |
| Life.VisitEffect | src/model.js:110-118 | one visit leaves the cell alive exactly as B3/S23 says, tracked exactly when it has a live neighbour, leaves every other entry alone, and adds only dead neighbours of a birth |
| Life.NextGenerationAlive | src/model.js:103-118 | after `update` a cell is alive exactly when it was tracked and either alive with 2 or 3 live neighbours or dead with exactly 3 |
| Life.NextGenerationTracked | src/model.js:110-118 | after `update` a tracked cell with live neighbours stays tracked, and any tracked cell either had live neighbours or is a dead neighbour of a birth; so a cell with no live neighbours is evicted unless a birth re-adds it |
| Life.AliveNeighborsUnfold | src/model.js:105-108 | the neighbour count is the number of live cells among the eight neighbours (x±1, y±1), one term per neighbour |
| Life.LastVisitedEvicted | src/model.js:110-111 | the key visited last is absent after `update` when it had no live neighbour before it, whatever earlier births added |
| Life.MissedBirth | src/model.js:103-118 | from a state that tracks every neighbour of every live cell, `update` can delete a dead cell that its own births surround with three live neighbours, and the next `update` then leaves that cell dead |
| Life.NextGenerationMarkers | src/model.js:110-118 | `update` stores only the two markers when it starts from a state that does |
| Life.ToggledFlips | src/model.js:89-94 | `toggle` flips the cell's liveness, treats an absent cell as dead, keeps the cell tracked, changes no other cell's liveness, and tracks all neighbours when it activates |
| Life.ToggledMarkers | src/model.js:89-94 | `toggle` stores only the two markers when the state does |
| Life.Seeded | src/app.js:401-403 | activating each pattern cell in turn keeps the Map well formed |
| Life.ActivatedAlive | src/app.js:367-377 | activation makes its own cell live and no other |
| Life.SeededFromEmpty | src/app.js:398-403 | seeding an empty Map makes exactly the pattern cells alive, tracks exactly the pattern cells and their neighbours, and stores only the two markers |
| Life.AfterUpdates | src/app.js:454-455 | any number of updates adds exactly that number to the counter and never changes the baseline |
| GridEngine.NeighborSumCountsLive | src/model.js:105-108 | on a grid holding only 0 and 1, summing the truthy neighbour values gives the number of live neighbours, at most 8 |
| GridEngine.Model.constructor | src/model.js:51-55 | a new engine has empty, distinct state and starting-state grids and counter 0 |
| GridEngine.Model.Activate | src/model.js:69-79 | `_activate` changes the grid exactly as `Life.Activated` with markers 1 and 0 |
| GridEngine.Model.Kill | src/model.js:81-83 | `_kill` sets only that cell to 0 and keeps it tracked |
| GridEngine.Model.Toggle | src/model.js:89-97 | `toggle` changes the state in place as `Life.Toggled`, makes the starting state a new copy of it, and zeroes the counter |
| GridEngine.Model.ApplyRule | src/model.js:110-118 | the rule branch deletes a cell with no live neighbours, kills a live cell with fewer than 2 or more than 3, activates a dead cell with exactly 3, and otherwise leaves the copied entry |
| GridEngine.Model.NextState | src/model.js:100-119 | the update loop reads counts from the unchanged state and builds a new grid equal to `Life.NextGeneration` of it |
| GridEngine.Model.Update | src/model.js:99-124 | `update` replaces the state with the next generation, adds 1 to the counter, and leaves the starting state untouched |
| AppEngine.AfterReset | src/app.js:460-462 | `reset` makes the state equal to the baseline, keeps the baseline's contents, and zeroes the counter |
| AppEngine.AfterClear | src/app.js:464-466 | `clear` leaves state and baseline empty and the counter 0 |
| AppEngine.ClearIsIdempotent | src/app.js:464-466 | a second `clear` gives the same engine as the first |
| AppEngine.ResetUndoesUpdates | src/app.js:414-462 | a toggle, then any number of updates, then a reset gives back exactly the engine the toggle produced, with counter 0 |
| AppEngine.ClearResetRealigns | src/app.js:54-64 | the clear/reset control leaves the state equal to the baseline with counter 0: the old baseline when updates have run, an empty Map otherwise |
| AppEngine.Model.constructor | src/app.js:333-337 | a new engine has empty, distinct state and baseline Maps and count 0 |
| AppEngine.Model.Get | src/app.js:339-341 | `_get` returns a value exactly when the coordinate is tracked, and that value is the stored one |
| AppEngine.Model.Set | src/app.js:343-345 | `_set` updates the Map as Map.set does |
| AppEngine.Model.Delete | src/app.js:347-349 | `_delete` updates the Map as Map.delete does |
| AppEngine.Model.Has | src/app.js:351-353 | `_has` holds exactly when the coordinate is tracked |
| AppEngine.Model.Activate | src/app.js:367-377 | `_activate` changes the Map exactly as `Life.Activated` with markers true and false |
| AppEngine.Model.Kill | src/app.js:379-381 | `_kill` sets only that cell to false and keeps it tracked |
| AppEngine.Model.GetState | src/app.js:387-389 | `getState` returns the state Map itself |
| AppEngine.Model.GetCount | src/app.js:410-412 | `getCount` returns the counter |
| AppEngine.Model.SetStateTo | src/app.js:391-396 | `_setState` installs the given Map as the state, a new copy of it as the baseline, and zeroes the counter |
| AppEngine.Model.Seed | src/app.js:399-403 | the loop of `setState` builds a new Map equal to `Life.Seeded` of the pattern over an empty Map |
| AppEngine.Model.SetState | src/app.js:398-408 | `setState` makes the seeded Map the state and a new copy of it the baseline, keeping the counter |
| AppEngine.Model.Toggle | src/app.js:414-428 | `toggle` changes the state in place as `Life.Toggled`, makes the baseline a new copy, zeroes the counter, and returns the state |
| AppEngine.Model.ApplyRule | src/app.js:443-451 | the rule branch deletes a cell with no live neighbours, kills a live cell with fewer than 2 or more than 3, activates a dead cell with exactly 3, and otherwise leaves the copied entry |
| AppEngine.Model.NextState | src/app.js:431-452 | the update loop decodes each key, reads counts from the unchanged state, and builds a new Map equal to `Life.NextGeneration` of it |
| AppEngine.Model.Update | src/app.js:430-458 | `update` replaces the state with the next generation, adds 1 to the counter, leaves the baseline untouched, and returns the new state |
| AppEngine.Model.Reset | src/app.js:460-462 | `reset` installs the baseline Map itself as the state and a new copy of it as the baseline, with counter 0 |
| AppEngine.Model.Clear | src/app.js:464-466 | `clear` installs a new empty Map as state and a copy as baseline, with counter 0 |
| AppEngine.Controller.constructor | src/app.js:17-25 | the controller loads the five-cell initial pattern into the model with `setState` |
| AppEngine.Controller.HandleClearReset | src/app.js:54-64 | the control calls `reset` when the counter is positive and `clear` otherwise |

## Left out

- Rendering and observer callbacks are left out, because they only draw and the engine ignores them. This covers `this.render(...)` in `src/app.js`, `bindOnStateChanged`, `bindGameStateUpdated`, and the render call in `src/model.js:123`.
- The view, canvas drawing, mouse handling and floating-point geometry of `src/view.js` and `src/app.js:88-330` are left out, because they are user interface, not engine logic.
- Controller timers (`setInterval`/`clearInterval`), the pause flag and the view calls in `src/app.js:1-74` are left out, because they are scheduling and display. Only the initial pattern load and `handleClearReset` are modelled.
- The Map iterator is left out as a lazy object. Iteration is modelled as the sequence of entries in insertion order, taken at the start, and `update` never writes the Map it iterates.
- General `parseInt` and JavaScript number formatting are left out, because only keys the grid itself wrote are ever decoded. Keys are decimal integers; fractions, exponents and integers beyond 2^53 are outside the model.
- GridKeys.ParseKey: it requires that the key was written by the grid, rather than modelling `parseInt` on arbitrary strings, because no other key reaches it.
- AppEngine.Model.SetState: the counter is kept. Loading a new pattern might be expected to restart the generation count, but `src/app.js:398-408` never assigns `_count`, and the model follows the code.
- Life.NextGenerationTracked: the strict frontier invariant (every tracked dead cell has a live neighbour, every live cell's neighbours are tracked) is not claimed, because `update` does not maintain it; Life.MissedBirth shows an input.
