# Formula cells with dynamic dependencies (`cells-map.js`)

This project models the engine behind "new-style" computed cells in the
menelaus web UI. `Cell.compute(formula)` builds a `FlexiFormulaCell`. Each
time that cell is evaluated, the formula reads other cells through an
accessor `getValue`, and the accessor records every cell read under the
cell's integer identity (`Cell.id`). After the evaluation the cell subscribes
to every new dependency and drops every stale one, so its set of sources is
whatever the last evaluation read. A lazy cell attaches to its sources only
while one of its own three slots (`changed`, `undefined`, `dependencies`)
has demand, and detaches when all demand is gone.

The model has six modules, one per concept:

- `Cells` (`cells.dfy`) is the base-cell interface the engine relies on.
  - A `Cell` has a `value`, where `None` stands for `undefined`, and a ghost
    log of the values it published.
  - `Slots` stands for the `dependencies` slots of all upstream cells.
    Subscribing hands out a fresh handle, `live` maps each held handle to its
    cell, and a ghost `log` records every subscribe and unsubscribe call.
- `Identity` (`identity.dfy`) models `Cell.id`: a closure counter that
  starts at 1, and the identity cached on each cell.
- `KeyOrder` (`key_order.dfy`) gives the order in which `for ... in` visits
  keys that are all cell identities: ascending numeric order.
  - `Ascending` is the order.
  - `AscendingKeys` is the loop that lists it.
- `ComputeFormula` (`compute_formula.dfy`) models `makeComputeFormula`.
  - A user formula is a step function. Given the values its accessor calls
    have returned so far, it says what the formula does next: read a cell
    (with `getValue` or `need`), return a value, or throw.
  - `Run` is the reference meaning of one wrapper call.
  - `ComputedFormula` is the closure with its shared `dependencies`
    accumulator. Its methods `GetValue`, `Need` and `Call` are proved
    against `Run`.
- `SourceDiff` (`source_diff.dfy`) states, as functions, what the two loops
  of `this.formula` produce.
  - `DropStale`: the first loop removes sources that are no longer
    dependencies.
  - `AddNew`: the second loop subscribes to new dependencies.
  - `Diff`: both loops run in `for ... in` order.
  - Lemmas prove what the diff guarantees: the sources end up keyed exactly
    by the dependencies, each stale source is unsubscribed once, each new one
    is subscribed once, unsubscriptions come first, and running the diff a
    second time changes nothing.
- `FlexiFormula` (`flexi_formula_cell.dfy`) is the `FlexiFormulaCell` class.
  - Its state is `currentSources`, `attached`, which stands for
    `effectiveFormula === formula`, and the `demand` record.
  - Its loops are proved against the `SourceDiff` functions.
  - `attachBack`, `detach`, `react`, the demand observer, `getSourceCells`,
    `Cell.compute` and `Cell.computeEager` are modelled as methods.
  - The class invariant `Valid` states three things. Every source is stored
    under its cell's identity and holds a live subscription on that cell. No
    two sources share a handle. A detached cell holds no source.

When the formula throws an error other than the `need` signal, the wrapper
rethrows it before it resets `dependencies` (cells-map.js:183-191), so the
accumulator keeps the partial map until the next call starts a new one. The
model follows that: see the last ensures of
`ComputeFormula.ComputedFormula.Call`.

## Model

| member | source | states |
|---|---|---|
| Identity.Allocate | deps/menelaus/priv/public/js/dev/cells-map.js:13-18 | a cell with a cached identity gets it back with nothing changed; otherwise it gets the counter, which is cached on it and then incremented; validity (identities at least 1, below the counter, never shared) is preserved |
| Identity.AllocateEachUnique | deps/menelaus/priv/public/js/dev/cells-map.js:11-19 | over any sequence of requests a cell always gets the same identity, two identities are equal exactly when the cells are, a cell asked for the first time gets an identity above every identity held before the sequence, and above every identity handed out earlier in the same sequence |
| Identity.AllocateEachIncreasing | deps/menelaus/priv/public/js/dev/cells-map.js:11-19 | within one sequence of requests, a cell asked for the first time gets an identity above the identity of every earlier request |
| Identity.IdAllocator.constructor | deps/menelaus/priv/public/js/dev/cells-map.js:12 | the counter starts at 1 and no identity is cached |
| Identity.IdAllocator.Id | deps/menelaus/priv/public/js/dev/cells-map.js:13-18 | the new counter, cache and returned identity are exactly what `Allocate` gives |
| KeyOrder.AscendingEnumerates | deps/menelaus/priv/public/js/dev/cells-map.js:34 | the `for ... in` order visits every key exactly once, in increasing order |
| KeyOrder.AscendingKeys | deps/menelaus/priv/public/js/dev/cells-map.js:44 | the loop lists the keys in the `for ... in` order |
| ComputeFormula.FirstReadWins | deps/menelaus/priv/public/js/dev/cells-map.js:160-166 | the accessor's map holds exactly the identities read, and under each one the cell of its first read; a later read never overwrites it |
| ComputeFormula.ComputedFormula.constructor | deps/menelaus/priv/public/js/dev/cells-map.js:156-158 | the closure wraps the given formula and shares the identity allocator; the `dependencies` accumulator starts unset |
| ComputeFormula.ComputedFormula.GetValue | deps/menelaus/priv/public/js/dev/cells-map.js:160-166 | returns the cell's value, allocates its identity and records the cell under it unless one is already recorded there |
| ComputeFormula.ComputedFormula.Need | deps/menelaus/priv/public/js/dev/cells-map.js:168-174 | as `GetValue`, and signals the abort exactly when the value is undefined, otherwise returns the value |
| ComputeFormula.ComputedFormula.Call | deps/menelaus/priv/public/js/dev/cells-map.js:178-193 | the wrapper returns what `Run` says and leaves the identities `Run` says; the accumulator is cleared on a normal return and left holding the partial map when an error is rethrown |
| ComputeFormula.RunFollowsFormula | deps/menelaus/priv/public/js/dev/cells-map.js:178-193 | an evaluation makes exactly the accessor calls the formula asks for, each reading the cell's current value under its identity; it ends with a value, the undefined result after an aborting `need`, or the formula's own error; it keeps every identity issued before it |
| ComputeFormula.NeedShortCircuits | deps/menelaus/priv/public/js/dev/cells-map.js:168-189 | a `need` of an undefined value is the last call and the result is undefined with no error; an error escapes only when the formula throws it, unchanged |
| ComputeFormula.DependenciesAreReads | deps/menelaus/priv/public/js/dev/cells-map.js:179-192 | the returned dependency map starts empty on each call; its keys are exactly the identities read, each under its own cell |
| ComputeFormula.RunAgain | deps/menelaus/priv/public/js/dev/cells-map.js:178-193 | evaluating again with the identities the first evaluation left gives the same value, dependencies and identities |
| SourceDiff.DropStaleSpec | deps/menelaus/priv/public/js/dev/cells-map.js:34-42 | the first loop deletes exactly the visited sources that are no longer dependencies, keeps the others untouched, unsubscribes each deleted source once with its stored cell and handle and makes no other call |
| SourceDiff.AddNewSources | deps/menelaus/priv/public/js/dev/cells-map.js:44-53 | the second loop keeps every existing source, adds one for each visited identity without a source holding the dependency's cell and a fresh handle, keeps handles distinct, and changes nothing when every identity already has a source |
| SourceDiff.AddNewHandles | deps/menelaus/priv/public/js/dev/cells-map.js:44-53 | the second loop's subscriptions get the handles `next`, `next + 1`, ... in visiting order |
| SourceDiff.AddNewSubscribes | deps/menelaus/priv/public/js/dev/cells-map.js:44-53 | each source the second loop adds was subscribed to with its own cell and handle |
| SourceDiff.DiffSources | deps/menelaus/priv/public/js/dev/cells-map.js:34-53 | after both loops the keys of `currentSources` are exactly the dependencies; surviving sources keep their `[cell, handle]` pair; new ones hold the dependency's cell and a fresh handle; no two share a handle |
| SourceDiff.DiffEvents | deps/menelaus/priv/public/js/dev/cells-map.js:34-53 | every dropped source is unsubscribed with its stored handle, every new one is subscribed, and each slot call belongs to such a source |
| SourceDiff.DiffOrder | deps/menelaus/priv/public/js/dev/cells-map.js:34-53 | the diff makes no slot call twice, and every unsubscription comes before the first subscription |
| SourceDiff.DiffUnchanged | deps/menelaus/priv/public/js/dev/cells-map.js:34-53 | when the sources are already keyed by the dependencies the diff changes nothing and makes no slot call |
| SourceDiff.DropAllSpec | deps/menelaus/priv/public/js/dev/cells-map.js:119-125 | with nothing kept, the loop deletes every source and unsubscribes each one exactly once with its stored handle, and makes no other call |
| SourceDiff.DropAllReleases | deps/menelaus/priv/public/js/dev/cells-map.js:119-125 | after `detach`'s loop the held subscriptions are exactly the earlier ones minus the sources' handles |
| SourceDiff.DiffKeepsOthers | deps/menelaus/priv/public/js/dev/cells-map.js:34-53 | the diff leaves every held subscription that is not one of the cell's own sources in place, with its cell |
| FlexiFormula.Update | deps/menelaus/priv/public/js/dev/cells-map.js:78 | `demand[name] = newDemand` sets the flag of the named slot to the new demand and leaves the other two flags as they were |
| FlexiFormula.HaveDemand | deps/menelaus/priv/public/js/dev/cells-map.js:84 | there is no demand exactly when all three slots last reported none |
| FlexiFormula.SetSources | deps/menelaus/priv/public/js/dev/cells-map.js:130-132 | always fails with "unsupported!" |
| FlexiFormula.SourceCellsSpec | deps/menelaus/priv/public/js/dev/cells-map.js:136-145 | the cells listed from the sources in identity order are one per source, are exactly the sources' cells, and contain no duplicates |
| FlexiFormula.SharedSlotsStayWired | deps/menelaus/priv/public/js/dev/cells-map.js:34-53 | another cell's sources stay stored with live subscriptions when a rewiring releases none of their handles and only hands out new ones |
| FlexiFormula.RewiredAfterRun | deps/menelaus/priv/public/js/dev/cells-map.js:29-32 | an evaluation keeps the identities valid, keeps every source stored under its cell's identity, and returns dependencies each keyed by its own cell's identity |
| FlexiFormula.FlexiFormulaCell.constructor | deps/menelaus/priv/public/js/dev/cells-map.js:23-66 | a new cell has no sources and no value, its demand flags are all false, and it starts attached exactly when eager and observes demand exactly when lazy |
| FlexiFormula.FlexiFormulaCell.NeedsRefresh | deps/menelaus/priv/public/js/dev/cells-map.js:93-101 | true when the cell has no value; false when the new value is a future; otherwise `isValuesDiffer(value, newValue)` |
| FlexiFormula.FlexiFormulaCell.Unlink | deps/menelaus/priv/public/js/dev/cells-map.js:38-40 | unsubscribes the stored handle, which is then no longer held, deletes the entry, hands out no handle, and keeps the invariant |
| FlexiFormula.FlexiFormulaCell.Link | deps/menelaus/priv/public/js/dev/cells-map.js:48-51 | subscribes to the cell under the next fresh handle, which is then held for that cell, stores `[cell, handle]` under its identity, and keeps the invariant |
| FlexiFormula.FlexiFormulaCell.DropVisiting | deps/menelaus/priv/public/js/dev/cells-map.js:34-42 | the first loop over the given keys leaves exactly the sources and slot calls `DropStale` gives, holds exactly the subscriptions those calls leave, and keeps the invariant |
| FlexiFormula.FlexiFormulaCell.DropSources | deps/menelaus/priv/public/js/dev/cells-map.js:34-42 | the first loop in `for ... in` order leaves exactly the sources and slot calls `DropStale` gives, and hands out no handle |
| FlexiFormula.FlexiFormulaCell.AddVisiting | deps/menelaus/priv/public/js/dev/cells-map.js:44-53 | the second loop over the given keys leaves exactly the sources and slot calls `AddNew` gives, holds exactly the subscriptions those calls leave, hands out one handle per subscription, and keeps the invariant |
| FlexiFormula.FlexiFormulaCell.AddSources | deps/menelaus/priv/public/js/dev/cells-map.js:44-53 | the second loop in `for ... in` order leaves exactly the sources and slot calls `AddNew` gives |
| FlexiFormula.FlexiFormulaCell.RunFormula | deps/menelaus/priv/public/js/dev/cells-map.js:29-56 | `this.formula`: when the wrapper throws, the error escapes and nothing is rewired; otherwise the sources, slot calls and held subscriptions are exactly what `Diff` against the new dependencies gives, and the value is returned; subscriptions that are not the cell's own are kept, and handles are never reused |
| FlexiFormula.FlexiFormulaCell.Recalculate | deps/menelaus/priv/public/js/dev/cells-map.js:59-63 | a detached cell publishes undefined; an attached one runs `this.formula` and publishes its value, or fails with its error and changes nothing |
| FlexiFormula.FlexiFormulaCell.AttachBack | deps/menelaus/priv/public/js/dev/cells-map.js:102-116 | changes nothing when already attached; otherwise it attaches, subscribes to exactly the dependencies read, and publishes the new value exactly when `NeedsRefresh` holds |
| FlexiFormula.FlexiFormulaCell.Detach | deps/menelaus/priv/public/js/dev/cells-map.js:117-129 | unsubscribes every source exactly once and makes no other call, releases exactly the sources' handles and keeps every other subscription, leaves no source, detaches, and publishes the unchanged value once more |
| FlexiFormula.FlexiFormulaCell.React | deps/menelaus/priv/public/js/dev/cells-map.js:83-91 | afterwards the cell is attached exactly when some slot has demand; without demand it detaches with `Detach`'s effects on sources, slot calls, subscriptions and value; with demand, an attached cell is left unchanged and a detached one attaches back with `AttachBack`'s effects, including its `NeedsRefresh` rule for publishing |
| FlexiFormula.FlexiFormulaCell.DemandChanged | deps/menelaus/priv/public/js/dev/cells-map.js:67-82 | on an eager cell nothing changes; on a lazy cell it records the slot's flag, the cell ends attached exactly when the OR of the three flags is true, and the sources, slot calls, subscriptions and value change as `React` states |
| FlexiFormula.FlexiFormulaCell.GetSourceCells | deps/menelaus/priv/public/js/dev/cells-map.js:136-145 | returns the cell of every source in identity order: one per source, exactly the sources' cells, no duplicates |
| FlexiFormula.Compute | deps/menelaus/priv/public/js/dev/cells-map.js:207-212 | a lazy cell around the formula, using the given `isValuesDiffer` and `isFuture`: detached, observing demand, all three demand flags false, no sources, no value and nothing published |
| FlexiFormula.ComputeEager | deps/menelaus/priv/public/js/dev/cells-map.js:214-219 | an attached cell, using the given `isValuesDiffer` and `isFuture`, recalculated once. On a normal return it holds and has published the formula's value, is subscribed to exactly its dependencies, and holds exactly the subscriptions those calls leave. On the formula's error it holds nothing and makes no slot call. Either way every earlier subscription is kept and handles are never reused |

## Left out

- The base `Cell` class, `mkClass`, `$super` and `$m` are not part of this model. `setValue`, `subscribeWithSlave` and `unsubscribe` are modelled only as their effects in `Cells`. Subscribers are not notified, and changes do not propagate through chains of cells.
- The inherited `recalculate` is modelled as "evaluate the effective formula and publish its value". It is not part of this model beyond that.
- `Future` values are a parameter `isFuture`, and the inherited `isValuesDiffer` is a parameter too. Asynchronous futures are not modelled.
- `noValueMarker` (148-154): the unique exception and its identity test become the `NoValue` result of `Need`.
- `mkFormulaContext` and `formulaContext` (58, 133-135): the `this` that the formula is called with is not modelled. The formula sees the accessor only.
- Exceptions are results. A thrown error is `Raised`, `Thrown` or `Failed`, carrying its message.
- The cell passed as `arguments[1]` to `Cell.compute` and `Cell.computeEager` (208, 215) is not modelled. The model always builds a `FlexiFormulaCell`.
- Garbage collection is not modelled.
- A user formula is a step function with a bound on its accessor calls and a finite set of cells it may read. Formulas that run forever are not modelled.
- All upstream `dependenciesSlot`s are one `Slots` object, and handles are numbers. Which slot a handle belongs to is recorded in `live` and the log.
- `if (id)` in `detach` and `getSourceCells` (120, 140) is always true, because a `for ... in` key is a non-empty string. The model has no branch for it.
- The eager `recalculate` inside `initialize` (61) is made by `FlexiFormula.ComputeEager` right after the constructor, since a constructor cannot report the formula's error.
- The second evaluation that `attachBack` triggers through `recalculate` (114) is modelled as it is written. `ComputeFormula.RunAgain` proves it reads the same cells and gives the same value, so the contract of `AttachBack` states the first evaluation's value. This needs two assumptions. Subscribing changes no cell's value. The formula is deterministic in the values it reads. In the program the first one can fail. Subscribing to a lazy upstream `FlexiFormulaCell` (49) fires that cell's demand hook (77-80), which can attach it and publish a new value before `recalculate` (114) runs the formula again. The model does not capture this, because it does not propagate changes through chains of cells (see the first line of this section).
