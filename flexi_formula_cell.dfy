/** `FlexiFormulaCell`: a computed cell whose dependencies are whatever cells
    its formula read on its last evaluation. After each evaluation the cell
    unsubscribes from the sources it no longer read and subscribes to the new
    ones. A lazy cell holds no subscriptions while nothing demands its value;
    an eager one is attached from the start. `Compute` and `ComputeEager`
    build such cells from a formula written against the accessor of
    `makeComputeFormula`. */
module FlexiFormula {
  import opened Cells
  import opened Identity
  import opened KeyOrder
  import opened ComputeFormula
  import opened SourceDiff

  /** The three slots of a cell whose subscribers create demand. */
  datatype SlotName = ChangedSlot | UndefinedSlot | DependenciesSlot

  /** The last demand reported on each slot. */
  datatype Demand = Demand(changed: bool, undefined: bool, dependencies: bool)

  /** `demand[name] = newDemand`. */
  function Update(d: Demand, slot: SlotName, b: bool): (r: Demand)
    ensures slot == ChangedSlot ==> r.changed == b && r.undefined == d.undefined && r.dependencies == d.dependencies
    ensures slot == UndefinedSlot ==> r.undefined == b && r.changed == d.changed && r.dependencies == d.dependencies
    ensures slot == DependenciesSlot ==> r.dependencies == b && r.changed == d.changed && r.undefined == d.undefined
  {
    match slot
    case ChangedSlot => d.(changed := b)
    case UndefinedSlot => d.(undefined := b)
    case DependenciesSlot => d.(dependencies := b)
  }

  /** Some slot still has a subscriber. There is no demand exactly when
      every slot last reported none. */
  predicate HaveDemand(d: Demand): (r: bool)
    ensures !r <==> d == Demand(false, false, false)
  {
    d.dependencies || d.changed || d.undefined
  }

  /** What running `this.formula` gave: its value, or the error it threw.
      It differs from the wrapper's `Result` in carrying no dependency map,
      since `this.formula` consumes it; `Status` below is the outcome of an
      operation that returns nothing. Each carries a thrown error's message. */
  datatype Outcome<V> = Value(value: Option<V>) | Thrown(error: string)

  /** Whether an operation returned normally or threw. */
  datatype Status = Done | Failed(error: string)

  /** `setSources` is refused on these cells: the call always throws. */
  function SetSources<V>(sources: seq<Cell<V>>): (s: Status)
    ensures s == Failed("unsupported!")
  {
    Failed("unsupported!")
  }

  /** The cells of `sources`, in the order the identities are listed. */
  ghost function CellsAlong<V>(sources: map<nat, Source<V>>, order: seq<nat>): (r: seq<Cell<V>>)
    requires forall k :: k in order ==> k in sources
  {
    seq(|order|, i requires 0 <= i < |order| => sources[order[i]].cell)
  }

  /** The cells of `sources` in ascending identity order. */
  ghost function SourceCells<V>(sources: map<nat, Source<V>>): seq<Cell<V>>
  {
    AscendingEnumerates(sources.Keys);
    CellsAlong(sources, Ascending(sources.Keys))
  }

  /** Listing the sources along an order that visits every key lists exactly
      the sources' cells. */
  lemma CellsAlongCovers<V>(sources: map<nat, Source<V>>, order: seq<nat>)
    requires forall k :: k in sources <==> k in order
    ensures forall c :: c in CellsAlong(sources, order) <==> exists k :: k in sources && sources[k].cell == c
  {
    var cells := CellsAlong(sources, order);
    forall c | c in cells
      ensures exists k :: k in sources && sources[k].cell == c
    {
      var i :| 0 <= i < |cells| && cells[i] == c;
      assert order[i] in sources;
    }
    forall k | k in sources
      ensures sources[k].cell in cells
    {
      var i :| 0 <= i < |order| && order[i] == k;
      assert cells[i] == sources[k].cell;
    }
  }

  /** Listing the sources along an increasing order lists no cell twice when
      each source is stored under its cell's identity. */
  lemma CellsAlongDistinct<V>(sources: map<nat, Source<V>>, order: seq<nat>, ids: map<object, nat>)
    requires forall k :: k in order ==> k in sources
    requires Increasing(order)
    requires forall k :: k in sources ==> sources[k].cell in ids && ids[sources[k].cell] == k
    ensures NoDuplicates(CellsAlong(sources, order))
  {
    var cells := CellsAlong(sources, order);
    forall i, j | 0 <= i < j < |cells|
      ensures cells[i] != cells[j]
    {
      IncreasingHasNoDuplicates(order);
      assert ids[cells[i]] == order[i];
      assert ids[cells[j]] == order[j];
    }
  }

  /** When every source is stored under its cell's identity, the listing has
      one entry per source, lists exactly the sources' cells, and lists no
      cell twice. */
  lemma SourceCellsSpec<V>(sources: map<nat, Source<V>>, ids: map<object, nat>)
    requires forall k :: k in sources ==> sources[k].cell in ids && ids[sources[k].cell] == k
    ensures |SourceCells(sources)| == |sources|
    ensures forall c :: c in SourceCells(sources) <==> exists k :: k in sources && sources[k].cell == c
    ensures NoDuplicates(SourceCells(sources))
  {
    AscendingEnumerates(sources.Keys);
    var all := Ascending(sources.Keys);
    assert SourceCells(sources) == CellsAlong(sources, all);
    CellsAlongCovers(sources, all);
    CellsAlongDistinct(sources, all, ids);
  }

  /** Each source is stored under its cell's identity in `ids` and holds a
      live subscription on that cell in `live`, and no two sources share a
      handle or hold one at or above `next`. */
  ghost predicate Wired<V>(sources: map<nat, Source<V>>, live: map<Handle, Cell<V>>, next: Handle, ids: map<object, nat>)
  {
    && HandlesDistinct(sources)
    && HandlesBelow(sources, next)
    && (forall k :: k in sources ==> sources[k].handle in live && live[sources[k].handle] == sources[k].cell)
    && (forall k :: k in sources ==> sources[k].cell in ids && ids[sources[k].cell] == k)
  }

  /** Unsubscribing a source and deleting it keeps the others wired. */
  lemma WiredRemove<V>(sources: map<nat, Source<V>>, live: map<Handle, Cell<V>>, next: Handle,
                       ids: map<object, nat>, i: nat)
    requires Wired(sources, live, next, ids) && i in sources
    ensures Wired(sources - {i}, live - {sources[i].handle}, next, ids)
  {
    var rest := sources - {i};
    forall k | k in rest
      ensures rest[k].handle in live - {sources[i].handle}
    {
      assert rest[k].handle != sources[i].handle;
    }
  }

  /** Subscribing to `c` with the fresh handle `next` and recording it under
      `c`'s identity `j` keeps every source wired. */
  lemma WiredAdd<V>(sources: map<nat, Source<V>>, live: map<Handle, Cell<V>>, next: Handle,
                    ids: map<object, nat>, j: nat, c: Cell<V>)
    requires Wired(sources, live, next, ids) && j !in sources
    requires c in ids && ids[c] == j
    ensures Wired(sources[j := Source(c, next)], live[next := c], next + 1, ids)
  {
  }

  /** Running the formula only adds identities, so every source stays
      wired, and each dependency it reports is stored under its cell's
      identity. */
  lemma RewiredAfterRun<V(!new)>(f: Formula<V>, st: IdState, sources: map<nat, Source<V>>,
                                 live: map<Handle, Cell<V>>, next: Handle)
    requires WellFormed(f) && Identity.Valid(st) && Wired(sources, live, next, st.ids)
    ensures var e := Run(f, st);
      && Identity.Valid(e.ids)
      && Wired(sources, live, next, e.ids.ids)
      && (e.result.Computed? ==>
            forall k :: k in e.result.deps ==> e.result.deps[k] in e.ids.ids && e.ids.ids[e.result.deps[k]] == k)
  {
    RunFollowsFormula(f, st);
    DependenciesAreReads(f, st);
  }

  /** Every subscription held in `live0` on a handle outside `released` is
      still held in `live`, on the same cell. */
  ghost predicate OthersKept<V>(live0: map<Handle, Cell<V>>, live: map<Handle, Cell<V>>, released: set<Handle>)
  {
    forall h :: h in live0 && h !in released ==> h in live && live[h] == live0[h]
  }

  /** Another cell sharing the slots stays wired across a change that keeps
      every subscription outside `released` and hands out handles only from
      `next0` on, provided none of its handles is released. The class
      invariant does not say whose subscription a handle is, so that last
      hypothesis is the caller's to establish. */
  lemma SharedSlotsStayWired<V>(sources: map<nat, Source<V>>, live0: map<Handle, Cell<V>>, next0: Handle,
                                live: map<Handle, Cell<V>>, next: Handle, ids: map<object, nat>, released: set<Handle>)
    requires Wired(sources, live0, next0, ids)
    requires OthersKept(live0, live, released) && next0 <= next
    requires Handles(sources) !! released
    ensures Wired(sources, live, next, ids)
  {
    forall k | k in sources
      ensures sources[k].handle in live && live[sources[k].handle] == sources[k].cell
    {
      assert sources[k].handle in Handles(sources);
    }
  }

  class FlexiFormulaCell<V(!new)> {
    /** The cell this object is: its `value` and what it published. */
    const base: Cell<V>
    /** The wrapper `makeComputeFormula` built around the formula. */
    const wrapper: ComputedFormula<V>
    /** The `dependenciesSlot`s of the cells it may subscribe to. */
    const slots: Slots<V>
    /** The inherited value comparison used by `needsRefresh`. */
    const isValuesDiffer: (Option<V>, Option<V>) -> bool
    /** Which values are `Future`s. */
    const isFuture: V -> bool
    /** Built lazy: demand on its slots attaches and detaches it. */
    const observing: bool

    /** The source held for each identity: its cell and subscription handle. */
    var currentSources: map<nat, Source<V>>
    /** `effectiveFormula === formula`; otherwise it is `emptyFormula`. */
    var attached: bool
    /** The demand last reported by each slot. */
    var demand: Demand

    /** Each source is stored under its cell's identity and holds a live
        subscription on that cell, no two sources share a handle, and a
        detached cell holds no source. */
    ghost predicate Valid()
      reads this, wrapper, wrapper.alloc, slots
    {
      && wrapper.Valid()
      && slots.Valid()
      && Wired(currentSources, slots.live, slots.next, wrapper.alloc.ids)
      && (!attached ==> currentSources == map[])
    }

    /** `initialize`: no sources yet; an eager cell starts attached, a lazy
        one detached and observing demand. */
    constructor (wrapper: ComputedFormula<V>, slots: Slots<V>, isValuesDiffer: (Option<V>, Option<V>) -> bool,
                 isFuture: V -> bool, isEager: bool)
      requires wrapper.Valid() && slots.Valid()
      ensures Valid()
      ensures fresh(base) && base.value == None && base.published == []
      ensures this.wrapper == wrapper && this.slots == slots
      ensures this.isValuesDiffer == isValuesDiffer && this.isFuture == isFuture
      ensures currentSources == map[] && attached == isEager && observing == !isEager
      ensures demand == Demand(false, false, false)
    {
      base := new Cell();
      this.wrapper := wrapper;
      this.slots := slots;
      this.isValuesDiffer := isValuesDiffer;
      this.isFuture := isFuture;
      observing := !isEager;
      currentSources := map[];
      attached := isEager;
      demand := Demand(false, false, false);
    }

    /** `needsRefresh(newValue)`: always when the cell has no value yet,
        never for a future, otherwise when the values differ. */
    function NeedsRefresh(newValue: Option<V>): (r: bool)
      reads base
      ensures base.value.None? ==> r
      ensures base.value.Some? && newValue.Some? && isFuture(newValue.value) ==> !r
      ensures base.value.Some? && !(newValue.Some? && isFuture(newValue.value)) ==>
                (r <==> isValuesDiffer(base.value, newValue))
    {
      if base.value.None? then true
      else if newValue.Some? && isFuture(newValue.value) then false
      else isValuesDiffer(base.value, newValue)
    }

    /** The slots have seen the calls `emitted` since their log was `log0`
        and their held subscriptions `live0`. */
    ghost predicate CalledSince(log0: seq<Event<V>>, live0: map<Handle, Cell<V>>, emitted: seq<Event<V>>)
      reads slots
    {
      slots.log == log0 + emitted && slots.live == HeldAfter(live0, emitted)
    }

    /** Unsubscribes the source stored under `i` and deletes it. */
    method Unlink(i: nat, ghost ids: map<object, nat>,
                  ghost log0: seq<Event<V>>, ghost live0: map<Handle, Cell<V>>, ghost emitted: seq<Event<V>>)
      requires slots.Valid() && Wired(currentSources, slots.live, slots.next, ids) && i in currentSources
      requires CalledSince(log0, live0, emitted)
      modifies this`currentSources, slots
      ensures slots.Valid() && Wired(currentSources, slots.live, slots.next, ids)
      ensures currentSources == old(currentSources) - {i}
      ensures slots.next == old(slots.next)
      ensures slots.live == old(slots.live) - {old(currentSources)[i].handle}
      ensures slots.log == old(slots.log) + [Unsubscribed(old(currentSources)[i].cell, old(currentSources)[i].handle)]
      ensures CalledSince(log0, live0, emitted + [Unsubscribed(old(currentSources)[i].cell, old(currentSources)[i].handle)])
    {
      var pair := currentSources[i];
      WiredRemove(currentSources, slots.live, slots.next, ids, i);
      LogAppend(log0, emitted, [Unsubscribed(pair.cell, pair.handle)]);
      HeldAfterStep(live0, emitted, Unsubscribed(pair.cell, pair.handle));
      slots.Unsubscribe(pair.cell, pair.handle);
      currentSources := currentSources - {i};
    }

    /** Subscribes to `cell`, whose identity in `ids` is `j`, and stores the
        source under `j` with the new handle. */
    method Link(j: nat, cell: Cell<V>, ghost ids: map<object, nat>,
                ghost log0: seq<Event<V>>, ghost live0: map<Handle, Cell<V>>, ghost emitted: seq<Event<V>>)
      requires slots.Valid() && Wired(currentSources, slots.live, slots.next, ids) && j !in currentSources
      requires cell in ids && ids[cell] == j
      requires CalledSince(log0, live0, emitted)
      modifies this`currentSources, slots
      ensures slots.Valid() && Wired(currentSources, slots.live, slots.next, ids)
      ensures currentSources == old(currentSources)[j := Source(cell, old(slots.next))]
      ensures slots.next == old(slots.next) + 1
      ensures slots.live == old(slots.live)[old(slots.next) := cell]
      ensures slots.log == old(slots.log) + [Subscribed(cell, old(slots.next))]
      ensures CalledSince(log0, live0, emitted + [Subscribed(cell, old(slots.next))])
    {
      WiredAdd(currentSources, slots.live, slots.next, ids, j, cell);
      LogAppend(log0, emitted, [Subscribed(cell, slots.next)]);
      HeldAfterStep(live0, emitted, Subscribed(cell, slots.next));
      var h := slots.Subscribe(cell);
      currentSources := currentSources[j := Source(cell, h)];
    }

    /** The first loop of `formula`, visiting the identities `keys`: each
        source whose identity is not in `deps` is unsubscribed and deleted. A
        `for ... in` loop skips a key deleted before it is visited, so a key
        without a source is passed over. */
    method DropVisiting(deps: map<nat, Cell<V>>, keys: seq<nat>)
      requires Valid()
      modifies this`currentSources, slots
      ensures Valid()
      ensures var r := DropStale(old(currentSources), deps, keys);
        && currentSources == r.sources
        && slots.log == old(slots.log) + r.events
        && slots.live == HeldAfter(old(slots.live), r.events)
      ensures slots.next == old(slots.next)
    {
      ghost var ids := wrapper.alloc.ids;
      ghost var all := DropStale(currentSources, deps, keys);
      ghost var log0 := slots.log;
      ghost var live0 := slots.live;
      ghost var emitted: seq<Event<V>> := [];
      var n := 0;
      assert keys[n..] == keys;
      while n < |keys|
        invariant 0 <= n <= |keys|
        invariant slots.Valid() && Wired(currentSources, slots.live, slots.next, ids)
        invariant !attached ==> currentSources == map[]
        invariant slots.next == old(slots.next)
        invariant CalledSince(log0, live0, emitted)
        invariant all == Prepend(emitted, DropStale(currentSources, deps, keys[n..]))
        decreases |keys| - n
      {
        var i := keys[n];
        DropStaleAdvance(all, emitted, currentSources, deps, keys, n);
        if i in currentSources && i !in deps {
          ghost var u := Unsubscribed(currentSources[i].cell, currentSources[i].handle);
          Unlink(i, ids, log0, live0, emitted);
          emitted := emitted + [u];
        }
        n := n + 1;
      }
      assert keys[n..] == [] && emitted + [] == emitted;
    }

    /** The first loop of `formula`: every source whose identity is not in
        `deps` is unsubscribed and deleted, in ascending identity order. */
    method DropSources(deps: map<nat, Cell<V>>)
      requires Valid()
      modifies this`currentSources, slots
      ensures Valid()
      ensures var r := DropStale(old(currentSources), deps, Ascending(old(currentSources).Keys));
        && currentSources == r.sources
        && slots.log == old(slots.log) + r.events
        && slots.live == HeldAfter(old(slots.live), r.events)
      ensures slots.next == old(slots.next)
    {
      var keys := AscendingKeys(currentSources.Keys);
      DropVisiting(deps, keys);
    }

    /** The second loop of `formula`, visiting the identities `keys` of
        `deps`: each one without a source is subscribed to and recorded with
        the new handle. */
    method AddVisiting(deps: map<nat, Cell<V>>, keys: seq<nat>, ghost ids: map<object, nat>)
      requires slots.Valid() && Wired(currentSources, slots.live, slots.next, ids)
      requires forall k :: k in deps ==> deps[k] in ids && ids[deps[k]] == k
      requires forall m :: 0 <= m < |keys| ==> keys[m] in deps
      modifies this`currentSources, slots
      ensures slots.Valid() && Wired(currentSources, slots.live, slots.next, ids)
      ensures var r := AddNew(old(currentSources), deps, keys, old(slots.next));
        && currentSources == r.sources
        && slots.log == old(slots.log) + r.events
        && slots.live == HeldAfter(old(slots.live), r.events)
        && slots.next == old(slots.next) + |r.events|
    {
      ghost var all := AddNew(currentSources, deps, keys, slots.next);
      ghost var log0 := slots.log;
      ghost var live0 := slots.live;
      ghost var next0 := slots.next;
      ghost var emitted: seq<Event<V>> := [];
      var n := 0;
      assert keys[n..] == keys;
      while n < |keys|
        invariant 0 <= n <= |keys|
        invariant slots.Valid() && Wired(currentSources, slots.live, slots.next, ids)
        invariant CalledSince(log0, live0, emitted) && slots.next == next0 + |emitted|
        invariant all == Prepend(emitted, AddNew(currentSources, deps, keys[n..], slots.next))
        decreases |keys| - n
      {
        var j := keys[n];
        AddNewAdvance(all, emitted, currentSources, deps, keys, n, slots.next);
        if j !in currentSources {
          assert deps[j] in ids && ids[deps[j]] == j;
          ghost var u := Subscribed(deps[j], slots.next);
          Link(j, deps[j], ids, log0, live0, emitted);
          emitted := emitted + [u];
        }
        n := n + 1;
      }
      assert keys[n..] == [] && emitted + [] == emitted;
    }

    /** The second loop of `formula`: every identity of `deps` without a
        source is subscribed to, in ascending identity order, and recorded
        with the new handle. */
    method AddSources(deps: map<nat, Cell<V>>)
      requires Valid() && attached
      requires forall k :: k in deps ==> deps[k] in wrapper.alloc.ids && wrapper.alloc.ids[deps[k]] == k
      modifies this`currentSources, slots
      ensures Valid()
      ensures var r := AddAscending(old(currentSources), deps, deps.Keys, old(slots.next));
        && currentSources == r.sources
        && slots.log == old(slots.log) + r.events
        && slots.live == HeldAfter(old(slots.live), r.events)
        && slots.next == old(slots.next) + |r.events|
    {
      var keys := AscendingKeys(deps.Keys);
      AscendingEnumerates(deps.Keys);
      AddVisiting(deps, keys, wrapper.alloc.ids);
    }

    /** `this.formula`: evaluates the wrapped formula. If it throws, the
        error escapes and no source changes; otherwise the sources are
        brought in line with the dependencies just read, as `Diff` says,
        and the value is returned. */
    method RunFormula() returns (o: Outcome<V>)
      requires Valid() && attached
      modifies this`currentSources, wrapper, wrapper.alloc, slots
      ensures Valid()
      ensures wrapper.alloc.State() == old(wrapper.Spec()).ids
      ensures var e := old(wrapper.Spec());
        && (e.result.Raised? ==>
              && o == Thrown(e.result.error)
              && currentSources == old(currentSources)
              && slots.log == old(slots.log) && slots.live == old(slots.live) && slots.next == old(slots.next))
        && (e.result.Computed? ==>
              && o == Value(e.result.value)
              && var d := Diff(old(currentSources), e.result.deps, old(slots.next));
                 && currentSources == d.sources
                 && slots.log == old(slots.log) + d.events
                 && slots.live == HeldAfter(old(slots.live), d.events))
      ensures old(slots.next) <= slots.next
      ensures OthersKept(old(slots.live), slots.live, Handles(old(currentSources)))
    {
      ghost var cur0 := currentSources;
      ghost var next0 := slots.next;
      ghost var log0 := slots.log;
      ghost var live0 := slots.live;
      RewiredAfterRun(wrapper.formula, wrapper.alloc.State(), currentSources, slots.live, slots.next);
      var r := wrapper.Call();
      if r.Raised? {
        return Thrown(r.error);
      }
      var deps := r.deps;
      DiffSplits(cur0, deps, next0);
      ghost var drop := DropStale(cur0, deps, Ascending(cur0.Keys));
      DropSources(deps);
      AddSources(deps);
      LogAppend(log0, drop.events, AddAscending(drop.sources, deps, deps.Keys, next0).events);
      HeldAfterAppend(live0, drop.events, AddAscending(drop.sources, deps, deps.Keys, next0).events);
      DiffKeepsOthers(cur0, deps, next0, live0);
      o := Value(r.value);
    }

    /** `recalculate`, as inherited: evaluates the effective formula and
        publishes its value. A detached cell's formula is `emptyFormula`,
        whose value is undefined. */
    method Recalculate() returns (s: Status)
      requires Valid()
      modifies this`currentSources, wrapper, wrapper.alloc, slots, base
      ensures Valid()
      ensures !old(attached) ==>
        && s == Done
        && base.value == None && base.published == old(base.published) + [None]
        && currentSources == old(currentSources)
        && slots.log == old(slots.log) && slots.live == old(slots.live) && slots.next == old(slots.next)
        && wrapper.alloc.State() == old(wrapper.alloc.State())
      ensures old(attached) ==>
        var e := old(wrapper.Spec());
        && wrapper.alloc.State() == e.ids
        && (e.result.Raised? ==>
              && s == Failed(e.result.error)
              && base.value == old(base.value) && base.published == old(base.published)
              && currentSources == old(currentSources)
              && slots.log == old(slots.log) && slots.live == old(slots.live) && slots.next == old(slots.next))
        && (e.result.Computed? ==>
              && s == Done
              && base.value == e.result.value
              && base.published == old(base.published) + [e.result.value]
              && var d := Diff(old(currentSources), e.result.deps, old(slots.next));
                 && currentSources == d.sources
                 && slots.log == old(slots.log) + d.events
                 && slots.live == HeldAfter(old(slots.live), d.events))
      ensures old(slots.next) <= slots.next
      ensures OthersKept(old(slots.live), slots.live, Handles(old(currentSources)))
    {
      if !attached {
        base.SetValue(None);
        return Done;
      }
      var o := RunFormula();
      if o.Thrown? {
        return Failed(o.error);
      }
      base.SetValue(o.value);
      s := Done;
    }

    /** `attachBack`: nothing when already attached. Otherwise the cell
        attaches, evaluates its formula (which subscribes it to the cells
        read) and, when `needsRefresh` says so, recalculates. The second
        evaluation reads the same cells, so it changes no subscription, and
        the value published is the one first computed. */
    method AttachBack() returns (s: Status)
      requires Valid()
      modifies this`currentSources, this`attached, wrapper, wrapper.alloc, slots, base
      ensures Valid() && attached
      ensures old(attached) ==>
        && s == Done
        && currentSources == old(currentSources)
        && slots.log == old(slots.log) && slots.live == old(slots.live) && slots.next == old(slots.next)
        && base.value == old(base.value) && base.published == old(base.published)
        && wrapper.alloc.State() == old(wrapper.alloc.State())
      ensures !old(attached) ==>
        var e := old(wrapper.Spec());
        && wrapper.alloc.State() == e.ids
        && (e.result.Raised? ==>
              && s == Failed(e.result.error)
              && currentSources == map[]
              && slots.log == old(slots.log) && slots.live == old(slots.live) && slots.next == old(slots.next)
              && base.value == old(base.value) && base.published == old(base.published))
        && (e.result.Computed? ==>
              && s == Done
              && (var d := Diff(map[], e.result.deps, old(slots.next));
                  && currentSources == d.sources
                  && slots.log == old(slots.log) + d.events
                  && slots.live == HeldAfter(old(slots.live), d.events))
              && (old(NeedsRefresh(e.result.value)) ==>
                    base.value == e.result.value && base.published == old(base.published) + [e.result.value])
              && (!old(NeedsRefresh(e.result.value)) ==>
                    base.value == old(base.value) && base.published == old(base.published)))
      ensures old(slots.next) <= slots.next
      ensures OthersKept(old(slots.live), slots.live, Handles(old(currentSources)))
    {
      if attached {
        return Done;
      }
      ghost var e := wrapper.Spec();
      ghost var next0 := slots.next;
      attached := true;
      RunAgain(wrapper.formula, wrapper.alloc.State());
      var o := RunFormula();
      if o.Thrown? {
        return Failed(o.error);
      }
      DiffSources(map[], e.result.deps, next0);
      if NeedsRefresh(o.value) {
        ghost var cur1 := currentSources;
        ghost var log1 := slots.log;
        ghost var next1 := slots.next;
        assert wrapper.Spec() == e;
        DiffUnchanged(cur1, e.result.deps, next1);
        s := Recalculate();
        assert currentSources == cur1 && slots.log == log1 + [];
      }
      s := Done;
    }

    /** `detach`: unsubscribes from every source and deletes it, switches to
        `emptyFormula`, and publishes the current value again (which cancels
        any future in progress). */
    method Detach()
      requires Valid()
      modifies this`currentSources, this`attached, slots, base
      ensures Valid() && !attached && currentSources == map[]
      ensures var events := DropStale(old(currentSources), map[], Ascending(old(currentSources).Keys)).events;
        && slots.log == old(slots.log) + events
        && NoDuplicates(events)
        && (forall k :: k in old(currentSources) ==>
              Unsubscribed(old(currentSources)[k].cell, old(currentSources)[k].handle) in events)
        && (forall e :: e in events ==>
              exists k :: k in old(currentSources) && e == Unsubscribed(old(currentSources)[k].cell, old(currentSources)[k].handle))
      ensures slots.live == old(slots.live) - Handles(old(currentSources)) && slots.next == old(slots.next)
      ensures base.value == old(base.value) && base.published == old(base.published) + [old(base.value)]
    {
      DropSources(map[]);
      DropAllSpec(old(currentSources));
      DropAllReleases(old(currentSources), old(slots.live));
      attached := false;
      base.SetValue(base.value);
    }

    /** `react`: attaches when some slot has demand, detaches otherwise. */
    method React() returns (s: Status)
      requires Valid()
      modifies this`currentSources, this`attached, wrapper, wrapper.alloc, slots, base
      ensures Valid() && attached == HaveDemand(demand)
      ensures !HaveDemand(demand) ==>
        && s == Done && currentSources == map[]
        && (var events := DropStale(old(currentSources), map[], Ascending(old(currentSources).Keys)).events;
            && slots.log == old(slots.log) + events
            && NoDuplicates(events)
            && (forall k :: k in old(currentSources) ==>
                  Unsubscribed(old(currentSources)[k].cell, old(currentSources)[k].handle) in events)
            && (forall e :: e in events ==>
                  exists k :: k in old(currentSources) &&
                    e == Unsubscribed(old(currentSources)[k].cell, old(currentSources)[k].handle)))
        && slots.live == old(slots.live) - Handles(old(currentSources)) && slots.next == old(slots.next)
        && base.value == old(base.value) && base.published == old(base.published) + [old(base.value)]
        && wrapper.alloc.State() == old(wrapper.alloc.State())
      ensures HaveDemand(demand) && old(attached) ==>
        && s == Done && currentSources == old(currentSources)
        && slots.log == old(slots.log) && slots.live == old(slots.live) && slots.next == old(slots.next)
        && base.value == old(base.value) && base.published == old(base.published)
        && wrapper.alloc.State() == old(wrapper.alloc.State())
      ensures HaveDemand(demand) && !old(attached) ==>
        var e := old(wrapper.Spec());
        && wrapper.alloc.State() == e.ids
        && (e.result.Raised? ==>
              && s == Failed(e.result.error)
              && currentSources == map[]
              && slots.log == old(slots.log) && slots.live == old(slots.live) && slots.next == old(slots.next)
              && base.value == old(base.value) && base.published == old(base.published))
        && (e.result.Computed? ==>
              && s == Done
              && (var d := Diff(map[], e.result.deps, old(slots.next));
                  && currentSources == d.sources
                  && slots.log == old(slots.log) + d.events
                  && slots.live == HeldAfter(old(slots.live), d.events))
              && (old(NeedsRefresh(e.result.value)) ==>
                    base.value == e.result.value && base.published == old(base.published) + [e.result.value])
              && (!old(NeedsRefresh(e.result.value)) ==>
                    base.value == old(base.value) && base.published == old(base.published)))
      ensures old(slots.next) <= slots.next
      ensures OthersKept(old(slots.live), slots.live, Handles(old(currentSources)))
    {
      if !HaveDemand(demand) {
        Detach();
        s := Done;
      } else {
        s := AttachBack();
      }
    }

    /** `slot.__demandChanged(newDemand)`, installed by
        `setupDemandObserving` on lazy cells only: records the slot's demand
        and reacts. On an eager cell demand changes nothing. */
    method DemandChanged(slot: SlotName, newDemand: bool) returns (s: Status)
      requires Valid()
      modifies this, wrapper, wrapper.alloc, slots, base
      ensures Valid()
      ensures !observing ==>
        && s == Done && demand == old(demand) && attached == old(attached)
        && currentSources == old(currentSources)
        && slots.log == old(slots.log) && slots.live == old(slots.live) && slots.next == old(slots.next)
        && base.value == old(base.value) && base.published == old(base.published)
        && wrapper.alloc.State() == old(wrapper.alloc.State())
      ensures observing ==> demand == Update(old(demand), slot, newDemand) && attached == HaveDemand(demand)
      ensures observing && !HaveDemand(demand) ==>
        && s == Done && currentSources == map[]
        && (var events := DropStale(old(currentSources), map[], Ascending(old(currentSources).Keys)).events;
            && slots.log == old(slots.log) + events
            && NoDuplicates(events)
            && (forall k :: k in old(currentSources) ==>
                  Unsubscribed(old(currentSources)[k].cell, old(currentSources)[k].handle) in events)
            && (forall e :: e in events ==>
                  exists k :: k in old(currentSources) &&
                    e == Unsubscribed(old(currentSources)[k].cell, old(currentSources)[k].handle)))
        && slots.live == old(slots.live) - Handles(old(currentSources)) && slots.next == old(slots.next)
        && base.value == old(base.value) && base.published == old(base.published) + [old(base.value)]
        && wrapper.alloc.State() == old(wrapper.alloc.State())
      ensures observing && HaveDemand(demand) && old(attached) ==>
        && s == Done && currentSources == old(currentSources)
        && slots.log == old(slots.log) && slots.live == old(slots.live) && slots.next == old(slots.next)
        && base.value == old(base.value) && base.published == old(base.published)
        && wrapper.alloc.State() == old(wrapper.alloc.State())
      ensures observing && HaveDemand(demand) && !old(attached) ==>
        var e := old(wrapper.Spec());
        && wrapper.alloc.State() == e.ids
        && (e.result.Raised? ==>
              && s == Failed(e.result.error)
              && currentSources == map[]
              && slots.log == old(slots.log) && slots.live == old(slots.live) && slots.next == old(slots.next)
              && base.value == old(base.value) && base.published == old(base.published))
        && (e.result.Computed? ==>
              && s == Done
              && (var d := Diff(map[], e.result.deps, old(slots.next));
                  && currentSources == d.sources
                  && slots.log == old(slots.log) + d.events
                  && slots.live == HeldAfter(old(slots.live), d.events))
              && (old(NeedsRefresh(e.result.value)) ==>
                    base.value == e.result.value && base.published == old(base.published) + [e.result.value])
              && (!old(NeedsRefresh(e.result.value)) ==>
                    base.value == old(base.value) && base.published == old(base.published)))
      ensures old(slots.next) <= slots.next
      ensures OthersKept(old(slots.live), slots.live, Handles(old(currentSources)))
    {
      if !observing {
        return Done;
      }
      demand := Update(demand, slot, newDemand);
      s := React();
    }

    /** `getSourceCells`: the cell of every source, in ascending identity
        order; each source's cell appears exactly once. */
    method GetSourceCells() returns (cells: seq<Cell<V>>)
      requires Valid()
      ensures cells == SourceCells(currentSources)
      ensures |cells| == |currentSources|
      ensures forall c :: c in cells <==> exists k :: k in currentSources && currentSources[k].cell == c
      ensures NoDuplicates(cells)
    {
      var keys := AscendingKeys(currentSources.Keys);
      AscendingWithin(currentSources.Keys);
      cells := [];
      var n := 0;
      while n < |keys|
        invariant 0 <= n <= |keys| && |cells| == n
        invariant forall m :: 0 <= m < n ==> cells[m] == currentSources[keys[m]].cell
        decreases |keys| - n
      {
        cells := cells + [currentSources[keys[n]].cell];
        n := n + 1;
      }
      assert cells == CellsAlong(currentSources, keys);
      SourceCellsSpec(currentSources, wrapper.alloc.ids);
    }
  }

  /** `Cell.compute(formula)`: a lazy cell around `makeComputeFormula(formula)`;
      it holds no subscription and has no value until demand attaches it. */
  method Compute<V(!new)>(formula: Formula<V>, alloc: IdAllocator, slots: Slots<V>,
                          isValuesDiffer: (Option<V>, Option<V>) -> bool, isFuture: V -> bool)
    returns (c: FlexiFormulaCell<V>)
    requires WellFormed(formula) && Identity.Valid(alloc.State()) && slots.Valid()
    ensures fresh(c) && fresh(c.wrapper) && fresh(c.base)
    ensures c.Valid() && c.wrapper.formula == formula && c.wrapper.alloc == alloc && c.slots == slots
    ensures c.isValuesDiffer == isValuesDiffer && c.isFuture == isFuture
    ensures !c.attached && c.observing && c.demand == Demand(false, false, false)
    ensures c.currentSources == map[] && c.base.value == None && c.base.published == []
  {
    var f := new ComputedFormula(formula, alloc);
    c := new FlexiFormulaCell(f, slots, isValuesDiffer, isFuture, false);
  }

  /** `Cell.computeEager(formula)`: an attached cell that is recalculated
      once at once, so it is subscribed to what its formula read and holds
      the formula's value. */
  method ComputeEager<V(!new)>(formula: Formula<V>, alloc: IdAllocator, slots: Slots<V>,
                               isValuesDiffer: (Option<V>, Option<V>) -> bool, isFuture: V -> bool)
    returns (c: FlexiFormulaCell<V>, s: Status)
    requires WellFormed(formula) && Identity.Valid(alloc.State()) && slots.Valid()
    modifies alloc, slots
    ensures fresh(c) && fresh(c.wrapper) && fresh(c.base)
    ensures c.Valid() && c.wrapper.formula == formula && c.wrapper.alloc == alloc && c.slots == slots
    ensures c.isValuesDiffer == isValuesDiffer && c.isFuture == isFuture
    ensures c.attached && !c.observing && c.demand == Demand(false, false, false)
    ensures var e := old(Run(formula, alloc.State()));
      && alloc.State() == e.ids
      && (e.result.Raised? ==>
            && s == Failed(e.result.error)
            && c.currentSources == map[] && c.base.value == None && c.base.published == []
            && slots.log == old(slots.log) && slots.live == old(slots.live) && slots.next == old(slots.next))
      && (e.result.Computed? ==>
            && s == Done
            && c.base.value == e.result.value && c.base.published == [e.result.value]
            && var d := Diff(map[], e.result.deps, old(slots.next));
               && c.currentSources == d.sources
               && slots.log == old(slots.log) + d.events
               && slots.live == HeldAfter(old(slots.live), d.events))
    ensures old(slots.next) <= slots.next
    ensures OthersKept(old(slots.live), slots.live, {})
  {
    var f := new ComputedFormula(formula, alloc);
    c := new FlexiFormulaCell(f, slots, isValuesDiffer, isFuture, true);
    s := c.Recalculate();
  }
}
