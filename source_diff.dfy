/** The dependency-set diff that `formula` performs after each evaluation:
    sources whose identity is no longer a dependency are unsubscribed and
    deleted, then every dependency without a source is subscribed to. These
    functions say what the two loops produce when they visit keys in the
    order given; the class in FlexiFormula runs them with the `for ... in`
    order. */
module SourceDiff {
  import opened Cells
  import opened KeyOrder

  /** An entry of `currentSources`: the pair `[cell, handle]`. */
  datatype Source<V> = Source(cell: Cell<V>, handle: Handle)

  /** The sources after one of the loops, and the slot calls it made. */
  datatype Rewiring<V> = Rewiring(sources: map<nat, Source<V>>, events: seq<Event<V>>)

  /** The calls `emitted` were made before the rest of the loop. */
  function Prepend<V>(emitted: seq<Event<V>>, r: Rewiring<V>): Rewiring<V>
  {
    Rewiring(r.sources, emitted + r.events)
  }

  ghost predicate HandlesDistinct<V>(m: map<nat, Source<V>>)
  {
    forall i, j :: i in m && j in m && i != j ==> m[i].handle != m[j].handle
  }

  ghost predicate HandlesBelow<V>(m: map<nat, Source<V>>, next: Handle)
  {
    forall i :: i in m ==> m[i].handle < next
  }

  /** The first loop, visiting the keys `order`: a source whose identity is
      not in `deps` is unsubscribed with its stored handle and deleted. */
  ghost function DropStale<V>(cur: map<nat, Source<V>>, deps: map<nat, Cell<V>>, order: seq<nat>): Rewiring<V>
    decreases |order|
  {
    if order == [] then Rewiring(cur, [])
    else
      var i := order[0];
      if i in cur && i !in deps then
        Prepend([Unsubscribed(cur[i].cell, cur[i].handle)], DropStale(cur - {i}, deps, order[1..]))
      else DropStale(cur, deps, order[1..])
  }

  /** One step of the first loop: with `all` the whole run and `emitted` what
      was emitted before step `n`, step `n` emits an unsubscription exactly
      when the key it visits still has a source and is no longer a
      dependency. */
  lemma DropStaleAdvance<V>(all: Rewiring<V>, emitted: seq<Event<V>>, cur: map<nat, Source<V>>,
                            deps: map<nat, Cell<V>>, keys: seq<nat>, n: nat)
    requires n < |keys|
    requires all == Prepend(emitted, DropStale(cur, deps, keys[n..]))
    ensures keys[n] in cur && keys[n] !in deps ==>
      all == Prepend(emitted + [Unsubscribed(cur[keys[n]].cell, cur[keys[n]].handle)],
                     DropStale(cur - {keys[n]}, deps, keys[n + 1..]))
    ensures !(keys[n] in cur && keys[n] !in deps) ==> all == Prepend(emitted, DropStale(cur, deps, keys[n + 1..]))
  {
    assert keys[n..][0] == keys[n] && keys[n..][1..] == keys[n + 1..];
    if keys[n] in cur && keys[n] !in deps {
      var r := DropStale(cur - {keys[n]}, deps, keys[n + 1..]);
      var u := [Unsubscribed(cur[keys[n]].cell, cur[keys[n]].handle)];
      assert emitted + (u + r.events) == (emitted + u) + r.events;
    }
  }

  /** The second loop, visiting the identities `order` of `deps`: one with no
      source yet is subscribed to and recorded with the next fresh handle (an
      identity that is not a key of `deps` is passed over, as `for ... in`
      never visits a missing key). */
  ghost function AddNew<V>(cur: map<nat, Source<V>>, deps: map<nat, Cell<V>>, order: seq<nat>, next: Handle): Rewiring<V>
    decreases |order|
  {
    if order == [] then Rewiring(cur, [])
    else
      var j := order[0];
      if j in cur || j !in deps then AddNew(cur, deps, order[1..], next)
      else
        Prepend([Subscribed(deps[j], next)],
                AddNew(cur[j := Source(deps[j], next)], deps, order[1..], next + 1))
  }

  /** `order` visits exactly the keys `s`. */
  ghost predicate Visits(order: seq<nat>, s: set<nat>)
  {
    forall k :: k in order <==> k in s
  }

  /** Both loops of `formula`, the first visiting `dropOrder` and the second
      `addOrder`, with `next` the first handle the slots will hand out. */
  ghost function DiffAlong<V>(cur: map<nat, Source<V>>, deps: map<nat, Cell<V>>, next: Handle,
                              dropOrder: seq<nat>, addOrder: seq<nat>): Rewiring<V>
    requires Visits(addOrder, deps.Keys)
  {
    var drop := DropStale(cur, deps, dropOrder);
    var add := AddNew(drop.sources, deps, addOrder, next);
    Rewiring(add.sources, drop.events + add.events)
  }

  /** The second loop visiting the identities `keys` of `deps` in ascending
      order. */
  ghost function AddAscending<V>(cur: map<nat, Source<V>>, deps: map<nat, Cell<V>>, keys: set<nat>, next: Handle): Rewiring<V>
    requires keys <= deps.Keys
  {
    AscendingEnumerates(keys);
    AddNew(cur, deps, Ascending(keys), next)
  }

  /** Both loops of `formula`, each visiting its keys in ascending order. */
  ghost function Diff<V>(cur: map<nat, Source<V>>, deps: map<nat, Cell<V>>, next: Handle): Rewiring<V>
  {
    AscendingEnumerates(deps.Keys);
    DiffAlong(cur, deps, next, Ascending(cur.Keys), Ascending(deps.Keys))
  }

  /** `Diff` is the first loop followed by the second, run on what the first
      left. */
  lemma DiffSplits<V>(cur: map<nat, Source<V>>, deps: map<nat, Cell<V>>, next: Handle)
    ensures var drop := DropStale(cur, deps, Ascending(cur.Keys));
      var add := AddAscending(drop.sources, deps, deps.Keys, next);
      Diff(cur, deps, next) == Rewiring(add.sources, drop.events + add.events)
  {
  }

  /** Every call in `events` unsubscribes a source of `cur`, visited in
      `order`, whose identity is not in `deps`. */
  ghost predicate OnlyStale<V>(events: seq<Event<V>>, cur: map<nat, Source<V>>, deps: map<nat, Cell<V>>, order: seq<nat>)
  {
    forall e :: e in events ==>
      exists k :: k in cur && k !in deps && k in order && e == Unsubscribed(cur[k].cell, cur[k].handle)
  }

  /** One step of the second loop: step `n` emits a subscription with the
      next handle exactly when the key it visits has no source yet. */
  lemma AddNewAdvance<V>(all: Rewiring<V>, emitted: seq<Event<V>>, cur: map<nat, Source<V>>,
                         deps: map<nat, Cell<V>>, keys: seq<nat>, n: nat, next: Handle)
    requires n < |keys| && keys[n] in deps
    requires all == Prepend(emitted, AddNew(cur, deps, keys[n..], next))
    ensures keys[n] !in cur ==>
      all == Prepend(emitted + [Subscribed(deps[keys[n]], next)],
                     AddNew(cur[keys[n] := Source(deps[keys[n]], next)], deps, keys[n + 1..], next + 1))
    ensures keys[n] in cur ==> all == Prepend(emitted, AddNew(cur, deps, keys[n + 1..], next))
  {
    assert keys[n..][0] == keys[n] && keys[n..][1..] == keys[n + 1..];
    if keys[n] !in cur {
      var r := AddNew(cur[keys[n] := Source(deps[keys[n]], next)], deps, keys[n + 1..], next + 1);
      var u := [Subscribed(deps[keys[n]], next)];
      assert emitted + (u + r.events) == (emitted + u) + r.events;
    }
  }

  /** The first loop deletes exactly the visited sources that are no longer
      dependencies and keeps the others untouched; when it visits no stale
      source it changes nothing. */
  lemma {:induction false} DropStaleSources<V>(cur: map<nat, Source<V>>, deps: map<nat, Cell<V>>, order: seq<nat>)
    ensures var r := DropStale(cur, deps, order);
      && (forall k :: k in r.sources <==> k in cur && (k in deps || k !in order))
      && (forall k :: k in r.sources ==> r.sources[k] == cur[k])
      && ((forall k :: k in order && k in cur ==> k in deps) ==> r == Rewiring(cur, []))
    decreases |order|
  {
    if order != [] {
      var i := order[0];
      var tail := order[1..];
      assert forall k :: k in order <==> k == i || k in tail;
      if i in cur && i !in deps {
        DropStaleSources(cur - {i}, deps, tail);
      } else {
        DropStaleSources(cur, deps, tail);
      }
    }
  }

  /** The first loop unsubscribes every visited stale source, and nothing
      else. */
  lemma {:induction false} DropStaleEvents<V>(cur: map<nat, Source<V>>, deps: map<nat, Cell<V>>, order: seq<nat>)
    ensures var r := DropStale(cur, deps, order);
      && (forall k :: k in cur && k !in deps && k in order ==>
            Unsubscribed(cur[k].cell, cur[k].handle) in r.events)
      && OnlyStale(r.events, cur, deps, order)
    decreases |order|
  {
    if order != [] {
      var i := order[0];
      var tail := order[1..];
      assert forall k :: k in order <==> k == i || k in tail;
      var r := DropStale(cur, deps, order);
      if i in cur && i !in deps {
        var cur' := cur - {i};
        var rest := DropStale(cur', deps, tail);
        DropStaleEvents(cur', deps, tail);
        var gone := Unsubscribed(cur[i].cell, cur[i].handle);
        assert r.events == [gone] + rest.events;
        forall e | e in r.events
          ensures exists k :: k in cur && k !in deps && k in order && e == Unsubscribed(cur[k].cell, cur[k].handle)
        {
          if e != gone {
            assert e in rest.events;
            var k :| k in cur' && k !in deps && k in tail && e == Unsubscribed(cur'[k].cell, cur'[k].handle);
            assert k in order;
          }
        }
      } else {
        DropStaleEvents(cur, deps, tail);
        assert r == DropStale(cur, deps, tail);
        forall e | e in r.events
          ensures exists k :: k in cur && k !in deps && k in order && e == Unsubscribed(cur[k].cell, cur[k].handle)
        {
          var k :| k in cur && k !in deps && k in tail && e == Unsubscribed(cur[k].cell, cur[k].handle);
          assert k in order;
        }
      }
    }
  }

  /** When no two sources share a handle, the first loop unsubscribes each
      source at most once. */
  lemma {:induction false} DropStaleOnce<V>(cur: map<nat, Source<V>>, deps: map<nat, Cell<V>>, order: seq<nat>)
    requires HandlesDistinct(cur)
    ensures NoDuplicates(DropStale(cur, deps, order).events)
    decreases |order|
  {
    if order != [] {
      var i := order[0];
      var tail := order[1..];
      var r := DropStale(cur, deps, order);
      if i in cur && i !in deps {
        var cur' := cur - {i};
        var rest := DropStale(cur', deps, tail);
        assert HandlesDistinct(cur');
        DropStaleOnce(cur', deps, tail);
        DropStaleEvents(cur', deps, tail);
        assert r.events == [Unsubscribed(cur[i].cell, cur[i].handle)] + rest.events;
        forall a, b | 0 <= a < b < |r.events|
          ensures r.events[a] != r.events[b]
        {
          assert r.events[b] == rest.events[b - 1];
          if a > 0 {
            assert r.events[a] == rest.events[a - 1];
          } else {
            assert r.events[b] in rest.events;
            var k :| k in cur' && k !in deps && k in tail &&
              r.events[b] == Unsubscribed(cur'[k].cell, cur'[k].handle);
            assert cur[k].handle != cur[i].handle;
          }
        }
      } else {
        DropStaleOnce(cur, deps, tail);
      }
    }
  }

  /** The first loop deletes exactly the visited sources that are no longer
      dependencies, keeps the others untouched, and unsubscribes each deleted
      source once, with its own cell and handle. */
  lemma DropStaleSpec<V>(cur: map<nat, Source<V>>, deps: map<nat, Cell<V>>, order: seq<nat>)
    ensures var r := DropStale(cur, deps, order);
      && (forall k :: k in r.sources <==> k in cur && (k in deps || k !in order))
      && (forall k :: k in r.sources ==> r.sources[k] == cur[k])
      && (forall k :: k in cur && k !in deps && k in order ==>
            Unsubscribed(cur[k].cell, cur[k].handle) in r.events)
      && OnlyStale(r.events, cur, deps, order)
      && (HandlesDistinct(cur) ==> NoDuplicates(r.events))
      && ((forall k :: k in order && k in cur ==> k in deps) ==> r == Rewiring(cur, []))
  {
    DropStaleSources(cur, deps, order);
    DropStaleEvents(cur, deps, order);
    if HandlesDistinct(cur) {
      DropStaleOnce(cur, deps, order);
    }
  }

  /** `sources` keeps every source of `cur` and adds one for each identity of
      `order` that had none, with the dependency's cell and a handle in
      `[lo, hi)`. */
  ghost predicate AddedFrom<V>(sources: map<nat, Source<V>>, cur: map<nat, Source<V>>, deps: map<nat, Cell<V>>,
                               order: seq<nat>, lo: Handle, hi: Handle)
    requires forall k :: k in order ==> k in deps
  {
    && (forall k :: k in sources <==> k in cur || k in order)
    && (forall k :: k in cur ==> sources[k] == cur[k])
    && (forall k :: k in order && k !in cur ==> sources[k].cell == deps[k] && lo <= sources[k].handle < hi)
  }

  /** The second loop keeps every existing source and adds one for each
      visited identity that had none, with the dependency's cell and a handle
      from `next` on; when every visited identity has a source it changes
      nothing. */
  lemma {:induction false} AddNewKeeps<V>(cur: map<nat, Source<V>>, deps: map<nat, Cell<V>>, order: seq<nat>, next: Handle)
    requires forall k :: k in order ==> k in deps
    ensures var r := AddNew(cur, deps, order, next);
      && AddedFrom(r.sources, cur, deps, order, next, next + |r.events|)
      && ((forall k :: k in order ==> k in cur) ==> r == Rewiring(cur, []))
    decreases |order|
  {
    if order != [] {
      var j := order[0];
      var tail := order[1..];
      assert forall k :: k in order <==> k == j || k in tail;
      if j in cur {
        AddNewKeeps(cur, deps, tail, next);
      } else {
        AddNewKeeps(cur[j := Source(deps[j], next)], deps, tail, next + 1);
      }
    }
  }

  /** The handles the second loop hands out are fresh: every handle stays
      below the next one to hand out, and none is shared. */
  lemma {:induction false} AddNewFresh<V>(cur: map<nat, Source<V>>, deps: map<nat, Cell<V>>, order: seq<nat>, next: Handle)
    requires forall k :: k in order ==> k in deps
    requires HandlesBelow(cur, next) && HandlesDistinct(cur)
    ensures var r := AddNew(cur, deps, order, next);
      HandlesBelow(r.sources, next + |r.events|) && HandlesDistinct(r.sources)
    decreases |order|
  {
    if order != [] {
      var j := order[0];
      var tail := order[1..];
      if j in cur {
        AddNewFresh(cur, deps, tail, next);
      } else {
        var cur' := cur[j := Source(deps[j], next)];
        assert HandlesBelow(cur', next + 1) && HandlesDistinct(cur');
        AddNewFresh(cur', deps, tail, next + 1);
      }
    }
  }

  /** The second loop keeps every existing source, adds one for each visited
      identity that had none with the dependency's cell and a fresh handle,
      and changes nothing when every visited identity has a source. */
  lemma AddNewSources<V>(cur: map<nat, Source<V>>, deps: map<nat, Cell<V>>, order: seq<nat>, next: Handle)
    requires forall k :: k in order ==> k in deps
    ensures var r := AddNew(cur, deps, order, next);
      && AddedFrom(r.sources, cur, deps, order, next, next + |r.events|)
      && (HandlesBelow(cur, next) ==> HandlesBelow(r.sources, next + |r.events|))
      && (HandlesBelow(cur, next) && HandlesDistinct(cur) ==> HandlesDistinct(r.sources))
      && ((forall k :: k in order ==> k in cur) ==> r == Rewiring(cur, []))
  {
    AddNewKeeps(cur, deps, order, next);
    if HandlesBelow(cur, next) {
      var r := AddNew(cur, deps, order, next);
      forall k | k in r.sources
        ensures r.sources[k].handle < next + |r.events|
      {
        if k in cur {
          assert r.sources[k] == cur[k];
        }
      }
      if HandlesDistinct(cur) {
        AddNewFresh(cur, deps, order, next);
      }
    }
  }

  /** Every call in `events` subscribes to the cell of a source in `sources`,
      with that source's handle, for an identity visited in `order` that had
      no source in `cur`. */
  ghost predicate OnlyAdded<V>(events: seq<Event<V>>, sources: map<nat, Source<V>>, cur: map<nat, Source<V>>, order: seq<nat>)
  {
    forall e :: e in events ==>
      && e.Subscribed?
      && exists k :: k in order && k !in cur && k in sources && sources[k] == Source(e.cell, e.handle)
  }

  /** The calls hand out the handles `next`, `next + 1`, ... in turn. */
  ghost predicate Numbered<V>(events: seq<Event<V>>, next: Handle)
  {
    forall n :: 0 <= n < |events| ==> events[n].handle == next + n
  }

  /** The second loop hands out the handles `next`, `next + 1`, ... in
      visiting order. */
  lemma {:induction false} AddNewHandles<V>(cur: map<nat, Source<V>>, deps: map<nat, Cell<V>>, order: seq<nat>, next: Handle)
    requires forall k :: k in order ==> k in deps
    ensures Numbered(AddNew(cur, deps, order, next).events, next)
    decreases |order|
  {
    if order != [] {
      var j := order[0];
      var tail := order[1..];
      var r := AddNew(cur, deps, order, next);
      if j in cur {
        AddNewHandles(cur, deps, tail, next);
        assert r == AddNew(cur, deps, tail, next);
      } else {
        var cur' := cur[j := Source(deps[j], next)];
        var rest := AddNew(cur', deps, tail, next + 1);
        AddNewHandles(cur', deps, tail, next + 1);
        assert r.events == [Subscribed(deps[j], next)] + rest.events;
        forall n | 0 <= n < |r.events|
          ensures r.events[n].handle == next + n
        {
          if n > 0 { assert r.events[n] == rest.events[n - 1]; }
        }
      }
    }
  }

  /** Each call of the second loop subscribes on behalf of a source it added. */
  lemma {:induction false} AddNewOnlyAdded<V>(cur: map<nat, Source<V>>, deps: map<nat, Cell<V>>, order: seq<nat>, next: Handle)
    requires forall k :: k in order ==> k in deps
    ensures var r := AddNew(cur, deps, order, next);
      OnlyAdded(r.events, r.sources, cur, order)
    decreases |order|
  {
    if order != [] {
      var j := order[0];
      var tail := order[1..];
      assert forall k :: k in order <==> k == j || k in tail;
      var r := AddNew(cur, deps, order, next);
      if j in cur {
        AddNewOnlyAdded(cur, deps, tail, next);
        assert r == AddNew(cur, deps, tail, next);
        forall e | e in r.events
          ensures exists k :: k in order && k !in cur && k in r.sources && r.sources[k] == Source(e.cell, e.handle)
        {
          var k :| k in tail && k !in cur && k in r.sources && r.sources[k] == Source(e.cell, e.handle);
          assert k in order;
        }
      } else {
        var cur' := cur[j := Source(deps[j], next)];
        var rest := AddNew(cur', deps, tail, next + 1);
        AddNewOnlyAdded(cur', deps, tail, next + 1);
        AddNewKeeps(cur', deps, tail, next + 1);
        var added := Subscribed(deps[j], next);
        assert r.events == [added] + rest.events;
        assert r.sources == rest.sources;
        forall e | e in r.events
          ensures e.Subscribed?
          ensures exists k :: k in order && k !in cur && k in r.sources && r.sources[k] == Source(e.cell, e.handle)
        {
          if e == added {
            assert r.sources[j] == Source(e.cell, e.handle);
          } else {
            assert e in rest.events;
            var k :| k in tail && k !in cur' && k in rest.sources && rest.sources[k] == Source(e.cell, e.handle);
            assert k in order;
          }
        }
      }
    }
  }

  /** Each identity visited in `order` without a source in `cur` has one in
      `sources`, and `events` subscribes to its cell with its handle. */
  ghost predicate AddedLogged<V>(events: seq<Event<V>>, sources: map<nat, Source<V>>, cur: map<nat, Source<V>>,
                                 deps: map<nat, Cell<V>>, order: seq<nat>)
    requires forall k :: k in order ==> k in deps
  {
    forall k :: k in order && k !in cur ==>
      k in sources && Subscribed(deps[k], sources[k].handle) in events
  }

  /** Each source the second loop adds was subscribed to with its own cell
      and handle. */
  lemma {:induction false} AddNewSubscribes<V>(cur: map<nat, Source<V>>, deps: map<nat, Cell<V>>, order: seq<nat>, next: Handle)
    requires forall k :: k in order ==> k in deps
    ensures var r := AddNew(cur, deps, order, next);
      AddedLogged(r.events, r.sources, cur, deps, order)
    decreases |order|
  {
    if order != [] {
      var j := order[0];
      var tail := order[1..];
      assert forall k :: k in order <==> k == j || k in tail;
      var r := AddNew(cur, deps, order, next);
      if j in cur {
        AddNewSubscribes(cur, deps, tail, next);
        assert r == AddNew(cur, deps, tail, next);
      } else {
        var cur' := cur[j := Source(deps[j], next)];
        var rest := AddNew(cur', deps, tail, next + 1);
        AddNewSubscribes(cur', deps, tail, next + 1);
        AddNewKeeps(cur', deps, tail, next + 1);
        assert r.events == [Subscribed(deps[j], next)] + rest.events;
        assert r.sources == rest.sources;
        forall k | k in order && k !in cur
          ensures k in r.sources && Subscribed(deps[k], r.sources[k].handle) in r.events
        {
          if k == j {
            assert rest.sources[j] == cur'[j];
          } else {
            assert k in tail && k !in cur';
            assert Subscribed(deps[k], rest.sources[k].handle) in rest.events;
          }
        }
      }
    }
  }

  /** The sources after both loops, whatever order each visits its keys in. */
  lemma {:induction false} DiffAlongSources<V>(cur: map<nat, Source<V>>, deps: map<nat, Cell<V>>, next: Handle,
                                               dropOrder: seq<nat>, addOrder: seq<nat>)
    requires HandlesDistinct(cur) && HandlesBelow(cur, next)
    requires Visits(dropOrder, cur.Keys) && Visits(addOrder, deps.Keys)
    ensures var d := DiffAlong(cur, deps, next, dropOrder, addOrder);
      && d.sources.Keys == deps.Keys
      && (forall k :: k in cur && k in deps ==> d.sources[k] == cur[k])
      && (forall k :: k in deps && k !in cur ==> d.sources[k].cell == deps[k] && next <= d.sources[k].handle)
      && HandlesDistinct(d.sources) && HandlesBelow(d.sources, next + |d.events|)
  {
    var drop := DropStale(cur, deps, dropOrder);
    DropStaleSpec(cur, deps, dropOrder);
    assert HandlesDistinct(drop.sources) && HandlesBelow(drop.sources, next);
    var add := AddNew(drop.sources, deps, addOrder, next);
    AddNewSources(drop.sources, deps, addOrder, next);
    assert forall k :: k in drop.sources ==> k in cur && k in deps;
    assert forall k :: k in add.sources <==> k in deps;
  }

  /** After the diff the sources are keyed exactly by the dependencies: a
      surviving source is untouched, a new one holds the dependency's cell and
      a handle from `next` on, and no two sources share a handle. */
  lemma {:induction false} DiffSources<V>(cur: map<nat, Source<V>>, deps: map<nat, Cell<V>>, next: Handle)
    requires HandlesDistinct(cur) && HandlesBelow(cur, next)
    ensures var d := Diff(cur, deps, next);
      && d.sources.Keys == deps.Keys
      && (forall k :: k in cur && k in deps ==> d.sources[k] == cur[k])
      && (forall k :: k in deps && k !in cur ==> d.sources[k].cell == deps[k] && next <= d.sources[k].handle)
      && HandlesDistinct(d.sources) && HandlesBelow(d.sources, next + |d.events|)
  {
    AscendingEnumerates(cur.Keys);
    AscendingEnumerates(deps.Keys);
    DiffAlongSources(cur, deps, next, Ascending(cur.Keys), Ascending(deps.Keys));
  }

  /** The unsubscriptions of both loops: each dropped source is
      unsubscribed, and each unsubscription belongs to a dropped source. */
  lemma {:induction false} DiffAlongUnsubscribes<V>(cur: map<nat, Source<V>>, deps: map<nat, Cell<V>>, next: Handle,
                                                    dropOrder: seq<nat>, addOrder: seq<nat>)
    requires Visits(dropOrder, cur.Keys) && Visits(addOrder, deps.Keys)
    ensures var d := DiffAlong(cur, deps, next, dropOrder, addOrder);
      && (forall k :: k in cur && k !in deps ==> Unsubscribed(cur[k].cell, cur[k].handle) in d.events)
      && (forall e :: e in d.events && e.Unsubscribed? ==>
            exists k :: k in cur && k !in deps && e == Unsubscribed(cur[k].cell, cur[k].handle))
  {
    var drop := DropStale(cur, deps, dropOrder);
    DropStaleEvents(cur, deps, dropOrder);
    var add := AddNew(drop.sources, deps, addOrder, next);
    AddNewOnlyAdded(drop.sources, deps, addOrder, next);
    var d := DiffAlong(cur, deps, next, dropOrder, addOrder);
    assert d.events == drop.events + add.events;
    forall k | k in cur && k !in deps
      ensures Unsubscribed(cur[k].cell, cur[k].handle) in d.events
    {
      assert k in dropOrder;
    }
    forall e | e in d.events && e.Unsubscribed?
      ensures exists k :: k in cur && k !in deps && e == Unsubscribed(cur[k].cell, cur[k].handle)
    {
      assert e !in add.events;
      var k :| k in cur && k !in deps && k in dropOrder && e == Unsubscribed(cur[k].cell, cur[k].handle);
    }
  }

  /** The subscriptions of both loops: each new source is subscribed to with
      its own handle, and each subscription belongs to a new source. */
  lemma {:induction false} DiffAlongSubscribes<V>(cur: map<nat, Source<V>>, deps: map<nat, Cell<V>>, next: Handle,
                                                  dropOrder: seq<nat>, addOrder: seq<nat>)
    requires Visits(dropOrder, cur.Keys) && Visits(addOrder, deps.Keys)
    ensures var d := DiffAlong(cur, deps, next, dropOrder, addOrder);
      && d.sources.Keys == deps.Keys
      && (forall k :: k in deps && k !in cur ==> Subscribed(deps[k], d.sources[k].handle) in d.events)
      && (forall e :: e in d.events && e.Subscribed? ==>
            exists k :: k in deps && k !in cur && d.sources[k] == Source(e.cell, e.handle))
  {
    var drop := DropStale(cur, deps, dropOrder);
    DropStaleSources(cur, deps, dropOrder);
    DropStaleEvents(cur, deps, dropOrder);
    var add := AddNew(drop.sources, deps, addOrder, next);
    AddNewKeeps(drop.sources, deps, addOrder, next);
    AddNewOnlyAdded(drop.sources, deps, addOrder, next);
    AddNewSubscribes(drop.sources, deps, addOrder, next);
    var d := DiffAlong(cur, deps, next, dropOrder, addOrder);
    assert d.events == drop.events + add.events;
    assert d.sources == add.sources;
    assert forall k :: k in drop.sources ==> k in cur && k in deps;
    assert forall k :: k in add.sources <==> k in deps;
    forall k | k in deps && k !in cur
      ensures Subscribed(deps[k], d.sources[k].handle) in d.events
    {
      assert k in addOrder && k !in drop.sources;
    }
    forall e | e in d.events && e.Subscribed?
      ensures exists k :: k in deps && k !in cur && d.sources[k] == Source(e.cell, e.handle)
    {
      assert e !in drop.events;
      assert e in add.events;
      var k :| k in addOrder && k !in drop.sources && k in add.sources && add.sources[k] == Source(e.cell, e.handle);
      assert k in deps && k !in cur;
    }
  }

  /** The slot calls of both loops, whatever order each visits its keys in. */
  lemma DiffAlongEvents<V>(cur: map<nat, Source<V>>, deps: map<nat, Cell<V>>, next: Handle,
                           dropOrder: seq<nat>, addOrder: seq<nat>)
    requires Visits(dropOrder, cur.Keys) && Visits(addOrder, deps.Keys)
    ensures var d := DiffAlong(cur, deps, next, dropOrder, addOrder);
      && d.sources.Keys == deps.Keys
      && (forall k :: k in cur && k !in deps ==> Unsubscribed(cur[k].cell, cur[k].handle) in d.events)
      && (forall k :: k in deps && k !in cur ==> Subscribed(deps[k], d.sources[k].handle) in d.events)
      && (forall e :: e in d.events && e.Unsubscribed? ==>
            exists k :: k in cur && k !in deps && e == Unsubscribed(cur[k].cell, cur[k].handle))
      && (forall e :: e in d.events && e.Subscribed? ==>
            exists k :: k in deps && k !in cur && d.sources[k] == Source(e.cell, e.handle))
  {
    DiffAlongUnsubscribes(cur, deps, next, dropOrder, addOrder);
    DiffAlongSubscribes(cur, deps, next, dropOrder, addOrder);
  }

  /** The slot calls of the diff: every dropped source is unsubscribed and
      every new one subscribed, and each call belongs to such a source. */
  lemma {:induction false} DiffEvents<V>(cur: map<nat, Source<V>>, deps: map<nat, Cell<V>>, next: Handle)
    requires HandlesDistinct(cur) && HandlesBelow(cur, next)
    ensures var d := Diff(cur, deps, next);
      && d.sources.Keys == deps.Keys
      && (forall k :: k in cur && k !in deps ==> Unsubscribed(cur[k].cell, cur[k].handle) in d.events)
      && (forall k :: k in deps && k !in cur ==> Subscribed(deps[k], d.sources[k].handle) in d.events)
      && (forall e :: e in d.events && e.Unsubscribed? ==>
            exists k :: k in cur && k !in deps && e == Unsubscribed(cur[k].cell, cur[k].handle))
      && (forall e :: e in d.events && e.Subscribed? ==>
            exists k :: k in deps && k !in cur && d.sources[k] == Source(e.cell, e.handle))
  {
    AscendingEnumerates(cur.Keys);
    AscendingEnumerates(deps.Keys);
    DiffAlongEvents(cur, deps, next, Ascending(cur.Keys), Ascending(deps.Keys));
  }

  /** Calls in which no subscription precedes an unsubscription. */
  ghost predicate UnsubscribesFirst<V>(events: seq<Event<V>>)
  {
    forall a, b :: 0 <= a < b < |events| && events[a].Subscribed? ==> events[b].Subscribed?
  }

  /** Unsubscriptions followed by subscriptions, each run free of repeats,
      repeat nothing and keep every unsubscription first. */
  lemma ConcatUnsubscribesFirst<V>(xs: seq<Event<V>>, ys: seq<Event<V>>)
    requires forall e :: e in xs ==> e.Unsubscribed?
    requires forall e :: e in ys ==> e.Subscribed?
    requires NoDuplicates(xs) && NoDuplicates(ys)
    ensures NoDuplicates(xs + ys) && UnsubscribesFirst(xs + ys)
  {
    var zs := xs + ys;
    forall n | 0 <= n < |xs|
      ensures zs[n].Unsubscribed?
    {
      assert zs[n] == xs[n] && xs[n] in xs;
    }
    forall a, b | 0 <= a < b < |zs| && zs[a].Subscribed?
      ensures zs[b].Subscribed?
    {
      assert zs[b] == ys[b - |xs|] && ys[b - |xs|] in ys;
    }
    forall a, b | 0 <= a < b < |zs|
      ensures zs[a] != zs[b]
    {
      if b < |xs| {
        assert zs[a] == xs[a] && zs[b] == xs[b];
      } else if a >= |xs| {
        assert zs[a] == ys[a - |xs|] && zs[b] == ys[b - |xs|];
      } else {
        assert zs[a] == xs[a] && xs[a] in xs;
        assert zs[b] == ys[b - |xs|] && ys[b - |xs|] in ys;
      }
    }
  }

  /** Both loops call each slot once, and make every unsubscription before
      the first subscription, whatever order each visits its keys in. */
  lemma {:induction false} DiffAlongOrder<V>(cur: map<nat, Source<V>>, deps: map<nat, Cell<V>>, next: Handle,
                                             dropOrder: seq<nat>, addOrder: seq<nat>)
    requires HandlesDistinct(cur) && HandlesBelow(cur, next)
    requires Visits(addOrder, deps.Keys)
    ensures var d := DiffAlong(cur, deps, next, dropOrder, addOrder);
      NoDuplicates(d.events) && UnsubscribesFirst(d.events)
  {
    var drop := DropStale(cur, deps, dropOrder);
    DropStaleSpec(cur, deps, dropOrder);
    var add := AddNew(drop.sources, deps, addOrder, next);
    AddNewOnlyAdded(drop.sources, deps, addOrder, next);
    AddNewHandles(drop.sources, deps, addOrder, next);
    assert forall e :: e in drop.events ==> e.Unsubscribed?;
    assert NoDuplicates(add.events) by {
      forall a, b | 0 <= a < b < |add.events|
        ensures add.events[a] != add.events[b]
      {
        assert add.events[a].handle == next + a;
      }
    }
    ConcatUnsubscribesFirst(drop.events, add.events);
  }

  /** The diff calls each slot once, and makes every unsubscription before
      the first subscription. */
  lemma {:induction false} DiffOrder<V>(cur: map<nat, Source<V>>, deps: map<nat, Cell<V>>, next: Handle)
    requires HandlesDistinct(cur) && HandlesBelow(cur, next)
    ensures var d := Diff(cur, deps, next);
      NoDuplicates(d.events) && UnsubscribesFirst(d.events)
  {
    AscendingEnumerates(deps.Keys);
    DiffAlongOrder(cur, deps, next, Ascending(cur.Keys), Ascending(deps.Keys));
  }

  /** Re-running both loops against the dependencies just installed changes
      nothing and calls no slot. */
  lemma {:induction false} DiffAlongUnchanged<V>(cur: map<nat, Source<V>>, deps: map<nat, Cell<V>>, next: Handle,
                                                 dropOrder: seq<nat>, addOrder: seq<nat>)
    requires HandlesDistinct(cur) && HandlesBelow(cur, next)
    requires Visits(dropOrder, cur.Keys) && Visits(addOrder, deps.Keys)
    requires cur.Keys == deps.Keys
    ensures DiffAlong(cur, deps, next, dropOrder, addOrder) == Rewiring(cur, [])
  {
    var drop := DropStale(cur, deps, dropOrder);
    DropStaleSpec(cur, deps, dropOrder);
    assert drop.sources == cur;
    var add := AddNew(drop.sources, deps, addOrder, next);
    AddNewOnlyAdded(drop.sources, deps, addOrder, next);
    AddNewSources(drop.sources, deps, addOrder, next);
    assert add.sources == cur;
  }

  /** Re-running the diff against the dependencies it has just installed
      changes nothing and calls no slot. */
  lemma {:induction false} DiffUnchanged<V>(cur: map<nat, Source<V>>, deps: map<nat, Cell<V>>, next: Handle)
    requires HandlesDistinct(cur) && HandlesBelow(cur, next)
    requires cur.Keys == deps.Keys
    ensures Diff(cur, deps, next) == Rewiring(cur, [])
  {
    AscendingEnumerates(cur.Keys);
    AscendingEnumerates(deps.Keys);
    DiffAlongUnchanged(cur, deps, next, Ascending(cur.Keys), Ascending(deps.Keys));
  }

  /** With no dependencies left, the first loop deletes every source and
      unsubscribes each exactly once with its stored handle. */
  lemma {:induction false} DropAllSpec<V>(cur: map<nat, Source<V>>)
    requires HandlesDistinct(cur)
    ensures var r := DropStale(cur, map[], Ascending(cur.Keys));
      && r.sources == map[]
      && NoDuplicates(r.events)
      && (forall k :: k in cur ==> Unsubscribed(cur[k].cell, cur[k].handle) in r.events)
      && (forall e :: e in r.events ==> exists k :: k in cur && e == Unsubscribed(cur[k].cell, cur[k].handle))
  {
    var order := Ascending(cur.Keys);
    var none: map<nat, Cell<V>> := map[];
    AscendingEnumerates(cur.Keys);
    DropStaleSpec(cur, none, order);
    var r := DropStale(cur, none, order);
    assert r.sources.Keys == {};
    forall e | e in r.events
      ensures exists k :: k in cur && e == Unsubscribed(cur[k].cell, cur[k].handle)
    {
      var k :| k in cur && k !in none && k in order && e == Unsubscribed(cur[k].cell, cur[k].handle);
    }
  }

  /** The handles the sources hold. */
  ghost function Handles<V>(m: map<nat, Source<V>>): set<Handle>
  {
    set k | k in m :: m[k].handle
  }

  /** With no dependencies left, the first loop releases exactly the handles
      the sources held and no other subscription. */
  lemma DropAllReleases<V>(cur: map<nat, Source<V>>, live: map<Handle, Cell<V>>)
    requires HandlesDistinct(cur)
    ensures HeldAfter(live, DropStale(cur, map[], Ascending(cur.Keys)).events) == live - Handles(cur)
  {
    var r := DropStale(cur, map[], Ascending(cur.Keys));
    DropAllSpec(cur);
    HeldAfterReleases(live, r.events);
    forall h | h in Handles(cur)
      ensures h in (set e | e in r.events :: e.handle)
    {
      var k :| k in cur && cur[k].handle == h;
      assert Unsubscribed(cur[k].cell, cur[k].handle) in r.events;
    }
  }

  /** The diff leaves every held subscription that no source holds as it
      was: it unsubscribes only handles of sources and subscribes only with
      fresh handles. */
  lemma DiffKeepsOthers<V>(cur: map<nat, Source<V>>, deps: map<nat, Cell<V>>, next: Handle,
                           live: map<Handle, Cell<V>>)
    requires HandlesDistinct(cur) && HandlesBelow(cur, next)
    requires forall h :: h in live ==> h < next
    ensures var held := HeldAfter(live, Diff(cur, deps, next).events);
      forall h :: h in live && h !in Handles(cur) ==> h in held && held[h] == live[h]
  {
    var d := Diff(cur, deps, next);
    DiffEvents(cur, deps, next);
    DiffSources(cur, deps, next);
    forall h | h in live && h !in Handles(cur)
      ensures h in HeldAfter(live, d.events) && HeldAfter(live, d.events)[h] == live[h]
    {
      forall e | e in d.events
        ensures e.handle != h
      {
        if e.Unsubscribed? {
          var k :| k in cur && k !in deps && e == Unsubscribed(cur[k].cell, cur[k].handle);
          assert e.handle in Handles(cur);
        } else {
          var k :| k in deps && k !in cur && d.sources[k] == Source(e.cell, e.handle);
        }
      }
      HeldAfterUntouched(live, d.events, h);
    }
  }
}
