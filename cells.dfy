/** The base cell abstraction that formula cells are built on: a cell holds a
    value that may be undefined, publishes new values with SetValue, and
    exposes a `dependencies` slot that other cells subscribe to. Only the parts
    the formula-cell engine uses are modelled. */
module Cells {

  /** A cell value; `None` stands for JavaScript's `undefined`. */
  datatype Option<T> = None | Some(value: T)

  /** An opaque subscription handle, as returned by `subscribeWithSlave`. */
  type Handle = nat

  /** What happened on a `dependencies` slot. */
  datatype Event<V> =
    | Subscribed(cell: Cell<V>, handle: Handle)
    | Unsubscribed(cell: Cell<V>, handle: Handle)

  class Cell<V> {
    var value: Option<V>
    /** Every value this cell was told to publish, in order. */
    ghost var published: seq<Option<V>>

    constructor ()
      ensures value == None && published == []
    {
      value := None;
      published := [];
    }

    /** Publishes a value (change notification to subscribers is not modelled). */
    method SetValue(v: Option<V>)
      modifies this
      ensures value == v
      ensures published == old(published) + [v]
    {
      value := v;
      published := published + [v];
    }
  }

  /** The `dependencies` slots of the upstream cells, seen together: each
      subscription gets a fresh handle, `live` maps the handles still held to
      the cell they were taken on, and `log` records every call. */
  class Slots<V> {
    var next: Handle
    var live: map<Handle, Cell<V>>
    ghost var log: seq<Event<V>>

    /** Every live handle was handed out earlier. */
    ghost predicate Valid()
      reads this
    {
      forall h :: h in live ==> h < next
    }

    constructor ()
      ensures Valid() && next == 0 && live == map[] && log == []
    {
      next := 0;
      live := map[];
      log := [];
    }

    method Subscribe(c: Cell<V>) returns (h: Handle)
      requires Valid()
      modifies this
      ensures Valid()
      ensures h == old(next) && h !in old(live)
      ensures next == old(next) + 1
      ensures live == old(live)[h := c]
      ensures log == old(log) + [Subscribed(c, h)]
    {
      h := next;
      next := next + 1;
      live := live[h := c];
      log := log + [Subscribed(c, h)];
    }

    method Unsubscribe(c: Cell<V>, h: Handle)
      requires Valid()
      modifies this
      ensures Valid()
      ensures next == old(next)
      ensures live == old(live) - {h}
      ensures log == old(log) + [Unsubscribed(c, h)]
    {
      live := live - {h};
      log := log + [Unsubscribed(c, h)];
    }
  }

  /** Appending `more` to a log already extended by `emitted`. */
  lemma LogAppend<V>(log0: seq<Event<V>>, emitted: seq<Event<V>>, more: seq<Event<V>>)
    ensures log0 + (emitted + more) == (log0 + emitted) + more
  {
  }

  /** The subscriptions held after one slot call. */
  function Apply<V>(live: map<Handle, Cell<V>>, e: Event<V>): map<Handle, Cell<V>>
  {
    match e
    case Subscribed(c, h) => live[h := c]
    case Unsubscribed(_, h) => live - {h}
  }

  /** The subscriptions held after the slot calls `events`, in order. */
  ghost function HeldAfter<V>(live: map<Handle, Cell<V>>, events: seq<Event<V>>): map<Handle, Cell<V>>
    decreases |events|
  {
    if events == [] then live else HeldAfter(Apply(live, events[0]), events[1..])
  }

  /** Making the calls `a` and then `b` is making the calls `a + b`. */
  lemma {:induction false} HeldAfterAppend<V>(live: map<Handle, Cell<V>>, a: seq<Event<V>>, b: seq<Event<V>>)
    ensures HeldAfter(live, a + b) == HeldAfter(HeldAfter(live, a), b)
    decreases |a|
  {
    if a == [] {
      assert a + b == b;
    } else {
      assert (a + b)[0] == a[0] && (a + b)[1..] == a[1..] + b;
      HeldAfterAppend(Apply(live, a[0]), a[1..], b);
    }
  }

  /** One more call on top of the calls `emitted`. */
  lemma HeldAfterStep<V>(live: map<Handle, Cell<V>>, emitted: seq<Event<V>>, e: Event<V>)
    ensures HeldAfter(live, emitted + [e]) == Apply(HeldAfter(live, emitted), e)
  {
    HeldAfterAppend(live, emitted, [e]);
    assert [e][1..] == [];
  }

  /** Calls that never name the handle `h` leave its subscription as it was. */
  lemma {:induction false} HeldAfterUntouched<V>(live: map<Handle, Cell<V>>, events: seq<Event<V>>, h: Handle)
    requires forall e :: e in events ==> e.handle != h
    ensures h in HeldAfter(live, events) <==> h in live
    ensures h in live ==> HeldAfter(live, events)[h] == live[h]
    decreases |events|
  {
    if events != [] {
      assert events[0] in events;
      assert forall e :: e in events[1..] ==> e in events;
      HeldAfterUntouched(Apply(live, events[0]), events[1..], h);
    }
  }

  /** Unsubscribing only releases exactly the handles named. */
  lemma {:induction false} HeldAfterReleases<V>(live: map<Handle, Cell<V>>, events: seq<Event<V>>)
    requires forall e :: e in events ==> e.Unsubscribed?
    ensures HeldAfter(live, events) == live - (set e | e in events :: e.handle)
    decreases |events|
  {
    if events != [] {
      var rest := events[1..];
      assert events[0] in events;
      assert forall e :: e in rest ==> e in events;
      HeldAfterReleases(live - {events[0].handle}, rest);
      assert (set e | e in events :: e.handle) == {events[0].handle} + (set e | e in rest :: e.handle) by {
        assert events == [events[0]] + rest;
      }
    }
  }

  /** No element occurs twice. */
  ghost predicate NoDuplicates<T>(s: seq<T>)
  {
    forall i, j :: 0 <= i < j < |s| ==> s[i] != s[j]
  }
}
