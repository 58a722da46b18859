/** `Cell.id`: hands each cell an integer identity the first time it is asked,
    taken from a counter kept in the closure that builds `Cell.id`, and caches
    it on the cell. The cache is kept here as a map from cell objects to their
    identity. */
module Identity {

  /** The counter (the next identity to hand out) and the identity cached on
      each cell that has one. */
  datatype IdState = IdState(counter: nat, ids: map<object, nat>)

  /** Identities start at 1, are all below the counter and are never shared. */
  ghost predicate Valid(st: IdState)
  {
    && 1 <= st.counter
    && (forall c :: c in st.ids ==> 1 <= st.ids[c] < st.counter)
    && (forall c, d :: c in st.ids && d in st.ids && c != d ==> st.ids[c] != st.ids[d])
  }

  /** `st'` keeps every identity of `st`. */
  ghost predicate Extends(st: IdState, st': IdState)
  {
    && st.counter <= st'.counter
    && (forall c :: c in st.ids ==> c in st'.ids && st'.ids[c] == st.ids[c])
  }

  datatype Allocation = Allocation(state: IdState, id: nat)

  /** One call of `Cell.id(c)`. */
  function Allocate(st: IdState, c: object): (a: Allocation)
    ensures c in a.state.ids && a.state.ids[c] == a.id
    ensures Extends(st, a.state)
    ensures a.state.ids.Keys == st.ids.Keys + {c}
    ensures c in st.ids ==> a.state == st
    ensures c !in st.ids ==> a.id == st.counter && a.state.counter == st.counter + 1
    ensures Valid(st) ==> Valid(a.state)
  {
    if c in st.ids then Allocation(st, st.ids[c])
    else Allocation(IdState(st.counter + 1, st.ids[c := st.counter]), st.counter)
  }

  /** The identities returned by asking for `cs[0]`, `cs[1]`, ... in turn. */
  function AllocateEach(st: IdState, cs: seq<object>): (r: (IdState, seq<nat>))
    decreases |cs|
  {
    if cs == [] then (st, [])
    else
      var a := Allocate(st, cs[0]);
      var rest := AllocateEach(a.state, cs[1..]);
      (rest.0, [a.id] + rest.1)
  }

  /** Over any sequence of requests, a cell always gets the same identity,
      distinct cells get distinct identities, and a cell asked for the first
      time gets an identity above every identity cached before the sequence. */
  lemma {:induction false} AllocateEachStable(st: IdState, cs: seq<object>)
    requires Valid(st)
    ensures var (st', ids) := AllocateEach(st, cs);
      && Valid(st') && Extends(st, st') && |ids| == |cs|
      && (forall i :: 0 <= i < |cs| ==> cs[i] in st'.ids && st'.ids[cs[i]] == ids[i])
      && (forall i, j :: 0 <= i < |cs| && 0 <= j < |cs| ==> (ids[i] == ids[j] <==> cs[i] == cs[j]))
      && (forall i :: 0 <= i < |cs| && cs[i] !in st.ids ==>
            forall c :: c in st.ids ==> st.ids[c] < ids[i])
    decreases |cs|
  {
    if cs != [] {
      var a := Allocate(st, cs[0]);
      AllocateEachStable(a.state, cs[1..]);
      var (st', ids) := AllocateEach(st, cs);
      assert ids == [a.id] + AllocateEach(a.state, cs[1..]).1;
      forall i | 0 <= i < |cs|
        ensures cs[i] in st'.ids && st'.ids[cs[i]] == ids[i]
      {
        if i > 0 { assert cs[i] == cs[1..][i - 1]; }
      }
      forall i | 0 <= i < |cs| && cs[i] !in st.ids
        ensures forall c :: c in st.ids ==> st.ids[c] < ids[i]
      {
        if i == 0 {
        } else {
          assert cs[i] == cs[1..][i - 1];
          assert cs[i] != cs[0] ==> cs[i] !in a.state.ids;
          if cs[i] == cs[0] {
            assert ids[i] == st'.ids[cs[0]] == a.id;
          }
        }
      }
    }
  }

  /** A cell not cached before the sequence and other than its first cell
      gets an identity above the first cell's. */
  lemma FreshAboveFirst(st: IdState, cs: seq<object>, i: nat)
    requires Valid(st) && 0 < i < |cs| && cs[i] !in st.ids && cs[i] != cs[0]
    ensures |AllocateEach(st, cs).1| == |cs|
    ensures AllocateEach(st, cs).1[0] < AllocateEach(st, cs).1[i]
  {
    var a := Allocate(st, cs[0]);
    var tail := cs[1..];
    AllocateEachStable(a.state, tail);
    assert AllocateEach(st, cs).1 == [a.id] + AllocateEach(a.state, tail).1;
    assert cs[i] == tail[i - 1] && cs[i] !in a.state.ids;
  }

  /** `cs[i]` had no identity before the sequence and is asked for at `i`
      for the first time. */
  ghost predicate FirstAsked(st: IdState, cs: seq<object>, i: nat)
    requires i < |cs|
  {
    cs[i] !in st.ids && cs[i] !in cs[..i]
  }

  /** A cell asked for the first time after the head is asked for the first
      time in the tail, after the head's identity is handed out. */
  lemma FirstInTail(st: IdState, cs: seq<object>, i: nat)
    requires 0 < i < |cs| && FirstAsked(st, cs, i)
    ensures cs[i] != cs[0] && FirstAsked(Allocate(st, cs[0]).state, cs[1..], i - 1)
  {
    assert cs[0] in cs[..i];
    assert forall x :: x in cs[1..][..i - 1] ==> x in cs[..i];
    assert cs[1..][i - 1] == cs[i];
  }

  /** Indexing past the first identity. */
  lemma Shifted(first: nat, rest: seq<nat>, i: nat)
    requires 0 < i <= |rest|
    ensures ([first] + rest)[i] == rest[i - 1]
  {
  }

  /** A cell asked for the first time in the sequence, and not cached
      before it, gets an identity above every identity handed out earlier in
      the sequence. */
  lemma {:induction false} AllocateEachIncreasing(st: IdState, cs: seq<object>)
    requires Valid(st)
    ensures var ids := AllocateEach(st, cs).1;
      && |ids| == |cs|
      && (forall i, j :: 0 <= j < i < |cs| && FirstAsked(st, cs, i) ==> ids[j] < ids[i])
    decreases |cs|
  {
    if cs != [] {
      var a := Allocate(st, cs[0]);
      var tail := cs[1..];
      AllocateEachIncreasing(a.state, tail);
      var ids := AllocateEach(st, cs).1;
      var rest := AllocateEach(a.state, tail).1;
      assert ids == [a.id] + rest;
      forall i, j | 0 <= j < i < |cs| && FirstAsked(st, cs, i)
        ensures ids[j] < ids[i]
      {
        FirstInTail(st, cs, i);
        if j == 0 {
          FreshAboveFirst(st, cs, i);
        } else {
          Shifted(a.id, rest, i);
          Shifted(a.id, rest, j);
        }
      }
    }
  }

  /** Over any sequence of requests, a cell always gets the same identity,
      distinct cells get distinct identities, and a cell asked for the first
      time gets an identity above every identity handed out before it, both
      before the sequence and earlier in it. */
  lemma AllocateEachUnique(st: IdState, cs: seq<object>)
    requires Valid(st)
    ensures var (st', ids) := AllocateEach(st, cs);
      && Valid(st') && Extends(st, st') && |ids| == |cs|
      && (forall i :: 0 <= i < |cs| ==> cs[i] in st'.ids && st'.ids[cs[i]] == ids[i])
      && (forall i, j :: 0 <= i < |cs| && 0 <= j < |cs| ==> (ids[i] == ids[j] <==> cs[i] == cs[j]))
      && (forall i :: 0 <= i < |cs| && cs[i] !in st.ids ==>
            forall c :: c in st.ids ==> st.ids[c] < ids[i])
      && (forall i, j :: 0 <= j < i < |cs| && FirstAsked(st, cs, i) ==> ids[j] < ids[i])
  {
    AllocateEachStable(st, cs);
    AllocateEachIncreasing(st, cs);
  }

  /** The allocator object: the closure counter of `Cell.id` together with the
      identity cached on each cell. */
  class IdAllocator {
    var counter: nat
    var ids: map<object, nat>

    function State(): IdState
      reads this
    {
      IdState(counter, ids)
    }

    /** The counter starts at 1 and no cell has an identity yet. */
    constructor ()
      ensures State() == IdState(1, map[]) && Valid(State())
    {
      counter := 1;
      ids := map[];
    }

    /** `Cell.id(c)`: the cached identity if there is one, otherwise the
        current counter value, which is cached and then incremented. */
    method Id(c: object) returns (id: nat)
      modifies this
      ensures Allocation(State(), id) == Allocate(old(State()), c)
    {
      if c in ids {
        return ids[c];
      }
      id := counter;
      ids := ids[c := id];
      counter := counter + 1;
    }
  }
}
