/** `FlexiFormulaCell.makeComputeFormula`: runs a user formula with an accessor
    that records every cell the formula reads, turns "a needed value is
    undefined" into an undefined result, and returns the value together with
    the dependencies read. */
module ComputeFormula {
  import opened Cells
  import opened Identity

  /** What a formula does next: call the accessor on a cell (`need` is true for
      `getValue.need`), return a value, or throw an error. */
  datatype Step<V> =
    | Read(cell: Cell<V>, need: bool)
    | Return(value: Option<V>)
    | Throw(error: string)

  /** A user formula, seen through the accessor: `next(vs)` is what it does
      after its accessor calls so far have returned `vs`. It reads only cells
      of `cells` and makes at most `bound` accessor calls. */
  datatype Formula<!V> = Formula(next: seq<Option<V>> -> Step<V>, bound: nat, cells: set<Cell<V>>)

  /** The formula terminates and reads only the cells it names. */
  ghost predicate WellFormed<V(!new)>(f: Formula<V>)
  {
    forall vs {:trigger f.next(vs)} ::
      f.next(vs).Read? ==> |vs| < f.bound && f.next(vs).cell in f.cells
  }

  /** One accessor call: the cell, its identity and the value it held. */
  datatype Access<V> = Access(cell: Cell<V>, id: nat, value: Option<V>)

  /** What `need` hands back: the value, or the undefined-value signal that
      aborts the formula. */
  datatype Needed<V> = Got(value: V) | NoValue

  /** What the wrapper returns: the pair `[value, deps]`, or the error the
      formula threw, rethrown. */
  datatype Result<V> =
    | Computed(value: Option<V>, deps: map<nat, Cell<V>>)
    | Raised(error: string)

  /** One whole evaluation: its result, the accessor calls made, and the
      identities afterwards. */
  datatype Evaluation<V> = Evaluation(result: Result<V>, trace: seq<Access<V>>, ids: IdState)

  /** The values the accessor returned to the formula, in order. */
  function Returned<V>(t: seq<Access<V>>): (vs: seq<Option<V>>)
    ensures |vs| == |t|
    ensures forall i :: 0 <= i < |t| ==> vs[i] == t[i].value
  {
    seq(|t|, i requires 0 <= i < |t| => t[i].value)
  }

  /** The accessor's bookkeeping: the first cell recorded under an identity stays. */
  function Record<V>(deps: map<nat, Cell<V>>, a: Access<V>): map<nat, Cell<V>>
  {
    if a.id in deps then deps else deps[a.id := a.cell]
  }

  /** The dependency map after the accessor calls `t`, starting from `{}`. */
  function Dependencies<V>(t: seq<Access<V>>): map<nat, Cell<V>>
    decreases |t|
  {
    if t == [] then map[] else Record(Dependencies(t[..|t| - 1]), t[|t| - 1])
  }

  /** The dependency map holds exactly the identities read. */
  lemma {:induction false} DependencyKeys<V>(t: seq<Access<V>>)
    ensures forall k :: k in Dependencies(t) <==> exists i :: 0 <= i < |t| && t[i].id == k
    decreases |t|
  {
    if t != [] {
      var p := t[..|t| - 1];
      DependencyKeys(p);
      forall k | k in Dependencies(t)
        ensures exists i :: 0 <= i < |t| && t[i].id == k
      {
        if k in Dependencies(p) {
          var i :| 0 <= i < |p| && p[i].id == k;
          assert t[i].id == k;
        }
      }
      forall k | exists i :: 0 <= i < |t| && t[i].id == k
        ensures k in Dependencies(t)
      {
        var i :| 0 <= i < |t| && t[i].id == k;
        if i < |p| { assert p[i].id == k; }
      }
    }
  }

  /** Under the identity of a cell's first read, the dependency map holds
      that cell. */
  lemma {:induction false} FirstReadCell<V>(t: seq<Access<V>>)
    ensures forall i :: 0 <= i < |t| && (forall j :: 0 <= j < i ==> t[j].id != t[i].id) ==>
              t[i].id in Dependencies(t) && Dependencies(t)[t[i].id] == t[i].cell
    decreases |t|
  {
    if t != [] {
      var p := t[..|t| - 1];
      FirstReadCell(p);
      DependencyKeys(p);
      forall i | 0 <= i < |t| && (forall j :: 0 <= j < i ==> t[j].id != t[i].id)
        ensures t[i].id in Dependencies(t) && Dependencies(t)[t[i].id] == t[i].cell
      {
        if i < |t| - 1 {
          assert p[i] == t[i];
          assert forall j :: 0 <= j < i ==> p[j].id != p[i].id;
        }
      }
    }
  }

  /** Some read of identity `k` at or before `i` is its first one. */
  lemma {:induction false} FirstOccurrence<V>(t: seq<Access<V>>, k: nat, i: nat)
    requires i < |t| && t[i].id == k
    ensures exists m :: 0 <= m <= i && t[m].id == k && forall j :: 0 <= j < m ==> t[j].id != k
    decreases i
  {
    if exists j :: 0 <= j < i && t[j].id == k {
      var j :| 0 <= j < i && t[j].id == k;
      FirstOccurrence(t, k, j);
    } else {
      assert forall j :: 0 <= j < i ==> t[j].id != k;
    }
  }

  /** The dependency map holds exactly the identities read, and under each
      one the cell of the first read that produced it. */
  lemma FirstReadWins<V>(t: seq<Access<V>>)
    ensures var d := Dependencies(t);
      && (forall k :: k in d <==> exists i :: 0 <= i < |t| && t[i].id == k)
      && (forall i :: 0 <= i < |t| && (forall j :: 0 <= j < i ==> t[j].id != t[i].id) ==>
            d[t[i].id] == t[i].cell)
      && (forall k :: k in d ==>
            exists i :: 0 <= i < |t| && t[i].id == k && d[k] == t[i].cell &&
              (forall j :: 0 <= j < i ==> t[j].id != k))
  {
    DependencyKeys(t);
    FirstReadCell(t);
    var d := Dependencies(t);
    forall k | k in d
      ensures exists i :: 0 <= i < |t| && t[i].id == k && d[k] == t[i].cell &&
                (forall j :: 0 <= j < i ==> t[j].id != k)
    {
      var i :| 0 <= i < |t| && t[i].id == k;
      FirstOccurrence(t, k, i);
      var m :| 0 <= m <= i && t[m].id == k && forall j :: 0 <= j < m ==> t[j].id != k;
      assert d[k] == t[m].cell;
    }
  }

  /** The evaluation that continues after the accessor calls `trace`, with
      identities `st`. */
  ghost function RunFrom<V(!new)>(f: Formula<V>, st: IdState, trace: seq<Access<V>>): Evaluation<V>
    requires WellFormed(f) && |trace| <= f.bound
    reads f.cells
    decreases f.bound - |trace|
  {
    match f.next(Returned(trace))
    case Return(v) => Evaluation(Computed(v, Dependencies(trace)), trace, st)
    case Throw(e) => Evaluation(Raised(e), trace, st)
    case Read(c, need) =>
      var a := Allocate(st, c);
      var t := trace + [Access(c, a.id, c.value)];
      if need && c.value.None? then Evaluation(Computed(None, Dependencies(t)), t, a.state)
      else RunFrom(f, a.state, t)
  }

  /** One call of the wrapper: the accumulator starts empty. */
  ghost function Run<V(!new)>(f: Formula<V>, st: IdState): Evaluation<V>
    requires WellFormed(f)
    reads f.cells
  {
    RunFrom(f, st, [])
  }

  /** The step the formula takes after the first `i` accessor calls of `t`. */
  function StepAfter<V(!new)>(f: Formula<V>, t: seq<Access<V>>, i: nat): Step<V>
    requires i <= |t|
  {
    f.next(Returned(t[..i]))
  }

  /** The last accessor call of `t` was a `need` of an undefined value. */
  ghost predicate Aborted<V(!new)>(f: Formula<V>, t: seq<Access<V>>)
  {
    && |t| > 0
    && StepAfter(f, t, |t| - 1).Read?
    && StepAfter(f, t, |t| - 1).need
    && t[|t| - 1].value.None?
  }

  /** `t` is a run of the accessor under identities `st`: every call is the one
      the formula asked for, read the cell's current value under its cached
      identity, and no `need` before the last call found an undefined value. */
  ghost predicate Replays<V(!new)>(f: Formula<V>, st: IdState, t: seq<Access<V>>)
    reads set i | 0 <= i < |t| :: t[i].cell
  {
    forall i :: 0 <= i < |t| ==>
      && StepAfter(f, t, i).Read?
      && StepAfter(f, t, i).cell == t[i].cell
      && t[i].value == t[i].cell.value
      && t[i].cell in st.ids && st.ids[t[i].cell] == t[i].id
      && (i < |t| - 1 && StepAfter(f, t, i).need ==> t[i].value.Some?)
  }

  lemma PrefixReturned<V>(t: seq<Access<V>>, a: Access<V>, i: nat)
    requires i <= |t|
    ensures (t + [a])[..i] == t[..i]
    ensures (t + [a])[..|t|] == t
  {
  }

  /** A read the formula asks for, made after a run that did not abort,
      extends that run. */
  lemma ReplaysExtend<V(!new)>(f: Formula<V>, st: IdState, trace: seq<Access<V>>, c: Cell<V>, need: bool)
    requires Replays(f, st, trace) && !Aborted(f, trace)
    requires f.next(Returned(trace)) == Read(c, need)
    ensures var a := Allocate(st, c);
      Replays(f, a.state, trace + [Access(c, a.id, c.value)])
  {
    var a := Allocate(st, c);
    var t := trace + [Access(c, a.id, c.value)];
    forall i | 0 <= i < |t|
      ensures && StepAfter(f, t, i).Read?
              && StepAfter(f, t, i).cell == t[i].cell
              && t[i].value == t[i].cell.value
              && t[i].cell in a.state.ids && a.state.ids[t[i].cell] == t[i].id
              && (i < |t| - 1 && StepAfter(f, t, i).need ==> t[i].value.Some?)
    {
      PrefixReturned(trace, Access(c, a.id, c.value), i);
      if i < |trace| {
        assert t[i] == trace[i];
        if i == |trace| - 1 && StepAfter(f, t, i).need {
          assert !Aborted(f, trace);
        }
      }
    }
  }

  /** How an evaluation ends: after an aborting `need` the result is undefined;
      otherwise it is what the formula returned or threw. */
  ghost predicate EndsAsFormulaSays<V(!new)>(f: Formula<V>, e: Evaluation<V>)
  {
    if Aborted(f, e.trace) then
      e.result == Computed(None, Dependencies(e.trace))
    else
      match f.next(Returned(e.trace))
      case Return(v) => e.result == Computed(v, Dependencies(e.trace))
      case Throw(err) => e.result == Raised(err)
      case Read(_, _) => false
  }

  /** Continuing a run only appends accessor calls and only adds identities. */
  lemma {:induction false} RunFromKeepsIds<V(!new)>(f: Formula<V>, st: IdState, trace: seq<Access<V>>)
    requires WellFormed(f) && |trace| <= f.bound
    ensures var e := RunFrom(f, st, trace);
      && trace <= e.trace
      && Extends(st, e.ids)
      && (Valid(st) ==> Valid(e.ids))
    decreases f.bound - |trace|
  {
    match f.next(Returned(trace))
    case Return(v) =>
    case Throw(err) =>
    case Read(c, need) =>
      var a := Allocate(st, c);
      var t := trace + [Access(c, a.id, c.value)];
      if !(need && c.value.None?) {
        RunFromKeepsIds(f, a.state, t);
      }
  }

  /** Continuing a run that replays the formula and has not aborted gives an
      evaluation that still replays it and ends as the formula says. */
  lemma {:induction false} RunFromFollowsFormula<V(!new)>(f: Formula<V>, st: IdState, trace: seq<Access<V>>)
    requires WellFormed(f) && |trace| <= f.bound
    requires Replays(f, st, trace) && !Aborted(f, trace)
    ensures var e := RunFrom(f, st, trace);
      && Replays(f, e.ids, e.trace)
      && EndsAsFormulaSays(f, e)
    decreases f.bound - |trace|
  {
    assert Returned(trace) == Returned(trace[..|trace|]);
    match f.next(Returned(trace))
    case Return(v) =>
    case Throw(err) =>
    case Read(c, need) =>
      var a := Allocate(st, c);
      var t := trace + [Access(c, a.id, c.value)];
      ReplaysExtend(f, st, trace, c, need);
      PrefixReturned(trace, Access(c, a.id, c.value), |trace|);
      if need && c.value.None? {
        assert Aborted(f, t);
      } else {
        assert !Aborted(f, t);
        RunFromFollowsFormula(f, a.state, t);
      }
  }

  /** An evaluation replays the formula from an empty accumulator, ends as
      the formula says, keeps every identity issued before it, and records
      as dependencies exactly the cells whose values it returned. */
  lemma RunFollowsFormula<V(!new)>(f: Formula<V>, st: IdState)
    requires WellFormed(f)
    ensures var e := Run(f, st);
      && Replays(f, e.ids, e.trace)
      && EndsAsFormulaSays(f, e)
      && Extends(st, e.ids)
      && (Valid(st) ==> Valid(e.ids))
  {
    RunFromKeepsIds(f, st, []);
    RunFromFollowsFormula(f, st, []);
  }

  /** `need` on an undefined value ends the evaluation at once, with an
      undefined result and without an error; an error escapes only when the
      formula itself throws it, and then unchanged. */
  lemma NeedShortCircuits<V(!new)>(f: Formula<V>, st: IdState)
    requires WellFormed(f)
    ensures var e := Run(f, st);
      && (forall i ::
            (0 <= i < |e.trace| && StepAfter(f, e.trace, i).Read? &&
             StepAfter(f, e.trace, i).need && e.trace[i].value.None?) ==>
              i == |e.trace| - 1 && e.result == Computed(None, Dependencies(e.trace)))
      && (e.result.Raised? ==> f.next(Returned(e.trace)) == Throw(e.result.error))
  {
    RunFollowsFormula(f, st);
  }

  /** The identities read during an evaluation are the keys of its dependency
      map, each under the cell's own identity. */
  lemma DependenciesAreReads<V(!new)>(f: Formula<V>, st: IdState)
    requires WellFormed(f)
    ensures var e := Run(f, st);
      e.result.Computed? ==>
        && e.result.deps == Dependencies(e.trace)
        && (forall k :: k in e.result.deps <==> exists i :: 0 <= i < |e.trace| && e.trace[i].id == k)
        && (forall k :: k in e.result.deps ==>
              e.result.deps[k] in e.ids.ids && e.ids.ids[e.result.deps[k]] == k)
  {
    RunFollowsFormula(f, st);
    var e := Run(f, st);
    if e.result.Computed? {
      assert e.result.deps == Dependencies(e.trace);
      RecordedUnderOwnId(f, e.ids, e.trace);
    }
  }

  lemma RecordedUnderOwnId<V(!new)>(f: Formula<V>, st: IdState, t: seq<Access<V>>)
    requires Replays(f, st, t)
    ensures var d := Dependencies(t);
      && (forall k :: k in d <==> exists i :: 0 <= i < |t| && t[i].id == k)
      && (forall k :: k in d ==> d[k] in st.ids && st.ids[d[k]] == k)
  {
    FirstReadWins(t);
    var d := Dependencies(t);
    forall k | k in d
      ensures d[k] in st.ids && st.ids[d[k]] == k
    {
      var i :| 0 <= i < |t| && t[i].id == k
        && d[k] == t[i].cell && forall j :: 0 <= j < i ==> t[j].id != k;
    }
  }

  lemma {:induction false} RunFromAgain<V(!new)>(f: Formula<V>, st: IdState, trace: seq<Access<V>>)
    requires WellFormed(f) && |trace| <= f.bound
    ensures var e := RunFrom(f, st, trace);
      && Extends(st, e.ids)
      && RunFrom(f, e.ids, trace) == e
    decreases f.bound - |trace|
  {
    match f.next(Returned(trace))
    case Return(v) =>
    case Throw(err) =>
    case Read(c, need) =>
      var a := Allocate(st, c);
      var t := trace + [Access(c, a.id, c.value)];
      if !(need && c.value.None?) {
        RunFromAgain(f, a.state, t);
      }
  }

  /** Evaluating again right away, with the identities the first evaluation
      left, reads the same cells and gives the same result and dependencies:
      the second evaluation `attachBack` may trigger changes nothing. */
  lemma RunAgain<V(!new)>(f: Formula<V>, st: IdState)
    requires WellFormed(f)
    ensures var e := Run(f, st);
      Run(f, e.ids) == e
  {
    RunFromAgain(f, st, []);
  }

  /** The wrapper closure of `makeComputeFormula(formula)` and its shared
      `dependencies` accumulator (`None` between calls, as `null` there). */
  class ComputedFormula<V(!new)> {
    const formula: Formula<V>
    const alloc: IdAllocator
    var dependencies: Option<map<nat, Cell<V>>>

    ghost predicate Valid()
      reads this, alloc
    {
      WellFormed(formula) && Identity.Valid(alloc.State())
    }

    /** What the next call of the wrapper does. */
    ghost function Spec(): Evaluation<V>
      requires Valid()
      reads this, alloc, formula.cells
    {
      Run(formula, alloc.State())
    }

    constructor (formula: Formula<V>, alloc: IdAllocator)
      ensures this.formula == formula && this.alloc == alloc
      ensures dependencies == None
    {
      this.formula := formula;
      this.alloc := alloc;
      dependencies := None;
    }

    /** The accessor `getValue(cell)`: records `cell` under its identity
        unless a cell is already recorded there, and returns its value. */
    method GetValue(c: Cell<V>) returns (v: Option<V>)
      requires dependencies.Some?
      modifies this`dependencies, alloc
      ensures v == c.value
      ensures var a := Allocate(old(alloc.State()), c);
        && alloc.State() == a.state
        && dependencies == Some(Record(old(dependencies.value), Access(c, a.id, v)))
    {
      var id := alloc.Id(c);
      var deps := dependencies.value;
      if id !in deps {
        dependencies := Some(deps[id := c]);
      }
      v := c.value;
    }

    /** `getValue.need(cell)`: as `getValue`, but an undefined value becomes
        the abort signal. */
    method Need(c: Cell<V>) returns (n: Needed<V>)
      requires dependencies.Some?
      modifies this`dependencies, alloc
      ensures n.NoValue? <==> c.value.None?
      ensures n.Got? ==> c.value == Some(n.value)
      ensures var a := Allocate(old(alloc.State()), c);
        && alloc.State() == a.state
        && dependencies == Some(Record(old(dependencies.value), Access(c, a.id, c.value)))
    {
      var v := GetValue(c);
      if v.None? {
        return NoValue;
      }
      n := Got(v.value);
    }

    /** The wrapper: runs the formula with a fresh accumulator and returns
        exactly what `Spec` says. On a normal return the accumulator is
        cleared; when the formula's error is rethrown it is left as it was. */
    method Call() returns (r: Result<V>)
      requires Valid()
      modifies this`dependencies, alloc
      ensures Valid()
      ensures r == old(Spec()).result && alloc.State() == old(Spec()).ids
      ensures r.Computed? ==> dependencies == None
      ensures r.Raised? ==> dependencies == Some(Dependencies(old(Spec()).trace))
    {
      ghost var e := Spec();
      ghost var trace: seq<Access<V>> := [];
      dependencies := Some(map[]);
      var vals: seq<Option<V>> := [];
      var newValue: Option<V> := None;
      var finished := false;
      while !finished
        invariant WellFormed(formula) && Identity.Valid(alloc.State())
        invariant |trace| <= formula.bound
        invariant !finished ==> vals == Returned(trace)
        invariant dependencies == Some(Dependencies(trace))
        invariant !finished ==> RunFrom(formula, alloc.State(), trace) == e
        invariant finished ==> e == Evaluation(Computed(newValue, Dependencies(trace)), trace, alloc.State())
        decreases formula.bound - |trace|, if finished then 0 else 1
      {
        match formula.next(vals)
        case Return(v) =>
          newValue := v;
          finished := true;
        case Throw(err) =>
          return Raised(err);
        case Read(c, need) =>
          ghost var a := Allocate(alloc.State(), c);
          ghost var t := trace + [Access(c, a.id, c.value)];
          ReadStep(formula, alloc.State(), trace);
          assert Returned(t) == vals + [c.value];
          if need {
            var n := Need(c);
            trace := t;
            if n.NoValue? {
              newValue := None;
              finished := true;
            } else {
              vals := vals + [Some(n.value)];
            }
          } else {
            var v := GetValue(c);
            trace := t;
            vals := vals + [v];
          }
      }
      var deps := dependencies.value;
      dependencies := None;
      r := Computed(newValue, deps);
    }
  }

  /** One read step of `RunFrom`, unfolded. */
  lemma ReadStep<V(!new)>(f: Formula<V>, st: IdState, trace: seq<Access<V>>)
    requires WellFormed(f) && |trace| <= f.bound && f.next(Returned(trace)).Read?
    ensures var s := f.next(Returned(trace));
      var a := Allocate(st, s.cell);
      var t := trace + [Access(s.cell, a.id, s.cell.value)];
      && s.cell in f.cells
      && |t| <= f.bound
      && Returned(t) == Returned(trace) + [s.cell.value]
      && Dependencies(t) == Record(Dependencies(trace), Access(s.cell, a.id, s.cell.value))
      && RunFrom(f, st, trace) ==
           if s.need && s.cell.value.None? then Evaluation(Computed(None, Dependencies(t)), t, a.state)
           else RunFrom(f, a.state, t)
  {
    var s := f.next(Returned(trace));
    var a := Allocate(st, s.cell);
    var t := trace + [Access(s.cell, a.id, s.cell.value)];
    assert Returned(t) == Returned(trace) + [s.cell.value];
    assert t[..|t| - 1] == trace;
  }
}
