/** The order in which a `for ... in` loop visits the keys of an object whose
    keys are all cell identities: integer-like keys are visited in ascending
    numeric order. */
module KeyOrder {

  predicate IsLeast(m: nat, s: set<nat>)
  {
    m in s && forall x :: x in s ==> m <= x
  }

  lemma {:induction false} LeastExists(s: set<nat>)
    requires s != {}
    ensures exists m :: IsLeast(m, s)
  {
    var y :| y in s;
    if s - {y} != {} {
      LeastExists(s - {y});
      var m :| IsLeast(m, s - {y});
      assert forall x :: x in s ==> x == y || x in s - {y};
      if y < m {
        assert IsLeast(y, s);
      } else {
        assert IsLeast(m, s);
      }
    } else {
      assert s == {y};
      assert IsLeast(y, s);
    }
  }

  ghost function Least(s: set<nat>): (m: nat)
    requires s != {}
    ensures IsLeast(m, s)
  {
    LeastExists(s);
    var m :| IsLeast(m, s); m
  }

  /** The keys of `s` in the order a `for ... in` visits them. */
  ghost function Ascending(s: set<nat>): (r: seq<nat>)
    decreases |s|
  {
    if s == {} then []
    else
      var m := Least(s);
      [m] + Ascending(s - {m})
  }

  ghost predicate Increasing(r: seq<nat>)
  {
    forall i, j :: 0 <= i < j < |r| ==> r[i] < r[j]
  }

  /** Every key is visited, exactly once, in increasing order. */
  lemma {:induction false} AscendingEnumerates(s: set<nat>)
    ensures var r := Ascending(s);
      && |r| == |s|
      && (forall k :: k in s <==> k in r)
      && Increasing(r)
  {
    if s != {} {
      var m := Least(s);
      AscendingEnumerates(s - {m});
      var r := Ascending(s);
      assert r == [m] + Ascending(s - {m});
      forall i, j | 0 <= i < j < |r|
        ensures r[i] < r[j]
      {
        if i == 0 {
          assert r[j] in Ascending(s - {m});
        }
      }
    }
  }

  /** The loop's next key is the least key not visited yet. */
  lemma AscendingFrom(m: nat, s: set<nat>)
    requires IsLeast(m, s)
    ensures Ascending(s) == [m] + Ascending(s - {m})
  {
    assert Least(s) == m;
  }

  /** The keys `s` listed in the order a `for ... in` loop visits them. */
  method AscendingKeys(s: set<nat>) returns (r: seq<nat>)
    ensures r == Ascending(s)
  {
    r := [];
    var rest := s;
    while rest != {}
      invariant Ascending(s) == r + Ascending(rest)
      decreases |rest|
    {
      LeastExists(rest);
      var m :| IsLeast(m, rest);
      AscendingFrom(m, rest);
      r := r + [m];
      rest := rest - {m};
    }
  }

  /** Every key the loop visits is a key of `s`. */
  lemma AscendingWithin(s: set<nat>)
    ensures forall m :: 0 <= m < |Ascending(s)| ==> Ascending(s)[m] in s
  {
    AscendingEnumerates(s);
    forall m | 0 <= m < |Ascending(s)|
      ensures Ascending(s)[m] in s
    {
      assert Ascending(s)[m] in Ascending(s);
    }
  }

  lemma IncreasingHasNoDuplicates(r: seq<nat>)
    requires Increasing(r)
    ensures forall i, j :: 0 <= i < j < |r| ==> r[i] != r[j]
  {
  }
}
