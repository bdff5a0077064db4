/** The largest and the smallest key of a non-empty map, as `keys().max()` and `keys().min()`
    return them. */
module Extrema {
  /** A largest element of a finite non-empty set, found by removing one element at a time. */
  lemma {:induction false} LargestOf(s: set<nat>) returns (k: nat)
    requires s != {}
    ensures k in s && forall j :: j in s ==> j <= k
  {
    var x :| x in s;
    var rest := s - {x};
    if rest == {} {
      k := x;
      forall j | j in s
        ensures j <= k
      {
        assert j !in rest;
      }
    } else {
      var top := LargestOf(rest);
      k := if x > top then x else top;
      forall j | j in s
        ensures j <= k
      {
        if j != x {
          assert j in rest;
        }
      }
    }
  }

  /** A smallest element of a finite non-empty set. */
  lemma {:induction false} SmallestOf(s: set<nat>) returns (k: nat)
    requires s != {}
    ensures k in s && forall j :: j in s ==> k <= j
  {
    var x :| x in s;
    var rest := s - {x};
    if rest == {} {
      k := x;
      forall j | j in s
        ensures k <= j
      {
        assert j !in rest;
      }
    } else {
      var bottom := SmallestOf(rest);
      k := if x < bottom then x else bottom;
      forall j | j in s
        ensures k <= j
      {
        if j != x {
          assert j in rest;
        }
      }
    }
  }

  /** `.keys().max()` of a non-empty map. */
  function MaxKey<T>(m: map<nat, T>): (k: nat)
    requires m != map[]
    ensures k in m && forall j :: j in m ==> j <= k
  {
    assert exists k :: k in m.Keys && forall j :: j in m.Keys ==> j <= k by {
      var j :| j in m;
      var top := LargestOf(m.Keys);
    }
    var k :| k in m.Keys && forall j :: j in m.Keys ==> j <= k;
    k
  }

  /** `.keys().min()` of a non-empty map. */
  function MinKey<T>(m: map<nat, T>): (k: nat)
    requires m != map[]
    ensures k in m && forall j :: j in m ==> k <= j
  {
    assert exists k :: k in m.Keys && forall j :: j in m.Keys ==> k <= j by {
      var j :| j in m;
      var bottom := SmallestOf(m.Keys);
    }
    var k :| k in m.Keys && forall j :: j in m.Keys ==> k <= j;
    k
  }
}
