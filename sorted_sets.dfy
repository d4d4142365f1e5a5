/** The elements of a finite set of naturals in ascending order, as a browse visits addresses. */
module SortedSets {

  function Min(a: nat, b: nat): nat {
    if a < b then a else b
  }

  ghost predicate StrictlyIncreasing(s: seq<nat>) {
    forall i, j :: 0 <= i < j < |s| ==> s[i] < s[j]
  }

  lemma {:induction false} LeastExists(s: set<nat>)
    requires s != {}
    ensures exists m :: m in s && forall x :: x in s ==> m <= x
  {
    var y :| y in s;
    var rest := s - {y};
    if rest == {} {
      forall x | x in s
        ensures y <= x
      {
        assert x !in rest;
      }
    } else {
      LeastExists(rest);
      var m :| m in rest && forall x :: x in rest ==> m <= x;
      var least := Min(y, m);
      forall x | x in s
        ensures least <= x
      {
        if x != y {
          assert x in rest;
        }
      }
      assert least in s;
    }
  }

  /** The least element of a non-empty set. */
  function Least(s: set<nat>): (m: nat)
    requires s != {}
    ensures m in s && forall x :: x in s ==> m <= x
  {
    LeastExists(s);
    var m :| m in s && forall x :: x in s ==> m <= x;
    m
  }

  /** The elements of s, each once, smallest first. */
  function Sorted(s: set<nat>): (r: seq<nat>)
    ensures |r| == |s|
    ensures forall x :: x in r <==> x in s
    ensures StrictlyIncreasing(r)
    decreases |s|
  {
    if s == {} then []
    else
      var m := Least(s);
      [m] + Sorted(s - {m})
  }

  /** Past its first element, a strictly increasing sequence holds exactly its other elements. */
  lemma Rest(a: seq<nat>)
    requires StrictlyIncreasing(a) && a != []
    ensures forall x :: x in a[1..] <==> x in a && x != a[0]
  {
    forall x | x in a && x != a[0]
      ensures x in a[1..]
    {
      var k :| 0 <= k < |a| && a[k] == x;
      assert a[1..][k - 1] == x;
    }
  }

  /** A finite set has only one ascending listing: strictly increasing sequences with the same elements are equal. */
  lemma {:induction false} StrictlyIncreasingUnique(a: seq<nat>, b: seq<nat>)
    requires StrictlyIncreasing(a) && StrictlyIncreasing(b)
    requires forall x :: x in a <==> x in b
    ensures a == b
    decreases |a|
  {
    if a != [] {
      assert a[0] in b;
    }
    if b != [] {
      assert b[0] in a;
    }
    if a != [] && b != [] {
      var j :| 0 <= j < |b| && b[j] == a[0];
      var i :| 0 <= i < |a| && a[i] == b[0];
      assert a[0] <= a[i] && b[0] <= b[j];
      Rest(a);
      Rest(b);
      StrictlyIncreasingUnique(a[1..], b[1..]);
      assert a == [a[0]] + a[1..] && b == [b[0]] + b[1..];
    }
  }
}
