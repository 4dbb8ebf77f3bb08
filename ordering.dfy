/**
 * Ordering facts about finite sets of integer keys: the largest key and the
 * list of all keys in descending order, which is the order in which a
 * 'prev' cursor over the timestamp index visits the records.
 */
module Ordering {

  function Min(a: int, b: int): (r: int)
    ensures r <= a && r <= b
    ensures r == a || r == b
  {
    if a <= b then a else b
  }

  function Max(a: int, b: int): (r: int)
    ensures r >= a && r >= b
    ensures r == a || r == b
  {
    if a >= b then a else b
  }

  /** Some element of a non-empty set. */
  lemma PickOne(s: set<int>) returns (y: int)
    requires s != {}
    ensures y in s
  {
    if forall e :: e !in s {
      assert false;
    }
    y :| y in s;
  }

  /** Every finite non-empty set of integers has a largest element. */
  lemma {:induction false} LargestExists(s: set<int>)
    requires s != {}
    ensures exists m :: m in s && forall x :: x in s ==> x <= m
  {
    var y := PickOne(s);
    if s != {y} {
      var rest := s - {y};
      LargestExists(rest);
      var m :| m in rest && forall x :: x in rest ==> x <= m;
      if y <= m {
        forall x | x in s ensures x <= m {
          if x != y { assert x in rest; }
        }
      } else {
        forall x | x in s ensures x <= y {
          if x != y { assert x in rest; }
        }
      }
    } else {
      assert forall x :: x in s ==> x == y;
    }
  }

  /** The largest element of a non-empty set. */
  function Largest(s: set<int>): (m: int)
    requires s != {}
    ensures m in s
    ensures forall x :: x in s ==> x <= m
  {
    LargestExists(s);
    var m :| m in s && forall x :: x in s ==> x <= m;
    m
  }

  predicate StrictlyDecreasing(d: seq<int>)
  {
    forall i, j :: 0 <= i < j < |d| ==> d[i] > d[j]
  }

  /** All keys of `s`, largest first. */
  function DescKeys(s: set<int>): (d: seq<int>)
    ensures |d| == |s|
    ensures forall k :: k in d <==> k in s
    ensures StrictlyDecreasing(d)
    decreases s
  {
    if s == {} then []
    else
      var m := Largest(s);
      var rest := DescKeys(s - {m});
      ConsDecreasing(m, rest);
      [m] + rest
  }

  /** Putting a key larger than all others in front keeps the list strictly decreasing. */
  lemma ConsDecreasing(m: int, rest: seq<int>)
    requires StrictlyDecreasing(rest)
    requires forall k :: k in rest ==> k < m
    ensures StrictlyDecreasing([m] + rest)
    ensures forall k :: k in [m] + rest <==> k == m || k in rest
  {
    var d := [m] + rest;
    forall i, j | 0 <= i < j < |d| ensures d[i] > d[j] {
      assert d[j] == rest[j - 1];
      if i > 0 {
        assert d[i] == rest[i - 1];
      } else {
        assert rest[j - 1] in rest;
      }
    }
  }

  /** A strictly decreasing list has no repeated element, so its elements form a set of the same size. */
  lemma {:induction false} DistinctCard(d: seq<int>)
    requires StrictlyDecreasing(d)
    ensures |set k | k in d| == |d|
  {
    if d != [] {
      DistinctCard(d[1..]);
      var tail := set k | k in d[1..];
      assert (set k | k in d) == {d[0]} + tail;
      assert d[0] !in tail;
    }
  }
}
