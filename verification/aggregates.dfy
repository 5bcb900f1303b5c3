/**
 * The SQL aggregates the repository queries use, over finite sets: MAX and MIN of
 * a non-empty set of integers, and the fact behind "one row per group" (a set of
 * rows in which a key function is injective has as many rows as keys).
 */
module Aggregates {

  /** Some element of a non-empty set. */
  lemma Pick<T>(s: set<T>) returns (x: T)
    requires s != {}
    ensures x in s
  {
    if forall y :: y !in s {
      assert false;
    }
    x :| x in s;
  }

  /** A non-empty finite set of integers has a largest element. */
  lemma {:induction false} LargestElement(s: set<int>) returns (m: int)
    requires s != {}
    ensures m in s && forall y :: y in s ==> y <= m
    decreases s
  {
    var x := Pick(s);
    var rest := s - {x};
    if rest == {} {
      m := x;
    } else {
      var r := LargestElement(rest);
      m := if x <= r then r else x;
    }
    forall y | y in s ensures y <= m {
      if y != x { assert y in rest; }
    }
  }

  /** A non-empty finite set of integers has a smallest element. */
  lemma {:induction false} SmallestElement(s: set<int>) returns (m: int)
    requires s != {}
    ensures m in s && forall y :: y in s ==> m <= y
    decreases s
  {
    var x := Pick(s);
    var rest := s - {x};
    if rest == {} {
      m := x;
    } else {
      var r := SmallestElement(rest);
      m := if r <= x then r else x;
    }
    forall y | y in s ensures m <= y {
      if y != x { assert y in rest; }
    }
  }

  lemma MaxExists(s: set<int>)
    requires s != {}
    ensures exists m :: m in s && forall y :: y in s ==> y <= m
  {
    var m := LargestElement(s);
  }

  lemma MinExists(s: set<int>)
    requires s != {}
    ensures exists m :: m in s && forall y :: y in s ==> m <= y
  {
    var m := SmallestElement(s);
  }

  /** SQL `MAX` over a non-empty group. */
  function Max(s: set<int>): (m: int)
    requires s != {}
    ensures m in s && forall y :: y in s ==> y <= m
  {
    MaxExists(s);
    var m :| m in s && forall y :: y in s ==> y <= m;
    m
  }

  /** SQL `MIN` over a non-empty group. */
  function Min(s: set<int>): (m: int)
    requires s != {}
    ensures m in s && forall y :: y in s ==> m <= y
  {
    MinExists(s);
    var m :| m in s && forall y :: y in s ==> m <= y;
    m
  }

  /**
   * When no two rows of `rows` share a key and the keys of the rows are exactly
   * `keys`, there are exactly as many rows as keys: grouping by the key produced
   * one row per group.
   */
  lemma {:induction false} KeyInjectiveSize<R>(rows: set<R>, key: R -> int, keys: set<int>)
    requires forall r :: r in rows ==> key(r) in keys
    requires forall k :: k in keys ==> exists r :: r in rows && key(r) == k
    requires forall r1, r2 :: r1 in rows && r2 in rows && key(r1) == key(r2) ==> r1 == r2
    ensures |rows| == |keys|
    decreases rows
  {
    if rows == {} {
      if keys != {} {
        var k := Pick(keys);
        assert false;
      }
    } else {
      var x := Pick(rows);
      var rest := rows - {x};
      var restKeys := keys - {key(x)};
      forall k | k in restKeys ensures exists r :: r in rest && key(r) == k {
        var r :| r in rows && key(r) == k;
        assert r != x;
      }
      KeyInjectiveSize(rest, key, restKeys);
    }
  }
}
