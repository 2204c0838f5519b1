/** Sequence operations that pandas provides on a column: unique() in
    first-appearance order, counting, and boolean-mask filtering. */
module Seqs {

  /** Number of positions of s that hold x. */
  function Count<T(==)>(s: seq<T>, x: T): (n: nat)
    ensures n <= |s|
    ensures n > 0 <==> x in s
    decreases |s|
  {
    if s == [] then 0
    else Count(s[..|s| - 1], x) + (if s[|s| - 1] == x then 1 else 0)
  }

  /** Counting over a concatenation adds up. */
  lemma {:induction false} CountConcat<T>(a: seq<T>, b: seq<T>, x: T)
    ensures Count(a + b, x) == Count(a, x) + Count(b, x)
    decreases |b|
  {
    if b != [] {
      var b' := b[..|b| - 1];
      assert (a + b)[..|a + b| - 1] == a + b';
      var y := b[|b| - 1];
      assert (a + b)[|a + b| - 1] == y;
      assert Count(a + b, x) == Count(a + b', x) + (if y == x then 1 else 0);
      assert Count(b, x) == Count(b', x) + (if y == x then 1 else 0);
      CountConcat(a, b', x);
    } else {
      assert a + b == a;
    }
  }

  predicate Distinct<T(==)>(s: seq<T>)
  {
    forall i, j :: 0 <= i < j < |s| ==> s[i] != s[j]
  }

  /** The position of the first x in s. */
  function FirstIndex<T(==)>(s: seq<T>, x: T): (k: nat)
    requires x in s
    ensures k < |s| && s[k] == x && x !in s[..k]
  {
    if s[0] == x then 0
    else
      assert x in s[1..];
      var k := FirstIndex(s[1..], x);
      assert s[..k + 1] == [s[0]] + s[1..][..k];
      k + 1
  }

  /** pandas' Series.unique(): every distinct value once, in the order of first appearance. */
  function Unique<T(==)>(s: seq<T>): (u: seq<T>)
    ensures Distinct(u)
    ensures forall k :: 0 <= k < |u| ==> u[k] in s
    ensures forall k :: 0 <= k < |s| ==> s[k] in u
    decreases |s|
  {
    if s == [] then []
    else
      var u := Unique(s[..|s| - 1]);
      var x := s[|s| - 1];
      assert forall k :: 0 <= k < |s| - 1 ==> s[k] == s[..|s| - 1][k];
      if x in u then u else u + [x]
  }

  /** The values of Unique(s) are listed in the order in which they first appear in s. */
  lemma {:induction false} UniqueFirstAppearance<T>(s: seq<T>)
    ensures forall i, j :: 0 <= i < j < |Unique(s)| ==>
      FirstIndex(s, Unique(s)[i]) < FirstIndex(s, Unique(s)[j])
    decreases |s|
  {
    if s != [] {
      var p := s[..|s| - 1];
      var x := s[|s| - 1];
      assert s == p + [x];
      UniqueFirstAppearance(p);
      forall i, j | 0 <= i < j < |Unique(s)|
        ensures FirstIndex(s, Unique(s)[i]) < FirstIndex(s, Unique(s)[j])
      {
        UniqueOrderStep(p, x, i, j);
      }
    }
  }

  /** The step of UniqueFirstAppearance: appending x keeps the order of the values seen
      before, and a new x comes last both in Unique and in first appearance. */
  lemma UniqueOrderStep<T>(p: seq<T>, x: T, i: nat, j: nat)
    requires forall i, j :: 0 <= i < j < |Unique(p)| ==>
      FirstIndex(p, Unique(p)[i]) < FirstIndex(p, Unique(p)[j])
    requires i < j < |Unique(p + [x])|
    ensures FirstIndex(p + [x], Unique(p + [x])[i]) < FirstIndex(p + [x], Unique(p + [x])[j])
  {
    var s := p + [x];
    var up := Unique(p);
    var u := Unique(s);
    assert s[..|s| - 1] == p;
    assert u[i] == up[i] && up[i] in p;
    FirstIndexPrefix(p, x, up[i]);
    if j < |up| {
      assert u[j] == up[j] && up[j] in p;
      FirstIndexPrefix(p, x, up[j]);
    } else {
      assert x !in up && u[j] == x && x !in p;
      assert FirstIndex(s, x) == |s| - 1;
    }
  }

  /** Appending to a sequence does not move the first position of a value already in it. */
  lemma FirstIndexPrefix<T>(p: seq<T>, x: T, y: T)
    requires y in p
    ensures FirstIndex(p + [x], y) == FirstIndex(p, y)
  {
    var s := p + [x];
    var k := FirstIndex(p, y);
    var k' := FirstIndex(s, y);
    assert s[..k] == p[..k];
    assert s[k] == y;
  }

  /** Sum over the values of u of the number of times each occurs in s. */
  function CountAll<T(==)>(u: seq<T>, s: seq<T>): nat
    decreases |u|
  {
    if u == [] then 0 else CountAll(u[..|u| - 1], s) + Count(s, u[|u| - 1])
  }

  lemma {:induction false} CountAllSnoc<T>(u: seq<T>, s: seq<T>, x: T)
    ensures CountAll(u, s + [x]) == CountAll(u, s) + Count(u, x)
    decreases |u|
  {
    if u != [] {
      CountAllSnoc(u[..|u| - 1], s, x);
      CountConcat(s, [x], u[|u| - 1]);
    }
  }

  /** Every position of s is counted exactly once by its value's entry in Unique(s). */
  lemma {:induction false} UniqueCountsSum<T>(s: seq<T>)
    ensures CountAll(Unique(s), s) == |s|
    decreases |s|
  {
    if s != [] {
      var p := s[..|s| - 1];
      var x := s[|s| - 1];
      var up := Unique(p);
      assert s == p + [x];
      UniqueCountsSum(p);
      CountAllSnoc(up, p, x);
      DistinctCountOne(up, x);
      if x !in up {
        assert Count(p, x) == 0;
        CountConcat(p, [x], x);
        assert CountAll(up + [x], s) == CountAll(up, s) + Count(s, x);
        assert (up + [x])[..|up|] == up;
      }
    }
  }

  /** A value occurs at most once in a sequence without repetitions. */
  lemma {:induction false} DistinctCountOne<T>(u: seq<T>, x: T)
    requires Distinct(u)
    ensures Count(u, x) == if x in u then 1 else 0
    decreases |u|
  {
    if u != [] {
      var p := u[..|u| - 1];
      DistinctCountOne(p, x);
      if u[|u| - 1] == x {
        assert x !in p;
      } else {
        assert x in u ==> x in p;
      }
    }
  }

  /** pandas' boolean-mask selection s[mask(s)]: the elements that satisfy keep, in order. */
  function Filter<T>(s: seq<T>, keep: T -> bool): (r: seq<T>)
    ensures |r| <= |s|
    ensures forall k :: 0 <= k < |r| ==> keep(r[k]) && r[k] in s
    decreases |s|
  {
    if s == [] then []
    else
      var x := s[|s| - 1];
      Filter(s[..|s| - 1], keep) + (if keep(x) then [x] else [])
  }

  /** Filtering keeps each kept value as many times as it occurs, and drops the rest. */
  lemma {:induction false} FilterCount<T>(s: seq<T>, keep: T -> bool, x: T)
    ensures Count(Filter(s, keep), x) == if keep(x) then Count(s, x) else 0
    decreases |s|
  {
    if s != [] {
      var p := s[..|s| - 1];
      FilterCount(p, keep, x);
      var y := s[|s| - 1];
      var tail := if keep(y) then [y] else [];
      assert Filter(s, keep) == Filter(p, keep) + tail;
      CountConcat(Filter(p, keep), tail, x);
      assert Count(tail, x) == if keep(y) && y == x then 1 else 0;
      assert Count(s, x) == Count(p, x) + (if y == x then 1 else 0);
    }
  }

  /** A filter that keeps every element changes nothing. */
  lemma {:induction false} FilterAll<T>(s: seq<T>, keep: T -> bool)
    requires forall k :: 0 <= k < |s| ==> keep(s[k])
    ensures Filter(s, keep) == s
    decreases |s|
  {
    if s != [] {
      FilterAll(s[..|s| - 1], keep);
    }
  }

  /** A filter that keeps no element leaves nothing. */
  lemma {:induction false} FilterNone<T>(s: seq<T>, keep: T -> bool)
    requires forall k :: 0 <= k < |s| ==> !keep(s[k])
    ensures Filter(s, keep) == []
    decreases |s|
  {
    if s != [] {
      FilterNone(s[..|s| - 1], keep);
    }
  }

  /** Filtering preserves relative order: it commutes with concatenation. */
  lemma {:induction false} FilterConcat<T>(a: seq<T>, b: seq<T>, keep: T -> bool)
    ensures Filter(a + b, keep) == Filter(a, keep) + Filter(b, keep)
    decreases |b|
  {
    if b != [] {
      var b' := b[..|b| - 1];
      assert (a + b)[..|a + b| - 1] == a + b';
      var x := b[|b| - 1];
      assert (a + b)[|a + b| - 1] == x;
      var tail := if keep(x) then [x] else [];
      assert Filter(b, keep) == Filter(b', keep) + tail;
      assert Filter(a + b, keep) == Filter(a + b', keep) + tail;
      FilterConcat(a, b', keep);
    } else {
      assert a + b == a;
    }
  }
}
