/**
 * Dominant-cluster selection of the `/color` endpoint. The clustering gives
 * one label per sampled pixel; the distinct labels are listed in ascending
 * order with the number of times each occurs, and the label at the first
 * position of the largest count is the dominant one. Ties therefore go to
 * the smallest label.
 */
module Dominant {
  import opened Wrappers

  /** How many times `l` occurs among the labels. */
  function Occurrences(labels: seq<int>, l: int): nat {
    multiset(labels)[l]
  }

  predicate StrictlyIncreasing(u: seq<int>) {
    forall i, j :: 0 <= i < j < |u| ==> u[i] < u[j]
  }

  /** Puts `x` into the ascending list `u` unless it is already there. */
  function Insert(u: seq<int>, x: int): (r: seq<int>)
    requires StrictlyIncreasing(u)
    ensures StrictlyIncreasing(r)
    ensures forall y :: y in r <==> y in u || y == x
  {
    if u == [] then [x]
    else if x < u[0] then
      assert forall i :: 0 <= i < |u| ==> x < u[i];
      [x] + u
    else if x == u[0] then u
    else
      var t := Insert(u[1..], x);
      assert forall y :: y in t ==> u[0] < y;
      assert forall i :: 0 <= i < |t| ==> t[i] in t;
      [u[0]] + t
  }

  /** The distinct labels in ascending order. */
  function Unique(labels: seq<int>): (u: seq<int>)
    ensures StrictlyIncreasing(u)
    ensures forall y :: y in u <==> y in labels
  {
    if labels == [] then []
    else
      var n := |labels| - 1;
      assert labels == labels[..n] + [labels[n]];
      Insert(Unique(labels[..n]), labels[n])
  }

  /** The count of each distinct label, position by position. */
  function Counts(labels: seq<int>, u: seq<int>): (c: seq<int>)
    ensures |c| == |u|
    ensures forall i :: 0 <= i < |u| ==> c[i] == Occurrences(labels, u[i])
    ensures forall i :: 0 <= i < |u| ==> (c[i] > 0 <==> u[i] in labels)
  {
    seq(|u|, i requires 0 <= i < |u| => Occurrences(labels, u[i]))
  }

  /** The first position of the largest value. */
  function ArgMax(c: seq<int>): (m: nat)
    requires |c| > 0
    ensures m < |c|
    ensures forall i :: 0 <= i < |c| ==> c[i] <= c[m]
    ensures forall i :: 0 <= i < m ==> c[i] < c[m]
  {
    if |c| == 1 then 0
    else
      var j := ArgMax(c[..|c| - 1]);
      if c[|c| - 1] > c[j] then |c| - 1 else j
  }

  /**
   * `l` is the dominant label: it occurs, no label occurs more often, and it
   * is the smallest of the labels that occur as often.
   */
  predicate IsDominant(labels: seq<int>, l: int) {
    l in labels &&
    (forall m :: m in labels ==> Occurrences(labels, m) <= Occurrences(labels, l)) &&
    (forall m :: m in labels && Occurrences(labels, m) == Occurrences(labels, l) ==> l <= m)
  }

  /** At most one label is dominant. */
  lemma DominantIsUnique(labels: seq<int>, a: int, b: int)
    requires IsDominant(labels, a) && IsDominant(labels, b)
    ensures a == b
  {
  }

  /**
   * The selection: the label at the first position of the largest count
   * among the distinct labels; none for an empty label sequence, where the
   * maximum of no counts does not exist.
   */
  function DominantLabel(labels: seq<int>): (r: Option<int>)
    ensures r.None? <==> labels == []
    ensures r.Some? ==> IsDominant(labels, r.value)
  {
    if labels == [] then None
    else
      var u := Unique(labels);
      assert labels[0] in u;
      var c := Counts(labels, u);
      var m := ArgMax(c);
      assert IsDominant(labels, u[m]) by {
        forall l | l in labels ensures Occurrences(labels, l) <= Occurrences(labels, u[m]) &&
                                       (Occurrences(labels, l) == Occurrences(labels, u[m]) ==> u[m] <= l)
        {
          var i :| 0 <= i < |u| && u[i] == l;
          assert c[i] == Occurrences(labels, l);
        }
      }
      Some(u[m])
  }

  /** The sum of a sequence of counts. */
  function Sum(c: seq<int>): int {
    if c == [] then 0 else c[0] + Sum(c[1..])
  }

  /** The total of the counts of a list is the count of its head plus the total of its tail. */
  lemma SumCountsCons(labels: seq<int>, a: int, t: seq<int>)
    ensures Sum(Counts(labels, [a] + t)) == Occurrences(labels, a) + Sum(Counts(labels, t))
  {
    assert Counts(labels, [a] + t)[1..] == Counts(labels, t);
  }

  /** Adding `x` to the ascending list changes the total of the counts by the count of `x`, if it was new. */
  lemma {:induction false} SumCountsInsert(labels: seq<int>, u: seq<int>, x: int)
    requires StrictlyIncreasing(u)
    ensures Sum(Counts(labels, Insert(u, x))) ==
            Sum(Counts(labels, u)) + (if x in u then 0 else Occurrences(labels, x))
  {
    if u == [] {
      SumCountsCons(labels, x, []);
    } else if x < u[0] {
      assert Insert(u, x) == [x] + u;
      assert x !in u;
      SumCountsCons(labels, x, u);
    } else if x > u[0] {
      var t := Insert(u[1..], x);
      assert Insert(u, x) == [u[0]] + t;
      assert u == [u[0]] + u[1..];
      assert x in u <==> x in u[1..];
      SumCountsInsert(labels, u[1..], x);
      SumCountsCons(labels, u[0], t);
      SumCountsCons(labels, u[0], u[1..]);
    } else {
      assert Insert(u, x) == u;
    }
  }

  /** One more label `x` adds one to the total of the counts exactly when `x` is listed. */
  lemma {:induction false} SumCountsAppend(labels: seq<int>, u: seq<int>, x: int)
    requires StrictlyIncreasing(u)
    ensures Sum(Counts(labels + [x], u)) == Sum(Counts(labels, u)) + (if x in u then 1 else 0)
  {
    if u != [] {
      assert Counts(labels, u)[1..] == Counts(labels, u[1..]);
      assert Counts(labels + [x], u)[1..] == Counts(labels + [x], u[1..]);
      SumCountsAppend(labels, u[1..], x);
      assert multiset(labels + [x]) == multiset(labels) + multiset{x};
    }
  }

  /** Every label is counted exactly once: the counts add up to the number of samples. */
  lemma {:induction false} CountsSumToLength(labels: seq<int>)
    ensures Sum(Counts(labels, Unique(labels))) == |labels|
  {
    if labels != [] {
      var n := |labels| - 1;
      var p, x := labels[..n], labels[n];
      assert labels == p + [x];
      var u := Unique(p);
      CountsSumToLength(p);
      SumCountsInsert(labels, u, x);
      SumCountsAppend(p, u, x);
      assert multiset(labels) == multiset(p) + multiset{x};
    }
  }

  /**
   * Two labels with equal counts: the smaller one is chosen, even when the
   * larger one comes first among the samples.
   */
  lemma ExampleTieGoesToSmallestLabel(a: int, b: int)
    requires a < b
    ensures DominantLabel([b, a, a, b]) == Some(a)
  {
    var labels := [b, a, a, b];
    assert multiset(labels) == multiset{a, a, b, b};
    assert forall m :: m in labels ==> m == a || m == b;
    assert IsDominant(labels, a);
    DominantIsUnique(labels, DominantLabel(labels).value, a);
  }
}
