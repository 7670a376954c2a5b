/**
 * The sampling cap of the `/color` endpoint: a filtered buffer longer than the
 * cap is replaced by exactly that many of its pixels, taken at distinct
 * positions chosen at random; a shorter buffer is passed on unchanged. The
 * random draw is a parameter: the positions the random source returned.
 */
module Sampling {
  import opened Pixels

  /** The most pixels handed to clustering. */
  const MaxSamples: nat := 100000

  /**
   * What a draw of `size` positions out of `n` without replacement returns:
   * `size` distinct positions, each in range.
   */
  predicate IsDraw(idx: seq<int>, n: nat, size: nat) {
    |idx| == size &&
    (forall k :: 0 <= k < |idx| ==> 0 <= idx[k] < n) &&
    (forall j, k :: 0 <= j < k < |idx| ==> idx[j] != idx[k])
  }

  /** The elements of `f` at the positions `idx`, in the order of `idx`. */
  function Pick<T>(f: seq<T>, idx: seq<int>): (s: seq<T>)
    requires forall k :: 0 <= k < |idx| ==> 0 <= idx[k] < |f|
    ensures |s| == |idx|
    ensures forall k :: 0 <= k < |s| ==> s[k] in f
  {
    seq(|idx|, k requires 0 <= k < |idx| => f[idx[k]])
  }

  /** `f` with its element at position `j` taken out. */
  function RemoveAt<T>(f: seq<T>, j: nat): seq<T>
    requires j < |f|
  {
    f[..j] + f[j + 1..]
  }

  /** The positions of `rest` renumbered for the buffer without position `j`. */
  function Shift(rest: seq<int>, j: int): seq<int> {
    seq(|rest|, k requires 0 <= k < |rest| => if rest[k] < j then rest[k] else rest[k] - 1)
  }

  /**
   * Taking position `j` out of `f` and renumbering the other positions
   * leaves what they pick unchanged and keeps them distinct and in range.
   */
  lemma ShiftPicksSame<T>(f: seq<T>, rest: seq<int>, j: nat)
    requires j < |f|
    requires forall k :: 0 <= k < |rest| ==> 0 <= rest[k] < |f| && rest[k] != j
    requires forall i, k :: 0 <= i < k < |rest| ==> rest[i] != rest[k]
    ensures forall k :: 0 <= k < |rest| ==> 0 <= Shift(rest, j)[k] < |RemoveAt(f, j)|
    ensures forall i, k :: 0 <= i < k < |rest| ==> Shift(rest, j)[i] != Shift(rest, j)[k]
    ensures Pick(RemoveAt(f, j), Shift(rest, j)) == Pick(f, rest)
  {
  }

  /** Taking one element out of a buffer takes it out of the buffer's multiset. */
  lemma RemoveAtMultiset<T>(f: seq<T>, j: nat)
    requires j < |f|
    ensures multiset(f) == multiset(RemoveAt(f, j)) + multiset{f[j]}
  {
    assert f == f[..j] + [f[j]] + f[j + 1..];
  }

  /**
   * Picking at distinct positions never takes an element more often than it
   * occurs: the pick is a sub-multiset of the buffer.
   */
  lemma {:induction false} PickIsSubMultiset<T>(f: seq<T>, idx: seq<int>)
    requires forall k :: 0 <= k < |idx| ==> 0 <= idx[k] < |f|
    requires forall i, k :: 0 <= i < k < |idx| ==> idx[i] != idx[k]
    ensures multiset(Pick(f, idx)) <= multiset(f)
    decreases |idx|
  {
    if idx != [] {
      var j, rest := idx[0], idx[1..];
      assert forall k :: 0 <= k < |rest| ==> rest[k] != j by {
        forall k | 0 <= k < |rest| ensures rest[k] != j {
          assert idx[0] != idx[k + 1];
        }
      }
      assert forall i, k :: 0 <= i < k < |rest| ==> rest[i] != rest[k] by {
        forall i, k | 0 <= i < k < |rest| ensures rest[i] != rest[k] {
          assert idx[i + 1] != idx[k + 1];
        }
      }
      ShiftPicksSame(f, rest, j);
      PickIsSubMultiset(RemoveAt(f, j), Shift(rest, j));
      assert Pick(f, idx) == [f[j]] + Pick(f, rest);
      RemoveAtMultiset(f, j);
    }
  }

  /**
   * The sampling step. When `f` is longer than the cap, `draw` is the random
   * source's answer (the cap's worth of distinct positions in `f`) and the
   * sample is `f` at those positions; otherwise `f` is passed on as it is.
   */
  function Sample(f: seq<Rgb>, draw: seq<int>): (s: seq<Rgb>)
    requires |f| > MaxSamples ==> IsDraw(draw, |f|, MaxSamples)
    ensures |f| <= MaxSamples ==> s == f
    ensures |f| > MaxSamples ==> |s| == MaxSamples &&
                                  forall k :: 0 <= k < |s| ==> s[k] == f[draw[k]]
    ensures |s| <= MaxSamples
    ensures multiset(s) <= multiset(f)
  {
    if |f| > MaxSamples then
      PickIsSubMultiset(f, draw);
      Pick(f, draw)
    else f
  }
}
