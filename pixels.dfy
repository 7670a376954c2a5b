/**
 * Decoded pixels and the glare/shadow filter of the `/color` endpoint. The
 * decoded image is flattened, row by row, into a sequence of RGB triples; a
 * pixel is kept when its brightest channel is below the glare threshold and
 * its darkest channel is above the shadow threshold. When no pixel survives,
 * the unfiltered buffer is used instead.
 */
module Pixels {
  /** One 8-bit colour channel. */
  type Channel = x: int | 0 <= x < 256

  datatype Rgb = Rgb(r: Channel, g: Channel, b: Channel)

  /** A pixel whose largest channel reaches this value is glare. */
  const GlareThreshold: int := 240
  /** A pixel whose smallest channel does not exceed this value is shadow. */
  const ShadowThreshold: int := 20

  function MaxChannel(p: Rgb): (m: Channel)
    ensures m == p.r || m == p.g || m == p.b
    ensures p.r <= m && p.g <= m && p.b <= m
  {
    var rg := if p.r < p.g then p.g else p.r;
    if rg < p.b then p.b else rg
  }

  function MinChannel(p: Rgb): (m: Channel)
    ensures m == p.r || m == p.g || m == p.b
    ensures m <= p.r && m <= p.g && m <= p.b
  {
    var rg := if p.g < p.r then p.g else p.r;
    if p.b < rg then p.b else rg
  }

  /**
   * The filter's mask on one pixel: largest channel below the glare
   * threshold and smallest channel above the shadow threshold, that is,
   * every channel strictly between the two thresholds.
   */
  function Reliable(p: Rgb): (ok: bool)
    ensures ok <==> (ShadowThreshold < p.r < GlareThreshold &&
                     ShadowThreshold < p.g < GlareThreshold &&
                     ShadowThreshold < p.b < GlareThreshold)
  {
    MaxChannel(p) < GlareThreshold && MinChannel(p) > ShadowThreshold
  }

  /** The reliable pixels of `px`, in their original order. */
  function Filter(px: seq<Rgb>): (f: seq<Rgb>)
    ensures |f| <= |px|
    ensures forall k :: 0 <= k < |f| ==> Reliable(f[k])
  {
    if px == [] then []
    else Filter(px[..|px| - 1]) + (if Reliable(px[|px| - 1]) then [px[|px| - 1]] else [])
  }

  /** `idx` lists positions of `px` in strictly increasing order. */
  predicate AscendingIndices(idx: seq<int>, n: int) {
    (forall k :: 0 <= k < |idx| ==> 0 <= idx[k] < n) &&
    (forall j, k :: 0 <= j < k < |idx| ==> idx[j] < idx[k])
  }

  /**
   * `f` is the selection of `px` at the positions `idx`, taken in order:
   * `f` is an order-preserving subsequence of `px` and `idx` is the witness.
   */
  predicate SelectedAt(f: seq<Rgb>, px: seq<Rgb>, idx: seq<int>) {
    |f| == |idx| && AscendingIndices(idx, |px|) &&
    forall k :: 0 <= k < |f| ==> f[k] == px[idx[k]]
  }

  /** The positions of the reliable pixels of `px`, in increasing order. */
  function KeptIndices(px: seq<Rgb>): (idx: seq<int>)
    ensures |idx| <= |px|
    ensures AscendingIndices(idx, |px|)
    ensures forall i :: i in idx <==> 0 <= i < |px| && Reliable(px[i])
  {
    if px == [] then []
    else
      var n := |px| - 1;
      var prefix := KeptIndices(px[..n]);
      assert forall i :: 0 <= i < n ==> px[..n][i] == px[i];
      prefix + (if Reliable(px[n]) then [n] else [])
  }

  /**
   * The filtered buffer is exactly the boolean-mask selection: the pixels of
   * `px` at the reliable positions, in increasing order of position.
   */
  lemma {:induction false} FilterSelectsReliable(px: seq<Rgb>)
    ensures SelectedAt(Filter(px), px, KeptIndices(px))
  {
    if px != [] {
      var n := |px| - 1;
      var f, idx := Filter(px[..n]), KeptIndices(px[..n]);
      FilterSelectsReliable(px[..n]);
      assert forall i :: 0 <= i < n ==> px[..n][i] == px[i];
      if Reliable(px[n]) {
        assert Filter(px) == f + [px[n]] && KeptIndices(px) == idx + [n];
      } else {
        assert Filter(px) == f && KeptIndices(px) == idx;
      }
    }
  }

  /**
   * Every pixel value occurs in the filtered buffer exactly as often as in
   * the input when it is reliable, and not at all otherwise.
   */
  lemma {:induction false} FilterCounts(px: seq<Rgb>)
    ensures forall p :: multiset(Filter(px))[p] == if Reliable(p) then multiset(px)[p] else 0
  {
    if px != [] {
      var n := |px| - 1;
      FilterCounts(px[..n]);
      assert px == px[..n] + [px[n]];
    }
  }

  /** The filter removes everything exactly when no pixel is reliable. */
  lemma FilterEmptyIff(px: seq<Rgb>)
    ensures Filter(px) == [] <==> forall i :: 0 <= i < |px| ==> !Reliable(px[i])
  {
    FilterSelectsReliable(px);
    var idx := KeptIndices(px);
    if Filter(px) != [] {
      assert idx[0] in idx;
    }
    if i :| 0 <= i < |px| && Reliable(px[i]) {
      assert i in idx;
    }
  }

  /**
   * The filter with its fallback: the reliable pixels, or the whole buffer
   * when there are none. A non-empty buffer never filters down to nothing.
   */
  function FilterWithFallback(px: seq<Rgb>): (f: seq<Rgb>)
    ensures |px| > 0 ==> |f| > 0
    ensures (forall i :: 0 <= i < |px| ==> !Reliable(px[i])) ==> f == px
    ensures (exists i :: 0 <= i < |px| && Reliable(px[i])) ==> f == Filter(px)
  {
    FilterEmptyIff(px);
    var kept := Filter(px);
    if |kept| == 0 then px else kept
  }

  /** The identity positions 0, 1, ..., n - 1. */
  function AllIndices(n: nat): seq<int> {
    seq(n, i => i)
  }

  /**
   * Whichever branch is taken, the buffer handed on is an order-preserving
   * subsequence of the decoded pixels, no longer than them.
   */
  lemma FallbackIsSubsequence(px: seq<Rgb>)
    ensures Filter(px) == [] ==> SelectedAt(FilterWithFallback(px), px, AllIndices(|px|))
    ensures Filter(px) != [] ==> SelectedAt(FilterWithFallback(px), px, KeptIndices(px))
    ensures |FilterWithFallback(px)| <= |px|
  {
    FilterEmptyIff(px);
    FilterSelectsReliable(px);
    if Filter(px) == [] {
      var idx := AllIndices(|px|);
      assert AscendingIndices(idx, |px|);
      assert forall k :: 0 <= k < |px| ==> px[k] == px[idx[k]];
    }
  }
}
