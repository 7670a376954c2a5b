/**
 * The computational body of the `/color` endpoint, from the decoded pixels to
 * the response: filter with fallback, cap by sampling, cluster, pick the
 * dominant cluster and report its centre as `#rrggbb` text and as a triple.
 * The random draw and the clustering library are parameters.
 */
module ColorEndpoint {
  import opened Wrappers
  import opened Pixels
  import opened Sampling
  import opened Dominant
  import opened HexColor

  /** The number of clusters asked of the clustering. */
  const Clusters: nat := 3

  /**
   * What the clustering returns: one cluster label per sample, and the
   * centre of each cluster with its channels already truncated to integers.
   */
  datatype Clustering = Clustering(labels: seq<int>, centers: seq<Rgb>)

  predicate IsClusteringOf(c: Clustering, n: nat) {
    |c.labels| == n && |c.centers| == Clusters &&
    forall i :: 0 <= i < n ==> 0 <= c.labels[i] < Clusters
  }

  /**
   * The clustering library's contract: given at least `Clusters` samples it
   * labels each of them with a cluster number and gives `Clusters` centres.
   * With fewer samples it raises, which the endpoint reports as a server error.
   */
  ghost predicate IsKMeans(kmeans: seq<Rgb> -> Clustering) {
    forall s: seq<Rgb> :: |s| >= Clusters ==> IsClusteringOf(kmeans(s), |s|)
  }

  /** The clustering behaves as its contract promises on the samples `s`. */
  predicate ClusteringFits(s: seq<Rgb>, kmeans: seq<Rgb> -> Clustering) {
    |s| >= Clusters ==> IsClusteringOf(kmeans(s), |s|)
  }

  /** The endpoint's answer: the colour, or the generic internal-error reply. */
  datatype Response = Color(hex: string, rgb: Rgb) | ServerError

  /** The random source was asked for positions only if the filtered buffer exceeds the cap. */
  predicate DrawFits(px: seq<Rgb>, draw: seq<int>) {
    var f := FilterWithFallback(px);
    |f| > MaxSamples ==> IsDraw(draw, |f|, MaxSamples)
  }

  /** The pixels handed to clustering. */
  function ClusterInput(px: seq<Rgb>, draw: seq<int>): (s: seq<Rgb>)
    requires DrawFits(px, draw)
    ensures |s| == if |FilterWithFallback(px)| <= MaxSamples then |FilterWithFallback(px)| else MaxSamples
    ensures |px| > 0 ==> |s| > 0
    ensures multiset(s) <= multiset(FilterWithFallback(px))
  {
    Sample(FilterWithFallback(px), draw)
  }

  /**
   * A clustering that keeps the library's contract meets what `GetColor`
   * asks of it, whatever pixels and draw it is given.
   */
  lemma KMeansContractEnablesGetColor(px: seq<Rgb>, draw: seq<int>, kmeans: seq<Rgb> -> Clustering)
    requires DrawFits(px, draw)
    requires IsKMeans(kmeans)
    ensures ClusteringFits(ClusterInput(px, draw), kmeans)
  {
  }

  /**
   * The endpoint's computation. It fails exactly when the filtered buffer
   * holds fewer pixels than clusters (an empty image among them); otherwise
   * the colour is the centre of the dominant cluster, and the text is that
   * same triple encoded.
   */
  function GetColor(px: seq<Rgb>, draw: seq<int>, kmeans: seq<Rgb> -> Clustering): (r: Response)
    requires DrawFits(px, draw)
    requires ClusteringFits(ClusterInput(px, draw), kmeans)
    ensures r.ServerError? <==> |FilterWithFallback(px)| < Clusters
    ensures r.Color? ==> r.hex == Encode(r.rgb)
    ensures r.Color? ==>
              var c := kmeans(ClusterInput(px, draw));
              exists l :: 0 <= l < |c.centers| && IsDominant(c.labels, l) && r.rgb == c.centers[l]
  {
    var s := ClusterInput(px, draw);
    if |s| < Clusters then ServerError
    else
      var c := kmeans(s);
      var l := DominantLabel(c.labels).value;
      assert l in c.labels;
      var rgb := c.centers[l];
      Color(Encode(rgb), rgb)
  }

  /** An image with no pixels is answered with the generic server error. */
  lemma EmptyImageIsServerError(draw: seq<int>, kmeans: seq<Rgb> -> Clustering)
    ensures GetColor([], draw, kmeans) == ServerError
  {
  }

  /**
   * The `hex` and `rgb` fields of a successful response describe the same
   * colour: decoding the text gives back the triple.
   */
  lemma ResponseFieldsAgree(px: seq<Rgb>, draw: seq<int>, kmeans: seq<Rgb> -> Clustering)
    requires DrawFits(px, draw)
    requires ClusteringFits(ClusterInput(px, draw), kmeans)
    ensures GetColor(px, draw, kmeans).Color? ==>
              Decode(GetColor(px, draw, kmeans).hex) == Some(GetColor(px, draw, kmeans).rgb)
  {
    var r := GetColor(px, draw, kmeans);
    if r.Color? {
      DecodeEncode(r.rgb);
    }
  }

  /**
   * An image made only of glare and shadow, small enough not to be sampled,
   * is clustered whole: filtering degrades to the unfiltered buffer and the
   * request succeeds once there are as many pixels as clusters.
   */
  lemma UnreliableImageClusteredWhole(px: seq<Rgb>, draw: seq<int>, kmeans: seq<Rgb> -> Clustering)
    requires Clusters <= |px| <= MaxSamples
    requires ClusteringFits(px, kmeans)
    requires forall i :: 0 <= i < |px| ==> !Reliable(px[i])
    ensures DrawFits(px, draw) && ClusterInput(px, draw) == px
    ensures GetColor(px, draw, kmeans).Color?
  {
  }
}
