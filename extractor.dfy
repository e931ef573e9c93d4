/** `get_top_n_colors`: everything around the clustering call. The clusterer
    (`kmeans` followed by `vq`) is a parameter; the steps after it (tally,
    percentages, result list, descending sort) and the choice between
    returning a list, an empty list and `None` are modelled exactly. */
module ColorExtractor {
  import opened Hex
  import opened Tally
  import opened Ranking

  /** The exceptions the `try` block distinguishes. */
  datatype Exception = FileNotFoundError | ValueError | OtherException

  /** Opening the image and converting it to RGB: the flattened pixels, or
      the exception raised while doing so. */
  datatype Decoded = Pixels(pixels: seq<Rgb>) | DecodeRaised(error: Exception)

  /** What `kmeans` and `vq` hand back: the rounded centroids and, for each
      pixel, the index of the centroid it was assigned to; or the exception
      one of them raised. */
  datatype Clustering =
    | Clustered(codebook: seq<Rgb>, assignment: seq<nat>)
    | ClusteringRaised(error: Exception)

  /** What `get_top_n_colors` returns: `None`, or a (possibly empty) list. */
  datatype Outcome = NoneReturned | Returned(colors: seq<ColorInfo>)

  lemma {:induction false} DistinctAtMostLength(pixels: seq<Rgb>)
    ensures |set p | p in pixels| <= |pixels|
  {
    if pixels != [] {
      var init, last := pixels[..|pixels| - 1], pixels[|pixels| - 1];
      assert pixels == init + [last];
      DistinctAtMostLength(init);
      assert (set p | p in pixels) == (set p | p in init) + {last};
    }
  }

  /** `len(np.unique(pixels, axis=0))`: the number of distinct triples. */
  function DistinctCount(pixels: seq<Rgb>): (n: nat)
    ensures n <= |pixels|
    ensures n == 0 <==> pixels == []
  {
    var distinct := set p | p in pixels;
    DistinctAtMostLength(pixels);
    assert pixels != [] ==> |distinct| >= |{pixels[0]}| by {
      if pixels != [] {
        assert {pixels[0]} <= distinct;
      }
    }
    |distinct|
  }

  /** `actual_num_clusters = min(num_colors, unique_pixels_count)`. */
  function ClusterCount(numColors: int, pixels: seq<Rgb>): (k: int)
    ensures k <= numColors && k <= DistinctCount(pixels)
    ensures k == numColors || k == DistinctCount(pixels)
    ensures numColors >= 0 ==> (k == 0 <==> numColors == 0 || pixels == [])
  {
    if numColors < DistinctCount(pixels) then numColors else DistinctCount(pixels)
  }

  /** What the clusterer promises when asked for `k` clusters of `pixels`
      and it returns: at most `k` centroids, one assignment per pixel, and
      every assignment names one of the centroids. */
  ghost predicate Honours(pixels: seq<Rgb>, k: int, c: Clustering) {
    c.Clustered? ==>
      && |c.codebook| <= k
      && |c.assignment| == |pixels|
      && forall j :: 0 <= j < |c.assignment| ==> c.assignment[j] < |c.codebook|
  }

  /** The `except` clauses: a `ValueError` gives the empty list, a missing
      file and any other exception give `None`. */
  function Handle(e: Exception): (o: Outcome)
    ensures o == Returned([]) <==> e == ValueError
    ensures o == NoneReturned <==> e != ValueError
  {
    match e
    case ValueError => Returned([])
    case FileNotFoundError => NoneReturned
    case OtherException => NoneReturned
  }

  /** `count / total_pixels * 100`, exactly. */
  function Percentage(count: nat, total: nat): real
    requires total > 0
  {
    count as real / total as real * 100.0
  }

  /** Percentages of two counts out of the same total add up to the
      percentage of the two counts together. */
  lemma PercentageAdd(a: nat, b: nat, total: nat)
    requires total > 0
    ensures Percentage(a, total) + Percentage(b, total) == Percentage(a + b, total)
  {
    var t := total as real;
    assert a as real / t + b as real / t == (a + b) as real / t;
  }

  /** A percentage scaled back by the total gives the count out of 100. */
  lemma PercentageScale(count: nat, total: nat)
    requires total > 0
    ensures Percentage(count, total) * total as real == count as real * 100.0
  {
    var t := total as real;
    assert count as real / t * t == count as real;
  }

  /** All pixels together make 100 percent. */
  lemma PercentageWhole(total: nat)
    requires total > 0
    ensures Percentage(total, total) == 100.0
  {
    var t := total as real;
    assert t / t == 1.0;
  }

  /** `color_percentages = (color_counts / total_pixels) * 100`: each count's
      share of the total, out of 100. */
  function Percentages(counts: seq<nat>, total: nat): (ps: seq<real>)
    requires total > 0
    ensures |ps| == |counts|
    ensures forall i :: 0 <= i < |ps| ==> ps[i] == Percentage(counts[i], total)
  {
    seq(|counts|, i requires 0 <= i < |counts| => Percentage(counts[i], total))
  }

  /** Sum of a sequence of percentages, folded from its last element. */
  function SumReal(ps: seq<real>): real {
    if ps == [] then 0.0 else SumReal(ps[..|ps| - 1]) + ps[|ps| - 1]
  }

  /** The first `n` percentages add up to the percentage of the first `n` counts. */
  lemma {:induction false} PercentagesTotal(counts: seq<nat>, total: nat, n: nat)
    requires total > 0 && n <= |counts|
    ensures SumReal(Percentages(counts, total)[..n]) == Percentage(Sum(counts[..n]), total)
  {
    var ps := Percentages(counts, total);
    if n > 0 {
      PercentagesTotal(counts, total, n - 1);
      assert ps[..n][..n - 1] == ps[..n - 1];
      assert counts[..n][..n - 1] == counts[..n - 1];
      PercentageAdd(Sum(counts[..n - 1]), counts[n - 1], total);
    } else {
      assert Sum(counts[..0]) == 0;
    }
  }

  /** The list built before sorting: entry `i` is centroid `i` with its hex
      code and the percentage at index `i`, in codebook order. */
  function ColorList(codebook: seq<Rgb>, percentages: seq<real>): (es: seq<ColorInfo>)
    requires |codebook| <= |percentages|
    ensures |es| == |codebook|
    ensures forall i :: 0 <= i < |es| ==>
      es[i].rgb == codebook[i] && es[i].hex == RgbToHex(codebook[i]) && es[i].percentage == percentages[i]
  {
    seq(|codebook|, i requires 0 <= i < |codebook| =>
      ColorInfo(RgbToHex(codebook[i]), codebook[i], percentages[i]))
  }

  /** The `for i in range(len(codebook))` loop appending to `dominant_colors_info`. */
  method BuildColorList(codebook: seq<Rgb>, percentages: seq<real>) returns (info: seq<ColorInfo>)
    requires |codebook| <= |percentages|
    ensures info == ColorList(codebook, percentages)
  {
    info := [];
    for i := 0 to |codebook|
      invariant |info| == i
      invariant forall j :: 0 <= j < i ==>
        info[j] == ColorInfo(RgbToHex(codebook[j]), codebook[j], percentages[j])
    {
      var rgb := codebook[i];
      var hexCode := RgbToHex(rgb);
      info := info + [ColorInfo(hexCode, rgb, percentages[i])];
    }
  }

  /** Entries whose percentages are the first `|es|` of `ps` add up to the
      sum of those. */
  lemma {:induction false} TotalOfPercentages(es: seq<ColorInfo>, ps: seq<real>)
    requires |es| <= |ps|
    requires forall i :: 0 <= i < |es| ==> es[i].percentage == ps[i]
    ensures TotalPercentage(es) == SumReal(ps[..|es|])
  {
    var n := |es|;
    if n > 0 {
      TotalOfPercentages(es[..n - 1], ps);
      assert ps[..n][..n - 1] == ps[..n - 1];
    }
  }

  /** The entries' percentages add up to the first `|codebook|` percentages. */
  lemma ColorListTotal(codebook: seq<Rgb>, percentages: seq<real>)
    requires |codebook| <= |percentages|
    ensures TotalPercentage(ColorList(codebook, percentages)) == SumReal(percentages[..|codebook|])
  {
    TotalOfPercentages(ColorList(codebook, percentages), percentages);
  }

  /** When the clusterer honours its contract, the percentages of the built
      list add up to exactly 100. */
  lemma PercentagesSumTo100(pixels: seq<Rgb>, k: nat, codebook: seq<Rgb>, assignment: seq<nat>)
    requires |pixels| > 0 && Honours(pixels, k, Clustered(codebook, assignment))
    ensures TotalPercentage(ColorList(codebook, Percentages(Histogram(assignment, k), |pixels|))) == 100.0
  {
    var counts := Histogram(assignment, k);
    ColorListTotal(codebook, Percentages(counts, |pixels|));
    PercentagesTotal(counts, |pixels|, |codebook|);
    HistogramTotal(assignment, k, |codebook|);
    PercentageWhole(|pixels|);
  }

  /** `colors` is the stably sorted list of one entry per centroid, each
      with the share of the pixels assigned to it. */
  ghost predicate Reports(colors: seq<ColorInfo>, pixels: seq<Rgb>, k: int, codebook: seq<Rgb>, assignment: seq<nat>) {
    && |pixels| > 0
    && 0 < k
    && |codebook| <= k
    && IsStableSortDesc(colors, ColorList(codebook, Percentages(Histogram(assignment, k), |pixels|)))
  }

  /** The rest of the `try` block once the clusterer has returned: tally,
      percentages, one entry per centroid, sort. */
  method ReportClusters(pixels: seq<Rgb>, k: int, codebook: seq<Rgb>, assignment: seq<nat>)
    returns (colors: seq<ColorInfo>)
    requires 0 < k && |pixels| > 0 && Honours(pixels, k, Clustered(codebook, assignment))
    ensures Reports(colors, pixels, k, codebook, assignment)
    ensures |colors| == |codebook|
    ensures TotalPercentage(colors) == 100.0
  {
    var counts := BinCount(assignment, k);
    var total := |pixels|;
    var percentages := Percentages(counts, total);
    var info := BuildColorList(codebook, percentages);
    var a := new ColorInfo[|info|](i requires 0 <= i < |info| => info[i]);
    assert a[..] == info;
    ghost var perm := SortByPercentageDesc(a);
    colors := a[..];
    assert Traces(colors, info, perm) && TiesInOrder(colors, perm);
    PercentagesSumTo100(pixels, k, codebook, assignment);
    StableSortKeepsTotal(colors, info);
  }

  /** `get_top_n_colors(image_path, num_colors)`, from the existence check on. */
  method GetTopNColors(fileExists: bool, image: Decoded, numColors: int, kmeansVq: (seq<Rgb>, int) -> Clustering)
    returns (out: Outcome)
    requires image.Pixels? ==>
      Honours(image.pixels, ClusterCount(numColors, image.pixels), kmeansVq(image.pixels, ClusterCount(numColors, image.pixels)))
    // a missing file gives None
    ensures !fileExists ==> out == NoneReturned
    // an exception while opening or converting the image goes to the handlers
    ensures fileExists && image.DecodeRaised? ==> out == Handle(image.error)
    // no clusters to ask for: the empty list
    ensures fileExists && image.Pixels? && ClusterCount(numColors, image.pixels) == 0 ==> out == Returned([])
    ensures fileExists && image.Pixels? && image.pixels == [] && numColors >= 0 ==> out == Returned([])
    // an exception from the clusterer goes to the handlers
    ensures fileExists && image.Pixels? ==>
      var k := ClusterCount(numColors, image.pixels);
      var c := kmeansVq(image.pixels, k);
      (k != 0 && c.ClusteringRaised? ==> out == Handle(c.error))
    // a negative request never reaches the tally: the clusterer cannot succeed
    ensures fileExists && image.Pixels? && numColors < 0 ==>
      var c := kmeansVq(image.pixels, ClusterCount(numColors, image.pixels));
      c.ClusteringRaised? && out == Handle(c.error)
    // clustering succeeded: one entry per centroid, stably sorted, adding up to 100
    ensures fileExists && image.Pixels? ==>
      var k := ClusterCount(numColors, image.pixels);
      var c := kmeansVq(image.pixels, k);
      (k != 0 && c.Clustered? ==>
        && out.Returned?
        && Reports(out.colors, image.pixels, k, c.codebook, c.assignment)
        && 0 < |out.colors| == |c.codebook|
        && TotalPercentage(out.colors) == 100.0)
    // a single-colour image: one entry at 100 percent
    ensures (fileExists && image.Pixels? && numColors >= 1 && DistinctCount(image.pixels) == 1
             && kmeansVq(image.pixels, 1).Clustered?) ==>
      out.Returned? && |out.colors| == 1 && out.colors[0].percentage == 100.0
  {
    if !fileExists {
      return NoneReturned;
    }
    match image
    case DecodeRaised(e) =>
      return Handle(e);
    case Pixels(pixels) =>
      var k := ClusterCount(numColors, pixels);
      if k == 0 {
        return Returned([]);
      }
      var clustering := kmeansVq(pixels, k);
      match clustering
      case ClusteringRaised(e) =>
        return Handle(e);
      case Clustered(codebook, assignment) =>
        assert assignment[0] < |codebook|;
        var colors := ReportClusters(pixels, k, codebook, assignment);
        assert |colors| == 1 ==> TotalPercentage(colors) == colors[0].percentage by {
          if |colors| == 1 {
            assert colors[..0] == [];
          }
        }
        return Returned(colors);
  }
}
