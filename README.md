# Dominant-colour extraction, modelled in Dafny

This project models the colour extractor's core, `get_top_n_colors` in
`color_extractor.py`, together with its helper `rgb_to_hex`. The routine
flattens an image into RGB pixels. It asks a k-means clusterer for
`min(num_colors, distinct pixel count)` clusters, then counts how many pixels
each centroid was assigned. It turns those counts into percentages of all
pixels and builds one `(hex, rgb, percentage)` entry per centroid. Finally it
sorts the entries by descending percentage. Failures end as `None` or as the
empty list.

The clusterer (`kmeans` followed by `vq`) is a parameter of the model. It is
a function from the pixels and `k` to either a codebook of rounded integer
centroids with one centroid index per pixel, or a raised exception. The only
thing assumed about it is `ColorExtractor.Honours`: at most `k` centroids,
one assignment per pixel, and every assignment below the codebook length.
Everything after the call is modelled step by step:

- `hex.dfy` (module `Hex`): `rgb_to_hex` and a decoder that serves as its
  inverse.
- `tally.dfy` (module `Tally`): `np.bincount(..., minlength=k)` as a loop
  over an array of bins, proved equal to a histogram function.
- `ranking.dfy` (module `Ranking`): the result entry, and
  `list.sort(key=percentage, reverse=True)` as an in-place stable insertion
  sort on an array. It is proved ordered, a permutation, and order-keeping
  for ties.
- `extractor.dfy` (module `ColorExtractor`): the cluster count, the
  percentages, the loop that builds the result list, the `except` clauses,
  and `GetTopNColors`. `GetTopNColors` states which inputs lead to `None`,
  to `[]` and to a list, and what that list is.

Two comments in the source do not match what the code does; the model follows
the code:

- The docstring (color_extractor.py:20-22) says the function returns `None`
  if an error occurs. A `ValueError` gives `[]` instead (lines 68-71). A
  missing file, a `FileNotFoundError` and any other exception all give
  `None`, told apart only by the printed message (lines 24-26, 65-67,
  72-74).
- The comment at line 39 says a zero cluster count means an empty or
  transparent image. A `num_colors` of 0 also gives a zero count, and then
  `[]` (lines 37-41).

A negative `num_colors` makes the requested cluster count negative. A
clusterer that honours its contract cannot return at most a negative number
of centroids, so it must raise. The outcome is then whatever the `except`
clauses make of that exception (`GetTopNColors`, the `numColors < 0` clause).

## Model

| member | source | states |
|---|---|---|
| `Hex.TwoDigits` | color_extractor.py:10 | `%02x` of a channel is two lower-case hex digits, high digit first, whose value is the channel |
| `Hex.RgbToHex` | color_extractor.py:8-10 | the code has 7 characters: `#`, then two lower-case hex digits each for red, green and blue, in that order, each pair valued at its channel |
| `Hex.ParseHex` | color_extractor.py:8-10 | the decoder accepts exactly the strings of the form `rgb_to_hex` produces: 7 characters, `#`, six lower-case hex digits |
| `Hex.ParseRgbToHex` | color_extractor.py:8-10 | decoding the code of a triple gives that triple back |
| `Hex.RgbToHexOfParse` | color_extractor.py:8-10 | every code the decoder accepts is the encoding of the triple it decodes to, so the encoding is onto the well-formed codes |
| `Hex.RgbToHexInjective` | color_extractor.py:8-10 | different triples never share a hex code |
| `Tally.Bound` | color_extractor.py:47 | one more than the largest index: above every index, attained by one of them, 0 only for no indices |
| `Tally.Histogram` | color_extractor.py:47 | the bincount result has at least `minlength` bins, a bin for every index, no more bins than the larger of `minlength` and the largest index plus one, and bin `v` holds the number of occurrences of `v` |
| `Tally.BinLength` | color_extractor.py:47 | bincount allocates the larger of `minlength` and one more than the largest index |
| `Tally.BinCount` | color_extractor.py:45-47 | tallying the assignments bin by bin produces exactly the histogram |
| `Tally.HistogramTotal` | color_extractor.py:45-47 | when every index is below `n`, the first `n` bins add up to the number of pixels and every bin from `n` on is 0 |
| `Ranking.PermutationKeepsTotal` | color_extractor.py:61 | reordering the entries does not change the sum of their percentages |
| `Ranking.SwapKeepsTrace` | color_extractor.py:61 | exchanging neighbours with different percentages keeps each entry's origin, keeps ties in their original order, and keeps the multiset of entries |
| `Ranking.SwapAdjacent` | color_extractor.py:61 | exchanging two neighbouring entries of the list changes nothing else |
| `Ranking.InsertDesc` | color_extractor.py:61 | one insertion step extends the non-increasing prefix by one entry, leaves every entry after it where it was, and keeps the permutation, each entry's origin and the order of ties |
| `Ranking.SortByPercentageDesc` | color_extractor.py:61 | after the in-place sort the list is non-increasing by percentage and a permutation of the list before. Each entry's origin is recorded, and entries with equal percentages keep their original order |
| `Ranking.StableSortKeepsTotal` | color_extractor.py:61-63 | a stable descending sort keeps the number of entries and the total percentage |
| `ColorExtractor.DistinctCount` | color_extractor.py:36 | the number of distinct pixel triples is at most the number of pixels, and 0 exactly when there are no pixels |
| `ColorExtractor.ClusterCount` | color_extractor.py:36-37 | the cluster count is the smaller of the requested count and the distinct-triple count, so it never exceeds either. For a non-negative request it is 0 exactly when the request is 0 or there are no pixels |
| `ColorExtractor.Handle` | color_extractor.py:65-74 | a `ValueError` gives the empty list; a `FileNotFoundError` and any other exception give `None` |
| `ColorExtractor.PercentageScale` | color_extractor.py:50 | a bin's percentage times the pixel total is its count times 100, so the percentage is the count's share of the total out of 100 |
| `ColorExtractor.PercentageAdd` | color_extractor.py:50 | the percentages of two counts add up to the percentage of their sum |
| `ColorExtractor.PercentageWhole` | color_extractor.py:49-50 | the whole pixel total is 100 percent |
| `ColorExtractor.Percentages` | color_extractor.py:49-50 | the element-wise division keeps one percentage per bin, in bin order, each being that bin's percentage of the pixel total |
| `ColorExtractor.PercentagesTotal` | color_extractor.py:49-50 | the first `n` percentages add up to the percentage of the first `n` counts together |
| `ColorExtractor.ColorList` | color_extractor.py:52-59 | the unsorted list has one entry per centroid, in codebook order; entry `i` holds centroid `i`, its hex code and the percentage at index `i` |
| `ColorExtractor.BuildColorList` | color_extractor.py:52-59 | the appending loop builds exactly that list |
| `ColorExtractor.TotalOfPercentages` | color_extractor.py:58-59 | entries carrying the first percentages, in order, add up to the sum of those percentages |
| `ColorExtractor.ColorListTotal` | color_extractor.py:54-59 | the built list's percentages add up to the first `len(codebook)` percentages: bins beyond the codebook contribute nothing to the list |
| `ColorExtractor.PercentagesSumTo100` | color_extractor.py:43-59 | when the clusterer honours its contract and there are pixels, the built list's percentages add up to exactly 100 |
| `ColorExtractor.ReportClusters` | color_extractor.py:45-63 | from a successful clustering on a non-empty image: the returned list is the stable descending sort of the built list, has one entry per centroid, and its percentages add up to 100 |
| `ColorExtractor.GetTopNColors` | color_extractor.py:12-74 | a missing file gives `None`. An exception while decoding or clustering is handled as the `except` clauses say. A cluster count of 0, which includes an empty image, gives `[]`. A negative request can only end through the clusterer's exception. Otherwise the result is a non-empty list with one entry per centroid: the stable descending sort of the built list, with percentages adding up to 100. A single-colour image gives one entry at 100 |

## Left out

- Reading the file: `os.path.exists`, `Image.open` and the RGB conversion (color_extractor.py:24-32) are I/O. The model takes whether the file exists, and the decoded pixels or the exception raised, as parameters.
- The clustering itself, `kmeans` with 20 refinement passes and `vq` (color_extractor.py:43-45), is a foreign library call over floats. It is a parameter constrained only by `ColorExtractor.Honours`. So nothing about where the centroids lie is proved: not nearest-centroid assignment, and not the four-quadrant example giving 25 percent each.
- `np.round` of the float centroids (color_extractor.py:56) is float numerics. The clusterer hands back rounded integer triples with channels 0 to 255.
- Hex.RgbToHex: channels are 0 to 255 by type. Out-of-range values, for which `%02x` would print more digits or a sign, are not modelled; rounded means of 8-bit pixels cannot produce them.
- Percentages are exact reals, not floats. The model therefore shows the sum is exactly 100 where the program gets 100 up to rounding error.
- Ranking.SortByPercentageDesc: Python's list is a dynamic array grown by `append`. The model builds it as a sequence and sorts a copy of it in an array. The sort algorithm is insertion sort rather than Timsort; what is proved is the ordering, permutation and stability that `list.sort` promises.
- All `print` diagnostics, the `__main__` test-image block (color_extractor.py:76-101) and the whole Gradio front end in `app.py` (presentation and temp-file handling) are left out.
