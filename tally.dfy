/** Counting cluster assignments: the `np.bincount(indices, minlength=k)` step. */
module Tally {

  /** Sum of a sequence of counts, folded from its last element. */
  function Sum(s: seq<nat>): nat {
    if s == [] then 0 else Sum(s[..|s| - 1]) + s[|s| - 1]
  }

  /** One more than the largest element; 0 for the empty sequence. */
  function Bound(xs: seq<nat>): (b: nat)
    ensures forall j :: 0 <= j < |xs| ==> xs[j] < b
    ensures xs == [] <==> b == 0
    ensures xs != [] ==> exists j :: 0 <= j < |xs| && xs[j] + 1 == b
  {
    if xs == [] then 0
    else
      var rest := Bound(xs[..|xs| - 1]);
      assert forall j :: 0 <= j < |xs| - 1 ==> xs[..|xs| - 1][j] == xs[j];
      if rest < xs[|xs| - 1] + 1 then xs[|xs| - 1] + 1 else rest
  }

  /** What bincount returns: one bin per value from 0 up to the largest
      element, padded to at least `minLength` bins, each holding the number
      of occurrences of its value. */
  function Histogram(xs: seq<nat>, minLength: nat): (counts: seq<nat>)
    ensures |counts| >= minLength
    ensures forall j :: 0 <= j < |xs| ==> xs[j] < |counts|
    ensures |counts| == minLength || exists j :: 0 <= j < |xs| && xs[j] + 1 == |counts|
    ensures forall v :: 0 <= v < |counts| ==> counts[v] == multiset(xs)[v]
  {
    seq(if minLength < Bound(xs) then Bound(xs) else minLength, v => multiset(xs)[v])
  }

  /** The number of bins bincount allocates: `max(minLength, max(xs) + 1)`. */
  method BinLength(xs: seq<nat>, minLength: nat) returns (length: nat)
    ensures length == if minLength < Bound(xs) then Bound(xs) else minLength
  {
    length := minLength;
    var i := 0;
    while i < |xs|
      invariant 0 <= i <= |xs|
      invariant length == if minLength < Bound(xs[..i]) then Bound(xs[..i]) else minLength
    {
      assert xs[..i + 1][..i] == xs[..i];
      if length < xs[i] + 1 {
        length := xs[i] + 1;
      }
      i := i + 1;
    }
    assert xs[..i] == xs;
  }

  /** Tallies `xs` into an array of bins. */
  method BinCount(xs: seq<nat>, minLength: nat) returns (counts: seq<nat>)
    ensures counts == Histogram(xs, minLength)
  {
    var length := BinLength(xs, minLength);
    var bins := new nat[length](_ => 0);
    var i := 0;
    while i < |xs|
      invariant 0 <= i <= |xs|
      invariant forall v :: 0 <= v < length ==> bins[v] == multiset(xs[..i])[v]
    {
      assert xs[..i + 1] == xs[..i] + [xs[i]];
      bins[xs[i]] := bins[xs[i]] + 1;
      i := i + 1;
    }
    assert xs[..i] == xs;
    counts := bins[..];
  }

  /** Number of elements of `ms` below `n`, counted value by value. */
  function CountBelow(ms: multiset<nat>, n: nat): nat {
    if n == 0 then 0 else CountBelow(ms, n - 1) + ms[n - 1]
  }

  lemma {:induction false} CountBelowAdd(ms: multiset<nat>, x: nat, n: nat)
    ensures CountBelow(ms + multiset{x}, n) == CountBelow(ms, n) + (if x < n then 1 else 0)
  {
    if n > 0 {
      CountBelowAdd(ms, x, n - 1);
    }
  }

  lemma {:induction false} CountBelowEmpty(n: nat)
    ensures CountBelow(multiset{}, n) == 0
  {
    if n > 0 {
      CountBelowEmpty(n - 1);
    }
  }

  lemma {:induction false} CountBelowAll(xs: seq<nat>, n: nat)
    requires forall j :: 0 <= j < |xs| ==> xs[j] < n
    ensures CountBelow(multiset(xs), n) == |xs|
  {
    if xs == [] {
      CountBelowEmpty(n);
    } else {
      var init, last := xs[..|xs| - 1], xs[|xs| - 1];
      assert xs == init + [last];
      CountBelowAll(init, n);
      CountBelowAdd(multiset(init), last, n);
    }
  }

  lemma {:induction false} SumHistogramPrefix(xs: seq<nat>, minLength: nat, n: nat)
    requires n <= |Histogram(xs, minLength)|
    ensures Sum(Histogram(xs, minLength)[..n]) == CountBelow(multiset(xs), n)
  {
    var h := Histogram(xs, minLength);
    if n > 0 {
      assert h[..n][..n - 1] == h[..n - 1];
      SumHistogramPrefix(xs, minLength, n - 1);
    }
  }

  /** When every value is below `n`, the first `n` bins account for every
      element, and every bin from `n` on is empty. */
  lemma HistogramTotal(xs: seq<nat>, minLength: nat, n: nat)
    requires forall j :: 0 <= j < |xs| ==> xs[j] < n
    requires n <= |Histogram(xs, minLength)|
    ensures Sum(Histogram(xs, minLength)[..n]) == |xs|
    ensures forall v :: n <= v < |Histogram(xs, minLength)| ==> Histogram(xs, minLength)[v] == 0
  {
    SumHistogramPrefix(xs, minLength, n);
    CountBelowAll(xs, n);
    forall v | n <= v < |Histogram(xs, minLength)|
      ensures Histogram(xs, minLength)[v] == 0
    {
      assert v !in multiset(xs);
    }
  }
}
