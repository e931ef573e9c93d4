/** The result entries and their ordering: `dominant_colors_info.sort(key=lambda x: x[2], reverse=True)`. */
module Ranking {
  import opened Hex

  /** One result entry: hex code, rounded RGB triple, share of all pixels in percent. */
  datatype ColorInfo = ColorInfo(hex: string, rgb: Rgb, percentage: real)

  /** Sum of the entries' percentages, folded from the last entry. */
  function TotalPercentage(es: seq<ColorInfo>): real {
    if es == [] then 0.0 else TotalPercentage(es[..|es| - 1]) + es[|es| - 1].percentage
  }

  lemma {:induction false} TotalPercentageAppend(s: seq<ColorInfo>, t: seq<ColorInfo>)
    ensures TotalPercentage(s + t) == TotalPercentage(s) + TotalPercentage(t)
  {
    if t != [] {
      assert (s + t)[..|s + t| - 1] == s + t[..|t| - 1];
      TotalPercentageAppend(s, t[..|t| - 1]);
    } else {
      assert s + t == s;
    }
  }

  /** Taking out one entry takes its percentage off the total. */
  lemma TotalPercentageRemove(before: seq<ColorInfo>, x: ColorInfo, after: seq<ColorInfo>)
    ensures TotalPercentage(before + [x] + after) == TotalPercentage(before + after) + x.percentage
  {
    var upTo := before + [x];
    assert upTo[..|upTo| - 1] == before;
    TotalPercentageAppend(upTo, after);
    TotalPercentageAppend(before, after);
  }

  /** Reordering the entries does not change their total. */
  lemma {:induction false} PermutationKeepsTotal(r: seq<ColorInfo>, s: seq<ColorInfo>)
    requires multiset(r) == multiset(s)
    ensures TotalPercentage(r) == TotalPercentage(s)
  {
    if r == [] {
      assert |s| == |multiset(s)| == 0;
    } else {
      var init, x := r[..|r| - 1], r[|r| - 1];
      assert r == init + [x];
      assert multiset(init) == multiset(r) - multiset{x};
      assert x in multiset(s);
      var j :| 0 <= j < |s| && s[j] == x;
      var rest := s[..j] + s[j + 1..];
      assert s == s[..j] + [x] + s[j + 1..];
      assert multiset(rest) == multiset(s) - multiset{x};
      TotalPercentageRemove(s[..j], x, s[j + 1..]);
      PermutationKeepsTotal(init, rest);
    }
  }

  /** Non-increasing by percentage. */
  ghost predicate SortedDesc(s: seq<ColorInfo>) {
    forall i, j :: 0 <= i < j < |s| ==> s[i].percentage >= s[j].percentage
  }

  /** `perm` lists, for each position of `r`, the position of `s` its entry
      came from, and no position of `s` is used twice. */
  ghost predicate Traces(r: seq<ColorInfo>, s: seq<ColorInfo>, perm: seq<nat>) {
    && |perm| == |r| == |s|
    && (forall k :: 0 <= k < |perm| ==> perm[k] < |s| && r[k] == s[perm[k]])
    && (forall k, l :: 0 <= k < l < |perm| ==> perm[k] != perm[l])
  }

  /** Entries with equal percentages appear in the order of their origins. */
  ghost predicate TiesInOrder(r: seq<ColorInfo>, perm: seq<nat>)
    requires |perm| == |r|
  {
    forall k, l :: 0 <= k < l < |r| && r[k].percentage == r[l].percentage ==> perm[k] < perm[l]
  }

  /** `r` is what a stable sort of `s` by descending percentage produces:
      ordered, a permutation of `s`, and ties kept in their order in `s`. */
  ghost predicate IsStableSortDesc(r: seq<ColorInfo>, s: seq<ColorInfo>) {
    && SortedDesc(r)
    && multiset(r) == multiset(s)
    && exists perm :: Traces(r, s, perm) && TiesInOrder(r, perm)
  }

  function Swap<T>(s: seq<T>, j: nat): (t: seq<T>)
    requires 0 < j < |s|
  {
    s[j - 1 := s[j]][j := s[j - 1]]
  }

  /** Exchanging two neighbours with different percentages keeps the trace and the order of ties. */
  lemma SwapKeepsTrace(r: seq<ColorInfo>, s: seq<ColorInfo>, perm: seq<nat>, j: nat)
    requires Traces(r, s, perm) && TiesInOrder(r, perm)
    requires 0 < j < |r| && r[j - 1].percentage != r[j].percentage
    ensures Traces(Swap(r, j), s, Swap(perm, j)) && TiesInOrder(Swap(r, j), Swap(perm, j))
    ensures multiset(Swap(r, j)) == multiset(r)
  {
  }

  /** Part way through inserting the entry that was at `i` into the sorted
      prefix: it now sits at `j`, the other entries up to `i` are in order,
      and it has percentage strictly above each entry it has passed. */
  ghost predicate Inserting(s: seq<ColorInfo>, i: nat, j: nat) {
    && j <= i < |s|
    && (forall k, l :: 0 <= k < l <= i && k != j && l != j ==> s[k].percentage >= s[l].percentage)
    && (forall l :: j < l <= i ==> s[j].percentage > s[l].percentage)
  }

  lemma InsertingStart(s: seq<ColorInfo>, i: nat)
    requires i < |s| && SortedDesc(s[..i])
    ensures Inserting(s, i, i)
  {
  }

  lemma InsertingStep(s: seq<ColorInfo>, i: nat, j: nat)
    requires Inserting(s, i, j) && 0 < j && s[j - 1].percentage < s[j].percentage
    ensures Inserting(Swap(s, j), i, j - 1)
  {
  }

  lemma InsertingDone(s: seq<ColorInfo>, i: nat, j: nat)
    requires Inserting(s, i, j) && (j == 0 || s[j - 1].percentage >= s[j].percentage)
    ensures SortedDesc(s[..i + 1])
  {
  }

  lemma TracesItself(s: seq<ColorInfo>, perm: seq<nat>)
    requires |perm| == |s| && forall k :: 0 <= k < |perm| ==> perm[k] == k
    ensures Traces(s, s, perm) && TiesInOrder(s, perm)
  {
  }

  /** Exchanges the entries at `j - 1` and `j`. */
  method SwapAdjacent(a: array<ColorInfo>, j: nat)
    requires 0 < j < a.Length
    modifies a
    ensures a[..] == Swap(old(a[..]), j)
  {
    a[j - 1], a[j] := a[j], a[j - 1];
  }

  /** One step of the sort: moves the entry at `i` left past every entry with
      a strictly smaller percentage, into the sorted prefix `a[..i]`; the
      entries after `i` stay where they are. */
  method InsertDesc(a: array<ColorInfo>, i: nat, ghost orig: seq<ColorInfo>, ghost perm0: seq<nat>)
    returns (ghost perm: seq<nat>)
    requires i < a.Length && SortedDesc(a[..i])
    requires Traces(a[..], orig, perm0) && TiesInOrder(a[..], perm0)
    modifies a
    ensures SortedDesc(a[..i + 1]) && multiset(a[..]) == multiset(old(a[..]))
    ensures a[i + 1..] == old(a[i + 1..])
    ensures Traces(a[..], orig, perm) && TiesInOrder(a[..], perm)
  {
    perm := perm0;
    var j: nat := i;
    InsertingStart(a[..], i);
    while 0 < j && a[j - 1].percentage < a[j].percentage
      invariant Inserting(a[..], i, j)
      invariant multiset(a[..]) == multiset(old(a[..]))
      invariant a[i + 1..] == old(a[i + 1..])
      invariant Traces(a[..], orig, perm) && TiesInOrder(a[..], perm)
    {
      SwapKeepsTrace(a[..], orig, perm, j);
      InsertingStep(a[..], i, j);
      SwapAdjacent(a, j);
      perm := Swap(perm, j);
      j := j - 1;
    }
    InsertingDone(a[..], i, j);
  }

  /** Python's `list.sort(key=percentage, reverse=True)`, in place: an
      insertion sort that moves an entry left only past strictly smaller
      percentages, so equal percentages keep their order. */
  method SortByPercentageDesc(a: array<ColorInfo>) returns (ghost perm: seq<nat>)
    modifies a
    ensures SortedDesc(a[..]) && multiset(a[..]) == multiset(old(a[..]))
    ensures Traces(a[..], old(a[..]), perm) && TiesInOrder(a[..], perm)
  {
    ghost var orig := a[..];
    perm := seq(a.Length, k => k);
    TracesItself(orig, perm);
    var i := 0;
    while i < a.Length
      invariant 0 <= i <= a.Length
      invariant SortedDesc(a[..i])
      invariant multiset(a[..]) == multiset(orig)
      invariant Traces(a[..], orig, perm) && TiesInOrder(a[..], perm)
    {
      perm := InsertDesc(a, i, orig, perm);
      i := i + 1;
    }
    assert a[..i] == a[..];
  }

  /** A stable descending sort keeps the number of entries and their total. */
  lemma StableSortKeepsTotal(r: seq<ColorInfo>, s: seq<ColorInfo>)
    requires IsStableSortDesc(r, s)
    ensures |r| == |s| && TotalPercentage(r) == TotalPercentage(s)
  {
    assert |r| == |multiset(r)| == |multiset(s)| == |s|;
    PermutationKeepsTotal(r, s);
  }
}
