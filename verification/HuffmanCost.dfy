/** Huffman's procedure on weights, and the proof that the cost it reaches is optimal among all
    code lengths that satisfy the Kraft inequality. A weight of zero means "not present". */
module HuffmanCost {
  import opened Powers

  // ---------- sums ----------

  function SumTo(f: seq<int>, n: nat): int
    requires n <= |f|
  {
    if n == 0 then 0 else SumTo(f, n - 1) + f[n - 1]
  }

  function Sum(f: seq<int>): int {
    SumTo(f, |f|)
  }

  lemma {:induction false} SumToUpdate(f: seq<int>, i: nat, x: int, n: nat)
    requires i < |f| && n <= |f|
    ensures SumTo(f[i := x], n) == SumTo(f, n) + if i < n then x - f[i] else 0
  {
    if n != 0 {
      SumToUpdate(f, i, x, n - 1);
    }
  }

  lemma SumUpdate(f: seq<int>, i: nat, x: int)
    requires i < |f|
    ensures Sum(f[i := x]) == Sum(f) - f[i] + x
  {
    SumToUpdate(f, i, x, |f|);
  }

  lemma {:induction false} SumToAtLeast(f: seq<int>, i: int, n: nat)
    requires n <= |f| && forall k :: 0 <= k < |f| ==> f[k] >= 0
    ensures SumTo(f, n) >= 0 && (0 <= i < n ==> f[i] <= SumTo(f, n))
  {
    if n != 0 {
      SumToAtLeast(f, i, n - 1);
    }
  }

  lemma SumAtLeast(f: seq<int>, i: nat)
    requires i < |f| && forall k :: 0 <= k < |f| ==> f[k] >= 0
    ensures 0 <= f[i] <= Sum(f)
  {
    SumToAtLeast(f, i, |f|);
  }

  lemma SumNonNegative(f: seq<int>)
    requires forall k :: 0 <= k < |f| ==> f[k] >= 0
    ensures Sum(f) >= 0
  {
    SumToAtLeast(f, 0, |f|);
  }

  lemma SumTwo(f: seq<int>, i: nat, j: nat)
    requires i < |f| && j < |f| && i != j && forall k :: 0 <= k < |f| ==> f[k] >= 0
    ensures f[i] + f[j] <= Sum(f)
  {
    SumUpdate(f, i, 0);
    SumAtLeast(f[i := 0], j);
  }

  lemma {:induction false} SumToTimes(f: seq<int>, g: seq<int>, c: int, n: nat)
    requires n <= |f| == |g| && forall k :: 0 <= k < |f| ==> g[k] == c * f[k]
    ensures SumTo(g, n) == c * SumTo(f, n)
  {
    if n != 0 {
      SumToTimes(f, g, c, n - 1);
      MulDistrib(SumTo(f, n - 1), f[n - 1], c);
    }
  }

  lemma SumTimes(f: seq<int>, g: seq<int>, c: int)
    requires |f| == |g| && forall k :: 0 <= k < |f| ==> g[k] == c * f[k]
    ensures Sum(g) == c * Sum(f)
  {
    SumToTimes(f, g, c, |f|);
  }

  // ---------- cost and Kraft sum of code lengths ----------

  function CostTerms(w: seq<nat>, len: seq<nat>): (f: seq<int>)
    requires |w| == |len|
    ensures |f| == |w|
  {
    seq(|w|, i requires 0 <= i < |w| => w[i] * len[i])
  }

  /** Total number of code bits when w[i] symbols have a code of length len[i]. */
  function Cost(w: seq<nat>, len: seq<nat>): int
    requires |w| == |len|
  {
    Sum(CostTerms(w, len))
  }

  /** Every symbol that is present has a length of at most m. */
  ghost predicate Within(w: seq<nat>, len: seq<nat>, m: nat) {
    |w| == |len| && forall i :: 0 <= i < |w| && w[i] > 0 ==> len[i] <= m
  }

  function Share(w: nat, len: nat, m: nat): int
    requires w > 0 ==> len <= m
  {
    if w > 0 then Pow2(m - len) else 0
  }

  function KraftTerms(w: seq<nat>, len: seq<nat>, m: nat): (f: seq<int>)
    requires Within(w, len, m)
    ensures |f| == |w| && forall k :: 0 <= k < |f| ==> f[k] >= 0
  {
    seq(|w|, i requires 0 <= i < |w| => Share(w[i], len[i], m))
  }

  /** The Kraft sum, in units of 2^-m. */
  function KraftSum(w: seq<nat>, len: seq<nat>, m: nat): int
    requires Within(w, len, m)
  {
    Sum(KraftTerms(w, len, m))
  }

  /** The lengths are possible for a binary prefix code. */
  ghost predicate Feasible(w: seq<nat>, len: seq<nat>, m: nat) {
    Within(w, len, m) && KraftSum(w, len, m) <= Pow2(m)
  }

  lemma CostSet(w: seq<nat>, len: seq<nat>, i: nat, v: nat, x: nat)
    requires |w| == |len| && i < |w|
    ensures Cost(w[i := v], len[i := x]) == Cost(w, len) - w[i] * len[i] + v * x
  {
    assert CostTerms(w[i := v], len[i := x]) == CostTerms(w, len)[i := v * x];
    SumUpdate(CostTerms(w, len), i, v * x);
  }

  lemma KraftSet(w: seq<nat>, len: seq<nat>, m: nat, i: nat, v: nat, x: nat)
    requires Within(w, len, m) && i < |w| && (v > 0 ==> x <= m)
    ensures Within(w[i := v], len[i := x], m)
    ensures KraftSum(w[i := v], len[i := x], m) == KraftSum(w, len, m) - Share(w[i], len[i], m) + Share(v, x, m)
  {
    assert KraftTerms(w[i := v], len[i := x], m) == KraftTerms(w, len, m)[i := Share(v, x, m)];
    SumUpdate(KraftTerms(w, len, m), i, Share(v, x, m));
  }

  /** The Kraft sum does not depend on the unit it is measured in. */
  lemma {:induction false} KraftRescale(w: seq<nat>, len: seq<nat>, l: nat, m: nat)
    requires Within(w, len, l) && l <= m
    ensures Within(w, len, m)
    ensures KraftSum(w, len, l) < Pow2(l) <==> KraftSum(w, len, m) < Pow2(m)
    ensures KraftSum(w, len, l) == Pow2(l) <==> KraftSum(w, len, m) == Pow2(m)
    decreases m - l
  {
    if l < m {
      SumTimes(KraftTerms(w, len, l), KraftTerms(w, len, l + 1), 2);
      KraftRescale(w, len, l + 1, m);
    }
  }

  // ---------- the procedure ----------

  /** The smallest non-zero weight among the first n, other than skip; the later one on a tie. */
  function Pick(w: seq<nat>, skip: int, n: nat): (c: int)
    requires n <= |w|
    ensures c == -1 || (0 <= c < n && c != skip && w[c] > 0)
    ensures forall j :: 0 <= j < n && j != skip && w[j] > 0 ==>
              c >= 0 && (w[c] < w[j] || (w[c] == w[j] && j <= c))
  {
    if n == 0 then -1 else
      var c := Pick(w, skip, n - 1);
      if w[n - 1] > 0 && n - 1 != skip && (c < 0 || w[n - 1] <= w[c]) then n - 1 else c
  }

  function Smallest(w: seq<nat>): int {
    Pick(w, -1, |w|)
  }

  function SecondSmallest(w: seq<nat>): int {
    Pick(w, Smallest(w), |w|)
  }

  function Merge(w: seq<nat>, c1: nat, c2: nat): (r: seq<nat>)
    requires c1 < |w| && c2 < |w|
    ensures |r| == |w|
  {
    w[c1 := w[c1] + w[c2]][c2 := 0]
  }

  function Ones(w: seq<nat>): (f: seq<int>)
    ensures |f| == |w|
  {
    seq(|w|, i requires 0 <= i < |w| => if w[i] > 0 then 1 else 0)
  }

  /** How many weights are present. */
  function Live(w: seq<nat>): (n: nat)
  {
    SumNonNegative(Ones(w));
    Sum(Ones(w))
  }

  lemma LiveSet(w: seq<nat>, i: nat, v: nat)
    requires i < |w|
    ensures Live(w[i := v]) == Live(w) - (if w[i] > 0 then 1 else 0) + (if v > 0 then 1 else 0)
  {
    assert Ones(w[i := v]) == Ones(w)[i := if v > 0 then 1 else 0];
    SumUpdate(Ones(w), i, if v > 0 then 1 else 0);
  }

  lemma LiveMerge(w: seq<nat>, c1: nat, c2: nat)
    requires c1 < |w| && c2 < |w| && c1 != c2 && w[c1] > 0 && w[c2] > 0
    ensures Live(Merge(w, c1, c2)) == Live(w) - 1
  {
    LiveSet(w, c1, w[c1] + w[c2]);
    LiveSet(w[c1 := w[c1] + w[c2]], c2, 0);
  }

  lemma LiveOne(w: seq<nat>, c: nat)
    requires c < |w| && w[c] > 0 && forall i :: 0 <= i < |w| && i != c ==> w[i] == 0
    ensures Live(w) == 1
  {
    LiveSet(w, c, 0);
    SumTimes(Ones(w[c := 0]), Ones(w[c := 0]), 0);
  }

  lemma LiveTwo(w: seq<nat>, i: nat, j: nat)
    requires i < |w| && j < |w| && i != j && w[i] > 0 && w[j] > 0
    ensures Live(w) >= 2
  {
    SumTwo(Ones(w), i, j);
  }

  lemma SomeLive(w: seq<nat>)
    requires Live(w) >= 1
    ensures Smallest(w) >= 0
  {
    if Smallest(w) < 0 {
      SumTimes(Ones(w), Ones(w), 0);
      assert false;
    }
  }

  /** What Huffman's procedure pays: each merge adds one bit to everything below it. */
  function HuffCost(w: seq<nat>): nat
    decreases Live(w)
  {
    var c1, c2 := Smallest(w), SecondSmallest(w);
    if c2 < 0 then 0 else
      LiveMerge(w, c1, c2);
      w[c1] + w[c2] + HuffCost(Merge(w, c1, c2))
  }

  // ---------- optimality ----------

  /** A symbol, present and other than skip, whose code is at least as long as c's and all others'. */
  function Deepest(w: seq<nat>, len: seq<nat>, skip: int, n: nat, c: nat): (d: nat)
    requires |w| == |len| && n <= |w| && c < |w| && c != skip && w[c] > 0
    ensures d < |w| && d != skip && w[d] > 0 && len[c] <= len[d]
    ensures forall i :: 0 <= i < n && i != skip && w[i] > 0 ==> len[i] <= len[d]
  {
    if n == 0 then c else
      var d := Deepest(w, len, skip, n - 1, c);
      if n - 1 != skip && w[n - 1] > 0 && len[n - 1] > len[d] then n - 1 else d
  }

  function Swapped(len: seq<nat>, i: nat, j: nat): (r: seq<nat>)
    requires i < |len| && j < |len|
    ensures |r| == |len|
  {
    len[i := len[j]][j := len[i]]
  }

  lemma SwapProduct(wi: int, wj: int, li: int, lj: int)
    requires wi <= wj && li <= lj
    ensures wi * lj + wj * li <= wi * li + wj * lj
  {
    assert (wj - wi) * (lj - li) >= 0;
  }

  /** Giving the lighter symbol the longer of two codes does not cost more. */
  lemma SwapHelps(w: seq<nat>, len: seq<nat>, m: nat, i: nat, j: nat)
    requires Feasible(w, len, m) && i < |w| && j < |w| && w[i] > 0 && w[j] > 0
    requires w[i] <= w[j] && len[i] <= len[j]
    ensures Feasible(w, Swapped(len, i, j), m)
    ensures Cost(w, Swapped(len, i, j)) <= Cost(w, len)
  {
    if i == j {
      assert Swapped(len, i, j) == len;
    } else {
      var l1 := len[i := len[j]];
      assert w[i := w[i]] == w && w[j := w[j]] == w;
      CostSet(w, len, i, w[i], len[j]);
      CostSet(w, l1, j, w[j], len[i]);
      KraftSet(w, len, m, i, w[i], len[j]);
      KraftSet(w, l1, m, j, w[j], len[i]);
      SwapProduct(w[i], w[j], len[i], len[j]);
    }
  }

  /** The two lightest symbols can be given the two longest codes. */
  lemma LightestDeepest(w: seq<nat>, len: seq<nat>, m: nat) returns (best: seq<nat>)
    requires Feasible(w, len, m) && SecondSmallest(w) >= 0
    ensures Feasible(w, best, m) && Cost(w, best) <= Cost(w, len)
    ensures var c1, c2 := Smallest(w), SecondSmallest(w);
            && best[c2] <= best[c1]
            && forall i :: 0 <= i < |w| && i != c1 && w[i] > 0 ==> best[i] <= best[c2]
  {
    var c1, c2 := Smallest(w), SecondSmallest(w);
    var a := Deepest(w, len, -1, |w|, c1);
    SwapHelps(w, len, m, c1, a);
    var l1 := Swapped(len, c1, a);
    var b := Deepest(w, l1, c1, |w|, c2);
    SwapHelps(w, l1, m, c2, b);
    best := Swapped(l1, c2, b);
  }

  /** Then the longest code can be cut to the length of the second longest. */
  lemma CutDeepest(w: seq<nat>, len: seq<nat>, m: nat, c1: nat, c2: nat)
    requires Feasible(w, len, m) && c1 < |w| && c2 < |w| && c1 != c2 && w[c1] > 0 && w[c2] > 0
    requires len[c2] <= len[c1]
    requires forall i :: 0 <= i < |w| && i != c1 && w[i] > 0 ==> len[i] <= len[c2]
    ensures Feasible(w, len[c1 := len[c2]], len[c2])
    ensures Cost(w, len[c1 := len[c2]]) <= Cost(w, len)
    ensures len[c2] >= 1
  {
    var l := len[c2];
    var cut := len[c1 := l];
    var w0 := w[c1 := 0];
    assert len[c1 := len[c1]] == len && w0[c1 := w[c1]] == w && w[c1 := w[c1]] == w;
    KraftSet(w, len, m, c1, 0, len[c1]);
    KraftRescale(w0, len, l, m);
    KraftSet(w0, len, l, c1, w[c1], l);
    CostSet(w, len, c1, w[c1], l);
    MulLe(l, len[c1], w[c1]);
    SumTwo(KraftTerms(w, cut, l), c1, c2);
  }

  lemma MergeCost(w: seq<nat>, len: seq<nat>, l: nat, c1: nat, c2: nat)
    requires |w| == |len| && c1 < |w| && c2 < |w| && c1 != c2
    requires len[c1] == len[c2] == l >= 1
    ensures Cost(w, len) == Cost(Merge(w, c1, c2), len[c1 := l - 1]) + w[c1] + w[c2]
  {
    var w1, len1 := w[c1 := w[c1] + w[c2]], len[c1 := l - 1];
    assert len1[c2 := l] == len1;
    CostSet(w, len, c1, w[c1] + w[c2], l - 1);
    CostSet(w1, len1, c2, 0, l);
    MulDistrib(w[c1], w[c2], l - 1);
  }

  lemma MergeKraft(w: seq<nat>, len: seq<nat>, l: nat, c1: nat, c2: nat)
    requires Feasible(w, len, l) && c1 < |w| && c2 < |w| && c1 != c2 && w[c1] > 0 && w[c2] > 0
    requires len[c1] == len[c2] == l >= 1
    ensures Feasible(Merge(w, c1, c2), len[c1 := l - 1], l)
  {
    var w1, len1 := w[c1 := w[c1] + w[c2]], len[c1 := l - 1];
    assert len1[c2 := l] == len1;
    KraftSet(w, len, l, c1, w[c1] + w[c2], l - 1);
    KraftSet(w1, len1, l, c2, 0, l);
  }

  /** Merging two symbols with codes of equal length saves exactly their weight. */
  lemma MergeSaves(w: seq<nat>, len: seq<nat>, l: nat, c1: nat, c2: nat)
    requires Feasible(w, len, l) && c1 < |w| && c2 < |w| && c1 != c2 && w[c1] > 0 && w[c2] > 0
    requires len[c1] == len[c2] == l >= 1
    ensures Feasible(Merge(w, c1, c2), len[c1 := l - 1], l)
    ensures Cost(w, len) == Cost(Merge(w, c1, c2), len[c1 := l - 1]) + w[c1] + w[c2]
  {
    MergeCost(w, len, l, c1, c2);
    MergeKraft(w, len, l, c1, c2);
  }

  /** No code lengths satisfying the Kraft inequality cost less than Huffman's procedure pays. */
  lemma {:induction false} HuffmanIsOptimal(w: seq<nat>, len: seq<nat>, m: nat)
    requires Feasible(w, len, m)
    ensures HuffCost(w) <= Cost(w, len)
    decreases Live(w)
  {
    var c1, c2 := Smallest(w), SecondSmallest(w);
    if c2 < 0 {
      SumNonNegative(CostTerms(w, len));
    } else {
      var best := LightestDeepest(w, len, m);
      var l := best[c2];
      CutDeepest(w, best, m, c1, c2);
      MergeSaves(w, best[c1 := l], l, c1, c2);
      LiveMerge(w, c1, c2);
      HuffmanIsOptimal(Merge(w, c1, c2), best[c1 := l][c1 := l - 1], l);
    }
  }
}
