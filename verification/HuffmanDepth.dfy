/** How deep the tree of Huffman's procedure gets, and which counts its selection loops can still see. */
module HuffmanDepth {
  import opened HuffmanCost

  /** The selection loops do not see counts above this. */
  const MAX_COUNT: nat := 1_000_000_000

  /** No merge needs a count that the selection loops do not see. */
  predicate CountsFit(w: seq<nat>)
    decreases Live(w)
  {
    var c1, c2 := Smallest(w), SecondSmallest(w);
    c2 < 0 ||
    (LiveMerge(w, c1, c2);
     w[c2] <= MAX_COUNT && CountsFit(Merge(w, c1, c2)))
  }

  function Greater(a: nat, b: nat): nat {
    if a < b then b else a
  }

  function MergedHeights(h: seq<nat>, c1: nat, c2: nat): (r: seq<nat>)
    requires c1 < |h| && c2 < |h|
    ensures |r| == |h|
  {
    h[c1 := Greater(h[c1], h[c2]) + 1]
  }

  /** The height of the last tree, when the trees with these weights have these heights. */
  function TreeHeight(w: seq<nat>, h: seq<nat>): nat
    requires |h| == |w|
    decreases Live(w)
  {
    var c1, c2 := Smallest(w), SecondSmallest(w);
    if c1 < 0 then 0
    else if c2 < 0 then h[c1]
    else
      LiveMerge(w, c1, c2);
      TreeHeight(Merge(w, c1, c2), MergedHeights(h, c1, c2))
  }

  function Leaves(n: nat): (h: seq<nat>)
    ensures |h| == n
  {
    seq(n, _ => 0)
  }

  /** The height of the tree for these counts: the length of the longest code. */
  function Height(w: seq<nat>): nat {
    TreeHeight(w, Leaves(|w|))
  }

  // ---------- when all counts are seen ----------

  lemma SumMerge(w: seq<nat>, c1: nat, c2: nat)
    requires c1 < |w| && c2 < |w| && c1 != c2
    ensures Sum(Merge(w, c1, c2)) == Sum(w)
  {
    SumUpdate(w, c1, w[c1] + w[c2]);
    SumUpdate(w[c1 := w[c1] + w[c2]], c2, 0);
  }

  /** Every weight is at least m, and at most MAX_COUNT or 2 * m: with m the larger of the weights merged last. */
  lemma {:induction false} FitFrom(w: seq<nat>, m: nat)
    requires Sum(w) <= 1_500_000_000
    requires forall i :: 0 <= i < |w| && w[i] > 0 ==> m <= w[i] && (w[i] <= MAX_COUNT || w[i] <= 2 * m)
    ensures CountsFit(w)
    decreases Live(w)
  {
    var c1, c2 := Smallest(w), SecondSmallest(w);
    if c2 >= 0 {
      SumTwo(w, c1, c2);
      LiveMerge(w, c1, c2);
      SumMerge(w, c1, c2);
      FitFrom(Merge(w, c1, c2), w[c2]);
    }
  }

  /** No count above MAX_COUNT, and a total of at most one and a half times that: every merge sees what it needs. */
  lemma SmallCountsFit(w: seq<nat>)
    requires Sum(w) <= 1_500_000_000 && forall i :: 0 <= i < |w| ==> w[i] <= MAX_COUNT
    ensures CountsFit(w)
  {
    FitFrom(w, 0);
  }

  // ---------- how deep the tree gets ----------

  lemma {:induction false} HeightBelow(w: seq<nat>, h: seq<nat>, top: nat)
    requires |h| == |w| && Live(w) >= 1 && forall i :: 0 <= i < |w| && w[i] > 0 ==> h[i] <= top
    ensures TreeHeight(w, h) <= top + Live(w) - 1
    decreases Live(w)
  {
    var c1, c2 := Smallest(w), SecondSmallest(w);
    if c2 >= 0 {
      LiveTwo(w, c1, c2);
      LiveMerge(w, c1, c2);
      HeightBelow(Merge(w, c1, c2), MergedHeights(h, c1, c2), top + 1);
    }
  }

  /** A tree with n leaves is less than n high. */
  lemma HeightBelowLeaves(w: seq<nat>)
    requires Live(w) >= 1
    ensures Height(w) < Live(w)
  {
    HeightBelow(w, Leaves(|w|), 0);
  }

  function Fib(n: nat): nat {
    if n < 2 then n else Fib(n - 2) + Fib(n - 1)
  }

  lemma {:induction false} FibMono(a: nat, b: nat)
    requires a <= b
    ensures Fib(a) <= Fib(b)
  {
    if a < b {
      FibMono(a, b - 1);
    }
  }

  /** The weights that trees of these heights must have, when m is the larger of the two weights merged last. */
  ghost predicate Heavy(w: seq<nat>, h: seq<nat>, m: nat) {
    && |h| == |w|
    && forall i :: 0 <= i < |w| && w[i] > 0 ==>
         m <= w[i] && Fib(h[i] + 2) <= w[i] && (h[i] > 0 ==> Fib(h[i] + 1) <= m)
  }

  /** Merging the two lightest trees keeps that. */
  lemma MergedIsHeavy(w: seq<nat>, h: seq<nat>, m: nat)
    requires Heavy(w, h, m) && SecondSmallest(w) >= 0
    ensures var c1, c2 := Smallest(w), SecondSmallest(w);
            Heavy(Merge(w, c1, c2), MergedHeights(h, c1, c2), w[c2])
  {
    hide Fib;
    var c1, c2 := Smallest(w), SecondSmallest(w);
    MergedWeight(w[c1], w[c2], h[c1], h[c2], m);
  }

  /** A tree of two whose weights are enough for their heights. */
  lemma MergedWeight(a: nat, b: nat, x: nat, y: nat, m: nat)
    requires 0 < a <= b && m <= a && Fib(x + 2) <= a && Fib(y + 2) <= b
    requires (x > 0 ==> Fib(x + 1) <= m) && (y > 0 ==> Fib(y + 1) <= m)
    ensures var top := Greater(x, y) + 1; Fib(top + 2) <= a + b && Fib(top + 1) <= b
  {
    var top := Greater(x, y);
    assert Fib(top + 3) == Fib(top + 1) + Fib(top + 2);
    assert Fib(2) == 1 && Fib(1) == 1;
  }

  lemma {:induction false} HeightNeedsWeight(w: seq<nat>, h: seq<nat>, m: nat)
    requires Heavy(w, h, m) && Live(w) >= 1
    ensures Fib(TreeHeight(w, h) + 2) <= Sum(w)
    decreases Live(w)
  {
    var c1, c2 := Smallest(w), SecondSmallest(w);
    SomeLive(w);
    if c2 < 0 {
      SumAtLeast(w, c1);
    } else {
      LiveTwo(w, c1, c2);
      LiveMerge(w, c1, c2);
      SumMerge(w, c1, c2);
      MergedIsHeavy(w, h, m);
      HeightNeedsWeight(Merge(w, c1, c2), MergedHeights(h, c1, c2), w[c2]);
    }
  }

  /** A longest code of n bits needs a total of at least the Fibonacci number n + 2. */
  lemma DeepNeedsWeight(w: seq<nat>)
    requires Live(w) >= 1
    ensures Fib(Height(w) + 2) <= Sum(w)
  {
    assert Fib(2) == 1;
    HeightNeedsWeight(w, Leaves(|w|), 0);
  }

  lemma {:induction false} FibOf35()
    ensures Fib(33) == 3_524_578 && Fib(34) == 5_702_887 && Fib(35) == 9_227_465
  {
    assert Fib(10) == 55 && Fib(11) == 89;
    assert Fib(12) == 144 && Fib(13) == 233 && Fib(14) == 377 && Fib(15) == 610;
    assert Fib(16) == 987 && Fib(17) == 1597 && Fib(18) == 2584 && Fib(19) == 4181;
    assert Fib(20) == 6765 && Fib(21) == 10946 && Fib(22) == 17711 && Fib(23) == 28657;
    assert Fib(24) == 46368 && Fib(25) == 75025 && Fib(26) == 121393 && Fib(27) == 196418;
    assert Fib(28) == 317811 && Fib(29) == 514229 && Fib(30) == 832040 && Fib(31) == 1346269;
    assert Fib(32) == 2178309 && Fib(33) == 3524578;
  }

  /** With fewer than 9,227,465 symbols no code is longer than 32 bits. */
  lemma LightIsShallow(w: seq<nat>)
    requires Live(w) >= 1 && Sum(w) < 9_227_465
    ensures Height(w) <= 32
  {
    DeepNeedsWeight(w);
    if Height(w) > 32 {
      FibMono(35, Height(w) + 2);
      FibOf35();
    }
  }
}
