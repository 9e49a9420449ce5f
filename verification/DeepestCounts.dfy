/** Counts of AC symbols for which the optimal code is too long for jpeg_gen_optimal_table: Fibonacci numbers, and on
    top of them the end of block, which is as frequent as blocks are. */
module DeepestCounts {
  import opened HuffmanCost
  import opened HuffmanDepth

  const RUNGS: nat := 32

  /** 32 symbols have a level: those with a size of 1 or 2, the larger symbols the lower levels. */
  function Level(s: nat): (k: nat)
    ensures k <= RUNGS
  {
    if s < 256 && 1 <= s % 16 <= 2 then RUNGS + 1 - (s / 16) * 2 - s % 16 else 0
  }

  /** The symbol of a level. */
  function Rung(k: nat): (s: nat)
    requires 1 <= k <= RUNGS
    ensures 1 <= s < 256 && Level(s) == k
  {
    16 * ((RUNGS - k) / 2) + (RUNGS - k) % 2 + 1
  }

  lemma RungLevel(k: nat)
    requires 1 <= k <= RUNGS
    ensures 1 <= Rung(k) < 256 && Level(Rung(k)) == k
  {
  }

  lemma LevelsDescend(s: nat, t: nat)
    requires Level(s) > 0 && Level(t) > 0
    ensures s < t <==> Level(t) < Level(s)
  {
  }

  /** Each level has the Fibonacci number of that level as its count, the end of block has top, and the pseudo-symbol
      counts 1. */
  function Ladder(top: nat): (w: seq<nat>)
    ensures |w| == 257
  {
    seq(257, s requires 0 <= s < 257 => if s == 256 then 1 else if s == 0 then top else Fib(Level(s)))
  }

  /** After k merges: the tree at p has absorbed levels 1 to k. */
  ghost predicate Climbed(w: seq<nat>, h: seq<nat>, k: nat, p: nat, top: nat) {
    && |w| == |h| == 257 && k <= RUNGS && 1 <= p < 257 && (p == 256 || (1 <= k && Level(p) == k))
    && (k == 0 ==> p == 256)
    && w[p] == Fib(k + 2) && h[p] == k && w[0] == top >= Fib(RUNGS + 1) && h[0] == 0
    && forall s :: 1 <= s < 257 && s != p ==>
         w[s] == (if s < 256 && Level(s) > k then Fib(Level(s)) else 0) && (w[s] > 0 ==> h[s] == 0)
  }

  lemma {:induction false} FibGrows(a: nat, b: nat)
    requires 2 <= a < b
    ensures 0 < Fib(a) < Fib(b)
  {
    FibPositive(a);
    FibPositive(b - 2);
    if a + 1 < b {
      FibGrows(a, b - 1);
    }
  }

  lemma {:induction false} FibPositive(a: nat)
    ensures a > 0 ==> Fib(a) > 0
  {
    if a > 1 {
      FibPositive(a - 1);
    }
  }

  lemma FirstFib()
    ensures Fib(1) == Fib(2) == 1 && Fib(RUNGS + 1) > 0
  {
    FibPositive(RUNGS + 1);
  }

  lemma OnlyRung(k: nat)
    requires 1 <= k <= RUNGS
    ensures forall s: nat :: s < 256 && Level(s) == k ==> s == Rung(k)
    ensures forall s: nat :: s < 256 && Level(s) > k ==> s < Rung(k)
  {
    forall s: nat | s < 256 && Level(s) >= k ensures if Level(s) == k then s == Rung(k) else s < Rung(k) {
      LevelsDescend(s, Rung(k));
      LevelsDescend(Rung(k), s);
    }
  }

  /** The first merge takes the pseudo-symbol and level 1. */
  lemma FirstPair(w: seq<nat>, h: seq<nat>, top: nat)
    requires Climbed(w, h, 0, 256, top)
    ensures Smallest(w) == 256 && SecondSmallest(w) == Rung(1)
  {
    hide Fib, Level, Rung;
    FirstFib();
    RungLevel(1);
    OnlyRung(1);
    assert w[Rung(1)] == 1;
    forall s | 0 <= s < 256 && w[s] > 0 && s != Rung(1) ensures w[s] > 0 && s < Rung(1) {
    }
  }

  /** What the next level and the tree weigh, against everything else. */
  lemma OthersHeavier(w: seq<nat>, h: seq<nat>, k: nat, p: nat, s: nat, top: nat)
    requires Climbed(w, h, k, p, top) && 1 <= k < RUNGS && s < 257 && s != p && s != Rung(k + 1) && w[s] > 0
    ensures w[s] > w[p] || (w[s] == w[p] && s < p)
  {
    hide Level, Rung, Fib;
    RungLevel(k + 1);
    if s == 0 {
      if k + 2 < RUNGS + 1 {
        FibGrows(k + 2, RUNGS + 1);
      }
    } else {
      LevelsDescend(s, Rung(k + 1));
      LevelsDescend(Rung(k + 1), s);
      if Level(s) > k + 2 {
        FibGrows(k + 2, Level(s));
      } else if p < 256 {
        LevelsDescend(s, p);
      }
    }
  }

  lemma RungIsLightest(w: seq<nat>, h: seq<nat>, k: nat, p: nat, top: nat)
    requires Climbed(w, h, k, p, top) && 1 <= k < RUNGS
    ensures Rung(k + 1) != p && 0 < w[Rung(k + 1)] < w[p]
  {
    assert Fib(3) == 2 && Fib(2) == 1;
    if k > 1 {
      FibGrows(k + 1, k + 2);
    }
  }

  /** Every other merge takes the next level, and then the tree: of two equal weights the larger symbol wins. */
  lemma NextPair(w: seq<nat>, h: seq<nat>, k: nat, p: nat, top: nat)
    requires Climbed(w, h, k, p, top) && 1 <= k < RUNGS
    ensures Smallest(w) == Rung(k + 1) && SecondSmallest(w) == p
  {
    hide Fib, Level, Rung;
    RungIsLightest(w, h, k, p, top);
    forall s | 0 <= s < 257 && s != p && s != Rung(k + 1) && w[s] > 0
      ensures w[s] > w[p] || (w[s] == w[p] && s < p)
    {
      OthersHeavier(w, h, k, p, s, top);
    }
  }

  /** One merge further up. */
  lemma ClimbStep(w: seq<nat>, h: seq<nat>, k: nat, p: nat, top: nat)
    requires Climbed(w, h, k, p, top) && k < RUNGS
    ensures SecondSmallest(w) >= 0
    ensures var c1, c2 := Smallest(w), SecondSmallest(w);
            Climbed(Merge(w, c1, c2), MergedHeights(h, c1, c2), k + 1, c1, top)
  {
    hide Fib, Level, Rung, Smallest, SecondSmallest;
    if k == 0 {
      FirstPair(w, h, top);
    } else {
      NextPair(w, h, k, p, top);
    }
    NextFib(k);
    RungLevel(k + 1);
    OnlyRung(k + 1);
  }

  lemma NextFib(k: nat)
    ensures Fib(k + 3) == Fib(k + 1) + Fib(k + 2) && Fib(k + 1) > 0
  {
    FibPositive(k + 1);
  }

  lemma SumOne(w: seq<nat>, p: nat)
    requires p < |w| && forall i :: 0 <= i < |w| && i != p ==> w[i] == 0
    ensures Sum(w) == w[p]
  {
    SumUpdate(w, p, 0);
    SumTimes(w[p := 0], w[p := 0], 0);
  }

  /** The last merge joins the tree with the end of block. */
  lemma LastMerge(w: seq<nat>, h: seq<nat>, p: nat, top: nat)
    requires Climbed(w, h, RUNGS, p, top)
    ensures TreeHeight(w, h) == RUNGS + 1 && Sum(w) == top + Fib(RUNGS + 2) && Live(w) == 2
  {
    hide Fib, Level;
    var c1, c2 := Smallest(w), SecondSmallest(w);
    FibPositive(RUNGS + 1);
    FibPositive(RUNGS + 2);
    assert (c1 == 0 && c2 == p) || (c1 == p && c2 == 0);
    var m := Merge(w, c1, c2);
    LiveMerge(w, c1, c2);
    SumMerge(w, c1, c2);
    SumOne(m, c1);
    LiveOne(m, c1);
    assert Smallest(m) == c1 && SecondSmallest(m) < 0;
  }

  lemma {:induction false} Climb(w: seq<nat>, h: seq<nat>, k: nat, p: nat, top: nat)
    requires Climbed(w, h, k, p, top)
    ensures TreeHeight(w, h) == RUNGS + 1 && Sum(w) == top + Fib(RUNGS + 2) && Live(w) == RUNGS + 2 - k
    decreases RUNGS - k
  {
    hide Fib, Level;
    var c1, c2 := Smallest(w), SecondSmallest(w);
    if k == RUNGS {
      LastMerge(w, h, p, top);
    } else {
      ClimbStep(w, h, k, p, top);
      LiveMerge(w, c1, c2);
      SumMerge(w, c1, c2);
      Climb(Merge(w, c1, c2), MergedHeights(h, c1, c2), k + 1, c1, top);
    }
  }

  /** The tree is 33 high, which is too much. With the smallest possible top the total is 9,227,465, and with a smaller
      total there is no such tree. */
  lemma LadderIsDeep(top: nat)
    requires top >= 3_524_578
    ensures Height(Ladder(top)) == 33 && Sum(Ladder(top)) == top + 5_702_887 && Live(Ladder(top)) == 34
    ensures top == 3_524_578 ==> Sum(Ladder(top)) == 9_227_465
  {
    assert Fib(2) == 1 && Fib(0) == 0;
    FibOf35();
    Climb(Ladder(top), Leaves(257), 0, 256, top);
  }
}
