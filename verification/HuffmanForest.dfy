/** The merge loop of jpeg_gen_optimal_table: trees kept as chains of symbols linked through
    `others`, with every symbol's depth in `codesize`. */
module HuffmanForest {
  import opened Powers
  import opened HuffmanCost
  import opened HuffmanDepth

  ghost predicate NoDup(ch: seq<nat>) {
    forall i, j :: 0 <= i < j < |ch| ==> ch[i] != ch[j]
  }

  ghost function Weight(w: seq<nat>, ch: seq<nat>): nat
    requires forall k :: 0 <= k < |ch| ==> ch[k] < |w|
  {
    if ch == [] then 0 else Weight(w, ch[..|ch| - 1]) + w[ch[|ch| - 1]]
  }

  /** The Kraft sum of one tree, in units of 2^-m. */
  ghost function ChainKraft(ch: seq<nat>, cs: seq<nat>, m: nat): int
    requires forall k :: 0 <= k < |ch| ==> ch[k] < |cs| && cs[ch[k]] <= m
  {
    if ch == [] then 0 else ChainKraft(ch[..|ch| - 1], cs, m) + Pow2(m - cs[ch[|ch| - 1]])
  }

  lemma {:induction false} WeightAppend(w: seq<nat>, a: seq<nat>, b: seq<nat>)
    requires forall k :: 0 <= k < |a| ==> a[k] < |w|
    requires forall k :: 0 <= k < |b| ==> b[k] < |w|
    ensures Weight(w, a + b) == Weight(w, a) + Weight(w, b)
  {
    if b == [] {
      assert a + b == a;
    } else {
      assert (a + b)[..|a + b| - 1] == a + b[..|b| - 1];
      WeightAppend(w, a, b[..|b| - 1]);
    }
  }

  lemma {:induction false} ChainKraftAppend(a: seq<nat>, b: seq<nat>, cs: seq<nat>, m: nat)
    requires forall k :: 0 <= k < |a| ==> a[k] < |cs| && cs[a[k]] <= m
    requires forall k :: 0 <= k < |b| ==> b[k] < |cs| && cs[b[k]] <= m
    ensures ChainKraft(a + b, cs, m) == ChainKraft(a, cs, m) + ChainKraft(b, cs, m)
  {
    if b == [] {
      assert a + b == a;
    } else {
      assert (a + b)[..|a + b| - 1] == a + b[..|b| - 1];
      ChainKraftAppend(a, b[..|b| - 1], cs, m);
    }
  }

  lemma {:induction false} ChainKraftSame(ch: seq<nat>, cs: seq<nat>, cs': seq<nat>, m: nat)
    requires |cs| == |cs'|
    requires forall k :: 0 <= k < |ch| ==> ch[k] < |cs| && cs[ch[k]] <= m && cs'[ch[k]] == cs[ch[k]]
    ensures ChainKraft(ch, cs, m) == ChainKraft(ch, cs', m)
  {
    if ch != [] {
      ChainKraftSame(ch[..|ch| - 1], cs, cs', m);
    }
  }

  /** One more level above every symbol of a chain. */
  ghost function Deepened(cs: seq<nat>, ch: seq<nat>): (r: seq<nat>)
    ensures |r| == |cs|
  {
    seq(|cs|, s requires 0 <= s < |cs| => if s in ch then cs[s] + 1 else cs[s])
  }

  lemma DeepenOne(cs: seq<nat>, ch: seq<nat>, x: nat)
    requires x < |cs| && x !in ch
    ensures Deepened(cs, ch + [x]) == Deepened(cs, ch)[x := cs[x] + 1]
    ensures Deepened(cs, ch)[x] == cs[x]
  {
  }

  lemma DeepenNone(cs: seq<nat>)
    ensures Deepened(cs, []) == cs
  {
  }

  lemma CostDeeper(w: seq<nat>, cs: seq<nat>, x: nat)
    requires |w| == |cs| && x < |w|
    ensures Cost(w, cs[x := cs[x] + 1]) == Cost(w, cs) + w[x]
  {
    assert w[x := w[x]] == w;
    CostSet(w, cs, x, w[x], cs[x] + 1);
    MulDistrib(cs[x], 1, w[x]);
  }

  /** Deepening a chain costs one bit per occurrence of its symbols. */
  lemma {:induction false} DeepenCost(w: seq<nat>, cs: seq<nat>, ch: seq<nat>)
    requires |w| == |cs| && NoDup(ch) && forall k :: 0 <= k < |ch| ==> ch[k] < |w|
    ensures Cost(w, Deepened(cs, ch)) == Cost(w, cs) + Weight(w, ch)
  {
    if ch == [] {
      DeepenNone(cs);
    } else {
      var a, x := ch[..|ch| - 1], ch[|ch| - 1];
      DeepenCost(w, cs, a);
      assert Deepened(cs, ch) == Deepened(cs, a)[x := cs[x] + 1] && Deepened(cs, a)[x] == cs[x] by {
        assert ch == a + [x];
        DeepenOne(cs, a, x);
      }
      CostDeeper(w, Deepened(cs, a), x);
    }
  }

  /** Deepening a chain halves its Kraft sum. */
  lemma {:induction false} DeepenChain(cs: seq<nat>, ch: seq<nat>, all: seq<nat>, m: nat)
    requires forall k :: 0 <= k < |ch| ==> ch[k] in all && ch[k] < |cs| && cs[ch[k]] < m
    ensures 2 * ChainKraft(ch, Deepened(cs, all), m) == ChainKraft(ch, cs, m)
  {
    if ch != [] {
      DeepenChain(cs, ch[..|ch| - 1], all, m);
    }
  }

  lemma KraftDeeper(w: seq<nat>, cs: seq<nat>, x: nat, m: nat)
    requires Within(w, cs, m) && x < |w| && w[x] > 0 && cs[x] < m
    ensures Within(w, cs[x := cs[x] + 1], m)
    ensures 2 * KraftSum(w, cs[x := cs[x] + 1], m) == 2 * KraftSum(w, cs, m) - Pow2(m - cs[x])
  {
    assert w[x := w[x]] == w;
    KraftSet(w, cs, m, x, w[x], cs[x] + 1);
  }

  lemma {:induction false} DeepenKraft(w: seq<nat>, cs: seq<nat>, ch: seq<nat>, m: nat)
    requires Within(w, cs, m) && NoDup(ch)
    requires forall k :: 0 <= k < |ch| ==> ch[k] < |w| && cs[ch[k]] < m && w[ch[k]] > 0
    ensures Within(w, Deepened(cs, ch), m)
    ensures 2 * KraftSum(w, Deepened(cs, ch), m) == 2 * KraftSum(w, cs, m) - ChainKraft(ch, cs, m)
  {
    if ch == [] {
      DeepenNone(cs);
    } else {
      var a, x := ch[..|ch| - 1], ch[|ch| - 1];
      DeepenKraft(w, cs, a, m);
      assert Deepened(cs, ch) == Deepened(cs, a)[x := cs[x] + 1] && Deepened(cs, a)[x] == cs[x] by {
        assert ch == a + [x];
        DeepenOne(cs, a, x);
      }
      KraftDeeper(w, Deepened(cs, a), x, m);
    }
  }

  // ---------- the forest invariant ----------

  /** The list of the symbols of one tree. */
  ghost predicate IsChain(w: seq<nat>, ch: seq<nat>, owner: seq<nat>, c: nat)
    requires |owner| == |w|
  {
    && ch != [] && ch[0] == c && NoDup(ch)
    && forall k :: 0 <= k < |ch| ==> ch[k] < |w| && w[ch[k]] > 0 && owner[ch[k]] == c
  }

  /** A full binary tree, whose root carries the weight of its leaves. */
  ghost predicate IsTree(w: seq<nat>, ch: seq<nat>, cs: seq<nat>, weight: nat, m: nat)
    requires |cs| == |w|
  {
    && (forall k :: 0 <= k < |ch| ==> ch[k] < |w| && cs[ch[k]] <= m)
    && Weight(w, ch) == weight
    && ChainKraft(ch, cs, m) == Pow2(m)
  }

  /** chain[c], for every root c, lists the symbols of its tree, c first; owner[s] is the root of s. */
  ghost predicate Chains(w: seq<nat>, freq: seq<nat>, chain: seq<seq<nat>>, owner: seq<nat>) {
    && |freq| == |chain| == |owner| == |w|
    && forall c :: 0 <= c < |w| && freq[c] > 0 ==> IsChain(w, chain[c], owner, c)
  }

  ghost predicate Trees(w: seq<nat>, freq: seq<nat>, cs: seq<nat>, chain: seq<seq<nat>>, m: nat) {
    && |freq| == |chain| == |cs| == |w|
    && forall c :: 0 <= c < |w| && freq[c] > 0 ==> IsTree(w, chain[c], cs, freq[c], m)
  }

  /** As many units of Kraft sum as trees; and the cost paid so far, together with the cost still to
      be paid, is what Huffman's procedure pays. */
  ghost predicate Totals(w: seq<nat>, freq: seq<nat>, cs: seq<nat>, m: nat) {
    && |cs| == |w|
    && (forall s :: 0 <= s < |w| ==> cs[s] + Live(freq) <= m + 1)
    && (forall s :: 0 <= s < |w| && w[s] == 0 ==> cs[s] == 0)
    && Within(w, cs, m) && KraftSum(w, cs, m) == Live(freq) * Pow2(m)
    && Cost(w, cs) + HuffCost(freq) == HuffCost(w)
  }

  ghost function Joined(chain: seq<seq<nat>>, c1: nat, c2: nat): seq<seq<nat>>
    requires c1 < |chain| && c2 < |chain|
  {
    chain[c1 := chain[c1] + chain[c2]][c2 := []]
  }

  ghost function Reowned(owner: seq<nat>, c1: nat, c2: nat): (r: seq<nat>)
    ensures |r| == |owner|
  {
    seq(|owner|, s requires 0 <= s < |owner| => if owner[s] == c2 then c1 else owner[s])
  }

  lemma JoinChains(w: seq<nat>, freq: seq<nat>, chain: seq<seq<nat>>, owner: seq<nat>, c1: nat, c2: nat)
    requires Chains(w, freq, chain, owner)
    requires c1 < |w| && c2 < |w| && c1 != c2 && freq[c1] > 0 && freq[c2] > 0
    ensures Chains(w, Merge(freq, c1, c2), Joined(chain, c1, c2), Reowned(owner, c1, c2))
    ensures NoDup(chain[c1] + chain[c2])
  {
  }

  /** Joining two trees under a new root gives a tree. */
  lemma JoinTwo(w: seq<nat>, a: seq<nat>, b: seq<nat>, cs: seq<nat>, wa: nat, wb: nat, m: nat)
    requires |cs| == |w| && IsTree(w, a, cs, wa, m) && IsTree(w, b, cs, wb, m)
    requires forall s :: 0 <= s < |w| ==> cs[s] < m
    ensures IsTree(w, a + b, Deepened(cs, a + b), wa + wb, m)
  {
    WeightAppend(w, a, b);
    ChainKraftAppend(a, b, cs, m);
    DeepenChain(cs, a + b, a + b, m);
  }

  lemma JoinTrees(w: seq<nat>, freq: seq<nat>, cs: seq<nat>, chain: seq<seq<nat>>, owner: seq<nat>, m: nat, c1: nat,
                  c2: nat)
    requires Chains(w, freq, chain, owner) && Trees(w, freq, cs, chain, m)
    requires c1 < |w| && c2 < |w| && c1 != c2 && freq[c1] > 0 && freq[c2] > 0
    requires forall s :: 0 <= s < |w| ==> cs[s] < m
    ensures Trees(w, Merge(freq, c1, c2), Deepened(cs, chain[c1] + chain[c2]), Joined(chain, c1, c2), m)
  {
    var both := chain[c1] + chain[c2];
    JoinTwo(w, chain[c1], chain[c2], cs, freq[c1], freq[c2], m);
    forall c | 0 <= c < |w| && freq[c] > 0 && c != c1 && c != c2
      ensures IsTree(w, chain[c], Deepened(cs, both), freq[c], m)
    {
      assert IsChain(w, chain[c], owner, c) && IsChain(w, chain[c1], owner, c1) && IsChain(w, chain[c2], owner, c2);
      assert forall k :: 0 <= k < |chain[c]| ==> chain[c][k] !in both;
      ChainKraftSame(chain[c], cs, Deepened(cs, both), m);
    }
  }

  lemma JoinKraft(w: seq<nat>, cs: seq<nat>, a: seq<nat>, b: seq<nat>, wa: nat, wb: nat, m: nat)
    requires |cs| == |w| && NoDup(a + b) && forall k :: 0 <= k < |a + b| ==> (a + b)[k] < |w| && w[(a + b)[k]] > 0
    requires IsTree(w, a, cs, wa, m) && IsTree(w, b, cs, wb, m)
    requires forall s :: 0 <= s < |w| ==> cs[s] < m
    ensures Within(w, Deepened(cs, a + b), m)
    ensures KraftSum(w, Deepened(cs, a + b), m) == KraftSum(w, cs, m) - Pow2(m)
  {
    DeepenKraft(w, cs, a + b, m);
    ChainKraftAppend(a, b, cs, m);
  }

  lemma JoinCost(w: seq<nat>, cs: seq<nat>, a: seq<nat>, b: seq<nat>, wa: nat, wb: nat, m: nat)
    requires |cs| == |w| && NoDup(a + b) && forall k :: 0 <= k < |a + b| ==> (a + b)[k] < |w|
    requires IsTree(w, a, cs, wa, m) && IsTree(w, b, cs, wb, m)
    ensures Cost(w, Deepened(cs, a + b)) == Cost(w, cs) + wa + wb
  {
    DeepenCost(w, cs, a + b);
    WeightAppend(w, a, b);
  }

  lemma JoinTotals(w: seq<nat>, freq: seq<nat>, cs: seq<nat>, a: seq<nat>, b: seq<nat>, m: nat)
    requires Totals(w, freq, cs, m) && SecondSmallest(freq) >= 0
    requires NoDup(a + b) && forall k :: 0 <= k < |a + b| ==> (a + b)[k] < |w| && w[(a + b)[k]] > 0
    requires IsTree(w, a, cs, freq[Smallest(freq)], m) && IsTree(w, b, cs, freq[SecondSmallest(freq)], m)
    ensures Totals(w, Merge(freq, Smallest(freq), SecondSmallest(freq)), Deepened(cs, a + b), m)
    ensures forall s :: 0 <= s < |w| ==> cs[s] < m
  {
    var c1, c2 := Smallest(freq), SecondSmallest(freq);
    LiveMerge(freq, c1, c2);
    LiveTwo(freq, c1, c2);
    JoinCost(w, cs, a, b, freq[c1], freq[c2], m);
    JoinKraft(w, cs, a, b, freq[c1], freq[c2], m);
    MulDistrib(Live(freq) - 1, 1, Pow2(m));
  }

  // ---------- the loop over arrays ----------

  /** Symbol k of a chain is linked to the next, the last to none. */
  ghost predicate LinkAt(others: seq<int>, ch: seq<nat>, k: nat)
    requires k < |ch|
  {
    ch[k] < |others| && others[ch[k]] == if k + 1 < |ch| then ch[k + 1] else -1
  }

  ghost predicate Linked(others: seq<int>, ch: seq<nat>) {
    forall k :: 0 <= k < |ch| ==> LinkAt(others, ch, k)
  }

  /** What a selection loop finds: a count above MAX_COUNT is as good as none. */
  function Seen(freq: seq<nat>, c: int): int
    requires c < |freq|
  {
    if c >= 0 && freq[c] <= MAX_COUNT then c else -1
  }

  /** The selection loop: the smallest non-zero count other than skip, the larger symbol on a tie, unless all of them
      are above MAX_COUNT. */
  method FindLeast(freq: array<nat>, skip: int) returns (c: int)
    requires freq.Length == 257
    ensures c == Seen(freq[..], Pick(freq[..], skip, 257))
  {
    c := -1;
    var v := MAX_COUNT;
    for i := 0 to 257
      invariant -1 <= c < 257 && c == Seen(freq[..], Pick(freq[..], skip, i))
      invariant v == if c < 0 then MAX_COUNT else freq[c]
    {
      if freq[i] != 0 && freq[i] <= v && i != skip {
        v := freq[i];
        c := i;
      }
    }
  }

  /** Increment the codesize of everything in c's branch; return the last symbol of the branch. */
  method Deepen(codesize: array<nat>, others: array<int>, c: nat, ghost ch: seq<nat>) returns (last: nat)
    requires codesize as object != others as object && codesize.Length == others.Length == 257
    requires ch != [] && ch[0] == c && NoDup(ch) && Linked(others[..], ch)
    modifies codesize
    ensures codesize[..] == Deepened(old(codesize[..]), ch)
    ensures last == ch[|ch| - 1] < 257
  {
    ghost var was := codesize[..];
    ghost var k := 1;
    last := c;
    assert LinkAt(others[..], ch, 0);
    codesize[c] := codesize[c] + 1;
    assert codesize[..] == Deepened(was, ch[..1]);
    while others[last] >= 0
      invariant 1 <= k <= |ch| && last == ch[k - 1] < 257
      invariant Linked(others[..], ch)
      invariant codesize[..] == Deepened(was, ch[..k])
      decreases |ch| - k
    {
      assert LinkAt(others[..], ch, k - 1) && LinkAt(others[..], ch, k);
      last := others[last];
      assert ch[..k + 1] == ch[..k] + [last];
      DeepenOne(was, ch[..k], last);
      codesize[last] := codesize[last] + 1;
      k := k + 1;
    }
    assert LinkAt(others[..], ch, k - 1);
    assert ch[..k] == ch;
  }

  ghost function Singletons(n: nat): (ch: seq<seq<nat>>)
    ensures |ch| == n
  {
    seq(n, i requires 0 <= i < n => [i])
  }

  ghost function Identity(n: nat): (s: seq<nat>)
    ensures |s| == n
  {
    seq(n, i requires 0 <= i < n => i)
  }

  /** At the start every symbol is a tree of its own. */
  lemma InitialForest(w: seq<nat>)
    ensures Chains(w, w, Singletons(|w|), Identity(|w|))
    ensures Trees(w, w, Leaves(|w|), Singletons(|w|), Live(w))
    ensures Totals(w, w, Leaves(|w|), Live(w))
  {
    var cs, m := Leaves(|w|), Live(w);
    forall c | 0 <= c < |w| && w[c] > 0
      ensures IsTree(w, [c], cs, w[c], m)
    {
      assert Weight(w, [c]) == Weight(w, []) + w[c];
      assert ChainKraft([c], cs, m) == ChainKraft([], cs, m) + Pow2(m);
    }
    SumTimes(Ones(w), KraftTerms(w, cs, m), Pow2(m));
    SumTimes(CostTerms(w, cs), CostTerms(w, cs), 0);
  }

  /** Everything the merge loop keeps, apart from the links. */
  ghost predicate Merging(w: seq<nat>, freq: seq<nat>, cs: seq<nat>, chain: seq<seq<nat>>, owner: seq<nat>) {
    && Chains(w, freq, chain, owner)
    && Trees(w, freq, cs, chain, Live(w))
    && Totals(w, freq, cs, Live(w))
    && Live(freq) >= 1
  }

  /** One merge keeps it all. */
  lemma MergeKeeps(w: seq<nat>, freq: seq<nat>, cs: seq<nat>, chain: seq<seq<nat>>, owner: seq<nat>, c1: nat, c2: nat)
    requires Merging(w, freq, cs, chain, owner)
    requires c1 == Smallest(freq) && c2 == SecondSmallest(freq)
    ensures IsChain(w, chain[c1], owner, c1) && IsChain(w, chain[c2], owner, c2)
    ensures NoDup(chain[c1] + chain[c2])
    ensures Chains(w, Merge(freq, c1, c2), Joined(chain, c1, c2), Reowned(owner, c1, c2))
    ensures Trees(w, Merge(freq, c1, c2), Deepened(cs, chain[c1] + chain[c2]), Joined(chain, c1, c2), Live(w))
    ensures Totals(w, Merge(freq, c1, c2), Deepened(cs, chain[c1] + chain[c2]), Live(w))
    ensures Live(Merge(freq, c1, c2)) >= 1
  {
    assert IsChain(w, chain[c1], owner, c1) && IsChain(w, chain[c2], owner, c2);
    JoinChains(w, freq, chain, owner, c1, c2);
    JoinTotals(w, freq, cs, chain[c1], chain[c2], Live(w));
    JoinTrees(w, freq, cs, chain, owner, Live(w), c1, c2);
    LiveMerge(freq, c1, c2);
    LiveTwo(freq, c1, c2);
  }

  /** What is true of the depths when one tree is left. */
  ghost predicate Optimal(w: seq<nat>, cs: seq<nat>) {
    && Within(w, cs, Live(w))
    && KraftSum(w, cs, Live(w)) == Pow2(Live(w))
    && Cost(w, cs) == HuffCost(w)
    && forall s :: 0 <= s < |w| ==> (cs[s] > 0 <==> w[s] > 0)
  }

  lemma LoopEnd(w: seq<nat>, freq: seq<nat>, cs: seq<nat>, chain: seq<seq<nat>>, owner: seq<nat>)
    requires Merging(w, freq, cs, chain, owner) && SecondSmallest(freq) < 0 && Live(w) >= 2
    ensures Optimal(w, cs)
  {
    var m := Live(w);
    SomeLive(freq);
    LiveOne(freq, Smallest(freq));
    forall s | 0 <= s < |w| && w[s] > 0 ensures cs[s] > 0 {
      NoEmptyCode(w, cs, m, s);
    }
  }

  /** With two symbols or more, a full code gives none of them the empty codeword. */
  lemma NoEmptyCode(w: seq<nat>, cs: seq<nat>, m: nat, s: nat)
    requires s < |w| && w[s] > 0 && Live(w) >= 2 && Within(w, cs, m) && KraftSum(w, cs, m) == Pow2(m)
    ensures cs[s] > 0
  {
    if cs[s] == 0 {
      if forall i :: 0 <= i < |w| && i != s ==> w[i] == 0 {
        LiveOne(w, s);
        assert false;
      } else {
        var i :| 0 <= i < |w| && i != s && w[i] > 0;
        SumTwo(KraftTerms(w, cs, m), i, s);
        assert false;
      }
    }
  }

  lemma LinkedJoin(others: seq<int>, a: seq<nat>, b: seq<nat>)
    requires Linked(others, a) && Linked(others, b) && a != [] && b != [] && NoDup(a + b)
    ensures a[|a| - 1] < |others| && Linked(others[a[|a| - 1] := b[0]], a + b)
  {
    assert LinkAt(others, a, |a| - 1);
    var o, ch := others[a[|a| - 1] := b[0]], a + b;
    forall k | 0 <= k < |ch|
      ensures LinkAt(o, ch, k)
    {
      LinkJoinAt(others, a, b, k);
    }
  }

  lemma LinkJoinAt(others: seq<int>, a: seq<nat>, b: seq<nat>, k: nat)
    requires Linked(others, a) && Linked(others, b) && a != [] && b != [] && NoDup(a + b) && k < |a + b|
    ensures a[|a| - 1] < |others| && LinkAt(others[a[|a| - 1] := b[0]], a + b, k)
  {
    assert LinkAt(others, a, |a| - 1);
    assert a[|a| - 1] == (a + b)[|a| - 1];
    if k < |a| {
      assert LinkAt(others, a, k) && (a + b)[k] == a[k];
    } else {
      assert LinkAt(others, b, k - |a|) && (a + b)[k] == b[k - |a|];
    }
  }

  lemma Apart(a: seq<nat>, b: seq<nat>)
    requires NoDup(a + b)
    ensures NoDup(a) && NoDup(b)
    ensures forall i, k :: 0 <= i < |a| && 0 <= k < |b| ==> a[i] != b[k]
  {
    assert forall i :: 0 <= i < |a| ==> a[i] == (a + b)[i];
    assert forall i :: 0 <= i < |b| ==> b[i] == (a + b)[|a| + i];
  }

  lemma DeepenBoth(cs: seq<nat>, a: seq<nat>, b: seq<nat>)
    requires NoDup(a + b)
    ensures Deepened(Deepened(cs, a), b) == Deepened(cs, a + b)
  {
    Apart(a, b);
  }

  lemma LinkedOther(others: seq<int>, ch: seq<nat>, x: nat, v: int)
    requires Linked(others, ch) && x < |others| && forall k :: 0 <= k < |ch| ==> x != ch[k]
    ensures Linked(others[x := v], ch)
  {
    var o := others[x := v];
    forall k | 0 <= k < |ch|
      ensures LinkAt(o, ch, k)
    {
      assert LinkAt(others, ch, k);
    }
  }

  ghost predicate AllLinked(freq: seq<nat>, others: seq<int>, chain: seq<seq<nat>>) {
    |freq| == |chain| && forall c :: 0 <= c < |freq| && freq[c] > 0 ==> Linked(others, chain[c])
  }

  lemma LinksKept(w: seq<nat>, freq: seq<nat>, others: seq<int>, chain: seq<seq<nat>>, owner: seq<nat>, c1: nat,
                  c2: nat)
    requires Chains(w, freq, chain, owner) && AllLinked(freq, others, chain)
    requires c1 < |w| && c2 < |w| && c1 != c2 && freq[c1] > 0 && freq[c2] > 0 && NoDup(chain[c1] + chain[c2])
    ensures IsChain(w, chain[c1], owner, c1) && chain[c1][|chain[c1]| - 1] < |others|
    ensures AllLinked(Merge(freq, c1, c2), others[chain[c1][|chain[c1]| - 1] := c2], Joined(chain, c1, c2))
  {
    assert IsChain(w, chain[c1], owner, c1) && IsChain(w, chain[c2], owner, c2);
    var a := chain[c1];
    var x := a[|a| - 1];
    LinkedJoin(others, a, chain[c2]);
    forall c | 0 <= c < |w| && freq[c] > 0 && c != c1 && c != c2
      ensures Linked(others[x := c2], chain[c])
    {
      assert IsChain(w, chain[c], owner, c);
      LinkedOther(others, chain[c], x, c2);
    }
  }

  /** The invariant of the merge loop. */
  ghost predicate Invariant(w: seq<nat>, freq: seq<nat>, cs: seq<nat>, others: seq<int>,
                            chain: seq<seq<nat>>, owner: seq<nat>) {
    Merging(w, freq, cs, chain, owner) && AllLinked(freq, others, chain)
  }

  /** The branches with roots c1 and c2, as one merge needs them. */
  ghost predicate Mergeable(others: seq<int>, a: seq<nat>, b: seq<nat>, c1: nat, c2: nat) {
    && a != [] && a[0] == c1 && b != [] && b[0] == c2 && NoDup(a + b)
    && Linked(others, a) && Linked(others, b) && a[|a| - 1] < |others|
  }

  /** The links with tree c2 chained onto branch a. */
  ghost function LinkedOn(others: seq<int>, a: seq<nat>, c2: nat): seq<int> {
    if a != [] && a[|a| - 1] < |others| then others[a[|a| - 1] := c2] else others
  }

  /** What one pass of the loop relies on, and the invariant after it. */
  lemma PassKeeps(w: seq<nat>, freq: seq<nat>, cs: seq<nat>, others: seq<int>,
                  chain: seq<seq<nat>>, owner: seq<nat>, c1: nat, c2: nat)
    requires Invariant(w, freq, cs, others, chain, owner)
    requires c1 == Smallest(freq) && c2 == SecondSmallest(freq)
    ensures var a, b := chain[c1], chain[c2];
            && Mergeable(others, a, b, c1, c2)
            && Invariant(w, Merge(freq, c1, c2), Deepened(cs, a + b), others[a[|a| - 1] := c2],
                         Joined(chain, c1, c2), Reowned(owner, c1, c2))
    ensures Live(Merge(freq, c1, c2)) < Live(freq)
  {
    MergeKeeps(w, freq, cs, chain, owner, c1, c2);
    LinksKept(w, freq, others, chain, owner, c1, c2);
    LiveMerge(freq, c1, c2);
  }

  // ---------- the height of the trees ----------

  /** The longest code in a tree has x bits. */
  ghost predicate Top(cs: seq<nat>, ch: seq<nat>, x: nat) {
    && (forall k :: 0 <= k < |ch| ==> ch[k] < |cs| && cs[ch[k]] <= x)
    && exists k :: 0 <= k < |ch| && cs[ch[k]] == x
  }

  /** h[c] is the height of the tree with root c, and every symbol is in the tree of its owner. */
  ghost predicate Tops(w: seq<nat>, freq: seq<nat>, cs: seq<nat>, chain: seq<seq<nat>>, owner: seq<nat>, h: seq<nat>) {
    && |freq| == |cs| == |chain| == |owner| == |h| == |w|
    && (forall c :: 0 <= c < |w| && freq[c] > 0 ==> Top(cs, chain[c], h[c]))
    && forall s :: 0 <= s < |w| && w[s] > 0 ==> owner[s] < |w| && freq[owner[s]] > 0 && s in chain[owner[s]]
  }

  lemma TopJoined(cs: seq<nat>, a: seq<nat>, b: seq<nat>, x: nat, y: nat)
    requires Top(cs, a, x) && Top(cs, b, y)
    ensures Top(Deepened(cs, a + b), a + b, Greater(x, y) + 1)
  {
    var ch := a + b;
    var i :| 0 <= i < |a| && cs[a[i]] == x;
    var j :| 0 <= j < |b| && cs[b[j]] == y;
    forall k | 0 <= k < |ch| ensures ch[k] < |cs| && cs[ch[k]] <= Greater(x, y) {
      assert ch[k] == if k < |a| then a[k] else b[k - |a|];
    }
    assert ch[i] == a[i] && ch[|a| + j] == b[j];
    assert Deepened(cs, ch)[ch[if x < y then |a| + j else i]] == Greater(x, y) + 1;
  }

  lemma TopOther(cs: seq<nat>, ch: seq<nat>, all: seq<nat>, x: nat)
    requires Top(cs, ch, x) && forall k :: 0 <= k < |ch| ==> ch[k] !in all
    ensures Top(Deepened(cs, all), ch, x)
  {
    var k :| 0 <= k < |ch| && cs[ch[k]] == x;
    assert Deepened(cs, all)[ch[k]] == x;
  }

  /** The trees that are not merged keep their heights. */
  lemma OtherTops(w: seq<nat>, freq: seq<nat>, cs: seq<nat>, chain: seq<seq<nat>>, owner: seq<nat>, h: seq<nat>,
                  c1: nat, c2: nat, c: nat)
    requires Chains(w, freq, chain, owner) && Tops(w, freq, cs, chain, owner, h)
    requires c1 < |w| && c2 < |w| && freq[c1] > 0 && freq[c2] > 0 && c < |w| && freq[c] > 0 && c != c1 && c != c2
    ensures Top(Deepened(cs, chain[c1] + chain[c2]), chain[c], h[c])
  {
    assert IsChain(w, chain[c1], owner, c1) && IsChain(w, chain[c2], owner, c2) && IsChain(w, chain[c], owner, c);
    hide Top, Deepened, NoDup;
    TopOther(cs, chain[c], chain[c1] + chain[c2], h[c]);
  }

  /** Every symbol is still in the tree of its owner. */
  lemma StillOwned(w: seq<nat>, freq: seq<nat>, cs: seq<nat>, chain: seq<seq<nat>>, owner: seq<nat>, h: seq<nat>,
                   c1: nat, c2: nat, s: nat)
    requires Tops(w, freq, cs, chain, owner, h) && s < |w| && w[s] > 0
    requires c1 < |w| && c2 < |w| && c1 != c2 && freq[c1] > 0 && freq[c2] > 0
    ensures var o := Reowned(owner, c1, c2)[s];
            o < |w| && Merge(freq, c1, c2)[o] > 0 && s in Joined(chain, c1, c2)[o]
  {
    hide Top;
    assert s in chain[owner[s]];
  }

  lemma MergeTops(w: seq<nat>, freq: seq<nat>, cs: seq<nat>, chain: seq<seq<nat>>, owner: seq<nat>, h: seq<nat>,
                  c1: nat, c2: nat)
    requires Chains(w, freq, chain, owner) && Tops(w, freq, cs, chain, owner, h)
    requires c1 < |w| && c2 < |w| && c1 != c2 && freq[c1] > 0 && freq[c2] > 0
    ensures Tops(w, Merge(freq, c1, c2), Deepened(cs, chain[c1] + chain[c2]), Joined(chain, c1, c2),
                 Reowned(owner, c1, c2), MergedHeights(h, c1, c2))
  {
    hide Top, Deepened, IsChain, Reowned;
    TopJoined(cs, chain[c1], chain[c2], h[c1], h[c2]);
    forall c: nat | c < |w| && freq[c] > 0 && c != c1 && c != c2
      ensures Top(Deepened(cs, chain[c1] + chain[c2]), chain[c], h[c])
    {
      OtherTops(w, freq, cs, chain, owner, h, c1, c2, c);
    }
    forall s: nat | s < |w| && w[s] > 0
      ensures var o := Reowned(owner, c1, c2)[s];
              o < |w| && Merge(freq, c1, c2)[o] > 0 && s in Joined(chain, c1, c2)[o]
    {
      StillOwned(w, freq, cs, chain, owner, h, c1, c2, s);
    }
  }

  lemma FirstTops(w: seq<nat>)
    ensures Tops(w, w, Leaves(|w|), Singletons(|w|), Identity(|w|), Leaves(|w|))
  {
    forall c | 0 <= c < |w| ensures Top(Leaves(|w|), [c], 0) {
      assert [c][0] == c;
    }
  }

  /** The height, and the depths in the last tree. */
  lemma LastTop(w: seq<nat>, freq: seq<nat>, cs: seq<nat>, chain: seq<seq<nat>>, owner: seq<nat>, h: seq<nat>)
    requires Merging(w, freq, cs, chain, owner) && Tops(w, freq, cs, chain, owner, h)
    requires SecondSmallest(freq) < 0 && TreeHeight(freq, h) == Height(w)
    ensures forall s :: 0 <= s < |w| ==> cs[s] <= Height(w)
    ensures exists s :: 0 <= s < |w| && cs[s] == Height(w)
  {
    SomeLive(freq);
    var r := Smallest(freq);
    assert Top(cs, chain[r], h[r]);
    forall s | 0 <= s < |w| && w[s] > 0 ensures cs[s] <= h[r] {
      assert owner[s] == r;
    }
  }

  /** With a count that is not seen the loop stops too soon, and the depths are those of more than one tree. */
  lemma StoppedShort(w: seq<nat>, freq: seq<nat>, cs: seq<nat>, chain: seq<seq<nat>>, owner: seq<nat>)
    requires Merging(w, freq, cs, chain, owner) && SecondSmallest(freq) >= 0
    ensures !Optimal(w, cs)
  {
    LiveTwo(freq, Smallest(freq), SecondSmallest(freq));
    MulLe(2, Live(freq), Pow2(Live(w)));
  }

  /** The depths after the loop: those of an optimal code whose longest code is as long as the tree is high. */
  ghost predicate Assigned(w: seq<nat>, cs: seq<nat>) {
    && |cs| == |w|
    && (Optimal(w, cs) <==> CountsFit(w))
    && (CountsFit(w) ==> (forall s :: 0 <= s < |w| ==> cs[s] <= Height(w))
                         && exists s :: 0 <= s < |w| && cs[s] == Height(w))
  }

  /** The invariant of the merge loop, with the heights of the trees. */
  ghost predicate LoopInvariant(w: seq<nat>, freq: seq<nat>, cs: seq<nat>, others: seq<int>, chain: seq<seq<nat>>,
                                owner: seq<nat>, h: seq<nat>) {
    && Invariant(w, freq, cs, others, chain, owner) && Tops(w, freq, cs, chain, owner, h)
    && TreeHeight(freq, h) == Height(w) && (CountsFit(freq) <==> CountsFit(w))
  }

  lemma LoopEnds(w: seq<nat>, freq: seq<nat>, cs: seq<nat>, others: seq<int>, chain: seq<seq<nat>>, owner: seq<nat>,
                 h: seq<nat>)
    requires LoopInvariant(w, freq, cs, others, chain, owner, h) && Live(w) >= 2
    requires SecondSmallest(freq) < 0 || freq[SecondSmallest(freq)] > MAX_COUNT
    ensures Assigned(w, cs)
  {
    if SecondSmallest(freq) < 0 {
      LoopEnd(w, freq, cs, chain, owner);
      LastTop(w, freq, cs, chain, owner, h);
    } else {
      StoppedShort(w, freq, cs, chain, owner);
    }
  }

  lemma LoopGoesOn(w: seq<nat>, freq: seq<nat>, cs: seq<nat>, others: seq<int>, chain: seq<seq<nat>>, owner: seq<nat>,
                   h: seq<nat>, c1: nat, c2: nat)
    requires |freq| == |cs| == |chain| == |owner| == |h| == |w| && c1 < |w| && c2 < |w|
    requires LoopInvariant(w, freq, cs, others, chain, owner, h)
    requires c1 == Smallest(freq) && c2 == SecondSmallest(freq) && freq[c2] <= MAX_COUNT
    ensures var a, b := chain[c1], chain[c2];
            && Mergeable(others, a, b, c1, c2)
            && LoopInvariant(w, Merge(freq, c1, c2), Deepened(cs, a + b), LinkedOn(others, a, c2),
                             Joined(chain, c1, c2), Reowned(owner, c1, c2), MergedHeights(h, c1, c2))
    ensures Live(Merge(freq, c1, c2)) < Live(freq)
  {
    PassKeeps(w, freq, cs, others, chain, owner, c1, c2);
    MergeTops(w, freq, cs, chain, owner, h, c1, c2);
  }

  /** One pass of the merge loop: pick the two smallest counts and merge them. */
  method Pass(freq: array<nat>, codesize: array<nat>, others: array<int>, ghost w: seq<nat>,
              ghost chain: seq<seq<nat>>, ghost owner: seq<nat>, ghost h: seq<nat>)
      returns (more: bool, ghost chain': seq<seq<nat>>, ghost owner': seq<nat>, ghost h': seq<nat>)
    requires freq != codesize && freq as object != others as object && codesize as object != others as object
    requires freq.Length == codesize.Length == others.Length == 257 && Live(w) >= 2
    requires LoopInvariant(w, freq[..], codesize[..], others[..], chain, owner, h)
    modifies freq, codesize, others
    ensures !more ==> Assigned(w, codesize[..])
    ensures more ==> LoopInvariant(w, freq[..], codesize[..], others[..], chain', owner', h')
    ensures more ==> Live(freq[..]) < old(Live(freq[..]))
  {
    hide LoopInvariant, Assigned, Live;
    chain', owner', h' := chain, owner, h;
    SameSize(w, freq[..], codesize[..], others[..], chain, owner, h);
    var c1 := FindLeast(freq, -1);
    var c2 := FindLeast(freq, c1);
    if c2 < 0 {
      LoopEnds(w, freq[..], codesize[..], others[..], chain, owner, h);
      return false, chain, owner, h;
    }
    LoopGoesOn(w, freq[..], codesize[..], others[..], chain, owner, h, c1, c2);
    MergeBranches(freq, codesize, others, c1, c2, chain[c1], chain[c2]);
    return true, Joined(chain, c1, c2), Reowned(owner, c1, c2), MergedHeights(h, c1, c2);
  }

  lemma SameSize(w: seq<nat>, freq: seq<nat>, cs: seq<nat>, others: seq<int>, chain: seq<seq<nat>>, owner: seq<nat>,
                 h: seq<nat>)
    requires LoopInvariant(w, freq, cs, others, chain, owner, h)
    ensures |freq| == |cs| == |chain| == |owner| == |h| == |w|
  {
  }

  /** The merge loop. On return, codesize holds optimal code lengths for the given counts, exactly if the selection
      loops could see all the counts they needed; the longest of them is the height of the tree. */
  method AssignSizes(freq: array<nat>) returns (codesize: array<nat>)
    requires freq.Length == 257 && Live(freq[..]) >= 2
    modifies freq
    ensures fresh(codesize) && codesize.Length == 257
    ensures Assigned(old(freq[..]), codesize[..])
  {
    hide LoopInvariant, Assigned, Live;
    ghost var w := freq[..];
    codesize := new nat[257](_ => 0);
    var others := new int[257](_ => -1);
    ghost var chain, owner, h := Singletons(257), Identity(257), Leaves(257);
    var more := true;
    Start(w, others[..]);
    assert codesize[..] == Leaves(257);
    while more
      invariant more ==> LoopInvariant(w, freq[..], codesize[..], others[..], chain, owner, h)
      invariant !more ==> Assigned(w, codesize[..])
      decreases more, Live(freq[..])
    {
      more, chain, owner, h := Pass(freq, codesize, others, w, chain, owner, h);
    }
  }

  lemma Start(w: seq<nat>, others: seq<int>)
    requires |w| == |others| == 257 && Live(w) >= 2 && forall i :: 0 <= i < 257 ==> others[i] == -1
    ensures LoopInvariant(w, w, Leaves(257), others, Singletons(257), Identity(257), Leaves(257))
  {
    hide Merging, Tops, TreeHeight, CountsFit, Chains, Trees, Totals;
    FirstMerging(w);
    FirstTops(w);
    forall c | 0 <= c < 257 ensures Linked(others, [c]) {
      assert LinkAt(others, [c], 0);
    }
  }

  lemma FirstMerging(w: seq<nat>)
    requires Live(w) >= 2
    ensures Merging(w, w, Leaves(|w|), Singletons(|w|), Identity(|w|))
  {
    InitialForest(w);
  }

  /** The body of the loop: add the counts, chain c2's branch onto c1's, deepen both. */
  method MergeBranches(freq: array<nat>, codesize: array<nat>, others: array<int>, c1: nat, c2: nat,
                       ghost a: seq<nat>, ghost b: seq<nat>)
    requires freq != codesize && freq as object != others as object && codesize as object != others as object
    requires freq.Length == codesize.Length == others.Length == 257 && c1 < 257 && c2 < 257 && c1 != c2
    requires Mergeable(others[..], a, b, c1, c2)
    modifies freq, codesize, others
    ensures freq[..] == Merge(old(freq[..]), c1, c2)
    ensures codesize[..] == Deepened(old(codesize[..]), a + b)
    ensures a[|a| - 1] < 257 && others[..] == old(others[..])[a[|a| - 1] := c2]
  {
    ghost var cs := codesize[..];
    freq[c1] := freq[c1] + freq[c2];
    freq[c2] := 0;
    Apart(a, b);
    var last := Deepen(codesize, others, c1, a);
    others[last] := c2;
    LinkedOther(old(others[..]), b, last, c2);
    assert others[..] == old(others[..])[last := c2];
    last := Deepen(codesize, others, c2, b);
    DeepenBoth(cs, a, b);
  }
}
