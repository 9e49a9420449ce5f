/** The rest of jpeg_gen_optimal_table: from optimal code lengths to a table a JPEG file can carry. */
module OptimalTable {
  import opened Powers
  import opened BitStrings
  import opened CanonicalCode
  import opened HuffmanCost
  import opened HuffmanDepth
  import opened HuffmanForest

  const MAX_CLEN: nat := 32

  // ---------- Kraft sums of length counts ----------

  lemma {:induction false} KraftSetCount(s: seq<nat>, c: nat, x: nat, l: nat, d: nat)
    requires 1 <= c < |s| && l < |s| && l <= d
    ensures Kraft(s[c := x], l, d) == Kraft(s, l, d) + if c <= l then Scale(x, d - c) - Scale(s[c], d - c) else 0
  {
    if l != 0 {
      KraftSetCount(s, c, x, l - 1, d);
    }
  }

  lemma {:induction false} TotalSetCount(s: seq<nat>, c: nat, x: nat, l: nat)
    requires 1 <= c < |s| && l < |s|
    ensures Total(s[c := x], l) == Total(s, l) + if c <= l then x - s[c] else 0
  {
    if l != 0 {
      TotalSetCount(s, c, x, l - 1);
    }
  }

  /** Three different entries together are at most the total. */
  lemma EntriesBound(s: seq<nat>, a: nat, b: nat, c: nat, l: nat)
    requires 1 <= a <= l && 1 <= b <= l && 1 <= c <= l < |s| && a != b && a != c && b != c
    ensures s[a] + s[b] + s[c] <= Total(s, l)
  {
    TotalSetCount(s, a, 0, l);
    TotalSetCount(s[a := 0], b, 0, l);
    TotalSetCount(s[a := 0][b := 0], c, 0, l);
  }

  lemma EntryBound(s: seq<nat>, a: nat, l: nat)
    requires 1 <= a <= l < |s|
    ensures s[a] <= Total(s, l)
  {
    TotalSetCount(s, a, 0, l);
  }

  lemma {:induction false} KraftUnit(s: seq<nat>, l: nat, d: nat)
    requires l < |s| && l <= d
    ensures Kraft(s, l, d + 1) == 2 * Kraft(s, l, d)
  {
    if l != 0 {
      KraftUnit(s, l - 1, d);
      ScaleAdd(s[l], s[l], d - l);
    }
  }

  lemma {:induction false} KraftNonNegative(s: seq<nat>, l: nat, d: nat)
    requires l < |s| && l <= d
    ensures Kraft(s, l, d) >= 0
  {
    if l != 0 {
      KraftNonNegative(s, l - 1, d);
      ScaleZero(d - l);
      ScaleLess(s[l], 0, d - l);
    }
  }

  /** Peeling off the longest length, in that length's own unit. */
  lemma KraftPeel(s: seq<nat>, l: nat)
    requires 1 <= l < |s|
    ensures Kraft(s, l, l) == 2 * Kraft(s, l - 1, l - 1) + s[l]
  {
    KraftUnit(s, l - 1, l - 1);
  }

  // ---------- the adjustment of section K.2 ----------

  /** A full code tree whose longest codes have length at most i. */
  ghost predicate Full(s: seq<nat>, i: nat) {
    && |s| == MAX_CLEN + 1 && 1 <= i <= MAX_CLEN
    && Kraft(s, i, i) == Pow2(i)
    && forall k :: i < k <= MAX_CLEN ==> s[k] == 0
  }

  /** The longest used length up to j. */
  function LastUsed(s: seq<nat>, j: nat): (k: nat)
    requires j < |s| && Kraft(s, j, j) > 0
    ensures 1 <= k <= j && s[k] > 0 && forall x :: k < x <= j ==> s[x] == 0
  {
    KraftPeelFrom(s, j);
    if s[j] > 0 then j else LastUsed(s, j - 1)
  }

  lemma KraftPeelFrom(s: seq<nat>, j: nat)
    requires j < |s| && Kraft(s, j, j) > 0
    ensures j >= 1 && (s[j] == 0 ==> Kraft(s, j - 1, j - 1) > 0)
  {
    KraftPeel(s, j);
  }

  /** Take two symbols of length i away; one gets their common prefix, the other shares the room of
      a symbol of length j. */
  function Shortened(s: seq<nat>, i: nat, j: nat): (t: seq<nat>)
    requires 1 <= j && j + 2 <= i < |s| && s[i] >= 2 && s[j] >= 1
    ensures |t| == |s|
  {
    var a := s[i := s[i] - 2];
    var b := a[i - 1 := a[i - 1] + 1];
    var c := b[j + 1 := b[j + 1] + 2];
    c[j := c[j] - 1]
  }

  /** One adjustment, count by count: of length i two codes go, and of the greatest length l in use up to i - 2 one is
      given up; for that there are two of length l + 1 and one of length i - 1. */
  ghost predicate Adjustment(s: seq<nat>, t: seq<nat>, i: nat, l: nat) {
    && |t| == |s| && 1 <= l && l + 2 <= i < |s| && s[i] >= 2
    && s[l] > 0 && (forall k :: l < k <= i - 2 ==> s[k] == 0)
    && forall k :: 0 <= k < |s| ==>
         t[k] == s[k] + (if k == i then -2 else 0) + (if k == i - 1 then 1 else 0) + (if k == l + 1 then 2 else 0)
                 + (if k == l then -1 else 0)
  }

  lemma ShortenedAdjusts(s: seq<nat>, i: nat)
    requires 3 <= i < |s| && s[i] >= 2 && Kraft(s, i - 2, i - 2) > 0
    ensures Adjustment(s, Shortened(s, i, LastUsed(s, i - 2)), i, LastUsed(s, i - 2))
  {
  }

  lemma TotalAdd(s: seq<nat>, r: seq<nat>, c: nat, x: int, i: nat)
    requires 1 <= c <= i < |s| && s[c] + x >= 0 && r == s[c := s[c] + x]
    ensures Total(r, i) == Total(s, i) + x
  {
    TotalSetCount(s, c, s[c] + x, i);
  }

  lemma ShortenedKeepsTotal(s: seq<nat>, i: nat, j: nat)
    requires 1 <= j && j + 2 <= i < |s| && s[i] >= 2 && s[j] >= 1
    ensures Total(Shortened(s, i, j), i) == Total(s, i)
  {
    hide Total;
    var a := s[i := s[i] - 2];
    var b := a[i - 1 := a[i - 1] + 1];
    var c := b[j + 1 := b[j + 1] + 2];
    var d := Shortened(s, i, j);
    assert d == c[j := c[j] - 1] && c[j] == s[j];
    hide Shortened;
    TotalAdd(s, a, i, -2, i);
    TotalAdd(a, b, i - 1, 1, i);
    TotalAdd(b, c, j + 1, 2, i);
    TotalAdd(c, d, j, -1, i);
  }

  /** Adding x codes of length c, measured at length i. */
  lemma KraftAdd(s: seq<nat>, r: seq<nat>, c: nat, x: int, i: nat)
    requires 1 <= c <= i < |s| && s[c] + x >= 0 && r == s[c := s[c] + x]
    ensures Kraft(r, i, i) == Kraft(s, i, i) + Scale(x, i - c)
  {
    KraftSetCount(s, c, s[c] + x, i, i);
    ScaleAdd(s[c], x, i - c);
  }

  lemma ShortenedKeepsKraft(s: seq<nat>, i: nat, j: nat)
    requires 1 <= j && j + 2 <= i < |s| && s[i] >= 2 && s[j] >= 1
    ensures Kraft(Shortened(s, i, j), i, i) == Kraft(s, i, i)
  {
    hide Kraft;
    var a := s[i := s[i] - 2];
    var b := a[i - 1 := a[i - 1] + 1];
    var c := b[j + 1 := b[j + 1] + 2];
    KraftAdd(s, a, i, -2, i);
    KraftAdd(a, b, i - 1, 1, i);
    KraftAdd(b, c, j + 1, 2, i);
    KraftAdd(c, Shortened(s, i, j), j, -1, i);
    assert Scale(-2, 0) == -2 && Scale(1, 1) == 2;
    assert Scale(1, i - j) == Scale(2, i - (j + 1));
    ScaleAdd(1, -1, i - j);
    ScaleZero(i - j);
  }

  /** At the longest length the number of codes is even, and some shorter length than the next is used. */
  lemma CanShorten(s: seq<nat>, i: nat)
    requires Full(s, i) && i > 16 && Total(s, i) <= 255
    ensures s[i] % 2 == 0
    ensures Kraft(s, i - 2, i - 2) > 0
  {
    PowerAbove(i);
    hide Pow2, Total, Kraft;
    KraftPeel(s, i);
    KraftPeel(s, i - 1);
    KraftNonNegative(s, i - 2, i - 2);
    EntryBound(s, i, i);
    EntryBound(s, i - 1, i);
  }

  lemma PowerAbove(i: nat)
    requires i > 16
    ensures Pow2(i) > 3 * 255
  {
    Pow2Mono(10, i);
    assert Pow2(10) == 1024;
  }

  lemma FullBelow(s: seq<nat>, i: nat)
    requires Full(s, i) && i > 1 && s[i] == 0
    ensures Full(s, i - 1) && Total(s, i - 1) == Total(s, i)
  {
    KraftPeel(s, i);
  }

  lemma ShortenStep(s: seq<nat>, i: nat)
    requires Full(s, i) && i > 16 && Total(s, i) <= 255 && s[i] > 0
    ensures s[i] >= 2 && Kraft(s, i - 2, i - 2) > 0
    ensures var t := Shortened(s, i, LastUsed(s, i - 2));
            Full(t, i) && Total(t, i) == Total(s, i) && t[i] == s[i] - 2
  {
    CanShorten(s, i);
    var j := LastUsed(s, i - 2);
    ShortenedKeepsKraft(s, i, j);
    ShortenedKeepsTotal(s, i, j);
  }

  /** The counts after all lengths above 16 have been adjusted away. */
  ghost function Limited(s: seq<nat>, i: nat): (t: seq<nat>)
    requires Full(s, i) && i >= 16 && Total(s, i) <= 255
    decreases i, s[i]
  {
    if i == 16 then s
    else if s[i] > 0 then
      ShortenStep(s, i);
      Limited(Shortened(s, i, LastUsed(s, i - 2)), i)
    else
      FullBelow(s, i);
      Limited(s, i - 1)
  }

  /** The adjustment ends with a full tree of codes of at most 16 bits for the same number of symbols. */
  lemma {:induction false} LimitedIsFull(s: seq<nat>, i: nat)
    requires Full(s, i) && i >= 16 && Total(s, i) <= 255
    ensures Full(Limited(s, i), 16) && Total(Limited(s, i), 16) == Total(s, i)
    decreases i, s[i]
  {
    if i == 16 {
    } else if s[i] > 0 {
      ShortenStep(s, i);
      LimitedIsFull(Shortened(s, i, LastUsed(s, i - 2)), i);
    } else {
      FullBelow(s, i);
      LimitedIsFull(s, i - 1);
    }
  }

  lemma {:induction false} LimitedNothing(s: seq<nat>, i: nat)
    requires Full(s, i) && i >= 16 && Total(s, i) <= 255 && forall k :: 16 < k <= MAX_CLEN ==> s[k] == 0
    ensures Limited(s, i) == s
    decreases i
  {
    if i != 16 {
      FullBelow(s, i);
      LimitedNothing(s, i - 1);
    }
  }

  /** One turn of the adjustment loop. */
  method ShortenPair(bits: array<byte>, i: nat)
    requires Full(bits[..], i) && i > 16 && Total(bits[..], i) <= 255 && bits[i] > 0
    modifies bits
    ensures old(bits[i]) >= 2 && Kraft(old(bits[..]), i - 2, i - 2) > 0
    ensures bits[..] == Shortened(old(bits[..]), i, LastUsed(old(bits[..]), i - 2))
    ensures Adjustment(old(bits[..]), bits[..], i, LastUsed(old(bits[..]), i - 2))
  {
    ghost var s: seq<nat> := bits[..];
    ShortenStep(s, i);
    var j := i - 2;
    while bits[j] == 0
      invariant 0 <= j <= i - 2 && Kraft(s, j, j) > 0
      invariant LastUsed(s, j) == LastUsed(s, i - 2) && bits[..] == s
      decreases j
    {
      KraftPeelFrom(s, j);
      j := j - 1;
    }
    KraftPeelFrom(s, j);
    EntriesBound(s, i, j, j + 1, i);
    EntriesBound(s, i, j, i - 1, i);
    bits[i] := bits[i] - 2;
    bits[i - 1] := bits[i - 1] + 1;
    bits[j + 1] := bits[j + 1] + 2;
    bits[j] := bits[j] - 1;
    assert bits[..] == Shortened(s, i, j);
    ShortenedAdjusts(s, i);
  }

  method LimitLengths(bits: array<byte>)
    requires Full(bits[..], MAX_CLEN) && Total(bits[..], MAX_CLEN) <= 255
    modifies bits
    ensures bits[..] == Limited(old(bits[..]), MAX_CLEN)
  {
    ghost var s: seq<nat> := bits[..];
    var i := MAX_CLEN;
    while i > 16
      invariant 16 <= i <= MAX_CLEN && bits.Length == MAX_CLEN + 1
      invariant Full(bits[..], i) && Total(bits[..], i) <= 255
      invariant Limited(bits[..], i) == Limited(s, MAX_CLEN)
    {
      while bits[i] > 0
        invariant bits.Length == MAX_CLEN + 1
        invariant Full(bits[..], i) && Total(bits[..], i) <= 255
        invariant Limited(bits[..], i) == Limited(s, MAX_CLEN)
        decreases bits[i]
      {
        ShortenStep(bits[..], i);
        ShortenPair(bits, i);
      }
      FullBelow(bits[..], i);
      i := i - 1;
    }
  }

  // ---------- counting the lengths ----------

  /** How many of the first n symbols have each length. */
  ghost function Counts(cs: seq<nat>, n: nat): (s: seq<nat>)
    requires n <= |cs|
    ensures |s| == MAX_CLEN + 1 && s[0] == 0
  {
    if n == 0 then seq(MAX_CLEN + 1, _ => 0)
    else
      var s := Counts(cs, n - 1);
      if 1 <= cs[n - 1] <= MAX_CLEN then s[cs[n - 1] := s[cs[n - 1]] + 1] else s
  }

  lemma {:induction false} CountsTotal(w: seq<nat>, cs: seq<nat>, n: nat)
    requires n <= |cs| == |w|
    requires forall s :: 0 <= s < |w| ==> cs[s] <= MAX_CLEN && (cs[s] > 0 <==> w[s] > 0)
    ensures Total(Counts(cs, n), MAX_CLEN) == SumTo(Ones(w), n)
  {
    if n == 0 {
      NoTotal(Counts(cs, 0), MAX_CLEN);
    } else {
      CountsTotal(w, cs, n - 1);
      if cs[n - 1] > 0 {
        TotalAdd(Counts(cs, n - 1), Counts(cs, n), cs[n - 1], 1, MAX_CLEN);
      }
    }
  }

  lemma {:induction false} NoTotal(s: seq<nat>, l: nat)
    requires l < |s| && forall k :: 0 <= k < |s| ==> s[k] == 0
    ensures Total(s, l) == 0 && forall d :: l <= d ==> Kraft(s, l, d) == 0
  {
    if l != 0 {
      NoTotal(s, l - 1);
      forall d | l <= d ensures Kraft(s, l, d) == 0 {
        ScaleZero(d - l);
      }
    }
  }

  lemma {:induction false} CountsKraft(w: seq<nat>, cs: seq<nat>, n: nat)
    requires n <= |cs| && Within(w, cs, MAX_CLEN)
    requires forall s :: 0 <= s < |w| ==> (cs[s] > 0 <==> w[s] > 0)
    ensures Kraft(Counts(cs, n), MAX_CLEN, MAX_CLEN) == SumTo(KraftTerms(w, cs, MAX_CLEN), n)
  {
    if n == 0 {
      NoTotal(Counts(cs, 0), MAX_CLEN);
    } else {
      CountsKraft(w, cs, n - 1);
      if cs[n - 1] > 0 {
        KraftAdd(Counts(cs, n - 1), Counts(cs, n), cs[n - 1], 1, MAX_CLEN);
        ScaleIsMul(1, MAX_CLEN - cs[n - 1]);
      }
    }
  }

  /** Optimal lengths of at most 32 bits give a full tree. */
  lemma CountsFull(w: seq<nat>, cs: seq<nat>)
    requires Optimal(w, cs) && forall s :: 0 <= s < |w| ==> cs[s] <= MAX_CLEN
    ensures Full(Counts(cs, |cs|), MAX_CLEN) && Total(Counts(cs, |cs|), MAX_CLEN) == Live(w)
  {
    CountsTotal(w, cs, |cs|);
    CountsKraft(w, cs, |cs|);
    if Live(w) <= MAX_CLEN {
      KraftRescale(w, cs, Live(w), MAX_CLEN);
    } else {
      KraftRescale(w, cs, MAX_CLEN, Live(w));
    }
  }

  /** Count the symbols of each code length; fails on a length above 32. */
  method CountLengths(codesize: array<nat>, ghost w: seq<nat>) returns (ok: bool, bits: array<byte>)
    requires codesize.Length == |w| == 257 && Optimal(w, codesize[..]) && Live(w) <= 255
    ensures fresh(bits) && bits.Length == MAX_CLEN + 1
    ensures ok <==> forall s :: 0 <= s < 257 ==> codesize[s] <= MAX_CLEN
    ensures ok ==> bits[..] == Counts(codesize[..], 257)
  {
    bits := new byte[MAX_CLEN + 1](_ => 0);
    ghost var cs := codesize[..];
    for i := 0 to 257
      invariant bits[..] == Counts(cs, i)
      invariant forall s :: 0 <= s < i ==> codesize[s] <= MAX_CLEN
    {
      if codesize[i] != 0 {
        if codesize[i] > MAX_CLEN {
          return false, bits;
        }
        CountBelowByte(w, cs, i);
        bits[codesize[i]] := bits[codesize[i]] + 1;
      }
    }
    ok := true;
  }

  /** No count overflows a byte, whatever is still to come. */
  lemma CountBelowByte(w: seq<nat>, cs: seq<nat>, i: nat)
    requires Optimal(w, cs) && Live(w) <= 255 && i < |w| && 1 <= cs[i] <= MAX_CLEN
    ensures Counts(cs, i)[cs[i]] < 255
  {
    CountsAtMost(w, cs, i + 1);
    CountsPrefix(w, i + 1);
    EntryBound(Counts(cs, i + 1), cs[i], MAX_CLEN);
  }

  lemma {:induction false} CountsAtMost(w: seq<nat>, cs: seq<nat>, n: nat)
    requires n <= |cs| == |w| && forall s :: 0 <= s < |w| ==> (cs[s] > 0 <==> w[s] > 0)
    ensures Total(Counts(cs, n), MAX_CLEN) <= SumTo(Ones(w), n)
  {
    if n == 0 {
      NoTotal(Counts(cs, 0), MAX_CLEN);
    } else {
      CountsAtMost(w, cs, n - 1);
      if 1 <= cs[n - 1] <= MAX_CLEN {
        TotalAdd(Counts(cs, n - 1), Counts(cs, n), cs[n - 1], 1, MAX_CLEN);
      }
    }
  }

  lemma CountsPrefix(w: seq<nat>, n: nat)
    requires n <= |w|
    ensures SumTo(Ones(w), n) <= Live(w)
    decreases |w| - n
  {
    if n < |w| {
      CountsPrefix(w, n + 1);
    }
  }

  // ---------- listing the symbols ----------

  /** The symbols below n that have a code of length l, in increasing order. */
  ghost function OfSize(cs: seq<nat>, l: nat, n: nat): seq<byte>
    requires n <= |cs| && n <= 256
  {
    if n == 0 then []
    else if cs[n - 1] == l then OfSize(cs, l, n - 1) + [n - 1]
    else OfSize(cs, l, n - 1)
  }

  /** All real symbols with a code of at most l bits, sorted by code length. */
  ghost function UpTo(cs: seq<nat>, l: nat): seq<byte>
    requires |cs| == 257
  {
    if l == 0 then [] else UpTo(cs, l - 1) + OfSize(cs, l, 256)
  }

  lemma {:induction false} OfSizeIs(cs: seq<nat>, l: nat, n: nat)
    requires n <= |cs| && n <= 256
    ensures forall p :: 0 <= p < |OfSize(cs, l, n)| ==> OfSize(cs, l, n)[p] < n && cs[OfSize(cs, l, n)[p]] == l
    ensures forall p, q :: 0 <= p < q < |OfSize(cs, l, n)| ==> OfSize(cs, l, n)[p] < OfSize(cs, l, n)[q]
    ensures forall s :: 0 <= s < n && cs[s] == l ==> s in OfSize(cs, l, n)
  {
    if n != 0 {
      OfSizeIs(cs, l, n - 1);
    }
  }

  /** Each symbol is listed once, shorter codes first. */
  lemma {:induction false} UpToIs(cs: seq<nat>, l: nat)
    requires |cs| == 257
    ensures var r := UpTo(cs, l);
            && (forall p :: 0 <= p < |r| ==> 1 <= cs[r[p]] <= l)
            && (forall p, q :: 0 <= p < q < |r| ==> r[p] != r[q] && cs[r[p]] <= cs[r[q]])
            && (forall s :: 0 <= s < 256 && 1 <= cs[s] <= l ==> s in r)
  {
    if l != 0 {
      UpToIs(cs, l - 1);
      OfSizeIs(cs, l, 256);
      var a, b := UpTo(cs, l - 1), OfSize(cs, l, 256);
      var r := UpTo(cs, l);
      assert forall p :: 0 <= p < |b| ==> cs[b[p]] == l;
      assert r == a + b;
      forall p | 0 <= p < |r| ensures 1 <= cs[r[p]] <= l && (|a| <= p ==> cs[r[p]] == l) {
        if p < |a| {
          assert r[p] == a[p];
          assert cs[a[p]] <= l - 1;
        } else {
          assert 0 <= p - |a| < |b|;
          assert cs[b[p - |a|]] == l;
          assert r[p] == b[p - |a|];
        }
      }
    }
  }

  lemma {:induction false} OfSizeCount(cs: seq<nat>, l: nat, n: nat)
    requires n <= |cs| && n <= 256 && 1 <= l <= MAX_CLEN
    ensures |OfSize(cs, l, n)| == Counts(cs, n)[l]
  {
    if n != 0 {
      OfSizeCount(cs, l, n - 1);
    }
  }

  lemma {:induction false} UpToCount(cs: seq<nat>, l: nat)
    requires |cs| == 257 && l <= MAX_CLEN
    ensures |UpTo(cs, l)| == Total(Counts(cs, 256), l)
  {
    if l != 0 {
      UpToCount(cs, l - 1);
      OfSizeCount(cs, l, 256);
    }
  }

  lemma {:induction false} UpToMono(cs: seq<nat>, l: nat, m: nat)
    requires |cs| == 257 && l <= m
    ensures |UpTo(cs, l)| <= |UpTo(cs, m)|
  {
    if l < m {
      UpToMono(cs, l, m - 1);
    }
  }

  lemma {:induction false} OfSizeMono(cs: seq<nat>, l: nat, n: nat, m: nat)
    requires n <= m <= |cs| && m <= 256
    ensures |OfSize(cs, l, n)| <= |OfSize(cs, l, m)|
  {
    if n < m {
      OfSizeMono(cs, l, n, m - 1);
    }
  }

  /** The inner listing loop: append the symbols with codes of length i. */
  method ListOfSize(codesize: array<nat>, huffval: array<byte>, i: nat, start: nat) returns (p: nat)
    requires codesize.Length == 257 && huffval.Length == 256 && codesize as object != huffval as object
    requires start + |OfSize(codesize[..], i, 256)| <= 256
    modifies huffval
    ensures p == start + |OfSize(codesize[..], i, 256)|
    ensures huffval[..p] == old(huffval[..start]) + OfSize(codesize[..], i, 256)
  {
    ghost var cs: seq<nat> := codesize[..];
    ghost var was := huffval[..start];
    p := start;
    for j := 0 to 256
      invariant codesize[..] == cs && p == start + |OfSize(cs, i, j)| <= 256
      invariant huffval[..p] == was + OfSize(cs, i, j)
    {
      OfSizeMono(cs, i, j + 1, 256);
      if codesize[j] == i {
        huffval[p] := j;
        assert huffval[..p + 1] == huffval[..p] + [j];
        p := p + 1;
      }
    }
  }

  /** The listing loops, which fill huffval from the start and leave the rest of it alone. */
  method ListSymbols(codesize: array<nat>, huffval: array<byte>) returns (p: nat)
    requires codesize.Length == 257 && huffval.Length == 256 && codesize as object != huffval as object
    requires |UpTo(codesize[..], MAX_CLEN)| <= 256
    modifies huffval
    ensures p == |UpTo(codesize[..], MAX_CLEN)|
    ensures huffval[..p] == UpTo(codesize[..], MAX_CLEN)
  {
    ghost var cs: seq<nat> := codesize[..];
    p := 0;
    for i := 1 to MAX_CLEN + 1
      invariant codesize[..] == cs && p == |UpTo(cs, i - 1)|
      invariant p <= 256 && huffval[..p] == UpTo(cs, i - 1)
    {
      UpToMono(cs, i, MAX_CLEN);
      p := ListOfSize(codesize, huffval, i, p);
    }
  }

  // ---------- the whole routine ----------

  /** The counts with pseudo-symbol 256 given its count of 1. */
  function WithPseudo(freq: seq<nat>): (w: seq<nat>)
    requires |freq| == 257
    ensures |w| == 257
  {
    freq[256 := 1]
  }

  /** What the routine needs of its input: a symbol to code, counts its loops can see, and no more symbols than a
      byte can count. */
  ghost predicate Countable(freq: seq<nat>) {
    && |freq| == 257
    && (exists s :: 0 <= s < 256 && freq[s] > 0)
    && CountsFit(WithPseudo(freq))
    && Live(WithPseudo(freq)) <= 255
  }

  /** The length counts after the pseudo-symbol has been taken from the longest length in use. */
  ghost function Dropped(s: seq<nat>): (t: seq<nat>)
    requires Full(s, 16)
    ensures |t| == |s|
  {
    var i := LastUsed(s, 16);
    s[i := s[i] - 1]
  }

  /** The table made from code lengths cs of at most 32 bits. */
  ghost predicate TableFor(w: seq<nat>, cs: seq<nat>, t: HuffTable) {
    && |w| == |cs| == 257 && Optimal(w, cs) && Live(w) <= 255
    && (forall s :: 0 <= s < 257 ==> cs[s] <= MAX_CLEN)
    && t.Shaped()
    && (CountsFull(w, cs); LimitedIsFull(Counts(cs, 257), MAX_CLEN);
        t.bits == Dropped(Limited(Counts(cs, 257), MAX_CLEN))[..17])
    && UpTo(cs, MAX_CLEN) <= t.huffval
  }

  lemma {:induction false} KraftPrefix(s: seq<nat>, l: nat, n: nat, d: nat)
    requires l < n <= |s| && l <= d
    ensures Kraft(s[..n], l, d) == Kraft(s, l, d) && Total(s[..n], l) == Total(s, l)
  {
    if l != 0 {
      KraftPrefix(s, l - 1, n, d);
    }
  }

  /** Dropping the pseudo-symbol frees room, and takes one code away. */
  lemma DroppedTotals(s: seq<nat>)
    requires Full(s, 16)
    ensures Kraft(Dropped(s), 16, 16) < 0x1_0000
    ensures Total(Dropped(s), 16) == Total(s, 16) - 1
  {
    var i := LastUsed(s, 16);
    KraftAdd(s, Dropped(s), i, -1, 16);
    TotalAdd(s, Dropped(s), i, -1, 16);
    ScaleZero(16 - i);
    ScaleLess(-1, 0, 16 - i);
    Pow2Literals();
  }

  lemma TableTotals(w: seq<nat>, cs: seq<nat>, t: HuffTable)
    requires TableFor(w, cs, t) && w[256] > 0
    ensures Kraft(t.bits, 16, 16) < 0x1_0000
    ensures Total(t.bits, 16) == Live(w) - 1 == |UpTo(cs, MAX_CLEN)|
  {
    var c := Counts(cs, 257);
    CountsFull(w, cs);
    LimitedIsFull(c, MAX_CLEN);
    DroppedTotals(Limited(c, MAX_CLEN));
    KraftPrefix(Dropped(Limited(c, MAX_CLEN)), 16, 17, 16);
    UpToCount(cs, MAX_CLEN);
    CountsTotal(w, cs, 256);
  }

  /** Every table the routine makes has a code for each counted symbol and no others, leaves the
      all-ones code unused, and is accepted; for DC tables when the counted symbols are below 16. */
  lemma TableIsAcceptable(w: seq<nat>, cs: seq<nat>, t: HuffTable, isDC: bool)
    requires TableFor(w, cs, t) && w[256] > 0
    requires forall s :: 0 <= s < 256 && w[s] > 0 ==> s <= MaxSymbol(isDC)
    ensures Acceptable(t, isDC)
    ensures forall s: byte :: w[s] > 0 <==> s in t.huffval[..Total(t.bits, 16)]
  {
    TableTotals(w, cs, t);
    UpToIs(cs, MAX_CLEN);
    var n := Total(t.bits, 16);
    assert t.huffval[..n] == UpTo(cs, MAX_CLEN);
    assert forall p :: 0 <= p < n ==> t.huffval[p] == UpTo(cs, MAX_CLEN)[p];
  }

  // ---------- the lengths a table actually gives ----------

  /** Code p has at most l bits exactly when more than p codes do. */
  lemma {:induction false} SizeRank(s: seq<nat>, m: nat, p: nat, l: nat)
    requires m < |s| && l <= m <= 16 && p < Total(s, m)
    ensures Sizes(s, m)[p] <= l <==> p < Total(s, l)
  {
    if m != 0 && l < m {
      if p < Total(s, m - 1) {
        SizeRank(s, m - 1, p, l);
      } else {
        TotalMono(s, l, m - 1);
      }
    }
  }

  /** The p-th symbol of the list has the p-th smallest length. */
  lemma {:induction false} ListedSize(cs: seq<nat>, m: nat, p: nat)
    requires |cs| == 257 && m <= 16 && p < |UpTo(cs, m)|
    ensures |UpTo(cs, m)| == Total(Counts(cs, 256), m)
    ensures cs[UpTo(cs, m)[p]] == Sizes(Counts(cs, 256), m)[p]
  {
    UpToCount(cs, m);
    if m != 0 {
      UpToCount(cs, m - 1);
      if p < |UpTo(cs, m - 1)| {
        ListedSize(cs, m - 1, p);
      } else {
        OfSizeIs(cs, m, 256);
        assert UpTo(cs, m)[p] == OfSize(cs, m, 256)[p - |UpTo(cs, m - 1)|];
      }
    }
  }

  /** With no length above 16 nothing is adjusted, and the pseudo-symbol's place goes to a real one. */
  lemma UnlimitedCounts(w: seq<nat>, cs: seq<nat>, t: HuffTable, l: nat)
    requires TableFor(w, cs, t) && l <= 16 && forall s :: 0 <= s < 257 ==> cs[s] <= 16
    requires w[256] > 0
    ensures Total(Counts(cs, 256), l) <= Total(t.bits, l)
  {
    hide Kraft, Live, Total;
    var c := Counts(cs, 257);
    CountsFull(w, cs);
    CountsNothingAbove(cs, 257);
    LimitedNothing(c, MAX_CLEN);
    LimitedIsFull(c, MAX_CLEN);
    var k := LastUsed(c, 16);
    KraftPrefix(Dropped(c), l, 17, 16);
    TotalSetCount(c, k, c[k] - 1, l);
    TotalSetCount(Counts(cs, 256), cs[256], c[cs[256]], l);
  }

  lemma {:induction false} CountsNothingAbove(cs: seq<nat>, n: nat)
    requires n <= |cs| && forall s :: 0 <= s < |cs| ==> cs[s] <= 16
    ensures forall k :: 16 < k <= MAX_CLEN ==> Counts(cs, n)[k] == 0
  {
    if n != 0 {
      CountsNothingAbove(cs, n - 1);
    }
  }

  /** If no optimal code is longer than 16 bits, the table gives no symbol more bits than it would
      get in the optimal code that includes the pseudo-symbol. */
  lemma NoSymbolGetsLonger(w: seq<nat>, cs: seq<nat>, t: HuffTable, d: DerivedTable, s: byte)
    requires TableFor(w, cs, t) && w[256] > 0 && forall u :: 0 <= u < 257 ==> cs[u] <= 16
    requires Total(t.bits, 16) <= 256 && Derives(t, d) && w[s] > 0
    ensures 1 <= d.ehufsi[s] <= cs[s]
  {
    UpToIs(cs, MAX_CLEN);
    UpToIs(cs, 16);
    UpToSame(cs, MAX_CLEN);
    var p :| 0 <= p < |UpTo(cs, 16)| && UpTo(cs, 16)[p] == s;
    ListedSize(cs, 16, p);
    var l := cs[s];
    SizeRank(Counts(cs, 256), 16, p, l);
    UnlimitedCounts(w, cs, t, l);
    UnlimitedCounts(w, cs, t, 16);
    SizeRank(t.bits, 16, p, l);
    assert t.huffval[p] == s;
  }

  lemma {:induction false} UpToSame(cs: seq<nat>, l: nat)
    requires |cs| == 257 && 16 <= l && forall s :: 0 <= s < 257 ==> cs[s] <= 16
    ensures UpTo(cs, l) == UpTo(cs, 16)
  {
    if l != 16 {
      UpToSame(cs, l - 1);
      NoneOfSize(cs, l, 256);
    }
  }

  lemma {:induction false} NoneOfSize(cs: seq<nat>, l: nat, n: nat)
    requires n <= |cs| && n <= 256 && 16 < l && forall s :: 0 <= s < |cs| ==> cs[s] <= 16
    ensures OfSize(cs, l, n) == []
  {
    if n != 0 {
      NoneOfSize(cs, l, n - 1);
    }
  }

  /** jpeg_gen_optimal_table. Fails exactly when the tree for the counts is more than 32 high. */
  method GenOptimalTable(freq: array<nat>, huffval: array<byte>) returns (r: Option<HuffTable>, ghost cs: seq<nat>)
    requires freq.Length == 257 && huffval.Length == 256 && freq as object != huffval as object
    requires Countable(freq[..])
    modifies freq, huffval
    ensures |cs| == 257 && Optimal(WithPseudo(old(freq[..])), cs)
    ensures r.Some? <==> Height(WithPseudo(old(freq[..]))) <= MAX_CLEN
    ensures r.Some? ==> TableFor(WithPseudo(old(freq[..])), cs, r.value)
    ensures r.Some? ==> r.value.huffval == huffval[..]
  {
    ghost var w := WithPseudo(freq[..]);
    freq[256] := 1;
    assert freq[..] == w;
    CountableIsLive(old(freq[..]));
    var codesize := AssignSizes(freq);
    cs := codesize[..];
    var ok, bits := CountLengths(codesize, w);
    if !ok {
      return None, cs;
    }
    r := FinishTable(codesize, bits, huffval, w);
  }

  lemma CountableIsLive(freq: seq<nat>)
    requires Countable(freq)
    ensures Live(WithPseudo(freq)) >= 2
  {
    var s :| 0 <= s < 256 && freq[s] > 0;
    LiveTwo(WithPseudo(freq), s, 256);
  }

  /** Limit the lengths, drop the pseudo-symbol and list the symbols. */
  method FinishTable(codesize: array<nat>, bits: array<byte>, huffval: array<byte>, ghost w: seq<nat>)
      returns (r: Option<HuffTable>)
    requires codesize.Length == |w| == 257 && huffval.Length == 256 && bits.Length == MAX_CLEN + 1
    requires codesize as object != huffval as object && codesize as object != bits as object && bits != huffval
    requires Optimal(w, codesize[..]) && Live(w) <= 255 && bits[..] == Counts(codesize[..], 257)
    requires forall s :: 0 <= s < 257 ==> codesize[s] <= MAX_CLEN
    modifies bits, huffval
    ensures r.Some? && TableFor(w, old(codesize[..]), r.value) && r.value.huffval == huffval[..]
  {
    ghost var cs: seq<nat> := codesize[..];
    CountsFull(w, cs);
    LimitedIsFull(Counts(cs, 257), MAX_CLEN);
    LimitLengths(bits);
    DropPseudo(bits);
    UpToCount(cs, MAX_CLEN);
    CountsTotal(w, cs, 256);
    var p := ListSymbols(codesize, huffval);
    assert huffval[..p] <= huffval[..];
    assert bits[..17] == bits[..][..17];
    r := Some(HuffTable(bits[..17], huffval[..]));
  }

  /** Remove the count of the pseudo-symbol from the largest length in use. */
  method DropPseudo(bits: array<byte>)
    requires Full(bits[..], 16)
    modifies bits
    ensures bits[..] == Dropped(old(bits[..]))
  {
    ghost var s: seq<nat> := bits[..];
    var i := 16;
    while bits[i] == 0
      invariant 0 <= i <= 16 && Kraft(s, i, i) > 0 && bits[..] == s
      invariant LastUsed(s, i) == LastUsed(s, 16)
      decreases i
    {
      KraftPeelFrom(s, i);
      i := i - 1;
    }
    KraftPeelFrom(s, i);
    bits[i] := bits[i] - 1;
  }
}
