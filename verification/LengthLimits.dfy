/** Which codes the limitation of code lengths in section K.2 of T.81 makes longer: the procedure of figure K.3 as a
    sequence of adjustments, each of which gives up one code of the greatest length it can, and what that means for the
    symbols. */
module LengthLimits {
  import opened BitStrings
  import opened CanonicalCode
  import opened HuffmanCost
  import opened OptimalTable

  /** Adjustments one after the other: always at the greatest length in use, as long as that is above 16. */
  ghost predicate Adjusted(path: seq<seq<nat>>, given: seq<nat>) {
    && |path| == |given| + 1
    && (forall k :: 0 <= k < |path| ==> |path[k]| == MAX_CLEN + 1)
    && forall k :: 0 <= k < |given| ==> OneAdjusted(path[k], path[k + 1], given[k])
  }

  ghost predicate OneAdjusted(s: seq<nat>, t: seq<nat>, l: nat) {
    exists i: nat :: 16 < i < |s| && (forall k :: i < k < |s| ==> s[k] == 0) && Adjustment(s, t, i, l)
  }

  ghost predicate AtMost16(s: seq<nat>) {
    forall k :: 16 < k < |s| ==> s[k] == 0
  }

  /** The limited lengths are reached by such adjustments, until no length is above 16. */
  lemma {:induction false} LimitedByAdjustments(s: seq<nat>, i: nat) returns (path: seq<seq<nat>>, given: seq<nat>)
    requires Full(s, i) && i >= 16 && Total(s, i) <= 255
    ensures Adjusted(path, given) && path[0] == s && path[|given|] == Limited(s, i) && AtMost16(path[|given|])
    decreases i, s[i]
  {
    hide Kraft, Total;
    if i == 16 {
      path, given := [s], [];
    } else if s[i] > 0 {
      ShortenStep(s, i);
      ShortenedAdjusts(s, i);
      var l := LastUsed(s, i - 2);
      var t := Shortened(s, i, l);
      path, given := LimitedByAdjustments(t, i);
      assert OneAdjusted(s, t, l);
      path := Preceded(s, path, l, given);
      given := [l] + given;
    } else {
      FullBelow(s, i);
      path, given := LimitedByAdjustments(s, i - 1);
    }
  }

  lemma Preceded(s: seq<nat>, path: seq<seq<nat>>, l: nat, given: seq<nat>) returns (longer: seq<seq<nat>>)
    requires |s| == MAX_CLEN + 1 && Adjusted(path, given) && OneAdjusted(s, path[0], l)
    ensures Adjusted(longer, [l] + given) && longer[0] == s && longer[|given| + 1] == path[|given|]
  {
    hide OneAdjusted;
    longer := [s] + path;
    var g := [l] + given;
    forall k | 0 <= k < |g| ensures OneAdjusted(longer[k], longer[k + 1], g[k]) {
      if k > 0 {
        assert OneAdjusted(path[k - 1], path[k], given[k - 1]);
      }
    }
  }

  /** If no code shorter than g is given up, the numbers of codes shorter than g stay as they are. */
  lemma {:induction false} ShortCountsStay(path: seq<seq<nat>>, given: seq<nat>, g: nat, k: nat)
    requires Adjusted(path, given) && k <= |given| && (forall m :: 0 <= m < |given| ==> given[m] >= g) && g <= MAX_CLEN
    ensures forall n :: 0 <= n < g ==> path[k][n] == path[0][n]
  {
    if k > 0 {
      ShortCountsStay(path, given, g, k - 1);
      assert OneAdjusted(path[k - 1], path[k], given[k - 1]);
    }
  }

  /** Giving up the greatest length possible is the best for the short codes: any other choice leaves fewer of the first
      length at which it makes a difference. */
  lemma GreatestIsBest(s: seq<nat>, t: seq<nat>, i: nat, l: nat, other: nat, u: seq<nat>)
    requires Adjustment(s, t, i, l) && 1 <= other <= i - 2 && s[other] > 0 && other != l && |u| == |s|
    requires forall k :: 0 <= k <= other ==> u[k] == s[k] - if k == other then 1 else 0
    ensures other < l && (forall k :: 0 <= k < other ==> t[k] == u[k]) && t[other] > u[other]
  {
  }

  /** The lengths of all codes together. */
  function Lengths(s: seq<nat>, n: nat): int
    requires n < |s|
  {
    if n == 0 then 0 else Lengths(s, n - 1) + n * s[n]
  }

  lemma {:induction false} LengthsSet(s: seq<nat>, c: nat, x: nat, n: nat)
    requires 1 <= c < |s| && n < |s|
    ensures Lengths(s[c := x], n) == Lengths(s, n) + if c <= n then c * (x - s[c]) else 0
  {
    if n != 0 {
      LengthsSet(s, c, x, n - 1);
    }
  }

  /** It is not the best for the sum of all lengths: that grows by l + 1 - i, so for symbols that are equally frequent a
      shorter l would be cheaper. */
  lemma AdjustmentLengths(s: seq<nat>, i: nat, l: nat)
    requires 1 <= l && l + 2 <= i < |s| && s[i] >= 2 && s[l] >= 1
    ensures Lengths(Shortened(s, i, l), |s| - 1) == Lengths(s, |s| - 1) + l + 1 - i
  {
    hide Lengths;
    var n := |s| - 1;
    var a := s[i := s[i] - 2];
    var b := a[i - 1 := a[i - 1] + 1];
    var c := b[l + 1 := b[l + 1] + 2];
    var d := Shortened(s, i, l);
    assert d == c[l := c[l] - 1] && c[l] == s[l];
    hide Shortened;
    LengthsAdd(s, a, i, -2, n);
    LengthsAdd(a, b, i - 1, 1, n);
    LengthsAdd(b, c, l + 1, 2, n);
    LengthsAdd(c, d, l, -1, n);
  }

  lemma LengthsAdd(s: seq<nat>, r: seq<nat>, c: nat, x: int, n: nat)
    requires 1 <= c <= n < |s| && s[c] + x >= 0 && r == s[c := s[c] + x]
    ensures Lengths(r, n) == Lengths(s, n) + c * x
  {
    LengthsSet(s, c, s[c] + x, n);
  }

  // ---------- the symbols ----------

  lemma {:induction false} TotalSame(s: seq<nat>, t: seq<nat>, l: nat)
    requires l < |s| && l < |t| && forall k :: 1 <= k <= l ==> s[k] == t[k]
    ensures Total(s, l) == Total(t, l)
  {
    if l != 0 {
      TotalSame(s, t, l - 1);
    }
  }

  lemma {:induction false} TotalAbove(s: seq<nat>, l: nat, m: nat)
    requires l <= m < |s| && forall k :: l < k <= m ==> s[k] == 0
    ensures Total(s, m) == Total(s, l)
  {
    if l < m {
      TotalAbove(s, l, m - 1);
    }
  }

  /** The code that is dropped for the pseudo-symbol is not a short one. */
  lemma DroppedIsLong(c: seq<nat>, g: nat)
    requires Full(c, MAX_CLEN) && Total(c, MAX_CLEN) <= 255 && !AtMost16(c) && 1 <= g <= 16
    requires Full(Limited(c, MAX_CLEN), 16) && forall k :: 0 <= k < g ==> Limited(c, MAX_CLEN)[k] == c[k]
    ensures LastUsed(Limited(c, MAX_CLEN), 16) >= g
  {
    hide Kraft, Limited;
    var t := Limited(c, MAX_CLEN);
    LimitedIsFull(c, MAX_CLEN);
    var k := LastUsed(t, 16);
    if k < g {
      TotalAbove(t, g - 1, 16);
      TotalSame(t, c, g - 1);
      var n :| 16 < n < |c| && c[n] > 0;
      TotalMono(c, g - 1, n - 1);
      TotalMono(c, n, MAX_CLEN);
    }
  }

  /** The table has as many codes of at most l bits, for l below every length given up, as the optimal code. */
  lemma ShortTableCounts(w: seq<nat>, cs: seq<nat>, t: HuffTable, path: seq<seq<nat>>, given: seq<nat>, g: nat, l: nat)
    requires TableFor(w, cs, t) && !AtMost16(Counts(cs, 257)) && 1 <= l < g <= 16
    requires Adjusted(path, given) && path[0] == Counts(cs, 257)
    requires Full(Counts(cs, 257), MAX_CLEN) && Total(Counts(cs, 257), MAX_CLEN) <= 255
    requires path[|given|] == Limited(Counts(cs, 257), MAX_CLEN)
    requires forall m :: 0 <= m < |given| ==> given[m] >= g
    ensures Total(t.bits, l) == Total(Counts(cs, 257), l)
  {
    hide Kraft, Total, Adjusted, Limited, Counts;
    var c := Counts(cs, 257);
    var s := Limited(c, MAX_CLEN);
    LimitedIsFull(c, MAX_CLEN);
    ShortCountsStay(path, given, g, |given|);
    DroppedIsLong(c, g);
    KraftPrefix(Dropped(s), l, 17, 16);
    TotalSame(Dropped(s), c, l);
  }

  lemma {:induction false} UpToPrefix(cs: seq<nat>, l: nat, m: nat)
    requires |cs| == 257 && l <= m
    ensures UpTo(cs, l) <= UpTo(cs, m)
  {
    if l < m {
      UpToPrefix(cs, l, m - 1);
    }
  }

  /** The adjustments of the procedure for the given optimal lengths, none of which gives up a code shorter than g. */
  ghost predicate GivesUpFrom(cs: seq<nat>, g: nat, path: seq<seq<nat>>, given: seq<nat>)
    requires |cs| == 257
  {
    && Full(Counts(cs, 257), MAX_CLEN) && Total(Counts(cs, 257), MAX_CLEN) <= 255
    && Adjusted(path, given) && path[0] == Counts(cs, 257) && path[|given|] == Limited(Counts(cs, 257), MAX_CLEN)
    && forall m :: 0 <= m < |given| ==> given[m] >= g
  }

  /** No symbol whose optimal code is shorter than every length given up gets a longer one. */
  lemma ShortCodesStayShort(w: seq<nat>, cs: seq<nat>, t: HuffTable, d: DerivedTable, s: byte, g: nat,
                            path: seq<seq<nat>>, given: seq<nat>)
    requires TableFor(w, cs, t) && w[256] > 0 && !AtMost16(Counts(cs, 257))
    requires GivesUpFrom(cs, g, path, given) && cs[s] < g <= 16 && w[s] > 0
    requires Total(t.bits, 16) <= 256 && Derives(t, d)
    ensures 1 <= d.ehufsi[s] <= cs[s]
  {
    hide Kraft, Total, Adjusted, Limited, Counts, Dropped, Full, Live;
    var l := cs[s];
    UpToIs(cs, l);
    UpToPrefix(cs, l, MAX_CLEN);
    var p :| 0 <= p < |UpTo(cs, l)| && UpTo(cs, l)[p] == s;
    UpToCount(cs, l);
    ShortTableCounts(w, cs, t, path, given, g, l);
    OneMoreCount(cs, l);
    assert t.huffval[p] == s;
    RankedSize(t, d, p, l);
  }

  lemma OneMoreCount(cs: seq<nat>, l: nat)
    requires |cs| == 257 && l <= MAX_CLEN
    ensures Total(Counts(cs, 256), l) <= Total(Counts(cs, 257), l)
  {
    if 1 <= cs[256] <= MAX_CLEN {
      TotalSetCount(Counts(cs, 256), cs[256], Counts(cs, 256)[cs[256]] + 1, l);
    }
  }

  lemma RankedSize(t: HuffTable, d: DerivedTable, p: nat, l: nat)
    requires t.Shaped() && l <= 16 && p < Total(t.bits, l) && p < |t.huffval|
    requires Total(t.bits, 16) <= 256 && Derives(t, d)
    ensures 1 <= d.ehufsi[t.huffval[p]] <= l
  {
    TotalMono(t.bits, l, 16);
    SizeRank(t.bits, 16, p, l);
  }
}
