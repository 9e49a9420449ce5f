/** jpeg_simple_progression of jcparam.c: the script it makes, why that is legal, and that it sends
    every bit of every coefficient. */
module SimpleProgression {
  import opened BlockCoding
  import opened Geometry
  import opened ScanScript

  // ---------- the script as a value ----------

  function OneScan(ci: int, ss: int, se: int, ah: int, al: int): ScanInfo {
    ScanInfo([ci], ss, se, ah, al)
  }

  /** One scan for each of the first n components. */
  function EachScan(n: nat, ss: int, se: int, ah: int, al: int): (r: seq<ScanInfo>)
    ensures |r| == n
  {
    seq(n, ci => OneScan(ci, ss, se, ah, al))
  }

  function FirstComps(n: nat): (r: seq<int>)
    ensures |r| == n
  {
    seq(n, ci => ci)
  }

  /** An interleaved DC scan if it can hold all components, otherwise one for each. */
  function DcScans(n: nat, ah: int, al: int): seq<ScanInfo> {
    if n <= MAX_COMPS_IN_SCAN then [ScanInfo(FirstComps(n), 0, 0, ah, al)] else EachScan(n, 0, 0, ah, al)
  }

  /** The script for color images in YCbCr. */
  function ColorScript(): seq<ScanInfo> {
    ColorStart() + [OneScan(0, 1, 63, 2, 1)] + DcScans(3, 1, 0)
    + [OneScan(2, 1, 63, 1, 0)] + [OneScan(1, 1, 63, 1, 0)] + [OneScan(0, 1, 63, 1, 0)]
  }

  /** Its first scans of every coefficient. */
  function ColorStart(): seq<ScanInfo> {
    DcScans(3, 0, 1) + [OneScan(0, 1, 5, 0, 2)] + [OneScan(2, 1, 63, 0, 1)] + [OneScan(1, 1, 63, 0, 1)]
    + [OneScan(0, 6, 63, 0, 2)]
  }

  /** The script for everything else. */
  function GeneralScript(n: nat): seq<ScanInfo> {
    FirstPasses(n) + DcScans(n, 1, 0) + EachScan(n, 1, 63, 1, 0)
  }

  /** Its scans down to bit 1. */
  function FirstPasses(n: nat): seq<ScanInfo> {
    DcScans(n, 0, 1) + EachScan(n, 1, 5, 0, 2) + EachScan(n, 6, 63, 0, 2) + EachScan(n, 1, 63, 2, 1)
  }

  function Script(n: nat, ycc: bool): seq<ScanInfo> {
    if n == 3 && ycc then ColorScript() else GeneralScript(n)
  }

  /** The number of scans, as it is computed before the space is allocated. */
  function ScanCount(n: nat, ycc: bool): nat {
    if n == 3 && ycc then 10
    else if n > MAX_COMPS_IN_SCAN then 6 * n
    else 2 + 4 * n
  }

  /** The ten scans for color images. */
  lemma ColorScans()
    ensures Script(3, true) == [
              ScanInfo([0, 1, 2], 0, 0, 0, 1),
              ScanInfo([0], 1, 5, 0, 2), ScanInfo([2], 1, 63, 0, 1), ScanInfo([1], 1, 63, 0, 1),
              ScanInfo([0], 6, 63, 0, 2), ScanInfo([0], 1, 63, 2, 1),
              ScanInfo([0, 1, 2], 0, 0, 1, 0),
              ScanInfo([2], 1, 63, 1, 0), ScanInfo([1], 1, 63, 1, 0), ScanInfo([0], 1, 63, 1, 0)]
  {
    assert FirstComps(3) == [0, 1, 2];
  }

  /** The scans for everything else: DC first, then each band of all components, down to bit 1, then bit 0 of all. */
  lemma GeneralScans(n: nat, i: nat)
    requires i < n
    ensures var s, d := Script(n, false), if n <= 4 then 1 else n;
            && |s| == 2 * d + 4 * n
            && s[d + i] == ScanInfo([i], 1, 5, 0, 2) && s[d + n + i] == ScanInfo([i], 6, 63, 0, 2)
            && s[d + 2 * n + i] == ScanInfo([i], 1, 63, 2, 1) && s[2 * d + 3 * n + i] == ScanInfo([i], 1, 63, 1, 0)
            && (n > 4 ==> s[i] == ScanInfo([i], 0, 0, 0, 1) && s[d + 3 * n + i] == ScanInfo([i], 0, 0, 1, 0))
            && (n <= 4 ==> s[0] == ScanInfo(seq(n, c => c), 0, 0, 0, 1)
                           && s[1 + 3 * n] == ScanInfo(seq(n, c => c), 0, 0, 1, 0))
  {
  }

  // ---------- making it ----------

  method FillAScan(space: array<ScanInfo>, at: nat, ci: int, ss: int, se: int, ah: int, al: int) returns (next: nat)
    requires at < space.Length
    modifies space
    ensures next == at + 1 && space[..next] == old(space[..at]) + [OneScan(ci, ss, se, ah, al)]
  {
    space[at] := ScanInfo([ci], ss, se, ah, al);
    next := at + 1;
  }

  method FillScans(space: array<ScanInfo>, at: nat, n: nat, ss: int, se: int, ah: int, al: int) returns (next: nat)
    requires at + n <= space.Length
    modifies space
    ensures next == at + n && space[..next] == old(space[..at]) + EachScan(n, ss, se, ah, al)
  {
    next := at;
    for ci := 0 to n
      invariant next == at + ci && space[..next] == old(space[..at]) + EachScan(ci, ss, se, ah, al)
    {
      space[next] := ScanInfo([ci], ss, se, ah, al);
      assert space[..next + 1] == space[..next] + [OneScan(ci, ss, se, ah, al)];
      next := next + 1;
    }
  }

  method FillDcScans(space: array<ScanInfo>, at: nat, n: nat, ah: int, al: int) returns (next: nat)
    requires at + |DcScans(n, ah, al)| <= space.Length
    modifies space
    ensures next == at + |DcScans(n, ah, al)| && space[..next] == old(space[..at]) + DcScans(n, ah, al)
  {
    if n <= MAX_COMPS_IN_SCAN {
      var comps: seq<int> := [];
      for ci := 0 to n
        invariant comps == FirstComps(ci) && space[..] == old(space[..])
      {
        comps := comps + [ci];
      }
      space[at] := ScanInfo(comps, 0, 0, ah, al);
      next := at + 1;
    } else {
      next := FillScans(space, at, n, 0, 0, ah, al);
    }
  }

  lemma DcCount(n: nat, ah: int, al: int)
    ensures |DcScans(n, ah, al)| == if n <= MAX_COMPS_IN_SCAN then 1 else n
  {
  }

  method FillColorStart(space: array<ScanInfo>) returns (next: nat)
    requires space.Length >= 5
    modifies space
    ensures next == 5 && space[..next] == ColorStart()
  {
    hide DcScans, OneScan;
    DcCount(3, 0, 1);
    next := FillDcScans(space, 0, 3, 0, 1);
    next := FillAScan(space, next, 0, 1, 5, 0, 2);
    next := FillAScan(space, next, 2, 1, 63, 0, 1);
    next := FillAScan(space, next, 1, 1, 63, 0, 1);
    next := FillAScan(space, next, 0, 6, 63, 0, 2);
  }

  method FillColorScript(space: array<ScanInfo>) returns (next: nat)
    requires space.Length >= 10
    modifies space
    ensures next == 10 && space[..next] == ColorScript()
  {
    hide DcScans, OneScan, ColorStart;
    DcCount(3, 1, 0);
    next := FillColorStart(space);
    next := FillAScan(space, next, 0, 1, 63, 2, 1);
    next := FillDcScans(space, next, 3, 1, 0);
    next := FillAScan(space, next, 2, 1, 63, 1, 0);
    next := FillAScan(space, next, 1, 1, 63, 1, 0);
    next := FillAScan(space, next, 0, 1, 63, 1, 0);
  }

  /** Everything but the last bit. */
  method FillFirstPasses(space: array<ScanInfo>, n: nat) returns (next: nat)
    requires space.Length >= |DcScans(n, 0, 1)| + 3 * n
    modifies space
    ensures next == |DcScans(n, 0, 1)| + 3 * n && space[..next] == FirstPasses(n)
  {
    hide DcScans, EachScan;
    next := FillDcScans(space, 0, n, 0, 1);
    next := FillScans(space, next, n, 1, 5, 0, 2);
    next := FillScans(space, next, n, 6, 63, 0, 2);
    next := FillScans(space, next, n, 1, 63, 2, 1);
  }

  method FillGeneralScript(space: array<ScanInfo>, n: nat) returns (next: nat)
    requires space.Length >= ScanCount(n, false)
    modifies space
    ensures next == ScanCount(n, false) && space[..next] == GeneralScript(n)
  {
    hide DcScans, EachScan, FirstPasses;
    DcCount(n, 0, 1);
    DcCount(n, 1, 0);
    next := FillFirstPasses(space, n);
    next := FillDcScans(space, next, n, 1, 0);
    next := FillScans(space, next, n, 1, 63, 1, 0);
  }

  /** jpeg_simple_progression. The precomputed count is exact: the script fills that many entries of the space,
      no more and no fewer. Space that is already there is used again if it is big enough. */
  method MakeScript(n: nat, ycc: bool, scriptSpace: array?<ScanInfo>) returns (space: array<ScanInfo>, nscans: nat)
    modifies scriptSpace
    ensures nscans == ScanCount(n, ycc) == |Script(n, ycc)| <= space.Length && space[..nscans] == Script(n, ycc)
    ensures scriptSpace != null && scriptSpace.Length >= nscans ==> space == scriptSpace
    ensures scriptSpace == null || scriptSpace.Length < nscans ==> fresh(space)
  {
    if n == 3 && ycc {
      nscans := 10;
    } else if n > MAX_COMPS_IN_SCAN {
      nscans := 6 * n;
    } else {
      nscans := 2 + 4 * n;
    }
    if scriptSpace == null || scriptSpace.Length < nscans {
      space := new ScanInfo[if nscans > 10 then nscans else 10](_ => ScanInfo([], 0, 0, 0, 0));
    } else {
      space := scriptSpace;
    }
    if n == 3 && ycc {
      var end := FillColorScript(space);
    } else {
      var end := FillGeneralScript(space, n);
    }
  }

  // ---------- why it is legal ----------

  /** Bit positions reached in the script for component c: of its DC coefficient, of AC coefficients 1 to 5, and
      of the others. */
  ghost predicate At(script: seq<ScanInfo>, c: int, dc: int, lo: int, hi: int) {
    forall k :: 0 <= k < DCTSIZE2 ==> LastAl(script, c, k) == if k == 0 then dc else if k <= 5 then lo else hi
  }

  lemma LastAlStep(a: seq<ScanInfo>, s: ScanInfo, c: int, k: int)
    ensures LastAl(a + [s], c, k) == if Touches(s, c, k) then s.al else LastAl(a, c, k)
  {
    var all := a + [s];
    assert all[..|all| - 1] == a;
  }

  /** A legal single-component scan: the component's coefficients ss to se all stand at `from`. */
  lemma AddScan(n: nat, a: seq<ScanInfo>, c: nat, ss: int, se: int, ah: int, al: int)
    requires InTurn(n, a) && c < n && LegalProgression(OneScan(c, ss, se, ah, al))
    requires ss > 0 ==> LastAl(a, c, 0) >= 0
    requires forall k :: ss <= k <= se ==> Follows(LastAl(a, c, k), ah, al)
    ensures InTurn(n, a + [OneScan(c, ss, se, ah, al)])
    ensures forall d: int, k: int :: LastAl(a + [OneScan(c, ss, se, ah, al)], d, k)
                                     == if d == c && ss <= k <= se then al else LastAl(a, d, k)
  {
    var s := OneScan(c, ss, se, ah, al);
    OneMoreScan(n, a, s);
    forall d: int, k: int
      ensures Refines(a, s, d, k)
      ensures LastAl(a + [s], d, k) == if d == c && ss <= k <= se then al else LastAl(a, d, k)
    {
      LastAlStep(a, s, d, k);
    }
  }

  /** Where every coefficient stands after a scan for each of the first m components. */
  lemma {:induction false} AddEach(n: nat, a: seq<ScanInfo>, m: nat, ss: int, se: int, ah: int, al: int)
    requires InTurn(n, a) && m <= n && LegalProgression(OneScan(0, ss, se, ah, al))
    requires ss > 0 ==> forall c :: 0 <= c < n ==> LastAl(a, c, 0) >= 0
    requires forall c, k :: 0 <= c < n && ss <= k <= se ==> Follows(LastAl(a, c, k), ah, al)
    ensures InTurn(n, a + EachScan(m, ss, se, ah, al))
    ensures forall d: int, k: int :: LastAl(a + EachScan(m, ss, se, ah, al), d, k)
                                     == if 0 <= d < m && ss <= k <= se then al else LastAl(a, d, k)
  {
    hide InTurn, LastAl, EachScan, Follows;
    EachScanStep(a, m, ss, se, ah, al);
    if m != 0 {
      var b := a + EachScan(m - 1, ss, se, ah, al);
      AddEach(n, a, m - 1, ss, se, ah, al);
      AddScan(n, b, m - 1, ss, se, ah, al);
    }
  }

  lemma EachScanStep(a: seq<ScanInfo>, m: nat, ss: int, se: int, ah: int, al: int)
    ensures if m == 0 then a + EachScan(m, ss, se, ah, al) == a
            else a + EachScan(m, ss, se, ah, al)
                 == (a + EachScan(m - 1, ss, se, ah, al)) + [OneScan(m - 1, ss, se, ah, al)]
  {
  }

  lemma AddDc(n: nat, a: seq<ScanInfo>, ah: int, al: int)
    requires InTurn(n, a) && 1 <= n && 0 <= ah <= MAX_AH_AL && 0 <= al <= MAX_AH_AL
    requires forall c :: 0 <= c < n ==> Follows(LastAl(a, c, 0), ah, al)
    ensures InTurn(n, a + DcScans(n, ah, al))
    ensures forall d: int, k: int :: LastAl(a + DcScans(n, ah, al), d, k)
                                     == if 0 <= d < n && k == 0 then al else LastAl(a, d, k)
  {
    if n <= MAX_COMPS_IN_SCAN {
      var s := ScanInfo(FirstComps(n), 0, 0, ah, al);
      assert LegalComps(n, s.comps) && LegalProgression(s);
      hide LastAl, InTurn, LegalComps, LegalProgression;
      forall d: int, k: int
        ensures Refines(a, s, d, k)
        ensures LastAl(a + [s], d, k) == if 0 <= d < n && k == 0 then al else LastAl(a, d, k)
      {
        DcTouches(n, ah, al, d, k);
        LastAlStep(a, s, d, k);
      }
      OneMoreScan(n, a, s);
    } else {
      AddEach(n, a, n, 0, 0, ah, al);
    }
  }

  lemma DcTouches(n: nat, ah: int, al: int, c: int, k: int)
    ensures Touches(ScanInfo(FirstComps(n), 0, 0, ah, al), c, k) <==> 0 <= c < n && k == 0
  {
    assert 0 <= c < n ==> FirstComps(n)[c] == c;
  }

  /** All components stand at the same bit positions. */
  ghost predicate AllAt(script: seq<ScanInfo>, n: nat, dc: int, lo: int, hi: int) {
    forall c :: 0 <= c < n ==> At(script, c, dc, lo, hi)
  }

  lemma DcPhase(n: nat, a: seq<ScanInfo>, dc: int, lo: int, hi: int, ah: int, al: int)
    requires InTurn(n, a) && 1 <= n && AllAt(a, n, dc, lo, hi) && Follows(dc, ah, al)
    requires 0 <= ah <= MAX_AH_AL && 0 <= al <= MAX_AH_AL
    ensures InTurn(n, a + DcScans(n, ah, al)) && AllAt(a + DcScans(n, ah, al), n, al, lo, hi)
  {
    forall c | 0 <= c < n ensures Follows(LastAl(a, c, 0), ah, al) {
      assert At(a, c, dc, lo, hi);
    }
    AddDc(n, a, ah, al);
    forall c | 0 <= c < n ensures At(a + DcScans(n, ah, al), c, al, lo, hi) {
      assert At(a, c, dc, lo, hi);
    }
  }

  /** AC scans of coefficients 1 to 5, of 6 to 63, or of all. */
  lemma AcPhase(n: nat, a: seq<ScanInfo>, dc: int, lo: int, hi: int, ss: int, se: int, ah: int, al: int)
    requires InTurn(n, a) && AllAt(a, n, dc, lo, hi) && dc >= 0 && 0 <= ah <= MAX_AH_AL && 0 <= al <= MAX_AH_AL
    requires (ss == 1 && se == 5) || (ss == 6 && se == 63) || (ss == 1 && se == 63)
    requires (ss == 1 ==> Follows(lo, ah, al)) && (se == 63 ==> Follows(hi, ah, al))
    ensures InTurn(n, a + EachScan(n, ss, se, ah, al))
    ensures AllAt(a + EachScan(n, ss, se, ah, al), n, dc, if ss == 1 then al else lo, if se == 63 then al else hi)
  {
    forall c | 0 <= c < n ensures LastAl(a, c, 0) >= 0 {
      assert At(a, c, dc, lo, hi);
    }
    forall c, k | 0 <= c < n && ss <= k <= se ensures Follows(LastAl(a, c, k), ah, al) {
      assert At(a, c, dc, lo, hi);
    }
    AddEach(n, a, n, ss, se, ah, al);
    var lo1, hi1 := if ss == 1 then al else lo, if se == 63 then al else hi;
    forall c | 0 <= c < n ensures At(a + EachScan(n, ss, se, ah, al), c, dc, lo1, hi1) {
      assert At(a, c, dc, lo, hi);
    }
  }

  lemma GeneralIsLegal(n: nat)
    requires 1 <= n
    ensures InTurn(n, GeneralScript(n)) && AllAt(GeneralScript(n), n, 0, 0, 0)
  {
    hide InTurn, AllAt, EachScan, DcScans;
    var s0: seq<ScanInfo> := [];
    NothingSent(n);
    DcPhase(n, s0, -1, -1, -1, 0, 1);
    var s1 := s0 + DcScans(n, 0, 1);
    assert s1 == DcScans(n, 0, 1);
    AcPhase(n, s1, 1, -1, -1, 1, 5, 0, 2);
    var s2 := s1 + EachScan(n, 1, 5, 0, 2);
    AcPhase(n, s2, 1, 2, -1, 6, 63, 0, 2);
    var s3 := s2 + EachScan(n, 6, 63, 0, 2);
    AcPhase(n, s3, 1, 2, 2, 1, 63, 2, 1);
    var s4 := s3 + EachScan(n, 1, 63, 2, 1);
    DcPhase(n, s4, 1, 1, 1, 1, 0);
    var s5 := s4 + DcScans(n, 1, 0);
    AcPhase(n, s5, 0, 1, 1, 1, 63, 1, 0);
  }

  lemma NothingSent(n: nat)
    ensures InTurn(n, []) && AllAt([], n, -1, -1, -1)
  {
  }

  /** A scan of one component of a color image; the others stay where they are. */
  lemma ColorAc(a: seq<ScanInfo>, c: nat, d: nat, e: nat, dc: int, lo: int, hi: int, ss: int, se: int, ah: int, al: int)
    requires InTurn(3, a) && c < 3 && At(a, c, dc, lo, hi) && dc >= 0 && 0 <= ah <= MAX_AH_AL && 0 <= al <= MAX_AH_AL
    requires (ss == 1 && se == 5) || (ss == 6 && se == 63) || (ss == 1 && se == 63)
    requires (ss == 1 ==> Follows(lo, ah, al)) && (se == 63 ==> Follows(hi, ah, al)) && d != c && e != c
    ensures var b := a + [OneScan(c, ss, se, ah, al)];
            && InTurn(3, b) && At(b, c, dc, if ss == 1 then al else lo, if se == 63 then al else hi)
            && (forall x, y, z :: At(a, d, x, y, z) ==> At(b, d, x, y, z))
            && (forall x, y, z :: At(a, e, x, y, z) ==> At(b, e, x, y, z))
  {
    AddScan(3, a, c, ss, se, ah, al);
  }

  lemma ColorDc(a: seq<ScanInfo>, dc: int, y: int, z: int, l0: int, l1: int, l2: int, ah: int, al: int)
    requires InTurn(3, a) && At(a, 0, dc, l0, y) && At(a, 1, dc, l1, z) && At(a, 2, dc, l2, z) && Follows(dc, ah, al)
    requires 0 <= ah <= MAX_AH_AL && 0 <= al <= MAX_AH_AL
    ensures var b := a + DcScans(3, ah, al);
            InTurn(3, b) && At(b, 0, al, l0, y) && At(b, 1, al, l1, z) && At(b, 2, al, l2, z)
  {
    forall c | 0 <= c < 3 ensures Follows(LastAl(a, c, 0), ah, al) {
      assert c == 0 || c == 1 || c == 2;
    }
    AddDc(3, a, ah, al);
  }

  lemma ColorIsLegal()
    ensures InTurn(3, ColorScript()) && AllAt(ColorScript(), 3, 0, 0, 0)
  {
    var s0: seq<ScanInfo> := [];
    NothingSent(3);
    assert At(s0, 0, -1, -1, -1) && At(s0, 1, -1, -1, -1) && At(s0, 2, -1, -1, -1);
    assert AllAt(ColorScript(), 3, 0, 0, 0) <==>
             At(ColorScript(), 0, 0, 0, 0) && At(ColorScript(), 1, 0, 0, 0) && At(ColorScript(), 2, 0, 0, 0);
    hide InTurn, At, DcScans, OneScan, AllAt;
    ColorDc(s0, -1, -1, -1, -1, -1, -1, 0, 1);
    var s1 := s0 + DcScans(3, 0, 1);
    assert s1 == DcScans(3, 0, 1);
    ColorAc(s1, 0, 1, 2, 1, -1, -1, 1, 5, 0, 2);
    var s2 := s1 + [OneScan(0, 1, 5, 0, 2)];
    ColorAc(s2, 2, 0, 1, 1, -1, -1, 1, 63, 0, 1);
    var s3 := s2 + [OneScan(2, 1, 63, 0, 1)];
    ColorAc(s3, 1, 0, 2, 1, -1, -1, 1, 63, 0, 1);
    var s4 := s3 + [OneScan(1, 1, 63, 0, 1)];
    ColorAc(s4, 0, 1, 2, 1, 2, -1, 6, 63, 0, 2);
    var s5 := s4 + [OneScan(0, 6, 63, 0, 2)];
    ColorAc(s5, 0, 1, 2, 1, 2, 2, 1, 63, 2, 1);
    var s6 := s5 + [OneScan(0, 1, 63, 2, 1)];
    ColorDc(s6, 1, 1, 1, 1, 1, 1, 1, 0);
    var s7 := s6 + DcScans(3, 1, 0);
    ColorAc(s7, 2, 0, 1, 0, 1, 1, 1, 63, 1, 0);
    var s8 := s7 + [OneScan(2, 1, 63, 1, 0)];
    ColorAc(s8, 1, 0, 2, 0, 1, 1, 1, 63, 1, 0);
    var s9 := s8 + [OneScan(1, 1, 63, 1, 0)];
    ColorAc(s9, 0, 1, 2, 0, 1, 1, 1, 63, 1, 0);
  }

  /** For every number of components the script is a legal progressive one, and in the end every coefficient of
      every component has been sent down to bit 0. */
  lemma ScriptIsComplete(n: nat, ycc: bool)
    requires 1 <= n <= MAX_COMPONENTS
    ensures Progressive(n, Script(n, ycc))
    ensures forall c, k :: 0 <= c < n && 0 <= k < DCTSIZE2 ==> LastAl(Script(n, ycc), c, k) == 0
  {
    hide ColorScript, GeneralScript, InTurn, Progressive, LastAl;
    var s := Script(n, ycc);
    if n == 3 && ycc {
      ColorIsLegal();
    } else {
      GeneralIsLegal(n);
    }
    assert AllAt(s, n, 0, 0, 0);
    forall c, k | 0 <= c < n && 0 <= k < DCTSIZE2 ensures LastAl(s, c, k) == 0 {
      assert At(s, c, 0, 0, 0);
    }
    ProgressiveIsInTurn(n, s);
  }
}
