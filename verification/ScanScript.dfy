/** Scan scripts: what validate_script of jcmaster.c accepts, and the script that
    jpeg_simple_progression of jcparam.c makes. */
module ScanScript {
  import opened CanonicalCode
  import opened BlockCoding
  import opened Geometry

  const MAX_AH_AL: int := 10

  /** One entry of a script; comps holds component_index[0..comps_in_scan]. */
  datatype ScanInfo = ScanInfo(comps: seq<int>, ss: int, se: int, ah: int, al: int)

  // ---------- what a script must be ----------

  /** Component indexes in range and in increasing order. */
  predicate LegalComps(n: nat, comps: seq<int>) {
    && 1 <= |comps| <= MAX_COMPS_IN_SCAN
    && (forall i :: 0 <= i < |comps| ==> 0 <= comps[i] < n)
    && (forall i :: 0 < i < |comps| ==> comps[i - 1] < comps[i])
  }

  predicate LegalProgression(s: ScanInfo) {
    && 0 <= s.ss <= s.se < DCTSIZE2 && 0 <= s.ah <= MAX_AH_AL && 0 <= s.al <= MAX_AH_AL
    && (if s.ss == 0 then s.se == 0 else |s.comps| == 1)
  }

  /** Does the scan send bits of coefficient k of component c? */
  predicate Touches(s: ScanInfo, c: int, k: int) {
    c in s.comps && s.ss <= k <= s.se
  }

  ghost predicate Consecutive(script: seq<ScanInfo>, i: nat, j: nat, c: int, k: int)
    requires i <= j < |script|
  {
    i < j && Touches(script[i], c, k) && Touches(script[j], c, k)
    && forall m :: i < m < j ==> !Touches(script[m], c, k)
  }

  ghost predicate FirstFor(script: seq<ScanInfo>, j: nat, c: int, k: int)
    requires j < |script|
  {
    Touches(script[j], c, k) && forall m :: 0 <= m < j ==> !Touches(script[m], c, k)
  }

  /** Each coefficient is first sent down to some bit, and then refined one bit at a time. */
  ghost predicate BitsInOrder(script: seq<ScanInfo>) {
    && (forall j: nat, c: int, k: int :: j < |script| && FirstFor(script, j, c, k) ==> script[j].ah == 0)
    && (forall i: nat, j: nat, c: int, k: int :: i <= j < |script| && Consecutive(script, i, j, c, k) ==>
          script[j].ah == script[i].al && script[j].al == script[j].ah - 1)
  }

  /** The DC coefficient of component c is sent by one of the first j scans. */
  ghost predicate DcSent(script: seq<ScanInfo>, j: nat, c: int)
    requires j <= |script|
  {
    exists i :: 0 <= i < j && Touches(script[i], c, 0)
  }

  /** The legal progressive scripts for n components. */
  ghost predicate Progressive(n: nat, script: seq<ScanInfo>) {
    && (forall j :: 0 <= j < |script| ==> LegalComps(n, script[j].comps) && LegalProgression(script[j]))
    && BitsInOrder(script)
    && (forall j: nat :: j < |script| && script[j].ss != 0 ==> DcSent(script, j, script[j].comps[0]))
    && (forall c :: 0 <= c < n ==> DcSent(script, |script|, c))
  }

  predicate SendsComponent(s: ScanInfo, c: int) {
    c in s.comps
  }

  /** Component c is sent by one of the first j scans. */
  ghost predicate ComponentSent(script: seq<ScanInfo>, j: nat, c: int)
    requires j <= |script|
  {
    exists i :: 0 <= i < j && SendsComponent(script[i], c)
  }

  /** The legal sequential scripts: every component is sent whole, and once. */
  ghost predicate Sequential(n: nat, script: seq<ScanInfo>) {
    && (forall j :: 0 <= j < |script| ==>
          LegalComps(n, script[j].comps) && script[j] == ScanInfo(script[j].comps, 0, DCTSIZE2 - 1, 0, 0))
    && (forall i, j, c :: 0 <= i < j < |script| && SendsComponent(script[i], c) ==> !SendsComponent(script[j], c))
    && (forall c :: 0 <= c < n ==> ComponentSent(script, |script|, c))
  }

  // ---------- the same, scan by scan ----------

  /** last_bitpos: the last Al of the coefficient, or -1. */
  function LastAl(script: seq<ScanInfo>, c: int, k: int): int {
    if script == [] then -1
    else if Touches(script[|script| - 1], c, k) then script[|script| - 1].al
    else LastAl(script[..|script| - 1], c, k)
  }

  /** May a scan with this Ah and Al follow a scan that ended at bit position last (-1: none)? */
  predicate Follows(last: int, ah: int, al: int) {
    if last < 0 then ah == 0 else ah == last && al == ah - 1
  }

  ghost predicate Refines(before: seq<ScanInfo>, s: ScanInfo, c: int, k: int) {
    Touches(s, c, k) ==> Follows(LastAl(before, c, k), s.ah, s.al)
  }

  /** May this scan come next in a progressive script? */
  ghost predicate MayFollow(n: nat, before: seq<ScanInfo>, s: ScanInfo) {
    && LegalComps(n, s.comps) && LegalProgression(s)
    && (s.ss != 0 ==> LastAl(before, s.comps[0], 0) >= 0)
    && forall c: int, k: int :: Refines(before, s, c, k)
  }

  ghost predicate InTurn(n: nat, script: seq<ScanInfo>) {
    forall j :: 0 <= j < |script| ==> MayFollow(n, script[..j], script[j])
  }

  lemma OneMoreScan(n: nat, script: seq<ScanInfo>, s: ScanInfo)
    ensures InTurn(n, script + [s]) <==> InTurn(n, script) && MayFollow(n, script, s)
  {
    var all := script + [s];
    assert all[..|script|] == script && all[|script|] == s;
    assert forall j :: 0 <= j < |script| ==> all[..j] == script[..j] && all[j] == script[j];
  }

  /** The last bit position is that of the last scan that touches the coefficient. */
  lemma {:induction false} LastAlIs(script: seq<ScanInfo>, c: int, k: int) returns (i: int)
    requires forall j :: 0 <= j < |script| ==> script[j].al >= 0
    ensures LastAl(script, c, k) < 0 <==> i < 0
    ensures -1 <= i < |script| && forall m :: i < m < |script| ==> !Touches(script[m], c, k)
    ensures i >= 0 ==> Touches(script[i], c, k) && LastAl(script, c, k) == script[i].al
  {
    if script == [] {
      i := -1;
    } else if Touches(script[|script| - 1], c, k) {
      i := |script| - 1;
    } else {
      var init := script[..|script| - 1];
      i := LastAlIs(init, c, k);
    }
  }

  ghost predicate AllDcSeen(n: nat, script: seq<ScanInfo>) {
    forall c :: 0 <= c < n ==> LastAl(script, c, 0) >= 0
  }

  lemma DcSentIsSeen(script: seq<ScanInfo>, j: nat, c: int)
    requires j <= |script| && forall m :: 0 <= m < |script| ==> script[m].al >= 0
    ensures DcSent(script, j, c) <==> LastAl(script[..j], c, 0) >= 0
  {
    var i := LastAlIs(script[..j], c, 0);
  }

  /** Scan j refines a coefficient correctly exactly when it follows its last scan correctly. */
  lemma RefinesIsInOrder(script: seq<ScanInfo>, j: nat, c: int, k: int)
    requires j < |script| && forall m :: 0 <= m < |script| ==> script[m].al >= 0
    ensures Refines(script[..j], script[j], c, k) <==>
              && (FirstFor(script, j, c, k) ==> script[j].ah == 0)
              && forall i: nat :: i <= j && Consecutive(script, i, j, c, k) ==>
                   script[j].ah == script[i].al && script[j].al == script[j].ah - 1
  {
    var before := script[..j];
    var i := LastAlIs(before, c, k);
    assert forall m :: 0 <= m < j ==> before[m] == script[m];
    if Touches(script[j], c, k) {
      if i < 0 {
        assert FirstFor(script, j, c, k);
      } else {
        assert Consecutive(script, i, j, c, k);
        forall m: nat | m <= j && Consecutive(script, m, j, c, k) ensures m == i {
        }
      }
    }
  }

  ghost predicate AllRefine(script: seq<ScanInfo>) {
    forall j: nat, c: int, k: int :: j < |script| ==> Refines(script[..j], script[j], c, k)
  }

  lemma BitsInOrderIs(script: seq<ScanInfo>)
    requires forall m :: 0 <= m < |script| ==> script[m].al >= 0
    ensures BitsInOrder(script) <==> AllRefine(script)
  {
    hide Refines;
    if BitsInOrder(script) {
      forall j: nat, c: int, k: int | j < |script| ensures Refines(script[..j], script[j], c, k) {
        RefinesIsInOrder(script, j, c, k);
      }
    }
    if AllRefine(script) {
      forall j: nat, c: int, k: int | j < |script| && FirstFor(script, j, c, k) ensures script[j].ah == 0 {
        RefinesIsInOrder(script, j, c, k);
        assert Refines(script[..j], script[j], c, k);
      }
      forall i: nat, j: nat, c: int, k: int | i <= j < |script| && Consecutive(script, i, j, c, k)
        ensures script[j].ah == script[i].al && script[j].al == script[j].ah - 1
      {
        RefinesIsInOrder(script, j, c, k);
        assert Refines(script[..j], script[j], c, k);
      }
    }
  }

  /** The two ways to say what a legal progressive script is. */
  lemma ProgressiveIsInTurn(n: nat, script: seq<ScanInfo>)
    ensures Progressive(n, script) <==> InTurn(n, script) && AllDcSeen(n, script)
  {
    if (forall j :: 0 <= j < |script| ==> LegalComps(n, script[j].comps) && LegalProgression(script[j])) {
      hide LegalComps, LegalProgression, Refines, BitsInOrder;
      assert forall m :: 0 <= m < |script| ==> script[m].al >= 0 by { LegalAl(script); }
      BitsInOrderIs(script);
      assert script[..|script|] == script;
      forall j: nat, c: int | j <= |script|
        ensures DcSent(script, j, c) <==> LastAl(script[..j], c, 0) >= 0
      {
        DcSentIsSeen(script, j, c);
      }
    } else {
      var j :| 0 <= j < |script| && !(LegalComps(n, script[j].comps) && LegalProgression(script[j]));
      assert !MayFollow(n, script[..j], script[j]);
    }
  }

  lemma LegalAl(script: seq<ScanInfo>)
    requires forall j :: 0 <= j < |script| ==> LegalProgression(script[j])
    ensures forall m :: 0 <= m < |script| ==> script[m].al >= 0
  {
  }

  /** How many of the first j scans touch the coefficient? */
  function Visits(script: seq<ScanInfo>, j: nat, c: int, k: int): nat
    requires j <= |script|
  {
    if j == 0 then 0 else Visits(script, j - 1, c, k) + if Touches(script[j - 1], c, k) then 1 else 0
  }

  lemma {:induction false} NoVisits(script: seq<ScanInfo>, i: nat, j: nat, c: int, k: int)
    requires i <= j <= |script| && forall m :: i <= m < j ==> !Touches(script[m], c, k)
    ensures Visits(script, i, c, k) == Visits(script, j, c, k)
  {
    if i < j {
      NoVisits(script, i, j - 1, c, k);
    }
  }

  /** The scan of the coefficient before scan j, which it refines. */
  lemma PreviousScan(n: nat, script: seq<ScanInfo>, i: nat, j: nat, c: int, k: int) returns (m: nat)
    requires Progressive(n, script) && i < j < |script| && Touches(script[i], c, k) && Touches(script[j], c, k)
    ensures i <= m < j && Touches(script[m], c, k) && forall l :: m < l < j ==> !Touches(script[l], c, k)
    ensures script[j].ah == script[m].al && script[j].al == script[j].ah - 1
  {
    LegalAl(script);
    var before := script[..j];
    m := LastAlIs(before, c, k);
    assert before[i] == script[i];
    assert forall l :: m < l < j ==> before[l] == script[l];
    assert Consecutive(script, m, j, c, k);
  }

  /** The scans of a coefficient form a chain (0, a), (a, a - 1), (a - 1, a - 2), ...: its t-th scan after the
      first, scan i, ends t bits further down. */
  lemma {:induction false} RefinementChain(n: nat, script: seq<ScanInfo>, i: nat, j: nat, c: int, k: int)
    requires Progressive(n, script) && i <= j < |script| && FirstFor(script, i, c, k) && Touches(script[j], c, k)
    ensures script[j].al == script[i].al - Visits(script, j, c, k)
    ensures script[j].ah == if j == i then 0 else script[j].al + 1
  {
    NoVisits(script, 0, i, c, k);
    if i < j {
      var m := PreviousScan(n, script, i, j, c, k);
      RefinementChain(n, script, i, m, c, k);
      NoVisits(script, m + 1, j, c, k);
    }
  }

  /** Scan j is the one that sends bit plane b of the coefficient. */
  ghost predicate SendsPlane(script: seq<ScanInfo>, j: nat, c: int, k: int, b: int)
    requires j < |script|
  {
    Touches(script[j], c, k) && script[j].al == b
  }

  /** The last scan of a coefficient. */
  lemma LastScan(n: nat, script: seq<ScanInfo>, i: nat, c: int, k: int) returns (last: nat)
    requires Progressive(n, script) && i < |script| && FirstFor(script, i, c, k)
    ensures i <= last < |script| && Touches(script[i], c, k) && Touches(script[last], c, k)
    ensures script[last].al == LastAl(script, c, k)
    ensures forall j: nat :: j < |script| && Touches(script[j], c, k) ==> i <= j <= last
  {
    LegalAl(script);
    last := LastAlIs(script, c, k);
  }

  /** Each bit plane below that of the first scan and not below that of the last is sent by exactly one scan, and
      no other bit plane is sent. */
  lemma PlanesSentOnce(n: nat, script: seq<ScanInfo>, i: nat, c: int, k: int, b: int)
    requires Progressive(n, script) && i < |script| && FirstFor(script, i, c, k)
    ensures LastAl(script, c, k) <= b <= script[i].al <==>
              exists j: nat :: j < |script| && SendsPlane(script, j, c, k, b)
    ensures forall j: nat, l: nat | j < |script| && l < |script| ::
              SendsPlane(script, j, c, k, b) && SendsPlane(script, l, c, k, b) ==> j == l
  {
    hide Progressive, LastAl, FirstFor, Visits;
    var last := LastScan(n, script, i, c, k);
    forall j: nat, l: nat | j < l < |script| && Touches(script[j], c, k) && Touches(script[l], c, k)
      ensures script[l].al < script[j].al
    {
      BitsSentOnce(n, script, i, j, l, c, k);
    }
    if LastAl(script, c, k) <= b <= script[i].al {
      PlaneIsSent(n, script, i, last, c, k, b);
    }
  }

  lemma {:induction false} VisitsMono(script: seq<ScanInfo>, j: nat, l: nat, c: int, k: int)
    requires j <= l <= |script|
    ensures Visits(script, j, c, k) <= Visits(script, l, c, k)
  {
    if j < l {
      VisitsMono(script, j, l - 1, c, k);
    }
  }

  /** Each scan of a coefficient goes strictly further down. */
  lemma BitsSentOnce(n: nat, script: seq<ScanInfo>, i: nat, j: nat, l: nat, c: int, k: int)
    requires Progressive(n, script) && j < l < |script| && i < |script| && FirstFor(script, i, c, k)
    requires Touches(script[j], c, k) && Touches(script[l], c, k)
    ensures script[l].al < script[j].al
  {
    RefinementChain(n, script, i, j, c, k);
    RefinementChain(n, script, i, l, c, k);
    VisitsMono(script, j + 1, l, c, k);
  }

  /** Going down one bit at a time, the chain passes every bit plane. */
  lemma {:induction false} PlaneIsSent(n: nat, script: seq<ScanInfo>, i: nat, j: nat, c: int, k: int, b: int)
    requires Progressive(n, script) && i <= j < |script| && FirstFor(script, i, c, k) && Touches(script[j], c, k)
    requires script[j].al <= b <= script[i].al
    ensures exists m: nat :: m < |script| && SendsPlane(script, m, c, k, b)
  {
    if script[j].al == b {
      assert SendsPlane(script, j, c, k, b);
    } else {
      var m := PreviousScan(n, script, i, j, c, k);
      PlaneIsSent(n, script, i, m, c, k, b);
    }
  }

  /** And no AC coefficient comes before the DC coefficient of its component. */
  lemma DcBeforeAc(n: nat, script: seq<ScanInfo>, j: nat, c: int, k: int)
    requires Progressive(n, script) && j < |script| && Touches(script[j], c, k) && k > 0
    ensures exists i: nat :: i < j && Touches(script[i], c, 0)
  {
    assert LegalProgression(script[j]);
    assert script[j].comps[0] == c;
    assert DcSent(script, j, c);
  }

  // ---------- validate_script ----------

  /** The component index checks. */
  method CheckComps(n: nat, comps: seq<int>) returns (ok: bool)
    ensures ok <==> LegalComps(n, comps)
  {
    if |comps| == 0 || |comps| > MAX_COMPS_IN_SCAN {
      return false;
    }
    for ci := 0 to |comps|
      invariant forall i :: 0 <= i < ci ==> 0 <= comps[i] < n
      invariant forall i :: 0 < i < ci ==> comps[i - 1] < comps[i]
    {
      if comps[ci] < 0 || comps[ci] >= n || (ci > 0 && comps[ci] <= comps[ci - 1]) {
        return false;
      }
    }
    ok := true;
  }

  /** The array last_bitpos holds the last bit position of every coefficient. */
  ghost predicate Tracks(last: array2<int>, n: nat, script: seq<ScanInfo>)
    reads last
  {
    && last.Length0 == MAX_COMPONENTS && last.Length1 == DCTSIZE2 && n <= MAX_COMPONENTS
    && forall c, k :: 0 <= c < n && 0 <= k < DCTSIZE2 ==> last[c, k] == LastAl(script, c, k)
  }

  /** The coefficients of one component of a scan. */
  method CheckCoefs(last: array2<int>, c: nat, s: ScanInfo) returns (ok: bool)
    requires last.Length0 == MAX_COMPONENTS && last.Length1 == DCTSIZE2 && c < MAX_COMPONENTS && LegalProgression(s)
    modifies last
    ensures ok <==> forall k :: s.ss <= k <= s.se ==> Follows(old(last[c, k]), s.ah, s.al)
    ensures ok ==> forall k :: 0 <= k < DCTSIZE2 ==> last[c, k] == if s.ss <= k <= s.se then s.al else old(last[c, k])
    ensures forall d, k :: 0 <= d < MAX_COMPONENTS && 0 <= k < DCTSIZE2 && d != c ==> last[d, k] == old(last[d, k])
  {
    for coefi := s.ss to s.se + 1
      invariant forall k :: s.ss <= k < coefi ==> Follows(old(last[c, k]), s.ah, s.al)
      invariant forall k :: 0 <= k < DCTSIZE2 ==> last[c, k] == if s.ss <= k < coefi then s.al else old(last[c, k])
      invariant forall d, k :: 0 <= d < MAX_COMPONENTS && 0 <= k < DCTSIZE2 && d != c ==> last[d, k] == old(last[d, k])
    {
      if last[c, coefi] < 0 {
        if s.ah != 0 {
          return false;
        }
      } else if s.ah != last[c, coefi] || s.al != s.ah - 1 {
        return false;
      }
      last[c, coefi] := s.al;
    }
    ok := true;
  }

  /** What last_bitpos holds when the first ci components of a scan are done. */
  ghost predicate PartlyTracks(last: array2<int>, n: nat, before: seq<ScanInfo>, s: ScanInfo, ci: nat)
    reads last
  {
    && last.Length0 == MAX_COMPONENTS && last.Length1 == DCTSIZE2 && n <= MAX_COMPONENTS && ci <= |s.comps|
    && forall c, k :: 0 <= c < n && 0 <= k < DCTSIZE2 ==>
         last[c, k] == if c in s.comps[..ci] && s.ss <= k <= s.se then s.al else LastAl(before, c, k)
  }

  /** Has component c nothing against this scan? */
  ghost predicate ComponentMayFollow(before: seq<ScanInfo>, s: ScanInfo, c: int) {
    && (s.ss != 0 ==> LastAl(before, c, 0) >= 0)
    && forall k :: s.ss <= k <= s.se ==> Follows(LastAl(before, c, k), s.ah, s.al)
  }

  lemma MayFollowIs(n: nat, before: seq<ScanInfo>, s: ScanInfo)
    requires LegalComps(n, s.comps) && LegalProgression(s)
    ensures MayFollow(n, before, s) <==> forall i :: 0 <= i < |s.comps| ==> ComponentMayFollow(before, s, s.comps[i])
  {
    if MayFollow(n, before, s) {
      forall i | 0 <= i < |s.comps| ensures ComponentMayFollow(before, s, s.comps[i]) {
        forall k | s.ss <= k <= s.se ensures Follows(LastAl(before, s.comps[i], k), s.ah, s.al) {
          assert Refines(before, s, s.comps[i], k);
        }
      }
    }
  }

  lemma CompsDiffer(n: nat, comps: seq<int>, i: nat, j: nat)
    requires LegalComps(n, comps) && i < j < |comps|
    ensures comps[i] < comps[j]
  {
    if i + 1 < j {
      CompsDiffer(n, comps, i, j - 1);
    }
  }

  /** A component of the scan whose turn has not come yet. */
  lemma NotYet(n: nat, comps: seq<int>, ci: nat)
    requires LegalComps(n, comps) && ci < |comps|
    ensures comps[ci] !in comps[..ci] && comps[..ci + 1] == comps[..ci] + [comps[ci]]
  {
    forall i: nat | i < ci ensures comps[i] != comps[ci] {
      CompsDiffer(n, comps, i, ci);
    }
  }

  /** The loop over the components of a progressive scan. */
  method CheckProgressiveScan(last: array2<int>, n: nat, ghost before: seq<ScanInfo>, s: ScanInfo) returns (ok: bool)
    requires Tracks(last, n, before) && LegalComps(n, s.comps)
    modifies last
    ensures ok <==> MayFollow(n, before, s)
    ensures ok ==> Tracks(last, n, before + [s])
  {
    if s.ss < 0 || s.ss >= DCTSIZE2 || s.se < s.ss || s.se >= DCTSIZE2 || s.ah < 0 || s.ah > MAX_AH_AL
       || s.al < 0 || s.al > MAX_AH_AL {
      return false;
    }
    if s.ss == 0 {
      if s.se != 0 {
        return false;
      }
    } else if |s.comps| != 1 {
      return false;
    }
    MayFollowIs(n, before, s);
    for ci := 0 to |s.comps|
      invariant PartlyTracks(last, n, before, s, ci)
      invariant forall i :: 0 <= i < ci ==> ComponentMayFollow(before, s, s.comps[i])
    {
      ok := CheckComponent(last, n, before, s, ci);
      if !ok {
        return;
      }
    }
    AllTracked(last, n, before, s);
    ok := true;
  }

  lemma AllTracked(last: array2<int>, n: nat, before: seq<ScanInfo>, s: ScanInfo)
    requires PartlyTracks(last, n, before, s, |s.comps|)
    ensures Tracks(last, n, before + [s])
  {
    var all := before + [s];
    assert all[..|all| - 1] == before && s.comps[..|s.comps|] == s.comps;
  }

  /** One component of a progressive scan. */
  method CheckComponent(last: array2<int>, n: nat, ghost before: seq<ScanInfo>, s: ScanInfo, ci: nat) returns (ok: bool)
    requires PartlyTracks(last, n, before, s, ci) && ci < |s.comps| && LegalComps(n, s.comps) && LegalProgression(s)
    modifies last
    ensures ok <==> ComponentMayFollow(before, s, s.comps[ci])
    ensures ok ==> PartlyTracks(last, n, before, s, ci + 1)
  {
    NotYet(n, s.comps, ci);
    var c := s.comps[ci];
    if s.ss != 0 && last[c, 0] < 0 {
      return false;
    }
    ok := CheckCoefs(last, c, s);
  }

  /** A progressive script. */
  method ValidateProgressive(n: nat, script: seq<ScanInfo>) returns (ok: bool)
    requires n <= MAX_COMPONENTS
    ensures ok <==> Progressive(n, script)
  {
    ProgressiveIsInTurn(n, script);
    hide Progressive, Refines, LegalComps, LegalProgression;
    var last := new int[MAX_COMPONENTS, DCTSIZE2]((_, _) => -1);
    for scanno := 0 to |script|
      invariant Tracks(last, n, script[..scanno]) && InTurn(n, script[..scanno])
    {
      assert script[..scanno + 1] == script[..scanno] + [script[scanno]];
      OneMoreScan(n, script[..scanno], script[scanno]);
      InTurnPrefix(n, script, scanno + 1);
      ok := CheckComps(n, script[scanno].comps);
      if !ok {
        return;
      }
      ok := CheckProgressiveScan(last, n, script[..scanno], script[scanno]);
      if !ok {
        return;
      }
    }
    assert script[..|script|] == script;
    for ci := 0 to n
      invariant forall c :: 0 <= c < ci ==> LastAl(script, c, 0) >= 0
    {
      if last[ci, 0] < 0 {
        return false;
      }
    }
    ok := true;
  }

  lemma InTurnPrefix(n: nat, script: seq<ScanInfo>, i: nat)
    requires i <= |script|
    ensures InTurn(n, script) ==> InTurn(n, script[..i])
  {
    assert forall j :: 0 <= j < i ==> script[..i][..j] == script[..j];
  }

  predicate WholeScan(s: ScanInfo) {
    s.ss == 0 && s.se == DCTSIZE2 - 1 && s.ah == 0 && s.al == 0
  }

  /** The first j scans are legal so far: whole components, none twice. */
  ghost predicate SequentialSoFar(n: nat, script: seq<ScanInfo>, j: nat)
    requires j <= |script|
  {
    && (forall i :: 0 <= i < j ==> LegalComps(n, script[i].comps) && WholeScan(script[i]))
    && forall i, m, c :: 0 <= i < m < j && SendsComponent(script[i], c) ==> !SendsComponent(script[m], c)
  }

  /** The loop over the components of a sequential scan. */
  method CheckSequentialScan(sent: array<bool>, n: nat, script: seq<ScanInfo>, j: nat) returns (ok: bool)
    requires sent.Length == MAX_COMPONENTS && n <= MAX_COMPONENTS && j < |script| && LegalComps(n, script[j].comps)
    requires forall c :: 0 <= c < n ==> (sent[c] <==> ComponentSent(script, j, c))
    modifies sent
    ensures ok <==> forall c :: c in script[j].comps ==> !ComponentSent(script, j, c)
    ensures ok ==> forall c :: 0 <= c < n ==> (sent[c] <==> ComponentSent(script, j + 1, c))
  {
    var comps := script[j].comps;
    for ci := 0 to |comps|
      invariant forall c :: 0 <= c < n ==> (sent[c] <==> ComponentSent(script, j, c) || c in comps[..ci])
      invariant forall c :: c in comps[..ci] ==> !ComponentSent(script, j, c)
    {
      NotYet(n, comps, ci);
      var thisi := comps[ci];
      if sent[thisi] {
        return false;
      }
      sent[thisi] := true;
    }
    assert comps[..|comps|] == comps;
    forall c | 0 <= c < n ensures sent[c] <==> ComponentSent(script, j + 1, c) {
      if c in comps {
        assert SendsComponent(script[j], c);
      } else if ComponentSent(script, j + 1, c) {
        var i :| 0 <= i < j + 1 && SendsComponent(script[i], c);
      }
    }
    ok := true;
  }

  lemma SequentialStep(n: nat, script: seq<ScanInfo>, j: nat)
    requires j < |script|
    ensures SequentialSoFar(n, script, j + 1) <==>
              && SequentialSoFar(n, script, j) && LegalComps(n, script[j].comps) && WholeScan(script[j])
              && forall c :: c in script[j].comps ==> !ComponentSent(script, j, c)
  {
    if SequentialSoFar(n, script, j + 1) {
      forall c | c in script[j].comps ensures !ComponentSent(script, j, c) {
        assert SendsComponent(script[j], c);
      }
    }
    if SequentialSoFar(n, script, j) && (forall c :: c in script[j].comps ==> !ComponentSent(script, j, c)) {
      forall i, m, c | 0 <= i < m < j + 1 && SendsComponent(script[i], c) ensures !SendsComponent(script[m], c) {
        assert m == j ==> ComponentSent(script, j, c);
      }
    }
  }

  lemma SequentialMono(n: nat, script: seq<ScanInfo>, i: nat)
    requires i <= |script|
    ensures Sequential(n, script) ==> SequentialSoFar(n, script, i)
    ensures Sequential(n, script) <==> SequentialSoFar(n, script, |script|)
                                       && forall c :: 0 <= c < n ==> ComponentSent(script, |script|, c)
  {
  }

  /** A sequential script. */
  method ValidateSequential(n: nat, script: seq<ScanInfo>) returns (ok: bool)
    requires n <= MAX_COMPONENTS
    ensures ok <==> Sequential(n, script)
  {
    var sent := new bool[MAX_COMPONENTS](_ => false);
    for scanno := 0 to |script|
      invariant SequentialSoFar(n, script, scanno)
      invariant forall c :: 0 <= c < n ==> (sent[c] <==> ComponentSent(script, scanno, c))
    {
      SequentialStep(n, script, scanno);
      SequentialMono(n, script, scanno + 1);
      var s := script[scanno];
      ok := CheckComps(n, s.comps);
      if !ok {
        return;
      }
      if s.ss != 0 || s.se != DCTSIZE2 - 1 || s.ah != 0 || s.al != 0 {
        return false;
      }
      ok := CheckSequentialScan(sent, n, script, scanno);
      if !ok {
        return;
      }
    }
    SequentialMono(n, script, |script|);
    for ci := 0 to n
      invariant forall c :: 0 <= c < ci ==> ComponentSent(script, |script|, c)
    {
      if !sent[ci] {
        return false;
      }
    }
    ok := true;
  }

  /** validate_script: the scripts it accepts, and whether it takes them for progressive ones. */
  method ValidateScript(n: nat, script: seq<ScanInfo>) returns (r: Option<bool>)
    requires 1 <= n <= MAX_COMPONENTS
    ensures r == Some(true) <==> Progressive(n, script)
    ensures r == Some(false) <==> Sequential(n, script)
  {
    hide Progressive, Sequential;
    FirstScan(n, script);
    if |script| == 0 {
      return None;
    }
    if script[0].ss != 0 || script[0].se != DCTSIZE2 - 1 {
      var ok := ValidateProgressive(n, script);
      r := if ok then Some(true) else None;
    } else {
      var ok := ValidateSequential(n, script);
      r := if ok then Some(false) else None;
    }
  }

  /** The first scan tells the two kinds of script apart. */
  lemma FirstScan(n: nat, script: seq<ScanInfo>)
    requires n >= 1
    ensures Progressive(n, script) ==> script != [] && !(script[0].ss == 0 && script[0].se == DCTSIZE2 - 1)
    ensures Sequential(n, script) ==> script != [] && script[0].ss == 0 && script[0].se == DCTSIZE2 - 1
  {
    if Progressive(n, script) {
      assert DcSent(script, |script|, 0);
      assert LegalProgression(script[0]);
    }
    if Sequential(n, script) {
      assert ComponentSent(script, |script|, 0);
    }
  }
}
