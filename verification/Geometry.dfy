/** Image, component and MCU dimensions: initial_setup and per_scan_setup of jcmaster.c. */
module Geometry {
  import opened Powers
  import opened CanonicalCode

  const DCTSIZE: nat := 8
  const MAX_COMPONENTS: nat := 10
  const MAX_COMPS_IN_SCAN: nat := 4
  const MAX_SAMP_FACTOR: nat := 4
  const C_MAX_BLOCKS_IN_MCU: nat := 10
  const JPEG_MAX_DIMENSION: nat := 65500
  const JDIMENSION_LIMIT: nat := 0x1_0000_0000
  const BITS_IN_JSAMPLE: nat := 8

  // ---------- rounding up ----------

  /** jdiv_round_up: the smallest q with q * b >= a. */
  function CeilDiv(a: nat, b: nat): (q: nat)
    requires b > 0
    ensures (q - 1) * b < a <= q * b
  {
    CeilDivBounds(a, b);
    (a + b - 1) / b
  }

  lemma CeilDivBounds(a: nat, b: nat)
    requires b > 0
    ensures var q := (a + b - 1) / b; q >= 0 && (q - 1) * b < a <= q * b
  {
    var x := a + b - 1;
    assert x == (x / b) * b + x % b;
    MulDistrib(x / b, -1, b);
    if x / b < 0 {
      MulLe(x / b, -1, b);
    }
  }

  lemma CeilDivUnique(a: nat, b: nat, q: nat)
    requires b > 0 && (q - 1) * b < a <= q * b
    ensures CeilDiv(a, b) == q
  {
    var r := CeilDiv(a, b);
    if r < q {
      MulLe(r, q - 1, b);
    } else if q < r {
      MulLe(q, r - 1, b);
    }
  }

  /** What is left for the last of the groups of m that n things make: 1 to m. */
  function Last(n: nat, m: nat): (r: nat)
    requires m > 0
    ensures 1 <= r <= m
  {
    if n % m == 0 then m else n % m
  }

  /** All groups but the last are full. */
  lemma LastCompletes(n: nat, m: nat)
    requires m > 0 && n > 0
    ensures CeilDiv(n, m) >= 1 && (CeilDiv(n, m) - 1) * m + Last(n, m) == n
  {
    var q := n / m;
    assert n == q * m + n % m;
    if n % m == 0 {
      assert q >= 1 by {
        if q < 1 {
          MulLe(q, 0, m);
        }
      }
      MulDistrib(q, -1, m);
      CeilDivUnique(n, m, q);
    } else {
      MulDistrib(q, 1, m);
      CeilDivUnique(n, m, q + 1);
    }
  }

  lemma MulSwap(q: int, h: int, n: int)
    ensures (q * h) * n == (q * n) * h
  {
  }

  /** The nested ceiling: scaling by h, rounding up to blocks and then rounding up to groups of h
      blocks is the same as rounding up the unscaled size. */
  lemma NestedCeiling(w: nat, h: nat, n: nat)
    requires h > 0 && n > 0
    ensures CeilDiv(CeilDiv(w * h, n), h) == CeilDiv(w, n)
  {
    var q, b := CeilDiv(w, n), CeilDiv(w * h, n);
    assert b <= q * h by {
      if b > q * h {
        MulSwap(q, h, n);
        MulLe(w, q * n, h);
        MulLe(q * h, b - 1, n);
      }
    }
    assert (q - 1) * h < b by {
      if b <= (q - 1) * h {
        MulSwap(q - 1, h, n);
        MulLt((q - 1) * n, w, h);
        MulLe(b, (q - 1) * h, n);
      }
    }
    CeilDivUnique(b, h, q);
  }

  // ---------- the frame ----------

  datatype Sampling = Sampling(h: nat, v: nat)

  datatype Component = Component(h: nat, v: nat, widthInBlocks: nat, heightInBlocks: nat) {
    /** The number of blocks in an interleaved MCU. */
    function Blocks(): nat {
      h * v
    }
  }

  datatype Frame = Frame(width: nat, height: nat, maxH: nat, maxV: nat, comps: seq<Component>, totalIMcuRows: nat) {

    ghost predicate ValidComponent(c: Component) {
      && 1 <= c.h <= maxH <= MAX_SAMP_FACTOR && 1 <= c.v <= maxV <= MAX_SAMP_FACTOR
      && c.widthInBlocks == CeilDiv(width * c.h, maxH * DCTSIZE)
      && c.heightInBlocks == CeilDiv(height * c.v, maxV * DCTSIZE)
    }

    ghost predicate Valid() {
      && 1 <= width <= JPEG_MAX_DIMENSION && 1 <= height <= JPEG_MAX_DIMENSION
      && 1 <= maxH && 1 <= maxV && 1 <= |comps| <= MAX_COMPONENTS
      && (forall i :: 0 <= i < |comps| ==> ValidComponent(comps[i]))
      && totalIMcuRows == CeilDiv(height, maxV * DCTSIZE)
    }

    /** The number of interleaved MCUs in a row. */
    ghost function MaxMcusPerRow(): nat
      requires Valid()
    {
      CeilDiv(width, maxH * DCTSIZE)
    }
  }

  /** The largest factor among the first n, and at least 1. */
  function MaxFactor(s: seq<nat>, n: nat): (m: nat)
    requires n <= |s|
    ensures m >= 1 && forall i :: 0 <= i < n ==> s[i] <= m
    ensures m == 1 || exists i :: 0 <= i < n && s[i] == m
  {
    if n == 0 then 1 else
      var m := MaxFactor(s, n - 1);
      if m > s[n - 1] then m else s[n - 1]
  }

  function Hs(s: seq<Sampling>): seq<nat> {
    seq(|s|, i requires 0 <= i < |s| => s[i].h)
  }

  function Vs(s: seq<Sampling>): seq<nat> {
    seq(|s|, i requires 0 <= i < |s| => s[i].v)
  }

  predicate LegalSampling(x: Sampling) {
    1 <= x.h <= MAX_SAMP_FACTOR && 1 <= x.v <= MAX_SAMP_FACTOR
  }

  ghost predicate LegalFactors(s: seq<Sampling>) {
    forall i :: 0 <= i < |s| ==> LegalSampling(s[i])
  }

  /** What initial_setup accepts. */
  ghost predicate LegalImage(width: nat, height: nat, inputComponents: nat, precision: nat, s: seq<Sampling>) {
    && 1 <= width <= JPEG_MAX_DIMENSION && 1 <= height <= JPEG_MAX_DIMENSION
    && 1 <= inputComponents && width * inputComponents < JDIMENSION_LIMIT && precision == BITS_IN_JSAMPLE
    && 1 <= |s| <= MAX_COMPONENTS && LegalFactors(s)
  }

  /** The component dimensions of the second loop. */
  function ComponentSizes(width: nat, height: nat, s: seq<Sampling>, maxH: nat, maxV: nat): (comps: seq<Component>)
    requires maxH > 0 && maxV > 0
    ensures |comps| == |s|
  {
    seq(|s|, i requires 0 <= i < |s| =>
      Component(s[i].h, s[i].v, CeilDiv(width * s[i].h, maxH * DCTSIZE), CeilDiv(height * s[i].v, maxV * DCTSIZE)))
  }

  /** The frame of an image. */
  function FrameFor(width: nat, height: nat, s: seq<Sampling>): Frame {
    var maxH, maxV := MaxFactor(Hs(s), |s|), MaxFactor(Vs(s), |s|);
    Frame(width, height, maxH, maxV, ComponentSizes(width, height, s, maxH, maxV), CeilDiv(height, maxV * DCTSIZE))
  }

  /** The frame of a legal image is valid. */
  lemma FrameIsValid(width: nat, height: nat, s: seq<Sampling>)
    requires 1 <= width <= JPEG_MAX_DIMENSION && 1 <= height <= JPEG_MAX_DIMENSION
    requires 1 <= |s| <= MAX_COMPONENTS && LegalFactors(s)
    ensures FrameFor(width, height, s).Valid()
  {
    hide CeilDiv, MaxFactor;
    FactorsBounded(s);
  }

  lemma FactorsBounded(s: seq<Sampling>)
    requires LegalFactors(s)
    ensures forall i :: 0 <= i < |s| ==> s[i].h <= MaxFactor(Hs(s), |s|) && s[i].v <= MaxFactor(Vs(s), |s|)
    ensures MaxFactor(Hs(s), |s|) <= MAX_SAMP_FACTOR && MaxFactor(Vs(s), |s|) <= MAX_SAMP_FACTOR
  {
    assert forall i :: 0 <= i < |s| ==> LegalSampling(s[i]) && Hs(s)[i] == s[i].h && Vs(s)[i] == s[i].v;
  }

  /** initial_setup. */
  method InitialSetup(width: nat, height: nat, inputComponents: nat, precision: nat, s: seq<Sampling>)
      returns (r: Option<Frame>)
    ensures r.Some? <==> LegalImage(width, height, inputComponents, precision, s)
    ensures r.Some? ==> r.value.Valid() && r.value == FrameFor(width, height, s)
  {
    hide CeilDiv, MaxFactor;
    if height == 0 || width == 0 || |s| == 0 || inputComponents == 0 {
      return None;
    }
    if height > JPEG_MAX_DIMENSION || width > JPEG_MAX_DIMENSION {
      return None;
    }
    var samplesPerRow := width * inputComponents;
    if samplesPerRow % JDIMENSION_LIMIT != samplesPerRow || precision != BITS_IN_JSAMPLE || |s| > MAX_COMPONENTS {
      return None;
    }
    var maxH, maxV := MaxFactors(s);
    if maxH == 0 {
      return None;
    }
    FrameIsValid(width, height, s);
    r := Some(Frame(width, height, maxH, maxV, ComponentSizes(width, height, s, maxH, maxV),
                    CeilDiv(height, maxV * DCTSIZE)));
  }

  lemma NoFactors(s: seq<Sampling>)
    ensures MaxFactor(Hs(s), 0) == 1 && MaxFactor(Vs(s), 0) == 1
  {
  }

  lemma NextFactors(s: seq<Sampling>, n: nat)
    requires n < |s|
    ensures var m := MaxFactor(Hs(s), n); MaxFactor(Hs(s), n + 1) == if m > s[n].h then m else s[n].h
    ensures var m := MaxFactor(Vs(s), n); MaxFactor(Vs(s), n + 1) == if m > s[n].v then m else s[n].v
  {
  }

  /** The first loop: the largest sampling factors, or zero if a factor is illegal. */
  method MaxFactors(s: seq<Sampling>) returns (maxH: nat, maxV: nat)
    ensures maxH == 0 <==> !LegalFactors(s)
    ensures maxH != 0 ==> maxH == MaxFactor(Hs(s), |s|) && maxV == MaxFactor(Vs(s), |s|)
  {
    hide MaxFactor;
    NoFactors(s);
    maxH, maxV := 1, 1;
    for ci := 0 to |s|
      invariant forall i :: 0 <= i < ci ==> LegalSampling(s[i])
      invariant maxH == MaxFactor(Hs(s), ci) && maxV == MaxFactor(Vs(s), ci)
    {
      if s[ci].h == 0 || s[ci].h > MAX_SAMP_FACTOR || s[ci].v == 0 || s[ci].v > MAX_SAMP_FACTOR {
        assert !LegalSampling(s[ci]);
        return 0, 0;
      }
      NextFactors(s, ci);
      maxH := if maxH > s[ci].h then maxH else s[ci].h;
      maxV := if maxV > s[ci].v then maxV else s[ci].v;
    }
  }

  /** Every component fills the same number of MCU columns and rows. */
  lemma ComponentFillsMcus(f: Frame, i: nat)
    requires f.Valid() && i < |f.comps|
    ensures var c := f.comps[i];
            && CeilDiv(c.widthInBlocks, c.h) == f.MaxMcusPerRow() >= 1
            && CeilDiv(c.heightInBlocks, c.v) == f.totalIMcuRows >= 1
            && c.widthInBlocks >= 1 && c.heightInBlocks >= 1
            && (f.MaxMcusPerRow() - 1) * c.h + Last(c.widthInBlocks, c.h) == c.widthInBlocks
            && (f.totalIMcuRows - 1) * c.v + Last(c.heightInBlocks, c.v) == c.heightInBlocks
  {
    var c := f.comps[i];
    assert f.ValidComponent(c);
    NestedCeiling(f.width, c.h, f.maxH * DCTSIZE);
    NestedCeiling(f.height, c.v, f.maxV * DCTSIZE);
    PositiveBlocks(f.width, c.h, f.maxH * DCTSIZE);
    PositiveBlocks(f.height, c.v, f.maxV * DCTSIZE);
    LastCompletes(c.widthInBlocks, c.h);
    LastCompletes(c.heightInBlocks, c.v);
  }

  lemma PositiveBlocks(w: nat, h: nat, n: nat)
    requires w > 0 && h > 0 && n > 0
    ensures CeilDiv(w * h, n) >= 1
  {
    MulLe(1, w, h);
    if CeilDiv(w * h, n) == 0 {
      MulLe(CeilDiv(w * h, n), 0, n);
    }
  }

  // ---------- a scan ----------

  datatype ScanComponent = ScanComponent(index: nat, mcuWidth: nat, mcuHeight: nat, lastColWidth: nat,
                                         lastRowHeight: nat)

  datatype Scan = Scan(comps: seq<ScanComponent>, mcusPerRow: nat, mcuRowsInScan: nat, membership: seq<nat>,
                       restartInterval: nat)

  /** Component numbers of the blocks of an MCU: mcuWidth * mcuHeight times each. */
  function Membership(comps: seq<ScanComponent>, n: nat): seq<nat>
    requires n <= |comps|
  {
    if n == 0 then []
    else Membership(comps, n - 1) + seq(comps[n - 1].mcuWidth * comps[n - 1].mcuHeight, _ => n - 1)
  }

  function InterleavedComponent(f: Frame, index: nat): ScanComponent
    requires index < |f.comps| && f.comps[index].h > 0 && f.comps[index].v > 0
  {
    var c := f.comps[index];
    ScanComponent(index, c.h, c.v, Last(c.widthInBlocks, c.h), Last(c.heightInBlocks, c.v))
  }

  /** s is how the components cur of the frame are scanned. */
  ghost predicate ScanOf(f: Frame, cur: seq<nat>, s: Scan) {
    && f.Valid() && 1 <= |cur| <= MAX_COMPS_IN_SCAN && |s.comps| == |cur|
    && (forall i :: 0 <= i < |cur| ==> cur[i] < |f.comps|)
    && s.membership == Membership(s.comps, |cur|) && |s.membership| <= C_MAX_BLOCKS_IN_MCU
    && if |cur| == 1 then
         var c := f.comps[cur[0]];
         && s.comps[0] == ScanComponent(cur[0], 1, 1, 1, Last(c.heightInBlocks, c.v))
         && s.mcusPerRow == c.widthInBlocks && s.mcuRowsInScan == c.heightInBlocks
       else
         && (forall i :: 0 <= i < |cur| ==> s.comps[i] == InterleavedComponent(f, cur[i]))
         && s.mcusPerRow == f.MaxMcusPerRow() && s.mcuRowsInScan == f.totalIMcuRows
  }

  /** The restart interval: in MCU rows if rows is non-zero, limited to 16 bits. */
  function RestartInterval(rows: nat, mcusPerRow: nat, interval: nat): (n: nat)
    ensures rows == 0 ==> n == interval
    ensures rows > 0 ==> n <= 0xFFFF && n <= rows * mcusPerRow && (n == 0xFFFF || n == rows * mcusPerRow)
  {
    if rows == 0 then interval else if rows * mcusPerRow < 65535 then rows * mcusPerRow else 65535
  }

  /** The blocks of one interleaved MCU that belong to the first n components. */
  function McuBlocks(f: Frame, cur: seq<nat>, n: nat): nat
    requires n <= |cur| && forall i :: 0 <= i < |cur| ==> cur[i] < |f.comps|
  {
    if n == 0 then 0 else McuBlocks(f, cur, n - 1) + f.comps[cur[n - 1]].Blocks()
  }

  lemma {:induction false} McuBlocksMono(f: Frame, cur: seq<nat>, n: nat, m: nat)
    requires n <= m <= |cur| && forall i :: 0 <= i < |cur| ==> cur[i] < |f.comps|
    ensures McuBlocks(f, cur, n) <= McuBlocks(f, cur, m)
  {
    if n < m {
      McuBlocksMono(f, cur, n, m - 1);
    }
  }

  /** Can the components be scanned together? */
  predicate Scannable(f: Frame, cur: seq<nat>) {
    && 1 <= |cur| <= MAX_COMPS_IN_SCAN && (forall i :: 0 <= i < |cur| ==> cur[i] < |f.comps|)
    && (|cur| == 1 || McuBlocks(f, cur, |cur|) <= C_MAX_BLOCKS_IN_MCU)
  }

  /** How they are. */
  ghost function ScanFor(f: Frame, cur: seq<nat>, restartInRows: nat, restartInterval: nat): (s: Scan)
    requires f.Valid() && Scannable(f, cur)
    ensures ScanOf(f, cur, s) && s.restartInterval == RestartInterval(restartInRows, s.mcusPerRow, restartInterval)
  {
    var c := f.comps[cur[0]];
    assert forall i :: 0 <= i < |cur| ==> f.ValidComponent(f.comps[cur[i]]);
    if |cur| == 1 then
      var sc := ScanComponent(cur[0], 1, 1, 1, Last(c.heightInBlocks, c.v));
      assert Membership([sc], 1) == [] + seq(1, _ => 0) == [0];
      Scan([sc], c.widthInBlocks, c.heightInBlocks, [0],
           RestartInterval(restartInRows, c.widthInBlocks, restartInterval))
    else
      var comps := seq(|cur|, i requires 0 <= i < |cur| => InterleavedComponent(f, cur[i]));
      MembershipSize(f, cur, comps, |cur|);
      Scan(comps, f.MaxMcusPerRow(), f.totalIMcuRows, Membership(comps, |cur|),
           RestartInterval(restartInRows, f.MaxMcusPerRow(), restartInterval))
  }

  lemma {:induction false} MembershipSize(f: Frame, cur: seq<nat>, comps: seq<ScanComponent>, n: nat)
    requires f.Valid() && n <= |cur| == |comps| && forall i :: 0 <= i < |cur| ==> cur[i] < |f.comps|
    requires forall i :: 0 <= i < |cur| ==> f.ValidComponent(f.comps[cur[i]])
    requires forall i :: 0 <= i < |cur| ==> comps[i] == InterleavedComponent(f, cur[i])
    ensures |Membership(comps, n)| == McuBlocks(f, cur, n)
  {
    if n != 0 {
      MembershipSize(f, cur, comps, n - 1);
      NewComponent(f, cur[n - 1]);
    }
  }

  /** There is only one way to do it. */
  lemma ScanIsUnique(f: Frame, cur: seq<nat>, s: Scan, t: Scan)
    requires ScanOf(f, cur, s) && ScanOf(f, cur, t) && s.restartInterval == t.restartInterval
    ensures s == t
  {
    assert s.comps == t.comps;
  }

  /** per_scan_setup. Fails exactly when there are too many components, or too many blocks in an MCU. */
  method PerScanSetup(f: Frame, cur: seq<nat>, restartInRows: nat, restartInterval: nat) returns (r: Option<Scan>)
    requires f.Valid() && forall i :: 0 <= i < |cur| ==> cur[i] < |f.comps|
    ensures r.Some? <==> Scannable(f, cur)
    ensures r.Some? ==> ScanOf(f, cur, r.value)
    ensures r.Some? ==> r.value.restartInterval == RestartInterval(restartInRows, r.value.mcusPerRow, restartInterval)
  {
    if |cur| == 1 {
      var c := f.comps[cur[0]];
      assert f.ValidComponent(c);
      var sc := ScanComponent(cur[0], 1, 1, 1, Last(c.heightInBlocks, c.v));
      assert Membership([sc], 1) == [] + seq(1, _ => 0) == [0];
      return Some(Scan([sc], c.widthInBlocks, c.heightInBlocks, [0],
                       RestartInterval(restartInRows, c.widthInBlocks, restartInterval)));
    }
    if |cur| == 0 || |cur| > MAX_COMPS_IN_SCAN {
      return None;
    }
    var comps, membership := InterleavedComps(f, cur);
    if comps == [] {
      return None;
    }
    var mcusPerRow := CeilDiv(f.width, f.maxH * DCTSIZE);
    r := Some(Scan(comps, mcusPerRow, CeilDiv(f.height, f.maxV * DCTSIZE), membership,
                   RestartInterval(restartInRows, mcusPerRow, restartInterval)));
  }

  lemma NewComponent(f: Frame, index: nat)
    requires index < |f.comps| && f.comps[index].h > 0 && f.comps[index].v > 0
    ensures var c := InterleavedComponent(f, index); c.mcuWidth * c.mcuHeight == f.comps[index].Blocks()
  {
  }

  lemma NoMembership(comps: seq<ScanComponent>)
    ensures Membership(comps, 0) == []
  {
  }

  /** The component loop of per_scan_setup; no components means that an MCU would be too big. */
  method InterleavedComps(f: Frame, cur: seq<nat>) returns (comps: seq<ScanComponent>, membership: seq<nat>)
    requires f.Valid() && |cur| > 0 && forall i :: 0 <= i < |cur| ==> cur[i] < |f.comps|
    ensures comps != [] <==> McuBlocks(f, cur, |cur|) <= C_MAX_BLOCKS_IN_MCU
    ensures comps != [] ==> |comps| == |cur|
                            && forall i :: 0 <= i < |cur| ==> comps[i] == InterleavedComponent(f, cur[i])
    ensures comps != [] ==> membership == Membership(comps, |comps|) && |membership| <= C_MAX_BLOCKS_IN_MCU
  {
    hide Membership, CeilDiv, InterleavedComponent;
    comps, membership := [], [];
    NoMembership(comps);
    for ci := 0 to |cur|
      invariant |comps| == ci && forall i :: 0 <= i < ci ==> comps[i] == InterleavedComponent(f, cur[i])
      invariant membership == Membership(comps, ci) && |membership| == McuBlocks(f, cur, ci) <= C_MAX_BLOCKS_IN_MCU
    {
      var c := f.comps[cur[ci]];
      assert f.ValidComponent(c);
      McuBlocksMono(f, cur, ci + 1, |cur|);
      var mcublks := c.Blocks();
      if |membership| + mcublks > C_MAX_BLOCKS_IN_MCU {
        return [], [];
      }
      var sc := InterleavedComponent(f, cur[ci]);
      NewComponent(f, cur[ci]);
      MembershipStep(comps, sc, mcublks);
      comps := comps + [sc];
      membership := AddBlocks(membership, ci, mcublks);
    }
  }

  /** The loop that adds one component's blocks to MCU_membership. */
  method AddBlocks(membership: seq<nat>, ci: nat, mcublks: nat) returns (r: seq<nat>)
    ensures r == membership + seq(mcublks, _ => ci)
  {
    r := membership;
    var left := mcublks;
    while left > 0
      invariant 0 <= left <= mcublks && r == membership + seq(mcublks - left, _ => ci)
    {
      r := r + [ci];
      left := left - 1;
    }
  }

  lemma MembershipStep(comps: seq<ScanComponent>, c: ScanComponent, n: nat)
    requires c.mcuWidth * c.mcuHeight == n
    ensures Membership(comps + [c], |comps| + 1) == Membership(comps, |comps|) + seq(n, _ => |comps|)
  {
    MembershipPrefix(comps, c, |comps|);
  }

  lemma {:induction false} MembershipPrefix(comps: seq<ScanComponent>, c: ScanComponent, n: nat)
    requires n <= |comps|
    ensures Membership(comps + [c], n) == Membership(comps, n)
  {
    if n != 0 {
      MembershipPrefix(comps, c, n - 1);
    }
  }

  lemma CeilDivMono(a: nat, b: nat, m: nat, n: nat)
    requires a <= b && 0 < n <= m
    ensures 0 <= CeilDiv(a, m) <= CeilDiv(b, n)
  {
    var q, r := CeilDiv(a, m), CeilDiv(b, n);
    assert r * m == m * r && r * n == n * r;
    if q > r {
      MulLe(r, q - 1, m);
      MulLe(n, m, r);
    }
  }

  /** No scan has more than 8188 columns or rows of MCUs. */
  lemma ScanIsSmall(f: Frame, cur: seq<nat>, s: Scan)
    requires ScanOf(f, cur, s)
    ensures s.mcusPerRow <= 8188 && s.mcuRowsInScan <= 8188 && |s.membership| <= C_MAX_BLOCKS_IN_MCU
  {
    var c := f.comps[cur[0]];
    assert f.ValidComponent(c);
    assert CeilDiv(JPEG_MAX_DIMENSION, DCTSIZE) == 8188 by { CeilDivUnique(JPEG_MAX_DIMENSION, DCTSIZE, 8188); }
    CeilDivMono(f.width, JPEG_MAX_DIMENSION, f.maxH * DCTSIZE, DCTSIZE);
    CeilDivMono(f.height, JPEG_MAX_DIMENSION, f.maxV * DCTSIZE, DCTSIZE);
    Shrinks(f.width, c.h, f.maxH);
    Shrinks(f.height, c.v, f.maxV);
  }

  /** Sampling factors below the maximum only make a component smaller. */
  lemma Shrinks(w: nat, h: nat, maxH: nat)
    requires w <= JPEG_MAX_DIMENSION && 1 <= h <= maxH
    ensures CeilDiv(w * h, maxH * DCTSIZE) <= CeilDiv(JPEG_MAX_DIMENSION, DCTSIZE)
  {
    var q := CeilDiv(w, DCTSIZE);
    CeilDivMono(w, JPEG_MAX_DIMENSION, DCTSIZE, DCTSIZE);
    MulLe(h, maxH, w);
    CeilDivMono(w * h, w * maxH, maxH * DCTSIZE, maxH * DCTSIZE);
    MulLe(w, q * DCTSIZE, maxH);
    assert q * (maxH * DCTSIZE) == (q * DCTSIZE) * maxH;
    if CeilDiv(w * maxH, maxH * DCTSIZE) > q {
      MulLe(q, CeilDiv(w * maxH, maxH * DCTSIZE) - 1, maxH * DCTSIZE);
    }
  }
}
