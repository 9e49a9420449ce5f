/** A whole image with optimised Huffman tables and a sequential script, or none: master control decides what each pass
    does, and statistics gatherer, coefficient controller and Huffman coder do it. */
module ImageRun {
  import opened BitStrings
  import opened CanonicalCode
  import opened BitWriter
  import opened BlockCoding
  import opened ScanCoding
  import opened ScanDecoder
  import opened Statistics
  import opened ScanTotals
  import opened Geometry
  import opened CoefImage
  import opened McuLayout
  import opened CoefController
  import opened CompressRun
  import opened PassPlan
  import opened PassControl

  // ---------- the image and its scans ----------

  /** An image with its settings. Component i uses the Huffman tables numbered dcTbl[i] and acTbl[i]; dct gives its
      blocks. */
  datatype Image = Image(settings: Settings, order: seq<nat>, dcTbl: seq<nat>, acTbl: seq<nat>,
                         dct: (nat, nat, nat) -> Block) {

    /** Settings with optimisation and without progression. */
    ghost predicate Valid() {
      && IsOrder(order) && |dcTbl| == |acTbl| == |settings.sampling|
      && (forall i :: 0 <= i < |dcTbl| ==> dcTbl[i] < 4 && acTbl[i] < 4)
      && settings.optimize && !settings.IsProgressive()
    }

    ghost predicate Legal() {
      Valid() && settings.Legal(false)
    }

    /** Are the parameters of scan k in order? */
    ghost predicate Fits(k: nat)
      requires Legal() && k < settings.NumScans()
    {
      settings.SetUpError(k).None?
    }

    lemma FitsIs(k: nat)
      requires Legal() && k < settings.NumScans()
      ensures settings.FrameOf().Valid() && |settings.FrameOf().comps| == |dcTbl|
      ensures Fits(k) <==> Scannable(settings.FrameOf(), settings.Cur(k))
    {
      settings.FrameIsLegal(false);
      settings.CurInFrame(k);
    }

    ghost function ScanAt(k: nat): Scan
      requires Legal() && k < settings.NumScans() && Fits(k)
    {
      FitsIs(k);
      ScanFor(settings.FrameOf(), settings.Cur(k), settings.restartInRows, settings.restartInterval)
    }

    function JobFor(f: Frame, cur: seq<nat>, scan: Scan): Job {
      Job(f, cur, scan, dct)
    }

    function CfgFor(cur: seq<nat>, scan: Scan): ScanConfig
      requires |dcTbl| == |acTbl| && forall i :: 0 <= i < |cur| ==> cur[i] < |dcTbl|
    {
      ScanConfig(order, scan.membership, seq(|cur|, i requires 0 <= i < |cur| => dcTbl[cur[i]]),
                 seq(|cur|, i requires 0 <= i < |cur| => acTbl[cur[i]]), scan.restartInterval)
    }

    /** Scan k, and how it is coded. */
    ghost function JobAt(k: nat): (j: Job)
      requires Legal() && k < settings.NumScans() && Fits(k)
      ensures j.Valid()
    {
      FitsIs(k);
      JobFor(settings.FrameOf(), settings.Cur(k), ScanAt(k))
    }

    ghost function CfgAt(k: nat): (cfg: ScanConfig)
      requires Legal() && k < settings.NumScans() && Fits(k)
      ensures Matches(JobAt(k), cfg) && FitAll(cfg, JobAt(k).AllMcus())
    {
      FitsIs(k);
      CfgMatches(JobAt(k));
      JobFits(JobAt(k), CfgFor(settings.Cur(k), ScanAt(k)));
      CfgFor(settings.Cur(k), ScanAt(k))
    }

    /** Every component of a scan is coded with its own tables. */
    lemma TablesOf(k: nat, ci: nat)
      requires Legal() && k < settings.NumScans() && Fits(k) && ci < |settings.Cur(k)|
      ensures settings.Cur(k)[ci] < |dcTbl|
      ensures CfgAt(k).DcSlot(ci) == dcTbl[settings.Cur(k)[ci]] && CfgAt(k).AcSlot(ci) == 4 + acTbl[settings.Cur(k)[ci]]
    {
      FitsIs(k);
      settings.CurInFrame(k);
    }

    lemma CfgMatches(job: Job)
      requires Valid() && job.Valid() && forall i :: 0 <= i < |job.cur| ==> job.cur[i] < |dcTbl|
      ensures Matches(job, CfgFor(job.cur, job.scan))
    {
      MembershipBelow(job.scan.comps, |job.cur|);
    }

    /** The MCUs of scan k. */
    ghost function McusAt(k: nat): seq<Mcu>
      requires Legal() && k < settings.NumScans() && Fits(k)
    {
      JobAt(k).AllMcus()
    }

    /** Can the table generator see all counts of the scan? */
    ghost predicate CountsAreSeen(k: nat)
      requires Legal() && k < settings.NumScans()
    {
      Fits(k) ==> AcCountsFit(CfgAt(k), McusAt(k))
    }

    /** The parameters of the scan are in order, no coefficient is out of range and no tree is too high. */
    ghost predicate Codable(k: nat)
      requires Legal() && k < settings.NumScans()
    {
      Fits(k) && !Unfit(CfgAt(k), McusAt(k))
    }

    lemma CodableFits(k: nat)
      requires Legal() && k < settings.NumScans()
      ensures Codable(k) ==> Fits(k)
    {
    }

    /** The whole image can be compressed. */
    ghost predicate CanCompress() {
      && Legal() && !settings.arithCode
      && forall k: nat :: k < settings.NumScans() ==> Codable(k)
    }

    /** The scan that master control has set up. */
    lemma JobIs(k: nat, cur: seq<nat>, scan: Scan)
      requires Legal() && k < settings.NumScans() && cur == settings.Cur(k) && ScanOf(settings.FrameOf(), cur, scan)
      requires scan.restartInterval == RestartInterval(settings.restartInRows, scan.mcusPerRow,
                                                       settings.restartInterval)
      ensures Fits(k) && forall i :: 0 <= i < |cur| ==> cur[i] < |dcTbl|
      ensures JobFor(settings.FrameOf(), cur, scan) == JobAt(k) && CfgFor(cur, scan) == CfgAt(k)
    {
      FitsIs(k);
      FewBlocks(settings.FrameOf(), cur, scan);
      ScanIsUnique(settings.FrameOf(), cur, scan, ScanAt(k));
    }

    /** The image as it is in the buffer, whatever the scan. */
    function Picture(): Job {
      Job(settings.FrameOf(), [], Scan([], 0, 0, [], 0), dct)
    }
  }

  lemma {:induction false} MembershipBelow(comps: seq<ScanComponent>, n: nat)
    requires n <= |comps|
    ensures forall b :: 0 <= b < |Membership(comps, n)| ==> Membership(comps, n)[b] < n
  {
    if n != 0 {
      MembershipBelow(comps, n - 1);
    }
  }

  lemma FewBlocks(f: Frame, cur: seq<nat>, s: Scan)
    requires ScanOf(f, cur, s)
    ensures Scannable(f, cur)
  {
    forall i | 0 <= i < |cur| ensures f.ValidComponent(f.comps[cur[i]]) {
    }
    if |cur| > 1 {
      MembershipSize(f, cur, s.comps, |cur|);
    }
  }

  // ---------- the buffered image ----------

  lemma {:induction false} SameCoef(a: Job, b: Job, i: nat, row: nat, col: nat)
    requires a.frame == b.frame && a.dct == b.dct && a.frame.Valid() && a.ValidIndex(i)
    ensures a.Coef(i, row, col) == b.Coef(i, row, col)
    decreases row
  {
    ComponentFillsMcus(a.frame, i);
    var c := a.frame.comps[i];
    assert a.frame.ValidComponent(c);
    if row >= c.heightInBlocks {
      SameCoef(a, b, i, row - 1, GroupEnd(col, c.h));
    }
  }

  /** What is in the buffer does not depend on the scan. */
  lemma SameImage(c: CoefController, a: Job, b: Job, n: nat)
    requires a.frame == b.frame && a.dct == b.dct && a.frame.Valid() && c.HasImage(a) && c.Loaded(a, n)
    ensures c.HasImage(b) && c.Loaded(b, n)
  {
    hide Job.Coef, Frame.Valid;
    forall i, r: nat | 0 <= i < |c.wholeImage| && r < n * b.frame.comps[i].v
      ensures CoefController.RowLoaded(b, i, c.wholeImage[i], r)
    {
      assert CoefController.ComponentLoaded(a, i, c.wholeImage[i], n * a.frame.comps[i].v);
      assert CoefController.RowLoaded(a, i, c.wholeImage[i], r);
      forall col | 0 <= col < c.wholeImage[i].Length1 ensures c.wholeImage[i][r, col] == b.Coef(i, r, col) {
        SameCoef(a, b, i, r, col);
      }
    }
  }

  // ---------- what has been sent ----------

  /** The markers in front of a scan, its entropy-coded data, and the tables it is coded with. */
  datatype Piece = Piece(header: seq<byte>, data: seq<byte>, tables: Tables)

  ghost function Join(pieces: seq<Piece>): seq<byte> {
    if pieces == [] then []
    else Join(pieces[..|pieces| - 1]) + pieces[|pieces| - 1].header + pieces[|pieces| - 1].data
  }

  /** The markers of scan k, and data that decodes to exactly its MCUs. */
  ghost predicate Decodes(im: Image, headers: nat -> seq<byte>, k: nat, p: Piece)
    requires im.Legal() && k < im.settings.NumScans()
  {
    && im.Codable(k) && p.header == headers(k) && Ready(im.CfgAt(k), p.tables)
    && DecodeScan(im.CfgAt(k), p.tables, p.data, |im.McusAt(k)|) == Some(ZigzagAll(im.CfgAt(k), im.McusAt(k)))
  }

  ghost predicate AllDecode(im: Image, headers: nat -> seq<byte>, pieces: seq<Piece>)
    requires im.Legal()
  {
    && |pieces| <= im.settings.NumScans()
    && forall k :: 0 <= k < |pieces| ==> Decodes(im, headers, k, pieces[k])
  }

  /** The destination has taken these pieces. */
  ghost predicate Sent(dest: Destination, base: seq<byte>, pieces: seq<Piece>)
    reads dest, dest.buffer
  {
    dest.Valid() && !dest.suspends && dest.Committed() == base + Join(pieces)
  }

  lemma OneMorePiece(base: seq<byte>, pieces: seq<Piece>, p: Piece)
    ensures base + Join(pieces + [p]) == base + Join(pieces) + p.header + p.data
  {
    assert (pieces + [p])[..|pieces|] == pieces;
  }

  // ---------- the state between passes ----------

  /** The other modules raise no objections of their own. */
  function Willing(): seq<Event> -> Answer {
    (log: seq<Event>) => Accepted
  }

  /** Master control works on the image. */
  ghost predicate Mastered(im: Image, m: Compressor)
    reads m
  {
    m.settings == im.settings && m.says == Willing() && m.OnPlan() && m.optimizeCoding && !m.plan.transcode
  }

  /** All of the image is in the buffer. */
  ghost predicate Buffered(im: Image, c: CoefController)
    reads c.wholeImage
    requires im.Legal()
  {
    im.settings.FrameIsLegal(false);
    && c.mcuBuffer.Length == C_MAX_BLOCKS_IN_MCU && c.HasImage(im.Picture())
    && c.Loaded(im.Picture(), im.settings.FrameOf().totalIMcuRows)
  }

  /** No two modules share memory. */
  ghost predicate Separate(c: CoefController, dest: Destination, counts: seq<array<nat>>) {
    && CountArrays(counts) && c.mcuBuffer != (dest.buffer as object)
    && (forall i :: 0 <= i < 8 ==> counts[i] as object != c.mcuBuffer as object)
    && (forall i :: 0 <= i < 8 ==> counts[i] as object != dest.buffer as object)
  }

  /** The tables are made for scan k. */
  ghost predicate MadeFor(im: Image, k: nat, tbls: seq<Option<HuffTable>>)
    requires im.Legal() && k < im.settings.NumScans()
  {
    im.Codable(k) && BestTables(im.CfgAt(k), im.McusAt(k), tbls)
  }

  ghost predicate AllSeen(im: Image)
    requires im.Legal()
  {
    forall k: nat :: k < im.settings.NumScans() ==> im.CountsAreSeen(k)
  }

  /** If the other modules do not object, only arithmetic coding or the parameters of a scan can stop a run. */
  lemma OnlySetUpStops(im: Image, m: Compressor, r: Option<ApiError>)
    requires im.Legal() && m.settings == im.settings && m.says == Willing() && m.Settled() && !m.plan.transcode
    requires m.plan.Stopped(m.says, m.log, m.plan.Run(), r)
    ensures !im.CanCompress()
  {
    hide Plan.Run, Plan.Smooth, Plan.Stopped, Settings.PlanFor, Image.Codable, Settings.SetUpError, Unfit;
    m.PlanIs();
    im.settings.PlanIs(false);
    m.plan.StoppedIsUnique(m.says, m.log, m.log, m.plan.Run(), r, r);
    m.plan.OnlySetUpStops(m.says);
    if !im.settings.arithCode {
      var k: nat :| k < m.plan.NumScans() && m.plan.setUp[k].Some?;
      assert !im.Fits(k);
      im.CodableFits(k);
    }
  }

  /** A sequential script refines nothing: with optimisation every scan has its statistics pass. */
  lemma AlwaysGathers(im: Image, m: Compressor, k: nat)
    requires im.Legal() && Mastered(im, m) && k < m.plan.NumScans()
    ensures m.plan.Gathers(k)
  {
    m.PlanIs();
    if im.settings.script.Some? {
      assert im.settings.script.value[k].ah == 0;
    }
  }

  // ---------- the passes ----------

  /** Markers: the frame and scan headers. */
  method WriteMarkers(dest: Destination, bytes: seq<byte>)
    requires dest.Valid() && !dest.suspends
    modifies dest, dest.buffer
    ensures dest.Valid() && dest.Committed() == old(dest.Committed()) + bytes
  {
    for i := 0 to |bytes|
      invariant dest.Valid() && dest.Committed() == old(dest.Committed()) + bytes[..i]
    {
      var ok := dest.EmitMarkerByte(bytes[i]);
      assert bytes[..i + 1] == bytes[..i] + [bytes[i]];
    }
    assert bytes[..|bytes|] == bytes;
  }

  /** What master control has set up is scan k. */
  lemma SetUpIs(im: Image, m: Compressor)
    requires im.Legal() && Mastered(im, m) && m.ScanIsSetUp()
    ensures m.scanNumber < im.settings.NumScans() && m.frame == im.settings.FrameOf() && im.Fits(m.scanNumber)
    ensures forall i :: 0 <= i < |m.cur| ==> m.cur[i] < |im.dcTbl|
    ensures im.JobFor(m.frame, m.cur, m.scan) == im.JobAt(m.scanNumber)
    ensures im.CfgFor(m.cur, m.scan) == im.CfgAt(m.scanNumber)
  {
    im.JobIs(m.scanNumber, m.cur, m.scan);
  }

  /** The image in the buffer can be used for scan k, and after that for any other. */
  lemma BufferForScan(im: Image, c: CoefController, k: nat)
    requires im.Legal() && k < im.settings.NumScans() && im.Fits(k)
    ensures c.mcuBuffer.Length == C_MAX_BLOCKS_IN_MCU ==> (Buffered(im, c) <==> Startable(FromBuffer, im.JobAt(k), c))
  {
    im.settings.FrameIsLegal(false);
    var a, b, n := im.Picture(), im.JobAt(k), im.settings.FrameOf().totalIMcuRows;
    if c.HasImage(a) && c.Loaded(a, n) {
      SameImage(c, a, b, n);
    }
    if c.HasImage(b) && c.Loaded(b, n) {
      SameImage(c, b, a, n);
    }
  }

  /** The statistics of the current scan, and the tables made from them. */
  method TablesForScan(mode: Mode, im: Image, m: Compressor, c: CoefController, counts: seq<array<nat>>,
                       tbls: seq<Option<HuffTable>>) returns (ok: bool, made: seq<Option<HuffTable>>)
    requires im.Legal() && Mastered(im, m) && m.ScanIsSetUp() && AllSeen(im)
    requires c.mcuBuffer.Length == C_MAX_BLOCKS_IN_MCU && TablesShaped(tbls) && mode != FromInput
    requires mode == FromBuffer ==> Buffered(im, c)
    requires im.settings.FrameOf().Valid() && c.HasImage(im.Picture())
    requires CountArrays(counts) && forall i :: 0 <= i < 8 ==> counts[i] as object != c.mcuBuffer as object
    modifies c, c.mcuBuffer, c.wholeImage, counts
    ensures ok ==> Buffered(im, c) && TablesShaped(made) && MadeFor(im, m.scanNumber, made)
    ensures !ok ==> !im.CanCompress()
  {
    hide CoefController.Loaded, AllInRange, FitAll, Job.AllMcus, TablesShaped, Unfit, BestTables, AcCountsFit,
         Image.ScanAt, Settings.Cur, Settings.FrameOf, CoefController.HasImage, Mastered, Compressor.ScanIsSetUp,
         Buffered;
    SetUpIs(im, m);
    ghost var k := m.scanNumber;
    var job, cfg := im.JobFor(m.frame, m.cur, m.scan), im.CfgFor(m.cur, m.scan);
    BufferForScan(im, c, k);
    ImageFits(im, c, k);
    SeenAt(im, k);
    DcCountsFit(job, cfg);
    var t := MakeTables(mode, job, cfg, c, counts, tbls);
    BufferForScan(im, c, k);
    if t.None? {
      UnfitStops(im, k);
      return false, tbls;
    }
    ok, made := true, t.value;
  }

  lemma ImageFits(im: Image, c: CoefController, k: nat)
    requires im.Legal() && k < im.settings.NumScans() && im.Fits(k) && im.settings.FrameOf().Valid()
    ensures c.HasImage(im.Picture()) <==> c.HasImage(im.JobAt(k))
  {
  }

  lemma SeenAt(im: Image, k: nat)
    requires im.Legal() && AllSeen(im) && k < im.settings.NumScans() && im.Fits(k)
    ensures AcCountsFit(im.CfgAt(k), im.JobAt(k).AllMcus())
  {
    assert im.CountsAreSeen(k);
  }

  lemma UnfitStops(im: Image, k: nat)
    requires im.Legal() && k < im.settings.NumScans() && im.Fits(k)
    requires Unfit(im.CfgAt(k), im.JobAt(k).AllMcus())
    ensures !im.CanCompress()
  {
    assert !im.Codable(k);
  }

  /** The output of the current scan from the buffer: its markers, and data that decodes to its MCUs. */
  method SendScan(im: Image, m: Compressor, c: CoefController, dest: Destination, tbls: seq<Option<HuffTable>>,
                  headers: nat -> seq<byte>, ghost base: seq<byte>, ghost pieces: seq<Piece>)
      returns (ghost piece: Piece)
    requires im.Legal() && Mastered(im, m) && m.ScanIsSetUp() && Buffered(im, c) && Sent(dest, base, pieces)
    requires TablesShaped(tbls) && MadeFor(im, m.scanNumber, tbls) && c.mcuBuffer != (dest.buffer as object)
    modifies c, c.mcuBuffer, dest, dest.buffer
    ensures Buffered(im, c) && Sent(dest, base, pieces + [piece]) && Decodes(im, headers, m.scanNumber, piece)
  {
    hide CoefController.Loaded, AllInRange, FitAll, Job.AllMcus, TablesShaped, BestTables, SafeTables, DecodeScan,
         Image.ScanAt, Settings.Cur, Settings.FrameOf, CoefController.HasImage, Mastered, Compressor.ScanIsSetUp,
         Buffered, Decodes, Unfit, Ready, ZigzagAll;
    SetUpIs(im, m);
    ghost var k := m.scanNumber;
    var job, cfg := im.JobFor(m.frame, m.cur, m.scan), im.CfgFor(m.cur, m.scan);
    BufferForScan(im, c, k);
    BufferLength(im, c);
    WriteMarkers(dest, headers(m.scanNumber));
    ghost var before := dest.Committed();
    var tables := EncodeScan(job, cfg, c, dest, tbls);
    piece := Piece(headers(k), dest.Committed()[|before|..], tables);
    OneMorePiece(base, pieces, piece);
    PieceDecodes(im, headers, k, piece);
  }

  lemma PieceDecodes(im: Image, headers: nat -> seq<byte>, k: nat, p: Piece)
    requires im.Legal() && k < im.settings.NumScans() && im.Codable(k) && p.header == headers(k)
    requires Ready(im.CfgAt(k), p.tables)
    requires DecodeScan(im.CfgAt(k), p.tables, p.data, |im.JobAt(k).AllMcus()|)
             == Some(ZigzagAll(im.CfgAt(k), im.JobAt(k).AllMcus()))
    ensures Decodes(im, headers, k, p)
  {
  }

  lemma BufferLength(im: Image, c: CoefController)
    requires im.Legal() && Buffered(im, c)
    ensures c.mcuBuffer.Length == C_MAX_BLOCKS_IN_MCU
  {
  }

  // ---------- the turns of the run ----------

  /** A pass that master control has begun is over: its rows, and the end of the pass. */
  method EndPass(im: Image, m: Compressor) returns (r: Option<ApiError>)
    requires im.Legal() && Mastered(im, m) && m.InPass(m.log)
    modifies m
    ensures r.None? ==> Mastered(im, m) && m.isLastPass == old(m.isLastPass) && m.passNumber == old(m.passNumber) + 1
    ensures m.totalPasses == old(m.totalPasses)
    ensures r.None? ==> if m.isLastPass then m.AllDone() else m.BetweenPasses()
    ensures r.None? ==> m.passType == if old(m.passType) == OutputPass then HuffOptPass else OutputPass
    ensures r.None? ==> m.scanNumber == old(m.scanNumber) + if old(m.passType) == OutputPass then 1 else 0
    ensures r.Some? ==> !im.CanCompress()
  {
    hide Image.CanCompress, Image.Legal, Plan.Stopped, Compressor.InPass, Compressor.BetweenPasses, Compressor.AllDone;
    ghost var start := m.log;
    MasterState(im, m);
    r := m.DoRows(start);
    if r.Some? {
      OnlySetUpStops(im, m, r);
      return;
    }
    r := m.FinishPassMaster(start);
    if r.Some? {
      OnlySetUpStops(im, m, r);
      return;
    }
    StateAfter(im, m);
  }

  lemma MasterState(im: Image, m: Compressor)
    requires Mastered(im, m)
    ensures m.settings == im.settings && m.says == Willing() && m.Settled() && m.optimizeCoding && !m.plan.transcode
  {
  }

  lemma StateAfter(im: Image, m: Compressor)
    requires m.settings == im.settings && m.says == Willing() && m.optimizeCoding && !m.plan.transcode
    requires if m.isLastPass then m.AllDone() else m.BetweenPasses()
    ensures Mastered(im, m)
  {
  }

  /** The statistics pass of a scan after the first. */
  method GatherTurn(im: Image, m: Compressor, c: CoefController, counts: seq<array<nat>>, tbls: seq<Option<HuffTable>>)
      returns (r: Option<ApiError>, made: seq<Option<HuffTable>>)
    requires im.Legal() && Mastered(im, m) && m.BetweenPasses() && m.passType == HuffOptPass
    requires Buffered(im, c) && AllSeen(im) && TablesShaped(tbls)
    requires CountArrays(counts) && forall i :: 0 <= i < 8 ==> counts[i] as object != c.mcuBuffer as object
    modifies m, c, c.mcuBuffer, c.wholeImage, counts
    ensures r.None? ==> Mastered(im, m) && m.BetweenPasses() && m.passType == OutputPass && !m.isLastPass
    ensures r.None? ==> m.scanNumber == old(m.scanNumber) && m.passNumber > old(m.passNumber)
    ensures m.totalPasses == old(m.totalPasses)
    ensures r.None? ==> Buffered(im, c) && TablesShaped(made) && MadeFor(im, m.scanNumber, made)
    ensures r.Some? ==> !im.CanCompress()
  {
    hide *;
    MasterState(im, m);
    ScanToCome(im, m);
    BufferHas(im, c);
    made := tbls;
    r := m.PrepareForPass();
    if r.Some? {
      OnlySetUpStops(im, m, r);
      return;
    }
    PassBegun(im, m);
    var ok;
    ok, made := TablesForScan(FromBuffer, im, m, c, counts, tbls);
    if !ok {
      r := Some(ModuleError);
      return;
    }
    r := EndPass(im, m);
  }

  lemma BufferHas(im: Image, c: CoefController)
    requires im.Legal() && Buffered(im, c)
    ensures im.settings.FrameOf().Valid() && c.HasImage(im.Picture()) && c.mcuBuffer.Length == C_MAX_BLOCKS_IN_MCU
  {
    im.settings.FrameIsLegal(false);
  }

  lemma ScanToCome(im: Image, m: Compressor)
    requires im.Legal() && Mastered(im, m) && m.BetweenPasses()
    ensures m.scanNumber < im.settings.NumScans() && m.scanNumber < m.plan.NumScans() && m.plan.Gathers(m.scanNumber)
    ensures m.passNumber < m.totalPasses
  {
    m.PlanIs();
    AlwaysGathers(im, m, m.scanNumber);
    m.plan.Numbers(m.scanNumber);
  }

  lemma PassBegun(im: Image, m: Compressor)
    requires m.settings == im.settings && m.says == Willing() && m.optimizeCoding && !m.plan.transcode
             && m.InPass(m.log)
    ensures Mastered(im, m) && m.ScanIsSetUp()
    ensures m.isLastPass <==> m.passType == OutputPass && m.scanNumber + 1 == m.plan.NumScans()
  {
  }

  /** The output pass of a scan. */
  method OutputTurn(im: Image, m: Compressor, c: CoefController, dest: Destination, tbls: seq<Option<HuffTable>>,
                    headers: nat -> seq<byte>, ghost base: seq<byte>, ghost pieces: seq<Piece>)
      returns (r: Option<ApiError>, ghost next: seq<Piece>)
    requires im.Legal() && Mastered(im, m) && m.BetweenPasses() && m.passType == OutputPass
    requires Buffered(im, c) && c.mcuBuffer != (dest.buffer as object)
    requires TablesShaped(tbls) && MadeFor(im, m.scanNumber, tbls)
    requires Sent(dest, base, pieces) && AllDecode(im, headers, pieces) && |pieces| == m.scanNumber
    modifies m, c, c.mcuBuffer, dest, dest.buffer
    ensures r.None? ==> Mastered(im, m) && (if m.isLastPass then m.AllDone() else m.BetweenPasses())
    ensures r.None? ==> m.passType == HuffOptPass && m.passNumber > old(m.passNumber)
    ensures m.totalPasses == old(m.totalPasses)
    ensures r.None? ==> Buffered(im, c) && Sent(dest, base, next)
    ensures r.None? ==> AllDecode(im, headers, next) && |next| == m.scanNumber
    ensures r.Some? ==> !im.CanCompress()
  {
    hide *;
    MasterState(im, m);
    ScanToCome(im, m);
    next := pieces;
    r := m.PrepareForPass();
    if r.Some? {
      OnlySetUpStops(im, m, r);
      return;
    }
    PassBegun(im, m);
    ghost var piece := SendScan(im, m, c, dest, tbls, headers, base, pieces);
    next := pieces + [piece];
    OneMoreDecodes(im, headers, pieces, piece);
    r := EndPass(im, m);
  }

  lemma OneMoreDecodes(im: Image, headers: nat -> seq<byte>, pieces: seq<Piece>, p: Piece)
    requires im.Legal() && AllDecode(im, headers, pieces) && |pieces| < im.settings.NumScans()
    requires Decodes(im, headers, |pieces|, p)
    ensures AllDecode(im, headers, pieces + [p])
  {
    hide Decodes, Image.Legal;
    var next := pieces + [p];
    forall k | 0 <= k < |next| ensures Decodes(im, headers, k, next[k]) {
      assert k < |pieces| ==> Decodes(im, headers, k, pieces[k]);
    }
  }

  /** The main pass: the image is loaded, and the statistics of the first scan are made. */
  method MainTurn(im: Image, m: Compressor, c: CoefController, counts: seq<array<nat>>, tbls: seq<Option<HuffTable>>)
      returns (r: Option<ApiError>, made: seq<Option<HuffTable>>)
    requires im.Legal() && Mastered(im, m) && m.globalState == Scanning && m.InMainPass() && m.nextScanline == 0
    requires im.settings.FrameOf().Valid() && c.HasImage(im.Picture()) && c.mcuBuffer.Length == C_MAX_BLOCKS_IN_MCU
    requires AllSeen(im) && TablesShaped(tbls)
    requires CountArrays(counts) && forall i :: 0 <= i < 8 ==> counts[i] as object != c.mcuBuffer as object
    modifies m, c, c.mcuBuffer, c.wholeImage, counts
    ensures r.None? ==> Mastered(im, m) && m.BetweenPasses() && m.passType == OutputPass && !m.isLastPass
    ensures r.None? ==> m.scanNumber == 0
    ensures r.None? ==> Buffered(im, c) && TablesShaped(made) && MadeFor(im, m.scanNumber, made)
    ensures r.Some? ==> !im.CanCompress()
  {
    hide *;
    MasterState(im, m);
    MainBegun(im, m);
    var ok;
    ok, made := TablesForScan(LoadAndSend, im, m, c, counts, tbls);
    if !ok {
      r := Some(ModuleError);
      return;
    }
    var n;
    r, n := m.WriteScanlines(im.settings.height, im.settings.height);
    if r.Some? {
      StoppedInMain(im, m, r, n);
      return;
    }
    MainDelivered(m);
    r := m.FinishMainPass();
    if r.Some? {
      OnlySetUpStops(im, m, r);
      return;
    }
    StateAfter(im, m);
  }

  lemma MainBegun(im: Image, m: Compressor)
    requires im.Legal() && Mastered(im, m) && m.InMainPass()
    ensures m.ScanIsSetUp() && m.scanNumber == 0 && !m.isLastPass
    ensures var h := im.settings.height; Least(h, Least(h, h)) == h
    ensures m.plan.Valid() && m.plan.height == im.settings.height
  {
    m.PlanIs();
  }

  lemma MainDelivered(m: Compressor)
    requires m.InMainPass()
    ensures m.nextScanline <= m.settings.height
  {
  }

  lemma StoppedInMain(im: Image, m: Compressor, r: Option<ApiError>, n: nat)
    requires im.Legal() && m.settings == im.settings && m.says == Willing() && m.Settled() && !m.plan.transcode
    requires m.plan.Valid() && m.plan.height == im.settings.height
    requires m.plan.Stopped(m.says, m.log, m.plan.MainPart(im.settings.height), r)
    ensures !im.CanCompress()
  {
    hide Image.CanCompress, Plan.Stopped, Plan.MainPart, Plan.Run;
    m.plan.MainInRun(im.settings.height);
    m.plan.StoppedInPart(m.says, m.log, m.plan.MainPart(im.settings.height), m.plan.Run(), r);
    OnlySetUpStops(im, m, r);
  }

  method NewCounts() returns (counts: seq<array<nat>>)
    ensures CountArrays(counts) && |counts| == 8 && forall i :: 0 <= i < |counts| ==> fresh(counts[i])
  {
    counts := [];
    for i := 0 to 8
      invariant |counts| == i && forall j :: 0 <= j < i ==> fresh(counts[j]) && counts[j].Length == 257
      invariant forall j, k :: 0 <= j < k < i ==> counts[j] != counts[k]
    {
      var a := new nat[257](_ => 0);
      counts := counts + [a];
    }
  }

  lemma NothingSent(im: Image, headers: nat -> seq<byte>, dest: Destination)
    requires im.Legal() && dest.Valid() && !dest.suspends
    ensures dest.nextOutputByte <= dest.buffer.Length
    ensures Sent(dest, dest.Committed(), []) && AllDecode(im, headers, [])
  {
    assert dest.Committed() + [] == dest.Committed();
  }

  /** A whole image. It is compressed exactly if its settings are legal and every scan can be coded. Then the events are
      the planned ones, and the output is, scan by scan and in order, the scan's markers and data that decodes to
      exactly its MCUs. */
  method CompressWhole(im: Image, headers: nat -> seq<byte>, dest: Destination, tbls: seq<Option<HuffTable>>)
      returns (r: Option<ApiError>, ghost pieces: seq<Piece>, m: Compressor)
    requires im.Valid() && dest.Valid() && !dest.suspends && TablesShaped(tbls)
    requires im.Legal() ==> AllSeen(im)
    modifies dest, dest.buffer
    ensures r.None? <==> im.CanCompress()
    ensures r.None? ==> Sent(dest, old(dest.Committed()), pieces)
    ensures r.None? ==> AllDecode(im, headers, pieces) && |pieces| == im.settings.NumScans()
    ensures r.None? ==> m.log == im.settings.PlanFor(false).Run()
  {
    hide *;
    pieces := [];
    m := new Compressor(im.settings, Willing());
    r := m.StartCompress();
    if r.Some? {
      NotStarted(im, m, r);
      return;
    }
    Started(im, m);
    var c := new CoefController.FullImage(im.JobFor(m.frame, m.cur, m.scan));
    var counts := NewCounts();
    NewBuffer(im, m, c);
    KeptApart(c, dest, counts);
    NothingSent(im, headers, dest);
    ghost var base := dest.Committed();
    var made;
    r, made := MainTurn(im, m, c, counts, tbls);
    if r.Some? {
      return;
    }
    r, pieces := LaterTurns(im, m, c, dest, counts, made, headers, base);
    if r.Some? {
      return;
    }
    Ended(im, m, headers, pieces);
    r := m.Do(Trailer);
    TrailerIsLast(im, m, headers, pieces, r);
  }

  /** The loop of jpeg_finish_compress. */
  method LaterTurns(im: Image, m: Compressor, c: CoefController, dest: Destination, counts: seq<array<nat>>,
                    first: seq<Option<HuffTable>>, headers: nat -> seq<byte>, ghost base: seq<byte>)
      returns (r: Option<ApiError>, ghost pieces: seq<Piece>)
    requires im.Legal() && AllSeen(im) && Mastered(im, m) && m.BetweenPasses() && m.passType == OutputPass
             && !m.isLastPass
    requires m.scanNumber == 0 && Buffered(im, c) && TablesShaped(first) && MadeFor(im, 0, first)
    requires Sent(dest, base, []) && AllDecode(im, headers, []) && Separate(c, dest, counts)
    modifies m, c, c.mcuBuffer, c.wholeImage, counts, dest, dest.buffer
    ensures r.None? ==> Mastered(im, m) && m.AllDone()
    ensures r.None? ==> Sent(dest, base, pieces) && AllDecode(im, headers, pieces) && |pieces| == m.scanNumber
    ensures r.Some? ==> !im.CanCompress()
  {
    hide *;
    Apart(c, dest, counts);
    ScanToCome(im, m);
    pieces := [];
    r := None;
    var tbls := first;
    while !m.isLastPass
      invariant r.None? && Mastered(im, m) && (if m.isLastPass then m.AllDone() else m.BetweenPasses())
      invariant !m.isLastPass ==> m.passType == OutputPass || m.passType == HuffOptPass
      invariant Buffered(im, c) && TablesShaped(tbls)
      invariant Sent(dest, base, pieces) && AllDecode(im, headers, pieces) && |pieces| == m.scanNumber
      invariant !m.isLastPass && m.passType == OutputPass ==>
                  m.scanNumber < im.settings.NumScans() && MadeFor(im, m.scanNumber, tbls)
      decreases !m.isLastPass, m.totalPasses - m.passNumber
    {
      ScanToCome(im, m);
      if m.passType == HuffOptPass {
        r, tbls := GatherTurn(im, m, c, counts, tbls);
      } else {
        r, pieces := OutputTurn(im, m, c, dest, tbls, headers, base, pieces);
      }
      if r.Some? {
        return;
      }
    }
  }

  lemma KeptApart(c: CoefController, dest: Destination, counts: seq<array<nat>>)
    requires CountArrays(counts) && c.mcuBuffer != (dest.buffer as object) && |counts| == 8
    requires forall i :: 0 <= i < |counts| ==>
               counts[i] as object != c.mcuBuffer as object && counts[i] as object != dest.buffer as object
    ensures Separate(c, dest, counts)
  {
  }

  lemma Apart(c: CoefController, dest: Destination, counts: seq<array<nat>>)
    requires Separate(c, dest, counts)
    ensures CountArrays(counts) && c.mcuBuffer != (dest.buffer as object) && |counts| == 8
    ensures forall i :: 0 <= i < 8 ==> counts[i] as object != c.mcuBuffer as object
    ensures forall i :: 0 <= i < 8 ==> counts[i] as object != dest.buffer as object
  {
  }

  lemma NotStarted(im: Image, m: Compressor, r: Option<ApiError>)
    requires im.Valid() && r.Some? && m.settings == im.settings && m.says == Willing()
    requires r == Some(BadImage) ==> !im.settings.ImageIsLegal(false)
    requires r == Some(BadScript) ==> !im.settings.ScriptIsLegal()
    requires r != Some(BadImage) && r != Some(BadScript) ==>
               m.Settled() && !m.plan.transcode && m.plan.Stopped(m.says, m.log, m.plan.MainStart(), r)
    ensures !im.CanCompress()
  {
    if r != Some(BadImage) && r != Some(BadScript) {
      hide Image.CanCompress, Plan.Stopped, Plan.MainStart, Plan.Run;
      m.PlanIs();
      m.plan.MainInRun(0);
      m.plan.StoppedInPart(m.says, m.log, m.plan.MainStart(), m.plan.Run(), r);
      OnlySetUpStops(im, m, r);
    }
  }

  lemma Started(im: Image, m: Compressor)
    requires im.Valid() && m.settings == im.settings && m.says == Willing() && m.InMainPass()
    ensures im.Legal() && Mastered(im, m) && m.frame == im.settings.FrameOf() && m.frame.Valid()
    ensures im.JobFor(m.frame, m.cur, m.scan).frame == m.frame
  {
    m.PlanIs();
    im.settings.FrameIsLegal(false);
  }

  lemma NewBuffer(im: Image, m: Compressor, c: CoefController)
    requires im.Legal() && m.frame == im.settings.FrameOf() && m.frame.Valid()
    requires c.HasImage(im.JobFor(m.frame, m.cur, m.scan))
    ensures c.HasImage(im.Picture())
  {
  }

  lemma Ended(im: Image, m: Compressor, headers: nat -> seq<byte>, pieces: seq<Piece>)
    requires im.Legal() && Mastered(im, m) && m.AllDone() && AllDecode(im, headers, pieces) && |pieces| == m.scanNumber
    ensures |pieces| == im.settings.NumScans() && m.plan.Smooth(m.says, m.log)
    ensures m.log + [Trailer] == m.plan.Run() && m.says == Willing() && m.Settled() && !m.plan.transcode
  {
    m.PlanIs();
  }

  lemma TrailerIsLast(im: Image, m: Compressor, headers: nat -> seq<byte>, pieces: seq<Piece>, r: Option<ApiError>)
    requires im.Legal() && m.settings == im.settings && m.says == Willing() && m.Settled() && !m.plan.transcode
    requires AllDecode(im, headers, pieces) && |pieces| == im.settings.NumScans() && m.plan.Smooth(m.says, m.log)
    requires if r.None? then m.log == m.plan.Run()
             else m.log + [Trailer] == m.plan.Run() && r == m.plan.Reply(m.says, m.log, Trailer)
    ensures r.None? && im.CanCompress() && m.log == im.settings.PlanFor(false).Run()
  {
    hide Plan.Run, Plan.Smooth;
    m.PlanIs();
    if r.None? {
      m.plan.WhenSmooth(m.says);
      forall k: nat | k < im.settings.NumScans() ensures im.Codable(k) {
        assert Decodes(im, headers, k, pieces[k]);
      }
    }
  }
}
