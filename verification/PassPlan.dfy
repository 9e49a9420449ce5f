/** What a run of the compressor consists of: the passes over the scans of an image, and everything the master control
    asks of the other modules in them, in order. */
module PassPlan {
  import opened Sequences
  import opened CanonicalCode
  import opened Geometry
  import opened ScanScript

  /** What the master and the interface have the other modules do. */
  datatype Event =
    | Preprocessing                        // color conversion, downsampling and DCT are set up
    | EntropyModule                        // the entropy coder is set up
    | FileHeader                           // the other modules and all memory are set up, and SOI is written
    | SetUp(scan: nat)                     // the parameters of a scan are computed
    | StartPass(scan: nat, gather: bool)   // entropy and coefficient modules start a pass over a scan
    | FrameHeader
    | ScanHeader(scan: nat)
    | Line(n: nat)                         // the application's scanline n is compressed
    | IMcuRow(n: nat)                      // iMCU row n is compressed from the coefficient buffer
    | FinishPass                           // the entropy module ends the pass
    | Trailer

  /** What another module does about it: a destination may refuse, and anything may stop with an error of its own. */
  datatype Answer = Accepted | Refused | Broken

  datatype ApiError =
    | BadState | BadImage | BadScript | ArithNotImplemented | TooManyComponents | BadMcuSize | TooLittleData
    | CantSuspend | ModuleError

  /** The errors that a run can stop with once image and script are accepted. */
  predicate StopsRun(e: ApiError) {
    e in {ArithNotImplemented, TooManyComponents, BadMcuSize, CantSuspend, ModuleError}
  }

  type SetUpResult = e: Option<ApiError> | e.None? || e == Some(TooManyComponents) || e == Some(BadMcuSize) witness None

  datatype PassType = MainPass | HuffOptPass | OutputPass

  // ---------- the settings of an image ----------

  datatype Settings = Settings(width: nat, height: nat, inputComponents: nat, precision: nat, sampling: seq<Sampling>,
                               script: Option<seq<ScanInfo>>, arithCode: bool, optimize: bool, restartInRows: nat,
                               restartInterval: nat) {

    /** Does initial_setup accept the image? Transcoding takes no samples. */
    ghost predicate ImageIsLegal(transcode: bool) {
      LegalImage(width, height, if transcode then 1 else inputComponents, precision, sampling)
    }

    /** Does validate_script accept the script? */
    ghost predicate ScriptIsLegal() {
      script.None? || Progressive(|sampling|, script.value) || Sequential(|sampling|, script.value)
    }

    ghost predicate IsProgressive() {
      script.Some? && Progressive(|sampling|, script.value)
    }

    ghost predicate Legal(transcode: bool) {
      ImageIsLegal(transcode) && ScriptIsLegal()
    }

    function FrameOf(): Frame {
      FrameFor(width, height, sampling)
    }

    function NumScans(): nat {
      if script.None? then 1 else |script.value|
    }

    /** The components of a scan. */
    function Cur(k: nat): (cur: seq<nat>)
      requires k < NumScans()
    {
      if script.None? then seq(|sampling|, i => i)
      else seq(|script.value[k].comps|, i requires 0 <= i < |script.value[k].comps| =>
                 if script.value[k].comps[i] < 0 then 0 else script.value[k].comps[i])
    }

    /** Its components are components of the frame. */
    lemma CurInFrame(k: nat)
      requires Legal(true) || Legal(false)
      requires k < NumScans()
      ensures forall i :: 0 <= i < |Cur(k)| ==> Cur(k)[i] < |FrameOf().comps|
      ensures 1 <= |Cur(k)| && (script.Some? ==> |Cur(k)| <= MAX_COMPS_IN_SCAN)
      ensures script.Some? ==> forall i :: 0 <= i < |Cur(k)| ==> Cur(k)[i] == script.value[k].comps[i]
    {
      if script.Some? {
        assert LegalComps(|sampling|, script.value[k].comps);
      }
    }

    lemma FrameIsLegal(transcode: bool)
      requires Legal(transcode)
      ensures FrameOf().Valid() && |FrameOf().comps| == |sampling|
    {
      FrameIsValid(width, height, sampling);
    }

    /** What is wrong with the parameters of a scan: without a script all components go into one scan, and the blocks
        of an interleaved MCU are limited. */
    ghost function SetUpError(k: nat): SetUpResult
      requires Legal(true) || Legal(false)
      requires k < NumScans()
    {
      CurInFrame(k);
      if |Cur(k)| > MAX_COMPS_IN_SCAN then Some(TooManyComponents)
      else if |Cur(k)| > 1 && McuBlocks(FrameOf(), Cur(k), |Cur(k)|) > C_MAX_BLOCKS_IN_MCU then Some(BadMcuSize)
      else None
    }

    /** refinement[k]: is scan k a DC refinement scan? */
    function Refinements(): (r: seq<bool>)
      ensures |r| == NumScans()
    {
      if script.None? then [false]
      else seq(|script.value|, k requires 0 <= k < |script.value| =>
                 script.value[k].ss == 0 && script.value[k].ah != 0 && !arithCode)
    }

    /** The plan for the image. A progressive script forces optimisation. */
    ghost function PlanFor(transcode: bool): (p: Plan)
      requires Legal(transcode)
      ensures p.Valid()
    {
      FirstIsNoRefinement(transcode);
      FrameIsLegal(transcode);
      ComponentFillsMcus(FrameOf(), 0);
      Plan(height, FrameOf().totalIMcuRows, optimize || IsProgressive(), transcode, arithCode, Refinements(),
           seq(NumScans(), k requires 0 <= k < NumScans() => SetUpError(k)))
    }

    lemma PlanIs(transcode: bool)
      requires Legal(transcode)
      ensures var p := PlanFor(transcode);
              && p.Valid() && p.height == height && p.iMcuRows == FrameOf().totalIMcuRows && p.arith == arithCode
              && p.transcode == transcode && p.optimize == (optimize || IsProgressive())
              && p.refinement == Refinements() && p.NumScans() == NumScans()
              && (forall k: nat :: k < NumScans() ==> p.setUp[k] == SetUpError(k))
              && p.TotalPasses() == if p.optimize then NumScans() * 2 else NumScans()
    {
    }

    /** The first scan of a legal script never refines anything. */
    lemma FirstIsNoRefinement(transcode: bool)
      requires Legal(transcode)
      ensures NumScans() >= 1 && !Refinements()[0]
    {
      if script.Some? {
        var n := |sampling|;
        FirstScan(n, script.value);
        if Progressive(n, script.value) && script.value[0].ss == 0 {
          assert LegalProgression(script.value[0]) && LegalComps(n, script.value[0].comps);
          assert FirstFor(script.value, 0, script.value[0].comps[0], 0);
        }
      }
    }
  }

  // ---------- the plan of a run ----------

  /** What stays the same during one image. */
  datatype Plan = Plan(height: nat, iMcuRows: nat, optimize: bool, transcode: bool, arith: bool, refinement: seq<bool>,
                       setUp: seq<SetUpResult>) {
    predicate Valid() {
      height >= 1 && iMcuRows >= 1 && |refinement| >= 1 && !refinement[0] && |setUp| == |refinement|
    }

    function NumScans(): nat {
      |refinement|
    }

    /** Before the first scan. */
    function Preamble(): seq<Event> {
      (if transcode then [] else [Preprocessing]) + [EntropyModule, FileHeader]
    }

    function Lines(n: nat): seq<Event> {
      if n == 0 then [] else Lines(n - 1) + [Line(n - 1)]
    }

    function Rows(n: nat): seq<Event> {
      if n == 0 then [] else Rows(n - 1) + [IMcuRow(n - 1)]
    }

    /** Only the very first pass takes its data from the application. */
    function Data(fromApplication: bool): seq<Event> {
      if fromApplication then Lines(height) else Rows(iMcuRows)
    }

    predicate Gathers(k: nat)
      requires k < NumScans()
    {
      optimize && !refinement[k]
    }

    /** The statistics pass of a scan. */
    function GatherEvents(k: nat): seq<Event> {
      [StartPass(k, true)] + Data(k == 0 && !transcode) + [FinishPass]
    }

    function Headers(k: nat): seq<Event> {
      (if k == 0 then [FrameHeader] else []) + [ScanHeader(k)]
    }

    /** The output pass of a scan. */
    function OutputEvents(k: nat): seq<Event> {
      [StartPass(k, false)] + Headers(k) + Data(k == 0 && !transcode && !optimize) + [FinishPass]
    }

    /** What comes before the output pass of a scan. */
    function BeforeOutput(k: nat): seq<Event>
      requires k < NumScans()
    {
      [SetUp(k)] + if Gathers(k) then GatherEvents(k) else []
    }

    function ScanEvents(k: nat): seq<Event>
      requires k < NumScans()
    {
      BeforeOutput(k) + OutputEvents(k)
    }

    function ScansBefore(k: nat): seq<Event>
      requires k <= NumScans()
    {
      if k == 0 then Preamble() else ScansBefore(k - 1) + ScanEvents(k - 1)
    }

    /** A complete run. */
    function Run(): seq<Event> {
      ScansBefore(NumScans()) + [Trailer]
    }

    function TotalPasses(): nat {
      if optimize then NumScans() * 2 else NumScans()
    }

    /** What has happened when the given pass is about to start, or to be skipped. */
    function LogBefore(passType: PassType, scan: nat): seq<Event>
      requires scan < NumScans()
    {
      if passType == OutputPass && optimize then ScansBefore(scan) + BeforeOutput(scan) else ScansBefore(scan)
    }

    /** How a pass begins. */
    function Opening(passType: PassType, scan: nat): seq<Event> {
      if passType == HuffOptPass then [SetUp(scan), StartPass(scan, true)]
      else (if optimize then [] else [SetUp(scan)]) + [StartPass(scan, false)] + Headers(scan)
    }

    /** The number of that pass. */
    function NumberOf(passType: PassType, scan: nat): nat {
      if !optimize then scan else if passType == OutputPass then 2 * scan + 1 else 2 * scan
    }

    /** The first part of the main pass: before its headers, and with the first n lines of the image. */
    function MainStart(): seq<Event> {
      Preamble() + [SetUp(0), StartPass(0, optimize)]
    }

    function MainPart(n: nat): seq<Event> {
      MainStart() + (if optimize then [] else Headers(0)) + Lines(n)
    }

    // ---------- where a run stops ----------

    /** The error that an event ends in. The parameters of a scan and arithmetic coding are the master's own business;
        for anything else it depends on what other modules say, who know all that was done before. A scanline may be
        refused without an error. */
    function Reply(says: seq<Event> -> Answer, log: seq<Event>, e: Event): (r: Option<ApiError>)
      ensures r.Some? ==> StopsRun(r.value)
    {
      match e
      case EntropyModule => if arith then Some(ArithNotImplemented) else None
      case SetUp(k) => if k < |setUp| then setUp[k] else None
      case Line(n) => if says(log + [e]) == Broken then Some(ModuleError) else None
      case _ => Failure(says(log + [e]))
    }

    /** None of this ended in an error. */
    ghost predicate Smooth(says: seq<Event> -> Answer, log: seq<Event>) {
      forall i :: 0 <= i < |log| ==> Reply(says, log[..i], log[i]).None?
    }

    /** All that was to be done has been done up to here without an error, and the next event ends in this one. */
    ghost predicate Stopped(says: seq<Event> -> Answer, log: seq<Event>, full: seq<Event>, r: Option<ApiError>) {
      log < full && Smooth(says, log) && r.Some? && StopsRun(r.value) && Reply(says, log, full[|log|]) == r
    }

    lemma SmoothPrefix(says: seq<Event> -> Answer, log: seq<Event>, full: seq<Event>)
      requires log <= full && Smooth(says, full)
      ensures Smooth(says, log)
    {
      forall i | 0 <= i < |log| ensures Reply(says, log[..i], log[i]).None? {
        assert log[..i] == full[..i] && log[i] == full[i];
      }
    }

    lemma SmoothStep(says: seq<Event> -> Answer, log: seq<Event>, e: Event)
      requires Smooth(says, log) && Reply(says, log, e).None?
      ensures Smooth(says, log + [e])
    {
      var next := log + [e];
      forall i | 0 <= i < |next| ensures Reply(says, next[..i], next[i]).None? {
        assert next[..i] == log[..i];
        if i == |log| {
          assert log[..i] == log;
        }
      }
    }

    /** A run either ends, or stops, and does so in one way only. */
    lemma StoppedIsUnique(says: seq<Event> -> Answer, log: seq<Event>, other: seq<Event>, full: seq<Event>,
                          r: Option<ApiError>, q: Option<ApiError>)
      requires Stopped(says, log, full, r)
      ensures !Smooth(says, full)
      ensures Stopped(says, other, full, q) ==> log == other && r == q
    {
      assert full[..|log|] == log;
      if Stopped(says, other, full, q) {
        assert full[..|other|] == other;
        assert |log| == |other| by {
          if |log| < |other| {
            SmoothPrefix(says, log + [full[|log|]], other);
          } else if |other| < |log| {
            SmoothPrefix(says, other + [full[|other|]], log);
          }
        }
      }
    }

    /** A run that stops inside a part of the plan does not go smoothly beyond it. */
    lemma StoppedInPart(says: seq<Event> -> Answer, log: seq<Event>, part: seq<Event>, full: seq<Event>,
                        r: Option<ApiError>)
      requires Stopped(says, log, part, r) && part <= full
      ensures Stopped(says, log, full, r) && !Smooth(says, full) && StopsRun(r.value)
    {
      StoppedIsUnique(says, log, log, full, r, r);
    }

    // ---------- parts of a run ----------

    lemma {:induction false} ScansPrefix(k: nat, n: nat)
      requires k <= n <= NumScans()
      ensures ScansBefore(k) <= ScansBefore(n)
      decreases n - k
    {
      if k < n {
        ScansPrefix(k, n - 1);
      }
    }

    /** A pass and all before it are a part of the run. */
    lemma ScanInRun(k: nat)
      requires k < NumScans()
      ensures ScansBefore(k) + BeforeOutput(k) <= ScansBefore(k) + ScanEvents(k) <= Run()
      ensures ScansBefore(k) + ScanEvents(k) == (ScansBefore(k) + BeforeOutput(k)) + OutputEvents(k)
    {
      Assoc(ScansBefore(k), BeforeOutput(k), OutputEvents(k));
      ScansPrefix(k + 1, NumScans());
    }

    lemma MainInRun(n: nat)
      requires Valid() && !transcode && n <= height
      ensures MainPart(n) <= MainPart(height) <= MainPart(height) + [FinishPass] <= Run()
      ensures MainStart() <= MainPart(n)
      ensures MainPart(height) + [FinishPass] == if optimize then LogBefore(OutputPass, 0) else ScansBefore(1)
      ensures !optimize && NumScans() > 1 ==> ScansBefore(1) == LogBefore(OutputPass, 1)
    {
      LinesPrefix(n, height);
      MainIsPass();
      ScanInRun(0);
      assert MainStart() + Lines(n) <= MainStart() + Lines(height);
      assert MainStart() + Headers(0) + Lines(n) <= MainStart() + Headers(0) + Lines(height);
    }

    lemma {:induction false} LinesPrefix(n: nat, m: nat)
      requires n <= m
      ensures Lines(n) <= Lines(m)
      decreases m - n
    {
      if n < m {
        LinesPrefix(n, m - 1);
      }
    }

    /** How passes are counted. */
    lemma Numbers(k: nat)
      requires k < NumScans()
      ensures NumberOf(MainPass, 0) == NumberOf(HuffOptPass, 0) == 0 && (!optimize ==> NumberOf(OutputPass, 0) == 0)
      ensures NumberOf(OutputPass, if optimize then 0 else 1) == 1
      ensures optimize ==> NumberOf(OutputPass, k) == NumberOf(HuffOptPass, k) + 1
      ensures NumberOf(OutputPass, k) + 1 == if k + 1 == NumScans() then TotalPasses()
                                             else NumberOf(if optimize then HuffOptPass else OutputPass, k + 1)
      ensures NumberOf(OutputPass, k) == TotalPasses() - 1 <==> k + 1 == NumScans()
      ensures optimize ==> NumberOf(HuffOptPass, k) < TotalPasses() - 1
    {
    }

    lemma MainGrows(n: nat, m: nat)
      requires n <= m
      ensures MainPart(n) <= MainPart(m)
    {
      LinesPrefix(n, m);
    }

    lemma NextLine(n: nat)
      ensures MainPart(n) + [Line(n)] == MainPart(n + 1)
    {
    }

    lemma NoLines()
      ensures optimize ==> MainPart(0) == MainStart()
    {
    }

    lemma MainIsPass()
      requires Valid() && !transcode
      ensures MainPart(height) + [FinishPass] == if optimize then LogBefore(OutputPass, 0) else ScansBefore(1)
    {
      hide Lines, Headers, Preamble;
      assert ScansBefore(0) == Preamble();
      assert [SetUp(0), StartPass(0, optimize)] == [SetUp(0)] + [StartPass(0, optimize)];
      if optimize {
        assert MainPart(height) + [FinishPass]
               == Preamble() + ([SetUp(0)] + ([StartPass(0, true)] + Lines(height) + [FinishPass]));
      } else {
        assert ScansBefore(1) == Preamble() + ScanEvents(0);
        assert MainPart(height) + [FinishPass]
               == Preamble()
                  + (([SetUp(0)] + []) + ([StartPass(0, false)] + Headers(0) + Lines(height) + [FinishPass]));
      }
    }

    lemma GatherCompletes(k: nat, log: seq<Event>)
      requires k < NumScans() && Gathers(k) && (k == 0 ==> transcode)
      requires log == LogBefore(HuffOptPass, k) + Opening(HuffOptPass, k) + Rows(iMcuRows) + [FinishPass]
      ensures log == LogBefore(OutputPass, k)
    {
      hide Rows, ScansBefore;
      assert [SetUp(k), StartPass(k, true)] == [SetUp(k)] + [StartPass(k, true)];
    }

    lemma OutputCompletes(k: nat, log: seq<Event>)
      requires k < NumScans() && (k == 0 && !transcode ==> optimize)
      requires log == LogBefore(OutputPass, k) + Opening(OutputPass, k) + Rows(iMcuRows) + [FinishPass]
      ensures log == ScansBefore(k + 1)
      ensures k + 1 < NumScans() ==> log == LogBefore(if optimize then HuffOptPass else OutputPass, k + 1)
    {
      hide Rows, Headers, GatherEvents, BeforeOutput, Run;
      ScanInRun(k);
      BeforeOutputIs(k);
      var x, a, r := ScansBefore(k) + BeforeOutput(k), [StartPass(k, false)] + Headers(k), Rows(iMcuRows);
      assert LogBefore(OutputPass, k) + Opening(OutputPass, k) == x + a;
      AssocFour(x, a, r, [FinishPass]);
      Assoc(a, r, [FinishPass]);
    }

    lemma {:induction false} RowsPrefix(n: nat, m: nat)
      requires n <= m
      ensures Rows(n) <= Rows(m)
      decreases m - n
    {
      if n < m {
        RowsPrefix(n, m - 1);
      }
    }

    /** A pass after the main pass is a part of the run. */
    lemma PassInRun(t: PassType, k: nat)
      requires k < NumScans() && t != MainPass
      requires t == HuffOptPass ==> Gathers(k) && (k == 0 ==> transcode)
      requires t == OutputPass ==> (k == 0 && !transcode ==> optimize)
      ensures LogBefore(t, k) + Opening(t, k) + Rows(iMcuRows) + [FinishPass] <= Run()
    {
      hide Rows, Headers, LogBefore, Opening, BeforeOutput;
      var log := LogBefore(t, k) + Opening(t, k) + Rows(iMcuRows) + [FinishPass];
      ScanInRun(k);
      if t == HuffOptPass {
        GatherCompletes(k, log);
        BeforeOutputIs(k);
      } else {
        OutputCompletes(k, log);
      }
    }

    lemma PreambleParts()
      ensures var p := if transcode then [] else [Preprocessing];
              p <= p + [EntropyModule] <= p + [EntropyModule] + [FileHeader] == Preamble()
    {
    }

    /** Where the passes after the main pass begin. */
    lemma BeforeOutputIs(k: nat)
      requires k < NumScans()
      ensures LogBefore(HuffOptPass, k) == ScansBefore(k) && (!optimize ==> LogBefore(OutputPass, k) == ScansBefore(k))
      ensures !Gathers(k) ==> ScansBefore(k) + [SetUp(k)] == ScansBefore(k) + BeforeOutput(k)
      ensures optimize ==> LogBefore(OutputPass, k) == ScansBefore(k) + BeforeOutput(k)
      ensures ScansBefore(k) + [SetUp(k)] <= ScansBefore(k) + BeforeOutput(k)
      ensures !optimize ==> BeforeOutput(k) == [SetUp(k)]
    {
    }

    /** The parameters of a scan are computed right after the scans before it. */
    lemma SetUpInRun(k: nat)
      requires k < NumScans()
      ensures ScansBefore(k) + [SetUp(k)] <= Run()
    {
      hide BeforeOutput;
      ScanInRun(k);
      BeforeOutputIs(k);
    }

    /** The beginning of an output pass, event by event. */
    lemma OutputOpening(k: nat)
      requires k < NumScans() && (k == 0 && !transcode ==> optimize)
      ensures var log := ScansBefore(k) + BeforeOutput(k) + [StartPass(k, false)];
              log <= Run() && (k > 0 ==> log + [ScanHeader(k)] == log + Headers(k) <= Run())
      ensures var log := ScansBefore(k) + BeforeOutput(k) + [StartPass(k, false)];
              k == 0 ==> log + [FrameHeader] <= log + [FrameHeader] + [ScanHeader(k)] == log + Headers(k) <= Run()
      ensures LogBefore(OutputPass, k) + Opening(OutputPass, k)
              == ScansBefore(k) + BeforeOutput(k) + [StartPass(k, false)] + Headers(k)
    {
      hide ScansBefore, Rows, GatherEvents, Run;
      PassInRun(OutputPass, k);
      BeforeOutputIs(k);
    }

    /** A complete run goes smoothly exactly if it does not use arithmetic coding, the parameters of every scan are all
        right, and the other modules accept what is asked of them. */
    lemma WhenSmooth(says: seq<Event> -> Answer)
      requires Valid()
      ensures Smooth(says, Run()) <==> !arith && (forall k: nat :: k < NumScans() ==> setUp[k].None?)
                                       && forall i: nat :: i < |Run()| ==> Agreed(says, i)
    {
      hide Run, ScansBefore, BeforeOutput, Preamble;
      var run := Run();
      if Smooth(says, run) {
        PreambleParts();
        PreambleInRun();
        var p := if transcode then [] else [Preprocessing];
        assert run[|p|] == EntropyModule;
        forall k: nat | k < NumScans() ensures setUp[k].None? {
          SetUpInRun(k);
          assert run[|ScansBefore(k)|] == SetUp(k);
        }
      }
      forall i: nat | i < |run| ensures Reply(says, run[..i], run[i]).None? ==> Agreed(says, i) {
        assert run[..i + 1] == run[..i] + [run[i]];
      }
      if !arith && (forall k: nat :: k < NumScans() ==> setUp[k].None?)
          && (forall i: nat :: i < |run| ==> Agreed(says, i)) {
        forall i | 0 <= i < |run| ensures Reply(says, run[..i], run[i]).None? {
          assert run[..i + 1] == run[..i] + [run[i]] && Agreed(says, i);
        }
      }
    }

    /** The other modules accept event i of the run, if it is theirs. */
    ghost predicate Agreed(says: seq<Event> -> Answer, i: nat)
      requires i < |Run()|
    {
      var e := Run()[i];
      e.EntropyModule? || e.SetUp? || says(Run()[..i + 1]) == Accepted
      || (e.Line? && says(Run()[..i + 1]) == Refused)
    }

    /** If no other module objects, a run is stopped by arithmetic coding or by the parameters of a scan. */
    lemma OnlySetUpStops(says: seq<Event> -> Answer)
      requires Valid() && says == ((log: seq<Event>) => Accepted)
      ensures !Smooth(says, Run()) ==> arith || exists k: nat :: k < NumScans() && setUp[k].Some?
    {
      hide Run, Smooth;
      WhenSmooth(says);
      forall i: nat | i < |Run()| ensures Agreed(says, i) {
      }
    }

    lemma PreambleInRun()
      ensures Preamble() <= Run()
    {
      ScansPrefix(0, NumScans());
    }

    lemma StopsHere(says: seq<Event> -> Answer, log: seq<Event>, e: Event, full: seq<Event>)
      requires Smooth(says, log) && log + [e] <= full
      ensures Reply(says, log, e).Some? ==> Stopped(says, log, full, Reply(says, log, e))
    {
      assert full[..|log| + 1] == log + [e];
    }
  }

  /** What becomes of an answer. */
  function Failure(a: Answer): (r: Option<ApiError>)
    ensures r.None? <==> a == Accepted
    ensures r == Some(CantSuspend) <==> a == Refused
  {
    match a
    case Accepted => None
    case Refused => Some(CantSuspend)
    case Broken => Some(ModuleError)
  }

  // ---------- sample runs ----------

  /** The scanlines come in order, and so do the iMCU rows. */
  lemma {:induction false} DataIs(p: Plan, n: nat)
    ensures p.Lines(n) == seq(n, (i: nat) => Line(i)) && p.Rows(n) == seq(n, (i: nat) => IMcuRow(i))
  {
    if n != 0 {
      DataIs(p, n - 1);
    }
  }

  /** The shortest run: one scan, straight from the application. */
  lemma PlainRun(p: Plan)
    requires p.Valid() && !p.optimize && !p.transcode && p.NumScans() == 1
    ensures p.Run() == [Preprocessing, EntropyModule, FileHeader, SetUp(0), StartPass(0, false), FrameHeader,
                        ScanHeader(0)]
                       + p.Lines(p.height) + [FinishPass, Trailer]
  {
    assert p.ScansBefore(1) == p.ScansBefore(0) + p.ScanEvents(0);
    hide Plan.Lines;
    assert [FinishPass] + [Trailer] == [FinishPass, Trailer];
  }

  /** What a run does for a later scan. */
  lemma LaterScan(p: Plan, k: nat)
    requires p.Valid() && 0 < k < p.NumScans() && !p.Gathers(k)
    ensures p.ScansBefore(k) + p.ScanEvents(k) == p.ScansBefore(k + 1)
    ensures p.ScanEvents(k) == [SetUp(k), StartPass(k, false), ScanHeader(k)] + p.Rows(p.iMcuRows) + [FinishPass]
  {
    hide Plan.Rows, Plan.ScansBefore;
    NextScans(p, k);
  }

  /** With optimisation, unless it refines DC: statistics, and then output, both from the buffer. */
  lemma LaterScanOptimized(p: Plan, k: nat)
    requires p.Valid() && 0 < k < p.NumScans() && p.Gathers(k)
    ensures p.ScansBefore(k) + p.ScanEvents(k) == p.ScansBefore(k + 1)
    ensures p.ScanEvents(k)
            == [SetUp(k), StartPass(k, true)] + p.Rows(p.iMcuRows)
               + [FinishPass, StartPass(k, false), ScanHeader(k)] + p.Rows(p.iMcuRows) + [FinishPass]
  {
    hide Plan.Rows, Plan.ScansBefore;
    NextScans(p, k);
  }

  lemma NextScans(p: Plan, k: nat)
    requires k < p.NumScans()
    ensures p.ScansBefore(k) + p.ScanEvents(k) == p.ScansBefore(k + 1)
  {
  }

  /** And for the first scan: statistics from the application's lines. */
  lemma FirstScanOptimized(p: Plan)
    requires p.Valid() && p.optimize && !p.transcode
    ensures p.ScanEvents(0) == [SetUp(0), StartPass(0, true)] + p.Lines(p.height)
              + [FinishPass, StartPass(0, false), FrameHeader, ScanHeader(0)] + p.Rows(p.iMcuRows) + [FinishPass]
  {
    hide Plan.Rows, Plan.Lines;
  }

  // ---------- what the plan says ----------

  datatype Kind = Headers | Passes | SetUps

  predicate Is(kind: Kind, e: Event) {
    match kind
    case Headers => e == FrameHeader || e.ScanHeader?
    case Passes => e.StartPass?
    case SetUps => e.SetUp?
  }

  /** The events of one kind in a log. */
  function Only(kind: Kind, log: seq<Event>): seq<Event> {
    if log == [] then []
    else Only(kind, log[..|log| - 1]) + if Is(kind, log[|log| - 1]) then [log[|log| - 1]] else []
  }

  lemma {:induction false} OnlyAppend(kind: Kind, a: seq<Event>, b: seq<Event>)
    ensures Only(kind, a + b) == Only(kind, a) + Only(kind, b)
  {
    if b == [] {
      assert a + b == a;
    } else {
      var c := b[..|b| - 1];
      assert (a + b)[..|a + b| - 1] == a + c;
      OnlyAppend(kind, a, c);
    }
  }

  lemma OnlyLast(kind: Kind, log: seq<Event>, e: Event)
    ensures Only(kind, log + [e]) == Only(kind, log) + if Is(kind, e) then [e] else []
  {
    assert (log + [e])[..|log|] == log;
  }

  lemma NotData(kind: Kind, n: int)
    ensures n >= 0 ==> !Is(kind, Line(n)) && !Is(kind, IMcuRow(n))
  {
  }

  lemma {:induction false} NoneInData(kind: Kind, p: Plan, n: nat)
    ensures Only(kind, p.Lines(n)) == [] && Only(kind, p.Rows(n)) == []
  {
    hide Is, Only;
    NotData(kind, n - 1);
    if n != 0 {
      NoneInData(kind, p, n - 1);
      OnlyLast(kind, p.Lines(n - 1), Line(n - 1));
      OnlyLast(kind, p.Rows(n - 1), IMcuRow(n - 1));
    } else {
      OnlyOne(kind, FinishPass);
    }
  }

  lemma OnlyOne(kind: Kind, e: Event)
    ensures Only(kind, [e]) == (if Is(kind, e) then [e] else [])
    ensures Only(kind, []) == []
  {
    assert [e][..0] == [];
  }

  lemma OnlyInPreamble(kind: Kind, p: Plan)
    ensures Only(kind, p.Preamble()) == []
  {
    hide Only;
    OnlyOne(kind, Preprocessing);
    OnlyOne(kind, EntropyModule);
    OnlyOne(kind, FileHeader);
    assert [EntropyModule, FileHeader] == [EntropyModule] + [FileHeader];
    OnlyAppend(kind, [EntropyModule], [FileHeader]);
    OnlyAppend(kind, if p.transcode then [] else [Preprocessing], [EntropyModule, FileHeader]);
  }

  lemma OnlyInGather(kind: Kind, p: Plan, k: nat)
    ensures Only(kind, p.GatherEvents(k)) == if kind == Passes then [StartPass(k, true)] else []
  {
    hide Only, Plan.Lines, Plan.Rows;
    NoneInData(kind, p, p.height);
    NoneInData(kind, p, p.iMcuRows);
    OnlyOne(kind, StartPass(k, true));
    OnlyOne(kind, FinishPass);
    OnlyAppend(kind, [StartPass(k, true)], p.Data(k == 0 && !p.transcode));
    OnlyAppend(kind, [StartPass(k, true)] + p.Data(k == 0 && !p.transcode), [FinishPass]);
  }

  lemma OnlyInHeaders(kind: Kind, p: Plan, k: nat)
    ensures Only(kind, p.Headers(k)) == if kind == Kind.Headers then p.Headers(k) else []
  {
    OnlyOne(kind, FrameHeader);
    OnlyOne(kind, ScanHeader(k));
    OnlyAppend(kind, if k == 0 then [FrameHeader] else [], [ScanHeader(k)]);
  }

  lemma OnlyInOutput(kind: Kind, p: Plan, k: nat)
    ensures Only(kind, p.OutputEvents(k))
            == match kind case Headers => p.Headers(k) case Passes => [StartPass(k, false)] case SetUps => []
  {
    hide Only, Plan.Lines, Plan.Rows, Plan.Headers;
    var d := p.Data(k == 0 && !p.transcode && !p.optimize);
    NoneInData(kind, p, p.height);
    NoneInData(kind, p, p.iMcuRows);
    OnlyOne(kind, StartPass(k, false));
    OnlyOne(kind, FinishPass);
    OnlyInHeaders(kind, p, k);
    OnlyAppend(kind, [StartPass(k, false)], p.Headers(k));
    OnlyAppend(kind, [StartPass(k, false)] + p.Headers(k), d);
    OnlyAppend(kind, [StartPass(k, false)] + p.Headers(k) + d, [FinishPass]);
  }

  /** One event of a kind for each of the first n scans, and for the passes statistics just before output, except for
      DC refinement scans. */
  function Planned(kind: Kind, p: Plan, n: nat): seq<Event>
    requires n <= p.NumScans()
  {
    if n == 0 then [] else
      Planned(kind, p, n - 1)
      + match kind
        case Headers => p.Headers(n - 1)
        case Passes => (if p.Gathers(n - 1) then [StartPass(n - 1, true)] else []) + [StartPass(n - 1, false)]
        case SetUps => [SetUp(n - 1)]
  }

  lemma {:induction false} OnlyInScans(kind: Kind, p: Plan, n: nat)
    requires n <= p.NumScans()
    ensures Only(kind, p.ScansBefore(n)) == Planned(kind, p, n)
  {
    hide Only, Plan.ScanEvents, Plan.Headers, Plan.Preamble;
    OnlyInPreamble(kind, p);
    if n != 0 {
      OnlyInScans(kind, p, n - 1);
      OnlyInScan(kind, p, n - 1);
      OnlyAppend(kind, p.ScansBefore(n - 1), p.ScanEvents(n - 1));
    }
  }

  lemma OnlyInScan(kind: Kind, p: Plan, k: nat)
    requires k < p.NumScans()
    ensures Only(kind, p.ScanEvents(k))
            == match kind
               case Headers => p.Headers(k)
               case Passes => (if p.Gathers(k) then [StartPass(k, true)] else []) + [StartPass(k, false)]
               case SetUps => [SetUp(k)]
  {
    hide Only, Plan.GatherEvents, Plan.OutputEvents, Plan.Headers;
    var g := if p.Gathers(k) then p.GatherEvents(k) else [];
    OnlyOne(kind, SetUp(k));
    OnlyInGather(kind, p, k);
    OnlyInOutput(kind, p, k);
    OnlyAppend(kind, [SetUp(k)], g);
    OnlyAppend(kind, p.BeforeOutput(k), p.OutputEvents(k));
  }

  function ScanHeaders(n: nat): seq<Event> {
    if n == 0 then [] else ScanHeaders(n - 1) + [ScanHeader(n - 1)]
  }

  lemma {:induction false} HeadersAre(p: Plan, n: nat)
    requires n <= p.NumScans()
    ensures Planned(Kind.Headers, p, n) == if n == 0 then [] else [FrameHeader] + ScanHeaders(n)
  {
    if n != 0 {
      HeadersAre(p, n - 1);
    }
  }

  /** In a complete run the frame header is written once and before any scan header, the scan headers once each
      and in order, the passes are the planned ones, and the parameters of each scan are computed once, in order. */
  lemma RunHeaders(p: Plan)
    requires p.Valid()
    ensures Only(Kind.Headers, p.Run()) == [FrameHeader] + ScanHeaders(p.NumScans())
    ensures Only(Passes, p.Run()) == Planned(Passes, p, p.NumScans())
    ensures Only(SetUps, p.Run()) == seq(p.NumScans(), (k: nat) => SetUp(k))
  {
    hide Only;
    HeadersAre(p, p.NumScans());
    SetUpsAre(p, p.NumScans());
    RunHas(Kind.Headers, p);
    RunHas(Passes, p);
    RunHas(SetUps, p);
  }

  lemma RunHas(kind: Kind, p: Plan)
    ensures Only(kind, p.Run()) == Planned(kind, p, p.NumScans())
  {
    hide Only;
    OnlyInScans(kind, p, p.NumScans());
    OnlyOne(kind, Trailer);
    OnlyAppend(kind, p.ScansBefore(p.NumScans()), [Trailer]);
  }

  lemma {:induction false} SetUpsAre(p: Plan, n: nat)
    requires n <= p.NumScans()
    ensures Planned(SetUps, p, n) == seq(n, (k: nat) => SetUp(k))
  {
    if n != 0 {
      SetUpsAre(p, n - 1);
    }
  }

  function Skipped(p: Plan, n: nat): nat
    requires n <= p.NumScans()
  {
    if n == 0 then 0 else Skipped(p, n - 1) + if p.optimize && p.refinement[n - 1] then 1 else 0
  }

  /** The passes that are run are the counted passes, less one for each statistics pass that is skipped. */
  lemma {:induction false} PassCount(p: Plan, n: nat)
    requires n <= p.NumScans()
    ensures |Planned(Passes, p, n)| == (if p.optimize then 2 * n else n) - Skipped(p, n)
  {
    if n != 0 {
      PassCount(p, n - 1);
    }
  }
}
