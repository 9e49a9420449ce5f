/** The pass machine: master control of jcmaster.c as it is driven by jpeg_start_compress and
    jpeg_write_scanlines (jcapistd.c), jpeg_write_coefficients (jctrans.c) and jpeg_finish_compress
    (jcapimin.c). */
module PassControl {
  import opened CanonicalCode
  import opened Geometry
  import opened ScanScript
  import opened PassPlan

  datatype GlobalState = Start | Scanning | WrCoefs

  class Compressor {
    const settings: Settings                // set by the application
    const says: seq<Event> -> Answer        // what the other modules say to the last event of a log
    // the compressor's state
    var globalState: GlobalState
    var optimizeCoding: bool
    var nextScanline: nat
    var frame: Frame
    var cur: seq<nat>
    var scan: Scan
    // the master's state
    var passType: PassType
    var passNumber: nat
    var totalPasses: nat
    var scanNumber: nat
    var isLastPass: bool
    var callPassStartup: bool
    var log: seq<Event>
    ghost var plan: Plan

    constructor (settings: Settings, says: seq<Event> -> Answer)
      ensures globalState == Start && this.settings == settings && this.says == says
    {
      this.settings, this.says := settings, says;
      globalState, log, nextScanline, optimizeCoding := Start, [], 0, false;
      frame, cur, scan := Frame(0, 0, 0, 0, [], 0), [], Scan([], 0, 0, [], 0);
      passType, passNumber, totalPasses, scanNumber := MainPass, 0, 0, 0;
      isLastPass, callPassStartup := false, false;
      plan := Plan(0, 0, false, false, false, [], []);
    }

    // ---------- the states of a run ----------

    /** The plan is the one for the settings. */
    ghost predicate Settled()
      reads this`plan, this`frame
    {
      settings.Legal(plan.transcode) && plan == settings.PlanFor(plan.transcode) && frame == settings.FrameOf()
    }

    lemma PlanIs()
      requires Settled()
      ensures settings.Legal(plan.transcode) && plan == settings.PlanFor(plan.transcode)
      ensures plan.Valid() && plan.height == settings.height && plan.arith == settings.arithCode
      ensures plan.refinement == settings.Refinements() && plan.NumScans() == settings.NumScans()
    {
      settings.PlanIs(plan.transcode);
    }

    /** What the master has worked out agrees with it. */
    ghost predicate Agrees()
      reads this`plan, this`frame, this`optimizeCoding, this`totalPasses
    {
      && Settled() && plan.Valid() && optimizeCoding == plan.optimize && totalPasses == plan.TotalPasses()
      && plan.iMcuRows == frame.totalIMcuRows
    }

    /** The image is compressed according to plan, and there was no error so far. */
    ghost predicate OnPlan()
      reads this
    {
      Agrees() && plan.Smooth(says, log)
    }

    /** The master's own state agrees with the plan. */
    ghost predicate Planned()
      reads this
    {
      && OnPlan() && scanNumber < plan.NumScans() && passNumber == plan.NumberOf(passType, scanNumber)
      && (passType == HuffOptPass ==> optimizeCoding)
    }

    /** The parameters of the current scan have been computed. */
    ghost predicate ScanIsSetUp()
      reads this`scanNumber, this`cur, this`scan, this`frame
    {
      && scanNumber < settings.NumScans() && cur == settings.Cur(scanNumber) && ScanOf(frame, cur, scan)
      && scan.restartInterval == RestartInterval(settings.restartInRows, scan.mcusPerRow, settings.restartInterval)
    }

    /** A pass other than the main pass is about to start. */
    ghost predicate BetweenPasses()
      reads this
    {
      && Planned() && passType != MainPass && log == plan.LogBefore(passType, scanNumber)
      && (passType == OutputPass && optimizeCoding ==> ScanIsSetUp())
      && (scanNumber == 0 && !plan.transcode ==> passType == OutputPass && optimizeCoding)
    }

    /** A pass other than the main pass is running; it began with this log. */
    ghost predicate InPass(start: seq<Event>)
      reads this
    {
      && Planned() && passType != MainPass && ScanIsSetUp()
      && (isLastPass <==> passType == OutputPass && scanNumber + 1 == plan.NumScans())
      && (passType == HuffOptPass ==> plan.Gathers(scanNumber))
      && (scanNumber == 0 && !plan.transcode && passType == OutputPass ==> optimizeCoding)
      && (scanNumber == 0 && passType == HuffOptPass ==> plan.transcode)
      && start == plan.LogBefore(passType, scanNumber) + plan.Opening(passType, scanNumber)
    }

    /** Every pass is finished. */
    ghost predicate AllDone()
      reads this
    {
      && OnPlan() && isLastPass && passNumber == totalPasses
      && log == plan.ScansBefore(plan.NumScans()) && scanNumber == plan.NumScans()
    }

    /** The main pass is running, and the application has delivered some scanlines. */
    ghost predicate InMainPass()
      reads this
    {
      && Planned() && passType == MainPass && scanNumber == 0 && !plan.transcode && nextScanline <= settings.height
      && ScanIsSetUp()
      && (isLastPass <==> !optimizeCoding && plan.NumScans() == 1)
      && (callPassStartup ==> !optimizeCoding && nextScanline == 0)
      && log == if callPassStartup then plan.MainStart() else plan.MainPart(nextScanline)
    }

    /** What holds between calls of the interface. */
    ghost predicate Ready()
      reads this
    {
      && (globalState == Scanning ==> InMainPass())
      && (globalState == WrCoefs ==> BetweenPasses() && !isLastPass && scanNumber == 0 && plan.transcode)
    }

    // ---------- asking the other modules ----------

    /** Have another module do something; it is logged unless it ends in an error. */
    method Do(e: Event) returns (r: Option<ApiError>)
      requires plan.Smooth(says, log) && !e.EntropyModule? && !e.SetUp? && !e.Line?
      modifies this`log
      ensures r == plan.Reply(says, old(log), e) && plan.Smooth(says, log)
      ensures log == if r.None? then old(log) + [e] else old(log)
    {
      r := Failure(says(log + [e]));
      if r.None? {
        plan.SmoothStep(says, log, e);
        log := log + [e];
      }
    }

    /** A scanline. */
    method DoLine() returns (r: Option<ApiError>)
      requires plan.Smooth(says, log)
      modifies this`log
      ensures r == plan.Reply(says, old(log), Line(nextScanline)) && plan.Smooth(says, log)
      ensures log == if r.None? then old(log) + [Line(nextScanline)] else old(log)
    {
      var e := Line(nextScanline);
      r := if says(log + [e]) == Broken then Some(ModuleError) else None;
      if r.None? {
        plan.SmoothStep(says, log, e);
        log := log + [e];
      }
    }

    /** The choice of the entropy coder. */
    method ChooseEntropyCoder() returns (r: Option<ApiError>)
      requires plan.Smooth(says, log) && plan.arith == settings.arithCode
      modifies this`log
      ensures r == plan.Reply(says, old(log), EntropyModule) && plan.Smooth(says, log)
      ensures log == if r.None? then old(log) + [EntropyModule] else old(log)
    {
      if settings.arithCode {
        return Some(ArithNotImplemented);
      }
      plan.SmoothStep(says, log, EntropyModule);
      log := log + [EntropyModule];
      r := None;
    }

    /** select_scan_parameters and per_scan_setup. */
    method SetUpScan() returns (r: Option<ApiError>)
      requires OnPlan() && scanNumber < plan.NumScans()
      modifies this`log, this`cur, this`scan
      ensures r == plan.Reply(says, old(log), SetUp(scanNumber)) && plan.Smooth(says, log)
      ensures log == if r.None? then old(log) + [SetUp(scanNumber)] else old(log)
      ensures r.None? ==> ScanIsSetUp()
    {
      hide Plan.ScansBefore, Progressive, Sequential, LegalImage, CeilDiv, FrameFor, McuBlocks, ScanOf;
      settings.FrameIsLegal(plan.transcode);
      settings.CurInFrame(scanNumber);
      if settings.script.Some? {
        cur := settings.Cur(scanNumber);
      } else {
        if |settings.sampling| > MAX_COMPS_IN_SCAN {
          return Some(TooManyComponents);
        }
        cur := settings.Cur(0);
      }
      var s := PerScanSetup(frame, cur, settings.restartInRows, settings.restartInterval);
      if s.None? {
        return Some(BadMcuSize);
      }
      scan := s.value;
      plan.SmoothStep(says, log, SetUp(scanNumber));
      log := log + [SetUp(scanNumber)];
      r := None;
    }

    // ---------- the master ----------

    /** The checks of jinit_c_master_control: initial_setup and validate_script. */
    method CheckParameters(transcodeOnly: bool) returns (r: Option<ApiError>, numScans: nat, progressive: bool)
      modifies this`frame
      ensures r.None? || r == Some(BadImage) || r == Some(BadScript)
      ensures r == Some(BadImage) <==> !settings.ImageIsLegal(transcodeOnly)
      ensures r == Some(BadScript) <==> settings.ImageIsLegal(transcodeOnly) && !settings.ScriptIsLegal()
      ensures r.None? ==> settings.Legal(transcodeOnly) && frame == settings.FrameOf()
      ensures r.None? ==> numScans == settings.NumScans() && progressive == settings.IsProgressive()
    {
      hide Progressive, Sequential, LegalImage, CeilDiv, FrameFor;
      numScans, progressive := 1, false;
      var f := InitialSetup(settings.width, settings.height, if transcodeOnly then 1 else settings.inputComponents,
                            settings.precision, settings.sampling);
      if f.None? {
        return Some(BadImage), numScans, progressive;
      }
      frame := f.value;
      if settings.script.Some? {
        ImageHasComponents(settings, transcodeOnly);
        var v := ValidateScript(|settings.sampling|, settings.script.value);
        if v.None? {
          return Some(BadScript), numScans, progressive;
        }
        numScans, progressive := |settings.script.value|, v.value;
      }
      r := None;
    }

    /** jinit_c_master_control: check image and script, and set up for the first pass. A progressive script forces
        optimisation. */
    method InitMasterControl(transcodeOnly: bool) returns (r: Option<ApiError>)
      modifies this
      ensures globalState == old(globalState) && (r.None? || r == Some(BadImage) || r == Some(BadScript))
      ensures r == Some(BadImage) <==> !settings.ImageIsLegal(transcodeOnly)
      ensures r == Some(BadScript) <==> settings.ImageIsLegal(transcodeOnly) && !settings.ScriptIsLegal()
      ensures log == [] && !isLastPass
      ensures r.None? ==> Planned() && plan.transcode == transcodeOnly && scanNumber == 0
      ensures r.None? ==>
                passType == if !transcodeOnly then MainPass else if optimizeCoding then HuffOptPass else OutputPass
    {
      hide *;
      log, isLastPass, optimizeCoding := [], false, settings.optimize;
      var numScans, progressive;
      r, numScans, progressive := CheckParameters(transcodeOnly);
      if r.Some? {
        return;
      }
      if progressive {
        optimizeCoding := true;
      }
      passType := if !transcodeOnly then MainPass else if optimizeCoding then HuffOptPass else OutputPass;
      scanNumber, passNumber := 0, 0;
      totalPasses := if optimizeCoding then numScans * 2 else numScans;
      settings.PlanIs(transcodeOnly);
      plan := settings.PlanFor(transcodeOnly);
      StartsPlanned();
    }

    /** The state before the first pass. */
    lemma StartsPlanned()
      requires settings.Legal(plan.transcode) && plan == settings.PlanFor(plan.transcode) && frame == settings.FrameOf()
      requires optimizeCoding == plan.optimize && totalPasses == plan.TotalPasses() && log == []
      requires scanNumber == passNumber == 0
      requires passType == if !plan.transcode then MainPass else if optimizeCoding then HuffOptPass else OutputPass
      ensures Planned()
    {
      settings.PlanIs(plan.transcode);
    }

    /** prepare_for_pass, for the passes after the main pass. */
    method PrepareForPass() returns (r: Option<ApiError>)
      requires BetweenPasses()
      modifies this`passType, this`passNumber, this`isLastPass, this`callPassStartup, this`log, this`cur, this`scan
      ensures r.None? ==> InPass(log) && passNumber >= old(passNumber)
      ensures r.None? ==> scanNumber == old(scanNumber)
      ensures r.None? ==> passType == if old(passType) == HuffOptPass && !plan.Gathers(scanNumber) then OutputPass
                                      else old(passType)
      ensures r.Some? ==> plan.Stopped(says, log, plan.Run(), r)
    {
      hide *;
      BeforePass();
      r := SetUpIfDue();
      if r.Some? {
        return;
      }
      if passType == HuffOptPass {
        Skipping();
        var s := if settings.script.None? then ScanInfo([], 0, 63, 0, 0) else settings.script.value[scanNumber];
        if s.ss != 0 || s.ah == 0 || settings.arithCode {
          r := BeginGather();
          return;
        }
        passType := OutputPass;
        passNumber := passNumber + 1;
        StillPlanned();
      }
      r := BeginOutput();
    }

    lemma BeforePass()
      requires BetweenPasses()
      ensures passType != MainPass
      ensures scanNumber == 0 && passType == HuffOptPass ==> plan.transcode
      ensures scanNumber == 0 && !plan.transcode ==> optimizeCoding
    {
    }

    /** The test for DC refinement scans. */
    lemma Skipping()
      requires Planned() && passType == HuffOptPass
      ensures Agrees() && optimizeCoding && scanNumber < plan.NumScans() && plan.Smooth(says, log)
      ensures passNumber == plan.NumberOf(HuffOptPass, scanNumber) && (scanNumber == 0 ==> plan.Gathers(scanNumber))
      ensures settings.script.Some? ==> scanNumber < |settings.script.value|
      ensures var s := if settings.script.None? then ScanInfo([], 0, 63, 0, 0) else settings.script.value[scanNumber];
              plan.Gathers(scanNumber) <==> s.ss != 0 || s.ah == 0 || settings.arithCode
      ensures !plan.Gathers(scanNumber) ==>
                plan.ScansBefore(scanNumber) + [SetUp(scanNumber)]
                == plan.ScansBefore(scanNumber) + plan.BeforeOutput(scanNumber)
    {
      PlanIs();
      plan.BeforeOutputIs(scanNumber);
    }

    lemma StillPlanned()
      requires Agrees() && optimizeCoding && scanNumber < plan.NumScans() && plan.Smooth(says, log)
      requires passType == OutputPass && passNumber == plan.NumberOf(HuffOptPass, scanNumber) + 1
      ensures Planned()
    {
      plan.Numbers(scanNumber);
    }

    /** The parameters of a scan are computed in its first pass. */
    method SetUpIfDue() returns (r: Option<ApiError>)
      requires BetweenPasses()
      modifies this`log, this`cur, this`scan
      ensures r.None? ==> Planned() && ScanIsSetUp()
      ensures r.None? ==> log == plan.ScansBefore(scanNumber) + if passType == HuffOptPass then [SetUp(scanNumber)]
                                                                else plan.BeforeOutput(scanNumber)
      ensures r.Some? ==> plan.Stopped(says, log, plan.Run(), r)
    {
      hide Settled, ScanIsSetUp, Plan.ScansBefore, Plan.LogBefore, Plan.BeforeOutput, Plan.Reply, Plan.Run, Plan.Smooth,
           Plan.Stopped, Plan.TotalPasses, Plan.NumberOf;
      plan.BeforeOutputIs(scanNumber);
      r := None;
      if passType == HuffOptPass || !optimizeCoding {
        ghost var start := log;
        plan.SetUpInRun(scanNumber);
        r := SetUpScan();
        if r.Some? {
          plan.StopsHere(says, start, SetUp(scanNumber), plan.Run());
        }
      }
    }

    /** The first part of the huff_opt_pass case of prepare_for_pass, after the scan is set up. */
    method BeginGather() returns (r: Option<ApiError>)
      requires Planned() && passType == HuffOptPass && ScanIsSetUp() && plan.Gathers(scanNumber)
      requires log == plan.ScansBefore(scanNumber) + [SetUp(scanNumber)] && (scanNumber == 0 ==> plan.transcode)
      modifies this`isLastPass, this`callPassStartup, this`log
      ensures r.None? ==> InPass(log)
      ensures r.Some? ==> plan.Stopped(says, log, plan.Run(), r)
    {
      hide Settled, ScanIsSetUp, Plan.ScansBefore, Plan.Rows, Plan.Reply, Plan.Headers, Plan.Run, Plan.Smooth,
           Plan.NumberOf, Plan.TotalPasses;
      plan.Numbers(scanNumber);
      ghost var start := log;
      assert plan.LogBefore(HuffOptPass, scanNumber) + plan.Opening(HuffOptPass, scanNumber)
             == start + [Event.StartPass(scanNumber, true)];
      plan.PassInRun(HuffOptPass, scanNumber);
      r := Do(Event.StartPass(scanNumber, true));
      if r.Some? {
        plan.StopsHere(says, start, Event.StartPass(scanNumber, true), plan.Run());
        return;
      }
      callPassStartup := false;
      isLastPass := passNumber == totalPasses - 1;
    }

    /** The rest of the output_pass case of prepare_for_pass: the headers come at once. */
    method BeginOutput() returns (r: Option<ApiError>)
      requires Planned() && passType == OutputPass && ScanIsSetUp()
      requires log == plan.ScansBefore(scanNumber) + plan.BeforeOutput(scanNumber)
      requires scanNumber == 0 && !plan.transcode ==> optimizeCoding
      modifies this`isLastPass, this`callPassStartup, this`log
      ensures r.None? ==> InPass(log)
      ensures r.Some? ==> plan.Stopped(says, log, plan.Run(), r)
    {
      hide Settled, ScanIsSetUp, Plan.ScansBefore, Plan.BeforeOutput, Plan.LogBefore, Plan.Opening, Plan.Headers,
           Plan.Reply, Plan.Run,
           Plan.Smooth, Plan.Stopped, Plan.NumberOf, Plan.TotalPasses;
      plan.Numbers(scanNumber);
      ghost var start, full := log, plan.Run();
      plan.OutputOpening(scanNumber);
      r := Do(Event.StartPass(scanNumber, false));
      if r.Some? {
        plan.StopsHere(says, start, Event.StartPass(scanNumber, false), full);
        return;
      }
      if scanNumber == 0 {
        ghost var before := log;
        r := Do(FrameHeader);
        if r.Some? {
          plan.StopsHere(says, before, FrameHeader, full);
          return;
        }
      }
      ghost var before := log;
      r := Do(ScanHeader(scanNumber));
      if r.Some? {
        plan.StopsHere(says, before, ScanHeader(scanNumber), full);
        return;
      }
      callPassStartup := false;
      isLastPass := passNumber == totalPasses - 1;
    }

    /** finish_pass_master, after a pass other than the main pass has processed all its data. */
    method FinishPassMaster(ghost start: seq<Event>) returns (r: Option<ApiError>)
      requires InPass(start) && log == start + plan.Rows(frame.totalIMcuRows)
      modifies this`passType, this`passNumber, this`scanNumber, this`log
      ensures r.None? ==> if isLastPass then AllDone() else BetweenPasses()
      ensures r.None? ==> passNumber == old(passNumber) + 1
      ensures r.None? ==> passType == if old(passType) == OutputPass && optimizeCoding then HuffOptPass else OutputPass
      ensures r.None? ==> scanNumber == old(scanNumber) + if old(passType) == OutputPass then 1 else 0
      ensures r.Some? ==> plan.Stopped(says, log, plan.Run(), r)
    {
      hide Settled, ScanIsSetUp, Plan.LogBefore, Plan.Opening, Plan.ScansBefore, Plan.Rows, Plan.Reply, Plan.Run,
           Plan.Smooth, Plan.NumberOf, Plan.TotalPasses;
      plan.Numbers(scanNumber);
      ghost var k, t, before := scanNumber, passType, log;
      plan.PassInRun(t, k);
      r := Do(FinishPass);
      if r.Some? {
        plan.StopsHere(says, before, FinishPass, plan.Run());
        return;
      }
      if passType == HuffOptPass {
        passType := OutputPass;
        plan.GatherCompletes(k, log);
      } else {
        if optimizeCoding {
          passType := HuffOptPass;
        }
        scanNumber := scanNumber + 1;
        plan.OutputCompletes(k, log);
      }
      passNumber := passNumber + 1;
    }

    // ---------- the interface ----------

    /** jinit_compress_master and transencode_master_selection, after the master itself: the other modules. */
    method SelectModules(transcodeOnly: bool) returns (r: Option<ApiError>)
      requires OnPlan() && log == [] && plan.transcode == transcodeOnly
      modifies this`log
      ensures plan.Smooth(says, log)
      ensures r.None? ==> log == plan.Preamble()
      ensures r.Some? ==> plan.Stopped(says, log, plan.Preamble(), r)
    {
      hide Settled, Plan.Reply, Plan.Smooth, Plan.Preamble, Plan.Stopped, Plan.Valid;
      PlanIs();
      plan.PreambleParts();
      if !transcodeOnly {
        r := Do(Preprocessing);
        if r.Some? {
          plan.StopsHere(says, [], Preprocessing, plan.Preamble());
          return;
        }
      }
      ghost var before := log;
      r := ChooseEntropyCoder();
      if r.Some? {
        plan.StopsHere(says, before, EntropyModule, plan.Preamble());
        return;
      }
      before := log;
      r := Do(FileHeader);
      if r.Some? {
        plan.StopsHere(says, before, FileHeader, plan.Preamble());
      }
    }

    /** jinit_compress_master, or the same for transcoding. */
    method SelectMaster(transcodeOnly: bool) returns (r: Option<ApiError>)
      modifies this
      ensures globalState == old(globalState)
      ensures r == Some(BadImage) <==> !settings.ImageIsLegal(transcodeOnly)
      ensures r == Some(BadScript) <==> settings.ImageIsLegal(transcodeOnly) && !settings.ScriptIsLegal()
      ensures r.None? ==> Planned() && plan.transcode == transcodeOnly && log == plan.Preamble()
      ensures r.None? ==> scanNumber == 0 && !isLastPass
      ensures r.None? ==>
                passType == if !transcodeOnly then MainPass else if optimizeCoding then HuffOptPass else OutputPass
      ensures r.Some? && r != Some(BadImage) && r != Some(BadScript) ==>
                Settled() && plan.transcode == transcodeOnly && plan.Stopped(says, log, plan.Preamble(), r)
    {
      hide Settled, Plan.Reply, Plan.Smooth, Plan.Preamble, Settings.ImageIsLegal, Settings.ScriptIsLegal;
      r := InitMasterControl(transcodeOnly);
      if r.Some? {
        return;
      }
      PlanIs();
      r := SelectModules(transcodeOnly);
    }

    /** jpeg_start_compress: prepare the main pass. */
    method StartCompress() returns (r: Option<ApiError>)
      modifies this
      ensures r == Some(BadState) <==> old(globalState) != Start
      ensures r == Some(BadState) ==> unchanged(this)
      ensures r != Some(BadState) ==> (r == Some(BadImage) <==> !settings.ImageIsLegal(false))
      ensures r != Some(BadState) ==>
                (r == Some(BadScript) <==> settings.ImageIsLegal(false) && !settings.ScriptIsLegal())
      ensures r.None? ==> globalState == Scanning && InMainPass() && nextScanline == 0
      ensures r.None? ==> callPassStartup == !plan.optimize
      ensures r.Some? && r.value !in {BadState, BadImage, BadScript} ==>
                Settled() && !plan.transcode && plan.Stopped(says, log, plan.MainStart(), r)
    {
      hide Settled, ScanIsSetUp, Plan.Reply, Plan.Smooth, Plan.Preamble, Settings.ImageIsLegal, Settings.ScriptIsLegal;
      if globalState != Start {
        return Some(BadState);
      }
      r := SelectMaster(false);
      if r.Some? {
        return;
      }
      r := BeginMain();
      if r.Some? {
        return;
      }
      nextScanline := 0;
      globalState := Scanning;
    }

    /** The main_pass case of prepare_for_pass: the headers are put off. */
    method BeginMain() returns (r: Option<ApiError>)
      requires Planned() && passType == MainPass && scanNumber == 0 && !plan.transcode && log == plan.Preamble()
      modifies this`isLastPass, this`callPassStartup, this`log, this`cur, this`scan
      ensures r.None? ==> Planned() && ScanIsSetUp() && log == plan.MainStart() && callPassStartup == !optimizeCoding
      ensures r.None? ==> (isLastPass <==> !optimizeCoding && plan.NumScans() == 1)
      ensures r.Some? ==> plan.Stopped(says, log, plan.MainStart(), r)
    {
      hide Settled, ScanIsSetUp, Plan.Reply, Plan.Smooth, Plan.Preamble;
      ghost var before := log;
      assert plan.MainStart() == before + [SetUp(0)] + [Event.StartPass(0, optimizeCoding)];
      r := SetUpScan();
      if r.Some? {
        plan.StopsHere(says, before, SetUp(0), plan.MainStart());
        return;
      }
      before := log;
      r := Do(Event.StartPass(0, optimizeCoding));
      if r.Some? {
        plan.StopsHere(says, before, Event.StartPass(0, optimizeCoding), plan.MainStart());
        return;
      }
      callPassStartup := !optimizeCoding;
      isLastPass := passNumber == totalPasses - 1;
    }

    /** jpeg_write_coefficients: no main pass; everything happens in jpeg_finish_compress. */
    method WriteCoefficients() returns (r: Option<ApiError>)
      modifies this
      ensures r == Some(BadState) <==> old(globalState) != Start
      ensures r == Some(BadState) ==> unchanged(this)
      ensures r != Some(BadState) ==> (r == Some(BadImage) <==> !settings.ImageIsLegal(true))
      ensures r != Some(BadState) ==>
                (r == Some(BadScript) <==> settings.ImageIsLegal(true) && !settings.ScriptIsLegal())
      ensures r.None? ==> globalState == WrCoefs && Ready() && plan.transcode
      ensures r.Some? && r.value !in {BadState, BadImage, BadScript} ==>
                Settled() && plan.transcode && plan.Stopped(says, log, plan.Preamble(), r)
    {
      hide Settled, ScanIsSetUp, Plan.Reply, Plan.Smooth, Plan.Preamble, Settings.ImageIsLegal, Settings.ScriptIsLegal;
      if globalState != Start {
        return Some(BadState);
      }
      r := SelectMaster(true);
      if r.Some? {
        return;
      }
      nextScanline := 0;
      globalState := WrCoefs;
    }

    /** pass_startup: the headers that the main pass put off. */
    method PassStartup() returns (r: Option<ApiError>)
      requires InMainPass() && callPassStartup
      modifies this`log, this`callPassStartup
      ensures r.None? ==> InMainPass() && !callPassStartup
      ensures r.Some? ==> plan.Stopped(says, log, plan.MainPart(0), r)
    {
      hide Settled, ScanIsSetUp, Plan.Reply, Plan.Smooth, Plan.MainStart;
      callPassStartup := false;
      ghost var before := log;
      assert plan.MainPart(0) == before + [FrameHeader] + [ScanHeader(0)];
      r := Do(FrameHeader);
      if r.Some? {
        plan.StopsHere(says, before, FrameHeader, plan.MainPart(0));
        return;
      }
      before := log;
      r := Do(ScanHeader(0));
      if r.Some? {
        plan.StopsHere(says, before, ScanHeader(0), plan.MainPart(0));
      }
    }

    /** jpeg_write_scanlines. The data path takes at most `accepted` of the lines: fewer than offered if the
        destination suspends. Lines beyond the image are ignored. */
    method WriteScanlines(numLines: nat, accepted: nat) returns (r: Option<ApiError>, written: nat)
      requires globalState == Scanning ==> InMainPass()
      modifies this`log, this`nextScanline, this`callPassStartup
      ensures r == Some(BadState) <==> old(globalState) != Scanning
      ensures r == Some(BadState) ==> unchanged(this) && written == 0
      ensures r.None? ==> InMainPass() && !callPassStartup
      ensures r.None? ==> nextScanline == old(nextScanline) + written
      ensures r.None? ==> written == Least(accepted, Least(numLines, settings.height - old(nextScanline)))
      ensures r.Some? && r != Some(BadState) ==>
                var lines := Least(accepted, Least(numLines, settings.height - old(nextScanline)));
                plan.Stopped(says, log, plan.MainPart(old(nextScanline) + lines), r)
    {
      hide Settled, ScanIsSetUp, Plan.Reply, Plan.Smooth, Plan.MainStart, Plan.MainPart, Plan.Stopped, Plan.TotalPasses,
           Plan.Valid;
      if globalState != Scanning {
        return Some(BadState), 0;
      }
      var rowsLeft := settings.height - nextScanline;
      var lines := Least(accepted, Least(numLines, rowsLeft));
      ghost var full := plan.MainPart(nextScanline + lines);
      if callPassStartup {
        r := PassStartup();
        if r.Some? {
          plan.MainGrows(0, lines);
          plan.StoppedInPart(says, log, plan.MainPart(0), full, r);
          written := 0;
          return;
        }
      }
      written := 0;
      while written < lines
        invariant written <= lines && InMainPass() && !callPassStartup
        invariant nextScanline == old(nextScanline) + written
      {
        ghost var before := log;
        r := DoLine();
        plan.NextLine(nextScanline);
        plan.MainGrows(nextScanline + 1, old(nextScanline) + lines);
        if r.Some? {
          plan.StopsHere(says, before, Line(nextScanline), full);
          return;
        }
        nextScanline := nextScanline + 1;
        written := written + 1;
      }
      r := None;
    }

    /** The end of the main pass: finish_pass_master. */
    method FinishMainPass() returns (r: Option<ApiError>)
      requires InMainPass() && nextScanline == settings.height && !callPassStartup
      modifies this`passType, this`passNumber, this`scanNumber, this`log
      ensures r.None? ==> if isLastPass then AllDone() else BetweenPasses()
      ensures r.None? ==> passType == OutputPass && passNumber == 1 && scanNumber == if optimizeCoding then 0 else 1
      ensures r.Some? ==> plan.Stopped(says, log, plan.Run(), r)
    {
      hide *;
      MainEnds();
      ghost var before := log;
      r := Do(FinishPass);
      if r.Some? {
        plan.StopsHere(says, before, FinishPass, plan.Run());
        return;
      }
      passType := OutputPass;
      if !optimizeCoding {
        scanNumber := scanNumber + 1;
      }
      passNumber := passNumber + 1;
      AfterMain(before);
    }

    lemma MainEnds()
      requires InMainPass() && nextScanline == settings.height && !callPassStartup
      ensures log == plan.MainPart(plan.height) && log + [FinishPass] <= plan.Run() && plan.Smooth(says, log)
      ensures scanNumber == 0 && passNumber == 0 && passType == MainPass && ScanIsSetUp()
      ensures Agrees() && !plan.transcode && (isLastPass <==> !optimizeCoding && plan.NumScans() == 1)
    {
      PlanIs();
      plan.MainInRun(nextScanline);
    }

    /** The state after the main pass. */
    lemma AfterMain(before: seq<Event>)
      requires Agrees() && plan.Smooth(says, log) && !plan.transcode
      requires (isLastPass <==> !optimizeCoding && plan.NumScans() == 1)
      requires before == plan.MainPart(plan.height) && log == before + [FinishPass] && passNumber == 1
      requires passType == OutputPass && scanNumber == (if optimizeCoding then 0 else 1)
      requires optimizeCoding ==> ScanIsSetUp()
      ensures if isLastPass then AllDone() else BetweenPasses()
    {
      hide Plan.MainPart, Plan.Smooth, Settled, ScanIsSetUp;
      plan.MainInRun(0);
    }

    /** One more pass: a turn of the loop in jpeg_finish_compress. */
    method DoPass() returns (r: Option<ApiError>)
      requires BetweenPasses() && !isLastPass
      modifies this`passType, this`passNumber, this`scanNumber, this`isLastPass, this`callPassStartup, this`log
      modifies this`cur, this`scan
      ensures r.None? ==> (if isLastPass then AllDone() else BetweenPasses()) && passNumber > old(passNumber)
      ensures r.Some? ==> plan.Stopped(says, log, plan.Run(), r)
    {
      hide Settled, ScanIsSetUp, Plan.ScansBefore, Plan.GatherEvents, Plan.Headers, Plan.Opening, Plan.LogBefore,
           Planned, Plan.Rows, Plan.Stopped;
      r := PrepareForPass();
      if r.Some? {
        return;
      }
      ghost var start := log;
      r := DoRows(start);
      if r.Some? {
        return;
      }
      r := FinishPassMaster(start);
    }

    /** The loop over the iMCU rows of a pass. */
    method DoRows(ghost start: seq<Event>) returns (r: Option<ApiError>)
      requires InPass(start) && log == start
      modifies this`log
      ensures r.None? ==> InPass(start) && log == start + plan.Rows(frame.totalIMcuRows)
      ensures r.Some? ==> plan.Stopped(says, log, plan.Run(), r)
    {
      hide Settled, ScanIsSetUp, Plan.LogBefore, Plan.Opening, Plan.Headers, Plan.ScansBefore, Plan.Reply, Plan.Smooth,
           Plan.Run;
      plan.PassInRun(passType, scanNumber);
      for row := 0 to frame.totalIMcuRows
        invariant InPass(start) && log == start + plan.Rows(row)
      {
        ghost var before := log;
        plan.RowsPrefix(row + 1, frame.totalIMcuRows);
        r := Do(IMcuRow(row));
        if r.Some? {
          plan.StopsHere(says, before, IMcuRow(row), plan.Run());
          return;
        }
      }
      r := None;
    }

    /** jpeg_finish_compress: the remaining passes. The run is then complete: exactly the planned events have
        happened, and exactly total_passes passes have been counted. Otherwise it stops at the first event of the plan
        that ends in an error. */
    method FinishCompress() returns (r: Option<ApiError>)
      requires Ready()
      modifies this
      ensures r == Some(BadState) <==> old(globalState) == Start
      ensures r == Some(TooLittleData) <==> old(globalState) == Scanning && old(nextScanline) < settings.height
      ensures r == Some(BadState) || r == Some(TooLittleData) ==> unchanged(this)
      ensures plan == old(plan)
      ensures r.None? ==> globalState == Start && isLastPass && passNumber == totalPasses == plan.TotalPasses()
      ensures r.None? ==> log == plan.Run() && plan.Smooth(says, log)
      ensures r.Some? && r.value !in {BadState, TooLittleData} ==> plan.Stopped(says, log, plan.Run(), r)
    {
      hide Settled, ScanIsSetUp, Plan.ScansBefore, Plan.GatherEvents, Plan.Data, Plan.Headers, Plan.Lines, Plan.Opening,
           Plan.Reply,
           Plan.Smooth;
      if globalState == Scanning {
        PlanIs();
        if nextScanline < settings.height {
          return Some(TooLittleData);
        }
        r := FinishMainPass();
        if r.Some? {
          return;
        }
      } else if globalState != WrCoefs {
        return Some(BadState);
      }
      while !isLastPass
        invariant (if isLastPass then AllDone() else BetweenPasses()) && plan == old(plan)
        decreases !isLastPass, totalPasses - passNumber
      {
        r := DoPass();
        if r.Some? {
          return;
        }
      }
      ghost var before := log;
      r := Do(Trailer);
      if r.Some? {
        plan.StopsHere(says, before, Trailer, plan.Run());
        return;
      }
      globalState := Start;
    }

    /** A whole image: any way of delivering the scanlines, in calls that offer some lines and have some accepted. It is
        complete exactly if image and script are legal, the lines accepted are all lines of the image, and nothing in
        the plan of the run ends in an error. Too little data is found exactly if everything up to the last line
        accepted went well. Any other error is that of the first event of the plan that ends in one. */
    method CompressImage(calls: seq<(nat, nat)>) returns (r: Option<ApiError>)
      requires globalState == Start
      modifies this
      ensures r == Some(BadImage) <==> !settings.ImageIsLegal(false)
      ensures r == Some(BadScript) <==> settings.ImageIsLegal(false) && !settings.ScriptIsLegal()
      ensures settings.Legal(false) ==>
                var p, lines := settings.PlanFor(false), LinesTaken(settings.height, calls, |calls|);
                && (r.None? <==> lines == settings.height && p.Smooth(says, p.Run()))
                && (r.None? ==> log == p.Run() && passNumber == p.TotalPasses())
                && (r == Some(TooLittleData) <==>
                      && lines < settings.height
                      && p.Smooth(says, if calls == [] then p.MainStart() else p.MainPart(lines)))
                && (r.Some? && r != Some(TooLittleData) ==> p.Stopped(says, log, p.Run(), r))
    {
      hide Settled, ScanIsSetUp, Plan.Reply, Plan.Smooth, Plan.Run, Plan.MainStart, Plan.MainPart, Plan.Stopped,
           Settings.ImageIsLegal, Settings.ScriptIsLegal, Settings.PlanFor, Plan.TotalPasses;
      r := StartCompress();
      if r.Some? {
        if r != Some(BadImage) && r != Some(BadScript) {
          PlanIs();
          StoppedEarly(calls, plan.MainStart(), r);
        }
        return;
      }
      PlanIs();
      r := DeliverLines(calls);
      if r.Some? {
        return;
      }
      r := FinishCompress();
      if r.Some? && r != Some(TooLittleData) {
        plan.StoppedInPart(says, log, plan.Run(), plan.Run(), r);
      }
    }

    lemma MainState()
      requires InMainPass()
      ensures plan.Valid() && !plan.transcode && plan.height == settings.height && nextScanline <= settings.height
      ensures log == if callPassStartup then plan.MainStart() else plan.MainPart(nextScanline)
      ensures plan.optimize ==> plan.MainPart(0) == plan.MainStart()
    {
      PlanIs();
      plan.NoLines();
    }

    /** The application's calls. */
    method DeliverLines(calls: seq<(nat, nat)>) returns (r: Option<ApiError>)
      requires globalState == Scanning && InMainPass() && nextScanline == 0 && callPassStartup == !plan.optimize
      modifies this`log, this`nextScanline, this`callPassStartup
      ensures r.None? ==> InMainPass() && nextScanline == LinesTaken(settings.height, calls, |calls|)
      ensures r.None? ==> log == if calls == [] then plan.MainStart() else plan.MainPart(nextScanline)
      ensures r.Some? ==> plan.Stopped(says, log, plan.Run(), r) && !plan.Smooth(says, plan.Run()) && StopsRun(r.value)
      ensures r.Some? ==> !plan.Smooth(says, if calls == [] then plan.MainStart()
                                             else plan.MainPart(LinesTaken(settings.height, calls, |calls|)))
    {
      hide InMainPass, Plan.Reply, Plan.Smooth, Plan.Run, Plan.MainStart, Plan.MainPart, Plan.Stopped, Plan.Valid,
           Least;
      MainState();
      r := None;
      for i := 0 to |calls|
        invariant r.None? && globalState == Scanning && InMainPass()
        invariant callPassStartup <==> !plan.optimize && i == 0
        invariant nextScanline == LinesTaken(settings.height, calls, i)
      {
        var n;
        MainState();
        r, n := WriteScanlines(calls[i].0, calls[i].1);
        if r.Some? {
          TakenGrows(settings.height, calls, i + 1, |calls|);
          plan.MainGrows(LinesTaken(settings.height, calls, i + 1), LinesTaken(settings.height, calls, |calls|));
          StoppedEarly(calls, plan.MainPart(LinesTaken(settings.height, calls, i + 1)), r);
          return;
        }
      }
      MainState();
    }

    /** A run that stopped among the lines delivered is neither complete nor short of data. */
    lemma StoppedEarly(calls: seq<(nat, nat)>, part: seq<Event>, r: Option<ApiError>)
      requires plan.Valid() && !plan.transcode && plan.height == settings.height && plan.Stopped(says, log, part, r)
      requires part == plan.MainStart()
               || (calls != [] && part <= plan.MainPart(LinesTaken(settings.height, calls, |calls|)))
      ensures plan.Stopped(says, log, plan.Run(), r) && !plan.Smooth(says, plan.Run()) && StopsRun(r.value)
      ensures !plan.Smooth(says, if calls == [] then plan.MainStart()
                                 else plan.MainPart(LinesTaken(settings.height, calls, |calls|)))
    {
      hide Plan.Smooth, Plan.MainPart, Plan.MainStart, Plan.Run;
      var lines := LinesTaken(settings.height, calls, |calls|);
      plan.MainInRun(lines);
      plan.StoppedInPart(says, log, part, plan.Run(), r);
      plan.StoppedInPart(says, log, part, if calls == [] then plan.MainStart() else plan.MainPart(lines), r);
    }
  }

  lemma {:induction false} TakenGrows(height: nat, calls: seq<(nat, nat)>, n: nat, m: nat)
    requires n <= m <= |calls|
    ensures LinesTaken(height, calls, n) <= LinesTaken(height, calls, m)
    decreases m - n
  {
    if n < m {
      TakenGrows(height, calls, n, m - 1);
    }
  }

  /** How many lines of the image the first n calls deliver, when each offers some and has some accepted. */
  function LinesTaken(height: nat, calls: seq<(nat, nat)>, n: nat): (taken: nat)
    requires n <= |calls|
    ensures taken <= height
  {
    if n == 0 then 0 else
      var before := LinesTaken(height, calls, n - 1);
      before + Least(calls[n - 1].1, Least(calls[n - 1].0, height - before))
  }

  function Least(a: nat, b: nat): (r: nat)
    ensures r <= a && r <= b && (r == a || r == b)
  {
    if a < b then a else b
  }

  lemma ImageHasComponents(s: Settings, transcode: bool)
    requires s.ImageIsLegal(transcode)
    ensures 1 <= |s.sampling| <= MAX_COMPONENTS
  {
  }
}
