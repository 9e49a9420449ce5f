/** Whole runs of the compressor's data path: single-pass with any schedule of suspensions, and two
    passes with tables made from the image's own statistics. */
module CompressRun {
  import opened Powers
  import opened BitStrings
  import opened BytePacking
  import opened BitWriter
  import opened CanonicalCode
  import opened HuffmanDepth
  import opened OptimalTable
  import opened ScanCoding
  import opened HuffEncoder
  import opened OutputBounds
  import opened ScanDecoder
  import opened Statistics
  import opened ScanTotals
  import opened Geometry
  import opened CoefImage
  import opened McuLayout
  import opened CoefController

  // ---------- what a suspended run has written ----------

  lemma PaddedGrows(s: Segment, num: nat)
    requires num < 8
    ensures s.Bytes() <= Restarted(s, num).Bytes()
  {
    CodedMore(s.prefix, s.bits, Ones(7));
    assert s.Bytes() <= s.prefix + Coded(s.bits + Ones(7));
    assert Restarted(s, num).Bytes() == (s.prefix + Coded(s.bits + Ones(7))) + [0xFF, 0xD0 + num] + Coded([]);
  }

  /** An MCU never changes what has been written. */
  lemma OneMoreGrows(cfg: ScanConfig, tables: Tables, p: Progress, s: Segment, mcu: Mcu)
    requires cfg.Valid() && Ready(cfg, tables) && GoodProgress(cfg, p) && FitsScan(cfg, mcu)
    ensures s.Bytes() <= NextStream(cfg, tables, p, s, mcu).Bytes()
  {
    NextStreamGrows(cfg, tables, p, s, mcu);
    if AtRestart(cfg, p) {
      PaddedGrows(s, p.nextRestartNum);
    }
  }

  lemma {:induction false} StreamGrows(cfg: ScanConfig, tables: Tables, base: seq<byte>, mcus: seq<Mcu>, n: nat)
    requires cfg.Valid() && Ready(cfg, tables) && FitAll(cfg, mcus) && n <= |mcus|
    ensures Stream(cfg, tables, base, mcus[..n]).Bytes() <= Stream(cfg, tables, base, mcus).Bytes()
    decreases |mcus|
  {
    hide NextStream, Segment.Bytes, Advance;
    if n == |mcus| {
      assert mcus[..n] == mcus;
    } else {
      var last := |mcus| - 1;
      var before := mcus[..last];
      assert before[..n] == mcus[..n];
      StreamGrows(cfg, tables, base, before, n);
      OneMoreGrows(cfg, tables, ProgressAfter(cfg, before), Stream(cfg, tables, base, before), mcus[last]);
    }
  }

  /** However often it was suspended, an encoder that has taken the first MCUs of a scan has committed
      exactly the first bytes of what an unsuspended run over the whole scan commits. */
  lemma CommittedIsPrefix(e: HuffEntropyEncoder, all: seq<Mcu>)
    requires e.Valid() && FitAll(e.cfg, all) && e.accepted <= all
    ensures e.dest.Committed() == Stream(e.cfg, e.tables, e.base, e.accepted).Bytes()
    ensures e.dest.Committed() <= Stream(e.cfg, e.tables, e.base, all).Bytes()
  {
    assert all[..|e.accepted|] == e.accepted;
    StreamGrows(e.cfg, e.tables, e.base, all, |e.accepted|);
  }

  /** Where a pass gets its blocks from: compress_data, compress_first_pass and compress_output. */
  datatype Mode = FromInput | LoadAndSend | FromBuffer

  /** The blocks that the next iMCU row needs from the buffer are there. */
  ghost predicate Supplied(mode: Mode, job: Job, c: CoefController)
    reads c, c.wholeImage
    requires job.frame.Valid()
  {
    match mode
    case FromInput => true
    case LoadAndSend => c.HasImage(job) && c.iMcuRowNum <= job.frame.totalIMcuRows && c.Loaded(job, c.iMcuRowNum)
    case FromBuffer => c.HasImage(job) && c.Loaded(job, job.frame.totalIMcuRows)
  }

  /** The compress_data method that start_pass_coef has chosen. */
  method CompressRow(mode: Mode, job: Job, c: CoefController, entropy: Entropy) returns (o: Outcome)
    requires c.Valid(job, entropy) && c.iMcuRowNum < job.frame.totalIMcuRows && Supplied(mode, job, c)
    modifies c, c.mcuBuffer, c.wholeImage, entropy.Repr()
    ensures o.Done? ==> c.Valid(job, entropy) && c.iMcuRowNum == old(c.iMcuRowNum) + 1
    ensures o.Suspended? ==> c.Valid(job, entropy) && c.iMcuRowNum == old(c.iMcuRowNum)
    ensures o.Suspended? ==> entropy.Blocked(job.AllMcus())
    ensures !o.Fatal? ==> Supplied(mode, job, c) && |entropy.Delivered()| >= old(|entropy.Delivered()|)
    ensures o.Fatal? ==> !old(entropy.CanTake(entropy.Tables(), job.AllMcus()))
    ensures entropy.Tables() == old(entropy.Tables()) && entropy.Taken() == old(entropy.Taken())
  {
    hide Entropy.Valid, Entropy.Delivered, Entropy.Tables, Entropy.Taken, Entropy.Blocked, Entropy.CanTake;
    hide Job.Before, Job.AllMcus, CoefController.Loaded, CoefController.HasImage;
    match mode
    case FromInput =>
      o := c.CompressData(job, entropy);
    case LoadAndSend =>
      o := c.CompressFirstPass(job, entropy);
      if !o.Fatal? {
        c.LoadedLess(job, c.iMcuRowNum, old(c.iMcuRowNum) + 1);
      }
    case FromBuffer =>
      c.LoadedLess(job, c.iMcuRowNum + 1, job.frame.totalIMcuRows);
      o := c.CompressOutput(job, entropy);
  }

  /** What the application does: it has the controller compress an iMCU row, or takes n bytes out of the
      output buffer. */
  datatype Action = Compress | Take(n: nat)

  ghost function Written(job: Job, e: HuffEntropyEncoder): seq<byte>
    reads e
    requires job.Valid() && e.cfg.Valid() && Ready(e.cfg, e.tables) && e.cfg.membership == job.scan.membership
  {
    WholeStream(job, e.cfg, e.tables, e.base)
  }

  /** The stream after the whole scan, without the padding at its end. */
  ghost function WholeStream(job: Job, cfg: ScanConfig, tables: Tables, base: seq<byte>): seq<byte>
    requires job.Valid() && cfg.Valid() && Ready(cfg, tables) && cfg.membership == job.scan.membership
  {
    job.AllSize(job.frame.totalIMcuRows);
    Stream(cfg, tables, base, job.AllMcus()).Bytes()
  }

  /** A valid controller has handed over a prefix of the scan. */
  lemma DeliveredIsPrefix(job: Job, c: CoefController, entropy: Entropy)
    requires c.Valid(job, entropy)
    ensures entropy.Delivered() <= job.AllMcus()
  {
    if c.iMcuRowNum < job.frame.totalIMcuRows {
      job.BeforeInScan(c.iMcuRowNum, c.mcuVertOffset, c.mcuCtr);
    }
  }

  /** The application empties part of the output buffer; the encoder does not notice. */
  method TakeBytes(e: HuffEntropyEncoder, n: nat)
    requires e.Valid()
    modifies e.dest, e.dest.buffer
    ensures e.Valid() && e.accepted == old(e.accepted)
    ensures e.dest.Committed() == old(e.dest.Committed())
    ensures n >= old(e.dest.nextOutputByte) ==> e.dest.flushed == e.dest.Committed()
  {
    hide Stream, ProgressAfter, EncodableInTurn, Ready, FitAll;
    e.dest.Drain(if n <= e.dest.nextOutputByte then n else e.dest.nextOutputByte);
  }

  /** One step of a run; nothing is left to do once the scan is complete. */
  method Act(mode: Mode, job: Job, c: CoefController, e: HuffEntropyEncoder, action: Action) returns (o: Outcome)
    requires c.Valid(job, Encode(e)) && Supplied(mode, job, c)
    modifies c, c.mcuBuffer, c.wholeImage, e, e.dest, e.dest.buffer
    ensures !o.Fatal? ==> c.Valid(job, Encode(e)) && Supplied(mode, job, c)
    ensures o.Fatal? ==> !old(Encode(e).CanTake(e.tables, job.AllMcus()))
    ensures e.tables == old(e.tables)
  {
    hide HuffEntropyEncoder.Valid, Job.Before, Job.AllMcus, Job.McuRows, Job.Valid, EncodableInTurn;
    hide CoefController.Loaded, CoefController.HasImage;
    match action
    case Compress =>
      if c.iMcuRowNum < job.frame.totalIMcuRows {
        o := CompressRow(mode, job, c, Encode(e));
      } else {
        o := Done;
      }
    case Take(n) =>
      TakeBytes(e, n);
      o := Done;
  }

  /** Any schedule of compressing and taking bytes, with suspensions wherever they happen: the bytes committed
      are a prefix of those of an unsuspended run, and each MCU of the scan is committed once, in order. */
  method Session(mode: Mode, job: Job, c: CoefController, e: HuffEntropyEncoder, schedule: seq<Action>)
      returns (o: Outcome)
    requires c.Valid(job, Encode(e)) && Supplied(mode, job, c)
    modifies c, c.mcuBuffer, c.wholeImage, e, e.dest, e.dest.buffer
    ensures !o.Fatal? ==> c.Valid(job, Encode(e)) && Supplied(mode, job, c) && e.accepted <= job.AllMcus()
    ensures !o.Fatal? ==> e.dest.Committed() <= Written(job, e)
    ensures !o.Fatal? && c.iMcuRowNum >= job.frame.totalIMcuRows ==>
              e.accepted == job.AllMcus() && e.dest.Committed() == Written(job, e)
    ensures o.Fatal? ==> !old(Encode(e).CanTake(e.tables, job.AllMcus()))
    ensures e.tables == old(e.tables)
  {
    o := Done;
    for k := 0 to |schedule|
      invariant c.Valid(job, Encode(e)) && Supplied(mode, job, c) && e.tables == old(e.tables)
    {
      o := Act(mode, job, c, e, schedule[k]);
      if o.Fatal? {
        return;
      }
    }
    o := Done;
    DeliveredIsPrefix(job, c, Encode(e));
    job.AllSize(job.frame.totalIMcuRows);
    CommittedIsPrefix(e, job.AllMcus());
  }

  // ---------- a suspended run gets to its end ----------

  /** A buffer of this size can take what any one MCU of the scan adds, with a byte to spare. */
  ghost predicate BigEnough(cfg: ScanConfig, tables: Tables, base: seq<byte>, all: seq<Mcu>, size: nat)
    requires cfg.Valid() && Ready(cfg, tables) && FitAll(cfg, all)
  {
    forall n: nat :: n < |all| ==> Added(cfg, tables, base, all, n) < size
  }

  /** What MCU n adds to the stream. */
  ghost function Added(cfg: ScanConfig, tables: Tables, base: seq<byte>, all: seq<Mcu>, n: nat): int
    requires cfg.Valid() && Ready(cfg, tables) && FitAll(cfg, all) && n < |all|
  {
    |Stream(cfg, tables, base, all[..n + 1]).Bytes()| - |Stream(cfg, tables, base, all[..n]).Bytes()|
  }

  /** Room for 420 bytes for each block of an MCU, and a few more, is always enough. */
  lemma BufferSuffices(cfg: ScanConfig, tables: Tables, base: seq<byte>, all: seq<Mcu>, size: nat)
    requires cfg.Valid() && Ready(cfg, tables) && FitAll(cfg, all) && size > 420 * |cfg.membership| + 4
    ensures BigEnough(cfg, tables, base, all, size)
  {
    hide NextStream, Stream, ProgressAfter, Ready;
    forall n: nat | n < |all| ensures Added(cfg, tables, base, all, n) < size {
      assert all[..n + 1] == all[..n] + [all[n]];
      OneMore(cfg, tables, base, all[..n], all[n]);
      McuAdds(cfg, tables, ProgressAfter(cfg, all[..n]), Stream(cfg, tables, base, all[..n]), all[n]);
    }
  }

  /** Is there room for this MCU after those accepted, when so much of the stream has been taken? */
  ghost predicate RoomFor(cfg: ScanConfig, tables: Tables, base: seq<byte>, accepted: seq<Mcu>, mcu: Mcu, room: nat)
    requires cfg.Valid() && Ready(cfg, tables) && FitAll(cfg, accepted) && FitsScan(cfg, mcu)
  {
    |NextStream(cfg, tables, ProgressAfter(cfg, accepted), Stream(cfg, tables, base, accepted), mcu).Bytes()| < room
  }

  /** With the buffer emptied there is room for the next MCU. */
  lemma EmptiedHasRoom(e: HuffEntropyEncoder, all: seq<Mcu>)
    requires e.Valid() && FitAll(e.cfg, all) && e.accepted < all && e.dest.flushed == e.dest.Committed()
    requires BigEnough(e.cfg, e.tables, e.base, all, e.dest.buffer.Length)
    ensures RoomFor(e.cfg, e.tables, e.base, e.accepted, all[|e.accepted|], |e.dest.flushed| + e.dest.buffer.Length)
  {
    hide EncodableInTurn, NextStream, Stream, Advance, ProgressAfter;
    var n := |e.accepted|;
    assert all[..n] == e.accepted && all[..n + 1] == e.accepted + [all[n]];
    OneMore(e.cfg, e.tables, e.base, e.accepted, all[n]);
    assert Added(e.cfg, e.tables, e.base, all, n) < e.dest.buffer.Length;
  }

  lemma SamePrefix(all: seq<Mcu>, a: seq<Mcu>, b: seq<Mcu>)
    requires a <= all && b <= all
    ensures |a| == |b| ==> a == b
  {
  }

  /** An encoder that is blocked has taken an MCU since there was room for one. */
  lemma BlockedMoved(e: HuffEntropyEncoder, all: seq<Mcu>, accepted: seq<Mcu>)
    requires e.Valid() && FitAll(e.cfg, all) && accepted <= all && e.accepted <= all && |accepted| <= |e.accepted|
    requires FitAll(e.cfg, accepted) && Encode(e).Blocked(all)
    requires e.dest.suspends && accepted < all ==>
               RoomFor(e.cfg, e.tables, e.base, accepted, all[|accepted|], |e.dest.flushed| + e.dest.buffer.Length)
    ensures |accepted| < |e.accepted|
  {
    SamePrefix(all, accepted, e.accepted);
  }

  /** The iMCU rows and the MCUs that are still to be done. */
  ghost function Todo(job: Job, c: CoefController, e: HuffEntropyEncoder): int
    reads c, e
    requires job.Valid()
  {
    (job.frame.totalIMcuRows - c.iMcuRowNum) + (|job.AllMcus()| - |e.accepted|)
  }

  /** What a controller that works for a Huffman coder has delivered. */
  lemma Delivered(job: Job, c: CoefController, e: HuffEntropyEncoder)
    requires c.Valid(job, Encode(e))
    ensures job.Valid() && job.frame.Valid() && e.Valid() && FitAll(e.cfg, job.AllMcus()) && FitAll(e.cfg, e.accepted)
            && e.accepted <= job.AllMcus()
  {
    DeliveredIsPrefix(job, c, Encode(e));
    job.AllSize(job.frame.totalIMcuRows);
  }

  /** The application takes everything that is in the buffer, which makes room for another MCU. */
  method TakeAll(mode: Mode, job: Job, c: CoefController, e: HuffEntropyEncoder)
    requires c.Valid(job, Encode(e)) && Supplied(mode, job, c) && FitAll(e.cfg, job.AllMcus())
    requires e.dest.suspends ==> BigEnough(e.cfg, e.tables, e.base, job.AllMcus(), e.dest.buffer.Length)
    modifies e.dest, e.dest.buffer
    ensures c.Valid(job, Encode(e)) && Supplied(mode, job, c) && e.accepted == old(e.accepted)
    ensures e.Valid() && FitAll(e.cfg, e.accepted)
    ensures var all := job.AllMcus();
            e.dest.suspends && e.accepted < all ==>
              RoomFor(e.cfg, e.tables, e.base, e.accepted, all[|e.accepted|], |e.dest.flushed| + e.dest.buffer.Length)
  {
    hide HuffEntropyEncoder.Valid, Job.Before, Job.AllMcus, Job.McuRows, Job.Valid, CoefController.Loaded,
         CoefController.HasImage;
    hide RoomFor, BigEnough;
    Delivered(job, c, e);
    TakeBytes(e, e.dest.nextOutputByte);
    if e.dest.suspends && e.accepted < job.AllMcus() {
      EmptiedHasRoom(e, job.AllMcus());
    }
  }

  /** The application takes everything out of the buffer, and has the controller go on: some work gets done. */
  method Round(mode: Mode, job: Job, c: CoefController, e: HuffEntropyEncoder) returns (o: Outcome)
    requires c.Valid(job, Encode(e)) && c.iMcuRowNum < job.frame.totalIMcuRows && Supplied(mode, job, c)
    requires FitAll(e.cfg, job.AllMcus())
    requires e.dest.suspends ==> BigEnough(e.cfg, e.tables, e.base, job.AllMcus(), e.dest.buffer.Length)
    modifies c, c.mcuBuffer, c.wholeImage, e, e.dest, e.dest.buffer
    ensures !o.Fatal? ==> c.Valid(job, Encode(e)) && Supplied(mode, job, c) && c.iMcuRowNum <= job.frame.totalIMcuRows
    ensures !o.Fatal? ==> Todo(job, c, e) < old(Todo(job, c, e))
    ensures o.Fatal? ==> !old(Encode(e).CanTake(e.tables, job.AllMcus()))
    ensures e.tables == old(e.tables)
  {
    hide HuffEntropyEncoder.Valid, Entropy.Valid, Entropy.CanTake, Entropy.Blocked, CoefController.Valid, Job.AllMcus;
    hide RoomFor, BigEnough, FitAll, Job.Valid, CoefController.Loaded, CoefController.HasImage, Supplied;
    Delivered(job, c, e);
    ghost var accepted, all := e.accepted, job.AllMcus();
    TakeAll(mode, job, c, e);
    o := CompressRow(mode, job, c, Encode(e));
    if o.Suspended? {
      Delivered(job, c, e);
      BlockedMoved(e, all, accepted);
    }
  }

  /** Rounds of taking everything and going on, until the scan is complete. With a buffer that can take any one MCU
      this needs at most one round for each MCU and each iMCU row, and fails only if an MCU cannot be encoded. */
  method RunToEnd(mode: Mode, job: Job, c: CoefController, e: HuffEntropyEncoder) returns (o: Outcome, rounds: nat)
    requires c.Valid(job, Encode(e)) && c.iMcuRowNum <= job.frame.totalIMcuRows && Supplied(mode, job, c)
    requires FitAll(e.cfg, job.AllMcus())
    requires e.dest.suspends ==> BigEnough(e.cfg, e.tables, e.base, job.AllMcus(), e.dest.buffer.Length)
    modifies c, c.mcuBuffer, c.wholeImage, e, e.dest, e.dest.buffer
    ensures e.tables == old(e.tables) && (o.Done? || o.Fatal?)
    ensures o.Fatal? <==> !old(Encode(e).CanTake(e.tables, job.AllMcus()))
    ensures o.Done? ==> c.Valid(job, Encode(e)) && Supplied(mode, job, c) && c.iMcuRowNum == job.frame.totalIMcuRows
    ensures o.Done? ==> e.dest.Valid() && e.accepted == job.AllMcus() && e.dest.Committed() == Written(job, e)
    ensures rounds <= |job.AllMcus()| + job.frame.totalIMcuRows
  {
    hide HuffEntropyEncoder.Valid, Entropy.Valid, Entropy.CanTake, CoefController.Valid, Job.AllMcus;
    hide BigEnough, FitAll, Job.Valid, CoefController.Loaded, CoefController.HasImage, Supplied, Ready, Written;
    Delivered(job, c, e);
    rounds := 0;
    while c.iMcuRowNum < job.frame.totalIMcuRows
      invariant c.Valid(job, Encode(e)) && c.iMcuRowNum <= job.frame.totalIMcuRows && Supplied(mode, job, c)
      invariant e.tables == old(e.tables) && e.accepted <= job.AllMcus()
      invariant 0 <= rounds <= old(Todo(job, c, e)) - Todo(job, c, e)
      decreases Todo(job, c, e)
    {
      o := Round(mode, job, c, e);
      rounds := rounds + 1;
      if o.Fatal? {
        return;
      }
      Delivered(job, c, e);
    }
    o := Done;
    Completed(job, c, e);
  }

  lemma Completed(job: Job, c: CoefController, e: HuffEntropyEncoder)
    requires c.Valid(job, Encode(e)) && c.iMcuRowNum >= job.frame.totalIMcuRows
    ensures e.Valid() && e.dest.Valid() && e.accepted == job.AllMcus() && e.dest.Committed() == Written(job, e)
    ensures Encode(e).CanTake(e.tables, job.AllMcus())
  {
  }

  /** start_pass_coef at the beginning of a scan. */
  method Begin(mode: Mode, job: Job, c: CoefController, e: HuffEntropyEncoder)
    requires Matches(job, e.cfg) && e.Valid() && e.accepted == []
    requires c.mcuBuffer.Length == C_MAX_BLOCKS_IN_MCU && c.Apart(Encode(e)) && Startable(mode, job, c)
    modifies c
    ensures c.Valid(job, Encode(e)) && c.iMcuRowNum == 0 && Supplied(mode, job, c)
  {
    hide HuffEntropyEncoder.Valid, CoefController.Loaded, CoefController.HasImage, CoefController.Valid,
         CoefController.Apart;
    c.StartPass(job, Encode(e));
    if mode == LoadAndSend {
      c.NothingLoaded(job);
    }
  }

  /** A scan from beginning to end. */
  method RunScan(mode: Mode, job: Job, c: CoefController, e: HuffEntropyEncoder) returns (o: Outcome, rounds: nat)
    requires Matches(job, e.cfg) && e.Valid() && e.accepted == [] && FitAll(e.cfg, job.AllMcus())
    requires c.mcuBuffer.Length == C_MAX_BLOCKS_IN_MCU && c.Apart(Encode(e)) && Startable(mode, job, c)
    requires e.dest.suspends ==> BigEnough(e.cfg, e.tables, e.base, job.AllMcus(), e.dest.buffer.Length)
    modifies c, c.mcuBuffer, c.wholeImage, e, e.dest, e.dest.buffer
    ensures e.tables == old(e.tables) && (o.Done? || o.Fatal?)
    ensures o.Fatal? <==> !old(Encode(e).CanTake(e.tables, job.AllMcus()))
    ensures o.Done? ==> e.dest.Valid() && e.dest.Committed() == WholeStream(job, e.cfg, e.tables, e.base)
    ensures o.Done? && mode == LoadAndSend ==> Startable(FromBuffer, job, c)
    ensures rounds <= |job.AllMcus()| + job.frame.totalIMcuRows
  {
    hide HuffEntropyEncoder.Valid, Entropy.CanTake, BigEnough, FitAll, CoefController.Loaded, CoefController.HasImage;
    hide Job.AllMcus, Ready, Job.Before, CoefController.Valid, WholeStream, CoefController.Apart, Job.Valid;
    Begin(mode, job, c, e);
    o, rounds := RunToEnd(mode, job, c, e);
  }

  /** What has to be in the buffer before a pass starts. */
  ghost predicate Startable(mode: Mode, job: Job, c: CoefController)
    reads c, c.wholeImage
    requires job.frame.Valid()
  {
    match mode
    case FromInput => true
    case LoadAndSend => c.HasImage(job)
    case FromBuffer => c.HasImage(job) && c.Loaded(job, job.frame.totalIMcuRows)
  }

  /** The same scan three times over, each time into a destination of its own: straight from the input, while loading
      the image into the buffer, and from the buffer. All three write the same bytes, or all three fail. */
  method AllModes(job: Job, cfg: ScanConfig, tables: Tables, capacity: nat, suspends: bool)
      returns (o: Outcome, input: Destination, first: Destination, again: Destination)
    requires Matches(job, cfg) && Ready(cfg, tables) && capacity > 0 && FitAll(cfg, job.AllMcus())
    requires suspends ==> BigEnough(cfg, tables, [], job.AllMcus(), capacity)
    ensures o.Fatal? <==> !EncodableInTurn(cfg, tables, job.AllMcus())
    ensures !o.Fatal? ==> input.Valid() && first.Valid() && again.Valid()
    ensures !o.Fatal? ==> input.Committed() == first.Committed() == again.Committed()
                          == WholeStream(job, cfg, tables, [])
  {
    hide BigEnough, FitAll, CoefController.Loaded, CoefController.HasImage, Job.AllMcus, Ready, EncodableInTurn,
         WholeStream;
    var rounds;
    var single := new CoefController.SinglePass();
    o, input, rounds := NewRun(FromInput, job, cfg, tables, capacity, suspends, single);
    var full := new CoefController.FullImage(job);
    o, first, rounds := NewRun(LoadAndSend, job, cfg, tables, capacity, suspends, full);
    if !o.Fatal? {
      o, again, rounds := NewRun(FromBuffer, job, cfg, tables, capacity, suspends, full);
    } else {
      again := first;
    }
  }

  /** A scan into a new destination. */
  method NewRun(mode: Mode, job: Job, cfg: ScanConfig, tables: Tables, capacity: nat, suspends: bool, c: CoefController)
      returns (o: Outcome, dest: Destination, rounds: nat)
    requires Matches(job, cfg) && Ready(cfg, tables) && capacity > 0 && FitAll(cfg, job.AllMcus())
    requires suspends ==> BigEnough(cfg, tables, [], job.AllMcus(), capacity)
    requires c.mcuBuffer.Length == C_MAX_BLOCKS_IN_MCU && Startable(mode, job, c)
    modifies c, c.mcuBuffer, c.wholeImage
    ensures fresh(dest) && fresh(dest.buffer)
    ensures o.Fatal? <==> !EncodableInTurn(cfg, tables, job.AllMcus())
    ensures !o.Fatal? ==> dest.Valid() && dest.Committed() == WholeStream(job, cfg, tables, [])
    ensures !o.Fatal? && mode == LoadAndSend ==> Startable(FromBuffer, job, c)
    ensures rounds <= |job.AllMcus()| + job.frame.totalIMcuRows
  {
    hide BigEnough, FitAll, CoefController.Loaded, CoefController.HasImage, Job.AllMcus, Ready, EncodableInTurn,
         WholeStream;
    hide HuffEntropyEncoder.Valid, Job.Valid, Startable;
    dest := new Destination(capacity, suspends);
    var e := new HuffEntropyEncoder(cfg, dest, tables);
    o, rounds := RunScan(mode, job, c, e);
  }

  /** Two runs of the same scan that stand at the same position have delivered the same MCUs and committed the same
      bytes, whether they work from the input or from the buffer, and however often they were suspended. */
  lemma ModesAgree(job: Job, c: CoefController, e: HuffEntropyEncoder, d: CoefController, f: HuffEntropyEncoder)
    requires c.Valid(job, Encode(e)) && d.Valid(job, Encode(f))
    requires e.cfg == f.cfg && e.tables == f.tables && e.base == f.base
    requires c.iMcuRowNum == d.iMcuRowNum && c.mcuVertOffset == d.mcuVertOffset && c.mcuCtr == d.mcuCtr
    ensures e.accepted == f.accepted && e.dest.Committed() == f.dest.Committed()
  {
    hide Stream, Job.Before, Job.AllMcus, Job.Valid;
  }

  // ---------- two passes ----------

  /** A statistics pass: count the symbols of a scan of the image, which is loaded or already there. */
  method GatherPass(mode: Mode, job: Job, c: CoefController, stats: StatisticsPass) returns (ok: bool)
    requires mode != FromInput && c.Valid(job, Gather(stats)) && c.iMcuRowNum == 0 && Supplied(mode, job, c)
    modifies c, c.mcuBuffer, c.wholeImage, stats, stats.counts
    ensures ok ==> stats.Valid() && stats.seen == job.AllMcus() && Startable(FromBuffer, job, c)
    ensures !ok ==> !Gather(stats).CanTake(old(Gather(stats).Tables()), job.AllMcus())
  {
    hide StatisticsPass.Valid, CoefController.Loaded, CoefController.HasImage, Job.Before, Job.AllMcus, Job.McuRows;
    hide Entropy.CanTake, Entropy.Tables;
    while c.iMcuRowNum < job.frame.totalIMcuRows
      invariant c.Valid(job, Gather(stats)) && c.iMcuRowNum <= job.frame.totalIMcuRows && Supplied(mode, job, c)
      invariant Gather(stats).Tables() == old(Gather(stats).Tables())
      decreases job.frame.totalIMcuRows - c.iMcuRowNum
    {
      var o := CompressRow(mode, job, c, Gather(stats));
      if o.Fatal? {
        return false;
      }
    }
    ok := true;
  }

  /** A pass that sends the buffered image to the Huffman coder, with a destination that never refuses. */
  method OutputPass(job: Job, c: CoefController, e: HuffEntropyEncoder) returns (ok: bool)
    requires c.Valid(job, Encode(e)) && c.iMcuRowNum == 0 && !e.dest.suspends
    requires c.HasImage(job) && c.Loaded(job, job.frame.totalIMcuRows)
    modifies c, c.mcuBuffer, e, e.dest, e.dest.buffer
    ensures ok ==> e.Valid() && e.accepted == job.AllMcus() && e.tables == old(e.tables)
    ensures !ok ==> !old(Encode(e).CanTake(e.tables, job.AllMcus()))
  {
    hide HuffEntropyEncoder.Valid, CoefController.Loaded, CoefController.HasImage, Job.Before, Job.AllMcus, Job.McuRows;
    hide Entropy.CanTake;
    while c.iMcuRowNum < job.frame.totalIMcuRows
      invariant c.Valid(job, Encode(e)) && c.iMcuRowNum <= job.frame.totalIMcuRows
      invariant c.Loaded(job, job.frame.totalIMcuRows) && e.tables == old(e.tables)
      decreases job.frame.totalIMcuRows - c.iMcuRowNum
    {
      c.LoadedLess(job, c.iMcuRowNum + 1, job.frame.totalIMcuRows);
      var o := c.CompressOutput(job, Encode(e));
      if o.Fatal? {
        return false;
      }
    }
    ok := true;
  }

  lemma JobFits(job: Job, cfg: ScanConfig)
    requires Matches(job, cfg)
    ensures FitAll(cfg, job.AllMcus()) && job.AllMcus() != [] && AllPresent(cfg)
  {
    job.AllSize(job.frame.totalIMcuRows);
    job.McuCount();
    ComponentFillsMcus(job.frame, job.cur[0]);
    MulLe(1, job.scan.mcuRowsInScan, job.scan.mcusPerRow);
    forall ci: nat | ci < |cfg.dcTbl| ensures ci in cfg.membership {
      var sc, c := job.scan.comps[ci], job.frame.comps[job.cur[ci]];
      assert job.frame.ValidComponent(c);
      MulLe(1, sc.mcuWidth, sc.mcuHeight);
      MembershipCovers(job.scan.comps, |job.cur|, ci);
    }
  }

  /** Those of the DC slots it can always see: no scan has enough blocks. */
  lemma DcCountsFit(job: Job, cfg: ScanConfig)
    requires Matches(job, cfg) && FitAll(cfg, job.AllMcus()) && AcCountsFit(cfg, job.AllMcus())
    ensures FewEnough(cfg, job.AllMcus())
  {
    hide Job.AllMcus, ScanTally, CountsFit, UsedSlot, FitAll;
    ScanIsSmall(job.frame, job.cur, job.scan);
    job.McuCount();
    MulLe(job.scan.mcuRowsInScan, 8188, job.scan.mcusPerRow);
    MulLe(|cfg.membership|, C_MAX_BLOCKS_IN_MCU, |job.AllMcus()|);
    forall slot | 0 <= slot < 4 ensures CountsFit(WithPseudo(ScanTally(cfg, job.AllMcus(), slot))) {
      SlotFits(cfg, job.AllMcus(), slot);
    }
  }

  /** Tables made from a scan's statistics can encode all of it. */
  lemma TunedCanTake(cfg: ScanConfig, mcus: seq<Mcu>, specs: TableSet, tables: Tables)
    requires cfg.Valid() && FitAll(cfg, mcus) && AllInRange(cfg, mcus) && TunedTo(cfg, mcus, specs, tables)
    ensures Ready(cfg, tables) && EncodableInTurn(cfg, tables, mcus)
  {
    TunedIsReady(cfg, mcus, specs, tables);
    forall i | 0 <= i < |mcus| ensures McuEncodable(cfg, tables, ProgressAfter(cfg, mcus[..i]), mcus[i]) {
      StatisticsSuffice(cfg, mcus, specs, tables, i);
    }
  }

  /** The tables as objects that are there or not, and as a plain list. */
  function Specs(tbls: seq<Option<HuffTable>>): TableSet
    requires |tbls| == 8
  {
    seq(8, i requires 0 <= i < 8 => if tbls[i].Some? then tbls[i].value else HuffTable([], []))
  }

  ghost predicate TablesShaped(tbls: seq<Option<HuffTable>>) {
    |tbls| == 8 && forall i :: 0 <= i < 8 && tbls[i].Some? ==> tbls[i].value.Shaped()
  }

  /** Every slot in use has a table made from the statistics of these MCUs. */
  ghost predicate BestTables(cfg: ScanConfig, mcus: seq<Mcu>, tbls: seq<Option<HuffTable>>)
    requires cfg.Valid() && FitAll(cfg, mcus)
  {
    |tbls| == 8 && forall slot :: 0 <= slot < 8 && UsedSlot(cfg, slot) ==>
      tbls[slot].Some? && BestTable(ScanTally(cfg, mcus, slot), tbls[slot].value)
  }

  /** Deriving codes from the tables of a statistics pass gives tables that are tuned to the scan. */
  method DeriveTuned(cfg: ScanConfig, ghost mcus: seq<Mcu>, tbls: seq<Option<HuffTable>>) returns (tables: Tables)
    requires cfg.Valid() && FitAll(cfg, mcus) && TablesShaped(tbls) && BestTables(cfg, mcus, tbls)
    ensures TunedTo(cfg, mcus, Specs(tbls), tables) && SafeTables(cfg, tables)
  {
    forall slot: nat | slot < 8 && UsedSlot(cfg, slot)
      ensures Acceptable(tbls[slot].value, slot < 4)
      ensures forall d: DerivedTable :: Derives(tbls[slot].value, d)
                ==> MadeFor(ScanTally(cfg, mcus, slot), tbls[slot].value, d)
    {
      SecondPassReady(cfg, mcus, tbls, slot);
    }
    var r := DeriveTables(cfg, tbls);
    tables := r.value;
    forall slot: nat | slot < 8 && UsedSlot(cfg, slot)
      ensures MadeFor(ScanTally(cfg, mcus, slot), Specs(tbls)[slot], tables[slot])
    {
      assert Derives(tbls[slot].value, tables[slot]);
    }
    forall c: nat | c < |cfg.dcTbl|
      ensures tables[cfg.DcSlot(c)].Usable() && tables[cfg.DcSlot(c)].PrefixFree()
      ensures tables[cfg.AcSlot(c)].Usable() && tables[cfg.AcSlot(c)].PrefixFree()
    {
      assert UsesSlot(cfg, c, cfg.DcSlot(c)) && UsesSlot(cfg, c, cfg.AcSlot(c));
      assert UsedSlot(cfg, cfg.DcSlot(c)) && UsedSlot(cfg, cfg.AcSlot(c));
    }
  }

  /** start_pass for statistics, and the pass over the image. */
  method GatherScan(mode: Mode, job: Job, cfg: ScanConfig, c: CoefController, counts: seq<array<nat>>)
      returns (ok: bool, stats: StatisticsPass)
    requires mode != FromInput && Matches(job, cfg) && Startable(mode, job, c)
             && c.mcuBuffer.Length == C_MAX_BLOCKS_IN_MCU
    requires CountArrays(counts) && forall i :: 0 <= i < 8 ==> counts[i] as object != c.mcuBuffer as object
    modifies c, c.mcuBuffer, c.wholeImage, counts
    ensures fresh(stats) && stats.cfg == cfg && stats.counts == counts
    ensures ok ==> stats.Valid() && stats.seen == job.AllMcus() && Startable(FromBuffer, job, c)
    ensures !ok && FitAll(cfg, job.AllMcus()) ==> !AllInRange(cfg, job.AllMcus())
  {
    hide CoefController.Loaded, AllInRange, FitAll, Job.AllMcus;
    stats := new StatisticsPass(cfg, counts);
    assert forall k :: 0 <= k < |c.wholeImage| ==> c.wholeImage[k] as object !in Gather(stats).Repr();
    c.StartPass(job, Gather(stats));
    if mode == LoadAndSend {
      c.NothingLoaded(job);
    }
    ok := GatherPass(mode, job, c, stats);
  }

  ghost predicate CountArrays(counts: seq<array<nat>>) {
    && |counts| == 8 && (forall i :: 0 <= i < 8 ==> counts[i].Length == 257)
    && forall i, j :: 0 <= i < j < 8 ==> counts[i] != counts[j]
  }

  /** finish_pass_gather after the whole scan. */
  method FinishScan(job: Job, stats: StatisticsPass, tbls: seq<Option<HuffTable>>)
      returns (r: Option<seq<Option<HuffTable>>>)
    requires Matches(job, stats.cfg) && stats.Valid() && stats.seen == job.AllMcus()
    requires TablesShaped(tbls) && FewEnough(stats.cfg, stats.seen)
    modifies stats.counts
    ensures r.Some? ==> BestTables(stats.cfg, stats.seen, r.value) && TablesShaped(r.value)
    ensures r.None? <==> SomeTooDeep(stats.cfg, stats.seen)
  {
    hide FewEnough, AllInRange, ScanTally, TooDeep, Job.AllMcus, UsedSlot, SomeTooDeep;
    JobFits(job, stats.cfg);
    r := stats.FinishPass(tbls);
  }

  /** Gather statistics over the image, and make the tables. */
  method MakeTables(mode: Mode, job: Job, cfg: ScanConfig, c: CoefController, counts: seq<array<nat>>,
                    tbls: seq<Option<HuffTable>>) returns (r: Option<seq<Option<HuffTable>>>)
    requires mode != FromInput && Matches(job, cfg) && Startable(mode, job, c)
             && c.mcuBuffer.Length == C_MAX_BLOCKS_IN_MCU
    requires CountArrays(counts) && forall i :: 0 <= i < 8 ==> counts[i] as object != c.mcuBuffer as object
    requires TablesShaped(tbls) && FitAll(cfg, job.AllMcus()) && FewEnough(cfg, job.AllMcus())
    modifies c, c.mcuBuffer, c.wholeImage, counts
    ensures r.Some? ==> AllInRange(cfg, job.AllMcus())
    ensures r.Some? ==> BestTables(cfg, job.AllMcus(), r.value) && TablesShaped(r.value)
    ensures r.Some? ==> Startable(FromBuffer, job, c)
    ensures r.None? <==> Unfit(cfg, job.AllMcus())
  {
    hide BestTables, FewEnough, AllInRange, FitAll, Job.AllMcus, TablesShaped, CoefController.HasImage, SomeTooDeep;
    var ok, stats := GatherScan(mode, job, cfg, c, counts);
    if !ok {
      return None;
    }
    r := FinishScan(job, stats, tbls);
  }

  /** A coefficient is out of range, or the tree for an AC slot is too high. */
  ghost predicate Unfit(cfg: ScanConfig, mcus: seq<Mcu>)
    requires cfg.Valid() && FitAll(cfg, mcus)
  {
    !AllInRange(cfg, mcus) || SomeTooDeep(cfg, mcus)
  }

  /** The scan of the buffered image, coded with tables that are tuned to it: it always succeeds, and what it
      appends decodes to the MCUs of the image. */
  method SecondPass(job: Job, cfg: ScanConfig, c: CoefController, dest: Destination, tables: Tables,
                    ghost specs: TableSet)
    requires Matches(job, cfg) && c.HasImage(job) && c.mcuBuffer.Length == C_MAX_BLOCKS_IN_MCU
    requires c.Loaded(job, job.frame.totalIMcuRows) && dest.Valid() && !dest.suspends
    requires c.mcuBuffer != (dest.buffer as object)
    requires FitAll(cfg, job.AllMcus()) && AllInRange(cfg, job.AllMcus())
    requires TunedTo(cfg, job.AllMcus(), specs, tables) && SafeTables(cfg, tables)
    modifies c, c.mcuBuffer, dest, dest.buffer
    ensures dest.Valid() && old(dest.Committed()) <= dest.Committed()
    ensures DecodeScan(cfg, tables, dest.Committed()[|old(dest.Committed())|..], |job.AllMcus()|)
            == Some(ZigzagAll(cfg, job.AllMcus()))
  {
    TunedCanTake(cfg, job.AllMcus(), specs, tables);
    hide CoefController.Loaded, CoefController.HasImage, AllInRange, FitAll, Job.AllMcus, EncodableInTurn, TunedTo,
         DecodeScan;
    var e := StartEncoder(job, cfg, c, dest, tables);
    var ok := OutputPass(job, c, e);
    FinishEncoder(e);
  }

  /** The end of the scan: what was appended to the stream decodes to the MCUs taken. */
  method FinishEncoder(e: HuffEntropyEncoder)
    requires e.Valid() && SafeTables(e.cfg, e.tables) && !e.dest.suspends
    modifies e, e.dest, e.dest.buffer
    ensures e.dest.Valid() && e.base <= e.dest.Committed()
    ensures e.tables == old(e.tables)
    ensures DecodeScan(e.cfg, e.tables, e.dest.Committed()[|e.base|..], |old(e.accepted)|)
            == Some(ZigzagAll(e.cfg, old(e.accepted)))
  {
    EncoderOutputDecodes(e);
    hide DecodeScan, SafeTables, ZigzagAll, Stream, ProgressAfter, EncodableInTurn;
    var ok := e.FinishPass();
  }

  /** start_pass for Huffman coding. */
  method StartEncoder(job: Job, cfg: ScanConfig, c: CoefController, dest: Destination, tables: Tables)
      returns (e: HuffEntropyEncoder)
    requires Matches(job, cfg) && c.HasImage(job) && c.mcuBuffer.Length == C_MAX_BLOCKS_IN_MCU && dest.Valid()
    requires c.mcuBuffer != (dest.buffer as object) && Ready(cfg, tables)
    modifies c
    ensures fresh(e) && e.cfg == cfg && e.dest == dest && e.tables == tables && e.base == dest.Committed()
    ensures c.Valid(job, Encode(e)) && c.iMcuRowNum == 0
  {
    e := new HuffEntropyEncoder(cfg, dest, tables);
    c.StartPass(job, Encode(e));
  }

  /** Compression in two passes with optimised Huffman tables. It fails exactly if a coefficient is out of range or the
      tree for the counts of an AC slot is too high; otherwise what it writes decodes to exactly the MCUs of the image,
      dummy blocks included. */
  method CompressOptimized(job: Job, cfg: ScanConfig, c: CoefController, dest: Destination, counts: seq<array<nat>>,
                           tbls: seq<Option<HuffTable>>) returns (r: Option<Tables>)
    requires Matches(job, cfg) && c.HasImage(job) && c.mcuBuffer.Length == C_MAX_BLOCKS_IN_MCU
    requires CountArrays(counts) && forall i :: 0 <= i < 8 ==> counts[i] as object != c.mcuBuffer as object
    requires forall i :: 0 <= i < 8 ==> counts[i] as object != dest.buffer as object
    requires c.mcuBuffer != (dest.buffer as object) && dest.Valid() && !dest.suspends
    requires TablesShaped(tbls) && FitAll(cfg, job.AllMcus()) && AcCountsFit(cfg, job.AllMcus())
    modifies c, c.mcuBuffer, c.wholeImage, counts, dest, dest.buffer
    ensures r.Some? ==> dest.Valid() && Ready(cfg, r.value) && old(dest.Committed()) <= dest.Committed()
    ensures r.Some? ==> DecodeScan(cfg, r.value, dest.Committed()[|old(dest.Committed())|..], |job.AllMcus()|)
                        == Some(ZigzagAll(cfg, job.AllMcus()))
    ensures r.None? <==> Unfit(cfg, job.AllMcus())
  {
    hide CoefController.Loaded, CoefController.HasImage, AllInRange, FitAll, FewEnough, Job.AllMcus, TunedTo,
         DecodeScan;
    hide BestTables, Unfit, AcCountsFit, SafeTables;
    DcCountsFit(job, cfg);
    var t := MakeTables(LoadAndSend, job, cfg, c, counts, tbls);
    if t.None? {
      return None;
    }
    var tables := EncodeScan(job, cfg, c, dest, t.value);
    r := Some(tables);
  }

  /** A scan of the buffered image, coded with the tables made from its statistics. */
  method EncodeScan(job: Job, cfg: ScanConfig, c: CoefController, dest: Destination, tbls: seq<Option<HuffTable>>)
      returns (tables: Tables)
    requires Matches(job, cfg) && Startable(FromBuffer, job, c) && c.mcuBuffer.Length == C_MAX_BLOCKS_IN_MCU
    requires c.mcuBuffer != (dest.buffer as object) && dest.Valid() && !dest.suspends
    requires FitAll(cfg, job.AllMcus()) && !Unfit(cfg, job.AllMcus())
    requires TablesShaped(tbls) && BestTables(cfg, job.AllMcus(), tbls)
    modifies c, c.mcuBuffer, dest, dest.buffer
    ensures dest.Valid() && Ready(cfg, tables) && old(dest.Committed()) <= dest.Committed()
    ensures DecodeScan(cfg, tables, dest.Committed()[|old(dest.Committed())|..], |job.AllMcus()|)
            == Some(ZigzagAll(cfg, job.AllMcus()))
  {
    hide CoefController.Loaded, CoefController.HasImage, AllInRange, FitAll, SomeTooDeep, Job.AllMcus, TunedTo,
         DecodeScan;
    tables := DeriveTuned(cfg, job.AllMcus(), tbls);
    SecondPass(job, cfg, c, dest, tables, Specs(tbls));
  }
}
