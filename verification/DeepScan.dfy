/** An image of 19200 by 19200 samples, in a scan of its own, for whose statistics no Huffman table can be made: of the
    blocks with one coefficient Fib(k) have the symbol of level k, and every block ends with an end of block. */
module DeepScan {
  import opened Sequences
  import opened BitStrings
  import opened HuffmanDepth
  import opened DeepestCounts
  import opened OptimalTable
  import opened BlockCoding
  import opened BlockEncoder
  import opened ScanCoding
  import opened Statistics
  import opened ScanTotals
  import opened Geometry
  import opened CoefImage
  import opened McuLayout
  import opened CompressRun

  /** Blocks in a row, and rows of blocks. */
  const SIDE: nat := 2400

  // ---------- the levels of the blocks ----------

  /** The level of block n, among levels 1 to j: Fib(k) blocks in succession have level k. */
  function LevelOf(n: nat, j: nat): (k: nat)
    ensures k <= j
  {
    if j == 0 then 0
    else if Fib(j + 1) <= n + 1 then (if n + 1 < Fib(j + 2) then j else 0)
    else LevelOf(n, j - 1)
  }

  lemma {:induction false} LevelIs(n: nat, j: nat, k: nat)
    requires 1 <= k <= j
    ensures LevelOf(n, j) == k <==> Fib(k + 1) <= n + 1 < Fib(k + 2)
  {
    hide Fib;
    if k < j {
      FibMono(k + 2, j + 1);
      LevelIs(n, j - 1, k);
    }
  }

  /** How many of the first n blocks have level k. */
  function CountOf(k: nat, n: nat): nat {
    if n < Fib(k + 1) then 0 else if n < Fib(k + 2) then n + 1 - Fib(k + 1) else Fib(k)
  }

  lemma CountStep(k: nat, n: nat)
    requires 1 <= k <= RUNGS
    ensures CountOf(k, n + 1) == CountOf(k, n) + if LevelOf(n, RUNGS) == k then 1 else 0
  {
    hide Fib, LevelOf;
    LevelIs(n, RUNGS, k);
    NextFib(k - 1);
  }

  // ---------- the blocks ----------

  /** A block with one coefficient, in zigzag position k. */
  function OneCoefficient(order: seq<nat>, k: nat, v: int): Block
    requires IsOrder(order) && k < 64
  {
    seq(64, i => if i == order[k] then v else 0)
  }

  function DeepBlock(order: seq<nat>, n: nat): Block
    requires IsOrder(order)
  {
    var k := LevelOf(n, RUNGS);
    if k == 0 then OneCoefficient(order, 0, 0) else OneCoefficient(order, 1 + Rung(k) / 16, Rung(k) % 16)
  }

  lemma OneZigzag(order: seq<nat>, k: nat, v: int)
    requires IsOrder(order) && k < 64
    ensures var zz := Zigzag(order, OneCoefficient(order, k, v));
            zz[k] == v && forall i :: 0 <= i < 64 && i != k ==> zz[i] == 0
  {
  }

  /** The AC symbols of the block: that of its level, and the end of block. */
  lemma OneSymbolTokens(order: seq<nat>, s: nat)
    requires IsOrder(order) && 1 <= s < 256 && 1 <= s % 16 <= 2
    ensures var zz := Zigzag(order, OneCoefficient(order, 1 + s / 16, s % 16));
            zz[0] == 0 && AcTokens(zz, 1, 0) == [Symbol(true, s), ExtraToken(s % 16)] + [Symbol(true, EOB)]
  {
    var k := 1 + s / 16;
    var zz := Zigzag(order, OneCoefficient(order, k, s % 16));
    OneZigzag(order, k, s % 16);
    hide Zigzag, OneCoefficient;
    assert NBits(1) == 1 && NBits(2) == 2;
    ZeroRun(zz, 1, k, 0);
    ZeroTail(zz, k + 1, 0);
  }

  lemma DeepTokens(order: seq<nat>, n: nat)
    requires IsOrder(order)
    ensures var zz, k := Zigzag(order, DeepBlock(order, n)), LevelOf(n, RUNGS);
            && zz[0] == 0
            && AcTokens(zz, 1, 0) == if k == 0 then [Symbol(true, EOB)]
                                     else [Symbol(true, Rung(k)), ExtraToken(Rung(k) % 16)] + [Symbol(true, EOB)]
  {
    var k := LevelOf(n, RUNGS);
    if k == 0 {
      OneZigzag(order, 0, 0);
      ZeroTail(Zigzag(order, DeepBlock(order, n)), 1, 0);
    } else {
      RungLevel(k);
      OneSymbolTokens(order, Rung(k));
    }
  }

  // ---------- the statistics ----------

  function DeepMcus(order: seq<nat>, n: nat): (r: seq<Mcu>)
    requires IsOrder(order)
    ensures |r| == n
  {
    seq(n, i requires 0 <= i < n => [DeepBlock(order, i)])
  }

  /** A scan of one component. */
  ghost predicate OneComponent(cfg: ScanConfig) {
    cfg.Valid() && cfg.membership == [0] && |cfg.dcTbl| == 1
  }

  lemma NextDeep(order: seq<nat>, n: nat)
    requires IsOrder(order)
    ensures DeepMcus(order, n + 1) == DeepMcus(order, n) + [[DeepBlock(order, n)]]
    ensures DeepMcus(order, n + 1)[..n] == DeepMcus(order, n) && DeepMcus(order, n + 1)[n] == [DeepBlock(order, n)]
  {
  }

  /** All DC coefficients are zero, and so are the predictors. */
  lemma {:induction false} DcStaysZero(cfg: ScanConfig, n: nat)
    requires OneComponent(cfg)
    ensures FitAll(cfg, DeepMcus(cfg.order, n))
    ensures StartDc(cfg, ProgressAfter(cfg, DeepMcus(cfg.order, n))) == [0]
    ensures ProgressAfter(cfg, DeepMcus(cfg.order, n)).lastDc == [0]
  {
    hide DeepBlock, DcAfter;
    if n != 0 {
      DcStaysZero(cfg, n - 1);
      NextDeep(cfg.order, n - 1);
      FirstIsZero(cfg.order, n - 1);
      OneMcuDc(cfg, [DeepBlock(cfg.order, n - 1)]);
    }
  }

  lemma FirstIsZero(order: seq<nat>, n: nat)
    requires IsOrder(order)
    ensures DeepBlock(order, n)[0] == 0
  {
    hide DeepBlock;
    DeepTokens(order, n);
    FirstIsDc(order, DeepBlock(order, n));
  }

  lemma FirstIsDc(order: seq<nat>, b: Block)
    requires IsOrder(order)
    ensures Zigzag(order, b)[0] == b[0]
  {
  }

  lemma OneMcuDc(cfg: ScanConfig, mcu: Mcu)
    requires OneComponent(cfg) && |mcu| == 1 && mcu[0][0] == 0
    ensures DcAfter(cfg, mcu, [0], 0) == [0]
  {
    assert DcAfter(cfg, mcu, [0][0 := 0], 1) == [0];
  }

  lemma NextDeepBlocks(cfg: ScanConfig, n: nat)
    requires OneComponent(cfg) && FitAll(cfg, DeepMcus(cfg.order, n))
    ensures NextBlocks(cfg, DeepMcus(cfg.order, n), [DeepBlock(cfg.order, n)])
            == [CodedBlock(0, BlockTokens(Zigzag(cfg.order, DeepBlock(cfg.order, n)), 0))]
  {
    var mcu: Mcu := [DeepBlock(cfg.order, n)];
    DcStaysZero(cfg, n);
    hide StartDc, ProgressAfter, Zigzag, BlockTokens, DeepBlock;
    assert ScanCoding.McuBlocks(cfg, mcu, [0][0 := mcu[0][0]], 1) == [];
  }

  /** The counts after n blocks. */
  ghost predicate Counted(c: seq<nat>, n: nat) {
    && |c| == 257 && c[0] == n && c[256] == 0
    && forall s :: 1 <= s < 256 ==> c[s] == if Level(s) > 0 then CountOf(Level(s), n) else 0
  }

  /** One block more. */
  lemma CountBlock(c: seq<nat>, n: nat, order: seq<nat>)
    requires Counted(c, n) && IsOrder(order)
    ensures Counted(Tally(c, BlockTokens(Zigzag(order, DeepBlock(order, n)), 0), true), n + 1)
  {
    hide CountOf, LevelOf, Level, Rung, DeepBlock, Zigzag;
    var k := LevelOf(n, RUNGS);
    var zz := Zigzag(order, DeepBlock(order, n));
    DeepTokens(order, n);
    forall s | 1 <= s < 256 && Level(s) > 0
      ensures CountOf(Level(s), n + 1) == CountOf(Level(s), n) + if Level(s) == k then 1 else 0
    {
      CountStep(Level(s), n);
    }
    if k > 0 {
      RungLevel(k);
      OnlyRung(k);
    }
    TallyDeep(c, zz, k);
  }

  lemma TallyDeep(c: seq<nat>, zz: seq<int>, k: nat)
    requires |c| == 257 && |zz| == 64 && zz[0] == 0 && k <= RUNGS
    requires AcTokens(zz, 1, 0) == if k == 0 then [Symbol(true, EOB)]
                                   else [Symbol(true, Rung(k)), ExtraToken(Rung(k) % 16)] + [Symbol(true, EOB)]
    ensures Tally(c, BlockTokens(zz, 0), true)
            == if k == 0 then c[0 := c[0] + 1] else c[Rung(k) := c[Rung(k)] + 1][0 := c[0] + 1]
  {
    hide AcTokens, Rung, Tally, Level;
    ZeroDcTokens();
    TallyOther(c, Symbol(false, 0), AcTokens(zz, 1, 0));
    if k > 0 {
      RungLevel(k);
      TallyPair(c, AcTokens(zz, 1, 0)[..2], Rung(k), [Symbol(true, EOB)]);
      TallyEnd(c[Rung(k) := c[Rung(k)] + 1]);
    } else {
      TallyEnd(c);
    }
  }

  lemma TallyPair(c: seq<nat>, ts: seq<Token>, s: byte, rest: seq<Token>)
    requires |c| == 257 && |ts| == 2 && ts[0] == Symbol(true, s) && ts[1].Extra?
    ensures Tally(c, ts + rest, true) == Tally(c[s := c[s] + 1], rest, true)
  {
    assert (ts + rest)[1..] == [ts[1]] + rest;
    TallyOther(c[s := c[s] + 1], ts[1], rest);
  }

  lemma TallyOther(c: seq<nat>, t: Token, rest: seq<Token>)
    requires |c| == 257 && !(t.Symbol? && t.ac)
    ensures Tally(c, [t] + rest, true) == Tally(c, rest, true)
  {
    assert ([t] + rest)[1..] == rest;
  }

  lemma TallyEnd(c: seq<nat>)
    requires |c| == 257
    ensures Tally(c, [Symbol(true, EOB)], true) == c[0 := c[0] + 1]
  {
    assert [Symbol(true, EOB)][1..] == [];
  }

  lemma {:induction false} DeepTally(cfg: ScanConfig, n: nat)
    requires OneComponent(cfg) && FitAll(cfg, DeepMcus(cfg.order, n))
    ensures Counted(ScanTally(cfg, DeepMcus(cfg.order, n), cfg.AcSlot(0)), n)
  {
    hide Counted, DeepBlock, Tally, DeepMcus, NextBlocks, BlockTokens, Zigzag;
    if n == 0 {
      NothingCounted();
      assert DeepMcus(cfg.order, 0) == [];
    } else {
      var slot, mcus := cfg.AcSlot(0), DeepMcus(cfg.order, n);
      NextDeep(cfg.order, n - 1);
      DcStaysZero(cfg, n - 1);
      DeepTally(cfg, n - 1);
      NextDeepBlocks(cfg, n - 1);
      var c := ScanTally(cfg, DeepMcus(cfg.order, n - 1), slot);
      CountBlock(c, n - 1, cfg.order);
      OneBlockTally(cfg, CodedBlock(0, BlockTokens(Zigzag(cfg.order, DeepBlock(cfg.order, n - 1)), 0)), slot, c);
    }
  }

  lemma NothingCounted()
    ensures Counted(NoCounts(), 0)
  {
    forall k: nat | 1 <= k <= RUNGS ensures CountOf(k, 0) == 0 {
      FibPositive(k + 1);
    }
  }

  lemma OneBlockTally(cfg: ScanConfig, b: CodedBlock, slot: nat, c: seq<nat>)
    requires OneComponent(cfg) && b.ci == 0 && slot == cfg.AcSlot(0) && |c| == 257
    ensures BlocksTally(cfg, [b], slot, c) == Tally(c, b.tokens, true)
  {
    assert UsesSlot(cfg, 0, slot);
    assert [b][1..] == [];
  }

  /** From 5,702,886 blocks on, the counts are those of the ladder. */
  lemma DeepIsLadder(c: seq<nat>, n: nat)
    requires Counted(c, n) && n >= 5_702_886
    ensures WithPseudo(c) == Ladder(n)
  {
    var w: seq<nat> := WithPseudo(c);
    FibOf35();
    FibZero();
    forall s | 0 <= s < 257 ensures w[s] == Ladder(n)[s] {
      if 1 <= s < 256 && Level(s) > 0 {
        FibMono(Level(s) + 2, RUNGS + 2);
      }
    }
  }

  lemma FibZero()
    ensures Fib(0) == 0
  {
  }

  lemma DeepInRange(cfg: ScanConfig, n: nat)
    requires OneComponent(cfg) && FitAll(cfg, DeepMcus(cfg.order, n))
    ensures AllInRange(cfg, DeepMcus(cfg.order, n))
  {
    hide NextBlocks, DeepBlock, BlockTokens;
    var mcus := DeepMcus(cfg.order, n);
    forall i | 0 <= i < |mcus| ensures McuInRange(cfg, mcus[..i], mcus[i]) {
      assert mcus[..i] == DeepMcus(cfg.order, i);
      NextDeepBlocks(cfg, i);
      DeepNotBad(cfg.order, i);
    }
  }

  lemma DeepNotBad(order: seq<nat>, n: nat)
    requires IsOrder(order)
    ensures Bad !in BlockTokens(Zigzag(order, DeepBlock(order, n)), 0)
  {
    hide DeepBlock, LevelOf, Rung, AcTokens, Zigzag;
    DeepTokens(order, n);
    ZeroDcTokens();
  }

  // ---------- the image ----------

  function DeepFrame(): Frame {
    FrameFor(19200, 19200, [Sampling(1, 1)])
  }

  function DeepJob(order: seq<nat>): Job
    requires IsOrder(order)
  {
    Job(DeepFrame(), [0], Scan([ScanComponent(0, 1, 1, 1, 1)], SIDE, SIDE, [0], 0),
        (i: nat, row: nat, col: nat) => DeepBlock(order, row * SIDE + col))
  }

  lemma DeepFrameIs()
    ensures var f := DeepFrame();
            f.Valid() && f.totalIMcuRows == SIDE && |f.comps| == 1 && f.comps[0] == Component(1, 1, SIDE, SIDE)
  {
    var s := [Sampling(1, 1)];
    assert LegalSampling(s[0]);
    assert Hs(s) == [1] && Vs(s) == [1];
    FrameIsValid(19200, 19200, s);
    CeilDivUnique(19200, 8, SIDE);
  }

  lemma DeepJobIsValid(order: seq<nat>)
    requires IsOrder(order)
    ensures var j := DeepJob(order);
            j.Valid() && j.frame.totalIMcuRows == SIDE && j.scan.membership == [0] && |j.cur| == 1
  {
    DeepFrameIs();
    var sc := ScanComponent(0, 1, 1, 1, 1);
    assert Membership([sc], 1) == [] + seq(1, _ => 0) == [0];
  }

  lemma OneBlockMcu(order: seq<nat>, row: nat, col: nat)
    requires IsOrder(order) && row < SIDE && col < SIDE
    ensures DeepJob(order).Valid() && DeepJob(order).McuAt(row, 0, col) == [DeepBlock(order, row * SIDE + col)]
  {
    DeepFrameIs();
    DeepJobIsValid(order);
    hide DeepFrame, DeepBlock;
    var j := DeepJob(order);
    assert j.CompBlocks(0, row, col, 1) == [] + j.RowBlocks(0, row, col, 1);
    assert j.RowBlocks(0, row, col, 1) == [j.Coef(0, row, col)];
    assert j.McuTo(row, 0, col, 1) == [] + j.CompBlocks(0, row, col, 1);
  }

  lemma {:induction false} DeepPart(order: seq<nat>, row: nat, n: nat)
    requires IsOrder(order) && row < SIDE && n <= SIDE && DeepJob(order).Valid()
    ensures DeepMcus(order, row * SIDE) + DeepJob(order).Part(row, 0, n) == DeepMcus(order, row * SIDE + n)
  {
    hide DeepJob, DeepBlock;
    if n != 0 {
      DeepPart(order, row, n - 1);
      OneBlockMcu(order, row, n - 1);
      NextDeep(order, row * SIDE + (n - 1));
      Assoc(DeepMcus(order, row * SIDE), DeepJob(order).Part(row, 0, n - 1), [DeepJob(order).McuAt(row, 0, n - 1)]);
    }
  }

  /** Row by row the image is made of these blocks. */
  lemma {:induction false} DeepRows(order: seq<nat>, rows: nat)
    requires IsOrder(order) && rows <= SIDE && DeepJob(order).Valid()
    ensures DeepJob(order).IMcuRows(rows) == DeepMcus(order, rows * SIDE)
  {
    hide DeepJob, DeepBlock, Job.McuRows, Job.Rows, Job.Part;
    if rows != 0 {
      DeepRows(order, rows - 1);
      DeepPart(order, rows - 1, SIDE);
      OneRow(order, rows - 1);
    }
  }

  lemma OneRow(order: seq<nat>, row: nat)
    requires IsOrder(order) && row < SIDE && DeepJob(order).Valid()
    ensures var j := DeepJob(order); j.Rows(row, j.McuRows(row)) == j.Part(row, 0, SIDE)
  {
    DeepFrameIs();
    hide DeepFrame, DeepBlock, Job.Part;
    var j := DeepJob(order);
    assert j.McuRows(row) == 1;
    assert j.Rows(row, 1) == [] + j.Part(row, 0, SIDE);
  }

  /** The image is legal, its coefficients are in range, all its counts are seen; and yet there is no table for them. */
  lemma DeepImageFails(cfg: ScanConfig)
    requires OneComponent(cfg)
    ensures var job := DeepJob(cfg.order);
            && Matches(job, cfg) && FitAll(cfg, job.AllMcus()) && AllInRange(cfg, job.AllMcus())
            && AcCountsFit(cfg, job.AllMcus()) && SomeTooDeep(cfg, job.AllMcus()) && Unfit(cfg, job.AllMcus())
  {
    hide Job.AllMcus, DeepMcus, AllInRange, DeepJob, AcCountsFit, SomeTooDeep, Matches;
    DeepJobMatches(cfg);
    DeepMcusFail(cfg);
  }

  lemma DeepJobMatches(cfg: ScanConfig)
    requires OneComponent(cfg)
    ensures Matches(DeepJob(cfg.order), cfg) && DeepJob(cfg.order).AllMcus() == DeepMcus(cfg.order, SIDE * SIDE)
  {
    hide DeepMcus, DeepJob, Job.Valid, Job.IMcuRows;
    DeepJobIsValid(cfg.order);
    DeepRows(cfg.order, SIDE);
  }

  lemma DeepMcusFail(cfg: ScanConfig)
    requires OneComponent(cfg)
    ensures var mcus := DeepMcus(cfg.order, SIDE * SIDE);
            && FitAll(cfg, mcus) && AllInRange(cfg, mcus) && AcCountsFit(cfg, mcus) && SomeTooDeep(cfg, mcus)
  {
    hide ScanTally, Height, CountsFit, Ladder, Counted, DeepMcus, AllInRange, FitAll;
    var slot, n := cfg.AcSlot(0), SIDE * SIDE;
    var mcus := DeepMcus(cfg.order, n);
    DcStaysZero(cfg, n);
    DeepInRange(cfg, n);
    FewBlocksFit(cfg, mcus);
    DeepTally(cfg, n);
    DeepIsLadder(ScanTally(cfg, mcus, slot), n);
    LadderIsDeep(n);
    assert UsesSlot(cfg, 0, slot);
    assert TooDeep(ScanTally(cfg, mcus, slot));
  }
}
