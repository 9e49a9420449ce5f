/** The coefficient controller of jccoefct.c: single-pass compression, and compression through a
    buffer that holds the whole image. Both deliver the same MCUs in the same order. */
module CoefController {
  import opened Sequences
  import opened Powers
  import opened BitStrings
  import opened CanonicalCode
  import opened BitWriter
  import opened BlockCoding
  import opened ScanCoding
  import opened HuffEncoder
  import opened Statistics
  import opened Geometry
  import opened CoefImage

  /** The entropy encoder's encode_mcu pointer: the Huffman coder, or the statistics gatherer. */
  datatype Entropy = Encode(huff: HuffEntropyEncoder) | Gather(stats: StatisticsPass) {

    ghost function Repr(): set<object> {
      match this
      case Encode(e) => {e, e.dest, e.dest.buffer}
      case Gather(s) => {s} + set o: object | o in s.counts
    }

    function Cfg(): ScanConfig {
      match this
      case Encode(e) => e.cfg
      case Gather(s) => s.cfg
    }

    ghost predicate Valid()
      reads Repr()
    {
      match this
      case Encode(e) => e.Valid()
      case Gather(s) => s.Valid()
    }

    /** The MCUs taken so far. */
    ghost function Delivered(): seq<Mcu>
      reads Repr()
    {
      match this
      case Encode(e) => e.accepted
      case Gather(s) => s.seen
    }

    ghost predicate Takes(mcu: Mcu)
      reads Repr()
      requires Valid() && FitsScan(Cfg(), mcu)
    {
      match this
      case Encode(e) => e.CanEncode(mcu)
      case Gather(s) => McuInRange(s.cfg, s.seen, mcu)
    }

    /** The tables the Huffman coder works with. */
    ghost function Tables(): Tables
      reads Repr()
    {
      match this
      case Encode(e) => e.tables
      case Gather(_) => seq(8, _ => DerivedTable([], []))
    }

    /** With these tables, can all these MCUs be taken, one after the other? */
    ghost predicate CanTake(tables: Tables, mcus: seq<Mcu>) {
      && Cfg().Valid() && FitAll(Cfg(), mcus)
      && match this
         case Encode(e) => Ready(e.cfg, tables) && EncodableInTurn(e.cfg, tables, mcus)
         case Gather(s) => AllInRange(s.cfg, mcus)
    }

    lemma TakesNext(mcus: seq<Mcu>, mcu: Mcu)
      requires Valid() && FitsScan(Cfg(), mcu) && CanTake(Tables(), mcus) && Delivered() + [mcu] <= mcus
      ensures Takes(mcu)
    {
      var n := |Delivered()|;
      assert (Delivered() + [mcu])[n] == mcu && mcus[n] == mcu;
      assert mcus[..n] == Delivered();
    }

    /** Only a Huffman coder whose destination refuses can suspend. */
    predicate NeverSuspends() {
      match this
      case Encode(e) => !e.dest.suspends
      case Gather(_) => true
    }

    /** The destination has no room for this MCU now. */
    ghost predicate NoRoom(mcu: Mcu)
      reads Repr()
      requires Valid() && FitsScan(Cfg(), mcu)
      ensures NoRoom(mcu) ==> !NeverSuspends()
    {
      match this
      case Encode(e) => !e.HasRoom(mcu)
      case Gather(_) => false
    }

    /** The destination has no room for the MCU that comes after those taken. */
    ghost predicate Blocked(mcus: seq<Mcu>)
      reads Repr()
      requires Valid()
      ensures Blocked(mcus) ==> !NeverSuspends()
    {
      var n := |Delivered()|;
      n < |mcus| && FitsScan(Cfg(), mcus[n]) && NoRoom(mcus[n])
    }

    /** What the application has taken out of the buffer of a destination that refuses. */
    ghost function Taken(): seq<byte>
      reads Repr()
    {
      match this
      case Encode(e) => if e.dest.suspends then e.dest.flushed else []
      case Gather(_) => []
    }

    /** An MCU is taken as a whole or not at all; it is refused exactly when there is no room for it. */
    method EncodeMcu(mcu: Mcu) returns (o: Outcome)
      requires Valid() && FitsScan(Cfg(), mcu)
      modifies Repr()
      ensures o.Done? ==> Valid() && Delivered() == old(Delivered()) + [mcu]
      ensures o.Suspended? ==> Valid() && Delivered() == old(Delivered()) && NoRoom(mcu)
      ensures o.Done? ==> old(Takes(mcu)) && !old(NoRoom(mcu))
      ensures Tables() == old(Tables()) && Taken() == old(Taken())
      ensures o.Fatal? ==> !old(Takes(mcu))
    {
      match this
      case Encode(e) =>
        o := e.EncodeMcu(mcu);
      case Gather(s) =>
        var ok := s.GatherMcu(mcu);
        o := if ok then Done else Fatal(BadDctCoef);
    }
  }

  class CoefController {
    var iMcuRowNum: nat
    var mcuCtr: nat
    var mcuVertOffset: nat
    var mcuRowsPerIMcuRow: nat
    const mcuBuffer: array<Block>
    const wholeImage: seq<array2<Block>>     // empty in single-pass compression

    /** jinit_c_coef_controller when no full-image buffer is needed. */
    constructor SinglePass()
      ensures mcuBuffer.Length == C_MAX_BLOCKS_IN_MCU && wholeImage == [] && fresh(mcuBuffer)
    {
      mcuBuffer := new Block[C_MAX_BLOCKS_IN_MCU](_ => Dummy(0));
      wholeImage := [];
      iMcuRowNum, mcuCtr, mcuVertOffset, mcuRowsPerIMcuRow := 0, 0, 0, 0;
    }

    // ---------- building an MCU from the input: compress_data ----------

    /** forward_DCT: num blocks of a row, from column col. */
    method ForwardDct(job: Job, i: nat, at: nat, row: nat, col: nat, num: nat)
      requires at + num <= mcuBuffer.Length
      modifies mcuBuffer
      ensures mcuBuffer[..at + num] == old(mcuBuffer[..at]) + DctBlocks(job, i, row, col, num)
    {
      for x := 0 to num
        invariant mcuBuffer[..at + x] == old(mcuBuffer[..at]) + DctBlocks(job, i, row, col, x)
      {
        mcuBuffer[at + x] := job.dct(i, row, col + x);
        assert mcuBuffer[..at + x + 1] == mcuBuffer[..at + x] + [job.dct(i, row, col + x)];
        assert DctBlocks(job, i, row, col, x + 1) == DctBlocks(job, i, row, col, x) + [job.dct(i, row, col + x)];
      }
    }

    /** Dummy blocks at the right edge: each takes the DC value of the block before it. */
    method RightDummies(at: nat, num: nat)
      requires 1 <= at && at + num <= mcuBuffer.Length
      modifies mcuBuffer
      ensures mcuBuffer[..at + num] == old(mcuBuffer[..at]) + Repeat<Block>(Dummy(old(mcuBuffer[at - 1][0])), num)
    {
      ghost var dc := mcuBuffer[at - 1][0];
      for bi := 0 to num
        invariant mcuBuffer[at + bi - 1][0] == dc
        invariant mcuBuffer[..at + bi] == old(mcuBuffer[..at]) + Repeat<Block>(Dummy(dc), bi)
      {
        mcuBuffer[at + bi] := Dummy(mcuBuffer[at + bi - 1][0]);
        assert mcuBuffer[..at + bi + 1] == mcuBuffer[..at + bi] + [Dummy(dc)];
        assert Repeat<Block>(Dummy(dc), bi + 1) == Repeat<Block>(Dummy(dc), bi) + [Dummy(dc)];
      }
    }

    /** A row of dummy blocks at the bottom edge: all take the DC value of the block before the row. */
    method BottomDummies(at: nat, num: nat)
      requires 1 <= at && at + num <= mcuBuffer.Length
      modifies mcuBuffer
      ensures mcuBuffer[..at + num] == old(mcuBuffer[..at]) + Repeat<Block>(Dummy(old(mcuBuffer[at - 1][0])), num)
    {
      ghost var dc := mcuBuffer[at - 1][0];
      for bi := 0 to num
        invariant mcuBuffer[at - 1][0] == dc
        invariant mcuBuffer[..at + bi] == old(mcuBuffer[..at]) + Repeat<Block>(Dummy(dc), bi)
      {
        mcuBuffer[at + bi] := Dummy(mcuBuffer[at - 1][0]);
        assert mcuBuffer[..at + bi + 1] == mcuBuffer[..at + bi] + [Dummy(dc)];
        assert Repeat<Block>(Dummy(dc), bi + 1) == Repeat<Block>(Dummy(dc), bi) + [Dummy(dc)];
      }
    }

    /** A row of blocks of an MCU that lies inside the image, at least in part. */
    method RealRow(job: Job, i: nat, blkn: nat, row: nat, col: nat, blockcnt: nat, w: nat)
      requires RealRun(job, i, row, col, blockcnt, w) && blkn + w <= mcuBuffer.Length
      modifies mcuBuffer
      ensures mcuBuffer[..blkn + w] == old(mcuBuffer[..blkn]) + job.RowBlocks(i, row, col, w)
    {
      ForwardDct(job, i, blkn, row, col, blockcnt);
      RealRowIs(job, i, row, col, blockcnt, w);
      if blockcnt < w {
        var at := blkn + blockcnt;
        ghost var filled := mcuBuffer[..at];
        assert mcuBuffer[at - 1] == filled[at - 1];
        RightDummies(at, w - blockcnt);
      }
    }

    /** A row of blocks of an MCU that lies below the image. */
    method BottomRow(job: Job, i: nat, blkn: nat, row: nat, ghost mcuCol: nat, ghost col: nat)
      requires job.frame.Valid() && job.ValidIndex(i) && row >= job.frame.comps[i].heightInBlocks && row >= 1
      requires 1 <= blkn && job.frame.comps[i].h >= 1 && blkn + job.frame.comps[i].h <= mcuBuffer.Length
      requires var h := job.frame.comps[i].h;
               col == mcuCol * h && mcuBuffer[blkn - 1] == job.Coef(i, row - 1, col + (h - 1))
      modifies mcuBuffer
      ensures var h := job.frame.comps[i].h;
              mcuBuffer[..blkn + h] == old(mcuBuffer[..blkn]) + job.RowBlocks(i, row, col, h)
    {
      BottomRowIs(job, i, row, mcuCol, col);
      BottomDummies(blkn, job.frame.comps[i].h);
    }

    /** The buffer holds the blocks of the first ci components, and y rows of component ci. */
    ghost predicate Built(job: Job, yoffset: nat, mcuCol: nat, ci: nat, y: nat, blkn: nat)
      reads this, mcuBuffer
      requires job.Valid() && ci < |job.cur|
    {
      && blkn <= mcuBuffer.Length
      && mcuBuffer[..blkn] == PartOfMcu(job, iMcuRowNum, yoffset, mcuCol, ci, y)
    }

    /** The buffer holds the blocks of the first ci components. */
    ghost predicate Filled(job: Job, yoffset: nat, mcuCol: nat, ci: nat, blkn: nat)
      reads this, mcuBuffer
      requires job.Valid() && ci <= |job.cur|
    {
      && blkn == |Membership(job.scan.comps, ci)| <= mcuBuffer.Length
      && mcuBuffer[..blkn] == job.McuTo(iMcuRowNum, yoffset, mcuCol, ci)
    }

    lemma FilledNone(job: Job, yoffset: nat, mcuCol: nat)
      requires job.Valid()
      ensures Filled(job, yoffset, mcuCol, 0, 0)
    {
    }

    lemma FilledAll(job: Job, yoffset: nat, mcuCol: nat, blkn: nat)
      requires job.Valid() && Filled(job, yoffset, mcuCol, |job.cur|, blkn)
      ensures |job.scan.membership| <= mcuBuffer.Length
      ensures mcuBuffer[..|job.scan.membership|] == job.McuAt(iMcuRowNum, yoffset, mcuCol)
    {
    }

    /** One turn of the yindex loop: a row of blocks of one component. */
    method InputRow(job: Job, ci: nat, yoffset: nat, mcuCol: nat, yindex: nat, blkn: nat)
      requires job.Valid() && ci < |job.cur| && yindex < job.scan.comps[ci].mcuHeight
      requires job.IsPosition(iMcuRowNum, yoffset, mcuCol)
      requires blkn + job.scan.comps[ci].mcuWidth <= mcuBuffer.Length && Built(job, yoffset, mcuCol, ci, yindex, blkn)
      modifies mcuBuffer
      ensures Built(job, yoffset, mcuCol, ci, yindex + 1, blkn + job.scan.comps[ci].mcuWidth)
    {
      hide PartOfMcu, Job.RowBlocks, Job.Coef, CeilDiv, Last, Membership, RealRun;
      var sc := job.scan.comps[ci];
      var blockcnt := if mcuCol + 1 < job.scan.mcusPerRow then sc.mcuWidth else sc.lastColWidth;
      var row := job.BaseRow(ci, iMcuRowNum, yoffset) + yindex;
      OneMoreRow(job, iMcuRowNum, yoffset, mcuCol, ci, yindex);
      RowFacts(job, ci, iMcuRowNum, yoffset, yindex);
      if iMcuRowNum + 1 < job.frame.totalIMcuRows || yoffset + yindex < sc.lastRowHeight {
        ColumnFacts(job, ci, mcuCol, row);
        RealRow(job, job.cur[ci], blkn, row, job.StartCol(ci, mcuCol), blockcnt, sc.mcuWidth);
      } else {
        LastOfRow(job, iMcuRowNum, yoffset, mcuCol, ci, yindex, row, mcuBuffer[..blkn]);
        BottomRow(job, job.cur[ci], blkn, row, mcuCol, job.StartCol(ci, mcuCol));
      }
    }

    /** The blocks of one component: MCU_height rows of them. */
    method InputComponent(job: Job, ci: nat, yoffset: nat, mcuCol: nat, at: nat) returns (blkn: nat)
      requires job.Valid() && ci < |job.cur| && job.IsPosition(iMcuRowNum, yoffset, mcuCol)
      requires Filled(job, yoffset, mcuCol, ci, at) && |Membership(job.scan.comps, ci + 1)| <= mcuBuffer.Length
      modifies mcuBuffer
      ensures Filled(job, yoffset, mcuCol, ci + 1, blkn)
    {
      hide PartOfMcu, Job.IsPosition, CeilDiv, Last, Membership, Job.McuTo;
      var sc := job.scan.comps[ci];
      blkn := at;
      MembershipNext(job.scan.comps, ci);
      PartEnds(job, iMcuRowNum, yoffset, mcuCol, ci);
      for yindex := 0 to sc.mcuHeight
        invariant blkn == at + yindex * sc.mcuWidth && Built(job, yoffset, mcuCol, ci, yindex, blkn)
      {
        RowFits(yindex, sc.mcuHeight, sc.mcuWidth);
        InputRow(job, ci, yoffset, mcuCol, yindex, blkn);
        blkn := blkn + sc.mcuWidth;
      }
    }

    /** The component loop of compress_data: the MCU at a position, dummy blocks included. */
    method InputMcu(job: Job, yoffset: nat, mcuCol: nat)
      requires job.Valid() && job.IsPosition(iMcuRowNum, yoffset, mcuCol) && mcuBuffer.Length == C_MAX_BLOCKS_IN_MCU
      modifies mcuBuffer
      ensures mcuBuffer[..|job.scan.membership|] == job.McuAt(iMcuRowNum, yoffset, mcuCol)
    {
      hide *;
      McuEnds(job, iMcuRowNum, yoffset, mcuCol);
      var blkn := 0;
      FilledNone(job, yoffset, mcuCol);
      for ci := 0 to |job.cur|
        invariant Filled(job, yoffset, mcuCol, ci, blkn)
      {
        MembershipMono(job.scan.comps, ci + 1, |job.cur|);
        blkn := InputComponent(job, ci, yoffset, mcuCol, blkn);
      }
      FilledAll(job, yoffset, mcuCol, blkn);
    }

    // ---------- sending MCUs, and being suspended ----------

    /** The controller's position, and what the entropy encoder has taken: exactly the MCUs before it. */
    ghost predicate At(job: Job, entropy: Entropy, yoffset: nat, mcuCol: nat)
      reads this, entropy.Repr()
    {
      && job.Valid() && entropy.Valid() && entropy.Cfg().membership == job.scan.membership
      && mcuBuffer.Length == C_MAX_BLOCKS_IN_MCU && Apart(entropy)
      && iMcuRowNum < job.frame.totalIMcuRows && mcuRowsPerIMcuRow == job.McuRows(iMcuRowNum)
      && yoffset <= mcuRowsPerIMcuRow && mcuCol <= job.scan.mcusPerRow
      && entropy.Delivered() == job.Before(iMcuRowNum, yoffset, mcuCol)
    }

    /** The encoder works on none of the controller's memory. */
    ghost predicate Apart(entropy: Entropy) {
      && this !in entropy.Repr() && mcuBuffer as object !in entropy.Repr()
      && forall k :: 0 <= k < |wholeImage| ==> wholeImage[k] as object !in entropy.Repr()
    }

    /** Between calls: the saved position is where the encoder is, or the scan is complete. */
    ghost predicate Valid(job: Job, entropy: Entropy)
      reads this, entropy.Repr()
    {
      if iMcuRowNum < job.frame.totalIMcuRows then
        At(job, entropy, mcuVertOffset, mcuCtr) && mcuVertOffset < mcuRowsPerIMcuRow
      else
        && job.Valid() && entropy.Valid() && entropy.Delivered() == job.AllMcus()
        && entropy.Cfg().membership == job.scan.membership
        && mcuBuffer.Length == C_MAX_BLOCKS_IN_MCU && Apart(entropy)
    }

    /** start_iMCU_row. */
    method StartIMcuRow(job: Job)
      requires job.Valid()
      modifies this`mcuCtr, this`mcuVertOffset, this`mcuRowsPerIMcuRow
      ensures mcuCtr == 0 && mcuVertOffset == 0
      ensures mcuRowsPerIMcuRow == job.McuRows(iMcuRowNum)
    {
      if |job.cur| > 1 {
        mcuRowsPerIMcuRow := 1;
      } else if iMcuRowNum + 1 < job.frame.totalIMcuRows {
        mcuRowsPerIMcuRow := job.frame.comps[job.cur[0]].v;
      } else {
        mcuRowsPerIMcuRow := job.scan.comps[0].lastRowHeight;
      }
      mcuCtr := 0;
      mcuVertOffset := 0;
    }

    /** start_pass_coef, for a fresh entropy encoder. */
    method StartPass(job: Job, entropy: Entropy)
      requires job.Valid() && entropy.Valid() && entropy.Cfg().membership == job.scan.membership
      requires entropy.Delivered() == [] && mcuBuffer.Length == C_MAX_BLOCKS_IN_MCU && Apart(entropy)
      modifies this
      ensures Valid(job, entropy) && iMcuRowNum == 0
    {
      iMcuRowNum := 0;
      StartIMcuRow(job);
      ComponentFillsMcus(job.frame, job.cur[0]);
      job.AtStart();
    }

    /** Hand the MCU in the buffer to the entropy encoder. */
    method SendMcu(job: Job, entropy: Entropy, yoffset: nat, mcuCol: nat) returns (o: Outcome)
      requires At(job, entropy, yoffset, mcuCol) && job.IsPosition(iMcuRowNum, yoffset, mcuCol)
      requires mcuBuffer[..|job.scan.membership|] == job.McuAt(iMcuRowNum, yoffset, mcuCol)
      modifies entropy.Repr()
      ensures o.Done? ==> At(job, entropy, yoffset, mcuCol + 1)
      ensures o.Suspended? ==> At(job, entropy, yoffset, mcuCol) && entropy.Blocked(job.AllMcus())
      ensures o.Fatal? ==> !old(entropy.CanTake(entropy.Tables(), job.AllMcus()))
      ensures entropy.Tables() == old(entropy.Tables()) && entropy.Taken() == old(entropy.Taken())
      ensures !o.Fatal? ==> |entropy.Delivered()| >= old(|entropy.Delivered()|)
    {
      ghost var mcu: Mcu := job.McuAt(iMcuRowNum, yoffset, mcuCol);
      job.NextMcu(iMcuRowNum, yoffset, mcuCol);
      job.PositionInScan(iMcuRowNum, yoffset, mcuCol);
      if entropy.CanTake(entropy.Tables(), job.AllMcus()) {
        entropy.TakesNext(job.AllMcus(), mcu);
      }
      o := entropy.EncodeMcu(mcuBuffer[..|job.scan.membership|]);
    }

    /** Build one MCU, and hand it to the entropy encoder. */
    method DataMcu(job: Job, entropy: Entropy, yoffset: nat, mcuCol: nat) returns (o: Outcome)
      requires At(job, entropy, yoffset, mcuCol) && yoffset < mcuRowsPerIMcuRow && mcuCol < job.scan.mcusPerRow
      modifies mcuBuffer, entropy.Repr()
      ensures o.Done? ==> At(job, entropy, yoffset, mcuCol + 1)
      ensures o.Suspended? ==> At(job, entropy, yoffset, mcuCol) && entropy.Blocked(job.AllMcus())
      ensures o.Fatal? ==> !old(entropy.CanTake(entropy.Tables(), job.AllMcus()))
      ensures entropy.Tables() == old(entropy.Tables()) && entropy.Taken() == old(entropy.Taken())
      ensures !o.Fatal? ==> |entropy.Delivered()| >= old(|entropy.Delivered()|)
    {
      hide Entropy.Valid, Entropy.Delivered, Entropy.Tables, Entropy.Taken, Entropy.Blocked, Entropy.CanTake;
      hide Job.Before, Job.AllMcus, Job.McuAt;
      InputMcu(job, yoffset, mcuCol);
      o := SendMcu(job, entropy, yoffset, mcuCol);
    }

    /** One MCU row of compress_data, from the saved column on. */
    method DataRow(job: Job, entropy: Entropy, yoffset: nat) returns (o: Outcome)
      requires At(job, entropy, yoffset, mcuCtr) && yoffset < mcuRowsPerIMcuRow
      modifies this`mcuCtr, this`mcuVertOffset, mcuBuffer, entropy.Repr()
      ensures o.Done? ==> mcuCtr == 0 && At(job, entropy, yoffset + 1, 0)
      ensures o.Suspended? ==> Valid(job, entropy) && entropy.Blocked(job.AllMcus())
      ensures o.Fatal? ==> !old(entropy.CanTake(entropy.Tables(), job.AllMcus()))
      ensures entropy.Tables() == old(entropy.Tables()) && entropy.Taken() == old(entropy.Taken())
      ensures !o.Fatal? ==> |entropy.Delivered()| >= old(|entropy.Delivered()|)
    {
      hide Entropy.Valid, Entropy.Delivered, Entropy.Tables, Entropy.Taken, Entropy.Blocked, Entropy.CanTake;
      hide Job.Before, Job.AllMcus, Job.McuAt;
      var mcuCol := mcuCtr;
      while mcuCol < job.scan.mcusPerRow
        invariant At(job, entropy, yoffset, mcuCol)
        invariant entropy.Tables() == old(entropy.Tables()) && entropy.Taken() == old(entropy.Taken())
        invariant |entropy.Delivered()| >= old(|entropy.Delivered()|)
      {
        o := DataMcu(job, entropy, yoffset, mcuCol);
        if o.Suspended? {
          mcuVertOffset := yoffset;
          mcuCtr := mcuCol;
          return;
        }
        if o.Fatal? {
          return;
        }
        mcuCol := mcuCol + 1;
      }
      job.NextRow(iMcuRowNum, yoffset);
      mcuCtr := 0;
      o := Done;
    }

    /** The end of an iMCU row. */
    method FinishIMcuRow(job: Job, entropy: Entropy)
      requires At(job, entropy, mcuRowsPerIMcuRow, 0)
      modifies this`iMcuRowNum, this`mcuCtr, this`mcuVertOffset, this`mcuRowsPerIMcuRow
      ensures Valid(job, entropy) && iMcuRowNum == old(iMcuRowNum) + 1
    {
      hide Entropy.Valid, Entropy.Delivered, Entropy.Tables, Entropy.Taken, Entropy.Blocked, Entropy.CanTake;
      hide Job.Before, Job.AllMcus, Job.McuAt;
      job.NextIMcuRow(iMcuRowNum);
      if iMcuRowNum + 1 == job.frame.totalIMcuRows {
        job.AtEnd();
      }
      iMcuRowNum := iMcuRowNum + 1;
      StartIMcuRow(job);
    }

    /** compress_data: one iMCU row straight from the input. Whether it finishes or is suspended, the
        encoder has taken exactly the MCUs before the saved position. */
    method CompressData(job: Job, entropy: Entropy) returns (o: Outcome)
      requires Valid(job, entropy) && iMcuRowNum < job.frame.totalIMcuRows
      modifies this`iMcuRowNum, this`mcuCtr, this`mcuVertOffset, this`mcuRowsPerIMcuRow, mcuBuffer, entropy.Repr()
      ensures o.Done? ==> Valid(job, entropy) && iMcuRowNum == old(iMcuRowNum) + 1
      ensures o.Suspended? ==> Valid(job, entropy) && iMcuRowNum == old(iMcuRowNum) && entropy.Blocked(job.AllMcus())
      ensures o.Fatal? ==> !old(entropy.CanTake(entropy.Tables(), job.AllMcus()))
      ensures entropy.Tables() == old(entropy.Tables()) && entropy.Taken() == old(entropy.Taken())
      ensures !o.Fatal? ==> |entropy.Delivered()| >= old(|entropy.Delivered()|)
    {
      hide Entropy.Valid, Entropy.Delivered, Entropy.Tables, Entropy.Taken, Entropy.Blocked, Entropy.CanTake;
      hide Job.Before, Job.AllMcus, Job.McuAt;
      var yoffset := mcuVertOffset;
      while yoffset < mcuRowsPerIMcuRow
        invariant 0 <= yoffset && At(job, entropy, yoffset, mcuCtr) && iMcuRowNum == old(iMcuRowNum)
        invariant yoffset == mcuRowsPerIMcuRow ==> mcuCtr == 0
        invariant entropy.Tables() == old(entropy.Tables()) && entropy.Taken() == old(entropy.Taken())
        invariant |entropy.Delivered()| >= old(|entropy.Delivered()|)
      {
        o := DataRow(job, entropy, yoffset);
        if !o.Done? {
          return;
        }
        yoffset := yoffset + 1;
      }
      FinishIMcuRow(job, entropy);
      o := Done;
    }

    // ---------- the full-image buffer: compress_first_pass ----------

    /** jinit_c_coef_controller when the whole image is buffered: one array of blocks for each component, padded to
        whole MCUs. */
    constructor FullImage(job: Job)
      requires job.frame.Valid()
      ensures mcuBuffer.Length == C_MAX_BLOCKS_IN_MCU && fresh(mcuBuffer) && HasImage(job)
      ensures forall k :: 0 <= k < |wholeImage| ==> fresh(wholeImage[k])
    {
      mcuBuffer := new Block[C_MAX_BLOCKS_IN_MCU](_ => Dummy(0));
      iMcuRowNum, mcuCtr, mcuVertOffset, mcuRowsPerIMcuRow := 0, 0, 0, 0;
      var image: seq<array2<Block>> := [];
      for ci := 0 to |job.frame.comps|
        invariant |image| == ci
        invariant forall k :: 0 <= k < ci ==> fresh(image[k]) && PaddedArray(job, k, image[k])
        invariant forall j, k :: 0 <= j < k < ci ==> image[j] != image[k]
      {
        var c := job.frame.comps[ci];
        assert job.frame.ValidComponent(c);
        var w := new Block[RoundUp(c.heightInBlocks, c.v), RoundUp(c.widthInBlocks, c.h)]((_, _) => Dummy(0));
        PaddedSize(job, ci, w);
        image := image + [w];
      }
      wholeImage := image;
    }

    ghost predicate HasImage(job: Job)
      requires job.frame.Valid()
    {
      && |wholeImage| == |job.frame.comps|
      && (forall k :: 0 <= k < |wholeImage| ==> PaddedArray(job, k, wholeImage[k]))
      && forall j, k :: 0 <= j < k < |wholeImage| ==> wholeImage[j] != wholeImage[k]
    }

    /** Row `row` of the array holds the blocks of component i, dummy blocks included. */
    static ghost predicate RowLoaded(job: Job, i: nat, w: array2<Block>, row: nat)
      reads w
      requires job.frame.Valid() && job.ValidIndex(i)
    {
      row < w.Length0 && forall col :: 0 <= col < w.Length1 ==> w[row, col] == job.Coef(i, row, col)
    }

    /** A block row inside the image: the DCT of its blocks, and dummy blocks at the right margin. */
    static method LoadRealRow(job: Job, i: nat, w: array2<Block>, row: nat)
      requires job.frame.Valid() && job.ValidIndex(i) && row < w.Length0 && PaddedArray(job, i, w)
      requires row < job.frame.comps[i].heightInBlocks
      modifies w
      ensures RowLoaded(job, i, w, row)
      ensures forall r: nat :: r != row && old(RowLoaded(job, i, w, r)) ==> RowLoaded(job, i, w, r)
    {
      var c := job.frame.comps[i];
      assert job.frame.ValidComponent(c);
      var blocksAcross := c.widthInBlocks;
      var ndummy := blocksAcross % c.h;
      if ndummy > 0 {
        ndummy := c.h - ndummy;
      }
      MarginSize(job, i, w);
      for col := 0 to blocksAcross
        invariant forall k :: 0 <= k < col ==> w[row, k] == job.Coef(i, row, k)
        invariant forall r, k :: 0 <= r < w.Length0 && 0 <= k < w.Length1 && r != row ==> w[r, k] == old(w[r, k])
      {
        w[row, col] := job.dct(i, row, col);
      }
      var lastDC := w[row, blocksAcross - 1][0];
      for bi := 0 to ndummy
        invariant forall k :: 0 <= k < blocksAcross + bi ==> w[row, k] == job.Coef(i, row, k)
        invariant forall r, k :: 0 <= r < w.Length0 && 0 <= k < w.Length1 && r != row ==> w[r, k] == old(w[r, k])
      {
        w[row, blocksAcross + bi] := Dummy(lastDC);
      }
    }

    /** One MCU of a block row below the image: all its blocks take the DC value of the last block above. */
    static method LoadDummyMcu(job: Job, i: nat, w: array2<Block>, row: nat, ghost mcuIndex: nat, first: nat)
      requires job.frame.Valid() && job.ValidIndex(i) && row < w.Length0 && job.frame.comps[i].h >= 1
      requires first == GroupStart(mcuIndex, job.frame.comps[i].h) && first + job.frame.comps[i].h <= w.Length1
      requires row >= job.frame.comps[i].heightInBlocks && row >= 1 && RowLoaded(job, i, w, row - 1)
      modifies w
      ensures forall k :: first <= k < first + job.frame.comps[i].h ==> w[row, k] == job.Coef(i, row, k)
      ensures forall k :: 0 <= k < first ==> w[row, k] == old(w[row, k])
      ensures forall r: nat :: r != row && old(RowLoaded(job, i, w, r)) ==> RowLoaded(job, i, w, r)
    {
      var h := job.frame.comps[i].h;
      var lastDC := w[row - 1, first + (h - 1)][0];
      for bi := 0 to h
        invariant forall k :: first <= k < first + bi ==> w[row, k] == job.Coef(i, row, k)
        invariant forall r, k :: 0 <= r < w.Length0 && 0 <= k < w.Length1 && (r != row || k < first) ==>
                    w[r, k] == old(w[r, k])
      {
        SameGroup(mcuIndex, h, bi);
        w[row, first + bi] := Dummy(lastDC);
      }
    }

    /** A block row below the image. */
    static method LoadDummyRow(job: Job, i: nat, w: array2<Block>, row: nat)
      requires job.frame.Valid() && job.ValidIndex(i) && row < w.Length0 && PaddedArray(job, i, w)
      requires row >= job.frame.comps[i].heightInBlocks && row >= 1 && RowLoaded(job, i, w, row - 1)
      modifies w
      ensures RowLoaded(job, i, w, row)
      ensures forall r: nat :: r != row && old(RowLoaded(job, i, w, r)) ==> RowLoaded(job, i, w, r)
    {
      MarginSize(job, i, w);
      var h := job.frame.comps[i].h;
      var mcusAcross := w.Length1 / h;
      assert GroupStart(0, h) == 0;
      hide Job.Coef, PaddedArray, Frame.MaxMcusPerRow, Frame.Valid, GroupStart;
      var first := 0;
      for mcuIndex := 0 to mcusAcross
        invariant first == GroupStart(mcuIndex, h) <= w.Length1
        invariant forall k :: 0 <= k < first ==> w[row, k] == job.Coef(i, row, k)
        invariant forall r: nat :: r != row && old(RowLoaded(job, i, w, r)) ==> RowLoaded(job, i, w, r)
      {
        NextGroup(mcuIndex, mcusAcross, h, w.Length1);
        LoadDummyMcu(job, i, w, row, mcuIndex, first);
        first := first + h;
      }
    }

    /** The first rows of the blocks of component i are in the array. */
    static ghost predicate ComponentLoaded(job: Job, i: nat, w: array2<Block>, rows: nat)
      reads w
      requires job.frame.Valid() && job.ValidIndex(i)
    {
      forall r: nat :: r < rows ==> RowLoaded(job, i, w, r)
    }

    /** The first n iMCU rows of every component are in the buffer. */
    ghost predicate Loaded(job: Job, n: nat)
      reads wholeImage
      requires job.frame.Valid() && HasImage(job)
    {
      forall i :: 0 <= i < |wholeImage| ==> ComponentLoaded(job, i, wholeImage[i], n * job.frame.comps[i].v)
    }

    /** One component's share of an iMCU row: real block rows, and dummy ones at the end of the image. */
    method LoadComponent(job: Job, i: nat, start: nat)
      requires job.frame.Valid() && HasImage(job) && job.ValidIndex(i) && iMcuRowNum < job.frame.totalIMcuRows
      requires start == iMcuRowNum * job.frame.comps[i].v && ComponentLoaded(job, i, wholeImage[i], start)
      modifies wholeImage[i]
      ensures ComponentLoaded(job, i, wholeImage[i], start + job.frame.comps[i].v)
    {
      hide RowLoaded;
      var c := job.frame.comps[i];
      assert job.frame.ValidComponent(c);
      StripFits(job, i, iMcuRowNum, wholeImage[i]);
      var blockRows := c.v;
      if iMcuRowNum + 1 == job.frame.totalIMcuRows {
        blockRows := c.heightInBlocks % c.v;
        if blockRows == 0 {
          blockRows := c.v;
        }
      }
      for blockRow := 0 to c.v
        invariant ComponentLoaded(job, i, wholeImage[i], start + blockRow)
      {
        StripRow(job, i, iMcuRowNum, blockRow);
        if blockRow < blockRows {
          LoadRealRow(job, i, wholeImage[i], start + blockRow);
        } else {
          LoadDummyRow(job, i, wholeImage[i], start + blockRow);
        }
      }
    }

    lemma NothingLoaded(job: Job)
      requires job.frame.Valid() && HasImage(job)
      ensures Loaded(job, 0)
    {
    }

    lemma LoadedLess(job: Job, n: nat, m: nat)
      requires job.frame.Valid() && HasImage(job) && Loaded(job, m) && n <= m
      ensures Loaded(job, n)
    {
      hide RowLoaded, PaddedArray, CeilDiv;
      forall i | 0 <= i < |wholeImage| ensures ComponentLoaded(job, i, wholeImage[i], n * job.frame.comps[i].v) {
        assert ComponentLoaded(job, i, wholeImage[i], m * job.frame.comps[i].v);
        MulLe(n, m, job.frame.comps[i].v);
      }
    }

    /** The loading half of compress_first_pass: an iMCU row of every component. */
    method LoadStrip(job: Job)
      requires job.frame.Valid() && HasImage(job) && iMcuRowNum < job.frame.totalIMcuRows && Loaded(job, iMcuRowNum)
      modifies wholeImage
      ensures Loaded(job, iMcuRowNum + 1)
    {
      hide ComponentLoaded, PaddedArray, CeilDiv;
      for i := 0 to |wholeImage|
        invariant forall k :: 0 <= k < i
                    ==> ComponentLoaded(job, k, wholeImage[k], (iMcuRowNum + 1) * job.frame.comps[k].v)
        invariant forall k :: i <= k < |wholeImage|
                    ==> ComponentLoaded(job, k, wholeImage[k], iMcuRowNum * job.frame.comps[k].v)
      {
        MulDistrib(iMcuRowNum, 1, job.frame.comps[i].v);
        LoadComponent(job, i, iMcuRowNum * job.frame.comps[i].v);
      }
    }

    // ---------- sending from the full-image buffer: compress_output ----------

    /** A row of blocks of an MCU, fetched from the buffer. */
    method FetchRow(job: Job, i: nat, row: nat, col: nat, w: nat, at: nat)
      requires job.frame.Valid() && HasImage(job) && job.ValidIndex(i) && RowLoaded(job, i, wholeImage[i], row)
      requires col + w <= wholeImage[i].Length1 && at + w <= mcuBuffer.Length
      modifies mcuBuffer
      ensures mcuBuffer[..at + w] == old(mcuBuffer[..at]) + job.RowBlocks(i, row, col, w)
    {
      for xindex := 0 to w
        invariant mcuBuffer[..at + xindex] == old(mcuBuffer[..at]) + job.RowBlocks(i, row, col, xindex)
      {
        mcuBuffer[at + xindex] := wholeImage[i][row, col + xindex];
        assert mcuBuffer[..at + xindex + 1] == mcuBuffer[..at + xindex] + [job.Coef(i, row, col + xindex)];
        assert job.RowBlocks(i, row, col, xindex + 1)
               == job.RowBlocks(i, row, col, xindex) + [job.Coef(i, row, col + xindex)];
      }
    }

    /** One turn of the yindex loop: a row of blocks of one component. */
    method OutputBlocks(job: Job, ci: nat, yoffset: nat, mcuCol: nat, yindex: nat, blkn: nat)
      requires job.Valid() && ci < |job.cur| && yindex < job.scan.comps[ci].mcuHeight
      requires job.IsPosition(iMcuRowNum, yoffset, mcuCol) && HasImage(job) && Loaded(job, iMcuRowNum + 1)
      requires blkn + job.scan.comps[ci].mcuWidth <= mcuBuffer.Length && Built(job, yoffset, mcuCol, ci, yindex, blkn)
      modifies mcuBuffer
      ensures Built(job, yoffset, mcuCol, ci, yindex + 1, blkn + job.scan.comps[ci].mcuWidth)
      ensures Loaded(job, iMcuRowNum + 1)
    {
      hide PartOfMcu, Job.IsPosition, RowLoaded, Job.RowBlocks, Job.Coef, CeilDiv, Last, Membership;
      var sc, i := job.scan.comps[ci], job.cur[ci];
      InsideImage(job, ci, iMcuRowNum, yoffset, mcuCol, wholeImage[i]);
      assert ComponentLoaded(job, i, wholeImage[i], (iMcuRowNum + 1) * job.frame.comps[i].v);
      OneMoreRow(job, iMcuRowNum, yoffset, mcuCol, ci, yindex);
      FetchRow(job, i, job.BaseRow(ci, iMcuRowNum, yoffset) + yindex, job.StartCol(ci, mcuCol), sc.mcuWidth, blkn);
    }

    /** The blocks of one component. */
    method FetchComponent(job: Job, ci: nat, yoffset: nat, mcuCol: nat, at: nat) returns (blkn: nat)
      requires job.Valid() && ci < |job.cur| && job.IsPosition(iMcuRowNum, yoffset, mcuCol)
      requires HasImage(job) && Loaded(job, iMcuRowNum + 1)
      requires Filled(job, yoffset, mcuCol, ci, at) && |Membership(job.scan.comps, ci + 1)| <= mcuBuffer.Length
      modifies mcuBuffer
      ensures Filled(job, yoffset, mcuCol, ci + 1, blkn) && Loaded(job, iMcuRowNum + 1)
    {
      hide PartOfMcu, Job.IsPosition, Loaded, HasImage, CeilDiv, Last, Membership, Job.McuTo;
      var sc := job.scan.comps[ci];
      blkn := at;
      MembershipNext(job.scan.comps, ci);
      PartEnds(job, iMcuRowNum, yoffset, mcuCol, ci);
      for yindex := 0 to sc.mcuHeight
        invariant blkn == at + yindex * sc.mcuWidth && Built(job, yoffset, mcuCol, ci, yindex, blkn)
        invariant Loaded(job, iMcuRowNum + 1)
      {
        RowFits(yindex, sc.mcuHeight, sc.mcuWidth);
        OutputBlocks(job, ci, yoffset, mcuCol, yindex, blkn);
        blkn := blkn + sc.mcuWidth;
      }
    }

    /** The component loop of compress_output. */
    method FetchMcu(job: Job, yoffset: nat, mcuCol: nat)
      requires job.Valid() && job.IsPosition(iMcuRowNum, yoffset, mcuCol) && mcuBuffer.Length == C_MAX_BLOCKS_IN_MCU
      requires HasImage(job) && Loaded(job, iMcuRowNum + 1)
      modifies mcuBuffer
      ensures mcuBuffer[..|job.scan.membership|] == job.McuAt(iMcuRowNum, yoffset, mcuCol)
      ensures Loaded(job, iMcuRowNum + 1)
    {
      hide *;
      McuEnds(job, iMcuRowNum, yoffset, mcuCol);
      var blkn := 0;
      FilledNone(job, yoffset, mcuCol);
      for ci := 0 to |job.cur|
        invariant Filled(job, yoffset, mcuCol, ci, blkn) && HasImage(job) && Loaded(job, iMcuRowNum + 1)
      {
        MembershipMono(job.scan.comps, ci + 1, |job.cur|);
        blkn := FetchComponent(job, ci, yoffset, mcuCol, blkn);
      }
      FilledAll(job, yoffset, mcuCol, blkn);
    }

    /** Fetch one MCU, and hand it to the entropy encoder. */
    method OutputMcu(job: Job, entropy: Entropy, yoffset: nat, mcuCol: nat) returns (o: Outcome)
      requires At(job, entropy, yoffset, mcuCol) && yoffset < mcuRowsPerIMcuRow && mcuCol < job.scan.mcusPerRow
      requires HasImage(job) && Loaded(job, iMcuRowNum + 1)
      modifies mcuBuffer, entropy.Repr()
      ensures o.Done? ==> At(job, entropy, yoffset, mcuCol + 1)
      ensures o.Suspended? ==> At(job, entropy, yoffset, mcuCol) && entropy.Blocked(job.AllMcus())
      ensures o.Fatal? ==> !old(entropy.CanTake(entropy.Tables(), job.AllMcus()))
      ensures Loaded(job, iMcuRowNum + 1)
      ensures entropy.Tables() == old(entropy.Tables()) && entropy.Taken() == old(entropy.Taken())
      ensures !o.Fatal? ==> |entropy.Delivered()| >= old(|entropy.Delivered()|)
    {
      hide Entropy.Valid, Entropy.Delivered, Entropy.Tables, Entropy.Taken, Entropy.Blocked, Entropy.CanTake;
      hide Job.Before, Job.AllMcus, Job.McuAt;
      hide ComponentLoaded, PaddedArray;
      FetchMcu(job, yoffset, mcuCol);
      o := SendMcu(job, entropy, yoffset, mcuCol);
    }

    /** One MCU row of compress_output, from the saved column on. */
    method OutputRow(job: Job, entropy: Entropy, yoffset: nat) returns (o: Outcome)
      requires At(job, entropy, yoffset, mcuCtr) && yoffset < mcuRowsPerIMcuRow
      requires HasImage(job) && Loaded(job, iMcuRowNum + 1)
      modifies this`mcuCtr, this`mcuVertOffset, mcuBuffer, entropy.Repr()
      ensures o.Done? ==> mcuCtr == 0 && At(job, entropy, yoffset + 1, 0)
      ensures o.Suspended? ==> Valid(job, entropy) && entropy.Blocked(job.AllMcus())
      ensures o.Fatal? ==> !old(entropy.CanTake(entropy.Tables(), job.AllMcus()))
      ensures Loaded(job, iMcuRowNum + 1)
      ensures entropy.Tables() == old(entropy.Tables()) && entropy.Taken() == old(entropy.Taken())
      ensures !o.Fatal? ==> |entropy.Delivered()| >= old(|entropy.Delivered()|)
    {
      hide Entropy.Valid, Entropy.Delivered, Entropy.Tables, Entropy.Taken, Entropy.Blocked, Entropy.CanTake;
      hide Job.Before, Job.AllMcus, Job.McuAt;
      hide Loaded, PaddedArray;
      var mcuCol := mcuCtr;
      while mcuCol < job.scan.mcusPerRow
        invariant At(job, entropy, yoffset, mcuCol) && Loaded(job, iMcuRowNum + 1)
        invariant entropy.Tables() == old(entropy.Tables()) && entropy.Taken() == old(entropy.Taken())
        invariant |entropy.Delivered()| >= old(|entropy.Delivered()|)
      {
        o := OutputMcu(job, entropy, yoffset, mcuCol);
        if o.Suspended? {
          mcuVertOffset := yoffset;
          mcuCtr := mcuCol;
          return;
        }
        if o.Fatal? {
          return;
        }
        mcuCol := mcuCol + 1;
      }
      job.NextRow(iMcuRowNum, yoffset);
      mcuCtr := 0;
      o := Done;
    }

    /** compress_output: one iMCU row from the buffered image. It hands over the same MCUs as compress_data does. */
    method CompressOutput(job: Job, entropy: Entropy) returns (o: Outcome)
      requires Valid(job, entropy) && iMcuRowNum < job.frame.totalIMcuRows
      requires HasImage(job) && Loaded(job, iMcuRowNum + 1)
      modifies this`iMcuRowNum, this`mcuCtr, this`mcuVertOffset, this`mcuRowsPerIMcuRow, mcuBuffer, entropy.Repr()
      ensures Loaded(job, old(iMcuRowNum) + 1)
      ensures o.Done? ==> Valid(job, entropy) && iMcuRowNum == old(iMcuRowNum) + 1
      ensures o.Suspended? ==> Valid(job, entropy) && iMcuRowNum == old(iMcuRowNum) && entropy.Blocked(job.AllMcus())
      ensures o.Fatal? ==> !old(entropy.CanTake(entropy.Tables(), job.AllMcus()))
      ensures entropy.Tables() == old(entropy.Tables()) && entropy.Taken() == old(entropy.Taken())
      ensures !o.Fatal? ==> |entropy.Delivered()| >= old(|entropy.Delivered()|)
    {
      hide Entropy.Valid, Entropy.Delivered, Entropy.Tables, Entropy.Taken, Entropy.Blocked, Entropy.CanTake;
      hide Job.Before, Job.AllMcus, Job.McuAt;
      hide Loaded;
      var yoffset := mcuVertOffset;
      while yoffset < mcuRowsPerIMcuRow
        invariant 0 <= yoffset && At(job, entropy, yoffset, mcuCtr) && iMcuRowNum == old(iMcuRowNum)
        invariant yoffset == mcuRowsPerIMcuRow ==> mcuCtr == 0
        invariant Loaded(job, iMcuRowNum + 1)
        invariant entropy.Tables() == old(entropy.Tables()) && entropy.Taken() == old(entropy.Taken())
        invariant |entropy.Delivered()| >= old(|entropy.Delivered()|)
      {
        o := OutputRow(job, entropy, yoffset);
        if !o.Done? {
          return;
        }
        yoffset := yoffset + 1;
      }
      FinishIMcuRow(job, entropy);
      o := Done;
    }

    /** compress_first_pass: load an iMCU row of the image, dummy blocks included, and send it. After a suspension the
        same row is loaded again. */
    method CompressFirstPass(job: Job, entropy: Entropy) returns (o: Outcome)
      requires Valid(job, entropy) && iMcuRowNum < job.frame.totalIMcuRows
      requires HasImage(job) && Loaded(job, iMcuRowNum)
      modifies this`iMcuRowNum, this`mcuCtr, this`mcuVertOffset, this`mcuRowsPerIMcuRow, mcuBuffer, wholeImage,
               entropy.Repr()
      ensures Loaded(job, old(iMcuRowNum) + 1)
      ensures o.Done? ==> Valid(job, entropy) && iMcuRowNum == old(iMcuRowNum) + 1
      ensures o.Suspended? ==> Valid(job, entropy) && iMcuRowNum == old(iMcuRowNum) && entropy.Blocked(job.AllMcus())
      ensures o.Fatal? ==> !old(entropy.CanTake(entropy.Tables(), job.AllMcus()))
      ensures entropy.Tables() == old(entropy.Tables()) && entropy.Taken() == old(entropy.Taken())
      ensures !o.Fatal? ==> |entropy.Delivered()| >= old(|entropy.Delivered()|)
    {
      hide Entropy.Valid, Entropy.Delivered, Entropy.Tables, Entropy.Taken, Entropy.Blocked, Entropy.CanTake;
      hide Job.Before, Job.AllMcus;
      hide Loaded;
      LoadStrip(job);
      o := CompressOutput(job, entropy);
    }
  }

  /** What the component loops start and end with. */
  lemma McuEnds(job: Job, iMcuRow: nat, yoffset: nat, mcuCol: nat)
    requires job.Valid()
    ensures job.frame.Valid() && |job.scan.comps| == |job.cur| && |job.scan.membership| <= C_MAX_BLOCKS_IN_MCU
    ensures Membership(job.scan.comps, 0) == [] && Membership(job.scan.comps, |job.cur|) == job.scan.membership
    ensures job.McuTo(iMcuRow, yoffset, mcuCol, 0) == []
    ensures job.McuTo(iMcuRow, yoffset, mcuCol, |job.cur|) == job.McuAt(iMcuRow, yoffset, mcuCol)
  {
  }

  /** The rows and columns of an MCU lie inside the padded array. */
  lemma InsideImage(job: Job, ci: nat, iMcuRow: nat, yoffset: nat, mcuCol: nat, w: array2<Block>)
    requires job.Valid() && ci < |job.cur| && job.IsPosition(iMcuRow, yoffset, mcuCol)
             && PaddedArray(job, job.cur[ci], w)
    ensures var sc, c := job.scan.comps[ci], job.frame.comps[job.cur[ci]];
            && job.BaseRow(ci, iMcuRow, yoffset) + sc.mcuHeight <= (iMcuRow + 1) * c.v
            && job.StartCol(ci, mcuCol) + sc.mcuWidth <= w.Length1
  {
    var sc, c := job.scan.comps[ci], job.frame.comps[job.cur[ci]];
    assert job.frame.ValidComponent(c);
    ComponentFillsMcus(job.frame, job.cur[ci]);
    MulDistrib(iMcuRow, 1, c.v);
    if |job.cur| > 1 {
      MulLe(mcuCol + 1, job.scan.mcusPerRow, c.h);
      MulDistrib(mcuCol, 1, c.h);
    } else {
      MulDistrib(job.frame.MaxMcusPerRow() - 1, 1, c.h);
    }
  }

  /** An iMCU row lies inside the padded array. */
  lemma StripFits(job: Job, i: nat, iMcuRow: nat, w: array2<Block>)
    requires job.frame.Valid() && PaddedArray(job, i, w) && iMcuRow < job.frame.totalIMcuRows
    ensures iMcuRow * job.frame.comps[i].v + job.frame.comps[i].v <= w.Length0
  {
    MulDistrib(iMcuRow, 1, job.frame.comps[i].v);
    MulLe(iMcuRow + 1, job.frame.totalIMcuRows, job.frame.comps[i].v);
  }

  /** Which block rows of an iMCU row are real. */
  lemma StripRow(job: Job, i: nat, iMcuRow: nat, y: nat)
    requires job.frame.Valid() && i < |job.frame.comps| && iMcuRow < job.frame.totalIMcuRows && y < job.frame.comps[i].v
    ensures var c := job.frame.comps[i];
            var row := iMcuRow * c.v + y;
            if iMcuRow + 1 < job.frame.totalIMcuRows || y < Last(c.heightInBlocks, c.v) then row < c.heightInBlocks
            else row >= c.heightInBlocks && row >= 1 && y >= 1
  {
    RowIsReal(job, i, iMcuRow, y);
    ComponentFillsMcus(job.frame, i);
  }

  /** jround_up. */
  function RoundUp(a: nat, b: nat): nat
    requires b > 0
  {
    CeilDiv(a, b) * b
  }

  /** An array for component i that covers whole MCUs. */
  ghost predicate PaddedArray(job: Job, i: nat, w: array2<Block>)
    requires job.frame.Valid()
  {
    && i < |job.frame.comps|
    && w.Length0 == job.frame.totalIMcuRows * job.frame.comps[i].v
    && w.Length1 == job.frame.MaxMcusPerRow() * job.frame.comps[i].h
  }

  lemma PaddedSize(job: Job, i: nat, w: array2<Block>)
    requires job.frame.Valid() && i < |job.frame.comps| && job.frame.comps[i].v > 0 && job.frame.comps[i].h > 0
    requires w.Length0 == RoundUp(job.frame.comps[i].heightInBlocks, job.frame.comps[i].v)
    requires w.Length1 == RoundUp(job.frame.comps[i].widthInBlocks, job.frame.comps[i].h)
    ensures PaddedArray(job, i, w)
  {
    ComponentFillsMcus(job.frame, i);
  }

  /** The number of dummy blocks at the end of a row makes it up to whole MCUs. */
  lemma MarginSize(job: Job, i: nat, w: array2<Block>)
    requires job.frame.Valid() && PaddedArray(job, i, w)
    ensures var c := job.frame.comps[i];
            && c.h >= 1 && c.v >= 1 && c.widthInBlocks >= 1
            && c.widthInBlocks + (if c.widthInBlocks % c.h == 0 then 0 else c.h - c.widthInBlocks % c.h) == w.Length1
            && w.Length1 / c.h == job.frame.MaxMcusPerRow()
            && GroupStart(w.Length1 / c.h, c.h) == w.Length1
  {
    var c := job.frame.comps[i];
    assert job.frame.ValidComponent(c);
    ComponentFillsMcus(job.frame, i);
    var m := job.frame.MaxMcusPerRow();
    MulDistrib(m - 1, 1, c.h);
    DivModUnique(w.Length1, c.h, m, 0);
  }

  lemma PartEnds(job: Job, iMcuRow: nat, yoffset: nat, mcuCol: nat, ci: nat)
    requires job.Valid() && ci < |job.cur|
    ensures PartOfMcu(job, iMcuRow, yoffset, mcuCol, ci, 0) == job.McuTo(iMcuRow, yoffset, mcuCol, ci)
    ensures PartOfMcu(job, iMcuRow, yoffset, mcuCol, ci, job.scan.comps[ci].mcuHeight)
            == job.McuTo(iMcuRow, yoffset, mcuCol, ci + 1)
  {
  }

  lemma MembershipNext(comps: seq<ScanComponent>, n: nat)
    requires n < |comps|
    ensures |Membership(comps, n + 1)| == |Membership(comps, n)| + comps[n].mcuWidth * comps[n].mcuHeight
  {
  }

  /** The first column of group k. */
  function GroupStart(k: nat, h: nat): nat {
    k * h
  }

  lemma NextGroup(k: nat, n: nat, h: nat, length: nat)
    requires k < n && length == GroupStart(n, h)
    ensures GroupStart(k + 1, h) == GroupStart(k, h) + h <= length
  {
    MulDistrib(k, 1, h);
    MulLe(k + 1, n, h);
  }

  lemma RowFits(y: nat, h: nat, w: nat)
    requires y < h
    ensures (y + 1) * w == y * w + w <= w * h
  {
    MulDistrib(y, 1, w);
    MulLe(y + 1, h, w);
  }

  lemma {:induction false} MembershipMono(comps: seq<ScanComponent>, n: nat, m: nat)
    requires n <= m <= |comps|
    ensures |Membership(comps, n)| <= |Membership(comps, m)|
  {
    if n < m {
      MembershipMono(comps, n, m - 1);
    }
  }

  /** The blocks of an MCU that belong to the first ci components, and y rows of component ci. */
  ghost function PartOfMcu(job: Job, iMcuRow: nat, yoffset: nat, mcuCol: nat, ci: nat, y: nat): seq<Block>
    requires job.Valid() && ci < |job.cur|
  {
    job.McuTo(iMcuRow, yoffset, mcuCol, ci) + job.CompBlocks(ci, job.BaseRow(ci, iMcuRow, yoffset), mcuCol, y)
  }

  lemma OneMoreRow(job: Job, iMcuRow: nat, yoffset: nat, mcuCol: nat, ci: nat, y: nat)
    requires job.Valid() && ci < |job.cur|
    ensures var w := job.scan.comps[ci].mcuWidth;
            PartOfMcu(job, iMcuRow, yoffset, mcuCol, ci, y + 1)
            == PartOfMcu(job, iMcuRow, yoffset, mcuCol, ci, y)
               + job.RowBlocks(job.cur[ci], job.BaseRow(ci, iMcuRow, yoffset) + y, job.StartCol(ci, mcuCol), w)
  {
    Assoc(job.McuTo(iMcuRow, yoffset, mcuCol, ci),
             job.CompBlocks(ci, job.BaseRow(ci, iMcuRow, yoffset), mcuCol, y),
             job.RowBlocks(job.cur[ci], job.BaseRow(ci, iMcuRow, yoffset) + y, job.StartCol(ci, mcuCol),
                           job.scan.comps[ci].mcuWidth));
  }

  lemma LastOfSum(p: seq<Block>, a: seq<Block>, b: seq<Block>)
    requires p == a + b && b != []
    ensures p != [] && p[|p| - 1] == b[|b| - 1]
  {
  }

  /** The last block of the row above. */
  lemma LastOfRow(job: Job, iMcuRow: nat, yoffset: nat, mcuCol: nat, ci: nat, y: nat, row: nat, p: seq<Block>)
    requires job.Valid() && ci < |job.cur| && y >= 1 && job.scan.comps[ci].mcuWidth >= 1
    requires row == job.BaseRow(ci, iMcuRow, yoffset) + y && p == PartOfMcu(job, iMcuRow, yoffset, mcuCol, ci, y)
    ensures var w := job.scan.comps[ci].mcuWidth;
            p != [] && p[|p| - 1] == job.Coef(job.cur[ci], row - 1, job.StartCol(ci, mcuCol) + (w - 1))
  {
    hide PartOfMcu, Job.Coef, CeilDiv, Last, Membership;
    var w := job.scan.comps[ci].mcuWidth;
    var r := job.RowBlocks(job.cur[ci], row - 1, job.StartCol(ci, mcuCol), w);
    OneMoreRow(job, iMcuRow, yoffset, mcuCol, ci, y - 1);
    LastOfSum(p, PartOfMcu(job, iMcuRow, yoffset, mcuCol, ci, y - 1), r);
    assert r[w - 1] == job.Coef(job.cur[ci], row - 1, job.StartCol(ci, mcuCol) + (w - 1));
  }

  /** Only an interleaved MCU reaches below the image, and never with its first row. */
  lemma RowFacts(job: Job, ci: nat, iMcuRow: nat, yoffset: nat, yindex: nat)
    requires job.Valid() && ci < |job.cur| && yindex < job.scan.comps[ci].mcuHeight
    requires iMcuRow < job.frame.totalIMcuRows && yoffset < job.McuRows(iMcuRow)
    ensures var sc, c := job.scan.comps[ci], job.frame.comps[job.cur[ci]];
            var row := job.BaseRow(ci, iMcuRow, yoffset) + yindex;
            if iMcuRow + 1 < job.frame.totalIMcuRows || yoffset + yindex < sc.lastRowHeight then
              row < c.heightInBlocks
            else
              row >= c.heightInBlocks && row >= 1 && yindex >= 1 && sc.mcuWidth == c.h >= 1
  {
    var c := job.frame.comps[job.cur[ci]];
    assert job.frame.ValidComponent(c);
    RowIsReal(job, job.cur[ci], iMcuRow, yoffset + yindex);
    ComponentFillsMcus(job.frame, job.cur[ci]);
  }

  lemma ColumnFacts(job: Job, ci: nat, mcuCol: nat, row: nat)
    requires job.Valid() && ci < |job.cur| && mcuCol < job.scan.mcusPerRow
    requires row < job.frame.comps[job.cur[ci]].heightInBlocks
    ensures var sc := job.scan.comps[ci];
            var blockcnt := if mcuCol + 1 < job.scan.mcusPerRow then sc.mcuWidth else sc.lastColWidth;
            RealRun(job, job.cur[ci], row, job.StartCol(ci, mcuCol), blockcnt, sc.mcuWidth)
  {
    var sc, c := job.scan.comps[ci], job.frame.comps[job.cur[ci]];
    var blockcnt := if mcuCol + 1 < job.scan.mcusPerRow then sc.mcuWidth else sc.lastColWidth;
    assert job.frame.ValidComponent(c);
    assert 1 <= blockcnt <= sc.mcuWidth;
    ColumnIsReal(job, ci, mcuCol, blockcnt - 1);
    if blockcnt < sc.mcuWidth {
      ColumnIsReal(job, ci, mcuCol, blockcnt);
    }
  }

  function DctBlocks(job: Job, i: nat, row: nat, col: nat, num: nat): (r: seq<Block>)
    ensures |r| == num
  {
    seq<Block>(num, x requires 0 <= x < num => job.dct(i, row, col + x))
  }

  /** blockcnt real blocks from column col, and if that is not all w then they end the row. */
  ghost predicate RealRun(job: Job, i: nat, row: nat, col: nat, blockcnt: nat, w: nat) {
    && job.frame.Valid() && job.ValidIndex(i) && row < job.frame.comps[i].heightInBlocks && 1 <= blockcnt <= w
    && col + blockcnt <= job.frame.comps[i].widthInBlocks
    && (blockcnt < w ==> col + blockcnt == job.frame.comps[i].widthInBlocks)
  }

  lemma RealRowIs(job: Job, i: nat, row: nat, col: nat, blockcnt: nat, w: nat)
    requires RealRun(job, i, row, col, blockcnt, w)
    ensures var run := DctBlocks(job, i, row, col, blockcnt);
            job.RowBlocks(i, row, col, w) == run + Repeat<Block>(Dummy(run[blockcnt - 1][0]), w - blockcnt)
  {
    var run := DctBlocks(job, i, row, col, blockcnt);
    assert run[blockcnt - 1] == job.dct(i, row, col + (blockcnt - 1));
    var all, parts := job.RowBlocks(i, row, col, w), run + Repeat<Block>(Dummy(run[blockcnt - 1][0]), w - blockcnt);
    forall x | 0 <= x < w ensures all[x] == parts[x] {
      assert all[x] == job.Coef(i, row, col + x);
    }
  }

  lemma BottomRowIs(job: Job, i: nat, row: nat, mcuCol: nat, col: nat)
    requires job.frame.Valid() && job.ValidIndex(i) && row >= job.frame.comps[i].heightInBlocks && row >= 1
    requires job.frame.comps[i].h >= 1 && col == mcuCol * job.frame.comps[i].h
    ensures var h := job.frame.comps[i].h;
            job.RowBlocks(i, row, col, h) == Repeat<Block>(Dummy(job.Coef(i, row - 1, col + (h - 1))[0]), h)
  {
    var h := job.frame.comps[i].h;
    var all, parts := job.RowBlocks(i, row, col, h), Repeat<Block>(Dummy(job.Coef(i, row - 1, col + (h - 1))[0]), h);
    forall x: nat | x < h ensures all[x] == parts[x] {
      SameGroup(mcuCol, h, x);
      assert all[x] == job.Coef(i, row, col + x);
    }
  }
}
