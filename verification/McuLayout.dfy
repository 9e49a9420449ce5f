/** Where the blocks of an image are in the MCUs of a scan, and what becomes of dummy blocks: their DC value is that of
    the block before, so that each is coded with two symbols. */
module McuLayout {
  import opened Powers
  import opened BlockCoding
  import opened ScanCoding
  import opened Geometry
  import opened CoefImage

  // ---------- the blocks of an MCU ----------

  /** Where block (y, x) of component ci is in an MCU. */
  function Place(s: Scan, ci: nat, y: nat, x: nat): nat
    requires ci < |s.comps|
  {
    |Membership(s.comps, ci)| + (y * s.comps[ci].mcuWidth + x)
  }

  lemma {:induction false} BlockInComponent(j: Job, ci: nat, row: nat, mcuCol: nat, h: nat, y: nat, x: nat)
    requires j.Valid() && ci < |j.cur| && y < h && x < j.scan.comps[ci].mcuWidth
    ensures var w := j.scan.comps[ci].mcuWidth;
            && y * w + x < |j.CompBlocks(ci, row, mcuCol, h)|
            && j.CompBlocks(ci, row, mcuCol, h)[y * w + x] == j.Coef(j.cur[ci], row + y, j.StartCol(ci, mcuCol) + x)
  {
    hide Job.Coef;
    var w := j.scan.comps[ci].mcuWidth;
    MulDistrib(h - 1, 1, w);
    MulLe(y + 1, h, w);
    MulDistrib(y, 1, w);
    if y < h - 1 {
      BlockInComponent(j, ci, row, mcuCol, h - 1, y, x);
    }
  }

  lemma {:induction false} BlockInMcu(j: Job, iMcuRow: nat, yoffset: nat, mcuCol: nat, n: nat, ci: nat, y: nat, x: nat)
    requires j.Valid() && ci < n <= |j.cur| && y < j.scan.comps[ci].mcuHeight && x < j.scan.comps[ci].mcuWidth
    ensures Place(j.scan, ci, y, x) < |j.McuTo(iMcuRow, yoffset, mcuCol, n)|
    ensures j.McuTo(iMcuRow, yoffset, mcuCol, n)[Place(j.scan, ci, y, x)]
            == j.Coef(j.cur[ci], j.BaseRow(ci, iMcuRow, yoffset) + y, j.StartCol(ci, mcuCol) + x)
  {
    hide Job.Coef, Job.CompBlocks, Membership;
    if ci == n - 1 {
      BlockInComponent(j, ci, j.BaseRow(ci, iMcuRow, yoffset), mcuCol, j.scan.comps[ci].mcuHeight, y, x);
    } else {
      BlockInMcu(j, iMcuRow, yoffset, mcuCol, n - 1, ci, y, x);
    }
  }

  /** MCUs come row by row, and from left to right. */
  lemma McuIndex(j: Job, iMcuRow: nat, yoffset: nat, mcuCol: nat)
    requires j.Valid() && j.IsPosition(iMcuRow, yoffset, mcuCol)
    ensures var v := if |j.cur| > 1 then 1 else j.frame.comps[j.cur[0]].v;
            var k := (iMcuRow * v + yoffset) * j.scan.mcusPerRow + mcuCol;
            0 <= k < |j.AllMcus()| && j.AllMcus()[k] == j.McuAt(iMcuRow, yoffset, mcuCol)
  {
    hide Job.IMcuRows, Job.Rows, Job.Part, Job.McuAt, Job.AllMcus, CeilDiv, Membership;
    var v := if |j.cur| > 1 then 1 else j.frame.comps[j.cur[0]].v;
    j.FullRowsCount(iMcuRow);
    j.RowsCount(iMcuRow, yoffset);
    j.PartCount(iMcuRow, yoffset, mcuCol);
    MulDistrib(iMcuRow * v, yoffset, j.scan.mcusPerRow);
    j.PositionInScan(iMcuRow, yoffset, mcuCol);
    var before := j.Before(iMcuRow, yoffset, mcuCol);
    assert (before + [j.McuAt(iMcuRow, yoffset, mcuCol)])[|before|] == j.McuAt(iMcuRow, yoffset, mcuCol);
  }

  // ---------- every block is in some MCU ----------

  /** Where block (row, col) of a component is sent: MCU position, and place in the MCU. */
  lemma PositionOf(j: Job, ci: nat, row: nat, col: nat)
      returns (iMcuRow: nat, yoffset: nat, mcuCol: nat, y: nat, x: nat)
    requires j.Valid() && ci < |j.cur|
    requires row < j.frame.comps[j.cur[ci]].heightInBlocks && col < j.frame.comps[j.cur[ci]].widthInBlocks
    ensures j.IsPosition(iMcuRow, yoffset, mcuCol) && y < j.scan.comps[ci].mcuHeight && x < j.scan.comps[ci].mcuWidth
    ensures j.BaseRow(ci, iMcuRow, yoffset) + y == row && j.StartCol(ci, mcuCol) + x == col
  {
    hide Job.Valid, Job.IsPosition, Job.BaseRow, Job.StartCol;
    if |j.cur| == 1 {
      iMcuRow, yoffset := AlonePosition(j, row, col);
      mcuCol, y, x := col, 0, 0;
    } else {
      iMcuRow, mcuCol, y, x := InterleavedPosition(j, ci, row, col);
      yoffset := 0;
    }
  }

  lemma AlonePosition(j: Job, row: nat, col: nat) returns (iMcuRow: nat, yoffset: nat)
    requires j.Valid() && |j.cur| == 1
    requires row < j.frame.comps[j.cur[0]].heightInBlocks && col < j.frame.comps[j.cur[0]].widthInBlocks
    ensures j.IsPosition(iMcuRow, yoffset, col) && j.BaseRow(0, iMcuRow, yoffset) == row && j.StartCol(0, col) == col
    ensures j.scan.comps[0].mcuHeight == j.scan.comps[0].mcuWidth == 1
  {
    hide Membership, CeilDiv, Last;
    var c := j.frame.comps[j.cur[0]];
    assert j.frame.ValidComponent(c);
    ComponentFillsMcus(j.frame, j.cur[0]);
    iMcuRow, yoffset := GroupOf(row, c.v, j.frame.totalIMcuRows, Last(c.heightInBlocks, c.v));
  }

  lemma InterleavedPosition(j: Job, ci: nat, row: nat, col: nat) returns (iMcuRow: nat, mcuCol: nat, y: nat, x: nat)
    requires j.Valid() && |j.cur| > 1 && ci < |j.cur|
    requires row < j.frame.comps[j.cur[ci]].heightInBlocks && col < j.frame.comps[j.cur[ci]].widthInBlocks
    ensures j.IsPosition(iMcuRow, 0, mcuCol) && y < j.scan.comps[ci].mcuHeight && x < j.scan.comps[ci].mcuWidth
    ensures j.BaseRow(ci, iMcuRow, 0) + y == row && j.StartCol(ci, mcuCol) + x == col
  {
    hide Membership, CeilDiv, Last, Job.IsPosition, Job.BaseRow, Job.StartCol;
    var c := j.frame.comps[j.cur[ci]];
    assert j.frame.ValidComponent(c);
    ComponentFillsMcus(j.frame, j.cur[ci]);
    iMcuRow, y := GroupOf(row, c.v, j.frame.totalIMcuRows, Last(c.heightInBlocks, c.v));
    mcuCol, x := GroupOf(col, c.h, j.frame.MaxMcusPerRow(), Last(c.widthInBlocks, c.h));
    InterleavedAt(j, ci, iMcuRow, mcuCol, y, x);
  }

  lemma InterleavedAt(j: Job, ci: nat, iMcuRow: nat, mcuCol: nat, y: nat, x: nat)
    requires j.Valid() && |j.cur| > 1 && ci < |j.cur|
    requires iMcuRow < j.frame.totalIMcuRows && mcuCol < j.frame.MaxMcusPerRow()
    requires y < j.frame.comps[j.cur[ci]].v && x < j.frame.comps[j.cur[ci]].h
    ensures j.IsPosition(iMcuRow, 0, mcuCol) && y < j.scan.comps[ci].mcuHeight && x < j.scan.comps[ci].mcuWidth
    ensures j.BaseRow(ci, iMcuRow, 0) == iMcuRow * j.frame.comps[j.cur[ci]].v
    ensures j.StartCol(ci, mcuCol) == mcuCol * j.frame.comps[j.cur[ci]].h
  {
    hide Membership, CeilDiv, Last;
    assert j.scan.comps[ci] == InterleavedComponent(j.frame, j.cur[ci]);
  }

  /** Group and place of item i of n groups of k items, the last of which has only `last`. */
  lemma GroupOf(i: nat, k: nat, n: nat, last: nat) returns (q: nat, r: nat)
    requires k > 0 && n > 0 && last <= k && i < (n - 1) * k + last
    ensures q < n && r < k && q * k + r == i && (q == n - 1 ==> r < last)
  {
    q, r := i / k, i % k;
    if q >= n {
      MulLe(n, q, k);
      MulDistrib(n - 1, 1, k);
    }
  }

  // ---------- the order of the components in an MCU ----------

  /** The blocks of component ci in an MCU are those of its place. */
  lemma {:induction false} MemberAt(comps: seq<ScanComponent>, n: nat, ci: nat, k: nat)
    requires ci < n <= |comps| && k < comps[ci].mcuWidth * comps[ci].mcuHeight
    ensures |Membership(comps, ci)| + k < |Membership(comps, n)|
    ensures Membership(comps, n)[|Membership(comps, ci)| + k] == ci
  {
    if ci < n - 1 {
      MemberAt(comps, n - 1, ci, k);
    }
  }

  lemma InBounds(y: nat, x: nat, w: nat, h: nat)
    requires y < h && x < w
    ensures y * w + x < w * h
  {
    MulDistrib(y, 1, w);
    MulLe(y + 1, h, w);
  }

  // ---------- DC prediction ----------

  /** The DC value of the last block of component ci among the first p of an MCU, or what it was before. */
  function Predictor(cfg: ScanConfig, mcu: Mcu, dc: seq<int>, ci: nat, p: nat): int
    requires ci < |dc| && p <= |mcu| && FitsScan(cfg, mcu)
  {
    if p == 0 then dc[ci]
    else if cfg.membership[p - 1] == ci then mcu[p - 1][0]
    else Predictor(cfg, mcu, dc, ci, p - 1)
  }

  /** The predictors when the coder comes to block b. */
  function DcAt(cfg: ScanConfig, mcu: Mcu, dc: seq<int>, b: nat): (r: seq<int>)
    requires cfg.Valid() && FitsScan(cfg, mcu) && |dc| == |cfg.dcTbl| && b <= |mcu|
    ensures |r| == |dc|
  {
    if b == 0 then dc else DcAt(cfg, mcu, dc, b - 1)[cfg.membership[b - 1] := mcu[b - 1][0]]
  }

  lemma {:induction false} DcAtIs(cfg: ScanConfig, mcu: Mcu, dc: seq<int>, b: nat)
    requires cfg.Valid() && FitsScan(cfg, mcu) && |dc| == |cfg.dcTbl| && b <= |mcu|
    ensures forall ci :: 0 <= ci < |dc| ==> DcAt(cfg, mcu, dc, b)[ci] == Predictor(cfg, mcu, dc, ci, b)
  {
    if b != 0 {
      DcAtIs(cfg, mcu, dc, b - 1);
    }
  }

  /** The coder's list of blocks from block b on. */
  lemma {:induction false} BlocksFrom(cfg: ScanConfig, mcu: Mcu, dc: seq<int>, b: nat)
    requires cfg.Valid() && FitsScan(cfg, mcu) && |dc| == |cfg.dcTbl| && b <= |mcu|
    ensures |ScanCoding.McuBlocks(cfg, mcu, dc, 0)| == |mcu|
    ensures ScanCoding.McuBlocks(cfg, mcu, dc, 0)[b..] == ScanCoding.McuBlocks(cfg, mcu, DcAt(cfg, mcu, dc, b), b)
    ensures DcAfter(cfg, mcu, dc, 0) == DcAfter(cfg, mcu, DcAt(cfg, mcu, dc, b), b)
  {
    hide BlockTokens, Zigzag;
    BlocksCount(cfg, mcu, dc, 0);
    var all := ScanCoding.McuBlocks(cfg, mcu, dc, 0);
    if b == 0 {
      assert all[0..] == all;
    } else {
      BlocksFrom(cfg, mcu, dc, b - 1);
      var d := DcAt(cfg, mcu, dc, b - 1);
      assert all[b..] == all[b - 1..][1..];
      assert ScanCoding.McuBlocks(cfg, mcu, d, b - 1)[1..]
             == ScanCoding.McuBlocks(cfg, mcu, d[cfg.membership[b - 1] := mcu[b - 1][0]], b);
    }
  }

  /** Each block is coded with the difference to the block of its component that came last. */
  lemma CodedFromPredictor(cfg: ScanConfig, mcu: Mcu, dc: seq<int>, p: nat)
    requires cfg.Valid() && FitsScan(cfg, mcu) && |dc| == |cfg.dcTbl| && p < |mcu|
    ensures |ScanCoding.McuBlocks(cfg, mcu, dc, 0)| == |mcu|
    ensures var ci := cfg.membership[p];
            ScanCoding.McuBlocks(cfg, mcu, dc, 0)[p]
            == CodedBlock(ci, BlockTokens(Zigzag(cfg.order, mcu[p]), Predictor(cfg, mcu, dc, ci, p)))
  {
    hide BlockTokens, Zigzag, Predictor, DcAt;
    BlocksFrom(cfg, mcu, dc, p);
    DcAtIs(cfg, mcu, dc, p);
    var all := ScanCoding.McuBlocks(cfg, mcu, dc, 0);
    assert all[p] == all[p..][0];
  }

  /** After an MCU the predictors are the DC values of the last blocks. */
  lemma PredictorsAfter(cfg: ScanConfig, mcu: Mcu, dc: seq<int>, ci: nat)
    requires cfg.Valid() && FitsScan(cfg, mcu) && |dc| == |cfg.dcTbl| && ci < |dc|
    ensures DcAfter(cfg, mcu, dc, 0)[ci] == Predictor(cfg, mcu, dc, ci, |mcu|)
  {
    BlocksFrom(cfg, mcu, dc, |mcu|);
    DcAtIs(cfg, mcu, dc, |mcu|);
  }

  lemma {:induction false} BlocksCount(cfg: ScanConfig, mcu: Mcu, dc: seq<int>, b: nat)
    requires cfg.Valid() && FitsScan(cfg, mcu) && |dc| == |cfg.dcTbl| && b <= |mcu|
    ensures |ScanCoding.McuBlocks(cfg, mcu, dc, b)| == |mcu| - b
    decreases |mcu| - b
  {
    if b < |mcu| {
      BlocksCount(cfg, mcu, dc[cfg.membership[b] := mcu[b][0]], b + 1);
    }
  }

  // ---------- dummy blocks ----------

  /** A dummy block after a block with the same DC value: no difference, and end of block. */
  lemma DummyTokens(order: seq<nat>, dc: int)
    requires IsOrder(order)
    ensures BlockTokens(Zigzag(order, Dummy(dc)), dc) == [Symbol(false, 0), Symbol(true, EOB)]
  {
    var zz := Zigzag(order, Dummy(dc));
    assert zz[0] == dc;
    assert forall k :: 1 <= k < 64 ==> zz[k] == 0;
    hide Zigzag, Dummy;
    ZeroTail(zz, 1, 0);
    ZeroDcTokens();
  }

  ghost predicate IsDummy(j: Job, i: nat, row: nat, col: nat)
    requires i < |j.frame.comps|
  {
    row >= j.frame.comps[i].heightInBlocks || col >= j.frame.comps[i].widthInBlocks
  }

  /** In an MCU column of the frame the first block of a row is not to the right of the image. */
  lemma FirstColumnIsReal(j: Job, i: nat, m: nat)
    requires j.frame.Valid() && j.ValidIndex(i) && m < j.frame.MaxMcusPerRow()
    ensures j.frame.comps[i].h > 0 && m * j.frame.comps[i].h < j.frame.comps[i].widthInBlocks
  {
    var c := j.frame.comps[i];
    assert j.frame.ValidComponent(c);
    ComponentFillsMcus(j.frame, i);
    MulLe(m, j.frame.MaxMcusPerRow() - 1, c.h);
  }

  /** A dummy block, the x-th in its row of the MCU, has nothing but the DC value of the block before it in the MCU. */
  lemma DummyFollows(j: Job, i: nat, row: nat, m: nat, x: nat)
    requires j.frame.Valid() && j.ValidIndex(i) && m < j.frame.MaxMcusPerRow() && x < j.frame.comps[i].h
    requires IsDummy(j, i, row, m * j.frame.comps[i].h + x)
    ensures var h := j.frame.comps[i].h;
            if x > 0 then j.Coef(i, row, m * h + x) == Dummy(j.Coef(i, row, m * h + (x - 1))[0])
            else row >= j.frame.comps[i].heightInBlocks && row > 0
                 && j.Coef(i, row, m * h) == Dummy(j.Coef(i, row - 1, m * h + (h - 1))[0])
  {
    hide CeilDiv, Dummy, GroupEnd;
    var c := j.frame.comps[i];
    assert j.frame.ValidComponent(c);
    ComponentFillsMcus(j.frame, i);
    FirstColumnIsReal(j, i, m);
    SameGroup(m, c.h, x);
    DummyDc(0);
    if x > 0 {
      SameGroup(m, c.h, x - 1);
      forall dc ensures Dummy(dc)[0] == dc {
        DummyDc(dc);
      }
    }
  }

  lemma DummyDc(dc: int)
    ensures Dummy(dc)[0] == dc
  {
  }

  /** The scan parameters belong to the job. */
  ghost predicate Matches(job: Job, cfg: ScanConfig) {
    job.Valid() && cfg.Valid() && cfg.membership == job.scan.membership && |cfg.dcTbl| == |job.cur|
  }

  /** In a scan of one component no block is a dummy. */
  lemma AloneIsReal(j: Job, iMcuRow: nat, yoffset: nat, mcuCol: nat)
    requires j.Valid() && |j.cur| == 1 && j.IsPosition(iMcuRow, yoffset, mcuCol)
    ensures !IsDummy(j, j.cur[0], j.BaseRow(0, iMcuRow, yoffset), j.StartCol(0, mcuCol))
  {
    hide CeilDiv, Last;
    var c := j.frame.comps[j.cur[0]];
    assert j.frame.ValidComponent(c);
    ComponentFillsMcus(j.frame, j.cur[0]);
    if iMcuRow + 1 < j.frame.totalIMcuRows {
      MulLe(iMcuRow + 1, j.frame.totalIMcuRows - 1, c.v);
      MulDistrib(iMcuRow, 1, c.v);
    }
  }

  /** Every dummy block of an MCU, to the right of the image or below it, is coded as two symbols: no DC difference, and
      end of block. */
  lemma DummyCosts(j: Job, cfg: ScanConfig, iMcuRow: nat, yoffset: nat, mcuCol: nat, ci: nat, y: nat, x: nat,
                   dc: seq<int>)
    requires Matches(j, cfg) && j.IsPosition(iMcuRow, yoffset, mcuCol) && |dc| == |cfg.dcTbl|
    requires ci < |j.cur| && y < j.scan.comps[ci].mcuHeight && x < j.scan.comps[ci].mcuWidth
    requires IsDummy(j, j.cur[ci], j.BaseRow(ci, iMcuRow, yoffset) + y, j.StartCol(ci, mcuCol) + x)
    ensures var p, mcu := Place(j.scan, ci, y, x), j.McuAt(iMcuRow, yoffset, mcuCol);
            && FitsScan(cfg, mcu) && |ScanCoding.McuBlocks(cfg, mcu, dc, 0)| == |mcu| > p
            && ScanCoding.McuBlocks(cfg, mcu, dc, 0)[p] == CodedBlock(ci, [Symbol(false, 0), Symbol(true, EOB)])
  {
    hide Job.Coef, ScanCoding.McuBlocks, Job.McuTo, BlockTokens, Zigzag, Membership, CeilDiv, Dummy;
    if |j.cur| == 1 {
      AloneIsReal(j, iMcuRow, yoffset, mcuCol);
    }
    var mcu, p, w := j.McuAt(iMcuRow, yoffset, mcuCol), Place(j.scan, ci, y, x), j.scan.comps[ci].mcuWidth;
    PreviousBlock(j, iMcuRow, mcuCol, yoffset, ci, y, x);
    CodedFromPredictor(cfg, mcu, dc, p);
    DummyTokens(cfg.order, mcu[p - 1][0]);
  }

  /** The block before a dummy block is of the same component, and gives it its DC value. */
  lemma PreviousBlock(j: Job, iMcuRow: nat, mcuCol: nat, yoffset: nat, ci: nat, y: nat, x: nat)
    requires j.Valid() && |j.cur| > 1 && j.IsPosition(iMcuRow, yoffset, mcuCol)
    requires ci < |j.cur| && y < j.scan.comps[ci].mcuHeight && x < j.scan.comps[ci].mcuWidth
    requires IsDummy(j, j.cur[ci], j.BaseRow(ci, iMcuRow, yoffset) + y, j.StartCol(ci, mcuCol) + x)
    ensures var p, mcu := Place(j.scan, ci, y, x), j.McuAt(iMcuRow, yoffset, mcuCol);
            && 0 < p < |mcu| == |j.scan.membership| && mcu[p] == Dummy(mcu[p - 1][0])
            && j.scan.membership[p - 1] == j.scan.membership[p] == ci
  {
    hide Job.Coef, Job.McuTo, Membership, CeilDiv, Dummy;
    var n, h, v := |j.cur|, j.scan.comps[ci].mcuWidth, j.scan.comps[ci].mcuHeight;
    var row := j.BaseRow(ci, iMcuRow, yoffset);
    assert j.scan.comps[ci] == InterleavedComponent(j.frame, j.cur[ci]);
    BlockInMcu(j, iMcuRow, yoffset, mcuCol, n, ci, y, x);
    InBounds(y, x, h, v);
    MemberAt(j.scan.comps, n, ci, y * h + x);
    FirstRowIsReal(j, iMcuRow, ci);
    DummyFollows(j, j.cur[ci], row + y, mcuCol, x);
    if x > 0 {
      BlockInMcu(j, iMcuRow, yoffset, mcuCol, n, ci, y, x - 1);
      InBounds(y, x - 1, h, v);
      MemberAt(j.scan.comps, n, ci, y * h + (x - 1));
    } else {
      BlockInMcu(j, iMcuRow, yoffset, mcuCol, n, ci, y - 1, h - 1);
      InBounds(y - 1, h - 1, h, v);
      MemberAt(j.scan.comps, n, ci, (y - 1) * h + (h - 1));
      MulDistrib(y - 1, 1, h);
    }
  }

  lemma FirstRowIsReal(j: Job, iMcuRow: nat, ci: nat)
    requires j.Valid() && ci < |j.cur| && iMcuRow < j.frame.totalIMcuRows
    ensures iMcuRow * j.frame.comps[j.cur[ci]].v < j.frame.comps[j.cur[ci]].heightInBlocks
  {
    var c := j.frame.comps[j.cur[ci]];
    assert j.frame.ValidComponent(c);
    ComponentFillsMcus(j.frame, j.cur[ci]);
    MulLe(iMcuRow, j.frame.totalIMcuRows - 1, c.v);
  }
}
