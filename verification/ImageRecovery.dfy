/** What is written for an image determines it: each block of each component can be got back from the data of the one
    scan it is sent in. */
module ImageRecovery {
  import opened BitStrings
  import opened ScanDecoder
  import opened CoefImage
  import opened McuLayout
  import opened ScanScript
  import opened PassPlan
  import opened ImageRun

  /** Two images in the same scan. */
  ghost predicate SameScan(a: Job, b: Job) {
    a.Valid() && b.Valid() && a.frame == b.frame && a.cur == b.cur && a.scan == b.scan
  }

  // ---------- from the MCUs of a scan to one MCU ----------

  lemma SamePlace(a: Job, b: Job, iMcuRow: nat, yoffset: nat, mcuCol: nat)
    requires SameScan(a, b) && iMcuRow < a.frame.totalIMcuRows
    ensures |a.Before(iMcuRow, yoffset, mcuCol)| == |b.Before(iMcuRow, yoffset, mcuCol)|
  {
    hide Job.IMcuRows, Job.Rows, Job.Part, Job.Valid;
    a.FullRowsCount(iMcuRow);
    b.FullRowsCount(iMcuRow);
    a.RowsCount(iMcuRow, yoffset);
    b.RowsCount(iMcuRow, yoffset);
    a.PartCount(iMcuRow, yoffset, mcuCol);
    b.PartCount(iMcuRow, yoffset, mcuCol);
  }

  /** Equal scans have equal MCUs everywhere. */
  lemma SameMcu(a: Job, b: Job, iMcuRow: nat, yoffset: nat, mcuCol: nat)
    requires SameScan(a, b) && a.AllMcus() == b.AllMcus() && a.IsPosition(iMcuRow, yoffset, mcuCol)
    ensures a.McuAt(iMcuRow, yoffset, mcuCol) == b.McuAt(iMcuRow, yoffset, mcuCol)
  {
    hide Job.Before, Job.AllMcus, Job.McuAt, Job.Valid;
    SamePlace(a, b, iMcuRow, yoffset, mcuCol);
    a.PositionInScan(iMcuRow, yoffset, mcuCol);
    b.PositionInScan(iMcuRow, yoffset, mcuCol);
    var n := |a.Before(iMcuRow, yoffset, mcuCol)|;
    assert a.AllMcus()[n] == a.McuAt(iMcuRow, yoffset, mcuCol);
    assert b.AllMcus()[n] == b.McuAt(iMcuRow, yoffset, mcuCol);
  }

  // ---------- from one MCU to its blocks ----------

  /** Equal MCUs have equal blocks. */
  lemma SameBlock(a: Job, b: Job, iMcuRow: nat, yoffset: nat, mcuCol: nat, ci: nat, y: nat, x: nat)
    requires SameScan(a, b) && a.AllMcus() == b.AllMcus() && a.IsPosition(iMcuRow, yoffset, mcuCol)
    requires ci < |a.cur| && y < a.scan.comps[ci].mcuHeight && x < a.scan.comps[ci].mcuWidth
    ensures var row, col := a.BaseRow(ci, iMcuRow, yoffset) + y, a.StartCol(ci, mcuCol) + x;
            a.Coef(a.cur[ci], row, col) == b.Coef(a.cur[ci], row, col)
  {
    hide Job.Coef, Job.AllMcus, Job.McuTo, Place;
    SameMcu(a, b, iMcuRow, yoffset, mcuCol);
    BlockInMcu(a, iMcuRow, yoffset, mcuCol, |a.cur|, ci, y, x);
    BlockInMcu(b, iMcuRow, yoffset, mcuCol, |a.cur|, ci, y, x);
  }

  /** The MCUs of a scan determine the blocks of its components. */
  lemma ScanDeterminesBlocks(a: Job, b: Job, ci: nat, row: nat, col: nat)
    requires SameScan(a, b) && a.AllMcus() == b.AllMcus() && ci < |a.cur|
    requires row < a.frame.comps[a.cur[ci]].heightInBlocks && col < a.frame.comps[a.cur[ci]].widthInBlocks
    ensures a.dct(a.cur[ci], row, col) == b.dct(a.cur[ci], row, col)
  {
    hide Job.AllMcus;
    var iMcuRow, yoffset, mcuCol, y, x := PositionOf(a, ci, row, col);
    SameBlock(a, b, iMcuRow, yoffset, mcuCol, ci, y, x);
  }

  // ---------- the whole image ----------

  /** A sequential script, or none, sends every component. */
  lemma ComponentIsSent(im: Image, i: nat) returns (k: nat, ci: nat)
    requires im.Legal() && i < |im.settings.sampling|
    ensures k < im.settings.NumScans() && ci < |im.settings.Cur(k)| && im.settings.Cur(k)[ci] == i
  {
    if im.settings.script.None? {
      k, ci := 0, i;
    } else {
      var script := im.settings.script.value;
      assert ComponentSent(script, |script|, i);
      k :| k < |script| && SendsComponent(script[k], i);
      ci :| ci < |script[k].comps| && script[k].comps[ci] == i;
    }
  }

  /** Images with the same settings differ in their blocks only. */
  ghost predicate SameSettings(a: Image, b: Image) {
    a.Legal() && b.Legal() && a.settings == b.settings && a.order == b.order && a.dcTbl == b.dcTbl && a.acTbl == b.acTbl
  }

  /** Two images for which the same data is written, with the same tables, are the same block by block. */
  lemma OutputDeterminesImage(a: Image, b: Image, headers: nat -> seq<byte>, pieces: seq<Piece>, i: nat, row: nat,
                              col: nat)
    requires SameSettings(a, b) && |pieces| == a.settings.NumScans() && i < |a.settings.FrameOf().comps|
    requires AllDecode(a, headers, pieces) && AllDecode(b, headers, pieces)
    requires var c := a.settings.FrameOf().comps[i]; row < c.heightInBlocks && col < c.widthInBlocks
    ensures a.dct(i, row, col) == b.dct(i, row, col)
  {
    hide Settings.FrameOf, Settings.Cur, Job.AllMcus, DecodeScan, Image.ScanAt, Image.Codable;
    a.settings.FrameIsLegal(false);
    var k, ci := ComponentIsSent(a, i);
    assert Decodes(a, headers, k, pieces[k]) && Decodes(b, headers, k, pieces[k]);
    SameMcus(a, b, headers, k, pieces[k]);
    ScanDeterminesBlocks(a.JobAt(k), b.JobAt(k), ci, row, col);
  }

  lemma SameMcus(a: Image, b: Image, headers: nat -> seq<byte>, k: nat, p: Piece)
    requires SameSettings(a, b) && k < a.settings.NumScans()
    requires Decodes(a, headers, k, p) && Decodes(b, headers, k, p)
    ensures a.Fits(k) && b.Fits(k) && SameScan(a.JobAt(k), b.JobAt(k)) && a.JobAt(k).AllMcus() == b.JobAt(k).AllMcus()
    ensures a.JobAt(k).cur == a.settings.Cur(k) && a.JobAt(k).frame == a.settings.FrameOf()
    ensures a.JobAt(k).dct == a.dct && b.JobAt(k).dct == b.dct
  {
    hide Job.AllMcus, DecodeScan, ZigzagAll;
    assert a.CfgAt(k) == b.CfgAt(k);
    a.JobAt(k).McuCount();
    b.JobAt(k).McuCount();
    ZigzagAllDetermines(a.CfgAt(k), a.JobAt(k).AllMcus(), b.JobAt(k).AllMcus());
  }
}
