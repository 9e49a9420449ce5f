/** The coefficient blocks of an image, with the dummy blocks at its right and bottom edges, and the
    order in which a scan delivers them as MCUs. */
module CoefImage {
  import opened Sequences
  import opened Powers
  import opened BlockCoding
  import opened ScanCoding
  import opened Geometry

  /** A dummy block: all zero but for its DC coefficient. */
  function Dummy(dc: int): Block {
    seq(64, k => if k == 0 then dc else 0)
  }

  /** What one scan works on. dct(i, row, col) is the forward DCT of block (row, col) of component i. */
  datatype Job = Job(frame: Frame, cur: seq<nat>, scan: Scan, dct: (nat, nat, nat) -> Block) {

    ghost predicate Valid() {
      ScanOf(frame, cur, scan)
    }

    ghost predicate ValidIndex(i: nat) {
      i < |frame.comps|
    }

    /** Block (row, col) of component i. To the right of the image a row repeats the DC value of its
        last real block; below it, each group of h blocks repeats the DC value of the last block of
        the group above. */
    ghost function Coef(i: nat, row: nat, col: nat): Block
      requires frame.Valid() && ValidIndex(i)
      decreases row
    {
      var c := frame.comps[i];
      ComponentFillsMcus(frame, i);
      assert frame.ValidComponent(c);
      if row < c.heightInBlocks then
        if col < c.widthInBlocks then dct(i, row, col) else Dummy(dct(i, row, c.widthInBlocks - 1)[0])
      else
        Dummy(Coef(i, row - 1, GroupEnd(col, c.h))[0])
    }

    /** k blocks of a row. */
    ghost function RowBlocks(i: nat, row: nat, col: nat, k: nat): (r: seq<Block>)
      requires frame.Valid() && ValidIndex(i)
      ensures |r| == k
    {
      seq<Block>(k, x requires 0 <= x < k => Coef(i, row, col + x))
    }

    /** The block column at which an MCU starts. */
    function StartCol(ci: nat, mcuCol: nat): nat
      requires ci < |scan.comps|
    {
      mcuCol * scan.comps[ci].mcuWidth
    }

    /** The first y rows of blocks that component ci of the scan has in an MCU. */
    ghost function CompBlocks(ci: nat, row: nat, mcuCol: nat, y: nat): (r: seq<Block>)
      requires Valid() && ci < |cur|
      ensures |r| == y * scan.comps[ci].mcuWidth
    {
      if y == 0 then [] else
        var w := scan.comps[ci].mcuWidth;
        MulDistrib(y - 1, 1, w);
        CompBlocks(ci, row, mcuCol, y - 1) + RowBlocks(cur[ci], row + y - 1, StartCol(ci, mcuCol), w)
    }

    /** The block row of component ci at which an MCU row starts. */
    function BaseRow(ci: nat, iMcuRow: nat, yoffset: nat): nat
      requires ci < |cur| && cur[ci] < |frame.comps|
    {
      iMcuRow * frame.comps[cur[ci]].v + yoffset
    }

    /** The blocks of an MCU that belong to the first n components. */
    ghost function McuTo(iMcuRow: nat, yoffset: nat, mcuCol: nat, n: nat): (r: seq<Block>)
      requires Valid() && n <= |cur|
      ensures |r| == |Membership(scan.comps, n)|
    {
      if n == 0 then [] else
        McuTo(iMcuRow, yoffset, mcuCol, n - 1)
        + CompBlocks(n - 1, BaseRow(n - 1, iMcuRow, yoffset), mcuCol, scan.comps[n - 1].mcuHeight)
    }

    /** MCU number mcuCol of MCU row yoffset of an iMCU row. */
    ghost function McuAt(iMcuRow: nat, yoffset: nat, mcuCol: nat): (r: Mcu)
      requires Valid()
      ensures |r| == |scan.membership|
    {
      McuTo(iMcuRow, yoffset, mcuCol, |cur|)
    }

    // ---------- the order of the MCUs ----------

    /** The number of MCU rows in an iMCU row. */
    function McuRows(iMcuRow: nat): (n: nat)
      requires Valid()
    {
      if |cur| > 1 then 1
      else if iMcuRow + 1 < frame.totalIMcuRows then frame.comps[cur[0]].v
      else scan.comps[0].lastRowHeight
    }

    /** The first n MCUs of an MCU row. */
    ghost function Part(iMcuRow: nat, yoffset: nat, n: nat): seq<Mcu>
      requires Valid()
    {
      if n == 0 then [] else Part(iMcuRow, yoffset, n - 1) + [McuAt(iMcuRow, yoffset, n - 1)]
    }

    /** The first y MCU rows of an iMCU row. */
    ghost function Rows(iMcuRow: nat, y: nat): seq<Mcu>
      requires Valid()
    {
      if y == 0 then [] else Rows(iMcuRow, y - 1) + Part(iMcuRow, y - 1, scan.mcusPerRow)
    }

    /** The first i iMCU rows. */
    ghost function IMcuRows(i: nat): seq<Mcu>
      requires Valid()
    {
      if i == 0 then [] else IMcuRows(i - 1) + Rows(i - 1, McuRows(i - 1))
    }

    /** All MCUs before a position. */
    ghost function Before(iMcuRow: nat, yoffset: nat, mcuCol: nat): seq<Mcu>
      requires Valid()
    {
      IMcuRows(iMcuRow) + (Rows(iMcuRow, yoffset) + Part(iMcuRow, yoffset, mcuCol))
    }

    /** All MCUs of the scan. */
    ghost function AllMcus(): seq<Mcu>
      requires Valid()
    {
      IMcuRows(frame.totalIMcuRows)
    }

    lemma NextMcu(iMcuRow: nat, yoffset: nat, mcuCol: nat)
      requires Valid()
      ensures Before(iMcuRow, yoffset, mcuCol + 1)
              == Before(iMcuRow, yoffset, mcuCol) + [McuAt(iMcuRow, yoffset, mcuCol)]
    {
      AssocFour(IMcuRows(iMcuRow), Rows(iMcuRow, yoffset), Part(iMcuRow, yoffset, mcuCol),
                [McuAt(iMcuRow, yoffset, mcuCol)]);
    }

    lemma NextRow(iMcuRow: nat, yoffset: nat)
      requires Valid()
      ensures Before(iMcuRow, yoffset + 1, 0) == Before(iMcuRow, yoffset, scan.mcusPerRow)
    {
      var a, b := Rows(iMcuRow, yoffset), Part(iMcuRow, yoffset, scan.mcusPerRow);
      assert (a + b) + [] == a + b;
    }

    lemma NextIMcuRow(iMcuRow: nat)
      requires Valid()
      ensures Before(iMcuRow + 1, 0, 0) == Before(iMcuRow, McuRows(iMcuRow), 0)
    {
      var a, b := IMcuRows(iMcuRow), Rows(iMcuRow, McuRows(iMcuRow));
      var none: seq<Mcu> := [];
      assert b + none == b;
      assert (a + b) + (none + none) == a + b;
    }

    lemma AtStart()
      requires Valid()
      ensures Before(0, 0, 0) == []
    {
    }

    lemma AtEnd()
      requires Valid()
      ensures Before(frame.totalIMcuRows, 0, 0) == AllMcus()
    {
      var none: seq<Mcu> := [];
      assert AllMcus() + (none + none) == AllMcus();
    }

    /** A position in the scan at which an MCU is due. */
    ghost predicate IsPosition(iMcuRow: nat, yoffset: nat, mcuCol: nat)
      requires Valid()
    {
      iMcuRow < frame.totalIMcuRows && yoffset < McuRows(iMcuRow) && mcuCol < scan.mcusPerRow
    }

    lemma {:induction false} PartPrefix(iMcuRow: nat, yoffset: nat, mcuCol: nat)
      requires Valid() && mcuCol <= scan.mcusPerRow
      ensures Before(iMcuRow, yoffset, mcuCol) <= Before(iMcuRow, yoffset + 1, 0)
      decreases scan.mcusPerRow - mcuCol
    {
      if mcuCol == scan.mcusPerRow {
        NextRow(iMcuRow, yoffset);
      } else {
        NextMcu(iMcuRow, yoffset, mcuCol);
        PartPrefix(iMcuRow, yoffset, mcuCol + 1);
      }
    }

    lemma {:induction false} RowsPrefix(iMcuRow: nat, y: nat)
      requires Valid() && y <= McuRows(iMcuRow)
      ensures Before(iMcuRow, y, 0) <= Before(iMcuRow + 1, 0, 0)
      decreases McuRows(iMcuRow) - y
    {
      if y == McuRows(iMcuRow) {
        NextIMcuRow(iMcuRow);
      } else {
        PartPrefix(iMcuRow, y, 0);
        RowsPrefix(iMcuRow, y + 1);
      }
    }

    lemma {:induction false} IMcuRowsPrefix(i: nat)
      requires Valid() && i <= frame.totalIMcuRows
      ensures Before(i, 0, 0) <= AllMcus()
      decreases frame.totalIMcuRows - i
    {
      hide Before, AllMcus;
      if i == frame.totalIMcuRows {
        AtEnd();
      } else {
        RowsPrefix(i, 0);
        IMcuRowsPrefix(i + 1);
      }
    }

    lemma BeforeInScan(iMcuRow: nat, yoffset: nat, mcuCol: nat)
      requires Valid() && iMcuRow < frame.totalIMcuRows && yoffset < McuRows(iMcuRow) && mcuCol <= scan.mcusPerRow
      ensures Before(iMcuRow, yoffset, mcuCol) <= AllMcus()
    {
      PartPrefix(iMcuRow, yoffset, mcuCol);
      RowsPrefix(iMcuRow, yoffset + 1);
      IMcuRowsPrefix(iMcuRow + 1);
    }

    /** The MCU due at a position is the next one of the scan. */
    lemma PositionInScan(iMcuRow: nat, yoffset: nat, mcuCol: nat)
      requires Valid() && IsPosition(iMcuRow, yoffset, mcuCol)
      ensures Before(iMcuRow, yoffset, mcuCol) + [McuAt(iMcuRow, yoffset, mcuCol)] <= AllMcus()
    {
      NextMcu(iMcuRow, yoffset, mcuCol);
      BeforeInScan(iMcuRow, yoffset, mcuCol + 1);
    }

    /** Every MCU has as many blocks as MCU_membership has entries. */
    ghost predicate RightSize(mcus: seq<Mcu>) {
      forall i :: 0 <= i < |mcus| ==> |mcus[i]| == |scan.membership|
    }

    lemma {:induction false} PartSize(iMcuRow: nat, yoffset: nat, n: nat)
      requires Valid()
      ensures RightSize(Part(iMcuRow, yoffset, n))
    {
      if n != 0 {
        PartSize(iMcuRow, yoffset, n - 1);
      }
    }

    lemma {:induction false} RowsSize(iMcuRow: nat, y: nat)
      requires Valid()
      ensures RightSize(Rows(iMcuRow, y))
    {
      if y != 0 {
        RowsSize(iMcuRow, y - 1);
        PartSize(iMcuRow, y - 1, scan.mcusPerRow);
      }
    }

    lemma {:induction false} AllSize(i: nat)
      requires Valid()
      ensures RightSize(IMcuRows(i))
    {
      if i != 0 {
        AllSize(i - 1);
        RowsSize(i - 1, McuRows(i - 1));
      }
    }

    // ---------- how many there are ----------

    lemma {:induction false} PartCount(iMcuRow: nat, yoffset: nat, n: nat)
      requires Valid()
      ensures |Part(iMcuRow, yoffset, n)| == n
    {
      if n != 0 {
        PartCount(iMcuRow, yoffset, n - 1);
      }
    }

    lemma {:induction false} RowsCount(iMcuRow: nat, y: nat)
      requires Valid()
      ensures |Rows(iMcuRow, y)| == y * scan.mcusPerRow
    {
      if y != 0 {
        RowsCount(iMcuRow, y - 1);
        PartCount(iMcuRow, y - 1, scan.mcusPerRow);
        MulDistrib(y - 1, 1, scan.mcusPerRow);
      }
    }

    lemma {:induction false} FullRowsCount(i: nat)
      requires Valid() && i < frame.totalIMcuRows
      ensures |IMcuRows(i)| == (i * (if |cur| > 1 then 1 else frame.comps[cur[0]].v)) * scan.mcusPerRow
    {
      hide Rows, CeilDiv, Last, Membership;
      if i != 0 {
        FullRowsCount(i - 1);
        RowsCount(i - 1, McuRows(i - 1));
        var v := if |cur| > 1 then 1 else frame.comps[cur[0]].v;
        MulDistrib(i - 1, 1, v);
        MulDistrib((i - 1) * v, v, scan.mcusPerRow);
      }
    }

    /** A scan delivers exactly MCU_rows_in_scan rows of MCUs_per_row MCUs. */
    lemma McuCount()
      requires Valid()
      ensures |AllMcus()| == scan.mcuRowsInScan * scan.mcusPerRow
    {
      ComponentFillsMcus(frame, cur[0]);
      var n := frame.totalIMcuRows - 1;
      FullRowsCount(n);
      RowsCount(n, McuRows(n));
      var v := if |cur| > 1 then 1 else frame.comps[cur[0]].v;
      MulDistrib(n * v, McuRows(n), scan.mcusPerRow);
    }
  }

  /** Every component of the scan has a block in the MCU. */
  lemma {:induction false} MembershipCovers(comps: seq<ScanComponent>, n: nat, ci: nat)
    requires ci < n <= |comps| && comps[ci].mcuWidth * comps[ci].mcuHeight > 0
    ensures ci in Membership(comps, n)
  {
    if ci < n - 1 {
      MembershipCovers(comps, n - 1, ci);
    } else {
      var mine := seq(comps[ci].mcuWidth * comps[ci].mcuHeight, _ => ci);
      assert mine[0] in mine;
    }
  }

  /** The last column of the group of h columns that col is in. */
  function GroupEnd(col: nat, h: nat): nat
    requires h > 0
  {
    (col / h) * h + (h - 1)
  }

  // ---------- where the image ends inside an MCU ----------

  /** The MCU columns of a scan: full ones, and a last one with lastColWidth real columns. */
  lemma ColumnIsReal(j: Job, ci: nat, mcuCol: nat, x: nat)
    requires j.Valid() && ci < |j.cur| && mcuCol < j.scan.mcusPerRow && x < j.scan.comps[ci].mcuWidth
    ensures var sc := j.scan.comps[ci];
            j.StartCol(ci, mcuCol) + x < j.frame.comps[j.cur[ci]].widthInBlocks
            <==> x < (if mcuCol + 1 < j.scan.mcusPerRow then sc.mcuWidth else sc.lastColWidth)
  {
    hide CeilDiv, Membership;
    var sc := j.scan.comps[ci];
    ComponentFillsMcus(j.frame, j.cur[ci]);
    LastGroup(mcuCol, j.scan.mcusPerRow, sc.mcuWidth, sc.lastColWidth, x);
  }

  /** n groups of w columns, the last one with only `last` of them real. */
  lemma LastGroup(group: nat, n: nat, w: nat, last: nat, x: nat)
    requires group < n && x < w && last <= w
    ensures group * w + x < (n - 1) * w + last <==> x < if group + 1 < n then w else last
  {
    if group + 1 < n {
      MulLe(group + 1, n - 1, w);
      MulDistrib(group, 1, w);
    }
  }

  /** The block rows of an iMCU row: all real, but for the last iMCU row. */
  lemma RowIsReal(j: Job, i: nat, iMcuRow: nat, y: nat)
    requires j.frame.Valid() && i < |j.frame.comps| && iMcuRow < j.frame.totalIMcuRows && y < j.frame.comps[i].v
    ensures var c := j.frame.comps[i];
            iMcuRow * c.v + y < c.heightInBlocks
            <==> iMcuRow + 1 < j.frame.totalIMcuRows || y < Last(c.heightInBlocks, c.v)
  {
    var c := j.frame.comps[i];
    ComponentFillsMcus(j.frame, i);
    if iMcuRow + 1 < j.frame.totalIMcuRows {
      MulLe(iMcuRow + 1, j.frame.totalIMcuRows - 1, c.v);
      MulDistrib(iMcuRow, 1, c.v);
    }
  }

  /** All columns of an MCU are in the same group. */
  lemma SameGroup(mcuCol: nat, h: nat, x: nat)
    requires x < h
    ensures GroupEnd(mcuCol * h + x, h) == mcuCol * h + (h - 1)
  {
    DivModUnique(mcuCol * h + x, h, mcuCol, x);
  }
}
