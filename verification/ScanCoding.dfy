/** What a whole sequential Huffman scan is coded as: MCU by MCU, with restart markers. */
module ScanCoding {
  import opened BitStrings
  import opened BytePacking
  import opened CanonicalCode
  import opened BlockCoding

  /** The parameters of one scan. Huffman tables are numbered by slot: DC tables 0 to 3, AC tables 4
      to 7. membership[b] is the component of block b of every MCU. */
  datatype ScanConfig = ScanConfig(order: seq<nat>, membership: seq<nat>, dcTbl: seq<nat>, acTbl: seq<nat>,
                                   restartInterval: nat) {
    ghost predicate Valid() {
      && IsOrder(order) && 1 <= |dcTbl| <= 4 && |acTbl| == |dcTbl|
      && (forall c :: 0 <= c < |dcTbl| ==> dcTbl[c] < 4 && acTbl[c] < 4)
      && (forall b :: 0 <= b < |membership| ==> membership[b] < |dcTbl|)
    }

    function DcSlot(ci: nat): (s: nat)
      requires Valid() && ci < |dcTbl|
      ensures s < 4
    {
      dcTbl[ci]
    }

    function AcSlot(ci: nat): (s: nat)
      requires Valid() && ci < |acTbl|
      ensures 4 <= s < 8
    {
      4 + acTbl[ci]
    }
  }

  type Mcu = seq<Block>

  ghost predicate FitsScan(cfg: ScanConfig, mcu: Mcu) {
    |mcu| == |cfg.membership|
  }

  /** One block of an MCU: its component and what it is coded as. */
  datatype CodedBlock = CodedBlock(ci: nat, tokens: seq<Token>)

  /** Blocks b and after of an MCU, from the DC predictors dc. */
  ghost function McuBlocks(cfg: ScanConfig, mcu: Mcu, dc: seq<int>, b: nat): seq<CodedBlock>
    requires cfg.Valid() && FitsScan(cfg, mcu) && |dc| == |cfg.dcTbl| && b <= |mcu|
    decreases |mcu| - b
  {
    if b == |mcu| then [] else
      var ci := cfg.membership[b];
      [CodedBlock(ci, BlockTokens(Zigzag(cfg.order, mcu[b]), dc[ci]))]
      + McuBlocks(cfg, mcu, dc[ci := mcu[b][0]], b + 1)
  }

  /** The DC predictors after blocks b and on. */
  function DcAfter(cfg: ScanConfig, mcu: Mcu, dc: seq<int>, b: nat): (r: seq<int>)
    requires cfg.Valid() && FitsScan(cfg, mcu) && |dc| == |cfg.dcTbl| && b <= |mcu|
    ensures |r| == |dc|
    decreases |mcu| - b
  {
    if b == |mcu| then dc else DcAfter(cfg, mcu, dc[cfg.membership[b] := mcu[b][0]], b + 1)
  }

  // ---------- progress through a scan ----------

  datatype Progress = Progress(lastDc: seq<int>, restartsToGo: nat, nextRestartNum: nat)

  function ZeroDc(cfg: ScanConfig): (dc: seq<int>)
    ensures |dc| == |cfg.dcTbl|
  {
    seq(|cfg.dcTbl|, _ => 0)
  }

  function Initial(cfg: ScanConfig): Progress {
    Progress(ZeroDc(cfg), cfg.restartInterval, 0)
  }

  predicate AtRestart(cfg: ScanConfig, p: Progress) {
    cfg.restartInterval != 0 && p.restartsToGo == 0
  }

  /** The predictors the next MCU starts from. */
  function StartDc(cfg: ScanConfig, p: Progress): seq<int> {
    if AtRestart(cfg, p) then ZeroDc(cfg) else p.lastDc
  }

  ghost predicate GoodProgress(cfg: ScanConfig, p: Progress) {
    |p.lastDc| == |cfg.dcTbl| && p.nextRestartNum < 8
  }

  /** One MCU further on, with these predictors. */
  function Moved(cfg: ScanConfig, p: Progress, dc: seq<int>): Progress {
    if cfg.restartInterval == 0 then p.(lastDc := dc)
    else if p.restartsToGo == 0 then Progress(dc, cfg.restartInterval - 1, (p.nextRestartNum + 1) % 8)
    else Progress(dc, p.restartsToGo - 1, p.nextRestartNum)
  }

  function Advance(cfg: ScanConfig, p: Progress, mcu: Mcu): (r: Progress)
    requires cfg.Valid() && FitsScan(cfg, mcu) && GoodProgress(cfg, p)
    ensures GoodProgress(cfg, r)
  {
    Moved(cfg, p, DcAfter(cfg, mcu, StartDc(cfg, p), 0))
  }

  ghost predicate FitAll(cfg: ScanConfig, mcus: seq<Mcu>) {
    forall i :: 0 <= i < |mcus| ==> FitsScan(cfg, mcus[i])
  }

  function ProgressAfter(cfg: ScanConfig, mcus: seq<Mcu>): (p: Progress)
    requires cfg.Valid() && FitAll(cfg, mcus)
    ensures GoodProgress(cfg, p)
  {
    if mcus == [] then Initial(cfg)
    else Advance(cfg, ProgressAfter(cfg, mcus[..|mcus| - 1]), mcus[|mcus| - 1])
  }

  /** The blocks of the MCU that follows the given ones. */
  ghost function NextBlocks(cfg: ScanConfig, mcus: seq<Mcu>, mcu: Mcu): seq<CodedBlock>
    requires cfg.Valid() && FitAll(cfg, mcus) && FitsScan(cfg, mcu)
  {
    McuBlocks(cfg, mcu, StartDc(cfg, ProgressAfter(cfg, mcus)), 0)
  }

  // ---------- bits and bytes ----------

  type Tables = t: seq<DerivedTable> | |t| == 8 witness seq(8, _ => DerivedTable([], []))

  ghost predicate Ready(cfg: ScanConfig, tables: Tables)
    requires cfg.Valid()
  {
    forall c :: 0 <= c < |cfg.dcTbl| ==> tables[cfg.DcSlot(c)].Usable() && tables[cfg.AcSlot(c)].Usable()
  }

  ghost predicate GoodBlocks(cfg: ScanConfig, bs: seq<CodedBlock>) {
    forall i :: 0 <= i < |bs| ==> bs[i].ci < |cfg.dcTbl|
  }

  ghost function BlocksBits(cfg: ScanConfig, tables: Tables, bs: seq<CodedBlock>): Bits
    requires cfg.Valid() && Ready(cfg, tables) && GoodBlocks(cfg, bs)
  {
    if bs == [] then []
    else BitsOf(bs[0].tokens, tables[cfg.DcSlot(bs[0].ci)], tables[cfg.AcSlot(bs[0].ci)])
         + BlocksBits(cfg, tables, bs[1..])
  }

  ghost predicate BlocksEncodable(cfg: ScanConfig, tables: Tables, bs: seq<CodedBlock>)
    requires cfg.Valid() && Ready(cfg, tables) && GoodBlocks(cfg, bs)
  {
    forall i :: 0 <= i < |bs| ==>
      AllEncodable(bs[i].tokens, tables[cfg.DcSlot(bs[i].ci)], tables[cfg.AcSlot(bs[i].ci)])
  }

  lemma {:induction false} McuBlocksGood(cfg: ScanConfig, mcu: Mcu, dc: seq<int>, b: nat)
    requires cfg.Valid() && FitsScan(cfg, mcu) && |dc| == |cfg.dcTbl| && b <= |mcu|
    ensures GoodBlocks(cfg, McuBlocks(cfg, mcu, dc, b))
    decreases |mcu| - b
  {
    if b < |mcu| {
      McuBlocksGood(cfg, mcu, dc[cfg.membership[b] := mcu[b][0]], b + 1);
    }
  }

  /** The bytes written before the current restart interval, and all its bits so far. */
  datatype Segment = Segment(prefix: seq<byte>, bits: Bits) {
    ghost function Bytes(): seq<byte> {
      prefix + Coded(bits)
    }
  }

  /** A restart: the interval padded with ones, and the marker RST0 to RST7. */
  ghost function Restarted(s: Segment, num: nat): Segment
    requires num < 8
  {
    Segment(s.prefix + Coded(s.bits + Ones(7)) + [0xFF, 0xD0 + num], [])
  }

  ghost function AtMcuStart(cfg: ScanConfig, p: Progress, s: Segment): Segment
    requires GoodProgress(cfg, p)
  {
    if AtRestart(cfg, p) then Restarted(s, p.nextRestartNum) else s
  }

  /** The stream after all the given MCUs, when it held `base` before the scan. */
  ghost function Stream(cfg: ScanConfig, tables: Tables, base: seq<byte>, mcus: seq<Mcu>): Segment
    requires cfg.Valid() && Ready(cfg, tables) && FitAll(cfg, mcus)
  {
    if mcus == [] then Segment(base, []) else
      var n := |mcus| - 1;
      NextStream(cfg, tables, ProgressAfter(cfg, mcus[..n]), Stream(cfg, tables, base, mcus[..n]), mcus[n])
  }

  ghost function NextStream(cfg: ScanConfig, tables: Tables, p: Progress, s: Segment, mcu: Mcu): Segment
    requires cfg.Valid() && Ready(cfg, tables) && GoodProgress(cfg, p) && FitsScan(cfg, mcu)
  {
    McuBlocksGood(cfg, mcu, StartDc(cfg, p), 0);
    var s0 := AtMcuStart(cfg, p, s);
    Segment(s0.prefix, s0.bits + BlocksBits(cfg, tables, McuBlocks(cfg, mcu, StartDc(cfg, p), 0)))
  }

  /** One more MCU. */
  lemma OneMore(cfg: ScanConfig, tables: Tables, base: seq<byte>, mcus: seq<Mcu>, mcu: Mcu)
    requires cfg.Valid() && Ready(cfg, tables) && FitAll(cfg, mcus) && FitsScan(cfg, mcu)
    ensures FitAll(cfg, mcus + [mcu])
    ensures ProgressAfter(cfg, mcus + [mcu]) == Advance(cfg, ProgressAfter(cfg, mcus), mcu)
    ensures Stream(cfg, tables, base, mcus + [mcu])
            == NextStream(cfg, tables, ProgressAfter(cfg, mcus), Stream(cfg, tables, base, mcus), mcu)
  {
    var all := mcus + [mcu];
    assert all[..|all| - 1] == mcus;
  }

  /** An MCU only adds bytes. */
  lemma NextStreamGrows(cfg: ScanConfig, tables: Tables, p: Progress, s: Segment, mcu: Mcu)
    requires cfg.Valid() && Ready(cfg, tables) && GoodProgress(cfg, p) && FitsScan(cfg, mcu)
    ensures AtMcuStart(cfg, p, s).Bytes() <= NextStream(cfg, tables, p, s, mcu).Bytes()
    ensures AtRestart(cfg, p) ==> s.prefix + Coded(s.bits + Ones(7)) <= NextStream(cfg, tables, p, s, mcu).Bytes()
  {
    McuBlocksGood(cfg, mcu, StartDc(cfg, p), 0);
    var s0 := AtMcuStart(cfg, p, s);
    CodedMore(s0.prefix, s0.bits, BlocksBits(cfg, tables, McuBlocks(cfg, mcu, StartDc(cfg, p), 0)));
  }

  lemma FirstBlock(cfg: ScanConfig, tables: Tables, b: CodedBlock, bs: seq<CodedBlock>)
    requires cfg.Valid() && Ready(cfg, tables) && b.ci < |cfg.dcTbl| && GoodBlocks(cfg, bs)
    ensures GoodBlocks(cfg, [b] + bs)
    ensures BlocksBits(cfg, tables, [b] + bs)
            == BitsOf(b.tokens, tables[cfg.DcSlot(b.ci)], tables[cfg.AcSlot(b.ci)]) + BlocksBits(cfg, tables, bs)
    ensures BlocksEncodable(cfg, tables, [b] + bs)
            <==> AllEncodable(b.tokens, tables[cfg.DcSlot(b.ci)], tables[cfg.AcSlot(b.ci)])
                 && BlocksEncodable(cfg, tables, bs)
  {
    var all := [b] + bs;
    assert all[1..] == bs && all[0] == b;
    assert forall i :: 0 <= i < |bs| ==> all[i + 1] == bs[i];
  }
}
