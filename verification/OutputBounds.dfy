/** How much an MCU can add to the output, and with that how large a buffer a suspended run needs. */
module OutputBounds {
  import opened Powers
  import opened BitStrings
  import opened BytePacking
  import opened CanonicalCode
  import opened BlockCoding
  import opened ScanCoding

  /** No block is coded in more bits than this: 27 for its DC difference, 26 for each of its AC coefficients. */
  const MAX_BLOCK_BITS: nat := 1680

  /** Stuffing at most doubles the bytes. */
  lemma {:induction false} StuffLength(b: seq<byte>)
    ensures |Stuff(b)| <= 2 * |b|
  {
    if b != [] {
      StuffLength(b[1..]);
    }
  }

  lemma {:induction false} PackLength(s: Bits)
    ensures |Pack(s)| == |s| / 8
  {
    if |s| >= 8 {
      PackLength(s[8..]);
    }
  }

  lemma CodedLength(s: Bits)
    ensures |Coded(s)| <= 2 * (|s| / 8)
  {
    PackLength(s);
    StuffLength(Pack(s));
  }

  lemma TokenLength(t: Token, dc: DerivedTable, ac: DerivedTable)
    requires dc.Usable() && ac.Usable()
    ensures |TokenBits(t, dc, ac)| <= if t.Extra? then t.size else 16
  {
  }

  /** Every AC coefficient, zero or not, is paid for with 26 bits. */
  lemma {:induction false} AcLength(zz: seq<int>, k: nat, r: nat, dc: DerivedTable, ac: DerivedTable)
    requires |zz| == 64 && k <= 64 && dc.Usable() && ac.Usable()
    ensures |BitsOf(AcTokens(zz, k, r), dc, ac)| <= 26 * (64 - k) + r + 15
    decreases |zz| - k, r
  {
    hide TokenBits;
    if k == 64 {
      if r > 0 {
        OneTokenLength(Symbol(true, EOB), dc, ac);
      }
    } else if zz[k] == 0 {
      AcLength(zz, k + 1, r + 1, dc, ac);
    } else if r > 15 {
      AcLength(zz, k, r - 16, dc, ac);
      BitsOfAppend([Symbol(true, ZRL)], AcTokens(zz, k, r - 16), dc, ac);
      OneTokenLength(Symbol(true, ZRL), dc, ac);
    } else if NBits(Abs(zz[k])) > MAX_COEF_BITS {
      OneTokenLength(Bad, dc, ac);
    } else {
      var n := NBits(Abs(zz[k]));
      AcLength(zz, k + 1, 0, dc, ac);
      BitsOfAppend([Symbol(true, r * 16 + n), ExtraToken(zz[k])], AcTokens(zz, k + 1, 0), dc, ac);
      PairLength(Symbol(true, r * 16 + n), ExtraToken(zz[k]), dc, ac);
    }
  }

  lemma OneTokenLength(t: Token, dc: DerivedTable, ac: DerivedTable)
    requires dc.Usable() && ac.Usable() && !t.Extra?
    ensures |BitsOf([t], dc, ac)| <= 16
  {
    OneToken(t, dc, ac);
    TokenLength(t, dc, ac);
  }

  lemma PairLength(s: Token, x: Token, dc: DerivedTable, ac: DerivedTable)
    requires dc.Usable() && ac.Usable() && !s.Extra? && x.Extra?
    ensures |BitsOf([s, x], dc, ac)| <= 16 + x.size
  {
    assert [s, x][1..] == [x];
    OneToken(x, dc, ac);
    TokenLength(s, dc, ac);
    TokenLength(x, dc, ac);
  }

  lemma DcLength(diff: int, dc: DerivedTable, ac: DerivedTable)
    requires dc.Usable() && ac.Usable()
    ensures |BitsOf(DcTokens(diff), dc, ac)| <= 27
  {
    var n := NBits(Abs(diff));
    if n == 0 || n > MAX_COEF_BITS + 1 {
      OneTokenLength(DcTokens(diff)[0], dc, ac);
    } else {
      PairLength(Symbol(false, n), ExtraToken(diff), dc, ac);
    }
  }

  lemma BlockLength(zz: seq<int>, lastDc: int, dc: DerivedTable, ac: DerivedTable)
    requires |zz| == 64 && dc.Usable() && ac.Usable()
    ensures |BitsOf(BlockTokens(zz, lastDc), dc, ac)| <= MAX_BLOCK_BITS
  {
    DcLength(zz[0] - lastDc, dc, ac);
    AcLength(zz, 1, 0, dc, ac);
    BitsOfAppend(DcTokens(zz[0] - lastDc), AcTokens(zz, 1, 0), dc, ac);
  }

  lemma NoBlocksNoBits(cfg: ScanConfig, tables: Tables)
    requires cfg.Valid() && Ready(cfg, tables)
    ensures BlocksBits(cfg, tables, []) == []
  {
  }

  lemma {:induction false} McuLength(cfg: ScanConfig, tables: Tables, mcu: Mcu, dc: seq<int>, b: nat)
    requires cfg.Valid() && Ready(cfg, tables) && FitsScan(cfg, mcu) && |dc| == |cfg.dcTbl| && b <= |mcu|
    ensures GoodBlocks(cfg, McuBlocks(cfg, mcu, dc, b))
    ensures |BlocksBits(cfg, tables, McuBlocks(cfg, mcu, dc, b))| <= MAX_BLOCK_BITS * (|mcu| - b)
    decreases |mcu| - b
  {
    hide BlocksBits, BlockTokens, Zigzag;
    McuBlocksGood(cfg, mcu, dc, b);
    NoBlocksNoBits(cfg, tables);
    if b < |mcu| {
      var ci := cfg.membership[b];
      var dc1 := dc[ci := mcu[b][0]];
      var block := CodedBlock(ci, BlockTokens(Zigzag(cfg.order, mcu[b]), dc[ci]));
      var rest := McuBlocks(cfg, mcu, dc1, b + 1);
      McuLength(cfg, tables, mcu, dc1, b + 1);
      BlockLength(Zigzag(cfg.order, mcu[b]), dc[ci], tables[cfg.DcSlot(ci)], tables[cfg.AcSlot(ci)]);
      FirstBlock(cfg, tables, block, rest);
    }
  }

  /** The stream grows by at most 420 bytes for each block of an MCU, and 4 for a restart. */
  lemma McuAdds(cfg: ScanConfig, tables: Tables, p: Progress, s: Segment, mcu: Mcu)
    requires cfg.Valid() && Ready(cfg, tables) && GoodProgress(cfg, p) && FitsScan(cfg, mcu)
    ensures |NextStream(cfg, tables, p, s, mcu).Bytes()| <= |s.Bytes()| + 420 * |mcu| + 4
  {
    McuLength(cfg, tables, mcu, StartDc(cfg, p), 0);
    hide McuBlocks, BlocksBits, Coded, Rest;
    var new' := BlocksBits(cfg, tables, McuBlocks(cfg, mcu, StartDc(cfg, p), 0));
    if AtRestart(cfg, p) {
      CodedMore(s.prefix, s.bits, Ones(7));
      CodedLength(Rest(s.bits) + Ones(7));
      CodedLength([] + new');
      assert [] + new' == new';
    } else {
      CodedMore(s.prefix, s.bits, new');
      CodedLength(Rest(s.bits) + new');
    }
  }
}
