/** How many symbols a scan can have, and what follows for the tables made from its statistics. */
module ScanTotals {
  import opened Powers
  import opened HuffmanCost
  import opened HuffmanDepth
  import opened OptimalTable
  import opened BlockCoding
  import opened BlockEncoder
  import opened ScanCoding
  import opened Statistics

  /** The number of symbols of one kind among some tokens. */
  function SymbolCount(ts: seq<Token>, isAc: bool): nat {
    if ts == [] then 0
    else (if ts[0].Symbol? && ts[0].ac == isAc then 1 else 0) + SymbolCount(ts[1..], isAc)
  }

  lemma {:induction false} SymbolCountAppend(a: seq<Token>, b: seq<Token>, isAc: bool)
    ensures SymbolCount(a + b, isAc) == SymbolCount(a, isAc) + SymbolCount(b, isAc)
  {
    if a == [] {
      assert a + b == b;
    } else {
      assert (a + b)[1..] == a[1..] + b;
      SymbolCountAppend(a[1..], b, isAc);
    }
  }

  lemma {:induction false} TallyTotal(c: seq<nat>, ts: seq<Token>, isAc: bool)
    requires |c| == 257
    ensures Sum(Tally(c, ts, isAc)) == Sum(c) + SymbolCount(ts, isAc)
    decreases ts
  {
    if ts != [] {
      if ts[0].Symbol? && ts[0].ac == isAc {
        SumUpdate(c, ts[0].symbol, c[ts[0].symbol] + 1);
        TallyTotal(c[ts[0].symbol := c[ts[0].symbol] + 1], ts[1..], isAc);
      } else {
        TallyTotal(c, ts[1..], isAc);
      }
    }
  }

  /** Every AC coefficient accounts for at most one symbol. */
  lemma {:induction false} AcSymbols(zz: seq<int>, k: nat, r: nat)
    requires |zz| == 64 && k <= 64
    ensures SymbolCount(AcTokens(zz, k, r), true) <= (64 - k) + if r > 0 then r / 16 + 1 else 0
    ensures SymbolCount(AcTokens(zz, k, r), false) == 0
    decreases |zz| - k, r
  {
    if k == 64 {
      if r > 0 {
        OneSymbol(Symbol(true, EOB));
      }
    } else if zz[k] == 0 {
      AcSymbols(zz, k + 1, r + 1);
    } else if r > 15 {
      AcSymbols(zz, k, r - 16);
      OneSymbol(Symbol(true, ZRL));
      SymbolCountAppend([Symbol(true, ZRL)], AcTokens(zz, k, r - 16), true);
      SymbolCountAppend([Symbol(true, ZRL)], AcTokens(zz, k, r - 16), false);
    } else if NBits(Abs(zz[k])) > MAX_COEF_BITS {
      OneSymbol(Bad);
    } else {
      var pair := [Symbol(true, r * 16 + NBits(Abs(zz[k]))), ExtraToken(zz[k])];
      AcSymbols(zz, k + 1, 0);
      PairSymbol(pair[0], pair[1]);
      SymbolCountAppend(pair, AcTokens(zz, k + 1, 0), true);
      SymbolCountAppend(pair, AcTokens(zz, k + 1, 0), false);
    }
  }

  lemma OneSymbol(t: Token)
    ensures SymbolCount([t], true) == if t.Symbol? && t.ac then 1 else 0
    ensures SymbolCount([t], false) == if t.Symbol? && !t.ac then 1 else 0
  {
    assert [t][1..] == [];
  }

  lemma PairSymbol(s: Token, x: Token)
    requires s.Symbol? && x.Extra?
    ensures SymbolCount([s, x], true) == (if s.ac then 1 else 0)
    ensures SymbolCount([s, x], false) == (if s.ac then 0 else 1)
  {
    assert [s, x][1..] == [x];
    OneSymbol(x);
  }

  /** The most symbols of one kind that a block can have. */
  function PerBlock(isAc: bool): nat {
    if isAc then 63 else 1
  }

  lemma BlockSymbols(zz: seq<int>, lastDc: int, isAc: bool)
    requires |zz| == 64
    ensures SymbolCount(BlockTokens(zz, lastDc), isAc) <= PerBlock(isAc)
  {
    var diff := zz[0] - lastDc;
    var n := NBits(Abs(diff));
    AcSymbols(zz, 1, 0);
    SymbolCountAppend(DcTokens(diff), AcTokens(zz, 1, 0), isAc);
    if n == 0 || n > MAX_COEF_BITS + 1 {
      OneSymbol(DcTokens(diff)[0]);
    } else {
      PairSymbol(Symbol(false, n), ExtraToken(diff));
    }
  }

  lemma {:induction false} McuTotal(cfg: ScanConfig, mcu: Mcu, dc: seq<int>, b: nat, slot: nat, c: seq<nat>)
    requires cfg.Valid() && FitsScan(cfg, mcu) && |dc| == |cfg.dcTbl| && b <= |mcu| && |c| == 257
    ensures Sum(BlocksTally(cfg, McuBlocks(cfg, mcu, dc, b), slot, c)) <= Sum(c) + PerBlock(slot >= 4) * (|mcu| - b)
    decreases |mcu| - b
  {
    if b < |mcu| {
      var ci := cfg.membership[b];
      var bs, dc1 := McuBlocks(cfg, mcu, dc, b), dc[ci := mcu[b][0]];
      assert bs[1..] == McuBlocks(cfg, mcu, dc1, b + 1);
      var d := BlockTally(cfg, bs[0], slot, c);
      TallyTotal(c, bs[0].tokens, slot >= 4);
      BlockSymbols(Zigzag(cfg.order, mcu[b]), dc[ci], slot >= 4);
      McuTotal(cfg, mcu, dc1, b + 1, slot, d);
    }
  }

  /** A scan has at most one DC symbol, and at most 63 AC symbols, for each of its blocks. */
  lemma {:induction false} ScanTotal(cfg: ScanConfig, mcus: seq<Mcu>, slot: nat)
    requires cfg.Valid() && FitAll(cfg, mcus)
    ensures Sum(ScanTally(cfg, mcus, slot)) <= PerBlock(slot >= 4) * (|cfg.membership| * |mcus|)
  {
    hide PerBlock, BlocksTally, Sum, McuBlocks;
    if mcus == [] {
      SumTimes(NoCounts(), NoCounts(), 0);
    } else {
      var n := |mcus| - 1;
      ScanTotal(cfg, mcus[..n], slot);
      McuTotal(cfg, mcus[n], StartDc(cfg, ProgressAfter(cfg, mcus[..n])), 0, slot, ScanTally(cfg, mcus[..n], slot));
      OneMcuMore(PerBlock(slot >= 4), |cfg.membership|, n);
    }
  }

  lemma OneMcuMore(k: int, m: int, n: int)
    ensures k * (m * (n + 1)) == k * (m * n) + k * m
  {
    assert m * (n + 1) == m * n + m;
  }

  lemma PseudoTotal(c: seq<nat>)
    requires |c| == 257
    ensures Sum(WithPseudo(c)) <= Sum(c) + 1
  {
    SumUpdate(c, 256, 1);
  }

  /** So few blocks that the table generator sees the counts of a slot. */
  lemma SlotFits(cfg: ScanConfig, mcus: seq<Mcu>, slot: nat)
    requires cfg.Valid() && FitAll(cfg, mcus) && PerBlock(slot >= 4) * (|cfg.membership| * |mcus|) < MAX_COUNT
    ensures CountsFit(WithPseudo(ScanTally(cfg, mcus, slot)))
  {
    var c := ScanTally(cfg, mcus, slot);
    var w: seq<nat> := WithPseudo(c);
    ScanTotal(cfg, mcus, slot);
    PseudoTotal(c);
    forall i | 0 <= i < |w| ensures w[i] <= MAX_COUNT {
      SumAtLeast(w, i);
    }
    SmallCountsFit(w);
  }

  /** Can the table generator see the counts of every AC slot in use? */
  ghost predicate AcCountsFit(cfg: ScanConfig, mcus: seq<Mcu>)
    requires cfg.Valid() && FitAll(cfg, mcus)
  {
    forall slot :: 4 <= slot < 8 && UsedSlot(cfg, slot) ==> CountsFit(WithPseudo(ScanTally(cfg, mcus, slot)))
  }

  /** In scans of up to 15,873,015 blocks it can. */
  lemma FewBlocksFit(cfg: ScanConfig, mcus: seq<Mcu>)
    requires cfg.Valid() && FitAll(cfg, mcus) && |cfg.membership| * |mcus| <= 15_873_015
    ensures AcCountsFit(cfg, mcus)
  {
    hide ScanTally, CountsFit, UsedSlot;
    forall slot | 4 <= slot < 8 && UsedSlot(cfg, slot) ensures CountsFit(WithPseudo(ScanTally(cfg, mcus, slot))) {
      SlotFits(cfg, mcus, slot);
    }
  }

  /** And for scans of up to 146,467 blocks no tree is too high. */
  lemma FewBlocksShallow(cfg: ScanConfig, mcus: seq<Mcu>)
    requires cfg.Valid() && FitAll(cfg, mcus) && |cfg.membership| * |mcus| <= 146_467
    ensures !SomeTooDeep(cfg, mcus)
  {
    hide ScanTally, Sum, Height, Live, UsedSlot;
    forall slot | 4 <= slot < 8 && UsedSlot(cfg, slot) ensures !TooDeep(ScanTally(cfg, mcus, slot)) {
      var c := ScanTally(cfg, mcus, slot);
      ScanTotal(cfg, mcus, slot);
      PseudoTotal(c);
      LiveSet(WithPseudo(c), 256, 0);
      LightIsShallow(WithPseudo(c));
    }
  }
}
