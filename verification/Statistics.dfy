/** The statistics pass: counting the symbols of a scan, and the tables made from the counts. */
module Statistics {
  import opened Powers
  import opened BitStrings
  import opened CanonicalCode
  import opened HuffmanCost
  import opened HuffmanDepth
  import opened OptimalTable
  import opened BlockCoding
  import opened BlockEncoder
  import opened ScanCoding
  import opened HuffEncoder

  /** Does the table in this slot code symbols of this component? */
  ghost predicate UsesSlot(cfg: ScanConfig, ci: nat, slot: nat)
    requires cfg.Valid()
  {
    ci < |cfg.dcTbl| && (slot == cfg.DcSlot(ci) || slot == cfg.AcSlot(ci))
  }

  ghost predicate UsedSlot(cfg: ScanConfig, slot: nat)
    requires cfg.Valid()
  {
    exists ci: nat :: UsesSlot(cfg, ci, slot)
  }

  /** The counts of one slot after one block. */
  ghost function BlockTally(cfg: ScanConfig, b: CodedBlock, slot: nat, c: seq<nat>): (r: seq<nat>)
    requires cfg.Valid() && |c| == 257
    ensures |r| == 257
  {
    if UsesSlot(cfg, b.ci, slot) then Tally(c, b.tokens, slot >= 4) else c
  }

  /** The counts of one slot after some blocks. */
  ghost function BlocksTally(cfg: ScanConfig, bs: seq<CodedBlock>, slot: nat, c: seq<nat>): (r: seq<nat>)
    requires cfg.Valid() && |c| == 257
    ensures |r| == 257
    decreases bs
  {
    if bs == [] then c else BlocksTally(cfg, bs[1..], slot, BlockTally(cfg, bs[0], slot, c))
  }

  function NoCounts(): (c: seq<nat>)
    ensures |c| == 257
  {
    seq(257, _ => 0)
  }

  /** The counts of one slot after some MCUs of a scan. */
  ghost function ScanTally(cfg: ScanConfig, mcus: seq<Mcu>, slot: nat): (r: seq<nat>)
    requires cfg.Valid() && FitAll(cfg, mcus)
    ensures |r| == 257
  {
    if mcus == [] then NoCounts() else
      var n := |mcus| - 1;
      BlocksTally(cfg, NextBlocks(cfg, mcus[..n], mcus[n]), slot, ScanTally(cfg, mcus[..n], slot))
  }

  // ---------- what can be counted ----------

  /** The symbols the coder can produce: DC sizes up to 11, AC run and size with a size up to 10. */
  predicate Producible(s: nat, isAc: bool) {
    s < 256 && if isAc then s % 16 <= MAX_COEF_BITS else s <= MAX_COEF_BITS + 1
  }

  predicate WellFormed(t: Token) {
    match t
    case Symbol(ac, s) => Producible(s, ac)
    case Extra(_, size) => size > 0
    case Bad => true
  }

  ghost predicate OnlyProducible(c: seq<nat>, isAc: bool) {
    |c| == 257 && forall s :: 0 <= s < 257 && c[s] > 0 ==> Producible(s, isAc)
  }

  ghost predicate AllWellFormed(ts: seq<Token>) {
    forall i :: 0 <= i < |ts| ==> WellFormed(ts[i])
  }

  lemma PairWellFormed(v: int, r: nat)
    requires v != 0 && r <= 15 && NBits(Abs(v)) <= MAX_COEF_BITS + 1
    ensures WellFormed(ExtraToken(v))
    ensures NBits(Abs(v)) <= MAX_COEF_BITS ==> Producible(r * 16 + NBits(Abs(v)), true)
  {
    var n := NBits(Abs(v));
    assert n >= 1 by { NBitsBounds(Abs(v)); }
    if n <= MAX_COEF_BITS {
      DivModUnique(r * 16 + n, 16, r, n);
    }
  }

  lemma {:induction false} AcTokensWellFormed(zz: seq<int>, k: nat, r: nat)
    requires |zz| == 64 && k <= 64
    ensures AllWellFormed(AcTokens(zz, k, r))
    decreases |zz| - k, r
  {
    if k < 64 {
      if zz[k] == 0 {
        AcTokensWellFormed(zz, k + 1, r + 1);
      } else if r > 15 {
        AcTokensWellFormed(zz, k, r - 16);
      } else {
        AcTokensWellFormed(zz, k + 1, 0);
        if NBits(Abs(zz[k])) <= MAX_COEF_BITS {
          PairWellFormed(zz[k], r);
        }
      }
    }
  }

  lemma BlockTokensWellFormed(zz: seq<int>, lastDc: int)
    requires |zz| == 64
    ensures AllWellFormed(BlockTokens(zz, lastDc))
  {
    AcTokensWellFormed(zz, 1, 0);
    var diff := zz[0] - lastDc;
    NBitsBounds(Abs(diff));
    assert AllWellFormed(DcTokens(diff));
  }

  lemma {:induction false} TallyProducible(c: seq<nat>, ts: seq<Token>, isAc: bool)
    requires OnlyProducible(c, isAc) && AllWellFormed(ts)
    ensures OnlyProducible(Tally(c, ts, isAc), isAc)
    decreases ts
  {
    if ts != [] {
      var rest := ts[1..];
      assert AllWellFormed(rest);
      if ts[0].Symbol? && ts[0].ac == isAc {
        assert WellFormed(ts[0]);
        TallyProducible(c[ts[0].symbol := c[ts[0].symbol] + 1], rest, isAc);
      } else {
        TallyProducible(c, rest, isAc);
      }
    }
  }

  ghost predicate BlocksWellFormed(bs: seq<CodedBlock>) {
    forall i :: 0 <= i < |bs| ==> AllWellFormed(bs[i].tokens)
  }

  lemma {:induction false} McuBlocksWellFormed(cfg: ScanConfig, mcu: Mcu, dc: seq<int>, b: nat)
    requires cfg.Valid() && FitsScan(cfg, mcu) && |dc| == |cfg.dcTbl| && b <= |mcu|
    ensures BlocksWellFormed(McuBlocks(cfg, mcu, dc, b))
    decreases |mcu| - b
  {
    if b < |mcu| {
      BlockTokensWellFormed(Zigzag(cfg.order, mcu[b]), dc[cfg.membership[b]]);
      McuBlocksWellFormed(cfg, mcu, dc[cfg.membership[b] := mcu[b][0]], b + 1);
    }
  }

  lemma {:induction false} BlocksProducible(cfg: ScanConfig, bs: seq<CodedBlock>, slot: nat, c: seq<nat>)
    requires cfg.Valid() && BlocksWellFormed(bs) && OnlyProducible(c, slot >= 4)
    ensures OnlyProducible(BlocksTally(cfg, bs, slot, c), slot >= 4)
    decreases bs
  {
    if bs != [] {
      var rest := bs[1..];
      assert BlocksWellFormed(rest);
      TallyProducible(c, bs[0].tokens, slot >= 4);
      BlocksProducible(cfg, rest, slot, BlockTally(cfg, bs[0], slot, c));
    }
  }

  lemma {:induction false} ScanProducible(cfg: ScanConfig, mcus: seq<Mcu>, slot: nat)
    requires cfg.Valid() && FitAll(cfg, mcus)
    ensures OnlyProducible(ScanTally(cfg, mcus, slot), slot >= 4)
  {
    if mcus != [] {
      var n := |mcus| - 1;
      ScanProducible(cfg, mcus[..n], slot);
      McuBlocksWellFormed(cfg, mcus[n], StartDc(cfg, ProgressAfter(cfg, mcus[..n])), 0);
      BlocksProducible(cfg, NextBlocks(cfg, mcus[..n], mcus[n]), slot, ScanTally(cfg, mcus[..n], slot));
    }
  }

  lemma {:induction false} LiveAtMost(w: seq<nat>, n: nat)
    requires n <= |w|
    ensures SumTo(Ones(w), n) <= n
  {
    if n != 0 {
      LiveAtMost(w, n - 1);
    }
  }

  /** So no count in the byte-sized bits[] array can overflow. */
  lemma FewLiveSymbols(c: seq<nat>, isAc: bool)
    requires OnlyProducible(c, isAc)
    ensures Live(WithPseudo(c)) <= 255
  {
    var w := WithPseudo(c);
    assert !Producible(12, isAc) && !Producible(13, isAc);
    assert w[12] == 0 && w[13] == 0;
    LiveSet(w, 12, 1);
    LiveSet(w[12 := 1], 13, 1);
    LiveAtMost(w[12 := 1][13 := 1], 257);
  }

  lemma {:induction false} FewDcLive(w: seq<nat>, n: nat)
    requires n <= |w| == 257 && forall s :: 12 <= s < 256 ==> w[s] == 0
    ensures SumTo(Ones(w), n) <= if n <= 12 then n else if n <= 256 then 12 else 13
  {
    if n != 0 {
      FewDcLive(w, n - 1);
    }
  }

  /** There are twelve DC symbols, and the pseudo-symbol. */
  lemma FewDcSymbols(c: seq<nat>)
    requires OnlyProducible(c, false)
    ensures Live(WithPseudo(c)) <= 13
  {
    FewDcLive(WithPseudo(c), 257);
  }

  // ---------- every symbol that will be sent has been counted ----------

  /** Each symbol of this kind in the tokens has a count. */
  ghost predicate Counted(c: seq<nat>, ts: seq<Token>, isAc: bool) {
    |c| == 257 && forall i :: 0 <= i < |ts| && ts[i].Symbol? && ts[i].ac == isAc ==> c[ts[i].symbol] > 0
  }

  ghost predicate Grown(c: seq<nat>, d: seq<nat>) {
    |c| == |d| == 257 && forall s :: 0 <= s < 257 ==> c[s] <= d[s]
  }

  lemma {:induction false} TallyGrows(c: seq<nat>, ts: seq<Token>, isAc: bool)
    requires |c| == 257
    ensures Grown(c, Tally(c, ts, isAc)) && Counted(Tally(c, ts, isAc), ts, isAc)
    decreases ts
  {
    if ts != [] {
      if ts[0].Symbol? && ts[0].ac == isAc {
        TallyGrows(c[ts[0].symbol := c[ts[0].symbol] + 1], ts[1..], isAc);
      } else {
        TallyGrows(c, ts[1..], isAc);
      }
      assert ts == [ts[0]] + ts[1..];
    }
  }

  ghost predicate BlocksCounted(cfg: ScanConfig, c: seq<nat>, bs: seq<CodedBlock>, slot: nat)
    requires cfg.Valid()
  {
    forall i :: 0 <= i < |bs| && UsesSlot(cfg, bs[i].ci, slot) ==> Counted(c, bs[i].tokens, slot >= 4)
  }

  lemma {:induction false} BlocksTallyGrows(cfg: ScanConfig, bs: seq<CodedBlock>, slot: nat, c: seq<nat>)
    requires cfg.Valid() && |c| == 257
    ensures Grown(c, BlocksTally(cfg, bs, slot, c)) && BlocksCounted(cfg, BlocksTally(cfg, bs, slot, c), bs, slot)
    decreases bs
  {
    if bs != [] {
      TallyGrows(c, bs[0].tokens, slot >= 4);
      BlocksTallyGrows(cfg, bs[1..], slot, BlockTally(cfg, bs[0], slot, c));
      assert bs == [bs[0]] + bs[1..];
    }
  }

  lemma StillCounted(cfg: ScanConfig, c: seq<nat>, d: seq<nat>, bs: seq<CodedBlock>, slot: nat)
    requires cfg.Valid() && Grown(c, d) && BlocksCounted(cfg, c, bs, slot)
    ensures BlocksCounted(cfg, d, bs, slot)
  {
  }

  lemma ScanTallyGrows(cfg: ScanConfig, before: seq<Mcu>, last: Mcu, slot: nat)
    requires cfg.Valid() && FitAll(cfg, before) && FitsScan(cfg, last)
    ensures Grown(ScanTally(cfg, before, slot), ScanTally(cfg, before + [last], slot))
    ensures BlocksCounted(cfg, ScanTally(cfg, before + [last], slot), NextBlocks(cfg, before, last), slot)
  {
    var all := before + [last];
    assert all[..|all| - 1] == before;
    BlocksTallyGrows(cfg, NextBlocks(cfg, before, last), slot, ScanTally(cfg, before, slot));
  }

  /** Counting more never uncounts a symbol. */
  lemma {:induction false} ScanTallyCounts(cfg: ScanConfig, mcus: seq<Mcu>, slot: nat, i: nat, bs: seq<CodedBlock>)
    requires cfg.Valid() && FitAll(cfg, mcus) && i < |mcus| && bs == NextBlocks(cfg, mcus[..i], mcus[i])
    ensures BlocksCounted(cfg, ScanTally(cfg, mcus, slot), bs, slot)
    decreases |mcus|
  {
    hide ScanTally, NextBlocks, ScanConfig.Valid;
    var n := |mcus| - 1;
    var before, last := mcus[..n], mcus[n];
    assert mcus == before + [last];
    ScanTallyGrows(cfg, before, last, slot);
    if i < n {
      assert before[..i] == mcus[..i] && before[i] == mcus[i];
      ScanTallyCounts(cfg, before, slot, i, bs);
      StillCounted(cfg, ScanTally(cfg, before, slot), ScanTally(cfg, before + [last], slot), bs, slot);
    }
  }

  // ---------- the counts are the symbols sent ----------

  /** The tokens of the blocks that use this slot, in the order they are sent. */
  ghost function SlotTokens(cfg: ScanConfig, bs: seq<CodedBlock>, slot: nat): seq<Token>
    requires cfg.Valid()
  {
    if bs == [] then []
    else (if UsesSlot(cfg, bs[0].ci, slot) then bs[0].tokens else []) + SlotTokens(cfg, bs[1..], slot)
  }

  /** All tokens of a scan that are coded with this slot's table. */
  ghost function SentTokens(cfg: ScanConfig, mcus: seq<Mcu>, slot: nat): seq<Token>
    requires cfg.Valid() && FitAll(cfg, mcus)
  {
    if mcus == [] then [] else
      var n := |mcus| - 1;
      SentTokens(cfg, mcus[..n], slot) + SlotTokens(cfg, NextBlocks(cfg, mcus[..n], mcus[n]), slot)
  }

  lemma {:induction false} BlocksTallyIsTally(cfg: ScanConfig, bs: seq<CodedBlock>, slot: nat, c: seq<nat>)
    requires cfg.Valid() && |c| == 257
    ensures BlocksTally(cfg, bs, slot, c) == Tally(c, SlotTokens(cfg, bs, slot), slot >= 4)
    decreases bs
  {
    if bs != [] {
      var mine := if UsesSlot(cfg, bs[0].ci, slot) then bs[0].tokens else [];
      TallyAppend(c, mine, SlotTokens(cfg, bs[1..], slot), slot >= 4);
      BlocksTallyIsTally(cfg, bs[1..], slot, BlockTally(cfg, bs[0], slot, c));
    }
  }

  lemma {:induction false} ScanTallyIsTally(cfg: ScanConfig, mcus: seq<Mcu>, slot: nat)
    requires cfg.Valid() && FitAll(cfg, mcus)
    ensures ScanTally(cfg, mcus, slot) == Tally(NoCounts(), SentTokens(cfg, mcus, slot), slot >= 4)
  {
    if mcus != [] {
      var n := |mcus| - 1;
      ScanTallyIsTally(cfg, mcus[..n], slot);
      BlocksTallyIsTally(cfg, NextBlocks(cfg, mcus[..n], mcus[n]), slot, ScanTally(cfg, mcus[..n], slot));
      TallyAppend(NoCounts(), SentTokens(cfg, mcus[..n], slot),
                  SlotTokens(cfg, NextBlocks(cfg, mcus[..n], mcus[n]), slot), slot >= 4);
    }
  }

  /** Each count is the number of times its symbol is sent, over the whole scan. */
  lemma CountsAreSymbolsSent(cfg: ScanConfig, mcus: seq<Mcu>, slot: nat, s: byte)
    requires cfg.Valid() && FitAll(cfg, mcus)
    ensures ScanTally(cfg, mcus, slot)[s] == multiset(SentTokens(cfg, mcus, slot))[Symbol(slot >= 4, s)]
  {
    ScanTallyIsTally(cfg, mcus, slot);
    TallyCounts(NoCounts(), SentTokens(cfg, mcus, slot), slot >= 4, s);
  }

  // ---------- tables made from the counts suffice ----------

  /** A table made for these counts, and what is derived from it. */
  ghost predicate MadeFor(c: seq<nat>, t: HuffTable, d: DerivedTable) {
    && |c| == 257 && t.Shaped() && Total(t.bits, 16) <= 256
    && BestTable(c, t) && Derives(t, d)
  }

  /** Every counted symbol has a code. */
  lemma CountedHaveCodes(c: seq<nat>, isAc: bool, t: HuffTable, d: DerivedTable, s: byte)
    requires OnlyProducible(c, isAc) && MadeFor(c, t, d) && c[s] > 0
    ensures d.Shaped() && d.Codes(s)
  {
    var cs: seq<nat> :| TableFor(WithPseudo(c), cs, t);
    TableIsAcceptable(WithPseudo(c), cs, t, !isAc);
    assert WithPseudo(c)[s] > 0;
    var n := Total(t.bits, 16);
    assert s in t.huffval[..n];
    var p :| 0 <= p < n && t.huffval[p] == s;
    assert d.ehufsi[t.huffval[p]] == Sizes(t.bits, 16)[p];
  }

  /** The tables made from the counts of one slot are accepted and prefix-free. */
  lemma MadeTablesWork(c: seq<nat>, isAc: bool, t: HuffTable)
    requires OnlyProducible(c, isAc) && BestTable(c, t)
    ensures Acceptable(t, !isAc)
    ensures forall d: DerivedTable :: Derives(t, d) ==> MadeFor(c, t, d) && d.Usable() && d.PrefixFree()
  {
    var cs: seq<nat> :| TableFor(WithPseudo(c), cs, t);
    TableIsAcceptable(WithPseudo(c), cs, t, !isAc);
    forall d: DerivedTable | Derives(t, d)
      ensures d.Usable() && d.PrefixFree()
    {
      DerivedIsPrefixFree(t, d, !isAc);
      LengthsAtMost16(d);
    }
  }

  lemma LengthsAtMost16(d: DerivedTable)
    requires d.Shaped() && forall s: nat :: d.Codes(s) ==> d.ehufsi[s] <= 16
    ensures d.Usable()
  {
    forall s | 0 <= s < 256 ensures d.ehufsi[s] <= 16 {
      if d.ehufsi[s] != 0 {
        assert d.Codes(s);
      }
    }
  }

  type TableSet = t: seq<HuffTable> | |t| == 8 witness seq(8, _ => HuffTable([], []))

  /** The tables of every slot in use were made from the statistics of these MCUs. */
  ghost predicate TunedTo(cfg: ScanConfig, mcus: seq<Mcu>, specs: TableSet, tables: Tables)
    requires cfg.Valid() && FitAll(cfg, mcus)
  {
    forall slot :: 0 <= slot < 8 && UsedSlot(cfg, slot) ==>
      MadeFor(ScanTally(cfg, mcus, slot), specs[slot], tables[slot])
  }

  ghost predicate BlocksInRange(bs: seq<CodedBlock>) {
    forall i :: 0 <= i < |bs| ==> Bad !in bs[i].tokens
  }

  /** Is no coefficient of this MCU out of range, after the MCUs before it? */
  ghost predicate McuInRange(cfg: ScanConfig, mcus: seq<Mcu>, mcu: Mcu)
    requires cfg.Valid() && FitAll(cfg, mcus) && FitsScan(cfg, mcu)
  {
    BlocksInRange(NextBlocks(cfg, mcus, mcu))
  }

  ghost predicate AllInRange(cfg: ScanConfig, mcus: seq<Mcu>)
    requires cfg.Valid() && FitAll(cfg, mcus)
  {
    forall i :: 0 <= i < |mcus| ==> McuInRange(cfg, mcus[..i], mcus[i])
  }

  lemma TunedIsReady(cfg: ScanConfig, mcus: seq<Mcu>, specs: TableSet, tables: Tables)
    requires cfg.Valid() && FitAll(cfg, mcus) && TunedTo(cfg, mcus, specs, tables)
    ensures Ready(cfg, tables)
  {
    forall ci: nat, slot: nat | UsesSlot(cfg, ci, slot) ensures tables[slot].Usable() {
      ScanProducible(cfg, mcus, slot);
      MadeTablesWork(ScanTally(cfg, mcus, slot), slot >= 4, specs[slot]);
    }
    forall c: nat | c < |cfg.dcTbl| ensures tables[cfg.DcSlot(c)].Usable() && tables[cfg.AcSlot(c)].Usable() {
      assert UsesSlot(cfg, c, cfg.DcSlot(c)) && UsesSlot(cfg, c, cfg.AcSlot(c));
    }
  }

  /** Tokens whose symbols are counted in both tables can be encoded with them. */
  lemma CountedEncodable(ts: seq<Token>, dcCounts: seq<nat>, acCounts: seq<nat>, dcSpec: HuffTable, acSpec: HuffTable,
                         dc: DerivedTable, ac: DerivedTable)
    requires AllWellFormed(ts) && Bad !in ts && Counted(dcCounts, ts, false) && Counted(acCounts, ts, true)
    requires OnlyProducible(dcCounts, false) && MadeFor(dcCounts, dcSpec, dc)
    requires OnlyProducible(acCounts, true) && MadeFor(acCounts, acSpec, ac)
    ensures dc.Shaped() && ac.Shaped() && AllEncodable(ts, dc, ac)
  {
    forall i | 0 <= i < |ts| ensures Encodable(ts[i], dc, ac) {
      match ts[i]
      case Symbol(isAc, s) =>
        if isAc {
          CountedHaveCodes(acCounts, true, acSpec, ac, s);
        } else {
          CountedHaveCodes(dcCounts, false, dcSpec, dc, s);
        }
      case Extra(_, size) =>
        assert WellFormed(ts[i]);
      case Bad =>
    }
  }

  /** The statistics pass agrees with the encoding pass: with the tables made from a scan's own
      statistics, every MCU of the scan can be encoded. */
  lemma StatisticsSuffice(cfg: ScanConfig, mcus: seq<Mcu>, specs: TableSet, tables: Tables, i: nat)
    requires cfg.Valid() && FitAll(cfg, mcus) && AllInRange(cfg, mcus) && TunedTo(cfg, mcus, specs, tables)
    requires i < |mcus|
    ensures Ready(cfg, tables) && McuEncodable(cfg, tables, ProgressAfter(cfg, mcus[..i]), mcus[i])
  {
    TunedIsReady(cfg, mcus, specs, tables);
    var bs := NextBlocks(cfg, mcus[..i], mcus[i]);
    McuBlocksGood(cfg, mcus[i], StartDc(cfg, ProgressAfter(cfg, mcus[..i])), 0);
    McuBlocksWellFormed(cfg, mcus[i], StartDc(cfg, ProgressAfter(cfg, mcus[..i])), 0);
    assert McuInRange(cfg, mcus[..i], mcus[i]);
    forall j | 0 <= j < |bs|
      ensures AllEncodable(bs[j].tokens, tables[cfg.DcSlot(bs[j].ci)], tables[cfg.AcSlot(bs[j].ci)])
    {
      BlockSuffices(cfg, mcus, specs, tables, i, bs, j);
    }
  }

  lemma BlockSuffices(cfg: ScanConfig, mcus: seq<Mcu>, specs: TableSet, tables: Tables, i: nat, bs: seq<CodedBlock>,
                      j: nat)
    requires cfg.Valid() && FitAll(cfg, mcus) && TunedTo(cfg, mcus, specs, tables) && Ready(cfg, tables)
    requires i < |mcus| && bs == NextBlocks(cfg, mcus[..i], mcus[i]) && j < |bs|
    requires GoodBlocks(cfg, bs) && BlocksWellFormed(bs) && BlocksInRange(bs)
    ensures AllEncodable(bs[j].tokens, tables[cfg.DcSlot(bs[j].ci)], tables[cfg.AcSlot(bs[j].ci)])
  {
    var d, a := cfg.DcSlot(bs[j].ci), cfg.AcSlot(bs[j].ci);
    assert UsesSlot(cfg, bs[j].ci, d) && UsesSlot(cfg, bs[j].ci, a);
    ScanTallyCounts(cfg, mcus, d, i, bs);
    ScanTallyCounts(cfg, mcus, a, i, bs);
    ScanProducible(cfg, mcus, d);
    ScanProducible(cfg, mcus, a);
    CountedEncodable(bs[j].tokens, ScanTally(cfg, mcus, d), ScanTally(cfg, mcus, a), specs[d], specs[a], tables[d],
                     tables[a]);
  }

  // ---------- the counts are what the table generator needs ----------

  ghost predicate HasSymbol(ts: seq<Token>, isAc: bool) {
    exists i :: 0 <= i < |ts| && ts[i].Symbol? && ts[i].ac == isAc
  }

  lemma {:induction false} AcHasSymbol(zz: seq<int>, k: nat, r: nat)
    requires |zz| == 64 && k <= 64 && (k < 64 || r > 0) && Bad !in AcTokens(zz, k, r)
    ensures HasSymbol(AcTokens(zz, k, r), true)
    decreases |zz| - k, r
  {
    var ts := AcTokens(zz, k, r);
    if k < 64 && zz[k] == 0 {
      AcHasSymbol(zz, k + 1, r + 1);
    } else {
      assert ts[0] != Bad;
      assert ts[0].Symbol? && ts[0].ac;
    }
  }

  /** Every block has a DC symbol, and an AC symbol. */
  lemma BlockHasSymbols(zz: seq<int>, lastDc: int)
    requires |zz| == 64 && Bad !in BlockTokens(zz, lastDc)
    ensures HasSymbol(BlockTokens(zz, lastDc), false) && HasSymbol(BlockTokens(zz, lastDc), true)
  {
    var a, b := DcTokens(zz[0] - lastDc), AcTokens(zz, 1, 0);
    var ts := BlockTokens(zz, lastDc);
    assert ts[0] == a[0] && ts[0] in ts;
    assert forall i :: 0 <= i < |b| ==> ts[|a| + i] == b[i];
    AcHasSymbol(zz, 1, 0);
    var i :| 0 <= i < |b| && b[i].Symbol? && b[i].ac;
    assert ts[|a| + i] == b[i];
  }

  /** The blocks of an MCU are those of its components, in order. */
  lemma {:induction false} McuBlockAt(cfg: ScanConfig, mcu: Mcu, dc: seq<int>, b: nat, k: nat)
    requires cfg.Valid() && FitsScan(cfg, mcu) && |dc| == |cfg.dcTbl| && b <= k < |mcu|
    ensures var bs := McuBlocks(cfg, mcu, dc, b);
            k - b < |bs| && bs[k - b].ci == cfg.membership[k]
            && exists last :: bs[k - b].tokens == BlockTokens(Zigzag(cfg.order, mcu[k]), last)
    decreases k - b
  {
    if b < k {
      McuBlockAt(cfg, mcu, dc[cfg.membership[b] := mcu[b][0]], b + 1, k);
    } else {
      assert McuBlocks(cfg, mcu, dc, b)[0].tokens == BlockTokens(Zigzag(cfg.order, mcu[b]), dc[cfg.membership[b]]);
    }
  }

  ghost predicate SomeCount(c: seq<nat>) {
    |c| == 257 && exists s :: 0 <= s < 256 && c[s] > 0
  }

  lemma CountedHasSome(c: seq<nat>, ts: seq<Token>, isAc: bool)
    requires Counted(c, ts, isAc) && HasSymbol(ts, isAc)
    ensures SomeCount(c)
  {
    var i :| 0 <= i < |ts| && ts[i].Symbol? && ts[i].ac == isAc;
    assert c[ts[i].symbol] > 0;
  }

  lemma ComponentBlock(cfg: ScanConfig, mcu: Mcu, bs: seq<CodedBlock>, dc: seq<int>, ci: nat) returns (k: nat)
    requires cfg.Valid() && FitsScan(cfg, mcu) && |dc| == |cfg.dcTbl| && bs == McuBlocks(cfg, mcu, dc, 0)
    requires ci in cfg.membership && BlocksInRange(bs)
    ensures k < |bs| && bs[k].ci == ci && HasSymbol(bs[k].tokens, false) && HasSymbol(bs[k].tokens, true)
  {
    k :| 0 <= k < |cfg.membership| && cfg.membership[k] == ci;
    McuBlockAt(cfg, mcu, dc, 0, k);
    var last :| bs[k].tokens == BlockTokens(Zigzag(cfg.order, mcu[k]), last);
    assert Bad !in bs[k].tokens;
    BlockHasSymbols(Zigzag(cfg.order, mcu[k]), last);
  }

  /** A component that occurs in the MCU gets counts in both of its tables. */
  lemma ComponentCounted(cfg: ScanConfig, mcus: seq<Mcu>, ci: nat, slot: nat)
    requires cfg.Valid() && FitAll(cfg, mcus) && AllInRange(cfg, mcus) && mcus != []
    requires UsesSlot(cfg, ci, slot) && ci in cfg.membership
    ensures SomeCount(ScanTally(cfg, mcus, slot))
  {
    var bs := NextBlocks(cfg, mcus[..0], mcus[0]);
    assert McuInRange(cfg, mcus[..0], mcus[0]);
    var k := ComponentBlock(cfg, mcus[0], bs, StartDc(cfg, ProgressAfter(cfg, mcus[..0])), ci);
    ScanTallyCounts(cfg, mcus, slot, 0, bs);
    CountedHasSome(ScanTally(cfg, mcus, slot), bs[k].tokens, slot >= 4);
  }

  /** The counts of a scan are fit for the table generator, unless it cannot see all of them. */
  lemma ScanIsCountable(cfg: ScanConfig, mcus: seq<Mcu>, ci: nat, slot: nat)
    requires cfg.Valid() && FitAll(cfg, mcus) && AllInRange(cfg, mcus) && mcus != []
    requires UsesSlot(cfg, ci, slot) && ci in cfg.membership
    requires CountsFit(WithPseudo(ScanTally(cfg, mcus, slot)))
    ensures Countable(ScanTally(cfg, mcus, slot))
  {
    ComponentCounted(cfg, mcus, ci, slot);
    ScanProducible(cfg, mcus, slot);
    FewLiveSymbols(ScanTally(cfg, mcus, slot), slot >= 4);
  }

  // ---------- the object ----------

  /** What is left to count of an MCU, and what the counts will then be. */
  ghost predicate Pending(cfg: ScanConfig, mcu: Mcu, dc: seq<int>, blkn: nat, now: seq<seq<nat>>, goal: seq<seq<nat>>)
    requires cfg.Valid() && FitsScan(cfg, mcu) && |dc| == |cfg.dcTbl| && blkn <= |mcu|
  {
    && |now| == |goal| == 8
    && forall slot :: 0 <= slot < 8 ==>
         |now[slot]| == 257 && BlocksTally(cfg, McuBlocks(cfg, mcu, dc, blkn), slot, now[slot]) == goal[slot]
  }

  /** Counting one more block. */
  lemma PendingStep(cfg: ScanConfig, mcu: Mcu, dc: seq<int>, blkn: nat, now: seq<seq<nat>>, next: seq<seq<nat>>,
                    goal: seq<seq<nat>>)
    requires cfg.Valid() && FitsScan(cfg, mcu) && |dc| == |cfg.dcTbl| && blkn < |mcu|
    requires Pending(cfg, mcu, dc, blkn, now, goal) && |next| == 8
    requires var ci := cfg.membership[blkn];
             var b := CodedBlock(ci, BlockTokens(Zigzag(cfg.order, mcu[blkn]), dc[ci]));
             forall slot :: 0 <= slot < 8 ==> next[slot] == BlockTally(cfg, b, slot, now[slot])
    ensures Pending(cfg, mcu, dc[cfg.membership[blkn] := mcu[blkn][0]], blkn + 1, next, goal)
  {
    var ci := cfg.membership[blkn];
    var bs := McuBlocks(cfg, mcu, dc, blkn);
    var rest := McuBlocks(cfg, mcu, dc[ci := mcu[blkn][0]], blkn + 1);
    assert bs[1..] == rest;
    forall slot | 0 <= slot < 8
      ensures |next[slot]| == 257 && BlocksTally(cfg, rest, slot, next[slot]) == goal[slot]
    {
      assert BlocksTally(cfg, bs, slot, now[slot]) == goal[slot];
    }
  }

  lemma PendingNothing(cfg: ScanConfig, mcu: Mcu, dc: seq<int>, now: seq<seq<nat>>, goal: seq<seq<nat>>)
    requires cfg.Valid() && FitsScan(cfg, mcu) && |dc| == |cfg.dcTbl|
    requires Pending(cfg, mcu, dc, |mcu|, now, goal)
    ensures now == goal
  {
  }

  /** The counts in use are those of these MCUs. */
  ghost predicate HoldsTallies(cfg: ScanConfig, mcus: seq<Mcu>, now: seq<seq<nat>>)
    requires cfg.Valid() && FitAll(cfg, mcus)
  {
    && |now| == 8 && (forall slot :: 0 <= slot < 8 ==> |now[slot]| == 257)
    && forall slot :: 0 <= slot < 8 && UsedSlot(cfg, slot) ==> now[slot] == ScanTally(cfg, mcus, slot)
  }

  /** Does every component of the scan have a block in the MCU? */
  ghost predicate AllPresent(cfg: ScanConfig) {
    forall ci: nat :: ci < |cfg.dcTbl| ==> ci in cfg.membership
  }

  /** Can the table generator see the counts of every slot in use? */
  ghost predicate FewEnough(cfg: ScanConfig, mcus: seq<Mcu>)
    requires cfg.Valid() && FitAll(cfg, mcus)
  {
    forall slot :: 0 <= slot < 8 && UsedSlot(cfg, slot) ==>
      CountsFit(WithPseudo(ScanTally(cfg, mcus, slot)))
  }

  /** Is the tree for an AC slot in use too high? */
  ghost predicate SomeTooDeep(cfg: ScanConfig, mcus: seq<Mcu>)
    requires cfg.Valid() && FitAll(cfg, mcus)
  {
    exists slot :: 4 <= slot < 8 && UsedSlot(cfg, slot) && TooDeep(ScanTally(cfg, mcus, slot))
  }

  /** A DC slot has too few symbols for that. */
  lemma DcIsShallow(cfg: ScanConfig, mcus: seq<Mcu>, slot: nat)
    requires cfg.Valid() && FitAll(cfg, mcus) && slot < 4
    ensures !TooDeep(ScanTally(cfg, mcus, slot))
  {
    var w := WithPseudo(ScanTally(cfg, mcus, slot));
    ScanProducible(cfg, mcus, slot);
    FewDcSymbols(ScanTally(cfg, mcus, slot));
    LiveSet(w, 256, 0);
    HeightBelowLeaves(w);
  }

  class StatisticsPass {
    const cfg: ScanConfig
    const counts: seq<array<nat>>      // dc_count_ptrs, then ac_count_ptrs
    var lastDcVal: seq<int>
    var restartsToGo: nat
    ghost var seen: seq<Mcu>           // the MCUs counted so far

    ghost predicate Shaped()
    {
      && cfg.Valid() && |counts| == 8
      && (forall i :: 0 <= i < 8 ==> counts[i].Length == 257)
      && (forall i, j :: 0 <= i < j < 8 ==> counts[i] != counts[j])
    }

    ghost function Now(): (now: seq<seq<nat>>)
      reads counts
      requires |counts| == 8
      ensures |now| == 8
    {
      seq(8, i requires 0 <= i < 8 reads counts => counts[i][..])
    }

    /** The counts in use are those of the MCUs seen; predictors and restart counter are where the
        encoder will have them. */
    ghost predicate Valid()
      reads this, counts
    {
      && Shaped() && FitAll(cfg, seen) && AllInRange(cfg, seen)
      && lastDcVal == ProgressAfter(cfg, seen).lastDc
      && restartsToGo == ProgressAfter(cfg, seen).restartsToGo
      && HoldsTallies(cfg, seen, Now())
    }

    /** start_pass_huff when gathering statistics: clear the counts of the tables in use. */
    constructor (cfg: ScanConfig, counts: seq<array<nat>>)
      requires cfg.Valid() && |counts| == 8 && (forall i :: 0 <= i < 8 ==> counts[i].Length == 257)
      requires forall i, j :: 0 <= i < j < 8 ==> counts[i] != counts[j]
      modifies counts
      ensures Valid() && seen == [] && this.cfg == cfg && this.counts == counts
    {
      this.cfg, this.counts := cfg, counts;
      lastDcVal := seq(|cfg.dcTbl|, _ => 0);
      restartsToGo := cfg.restartInterval;
      seen := [];
      new;
      for ci := 0 to |cfg.dcTbl|
        invariant seen == [] && lastDcVal == ZeroDc(cfg) && restartsToGo == cfg.restartInterval
        invariant forall slot :: 0 <= slot < 8 && UsedBelow(cfg, ci, slot) ==> counts[slot][..] == NoCounts()
      {
        ClearCounts(counts[cfg.DcSlot(ci)]);
        ClearCounts(counts[cfg.AcSlot(ci)]);
      }
    }

    /** One turn of the block loop: count block blkn and remember its DC value. */
    method GatherBlock(mcu: Mcu, blkn: nat, ghost goal: seq<seq<nat>>) returns (ok: bool)
      requires Shaped() && FitsScan(cfg, mcu) && blkn < |mcu| && |lastDcVal| == |cfg.dcTbl|
      requires Pending(cfg, mcu, lastDcVal, blkn, Now(), goal)
      modifies this`lastDcVal, counts
      ensures |lastDcVal| == |cfg.dcTbl|
      ensures ok ==> lastDcVal == old(lastDcVal)[cfg.membership[blkn] := mcu[blkn][0]]
      ensures ok ==> Pending(cfg, mcu, lastDcVal, blkn + 1, Now(), goal)
      ensures ok <==> InRange(Zigzag(cfg.order, mcu[blkn]), old(lastDcVal[cfg.membership[blkn]]))
    {
      var ci := cfg.membership[blkn];
      ghost var now, dc := Now(), lastDcVal;
      var dctbl, actbl := counts[cfg.DcSlot(ci)], counts[cfg.AcSlot(ci)];
      ok := TestOneBlock(mcu[blkn], lastDcVal[ci], cfg.order, dctbl, actbl);
      if ok {
        ghost var b := CodedBlock(ci, BlockTokens(Zigzag(cfg.order, mcu[blkn]), dc[ci]));
        ghost var next := Now();
        forall slot | 0 <= slot < 8
          ensures next[slot] == BlockTally(cfg, b, slot, now[slot])
        {
          assert next[slot] == counts[slot][..] && now[slot] == old(counts[slot][..]);
        }
        PendingStep(cfg, mcu, dc, blkn, now, next, goal);
        lastDcVal := lastDcVal[ci := mcu[blkn][0]];
      }
    }

    /** The restart bookkeeping, which here comes first. */
    method CountRestart()
      requires cfg.Valid() && FitAll(cfg, seen)
      requires lastDcVal == ProgressAfter(cfg, seen).lastDc && restartsToGo == ProgressAfter(cfg, seen).restartsToGo
      modifies this`lastDcVal, this`restartsToGo
      ensures lastDcVal == StartDc(cfg, ProgressAfter(cfg, seen))
      ensures forall mcu :: FitsScan(cfg, mcu) ==>
                restartsToGo == Advance(cfg, ProgressAfter(cfg, seen), mcu).restartsToGo
    {
      if cfg.restartInterval != 0 {
        if restartsToGo == 0 {
          lastDcVal := seq(|lastDcVal|, _ => 0);
          restartsToGo := cfg.restartInterval;
        }
        restartsToGo := restartsToGo - 1;
      }
    }

    /** The block loop of encode_mcu_gather. */
    method GatherBlocks(mcu: Mcu, ghost goal: seq<seq<nat>>) returns (ok: bool)
      requires Shaped() && FitsScan(cfg, mcu) && |lastDcVal| == |cfg.dcTbl|
      requires Pending(cfg, mcu, lastDcVal, 0, Now(), goal)
      modifies this`lastDcVal, counts
      ensures ok ==> lastDcVal == DcAfter(cfg, mcu, old(lastDcVal), 0) && Now() == goal
      ensures ok <==> BlocksInRange(McuBlocks(cfg, mcu, old(lastDcVal), 0))
    {
      hide DcAfter, BlocksInRange, McuBlocks, Pending, InRange, ScanConfig.Valid;
      ghost var end := DcAfter(cfg, mcu, lastDcVal, 0);
      ghost var legal := BlocksInRange(McuBlocks(cfg, mcu, lastDcVal, 0));
      for blkn := 0 to |mcu|
        invariant |lastDcVal| == |cfg.dcTbl| && DcAfter(cfg, mcu, lastDcVal, blkn) == end
        invariant Pending(cfg, mcu, lastDcVal, blkn, Now(), goal)
        invariant legal <==> BlocksInRange(McuBlocks(cfg, mcu, lastDcVal, blkn))
      {
        InRangeStep(cfg, mcu, lastDcVal, blkn);
        ok := GatherBlock(mcu, blkn, goal);
        if !ok {
          return;
        }
      }
      PendingNothing(cfg, mcu, lastDcVal, Now(), goal);
      NoBlocksLeft(cfg, mcu, lastDcVal);
      ok := true;
    }

    /** encode_mcu_gather: the MCU's symbols are added to the counts, unless a coefficient is out of
        range. */
    method GatherMcu(mcu: Mcu) returns (ok: bool)
      requires Valid() && FitsScan(cfg, mcu)
      modifies this, counts
      ensures ok ==> Valid() && seen == old(seen) + [mcu]
      ensures ok <==> old(McuInRange(cfg, seen, mcu))
    {
      hide BlocksInRange, McuBlocks, ProgressAfter, Advance, DcAfter, HoldsTallies, Tallies, AllInRange, McuInRange;
      hide NextBlocks, StartDc, Pending;
      NextMcuCounts(cfg, seen, mcu, Now());
      ghost var now, bs := Now(), NextBlocks(cfg, seen, mcu);
      ghost var goal := Tallies(cfg, bs, now);
      CountRestart();
      ok := GatherBlocks(mcu, goal);
      if ok {
        OneMoreSeen(cfg, seen, mcu, now);
        seen := seen + [mcu];
      }
    }

    /** What finish_pass_gather has done when the slots in did are finished. */
    ghost predicate Finishing(did: seq<bool>, was: seq<Option<HuffTable>>, now: seq<Option<HuffTable>>)
      reads this, counts
      requires Shaped() && FitAll(cfg, seen)
    {
      && |did| == |was| == |now| == 8
      && forall slot :: 0 <= slot < 8 ==>
           if did[slot] then
             && now[slot].Some? && BestTable(ScanTally(cfg, seen, slot), now[slot].value)
             && !TooDeep(ScanTally(cfg, seen, slot))
           else now[slot] == was[slot] && (UsedSlot(cfg, slot) ==> counts[slot][..] == ScanTally(cfg, seen, slot))
    }

    /** One table of finish_pass_gather, unless it is done already: generating a table clobbers its counts. */
    method FinishSlot(slot: nat, did: seq<bool>, ghost was: seq<Option<HuffTable>>, tbls: seq<Option<HuffTable>>)
        returns (ok: bool, didNow: seq<bool>, r: seq<Option<HuffTable>>)
      requires Shaped() && FitAll(cfg, seen) && Finishing(did, was, tbls) && slot < 8 && UsedSlot(cfg, slot)
      requires Countable(ScanTally(cfg, seen, slot))
      requires forall i :: 0 <= i < 8 && was[i].Some? ==> was[i].value.Shaped()
      modifies counts
      ensures ok ==> Finishing(didNow, was, r) && didNow == did[slot := true]
      ensures !ok ==> TooDeep(ScanTally(cfg, seen, slot))
    {
      hide ScanTally, TooDeep, BestTable, Countable, UsesSlot, FitsScan;
      if did[slot] {
        return true, did, tbls;
      }
      var t := MakeTable(counts[slot], tbls[slot]);
      if t.None? {
        return false, did, tbls;
      }
      ok, didNow, r := true, did[slot := true], tbls[slot := t];
    }

    /** Can finish_pass_gather do its work? */
    ghost predicate Ready()
      reads this
      requires cfg.Valid() && FitAll(cfg, seen)
    {
      && AllInRange(cfg, seen) && FewEnough(cfg, seen) && seen != []
      && AllPresent(cfg)
    }

    /** The two tables of one component. */
    method FinishComponent(ci: nat, did: seq<bool>, ghost was: seq<Option<HuffTable>>, tbls: seq<Option<HuffTable>>)
        returns (ok: bool, didNow: seq<bool>, r: seq<Option<HuffTable>>)
      requires Shaped() && FitAll(cfg, seen) && Ready() && Finishing(did, was, tbls) && ci < |cfg.dcTbl|
      requires forall i :: 0 <= i < 8 && was[i].Some? ==> was[i].value.Shaped()
      modifies counts
      ensures ok ==> Finishing(didNow, was, r) && didNow == did[cfg.DcSlot(ci) := true][cfg.AcSlot(ci) := true]
      ensures !ok ==> SomeTooDeep(cfg, seen)
    {
      hide ScanTally, TooDeep, BestTable, Countable, AllInRange, CountsFit, Finishing, FitsScan;
      var d, a := cfg.DcSlot(ci), cfg.AcSlot(ci);
      assert UsesSlot(cfg, ci, d) && UsesSlot(cfg, ci, a);
      ScanIsCountable(cfg, seen, ci, d);
      ScanIsCountable(cfg, seen, ci, a);
      DcIsShallow(cfg, seen, d);
      ok, didNow, r := FinishSlot(d, did, was, tbls);
      if ok {
        ok, didNow, r := FinishSlot(a, didNow, was, r);
      }
    }

    /** finish_pass_gather: a new table in every slot in use, made once from that slot's counts; the other slots keep
        their tables. Fails exactly if the tree for the counts of an AC slot is too high. */
    method FinishPass(tbls: seq<Option<HuffTable>>) returns (r: Option<seq<Option<HuffTable>>>)
      requires Valid() && Ready()
      requires |tbls| == 8 && forall i :: 0 <= i < 8 && tbls[i].Some? ==> tbls[i].value.Shaped()
      modifies counts
      ensures r.Some? ==> |r.value| == 8
      ensures r.Some? ==> forall slot :: 0 <= slot < 8 ==>
                if UsedSlot(cfg, slot) then
                  r.value[slot].Some? && BestTable(ScanTally(cfg, seen, slot), r.value[slot].value)
                else r.value[slot] == tbls[slot]
      ensures r.None? <==> SomeTooDeep(cfg, seen)
    {
      var did, now := seq(8, _ => false), tbls;
      for ci := 0 to |cfg.dcTbl|
        invariant Finishing(did, tbls, now)
        invariant forall slot :: 0 <= slot < 8 ==> (did[slot] <==> UsedBelow(cfg, ci, slot))
      {
        var ok;
        ghost var before := did;
        ok, did, now := FinishComponent(ci, did, tbls, now);
        if !ok {
          return None;
        }
        UsedOneMore(cfg, ci, before, did);
      }
      r := Some(now);
    }
  }

  /** The table made from optimal code lengths for these counts. */
  ghost predicate BestTable(c: seq<nat>, t: HuffTable)
    requires |c| == 257
  {
    exists cs: seq<nat> :: TableFor(WithPseudo(c), cs, t)
  }

  /** The tree for these counts is more than 32 high. */
  predicate TooDeep(c: seq<nat>)
    requires |c| == 257
  {
    Height(WithPseudo(c)) > MAX_CLEN
  }

  lemma UsedOneMore(cfg: ScanConfig, ci: nat, before: seq<bool>, did: seq<bool>)
    requires cfg.Valid() && ci < |cfg.dcTbl| && |before| == 8
    requires forall slot :: 0 <= slot < 8 ==> (before[slot] <==> UsedBelow(cfg, ci, slot))
    requires did == before[cfg.DcSlot(ci) := true][cfg.AcSlot(ci) := true]
    ensures forall slot :: 0 <= slot < 8 ==> (did[slot] <==> UsedBelow(cfg, ci + 1, slot))
  {
    forall slot | 0 <= slot < 8 ensures did[slot] <==> UsedBelow(cfg, ci + 1, slot) {
      if slot == cfg.DcSlot(ci) || slot == cfg.AcSlot(ci) {
        assert UsesSlot(cfg, ci, slot);
      } else if UsedBelow(cfg, ci, slot) {
        var c: nat :| c < ci && UsesSlot(cfg, c, slot);
      }
    }
  }

  /** Generate a table into the given one, or into a new one. */
  method MakeTable(freq: array<nat>, tbl: Option<HuffTable>) returns (r: Option<HuffTable>)
    requires freq.Length == 257 && Countable(freq[..]) && (tbl.Some? ==> tbl.value.Shaped())
    modifies freq
    ensures r.Some? ==> BestTable(old(freq[..]), r.value)
    ensures r.None? <==> TooDeep(old(freq[..]))
  {
    var huffval := new byte[256];
    if tbl.Some? {
      for i := 0 to 256
        invariant freq[..] == old(freq[..])
      {
        huffval[i] := tbl.value.huffval[i];
      }
    }
    ghost var cs;
    r, cs := GenOptimalTable(freq, huffval);
  }

  /** The table derivation in start_pass_huff, for the slots in use. */
  method DeriveTables(cfg: ScanConfig, tbls: seq<Option<HuffTable>>) returns (r: Option<Tables>)
    requires cfg.Valid() && |tbls| == 8 && forall i :: 0 <= i < 8 && tbls[i].Some? ==> tbls[i].value.Shaped()
    ensures r.Some? <==> forall slot :: 0 <= slot < 8 && UsedSlot(cfg, slot) ==>
              tbls[slot].Some? && Acceptable(tbls[slot].value, slot < 4)
    ensures r.Some? ==> forall slot :: 0 <= slot < 8 && UsedSlot(cfg, slot) ==>
              Derives(tbls[slot].value, r.value[slot]) && r.value[slot].Usable() && r.value[slot].PrefixFree()
  {
    var tables: Tables := seq(8, _ => DerivedTable([], []));
    for ci := 0 to |cfg.dcTbl|
      invariant forall slot :: 0 <= slot < 8 && UsedBelow(cfg, ci, slot) ==> SlotDerived(tbls, tables, slot)
    {
      var d, a := cfg.DcSlot(ci), cfg.AcSlot(ci);
      assert UsesSlot(cfg, ci, d) && UsesSlot(cfg, ci, a);
      ghost var before := tables;
      var t := DeriveSlot(tbls, d);
      if t.None? {
        return None;
      }
      var u := DeriveSlot(tbls, a);
      if u.None? {
        return None;
      }
      tables := tables[d := t.value][a := u.value];
      forall slot | 0 <= slot < 8 && UsedBelow(cfg, ci + 1, slot) ensures SlotDerived(tbls, tables, slot) {
        if slot != d && slot != a {
          assert UsedBelow(cfg, ci, slot);
        }
      }
    }
    r := Some(tables);
    forall slot | 0 <= slot < 8 && UsedSlot(cfg, slot) ensures SlotDerived(tbls, tables, slot) {
      assert UsedBelow(cfg, |cfg.dcTbl|, slot);
    }
  }

  ghost predicate SlotDerived(tbls: seq<Option<HuffTable>>, tables: Tables, slot: nat)
    requires |tbls| == 8 && slot < 8 && forall i :: 0 <= i < 8 && tbls[i].Some? ==> tbls[i].value.Shaped()
  {
    && tbls[slot].Some? && Acceptable(tbls[slot].value, slot < 4)
    && Derives(tbls[slot].value, tables[slot]) && tables[slot].Usable() && tables[slot].PrefixFree()
  }

  /** jpeg_make_c_derived_tbl, with the error for a table that is not there. */
  method DeriveSlot(tbls: seq<Option<HuffTable>>, slot: nat) returns (r: Option<DerivedTable>)
    requires |tbls| == 8 && slot < 8 && forall i :: 0 <= i < 8 && tbls[i].Some? ==> tbls[i].value.Shaped()
    ensures r.Some? <==> tbls[slot].Some? && Acceptable(tbls[slot].value, slot < 4)
    ensures r.Some? ==> Derives(tbls[slot].value, r.value) && r.value.Usable() && r.value.PrefixFree()
  {
    if tbls[slot].None? {
      return None;
    }
    r := MakeDerivedTable(tbls[slot].value, slot < 4);
    if r.Some? {
      DerivedIsPrefixFree(tbls[slot].value, r.value, slot < 4);
      LengthsAtMost16(r.value);
    }
  }

  /** The counts of all slots after some blocks. */
  ghost function Tallies(cfg: ScanConfig, bs: seq<CodedBlock>, now: seq<seq<nat>>): (goal: seq<seq<nat>>)
    requires cfg.Valid() && |now| == 8 && forall slot :: 0 <= slot < 8 ==> |now[slot]| == 257
    ensures |goal| == 8
  {
    seq(8, slot requires 0 <= slot < 8 => BlocksTally(cfg, bs, slot, now[slot]))
  }

  /** Is this slot used by one of the first n components? */
  ghost predicate UsedBelow(cfg: ScanConfig, n: nat, slot: nat)
    requires cfg.Valid()
  {
    exists ci: nat :: ci < n && UsesSlot(cfg, ci, slot)
  }

  method ClearCounts(a: array<nat>)
    requires a.Length == 257
    modifies a
    ensures a[..] == NoCounts()
  {
    for i := 0 to 257
      invariant forall k :: 0 <= k < i ==> a[k] == 0
    {
      a[i] := 0;
    }
  }

  lemma FirstInRange(b: CodedBlock, bs: seq<CodedBlock>)
    ensures BlocksInRange([b] + bs) <==> Bad !in b.tokens && BlocksInRange(bs)
  {
    var all := [b] + bs;
    assert all[0] == b && forall i :: 0 <= i < |bs| ==> all[i + 1] == bs[i];
  }

  lemma InRangeStep(cfg: ScanConfig, mcu: Mcu, dc: seq<int>, blkn: nat)
    requires cfg.Valid() && FitsScan(cfg, mcu) && |dc| == |cfg.dcTbl| && blkn < |mcu|
    ensures var ci := cfg.membership[blkn];
            BlocksInRange(McuBlocks(cfg, mcu, dc, blkn))
            <==> InRange(Zigzag(cfg.order, mcu[blkn]), dc[ci])
                 && BlocksInRange(McuBlocks(cfg, mcu, dc[ci := mcu[blkn][0]], blkn + 1))
    ensures DcAfter(cfg, mcu, dc[cfg.membership[blkn] := mcu[blkn][0]], blkn + 1) == DcAfter(cfg, mcu, dc, blkn)
  {
    var ci := cfg.membership[blkn];
    var b := CodedBlock(ci, BlockTokens(Zigzag(cfg.order, mcu[blkn]), dc[ci]));
    FirstInRange(b, McuBlocks(cfg, mcu, dc[ci := mcu[blkn][0]], blkn + 1));
    BadIffOutOfRange(Zigzag(cfg.order, mcu[blkn]), dc[ci]);
  }

  /** What counting an MCU starts from, and what it comes to. */
  lemma NextMcuCounts(cfg: ScanConfig, seen: seq<Mcu>, mcu: Mcu, now: seq<seq<nat>>)
    requires cfg.Valid() && FitAll(cfg, seen) && FitsScan(cfg, mcu) && HoldsTallies(cfg, seen, now)
    ensures |now| == 8 && forall slot :: 0 <= slot < 8 ==> |now[slot]| == 257
    ensures var dc := StartDc(cfg, ProgressAfter(cfg, seen));
            && Pending(cfg, mcu, dc, 0, now, Tallies(cfg, NextBlocks(cfg, seen, mcu), now))
            && (McuInRange(cfg, seen, mcu) <==> BlocksInRange(McuBlocks(cfg, mcu, dc, 0)))
            && Advance(cfg, ProgressAfter(cfg, seen), mcu).lastDc == DcAfter(cfg, mcu, dc, 0)
  {
    hide ProgressAfter, McuBlocks, BlocksTally, BlocksInRange, DcAfter;
  }

  lemma NoBlocksLeft(cfg: ScanConfig, mcu: Mcu, dc: seq<int>)
    requires cfg.Valid() && FitsScan(cfg, mcu) && |dc| == |cfg.dcTbl|
    ensures BlocksInRange(McuBlocks(cfg, mcu, dc, |mcu|)) && DcAfter(cfg, mcu, dc, |mcu|) == dc
  {
  }

  lemma OneMoreInRange(cfg: ScanConfig, seen: seq<Mcu>, mcu: Mcu)
    requires cfg.Valid() && FitAll(cfg, seen) && FitsScan(cfg, mcu) && AllInRange(cfg, seen)
             && McuInRange(cfg, seen, mcu)
    ensures FitAll(cfg, seen + [mcu]) && AllInRange(cfg, seen + [mcu])
  {
    hide McuInRange, ScanConfig.Valid;
    var all := seen + [mcu];
    forall i | 0 <= i < |all| ensures McuInRange(cfg, all[..i], all[i]) {
      assert all[..i] == if i < |seen| then seen[..i] else seen;
      assert i < |seen| ==> McuInRange(cfg, seen[..i], seen[i]);
    }
  }

  lemma OneMoreSeen(cfg: ScanConfig, seen: seq<Mcu>, mcu: Mcu, now: seq<seq<nat>>)
    requires cfg.Valid() && FitAll(cfg, seen) && FitsScan(cfg, mcu) && AllInRange(cfg, seen)
             && McuInRange(cfg, seen, mcu)
    requires HoldsTallies(cfg, seen, now)
    ensures FitAll(cfg, seen + [mcu]) && AllInRange(cfg, seen + [mcu])
    ensures ProgressAfter(cfg, seen + [mcu]) == Advance(cfg, ProgressAfter(cfg, seen), mcu)
    ensures HoldsTallies(cfg, seen + [mcu], Tallies(cfg, NextBlocks(cfg, seen, mcu), now))
  {
    OneMoreInRange(cfg, seen, mcu);
    var all := seen + [mcu];
    assert all[..|all| - 1] == seen;
  }

  // ---------- the two passes together ----------

  /** The tables a statistics pass leaves are always accepted by the encoding pass that follows, and
      whatever it derives from them is tuned to the scan. */
  lemma SecondPassReady(cfg: ScanConfig, mcus: seq<Mcu>, tbls: seq<Option<HuffTable>>, slot: nat)
    requires cfg.Valid() && FitAll(cfg, mcus) && |tbls| == 8 && slot < 8
    requires tbls[slot].Some? && BestTable(ScanTally(cfg, mcus, slot), tbls[slot].value)
    ensures Acceptable(tbls[slot].value, slot < 4)
    ensures forall d: DerivedTable :: Derives(tbls[slot].value, d) ==>
              MadeFor(ScanTally(cfg, mcus, slot), tbls[slot].value, d)
  {
    ScanProducible(cfg, mcus, slot);
    MadeTablesWork(ScanTally(cfg, mcus, slot), slot >= 4, tbls[slot].value);
  }

  /** So while the encoder is fed the MCUs that were counted, it never meets a missing code or a
      coefficient out of range. */
  lemma EncoderNeverFails(e: HuffEntropyEncoder, mcus: seq<Mcu>, specs: TableSet)
    requires e.Valid() && FitAll(e.cfg, mcus) && AllInRange(e.cfg, mcus) && TunedTo(e.cfg, mcus, specs, e.tables)
    requires |e.accepted| < |mcus| && e.accepted == mcus[..|e.accepted|]
    ensures e.CanEncode(mcus[|e.accepted|])
  {
    StatisticsSuffice(e.cfg, mcus, specs, e.tables, |e.accepted|);
  }
}
