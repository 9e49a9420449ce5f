/** How section B.2.1 of T.81 lays a scan out: intervals of as many MCUs as the restart interval says, each with its DC
    predictors at zero and padded with ones, and the markers RST0 to RST7 in turn between them. Nothing here uses the
    counters of the encoder. */
module ScanLayout {
  import opened Sequences
  import opened Powers
  import opened BitStrings
  import opened BytePacking
  import opened ScanCoding
  import opened ScanDecoder

  /** The DC predictors after some MCUs of one interval. */
  ghost function DcThrough(cfg: ScanConfig, group: seq<Mcu>): (dc: seq<int>)
    requires cfg.Valid() && FitAll(cfg, group)
    ensures |dc| == |cfg.dcTbl|
  {
    if group == [] then seq(|cfg.dcTbl|, _ => 0)
    else DcAfter(cfg, group[|group| - 1], DcThrough(cfg, group[..|group| - 1]), 0)
  }

  /** The bits of the MCUs of one interval. */
  ghost function IntervalBits(cfg: ScanConfig, tables: Tables, group: seq<Mcu>): Bits
    requires cfg.Valid() && Ready(cfg, tables) && FitAll(cfg, group)
  {
    if group == [] then [] else
      var n := |group| - 1;
      McuBlocksGood(cfg, group[n], DcThrough(cfg, group[..n]), 0);
      IntervalBits(cfg, tables, group[..n])
      + BlocksBits(cfg, tables, McuBlocks(cfg, group[n], DcThrough(cfg, group[..n]), 0))
  }

  /** An interval as bytes: stuffed, and padded with ones. */
  ghost function IntervalBytes(cfg: ScanConfig, tables: Tables, group: seq<Mcu>): seq<byte>
    requires cfg.Valid() && Ready(cfg, tables) && FitAll(cfg, group)
  {
    Coded(IntervalBits(cfg, tables, group) + [true, true, true, true, true, true, true])
  }

  /** The first m intervals of n MCUs, each with the marker that follows it. */
  ghost function Intervals(cfg: ScanConfig, tables: Tables, mcus: seq<Mcu>, n: nat, m: nat): seq<byte>
    requires cfg.Valid() && Ready(cfg, tables) && FitAll(cfg, mcus) && n * m <= |mcus|
  {
    if m == 0 then [] else
      MulStep(n, m);
      Intervals(cfg, tables, mcus, n, m - 1) + IntervalBytes(cfg, tables, mcus[n * (m - 1)..n * m])
      + [0xFF, 0xD0 + (m - 1) % 8]
  }

  lemma MulStep(n: nat, m: nat)
    requires m > 0
    ensures n * m == n * (m - 1) + n && n * (m - 1) >= 0
  {
    MulDistrib(m - 1, 1, n);
    MulLe(0, m - 1, n);
  }

  lemma {:induction false} IntervalsPrefix(cfg: ScanConfig, tables: Tables, mcus: seq<Mcu>, mcu: Mcu, n: nat, m: nat)
    requires cfg.Valid() && Ready(cfg, tables) && FitAll(cfg, mcus) && FitsScan(cfg, mcu) && n * m <= |mcus|
    ensures Intervals(cfg, tables, mcus + [mcu], n, m) == Intervals(cfg, tables, mcus, n, m)
  {
    hide IntervalBytes;
    if m > 0 {
      MulStep(n, m);
      IntervalsPrefix(cfg, tables, mcus, mcu, n, m - 1);
      assert (mcus + [mcu])[n * (m - 1)..n * m] == mcus[n * (m - 1)..n * m];
    }
  }

  /** The number of intervals before the one of MCU number k - 1. */
  function Complete(k: nat, n: nat): (q: nat)
    requires k > 0 && n > 0
    ensures n * q < k <= n * q + n
  {
    assert k - 1 == (k - 1) / n * n + (k - 1) % n;
    (k - 1) / n
  }

  /** One more MCU continues the interval, or begins the next. */
  lemma CompleteStep(k: nat, n: nat)
    requires k > 0 && n > 0
    ensures Complete(k + 1, n) == if k == n * Complete(k, n) + n then Complete(k, n) + 1 else Complete(k, n)
    ensures k == n * Complete(k, n) + n <==> k % n == 0
  {
    var q := Complete(k, n);
    if k == n * q + n {
      DivModUnique(k, n, q + 1, 0);
    } else {
      DivModUnique(k, n, q, k - n * q);
    }
  }

  /** The state of the encoder after some MCUs: the complete intervals are written, and the last one is under way. */
  ghost predicate LaidOut(cfg: ScanConfig, tables: Tables, base: seq<byte>, mcus: seq<Mcu>)
    requires cfg.Valid() && Ready(cfg, tables) && FitAll(cfg, mcus) && cfg.restartInterval > 0 && mcus != []
  {
    var n, p := cfg.restartInterval, ProgressAfter(cfg, mcus);
    var q := Complete(|mcus|, n);
    && Stream(cfg, tables, base, mcus)
       == Segment(base + Intervals(cfg, tables, mcus, n, q), IntervalBits(cfg, tables, mcus[n * q..]))
    && p.lastDc == DcThrough(cfg, mcus[n * q..]) && p.nextRestartNum == q % 8
    && p.restartsToGo == n * q + n - |mcus|
  }

  lemma GroupGrows(cfg: ScanConfig, tables: Tables, group: seq<Mcu>, mcu: Mcu)
    requires cfg.Valid() && Ready(cfg, tables) && FitAll(cfg, group) && FitsScan(cfg, mcu)
    ensures GoodBlocks(cfg, McuBlocks(cfg, mcu, DcThrough(cfg, group), 0))
    ensures IntervalBits(cfg, tables, group + [mcu])
            == IntervalBits(cfg, tables, group) + BlocksBits(cfg, tables, McuBlocks(cfg, mcu, DcThrough(cfg, group), 0))
    ensures DcThrough(cfg, group + [mcu]) == DcAfter(cfg, mcu, DcThrough(cfg, group), 0)
  {
    assert (group + [mcu])[..|group|] == group;
    McuBlocksGood(cfg, mcu, DcThrough(cfg, group), 0);
  }

  lemma {:induction false} LayoutHolds(cfg: ScanConfig, tables: Tables, base: seq<byte>, mcus: seq<Mcu>)
    requires cfg.Valid() && Ready(cfg, tables) && FitAll(cfg, mcus) && cfg.restartInterval > 0 && mcus != []
    ensures LaidOut(cfg, tables, base, mcus)
  {
    var k := |mcus| - 1;
    var before, last := mcus[..k], mcus[k];
    assert mcus == before + [last];
    OneMore(cfg, tables, base, before, last);
    if k == 0 {
      FirstLaidOut(cfg, tables, base, last);
    } else {
      LayoutHolds(cfg, tables, base, before);
      NextLaidOut(cfg, tables, base, before, last);
    }
  }

  lemma FirstLaidOut(cfg: ScanConfig, tables: Tables, base: seq<byte>, mcu: Mcu)
    requires cfg.Valid() && Ready(cfg, tables) && FitsScan(cfg, mcu) && cfg.restartInterval > 0
    ensures LaidOut(cfg, tables, base, [mcu])
  {
    hide BlocksBits, McuBlocks, DcAfter, Ready, Coded, Intervals, IntervalBits, NextStream, Advance, Stream,
         ProgressAfter, DcThrough, Complete;
    FirstInterval(cfg.restartInterval);
    OneMore(cfg, tables, base, [], mcu);
    AtScanStart(cfg, tables, base, mcu);
    GroupGrows(cfg, tables, [], mcu);
    EmptyInterval(cfg, tables);
    NoIntervals(cfg, tables, [mcu]);
    assert [] + [mcu] == [mcu];
    assert [mcu][0..] == [mcu];
    assert base + [] == base;
  }

  lemma FirstInterval(n: nat)
    requires n > 0
    ensures Complete(1, n) == 0
  {
  }

  lemma NoIntervals(cfg: ScanConfig, tables: Tables, mcus: seq<Mcu>)
    requires cfg.Valid() && Ready(cfg, tables) && FitAll(cfg, mcus)
    ensures Intervals(cfg, tables, mcus, cfg.restartInterval, 0) == []
  {
  }

  lemma AtScanStart(cfg: ScanConfig, tables: Tables, base: seq<byte>, mcu: Mcu)
    requires cfg.Valid() && Ready(cfg, tables) && FitsScan(cfg, mcu) && cfg.restartInterval > 0
    ensures GoodBlocks(cfg, McuBlocks(cfg, mcu, ZeroDc(cfg), 0))
    ensures NextStream(cfg, tables, ProgressAfter(cfg, []), Stream(cfg, tables, base, []), mcu)
            == Segment(base, [] + BlocksBits(cfg, tables, McuBlocks(cfg, mcu, ZeroDc(cfg), 0)))
    ensures Advance(cfg, ProgressAfter(cfg, []), mcu)
            == Progress(DcAfter(cfg, mcu, ZeroDc(cfg), 0), cfg.restartInterval - 1, 0)
  {
    hide BlocksBits, McuBlocks, DcAfter;
    McuBlocksGood(cfg, mcu, ZeroDc(cfg), 0);
  }

  lemma NextLaidOut(cfg: ScanConfig, tables: Tables, base: seq<byte>, before: seq<Mcu>, last: Mcu)
    requires cfg.Valid() && Ready(cfg, tables) && FitAll(cfg, before) && FitsScan(cfg, last)
    requires cfg.restartInterval > 0 && before != [] && LaidOut(cfg, tables, base, before)
    ensures LaidOut(cfg, tables, base, before + [last])
  {
    hide BlocksBits, McuBlocks, DcAfter, Ready, Coded, Intervals, IntervalBits, DcThrough, Complete;
    var n, q := cfg.restartInterval, Complete(|before|, cfg.restartInterval);
    OneMore(cfg, tables, base, before, last);
    CompleteStep(|before|, n);
    if |before| == n * q + n {
      BeginsInterval(cfg, tables, base, before, last, q);
    } else {
      IntervalsPrefix(cfg, tables, before, last, n, q);
      GroupGrows(cfg, tables, before[n * q..], last);
      assert (before + [last])[n * q..] == before[n * q..] + [last];
    }
  }

  lemma BeginsInterval(cfg: ScanConfig, tables: Tables, base: seq<byte>, before: seq<Mcu>, last: Mcu, q: nat)
    requires cfg.Valid() && Ready(cfg, tables) && FitAll(cfg, before) && FitsScan(cfg, last)
    requires cfg.restartInterval > 0 && before != [] && LaidOut(cfg, tables, base, before)
    requires q == Complete(|before|, cfg.restartInterval) && |before| == cfg.restartInterval * q + cfg.restartInterval
    requires Complete(|before| + 1, cfg.restartInterval) == q + 1
    ensures LaidOut(cfg, tables, base, before + [last])
  {
    hide BlocksBits, McuBlocks, DcAfter, Ready, Coded, Complete, Intervals, IntervalBits, Ones, NextStream, Advance,
         Stream, ProgressAfter, DcThrough;
    var n := cfg.restartInterval;
    OneMore(cfg, tables, base, before, last);
    AfterRestart(cfg, tables, ProgressAfter(cfg, before), Stream(cfg, tables, base, before), last);
    MulStep(n, q + 1);
    IntervalsPrefix(cfg, tables, before, last, n, q + 1);
    IntervalEnds(cfg, tables, base, before, n, q);
    GroupGrows(cfg, tables, [], last);
    EmptyInterval(cfg, tables);
    assert [] + [last] == [last];
    assert (before + [last])[n * (q + 1)..] == [last];
  }

  lemma EmptyInterval(cfg: ScanConfig, tables: Tables)
    requires cfg.Valid() && Ready(cfg, tables)
    ensures IntervalBits(cfg, tables, []) == [] && DcThrough(cfg, []) == ZeroDc(cfg)
  {
  }

  lemma AfterRestart(cfg: ScanConfig, tables: Tables, p: Progress, s: Segment, mcu: Mcu)
    requires cfg.Valid() && Ready(cfg, tables) && GoodProgress(cfg, p) && FitsScan(cfg, mcu) && AtRestart(cfg, p)
    ensures GoodBlocks(cfg, McuBlocks(cfg, mcu, ZeroDc(cfg), 0))
    ensures NextStream(cfg, tables, p, s, mcu)
            == Segment(s.prefix + Coded(s.bits + Ones(7)) + [0xFF, 0xD0 + p.nextRestartNum],
                       BlocksBits(cfg, tables, McuBlocks(cfg, mcu, ZeroDc(cfg), 0)))
    ensures Advance(cfg, p, mcu)
            == Progress(DcAfter(cfg, mcu, ZeroDc(cfg), 0), cfg.restartInterval - 1, (p.nextRestartNum + 1) % 8)
  {
    McuBlocksGood(cfg, mcu, ZeroDc(cfg), 0);
  }

  /** An interval is completed by padding, and its marker follows. */
  lemma IntervalEnds(cfg: ScanConfig, tables: Tables, base: seq<byte>, mcus: seq<Mcu>, n: nat, q: nat)
    requires cfg.Valid() && Ready(cfg, tables) && FitAll(cfg, mcus) && n * q + n == |mcus| && n * (q + 1) == |mcus|
    ensures (base + Intervals(cfg, tables, mcus, n, q)) + Coded(IntervalBits(cfg, tables, mcus[n * q..]) + Ones(7))
            + [0xFF, 0xD0 + q % 8] == base + Intervals(cfg, tables, mcus, n, q + 1)
  {
    hide Coded, IntervalBits;
    MulStep(n, q + 1);
    SevenOnes();
    assert mcus[n * q..] == mcus[n * q..n * (q + 1)];
    AssocFour(base, Intervals(cfg, tables, mcus, n, q), IntervalBytes(cfg, tables, mcus[n * q..]),
              [0xFF, 0xD0 + q % 8]);
    Assoc(Intervals(cfg, tables, mcus, n, q), IntervalBytes(cfg, tables, mcus[n * q..]), [0xFF, 0xD0 + q % 8]);
  }

  lemma SevenOnes()
    ensures Ones(7) == [true, true, true, true, true, true, true]
  {
  }

  /** A restart comes exactly after each complete interval, and its markers count from 0 to 7 over and over. */
  lemma RestartsAre(cfg: ScanConfig, tables: Tables, mcus: seq<Mcu>)
    requires cfg.Valid() && Ready(cfg, tables) && FitAll(cfg, mcus) && cfg.restartInterval > 0
    ensures var n, p := cfg.restartInterval, ProgressAfter(cfg, mcus);
            && (AtRestart(cfg, p) <==> |mcus| > 0 && |mcus| % n == 0)
            && (AtRestart(cfg, p) ==> p.nextRestartNum == (|mcus| / n - 1) % 8)
  {
    hide Stream, IntervalBits, Intervals, DcThrough, Complete, FitsScan, Ready;
    if mcus != [] {
      LayoutHolds(cfg, tables, [], mcus);
      RestartNumber(|mcus|, cfg.restartInterval);
    }
  }

  lemma RestartNumber(k: nat, n: nat)
    requires k > 0 && n > 0
    ensures var q := Complete(k, n);
            (n * q + n - k == 0 <==> k % n == 0) && (k % n == 0 ==> q == k / n - 1)
  {
    var q := Complete(k, n);
    if k == n * q + n {
      DivModUnique(k, n, q + 1, 0);
    } else {
      DivModUnique(k, n, q, k - n * q);
    }
  }

  /** A finished scan with restarts: after what was there before, interval by interval, with the markers in between. */
  lemma FinishedLayout(cfg: ScanConfig, tables: Tables, base: seq<byte>, mcus: seq<Mcu>)
    requires cfg.Valid() && Ready(cfg, tables) && FitAll(cfg, mcus) && cfg.restartInterval > 0 && mcus != []
    ensures var n, q := cfg.restartInterval, Complete(|mcus|, cfg.restartInterval);
            Finished(Stream(cfg, tables, base, mcus))
            == base + Intervals(cfg, tables, mcus, n, q) + IntervalBytes(cfg, tables, mcus[n * q..])
  {
    hide Stream, IntervalBits, Intervals, Coded;
    LayoutHolds(cfg, tables, base, mcus);
    SevenOnes();
  }

  lemma {:induction false} IntervalsGrow(cfg: ScanConfig, tables: Tables, mcus: seq<Mcu>, n: nat, m: nat, q: nat)
    requires cfg.Valid() && Ready(cfg, tables) && FitAll(cfg, mcus) && m <= q && n * m <= n * q <= |mcus|
    ensures Intervals(cfg, tables, mcus, n, m) <= Intervals(cfg, tables, mcus, n, q)
    decreases q - m
  {
    hide IntervalBytes;
    if m < q {
      MulStep(n, q);
      MulLe(m, q - 1, n);
      IntervalsGrow(cfg, tables, mcus, n, m, q - 1);
    }
  }

  /** The marker before MCU number from + n, which begins interval m + 1 of a finished scan, is RST0 to RST7 in turn. */
  lemma MarkerIs(cfg: ScanConfig, tables: Tables, base: seq<byte>, mcus: seq<Mcu>, n: nat, m: nat, from: nat)
    requires cfg.Valid() && Ready(cfg, tables) && FitAll(cfg, mcus) && n > 0 && n == cfg.restartInterval
    requires from == n * m && from + n < |mcus|
    ensures var f := Finished(Stream(cfg, tables, base, mcus));
            var at := |base + Intervals(cfg, tables, mcus, n, m) + IntervalBytes(cfg, tables, mcus[from..from + n])|;
            at + 2 <= |f| && f[at] == 0xFF && f[at + 1] == 0xD0 + m % 8
  {
    hide IntervalBytes, Stream, Finished, Complete;
    var q := Complete(|mcus|, n);
    FinishedLayout(cfg, tables, base, mcus);
    MulStep(n, m + 1);
    if q < m + 1 {
      MulLe(q, m, n);
    }
    MulLe(m + 1, q, n);
    IntervalsGrow(cfg, tables, mcus, n, m + 1, q);
    var before, mine := base + Intervals(cfg, tables, mcus, n, m), IntervalBytes(cfg, tables, mcus[from..from + n]);
    var f := Finished(Stream(cfg, tables, base, mcus));
    assert base + Intervals(cfg, tables, mcus, n, m + 1) == before + mine + [0xFF, 0xD0 + m % 8];
    assert before + mine + [0xFF, 0xD0 + m % 8] <= f;
  }

  /** Without restarts the whole scan is one interval. */
  lemma {:induction false} PlainLayout(cfg: ScanConfig, tables: Tables, base: seq<byte>, mcus: seq<Mcu>)
    requires cfg.Valid() && Ready(cfg, tables) && FitAll(cfg, mcus) && cfg.restartInterval == 0
    ensures Stream(cfg, tables, base, mcus) == Segment(base, IntervalBits(cfg, tables, mcus))
    ensures ProgressAfter(cfg, mcus).lastDc == DcThrough(cfg, mcus)
    ensures Finished(Stream(cfg, tables, base, mcus)) == base + IntervalBytes(cfg, tables, mcus)
  {
    hide BlocksBits, McuBlocks, DcAfter, Ready, Coded;
    SevenOnes();
    if mcus != [] {
      PlainLayout(cfg, tables, base, mcus[..|mcus| - 1]);
    }
  }
}
