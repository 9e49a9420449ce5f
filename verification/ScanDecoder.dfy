/** Decoding a whole scan: marker search, restart intervals, MCUs and blocks (section F.2 of T.81),
    and the proof that it reads back every scan the encoder writes. */
module ScanDecoder {
  import opened Sequences
  import opened BitStrings
  import opened BytePacking
  import opened CanonicalCode
  import opened BlockCoding
  import opened ScanCoding
  import opened HuffEncoder

  // ---------- the decoder ----------

  /** Where the entropy-coded segment that starts at i ends: at an 0xFF that no zero byte follows. */
  function SegmentEnd(b: seq<byte>, i: nat): (e: nat)
    requires i <= |b|
    ensures i <= e <= |b|
    decreases |b| - i
  {
    if i == |b| then i
    else if b[i] != 0xFF then SegmentEnd(b, i + 1)
    else if i + 1 < |b| && b[i + 1] == 0 then SegmentEnd(b, i + 2)
    else i
  }

  /** The unread bits of the current restart interval, and the bytes after it. */
  datatype Reader = Reader(bits: Bits, rest: seq<byte>)

  function Open(b: seq<byte>): Reader {
    var e := SegmentEnd(b, 0);
    Reader(Unpack(Unstuff(b[..e])), b[e..])
  }

  /** Skip the marker RSTm, which must come next. */
  function TakeRestart(r: Reader, num: nat): Option<Reader> {
    if |r.rest| >= 2 && r.rest[0] == 0xFF && r.rest[1] == 0xD0 + num then Some(Open(r.rest[2..])) else None
  }

  datatype McuRead = McuRead(blocks: seq<seq<int>>, dc: seq<int>, rest: Bits)

  /** Blocks b and after of an MCU, in zigzag order. */
  ghost function DecodeBlocks(cfg: ScanConfig, tables: Tables, bits: Bits, dc: seq<int>, b: nat): Option<McuRead>
    requires cfg.Valid() && Ready(cfg, tables) && |dc| == |cfg.dcTbl| && b <= |cfg.membership|
    decreases |cfg.membership| - b
  {
    if b == |cfg.membership| then Some(McuRead([], dc, bits)) else
      var ci := cfg.membership[b];
      match DecodeBlock(tables[cfg.DcSlot(ci)], tables[cfg.AcSlot(ci)], bits, dc[ci])
      case None => None
      case Some(d) =>
        if |d.value| == 0 then None else
          match DecodeBlocks(cfg, tables, d.rest, dc[ci := d.value[0]], b + 1)
          case None => None
          case Some(m) => Some(m.(blocks := [d.value] + m.blocks))
  }

  /** The reader at the start of the next MCU. */
  function AtMcu(cfg: ScanConfig, r: Reader, p: Progress): Option<Reader> {
    if AtRestart(cfg, p) then TakeRestart(r, p.nextRestartNum) else Some(r)
  }

  /** The next n MCUs. */
  ghost function DecodeMcus(cfg: ScanConfig, tables: Tables, r: Reader, p: Progress, n: nat): Option<seq<seq<seq<int>>>>
    requires cfg.Valid() && Ready(cfg, tables) && |p.lastDc| == |cfg.dcTbl|
    decreases n
  {
    if n == 0 then Some([]) else
      match AtMcu(cfg, r, p)
      case None => None
      case Some(r1) =>
        match DecodeBlocks(cfg, tables, r1.bits, StartDc(cfg, p), 0)
        case None => None
        case Some(m) =>
          if |m.dc| != |cfg.dcTbl| then None else
            match DecodeMcus(cfg, tables, Reader(m.rest, r1.rest), Moved(cfg, p, m.dc), n - 1)
            case None => None
            case Some(ms) => Some([m.blocks] + ms)
  }

  /** A scan of n MCUs. */
  ghost function DecodeScan(cfg: ScanConfig, tables: Tables, b: seq<byte>, n: nat): Option<seq<seq<seq<int>>>>
    requires cfg.Valid() && Ready(cfg, tables)
  {
    DecodeMcus(cfg, tables, Open(b), Initial(cfg), n)
  }

  // ---------- segments ----------

  /** Coded data has no marker in it, so the segment ends where it was made to end. */
  lemma {:induction false} SegmentEndsAt(b: seq<byte>, rest: seq<byte>, done: seq<byte>)
    requires rest == [] || (|rest| >= 2 && rest[0] == 0xFF && rest[1] != 0)
    ensures SegmentEnd(done + Stuff(b) + rest, |done|) == |done + Stuff(b)|
    decreases b
  {
    var all := done + Stuff(b) + rest;
    if b != [] {
      var more := done + StuffByte(b[0]);
      assert more + Stuff(b[1..]) == done + Stuff(b);
      SegmentEndsAt(b[1..], rest, more);
      assert all[|done|] == b[0];
      if b[0] == 0xFF {
        assert all[|done| + 1] == 0;
      }
    } else {
      assert all == done + rest;
      if rest != [] {
        assert all[|done|] == rest[0] && all[|done| + 1] == rest[1];
      }
    }
  }

  /** The ones that complete the last byte of an interval. */
  function Padding(n: nat): Bits {
    Ones((8 - n % 8) % 8)
  }

  /** Opening a padded interval gives back its bits, with at most seven ones after them. */
  lemma OpenInterval(s: Bits, rest: seq<byte>)
    requires rest == [] || (|rest| >= 2 && rest[0] == 0xFF && rest[1] != 0)
    ensures Open(Coded(s + Ones(7)) + rest) == Reader(s + Padding(|s|), rest)
  {
    var b := Pack(s + Ones(7));
    assert [] + Stuff(b) + rest == Stuff(b) + rest;
    SegmentEndsAt(b, rest, []);
    UnstuffStuff(b);
    PadToByte(s, (8 - |s| % 8) % 8);
    assert (Stuff(b) + rest)[..|Stuff(b)|] == Stuff(b);
    assert (Stuff(b) + rest)[|Stuff(b)|..] == rest;
  }

  // ---------- what the encoder writes, from the front ----------

  ghost function McuBits(cfg: ScanConfig, tables: Tables, p: Progress, mcu: Mcu): Bits
    requires cfg.Valid() && Ready(cfg, tables) && GoodProgress(cfg, p) && FitsScan(cfg, mcu)
  {
    McuBlocksGood(cfg, mcu, StartDc(cfg, p), 0);
    BlocksBits(cfg, tables, McuBlocks(cfg, mcu, StartDc(cfg, p), 0))
  }

  /** The bits of the MCUs up to the next restart. */
  ghost function Ahead(cfg: ScanConfig, tables: Tables, p: Progress, mcus: seq<Mcu>): Bits
    requires cfg.Valid() && Ready(cfg, tables) && GoodProgress(cfg, p) && FitAll(cfg, mcus)
    decreases mcus
  {
    if mcus == [] || AtRestart(cfg, p) then []
    else McuBits(cfg, tables, p, mcus[0]) + Ahead(cfg, tables, Advance(cfg, p, mcus[0]), mcus[1..])
  }

  /** The bytes from the next restart marker on. */
  ghost function Beyond(cfg: ScanConfig, tables: Tables, p: Progress, mcus: seq<Mcu>): seq<byte>
    requires cfg.Valid() && Ready(cfg, tables) && GoodProgress(cfg, p) && FitAll(cfg, mcus)
    decreases mcus
  {
    if mcus == [] then [] else
      var next := Advance(cfg, p, mcus[0]);
      var after := Beyond(cfg, tables, next, mcus[1..]);
      if AtRestart(cfg, p) then
        [0xFF, 0xD0 + p.nextRestartNum]
        + (Coded(McuBits(cfg, tables, p, mcus[0]) + Ahead(cfg, tables, next, mcus[1..]) + Ones(7)) + after)
      else after
  }

  /** The bytes of a finished scan. */
  ghost function Finished(s: Segment): seq<byte> {
    s.prefix + Coded(s.bits + Ones(7))
  }

  lemma {:induction false} BeyondStart(cfg: ScanConfig, tables: Tables, p: Progress, mcus: seq<Mcu>)
    requires cfg.Valid() && Ready(cfg, tables) && GoodProgress(cfg, p) && FitAll(cfg, mcus)
    ensures var r := Beyond(cfg, tables, p, mcus); r == [] || (|r| >= 2 && r[0] == 0xFF && r[1] != 0)
    decreases mcus
  {
    if mcus != [] && !AtRestart(cfg, p) {
      BeyondStart(cfg, tables, Advance(cfg, p, mcus[0]), mcus[1..]);
    }
  }

  /** The finished scan, when these MCUs are still to come. */
  ghost function FinishedWith(cfg: ScanConfig, tables: Tables, p: Progress, s: Segment, mcus: seq<Mcu>): seq<byte>
    requires cfg.Valid() && Ready(cfg, tables) && GoodProgress(cfg, p) && FitAll(cfg, mcus)
  {
    Finished(Segment(s.prefix, s.bits + Ahead(cfg, tables, p, mcus))) + Beyond(cfg, tables, p, mcus)
  }

  /** The next MCU, when a restart comes first. */
  lemma RestartStep(cfg: ScanConfig, tables: Tables, p: Progress, s: Segment, mcus: seq<Mcu>, next: Segment)
    requires cfg.Valid() && Ready(cfg, tables) && GoodProgress(cfg, p) && FitAll(cfg, mcus) && mcus != []
    requires AtRestart(cfg, p)
    requires next == Segment(Finished(s) + [0xFF, 0xD0 + p.nextRestartNum], McuBits(cfg, tables, p, mcus[0]))
    ensures FinishedWith(cfg, tables, p, s, mcus)
            == FinishedWith(cfg, tables, Advance(cfg, p, mcus[0]), next, mcus[1..])
  {
    hide McuBits, Coded, Advance, ScanConfig.Valid;
    var q := Advance(cfg, p, mcus[0]);
    var m, a := McuBits(cfg, tables, p, mcus[0]), Ahead(cfg, tables, q, mcus[1..]);
    assert Ahead(cfg, tables, p, mcus) == [] && s.bits + [] == s.bits;
    AssocFour(Finished(s), [0xFF, 0xD0 + p.nextRestartNum], Coded(m + a + Ones(7)), Beyond(cfg, tables, q, mcus[1..]));
  }

  /** The next MCU, in the same interval. */
  lemma PlainStep(cfg: ScanConfig, tables: Tables, p: Progress, s: Segment, mcus: seq<Mcu>, next: Segment)
    requires cfg.Valid() && Ready(cfg, tables) && GoodProgress(cfg, p) && FitAll(cfg, mcus) && mcus != []
    requires !AtRestart(cfg, p) && next == Segment(s.prefix, s.bits + McuBits(cfg, tables, p, mcus[0]))
    ensures FinishedWith(cfg, tables, p, s, mcus)
            == FinishedWith(cfg, tables, Advance(cfg, p, mcus[0]), next, mcus[1..])
  {
    Assoc(s.bits, McuBits(cfg, tables, p, mcus[0]), Ahead(cfg, tables, Advance(cfg, p, mcus[0]), mcus[1..]));
  }

  lemma FrontStep(cfg: ScanConfig, tables: Tables, p: Progress, s: Segment, mcus: seq<Mcu>, next: Segment)
    requires cfg.Valid() && Ready(cfg, tables) && GoodProgress(cfg, p) && FitAll(cfg, mcus) && mcus != []
    requires next == NextStream(cfg, tables, p, s, mcus[0])
    ensures FinishedWith(cfg, tables, p, s, mcus)
            == FinishedWith(cfg, tables, Advance(cfg, p, mcus[0]), next, mcus[1..])
  {
    var m := McuBits(cfg, tables, p, mcus[0]);
    if AtRestart(cfg, p) {
      assert [] + m == m;
      RestartStep(cfg, tables, p, s, mcus, next);
    } else {
      PlainStep(cfg, tables, p, s, mcus, next);
    }
  }

  lemma MoveOne<T>(a: seq<T>, b: seq<T>)
    requires b != []
    ensures (a + [b[0]]) + b[1..] == a + b
  {
  }

  /** The finished scan, seen from MCU |a| on. */
  lemma {:induction false} FrontView(cfg: ScanConfig, tables: Tables, base: seq<byte>, a: seq<Mcu>, b: seq<Mcu>)
    requires cfg.Valid() && Ready(cfg, tables) && FitAll(cfg, a) && FitAll(cfg, b)
    ensures FitAll(cfg, a + b)
    ensures Finished(Stream(cfg, tables, base, a + b))
            == FinishedWith(cfg, tables, ProgressAfter(cfg, a), Stream(cfg, tables, base, a), b)
    decreases b
  {
    if b == [] {
      assert a + b == a;
      NothingToCome(cfg, tables, ProgressAfter(cfg, a), Stream(cfg, tables, base, a));
    } else {
      var c := a + [b[0]];
      MoveOne(a, b);
      OneMore(cfg, tables, base, a, b[0]);
      FrontView(cfg, tables, base, c, b[1..]);
      FrontStep(cfg, tables, ProgressAfter(cfg, a), Stream(cfg, tables, base, a), b, Stream(cfg, tables, base, c));
    }
  }

  lemma NothingToCome(cfg: ScanConfig, tables: Tables, p: Progress, s: Segment)
    requires cfg.Valid() && Ready(cfg, tables) && GoodProgress(cfg, p)
    ensures FinishedWith(cfg, tables, p, s, []) == Finished(s)
  {
    assert s.bits + [] == s.bits;
  }

  // ---------- reading it back ----------

  function ZigzagFrom(cfg: ScanConfig, mcu: Mcu, b: nat): seq<seq<int>>
    requires |cfg.order| == 64 && (forall k :: 0 <= k < 64 ==> cfg.order[k] < 64) && b <= |mcu|
    decreases |mcu| - b
  {
    if b == |mcu| then [] else [Zigzag(cfg.order, mcu[b])] + ZigzagFrom(cfg, mcu, b + 1)
  }

  ghost predicate SafeTables(cfg: ScanConfig, tables: Tables)
    requires cfg.Valid()
  {
    Ready(cfg, tables)
    && forall c :: 0 <= c < |cfg.dcTbl| ==> tables[cfg.DcSlot(c)].PrefixFree() && tables[cfg.AcSlot(c)].PrefixFree()
  }

  /** The blocks of an MCU decode to themselves, whatever follows. */
  lemma {:induction false} BlocksRoundTrip(cfg: ScanConfig, tables: Tables, mcu: Mcu, dc: seq<int>, b: nat, rest: Bits)
    requires cfg.Valid() && SafeTables(cfg, tables) && FitsScan(cfg, mcu) && |dc| == |cfg.dcTbl| && b <= |mcu|
    requires GoodBlocks(cfg, McuBlocks(cfg, mcu, dc, b)) && BlocksEncodable(cfg, tables, McuBlocks(cfg, mcu, dc, b))
    ensures DecodeBlocks(cfg, tables, BlocksBits(cfg, tables, McuBlocks(cfg, mcu, dc, b)) + rest, dc, b)
            == Some(McuRead(ZigzagFrom(cfg, mcu, b), DcAfter(cfg, mcu, dc, b), rest))
    decreases |mcu| - b
  {
    if b == |mcu| {
      assert [] + rest == rest;
    } else {
      var ci := cfg.membership[b];
      var dc' := dc[ci := mcu[b][0]];
      var blk, bs := CodedBlock(ci, BlockTokens(Zigzag(cfg.order, mcu[b]), dc[ci])), McuBlocks(cfg, mcu, dc', b + 1);
      McuBlocksGood(cfg, mcu, dc', b + 1);
      FirstBlock(cfg, tables, blk, bs);
      BlocksRoundTrip(cfg, tables, mcu, dc', b + 1, rest);
      FirstBlockRead(cfg, tables, mcu, dc, b, BlocksBits(cfg, tables, bs) + rest,
                     McuRead(ZigzagFrom(cfg, mcu, b + 1), DcAfter(cfg, mcu, dc', b + 1), rest));
      Assoc(BitsOf(blk.tokens, tables[cfg.DcSlot(ci)], tables[cfg.AcSlot(ci)]), BlocksBits(cfg, tables, bs), rest);
    }
  }

  /** Reading one block, and then the others. */
  lemma FirstBlockRead(cfg: ScanConfig, tables: Tables, mcu: Mcu, dc: seq<int>, b: nat, tail: Bits, m: McuRead)
    requires cfg.Valid() && SafeTables(cfg, tables) && FitsScan(cfg, mcu) && |dc| == |cfg.dcTbl| && b < |mcu|
    requires var ci := cfg.membership[b];
             && AllEncodable(BlockTokens(Zigzag(cfg.order, mcu[b]), dc[ci]), tables[cfg.DcSlot(ci)],
                             tables[cfg.AcSlot(ci)])
             && DecodeBlocks(cfg, tables, tail, dc[ci := mcu[b][0]], b + 1) == Some(m)
    ensures var ci := cfg.membership[b];
            var sent := BitsOf(BlockTokens(Zigzag(cfg.order, mcu[b]), dc[ci]), tables[cfg.DcSlot(ci)],
                               tables[cfg.AcSlot(ci)]);
            DecodeBlocks(cfg, tables, sent + tail, dc, b) == Some(m.(blocks := [Zigzag(cfg.order, mcu[b])] + m.blocks))
  {
    var ci := cfg.membership[b];
    BlockRoundTrip(Zigzag(cfg.order, mcu[b]), dc[ci], tables[cfg.DcSlot(ci)], tables[cfg.AcSlot(ci)], tail);
  }

  ghost predicate AllMcusEncodable(cfg: ScanConfig, tables: Tables, p: Progress, mcus: seq<Mcu>)
    requires cfg.Valid() && Ready(cfg, tables) && GoodProgress(cfg, p) && FitAll(cfg, mcus)
    decreases mcus
  {
    mcus != [] ==>
      McuEncodable(cfg, tables, p, mcus[0]) && AllMcusEncodable(cfg, tables, Advance(cfg, p, mcus[0]), mcus[1..])
  }

  function ZigzagAll(cfg: ScanConfig, mcus: seq<Mcu>): (z: seq<seq<seq<int>>>)
    requires |cfg.order| == 64 && forall k :: 0 <= k < 64 ==> cfg.order[k] < 64
    ensures |z| == |mcus|
  {
    if mcus == [] then [] else [ZigzagFrom(cfg, mcus[0], 0)] + ZigzagAll(cfg, mcus[1..])
  }

  /** The reader has exactly these MCUs in front of it. */
  ghost predicate Facing(cfg: ScanConfig, tables: Tables, p: Progress, mcus: seq<Mcu>, r: Reader)
    requires cfg.Valid() && Ready(cfg, tables) && GoodProgress(cfg, p) && FitAll(cfg, mcus)
  {
    Ahead(cfg, tables, p, mcus) <= r.bits && r.rest == Beyond(cfg, tables, p, mcus)
  }

  /** The reader passes a restart marker, if one is due, and reaches the bits of the next MCU. */
  lemma ReachMcu(cfg: ScanConfig, tables: Tables, p: Progress, mcus: seq<Mcu>, r: Reader)
      returns (r1: Reader, pad: Bits)
    requires cfg.Valid() && Ready(cfg, tables) && GoodProgress(cfg, p) && FitAll(cfg, mcus) && mcus != []
    requires Facing(cfg, tables, p, mcus, r)
    ensures AtMcu(cfg, r, p) == Some(r1)
    ensures var q := Advance(cfg, p, mcus[0]);
            && r1.bits == McuBits(cfg, tables, p, mcus[0]) + (Ahead(cfg, tables, q, mcus[1..]) + pad)
            && r1.rest == Beyond(cfg, tables, q, mcus[1..])
  {
    hide Coded, McuBits, Advance, SegmentEnd, Unpack, Unstuff;
    var q := Advance(cfg, p, mcus[0]);
    var m, a := McuBits(cfg, tables, p, mcus[0]), Ahead(cfg, tables, q, mcus[1..]);
    var after := Beyond(cfg, tables, q, mcus[1..]);
    if AtRestart(cfg, p) {
      BeyondStart(cfg, tables, q, mcus[1..]);
      OpenInterval(m + a, after);
      pad := Padding(|m + a|);
      r1 := Reader(m + a + pad, after);
      assert r.rest[2..] == Coded(m + a + Ones(7)) + after;
    } else {
      r1 := r;
      pad := r.bits[|m + a|..];
      assert r.bits == (m + a) + pad;
    }
    Assoc(m, a, pad);
  }

  lemma {:induction false} McusRoundTrip(cfg: ScanConfig, tables: Tables, p: Progress, mcus: seq<Mcu>, r: Reader)
    requires cfg.Valid() && SafeTables(cfg, tables) && GoodProgress(cfg, p) && FitAll(cfg, mcus)
    requires AllMcusEncodable(cfg, tables, p, mcus) && Facing(cfg, tables, p, mcus, r)
    ensures DecodeMcus(cfg, tables, r, p, |mcus|) == Some(ZigzagAll(cfg, mcus))
    decreases mcus
  {
    hide McuBlocks, Ahead, Beyond, DcAfter, BlocksBits, DecodeBlocks, AtMcu, Moved, BlocksEncodable;
    if mcus != [] {
      var q := Advance(cfg, p, mcus[0]);
      var r1, pad := ReachMcu(cfg, tables, p, mcus, r);
      var tail := Ahead(cfg, tables, q, mcus[1..]) + pad;
      McuBlocksGood(cfg, mcus[0], StartDc(cfg, p), 0);
      BlocksRoundTrip(cfg, tables, mcus[0], StartDc(cfg, p), 0, tail);
      McusRoundTrip(cfg, tables, q, mcus[1..], Reader(tail, r1.rest));
    }
  }

  /** What a finished scan adds to the stream: its first interval, then everything from the first
      restart marker on. */
  lemma FinishedScan(cfg: ScanConfig, tables: Tables, base: seq<byte>, mcus: seq<Mcu>)
    requires cfg.Valid() && Ready(cfg, tables) && FitAll(cfg, mcus)
    ensures var p := Initial(cfg);
            Finished(Stream(cfg, tables, base, mcus))
            == base + (Coded(Ahead(cfg, tables, p, mcus) + Ones(7)) + Beyond(cfg, tables, p, mcus))
  {
    var p := Initial(cfg);
    var a, after := Ahead(cfg, tables, p, mcus), Beyond(cfg, tables, p, mcus);
    FrontView(cfg, tables, base, [], mcus);
    assert [] + mcus == mcus;
    assert [] + a == a;
    Assoc(base, Coded(a + Ones(7)), after);
  }

  lemma ReadFromFront(cfg: ScanConfig, tables: Tables, mcus: seq<Mcu>)
    requires cfg.Valid() && SafeTables(cfg, tables) && FitAll(cfg, mcus)
    requires AllMcusEncodable(cfg, tables, Initial(cfg), mcus)
    ensures var p := Initial(cfg);
            DecodeScan(cfg, tables, Coded(Ahead(cfg, tables, p, mcus) + Ones(7)) + Beyond(cfg, tables, p, mcus), |mcus|)
            == Some(ZigzagAll(cfg, mcus))
  {
    var p := Initial(cfg);
    var a, after := Ahead(cfg, tables, p, mcus), Beyond(cfg, tables, p, mcus);
    BeyondStart(cfg, tables, p, mcus);
    OpenInterval(a, after);
    McusRoundTrip(cfg, tables, p, mcus, Reader(a + Padding(|a|), after));
  }

  /** Every finished scan decodes to the MCUs that were encoded: restart markers, stuffed bytes,
      padding and DC prediction included. */
  lemma ScanRoundTrip(cfg: ScanConfig, tables: Tables, base: seq<byte>, mcus: seq<Mcu>)
    requires cfg.Valid() && SafeTables(cfg, tables) && FitAll(cfg, mcus)
    requires AllMcusEncodable(cfg, tables, Initial(cfg), mcus)
    ensures var done := Finished(Stream(cfg, tables, base, mcus));
            base <= done && DecodeScan(cfg, tables, done[|base|..], |mcus|) == Some(ZigzagAll(cfg, mcus))
  {
    FinishedScan(cfg, tables, base, mcus);
    ReadFromFront(cfg, tables, mcus);
  }

  /** So no two scans of the same length are written alike. */
  lemma ScanDeterminesMcus(cfg: ScanConfig, tables: Tables, base: seq<byte>, a: seq<Mcu>, b: seq<Mcu>)
    requires cfg.Valid() && SafeTables(cfg, tables) && FitAll(cfg, a) && FitAll(cfg, b) && |a| == |b|
    requires AllMcusEncodable(cfg, tables, Initial(cfg), a) && AllMcusEncodable(cfg, tables, Initial(cfg), b)
    requires Finished(Stream(cfg, tables, base, a)) == Finished(Stream(cfg, tables, base, b))
    ensures a == b
  {
    ScanRoundTrip(cfg, tables, base, a);
    ScanRoundTrip(cfg, tables, base, b);
    ZigzagAllDetermines(cfg, a, b);
  }

  lemma {:induction false} EncodableFrom(cfg: ScanConfig, tables: Tables, a: seq<Mcu>, b: seq<Mcu>)
    requires cfg.Valid() && Ready(cfg, tables) && FitAll(cfg, a) && FitAll(cfg, b)
    requires FitAll(cfg, a + b) && EncodableInTurn(cfg, tables, a + b)
    ensures AllMcusEncodable(cfg, tables, ProgressAfter(cfg, a), b)
    decreases b
  {
    hide McuEncodable, ProgressAfter, Ready, ScanConfig.Valid;
    if b != [] {
      assert McuEncodable(cfg, tables, ProgressAfter(cfg, (a + b)[..|a|]), (a + b)[|a|]);
      assert (a + b)[..|a|] == a;
      MoveOne(a, b);
      OneMore(cfg, tables, [], a, b[0]);
      EncodableFrom(cfg, tables, a + [b[0]], b[1..]);
    }
  }

  /** Whatever an encoder has accepted can be read back once the pass is finished. */
  lemma EncoderOutputDecodes(e: HuffEntropyEncoder)
    requires e.Valid() && SafeTables(e.cfg, e.tables)
    ensures var done := Finished(e.State());
            e.base <= done && DecodeScan(e.cfg, e.tables, done[|e.base|..], |e.accepted|)
                == Some(ZigzagAll(e.cfg, e.accepted))
  {
    assert [] + e.accepted == e.accepted;
    EncodableFrom(e.cfg, e.tables, [], e.accepted);
    ScanRoundTrip(e.cfg, e.tables, e.base, e.accepted);
  }

  lemma {:induction false} ZigzagFromDetermines(cfg: ScanConfig, a: Mcu, b: Mcu, k: nat)
    requires cfg.Valid() && |a| == |b| && k <= |a| && ZigzagFrom(cfg, a, k) == ZigzagFrom(cfg, b, k)
    ensures a[k..] == b[k..]
    decreases |a| - k
  {
    if k < |a| {
      var x, y := ZigzagFrom(cfg, a, k), ZigzagFrom(cfg, b, k);
      assert x[0] == Zigzag(cfg.order, a[k]) && y[0] == Zigzag(cfg.order, b[k]);
      assert x[1..] == ZigzagFrom(cfg, a, k + 1) && y[1..] == ZigzagFrom(cfg, b, k + 1);
      ZigzagDetermines(cfg.order, a[k], b[k]);
      ZigzagFromDetermines(cfg, a, b, k + 1);
    }
  }

  lemma {:induction false} ZigzagAllDetermines(cfg: ScanConfig, a: seq<Mcu>, b: seq<Mcu>)
    requires cfg.Valid() && FitAll(cfg, a) && FitAll(cfg, b) && |a| == |b| && ZigzagAll(cfg, a) == ZigzagAll(cfg, b)
    ensures a == b
  {
    if a != [] {
      var x, y := ZigzagAll(cfg, a), ZigzagAll(cfg, b);
      assert x[0] == y[0] && x[1..] == ZigzagAll(cfg, a[1..]) && y[1..] == ZigzagAll(cfg, b[1..]);
      ZigzagFromDetermines(cfg, a[0], b[0], 0);
      ZigzagAllDetermines(cfg, a[1..], b[1..]);
    }
  }
}
