/** The Huffman entropy encoder object: one MCU at a time, committed completely or not at all. */
module HuffEncoder {
  import opened Sequences
  import opened Powers
  import opened BitStrings
  import opened BytePacking
  import opened BitWriter
  import opened BlockCoding
  import opened BlockEncoder
  import opened ScanCoding

  /** Emit one byte that is not coded data, at a byte boundary. */
  method EmitRawByte(ws: WorkingState, val: byte) returns (ok: bool)
    requires ws.Valid() && ws.bits == []
    modifies ws`nextOutputByte, ws`freeInBuffer, ws`prefix, ws.dest, ws.dest.buffer
    ensures ws.Safe()
    ensures ws.dest.suspends ==> ws.dest.flushed == old(ws.dest.flushed)
    ensures ok ==> ws.Valid() && ws.prefix == old(ws.prefix) + [val]
    ensures ok <==> ws.Fits(|old(ws.prefix)| + 1)
  {
    assert Coded([]) == [];
    ok := ws.EmitByte(val);
    if ok {
      ws.prefix := ws.prefix + [val];
    }
  }

  /** emit_restart: pad the interval, write the marker, clear the predictors. */
  method EmitRestart(ws: WorkingState, restartNum: nat) returns (ok: bool)
    requires ws.Valid() && restartNum < 8
    modifies ws, ws.dest, ws.dest.buffer
    ensures ws.Safe()
    ensures ws.dest.suspends ==> ws.dest.flushed == old(ws.dest.flushed)
    ensures ok ==> ws.Valid()
    ensures ok ==> Segment(ws.prefix, ws.bits) == Restarted(Segment(old(ws.prefix), old(ws.bits)), restartNum)
    ensures ok ==> ws.lastDcVal == seq(|old(ws.lastDcVal)|, _ => 0)
    ensures !ok ==> !ws.Fits(|Restarted(Segment(old(ws.prefix), old(ws.bits)), restartNum).prefix|)
  {
    ok := ws.FlushBits();
    if ok {
      ok := EmitRawByte(ws, 0xFF);
    }
    if ok {
      ok := EmitRawByte(ws, 0xD0 + restartNum);
    }
    if ok {
      ghost var n := |ws.lastDcVal|;
      ws.lastDcVal := seq(|ws.lastDcVal|, _ => 0);
    }
  }

  /** Blocks blkn and after are what separates the bits sent so far from the goal. */
  ghost predicate Remaining(cfg: ScanConfig, tables: Tables, mcu: Mcu, dc: seq<int>, blkn: nat, sent: Bits, goal: Bits,
                            ok: bool)
    requires cfg.Valid() && Ready(cfg, tables) && FitsScan(cfg, mcu) && |dc| == |cfg.dcTbl| && blkn <= |mcu|
  {
    var bs := McuBlocks(cfg, mcu, dc, blkn);
    GoodBlocks(cfg, bs) && sent + BlocksBits(cfg, tables, bs) == goal && (ok <==> BlocksEncodable(cfg, tables, bs))
  }

  lemma NothingRemains(cfg: ScanConfig, tables: Tables, mcu: Mcu, dc: seq<int>, sent: Bits, goal: Bits, ok: bool)
    requires cfg.Valid() && Ready(cfg, tables) && FitsScan(cfg, mcu) && |dc| == |cfg.dcTbl|
    requires Remaining(cfg, tables, mcu, dc, |mcu|, sent, goal, ok)
    ensures sent == goal && ok
  {
    assert sent + [] == sent;
  }

  /** Sending one more block. */
  lemma RemainingStep(cfg: ScanConfig, tables: Tables, mcu: Mcu, dc: seq<int>, blkn: nat, sent: Bits, goal: Bits,
                      ok: bool)
    requires cfg.Valid() && Ready(cfg, tables) && FitsScan(cfg, mcu) && |dc| == |cfg.dcTbl| && blkn < |mcu|
    requires Remaining(cfg, tables, mcu, dc, blkn, sent, goal, ok)
    ensures var ci := cfg.membership[blkn];
            var ts := BlockTokens(Zigzag(cfg.order, mcu[blkn]), dc[ci]);
            var dctbl, actbl := tables[cfg.DcSlot(ci)], tables[cfg.AcSlot(ci)];
            && sent + BitsOf(ts, dctbl, actbl) <= goal
            && (!AllEncodable(ts, dctbl, actbl) ==> !ok)
            && (AllEncodable(ts, dctbl, actbl) ==>
                  Remaining(cfg, tables, mcu, dc[ci := mcu[blkn][0]], blkn + 1, sent + BitsOf(ts, dctbl, actbl), goal,
                            ok))
  {
    var ci := cfg.membership[blkn];
    var b := CodedBlock(ci, BlockTokens(Zigzag(cfg.order, mcu[blkn]), dc[ci]));
    var bs := McuBlocks(cfg, mcu, dc[ci := mcu[blkn][0]], blkn + 1);
    McuBlocksGood(cfg, mcu, dc[ci := mcu[blkn][0]], blkn + 1);
    FirstBlock(cfg, tables, b, bs);
    Assoc(sent, BitsOf(b.tokens, tables[cfg.DcSlot(ci)], tables[cfg.AcSlot(ci)]), BlocksBits(cfg, tables, bs));
  }

  /** One turn of the block loop: encode block blkn and remember its DC value. */
  method EncodeBlock(ws: WorkingState, cfg: ScanConfig, tables: Tables, mcu: Mcu, blkn: nat, ghost goal: Bits,
                     ghost ok: bool)
      returns (o: Outcome)
    requires ws.Valid() && cfg.Valid() && Ready(cfg, tables) && FitsScan(cfg, mcu) && |ws.lastDcVal| == |cfg.dcTbl|
    requires blkn < |mcu| && Remaining(cfg, tables, mcu, ws.lastDcVal, blkn, ws.bits, goal, ok)
    modifies ws`nextOutputByte, ws`freeInBuffer, ws`putBuffer, ws`putBits, ws`bits, ws`lastDcVal, ws.dest,
             ws.dest.buffer
    ensures ws.Safe() && |ws.lastDcVal| == |cfg.dcTbl|
    ensures ws.dest.suspends ==> ws.dest.flushed == old(ws.dest.flushed)
    ensures o.Done? ==> ws.Valid() && Remaining(cfg, tables, mcu, ws.lastDcVal, blkn + 1, ws.bits, goal, ok)
    ensures o.Done? ==> DcAfter(cfg, mcu, ws.lastDcVal, blkn + 1) == DcAfter(cfg, mcu, old(ws.lastDcVal), blkn)
    ensures o.Suspended? ==> !ws.Fits(|ws.prefix + Coded(goal)|)
    ensures o.Fatal? ==> !ok
  {
    hide Remaining, Coded, BitsOf, BlockTokens, AllEncodable;
    var ci := cfg.membership[blkn];
    RemainingStep(cfg, tables, mcu, ws.lastDcVal, blkn, ws.bits, goal, ok);
    o := EncodeOneBlock(ws, mcu[blkn], ws.lastDcVal[ci], cfg.order, tables[cfg.DcSlot(ci)], tables[cfg.AcSlot(ci)],
                        goal);
    if o == Done {
      ws.lastDcVal := ws.lastDcVal[ci := mcu[blkn][0]];
    }
  }

  /** The block loop of encode_mcu_huff. */
  method EncodeBlocks(ws: WorkingState, cfg: ScanConfig, tables: Tables, mcu: Mcu, ghost goal: Bits, ghost ok: bool)
      returns (o: Outcome)
    requires ws.Valid() && cfg.Valid() && Ready(cfg, tables) && FitsScan(cfg, mcu) && |ws.lastDcVal| == |cfg.dcTbl|
    requires Remaining(cfg, tables, mcu, ws.lastDcVal, 0, ws.bits, goal, ok)
    modifies ws`nextOutputByte, ws`freeInBuffer, ws`putBuffer, ws`putBits, ws`bits, ws`lastDcVal, ws.dest,
             ws.dest.buffer
    ensures ws.Safe()
    ensures ws.dest.suspends ==> ws.dest.flushed == old(ws.dest.flushed)
    ensures o.Done? ==> ws.Valid() && ws.bits == goal && ok
    ensures o.Done? ==> ws.lastDcVal == DcAfter(cfg, mcu, old(ws.lastDcVal), 0)
    ensures o.Suspended? ==> !ws.Fits(|ws.prefix + Coded(goal)|)
    ensures o.Fatal? ==> !ok
  {
    hide Remaining, DcAfter, WorkingState.Valid, Ready, Coded;
    ValidIsSafe(ws);
    ghost var end := DcAfter(cfg, mcu, ws.lastDcVal, 0);
    o := Done;
    for blkn := 0 to |mcu|
      invariant o == Done && ws.Valid() && ws.Safe() && |ws.lastDcVal| == |cfg.dcTbl|
      invariant ws.dest.suspends ==> ws.dest.flushed == old(ws.dest.flushed)
      invariant Remaining(cfg, tables, mcu, ws.lastDcVal, blkn, ws.bits, goal, ok)
      invariant DcAfter(cfg, mcu, ws.lastDcVal, blkn) == end
    {
      o := EncodeBlock(ws, cfg, tables, mcu, blkn, goal, ok);
      if o != Done {
        return;
      }
    }
    DcAtEnd(cfg, mcu, ws.lastDcVal);
    NothingRemains(cfg, tables, mcu, ws.lastDcVal, ws.bits, goal, ok);
  }

  lemma DcAtEnd(cfg: ScanConfig, mcu: Mcu, dc: seq<int>)
    requires cfg.Valid() && FitsScan(cfg, mcu) && |dc| == |cfg.dcTbl|
    ensures DcAfter(cfg, mcu, dc, |mcu|) == dc
  {
  }

  /** Can every token of this MCU be encoded? */
  ghost predicate McuEncodable(cfg: ScanConfig, tables: Tables, p: Progress, mcu: Mcu)
    requires cfg.Valid() && Ready(cfg, tables) && GoodProgress(cfg, p) && FitsScan(cfg, mcu)
  {
    McuBlocksGood(cfg, mcu, StartDc(cfg, p), 0);
    BlocksEncodable(cfg, tables, McuBlocks(cfg, mcu, StartDc(cfg, p), 0))
  }

  /** Could every MCU be encoded when its turn came? */
  ghost predicate EncodableInTurn(cfg: ScanConfig, tables: Tables, mcus: seq<Mcu>)
    requires cfg.Valid() && Ready(cfg, tables) && FitAll(cfg, mcus)
  {
    forall i :: 0 <= i < |mcus| ==> McuEncodable(cfg, tables, ProgressAfter(cfg, mcus[..i]), mcus[i])
  }

  lemma PrefixOfOneMore(mcus: seq<Mcu>, mcu: Mcu, i: nat)
    requires i <= |mcus|
    ensures (mcus + [mcu])[..i] == if i < |mcus| then mcus[..i] else mcus
  {
  }

  lemma OneMoreEncodable(cfg: ScanConfig, tables: Tables, mcus: seq<Mcu>, mcu: Mcu)
    requires cfg.Valid() && Ready(cfg, tables) && FitAll(cfg, mcus) && FitsScan(cfg, mcu)
    requires EncodableInTurn(cfg, tables, mcus) && McuEncodable(cfg, tables, ProgressAfter(cfg, mcus), mcu)
    ensures FitAll(cfg, mcus + [mcu]) && EncodableInTurn(cfg, tables, mcus + [mcu])
  {
    hide McuEncodable, ProgressAfter;
    var all := mcus + [mcu];
    forall i | 0 <= i < |all| ensures McuEncodable(cfg, tables, ProgressAfter(cfg, all[..i]), all[i]) {
      PrefixOfOneMore(mcus, mcu, i);
    }
  }

  /** The work of encode_mcu_huff on a working state: the restart marker if one is due, then the blocks. */
  method EncodeInto(ws: WorkingState, cfg: ScanConfig, tables: Tables, mcu: Mcu, restart: bool, nextRestartNum: nat,
                    ghost p: Progress, ghost s: Segment) returns (o: Outcome)
    requires ws.Valid() && cfg.Valid() && Ready(cfg, tables) && FitsScan(cfg, mcu) && GoodProgress(cfg, p)
    requires restart == AtRestart(cfg, p) && nextRestartNum == p.nextRestartNum
    requires ws.lastDcVal == p.lastDc && ws.prefix == s.prefix && ws.bits == s.bits
    modifies ws, ws.dest, ws.dest.buffer
    ensures ws.Safe()
    ensures ws.dest.suspends ==> ws.dest.flushed == old(ws.dest.flushed)
    ensures o.Done? ==> ws.Valid() && Segment(ws.prefix, ws.bits) == NextStream(cfg, tables, p, s, mcu)
    ensures o.Done? ==> ws.lastDcVal == DcAfter(cfg, mcu, StartDc(cfg, p), 0) && McuEncodable(cfg, tables, p, mcu)
    ensures o.Suspended? ==> !ws.Fits(|NextStream(cfg, tables, p, s, mcu).Bytes()|)
    ensures o.Fatal? ==> !McuEncodable(cfg, tables, p, mcu)
  {
    NextStreamGrows(cfg, tables, p, s, mcu);
    if restart {
      var ok := EmitRestart(ws, nextRestartNum);
      if !ok {
        RestartFitsLess(ws, cfg, tables, p, s, mcu);
        return Suspended;
      }
    }
    McuBlocksGood(cfg, mcu, StartDc(cfg, p), 0);
    o := EncodeBlocks(ws, cfg, tables, mcu, NextStream(cfg, tables, p, s, mcu).bits, McuEncodable(cfg, tables, p, mcu));
  }

  lemma RestartFitsLess(ws: WorkingState, cfg: ScanConfig, tables: Tables, p: Progress, s: Segment, mcu: Mcu)
    requires cfg.Valid() && Ready(cfg, tables) && FitsScan(cfg, mcu) && GoodProgress(cfg, p) && AtRestart(cfg, p)
    requires !ws.Fits(|Restarted(s, p.nextRestartNum).prefix|)
    ensures !ws.Fits(|NextStream(cfg, tables, p, s, mcu).Bytes()|)
  {
    McuBlocksGood(cfg, mcu, StartDc(cfg, p), 0);
  }

  lemma LowThreeBits(n: nat)
    ensures BitAnd(n, 7) == n % 8
  {
    Pow2Literals();
    AndMask(n, 3);
  }

  class HuffEntropyEncoder {
    const cfg: ScanConfig
    const dest: Destination
    var putBuffer: nat
    var putBits: nat
    var lastDcVal: seq<int>
    var restartsToGo: nat
    var nextRestartNum: nat
    var tables: Tables
    ghost const base: seq<byte>        // what was committed before the scan
    ghost var accepted: seq<Mcu>       // the MCUs committed so far

    ghost function State(): Segment
      reads this
      requires cfg.Valid() && Ready(cfg, tables) && FitAll(cfg, accepted)
    {
      Stream(cfg, tables, base, accepted)
    }

    /** The saved state and the committed bytes are exactly these. */
    ghost predicate Holds(p: Progress, s: Segment)
      reads this, dest, dest.buffer
    {
      && Progress(lastDcVal, restartsToGo, nextRestartNum) == p
      && dest.Valid()
      && putBits == |Rest(s.bits)| && Window(Rest(s.bits), putBuffer)
      && dest.Committed() == s.Bytes()
    }

    /** The saved state and the committed bytes are those of the accepted MCUs, all of them and
        nothing else. */
    ghost predicate Valid()
      reads this, dest, dest.buffer
    {
      && cfg.Valid() && Ready(cfg, tables) && FitAll(cfg, accepted) && EncodableInTurn(cfg, tables, accepted)
      && Holds(ProgressAfter(cfg, accepted), State())
    }

    ghost predicate CanEncode(mcu: Mcu)
      reads this
      requires cfg.Valid() && Ready(cfg, tables) && FitAll(cfg, accepted) && FitsScan(cfg, mcu)
    {
      McuEncodable(cfg, tables, ProgressAfter(cfg, accepted), mcu)
    }

    /** The destination has room for the stream with this MCU, and a byte to spare. */
    ghost predicate HasRoom(mcu: Mcu)
      reads this, dest
      requires cfg.Valid() && Ready(cfg, tables) && FitAll(cfg, accepted) && FitsScan(cfg, mcu)
    {
      !dest.suspends
      || |NextStream(cfg, tables, ProgressAfter(cfg, accepted), State(), mcu).Bytes()|
         < |dest.flushed| + dest.buffer.Length
    }

    /** The state start_pass_huff sets up, with the derived tables of the scan. */
    constructor (cfg: ScanConfig, dest: Destination, tables: Tables)
      requires cfg.Valid() && Ready(cfg, tables) && dest.Valid()
      ensures Valid() && accepted == [] && base == dest.Committed()
      ensures this.cfg == cfg && this.dest == dest && this.tables == tables
    {
      this.cfg, this.dest, this.tables := cfg, dest, tables;
      lastDcVal := seq(|cfg.dcTbl|, _ => 0);
      putBuffer, putBits := 0, 0;
      restartsToGo, nextRestartNum := cfg.restartInterval, 0;
      base, accepted := dest.Committed(), [];
      ToBitsZero(24);
      assert dest.Committed() + Coded([]) == dest.Committed();
    }

    /** encode_mcu_huff. The MCU is committed as a whole, or the encoder is exactly as before; it is
        refused exactly when the destination refuses and has no room for it. */
    method EncodeMcu(mcu: Mcu) returns (o: Outcome)
      requires Valid() && FitsScan(cfg, mcu)
      modifies this, dest, dest.buffer
      ensures tables == old(tables)
      ensures o.Done? ==> Valid() && accepted == old(accepted) + [mcu] && old(CanEncode(mcu))
      ensures o.Suspended? ==> Valid() && unchanged(this) && dest.Committed() == old(dest.Committed())
      ensures o.Suspended? ==> unchanged(dest`nextOutputByte, dest`freeInBuffer, dest`flushed)
      ensures o.Fatal? ==> !old(CanEncode(mcu))
      ensures o.Suspended? ==> !old(HasRoom(mcu))
      ensures old(CanEncode(mcu)) ==> (o.Done? <==> old(HasRoom(mcu)))
      ensures dest.suspends ==> dest.flushed == old(dest.flushed)
    {
      hide McuEncodable, NextStream, Stream, ProgressAfter, EncodableInTurn, Advance;
      ghost var p := ProgressAfter(cfg, accepted);
      ghost var s := State();
      var ws := new WorkingState(dest, putBuffer, putBits, lastDcVal, s.prefix, s.bits);
      o := EncodeInto(ws, cfg, tables, mcu, cfg.restartInterval != 0 && restartsToGo == 0, nextRestartNum, p, s);
      if o.Done? {
        OneMore(cfg, tables, base, accepted, mcu);
        OneMoreEncodable(cfg, tables, accepted, mcu);
        Commit(ws, p, NextStream(cfg, tables, p, s, mcu), mcu);
        accepted := accepted + [mcu];
      }
    }

    /** The restart bookkeeping at the end of encode_mcu_huff. */
    method CountMcu()
      requires nextRestartNum < 8
      modifies this`restartsToGo, this`nextRestartNum
      ensures cfg.restartInterval == 0 ==> restartsToGo == old(restartsToGo) && nextRestartNum == old(nextRestartNum)
      ensures cfg.restartInterval != 0 && old(restartsToGo) == 0 ==>
                restartsToGo == cfg.restartInterval - 1 && nextRestartNum == (old(nextRestartNum) + 1) % 8
      ensures cfg.restartInterval != 0 && old(restartsToGo) != 0 ==>
                restartsToGo == old(restartsToGo) - 1 && nextRestartNum == old(nextRestartNum)
    {
      if cfg.restartInterval != 0 {
        if restartsToGo == 0 {
          restartsToGo := cfg.restartInterval;
          nextRestartNum := nextRestartNum + 1;
          nextRestartNum := BitAnd(nextRestartNum, 7);
          LowThreeBits(old(nextRestartNum) + 1);
        }
        restartsToGo := restartsToGo - 1;
      }
    }

    /** The end of encode_mcu_huff: the working state becomes permanent. */
    method Commit(ws: WorkingState, ghost p: Progress, ghost s: Segment, ghost mcu: Mcu)
      requires cfg.Valid() && FitsScan(cfg, mcu) && GoodProgress(cfg, p)
      requires Progress(lastDcVal, restartsToGo, nextRestartNum) == p
      requires ws.dest == dest && ws.Valid() && Segment(ws.prefix, ws.bits) == s
      requires ws.lastDcVal == DcAfter(cfg, mcu, StartDc(cfg, p), 0)
      modifies this`putBuffer, this`putBits, this`lastDcVal, this`restartsToGo, this`nextRestartNum, dest
      ensures Holds(Advance(cfg, p, mcu), s) && dest.flushed == old(dest.flushed)
    {
      dest.nextOutputByte, dest.freeInBuffer := ws.nextOutputByte, ws.freeInBuffer;
      putBuffer, putBits, lastDcVal := ws.putBuffer, ws.putBits, ws.lastDcVal;
      CountMcu();
    }

    /** finish_pass_huff: pad the last interval with ones. If it cannot be written, the caller
        reports that suspension is not possible here. */
    method FinishPass() returns (ok: bool)
      requires Valid()
      modifies this`putBuffer, this`putBits, dest, dest.buffer
      ensures ok ==> dest.Valid() && dest.Committed() == State().prefix + Coded(State().bits + Ones(7))
      ensures ok <==> !dest.suspends
                      || |State().prefix + Coded(State().bits + Ones(7))| < |old(dest.flushed)| + dest.buffer.Length
    {
      hide Stream, NextStream, ProgressAfter, EncodableInTurn, Ready, ScanConfig.Valid;
      ghost var s := State();
      var ws := new WorkingState(dest, putBuffer, putBits, lastDcVal, s.prefix, s.bits);
      ok := ws.FlushBits();
      if ok {
        assert ws.Stream() == s.prefix + Coded(s.bits + Ones(7)) by {
          assert ws.prefix + Coded([]) == ws.prefix;
        }
        dest.nextOutputByte, dest.freeInBuffer := ws.nextOutputByte, ws.freeInBuffer;
        putBuffer, putBits := ws.putBuffer, ws.putBits;
      }
    }
  }
}
