/** The routines of jchuff.c that send one block, and those that only count its symbols. */
module BlockEncoder {
  import opened Sequences
  import opened Powers
  import opened BitStrings
  import opened BytePacking
  import opened BitWriter
  import opened CanonicalCode
  import opened BlockCoding

  /** The bit-counting loops. */
  method CountBits(magnitude: nat) returns (nbits: nat)
    ensures nbits == NBits(magnitude)
  {
    var temp := magnitude;
    nbits := 0;
    while temp != 0
      invariant nbits + NBits(temp) == NBits(magnitude)
    {
      nbits := nbits + 1;
      temp := temp / 2;
    }
  }

  /** A C int converted to unsigned. */
  function Unsigned(v: int): nat
    requires -0x8000_0000 <= v < 0x8000_0000
  {
    if v < 0 then 0x1_0000_0000 + v else v
  }

  /** If the stream for some of the bits does not fit, neither does the stream for all of them. */
  lemma MoreBitsFitLess(ws: WorkingState, some: Bits, all: Bits)
    requires some <= all && !ws.Fits(|ws.prefix + Coded(some)|)
    ensures !ws.Fits(|ws.prefix + Coded(all)|)
  {
    var t := all[|some|..];
    assert all == some + t;
    CodedMore(ws.prefix, some, t);
  }

  /** Send one token; `goal` is any bit string that begins with everything sent so far and the token. */
  method Put(ws: WorkingState, code: nat, size: nat, ghost t: Token, ghost goal: Bits,
             ghost dc: DerivedTable, ghost ac: DerivedTable) returns (r: Outcome)
    requires ws.Valid() && size <= 16 && dc.Shaped() && ac.Shaped()
    requires TokenBits(t, dc, ac) == ToBits(code, size) && (Encodable(t, dc, ac) <==> size > 0)
    requires ws.bits + TokenBits(t, dc, ac) <= goal
    modifies ws`nextOutputByte, ws`freeInBuffer, ws`putBuffer, ws`putBits, ws`bits, ws.dest, ws.dest.buffer
    ensures ws.Safe()
    ensures ws.dest.suspends ==> ws.dest.flushed == old(ws.dest.flushed)
    ensures r.Done? ==> ws.Valid() && ws.bits == old(ws.bits) + TokenBits(t, dc, ac) && Encodable(t, dc, ac)
    ensures r.Suspended? ==> !ws.Fits(|ws.prefix + Coded(goal)|) && Encodable(t, dc, ac)
    ensures r.Fatal? ==> !Encodable(t, dc, ac)
  {
    ghost var more := ws.bits + TokenBits(t, dc, ac);
    r := ws.EmitBits(code, size);
    if r.Suspended? {
      MoreBitsFitLess(ws, more, goal);
    }
  }

  lemma PrefixTransitive(a: Bits, b: Bits, c: Bits)
    requires a <= b && b <= c
    ensures a <= c
  {
  }

  lemma PairBits(s: Token, x: Token, dc: DerivedTable, ac: DerivedTable)
    requires dc.Shaped() && ac.Shaped()
    ensures BitsOf([s, x], dc, ac) == TokenBits(s, dc, ac) + TokenBits(x, dc, ac)
    ensures AllEncodable([s, x], dc, ac) <==> Encodable(s, dc, ac) && Encodable(x, dc, ac)
  {
    assert [s, x] == [s] + [x];
    BitsOfAppend([s], [x], dc, ac);
    OneToken(s, dc, ac);
    OneToken(x, dc, ac);
    EncodableParts([s], [x], dc, ac);
    assert [s][0] == s && [x][0] == x;
  }

  lemma ValidIsSafe(ws: WorkingState)
    requires ws.Valid()
    ensures ws.Safe()
  {
  }

  /** The value sent for v: v itself, or v - 1 if v is negative, as an unsigned word. */
  lemma SentWord(v: int)
    requires NBits(Abs(v)) <= MAX_COEF_BITS + 1
    ensures -0x8000_0000 < v < 0x8000_0000
    ensures ExtraToken(v).value == Unsigned(if v < 0 then v - 1 else v)
  {
    NBitsSmall(Abs(v), 11);
    Pow2Mono(11, 16);
    Pow2Literals();
  }

  /** Send a Huffman symbol and then the bits of a value. */
  method PutPair(ws: WorkingState, code: nat, codeSize: nat, value: nat, nbits: nat, ghost s: Token, ghost x: Token,
                 ghost goal: Bits, ghost dc: DerivedTable, ghost ac: DerivedTable) returns (r: Outcome)
    requires ws.Valid() && dc.Shaped() && ac.Shaped() && codeSize <= 16 && 1 <= nbits <= 16
    requires TokenBits(s, dc, ac) == ToBits(code, codeSize) && (Encodable(s, dc, ac) <==> codeSize > 0)
    requires x == Extra(value, nbits)
    requires ws.bits + BitsOf([s, x], dc, ac) <= goal
    modifies ws`nextOutputByte, ws`freeInBuffer, ws`putBuffer, ws`putBits, ws`bits, ws.dest, ws.dest.buffer
    ensures ws.Safe()
    ensures ws.dest.suspends ==> ws.dest.flushed == old(ws.dest.flushed)
    ensures r.Done? ==> ws.Valid() && ws.bits == old(ws.bits) + BitsOf([s, x], dc, ac)
    ensures r.Done? ==> AllEncodable([s, x], dc, ac)
    ensures r.Suspended? ==> !ws.Fits(|ws.prefix + Coded(goal)|)
    ensures r.Fatal? ==> !AllEncodable([s, x], dc, ac)
  {
    PairBits(s, x, dc, ac);
    Assoc(ws.bits, TokenBits(s, dc, ac), TokenBits(x, dc, ac));
    PrefixTransitive(ws.bits + TokenBits(s, dc, ac), ws.bits + BitsOf([s, x], dc, ac), goal);
    r := Put(ws, code, codeSize, s, goal, dc, ac);
    if r == Done {
      r := Put(ws, value, nbits, x, goal, dc, ac);
    }
  }

  lemma DcPair(diff: int)
    requires 1 <= NBits(Abs(diff)) <= MAX_COEF_BITS + 1
    ensures DcTokens(diff) == [Symbol(false, NBits(Abs(diff))), ExtraToken(diff)]
  {
  }

  /** The DC part of encode_one_block. */
  method EncodeDc(ws: WorkingState, diff: int, dctbl: DerivedTable, ghost actbl: DerivedTable, ghost goal: Bits)
      returns (r: Outcome)
    requires ws.Valid() && dctbl.Usable() && actbl.Usable()
    requires ws.bits + BitsOf(DcTokens(diff), dctbl, actbl) <= goal
    modifies ws`nextOutputByte, ws`freeInBuffer, ws`putBuffer, ws`putBits, ws`bits, ws.dest, ws.dest.buffer
    ensures ws.Safe()
    ensures ws.dest.suspends ==> ws.dest.flushed == old(ws.dest.flushed)
    ensures r.Done? ==> ws.Valid() && ws.bits == old(ws.bits) + BitsOf(DcTokens(diff), dctbl, actbl)
    ensures r.Done? ==> AllEncodable(DcTokens(diff), dctbl, actbl)
    ensures r.Suspended? ==> !ws.Fits(|ws.prefix + Coded(goal)|)
    ensures r.Fatal? ==> !AllEncodable(DcTokens(diff), dctbl, actbl)
  {
    var temp, temp2 := diff, diff;
    if temp < 0 {
      temp := -temp;
      temp2 := temp2 - 1;
    }
    var nbits := CountBits(temp);
    if nbits > MAX_COEF_BITS + 1 {
      assert DcTokens(diff)[0] == Bad;
      return Fatal(BadDctCoef);
    }
    if nbits == 0 {
      OneToken(Symbol(false, 0), dctbl, actbl);
      assert DcTokens(diff)[0] == Symbol(false, 0);
      r := Put(ws, dctbl.ehufco[0], dctbl.ehufsi[0], Symbol(false, 0), goal, dctbl, actbl);
    } else {
      DcPair(diff);
      SentWord(diff);
      r := PutPair(ws, dctbl.ehufco[nbits], dctbl.ehufsi[nbits], Unsigned(temp2), nbits,
                   Symbol(false, nbits), ExtraToken(diff), goal, dctbl, actbl);
    }
  }

  /** AcTokens, one token or pair at a time. */
  lemma AcZrl(zz: seq<int>, k: nat, r: nat)
    requires |zz| == 64 && k < 64 && zz[k] != 0 && r > 15
    ensures AcTokens(zz, k, r) == [Symbol(true, ZRL)] + AcTokens(zz, k, r - 16)
  {
  }

  lemma AcPair(zz: seq<int>, k: nat, r: nat)
    requires |zz| == 64 && k < 64 && zz[k] != 0 && r <= 15 && NBits(Abs(zz[k])) <= MAX_COEF_BITS
    ensures AcTokens(zz, k, r) == [Symbol(true, r * 16 + NBits(Abs(zz[k]))), ExtraToken(zz[k])] + AcTokens(zz, k + 1, 0)
  {
  }

  /** What is still to be sent follows what has been sent. */
  ghost predicate Ahead(sent: Bits, total: Bits, ok: bool, left: seq<Token>, dc: DerivedTable, ac: DerivedTable)
    requires dc.Shaped() && ac.Shaped()
  {
    && sent + BitsOf(left, dc, ac) == total
    && (ok <==> AllEncodable(left, dc, ac))
  }

  /** Splitting off the tokens that come next. */
  lemma AheadSplit(sent: Bits, total: Bits, ok: bool, next: seq<Token>, left: seq<Token>, dc: DerivedTable,
                   ac: DerivedTable)
    requires dc.Shaped() && ac.Shaped() && Ahead(sent, total, ok, next + left, dc, ac)
    ensures sent + BitsOf(next, dc, ac) <= total
    ensures AllEncodable(next, dc, ac) ==> Ahead(sent + BitsOf(next, dc, ac), total, ok, left, dc, ac)
    ensures ok ==> AllEncodable(next, dc, ac)
  {
    BitsOfAppend(next, left, dc, ac);
    EncodableParts(next, left, dc, ac);
    Assoc(sent, BitsOf(next, dc, ac), BitsOf(left, dc, ac));
  }

  /** The zero runs before a coefficient: one special code for each sixteen zeros. `total` is what
      the bits will be after the block, `ok` whether all of the block can be encoded. */
  method EncodeZeroRuns(ws: WorkingState, zz: seq<int>, k: nat, run: nat, ghost dctbl: DerivedTable,
                        actbl: DerivedTable, ghost total: Bits, ghost ok: bool, ghost goal: Bits)
      returns (o: Outcome, r: nat)
    requires ws.Valid() && dctbl.Usable() && actbl.Usable() && |zz| == 64 && k < 64 && zz[k] != 0
    requires Ahead(ws.bits, total, ok, AcTokens(zz, k, run), dctbl, actbl) && total <= goal
    modifies ws`nextOutputByte, ws`freeInBuffer, ws`putBuffer, ws`putBits, ws`bits, ws.dest, ws.dest.buffer
    ensures ws.Safe()
    ensures ws.dest.suspends ==> ws.dest.flushed == old(ws.dest.flushed)
    ensures o.Done? ==> ws.Valid() && r <= 15 && Ahead(ws.bits, total, ok, AcTokens(zz, k, r), dctbl, actbl)
    ensures o.Suspended? ==> !ws.Fits(|ws.prefix + Coded(goal)|)
    ensures o.Fatal? ==> !ok
  {
    r := run;
    o := Done;
    while r > 15
      invariant 0 <= r && o == Done && ws.Valid() && Ahead(ws.bits, total, ok, AcTokens(zz, k, r), dctbl, actbl)
      invariant ws.dest.suspends ==> ws.dest.flushed == old(ws.dest.flushed)
    {
      ghost var next := [Symbol(true, ZRL)];
      AcZrl(zz, k, r);
      AheadSplit(ws.bits, total, ok, next, AcTokens(zz, k, r - 16), dctbl, actbl);
      PrefixTransitive(ws.bits + BitsOf(next, dctbl, actbl), total, goal);
      OneToken(Symbol(true, ZRL), dctbl, actbl);
      assert next[0] == Symbol(true, ZRL);
      o := Put(ws, actbl.ehufco[ZRL], actbl.ehufsi[ZRL], Symbol(true, ZRL), goal, dctbl, actbl);
      if o != Done {
        return;
      }
      r := r - 16;
    }
  }

  /** The two tokens of a coefficient come next. */
  lemma CoefficientNext(sent: Bits, total: Bits, ok: bool, zz: seq<int>, k: nat, r: nat, n: nat,
                        dc: DerivedTable, ac: DerivedTable, goal: Bits)
    requires dc.Shaped() && ac.Shaped() && |zz| == 64 && k < 64 && zz[k] != 0 && r <= 15
    requires n == NBits(Abs(zz[k])) <= MAX_COEF_BITS
    requires Ahead(sent, total, ok, AcTokens(zz, k, r), dc, ac) && total <= goal
    ensures n >= 1
    ensures var next := [Symbol(true, r * 16 + n), ExtraToken(zz[k])];
            && sent + BitsOf(next, dc, ac) <= goal
            && (AllEncodable(next, dc, ac) ==>
                  Ahead(sent + BitsOf(next, dc, ac), total, ok, AcTokens(zz, k + 1, 0), dc, ac))
            && (ok ==> AllEncodable(next, dc, ac))
  {
    NBitsBounds(Abs(zz[k]));
    var next := [Symbol(true, r * 16 + n), ExtraToken(zz[k])];
    AcPair(zz, k, r);
    AheadSplit(sent, total, ok, next, AcTokens(zz, k + 1, 0), dc, ac);
    PrefixTransitive(sent + BitsOf(next, dc, ac), total, goal);
  }

  lemma BadCoefficient(sent: Bits, total: Bits, ok: bool, zz: seq<int>, k: nat, r: nat, dc: DerivedTable,
                       ac: DerivedTable)
    requires dc.Shaped() && ac.Shaped() && |zz| == 64 && k < 64 && zz[k] != 0 && r <= 15
             && NBits(Abs(zz[k])) > MAX_COEF_BITS
    requires Ahead(sent, total, ok, AcTokens(zz, k, r), dc, ac)
    ensures !ok
  {
    assert AcTokens(zz, k, r)[0] == Bad;
  }

  /** One non-zero coefficient, after its zero runs. */
  method EncodeCoefficient(ws: WorkingState, zz: seq<int>, k: nat, r: nat, ghost dctbl: DerivedTable,
                           actbl: DerivedTable, ghost total: Bits, ghost ok: bool, ghost goal: Bits)
      returns (o: Outcome)
    requires ws.Valid() && dctbl.Usable() && actbl.Usable() && |zz| == 64 && k < 64 && zz[k] != 0 && r <= 15
    requires Ahead(ws.bits, total, ok, AcTokens(zz, k, r), dctbl, actbl) && total <= goal
    modifies ws`nextOutputByte, ws`freeInBuffer, ws`putBuffer, ws`putBits, ws`bits, ws.dest, ws.dest.buffer
    ensures ws.Safe()
    ensures ws.dest.suspends ==> ws.dest.flushed == old(ws.dest.flushed)
    ensures o.Done? ==> ws.Valid() && Ahead(ws.bits, total, ok, AcTokens(zz, k + 1, 0), dctbl, actbl)
    ensures o.Suspended? ==> !ws.Fits(|ws.prefix + Coded(goal)|)
    ensures o.Fatal? ==> !ok
  {
    hide AcTokens, Ahead, BitsOf, AllEncodable, ToBits, WorkingState.Valid, WorkingState.Safe, NBits;
    ValidIsSafe(ws);
    var temp, temp2 := zz[k], zz[k];
    if temp < 0 {
      temp := -temp;
      temp2 := temp2 - 1;
    }
    var nbits := CountBits(temp);
    if nbits > MAX_COEF_BITS {
      BadCoefficient(ws.bits, total, ok, zz, k, r, dctbl, actbl);
      return Fatal(BadDctCoef);
    }
    CoefficientNext(ws.bits, total, ok, zz, k, r, nbits, dctbl, actbl, goal);
    SentWord(zz[k]);
    var i := r * 16 + nbits;
    o := PutPair(ws, actbl.ehufco[i], actbl.ehufsi[i], Unsigned(temp2), nbits,
                 Symbol(true, i), ExtraToken(zz[k]), goal, dctbl, actbl);
  }

  /** The AC part of encode_one_block. */
  method EncodeAc(ws: WorkingState, block: Block, order: seq<nat>, ghost dctbl: DerivedTable, actbl: DerivedTable,
                  ghost goal: Bits) returns (o: Outcome)
    requires ws.Valid() && dctbl.Usable() && actbl.Usable() && IsOrder(order)
    requires ws.bits + BitsOf(AcTokens(Zigzag(order, block), 1, 0), dctbl, actbl) <= goal
    modifies ws`nextOutputByte, ws`freeInBuffer, ws`putBuffer, ws`putBits, ws`bits, ws.dest, ws.dest.buffer
    ensures ws.Safe()
    ensures ws.dest.suspends ==> ws.dest.flushed == old(ws.dest.flushed)
    ensures var ts := AcTokens(Zigzag(order, block), 1, 0);
            && (o.Done? ==> ws.Valid() && ws.bits == old(ws.bits) + BitsOf(ts, dctbl, actbl))
            && (o.Done? ==> AllEncodable(ts, dctbl, actbl))
            && (o.Fatal? ==> !AllEncodable(ts, dctbl, actbl))
    ensures o.Suspended? ==> !ws.Fits(|ws.prefix + Coded(goal)|)
  {
    ghost var zz := Zigzag(order, block);
    ghost var total := ws.bits + BitsOf(AcTokens(zz, 1, 0), dctbl, actbl);
    ghost var ok := AllEncodable(AcTokens(zz, 1, 0), dctbl, actbl);
    var r := 0;
    o := Done;
    for k := 1 to DCTSIZE2
      invariant o == Done && ws.Valid() && Ahead(ws.bits, total, ok, AcTokens(zz, k, r), dctbl, actbl)
      invariant ws.dest.suspends ==> ws.dest.flushed == old(ws.dest.flushed)
    {
      if block[order[k]] == 0 {
        r := r + 1;
      } else {
        o, r := EncodeZeroRuns(ws, Zigzag(order, block), k, r, dctbl, actbl, total, ok, goal);
        if o != Done {
          return;
        }
        o := EncodeCoefficient(ws, Zigzag(order, block), k, r, dctbl, actbl, total, ok, goal);
        if o != Done {
          return;
        }
        r := 0;
      }
    }
    o := EncodeEnd(ws, zz, r, dctbl, actbl, total, ok, goal);
  }

  /** The end-of-block code, if the last coefficients were zero. */
  method EncodeEnd(ws: WorkingState, ghost zz: seq<int>, r: nat, ghost dctbl: DerivedTable, actbl: DerivedTable,
                   ghost total: Bits, ghost ok: bool, ghost goal: Bits) returns (o: Outcome)
    requires ws.Valid() && dctbl.Usable() && actbl.Usable() && |zz| == 64
    requires Ahead(ws.bits, total, ok, AcTokens(zz, 64, r), dctbl, actbl) && total <= goal
    modifies ws`nextOutputByte, ws`freeInBuffer, ws`putBuffer, ws`putBits, ws`bits, ws.dest, ws.dest.buffer
    ensures ws.Safe()
    ensures ws.dest.suspends ==> ws.dest.flushed == old(ws.dest.flushed)
    ensures o.Done? ==> ws.Valid() && ws.bits == total && ok
    ensures o.Suspended? ==> !ws.Fits(|ws.prefix + Coded(goal)|)
    ensures o.Fatal? ==> !ok
  {
    ghost var ts := AcTokens(zz, 64, r);
    if r > 0 {
      OneToken(Symbol(true, EOB), dctbl, actbl);
      assert ts == [Symbol(true, EOB)] && ts[0] == Symbol(true, EOB);
      o := Put(ws, actbl.ehufco[EOB], actbl.ehufsi[EOB], Symbol(true, EOB), goal, dctbl, actbl);
    } else {
      assert ws.bits + BitsOf(ts, dctbl, actbl) == ws.bits;
      o := Done;
    }
  }

  /** The DC and AC parts of a block, one after the other. */
  lemma BlockSplit(sent: Bits, zz: seq<int>, lastDc: int, dc: DerivedTable, ac: DerivedTable, goal: Bits)
    requires dc.Shaped() && ac.Shaped() && |zz| == 64
    requires sent + BitsOf(BlockTokens(zz, lastDc), dc, ac) <= goal
    ensures var a, b := DcTokens(zz[0] - lastDc), AcTokens(zz, 1, 0);
            && sent + BitsOf(a, dc, ac) <= goal
            && sent + BitsOf(BlockTokens(zz, lastDc), dc, ac) == (sent + BitsOf(a, dc, ac)) + BitsOf(b, dc, ac)
            && (AllEncodable(BlockTokens(zz, lastDc), dc, ac) <==> AllEncodable(a, dc, ac) && AllEncodable(b, dc, ac))
  {
    var a, b := DcTokens(zz[0] - lastDc), AcTokens(zz, 1, 0);
    BitsOfAppend(a, b, dc, ac);
    EncodableParts(a, b, dc, ac);
    Assoc(sent, BitsOf(a, dc, ac), BitsOf(b, dc, ac));
    PrefixTransitive(sent + BitsOf(a, dc, ac), sent + (BitsOf(a, dc, ac) + BitsOf(b, dc, ac)), goal);
  }

  /** encode_one_block: on success exactly the block's tokens have been sent; it suspends only if
      the stream through `goal` does not fit, and fails only if some token cannot be encoded. */
  method EncodeOneBlock(ws: WorkingState, block: Block, lastDcVal: int, order: seq<nat>,
                        dctbl: DerivedTable, actbl: DerivedTable, ghost goal: Bits) returns (o: Outcome)
    requires ws.Valid() && dctbl.Usable() && actbl.Usable() && IsOrder(order)
    requires ws.bits + BitsOf(BlockTokens(Zigzag(order, block), lastDcVal), dctbl, actbl) <= goal
    modifies ws`nextOutputByte, ws`freeInBuffer, ws`putBuffer, ws`putBits, ws`bits, ws.dest, ws.dest.buffer
    ensures ws.Safe()
    ensures ws.dest.suspends ==> ws.dest.flushed == old(ws.dest.flushed)
    ensures var ts := BlockTokens(Zigzag(order, block), lastDcVal);
            && (o.Done? ==> ws.Valid() && ws.bits == old(ws.bits) + BitsOf(ts, dctbl, actbl))
            && (o.Done? ==> AllEncodable(ts, dctbl, actbl))
            && (o.Fatal? ==> !AllEncodable(ts, dctbl, actbl))
    ensures o.Suspended? ==> !ws.Fits(|ws.prefix + Coded(goal)|)
  {
    hide BitsOf, AllEncodable, AcTokens, DcTokens, BlockTokens;
    BlockSplit(ws.bits, Zigzag(order, block), lastDcVal, dctbl, actbl, goal);
    o := EncodeDc(ws, block[0] - lastDcVal, dctbl, actbl, goal);
    if o == Done {
      o := EncodeAc(ws, block, order, dctbl, actbl, goal);
    }
  }

  // ---------- counting instead of sending ----------

  /** Symbol counts after counting the symbols of one kind in a list of tokens. */
  function Tally(c: seq<nat>, ts: seq<Token>, isAc: bool): (r: seq<nat>)
    requires |c| == 257
    ensures |r| == 257
    decreases ts
  {
    if ts == [] then c
    else if ts[0].Symbol? && ts[0].ac == isAc then
      Tally(c[ts[0].symbol := c[ts[0].symbol] + 1], ts[1..], isAc)
    else Tally(c, ts[1..], isAc)
  }

  /** A count grows by the number of times its symbol occurs. */
  lemma {:induction false} TallyCounts(c: seq<nat>, ts: seq<Token>, isAc: bool, s: byte)
    requires |c| == 257
    ensures Tally(c, ts, isAc)[s] == c[s] + multiset(ts)[Symbol(isAc, s)]
    ensures Tally(c, ts, isAc)[256] == c[256]
    decreases ts
  {
    if ts != [] {
      assert ts == [ts[0]] + ts[1..];
      if ts[0].Symbol? && ts[0].ac == isAc {
        TallyCounts(c[ts[0].symbol := c[ts[0].symbol] + 1], ts[1..], isAc, s);
      } else {
        TallyCounts(c, ts[1..], isAc, s);
      }
    }
  }

  lemma {:induction false} TallyAppend(c: seq<nat>, a: seq<Token>, b: seq<Token>, isAc: bool)
    requires |c| == 257
    ensures Tally(c, a + b, isAc) == Tally(Tally(c, a, isAc), b, isAc)
    decreases a
  {
    if a == [] {
      assert a + b == b;
    } else {
      assert (a + b)[1..] == a[1..] + b;
      if a[0].Symbol? && a[0].ac == isAc {
        TallyAppend(c[a[0].symbol := c[a[0].symbol] + 1], a[1..], b, isAc);
      } else {
        TallyAppend(c, a[1..], b, isAc);
      }
    }
  }

  /** Counting the tokens that come first. */
  lemma TallyFirst(c: seq<nat>, next: seq<Token>, left: seq<Token>, isAc: bool)
    requires |c| == 257 && 1 <= |next| <= 2 && next[0].Symbol? && (|next| == 2 ==> next[1].Extra?)
    ensures Tally(c, next + left, isAc)
            == Tally(if next[0].ac == isAc then c[next[0].symbol := c[next[0].symbol] + 1] else c, left, isAc)
  {
    TallyAppend(c, next, left, isAc);
    assert next[1..] == [] || (next[1..][0] == next[1] && next[1..][1..] == []);
  }

  /** htest_one_block: count the symbols encode_one_block would send; fails on the same blocks. */
  method TestOneBlock(block: Block, lastDcVal: int, order: seq<nat>, dcCounts: array<nat>, acCounts: array<nat>)
      returns (ok: bool)
    requires IsOrder(order) && dcCounts != acCounts && dcCounts.Length == acCounts.Length == 257
    modifies dcCounts, acCounts
    ensures ok <==> InRange(Zigzag(order, block), lastDcVal)
    ensures ok ==> dcCounts[..] == Tally(old(dcCounts[..]), BlockTokens(Zigzag(order, block), lastDcVal), false)
    ensures ok ==> acCounts[..] == Tally(old(acCounts[..]), BlockTokens(Zigzag(order, block), lastDcVal), true)
  {
    hide Tally, DcTokens, AcTokens, NBits;
    ghost var zz := Zigzag(order, block);
    ghost var dc0: seq<nat>, ac0: seq<nat> := dcCounts[..], acCounts[..];
    ghost var a, b := DcTokens(zz[0] - lastDcVal), AcTokens(zz, 1, 0);
    TallyAppend(dc0, a, b, false);
    TallyAppend(ac0, a, b, true);
    OnlyAc(Tally(dc0, a, false), zz, 1, 0);
    OnlyDc(ac0, zz[0] - lastDcVal);
    var temp := block[0] - lastDcVal;
    if temp < 0 {
      temp := -temp;
    }
    var nbits := CountBits(temp);
    if nbits > MAX_COEF_BITS + 1 {
      return false;
    }
    TallyDc(dc0, zz[0] - lastDcVal);
    dcCounts[nbits] := dcCounts[nbits] + 1;
    ok := TestAc(block, order, acCounts);
  }

  lemma TallyDc(c: seq<nat>, diff: int)
    requires |c| == 257 && NBits(Abs(diff)) <= MAX_COEF_BITS + 1
    ensures Tally(c, DcTokens(diff), false) == c[NBits(Abs(diff)) := c[NBits(Abs(diff))] + 1]
  {
    TallyFirst(c, DcTokens(diff), [], false);
    assert DcTokens(diff) + [] == DcTokens(diff);
  }

  lemma OnlyDc(c: seq<nat>, diff: int)
    requires |c| == 257
    ensures Tally(c, DcTokens(diff), true) == c
  {
    var ts := DcTokens(diff);
    if ts[0] == Bad {
      assert ts[1..] == [];
    } else {
      TallyFirst(c, ts, [], true);
      assert ts + [] == ts;
    }
  }

  lemma {:induction false} OnlyAc(c: seq<nat>, zz: seq<int>, k: nat, r: nat)
    requires |c| == 257 && |zz| == 64 && k <= 64
    ensures Tally(c, AcTokens(zz, k, r), false) == c
    decreases |zz| - k, r
  {
    if k == 64 {
      if r > 0 {
        assert AcTokens(zz, k, r)[1..] == [];
      }
    } else if zz[k] == 0 {
      OnlyAc(c, zz, k + 1, r + 1);
    } else if r > 15 {
      OnlyAc(c, zz, k, r - 16);
      TallyFirst(c, [Symbol(true, ZRL)], AcTokens(zz, k, r - 16), false);
    } else if NBits(Abs(zz[k])) > MAX_COEF_BITS {
      assert [Bad][1..] == [];
    } else {
      OnlyAc(c, zz, k + 1, 0);
      AcPair(zz, k, r);
      TallyFirst(c, [Symbol(true, r * 16 + NBits(Abs(zz[k]))), ExtraToken(zz[k])], AcTokens(zz, k + 1, 0), false);
    }
  }

  /** Count the special codes for runs of sixteen zeros before a coefficient. */
  method CountZeroRuns(run: nat, acCounts: array<nat>, ghost zz: seq<int>, ghost k: nat) returns (r: nat)
    requires acCounts.Length == 257 && |zz| == 64 && k < 64 && zz[k] != 0
    modifies acCounts
    ensures r <= 15
    ensures Tally(acCounts[..], AcTokens(zz, k, r), true) == Tally(old(acCounts[..]), AcTokens(zz, k, run), true)
  {
    r := run;
    while r > 15
      invariant Tally(acCounts[..], AcTokens(zz, k, r), true) == Tally(old(acCounts[..]), AcTokens(zz, k, run), true)
    {
      AcZrl(zz, k, r);
      TallyFirst(acCounts[..], [Symbol(true, ZRL)], AcTokens(zz, k, r - 16), true);
      acCounts[ZRL] := acCounts[ZRL] + 1;
      r := r - 16;
    }
  }

  lemma TallyPair(c: seq<nat>, zz: seq<int>, k: nat, r: nat)
    requires |c| == 257 && |zz| == 64 && k < 64 && zz[k] != 0 && r <= 15 && NBits(Abs(zz[k])) <= MAX_COEF_BITS
    ensures var i := r * 16 + NBits(Abs(zz[k]));
            Tally(c, AcTokens(zz, k, r), true) == Tally(c[i := c[i] + 1], AcTokens(zz, k + 1, 0), true)
  {
    AcPair(zz, k, r);
    TallyFirst(c, [Symbol(true, r * 16 + NBits(Abs(zz[k]))), ExtraToken(zz[k])], AcTokens(zz, k + 1, 0), true);
  }

  /** Count the zero runs and the run-and-size symbol of one non-zero coefficient. */
  method CountCoefficient(coef: int, run: nat, acCounts: array<nat>, ghost zz: seq<int>, ghost k: nat)
      returns (ok: bool)
    requires acCounts.Length == 257 && |zz| == 64 && k < 64 && zz[k] == coef != 0
    modifies acCounts
    ensures ok <==> NBits(Abs(coef)) <= MAX_COEF_BITS
    ensures ok ==> Tally(acCounts[..], AcTokens(zz, k + 1, 0), true)
                   == Tally(old(acCounts[..]), AcTokens(zz, k, run), true)
  {
    hide Tally, AcTokens;
    var r := CountZeroRuns(run, acCounts, zz, k);
    var temp := coef;
    if temp < 0 {
      temp := -temp;
    }
    var nbits := CountBits(temp);
    if nbits > MAX_COEF_BITS {
      return false;
    }
    TallyPair(acCounts[..], zz, k, r);
    var i := r * 16 + nbits;
    acCounts[i] := acCounts[i] + 1;
    ok := true;
  }

  /** The AC part of htest_one_block. */
  method TestAc(block: Block, order: seq<nat>, acCounts: array<nat>) returns (ok: bool)
    requires IsOrder(order) && acCounts.Length == 257
    modifies acCounts
    ensures ok <==> SmallFrom(Zigzag(order, block), 1)
    ensures ok ==> acCounts[..] == Tally(old(acCounts[..]), AcTokens(Zigzag(order, block), 1, 0), true)
  {
    ghost var zz := Zigzag(order, block);
    ghost var goal := Tally(acCounts[..], AcTokens(zz, 1, 0), true);
    var r := 0;
    for k := 1 to DCTSIZE2
      invariant Tally(acCounts[..], AcTokens(zz, k, r), true) == goal
      invariant SmallFrom(zz, 1) <==> SmallFrom(zz, k)
    {
      if block[order[k]] == 0 {
        r := r + 1;
      } else {
        ok := CountCoefficient(block[order[k]], r, acCounts, zz, k);
        if !ok {
          return;
        }
        r := 0;
      }
    }
    if r > 0 {
      TallyFirst(acCounts[..], [Symbol(true, EOB)], [], true);
      assert [Symbol(true, EOB)] + [] == AcTokens(zz, 64, r);
      acCounts[EOB] := acCounts[EOB] + 1;
    }
    ok := true;
  }
}
