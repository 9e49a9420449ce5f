/** What one block of coefficients is coded as (sections F.1.2.1 and F.1.2.2 of T.81), and the
    decoder of section F.2.2 that reads it back. */
module BlockCoding {
  import opened Sequences
  import opened Powers
  import opened BitStrings
  import opened CanonicalCode

  const DCTSIZE2: nat := 64
  const MAX_COEF_BITS: nat := 10
  const ZRL: byte := 0xF0
  const EOB: byte := 0

  type Block = b: seq<int> | |b| == 64 witness seq(64, _ => 0)

  /** jpeg_natural_order: position k of the zigzag sequence sits at order[k] of the block. */
  ghost predicate IsOrder(order: seq<nat>) {
    && |order| == 64 && order[0] == 0
    && (forall k :: 0 <= k < 64 ==> order[k] < 64)
    && (forall j, k :: 0 <= j < k < 64 ==> order[j] != order[k])
    && (forall i :: 0 <= i < 64 ==> i in order)
  }

  function Zigzag(order: seq<nat>, block: Block): (zz: seq<int>)
    requires |order| == 64 && forall k :: 0 <= k < 64 ==> order[k] < 64
    ensures |zz| == 64
  {
    seq(64, k requires 0 <= k < 64 => block[order[k]])
  }

  /** A block is determined by its zigzag sequence. */
  lemma ZigzagDetermines(order: seq<nat>, a: Block, b: Block)
    requires IsOrder(order) && Zigzag(order, a) == Zigzag(order, b)
    ensures a == b
  {
    forall i | 0 <= i < 64 ensures a[i] == b[i] {
      assert i in order;
      var k :| 0 <= k < 64 && order[k] == i;
      assert Zigzag(order, a)[k] == a[i] && Zigzag(order, b)[k] == b[i];
    }
  }

  // ---------- magnitudes ----------

  /** The number of bits of a magnitude. */
  function NBits(v: nat): nat {
    if v == 0 then 0 else 1 + NBits(v / 2)
  }

  /** The 32-bit word whose low bits are sent for a coefficient: the value itself, or for a
      negative one the complement of its magnitude. */
  function Word(v: int): (w: nat)
    requires -0x8000_0000 < v < 0x8000_0000
    ensures w < 0x1_0000_0000
  {
    if v < 0 then 0x1_0000_0000 + v - 1 else v
  }

  lemma {:induction false} NBitsBounds(v: nat)
    ensures v < Pow2(NBits(v))
    ensures v > 0 ==> NBits(v) >= 1 && Pow2(NBits(v) - 1) <= v
  {
    if v != 0 {
      NBitsBounds(v / 2);
    }
  }

  lemma {:induction false} NBitsSmall(v: nat, n: nat)
    requires NBits(v) <= n
    ensures v < Pow2(n)
  {
    NBitsBounds(v);
    Pow2Mono(NBits(v), n);
  }

  /** EXTEND, figure F.12 of T.81. */
  function Extend(v: nat, t: nat): int
    requires t >= 1
  {
    if v < Pow2(t - 1) then v - Pow2(t) + 1 else v
  }

  /** The low bits of the word: the value, or 2^n - 1 less the magnitude. */
  lemma WordLowBits(v: int, n: nat)
    requires n <= 16 && Abs(v) < Pow2(n) <= 0x1_0000 && v != 0
    ensures Word(v) % Pow2(n) == if v > 0 then v else Pow2(n) + v - 1
  {
    var p := Pow2(n);
    if v > 0 {
      DivModUnique(v, p, 0, v);
    } else {
      var q := Pow2(32 - n);
      assert 0x1_0000_0000 == q * p by { Pow2Add(32 - n, n); Pow2Literals(); }
      MulDistrib(q, -1, p);
      DivModUnique(Word(v), p, q - 1, p + v - 1);
    }
  }

  lemma ExtendWord(v: int)
    requires v != 0 && NBits(Abs(v)) <= 16
    ensures -0x8000_0000 < v < 0x8000_0000 && NBits(Abs(v)) >= 1
    ensures Extend(Val(ToBits(Word(v), NBits(Abs(v)))), NBits(Abs(v))) == v
  {
    var n := NBits(Abs(v));
    NBitsBounds(Abs(v));
    assert Pow2(n) <= 0x1_0000 by { Pow2Mono(n, 16); Pow2Literals(); }
    ValToBits(Word(v), n);
    WordLowBits(v, n);
  }

  // ---------- tokens ----------

  /** What the encoder sends: a Huffman symbol of the DC or the AC table, or raw bits. Bad marks a
      coefficient that is out of range. */
  datatype Token = Symbol(ac: bool, symbol: byte) | Extra(value: nat, size: nat) | Bad

  function ExtraToken(v: int): Token
    requires NBits(Abs(v)) <= MAX_COEF_BITS + 1
  {
    NBitsSmall(Abs(v), 11);
    Pow2Mono(11, 16);
    Pow2Literals();
    Extra(Word(v), NBits(Abs(v)))
  }

  function DcTokens(diff: int): seq<Token> {
    var n := NBits(Abs(diff));
    if n > MAX_COEF_BITS + 1 then [Bad]
    else if n == 0 then [Symbol(false, 0)]
    else [Symbol(false, n), ExtraToken(diff)]
  }

  /** Tokens for zigzag positions k to 63, with r zeros pending. */
  function AcTokens(zz: seq<int>, k: nat, r: nat): seq<Token>
    requires |zz| == 64 && k <= 64
    decreases |zz| - k, r
  {
    if k == 64 then (if r > 0 then [Symbol(true, EOB)] else [])
    else if zz[k] == 0 then AcTokens(zz, k + 1, r + 1)
    else if r > 15 then [Symbol(true, ZRL)] + AcTokens(zz, k, r - 16)
    else
      var n := NBits(Abs(zz[k]));
      if n > MAX_COEF_BITS then [Bad]
      else [Symbol(true, r * 16 + n), ExtraToken(zz[k])] + AcTokens(zz, k + 1, 0)
  }

  function BlockTokens(zz: seq<int>, lastDc: int): seq<Token>
    requires |zz| == 64
  {
    DcTokens(zz[0] - lastDc) + AcTokens(zz, 1, 0)
  }

  /** Zeros to the end of a block are one symbol. */
  lemma {:induction false} ZeroTail(zz: seq<int>, k: nat, r: nat)
    requires |zz| == 64 && k <= 64 && r + 64 > k && forall i :: k <= i < 64 ==> zz[i] == 0
    ensures AcTokens(zz, k, r) == [Symbol(true, EOB)]
    decreases 64 - k
  {
    if k < 64 {
      ZeroTail(zz, k + 1, r + 1);
    }
  }

  lemma {:induction false} ZeroRun(zz: seq<int>, k: nat, m: nat, r: nat)
    requires |zz| == 64 && k <= m < 64 && forall i :: k <= i < m ==> zz[i] == 0
    ensures AcTokens(zz, k, r) == AcTokens(zz, m, r + m - k)
    decreases m - k
  {
    if k < m {
      ZeroRun(zz, k + 1, m, r + 1);
    }
  }

  lemma ZeroDcTokens()
    ensures DcTokens(0) == [Symbol(false, 0)]
  {
    assert NBits(0) == 0;
  }

  /** Every coefficient, and the DC difference, has a legal size. */
  ghost predicate InRange(zz: seq<int>, lastDc: int) {
    && |zz| == 64 && NBits(Abs(zz[0] - lastDc)) <= MAX_COEF_BITS + 1
    && SmallFrom(zz, 1)
  }

  // ---------- coding tokens ----------

  ghost predicate Encodable(t: Token, dc: DerivedTable, ac: DerivedTable)
    requires dc.Shaped() && ac.Shaped()
  {
    match t
    case Symbol(isAc, s) => if isAc then ac.Codes(s) else dc.Codes(s)
    case Extra(_, size) => size > 0
    case Bad => false
  }

  ghost predicate AllEncodable(ts: seq<Token>, dc: DerivedTable, ac: DerivedTable)
    requires dc.Shaped() && ac.Shaped()
  {
    forall i :: 0 <= i < |ts| ==> Encodable(ts[i], dc, ac)
  }

  function TokenBits(t: Token, dc: DerivedTable, ac: DerivedTable): Bits
    requires dc.Shaped() && ac.Shaped()
  {
    match t
    case Symbol(isAc, s) =>
      if isAc then ToBits(ac.ehufco[s], ac.ehufsi[s]) else ToBits(dc.ehufco[s], dc.ehufsi[s])
    case Extra(value, size) => ToBits(value, size)
    case Bad => []
  }

  function BitsOf(ts: seq<Token>, dc: DerivedTable, ac: DerivedTable): Bits
    requires dc.Shaped() && ac.Shaped()
  {
    if ts == [] then [] else TokenBits(ts[0], dc, ac) + BitsOf(ts[1..], dc, ac)
  }

  lemma {:induction false} BitsOfAppend(a: seq<Token>, b: seq<Token>, dc: DerivedTable, ac: DerivedTable)
    requires dc.Shaped() && ac.Shaped()
    ensures BitsOf(a + b, dc, ac) == BitsOf(a, dc, ac) + BitsOf(b, dc, ac)
  {
    if a == [] {
      assert a + b == b;
    } else {
      assert (a + b)[1..] == a[1..] + b;
      BitsOfAppend(a[1..], b, dc, ac);
    }
  }

  // ---------- decoding ----------

  lemma PrefixesComparable(x: Bits, y: Bits, b: Bits)
    ensures x <= b && y <= b ==> x <= y || y <= x
  {
    if x <= b && y <= b && |x| <= |y| {
      assert x == b[..|x|] && y == b[..|y|];
    }
  }

  datatype Decoded<T> = Decoded(value: T, rest: Bits)

  /** The first symbol from s on whose code the bits start with. */
  ghost function Match(d: DerivedTable, bits: Bits, s: nat): Option<byte>
    requires d.Shaped() && s <= 256
    decreases 256 - s, bits
  {
    if s == 256 then None
    else if d.Codes(s) && d.Code(s) <= bits then Some(s)
    else Match(d, bits, s + 1)
  }

  lemma {:induction false} MatchFinds(d: DerivedTable, s: byte, rest: Bits, from: nat)
    requires d.Shaped() && d.PrefixFree() && d.Codes(s) && from <= s
    ensures Match(d, d.Code(s) + rest, from) == Some(s)
    decreases s - from
  {
    var bits := d.Code(s) + rest;
    assert d.Code(s) <= bits;
    if from < s {
      PrefixesComparable(d.Code(from), d.Code(s), bits);
      MatchFinds(d, s, rest, from + 1);
    }
  }

  /** DECODE: the Huffman symbol whose code comes next. */
  ghost function DecodeSymbol(d: DerivedTable, bits: Bits): Option<Decoded<byte>>
    requires d.Shaped()
  {
    match Match(d, bits, 0)
    case None => None
    case Some(s) => if |d.Code(s)| <= |bits| then Some(Decoded(s, bits[|d.Code(s)|..])) else None
  }

  lemma DecodeSymbolInverts(d: DerivedTable, s: byte, rest: Bits)
    requires d.Shaped() && d.PrefixFree() && d.Codes(s)
    ensures DecodeSymbol(d, d.Code(s) + rest) == Some(Decoded(s, rest))
  {
    MatchFinds(d, s, rest, 0);
  }

  /** RECEIVE and EXTEND: a signed value of n bits. */
  ghost function DecodeValue(bits: Bits, n: nat): Option<Decoded<int>> {
    if n > |bits| then None
    else if n == 0 then Some(Decoded(0, bits))
    else Some(Decoded(Extend(Val(bits[..n]), n), bits[n..]))
  }

  lemma DecodeValueInverts(v: int, rest: Bits)
    requires v != 0 && NBits(Abs(v)) <= MAX_COEF_BITS + 1
    ensures var t := ExtraToken(v);
            DecodeValue(ToBits(t.value, t.size) + rest, t.size) == Some(Decoded(v, rest))
  {
    ExtendWord(v);
    var t := ExtraToken(v);
    var x := ToBits(t.value, t.size);
    assert (x + rest)[..t.size] == x && (x + rest)[t.size..] == rest;
  }

  ghost function DecodeDc(dc: DerivedTable, bits: Bits): Option<Decoded<int>>
    requires dc.Shaped()
  {
    match DecodeSymbol(dc, bits)
    case None => None
    case Some(d) => DecodeValue(d.rest, d.value)
  }

  /** The AC loop of figure F.13: zz holds the coefficients decoded so far. */
  ghost function DecodeAc(ac: DerivedTable, bits: Bits, zz: seq<int>): Option<Decoded<seq<int>>>
    requires ac.Shaped() && |zz| <= 64
    decreases 64 - |zz|
  {
    if |zz| == 64 then Some(Decoded(zz, bits)) else
      match DecodeSymbol(ac, bits)
      case None => None
      case Some(d) =>
        var run, size := d.value / 16, d.value % 16;
        if size == 0 then
          if run < 15 then Some(Decoded(zz + Repeat<int>(0, 64 - |zz|), d.rest))
          else if |zz| + 16 > 64 then None
          else DecodeAc(ac, d.rest, zz + Repeat<int>(0, 16))
        else if |zz| + run >= 64 then None
        else
          match DecodeValue(d.rest, size)
          case None => None
          case Some(v) => DecodeAc(ac, v.rest, zz + Repeat<int>(0, run) + [v.value])
  }

  /** One block, in zigzag order, from its DC predictor. */
  ghost function DecodeBlock(dc: DerivedTable, ac: DerivedTable, bits: Bits, lastDc: int): Option<Decoded<seq<int>>>
    requires dc.Shaped() && ac.Shaped()
  {
    match DecodeDc(dc, bits)
    case None => None
    case Some(d) => DecodeAc(ac, d.rest, [lastDc + d.value])
  }

  // ---------- the round trip ----------

  /** The first token of a list, and the bits after it. */
  lemma FirstToken(t: Token, ts: seq<Token>, dc: DerivedTable, ac: DerivedTable, rest: Bits)
    requires dc.Shaped() && ac.Shaped()
    ensures BitsOf([t] + ts, dc, ac) + rest == TokenBits(t, dc, ac) + (BitsOf(ts, dc, ac) + rest)
    ensures AllEncodable([t] + ts, dc, ac) <==> Encodable(t, dc, ac) && AllEncodable(ts, dc, ac)
  {
    assert ([t] + ts)[1..] == ts;
    EncodableParts([t], ts, dc, ac);
    assert [t][0] == t;
  }

  lemma DcRoundTrip(diff: int, dc: DerivedTable, ac: DerivedTable, rest: Bits)
    requires dc.Shaped() && ac.Shaped() && dc.PrefixFree() && AllEncodable(DcTokens(diff), dc, ac)
    ensures DecodeDc(dc, BitsOf(DcTokens(diff), dc, ac) + rest) == Some(Decoded(diff, rest))
  {
    var n := NBits(Abs(diff));
    assert Encodable(DcTokens(diff)[0], dc, ac);
    var s := Symbol(false, n);
    var extra := if n == 0 then [] else [ExtraToken(diff)];
    assert DcTokens(diff) == [s] + extra;
    FirstToken(s, extra, dc, ac, rest);
    DecodeSymbolInverts(dc, n, BitsOf(extra, dc, ac) + rest);
    NBitsBounds(Abs(diff));
    if n != 0 {
      OneToken(ExtraToken(diff), dc, ac);
      DecodeValueInverts(diff, rest);
    } else {
      assert BitsOf(extra, dc, ac) + rest == rest;
    }
  }

  lemma OneToken(t: Token, dc: DerivedTable, ac: DerivedTable)
    requires dc.Shaped() && ac.Shaped()
    ensures BitsOf([t], dc, ac) == TokenBits(t, dc, ac)
  {
    assert [t][1..] == [];
  }

  /** Decoding one run and size, and the bits of the coefficient. */
  lemma DecodeAcCoefficient(ac: DerivedTable, zz: seq<int>, r: nat, v: int, rest: Bits)
    requires ac.Shaped() && ac.PrefixFree() && v != 0 && NBits(Abs(v)) <= MAX_COEF_BITS
    requires r <= 15 && |zz| + r < 64 && ac.Codes(r * 16 + NBits(Abs(v)))
    ensures var t := ExtraToken(v);
            DecodeAc(ac, ac.Code(r * 16 + NBits(Abs(v))) + (ToBits(t.value, t.size) + rest), zz)
            == DecodeAc(ac, rest, zz + Repeat<int>(0, r) + [v])
  {
    var t, n := ExtraToken(v), NBits(Abs(v));
    NBitsBounds(Abs(v));
    DecodeSymbolInverts(ac, r * 16 + n, ToBits(t.value, t.size) + rest);
    DecodeValueInverts(v, rest);
    assert (r * 16 + n) / 16 == r && (r * 16 + n) % 16 == n;
  }

  /** The tokens of a coefficient in range, and those after it. */
  lemma CoefficientTokens(zz: seq<int>, k: nat, r: nat, dc: DerivedTable, ac: DerivedTable, rest: Bits)
    requires dc.Shaped() && ac.Shaped() && |zz| == 64 && k < 64 && r <= 15 && zz[k] != 0
    requires AllEncodable(AcTokens(zz, k, r), dc, ac)
    ensures NBits(Abs(zz[k])) <= MAX_COEF_BITS
    ensures ac.Codes(r * 16 + NBits(Abs(zz[k]))) && AllEncodable(AcTokens(zz, k + 1, 0), dc, ac)
    ensures var s, x, more := r * 16 + NBits(Abs(zz[k])), ExtraToken(zz[k]), AcTokens(zz, k + 1, 0);
            BitsOf(AcTokens(zz, k, r), dc, ac) + rest
            == ac.Code(s) + (ToBits(x.value, x.size) + (BitsOf(more, dc, ac) + rest))
  {
    assert Encodable(AcTokens(zz, k, r)[0], dc, ac);
    var s, x, more := Symbol(true, r * 16 + NBits(Abs(zz[k]))), ExtraToken(zz[k]), AcTokens(zz, k + 1, 0);
    assert AcTokens(zz, k, r) == [s] + ([x] + more);
    FirstToken(s, [x] + more, dc, ac, rest);
    FirstToken(x, more, dc, ac, rest);
  }

  /** Reading a coefficient: its run and size, then its bits. */
  lemma CoefficientStep(zz: seq<int>, k: nat, p: nat, dc: DerivedTable, ac: DerivedTable, rest: Bits)
    requires dc.Shaped() && ac.Shaped() && ac.PrefixFree() && |zz| == 64
    requires p <= k < 64 && k - p <= 15 && zz[k] != 0 && forall i :: p <= i < k ==> zz[i] == 0
    requires AllEncodable(AcTokens(zz, k, k - p), dc, ac)
    ensures AllEncodable(AcTokens(zz, k + 1, 0), dc, ac)
    ensures DecodeAc(ac, BitsOf(AcTokens(zz, k, k - p), dc, ac) + rest, zz[..p])
            == DecodeAc(ac, BitsOf(AcTokens(zz, k + 1, 0), dc, ac) + rest, zz[..k + 1])
  {
    hide AcTokens, DecodeAc, BitsOf, AllEncodable;
    assert zz[..p] + Repeat<int>(0, k - p) + [zz[k]] == zz[..k + 1];
    CoefficientTokens(zz, k, k - p, dc, ac, rest);
    var tail := BitsOf(AcTokens(zz, k + 1, 0), dc, ac) + rest;
    DecodeAcCoefficient(ac, zz[..p], k - p, zz[k], tail);
  }

  /** Reading a run of sixteen zeros. */
  lemma ZeroRunStep(zz: seq<int>, k: nat, r: nat, dc: DerivedTable, ac: DerivedTable, rest: Bits)
    requires dc.Shaped() && ac.Shaped() && ac.PrefixFree() && |zz| == 64
    requires 15 < r < k < 64 && zz[k] != 0 && forall i :: k - r <= i < k ==> zz[i] == 0
    requires AllEncodable(AcTokens(zz, k, r), dc, ac)
    ensures AllEncodable(AcTokens(zz, k, r - 16), dc, ac)
    ensures DecodeAc(ac, BitsOf(AcTokens(zz, k, r), dc, ac) + rest, zz[..k - r])
            == DecodeAc(ac, BitsOf(AcTokens(zz, k, r - 16), dc, ac) + rest, zz[..k - r + 16])
  {
    var more := AcTokens(zz, k, r - 16);
    FirstToken(Symbol(true, ZRL), more, dc, ac, rest);
    DecodeSymbolInverts(ac, ZRL, BitsOf(more, dc, ac) + rest);
    assert zz[..k - r] + Repeat<int>(0, 16) == zz[..k - r + 16];
  }

  /** The end of the block: an end-of-block code if zeros are pending. */
  lemma EndStep(zz: seq<int>, r: nat, dc: DerivedTable, ac: DerivedTable, rest: Bits)
    requires dc.Shaped() && ac.Shaped() && ac.PrefixFree() && |zz| == 64
    requires r < 64 && forall i :: 64 - r <= i < 64 ==> zz[i] == 0
    requires AllEncodable(AcTokens(zz, 64, r), dc, ac)
    ensures DecodeAc(ac, BitsOf(AcTokens(zz, 64, r), dc, ac) + rest, zz[..64 - r]) == Some(Decoded(zz, rest))
  {
    if r > 0 {
      assert Encodable(AcTokens(zz, 64, r)[0], dc, ac);
      OneToken(Symbol(true, EOB), dc, ac);
      DecodeSymbolInverts(ac, EOB, rest);
      assert zz[..64 - r] + Repeat<int>(0, r) == zz;
    } else {
      assert zz[..64] == zz;
      assert BitsOf([], dc, ac) + rest == rest;
    }
  }

  /** The AC decoder reads back exactly what was coded, whatever follows it. Here zz[p..k] are the
      zeros that are pending. */
  lemma {:induction false} AcRoundTrip(zz: seq<int>, k: nat, p: nat, dc: DerivedTable, ac: DerivedTable, rest: Bits)
    requires dc.Shaped() && ac.Shaped() && ac.PrefixFree() && |zz| == 64
    requires 0 < p <= k <= 64 && forall i :: p <= i < k ==> zz[i] == 0
    requires AllEncodable(AcTokens(zz, k, k - p), dc, ac)
    ensures DecodeAc(ac, BitsOf(AcTokens(zz, k, k - p), dc, ac) + rest, zz[..p]) == Some(Decoded(zz, rest))
    decreases 64 - k, k - p
  {
    if k == 64 {
      EndStep(zz, 64 - p, dc, ac, rest);
      assert 64 - (64 - p) == p;
    } else if zz[k] == 0 {
      AcRoundTrip(zz, k + 1, p, dc, ac, rest);
    } else if k - p > 15 {
      ZeroRunStep(zz, k, k - p, dc, ac, rest);
      assert k - (k - p) == p;
      AcRoundTrip(zz, k, p + 16, dc, ac, rest);
    } else {
      CoefficientStep(zz, k, p, dc, ac, rest);
      AcRoundTrip(zz, k + 1, k + 1, dc, ac, rest);
    }
  }

  lemma EncodableParts(a: seq<Token>, b: seq<Token>, dc: DerivedTable, ac: DerivedTable)
    requires dc.Shaped() && ac.Shaped()
    ensures AllEncodable(a + b, dc, ac) <==> AllEncodable(a, dc, ac) && AllEncodable(b, dc, ac)
  {
    assert forall i :: 0 <= i < |a| ==> (a + b)[i] == a[i];
    assert forall i :: 0 <= i < |b| ==> (a + b)[|a| + i] == b[i];
  }

  lemma BitsOfSplit(a: seq<Token>, b: seq<Token>, dc: DerivedTable, ac: DerivedTable, rest: Bits)
    requires dc.Shaped() && ac.Shaped()
    ensures BitsOf(a + b, dc, ac) + rest == BitsOf(a, dc, ac) + (BitsOf(b, dc, ac) + rest)
  {
    BitsOfAppend(a, b, dc, ac);
  }

  lemma AcPartRoundTrip(zz: seq<int>, dc: DerivedTable, ac: DerivedTable, rest: Bits)
    requires dc.Shaped() && ac.Shaped() && ac.PrefixFree() && |zz| == 64
    requires AllEncodable(AcTokens(zz, 1, 0), dc, ac)
    ensures DecodeAc(ac, BitsOf(AcTokens(zz, 1, 0), dc, ac) + rest, [zz[0]]) == Some(Decoded(zz, rest))
  {
    AcRoundTrip(zz, 1, 1, dc, ac, rest);
    assert zz[..1] == [zz[0]];
  }

  /** A coded block decodes to itself, using exactly its own bits. */
  lemma BlockRoundTrip(zz: seq<int>, lastDc: int, dc: DerivedTable, ac: DerivedTable, rest: Bits)
    requires dc.Shaped() && ac.Shaped() && dc.PrefixFree() && ac.PrefixFree() && |zz| == 64
    requires AllEncodable(BlockTokens(zz, lastDc), dc, ac)
    ensures DecodeBlock(dc, ac, BitsOf(BlockTokens(zz, lastDc), dc, ac) + rest, lastDc) == Some(Decoded(zz, rest))
  {
    hide BitsOf, DecodeBlock, DecodeDc, DecodeAc, AcTokens, DcTokens, AllEncodable;
    var diff := zz[0] - lastDc;
    var tail := BitsOf(AcTokens(zz, 1, 0), dc, ac) + rest;
    EncodableParts(DcTokens(diff), AcTokens(zz, 1, 0), dc, ac);
    BitsOfSplit(DcTokens(diff), AcTokens(zz, 1, 0), dc, ac, rest);
    var bits := BitsOf(DcTokens(diff), dc, ac) + tail;
    DcRoundTrip(diff, dc, ac, tail);
    AcPartRoundTrip(zz, dc, ac, rest);
    DecodeBlockParts(dc, ac, bits, lastDc, zz[0], tail, Decoded(zz, rest));
  }

  lemma DecodeBlockParts(dc: DerivedTable, ac: DerivedTable, bits: Bits, lastDc: int, first: int, tail: Bits,
                         r: Decoded<seq<int>>)
    requires dc.Shaped() && ac.Shaped() && DecodeDc(dc, bits) == Some(Decoded(first - lastDc, tail))
    requires DecodeAc(ac, tail, [first]) == Some(r)
    ensures DecodeBlock(dc, ac, bits, lastDc) == Some(r)
  {
  }

  // ---------- when a block is encodable ----------

  ghost predicate SmallFrom(zz: seq<int>, k: nat)
    requires |zz| == 64
  {
    forall i :: k <= i < 64 ==> NBits(Abs(zz[i])) <= MAX_COEF_BITS
  }

  lemma {:induction false} AcNotBad(zz: seq<int>, k: nat, r: nat)
    requires |zz| == 64 && k <= 64
    ensures Bad !in AcTokens(zz, k, r) <==> SmallFrom(zz, k)
    decreases 64 - k, r
  {
    if k == 64 {
    } else if zz[k] == 0 {
      AcNotBad(zz, k + 1, r + 1);
      assert SmallFrom(zz, k) <==> SmallFrom(zz, k + 1);
    } else if r > 15 {
      AcNotBad(zz, k, r - 16);
    } else if NBits(Abs(zz[k])) > MAX_COEF_BITS {
      assert AcTokens(zz, k, r) == [Bad];
    } else {
      AcNotBad(zz, k + 1, 0);
      assert SmallFrom(zz, k) <==> SmallFrom(zz, k + 1);
    }
  }

  /** The range checks reject exactly the blocks that are out of range. */
  lemma BadIffOutOfRange(zz: seq<int>, lastDc: int)
    requires |zz| == 64
    ensures Bad !in BlockTokens(zz, lastDc) <==> InRange(zz, lastDc)
  {
    AcNotBad(zz, 1, 0);
  }
}
