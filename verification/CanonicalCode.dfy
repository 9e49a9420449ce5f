/** Huffman table specifications and the code tables derived from them (Annex C of T.81). */
module CanonicalCode {
  import opened Powers
  import opened BitStrings
  import opened BytePacking

  type CodeLength = l: int | 1 <= l <= 16 witness 1

  datatype Option<T> = None | Some(value: T)

  /** A Huffman table as a JPEG file carries it: bits[l] codes of length l, and the symbols in
      order of increasing code length. Both arrays hold unsigned bytes. */
  datatype HuffTable = HuffTable(bits: seq<byte>, huffval: seq<byte>) {
    ghost predicate Shaped() {
      |bits| == 17 && |huffval| == 256
    }
  }

  /** Code and code length for each symbol; length 0 means the symbol has no code. */
  datatype DerivedTable = DerivedTable(ehufco: seq<nat>, ehufsi: seq<nat>) {
    ghost predicate Shaped() {
      |ehufco| == 256 && |ehufsi| == 256
    }

    ghost predicate Codes(symbol: nat)
      requires Shaped()
    {
      symbol < 256 && ehufsi[symbol] != 0
    }

    ghost function Code(symbol: nat): Bits
      requires Shaped() && symbol < 256
    {
      ToBits(ehufco[symbol], ehufsi[symbol])
    }

    /** No code is longer than 16 bits. */
    ghost predicate Usable() {
      && Shaped()
      && forall s :: 0 <= s < 256 ==> ehufsi[s] <= 16
    }

    /** No code is a prefix of another, and none is all ones. */
    ghost predicate PrefixFree()
      requires Shaped()
    {
      && (forall s: nat, u: nat {:trigger Code(s), Code(u)} :: Codes(s) && Codes(u) && s != u ==> !(Code(s) <= Code(u)))
      && (forall s: nat :: Codes(s) ==> Code(s) != Ones(|Code(s)|))
    }
  }

  // ---------- lengths ----------

  /** The number of codes of length at most l. */
  function Total(bits: seq<nat>, l: nat): nat
    requires l < |bits|
  {
    if l == 0 then 0 else Total(bits, l - 1) + bits[l]
  }

  /** The Kraft sum of the codes of length at most l, in units of 2^-d. */
  function Kraft(bits: seq<nat>, l: nat, d: nat): int
    requires l < |bits| && l <= d
  {
    if l == 0 then 0 else Kraft(bits, l - 1, d) + Scale(bits[l], d - l)
  }

  /** The code lengths, in the order of the codes. */
  function Sizes(bits: seq<nat>, l: nat): (s: seq<CodeLength>)
    requires l < |bits| && l <= 16
    ensures |s| == Total(bits, l)
    ensures forall p :: 0 <= p < |s| ==> s[p] <= l
  {
    if l == 0 then [] else Sizes(bits, l - 1) + Run(l, bits[l])
  }

  function Run(l: CodeLength, n: nat): (s: seq<CodeLength>)
    ensures |s| == n
  {
    seq(n, _ => l)
  }

  lemma {:induction false} SizesAscend(bits: seq<nat>, l: nat)
    requires l < |bits| && l <= 16
    ensures Ascending(Sizes(bits, l))
  {
    if l != 0 {
      SizesAscend(bits, l - 1);
    }
  }

  lemma {:induction false} TotalMono(bits: seq<nat>, l: nat, m: nat)
    requires l <= m < |bits|
    ensures Total(bits, l) <= Total(bits, m)
  {
    if l < m {
      TotalMono(bits, l, m - 1);
    }
  }

  ghost predicate Ascending(sizes: seq<CodeLength>) {
    forall p, q :: 0 <= p < q < |sizes| ==> sizes[p] <= sizes[q]
  }

  /** Position on the unit interval, in units of 2^-16, of code c of length l. */
  function Position(c: int, l: nat): int
    requires l <= 16
  {
    Scale(c, 16 - l)
  }

  /** The part of the unit interval a code of length l takes. */
  function Room(l: CodeLength): int {
    Position(1, l)
  }

  /** The room taken by the codes before code p. */
  ghost function Before(sizes: seq<CodeLength>, p: nat): int
    requires p <= |sizes|
  {
    if p == 0 then 0 else Before(sizes, p - 1) + Room(sizes[p - 1])
  }

  lemma RoomPositive(l: CodeLength)
    ensures Room(l) > 0
  {
    var free: nat := 16 - l;
    ScaleZero(free);
    ScaleLess(0, 1, free);
  }

  lemma NextPosition(c: int, l: CodeLength)
    ensures Position(c + 1, l) == Position(c, l) + Room(l)
  {
    var free: nat := 16 - l;
    ScaleAdd(c, 1, free);
  }

  lemma {:induction false} BeforeMono(sizes: seq<CodeLength>, p: nat, q: nat)
    requires p <= q <= |sizes|
    ensures Before(sizes, p) <= Before(sizes, q)
  {
    if p < q {
      RoomPositive(sizes[q - 1]);
      BeforeMono(sizes, p, q - 1);
    }
  }

  /** A code's room lies before every later code. */
  lemma {:induction false} BeforeGap(sizes: seq<CodeLength>, p: nat, q: nat)
    requires p < q <= |sizes|
    ensures Before(sizes, p) + Room(sizes[p]) <= Before(sizes, q)
  {
    if p + 1 < q {
      RoomPositive(sizes[q - 1]);
      BeforeGap(sizes, p, q - 1);
    }
  }

  lemma {:induction false} BeforePrefix(a: seq<CodeLength>, b: seq<CodeLength>, p: nat)
    requires p <= |a|
    ensures Before(a + b, p) == Before(a, p)
  {
    if p != 0 {
      BeforePrefix(a, b, p - 1);
    }
  }

  lemma {:induction false} BeforeRun(a: seq<CodeLength>, l: CodeLength, n: nat)
    ensures Before(a + Run(l, n), |a| + n) == Before(a, |a|) + Position(n, l)
  {
    if n == 0 {
      assert a + Run(l, n) == a;
      ScaleZero(16 - l);
    } else {
      var s := a + Run(l, n - 1);
      assert a + Run(l, n) == s + [l];
      BeforePrefix(s, [l], |a| + n - 1);
      BeforeRun(a, l, n - 1);
      NextPosition(n - 1, l);
    }
  }

  /** The room all codes of length at most l use is their Kraft sum. */
  lemma {:induction false} BeforeIsKraft(bits: seq<nat>, l: nat)
    requires l < |bits| && l <= 16
    ensures Before(Sizes(bits, l), Total(bits, l)) == Kraft(bits, l, 16)
  {
    if l != 0 {
      BeforeIsKraft(bits, l - 1);
      BeforeRun(Sizes(bits, l - 1), l, bits[l]);
    }
  }

  // ---------- the derivation ----------

  /** The codes so far are the canonical ones for these lengths. */
  ghost predicate Canonical(sizes: seq<CodeLength>, codes: seq<nat>) {
    && |codes| <= |sizes|
    && forall p :: 0 <= p < |codes| ==> Position(codes[p], sizes[p]) == Before(sizes, p)
  }

  lemma BeforeNext(sizes: seq<CodeLength>, p: nat)
    requires p < |sizes|
    ensures Before(sizes, p + 1) == Before(sizes, p) + Room(sizes[p])
  {
  }

  lemma NextCode(sizes: seq<CodeLength>, codes: seq<nat>, code: nat)
    requires Canonical(sizes, codes) && |codes| < |sizes|
    requires Position(code, sizes[|codes|]) == Before(sizes, |codes|)
    ensures Canonical(sizes, codes + [code])
    ensures Position(code + 1, sizes[|codes|]) == Before(sizes, |codes| + 1)
  {
    hide Scale, Before;
    assert Before(sizes, |codes| + 1) == Before(sizes, |codes|) + Room(sizes[|codes|]) by {
      BeforeNext(sizes, |codes|);
    }
    hide Position;
    NextPosition(code, sizes[|codes|]);
    var more := codes + [code];
    forall p | 0 <= p < |more|
      ensures Position(more[p], sizes[p]) == Before(sizes, p)
    {
      assert p < |codes| ==> more[p] == codes[p];
    }
  }

  function Ended(sizes: seq<nat>): (s: seq<nat>)
    ensures |s| == |sizes| + 1
  {
    sizes + [0]
  }

  /** Figure C.1: the code length of each symbol, ended by a zero. Fails if there would be more
      than 256 symbols. */
  method HuffSizes(bits: seq<byte>) returns (r: Option<seq<nat>>)
    requires |bits| == 17
    ensures r.Some? <==> Total(bits, 16) <= 256
    ensures r.Some? ==> r.value == Ended(Sizes(bits, 16))
  {
    var huffsize := new nat[257];
    var p := 0;
    for l := 1 to 17
      invariant p == Total(bits, l - 1) <= 256
      invariant huffsize[..p] == Sizes(bits, l - 1)
    {
      var i: nat := bits[l];
      TotalMono(bits, l, 16);
      if p + i > 256 {
        return None;
      }
      ghost var start := p;
      while i > 0
        invariant 0 <= i <= bits[l] && p == start + bits[l] - i
        invariant huffsize[..p] == Sizes(bits, l - 1) + Run(l, bits[l] - i)
      {
        huffsize[p] := l;
        assert huffsize[..p + 1] == huffsize[..p] + [l];
        p := p + 1;
        i := i - 1;
      }
    }
    huffsize[p] := 0;
    assert huffsize[..p + 1] == huffsize[..p] + [0];
    r := Some(huffsize[..p + 1]);
  }

  /** Figure C.2: the codes, with the check that they form a legal code tree. */
  method HuffCodes(huffsize: seq<nat>, ghost sizes: seq<CodeLength>) returns (r: Option<seq<nat>>)
    requires huffsize == Ended(sizes) && |sizes| <= 256 && Ascending(sizes)
    ensures r.Some? <==> Before(sizes, |sizes|) < 0x1_0000
    ensures r.Some? ==> |r.value| == |sizes| && Canonical(sizes, r.value)
  {
    var huffcode: seq<nat> := [];
    var code, si, p := 0, huffsize[0], 0;
    if si != 0 {
      ScaleZero(16 - si);
    }
    while huffsize[p] != 0
      invariant 0 <= p == |huffcode| <= |sizes| && 0 <= code && Before(sizes, p) < 0x1_0000
      invariant Canonical(sizes, huffcode)
      invariant p < |sizes| ==> 1 <= si <= sizes[p] && Position(code, si) == Before(sizes, p)
      decreases if p < |sizes| then 17 - si else 0
    {
      huffcode, code, p := CodesOfLength(huffsize, sizes, huffcode, code, si);
      RoomLeft(code, si);
      if code >= Pow2(si) {
        BeforeMono(sizes, p, |sizes|);
        return None;
      }
      if p < |sizes| {
        NextLength(code, si);
      }
      code := 2 * code;
      si := si + 1;
    }
    r := Some(huffcode);
  }

  /** The inner loop: consecutive codes for all symbols of one length. */
  method CodesOfLength(huffsize: seq<nat>, ghost sizes: seq<CodeLength>, codes: seq<nat>, first: nat, si: nat)
      returns (huffcode: seq<nat>, code: nat, p: nat)
    requires huffsize == Ended(sizes) && Ascending(sizes) && Canonical(sizes, codes) && 1 <= si <= 16
    requires |codes| < |sizes| && si <= sizes[|codes|] && Position(first, si) == Before(sizes, |codes|)
    ensures |codes| <= p == |huffcode| <= |sizes| && Canonical(sizes, huffcode)
    ensures Position(code, si) == Before(sizes, p) && (p < |sizes| ==> si < sizes[p])
  {
    hide Scale, Position, Before, Canonical;
    huffcode, code, p := codes, first, |codes|;
    while huffsize[p] == si
      invariant |codes| <= p == |huffcode| <= |sizes|
      invariant p < |sizes| ==> si <= sizes[p]
      invariant Canonical(sizes, huffcode) && Position(code, si) == Before(sizes, p)
      decreases |sizes| - p
    {
      NextCode(sizes, huffcode, code);
      huffcode := huffcode + [code];
      code, p := code + 1, p + 1;
    }
  }

  /** Doubling the code for the next length keeps its position. */
  lemma NextLength(code: nat, si: CodeLength)
    requires si < 16
    ensures Position(2 * code, si + 1) == Position(code, si)
  {
  }

  /** The test in figure C.2: code < 2^si exactly when the room used so far is below 1. */
  lemma RoomLeft(code: nat, si: CodeLength)
    ensures code < Pow2(si) <==> Position(code, si) < 0x1_0000
  {
    var free: nat := 16 - si;
    ScaleLess(code, Pow2(si), free);
    ScaleIsMul(Pow2(si), free);
    Pow2Add(si, free);
    Pow2Literals();
  }

  function MaxSymbol(isDC: bool): nat {
    if isDC then 15 else 255
  }

  /** The first n symbols are in range and differ from each other. */
  ghost predicate GoodSymbols(huffval: seq<byte>, n: nat, isDC: bool)
    requires n <= |huffval|
  {
    && (forall p :: 0 <= p < n ==> huffval[p] <= MaxSymbol(isDC))
    && (forall p, q :: 0 <= p < q < n ==> huffval[p] != huffval[q])
  }

  /** Exactly the tables the validation lets through. */
  ghost predicate Acceptable(t: HuffTable, isDC: bool)
    requires t.Shaped()
  {
    && Total(t.bits, 16) <= 256
    && Kraft(t.bits, 16, 16) < 0x1_0000
    && GoodSymbols(t.huffval, Total(t.bits, 16), isDC)
  }

  /** The symbols of an accepted DC table are sizes of at most 15 bits. */
  lemma AcceptedSymbols(t: HuffTable, p: nat)
    requires t.Shaped() && Acceptable(t, true) && p < Total(t.bits, 16) && p < |t.huffval|
    ensures t.huffval[p] <= 15
  {
  }

  /** d gives the p-th symbol the p-th canonical code, and every other symbol none. */
  ghost predicate Derives(t: HuffTable, d: DerivedTable)
    requires t.Shaped() && Total(t.bits, 16) <= 256
  {
    var sizes := Sizes(t.bits, 16);
    && d.Shaped()
    && (forall p :: 0 <= p < |sizes| ==>
          && d.ehufsi[t.huffval[p]] == sizes[p]
          && Position(d.ehufco[t.huffval[p]], sizes[p]) == Before(sizes, p))
    && (forall s: nat :: d.Codes(s) ==> s in t.huffval[..|sizes|])
  }

  /** Figure C.3: codes and lengths indexed by symbol. */
  method AssignCodes(huffval: seq<byte>, isDC: bool, huffsize: seq<nat>, huffcode: seq<nat>)
      returns (r: Option<DerivedTable>)
    requires |huffval| == 256 && |huffsize| == |huffcode| + 1 <= 257
    requires forall p :: 0 <= p < |huffcode| ==> huffsize[p] != 0
    ensures r.Some? <==> GoodSymbols(huffval, |huffcode|, isDC)
    ensures r.Some? ==> Assigned(huffval, huffsize, huffcode, r.value)
  {
    var lastp := |huffcode|;
    var ehufco, ehufsi := new nat[256], new nat[256](_ => 0);
    for p := 0 to lastp
      invariant GoodSymbols(huffval, p, isDC) && Entered(huffval, huffsize, huffcode, p, ehufco[..], ehufsi[..])
    {
      var i := huffval[p];
      EnterNext(huffval, huffsize, huffcode, p, ehufco[..], ehufsi[..], isDC);
      if i > MaxSymbol(isDC) || ehufsi[i] != 0 {
        return None;
      }
      ehufco[i] := huffcode[p];
      ehufsi[i] := huffsize[p];
    }
    r := Some(DerivedTable(ehufco[..], ehufsi[..]));
  }

  /** The first p symbols have their codes and lengths, and no other symbol has a length. */
  ghost predicate Entered(huffval: seq<byte>, huffsize: seq<nat>, huffcode: seq<nat>, p: nat, co: seq<nat>,
                          si: seq<nat>)
    requires p <= |huffcode| <= |huffval| && |huffcode| <= |huffsize| && |co| == |si| == 256
  {
    && (forall q :: 0 <= q < p ==> si[huffval[q]] == huffsize[q] && co[huffval[q]] == huffcode[q])
    && forall s: byte :: si[s] != 0 ==> s in huffval[..p]
  }

  /** Entering the next symbol; it is refused exactly when it is out of range or has been entered before. */
  lemma EnterNext(huffval: seq<byte>, huffsize: seq<nat>, huffcode: seq<nat>, p: nat, co: seq<nat>, si: seq<nat>,
                  isDC: bool)
    requires p < |huffcode| <= |huffval| && |huffcode| <= |huffsize| && |co| == |si| == 256
    requires forall q :: 0 <= q < |huffcode| ==> huffsize[q] != 0
    requires GoodSymbols(huffval, p, isDC) && Entered(huffval, huffsize, huffcode, p, co, si)
    ensures var i := huffval[p];
            && (GoodSymbols(huffval, p + 1, isDC) <==> i <= MaxSymbol(isDC) && si[i] == 0)
            && (si[i] == 0 ==> Entered(huffval, huffsize, huffcode, p + 1, co[i := huffcode[p]], si[i := huffsize[p]]))
  {
    var i := huffval[p];
    assert huffval[..p + 1] == huffval[..p] + [i];
    if si[i] == 0 {
      assert forall q :: 0 <= q < p ==> huffval[q] != i;
    } else {
      var q :| 0 <= q < p && huffval[q] == i;
    }
  }

  /** Each symbol has its own entry of the two lists, and there are no other codes. */
  ghost predicate Assigned(huffval: seq<byte>, huffsize: seq<nat>, huffcode: seq<nat>, d: DerivedTable)
    requires |huffval| == 256 && |huffsize| == |huffcode| + 1 <= 257
  {
    && d.Shaped()
    && (forall q :: 0 <= q < |huffcode| ==> d.ehufsi[huffval[q]] == huffsize[q])
    && (forall q :: 0 <= q < |huffcode| ==> d.ehufco[huffval[q]] == huffcode[q])
    && (forall s: nat :: d.Codes(s) ==> s in huffval[..|huffcode|])
  }

  /** jpeg_make_c_derived_tbl for a table that is present. */
  method MakeDerivedTable(t: HuffTable, isDC: bool) returns (r: Option<DerivedTable>)
    requires t.Shaped()
    ensures r.Some? <==> Acceptable(t, isDC)
    ensures r.Some? ==> Derives(t, r.value)
  {
    var huffsize := HuffSizes(t.bits);
    if huffsize.None? {
      return None;
    }
    SizesAscend(t.bits, 16);
    BeforeIsKraft(t.bits, 16);
    var huffcode := HuffCodes(huffsize.value, Sizes(t.bits, 16));
    if huffcode.None? {
      return None;
    }
    r := AssignCodes(t.huffval, isDC, huffsize.value, huffcode.value);
  }

  // ---------- what the derived codes are good for ----------

  /** A canonical code fits its length with room to spare, so it is never all ones. */
  lemma CodeInRange(c: nat, l: CodeLength)
    requires Position(c, l) + Room(l) < 0x1_0000
    ensures c + 1 < Pow2(l) <= 0x1_0000
    ensures Val(ToBits(c, l)) == c && ToBits(c, l) != Ones(l)
  {
    NextPosition(c, l);
    RoomLeft(c + 1, l);
    assert Pow2(l) <= 0x1_0000 by { Pow2Mono(l, 16); Pow2Literals(); }
    ValToBits(c, l);
    DivModUnique(c, Pow2(l), 0, c);
    ValOnes(l);
  }

  /** A later code lies beyond every extension of an earlier one. */
  lemma CodesApart(a: nat, s: CodeLength, b: nat, t: CodeLength)
    requires s <= t && Position(a, s) + Room(s) <= Position(b, t)
    ensures Scale(a + 1, t - s) <= b
  {
    var free: nat := 16 - t;
    NextPosition(a, s);
    ScaleScale(a + 1, t - s, free);
    ScaleLess(b, Scale(a + 1, t - s), free);
  }

  /** So neither code is a prefix of the other. */
  lemma NoPrefix(a: nat, x: Bits, b: nat, y: Bits)
    requires |x| <= |y| && Val(x) == a && Val(y) == b && Scale(a + 1, |y| - |x|) <= b
    ensures !(x <= y) && !(y <= x)
  {
    ScaleIsMul(a + 1, |y| - |x|);
    if x <= y {
      var z := y[|x|..];
      assert y == x + z;
      ValAppend(x, z);
      ValBound(z);
      MulDistrib(a, 1, Pow2(|z|));
    }
  }

  lemma PairApart(sizes: seq<CodeLength>, a: nat, p: nat, b: nat, q: nat)
    requires p < q < |sizes| && Ascending(sizes) && Before(sizes, |sizes|) < 0x1_0000
    requires Position(a, sizes[p]) == Before(sizes, p) && Position(b, sizes[q]) == Before(sizes, q)
    ensures var x, y := ToBits(a, sizes[p]), ToBits(b, sizes[q]);
            !(x <= y) && !(y <= x)
  {
    BeforeGap(sizes, p, q);
    SymbolInRange(sizes, a, p);
    SymbolInRange(sizes, b, q);
    CodesNoPrefix(a, sizes[p], b, sizes[q]);
  }

  lemma CodesNoPrefix(a: nat, s: CodeLength, b: nat, t: CodeLength)
    requires s <= t && Position(a, s) + Room(s) <= Position(b, t)
    requires Val(ToBits(a, s)) == a && Val(ToBits(b, t)) == b
    ensures !(ToBits(a, s) <= ToBits(b, t)) && !(ToBits(b, t) <= ToBits(a, s))
  {
    hide Val, ToBits, Scale, Position, Room;
    CodesApart(a, s, b, t);
    NoPrefix(a, ToBits(a, s), b, ToBits(b, t));
  }

  lemma SymbolInRange(sizes: seq<CodeLength>, c: nat, p: nat)
    requires p < |sizes| && Before(sizes, |sizes|) < 0x1_0000 && Position(c, sizes[p]) == Before(sizes, p)
    ensures c < Pow2(sizes[p]) <= 0x1_0000
    ensures Val(ToBits(c, sizes[p])) == c && ToBits(c, sizes[p]) != Ones(sizes[p])
  {
    BeforeGap(sizes, p, |sizes|);
    CodeInRange(c, sizes[p]);
  }

  /** The code of one symbol. */
  lemma SymbolFits(t: HuffTable, d: DerivedTable, isDC: bool, s: nat)
    requires t.Shaped() && Acceptable(t, isDC) && Derives(t, d) && d.Codes(s)
    ensures d.ehufsi[s] <= 16 && d.ehufco[s] < 0x1_0000 && d.Code(s) != Ones(|d.Code(s)|)
  {
    var sizes := Sizes(t.bits, 16);
    SizesAscend(t.bits, 16);
    BeforeIsKraft(t.bits, 16);
    var p :| 0 <= p < |sizes| && t.huffval[p] == s;
    SymbolInRange(sizes, d.ehufco[s], p);
  }

  lemma SymbolsApart(t: HuffTable, d: DerivedTable, isDC: bool, s: nat, u: nat)
    requires t.Shaped() && Acceptable(t, isDC) && Derives(t, d) && d.Codes(s) && d.Codes(u) && s != u
    ensures !(d.Code(s) <= d.Code(u))
  {
    var sizes := Sizes(t.bits, 16);
    SizesAscend(t.bits, 16);
    BeforeIsKraft(t.bits, 16);
    var p :| 0 <= p < |sizes| && t.huffval[p] == s;
    var q :| 0 <= q < |sizes| && t.huffval[q] == u;
    if p < q {
      PairApart(sizes, d.ehufco[s], p, d.ehufco[u], q);
    } else {
      PairApart(sizes, d.ehufco[u], q, d.ehufco[s], p);
    }
  }

  /** Annex C of T.81: the codes derived from an accepted table are prefix-free and never all ones. */
  lemma DerivedIsPrefixFree(t: HuffTable, d: DerivedTable, isDC: bool)
    requires t.Shaped() && Acceptable(t, isDC) && Derives(t, d)
    ensures d.PrefixFree()
    ensures forall s: nat :: d.Codes(s) ==> d.ehufsi[s] <= 16 && d.ehufco[s] < 0x1_0000
  {
    hide Acceptable, Sizes;
    forall s: nat | d.Codes(s)
      ensures d.ehufsi[s] <= 16 && d.ehufco[s] < 0x1_0000 && d.Code(s) != Ones(|d.Code(s)|)
    {
      SymbolFits(t, d, isDC, s);
    }
    forall s: nat, u: nat | d.Codes(s) && d.Codes(u) && s != u ensures !(d.Code(s) <= d.Code(u)) {
      SymbolsApart(t, d, isDC, s, u);
    }
  }
}
