/** Bit strings, their big-endian values, and the C bit operations on unsigned words. */
module BitStrings {
  import opened Powers

  type Bits = seq<bool>

  type byte = x: int | 0 <= x < 256

  function BitValue(b: bool): nat {
    if b then 1 else 0
  }

  /** The number a bit string denotes, most significant bit first. */
  function Val(s: Bits): nat {
    if s == [] then 0 else 2 * Val(s[..|s| - 1]) + BitValue(s[|s| - 1])
  }

  /** The n low-order bits of v, most significant bit first. */
  function ToBits(v: nat, n: nat): (s: Bits)
    ensures |s| == n
  {
    if n == 0 then [] else ToBits(v / 2, n - 1) + [v % 2 == 1]
  }

  lemma {:induction false} ValBound(s: Bits)
    ensures Val(s) < Pow2(|s|)
  {
    if s != [] {
      ValBound(s[..|s| - 1]);
    }
  }

  lemma {:induction false} ValAppend(s: Bits, t: Bits)
    ensures Val(s + t) == Val(s) * Pow2(|t|) + Val(t)
  {
    if t == [] {
      assert s + t == s;
    } else {
      var u := t[..|t| - 1];
      assert (s + t)[..|s + t| - 1] == s + u;
      ValAppend(s, u);
      assert Val(s) * Pow2(|t|) == 2 * (Val(s) * Pow2(|u|));
    }
  }

  /** ToBits keeps exactly the value modulo 2^n. */
  lemma {:induction false} ValToBits(v: nat, n: nat)
    ensures Val(ToBits(v, n)) == v % Pow2(n)
  {
    if n != 0 {
      ValToBits(v / 2, n - 1);
      assert ToBits(v, n)[..n - 1] == ToBits(v / 2, n - 1);
      HalfMod(v, Pow2(n - 1));
    }
  }

  lemma {:induction false} ToBitsVal(s: Bits)
    ensures ToBits(Val(s), |s|) == s
  {
    if s != [] {
      ToBitsVal(s[..|s| - 1]);
    }
  }

  /** Only v mod 2^n matters to ToBits. */
  lemma ToBitsMod(v: nat, n: nat)
    ensures ToBits(v % Pow2(n), n) == ToBits(v, n)
  {
    ValToBits(v, n);
    ToBitsVal(ToBits(v, n));
  }

  // ---------- C's & and | on unsigned words ----------

  function BitAnd(a: nat, b: nat): nat {
    if a == 0 || b == 0 then 0
    else 2 * BitAnd(a / 2, b / 2) + (if a % 2 == 1 && b % 2 == 1 then 1 else 0)
  }

  function BitOr(a: nat, b: nat): nat {
    if a == 0 && b == 0 then 0
    else 2 * BitOr(a / 2, b / 2) + (if a % 2 == 1 || b % 2 == 1 then 1 else 0)
  }

  /** Masking with 2^k - 1 keeps the k low-order bits. */
  lemma {:induction false} AndMask(x: nat, k: nat)
    ensures BitAnd(x, Pow2(k) - 1) == x % Pow2(k)
  {
    if k != 0 {
      AndMask(x / 2, k - 1);
      assert (Pow2(k) - 1) / 2 == Pow2(k - 1) - 1;
      HalfMod(x, Pow2(k - 1));
    }
  }

  /** BitOr works bit by bit. */
  lemma {:induction false} OrBits(a: nat, b: nat, n: nat)
    ensures forall i :: 0 <= i < n ==> ToBits(BitOr(a, b), n)[i] == (ToBits(a, n)[i] || ToBits(b, n)[i])
  {
    if n != 0 {
      OrBits(a / 2, b / 2, n - 1);
      assert BitOr(a, b) / 2 == BitOr(a / 2, b / 2);
    }
  }

  lemma {:induction false} OrBound(a: nat, b: nat, k: nat)
    requires a < Pow2(k) && b < Pow2(k)
    ensures BitOr(a, b) < Pow2(k)
  {
    if k != 0 {
      OrBound(a / 2, b / 2, k - 1);
    }
  }

  // ---------- shifts ----------

  function Zeros(n: nat): (s: Bits)
    ensures |s| == n
  {
    seq(n, _ => false)
  }

  function ShiftRight(v: nat, k: nat): nat {
    if k == 0 then v else ShiftRight(v / 2, k - 1)
  }

  /** The high and the low part of a word. */
  lemma {:induction false} ToBitsSplit(v: nat, n: nat, k: nat)
    ensures ToBits(v, n + k) == ToBits(ShiftRight(v, k), n) + ToBits(v, k)
  {
    if k != 0 {
      ToBitsSplit(v / 2, n, k - 1);
      assert ToBits(v, n + k) == ToBits(v / 2, n + (k - 1)) + [v % 2 == 1];
    }
  }

  lemma {:induction false} ShiftRightSmall(v: nat, k: nat)
    requires v < Pow2(k)
    ensures ShiftRight(v, k) == 0
  {
    if k != 0 {
      ShiftRightSmall(v / 2, k - 1);
    }
  }

  lemma {:induction false} ToBitsZero(n: nat)
    ensures ToBits(0, n) == Zeros(n)
  {
    if n != 0 {
      ToBitsZero(n - 1);
    }
  }

  /** Shifting left appends zeros. */
  lemma {:induction false} ToBitsShift(v: nat, n: nat, k: nat)
    ensures ToBits(v * Pow2(k), n + k) == ToBits(v, n) + Zeros(k)
  {
    if k != 0 {
      ToBitsShift(v, n, k - 1);
      MulAssoc(v, Pow2(k - 1), 2);
      assert ToBits(v * Pow2(k), n + k) == ToBits(v * Pow2(k - 1), n + k - 1) + [false];
    } else {
      assert ToBits(v, n) + Zeros(0) == ToBits(v, n);
    }
  }
}
