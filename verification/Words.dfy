/** C's unsigned 32-bit words. */
module Words {
  import opened Powers
  import opened BitStrings

  const WORD: nat := 0x1_0000_0000

  type Word = x: int | 0 <= x < 0x1_0000_0000

  function Xor(a: nat, b: nat): nat {
    if a == 0 && b == 0 then 0 else 2 * Xor(a / 2, b / 2) + (if a % 2 != b % 2 then 1 else 0)
  }

  lemma {:induction false} AndBound(a: nat, b: nat, k: nat)
    requires a < Pow2(k)
    ensures BitAnd(a, b) < Pow2(k)
  {
    if k != 0 {
      AndBound(a / 2, b / 2, k - 1);
    }
  }

  lemma {:induction false} XorBound(a: nat, b: nat, k: nat)
    requires a < Pow2(k) && b < Pow2(k)
    ensures Xor(a, b) < Pow2(k)
  {
    if k != 0 {
      XorBound(a / 2, b / 2, k - 1);
    }
  }

  /** Xor undoes itself. */
  lemma {:induction false} XorTwice(a: nat, b: nat)
    ensures Xor(Xor(a, b), b) == a
    decreases a + b
  {
    if a != 0 || b != 0 {
      assert Xor(a, b) / 2 == Xor(a / 2, b / 2);
      assert Xor(a, b) % 2 == if a % 2 != b % 2 then 1 else 0;
      XorTwice(a / 2, b / 2);
    }
  }

  function Plus(x: Word, y: Word): Word {
    (x + y) % WORD
  }

  function And32(x: Word, y: Word): Word {
    Pow2Literals();
    AndBound(x, y, 32);
    BitAnd(x, y)
  }

  function Or32(x: Word, y: Word): Word {
    Pow2Literals();
    OrBound(x, y, 32);
    BitOr(x, y)
  }

  function Xor32(x: Word, y: Word): Word {
    Pow2Literals();
    XorBound(x, y, 32);
    Xor(x, y)
  }

  function Not32(x: Word): Word {
    WORD - 1 - x
  }

  function ShiftLeft32(x: Word, n: nat): Word {
    (x * Pow2(n)) % WORD
  }

  function ShiftRight32(x: Word, n: nat): Word {
    DivLess(x, Pow2(n));
    x / Pow2(n)
  }

  lemma DivLess(x: nat, d: nat)
    requires d > 0
    ensures 0 <= x / d <= x
  {
    var q := x / d;
    assert x == q * d + x % d;
    MulLe(1, d, q);
  }

  function RotateLeft(x: Word, n: nat): Word
    requires n <= 32
  {
    Or32(ShiftLeft32(x, n), ShiftRight32(x, 32 - n))
  }

  /** Byte k of a word, least significant first. */
  function ByteOf(x: Word, k: nat): byte {
    ShiftRight32(x, 8 * k) % 256
  }

  function FromBytes(b0: byte, b1: byte, b2: byte, b3: byte): Word {
    b0 + 0x100 * b1 + 0x1_0000 * b2 + 0x100_0000 * b3
  }

  // ---------- what the operations do to the bits ----------

  lemma {:induction false} AndBits(a: nat, b: nat, n: nat)
    ensures forall i :: 0 <= i < n ==> ToBits(BitAnd(a, b), n)[i] == (ToBits(a, n)[i] && ToBits(b, n)[i])
  {
    if n != 0 {
      AndBits(a / 2, b / 2, n - 1);
      assert BitAnd(a, b) / 2 == BitAnd(a / 2, b / 2);
    }
  }

  lemma {:induction false} XorBits(a: nat, b: nat, n: nat)
    ensures forall i :: 0 <= i < n ==> ToBits(Xor(a, b), n)[i] == (ToBits(a, n)[i] != ToBits(b, n)[i])
  {
    if n != 0 {
      XorBits(a / 2, b / 2, n - 1);
      assert Xor(a, b) / 2 == Xor(a / 2, b / 2);
    }
  }

  lemma {:induction false} NotBits(a: nat, n: nat)
    requires a < Pow2(n)
    ensures forall i :: 0 <= i < n ==> ToBits(Pow2(n) - 1 - a, n)[i] == !ToBits(a, n)[i]
  {
    if n != 0 {
      NotBits(a / 2, n - 1);
      assert (Pow2(n) - 1 - a) / 2 == Pow2(n - 1) - 1 - a / 2;
    }
  }

  /** The operations on words, bit by bit. */
  lemma Bits32(x: Word, y: Word, i: nat)
    requires i < 32
    ensures ToBits(And32(x, y), 32)[i] == (ToBits(x, 32)[i] && ToBits(y, 32)[i])
    ensures ToBits(Or32(x, y), 32)[i] == (ToBits(x, 32)[i] || ToBits(y, 32)[i])
    ensures ToBits(Xor32(x, y), 32)[i] == (ToBits(x, 32)[i] != ToBits(y, 32)[i])
    ensures ToBits(Not32(x), 32)[i] == !ToBits(x, 32)[i]
  {
    hide ToBits, BitAnd, BitOr, Xor, Pow2;
    Pow2Literals();
    AndBits(x, y, 32);
    OrBits(x, y, 32);
    XorBits(x, y, 32);
    NotBits(x, 32);
  }

  lemma {:induction false} ShiftRightIs(v: nat, k: nat)
    ensures ShiftRight(v, k) == v / Pow2(k)
  {
    if k != 0 {
      ShiftRightIs(v / 2, k - 1);
      DivTwice(v, Pow2(k - 1));
    }
  }

  lemma ShiftLeft32Bits(x: Word, n: nat)
    requires n <= 32
    ensures ToBits(ShiftLeft32(x, n), 32) == ToBits(x, 32)[n..] + Zeros(n)
  {
    hide ToBits, Pow2;
    Pow2Literals();
    ToBitsMod(x * Pow2(n), 32);
    ToBitsShift(x, 32 - n, n);
    ToBitsSplit(x, n, 32 - n);
    assert ToBits(x, n + (32 - n)) == ToBits(x, 32);
    assert ToBits(x * Pow2(n), (32 - n) + n) == ToBits(x * Pow2(n), 32);
  }

  lemma ShiftRight32Bits(x: Word, n: nat)
    requires n <= 32
    ensures ToBits(ShiftRight32(x, 32 - n), 32) == Zeros(32 - n) + ToBits(x, 32)[..n]
  {
    hide ToBits, Pow2, ShiftRight, ShiftRight32;
    Pow2Literals();
    var y := ShiftRight32(x, 32 - n);
    ShiftedIs(x, 32 - n);
    ToBitsSplit(x, n, 32 - n);
    assert ToBits(x, n + (32 - n)) == ToBits(x, 32);
    ToBitsSplit(y, 32 - n, n);
    assert ToBits(y, (32 - n) + n) == ToBits(y, 32);
    ShiftedSmall(x, n);
    ShiftRightSmall(y, n);
    ToBitsZero(32 - n);
  }

  lemma ShiftedIs(x: Word, k: nat)
    ensures ShiftRight32(x, k) == ShiftRight(x, k)
  {
    ShiftRightIs(x, k);
  }

  lemma QuotientSmall(x: nat, a: nat, p: nat)
    requires p > 0 && x < a * p
    ensures x / p < a
  {
    if x / p >= a {
      MulLe(a, x / p, p);
    }
  }

  lemma ShiftedSmall(x: Word, n: nat)
    requires n <= 32
    ensures ShiftRight32(x, 32 - n) < Pow2(n)
  {
    hide Pow2;
    Pow2Literals();
    Pow2Add(n, 32 - n);
    QuotientSmall(x, Pow2(n), Pow2(32 - n));
  }

  /** What is pushed out on the left comes back on the right. */
  lemma RotateBits(x: Word, n: nat)
    requires n <= 32
    ensures ToBits(RotateLeft(x, n), 32) == ToBits(x, 32)[n..] + ToBits(x, 32)[..n]
  {
    hide ToBits, ShiftLeft32, ShiftRight32, Or32, And32, Xor32, Not32;
    var l, r, b := ShiftLeft32(x, n), ShiftRight32(x, 32 - n), ToBits(x, 32);
    ShiftLeft32Bits(x, n);
    ShiftRight32Bits(x, n);
    forall i | 0 <= i < 32 ensures ToBits(RotateLeft(x, n), 32)[i] == (b[n..] + b[..n])[i] {
      Bits32(l, r, i);
    }
  }

  /** The four bytes of a word are its digits in base 256. */
  lemma BytesOfWord(x: Word)
    ensures ByteOf(x, 0) == x % 0x100 && ByteOf(x, 1) == x / 0x100 % 0x100
    ensures ByteOf(x, 2) == x / 0x1_0000 % 0x100 && ByteOf(x, 3) == x / 0x100_0000 % 0x100
  {
    Pow2Literals();
    assert Pow2(0) == 1;
  }

  /** And a word made of four bytes has these. */
  lemma WordOfBytes(b0: byte, b1: byte, b2: byte, b3: byte)
    ensures var x := FromBytes(b0, b1, b2, b3);
            ByteOf(x, 0) == b0 && ByteOf(x, 1) == b1 && ByteOf(x, 2) == b2 && ByteOf(x, 3) == b3
  {
    hide ByteOf;
    var x := FromBytes(b0, b1, b2, b3);
    var h := b2 + 0x100 * b3;
    BytesOfWord(x);
    LastByte(x, b1 + 0x100 * h, b0);
    LastByte(b1 + 0x100 * h, h, b1);
    LastByte(h, b3, b2);
    assert x / 0x1_0000 == x / 0x100 / 0x100 && x / 0x100_0000 == x / 0x100 / 0x100 / 0x100;
  }

  lemma LastByte(x: nat, q: nat, b: byte)
    requires x == 0x100 * q + b
    ensures x % 0x100 == b && x / 0x100 == q
  {
  }
}
