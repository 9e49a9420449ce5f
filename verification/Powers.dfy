/** Powers of two and the few division facts the models share. */
module Powers {
  function Abs(v: int): nat {
    if v < 0 then -v else v
  }

  function Pow2(n: nat): (p: nat)
    ensures p > 0
  {
    if n == 0 then 1 else 2 * Pow2(n - 1)
  }

  lemma {:induction false} Pow2Add(a: nat, b: nat)
    ensures Pow2(a + b) == Pow2(a) * Pow2(b)
  {
    if a != 0 {
      Pow2Add(a - 1, b);
      assert Pow2(a + b) == 2 * Pow2(a - 1 + b);
    }
  }

  lemma {:induction false} Pow2Mono(a: nat, b: nat)
    requires a <= b
    ensures Pow2(a) <= Pow2(b)
    decreases b - a
  {
    if a < b {
      Pow2Mono(a + 1, b);
    }
  }

  lemma Pow2Strict(a: nat, b: nat)
    requires a < b
    ensures 2 * Pow2(a) <= Pow2(b)
  {
    Pow2Mono(a + 1, b);
  }

  /** The constants the sources write out as literals. */
  lemma Pow2Literals()
    ensures Pow2(3) == 8 && Pow2(4) == 16 && Pow2(7) == 128 && Pow2(8) == 0x100 && Pow2(16) == 0x1_0000
    ensures Pow2(24) == 0x100_0000 && Pow2(32) == 0x1_0000_0000
  {
    assert Pow2(3) == 8 && Pow2(4) == 16;
    assert Pow2(7) == 128 && Pow2(8) == 256;
    Pow2Add(8, 8);
    Pow2Add(16, 8);
    Pow2Add(16, 16);
  }

  /** Quotient and remainder are unique. */
  lemma DivModUnique(x: int, d: int, q: int, r: int)
    requires d > 0 && 0 <= r < d && x == q * d + r
    ensures x / d == q && x % d == r
  {
    assert (x / d - q) * d == r - x % d;
    if x / d > q {
      MulLe(1, x / d - q, d);
    } else if x / d < q {
      MulLe(1, q - x / d, d);
    }
  }

  lemma MulLe(a: int, b: int, d: int)
    requires a <= b && 0 <= d
    ensures a * d <= b * d
  {
  }

  lemma MulAssoc(a: int, b: int, c: int)
    ensures (a * b) * c == a * (b * c)
  {
  }

  lemma DivTwice(b: nat, p: nat)
    requires p > 0
    ensures b / (2 * p) == (b / 2) / p
  {
    var q, r := (b / 2) / p, (b / 2) % p;
    assert b == 2 * (q * p + r) + b % 2;
    MulAssoc(q, 2, p);
    assert q * (2 * p) == 2 * (q * p);
    DivModUnique(b, 2 * p, q, 2 * r + b % 2);
  }

  lemma MulDistrib(a: int, b: int, c: int)
    ensures (a + b) * c == a * c + b * c
  {
  }

  lemma MulLt(a: int, b: int, d: int)
    requires a < b && 0 < d
    ensures a * d < b * d
  {
  }

  /** Reducing modulo a * b and then modulo b is reducing modulo b. */
  lemma ModMod(x: nat, a: nat, b: nat)
    requires a > 0 && b > 0
    ensures (a * b) > 0 && (x % (a * b)) % b == x % b
  {
    MulLe(1, a, b);
    var q, r := x / (a * b), x % (a * b);
    var q1, r1 := r / b, r % b;
    assert x == q * (a * b) + r;
    assert q * (a * b) == (q * a) * b;
    assert x == (q * a + q1) * b + r1;
    DivModUnique(x, b, q * a + q1, r1);
  }

  /** Reducing modulo 2p works on the halves. */
  lemma HalfMod(v: nat, p: nat)
    requires p > 0
    ensures v % (2 * p) == 2 * ((v / 2) % p) + v % 2
  {
    var h, b := v / 2, v % 2;
    var q, r := h / p, h % p;
    assert h == q * p + r;
    assert q * (2 * p) == 2 * (q * p);
    DivModUnique(v, 2 * p, q, 2 * r + b);
  }

  /** c * 2^k, written as k doublings. */
  function Scale(c: int, k: nat): int
    decreases k
  {
    if k == 0 then c else Scale(2 * c, k - 1)
  }

  lemma {:induction false} ScaleAdd(a: int, b: int, k: nat)
    ensures Scale(a + b, k) == Scale(a, k) + Scale(b, k)
    decreases k
  {
    if k != 0 {
      ScaleAdd(2 * a, 2 * b, k - 1);
    }
  }

  lemma {:induction false} ScaleLess(a: int, b: int, k: nat)
    ensures a < b <==> Scale(a, k) < Scale(b, k)
    decreases k
  {
    if k != 0 {
      ScaleLess(2 * a, 2 * b, k - 1);
    }
  }

  lemma {:induction false} ScaleZero(k: nat)
    ensures Scale(0, k) == 0
  {
    if k != 0 {
      ScaleZero(k - 1);
    }
  }

  lemma {:induction false} ScaleScale(c: int, j: nat, k: nat)
    ensures Scale(c, j + k) == Scale(Scale(c, j), k)
    decreases j
  {
    if j != 0 {
      ScaleScale(2 * c, j - 1, k);
    }
  }

  lemma {:induction false} ScaleIsMul(c: int, k: nat)
    ensures Scale(c, k) == c * Pow2(k)
    decreases k
  {
    if k != 0 {
      ScaleIsMul(2 * c, k - 1);
      MulAssoc(c, 2, Pow2(k - 1));
    }
  }
}
