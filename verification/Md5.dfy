/** MD5 (RFC 1321) as a function of the whole message, and the incremental implementation of md5.c. */
module Md5 {
  import opened Sequences
  import opened Powers
  import opened BitStrings
  import opened Words

  // ---------- the block function, as section 3.4 of RFC 1321 gives it ----------

  datatype Regs = Regs(a: Word, b: Word, c: Word, d: Word)

  function F(x: Word, y: Word, z: Word): Word {
    Or32(And32(x, y), And32(Not32(x), z))
  }

  function G(x: Word, y: Word, z: Word): Word {
    Or32(And32(x, z), And32(y, Not32(z)))
  }

  function H(x: Word, y: Word, z: Word): Word {
    Xor32(Xor32(x, y), z)
  }

  function I(x: Word, y: Word, z: Word): Word {
    Xor32(y, Or32(x, Not32(z)))
  }

  /** F chooses between y and z bit by bit, and G does so with its arguments the other way round; H is the parity, and I
      sets a bit where y differs from x or not z. */
  lemma RoundFunctions(x: Word, y: Word, z: Word, i: nat)
    requires i < 32
    ensures var a, b, c := ToBits(x, 32)[i], ToBits(y, 32)[i], ToBits(z, 32)[i];
            && ToBits(F(x, y, z), 32)[i] == (if a then b else c)
            && ToBits(G(x, y, z), 32)[i] == (if c then a else b)
            && ToBits(H(x, y, z), 32)[i] == (a != (b != c))
            && ToBits(I(x, y, z), 32)[i] == (b != (a || !c))
  {
    hide ToBits, And32, Or32, Xor32, Not32;
    Bits32(x, y, i);
    Bits32(x, z, i);
    Bits32(Not32(x), z, i);
    Bits32(y, Not32(z), i);
    Bits32(And32(x, y), And32(Not32(x), z), i);
    Bits32(And32(x, z), And32(y, Not32(z)), i);
    Bits32(Xor32(x, y), z, i);
    Bits32(z, z, i);
    Bits32(x, Not32(z), i);
    Bits32(y, Or32(x, Not32(z)), i);
  }

  /** Which of them a step uses. */
  lemma RoundOfStep(i: nat, x: Word, y: Word, z: Word)
    ensures i < 16 ==> Mix(i, x, y, z) == F(x, y, z)
    ensures 16 <= i < 32 ==> Mix(i, x, y, z) == G(x, y, z) == F(z, x, y)
    ensures 32 <= i < 48 ==> Mix(i, x, y, z) == H(x, y, z)
    ensures 48 <= i < 64 ==> Mix(i, x, y, z) == I(x, y, z)
  {
    hide And32, Or32, Not32, ToBits, F, G, H, I;
    forall k | 0 <= k < 32 ensures ToBits(G(x, y, z), 32)[k] == ToBits(F(z, x, y), 32)[k] {
      RoundFunctions(x, y, z, k);
      RoundFunctions(z, x, y, k);
    }
    SameWord(G(x, y, z), F(z, x, y));
  }

  lemma SameWord(x: Word, y: Word)
    requires forall k :: 0 <= k < 32 ==> ToBits(x, 32)[k] == ToBits(y, 32)[k]
    ensures x == y
  {
    hide ToBits, Pow2;
    Pow2Literals();
    ValToBits(x, 32);
    ValToBits(y, 32);
    assert ToBits(x, 32) == ToBits(y, 32);
  }

  /** The additive constants, one for each step. */
  function T(i: nat): Word
    requires i < 64
  {
    if i < 16 then
      var t: seq<Word> := [
        0xd76aa478, 0xe8c7b756, 0x242070db, 0xc1bdceee,
        0xf57c0faf, 0x4787c62a, 0xa8304613, 0xfd469501,
        0x698098d8, 0x8b44f7af, 0xffff5bb1, 0x895cd7be,
        0x6b901122, 0xfd987193, 0xa679438e, 0x49b40821];
      t[i]
    else if i < 32 then
      var t: seq<Word> := [
        0xf61e2562, 0xc040b340, 0x265e5a51, 0xe9b6c7aa,
        0xd62f105d, 0x02441453, 0xd8a1e681, 0xe7d3fbc8,
        0x21e1cde6, 0xc33707d6, 0xf4d50d87, 0x455a14ed,
        0xa9e3e905, 0xfcefa3f8, 0x676f02d9, 0x8d2a4c8a];
      t[i - 16]
    else if i < 48 then
      var t: seq<Word> := [
        0xfffa3942, 0x8771f681, 0x6d9d6122, 0xfde5380c,
        0xa4beea44, 0x4bdecfa9, 0xf6bb4b60, 0xbebfbc70,
        0x289b7ec6, 0xeaa127fa, 0xd4ef3085, 0x04881d05,
        0xd9d4d039, 0xe6db99e5, 0x1fa27cf8, 0xc4ac5665];
      t[i - 32]
    else
      var t: seq<Word> := [
        0xf4292244, 0x432aff97, 0xab9423a7, 0xfc93a039,
        0x655b59c3, 0x8f0ccc92, 0xffeff47d, 0x85845dd1,
        0x6fa87e4f, 0xfe2ce6e0, 0xa3014314, 0x4e0811a1,
        0xf7537e82, 0xbd3af235, 0x2ad7d2bb, 0xeb86d391];
      t[i - 48]
  }

  /** The word of the block that step i uses. */
  function K(i: nat): (k: nat)
    requires i < 64
    ensures k < 16
  {
    if i < 16 then i
    else if i < 32 then (5 * i + 1) % 16
    else if i < 48 then (3 * i + 5) % 16
    else (7 * i) % 16
  }

  const SHIFTS: seq<nat> := [7, 12, 17, 22, 5, 9, 14, 20, 4, 11, 16, 23, 6, 10, 15, 21]

  /** The rotation of step i. */
  function S(i: nat): (s: nat)
    requires i < 64
    ensures s <= 32
  {
    SHIFTS[4 * (i / 16) + i % 4]
  }

  function Mix(i: nat, x: Word, y: Word, z: Word): Word {
    if i < 16 then F(x, y, z) else if i < 32 then G(x, y, z) else if i < 48 then H(x, y, z) else I(x, y, z)
  }

  type Words16 = x: seq<Word> | |x| == 16 witness seq(16, _ => 0)

  /** Step i: the register that changes becomes the second of the next step. */
  function Step(i: nat, r: Regs, x: Words16): Regs
    requires i < 64
  {
    var t := Plus(Plus(Plus(r.a, Mix(i, r.b, r.c, r.d)), x[K(i)]), T(i));
    Regs(r.d, Plus(RotateLeft(t, S(i)), r.b), r.b, r.c)
  }

  /** Steps first to last - 1. */
  function Steps(first: nat, last: nat, r: Regs, x: Words16): Regs
    requires first <= last <= 64
    decreases last - first
  {
    if first == last then r else Step(last - 1, Steps(first, last - 1, r, x), x)
  }

  lemma NoSteps(r: Regs, x: Words16)
    ensures Steps(0, 0, r, x) == r
  {
  }

  function WordsOf(block: seq<byte>): Words16
    requires |block| == 64
  {
    seq(16, i requires 0 <= i < 16 => FromBytes(block[4 * i], block[4 * i + 1], block[4 * i + 2], block[4 * i + 3]))
  }

  function AddRegs(r: Regs, q: Regs): Regs {
    Regs(Plus(r.a, q.a), Plus(r.b, q.b), Plus(r.c, q.c), Plus(r.d, q.d))
  }

  function Compress(r: Regs, block: seq<byte>): Regs
    requires |block| == 64
  {
    AddRegs(r, Steps(0, 64, r, WordsOf(block)))
  }

  // ---------- whole messages ----------

  const INITIAL: Regs := Regs(0x67452301, 0xefcdab89, 0x98badcfe, 0x10325476)

  function WordBytes(x: Word): seq<byte> {
    [ByteOf(x, 0), ByteOf(x, 1), ByteOf(x, 2), ByteOf(x, 3)]
  }

  /** A digest is made of the bytes of the registers, least significant first. */
  lemma DigestBytes(r: Regs)
    ensures Digest(r) == WordBytes(r.a) + WordBytes(r.b) + WordBytes(r.c) + WordBytes(r.d)
  {
    hide ByteOf;
  }

  /** The bytes of section 3.3. */
  lemma InitialBytes()
    ensures Digest(INITIAL) == [0x01, 0x23, 0x45, 0x67] + [0x89, 0xab, 0xcd, 0xef]
                               + [0xfe, 0xdc, 0xba, 0x98] + [0x76, 0x54, 0x32, 0x10]
  {
    hide ByteOf, Digest;
    DigestBytes(INITIAL);
    BytesOfWord(0x67452301);
    BytesOfWord(0xefcdab89);
    BytesOfWord(0x98badcfe);
    BytesOfWord(0x10325476);
  }

  /** The registers after the complete blocks of a message. */
  function Absorb(r: Regs, m: seq<byte>): Regs
    decreases |m|
  {
    if |m| < 64 then r else Absorb(Compress(r, m[..64]), m[64..])
  }

  /** What is left after the complete blocks. */
  function Tail(m: seq<byte>): (t: seq<byte>)
    ensures |t| == |m| % 64
  {
    if |m| < 64 then m else Tail(m[64..])
  }

  /** The number of zero bytes between the one bit and the length. */
  function PadZeros(n: nat): (z: nat)
    ensures z < 64
  {
    (119 - n % 64) % 64
  }

  lemma PadFills(n: nat)
    ensures (n + 1 + PadZeros(n) + 8) % 64 == 0
  {
    var q, r := n / 64, n % 64;
    assert n == 64 * q + r;
    assert r + 1 + PadZeros(n) + 8 == 64 || r + 1 + PadZeros(n) + 8 == 128;
  }

  /** Sections 3.1 and 3.2: a one bit, zeros up to 56 bytes modulo 64, and the length in bits modulo 2^64. */
  function Padded(m: seq<byte>): (p: seq<byte>)
    ensures |p| % 64 == 0
  {
    PadFills(|m|);
    m + ([0x80] + Repeat<byte>(0, PadZeros(|m|))) + LengthBytes((8 * |m|) % 0x1_0000_0000_0000_0000)
  }

  /** Eight bytes, least significant first. */
  function LengthBytes(n: nat): (b: seq<byte>)
    requires n < 0x1_0000_0000_0000_0000
    ensures |b| == 8
  {
    assert 0 <= n / WORD < WORD && 0 <= n % WORD < WORD;
    seq(8, i requires 0 <= i < 8 => if i < 4 then ByteOf(n % WORD, i) else ByteOf(n / WORD, i - 4))
  }

  lemma LengthBytesAre(n: nat, k: nat)
    requires n < 0x1_0000_0000_0000_0000 && k < 8
    ensures LengthBytes(n)[k] == n / Pow2(8 * k) % 0x100
  {
    hide ByteOf, Pow2;
    Pow2Literals();
    BytesOfWord(n % WORD);
    BytesOfWord(n / WORD);
    if k < 4 {
      LowByte(n, k);
    } else {
      HighByte(n, k);
    }
  }

  lemma Powers256()
    ensures Pow2(0) == 1 && Pow2(8) == 0x100 && Pow2(16) == 0x1_0000 && Pow2(24) == 0x100_0000
    ensures Pow2(32) == WORD && Pow2(40) == WORD * 0x100 && Pow2(48) == WORD * 0x1_0000 && Pow2(56) == WORD * 0x100_0000
  {
    Pow2Literals();
    assert Pow2(0) == 1;
    hide Pow2;
    Pow2Add(32, 8);
    Pow2Add(32, 16);
    Pow2Add(32, 24);
  }

  lemma LowByte(n: nat, k: nat)
    requires k < 4
    ensures ByteOf(n % WORD, k) == n / Pow2(8 * k) % 0x100
  {
    hide ByteOf, Pow2;
    BytesOfWord(n % WORD);
    Powers256();
    ByteOfRest(n, 1, 0x100_0000);
    ByteOfRest(n, 0x100, 0x1_0000);
    ByteOfRest(n, 0x1_0000, 0x100);
    ByteOfRest(n, 0x100_0000, 1);
  }

  /** The rest modulo d * 256 * c has the same byte at d. */
  lemma ByteOfRest(n: nat, d: nat, c: nat)
    requires d > 0 && c > 0 && d * (0x100 * c) == WORD
    ensures n % WORD / d % 0x100 == n / d % 0x100
  {
    var q, r := n / WORD, n % WORD;
    var b := r / d;
    assert n == q * WORD + r && r == b * d + r % d;
    MulAssoc(q, 0x100 * c, d);
    MulDistrib(q * (0x100 * c), b, d);
    DivModUnique(n, d, q * (0x100 * c) + b, r % d);
    MulAssoc(q, c, 0x100);
    DivModUnique(q * (0x100 * c) + b, 0x100, q * c + b / 0x100, b % 0x100);
  }

  lemma HighByte(n: nat, k: nat)
    requires n < 0x1_0000_0000_0000_0000 && 4 <= k < 8
    ensures ByteOf(n / WORD, k - 4) == n / Pow2(8 * k) % 0x100
  {
    hide ByteOf, Pow2;
    BytesOfWord(n / WORD);
    Powers256();
    DivProduct(n, WORD, 0x100);
    DivProduct(n, WORD, 0x1_0000);
    DivProduct(n, WORD, 0x100_0000);
  }

  lemma DivProduct(n: nat, a: nat, b: nat)
    requires a > 0 && b > 0
    ensures n / (a * b) == n / a / b
  {
    var q, r := n / a, n % a;
    var s, t := q / b, q % b;
    MulDistrib(s * b, t, a);
    MulAssoc(s, b, a);
    MulLe(t + 1, b, a);
    MulDistrib(t, 1, a);
    MulLe(0, t, a);
    DivModUnique(n, a * b, s, t * a + r);
  }

  /** The padded message: the message, a one bit and zero bits, and its length in bits, least significant byte first. It
      is the shortest such that is made of whole blocks. */
  lemma PaddedParts(m: seq<byte>)
    ensures var p := Padded(m);
            && |p| % 64 == 0 && |m| + 9 <= |p| < |m| + 9 + 64
            && p[..|m|] == m && p[|m|] == Pow2(7)
            && (forall k :: |m| < k < |p| - 8 ==> p[k] == 0)
            && forall k: nat :: k < 8 ==> p[|p| - 8 + k] == ((8 * |m|) % 0x1_0000_0000_0000_0000) / Pow2(8 * k) % 0x100
  {
    hide LengthBytes, Pow2;
    Pow2Literals();
    var p, n := Padded(m), (8 * |m|) % 0x1_0000_0000_0000_0000;
    forall k: nat | k < 8 ensures p[|p| - 8 + k] == n / Pow2(8 * k) % 0x100 {
      LengthBytesAre(n, k);
    }
  }

  /** The words of a block, byte by byte. */
  lemma WordsOfBytes(block: seq<byte>, i: nat, k: nat)
    requires |block| == 64 && i < 16 && k < 4
    ensures ByteOf(WordsOf(block)[i], k) == block[4 * i + k]
  {
    hide ByteOf, FromBytes;
    WordOfBytes(block[4 * i], block[4 * i + 1], block[4 * i + 2], block[4 * i + 3]);
  }

  function Digest(r: Regs): (b: seq<byte>)
    ensures |b| == 16
  {
    seq(16, i requires 0 <= i < 16 =>
      ByteOf(if i < 4 then r.a else if i < 8 then r.b else if i < 12 then r.c else r.d, i % 4))
  }

  /** The MD5 digest of a message. */
  function Hash(m: seq<byte>): (b: seq<byte>)
    ensures |b| == 16
  {
    Digest(Absorb(INITIAL, Padded(m)))
  }

  lemma {:induction false} AbsorbAppend(r: Regs, m: seq<byte>, t: seq<byte>)
    ensures Absorb(r, m + t) == Absorb(Absorb(r, m), Tail(m) + t)
    ensures Tail(m + t) == Tail(Tail(m) + t)
    decreases m
  {
    hide Compress;
    if |m| >= 64 {
      assert (m + t)[..64] == m[..64] && (m + t)[64..] == m[64..] + t;
      AbsorbAppend(Compress(r, m[..64]), m[64..], t);
    }
  }

  // ---------- md5_process ----------

  /** One SET operation: the new value of register a. */
  function Set(f: Word, a: Word, b: Word, x: Word, s: nat, ti: Word): Word
    requires s <= 32
  {
    Plus(RotateLeft(Plus(Plus(Plus(a, f), x), ti), s), b)
  }

  /** The register step i changes. */
  function Changed(i: nat, a: Word, b: Word, c: Word, d: Word, x: Words16): Word
    requires i < 64
  {
    Set(Mix(i, b, c, d), a, b, x[K(i)], S(i), T(i))
  }

  /** Four steps, after which the registers have their old roles again. */
  lemma FourSteps(i: nat, q: Regs, r: Regs, x: Words16)
    requires i + 4 <= 64 && q == Steps(0, i, r, x)
    ensures var a := Changed(i, q.a, q.b, q.c, q.d, x);
            var d := Changed(i + 1, q.d, a, q.b, q.c, x);
            var c := Changed(i + 2, q.c, d, a, q.b, x);
            var b := Changed(i + 3, q.b, c, d, a, x);
            Steps(0, i + 4, r, x) == Regs(a, b, c, d)
  {
    hide Mix, Plus, RotateLeft, K, S;
    var a := Changed(i, q.a, q.b, q.c, q.d, x);
    assert Steps(0, i + 1, r, x) == Step(i, q, x) == Regs(q.d, a, q.b, q.c);
    var d := Changed(i + 1, q.d, a, q.b, q.c, x);
    assert Steps(0, i + 2, r, x) == Regs(q.c, d, a, q.b);
    var c := Changed(i + 2, q.c, d, a, q.b, x);
    assert Steps(0, i + 3, r, x) == Regs(q.b, c, d, a);
  }

  /** The constants of round 1. */
  lemma Additive1()
    ensures T(0) == 0xd76aa478 && T(1) == 0xe8c7b756 && T(2) == 0x242070db && T(3) == 0xc1bdceee
    ensures T(4) == 0xf57c0faf && T(5) == 0x4787c62a && T(6) == 0xa8304613 && T(7) == 0xfd469501
    ensures T(8) == 0x698098d8 && T(9) == 0x8b44f7af && T(10) == 0xffff5bb1 && T(11) == 0x895cd7be
    ensures T(12) == 0x6b901122 && T(13) == 0xfd987193 && T(14) == 0xa679438e && T(15) == 0x49b40821
  {
  }

  lemma Places1()
    ensures K(0) == 0 && K(1) == 1 && K(2) == 2 && K(3) == 3
    ensures S(0) == 7 && S(1) == 12 && S(2) == 17 && S(3) == 22
    ensures K(4) == 4 && K(5) == 5 && K(6) == 6 && K(7) == 7
    ensures S(4) == 7 && S(5) == 12 && S(6) == 17 && S(7) == 22
    ensures K(8) == 8 && K(9) == 9 && K(10) == 10 && K(11) == 11
    ensures S(8) == 7 && S(9) == 12 && S(10) == 17 && S(11) == 22
    ensures K(12) == 12 && K(13) == 13 && K(14) == 14 && K(15) == 15
    ensures S(12) == 7 && S(13) == 12 && S(14) == 17 && S(15) == 22
  {
  }

  /** Round 1: steps 0 to 15. */
  method Round1(q: Regs, ghost r: Regs, x: Words16) returns (p: Regs)
    requires q == Steps(0, 0, r, x)
    ensures p == Steps(0, 16, r, x)
  {
    Additive1();
    Places1();
    hide F, G, H, I, Set, Steps, K, S, T;
    var a, b, c, d := q.a, q.b, q.c, q.d;
    FourSteps(0, Regs(a, b, c, d), r, x);
    a := Set(F(b, c, d), a, b, x[0], 7, 0xd76aa478);
    d := Set(F(a, b, c), d, a, x[1], 12, 0xe8c7b756);
    c := Set(F(d, a, b), c, d, x[2], 17, 0x242070db);
    b := Set(F(c, d, a), b, c, x[3], 22, 0xc1bdceee);
    FourSteps(4, Regs(a, b, c, d), r, x);
    a := Set(F(b, c, d), a, b, x[4], 7, 0xf57c0faf);
    d := Set(F(a, b, c), d, a, x[5], 12, 0x4787c62a);
    c := Set(F(d, a, b), c, d, x[6], 17, 0xa8304613);
    b := Set(F(c, d, a), b, c, x[7], 22, 0xfd469501);
    FourSteps(8, Regs(a, b, c, d), r, x);
    a := Set(F(b, c, d), a, b, x[8], 7, 0x698098d8);
    d := Set(F(a, b, c), d, a, x[9], 12, 0x8b44f7af);
    c := Set(F(d, a, b), c, d, x[10], 17, 0xffff5bb1);
    b := Set(F(c, d, a), b, c, x[11], 22, 0x895cd7be);
    FourSteps(12, Regs(a, b, c, d), r, x);
    a := Set(F(b, c, d), a, b, x[12], 7, 0x6b901122);
    d := Set(F(a, b, c), d, a, x[13], 12, 0xfd987193);
    c := Set(F(d, a, b), c, d, x[14], 17, 0xa679438e);
    b := Set(F(c, d, a), b, c, x[15], 22, 0x49b40821);
    p := Regs(a, b, c, d);
  }

  /** The constants of round 2. */
  lemma Additive2()
    ensures T(16) == 0xf61e2562 && T(17) == 0xc040b340 && T(18) == 0x265e5a51 && T(19) == 0xe9b6c7aa
    ensures T(20) == 0xd62f105d && T(21) == 0x02441453 && T(22) == 0xd8a1e681 && T(23) == 0xe7d3fbc8
    ensures T(24) == 0x21e1cde6 && T(25) == 0xc33707d6 && T(26) == 0xf4d50d87 && T(27) == 0x455a14ed
    ensures T(28) == 0xa9e3e905 && T(29) == 0xfcefa3f8 && T(30) == 0x676f02d9 && T(31) == 0x8d2a4c8a
  {
  }

  lemma Places2()
    ensures K(16) == 1 && K(17) == 6 && K(18) == 11 && K(19) == 0
    ensures S(16) == 5 && S(17) == 9 && S(18) == 14 && S(19) == 20
    ensures K(20) == 5 && K(21) == 10 && K(22) == 15 && K(23) == 4
    ensures S(20) == 5 && S(21) == 9 && S(22) == 14 && S(23) == 20
    ensures K(24) == 9 && K(25) == 14 && K(26) == 3 && K(27) == 8
    ensures S(24) == 5 && S(25) == 9 && S(26) == 14 && S(27) == 20
    ensures K(28) == 13 && K(29) == 2 && K(30) == 7 && K(31) == 12
    ensures S(28) == 5 && S(29) == 9 && S(30) == 14 && S(31) == 20
  {
  }

  /** Round 2: steps 16 to 31. */
  method Round2(q: Regs, ghost r: Regs, x: Words16) returns (p: Regs)
    requires q == Steps(0, 16, r, x)
    ensures p == Steps(0, 32, r, x)
  {
    Additive2();
    Places2();
    hide F, G, H, I, Set, Steps, K, S, T;
    var a, b, c, d := q.a, q.b, q.c, q.d;
    FourSteps(16, Regs(a, b, c, d), r, x);
    a := Set(G(b, c, d), a, b, x[1], 5, 0xf61e2562);
    d := Set(G(a, b, c), d, a, x[6], 9, 0xc040b340);
    c := Set(G(d, a, b), c, d, x[11], 14, 0x265e5a51);
    b := Set(G(c, d, a), b, c, x[0], 20, 0xe9b6c7aa);
    FourSteps(20, Regs(a, b, c, d), r, x);
    a := Set(G(b, c, d), a, b, x[5], 5, 0xd62f105d);
    d := Set(G(a, b, c), d, a, x[10], 9, 0x02441453);
    c := Set(G(d, a, b), c, d, x[15], 14, 0xd8a1e681);
    b := Set(G(c, d, a), b, c, x[4], 20, 0xe7d3fbc8);
    FourSteps(24, Regs(a, b, c, d), r, x);
    a := Set(G(b, c, d), a, b, x[9], 5, 0x21e1cde6);
    d := Set(G(a, b, c), d, a, x[14], 9, 0xc33707d6);
    c := Set(G(d, a, b), c, d, x[3], 14, 0xf4d50d87);
    b := Set(G(c, d, a), b, c, x[8], 20, 0x455a14ed);
    FourSteps(28, Regs(a, b, c, d), r, x);
    a := Set(G(b, c, d), a, b, x[13], 5, 0xa9e3e905);
    d := Set(G(a, b, c), d, a, x[2], 9, 0xfcefa3f8);
    c := Set(G(d, a, b), c, d, x[7], 14, 0x676f02d9);
    b := Set(G(c, d, a), b, c, x[12], 20, 0x8d2a4c8a);
    p := Regs(a, b, c, d);
  }

  /** The constants of round 3. */
  lemma Additive3()
    ensures T(32) == 0xfffa3942 && T(33) == 0x8771f681 && T(34) == 0x6d9d6122 && T(35) == 0xfde5380c
    ensures T(36) == 0xa4beea44 && T(37) == 0x4bdecfa9 && T(38) == 0xf6bb4b60 && T(39) == 0xbebfbc70
    ensures T(40) == 0x289b7ec6 && T(41) == 0xeaa127fa && T(42) == 0xd4ef3085 && T(43) == 0x04881d05
    ensures T(44) == 0xd9d4d039 && T(45) == 0xe6db99e5 && T(46) == 0x1fa27cf8 && T(47) == 0xc4ac5665
  {
  }

  lemma Places3()
    ensures K(32) == 5 && K(33) == 8 && K(34) == 11 && K(35) == 14
    ensures S(32) == 4 && S(33) == 11 && S(34) == 16 && S(35) == 23
    ensures K(36) == 1 && K(37) == 4 && K(38) == 7 && K(39) == 10
    ensures S(36) == 4 && S(37) == 11 && S(38) == 16 && S(39) == 23
    ensures K(40) == 13 && K(41) == 0 && K(42) == 3 && K(43) == 6
    ensures S(40) == 4 && S(41) == 11 && S(42) == 16 && S(43) == 23
    ensures K(44) == 9 && K(45) == 12 && K(46) == 15 && K(47) == 2
    ensures S(44) == 4 && S(45) == 11 && S(46) == 16 && S(47) == 23
  {
  }

  /** Round 3: steps 32 to 47. */
  method Round3(q: Regs, ghost r: Regs, x: Words16) returns (p: Regs)
    requires q == Steps(0, 32, r, x)
    ensures p == Steps(0, 48, r, x)
  {
    Additive3();
    Places3();
    hide F, G, H, I, Set, Steps, K, S, T;
    var a, b, c, d := q.a, q.b, q.c, q.d;
    FourSteps(32, Regs(a, b, c, d), r, x);
    a := Set(H(b, c, d), a, b, x[5], 4, 0xfffa3942);
    d := Set(H(a, b, c), d, a, x[8], 11, 0x8771f681);
    c := Set(H(d, a, b), c, d, x[11], 16, 0x6d9d6122);
    b := Set(H(c, d, a), b, c, x[14], 23, 0xfde5380c);
    FourSteps(36, Regs(a, b, c, d), r, x);
    a := Set(H(b, c, d), a, b, x[1], 4, 0xa4beea44);
    d := Set(H(a, b, c), d, a, x[4], 11, 0x4bdecfa9);
    c := Set(H(d, a, b), c, d, x[7], 16, 0xf6bb4b60);
    b := Set(H(c, d, a), b, c, x[10], 23, 0xbebfbc70);
    FourSteps(40, Regs(a, b, c, d), r, x);
    a := Set(H(b, c, d), a, b, x[13], 4, 0x289b7ec6);
    d := Set(H(a, b, c), d, a, x[0], 11, 0xeaa127fa);
    c := Set(H(d, a, b), c, d, x[3], 16, 0xd4ef3085);
    b := Set(H(c, d, a), b, c, x[6], 23, 0x04881d05);
    FourSteps(44, Regs(a, b, c, d), r, x);
    a := Set(H(b, c, d), a, b, x[9], 4, 0xd9d4d039);
    d := Set(H(a, b, c), d, a, x[12], 11, 0xe6db99e5);
    c := Set(H(d, a, b), c, d, x[15], 16, 0x1fa27cf8);
    b := Set(H(c, d, a), b, c, x[2], 23, 0xc4ac5665);
    p := Regs(a, b, c, d);
  }

  /** The constants of round 4. */
  lemma Additive4()
    ensures T(48) == 0xf4292244 && T(49) == 0x432aff97 && T(50) == 0xab9423a7 && T(51) == 0xfc93a039
    ensures T(52) == 0x655b59c3 && T(53) == 0x8f0ccc92 && T(54) == 0xffeff47d && T(55) == 0x85845dd1
    ensures T(56) == 0x6fa87e4f && T(57) == 0xfe2ce6e0 && T(58) == 0xa3014314 && T(59) == 0x4e0811a1
    ensures T(60) == 0xf7537e82 && T(61) == 0xbd3af235 && T(62) == 0x2ad7d2bb && T(63) == 0xeb86d391
  {
  }

  lemma Places4()
    ensures K(48) == 0 && K(49) == 7 && K(50) == 14 && K(51) == 5
    ensures S(48) == 6 && S(49) == 10 && S(50) == 15 && S(51) == 21
    ensures K(52) == 12 && K(53) == 3 && K(54) == 10 && K(55) == 1
    ensures S(52) == 6 && S(53) == 10 && S(54) == 15 && S(55) == 21
    ensures K(56) == 8 && K(57) == 15 && K(58) == 6 && K(59) == 13
    ensures S(56) == 6 && S(57) == 10 && S(58) == 15 && S(59) == 21
    ensures K(60) == 4 && K(61) == 11 && K(62) == 2 && K(63) == 9
    ensures S(60) == 6 && S(61) == 10 && S(62) == 15 && S(63) == 21
  {
  }

  /** Round 4: steps 48 to 63. */
  method Round4(q: Regs, ghost r: Regs, x: Words16) returns (p: Regs)
    requires q == Steps(0, 48, r, x)
    ensures p == Steps(0, 64, r, x)
  {
    Additive4();
    Places4();
    hide F, G, H, I, Set, Steps, K, S, T;
    var a, b, c, d := q.a, q.b, q.c, q.d;
    FourSteps(48, Regs(a, b, c, d), r, x);
    a := Set(I(b, c, d), a, b, x[0], 6, 0xf4292244);
    d := Set(I(a, b, c), d, a, x[7], 10, 0x432aff97);
    c := Set(I(d, a, b), c, d, x[14], 15, 0xab9423a7);
    b := Set(I(c, d, a), b, c, x[5], 21, 0xfc93a039);
    FourSteps(52, Regs(a, b, c, d), r, x);
    a := Set(I(b, c, d), a, b, x[12], 6, 0x655b59c3);
    d := Set(I(a, b, c), d, a, x[3], 10, 0x8f0ccc92);
    c := Set(I(d, a, b), c, d, x[10], 15, 0xffeff47d);
    b := Set(I(c, d, a), b, c, x[1], 21, 0x85845dd1);
    FourSteps(56, Regs(a, b, c, d), r, x);
    a := Set(I(b, c, d), a, b, x[8], 6, 0x6fa87e4f);
    d := Set(I(a, b, c), d, a, x[15], 10, 0xfe2ce6e0);
    c := Set(I(d, a, b), c, d, x[6], 15, 0xa3014314);
    b := Set(I(c, d, a), b, c, x[13], 21, 0x4e0811a1);
    FourSteps(60, Regs(a, b, c, d), r, x);
    a := Set(I(b, c, d), a, b, x[4], 6, 0xf7537e82);
    d := Set(I(a, b, c), d, a, x[11], 10, 0xbd3af235);
    c := Set(I(d, a, b), c, d, x[2], 15, 0x2ad7d2bb);
    b := Set(I(c, d, a), b, c, x[9], 21, 0xeb86d391);
    p := Regs(a, b, c, d);
  }

  /** The byte loop that makes words of a block. */
  method LoadWords(block: seq<byte>) returns (x: Words16)
    requires |block| == 64
    ensures x == WordsOf(block)
  {
    hide FromBytes;
    var words := new Word[16](_ => 0);
    for i := 0 to 16
      invariant words[..i] == WordsOf(block)[..i]
    {
      words[i] := FromBytes(block[4 * i], block[4 * i + 1], block[4 * i + 2], block[4 * i + 3]);
      assert words[..i + 1] == words[..i] + [words[i]];
    }
    assert words[..] == words[..16];
    x := words[..];
  }

  // ---------- the incremental interface ----------

  class Md5State {
    var count0: Word
    var count1: Word
    var abcd: Regs
    const buf: array<byte>
    ghost var msg: seq<byte>       // everything appended so far

    ghost predicate Valid()
      reads this, buf
    {
      && buf.Length == 64
      && count1 * WORD + count0 == (8 * |msg|) % 0x1_0000_0000_0000_0000
      && abcd == Absorb(INITIAL, msg)
      && buf[..|msg| % 64] == Tail(msg)
    }

    /** md5_init. */
    constructor ()
      ensures Valid() && msg == [] && fresh(buf)
    {
      count0, count1 := 0, 0;
      abcd := INITIAL;
      buf := new byte[64](_ => 0);
      msg := [];
    }

    /** md5_process. */
    method Process(block: seq<byte>)
      requires |block| == 64
      modifies this`abcd
      ensures abcd == Compress(old(abcd), block)
    {
      hide Steps, WordsOf, Plus;
      NoSteps(abcd, WordsOf(block));
      var x := LoadWords(block);
      ghost var r := abcd;
      var q := Round1(abcd, r, x);
      q := Round2(q, r, x);
      q := Round3(q, r, x);
      q := Round4(q, r, x);
      abcd := Regs(Plus(abcd.a, q.a), Plus(abcd.b, q.b), Plus(abcd.c, q.c), Plus(abcd.d, q.d));
    }

    /** The length update at the start of md5_append. */
    method CountBits(nbytes: nat)
      requires nbytes < 0x8000_0000
      modifies this`count0, this`count1
      ensures count1 * WORD + count0 == (old(count1) * WORD + old(count0) + 8 * nbytes) % 0x1_0000_0000_0000_0000
    {
      var nbits := (nbytes * 8) % WORD;
      CarryOver(count0, count1, nbytes);
      count1 := Plus(count1, nbytes / 0x2000_0000);
      count0 := Plus(count0, nbits);
      if count0 < nbits {
        count1 := Plus(count1, 1);
      }
    }

    /** md5_append. */
    method Append(data: seq<byte>)
      requires Valid() && |data| < 0x8000_0000
      modifies this, buf
      ensures Valid() && msg == old(msg) + data
    {
      hide Absorb, Tail, Padded, Compress;
      var offset := (count0 / 8) % 64;
      OffsetIs(count0, count1, |msg|);
      if |data| == 0 {
        assert msg + data == msg;
        return;
      }
      CountBits(|data|);
      CountAdds(|msg|, |data|);
      AbsorbAppend(INITIAL, msg, data);
      AppendAt(data, offset, Tail(msg));
      msg := msg + data;
    }

    /** The data part of md5_append: complete the partial block, if there is one, and go on from there. */
    method AppendAt(data: seq<byte>, offset: nat, ghost tail: seq<byte>)
      requires buf.Length == 64 && offset == |tail| < 64 && buf[..offset] == tail && 0 < |data|
      modifies this`abcd, buf
      ensures abcd == Absorb(old(abcd), tail + data)
      ensures buf[..|tail + data| % 64] == Tail(tail + data)
    {
      hide Compress;
      ghost var all := tail + data;
      var at := 0;
      if offset != 0 {
        at := if offset + |data| > 64 then 64 - offset else |data|;
        Store(offset, data[..at]);
        if offset + at < 64 {
          assert data[..at] == data;
          return;
        }
        assert buf[..] == buf[..offset + at];
        assert buf[..] == all[..64] && all[64..] == data[at..];
        Process(buf[..]);
      } else {
        assert all == data && data[0..] == data;
      }
      AppendBlocks(data, at);
    }

    /** memcpy into the block buffer. */
    method Store(at: nat, data: seq<byte>)
      requires buf.Length == 64 && at + |data| <= 64
      modifies buf
      ensures buf[..at + |data|] == old(buf[..at]) + data
    {
      for i := 0 to |data|
        invariant buf[..at + i] == old(buf[..at]) + data[..i]
      {
        buf[at + i] := data[i];
        assert buf[..at + i + 1] == buf[..at + i] + [data[i]];
        assert data[..i + 1] == data[..i] + [data[i]];
      }
      assert data[..|data|] == data;
    }

    /** The full blocks of the data from position `from` on, and the partial one at the end. */
    method AppendBlocks(data: seq<byte>, start: nat)
      requires buf.Length == 64 && start <= |data|
      modifies this`abcd, buf
      ensures abcd == Absorb(old(abcd), data[start..])
      ensures buf[..|data[start..]| % 64] == Tail(data[start..])
    {
      hide Compress;
      var p := start;
      ghost var whole := Absorb(abcd, data[start..]);
      while |data| - p >= 64
        invariant start <= p <= |data| && (|data| - p) % 64 == (|data| - start) % 64
        invariant Absorb(abcd, data[p..]) == whole && Tail(data[p..]) == Tail(data[start..])
      {
        assert data[p..][..64] == data[p..p + 64] && data[p..][64..] == data[p + 64..];
        Process(data[p..p + 64]);
        p := p + 64;
      }
      if p < |data| {
        assert buf[..0] + data[p..] == data[p..];
        Store(0, data[p..]);
      }
    }

    /** md5_finish: the digest of everything that was appended. */
    method Finish() returns (digest: seq<byte>)
      requires Valid()
      modifies this, buf
      ensures digest == Hash(old(msg))
    {
      hide Absorb, Digest, LengthBytes;
      var data := SavedLength();
      var padLen := (WORD + 55 - count0 / 8) % WORD % 64 + 1;
      OffsetIs(count0, count1, |msg|);
      PadLength(count0 / 8, |msg|, padLen);
      var pad: seq<byte> := [0x80] + Repeat<byte>(0, 63);
      assert pad[..padLen] == [0x80] + Repeat<byte>(0, padLen - 1);
      Append(pad[..padLen]);
      Append(data);
      digest := Bytes();
    }

    /** The length, before padding. */
    method SavedLength() returns (data: seq<byte>)
      ensures data == LengthBytes(count1 * WORD + count0)
    {
      hide ByteOf;
      var d := new byte[8](_ => 0);
      for i := 0 to 8
        invariant forall k :: 0 <= k < i ==> d[k] == ByteOf(if k < 4 then count0 else count1, k % 4)
      {
        d[i] := ByteOf(if i < 4 then count0 else count1, i % 4);
      }
      data := d[..];
      LengthParts(count0, count1);
    }

    /** The registers as bytes. */
    method Bytes() returns (digest: seq<byte>)
      ensures digest == Digest(abcd)
    {
      var d := new byte[16](_ => 0);
      for i := 0 to 16
        invariant forall k :: 0 <= k < i ==> d[k] == Digest(abcd)[k]
      {
        d[i] := ByteOf(if i < 4 then abcd.a else if i < 8 then abcd.b else if i < 12 then abcd.c else abcd.d, i % 4);
      }
      digest := d[..];
    }
  }

  lemma LengthParts(count0: Word, count1: Word)
    ensures var n := count1 * WORD + count0; n < 0x1_0000_0000_0000_0000 && n % WORD == count0 && n / WORD == count1
  {
    DivModUnique(count1 * WORD + count0, WORD, count1, count0);
  }

  lemma PadLength(bytes: nat, n: nat, padLen: nat)
    requires bytes < 0x2000_0000 && bytes % 64 == n % 64 && padLen == (WORD + 55 - bytes) % WORD % 64 + 1
    ensures padLen - 1 == PadZeros(n)
  {
    var x := WORD + 55 - bytes;
    ModMod(x, 0x400_0000, 64);
    DivModUnique(x, 64, 0x400_0000 - bytes / 64 + (55 - bytes % 64) / 64, (55 - bytes % 64) % 64);
  }

  lemma PlusTwice(a: Word, b: Word, carry: nat)
    requires carry <= 1
    ensures (if carry == 1 then Plus(Plus(a, b), 1) else Plus(a, b)) == (a + b + carry) % WORD
  {
  }

  /** The comparison after the addition finds out whether there was a carry. */
  lemma CarryOver(count0: Word, count1: Word, nbytes: nat)
    requires nbytes < 0x8000_0000
    ensures var nbits := (nbytes * 8) % WORD;
            var low, high := Plus(count0, nbits), Plus(count1, nbytes / 0x2000_0000);
            (if low < nbits then Plus(high, 1) else high) * WORD + low
            == (count1 * WORD + count0 + 8 * nbytes) % 0x1_0000_0000_0000_0000
  {
    var nbits, hi := (nbytes * 8) % WORD, nbytes / 0x2000_0000;
    assert nbytes * 8 == hi * WORD + nbits;
    var low, carry := Plus(count0, nbits), if count0 + nbits >= WORD then 1 else 0;
    assert count0 + nbits == carry * WORD + low && (low < nbits <==> carry == 1);
    var sum := count1 + hi + carry;
    PlusTwice(count1, hi, carry);
    DivModUnique(count1 * WORD + count0 + 8 * nbytes, 0x1_0000_0000_0000_0000, sum / WORD, (sum % WORD) * WORD + low);
  }

  lemma OffsetIs(count0: Word, count1: Word, n: nat)
    requires count1 * WORD + count0 == (8 * n) % 0x1_0000_0000_0000_0000
    ensures (count0 / 8) % 64 == n % 64
  {
    var q := (8 * n) / 0x1_0000_0000_0000_0000;
    var high := q * 0x400_0000_0000_0000 + count1 * 0x400_0000;
    var b, e := count0 / 8, count0 % 8;
    assert 8 * n == q * 0x1_0000_0000_0000_0000 + count1 * WORD + 8 * b + e;
    assert e == 0 && n == high * 8 + b;
    DivModUnique(n, 64, high / 8 + b / 64, b % 64);
  }

  lemma CountAdds(n: nat, m: nat)
    ensures ((8 * n) % 0x1_0000_0000_0000_0000 + 8 * m) % 0x1_0000_0000_0000_0000
            == (8 * (n + m)) % 0x1_0000_0000_0000_0000
  {
  }

  /** Any way of splitting a message into md5_append calls gives the digest of the whole message. */
  method HashPieces(pieces: seq<seq<byte>>) returns (digest: seq<byte>)
    requires forall i :: 0 <= i < |pieces| ==> |pieces[i]| < 0x8000_0000
    ensures digest == Hash(Concat(pieces))
  {
    hide Md5State.Valid, Hash;
    var s := new Md5State();
    for i := 0 to |pieces|
      invariant s.Valid() && fresh(s) && fresh(s.buf)
      invariant s.msg + Concat(pieces[i..]) == Concat(pieces)
    {
      assert s.msg + (pieces[i] + Concat(pieces[i + 1..])) == (s.msg + pieces[i]) + Concat(pieces[i + 1..]);
      s.Append(pieces[i]);
    }
    assert s.msg + [] == s.msg;
    digest := s.Finish();
  }
}
