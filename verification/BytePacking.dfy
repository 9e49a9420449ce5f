/** How a string of code bits becomes entropy-coded bytes: packed eight at a time, most
    significant bit first, with a zero byte stuffed after every 0xFF (section F.1.2.3 of T.81). */
module BytePacking {
  import opened Powers
  import opened BitStrings

  /** The complete bytes of a bit string. */
  function Pack(s: Bits): seq<byte> {
    if |s| < 8 then [] else
      ValBound(s[..8]); Pow2Literals();
      [Val(s[..8])] + Pack(s[8..])
  }

  /** The bits after the last complete byte. */
  function Rest(s: Bits): (r: Bits)
    ensures |r| == |s| % 8
  {
    if |s| < 8 then s else Rest(s[8..])
  }

  function Unpack(b: seq<byte>): Bits {
    if b == [] then [] else ToBits(b[0], 8) + Unpack(b[1..])
  }

  function StuffByte(b: byte): seq<byte> {
    if b == 0xFF then [0xFF, 0] else [b]
  }

  function Stuff(b: seq<byte>): seq<byte> {
    if b == [] then [] else StuffByte(b[0]) + Stuff(b[1..])
  }

  function Unstuff(b: seq<byte>): seq<byte> {
    if b == [] then []
    else if b[0] == 0xFF && |b| > 1 && b[1] == 0 then [0xFF] + Unstuff(b[2..])
    else [b[0]] + Unstuff(b[1..])
  }

  /** The bytes a segment has produced so far when s is all it was given. */
  function Coded(s: Bits): seq<byte> {
    Stuff(Pack(s))
  }

  lemma {:induction false} PackAppend(s: Bits, t: Bits)
    ensures Pack(s + t) == Pack(s) + Pack(Rest(s) + t)
    ensures Rest(s + t) == Rest(Rest(s) + t)
  {
    if |s| >= 8 {
      assert (s + t)[8..] == s[8..] + t;
      assert (s + t)[..8] == s[..8];
      PackAppend(s[8..], t);
    }
  }

  lemma {:induction false} StuffAppend(a: seq<byte>, b: seq<byte>)
    ensures Stuff(a + b) == Stuff(a) + Stuff(b)
  {
    if a == [] {
      assert a + b == b;
    } else {
      assert (a + b)[1..] == a[1..] + b;
      StuffAppend(a[1..], b);
    }
  }

  /** Coding more bits only appends bytes. */
  lemma CodedAppend(s: Bits, t: Bits)
    ensures Coded(s + t) == Coded(s) + Coded(Rest(s) + t)
    ensures Coded(s) <= Coded(s + t)
  {
    PackAppend(s, t);
    StuffAppend(Pack(s), Pack(Rest(s) + t));
  }

  /** The same, after what was written before the segment. */
  lemma CodedMore(prefix: seq<byte>, s: Bits, t: Bits)
    ensures prefix + Coded(s + t) == (prefix + Coded(s)) + Coded(Rest(s) + t)
    ensures Rest(s + t) == Rest(Rest(s) + t)
    ensures prefix + Coded(s) <= prefix + Coded(s + t)
  {
    hide Coded, Rest;
    CodedAppend(s, t);
    RestAppend(s, t);
  }

  lemma RestAppend(s: Bits, t: Bits)
    ensures Rest(s + t) == Rest(Rest(s) + t)
  {
    PackAppend(s, t);
  }

  lemma {:induction false} UnstuffStuff(b: seq<byte>)
    ensures Unstuff(Stuff(b)) == b
  {
    if b != [] {
      UnstuffStuff(b[1..]);
      var s := Stuff(b);
      if b[0] == 0xFF {
        assert s[2..] == Stuff(b[1..]);
      } else {
        assert s[1..] == Stuff(b[1..]);
      }
    }
  }

  lemma {:induction false} UnpackPack(s: Bits)
    ensures Unpack(Pack(s)) + Rest(s) == s
  {
    if |s| >= 8 {
      UnpackPack(s[8..]);
      ToBitsVal(s[..8]);
      assert Pack(s)[1..] == Pack(s[8..]);
      calc {
        Unpack(Pack(s)) + Rest(s);
        s[..8] + Unpack(Pack(s[8..])) + Rest(s[8..]);
        s[..8] + (Unpack(Pack(s[8..])) + Rest(s[8..]));
        s[..8] + s[8..];
        s;
      }
    }
  }

  /** Nothing is lost: unstuffing and unpacking the bytes, then appending the pending bits,
      gives back every bit that was coded. */
  lemma CodedRoundTrip(s: Bits)
    ensures Unpack(Unstuff(Coded(s))) + Rest(s) == s
  {
    UnstuffStuff(Pack(s));
    UnpackPack(s);
  }

  /** No marker can appear inside coded data: every 0xFF is followed by a zero byte. */
  lemma {:induction false} NoMarkerInside(b: seq<byte>, i: nat)
    requires i < |Stuff(b)| && Stuff(b)[i] == 0xFF
    ensures i + 1 < |Stuff(b)| && Stuff(b)[i + 1] == 0
  {
    var h := StuffByte(b[0]);
    if i >= |h| {
      NoMarkerInside(b[1..], i - |h|);
    }
  }

  /** n one bits. */
  function Ones(n: nat): (s: Bits)
    ensures |s| == n
  {
    seq(n, _ => true)
  }

  lemma {:induction false} ValOnes(n: nat)
    ensures Val(Ones(n)) == Pow2(n) - 1
  {
    if n != 0 {
      ValOnes(n - 1);
      assert Ones(n)[..n - 1] == Ones(n - 1);
    }
  }

  /** Padding with seven ones reaches exactly the next byte boundary and no further: the same
      bytes result from appending only the k ones that complete the last byte. */
  lemma PadToByte(s: Bits, k: nat)
    requires k == (8 - |s| % 8) % 8
    ensures |s + Ones(k)| % 8 == 0
    ensures Pack(s + Ones(7)) == Pack(s + Ones(k))
    ensures Unpack(Pack(s + Ones(7))) == s + Ones(k)
  {
    var u := s + Ones(k);
    var v := Ones(7 - k);
    assert s + Ones(7) == u + v;
    NoneLeft(u, v);
    UnpackPack(u);
    assert Unpack(Pack(u)) + [] == Unpack(Pack(u));
  }

  lemma NoneLeft(u: Bits, v: Bits)
    requires |u| % 8 == 0 && |v| < 8
    ensures Rest(u) == [] && Pack(u + v) == Pack(u)
  {
    PackAppend(u, v);
    assert [] + v == v;
    assert Pack(v) == [] && Pack(u) + [] == Pack(u);
  }
}
