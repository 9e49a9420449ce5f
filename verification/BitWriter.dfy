/** Output of bits through a destination buffer: the bit-level half of the Huffman encoder. */
module BitWriter {
  import opened Powers
  import opened BitStrings
  import opened BytePacking

  datatype Error = MissingCode | BadDctCoef

  /** What an output routine reports: finished, suspended for lack of room, or a fatal error exit. */
  datatype Outcome = Done | Suspended | Fatal(error: Error)

  /** The destination manager. `flushed` is what the application already has; `buffer` is the
      buffer it supplied, of which the first `nextOutputByte` bytes are committed. */
  class Destination {
    const suspends: bool          // does empty_output_buffer refuse?
    const buffer: array<byte>
    var nextOutputByte: nat
    var freeInBuffer: nat
    var flushed: seq<byte>

    ghost predicate Valid()
      reads this
    {
      nextOutputByte + freeInBuffer == buffer.Length && freeInBuffer > 0
    }

    /** Everything the encoder has committed to. */
    ghost function Committed(): seq<byte>
      reads this, buffer
      requires nextOutputByte <= buffer.Length
    {
      flushed + buffer[..nextOutputByte]
    }

    constructor (capacity: nat, suspends: bool)
      requires capacity > 0
      ensures Valid() && Committed() == [] && this.suspends == suspends && buffer.Length == capacity
      ensures fresh(buffer)
    {
      this.suspends := suspends;
      buffer := new byte[capacity];
      nextOutputByte, freeInBuffer, flushed := 0, capacity, [];
    }

    /** A suspending destination refuses; any other takes the whole buffer and resets the pointers. */
    method EmptyOutputBuffer() returns (ok: bool)
      modifies this
      ensures ok <==> !suspends
      ensures !ok ==> unchanged(this)
      ensures ok ==> flushed == old(flushed) + buffer[..] && nextOutputByte == 0 && freeInBuffer == buffer.Length
    {
      if suspends {
        return false;
      }
      flushed := flushed + buffer[..];
      nextOutputByte, freeInBuffer := 0, buffer.Length;
      return true;
    }

    /** emit_byte of the marker writer. */
    method EmitMarkerByte(val: byte) returns (ok: bool)
      requires Valid()
      modifies this, buffer
      ensures !ok <==> suspends && old(freeInBuffer) == 1
      ensures ok ==> Valid() && Committed() == old(Committed()) + [val]
    {
      ghost var was := buffer[..nextOutputByte];
      buffer[nextOutputByte] := val;
      nextOutputByte, freeInBuffer := nextOutputByte + 1, freeInBuffer - 1;
      assert buffer[..nextOutputByte] == was + [val];
      ok := true;
      if freeInBuffer == 0 {
        assert buffer[..] == buffer[..nextOutputByte];
        ok := EmptyOutputBuffer();
      }
    }

    /** The application takes the first n committed bytes and moves the others down. */
    method Drain(n: nat)
      requires Valid() && n <= nextOutputByte
      modifies this, buffer
      ensures Valid() && Committed() == old(Committed())
      ensures freeInBuffer == old(freeInBuffer) + n
      ensures flushed == old(flushed) + old(buffer[..n])
    {
      ghost var was := buffer[..nextOutputByte];
      flushed := flushed + buffer[..n];
      var left := nextOutputByte - n;
      forall i | 0 <= i < left {
        buffer[i] := buffer[n + i];
      }
      nextOutputByte, freeInBuffer := left, freeInBuffer + n;
      assert buffer[..left] == was[n..];
    }
  }

  /** A 32-bit window holds the bits p left-justified in its right 24 bits. */
  ghost predicate Window(p: Bits, word: nat) {
    |p| <= 24 && word < 0x1_0000_0000 && ToBits(word, 24) == p + Zeros(24 - |p|)
  }

  /** The working state of one MCU. Nothing here reaches the destination's own pointers until the
      MCU is complete. Ghost fields: `bits` is every code bit since the last restart, `prefix` the
      bytes before it, `start` what was committed when the state was loaded. */
  class WorkingState {
    const dest: Destination
    var nextOutputByte: nat
    var freeInBuffer: nat
    var putBuffer: nat            // an unsigned 32-bit word; only its right 24 bits are used
    var putBits: nat
    var lastDcVal: seq<int>
    ghost var prefix: seq<byte>
    ghost var bits: Bits
    ghost const start: seq<byte>
    ghost const startNext: nat
    ghost const startFree: nat

    /** The stream as it will be if this working state is committed. */
    ghost function Stream(): seq<byte>
      reads this, dest, dest.buffer
      requires nextOutputByte <= dest.buffer.Length
    {
      dest.flushed + dest.buffer[..nextOutputByte]
    }

    /** Would a stream of this length still leave a free byte? */
    ghost predicate Fits(length: nat)
      reads dest
    {
      !dest.suspends || length < |dest.flushed| + dest.buffer.Length
    }

    /** The committed part of the destination is as it was when the state was loaded. */
    ghost predicate Safe()
      reads this, dest, dest.buffer
    {
      && nextOutputByte + freeInBuffer == dest.buffer.Length
      && dest.nextOutputByte <= dest.buffer.Length
      && (dest.suspends ==>
            && dest.Committed() == start
            && dest.nextOutputByte <= nextOutputByte
            && dest.nextOutputByte == startNext && dest.freeInBuffer == startFree)
    }

    ghost predicate Running()
      reads this, dest, dest.buffer
    {
      Safe() && freeInBuffer > 0
    }

    ghost predicate Valid()
      reads this, dest, dest.buffer
    {
      && Running()
      && putBits == |Rest(bits)|
      && Window(Rest(bits), putBuffer)
      && Stream() == prefix + Coded(bits)
    }

    constructor (dest: Destination, putBuffer: nat, putBits: nat, lastDcVal: seq<int>,
                 ghost prefix: seq<byte>, ghost bits: Bits)
      requires dest.Valid()
      requires putBits == |Rest(bits)| && Window(Rest(bits), putBuffer)
      requires dest.Committed() == prefix + Coded(bits)
      ensures Valid() && this.dest == dest && this.lastDcVal == lastDcVal
      ensures this.prefix == prefix && this.bits == bits
      ensures start == dest.Committed() && startNext == dest.nextOutputByte && startFree == dest.freeInBuffer
    {
      this.dest := dest;
      this.nextOutputByte, this.freeInBuffer := dest.nextOutputByte, dest.freeInBuffer;
      this.putBuffer, this.putBits, this.lastDcVal := putBuffer, putBits, lastDcVal;
      this.prefix, this.bits := prefix, bits;
      this.start, this.startNext, this.startFree := dest.Committed(), dest.nextOutputByte, dest.freeInBuffer;
    }

    method DumpBuffer() returns (ok: bool)
      requires Safe()
      modifies this`nextOutputByte, this`freeInBuffer, dest
      ensures ok <==> !dest.suspends
      ensures ok ==> nextOutputByte == 0 && freeInBuffer == dest.buffer.Length
      ensures ok ==> dest.flushed == old(dest.flushed) + dest.buffer[..] && Safe()
      ensures !ok ==> unchanged(this, dest)
    {
      ok := dest.EmptyOutputBuffer();
      if ok {
        nextOutputByte, freeInBuffer := dest.nextOutputByte, dest.freeInBuffer;
      }
    }

    /** The emit_byte macro. */
    method EmitByte(val: byte) returns (ok: bool)
      requires Running()
      modifies this`nextOutputByte, this`freeInBuffer, dest, dest.buffer
      ensures Safe() && (ok ==> Running())
      ensures dest.suspends ==> dest.flushed == old(dest.flushed)
      ensures ok ==> Stream() == old(Stream()) + [val]
      ensures ok <==> Fits(|old(Stream())| + 1)
    {
      ghost var was := dest.buffer[..nextOutputByte];
      ghost var committed := dest.buffer[..dest.nextOutputByte];
      dest.buffer[nextOutputByte] := val;
      nextOutputByte := nextOutputByte + 1;
      freeInBuffer := freeInBuffer - 1;
      assert dest.buffer[..nextOutputByte] == was + [val];
      assert dest.suspends ==> dest.buffer[..dest.nextOutputByte] == committed;
      ok := true;
      if freeInBuffer == 0 {
        assert dest.buffer[..nextOutputByte] == dest.buffer[..];
        ok := DumpBuffer();
      }
    }

    /** A byte of coded data, with the zero stuffed after 0xFF. */
    method EmitCodedByte(c: byte) returns (ok: bool)
      requires Running()
      modifies this`nextOutputByte, this`freeInBuffer, dest, dest.buffer
      ensures Safe() && (ok ==> Running())
      ensures dest.suspends ==> dest.flushed == old(dest.flushed)
      ensures ok ==> Stream() == old(Stream()) + StuffByte(c)
      ensures ok <==> Fits(|old(Stream())| + |StuffByte(c)|)
    {
      ok := EmitByte(c);
      if ok && c == 0xFF {
        ok := EmitByte(0);
      }
    }

    /** The loop of emit_bits: send out every complete byte of a window that holds p. */
    method EmitFullBytes(word: nat, count: nat, ghost p: Bits) returns (ok: bool, word': nat, count': nat)
      requires Running() && count == |p| && Window(p, word)
      modifies this`nextOutputByte, this`freeInBuffer, dest, dest.buffer
      ensures Safe()
      ensures dest.suspends ==> dest.flushed == old(dest.flushed)
      ensures ok ==> Running() && Stream() == old(Stream()) + Coded(p)
      ensures ok ==> count' == |Rest(p)| && Window(Rest(p), word')
      ensures ok <==> Fits(|old(Stream())| + |Coded(p)|)
    {
      ghost var goal := Stream() + Coded(p);
      ghost var q := p;
      word', count' := word, count;
      while count' >= 8
        invariant Running() && count' == |q| && Window(q, word')
        invariant dest.suspends ==> dest.flushed == old(dest.flushed)
        invariant Stream() + Coded(q) == goal
        invariant Rest(q) == Rest(p)
      {
        ShiftOut(q, word');
        var c := BitAnd(ShiftRight(word', 16), 0xFF);
        assert Coded(q) == StuffByte(c) + Coded(q[8..]);
        assert Stream() + Coded(q) == (Stream() + StuffByte(c)) + Coded(q[8..]);
        ok := EmitCodedByte(c);
        if !ok {
          return;
        }
        word', count', q := ShiftLeft(word', 8), count' - 8, q[8..];
      }
      assert Coded(q) == [];
      ok := true;
    }

    /** Emit the low `size` bits of `code`. */
    method EmitBits(code: nat, size: nat) returns (r: Outcome)
      requires Valid() && size <= 16
      modifies this`nextOutputByte, this`freeInBuffer, this`putBuffer, this`putBits, this`bits, dest, dest.buffer
      ensures Safe()
      ensures dest.suspends ==> dest.flushed == old(dest.flushed)
      ensures r.Fatal? <==> size == 0
      ensures r.Fatal? ==> r == Fatal(MissingCode)
      ensures r.Done? ==> Valid() && bits == old(bits) + ToBits(code, size)
      ensures size > 0 ==> (r.Done? <==> Fits(|prefix + Coded(old(bits) + ToBits(code, size))|))
    {
      if size == 0 {
        return Fatal(MissingCode);
      }
      ghost var new' := ToBits(code, size);
      ghost var was := bits;
      CodedMore(prefix, was, new');
      var word := Merge(putBuffer, putBits, code, size, Rest(was));
      var ok, count;
      ok, word, count := EmitFullBytes(word, putBits + size, Rest(was) + new');
      if !ok {
        return Suspended;
      }
      putBuffer, putBits, bits := word, count, was + new';
      return Done;
    }

    /** Fill any partial byte with ones and empty the window. */
    method FlushBits() returns (ok: bool)
      requires Valid()
      modifies this`nextOutputByte, this`freeInBuffer, this`putBuffer, this`putBits, this`bits, this`prefix, dest,
               dest.buffer
      ensures Safe()
      ensures dest.suspends ==> dest.flushed == old(dest.flushed)
      ensures ok ==> Valid() && bits == [] && prefix == old(prefix + Coded(bits + Ones(7)))
      ensures ok <==> Fits(|old(prefix + Coded(bits + Ones(7)))|)
    {
      SevenOnes();
      var r := EmitBits(0x7F, 7);
      if r != Done {
        return false;
      }
      putBuffer, putBits := 0, 0;
      ToBitsZero(24);
      prefix, bits := prefix + Coded(bits), [];
      return true;
    }
  }

  /** Left shift of an unsigned 32-bit word. */
  function ShiftLeft(w: nat, k: nat): (r: nat)
    ensures r < 0x1_0000_0000
  {
    (w * Pow2(k)) % 0x1_0000_0000
  }

  /** Mask off extra bits, align, and merge with the old window. */
  method Merge(word: nat, n: nat, code: nat, size: nat, ghost p: Bits) returns (r: nat)
    requires n == |p| <= 7 && 1 <= size <= 16 && Window(p, word)
    ensures Window(p + ToBits(code, size), r)
  {
    MergeIsAppend(p, word, code, size);
    r := BitOr(ShiftLeft(BitAnd(code, Pow2(size) - 1), 24 - (n + size)), word);
  }

  lemma SevenOnes()
    ensures ToBits(0x7F, 7) == Ones(7)
  {
    Pow2Literals();
    ValOnes(7);
    ToBitsVal(Ones(7));
  }

  /** Shifting the window moves its 24 bits left; what is pushed out does not matter. */
  lemma ShiftLeftBits(w: nat, k: nat)
    requires k <= 24
    ensures ToBits(ShiftLeft(w, k), 24) == ToBits(w, 24)[k..] + Zeros(k)
  {
    hide ToBits, Pow2;
    var x := w * Pow2(k);
    Pow2Literals();
    assert ToBits(x % Pow2(32), 24) == ToBits(x, 24) by {
      ToBitsMod(x, 32);
      ToBitsSplit(x, 8, 24);
      ToBitsSplit(x % Pow2(32), 8, 24);
      assert ToBits(x, 24) == ToBits(x, 8 + 24)[8..];
      assert ToBits(x % Pow2(32), 24) == ToBits(x % Pow2(32), 8 + 24)[8..];
    }
    ToBitsSplit(w, k, 24 - k);
    assert ToBits(w, 24) == ToBits(w, k + (24 - k));
    ToBitsShift(w, 24 - k, k);
  }

  lemma MaskedBits(code: nat, size: nat)
    requires size <= 24
    ensures ToBits(BitAnd(code, Pow2(size) - 1), 24) == Zeros(24 - size) + ToBits(code, size)
  {
    var m := code % Pow2(size);
    AndMask(code, size);
    ToBitsMod(code, size);
    ToBitsSplit(m, 24 - size, size);
    ShiftRightSmall(m, size);
    ToBitsZero(24 - size);
  }

  lemma AlignedBits(code: nat, size: nat, k: nat)
    requires size + k <= 24
    ensures ToBits(ShiftLeft(BitAnd(code, Pow2(size) - 1), k), 24)
            == Zeros(24 - size - k) + ToBits(code, size) + Zeros(k)
  {
    MaskedBits(code, size);
    ShiftLeftBits(BitAnd(code, Pow2(size) - 1), k);
    assert (Zeros(24 - size) + ToBits(code, size))[k..] == Zeros(24 - size - k) + ToBits(code, size);
  }

  /** Masking, aligning and or-ing in the new bits appends them to the window. */
  lemma MergeIsAppend(p: Bits, word: nat, code: nat, size: nat)
    requires |p| <= 7 && 1 <= size <= 16 && Window(p, word)
    ensures Window(p + ToBits(code, size),
                   BitOr(ShiftLeft(BitAnd(code, Pow2(size) - 1), 24 - |p| - size), word))
  {
    hide ToBits, Pow2, BitAnd, BitOr;
    var inc := ShiftLeft(BitAnd(code, Pow2(size) - 1), 24 - |p| - size);
    AlignedBits(code, size, 24 - |p| - size);
    MergeWords(p, ToBits(code, size), inc, word);
  }

  lemma MergeWords(p: Bits, t: Bits, inc: nat, word: nat)
    requires |p| + |t| <= 24 && Window(p, word) && inc < 0x1_0000_0000
    requires ToBits(inc, 24) == Zeros(|p|) + t + Zeros(24 - |p| - |t|)
    ensures Window(p + t, BitOr(inc, word))
  {
    hide ToBits, BitOr, Pow2;
    OrBits(inc, word, 24);
    OrFits(inc, word);
    var r := ToBits(BitOr(inc, word), 24);
    forall i | 0 <= i < 24 ensures r[i] == (p + t + Zeros(24 - |p| - |t|))[i] {
    }
  }

  lemma OrFits(a: nat, b: nat)
    requires a < 0x1_0000_0000 && b < 0x1_0000_0000
    ensures BitOr(a, b) < 0x1_0000_0000
  {
    Pow2Literals();
    OrBound(a, b, 32);
  }

  /** The top byte of the window is its first eight bits, and shifting it out leaves the others. */
  lemma ShiftOut(p: Bits, word: nat)
    requires 8 <= |p| && Window(p, word)
    ensures BitAnd(ShiftRight(word, 16), 0xFF) == Val(p[..8]) < 0x100
    ensures Window(p[8..], ShiftLeft(word, 8))
  {
    var top := ShiftRight(word, 16);
    ToBitsSplit(word, 8, 16);
    assert ToBits(word, 8 + 16)[..8] == ToBits(top, 8);
    assert p[..8] == ToBits(word, 24)[..8];
    assert Pow2(8) == 0x100 by { Pow2Literals(); }
    ValToBits(top, 8);
    AndMask(top, 8);
    ShiftLeftBits(word, 8);
    assert ToBits(word, 24)[8..] + Zeros(8) == p[8..] + Zeros(24 - |p[8..]|);
  }
}
