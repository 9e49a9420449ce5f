/** The code reader of IMG_gif.c: variable-width codes, least significant bit first, out of data that
    comes in sub-blocks. */
module GifBits {
  import opened Sequences
  import opened Powers
  import opened BitStrings

  const BUF_SIZE: nat := 280
  const MAX_LWZ_BITS: nat := 12

  // ---------- bits and fields of a byte string ----------

  predicate ByteBit(b: nat, k: nat) {
    (b / Pow2(k)) % 2 == 1
  }

  /** Bit p of a byte string, least significant bit of each byte first. */
  predicate Bit(data: seq<byte>, p: nat)
    requires p < 8 * |data|
  {
    ByteBit(data[p / 8], p % 8)
  }

  /** The n-bit number at bit position p, least significant bit first. */
  function Field(data: seq<byte>, p: nat, n: nat): nat
    requires p + n <= 8 * |data|
  {
    if n == 0 then 0 else Field(data, p, n - 1) + if Bit(data, p + n - 1) then Pow2(n - 1) else 0
  }

  lemma {:induction false} FieldBound(data: seq<byte>, p: nat, n: nat)
    requires p + n <= 8 * |data|
    ensures Field(data, p, n) < Pow2(n)
  {
    if n != 0 {
      FieldBound(data, p, n - 1);
    }
  }

  /** C's test of one bit. */
  lemma {:induction false} AndBit(b: nat, k: nat)
    ensures BitAnd(b, Pow2(k)) != 0 <==> ByteBit(b, k)
    decreases k
  {
    if k == 0 {
      assert Pow2(0) == 1;
      assert BitAnd(b / 2, 0) == 0;
    } else {
      AndBit(b / 2, k - 1);
      assert Pow2(k) / 2 == Pow2(k - 1) && Pow2(k) % 2 == 0;
      DivTwice(b, Pow2(k - 1));
    }
  }

  lemma {:induction false} OrNewBit(v: nat, k: nat)
    requires v < Pow2(k)
    ensures BitOr(v, Pow2(k)) == v + Pow2(k) && BitOr(v, 0) == v
    decreases k
  {
    OrNothing(v);
    if k == 0 {
      assert BitOr(0, 1) == 2 * BitOr(0, 0) + 1;
    } else {
      OrNewBit(v / 2, k - 1);
    }
  }

  lemma {:induction false} OrNothing(v: nat)
    ensures BitOr(v, 0) == v
  {
    if v != 0 {
      OrNothing(v / 2);
    }
  }

  // ---------- sub-blocks ----------

  type Block = b: seq<byte> | 1 <= |b| <= 255 witness [0]

  /** Bit b of buf, which starts two bytes into the memory m. */
  predicate MemBit(m: seq<byte>, b: nat)
    requires |m| == BUF_SIZE + 2 && b < 8 * BUF_SIZE
  {
    ByteBit(m[2 + b / 8], b % 8)
  }

  lemma SeenBit(m: seq<byte>, b: nat)
    requires |m| == BUF_SIZE + 2 && b < 8 * BUF_SIZE
    ensures MemBit(m, b) <==> ByteBit(m[2 + b / 8], b % 8)
  {
  }

  /** The n-bit number at bit b of buf. */
  function MemField(m: seq<byte>, b: nat, n: nat): nat
    requires |m| == BUF_SIZE + 2 && b + n <= 8 * BUF_SIZE
  {
    if n == 0 then 0 else MemField(m, b, n - 1) + if MemBit(m, b + n - 1) then Pow2(n - 1) else 0
  }

  lemma {:induction false} MemFieldBound(m: seq<byte>, b: nat, n: nat)
    requires |m| == BUF_SIZE + 2 && b + n <= 8 * BUF_SIZE
    ensures MemField(m, b, n) < Pow2(n)
  {
    if n != 0 {
      MemFieldBound(m, b, n - 1);
    }
  }

  /** A number out of the buffer is the one in the data exactly when all its bits are. */
  lemma {:induction false} SameField(m: seq<byte>, b: nat, data: seq<byte>, p: nat, n: nat)
    requires |m| == BUF_SIZE + 2 && b + n <= 8 * BUF_SIZE && p + n <= 8 * |data|
    ensures MemField(m, b, n) == Field(data, p, n) <==> forall j: nat :: j < n ==> SameBit(m, b, data, p, j)
  {
    hide MemBit, Bit;
    if n != 0 {
      SameField(m, b, data, p, n - 1);
      MemFieldBound(m, b, n - 1);
      FieldBound(data, p, n - 1);
      assert SameBit(m, b, data, p, n - 1) <==> (MemBit(m, b + n - 1) <==> Bit(data, p + n - 1));
    }
  }

  /** Bit b + j of buf is bit p + j of the data. */
  predicate SameBit(m: seq<byte>, b: nat, data: seq<byte>, p: nat, j: nat)
    requires |m| == BUF_SIZE + 2 && b + j < 8 * BUF_SIZE && p + j < 8 * |data|
  {
    MemBit(m, b + j) <==> Bit(data, p + j)
  }

  /** Bits from to to of buf are the bits of the data from pos on. */
  ghost predicate Carries(m: seq<byte>, from: int, to: int, data: seq<byte>, pos: int) {
    && |m| == BUF_SIZE + 2 && 0 <= from <= to <= 8 * 257 && 0 <= pos && pos + (to - from) <= 8 * |data|
    && forall b: nat :: from <= b < to ==> (MemBit(m, b) <==> Bit(data, pos + (b - from)))
  }

  /** The memory after a refill: two bytes move to the front of buf and the sub-block follows; all the rest stays. */
  function RefilledMem(m: seq<byte>, lastByte: nat, block: seq<byte>): (r: seq<byte>)
    requires |m| == BUF_SIZE + 2 && lastByte <= 257 && |block| <= 255
    ensures |r| == BUF_SIZE + 2
  {
    m[..2] + [m[lastByte], m[lastByte + 1]] + block + m[4 + |block|..]
  }

  function FirstBlock(blocks: seq<Block>): (b: seq<byte>)
    ensures |b| <= 255
  {
    if blocks == [] then [] else blocks[0]
  }

  type Ending = t: seq<byte> | t == [] || |t| == 2

  /** The first two bytes of the last sub-block; nothing if it has only one. */
  function Tail(blocks: seq<Block>): (t: Ending)
  {
    if blocks == [] || |blocks[|blocks| - 1]| < 2 then [] else blocks[|blocks| - 1][..2]
  }

  datatype Reading = Code(code: nat) | End | Unknown

  /** What is read as the w bits at position p: a code of the data; where fewer bits are left, one last code made of
      them and of the first bits of the last sub-block, which the buffer still holds; after that the end. */
  function CodeAt(data: seq<byte>, tail: Ending, p: nat, w: nat): (c: Reading)
    requires w <= MAX_LWZ_BITS
    ensures c.Code? && w >= 1 ==> p < 8 * |data|
  {
    if p + w <= 8 * |data| then Code(Field(data, p, w))
    else if tail == [] then Unknown
    else if p >= 8 * |data| then End
    else Code(Field(data + tail, p, w))
  }

  /** The tail is in its place in the buffer or still to come. */
  ghost predicate TailKept(m: seq<byte>, blocks: seq<Block>, tail: Ending) {
    && |m| == BUF_SIZE + 2
    && (tail != [] ==> if blocks == [] then m[4] == tail[0] && m[5] == tail[1] else Tail(blocks) == tail)
  }

  lemma TailMoves(m: seq<byte>, lastByte: nat, blocks: seq<Block>, tail: Ending)
    requires TailKept(m, blocks, tail) && lastByte <= 257
    ensures TailKept(RefilledMem(m, lastByte, FirstBlock(blocks)), if blocks == [] then [] else blocks[1..], tail)
  {
    if |blocks| > 1 {
      assert blocks[1..][|blocks| - 2] == blocks[|blocks| - 1];
    }
  }

  /** After a refill the buffer carries the unread bits and the new block. */
  lemma Refilled(m0: seq<byte>, m1: seq<byte>, block: seq<byte>, data: seq<byte>, pos: int, loaded: nat,
                 from: int, to: int, lastByte: nat)
    requires Carries(m0, from, to, data, pos) && |m1| == BUF_SIZE + 2 && to - from <= 16 && |block| <= 255
    requires pos + (to - from) == 8 * loaded && loaded + |block| <= |data|
    requires forall i :: 0 <= i < |block| ==> data[loaded + i] == block[i] == m1[4 + i]
    requires to == 0 || (to == 8 * lastByte && 2 <= lastByte <= 257 && m1[2] == m0[lastByte]
                         && m1[3] == m0[lastByte + 1])
    ensures Carries(m1, 16 - (to - from), 16 + 8 * |block|, data, pos)
  {
    hide MemBit, Bit;
    var start := 16 - (to - from);
    forall b: nat | start <= b < 16 + 8 * |block|
      ensures MemBit(m1, b) <==> Bit(data, pos + (b - start))
    {
      if b < 16 {
        var c: nat := b - 16 + to;
        MovedBit(m0, m1, lastByte, b, c);
        assert MemBit(m0, c) <==> Bit(data, pos + (c - from));
      } else {
        NewBit(m1, block, data, loaded, b - 16);
        assert pos + (b - start) == 8 * loaded + (b - 16);
      }
    }
  }

  lemma MovedBit(m0: seq<byte>, m1: seq<byte>, lastByte: nat, b: nat, c: nat)
    requires |m0| == |m1| == BUF_SIZE + 2 && 2 <= lastByte <= 257 && b < 16 && c == b + 8 * (lastByte - 2)
    requires m1[2] == m0[lastByte] && m1[3] == m0[lastByte + 1]
    ensures MemBit(m1, b) <==> MemBit(m0, c)
  {
    assert c / 8 == lastByte - 2 + b / 8 && c % 8 == b % 8;
    assert b / 8 == 0 || b / 8 == 1;
  }

  lemma NewBit(m: seq<byte>, block: seq<byte>, data: seq<byte>, loaded: nat, c: nat)
    requires |m| == BUF_SIZE + 2 && |block| <= 255 && c < 8 * |block| && loaded + |block| <= |data|
    requires forall i :: 0 <= i < |block| ==> data[loaded + i] == block[i] == m[4 + i]
    ensures MemBit(m, 16 + c) <==> Bit(data, 8 * loaded + c)
  {
    assert (16 + c) / 8 == 2 + c / 8 && (16 + c) % 8 == c % 8;
    assert (8 * loaded + c) / 8 == loaded + c / 8 && (8 * loaded + c) % 8 == c % 8;
    assert block[c / 8] == data[loaded + c / 8];
  }

  class CodeReader {
    var curbit: int
    var lastbit: int
    var done: bool
    var lastByte: nat
    var zeroDataBlock: bool
    const mem: array<byte>         // the two bytes in front of buf, and then buf
    var blocks: seq<Block>         // the sub-blocks not read yet; the terminator follows them
    ghost var data: seq<byte>      // all the data of the image
    ghost var pos: nat             // the bit position reached in it
    ghost var loaded: nat          // the number of its bytes read from the source
    ghost const tail: Ending    // the first bytes of its last sub-block

    /** The unread bits in the buffer are the bits of the data from pos on. */
    ghost predicate Holds()
      reads this, mem
    {
      && mem.Length == BUF_SIZE + 2 && 0 <= curbit <= lastbit <= 8 * 257
      && pos + (lastbit - curbit) == 8 * loaded && loaded <= |data|
      && Carries(mem[..], curbit, lastbit, data, pos)
    }

    ghost predicate Valid()
      reads this, mem
    {
      && mem.Length == BUF_SIZE + 2 && lastByte <= 257 && lastByte != 1
      && if done then 0 <= curbit && curbit >= lastbit && blocks == [] && pos >= 8 * |data|
         else
           && Holds() && data[loaded..] == Concat(blocks)
           && (lastbit == 0 || (lastbit == 8 * lastByte && lastByte >= 2))
           && TailKept(mem[..], blocks, tail) && (tail != [] ==> pos < 8 * |data|)
    }

    /** The image data that is still to come. */
    ghost function Left(): int
      reads this
    {
      8 * |data| - pos
    }

    /** GetCode with its flag set. It leaves buf and last_byte as an earlier image left them: before the first image
        they are zero, after any other last_byte is the length of its last sub-block and two. */
    constructor (blocks: seq<Block>, earlier: seq<byte>, lastByte: nat)
      requires |earlier| == BUF_SIZE + 2 && lastByte <= 257 && lastByte != 1
      ensures Valid() && data == Concat(blocks) && pos == 0 && this.blocks == blocks && fresh(mem) && !done
      ensures tail == Tail(blocks)
      ensures curbit == lastbit == 0 && this.lastByte == lastByte && mem[..] == earlier
    {
      mem := new byte[BUF_SIZE + 2](i requires 0 <= i < BUF_SIZE + 2 => earlier[i]);
      this.blocks := blocks;
      curbit, lastbit, done, this.lastByte, zeroDataBlock := 0, 0, false, lastByte, false;
      data, pos, loaded, tail := Concat(blocks), 0, 0, Tail(blocks);
      LastIsIn(blocks);
    }

    /** GetDataBlock, into buf[2] and on. */
    method GetDataBlock() returns (count: nat)
      requires mem.Length == BUF_SIZE + 2
      modifies this`zeroDataBlock, this`blocks, mem
      ensures old(blocks) == [] ==> count == 0 && blocks == []
      ensures old(blocks) != [] ==> count == |old(blocks)[0]| && blocks == old(blocks)[1..]
      ensures zeroDataBlock <==> count == 0
      ensures count <= 255 && forall i :: 0 <= i < count ==> mem[4 + i] == old(blocks)[0][i]
      ensures forall i :: 0 <= i < 4 || 4 + count <= i < mem.Length ==> mem[i] == old(mem[i])
    {
      if blocks == [] {
        zeroDataBlock := true;
        return 0;
      }
      var b := blocks[0];
      zeroDataBlock := false;
      blocks := blocks[1..];
      count := |b|;
      for i := 0 to count
        invariant blocks == old(blocks)[1..] && zeroDataBlock == false
        invariant forall j :: 0 <= j < i ==> mem[4 + j] == b[j]
        invariant forall j :: 0 <= j < 4 || 4 + i <= j < mem.Length ==> mem[j] == old(mem[j])
      {
        mem[4 + i] := b[i];
      }
    }

    /** The last two bytes move to the front, and the next sub-block follows them. */
    method LoadBlock() returns (count: nat)
      requires mem.Length == BUF_SIZE + 2 && lastByte <= 257 && lastByte != 1
      modifies this`zeroDataBlock, this`blocks, mem
      ensures count == |FirstBlock(old(blocks))| && (count == 0 <==> old(blocks) == [])
      ensures blocks == if old(blocks) == [] then [] else old(blocks)[1..]
      ensures mem[..] == RefilledMem(old(mem[..]), lastByte, FirstBlock(old(blocks)))
    {
      mem[2] := mem[lastByte];
      mem[3] := mem[lastByte + 1];
      count := GetDataBlock();
      RefilledIs(old(mem[..]), mem[..], lastByte, FirstBlock(old(blocks)));
    }

    /** The refill in GetCode. */
    method Refill()
      requires Valid() && !done && lastbit - curbit <= 16
      modifies this`curbit, this`lastbit, this`done, this`lastByte, this`zeroDataBlock, this`blocks, this`loaded, mem
      ensures Holds() && data[loaded..] == Concat(blocks) && lastbit == 8 * lastByte && 2 <= lastByte <= 257
      ensures done <==> old(blocks) == []
      ensures blocks == if done then [] else old(blocks)[1..]
      ensures lastbit - curbit == old(lastbit - curbit) + if done then 0 else 8 * |old(blocks)[0]|
      ensures curbit == 16 - old(lastbit - curbit) && TailKept(mem[..], blocks, tail)
      ensures mem[..] == RefilledMem(old(mem[..]), old(lastByte), FirstBlock(old(blocks)))
    {
      hide Carries, RefilledMem, TailKept;
      ghost var m0 := mem[..];
      TailMoves(m0, lastByte, blocks, tail);
      var count := LoadBlock();
      if count == 0 {
        done := true;
      }
      lastByte := 2 + count;
      curbit := (curbit - lastbit) + 16;
      lastbit := (2 + count) * 8;
      loaded := loaded + count;
      RefillStep(m0, mem[..], FirstBlock(old(blocks)), Concat(blocks), data, pos, old(loaded), old(curbit),
                 old(lastbit), old(lastByte));
    }

    /** Is the code that comes next complete in the buffer, or with the next sub-block? */
    ghost predicate Enough(size: nat)
      reads this
    {
      && !done
      && (lastbit - curbit > size || lastbit - curbit + (if blocks == [] then 0 else 8 * |blocks[0]|) >= size)
    }

    /** Or is it followed by no sub-block, with the tail still in the buffer? */
    ghost predicate Legible(size: nat)
      reads this
    {
      Enough(size) || (!done && blocks == [] && tail != [])
    }

    /** The bit loop of GetCode. */
    method Collect(codeSize: nat) returns (ret: nat)
      requires mem.Length == BUF_SIZE + 2 && 0 <= curbit && curbit + codeSize <= 8 * BUF_SIZE
      ensures ret == MemField(mem[..], curbit, codeSize)
    {
      hide Pow2, MemBit, ByteBit, BitAnd, BitOr;
      ret := 0;
      var i := curbit;
      for j := 0 to codeSize
        invariant i == curbit + j && ret == MemField(mem[..], curbit, j)
      {
        var bit := BitAnd(mem[2 + i / 8], Pow2(i % 8)) != 0;
        AndBit(mem[2 + i / 8], i % 8);
        assert bit <==> MemBit(mem[..], i) by { SeenBit(mem[..], i); }
        MemFieldBound(mem[..], curbit, j);
        OrNewBit(ret, j);
        ret := BitOr(ret, if bit then Pow2(j) else 0);
        i := i + 1;
      }
    }

    /** The code at the cursor, whole or not. */
    method TakeBits(codeSize: nat) returns (ret: nat)
      requires Holds() && codeSize <= MAX_LWZ_BITS
      modifies this`curbit, this`pos
      ensures curbit == old(curbit) + codeSize && pos == old(pos) + codeSize
      ensures ret == MemField(mem[..], old(curbit), codeSize)
      ensures curbit <= lastbit ==> Holds() && pos <= 8 * |data| && ret == Field(data, old(pos), codeSize)
    {
      hide Carries, MemBit, Bit, Field, MemField;
      ret := Collect(codeSize);
      Advance(mem[..], curbit, lastbit, data, pos, codeSize);
      ReadsField(mem[..], curbit, lastbit, data, pos, codeSize);
      curbit := curbit + codeSize;
      pos := pos + codeSize;
    }

    /** GetCode. What it returns is what is in the buffer. That is the next code of the data whenever all its bits are
        in the buffer or in the next sub-block; after the refill that finds no more data, every call reports the end. */
    method GetCode(codeSize: nat) returns (r: int)
      requires Valid() && 1 <= codeSize <= MAX_LWZ_BITS
      modifies this`curbit, this`lastbit, this`done, this`lastByte, this`zeroDataBlock, this`blocks, this`loaded,
               this`pos, mem
      ensures old(done) ==> r == -1 && Valid() && pos == old(pos)
      ensures !old(done) ==> codeSize <= curbit <= 8 * BUF_SIZE && r == MemField(mem[..], curbit - codeSize, codeSize)
      ensures old(Enough(codeSize)) ==> Valid() && pos == old(pos) + codeSize <= 8 * |data|
      ensures old(Enough(codeSize)) ==> r == Field(data, old(pos), codeSize)
      ensures old(Legible(codeSize)) ==> Valid() && pos == old(pos) + codeSize
      ensures old(Legible(codeSize)) ==> CodeAt(data, tail, old(pos), codeSize) == Code(r)
      ensures !old(done) ==> (curbit <= lastbit <==> old(Enough(codeSize)))
      ensures blocks == old(blocks) || (old(blocks) != [] && blocks == old(blocks)[1..])
      ensures !old(done) && old(lastbit - curbit) <= codeSize ==>
                && curbit == 16 - old(lastbit - curbit) + codeSize
                && mem[..] == RefilledMem(old(mem[..]), old(lastByte), FirstBlock(old(blocks)))
    {
      hide Carries, MemBit, Bit, Field, MemField, RefilledMem, TailKept, Concat;
      if curbit + codeSize >= lastbit {
        if done {
          return -1;
        }
        ghost var m0, before := mem[..], blocks;
        Refill();
        SomeLeft(m0, before, tail, data, loaded);
        if done {
          ReadsTail(mem[..], curbit, data, tail, pos, codeSize);
        }
      }
      r := TakeBits(codeSize);
    }
  }

  lemma ReadsField(m: seq<byte>, from: int, to: int, data: seq<byte>, pos: int, n: nat)
    requires Carries(m, from, to, data, pos) && n <= MAX_LWZ_BITS
    ensures from + n <= to ==> pos + n <= 8 * |data| && MemField(m, from, n) == Field(data, pos, n)
  {
    if from + n <= to {
      SameField(m, from, data, pos, n);
      forall j: nat | j < n ensures SameBit(m, from, data, pos, j) {
        assert pos + ((from + j) - from) == pos + j;
      }
    }
  }

  /** Reading past the end of the data. */
  lemma ReadsTail(m: seq<byte>, from: int, data: seq<byte>, tail: Ending, pos: int, n: nat)
    requires Carries(m, from, 16, data, pos) && pos + (16 - from) == 8 * |data| && n <= MAX_LWZ_BITS
    requires TailKept(m, [], tail)
    ensures tail != [] ==> |tail| == 2 && pos + n <= 8 * |data + tail|
    ensures tail != [] ==> MemField(m, from, n) == Field(data + tail, pos, n)
  {
    if tail != [] {
      hide MemBit, Bit, MemField, Field;
      SameField(m, from, data + tail, pos, n);
      forall j: nat | j < n ensures SameBit(m, from, data + tail, pos, j) {
        TailBit(m, from, data, tail, pos, j);
      }
    }
  }

  lemma TailBit(m: seq<byte>, from: int, data: seq<byte>, tail: Ending, pos: int, j: nat)
    requires Carries(m, from, 16, data, pos) && pos + (16 - from) == 8 * |data| && j < MAX_LWZ_BITS
    requires TailKept(m, [], tail) && |tail| == 2
    ensures SameBit(m, from, data + tail, pos, j)
  {
    if from + j < 16 {
      assert pos + ((from + j) - from) == pos + j;
      assert Bit(data, pos + j) == Bit(data + tail, pos + j);
    } else {
      hide MemBit, Bit, Carries;
      assert pos + j == 8 * |data| + (from + j - 16);
      NewBit(m, tail, data + tail, |data|, from + j - 16);
    }
  }

  /** A sub-block was just read: unless it has a single byte, it is not the end of the data. */
  lemma SomeLeft(m: seq<byte>, blocks: seq<Block>, tail: Ending, data: seq<byte>, loaded: nat)
    requires TailKept(m, blocks, tail) && loaded <= |data| && (blocks != [] ==> data[loaded..] == Concat(blocks[1..]))
    requires blocks == [] ==> data[loaded..] == Concat(blocks)
    ensures blocks == [] ==> loaded == |data|
    ensures blocks != [] && tail != [] ==> |blocks[0]| >= 2 || loaded < |data|
  {
    if |blocks| > 1 {
      LastIsIn(blocks[1..]);
    }
  }

  /** The last sub-block is part of the data. */
  lemma {:induction false} LastIsIn(blocks: seq<Block>)
    ensures blocks != [] ==> |Concat(blocks)| >= |blocks[|blocks| - 1]|
  {
    if |blocks| > 1 {
      assert blocks[1..][|blocks| - 2] == blocks[|blocks| - 1];
      LastIsIn(blocks[1..]);
    }
  }

  /** Reading n bits. */
  lemma Advance(m: seq<byte>, from: int, to: int, data: seq<byte>, pos: int, n: nat)
    ensures Carries(m, from, to, data, pos) && from + n <= to ==> Carries(m, from + n, to, data, pos + n)
    ensures Carries(m, from, to, data, pos) && from + n <= to ==> pos + n <= 8 * |data|
  {
    if Carries(m, from, to, data, pos) && from + n <= to {
      forall b: nat | from + n <= b < to ensures MemBit(m, b) <==> Bit(data, pos + n + (b - (from + n))) {
        assert pos + n + (b - (from + n)) == pos + (b - from);
      }
    }
  }

  /** Every sub-block but the last has two bytes or more. */
  ghost predicate LongBlocks(blocks: seq<Block>) {
    forall i :: 0 <= i < |blocks| - 1 ==> |blocks[i]| >= 2
  }

  /** Then a code is complete as long as enough bits are left. */
  lemma AlwaysEnough(r: CodeReader, size: nat)
    requires r.Valid() && 1 <= size <= MAX_LWZ_BITS && r.Left() >= size && LongBlocks(r.blocks)
    ensures r.Enough(size)
  {
    if r.blocks == [] {
      assert r.data[r.loaded..] == [];
    } else if |r.blocks| == 1 {
      assert Concat(r.blocks[1..]) == [];
      assert |r.data[r.loaded..]| == |r.blocks[0]|;
    }
  }

  /** And where the data ends in the middle of a code, it is still there to be read. */
  lemma AlwaysLegible(r: CodeReader, size: nat)
    requires r.Valid() && 1 <= size <= MAX_LWZ_BITS && LongBlocks(r.blocks)
    ensures CodeAt(r.data, r.tail, r.pos, size).Code? ==> r.Legible(size)
    ensures CodeAt(r.data, r.tail, r.pos, size).End? ==> r.done
  {
    if r.Left() >= size {
      AlwaysEnough(r, size);
    } else if !r.done && r.tail != [] {
      LastIsIn(r.blocks);
      assert |r.data[r.loaded..]| == |r.data| - r.loaded;
    }
  }

  /** But two sub-blocks of one byte each hold a 9-bit code, the first one a decoder reads for 8-bit data, that comes
      out wrong: its last bit is whatever an earlier image has left in the buffer. */
  method ShortSubBlocks(earlier: seq<byte>, lastByte: nat) returns (code: int)
    requires |earlier| == BUF_SIZE + 2 && lastByte <= 257 && lastByte != 1
    ensures Field([0xFF, 0xFF], 0, 9) == 0x1FF
    ensures code == if ByteBit(earlier[5], 0) then 0x1FF else 0xFF
  {
    hide Field, MemField, RefilledMem, ByteBit;
    var r := new CodeReader([[0xFF], [0xFF]], earlier, lastByte);
    code := r.GetCode(9);
    ShortCode(earlier, lastByte);
  }

  lemma ShortCode(m: seq<byte>, lastByte: nat)
    requires |m| == BUF_SIZE + 2 && lastByte <= 257
    ensures MemField(RefilledMem(m, lastByte, [0xFF]), 16, 9) == if ByteBit(m[5], 0) then 0x1FF else 0xFF
    ensures Field([0xFF, 0xFF], 0, 9) == 0x1FF
  {
    hide RefilledMem, MemBit, Bit;
    var n, d: seq<byte> := RefilledMem(m, lastByte, [0xFF]), [0xFF, 0xFF];
    ShortBits(m, lastByte);
    MemOnes(n, 16, 8);
    FieldOnes(d, 9);
    Pow2Literals();
    assert Pow2(9) == 512;
  }

  lemma ShortBits(m: seq<byte>, lastByte: nat)
    requires |m| == BUF_SIZE + 2 && lastByte <= 257
    ensures var n := RefilledMem(m, lastByte, [0xFF]);
            (forall j: nat :: 16 <= j < 24 ==> MemBit(n, j)) && (MemBit(n, 24) <==> ByteBit(m[5], 0))
    ensures forall j: nat :: j < 9 ==> Bit([0xFF, 0xFF], j)
  {
    hide ByteBit;
    var n, d: seq<byte> := RefilledMem(m, lastByte, [0xFF]), [0xFF, 0xFF];
    assert n[4] == 0xFF && n[5] == m[5];
    forall j: nat | 16 <= j < 24 ensures MemBit(n, j) {
      FullByte(j - 16);
    }
    forall j: nat | j < 9 ensures Bit(d, j) {
      FullByte(j % 8);
    }
  }

  lemma FullByte(k: nat)
    requires k < 8
    ensures ByteBit(0xFF, k)
  {
    assert Pow2(0) == 1 && Pow2(1) == 2 && Pow2(2) == 4 && Pow2(3) == 8;
    assert Pow2(4) == 16 && Pow2(5) == 32 && Pow2(6) == 64 && Pow2(7) == 128;
  }

  lemma {:induction false} MemOnes(m: seq<byte>, b: nat, n: nat)
    requires |m| == BUF_SIZE + 2 && b + n <= 8 * BUF_SIZE && forall j: nat :: b <= j < b + n ==> MemBit(m, j)
    ensures MemField(m, b, n) == Pow2(n) - 1
  {
    if n != 0 {
      MemOnes(m, b, n - 1);
    }
  }

  lemma {:induction false} FieldOnes(data: seq<byte>, n: nat)
    requires n <= 8 * |data| && forall j: nat :: j < n ==> Bit(data, j)
    ensures Field(data, 0, n) == Pow2(n) - 1
  {
    if n != 0 {
      FieldOnes(data, n - 1);
    }
  }

  /** What a refill keeps. */
  lemma RefillStep(m0: seq<byte>, m1: seq<byte>, block: seq<byte>, rest: seq<byte>, data: seq<byte>, pos: int,
                   loaded: nat, from: int, to: int, lastByte: nat)
    requires Carries(m0, from, to, data, pos) && to - from <= 16 && |block| <= 255 && lastByte <= 257
    requires loaded <= |data| && m1 == RefilledMem(m0, lastByte, block) && data[loaded..] == block + rest
    requires pos + (to - from) == 8 * loaded && (to == 0 || (to == 8 * lastByte && 2 <= lastByte))
    ensures loaded + |block| <= |data| && data[loaded + |block|..] == rest
    ensures Carries(m1, 16 - (to - from), 16 + 8 * |block|, data, pos)
  {
    hide MemBit, Bit, RefilledMem;
    NextBlock(data, loaded, block, rest);
    RefilledMemIs(m0, lastByte, block);
    Refilled(m0, m1, block, data, pos, loaded, from, to, lastByte);
  }

  lemma RefilledMemIs(m: seq<byte>, lastByte: nat, block: seq<byte>)
    requires |m| == BUF_SIZE + 2 && lastByte <= 257 && |block| <= 255
    ensures var r := RefilledMem(m, lastByte, block);
            r[2] == m[lastByte] && r[3] == m[lastByte + 1] && forall i :: 0 <= i < |block| ==> r[4 + i] == block[i]
  {
  }

  lemma RefilledIs(m0: seq<byte>, m1: seq<byte>, lastByte: nat, block: seq<byte>)
    requires |m0| == |m1| == BUF_SIZE + 2 && lastByte <= 257 && |block| <= 255
    requires m1[0] == m0[0] && m1[1] == m0[1] && m1[2] == m0[lastByte] && m1[3] == m0[lastByte + 1]
    requires forall i :: 0 <= i < |block| ==> m1[4 + i] == block[i]
    requires forall i :: 4 + |block| <= i < BUF_SIZE + 2 ==> m1[i] == m0[i]
    ensures m1 == RefilledMem(m0, lastByte, block)
  {
    var r := RefilledMem(m0, lastByte, block);
    forall i | 0 <= i < BUF_SIZE + 2 ensures m1[i] == r[i] {
      if 4 <= i < 4 + |block| {
        assert m1[4 + (i - 4)] == block[i - 4];
      }
    }
  }

  lemma NextBlock(data: seq<byte>, loaded: nat, block: seq<byte>, rest: seq<byte>)
    requires loaded <= |data| && data[loaded..] == block + rest
    ensures loaded + |block| <= |data| && data[loaded + |block|..] == rest
    ensures forall i :: 0 <= i < |block| ==> data[loaded + i] == block[i]
  {
    assert forall i :: 0 <= i < |data| - loaded ==> data[loaded + i] == data[loaded..][i];
  }
}
