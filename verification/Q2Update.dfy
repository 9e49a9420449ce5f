/** The firmware container of Q2Crypt.c, over byte strings instead of files. */
module Q2Update {
  import opened Powers
  import opened BitStrings
  import opened Words
  import opened Md5

  const HEADER_LEN: nat := 0x34
  const MD5_DIGEST_LEN: nat := 16
  const DATA_BLOCK_LEN: nat := 128
  /** Where the masked data of an update file starts. */
  const DATA_START: nat := HEADER_LEN + 4

  const XOR_TABLE: seq<byte> := [
    0xA3, 0x04, 0xB9, 0xCD, 0x34, 0x13, 0x4A, 0x19, 0x19, 0x35, 0xDF, 0xBB, 0x8F, 0x3D, 0x7F, 0x09,
    0x42, 0x3C, 0x96, 0xC6, 0x41, 0xA9, 0x95, 0xF1, 0xD0, 0xAC, 0x16, 0x37, 0x57, 0x1F, 0x28, 0xE7,
    0x0B, 0xC2, 0x12, 0x09, 0x39, 0x42, 0xD2, 0x96, 0xF5, 0x00, 0xD2, 0x23, 0xA4, 0x24, 0xE2, 0x8E,
    0x50, 0x3C, 0x6E, 0x23, 0xEB, 0x68, 0xED, 0x31, 0xB7, 0xEE, 0xC0, 0xC7, 0x09, 0xF8, 0x0E, 0x9D,
    0x51, 0xED, 0x17, 0x95, 0x64, 0x09, 0xE0, 0xF9, 0xF0, 0xEF, 0x86, 0xC0, 0x04, 0x46, 0x89, 0x8A,
    0x6E, 0x27, 0x69, 0xDE, 0xC7, 0x9D, 0x1E, 0xEE, 0x3C, 0x3F, 0x17, 0x05, 0x44, 0xBB, 0xBB, 0x1D,
    0x3D, 0x5D, 0x6E, 0xF2, 0xCF, 0x15, 0xD6, 0x3C, 0xCC, 0x7D, 0x67, 0x1A, 0xB8, 0xD2, 0x1B, 0x54,
    0x97, 0xA2, 0x58, 0x58, 0xF7, 0x4E, 0x5E, 0x50, 0x42, 0x69, 0xDC, 0xE7, 0x3A, 0x87, 0x2E, 0x22]

  const UPDATE_HEADER: seq<byte> := [
    0x53, 0x41, 0x4D, 0x53, 0x55, 0x4E, 0x47, 0x20, 0x59, 0x45, 0x50, 0x50, 0x00, 0x00, 0x00, 0x00,
    0x39, 0x2E, 0x39, 0x39, 0x00, 0x00, 0x00, 0x00, 0x45, 0x55, 0x00, 0x00, 0x00, 0x00, 0x00, 0x00,
    0x59, 0x50, 0x2D, 0x51, 0x32, 0x00, 0x00, 0x00, 0x00, 0x00, 0x00, 0x00, 0x00, 0x00, 0x00, 0x00,
    0x00, 0x00, 0x00, 0x00, 0x00, 0x00, 0x00, 0x00]

  lemma TableSizes()
    ensures |XOR_TABLE| == DATA_BLOCK_LEN && |UPDATE_HEADER| == HEADER_LEN + 4
  {
  }

  function XorByte(a: byte, b: byte): byte {
    Pow2Literals();
    XorBound(a, b, 8);
    Xor(a, b)
  }

  /** A block, byte by byte xored with the table. */
  function Masked(block: seq<byte>): (r: seq<byte>)
    requires |block| == DATA_BLOCK_LEN
    ensures |r| == DATA_BLOCK_LEN
  {
    TableSizes();
    seq(DATA_BLOCK_LEN, i requires 0 <= i < DATA_BLOCK_LEN => XorByte(block[i], XOR_TABLE[i]))
  }

  lemma MaskedTwice(block: seq<byte>)
    requires |block| == DATA_BLOCK_LEN
    ensures Masked(Masked(block)) == block
  {
    TableSizes();
    forall i | 0 <= i < DATA_BLOCK_LEN ensures Masked(Masked(block))[i] == block[i] {
      XorTwice(block[i], XOR_TABLE[i]);
    }
  }

  /** All complete blocks of some data, masked. */
  function MaskAll(data: seq<byte>): (r: seq<byte>)
    ensures |r| == |data| / DATA_BLOCK_LEN * DATA_BLOCK_LEN
  {
    if |data| < DATA_BLOCK_LEN then [] else Masked(data[..DATA_BLOCK_LEN]) + MaskAll(data[DATA_BLOCK_LEN..])
  }

  /** Byte i of the masked data: masking exchanges exactly the bits that are ones in the table. */
  lemma {:induction false} MaskAllAt(data: seq<byte>, i: nat)
    requires i < |data| / DATA_BLOCK_LEN * DATA_BLOCK_LEN
    ensures |XOR_TABLE| == DATA_BLOCK_LEN && i < |data|
    ensures MaskAll(data)[i] == XorByte(data[i], XOR_TABLE[i % DATA_BLOCK_LEN])
  {
    hide XorByte, XOR_TABLE;
    TableSizes();
    if i >= DATA_BLOCK_LEN {
      MaskAllAt(data[DATA_BLOCK_LEN..], i - DATA_BLOCK_LEN);
      assert (i - DATA_BLOCK_LEN) % DATA_BLOCK_LEN == i % DATA_BLOCK_LEN;
    }
  }

  lemma MaskAllBits(data: seq<byte>, i: nat, k: nat)
    requires i < |data| / DATA_BLOCK_LEN * DATA_BLOCK_LEN && k < 8
    ensures |XOR_TABLE| == DATA_BLOCK_LEN && i < |data|
    ensures ToBits(MaskAll(data)[i], 8)[k]
            == (ToBits(data[i], 8)[k] != ToBits(XOR_TABLE[i % DATA_BLOCK_LEN], 8)[k])
  {
    hide ToBits, Xor, MaskAll, XOR_TABLE;
    MaskAllAt(data, i);
    XorBits(data[i], XOR_TABLE[i % DATA_BLOCK_LEN], 8);
  }

  lemma {:induction false} MaskAllAppend(a: seq<byte>, block: seq<byte>)
    requires |a| % DATA_BLOCK_LEN == 0 && |block| == DATA_BLOCK_LEN
    ensures MaskAll(a + block) == MaskAll(a) + Masked(block)
    decreases a
  {
    if a == [] {
      assert a + block == block && block[..DATA_BLOCK_LEN] == block && block[DATA_BLOCK_LEN..] == [];
    } else {
      var all, head, rest := a + block, a[..DATA_BLOCK_LEN], a[DATA_BLOCK_LEN..];
      assert all[..DATA_BLOCK_LEN] == head && all[DATA_BLOCK_LEN..] == rest + block;
      MaskAllAppend(rest, block);
    }
  }

  /** Masking twice gives back the complete blocks, and drops the rest. */
  lemma {:induction false} MaskAllTwice(data: seq<byte>)
    ensures MaskAll(MaskAll(data)) == data[..|data| / DATA_BLOCK_LEN * DATA_BLOCK_LEN]
  {
    if |data| >= DATA_BLOCK_LEN {
      var head, rest := data[..DATA_BLOCK_LEN], data[DATA_BLOCK_LEN..];
      var m := MaskAll(data);
      assert m[..DATA_BLOCK_LEN] == Masked(head) && m[DATA_BLOCK_LEN..] == MaskAll(rest);
      MaskedTwice(head);
      MaskAllTwice(rest);
      assert data == head + rest;
    }
  }

  /** A 32-bit integer as it lies in the file. */
  function SizeTag(n: nat): (b: seq<byte>)
    requires n < 0x8000_0000
    ensures |b| == 4
  {
    [ByteOf(n, 0), ByteOf(n, 1), ByteOf(n, 2), ByteOf(n, 3)]
  }

  /** The size is little-endian. */
  lemma SizeTagBytes(n: nat)
    requires n < 0x8000_0000
    ensures SizeTag(n) == [n % 0x100, n / 0x100 % 0x100, n / 0x1_0000 % 0x100, n / 0x100_0000 % 0x100]
  {
    hide ByteOf;
    BytesOfWord(n);
  }

  /** The signed 32-bit integer in four bytes. */
  function ReadInt(b: seq<byte>): int
    requires |b| == 4
  {
    var w := FromBytes(b[0], b[1], b[2], b[3]);
    if w < 0x8000_0000 then w else w - WORD
  }

  lemma Digits(x: Word, b0: int, b1: int, b2: int, b3: int)
    requires b0 == x % 0x100 && b1 == x / 0x100 % 0x100 && b2 == x / 0x1_0000 % 0x100 && b3 == x / 0x100_0000 % 0x100
    ensures x == b0 + 0x100 * b1 + 0x1_0000 * b2 + 0x100_0000 * b3
  {
    var q1 := x / 0x100;
    var q2 := q1 / 0x100;
    var q3 := q2 / 0x100;
    assert x / 0x1_0000 == q2 && x / 0x100_0000 == q3 && q3 < 0x100;
  }

  lemma TagIsRead(n: nat)
    requires n < 0x8000_0000
    ensures ReadInt(SizeTag(n)) == n
  {
    hide ByteOf;
    assert FromBytes(ByteOf(n, 0), ByteOf(n, 1), ByteOf(n, 2), ByteOf(n, 3)) == n by {
      BytesOfWord(n);
      Digits(n, ByteOf(n, 0), ByteOf(n, 1), ByteOf(n, 2), ByteOf(n, 3));
    }
  }

  /** Can the size of the update file be held in an int? */
  predicate FitsInt(archive: seq<byte>) {
    DATA_START + |archive| / DATA_BLOCK_LEN * DATA_BLOCK_LEN + MD5_DIGEST_LEN < 0x8000_0000
  }

  /** The update file for an archive: header, size, masked blocks, and the digest of the masked blocks. */
  function Update(archive: seq<byte>): seq<byte>
    requires FitsInt(archive)
  {
    UPDATE_HEADER[..HEADER_LEN] + SizeTag(|MaskAll(archive)|) + MaskAll(archive) + Hash(MaskAll(archive))
  }

  /** An open file: its bytes and the position of the next read or write. */
  class File {
    var content: seq<byte>
    var pos: nat

    constructor (content: seq<byte>)
      ensures this.content == content && pos == 0
    {
      this.content, pos := content, 0;
    }

    /** fread of single bytes: as many as there are, up to the size of the buffer. */
    method Read(buf: array<byte>) returns (count: nat)
      modifies this`pos, buf
      ensures count == Available(|content|, old(pos), buf.Length) && pos == old(pos) + count
      ensures count > 0 ==> pos <= |content| && buf[..count] == content[old(pos)..pos]
      ensures buf[count..] == old(buf[count..])
    {
      count := Available(|content|, pos, buf.Length);
      for i := 0 to count
        invariant pos == old(pos) && buf[i..] == old(buf[i..])
        invariant forall k :: 0 <= k < i ==> buf[k] == content[pos + k]
      {
        buf[i] := content[pos + i];
      }
      pos := pos + count;
    }

    /** fwrite: over what is there, and beyond its end. */
    method Write(data: seq<byte>)
      requires pos <= |content|
      modifies this
      ensures pos == old(pos) + |data|
      ensures content == old(content)[..old(pos)] + data
                         + if old(pos) + |data| <= |old(content)| then old(content)[old(pos) + |data|..] else []
    {
      content := content[..pos] + data + if pos + |data| <= |content| then content[pos + |data|..] else [];
      pos := pos + |data|;
    }
  }

  function Available(length: nat, pos: nat, wanted: nat): (n: nat)
    ensures n <= wanted && (n > 0 ==> pos + n <= length)
  {
    if pos >= length then 0 else if length - pos < wanted then length - pos else wanted
  }

  /** xorBlock. */
  method XorBlock(block: array<byte>)
    requires block.Length == DATA_BLOCK_LEN
    modifies block
    ensures block[..] == Masked(old(block[..]))
  {
    hide XorByte;
    TableSizes();
    for bPos := 0 to DATA_BLOCK_LEN
      invariant forall k :: 0 <= k < bPos ==> block[k] == XorByte(old(block[k]), XOR_TABLE[k])
      invariant forall k :: bPos <= k < DATA_BLOCK_LEN ==> block[k] == old(block[k])
    {
      block[bPos] := XorByte(block[bPos], XOR_TABLE[bPos]);
    }
  }

  /** Writing at the end of a file. */
  lemma AtEnd(content: seq<byte>, data: seq<byte>)
    ensures content[..|content|] + data
            + (if |content| + |data| <= |content| then content[|content| + |data|..] else [])
            == content + data
  {
  }

  /** One turn of the loop in createUpdate. */
  method MaskBlock(block: array<byte>, hash: Md5State, dat: File, ghost done: seq<byte>)
    requires block.Length == DATA_BLOCK_LEN && hash.Valid() && hash.buf != block && |done| % DATA_BLOCK_LEN == 0
    requires hash.msg == MaskAll(done) && dat.pos == |dat.content| && dat.content == UPDATE_HEADER + MaskAll(done)
    modifies block, hash, hash.buf, dat
    ensures hash.Valid() && hash.msg == MaskAll(done + old(block[..]))
    ensures dat.pos == |dat.content| && dat.content == UPDATE_HEADER + MaskAll(done + old(block[..]))
  {
    hide Masked, MaskAll, Md5State.Valid;
    ghost var plain := block[..];
    MaskAllAppend(done, plain);
    XorBlock(block);
    hash.Append(block[..]);
    AtEnd(dat.content, block[..]);
    dat.Write(block[..]);
    assert (UPDATE_HEADER + MaskAll(done)) + Masked(plain) == UPDATE_HEADER + (MaskAll(done) + Masked(plain));
  }

  /** createUpdate: the file is the update for the archive's complete blocks. */
  method CreateUpdate(dat: File, ark: File) returns (updateSz: int)
    requires dat != ark && dat.content == [] && dat.pos == 0 && ark.pos == 0 && FitsInt(ark.content)
    modifies dat, ark
    ensures dat.content == Update(old(ark.content)) && ark.content == old(ark.content)
    ensures updateSz == |MaskAll(old(ark.content))|
  {
    hide MaskAll, Md5State.Valid, Hash, Update, FitsInt;
    ghost var all := ark.content;
    var hash := new Md5State();
    MaskArchive(dat, ark, hash);
    updateSz := WriteTrailer(dat, hash, all);
  }

  /** The header, and the loop over the blocks of the archive. */
  method MaskArchive(dat: File, ark: File, hash: Md5State)
    requires dat != ark && dat.content == [] && dat.pos == 0 && ark.pos == 0 && hash.Valid() && hash.msg == []
    modifies dat, ark`pos, hash, hash.buf
    ensures hash.Valid() && hash.msg == MaskAll(ark.content)
    ensures dat.pos == |dat.content| && dat.content == UPDATE_HEADER + MaskAll(ark.content)
  {
    hide MaskAll, Md5State.Valid, Hash;
    NothingMasked();
    var block := new byte[DATA_BLOCK_LEN];
    dat.Write(UPDATE_HEADER);
    ghost var all := ark.content;
    assert all[..0] == [];
    ghost var n := 0;
    var count := ark.Read(block);
    while count == DATA_BLOCK_LEN
      invariant hash.Valid() && 0 <= n && ark.pos == n + count <= |all| && n % DATA_BLOCK_LEN == 0
      invariant count == Available(|all|, n, DATA_BLOCK_LEN) && (count > 0 ==> block[..count] == all[n..n + count])
      invariant hash.msg == MaskAll(all[..n])
      invariant dat.pos == |dat.content| && dat.content == UPDATE_HEADER + MaskAll(all[..n])
      decreases |all| - n
    {
      assert all[..n] + block[..] == all[..n + count];
      MaskBlock(block, hash, dat, all[..n]);
      n := n + count;
      count := ark.Read(block);
    }
    DropRest(all, n);
  }

  /** The end of createUpdate: the digest, and the size over its place in the header. */
  method WriteTrailer(dat: File, hash: Md5State, ghost all: seq<byte>) returns (updateSz: int)
    requires FitsInt(all) && hash.Valid() && hash.msg == MaskAll(all)
    requires dat.pos == |dat.content| && dat.content == UPDATE_HEADER + MaskAll(all)
    modifies dat, hash, hash.buf
    ensures dat.content == Update(all) && updateSz == |MaskAll(all)|
  {
    hide MaskAll, Md5State.Valid, Hash, SizeTag, Update;
    TableSizes();
    var digest := hash.Finish();
    AtEnd(dat.content, digest);
    dat.Write(digest);
    updateSz := dat.pos - 4 - HEADER_LEN - MD5_DIGEST_LEN;
    dat.pos := 0x34;
    PatchSize(dat.content, all);
    dat.Write(SizeTag(updateSz));
  }

  lemma NothingMasked()
    ensures MaskAll([]) == [] && UPDATE_HEADER + [] == UPDATE_HEADER
  {
  }

  /** An incomplete last block is not masked. */
  lemma DropRest(all: seq<byte>, n: nat)
    requires n <= |all| < n + DATA_BLOCK_LEN && n % DATA_BLOCK_LEN == 0
    ensures MaskAll(all[..n]) == MaskAll(all)
    decreases n
  {
    hide Masked;
    if n >= DATA_BLOCK_LEN {
      assert all[..n][..DATA_BLOCK_LEN] == all[..DATA_BLOCK_LEN];
      assert all[..n][DATA_BLOCK_LEN..] == all[DATA_BLOCK_LEN..][..n - DATA_BLOCK_LEN];
      DropRest(all[DATA_BLOCK_LEN..], n - DATA_BLOCK_LEN);
    }
  }

  /** Writing the size over its place in the header gives the update file. */
  lemma PatchSize(written: seq<byte>, archive: seq<byte>)
    requires FitsInt(archive) && |UPDATE_HEADER| == HEADER_LEN + 4
    requires written == UPDATE_HEADER + MaskAll(archive) + Hash(MaskAll(archive))
    ensures written[..HEADER_LEN] + SizeTag(|MaskAll(archive)|) + written[HEADER_LEN + 4..] == Update(archive)
  {
    hide Hash, MaskAll, SizeTag;
    assert written[..HEADER_LEN] == UPDATE_HEADER[..HEADER_LEN];
    assert written[HEADER_LEN + 4..] == MaskAll(archive) + Hash(MaskAll(archive));
  }

  datatype Unpacking = SizeMismatch | Unpacked(digestsMatch: bool) | NotAtEnd

  /** The part of an update file between header and digest. */
  function DataPart(file: seq<byte>, size: nat): seq<byte>
    requires DATA_START + size <= |file|
  {
    file[DATA_START..DATA_START + size]
  }

  /** What the loop of decryptUpdate has done when it has read n bytes: while it is inside the data, exactly the blocks
      so far; when it has read beyond, all whole blocks and one more. */
  ghost predicate Decrypted(file: seq<byte>, size: int, n: nat, hash: Md5State, dec: File)
    reads hash, dec
  {
    && dec.pos == |dec.content|
    && (0 <= size && DATA_START + size <= |file| ==>
          if n <= size then
            && n % DATA_BLOCK_LEN == 0 && hash.msg == DataPart(file, size)[..n]
            && dec.content == MaskAll(DataPart(file, size)[..n])
          else
            && size % DATA_BLOCK_LEN != 0 && MaskAll(DataPart(file, size)) <= dec.content
            && |dec.content| == size / DATA_BLOCK_LEN * DATA_BLOCK_LEN + DATA_BLOCK_LEN)
  }

  /** The last block, which is not whole. */
  lemma LastBlock(data: seq<byte>, n: nat, block: seq<byte>)
    requires n < |data| < n + DATA_BLOCK_LEN && n % DATA_BLOCK_LEN == 0 && |block| == DATA_BLOCK_LEN
    ensures |data| % DATA_BLOCK_LEN != 0 && MaskAll(data) <= MaskAll(data[..n]) + block
    ensures |MaskAll(data[..n]) + block| == |data| / DATA_BLOCK_LEN * DATA_BLOCK_LEN + DATA_BLOCK_LEN
  {
    DropRest(data, n);
    DivModUnique(|data|, DATA_BLOCK_LEN, n / DATA_BLOCK_LEN, |data| - n);
  }

  lemma PartGrows(file: seq<byte>, start: nat, size: nat, n: nat, count: nat, block: seq<byte>)
    requires start + size <= |file| && n + count <= size && block == file[start + n..start + n + count]
    ensures file[start..start + size][..n] + block == file[start..start + size][..n + count]
  {
    assert file[start..start + size][..n + count] == file[start..start + n + count];
  }

  /** The work on one block, whose first count bytes are new. */
  method UnmaskBlock(block: array<byte>, hash: Md5State, dec: File, ghost file: seq<byte>, ghost size: int,
                     ghost n: nat, ghost count: nat)
    requires block.Length == DATA_BLOCK_LEN && hash.Valid() && hash.buf != block
    requires Decrypted(file, size, n, hash, dec) && n < size && size + DATA_START + MD5_DIGEST_LEN == |file|
    requires 0 < count == Available(|file|, DATA_START + n, DATA_BLOCK_LEN)
    requires block[..count] == file[DATA_START + n..DATA_START + n + count]
    modifies block, hash, hash.buf, dec
    ensures hash.Valid() && Decrypted(file, size, n + count, hash, dec)
  {
    hide MaskAll, Masked, Md5State.Valid;
    ghost var block0, data := block[..], DataPart(file, size);
    if n + DATA_BLOCK_LEN <= size {
      assert block[..count] == block0;
      MaskAllAppend(data[..n], block0);
      PartGrows(file, DATA_START, size, n, count, block0);
    } else {
      LastBlock(data, n, Masked(block0));
    }
    hash.Append(block[..]);
    XorBlock(block);
    AtEnd(dec.content, block[..]);
    dec.Write(block[..]);
  }

  /** decryptUpdate. Every whole block named by a size tag that is right is unmasked; the check at the end can never
      fail. If the tag names whole blocks only, the digests match exactly when the file ends in the digest of its data.
      Otherwise one more block is written. */
  method DecryptUpdate(dec: File, enc: File) returns (r: Unpacking)
    requires dec != enc && dec.content == [] && dec.pos == 0 && |enc.content| >= DATA_START
    modifies dec, enc
    ensures enc.content == old(enc.content) && r != NotAtEnd
    ensures var file := old(enc.content);
            var size := ReadInt(file[HEADER_LEN..DATA_START]);
            && (r == SizeMismatch <==> |file| != DATA_START + size + MD5_DIGEST_LEN)
            && (r != SizeMismatch && size < 0 ==> dec.content == [])
            && (r != SizeMismatch && size >= 0 ==>
                  if size % DATA_BLOCK_LEN == 0 then
                    && dec.content == MaskAll(DataPart(file, size))
                    && r == Unpacked(Hash(DataPart(file, size)) == file[DATA_START + size..])
                  else
                    && MaskAll(DataPart(file, size)) <= dec.content
                    && |dec.content| == size / DATA_BLOCK_LEN * DATA_BLOCK_LEN + DATA_BLOCK_LEN)
  {
    hide MaskAll, Hash, ReadInt, Md5State.Valid;
    ghost var file := enc.content;
    var tag, block := new byte[4], new byte[DATA_BLOCK_LEN];
    var hash := new Md5State();
    enc.pos := HEADER_LEN;
    var n := enc.Read(tag);
    assert tag[..] == tag[..4] == file[HEADER_LEN..DATA_START];
    var updateSz := ReadInt(tag[..]);
    if |enc.content| != HEADER_LEN + 4 + updateSz + MD5_DIGEST_LEN {
      return SizeMismatch;
    }
    enc.pos := HEADER_LEN + 4;
    DecryptBlocks(dec, enc, hash, block, updateSz);
    var myDigest := hash.Finish();
    r := CompareDigest(enc, myDigest, HEADER_LEN + 4 + updateSz + MD5_DIGEST_LEN);
    if updateSz >= 0 {
      assert DataPart(file, updateSz)[..updateSz] == DataPart(file, updateSz);
    }
  }

  /** The loop of decryptUpdate. */
  method DecryptBlocks(dec: File, enc: File, hash: Md5State, block: array<byte>, updateSz: int)
    requires dec != enc && dec.content == [] && dec.pos == 0 && hash.Valid() && hash.msg == [] && hash.buf != block
    requires block.Length == DATA_BLOCK_LEN && enc.pos == DATA_START <= |enc.content|
    requires |enc.content| == DATA_START + updateSz + MD5_DIGEST_LEN
    modifies dec, enc`pos, hash, hash.buf, block
    ensures hash.Valid() && (updateSz < 0 ==> enc.pos == DATA_START && dec.content == [])
    ensures DATA_START + updateSz <= enc.pos <= |enc.content|
    ensures updateSz >= 0 ==> Decrypted(enc.content, updateSz, enc.pos - DATA_START, hash, dec)
    ensures updateSz >= 0 && updateSz % DATA_BLOCK_LEN == 0 ==> enc.pos == DATA_START + updateSz
  {
    hide MaskAll, Md5State.Valid;
    NothingMasked();
    var totalRead := 0;
    while totalRead < updateSz
      invariant 0 <= totalRead && enc.pos == DATA_START + totalRead && hash.Valid()
      invariant updateSz >= 0 ==> totalRead <= updateSz + MD5_DIGEST_LEN
      invariant updateSz < 0 ==> totalRead == 0 && dec.content == []
      invariant Decrypted(enc.content, updateSz, totalRead, hash, dec)
      decreases updateSz - totalRead
    {
      ghost var n := totalRead;
      var count := enc.Read(block);
      totalRead := totalRead + count;
      UnmaskBlock(block, hash, dec, enc.content, updateSz, n, count);
    }
  }

  /** The end of decryptUpdate: compare the digests, and check that the whole file has been read. */
  method CompareDigest(enc: File, myDigest: seq<byte>, end: int) returns (r: Unpacking)
    requires |myDigest| == MD5_DIGEST_LEN && enc.pos <= |enc.content| == end <= enc.pos + MD5_DIGEST_LEN
    modifies enc`pos
    ensures old(enc.pos) + MD5_DIGEST_LEN == end ==> r == Unpacked(myDigest == enc.content[old(enc.pos)..])
    ensures r != SizeMismatch && r != NotAtEnd
  {
    var md5Digest := new byte[MD5_DIGEST_LEN];
    var count := enc.Read(md5Digest);
    assert count == MD5_DIGEST_LEN ==> md5Digest[..] == md5Digest[..count];
    var match0 := md5Digest[..] == myDigest;
    if enc.pos != end {
      return NotAtEnd;
    }
    r := Unpacked(match0);
  }

  /** Packing an archive and unpacking the result gives back the longest prefix of the archive that is made of whole
      blocks, and the digests match. */
  method RoundTrip(archive: seq<byte>) returns (r: Unpacking, unpacked: seq<byte>)
    requires FitsInt(archive)
    ensures r == Unpacked(true) && unpacked == archive[..|archive| / DATA_BLOCK_LEN * DATA_BLOCK_LEN]
  {
    hide MaskAll, Hash;
    var ark := new File(archive);
    var dat := new File([]);
    var dec := new File([]);
    var size := CreateUpdate(dat, ark);
    dat.pos := 0;
    UpdateParts(archive);
    MaskAllTwice(archive);
    r := DecryptUpdate(dec, dat);
    unpacked := dec.content;
  }

  lemma UpdateParts(archive: seq<byte>)
    requires FitsInt(archive)
    ensures var file, m := Update(archive), MaskAll(archive);
            && |file| == DATA_START + |m| + MD5_DIGEST_LEN && ReadInt(file[HEADER_LEN..DATA_START]) == |m|
            && |m| % DATA_BLOCK_LEN == 0 && DataPart(file, |m|) == m && file[DATA_START + |m|..] == Hash(m)
  {
    hide MaskAll, Hash, ReadInt, SizeTag;
    TableSizes();
    var file, m := Update(archive), MaskAll(archive);
    TagIsRead(|m|);
    assert file[HEADER_LEN..DATA_START] == SizeTag(|m|);
  }
}
