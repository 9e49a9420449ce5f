/** The compressor of Appendix F of the GIF89a specification, which sends the code of the longest string it knows and
    then adds that string with the next byte. What it writes, the decoder reads back. */
module LzwEncoder {
  import opened Sequences
  import opened Powers
  import opened BitStrings
  import opened CanonicalCode
  import opened GifBits
  import opened GifLzw

  // ---------- the codes ----------

  datatype Sent = Sent(code: nat, width: nat)

  predicate Knows(dict: seq<seq<byte>>, s: seq<byte>) {
    |s| == 1 || s in dict
  }

  /** The length of the longest prefix of the input that extends a prefix of n bytes within the dictionary. */
  function Longest(dict: seq<seq<byte>>, input: seq<byte>, n: nat): (m: nat)
    requires 1 <= n <= |input| && Knows(dict, input[..n])
    ensures n <= m <= |input| && Knows(dict, input[..m])
    ensures m < |input| ==> !Knows(dict, input[..m + 1])
    decreases |input| - n
  {
    if n < |input| && Knows(dict, input[..n + 1]) then Longest(dict, input, n + 1) else n
  }

  function IndexOf(dict: seq<seq<byte>>, s: seq<byte>): (i: nat)
    requires s in dict
    ensures i < |dict| && dict[i] == s
  {
    if dict[0] == s then 0 else 1 + IndexOf(dict[1..], s)
  }

  /** The code of a string: a byte is its own code, and two codes after the bytes are reserved. */
  function CodeOf(clear: nat, dict: seq<seq<byte>>, s: seq<byte>): nat
    requires Knows(dict, s)
  {
    if |s| == 1 then s[0] else clear + 2 + IndexOf(dict, s)
  }

  /** The dictionary after the first byte of an image, or after a clear code and a byte. */
  function StartDict(input: seq<byte>): seq<seq<byte>> {
    if |input| > 1 then [input[..2]] else []
  }

  /** The codes for the rest of the input and the end code. The decoder knows the first `known` strings of the
      dictionary; the width follows what it knows. No string is added to a full dictionary. Where clears says so, for so
      many bytes left, a clear code comes first, and the dictionary starts again with the next byte. */
  function Codes(size: nat, dict: seq<seq<byte>>, known: nat, input: seq<byte>, clears: nat -> bool): seq<Sent>
    decreases |input|
  {
    var clear := Pow2(size);
    var w := Width(size + 1, clear + 2 + known);
    if input == [] then [Sent(clear + 1, w)]
    else if clears(|input|) then
      [Sent(clear, w)] + ([Sent(input[0], size + 1)] + Codes(size, StartDict(input), 0, input[1..], clears))
    else
      var n := Longest(dict, input, 1);
      var longer := if n < |input| && clear + 2 + |dict| < TABLE_SIZE then dict + [input[..n + 1]] else dict;
      [Sent(CodeOf(clear, dict, input[..n]), w)]
      + Codes(size, longer, if clear + 2 + known < TABLE_SIZE then known + 1 else known, input[n..], clears)
  }

  /** All codes of an image: a clear code, the first byte, and the rest. */
  function AllCodes(size: nat, bytes: seq<byte>, clears: nat -> bool): seq<Sent>
    requires bytes != []
  {
    [Sent(Pow2(size), size + 1)]
    + ([Sent(bytes[0], size + 1)] + Codes(size, StartDict(bytes), 0, bytes[1..], clears))
  }

  // ---------- the bits ----------

  /** The bits of a code, least significant first. */
  function CodeBits(s: Sent): seq<bool> {
    seq(s.width, j requires 0 <= j => ByteBit(s.code, j))
  }

  function AllBits(codes: seq<Sent>): seq<bool> {
    if codes == [] then [] else CodeBits(codes[0]) + AllBits(codes[1..])
  }

  /** The number made of n bits from a position on, least significant first; there are zeros behind the end. */
  function Number(bits: seq<bool>, from: nat, n: nat): nat {
    if n == 0 then 0
    else Number(bits, from, n - 1) + if from + n - 1 < |bits| && bits[from + n - 1] then Pow2(n - 1) else 0
  }

  lemma {:induction false} NumberBits(bits: seq<bool>, from: nat, n: nat)
    ensures Number(bits, from, n) < Pow2(n)
    ensures forall k: nat :: k < n ==> (ByteBit(Number(bits, from, n), k) <==> from + k < |bits| && bits[from + k])
  {
    hide ByteBit;
    if n != 0 {
      NumberBits(bits, from, n - 1);
      var b := from + n - 1 < |bits| && bits[from + n - 1];
      forall k: nat | k < n
        ensures ByteBit(Number(bits, from, n), k) <==> from + k < |bits| && bits[from + k]
      {
        TopBit(Number(bits, from, n - 1), n - 1, b, k);
      }
    }
  }

  /** A new top bit, and the bits below it. */
  lemma TopBit(v: nat, n: nat, b: bool, k: nat)
    requires v < Pow2(n) && k <= n
    ensures ByteBit(v + (if b then Pow2(n) else 0), k) <==> if k == n then b else ByteBit(v, k)
  {
    if k == n {
      DivModUnique(v + (if b then Pow2(n) else 0), Pow2(n), if b then 1 else 0, v);
    } else if b {
      EvenMultiple(n, k);
      hide Pow2;
      SameParity(v, Pow2(n - k - 1), Pow2(k));
    }
  }

  lemma EvenMultiple(n: nat, k: nat)
    requires k < n
    ensures Pow2(n) == (2 * Pow2(n - k - 1)) * Pow2(k)
  {
    Pow2Add(n - k, k);
  }

  lemma SameParity(v: nat, h: nat, p: nat)
    requires p > 0
    ensures (v + (2 * h) * p) / p % 2 == v / p % 2
  {
    var q := v / p;
    MulDistrib(q, 2 * h, p);
    DivModUnique(v + (2 * h) * p, p, q + 2 * h, v % p);
  }

  /** The bytes that hold the bits. */
  function Bytes(bits: seq<bool>): (b: seq<byte>)
    ensures |b| == (|bits| + 7) / 8
  {
    seq((|bits| + 7) / 8, i requires 0 <= i => EightBits(bits, 8 * i))
  }

  function EightBits(bits: seq<bool>, from: nat): byte {
    NumberBits(bits, from, 8);
    Pow2Literals();
    Number(bits, from, 8)
  }

  lemma BitOfBytes(bits: seq<bool>, p: nat)
    requires p < |bits|
    ensures p < 8 * |Bytes(bits)| && (Bit(Bytes(bits), p) <==> bits[p])
  {
    NumberBits(bits, 8 * (p / 8), 8);
  }

  /** A field of the bytes is the number its bits make. */
  lemma {:induction false} FieldOfBytes(bits: seq<bool>, p: nat, n: nat)
    requires p + n <= |bits|
    ensures p + n <= 8 * |Bytes(bits)| && Field(Bytes(bits), p, n) == Number(bits, p, n)
  {
    if n != 0 {
      FieldOfBytes(bits, p, n - 1);
      BitOfBytes(bits, p + n - 1);
    }
  }

  /** The number made of a code's bits is the code. */
  lemma {:induction false} NumberOfCode(bits: seq<bool>, p: nat, v: nat, n: nat)
    requires p + n <= |bits| && forall j: nat :: j < n ==> (bits[p + j] <==> ByteBit(v, j))
    ensures Number(bits, p, n) == v % Pow2(n)
  {
    if n != 0 {
      NumberOfCode(bits, p, v, n - 1);
      LowPart(v, n - 1);
    }
  }

  lemma LowPart(v: nat, n: nat)
    ensures v % Pow2(n + 1) == v % Pow2(n) + if ByteBit(v, n) then Pow2(n) else 0
  {
    var p := Pow2(n);
    var q, r := v / p, v % p;
    assert v == q * p + r;
    assert q == 2 * (q / 2) + q % 2;
    MulDistrib(2 * (q / 2), q % 2, p);
    MulAssoc(q / 2, 2, p);
    DivModUnique(v, 2 * p, q / 2, (q % 2) * p + r);
  }

  // ---------- the codes in the bytes ----------

  /** The codes stand one after the other from a position of the data on. */
  ghost predicate Written(data: seq<byte>, p: nat, codes: seq<Sent>)
    decreases codes
  {
    codes == [] ||
    (p + codes[0].width <= 8 * |data| && Field(data, p, codes[0].width) == codes[0].code
     && Written(data, p + codes[0].width, codes[1..]))
  }

  predicate Fits(codes: seq<Sent>) {
    forall i :: 0 <= i < |codes| ==> codes[i].code < Pow2(codes[i].width)
  }

  lemma {:induction false} BitsAreWritten(codes: seq<Sent>, bits: seq<bool>, p: nat)
    requires Fits(codes) && p <= |bits| && bits[p..] == AllBits(codes)
    ensures Written(Bytes(bits), p, codes)
    decreases codes
  {
    hide ByteBit, Pow2, Field, Bytes;
    if codes != [] {
      OneCode(codes[0], bits, p, AllBits(codes[1..]));
      BitsAreWritten(codes[1..], bits, p + codes[0].width);
    }
  }

  lemma OneCode(s: Sent, bits: seq<bool>, p: nat, rest: seq<bool>)
    requires s.code < Pow2(s.width) && p <= |bits| && bits[p..] == CodeBits(s) + rest
    ensures p + s.width <= |bits| && bits[p + s.width..] == rest
    ensures p + s.width <= 8 * |Bytes(bits)| && Field(Bytes(bits), p, s.width) == s.code
  {
    hide ByteBit, Pow2, Field, Bytes;
    var mine := CodeBits(s);
    assert |bits[p..]| >= s.width;
    forall j: nat | j < s.width ensures bits[p + j] <==> ByteBit(s.code, j) {
      assert bits[p + j] == bits[p..][j] == mine[j];
    }
    NumberOfCode(bits, p, s.code, s.width);
    SmallMod(s.code, Pow2(s.width));
    FieldOfBytes(bits, p, s.width);
    assert bits[p + s.width..] == bits[p..][s.width..];
  }

  lemma SmallMod(v: nat, m: nat)
    requires v < m
    ensures v % m == v
  {
  }

  // ---------- the round trip ----------

  /** The code that is just being defined stands for the string it has in the dictionary from then on. */
  lemma DefinedCode(st: Lzw)
    requires st.Valid() && st.Max() < TABLE_SIZE
    ensures var next := st.After(st.Max());
            && next.Known(st.Max()) && next.Str(st.Max()) == st.Expand(st.Max())
            && st.Expand(st.Max()) == st.Str(st.prev) + [st.Str(st.prev)[0]]
  {
  }

  /** The encoder's dictionary is the decoder's, and one string more while there is room and input: the previous string
      with the next byte. */
  ghost predicate InStep(st: Lzw, dict: seq<seq<byte>>, input: seq<byte>) {
    && st.Valid() && (forall i :: 0 <= i < |input| ==> input[i] < st.Clear())
    && st.strings <= dict && |dict| <= |st.strings| + 1
    && (|dict| == |st.strings| && input != [] ==> st.Max() == TABLE_SIZE)
    && (|dict| > |st.strings| ==>
          input != [] && st.Max() < TABLE_SIZE && dict[|st.strings|] == st.Str(st.prev) + [input[0]])
    && forall i :: 0 <= i < |dict| ==> |dict[i]| >= 2
  }

  /** A code of the encoder means the same to the decoder. */
  lemma CodeMeans(st: Lzw, dict: seq<seq<byte>>, input: seq<byte>, n: nat)
    requires InStep(st, dict, input) && 1 <= n <= |input| && Knows(dict, input[..n])
    ensures var code := CodeOf(st.Clear(), dict, input[..n]);
            && code != st.Clear() && code != st.Clear() + 1 && (st.Known(code) || code == st.Max()) && code < TABLE_SIZE
            && st.Expand(code) == input[..n]
  {
    var s := input[..n];
    if n == 1 {
      assert s == [input[0]];
    } else {
      var i := IndexOf(dict, s);
      st.StrLength(st.prev);
      if i < |st.strings| {
        assert st.strings[i] == dict[i];
      } else {
        assert s[0] == input[0] == dict[i][0] == st.Str(st.prev)[0];
      }
    }
  }

  /** After a code both are in step again. */
  lemma StaysInStep(st: Lzw, dict: seq<seq<byte>>, input: seq<byte>, n: nat, longer: seq<seq<byte>>)
    requires InStep(st, dict, input) && 1 <= n <= |input| && Knows(dict, input[..n])
    requires longer == if n < |input| && st.Clear() + 2 + |dict| < TABLE_SIZE then dict + [input[..n + 1]] else dict
    requires var code := CodeOf(st.Clear(), dict, input[..n]);
             (st.Known(code) || code == st.Max()) && code < TABLE_SIZE && st.Expand(code) == input[..n]
    ensures var next := st.After(CodeOf(st.Clear(), dict, input[..n]));
            && InStep(next, longer, input[n..])
            && |next.strings| == if st.Max() < TABLE_SIZE then |st.strings| + 1 else |st.strings|
  {
    hide CodeOf, Knows, Pow2, Width;
  }

  /** One step of the encoder, as the decoder sees it. */
  lemma NextStep(st: Lzw, dict: seq<seq<byte>>, input: seq<byte>, clears: nat -> bool)
      returns (code: nat, n: nat, longer: seq<seq<byte>>)
    requires InStep(st, dict, input) && input != [] && !clears(|input|)
    ensures st.Valid() && 1 <= n <= |input|
    ensures code != st.Clear() && code != st.Clear() + 1 && (st.Known(code) || code == st.Max()) && code < TABLE_SIZE
    ensures st.Expand(code) == input[..n] && InStep(st.After(code), longer, input[n..])
    ensures Codes(st.size, dict, |st.strings|, input, clears)
            == [Sent(code, st.CodeWidth())] + Codes(st.size, longer, |st.After(code).strings|, input[n..], clears)
  {
    hide InStep, Width, Lzw.Valid, Lzw.Expand, Lzw.After, Pow2, Lzw.Str, Knows;
    StepFacts(st, dict, input);
    OneByteKnown(dict, input);
    n := Longest(dict, input, 1);
    code := CodeOf(st.Clear(), dict, input[..n]);
    longer := if n < |input| && st.Clear() + 2 + |dict| < TABLE_SIZE then dict + [input[..n + 1]] else dict;
    CodeMeans(st, dict, input, n);
    StaysInStep(st, dict, input, n, longer);
  }

  lemma OneByteKnown(dict: seq<seq<byte>>, input: seq<byte>)
    requires input != []
    ensures Knows(dict, input[..1])
  {
  }

  /** After the first byte, or a clear code and a byte, encoder and decoder are in step. */
  lemma StartsInStep(size: nat, bytes: seq<byte>)
    requires 2 <= size <= 8 && bytes != [] && forall i :: 0 <= i < |bytes| ==> bytes[i] < Pow2(size)
    ensures InStep(Fresh(size, bytes[0]), StartDict(bytes), bytes[1..])
  {
    StartWidth(size);
  }

  lemma ClearsInStep(st: Lzw, dict: seq<seq<byte>>, input: seq<byte>)
    requires InStep(st, dict, input) && input != []
    ensures st.Valid() && InStep(Fresh(st.size, input[0]), StartDict(input), input[1..]) && input[0] < Pow2(st.size)
  {
    StartsInStep(st.size, input);
  }

  /** A clear code and a byte are read back. */
  lemma AfterClearReads(data: seq<byte>, tail: Ending, p: nat, size: nat, bytes: seq<byte>)
    requires 2 <= size <= 8 && bytes != [] && bytes[0] < Pow2(size)
    requires p + (size + 1) <= 8 * |data| && Field(data, p, size + 1) == bytes[0]
    requires Fresh(size, bytes[0]).Valid()
             && Decode(data, tail, p + (size + 1), Fresh(size, bytes[0])) == Some(bytes[1..])
    ensures AfterClear(data, tail, p, size) == Some(bytes)
  {
    hide Width, Field, Pow2, Decode;
    assert [bytes[0]] + bytes[1..] == bytes;
  }

  /** The decoder reads back what is left of the input. */
  lemma {:induction false} DecodesRest(data: seq<byte>, tail: Ending, p: nat, st: Lzw, dict: seq<seq<byte>>,
                                       input: seq<byte>, clears: nat -> bool)
    requires InStep(st, dict, input) && Written(data, p, Codes(st.size, dict, |st.strings|, input, clears))
    ensures Decode(data, tail, p, st) == Some(input)
    decreases |input|
  {
    hide InStep, Width, Field, Lzw.Valid, Lzw.Expand, Lzw.After, Pow2, Lzw.Str, Codes, Written, AfterClear;
    StepFacts(st, dict, input);
    if input == [] {
      LastCode(data, tail, p, st, dict, clears);
    } else if clears(|input|) {
      ClearsInStep(st, dict, input);
      var q := p + st.CodeWidth();
      var rest := Codes(st.size, StartDict(input), 0, input[1..], clears);
      ClearCodes(st, dict, input, clears);
      FirstWritten(data, p, Sent(st.Clear(), st.CodeWidth()), [Sent(input[0], st.size + 1)] + rest);
      FirstWritten(data, q, Sent(input[0], st.size + 1), rest);
      DecodesRest(data, tail, q + (st.size + 1), Fresh(st.size, input[0]), StartDict(input), input[1..], clears);
      FreshValid(st.size, input);
      AfterClearReads(data, tail, q, st.size, input);
    } else {
      var code, n, longer := NextStep(st, dict, input, clears);
      var rest := Codes(st.size, longer, |st.After(code).strings|, input[n..], clears);
      FirstWritten(data, p, Sent(code, st.CodeWidth()), rest);
      DecodesRest(data, tail, p + st.CodeWidth(), st.After(code), longer, input[n..], clears);
      assert input[..n] + input[n..] == input;
    }
  }

  lemma FreshValid(size: nat, input: seq<byte>)
    requires input != [] && InStep(Fresh(size, input[0]), StartDict(input), input[1..])
    ensures Fresh(size, input[0]).Valid()
  {
  }

  lemma ClearCodes(st: Lzw, dict: seq<seq<byte>>, input: seq<byte>, clears: nat -> bool)
    requires st.Valid() && input != [] && clears(|input|)
    ensures Codes(st.size, dict, |st.strings|, input, clears)
            == [Sent(st.Clear(), st.CodeWidth())]
               + ([Sent(input[0], st.size + 1)] + Codes(st.size, StartDict(input), 0, input[1..], clears))
  {
  }

  lemma StepFacts(st: Lzw, dict: seq<seq<byte>>, input: seq<byte>)
    requires InStep(st, dict, input)
    ensures st.Valid() && 2 <= st.size <= 8 && st.Clear() == Pow2(st.size)
    ensures st.CodeWidth() == Width(st.size + 1, Pow2(st.size) + 2 + |st.strings|)
  {
  }

  lemma FirstWritten(data: seq<byte>, p: nat, s: Sent, rest: seq<Sent>)
    requires Written(data, p, [s] + rest)
    ensures p + s.width <= 8 * |data| && Field(data, p, s.width) == s.code && Written(data, p + s.width, rest)
  {
    assert ([s] + rest)[1..] == rest;
  }

  lemma LastCode(data: seq<byte>, tail: Ending, p: nat, st: Lzw, dict: seq<seq<byte>>, clears: nat -> bool)
    requires st.Valid() && Written(data, p, Codes(st.size, dict, |st.strings|, [], clears))
    ensures Decode(data, tail, p, st) == Some([])
  {
    hide Width, Pow2, Field;
  }

  /** All codes fit their widths. */
  lemma {:induction false} CodesFit(st: Lzw, dict: seq<seq<byte>>, input: seq<byte>, clears: nat -> bool)
    requires InStep(st, dict, input)
    ensures Fits(Codes(st.size, dict, |st.strings|, input, clears))
    decreases |input|
  {
    hide InStep, Width, Lzw.Valid, Lzw.Expand, Lzw.After, Pow2, Lzw.Str, Codes;
    StepFacts(st, dict, input);
    if input == [] {
      OnlyEnd(st, dict, clears);
      CodeFitsWidth(st, st.Clear() + 1);
    } else if clears(|input|) {
      ClearsInStep(st, dict, input);
      ClearCodes(st, dict, input, clears);
      CodeFitsWidth(st, st.Clear());
      StartFits(st.size);
      CodesFit(Fresh(st.size, input[0]), StartDict(input), input[1..], clears);
    } else {
      var code, n, longer := NextStep(st, dict, input, clears);
      CodeFitsWidth(st, code);
      CodesFit(st.After(code), longer, input[n..], clears);
    }
  }

  lemma OnlyEnd(st: Lzw, dict: seq<seq<byte>>, clears: nat -> bool)
    requires st.Valid()
    ensures Codes(st.size, dict, |st.strings|, [], clears) == [Sent(st.Clear() + 1, st.CodeWidth())]
  {
  }

  lemma {:induction false} WidthEnough(k: nat, max: nat)
    requires k <= MAX_LWZ_BITS
    ensures max < Pow2(Width(k, max)) || Width(k, max) == MAX_LWZ_BITS
    decreases MAX_LWZ_BITS - k
  {
    if k < MAX_LWZ_BITS && max >= Pow2(k) {
      WidthEnough(k + 1, max);
    }
  }

  lemma CodeFitsWidth(st: Lzw, code: nat)
    requires st.Valid() && (st.Known(code) || code == st.Max() || code == st.Clear() || code == st.Clear() + 1)
    ensures code < TABLE_SIZE ==> code < Pow2(st.CodeWidth())
    ensures code <= st.Clear() + 1 ==> code < TABLE_SIZE
  {
    hide Pow2, Width;
    WidthEnough(st.size + 1, st.Max());
    Pow2Add(8, 4);
    Pow2Literals();
  }

  /** The compressed data of an image. */
  function Compressed(size: nat, bytes: seq<byte>, clears: nat -> bool): seq<byte>
    requires bytes != []
  {
    Bytes(AllBits(AllCodes(size, bytes, clears)))
  }

  /** Every image is read back, wherever the encoder clears its dictionary, and whatever follows the data. */
  lemma RoundTrip(size: nat, bytes: seq<byte>, clears: nat -> bool, tail: Ending)
    requires 2 <= size <= 8 && bytes != [] && forall i :: 0 <= i < |bytes| ==> bytes[i] < Pow2(size)
    ensures FromStart(Compressed(size, bytes, clears), tail, 0, size) == Some(bytes)
  {
    hide InStep, Width, Field, Pow2, Codes, Bytes, AllBits, Written, Decode, ByteBit, AfterClear;
    var st := Fresh(size, bytes[0]);
    var data, rest := Compressed(size, bytes, clears), Codes(size, StartDict(bytes), 0, bytes[1..], clears);
    StartsInStep(size, bytes);
    FreshValid(size, bytes);
    CodesFit(st, StartDict(bytes), bytes[1..], clears);
    StartFits(size);
    var bits := AllBits(AllCodes(size, bytes, clears));
    assert bits[0..] == bits;
    BitsAreWritten(AllCodes(size, bytes, clears), bits, 0);
    FirstWritten(data, 0, Sent(Pow2(size), size + 1), [Sent(bytes[0], size + 1)] + rest);
    FirstWritten(data, size + 1, Sent(bytes[0], size + 1), rest);
    DecodesRest(data, tail, 2 * (size + 1), st, StartDict(bytes), bytes[1..], clears);
    AfterClearReads(data, tail, size + 1, size, bytes);
    NotClear(data, tail, size);
  }

  lemma NotClear(data: seq<byte>, tail: Ending, size: nat)
    requires 2 <= size <= 8 && size + 1 <= 8 * |data| && Field(data, 0, size + 1) == Pow2(size)
    requires 2 * (size + 1) <= 8 * |data| && Field(data, size + 1, size + 1) < Pow2(size)
    ensures FromStart(data, tail, 0, size) == AfterClear(data, tail, size + 1, size)
  {
    hide Field, AfterClear;
  }

  lemma StartFits(size: nat)
    ensures Pow2(size) < Pow2(size + 1)
  {
  }

  /** The decompressor gives back the image, however the compressed data is cut into sub-blocks of two bytes or more,
      and whatever an earlier image has left. */
  method ReadCompressed(size: nat, ghost image: seq<byte>, ghost clears: nat -> bool, blocks: seq<GifBits.Block>,
                        earlier: seq<byte>, lastByte: nat) returns (bytes: seq<int>)
    requires 2 <= size <= 8 && image != [] && forall i :: 0 <= i < |image| ==> image[i] < Pow2(size)
    requires LongBlocks(blocks) && Concat(blocks) == Compressed(size, image, clears)
    requires |earlier| == BUF_SIZE + 2 && lastByte <= 257 && lastByte != 1
    ensures bytes == image
  {
    RoundTrip(size, image, clears, Tail(blocks));
    bytes := ReadImage(blocks, size, earlier, lastByte);
  }
}
