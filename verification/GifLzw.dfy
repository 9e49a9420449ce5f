/** The GIF decompressor of IMG_gif.c, and the plain dictionary decoder of Appendix F of the GIF89a
    specification that it refines. */
module GifLzw {
  import opened Sequences
  import opened Powers
  import opened BitStrings
  import opened CanonicalCode
  import opened GifBits

  const TABLE_SIZE: nat := 4096
  const STACK_SIZE: nat := 8192

  // ---------- the plain decoder ----------

  /** The number of bits of a code when the next free code is max: starting from k, enough for max, but at most 12. */
  function Width(k: nat, max: nat): (w: nat)
    ensures k <= w && (k <= MAX_LWZ_BITS ==> w <= MAX_LWZ_BITS)
    decreases MAX_LWZ_BITS - k
  {
    if k >= MAX_LWZ_BITS || max < Pow2(k) then k else Width(k + 1, max)
  }

  /** The decoder between two codes: the strings of codes clear + 2 and on, and the previous code. */
  datatype Lzw = Lzw(size: nat, strings: seq<seq<byte>>, prev: nat) {
    function Clear(): (c: nat)
      requires size <= 8
      ensures c <= 256
    {
      Pow2Mono(size, 8);
      Pow2Literals();
      Pow2(size)
    }

    /** The next free code. */
    function Max(): nat
      requires size <= 8
    {
      Clear() + 2 + |strings|
    }

    predicate Known(code: nat)
      requires size <= 8
    {
      code < Clear() || Clear() + 2 <= code < Max()
    }

    function Str(code: nat): seq<byte>
      requires size <= 8 && Known(code)
    {
      if code < Clear() then [code] else strings[code - Clear() - 2]
    }

    ghost predicate Valid() {
      && 2 <= size <= 8 && Max() <= TABLE_SIZE && Known(prev)
      && forall i :: 0 <= i < |strings| ==> 1 <= |strings[i]| <= i + 2
    }

    lemma StrLength(code: nat)
      requires Valid() && Known(code)
      ensures 1 <= |Str(code)| <= TABLE_SIZE
    {
    }

    /** The first byte of the previous string. */
    function First(): byte
      requires Valid()
    {
      StrLength(prev);
      Str(prev)[0]
    }

    /** The string a code stands for; the next free code stands for the previous string and its first byte. */
    function Expand(code: nat): (s: seq<byte>)
      requires Valid() && (Known(code) || code == Max())
      ensures s != []
    {
      StrLength(prev);
      if Known(code) then StrLength(code); Str(code) else Str(prev) + [First()]
    }

    /** After a code the dictionary has one more string, unless it is full. */
    function After(code: nat): (r: Lzw)
      requires Valid() && (Known(code) || code == Max()) && code < TABLE_SIZE
      ensures r.Valid() && r.size == size
    {
      StrLength(prev);
      OldLength();
      if Max() < TABLE_SIZE then Lzw(size, strings + [Str(prev) + [Expand(code)[0]]], code)
      else Lzw(size, strings, code)
    }

    lemma OldLength()
      requires Valid()
      ensures |Str(prev)| <= |strings| + 1
    {
    }

    function CodeWidth(): (w: nat)
      requires 2 <= size <= 8
      ensures 3 <= w <= MAX_LWZ_BITS
    {
      Width(size + 1, Max())
    }
  }

  function Fresh(size: nat, root: nat): Lzw {
    Lzw(size, [], root)
  }

  /** Everything the codes from bit position pos on stand for; None if they are not well formed. */
  ghost function Decode(data: seq<byte>, tail: Ending, pos: nat, st: Lzw): Option<seq<byte>>
    requires st.Valid()
    decreases 8 * |data| - pos
  {
    var w := st.CodeWidth();
    match CodeAt(data, tail, pos, w)
    case Unknown => None
    case End => Some([])
    case Code(code) =>
      if code == st.Clear() then AfterClear(data, tail, pos + w, st.size)
      else if code == st.Clear() + 1 then Some([])
      else if !st.Known(code) && code != st.Max() then None
      else
        CodeFits(data, tail, pos, w);
        Prepend(st.Expand(code), Decode(data, tail, pos + w, st.After(code)))
  }

  lemma CodeFits(data: seq<byte>, tail: Ending, pos: nat, w: nat)
    requires w <= MAX_LWZ_BITS
    ensures var c := CodeAt(data, tail, pos, w); c.Code? ==> c.code < TABLE_SIZE
  {
    if pos + w <= 8 * |data| {
      FieldBound(data, pos, w);
    } else if tail != [] && pos < 8 * |data| {
      FieldBound(data + tail, pos, w);
    }
    Pow2Mono(w, MAX_LWZ_BITS);
    Pow2Add(8, 4);
    Pow2Literals();
  }

  function Prepend(s: seq<byte>, rest: Option<seq<byte>>): Option<seq<byte>> {
    if rest.None? then None else Some(s + rest.value)
  }

  /** After a clear code comes a root. */
  ghost function AfterClear(data: seq<byte>, tail: Ending, pos: nat, size: nat): Option<seq<byte>>
    requires 2 <= size <= 8
    decreases 8 * |data| - pos
  {
    match CodeAt(data, tail, pos, size + 1)
    case Unknown => None
    case End => Some([])
    case Code(code) =>
      if code >= Fresh(size, 0).Clear() then None
      else Prepend([code], Decode(data, tail, pos + (size + 1), Fresh(size, code)))
  }

  /** At the start of the image there may be any number of clear codes before the first root. */
  ghost function FromStart(data: seq<byte>, tail: Ending, pos: nat, size: nat): Option<seq<byte>>
    requires 2 <= size <= 8
    decreases 8 * |data| - pos
  {
    if CodeAt(data, tail, pos, size + 1) == Code(Fresh(size, 0).Clear())
      then FromStart(data, tail, pos + (size + 1), size)
    else AfterClear(data, tail, pos, size)
  }

  /** Well-formed data that ends with an end code is decoded without the tail. */
  lemma {:induction false} EndCodeDecides(data: seq<byte>, tail: Ending, pos: nat, st: Lzw)
    requires st.Valid()
    ensures Decode(data, [], pos, st).Some? ==> Decode(data, tail, pos, st) == Decode(data, [], pos, st)
    decreases 8 * |data| - pos
  {
    hide Field, Lzw.Expand, Lzw.After, Width, Pow2, Fresh, AfterClear;
    var w := st.CodeWidth();
    if pos + w <= 8 * |data| {
      var code := Field(data, pos, w);
      CodeFits(data, tail, pos, w);
      if code == st.Clear() {
        EndCodeAfterClear(data, tail, pos + w, st.size);
      } else if code != st.Clear() + 1 && (st.Known(code) || code == st.Max()) {
        EndCodeDecides(data, tail, pos + w, st.After(code));
      }
    }
  }

  lemma {:induction false} EndCodeAfterClear(data: seq<byte>, tail: Ending, pos: nat, size: nat)
    requires 2 <= size <= 8
    ensures AfterClear(data, [], pos, size).Some? ==>
              AfterClear(data, tail, pos, size) == AfterClear(data, [], pos, size)
    decreases 8 * |data| - pos
  {
    hide Field, Lzw.Expand, Lzw.After, Width, Decode;
    if pos + (size + 1) <= 8 * |data| {
      var code := Field(data, pos, size + 1);
      if code < Fresh(size, 0).Clear() {
        EndCodeDecides(data, tail, pos + (size + 1), Fresh(size, code));
      }
    }
  }

  lemma {:induction false} EndCodeFromStart(data: seq<byte>, tail: Ending, pos: nat, size: nat)
    requires 2 <= size <= 8
    ensures FromStart(data, [], pos, size).Some? ==> FromStart(data, tail, pos, size) == FromStart(data, [], pos, size)
    decreases 8 * |data| - pos
  {
    if pos + (size + 1) <= 8 * |data| && Field(data, pos, size + 1) == Fresh(size, 0).Clear() {
      EndCodeFromStart(data, tail, pos + (size + 1), size);
    } else {
      EndCodeAfterClear(data, tail, pos, size);
    }
  }

  /** Data that ends in the middle of a code: one more string is put out, for a code that nobody sent. */
  lemma CutShort(data: seq<byte>, tail: Ending, pos: nat, st: Lzw)
    requires st.Valid() && tail != [] && pos < 8 * |data| < pos + st.CodeWidth()
    requires Decode(data, tail, pos, st).Some?
    ensures var code := Field(data + tail, pos, st.CodeWidth());
            if code == st.Clear() || code == st.Clear() + 1 then Decode(data, tail, pos, st) == Some([])
            else (st.Known(code) || code == st.Max()) && Decode(data, tail, pos, st) == Some(st.Expand(code))
  {
    var w := st.CodeWidth();
    var code := Field(data + tail, pos, w);
    CodeFits(data, tail, pos, w);
    if st.Known(code) || code == st.Max() {
      PlusNothing(st.Expand(code));
    }
  }

  // ---------- the stack ----------

  predicate AllBytes(s: seq<int>) {
    forall i :: 0 <= i < |s| ==> 0 <= s[i] < 256
  }

  function Rev(s: seq<int>): (r: seq<int>)
    ensures |r| == |s|
    ensures AllBytes(s) ==> AllBytes(r)
  {
    if s == [] then [] else Rev(s[1..]) + [s[0]]
  }

  lemma RevStep(x: int, s: seq<int>)
    ensures Rev([x] + s) == Rev(s) + [x]
  {
    assert ([x] + s)[1..] == s;
  }

  // ---------- the tables ----------

  /** The parent links and last bytes of the tables describe exactly the strings of the dictionary; every link
      leads to a smaller code. */
  ghost predicate Represents(t0: seq<int>, t1: seq<int>, st: Lzw) {
    && |t0| == |t1| == TABLE_SIZE && st.Valid()
    && (forall c :: 0 <= c < st.Clear() ==> t1[c] == c)
    && forall c :: st.Clear() + 2 <= c < st.Max() ==> Linked(t0, t1, st, c)
  }

  ghost predicate Linked(t0: seq<int>, t1: seq<int>, st: Lzw, c: int)
    requires |t0| == |t1| == TABLE_SIZE && st.Valid()
  {
    && st.Clear() + 2 <= c < st.Max() && 0 <= t0[c] < c && st.Known(t0[c]) && 0 <= t1[c] < 256
    && st.Str(c) == st.Str(t0[c]) + [t1[c]]
  }

  lemma RepresentsValid(t0: seq<int>, t1: seq<int>, st: Lzw)
    requires Represents(t0, t1, st)
    ensures st.Valid()
  {
  }

  /** Adding a string. */
  lemma AddEntry(t0: seq<int>, t1: seq<int>, st: Lzw, code: nat, u0: seq<int>, u1: seq<int>)
    requires Represents(t0, t1, st) && (st.Known(code) || code == st.Max()) && code < TABLE_SIZE
    requires if st.Max() < TABLE_SIZE then u0 == t0[st.Max() := st.prev] && u1 == t1[st.Max() := st.Expand(code)[0]]
             else u0 == t0 && u1 == t1
    ensures Represents(u0, u1, st.After(code))
  {
    var m, next := st.Max(), st.After(code);
    st.StrLength(st.prev);
    if m < TABLE_SIZE {
      assert forall c :: 0 <= c < m ==> u0[c] == t0[c] && u1[c] == t1[c];
      forall c | next.Clear() + 2 <= c < next.Max() ensures Linked(u0, u1, next, c) {
        if c < m {
          assert Linked(t0, t1, st, c);
          KeepsString(st, next, c);
          KeepsString(st, next, t0[c]);
        } else {
          KeepsString(st, next, st.prev);
        }
      }
    } else {
      FullTable(t0, t1, st, code);
    }
  }

  lemma FullTable(t0: seq<int>, t1: seq<int>, st: Lzw, code: nat)
    requires Represents(t0, t1, st) && st.Known(code) && code < TABLE_SIZE && st.Max() >= TABLE_SIZE
    ensures Represents(t0, t1, st.After(code))
  {
    var next := st.After(code);
    forall c | next.Clear() + 2 <= c < next.Max() ensures Linked(t0, t1, next, c) {
      assert Linked(t0, t1, st, c);
    }
  }

  lemma KeepsString(st: Lzw, next: Lzw, c: nat)
    requires st.Valid() && next.size == st.size && st.Known(c) && st.strings <= next.strings
    ensures next.Known(c) && next.Str(c) == st.Str(c)
  {
  }

  /** The width at the start: the limit 2 * clear_code is not reached yet. */
  lemma StartWidth(size: nat)
    requires 2 <= size <= 8
    ensures Pow2(size) >= 4 && Pow2(size) <= 256 && Pow2(size + 1) == 2 * Pow2(size) >= Pow2(size) + 3
    ensures Width(size + 1, Pow2(size) + 2) == size + 1
  {
    Pow2Mono(2, size);
    Pow2Mono(size, 8);
    Pow2Literals();
    assert Pow2(2) == 4;
  }

  class LzwDecoder {
    const reader: CodeReader
    var isFresh: bool
    var codeSize: nat
    var setCodeSize: nat
    var maxCode: nat
    var maxCodeSize: nat
    var firstcode: int
    var oldcode: int
    var clearCode: nat
    var endCode: nat
    const table0: array<int>      // the code of the string without its last byte
    const table1: array<int>      // the last byte
    const stack: array<int>
    var sp: nat
    ghost var strings: seq<seq<byte>>

    /** LWZReadByte with its flag set: start on an image whose data the reader delivers. */
    constructor (reader: CodeReader, inputCodeSize: nat)
      requires reader.Valid() && 2 <= inputCodeSize <= 8
      requires LongBlocks(reader.blocks)
      ensures Valid() && this.reader == reader
              && Remaining() == FromStart(reader.data, reader.tail, reader.pos, inputCodeSize)
      ensures fresh(table0) && fresh(table1) && fresh(stack)
    {
      this.reader := reader;
      setCodeSize, codeSize := inputCodeSize, inputCodeSize + 1;
      clearCode := Pow2(inputCodeSize);
      endCode, maxCode, maxCodeSize := Pow2(inputCodeSize) + 1, Pow2(inputCodeSize) + 2, 2 * Pow2(inputCodeSize);
      firstcode, oldcode, isFresh, sp, strings := 0, 0, true, 0, [];
      table0, table1, stack := new int[TABLE_SIZE], new int[TABLE_SIZE], new int[STACK_SIZE];
      new;
      StartWidth(inputCodeSize);
      InitTables();
    }

    /** The loops that set up the roots. The second one clears table[1][0] each time, not table[1][i]. */
    method InitTables()
      requires table0.Length == table1.Length == TABLE_SIZE && table0 != table1 && 1 <= clearCode <= 256
      modifies table0, table1
      ensures forall c :: 0 <= c < clearCode ==> table1[c] == c
    {
      var i := 0;
      while i < clearCode
        invariant 0 <= i <= clearCode && forall c :: 0 <= c < i ==> table1[c] == c
      {
        table0[i] := 0;
        table1[i] := i;
        i := i + 1;
      }
      while i < TABLE_SIZE
        invariant clearCode <= i <= TABLE_SIZE && forall c :: 0 <= c < clearCode ==> table1[c] == c
      {
        table1[0] := 0;
        table0[i] := 0;
        i := i + 1;
      }
    }

    /** All bytes still to be returned; None if the rest of the codes is not well formed. */
    ghost function Remaining(): Option<seq<byte>>
      reads this, reader, stack
      requires Shaped()
    {
      if isFresh then FromStart(reader.data, reader.tail, reader.pos, setCodeSize)
      else if oldcode < 0 || !State().Valid() || !AllBytes(stack[..sp]) then None
      else Prepend(Rev(stack[..sp]), Decode(reader.data, reader.tail, reader.pos, State()))
    }

    ghost predicate Valid()
      reads this, reader, reader.mem, table0, table1, stack
    {
      && Shaped() && Sized() && reader.Valid()
      && (forall c :: 0 <= c < clearCode ==> table1[c] == c)
      && if isFresh then sp == 0 && codeSize == setCodeSize + 1 && maxCode == clearCode + 2
         else Decoding()
    }

    /** After the first code: the tables are those of the plain decoder. */
    ghost predicate Decoding()
      reads this, table0, table1, stack
    {
      && oldcode >= 0 && State().Valid() && setCodeSize <= 8 && maxCode == State().Max()
      && codeSize == State().CodeWidth()
      && Represents(table0[..], table1[..], State()) && sp <= stack.Length && AllBytes(stack[..sp])
      && firstcode == State().First()
    }

    ghost function State(): Lzw
      reads this
      requires oldcode >= 0
    {
      Lzw(setCodeSize, strings, oldcode)
    }

    ghost predicate Shaped()
      reads this, reader
    {
      && 2 <= setCodeSize <= 8 && clearCode == Pow2(setCodeSize) && clearCode <= 256 && endCode == clearCode + 1
      && table0.Length == table1.Length == TABLE_SIZE && stack.Length == STACK_SIZE && sp <= STACK_SIZE
      && reader.mem as object != table0 as object && reader.mem as object != table1 as object
      && reader.mem as object != stack as object && table0 != table1 && table0 != stack && table1 != stack
      && LongBlocks(reader.blocks)
    }

    /** The code width and its limit are those of the plain decoder. */
    ghost predicate Sized()
      reads this
    {
      1 <= codeSize <= MAX_LWZ_BITS && maxCodeSize == Pow2(codeSize)
    }

    /** Push one byte. */
    method Push(x: int)
      requires sp < stack.Length
      modifies this`sp, stack
      ensures sp == old(sp) + 1 && stack[..sp] == old(stack[..sp]) + [x]
    {
      stack[sp] := x;
      assert stack[..sp + 1] == stack[..sp] + [x];
      sp := sp + 1;
    }

    /** Push the string of a known code, last byte first; its first byte ends up on top. */
    method PushString(start: nat, ghost st: Lzw) returns (first: int)
      requires table0.Length == table1.Length == TABLE_SIZE && stack.Length == STACK_SIZE
      requires table0 != stack && table1 != stack
      requires Represents(table0[..], table1[..], st) && st.Known(start) && clearCode == st.Clear()
      requires sp + |st.Str(start)| <= STACK_SIZE
      modifies this`sp, stack
      ensures sp == old(sp) + |st.Str(start)| <= STACK_SIZE
      ensures stack[..sp] == old(stack[..sp]) + Rev(st.Str(start))
      ensures st.Str(start) != [] && first == st.Str(start)[0]
    {
      var code := start;
      ghost var str, t0, t1, base := st.Str(start), table0[..], table1[..], stack[..sp];
      ghost var suffix: seq<int> := [];
      assert st.size <= 8;
      hide Represents, Linked, Lzw.Str, Lzw.Known, Rev;
      NothingPushed(base, str);
      while code >= clearCode
        invariant 0 <= code && st.Known(code) && st.Str(code) + suffix == str
        invariant table0[..] == t0 && table1[..] == t1
        invariant sp == |base| + |suffix| && stack[..sp] == base + Rev(suffix)
      {
        PushStep(t0, t1, st, code, suffix, base);
        Push(table1[code]);
        suffix := [t1[code]] + suffix;
        code := table0[code];
      }
      PushRoot(t0, t1, st, code, suffix, base);
      first := table1[code];
      Push(first);
    }

    /** One code from the reader, or -1 at the end. */
    method ReadCode() returns (code: int)
      requires Shaped() && Sized() && reader.Valid()
      requires CodeAt(reader.data, reader.tail, reader.pos, codeSize) != Unknown
      modifies reader, reader.mem
      ensures Shaped() && reader.Valid() && reader.data == old(reader.data)
      ensures code == -1 ==> reader.pos == old(reader.pos)
      ensures code != -1 ==> reader.pos == old(reader.pos) + codeSize && 0 <= code < TABLE_SIZE
      ensures old(CodeAt(reader.data, reader.tail, reader.pos, codeSize)) == if code == -1 then End else Code(code)
    {
      AlwaysLegible(reader, codeSize);
      CodeFits(reader.data, reader.tail, reader.pos, codeSize);
      code := reader.GetCode(codeSize);
    }

    /** A root after a clear code, or at the start: the dictionary is empty again. */
    method TakeRoot(code: nat, ghost p: nat) returns (r: int)
      requires Shaped() && Sized() && reader.Valid() && sp == 0 && !isFresh
      requires codeSize == setCodeSize + 1 && maxCode == clearCode + 2
      requires reader.pos == p + codeSize && CodeAt(reader.data, reader.tail, p, codeSize) == Code(code)
      requires AfterClear(reader.data, reader.tail, p, setCodeSize).Some?
      requires forall c :: 0 <= c < clearCode ==> table1[c] == c
      modifies this`firstcode, this`oldcode, this`strings
      ensures Valid() && r >= 0 && Remaining().Some?
      ensures AfterClear(reader.data, reader.tail, p, setCodeSize).value == [r] + Remaining().value
    {
      hide Decode, CodeReader.Valid, CodeAt, Lzw.After, Lzw.Expand, Linked, Width, FromStart, Pow2;
      StartWidth(setCodeSize);
      firstcode, oldcode, strings := code, code, [];
      assert Rev(stack[..sp]) == [];
      r := code;
    }

    /** The first code that is not a clear code. */
    method FirstByte() returns (r: int)
      requires Valid() && isFresh && Remaining().Some?
      modifies this, reader, reader.mem
      ensures r >= 0 ==> Valid() && Remaining().Some? && old(Remaining()).value == [r] + Remaining().value
      ensures r < 0 ==> r == -1 && old(Remaining()).value == []
    {
      hide AfterClear, Decode, FromStart, CodeReader.Valid, Width, Represents, CodeAt, LzwDecoder.Decoding, Pow2,
           Concat;
      ghost var all, p := Remaining(), reader.pos;
      isFresh := false;
      StartStep(reader.data, reader.tail, p, setCodeSize);
      var code := ReadCode();
      while code == clearCode
        invariant Shaped() && Sized() && reader.Valid() && sp == 0 && !isFresh
        invariant codeSize == setCodeSize + 1 && maxCode == clearCode + 2
        invariant forall c :: 0 <= c < clearCode ==> table1[c] == c
        invariant 0 <= p && -1 <= code && reader.pos == (if code == -1 then p else p + codeSize)
        invariant CodeAt(reader.data, reader.tail, p, codeSize) == if code == -1 then End else Code(code)
        invariant FromStart(reader.data, reader.tail, p, setCodeSize) == all
        decreases 8 * |reader.data| - p
      {
        StartStep(reader.data, reader.tail, p, setCodeSize);
        p := reader.pos;
        StartStep(reader.data, reader.tail, p, setCodeSize);
        code := ReadCode();
      }
      StartStep(reader.data, reader.tail, p, setCodeSize);
      if code == -1 {
        return -1;
      }
      r := TakeRoot(code, p);
    }

    /** Push the string of a code, or of the code that is about to be defined; its first byte ends up on top. */
    method PushCode(incode: nat, ghost st: Lzw)
      requires Shaped() && Decoding() && State() == st && sp == 0 && incode < TABLE_SIZE
      requires st.Known(incode) || incode == st.Max()
      modifies this`firstcode, this`sp, stack
      ensures sp == |st.Expand(incode)| <= STACK_SIZE && stack[..sp] == Rev(st.Expand(incode))
      ensures firstcode == st.Expand(incode)[0]
    {
      var code := incode;
      st.StrLength(st.prev);
      if code >= maxCode {
        RevAppend(st.Str(st.prev), st.First());
        Push(firstcode);
        code := oldcode;
      } else {
        st.StrLength(code);
      }
      firstcode := PushString(code, st);
    }

    /** The new table entry, and the width of the next code. */
    method Extend(incode: nat, ghost st: Lzw)
      requires Shaped() && Sized() && Represents(table0[..], table1[..], st) && st.size == setCodeSize
               && st.prev == oldcode
      requires (st.Known(incode) || incode == st.Max()) && incode < TABLE_SIZE && maxCode == st.Max()
      requires codeSize == st.CodeWidth() && firstcode == st.Expand(incode)[0]
      modifies this`maxCode, this`maxCodeSize, this`codeSize, this`oldcode, this`strings, table0, table1
      ensures oldcode == incode && State() == st.After(incode)
      ensures Sized() && Represents(table0[..], table1[..], st.After(incode))
      ensures maxCode == st.After(incode).Max() && codeSize == st.After(incode).CodeWidth()
    {
      hide Represents, Width, Lzw.Expand, Lzw.After, Pow2;
      RepresentsValid(table0[..], table1[..], st);
      AfterSizes(st, incode);
      ghost var t0, t1 := table0[..], table1[..];
      if maxCode < TABLE_SIZE {
        table0[maxCode] := oldcode;
        table1[maxCode] := firstcode;
        WidthStep(setCodeSize + 1, maxCode);
        CountCode();
      }
      AddEntry(t0, t1, st, incode, table0[..], table1[..]);
      strings := st.After(incode).strings;
      oldcode := incode;
    }

    /** One more code is in use, and the next one may need another bit. */
    method CountCode()
      requires Sized()
      modifies this`maxCode, this`maxCodeSize, this`codeSize
      ensures Sized() && maxCode == old(maxCode) + 1
      ensures codeSize == if maxCode >= Pow2(old(codeSize)) && Pow2(old(codeSize)) < TABLE_SIZE then old(codeSize) + 1
                          else old(codeSize)
    {
      maxCode := maxCode + 1;
      if maxCode >= maxCodeSize && maxCodeSize < TABLE_SIZE {
        TwelveBits(codeSize);
        maxCodeSize := maxCodeSize * 2;
        codeSize := codeSize + 1;
      }
    }

    /** What a clear code does to the tables. */
    method ClearTables()
      requires table0.Length == table1.Length == TABLE_SIZE && table0 != table1 && clearCode <= 256
      modifies table0, table1
      ensures forall c :: 0 <= c < clearCode ==> table1[c] == c
    {
      var i := 0;
      while i < clearCode
        invariant 0 <= i <= clearCode && forall c :: 0 <= c < i ==> table1[c] == c
      {
        table0[i] := 0;
        table1[i] := i;
        i := i + 1;
      }
      while i < TABLE_SIZE
        invariant clearCode <= i <= TABLE_SIZE && forall c :: 0 <= c < clearCode ==> table1[c] == c
      {
        table0[i] := 0;
        table1[i] := 0;
        i := i + 1;
      }
    }

    /** A clear code, and the root after it. */
    method Restart() returns (r: int)
      requires Shaped() && Sized() && reader.Valid() && sp == 0 && !isFresh
      requires AfterClear(reader.data, reader.tail, reader.pos, setCodeSize).Some?
      modifies this, table0, table1, reader, reader.mem
      ensures r >= 0 ==> Valid() && Remaining().Some?
      ensures var rest := old(AfterClear(reader.data, reader.tail, reader.pos, setCodeSize)).value;
              if r >= 0 then rest == [r] + Remaining().value else r == -1 && rest == []
    {
      hide Decode, CodeReader.Valid, Width, Represents, CodeAt;
      ClearTables();
      codeSize := setCodeSize + 1;
      maxCodeSize := 2 * clearCode;
      maxCode := clearCode + 2;
      sp := 0;
      StartWidth(setCodeSize);
      ghost var p := reader.pos;
      var code := ReadCode();
      if code == -1 {
        return -1;
      }
      r := TakeRoot(code, p);
    }

    /** A code of the dictionary, or the next free one. */
    method Entry(code: nat, ghost st: Lzw) returns (r: int)
      requires Valid() && !isFresh && State() == st && sp == 0 && code < TABLE_SIZE
               && (st.Known(code) || code == st.Max())
      requires Decode(reader.data, reader.tail, reader.pos, st.After(code)).Some?
      modifies this, stack, table0, table1
      ensures Valid() && r >= 0 && Remaining().Some? && unchanged(reader, reader.mem)
      ensures st.Expand(code) + old(Decode(reader.data, reader.tail, reader.pos, st.After(code))).value
              == [r] + Remaining().value
    {
      hide Decode, CodeReader.Valid, Width, Rev, Linked, Lzw.Expand, Lzw.After, Lzw.First, Lzw.Str, CodeAt;
      PushCode(code, st);
      Extend(code, st);
      AfterFirst(st, code);
      RevRev(st.Expand(code));
      r := Pop();
    }

    /** The byte on top of the stack. */
    method Pop() returns (r: int)
      requires Valid() && !isFresh && sp > 0 && Remaining().Some?
      modifies this`sp
      ensures Valid() && r >= 0 && Remaining().Some?
      ensures old(Remaining()).value == [r] + Remaining().value
    {
      hide Decode, CodeReader.Valid, Lzw.After, Lzw.Expand, Lzw.First, Represents, Width, FromStart, Rev, Pow2;
      assert stack[..sp] == stack[..sp - 1] + [stack[sp - 1]];
      RevAppend(stack[..sp - 1], stack[sp - 1]);
      sp := sp - 1;
      r := stack[sp];
    }

    /** LWZReadByte: the next byte the plain decoder produces; at the end -2 for an end code, -1 for a lack of data. */
    method ReadByte() returns (r: int)
      requires Valid() && Remaining().Some?
      modifies this, stack, table0, table1, reader, reader.mem
      ensures r >= 0 ==> Valid() && Remaining().Some? && old(Remaining()).value == [r] + Remaining().value
      ensures r < 0 ==> (r == -2 || r == -1) && old(Remaining()).value == []
    {
      hide AfterClear, Decode, FromStart, CodeReader.Valid, Width, Represents, CodeAt, Rev;
      if isFresh {
        r := FirstByte();
        return;
      }
      if sp > 0 {
        r := Pop();
        return;
      }
      ghost var st, p := State(), reader.pos;
      NothingWaiting(stack[..sp], Decode(reader.data, reader.tail, p, st));
      DecodeStep(reader.data, reader.tail, p, st);
      var code := ReadCode();
      if code == -1 {
        r := -1;
      } else if code == clearCode {
        r := Restart();
      } else if code == endCode {
        if !reader.zeroDataBlock {
          SkipBlocks();
        }
        r := -2;
      } else {
        r := Entry(code, st);
      }
    }

    /** The rest of the image's sub-blocks. */
    method SkipBlocks()
      requires Shaped() && reader.mem.Length == BUF_SIZE + 2
      modifies reader, reader.mem
    {
      var count := reader.GetDataBlock();
      while count > 0
        invariant reader.mem.Length == BUF_SIZE + 2
        decreases |reader.blocks|, count
      {
        count := reader.GetDataBlock();
      }
    }
  }

  /** The plain decoder, one code at a time. */
  lemma DecodeStep(data: seq<byte>, tail: Ending, p: nat, st: Lzw)
    requires st.Valid() && Decode(data, tail, p, st).Some?
    ensures var w := st.CodeWidth();
            match CodeAt(data, tail, p, w)
            case Unknown => false
            case End => Decode(data, tail, p, st) == Some([])
            case Code(code) =>
              if code == st.Clear() then Decode(data, tail, p, st) == AfterClear(data, tail, p + w, st.size)
              else if code == st.Clear() + 1 then Decode(data, tail, p, st) == Some([])
              else
                && (st.Known(code) || code == st.Max()) && code < TABLE_SIZE
                && Decode(data, tail, p, st) == Prepend(st.Expand(code), Decode(data, tail, p + w, st.After(code)))
  {
    CodeFits(data, tail, p, st.CodeWidth());
  }

  lemma NothingWaiting(s: seq<int>, rest: Option<seq<byte>>)
    requires s == []
    ensures Rev(s) == [] && Prepend([], rest) == rest
  {
    if rest.Some? {
      assert [] + rest.value == rest.value;
    }
  }

  lemma AfterSizes(st: Lzw, code: nat)
    requires st.Valid() && (st.Known(code) || code == st.Max()) && code < TABLE_SIZE
    ensures var next := st.After(code);
            && next.Max() == (if st.Max() < TABLE_SIZE then st.Max() + 1 else st.Max())
            && next.prev == code && next.size == st.size && next.Clear() == st.Clear()
  {
  }

  /** The first byte of a code's string stays its first byte in the new dictionary. */
  lemma AfterFirst(st: Lzw, code: nat)
    requires st.Valid() && (st.Known(code) || code == st.Max()) && code < TABLE_SIZE
    ensures st.After(code).First() == st.Expand(code)[0]
  {
    st.StrLength(st.prev);
    if st.Known(code) {
      KeepsString(st, st.After(code), code);
    }
  }

  lemma TwelveBits(w: nat)
    requires w <= MAX_LWZ_BITS && Pow2(w) < TABLE_SIZE
    ensures w < MAX_LWZ_BITS
  {
    Pow2Add(8, 4);
    Pow2Literals();
  }

  /** The start of the image, code by code. */
  lemma StartStep(data: seq<byte>, tail: Ending, p: nat, size: nat)
    requires 2 <= size <= 8 && FromStart(data, tail, p, size).Some?
    ensures CodeAt(data, tail, p, size + 1) != Unknown
    ensures FromStart(data, tail, p, size)
            == if CodeAt(data, tail, p, size + 1) == Code(Pow2(size)) then FromStart(data, tail, p + (size + 1), size)
               else AfterClear(data, tail, p, size)
    ensures CodeAt(data, tail, p, size + 1) == End ==> FromStart(data, tail, p, size) == Some([])
  {
  }

  /** A code more, and the width grows exactly when it has to. */
  lemma {:induction false} WidthStep(k: nat, max: nat)
    requires k <= MAX_LWZ_BITS && max < TABLE_SIZE
    ensures var w := Width(k, max);
            Width(k, max + 1) == if max + 1 >= Pow2(w) && Pow2(w) < TABLE_SIZE then w + 1 else w
    decreases MAX_LWZ_BITS - k
  {
    Pow2Add(8, 4);
    Pow2Literals();
    if k < MAX_LWZ_BITS {
      Pow2Strict(k, MAX_LWZ_BITS);
      if max >= Pow2(k) {
        WidthStep(k + 1, max);
      }
    }
  }

  lemma {:induction false} RevAppend(s: seq<int>, x: int)
    ensures Rev(s + [x]) == [x] + Rev(s)
  {
    if s == [] {
      assert [] + [x] == [x];
      assert [x][1..] == [];
    } else {
      assert (s + [x])[1..] == s[1..] + [x];
      RevAppend(s[1..], x);
    }
  }

  lemma {:induction false} RevRev(s: seq<int>)
    ensures Rev(Rev(s)) == s
  {
    if s != [] {
      RevAppend(Rev(s[1..]), s[0]);
      RevRev(s[1..]);
    }
  }

  lemma NothingPushed(base: seq<int>, str: seq<byte>)
    ensures base + Rev([]) == base && str + [] == str
  {
  }

  /** Following one link of a string. */
  lemma PushStep(t0: seq<int>, t1: seq<int>, st: Lzw, code: nat, suffix: seq<int>, base: seq<int>)
    requires Represents(t0, t1, st) && st.Known(code) && code >= st.Clear()
    ensures code < TABLE_SIZE && 0 <= t0[code] < code && st.Known(t0[code]) && 0 <= t1[code] < 256
    ensures st.Str(t0[code]) + ([t1[code]] + suffix) == st.Str(code) + suffix
    ensures base + Rev([t1[code]] + suffix) == (base + Rev(suffix)) + [t1[code]]
    ensures |st.Str(code)| >= 1
  {
    assert Linked(t0, t1, st, code);
    RevStep(t1[code], suffix);
  }

  /** The root at the end of the links is the first byte. */
  lemma PushRoot(t0: seq<int>, t1: seq<int>, st: Lzw, code: nat, suffix: seq<int>, base: seq<int>)
    requires Represents(t0, t1, st) && st.Known(code) && code < st.Clear()
    ensures code < TABLE_SIZE && t1[code] == code
    ensures st.Str(code) + suffix == [code] + suffix
    ensures base + Rev([code] + suffix) == (base + Rev(suffix)) + [code]
  {
    RevStep(code, suffix);
  }

  /** The loop of ReadImage that takes every byte: together they are what the plain decoder makes of the data, whatever
      an earlier image has left in the code reader. */
  method ReadImage(blocks: seq<GifBits.Block>, inputCodeSize: nat, earlier: seq<byte>, lastByte: nat)
      returns (bytes: seq<int>)
    requires 2 <= inputCodeSize <= 8 && LongBlocks(blocks)
    requires |earlier| == BUF_SIZE + 2 && lastByte <= 257 && lastByte != 1
    requires FromStart(Concat(blocks), Tail(blocks), 0, inputCodeSize).Some?
    ensures bytes == FromStart(Concat(blocks), Tail(blocks), 0, inputCodeSize).value
  {
    hide FromStart, LzwDecoder.Shaped, LzwDecoder.Sized, LzwDecoder.Decoding, LzwDecoder.Remaining, CodeReader.Valid;
    ghost var all := FromStart(Concat(blocks), Tail(blocks), 0, inputCodeSize).value;
    var reader := new CodeReader(blocks, earlier, lastByte);
    var d := new LzwDecoder(reader, inputCodeSize);
    bytes := [];
    var v := d.ReadByte();
    while v >= 0
      invariant fresh(d) && fresh(d.stack) && fresh(d.table0) && fresh(d.table1) && fresh(d.reader)
                && fresh(d.reader.mem)
      invariant v >= 0 ==> d.Valid() && d.Shaped() && d.Remaining().Some? && bytes + ([v] + d.Remaining().value) == all
      invariant v < 0 ==> bytes == all
      decreases v >= 0, if v >= 0 && d.Shaped() && d.Remaining().Some? then |d.Remaining().value| else 0
    {
      Assoc(bytes, [v], d.Remaining().value);
      PlusNothing(bytes + [v]);
      bytes := bytes + [v];
      v := d.ReadByte();
    }
  }
}
