// The ChaCha20 source of randomness (src/random/deterministic.c) and the counter of the cipher (src/monocypher.c). The
// block function is arbitrary.

module Chacha {
  import opened Words
  import opened BitOps

  type Block = b: seq<byte> | |b| == 64 witness seq(64, _ => 0)

  /** From the two words of the counter. */
  type BlockFunction = (u32, u32) -> Block

  function Low(ctr: nat): u32 {
    ctr % B
  }

  function High(ctr: nat): u32 {
    ctr / B % B
  }

  /** Byte n of the keystream. */
  function KeyByte(f: BlockFunction, n: nat): byte {
    f(Low(n / 64), High(n / 64))[n % 64]
  }

  /** size bytes of the keystream, from position start on. */
  function Stream(f: BlockFunction, start: nat, size: nat): (s: seq<byte>)
    ensures |s| == size
  {
    seq<byte>(size, i requires 0 <= i < size => KeyByte(f, start + i))
  }

  lemma StreamAppend(f: BlockFunction, start: nat, m: nat, n: nat)
    ensures Stream(f, start, m) + Stream(f, start + m, n) == Stream(f, start, m + n)
  {
    var parts, whole := Stream(f, start, m) + Stream(f, start + m, n), Stream(f, start, m + n);
    forall i | 0 <= i < m + n
      ensures parts[i] == whole[i]
    {
      if i >= m {
        assert start + m + (i - m) == start + i;
      }
    }
  }

  /** A part of a block is that part of the keystream. */
  lemma BlockStream(f: BlockFunction, ctr: nat, from: nat, size: nat)
    requires from + size <= 64
    ensures f(Low(ctr), High(ctr))[from..from + size] == Stream(f, 64 * ctr + from, size)
  {
    var part, stream := f(Low(ctr), High(ctr))[from..from + size], Stream(f, 64 * ctr + from, size);
    forall i | 0 <= i < size
      ensures part[i] == stream[i]
    {
      DivUnique(64 * ctr + from + i, 64, ctr, from + i);
      assert stream[i] == KeyByte(f, 64 * ctr + from + i);
    }
  }

  /** The counter in two words, with the carry from the low one. */
  lemma NextCounter(ctr: nat)
    ensures Low(ctr + 1) == (Low(ctr) + 1) % B
    ensures High(ctr + 1) == if (Low(ctr) + 1) % B == 0 then (High(ctr) + 1) % B else High(ctr)
  {
    var (q, r) := (ctr / B, ctr % B);
    if r + 1 < B {
      DivUnique(ctr + 1, B, q, r + 1);
      DivUnique(r + 1, B, 0, r + 1);
    } else {
      DivUnique(ctr + 1, B, q + 1, 0);
      DivUnique(r + 1, B, 1, 0);
      NextMod(q, B);
    }
  }

  // ---------------------------------------------------------------------
  // Plain text
  // ---------------------------------------------------------------------

  function XorByte(a: byte, b: byte): byte {
    BelowByte(a, b);
    Xor(a, b)
  }

  lemma BelowByte(a: byte, b: byte)
    ensures Pow(2, 8) == 0x100 && Xor(a, b) < 0x100
  {
    assert Pow(2, 4) == 16;
    PowAdd(2, 4, 4);
    XorBelow(a, b, 8);
  }

  /** The keystream with the plain text mixed in, if there is one. */
  function Mixed(plain: Option<seq<byte>>, stream: seq<byte>): (text: seq<byte>)
    requires plain.Some? ==> |plain.value| == |stream|
    ensures |text| == |stream|
  {
    if plain.None? then stream
    else seq<byte>(|stream|, i requires 0 <= i < |stream| => XorByte(stream[i], plain.value[i]))
  }

  /** Mixing in the cipher text, with the same keystream, gives the plain text. */
  lemma MixedTwice(plain: seq<byte>, stream: seq<byte>)
    requires |plain| == |stream|
    ensures Mixed(Some(Mixed(Some(plain), stream)), stream) == plain
  {
    var cipher := Mixed(Some(plain), stream);
    forall i | 0 <= i < |plain|
      ensures Mixed(Some(cipher), stream)[i] == plain[i]
    {
      XorTwice(plain[i], stream[i]);
      XorCommutes(stream[i], plain[i]);
      XorCommutes(stream[i], cipher[i]);
    }
  }

  function Slice(plain: Option<seq<byte>>, from: nat, to: nat): Option<seq<byte>>
    requires from <= to && (plain.Some? ==> to <= |plain.value|)
  {
    if plain.None? then None else Some(plain.value[from..to])
  }

  lemma MixedAppend(plain: Option<seq<byte>>, a: seq<byte>, b: seq<byte>)
    requires plain.Some? ==> |a| + |b| <= |plain.value|
    ensures Mixed(Slice(plain, 0, |a|), a) + Mixed(Slice(plain, |a|, |a| + |b|), b)
         == Mixed(Slice(plain, 0, |a| + |b|), a + b)
  {
  }

  /** Mixing words is mixing their bytes. */
  lemma XorWord(s: seq<byte>, t: seq<byte>)
    requires |s| == |t| == 4
    ensures Xor(Load32(s), Load32(t))
         == Load32([XorByte(s[0], t[0]), XorByte(s[1], t[1]), XorByte(s[2], t[2]), XorByte(s[3], t[3])])
  {
    var s2: nat, t2: nat := s[2] as int + 0x100 * s[3] as int, t[2] as int + 0x100 * t[3] as int;
    var s1: nat, t1: nat := s[1] as int + 0x100 * s2, t[1] as int + 0x100 * t2;
    XorDigit(s[2], s[3], t[2], t[3]);
    XorDigit(s[1], s2, t[1], t2);
    XorDigit(s[0], s1, t[0], t1);
  }

  lemma XorDigit(a: byte, b: nat, c: byte, d: nat)
    ensures Xor(a + 0x100 * b, c + 0x100 * d) == XorByte(a, c) + 0x100 * Xor(b, d)
  {
    BelowByte(a, c);
    XorSplit(a, b, c, d, 8);
  }

  lemma StoreLoad(s: seq<byte>)
    requires |s| == 4
    ensures Store32(Load32(s)) == s
  {
  }

  /** A whole block, word by word. */
  method MixBlock(block: Block, plain: Option<seq<byte>>) returns (out: seq<byte>)
    requires plain.Some? ==> |plain.value| == 64
    ensures out == Mixed(plain, block)
  {
    out := [];
    for j := 0 to 16
      invariant out == Mixed(plain, block)[..4 * j]
    {
      var part := block[4 * j..4 * j + 4];
      var word := Load32(part);
      if plain.Some? {
        var more := plain.value[4 * j..4 * j + 4];
        XorWord(part, more);
        word := Xor(word, Load32(more));
      }
      StoreLoad(Mixed(plain, block)[4 * j..4 * j + 4]);
      out := out + Store32(word);
    }
  }

  /** The beginning of the last block, byte by byte. */
  method MixRest(block: Block, plain: Option<seq<byte>>, size: nat) returns (out: seq<byte>)
    requires size <= 64 && (plain.Some? ==> |plain.value| == size)
    ensures out == Mixed(plain, block[..size])
  {
    out := [];
    for i := 0 to size
      invariant out == Mixed(plain, block[..size])[..i]
    {
      XorZero(block[i]);
      out := out + [XorByte(block[i], if plain.None? then 0 else plain.value[i])];
    }
  }

  /** The whole blocks, and the counter behind them. */
  method WholeBlocks(f: BlockFunction, plain: Option<seq<byte>>, nbBlocks: nat, ctr: u64)
    returns (out: seq<byte>, input12: u32, input13: u32)
    requires plain.Some? ==> 64 * nbBlocks <= |plain.value|
    ensures input12 == Low(ctr + nbBlocks) && input13 == High(ctr + nbBlocks)
    ensures out == Mixed(Slice(plain, 0, 64 * nbBlocks), Stream(f, 64 * ctr, 64 * nbBlocks))
  {
    input12, input13 := Low(ctr), High(ctr);
    out := [];
    for i := 0 to nbBlocks
      invariant input12 == Low(ctr + i) && input13 == High(ctr + i)
      invariant out == Mixed(Slice(plain, 0, 64 * i), Stream(f, 64 * ctr, 64 * i))
    {
      OneMore(f, ctr, i, 64, plain);
      var block := MixBlock(f(input12, input13), Slice(plain, 64 * i, 64 * i + 64));
      assert f(input12, input13)[..64] == f(input12, input13);
      out := out + block;
      NextCounter(ctr + i);
      input12 := (input12 + 1) % B;
      if input12 == 0 {
        input13 := (input13 + 1) % B;
      }
    }
  }

  /** Generates keystream from a block boundary on, and mixes the plain text in. */
  method Generate(f: BlockFunction, plain: Option<seq<byte>>, size: nat, ctr: u64)
    returns (out: seq<byte>, next: nat)
    requires plain.Some? ==> |plain.value| == size
    ensures out == Mixed(plain, Stream(f, 64 * ctr, size))
    ensures next == Wrap(ctr + (size + 63) / 64)
  {
    var (nbBlocks, rest) := (size / 64, size % 64);
    var input12, input13;
    out, input12, input13 := WholeBlocks(f, plain, nbBlocks, ctr);
    OneMore(f, ctr, nbBlocks, rest, plain);
    assert size == 64 * nbBlocks + rest;
    if rest > 0 {
      var block := MixRest(f(input12, input13), Slice(plain, 64 * nbBlocks, size), rest);
      out := out + block;
    }
    assert plain.Some? ==> plain.value[0..size] == plain.value;
    var more := if rest > 0 then 1 else 0;
    next := Wrap(input12 + input13 * B + more);
    CounterValue(ctr + nbBlocks, more);
    assert ctr + nbBlocks + more == ctr + (size + 63) / 64;
  }

  /** What was generated so far, and the beginning of the next block. */
  lemma OneMore(f: BlockFunction, ctr: nat, i: nat, size: nat, plain: Option<seq<byte>>)
    requires size <= 64 && (plain.Some? ==> 64 * i + size <= |plain.value|)
    ensures Mixed(Slice(plain, 0, 64 * i), Stream(f, 64 * ctr, 64 * i))
            + Mixed(Slice(plain, 64 * i, 64 * i + size), f(Low(ctr + i), High(ctr + i))[..size])
         == Mixed(Slice(plain, 0, 64 * i + size), Stream(f, 64 * ctr, 64 * i + size))
  {
    NextBlock(f, ctr, i, size);
    MixedAppend(plain, Stream(f, 64 * ctr, 64 * i), f(Low(ctr + i), High(ctr + i))[..size]);
  }

  lemma NextBlock(f: BlockFunction, ctr: nat, i: nat, size: nat)
    requires size <= 64
    ensures Stream(f, 64 * ctr, 64 * i) + f(Low(ctr + i), High(ctr + i))[..size] == Stream(f, 64 * ctr, 64 * i + size)
  {
    BlockStream(f, ctr + i, 0, size);
    assert 64 * (ctr + i) + 0 == 64 * ctr + 64 * i;
    StreamAppend(f, 64 * ctr, 64 * i, size);
  }

  lemma CounterValue(ctr: nat, more: nat)
    ensures Wrap(Low(ctr) + High(ctr) * B + more) == Wrap(ctr + more)
  {
    var (q, r) := (ctr / B, ctr % B);
    var (p, h) := (q / B, q % B);
    assert ctr == W64 * p + (r + h * B);
    var x := r + h * B + more;
    DivUnique(ctr + more, W64, p + x / W64, x % W64);
  }

  class Source {
    const f: BlockFunction
    var offset: u64

    constructor (f: BlockFunction)
      ensures this.f == f && offset == 0
    {
      this.f, offset := f, 0;
    }

    /** The rest of a block, or a part of it. */
    method ReadShort(size: nat) returns (dest: seq<byte>)
      requires offset % 64 + size <= 64
      modifies this`offset
      ensures dest == Stream(f, old(offset) as int, size)
      ensures offset == Wrap(old(offset) + size)
    {
      var block, _ := Generate(f, None, 64, offset / 64);
      var from := offset as int % 64;
      dest := block[from..from + size];
      offset := Wrap(offset + size);
      ShortStream(f, old(offset), from, size);
    }

    /** What is left of a block that the position is inside of, or a part of it. */
    method ReadRest(size: nat) returns (dest: seq<byte>)
      modifies this`offset
      ensures |dest| <= size && |dest| < 64 && offset == Wrap(old(offset) + |dest|)
      ensures dest == Stream(f, old(offset), |dest|) && old(offset) + |dest| <= W64
      ensures |dest| < size ==> (old(offset) + |dest|) % 64 == 0
    {
      var offsetBytes := offset as int % 64;
      dest := [];
      if offsetBytes != 0 {
        var shortBytes := Min(64 - offsetBytes, size);
        dest := ReadShort(shortBytes);
      }
    }

    /** The next bytes of the keystream, as far as the position does not wrap around. */
    method Read(size: nat) returns (dest: seq<byte>)
      modifies this`offset
      ensures dest == ReadAt(f, old(offset), size)
      ensures offset == Wrap(old(offset) + size)
    {
      ghost var start := offset;
      var rest := ReadRest(size);
      var remaining := size - |rest|;
      BulkStream(f, start, |rest|, remaining);
      WrapPlus(start + |rest|, remaining);
      var more := ReadBulk(remaining);
      dest := rest + more;
    }

    /** Whole blocks and the beginning of another, from a block boundary on. */
    method ReadBulk(size: nat) returns (dest: seq<byte>)
      modifies this`offset
      ensures dest == Stream(f, 64 * (old(offset) as int / 64), size)
      ensures offset == Wrap(old(offset) + size)
    {
      var next;
      dest, next := Generate(f, None, size, offset / 64);
      offset := Wrap(offset + size);
    }

    /** Goes to a position, and reads the buffer of the randomness object anew. */
    method Seek(position: u64) returns (buffer: seq<byte>)
      modifies this`offset
      ensures buffer == ReadAt(f, position, 1024)
      ensures offset == Wrap(position + 1024)
    {
      offset := position;
      buffer := Read(1024);
    }

    /** However it is split into reads, what is read is the same. */
    method ReadParts(sizes: seq<nat>) returns (dest: seq<byte>)
      requires offset as int + Total(sizes) <= W64
      modifies this`offset
      ensures dest == Stream(f, old(offset) as int, Total(sizes)) && offset == Wrap(old(offset) + Total(sizes))
    {
      dest := [];
      ghost var start, done := offset, 0;
      for i := 0 to |sizes|
        invariant done == Total(sizes[..i]) && offset == Wrap(start + done)
        invariant dest == Stream(f, start, done)
      {
        TotalStep(sizes, i);
        PartStream(f, start, done, sizes[i]);
        WrapPlus(start + done, sizes[i]);
        var part := Read(sizes[i]);
        dest, done := dest + part, done + sizes[i];
      }
      assert sizes[..|sizes|] == sizes;
    }

    method PerformOne(operation: Operation) returns (output: seq<byte>)
      modifies this`offset
      ensures output == Output(f, old(offset), operation) && offset == Moved(old(offset), operation)
    {
      match operation {
        case SeekTo(position) => output := Seek(position);
        case ReadOf(size) => output := Read(size);
      }
    }

    /** Any sequence of seeks and reads. */
    method Perform(operations: seq<Operation>) returns (outputs: seq<seq<byte>>)
      modifies this`offset
      ensures outputs == Outputs(f, old(offset), operations) && offset == Position(old(offset), operations)
    {
      outputs := [];
      for i := 0 to |operations|
        invariant outputs == Outputs(f, old(offset), operations[..i])
        invariant offset == Position(old(offset), operations[..i])
      {
        assert operations[..i + 1][..i] == operations[..i];
        var output := PerformOne(operations[i]);
        outputs := outputs + [output];
      }
      assert operations[..|operations|] == operations;
    }
  }

  // ---------------------------------------------------------------------
  // Positions
  // ---------------------------------------------------------------------

  /** Where byte i of a read comes from: reading goes on at the start if the rest of the last block is passed. */
  function Place(offset: u64, i: nat): nat {
    if offset > W64 - 64 && offset + i >= W64 then offset + i - W64 else offset + i
  }

  /** What is read at a position. */
  function ReadAt(f: BlockFunction, offset: u64, size: nat): (s: seq<byte>)
    ensures |s| == size
  {
    seq<byte>(size, i requires 0 <= i < size => KeyByte(f, Place(offset, i)))
  }

  /** The read does not begin inside the last block and end behind it. */
  predicate InStream(offset: u64, size: nat) {
    offset <= W64 - 64 || offset as int + size <= W64
  }

  lemma ReadInStream(f: BlockFunction, offset: u64, size: nat)
    requires InStream(offset, size)
    ensures ReadAt(f, offset, size) == Stream(f, offset, size)
  {
    var read, stream := ReadAt(f, offset, size), Stream(f, offset, size);
    forall i | 0 <= i < size
      ensures read[i] == stream[i]
    {
      assert Place(offset, i) == offset + i;
    }
  }

  /** For every cipher, a read gives the bytes of the keystream from its position on, exactly if it stays in it. */
  lemma ReadExact(offset: u64, size: nat)
    ensures (forall f: BlockFunction :: ReadAt(f, offset, size) == Stream(f, offset, size)) <==> InStream(offset, size)
  {
    if InStream(offset, size) {
      forall f: BlockFunction
        ensures ReadAt(f, offset, size) == Stream(f, offset, size)
      {
        ReadInStream(f, offset, size);
      }
    } else {
      var (f, k) := (FirstBlock(), W64 - offset);
      assert Place(offset, k) == 0;
      assert ReadAt(f, offset, size)[k] == KeyByte(f, 0) == 1;
      assert Stream(f, offset, size)[k] == KeyByte(f, W64) == 0;
    }
  }

  /** A block function that tells the first block of the keystream from all others. */
  function FirstBlock(): (f: BlockFunction)
    ensures KeyByte(f, 0) == 1 && KeyByte(f, W64) == 0
  {
    var f: BlockFunction :=
      (low, high) => if low == 0 && high == 0 then seq<byte>(64, _ => 1) else seq<byte>(64, _ => 0);
    assert High(W64 / 64) != 0;
    f
  }

  /** Splitting a read into two never changes what is read. */
  ghost predicate Splits(offset: u64, size: nat) {
    forall f: BlockFunction, m: nat | m <= size ::
      ReadAt(f, offset, m) + ReadAt(f, Wrap(offset + m), size - m) == ReadAt(f, offset, size)
  }

  /** That is so exactly if the read ends in the keystream, or begins inside its last block, which starts it again. */
  lemma SplitExact(offset: u64, size: u64)
    ensures Splits(offset, size) <==> offset as int + size as int <= W64 || offset > W64 - 64
  {
    if offset as int + size as int > W64 && offset <= W64 - 64 {
      SplitDiffers(offset, size);
    } else {
      forall f: BlockFunction, m: nat | m <= size
        ensures ReadAt(f, offset, m) + ReadAt(f, Wrap(offset + m), size - m) == ReadAt(f, offset, size)
      {
        SplitSame(f, offset, m, size);
      }
    }
  }

  lemma SplitDiffers(offset: u64, size: u64)
    requires offset as int + size as int > W64 && offset <= W64 - 64
    ensures !Splits(offset, size)
  {
    var (f, k) := (FirstBlock(), W64 - offset);
    WrapOnce(offset + k);
    var first, second := ReadAt(f, offset, k), ReadAt(f, 0, size - k);
    assert (first + second)[k] == second[0] == KeyByte(f, 0) == 1;
    assert ReadAt(f, offset, size)[k] == KeyByte(f, W64) == 0;
  }

  lemma SplitPlace(offset: u64, m: nat, size: u64, i: nat)
    requires m <= i < size && (offset as int + size as int <= W64 || offset > W64 - 64)
    ensures Place(Wrap(offset + m), i - m) == Place(offset, i)
  {
    if offset + m < W64 {
      WrapSmall(offset + m);
    } else {
      WrapOnce(offset + m);
    }
  }

  lemma SplitSame(f: BlockFunction, offset: u64, m: nat, size: u64)
    requires m <= size && (offset as int + size as int <= W64 || offset > W64 - 64)
    ensures ReadAt(f, offset, m) + ReadAt(f, Wrap(offset + m), size - m) == ReadAt(f, offset, size)
  {
    var first, second, whole := ReadAt(f, offset, m), ReadAt(f, Wrap(offset + m), size - m), ReadAt(f, offset, size);
    forall i | 0 <= i < size
      ensures (first + second)[i] == whole[i]
    {
      if i >= m {
        SplitPlace(offset, m, size, i);
        assert second[i - m] == KeyByte(f, Place(Wrap(offset + m), i - m));
      }
    }
  }

  /** The next part of a stream, which may end at the end of the keystream. */
  lemma PartStream(f: BlockFunction, offset: u64, m: nat, n: nat)
    requires offset as int + m + n <= W64
    ensures Stream(f, offset, m) + ReadAt(f, Wrap(offset + m), n) == Stream(f, offset, m + n)
  {
    StreamAppend(f, offset, m, n);
    if n > 0 {
      WrapSmall(offset + m);
      ReadInStream(f, offset + m, n);
    } else {
      assert ReadAt(f, Wrap(offset + m), 0) == [] == Stream(f, offset + m, 0);
    }
  }

  datatype Operation = SeekTo(position: u64) | ReadOf(size: nat)

  /** What an operation reads, from which position. */
  function Output(f: BlockFunction, offset: u64, operation: Operation): seq<byte> {
    match operation
    case SeekTo(position) => ReadAt(f, position, 1024)
    case ReadOf(size) => ReadAt(f, offset, size)
  }

  function Moved(offset: u64, operation: Operation): u64 {
    match operation
    case SeekTo(position) => Wrap(position + 1024)
    case ReadOf(size) => Wrap(offset + size)
  }

  /** The position after the operations. */
  function Position(start: u64, operations: seq<Operation>): u64 {
    if operations == [] then start
    else Moved(Position(start, operations[..|operations| - 1]), operations[|operations| - 1])
  }

  /** What the operations read. */
  function Outputs(f: BlockFunction, start: u64, operations: seq<Operation>): (outputs: seq<seq<byte>>)
    ensures |outputs| == |operations|
  {
    if operations == [] then []
    else
      var before := operations[..|operations| - 1];
      Outputs(f, start, before) + [Output(f, Position(start, before), operations[|operations| - 1])]
  }

  /** A read gives the keystream from the position that the operations before it lead to, if it stays in it. */
  lemma {:induction false} OutputAt(f: BlockFunction, start: u64, operations: seq<Operation>, i: nat)
    requires i < |operations|
    ensures Outputs(f, start, operations)[i] == Output(f, Position(start, operations[..i]), operations[i])
    ensures operations[i].ReadOf? && InStream(Position(start, operations[..i]), operations[i].size) ==>
              Outputs(f, start, operations)[i] == Stream(f, Position(start, operations[..i]), operations[i].size)
    decreases |operations|
  {
    if operations[i].ReadOf? && InStream(Position(start, operations[..i]), operations[i].size) {
      ReadInStream(f, Position(start, operations[..i]), operations[i].size);
    }
    var before := operations[..|operations| - 1];
    if i < |before| {
      OutputAt(f, start, before, i);
      assert before[..i] == operations[..i];
    }
  }

  /** What a seek reads anew is the keystream from there on, whatever came before. */
  ghost predicate Seeks(position: u64) {
    forall f: BlockFunction, start: u64, operations, i: nat | i < |operations| && operations[i] == SeekTo(position) ::
      Outputs(f, start, operations)[i] == Stream(f, position, 1024)
  }

  /** That is so exactly if the position is not inside the last block of the keystream. */
  lemma SeekExact(position: u64)
    ensures Seeks(position) <==> position <= 0xffff_ffff_ffff_ffc0
  {
    if position <= 0xffff_ffff_ffff_ffc0 {
      forall f: BlockFunction, start: u64, operations, i: nat | i < |operations| && operations[i] == SeekTo(position)
        ensures Outputs(f, start, operations)[i] == Stream(f, position, 1024)
      {
        OutputAt(f, start, operations, i);
        ReadInStream(f, position, 1024);
      }
    } else {
      ReadExact(position, 1024);
      var f: BlockFunction :| ReadAt(f, position, 1024) != Stream(f, position, 1024);
      OutputAt(f, 0, [SeekTo(position)], 0);
      assert [SeekTo(position)][0] == SeekTo(position);
    }
  }

  /** After a seek, the position is the sum of what has been read, modulo 2^64, and the past does not matter. */
  lemma {:induction false} PositionAfterSeek(start: u64, before: seq<Operation>, position: u64, sizes: seq<nat>)
    ensures Position(start, before + [SeekTo(position)] + Reads(sizes)) == Wrap(position + 1024 + Total(sizes))
  {
    var all := before + [SeekTo(position)] + Reads(sizes);
    if sizes == [] {
      assert all == before + [SeekTo(position)];
    } else {
      var front := sizes[..|sizes| - 1];
      PositionAfterSeek(start, before, position, front);
      assert all[..|all| - 1] == before + [SeekTo(position)] + Reads(front);
      WrapPlus(position + 1024 + Total(front), sizes[|sizes| - 1]);
    }
  }

  function Reads(sizes: seq<nat>): seq<Operation> {
    seq(|sizes|, i requires 0 <= i < |sizes| => ReadOf(sizes[i]))
  }

  function Total(sizes: seq<nat>): nat {
    if sizes == [] then 0 else Total(sizes[..|sizes| - 1]) + sizes[|sizes| - 1]
  }

  lemma {:induction false} TotalStep(sizes: seq<nat>, i: nat)
    requires i < |sizes|
    ensures Total(sizes[..i + 1]) == Total(sizes[..i]) + sizes[i] && Total(sizes[..i + 1]) <= Total(sizes)
    decreases |sizes|
  {
    assert sizes[..i + 1][..i] == sizes[..i];
    if i == |sizes| - 1 {
      assert sizes[..i + 1] == sizes;
    } else {
      var front := sizes[..|sizes| - 1];
      TotalStep(front, i);
      assert front[..i + 1] == sizes[..i + 1] && front[..i] == sizes[..i];
    }
  }

  lemma ShortStream(f: BlockFunction, offset: nat, from: nat, size: nat)
    requires from == offset % 64 && from + size <= 64
    ensures Stream(f, 64 * (offset / 64), 64)[from..from + size] == Stream(f, offset, size)
  {
    var part, stream := Stream(f, 64 * (offset / 64), 64)[from..from + size], Stream(f, offset, size);
    forall i | 0 <= i < size
      ensures part[i] == stream[i]
    {
      assert 64 * (offset / 64) + (from + i) == offset + i;
    }
  }

  /** After the rest of a block, the position is a block boundary: the next one, or the start of the keystream. */
  lemma BulkStart(offset: u64, written: nat)
    requires written < 64 && (offset + written) % 64 == 0
    ensures 64 * (Wrap(offset + written) / 64) == if offset + written == W64 then 0 else offset + written
    ensures if offset + written == W64 then offset > W64 - 64 else offset + written <= W64 - 64
  {
    if offset + written < W64 {
      WrapSmall(offset + written);
    } else {
      WrapOnce(offset + written);
    }
  }

  lemma BulkStream(f: BlockFunction, offset: u64, written: nat, remaining: nat)
    requires written < 64 && offset + written <= W64 && (remaining > 0 ==> (offset + written) % 64 == 0)
    ensures Stream(f, offset, written) + Stream(f, 64 * (Wrap(offset + written) / 64), remaining)
         == ReadAt(f, offset, written + remaining)
  {
    var start := 64 * (Wrap(offset + written) / 64);
    if remaining > 0 {
      BulkStart(offset, written);
    }
    var parts := Stream(f, offset, written) + Stream(f, start, remaining);
    var whole := ReadAt(f, offset, written + remaining);
    forall i | 0 <= i < written + remaining
      ensures parts[i] == whole[i]
    {
      if i >= written {
        assert start + (i - written) == Place(offset, i);
      }
    }
  }
}
