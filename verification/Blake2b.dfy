// The buffering of BLAKE2b (src/monocypher.c, section 3.3 of RFC 7693). The compression function is arbitrary.

module Blake2b {
  import opened Words
  import opened BitOps

  type Chain = h: seq<u64> | |h| == 8 witness seq(8, _ => 0)

  /** From the state, the words of a block, the two words of the byte counter, and whether it is the last block. */
  type Compression = (Chain, seq<nat>, nat, nat, bool) -> Chain

  type Message = seq<byte>

  // ---------------------------------------------------------------------
  // Section 3.3 of RFC 7693
  // ---------------------------------------------------------------------

  /** The high word of a counter, of which Wrap gives the low one. */
  function High(t: nat): nat {
    Wrap(t / W64)
  }

  function Pad(data: Message): (block: Message)
    requires |data| <= 128
    ensures |block| == 128
  {
    data + seq(128 - |data|, _ => 0)
  }

  /** The little-endian words of a block. */
  function WordsOf(block: Message): seq<nat>
    requires |block| == 128
  {
    seq(16, k requires 0 <= k < 16 => Value(0x100, block[8 * k..8 * k + 8]))
  }

  /** The state after the first n blocks, none of which is the last. */
  ghost function Whole(f: Compression, start: Chain, data: Message, n: nat): Chain
    requires 128 * n <= |data|
  {
    if n == 0 then start
    else f(Whole(f, start, data, n - 1), WordsOf(data[128 * (n - 1)..128 * n]), Wrap(128 * n), High(128 * n), false)
  }

  /** How many blocks come before the last one, which is not empty unless there is no data at all. */
  function Before(data: Message): (n: nat)
    ensures 128 * n <= |data| <= 128 * n + 128
  {
    if data == [] then 0 else (|data| - 1) / 128
  }

  /** The state after all the data; the last block is padded with zeros. */
  ghost function Digest(f: Compression, start: Chain, data: Message): Chain {
    var n := Before(data);
    f(Whole(f, start, data, n), WordsOf(Pad(data[128 * n..])), Wrap(|data|), High(|data|), true)
  }

  /** The key, padded to a block, goes before the message. */
  function KeyBlock(key: Message): Message
    requires |key| <= 128
  {
    if key == [] then [] else Pad(key)
  }

  const IV: Chain := [
    0x6a09e667f3bcc908, 0xbb67ae8584caa73b, 0x3c6ef372fe94f82b, 0xa54ff53a5f1d36f1,
    0x510e527fade682d1, 0x9b05688c2b3e6c1f, 0x1f83d9abfb41bd6b, 0x5be0cd19137e2179
  ]

  /** The start state, for the sizes of the hash and of the key, in 64-bit arithmetic. */
  function StartOf(hashSize: u64, keySize: nat): Chain
    requires keySize <= 64
  {
    IV[0 := Xor(IV[0], Xor(Xor(0x0101_0000, ShiftLeft(keySize, 8)), hashSize)) % W64]
  }

  /** Byte j of a word. */
  function ByteOf(w: nat, j: nat): byte {
    PowPositive(0x100, j);
    w / Pow(0x100, j) % 0x100
  }

  /** The little-endian bytes of the state's words, of which the hash is the first ones. */
  function Serialized(h: Chain): (bytes: Message)
    ensures |bytes| == 64
  {
    seq(64, i requires 0 <= i < 64 => ByteOf(h[i / 8], i % 8))
  }

  lemma {:induction false} WholePrefix(f: Compression, start: Chain, data: Message, more: Message, n: nat)
    requires 128 * n <= |data|
    ensures Whole(f, start, data + more, n) == Whole(f, start, data, n)
  {
    if n > 0 {
      WholePrefix(f, start, data, more, n - 1);
      assert (data + more)[128 * (n - 1)..128 * n] == data[128 * (n - 1)..128 * n];
    }
  }

  // ---------------------------------------------------------------------
  // The start state and the hash
  // ---------------------------------------------------------------------

  /** The first word is changed by the parameters of section 2.5 of RFC 7693: the sizes, and 1 for fanout and depth. */
  lemma Parameters(hashSize: u64, keySize: nat)
    requires hashSize < 0x100 && keySize <= 64
    ensures Value(0x100, [hashSize, keySize, 1, 1]) < W64
    ensures StartOf(hashSize, keySize) == IV[0 := Xor(IV[0], Value(0x100, [hashSize, keySize, 1, 1])) % W64]
  {
    ValueOfFour(0x100, [hashSize, keySize, 1, 1]);
    SizesApart(hashSize, keySize);
  }

  /** 64 bits behind the binary point of a square root whose integer part is k. */
  predicate RootFraction(p: nat, k: nat, w: nat) {
    var root := k * 0x1_0000_0000_0000_0000 + w;
    root * root <= p * 0x1_0000_0000_0000_0000_0000_0000_0000_0000 < (root + 1) * (root + 1)
  }

  /** The words are those of section 2.6 of RFC 7693: fractions of the square roots of the first eight primes. */
  lemma IVRoots()
    ensures RootFraction(2, 1, IV[0]) && RootFraction(3, 1, IV[1])
    ensures RootFraction(5, 2, IV[2]) && RootFraction(7, 2, IV[3])
    ensures RootFraction(11, 3, IV[4]) && RootFraction(13, 3, IV[5])
    ensures RootFraction(17, 4, IV[6]) && RootFraction(19, 4, IV[7])
  {
  }

  lemma SizesApart(hashSize: nat, keySize: nat)
    requires hashSize < 0x100 && keySize < 0x100
    ensures Xor(Xor(0x0101_0000, ShiftLeft(keySize, 8)), hashSize) == 0x0101_0000 + 0x100 * keySize + hashSize
  {
    SmallPowers();
    assert ShiftLeft(keySize, 8) == 0x100 * keySize && ShiftLeft(0x101, 16) == 0x0101_0000;
    XorDisjoint(0x100 * keySize, 0x101, 16);
    assert ShiftLeft(0x1_0100 + keySize, 8) == 0x0101_0000 + 0x100 * keySize;
    XorDisjoint(hashSize, 0x1_0100 + keySize, 8);
  }

  lemma SmallPowers()
    ensures Pow(2, 8) == 0x100 && Pow(2, 16) == 0x1_0000
  {
    assert Pow(2, 4) == 16;
    PowAdd(2, 4, 4);
    PowAdd(2, 8, 8);
  }

  lemma {:induction false} BytesValue(w: nat, n: nat)
    ensures Pow(0x100, n) > 0
    ensures Value(0x100, seq(n, j requires 0 <= j < n => ByteOf(w, j))) == w % Pow(0x100, n)
  {
    PowPositive(0x100, n);
    if n > 0 {
      var bytes := seq(n, j requires 0 <= j < n => ByteOf(w, j));
      BytesValue(w, n - 1);
      assert bytes[..n - 1] == seq(n - 1, j requires 0 <= j < n - 1 => ByteOf(w, j));
      NextDigit(w, Pow(0x100, n - 1), 0x100);
    }
  }

  lemma NextDigit(w: nat, p: nat, b: nat)
    requires p > 0 && b > 0 && b * p > 0
    ensures w % (b * p) == w % p + (w / p % b) * p
  {
    var q, r := w / p, w % p;
    var d := q % b;
    MulLe(d, p, b - 1, p);
    MulDistribute(b - 1, 1, p);
    DigitAlgebra(p, b, q / b, d, r);
    DivUnique(w, b * p, q / b, r + d * p);
  }

  lemma DigitAlgebra(p: int, b: int, q: int, d: int, r: int)
    ensures p * (b * q + d) + r == b * p * q + (r + d * p)
  {
  }

  /** The bytes are those of the words: each word can be read back from them. */
  lemma SerializedWords(h: Chain, k: nat)
    requires k < 8
    ensures Value(0x100, Serialized(h)[8 * k..8 * k + 8]) == h[k]
  {
    BytesValue(h[k], 8);
    var bytes := seq(8, j requires 0 <= j < 8 => ByteOf(h[k], j));
    forall j | 0 <= j < 8
      ensures Serialized(h)[8 * k..8 * k + 8][j] == bytes[j]
    {
      DivUnique(8 * k + j, 8, k, j);
    }
    assert Serialized(h)[8 * k..8 * k + 8] == bytes;
    PowByte(8);
    PowTwo64();
    DivUnique(h[k], W64, 0, h[k]);
  }

  lemma PowTwo64()
    ensures Pow(2, 64) == W64
  {
    SmallPowers();
    PowAdd(2, 16, 16);
    PowAdd(2, 32, 32);
  }

  lemma ShiftedByte(w: nat, j: nat)
    ensures And(ShiftRight(w, 8 * j), 0xff) == ByteOf(w, j)
  {
    SmallPowers();
    ShiftDivides(w, 8 * j);
    AndMask(ShiftRight(w, 8 * j), 8);
    PowByte(j);
  }

  // ---------------------------------------------------------------------
  // The words of an incomplete block
  // ---------------------------------------------------------------------

  /** The bytes of the buffer that belong to word k. */
  function Piece(buffer: Message, k: nat): (s: Message)
    ensures |s| <= 8
  {
    buffer[Min(8 * k, |buffer|)..Min(8 * k + 8, |buffer|)]
  }

  /** The words hold the buffer, with zeros behind it. */
  ghost predicate Filled(input: seq<nat>, buffer: Message) {
    |input| == 16 && |buffer| <= 128 && forall k :: 0 <= k < 16 ==> input[k] == Value(0x100, Piece(buffer, k))
  }

  lemma FilledPadded(input: seq<nat>, buffer: Message)
    requires Filled(input, buffer)
    ensures input == WordsOf(Pad(buffer))
  {
    forall k | 0 <= k < 16
      ensures input[k] == WordsOf(Pad(buffer))[k]
    {
      PieceWord(buffer, k);
    }
  }

  lemma PieceWord(buffer: Message, k: nat)
    requires |buffer| <= 128 && k < 16
    ensures Value(0x100, Pad(buffer)[8 * k..8 * k + 8]) == Value(0x100, Piece(buffer, k))
  {
    var word: seq<nat>, piece: seq<nat> := Pad(buffer)[8 * k..8 * k + 8], Piece(buffer, k);
    var n := |piece|;
    if n > 0 {
      assert forall j :: 0 <= j < n ==> word[j] == buffer[8 * k + j] == piece[j];
    }
    assert word[..n] == piece;
    forall j | 0 <= j < 8 - n
      ensures word[n..][j] == 0
    {
      assert word[n..][j] == Pad(buffer)[8 * k + n + j];
    }
    ValueZeros(0x100, word[n..]);
    ValueSplit(0x100, word, n);
  }

  lemma FilledEmpty(input: seq<nat>)
    requires |input| == 16 && forall k :: 0 <= k < 16 ==> input[k] == 0
    ensures Filled(input, [])
  {
  }

  /** Or-ing a byte into its word puts it behind the buffer. */
  lemma FilledByte(input: seq<nat>, buffer: Message, b: byte, word: nat, offset: nat)
    requires Filled(input, buffer) && |buffer| == 8 * word + offset && offset < 8 && word < 16
    ensures Filled(input[word := Or(input[word], ShiftLeft(b, 8 * offset))], buffer + [b])
  {
    var piece := Piece(buffer, word);
    assert |piece| == offset;
    ValueBound(0x100, piece);
    PowByte(offset);
    OrDisjoint(input[word], b, 8 * offset);
    ValueAppend(0x100, piece, b);
    assert Piece(buffer + [b], word) == piece + [b];
    forall k | 0 <= k < 16 && k != word
      ensures Piece(buffer + [b], k) == Piece(buffer, k)
    {
    }
  }

  /** A whole word behind the buffer. */
  lemma FilledWord(input: seq<nat>, buffer: Message, bytes: Message, word: nat)
    requires Filled(input, buffer) && |buffer| == 8 * word && word < 16 && |bytes| == 8
    ensures Filled(input[word := Value(0x100, bytes)], buffer + bytes)
  {
    assert Piece(buffer + bytes, word) == bytes;
    forall k | 0 <= k < 16 && k != word
      ensures Piece(buffer + bytes, k) == Piece(buffer, k)
    {
    }
  }

  // ---------------------------------------------------------------------
  // The incremental interface
  // ---------------------------------------------------------------------

  class Context {
    const f: Compression
    const hashSize: u64
    const input: array<nat>
    var hash: Chain
    var offset0: nat           // the byte counter, low word
    var offset1: nat           // and high word
    var inputIdx: nat          // the bytes of the input words that are filled
    ghost const start: Chain
    ghost var done: Message    // what was compressed
    ghost var blocks: nat      // and how many blocks that is
    ghost var buffer: Message  // what is in the input words

    /** The compressed part. */
    ghost predicate Behind()
      reads this
    {
      && |done| == 128 * blocks && hash == Whole(f, start, done, blocks)
      && offset0 == Wrap(128 * blocks) && offset1 == High(128 * blocks)
    }

    ghost predicate Valid()
      reads this, input
    {
      Behind() && input.Length == 16 && inputIdx == |buffer| <= 128 && Filled(input[..], buffer)
    }

    /** A block is compressed only when there is more to come. */
    ghost predicate Lazy()
      reads this
    {
      buffer == [] ==> done == []
    }

    ghost function Fed(): Message
      reads this
    {
      done + buffer
    }

    /** A key is fed first, filled up to a block. */
    constructor (f: Compression, hashSize: u64, key: Message)
      requires |key| <= 64
      ensures Valid() && Lazy() && fresh(input) && Fed() == KeyBlock(key)
      ensures this.f == f && this.hashSize == hashSize && start == StartOf(hashSize, |key|)
    {
      this.f, this.hashSize, start := f, hashSize, StartOf(hashSize, |key|);
      hash := StartOf(hashSize, |key|);
      offset0, offset1, inputIdx := 0, 0, 0;
      done, blocks, buffer := [], 0, [];
      input := new nat[16](_ => 0);
      new;
      if |key| > 0 {
        LoadBlock(Pad(key));
      }
    }

    /** Advances the counter by the bytes in the buffer, and compresses it. */
    method Compress(last: bool)
      requires Behind() && input.Length == 16 && inputIdx <= 128
      modifies this`hash, this`offset0, this`offset1
      ensures offset0 == Wrap(128 * blocks + inputIdx) && offset1 == High(128 * blocks + inputIdx)
      ensures hash == f(old(hash), input[..], offset0, offset1, last)
    {
      CounterStep(128 * blocks, inputIdx);
      offset0 := (offset0 + inputIdx) % W64;
      if offset0 < inputIdx {
        offset1 := (offset1 + 1) % W64;
      }
      hash := f(hash, input[..], offset0, offset1, last);
    }

    /** A complete block in the buffer is compressed; what is left in the input is stale. */
    method Flush()
      requires Valid() && inputIdx == 128
      modifies this`hash, this`offset0, this`offset1, this`done, this`blocks, this`buffer, this`inputIdx
      ensures Behind() && inputIdx == 0 && buffer == [] && Fed() == old(Fed())
    {
      Compress(false);
      FilledPadded(input[..], buffer);
      assert Pad(buffer) == buffer;
      ghost var more := done + buffer;
      WholePrefix(f, start, done, buffer, blocks);
      assert more[128 * blocks..128 * (blocks + 1)] == buffer;
      done, blocks, buffer := more, blocks + 1, [];
      inputIdx := 0;
      assert done + [] == done;
    }

    /** Ors a byte into a word of the input. */
    method OrByte(word: nat, offset: nat, b: byte)
      requires Valid() && inputIdx == 8 * word + offset < 128 && offset < 8
      modifies this`inputIdx, this`buffer, input
      ensures Valid() && buffer == old(buffer) + [b] && inputIdx == old(inputIdx) + 1
    {
      FilledByte(input[..], buffer, b, word, offset);
      ghost var words := input[..][word := Or(input[word], ShiftLeft(b, 8 * offset))];
      input[word] := Or(input[word], ShiftLeft(b, 8 * offset));
      assert input[..] == words;
      inputIdx := inputIdx + 1;
      buffer := buffer + [b];
    }

    /** Loads whole words behind those that are there. */
    method LoadWords(bytes: Message, nbWords: nat)
      requires Valid() && inputIdx % 8 == 0 && |bytes| == 8 * nbWords && inputIdx + |bytes| <= 128
      modifies this`inputIdx, this`buffer, input
      ensures Valid() && buffer == old(buffer) + bytes && inputIdx == old(inputIdx) + |bytes|
    {
      ghost var before := buffer;
      var first := inputIdx / 8;
      for i := 0 to nbWords
        invariant Valid() && buffer == before + bytes[..8 * i] && |buffer| == 8 * (first + i)
      {
        FilledWord(input[..], buffer, bytes[8 * i..8 * i + 8], first + i);
        ghost var words := input[..][first + i := Value(0x100, bytes[8 * i..8 * i + 8])];
        input[first + i] := Value(0x100, bytes[8 * i..8 * i + 8]);
        assert input[..] == words;
        buffer := buffer + bytes[8 * i..8 * i + 8];
        inputIdx := inputIdx + 8;
      }
      assert bytes[..8 * nbWords] == bytes;
    }

    /** Bytes of one word, behind those that are there. */
    method OrBytes(bytes: Message)
      requires Valid() && inputIdx % 8 + |bytes| <= 8 && inputIdx + |bytes| <= 128
      modifies this`inputIdx, this`buffer, input
      ensures Valid() && buffer == old(buffer) + bytes
    {
      var (word, offset) := (inputIdx / 8, inputIdx % 8);
      ghost var before := buffer;
      for i := 0 to |bytes|
        invariant Valid() && inputIdx == 8 * word + offset + i && buffer == before + bytes[..i]
      {
        OrByte(word, offset + i, bytes[i]);
      }
      assert bytes[..|bytes|] == bytes;
    }

    /** Fills the current word. */
    method AlignWord(message: Message) returns (rest: Message)
      requires Valid() && Lazy()
      modifies this`inputIdx, this`buffer, input
      ensures Valid() && Lazy() && Fed() + rest == old(Fed()) + message
      ensures rest != [] ==> inputIdx % 8 == 0
    {
      rest := message;
      if inputIdx % 8 != 0 {
        var nbBytes := Min(Gap(inputIdx, 8), |message|);
        GapWord(inputIdx);
        OrBytes(message[..nbBytes]);
        rest := message[nbBytes..];
        assert message == message[..nbBytes] + rest;
      }
    }

    /** Fills the current block with whole words. */
    method AlignBlock(message: Message) returns (rest: Message)
      requires Valid() && Lazy() && (message != [] ==> inputIdx % 8 == 0)
      modifies this`inputIdx, this`buffer, input
      ensures Valid() && Lazy() && Fed() + rest == old(Fed()) + message
      ensures rest != [] ==> inputIdx % 8 == 0 && (inputIdx % 128 == 0 || |rest| < 8)
    {
      rest := message;
      if inputIdx % 128 != 0 && message != [] {
        GapBelow(inputIdx, 128);
        var nbWords := Min(Gap(inputIdx, 128), |message|) / 8;
        LoadWords(message[..8 * nbWords], nbWords);
        rest := message[8 * nbWords..];
        assert message == message[..8 * nbWords] + rest;
      }
    }

    /** Whole blocks of the message; the last of them stays in the buffer. */
    method WholeBlocks(message: Message) returns (rest: Message)
      requires Valid() && Lazy() && (message != [] ==> inputIdx % 8 == 0 && (inputIdx % 128 == 0 || |message| < 8))
      modifies this`hash, this`offset0, this`offset1, this`done, this`blocks, this`buffer, this`inputIdx, input
      ensures Valid() && Lazy() && Fed() + rest == old(Fed()) + message && |rest| < 128
      ensures rest != [] ==> inputIdx % 8 == 0 && (inputIdx % 128 == 0 || |rest| < 8)
    {
      var nbBlocks := |message| / 128;
      for i := 0 to nbBlocks
        invariant Valid() && Lazy() && Fed() == old(Fed()) + message[..128 * i]
        invariant i < nbBlocks ==> inputIdx % 128 == 0
        invariant i > 0 ==> inputIdx == 128
        invariant i == 0 ==> inputIdx == old(inputIdx)
      {
        LoadBlock(message[128 * i..128 * i + 128]);
        assert message[..128 * i] + message[128 * i..128 * i + 128] == message[..128 * (i + 1)];
      }
      rest := message[128 * nbBlocks..];
      assert message == message[..128 * nbBlocks] + rest;
    }

    /** Loads a block, after compressing the one that is there. */
    method LoadBlock(block: Message)
      requires Valid() && inputIdx % 128 == 0 && |block| == 128
      modifies this`hash, this`offset0, this`offset1, this`done, this`blocks, this`buffer, this`inputIdx, input
      ensures Valid() && inputIdx == 128 && Fed() == old(Fed()) + block
    {
      if inputIdx == 128 {
        Flush();
      }
      forall i | 0 <= i < 16 {
        input[i] := Value(0x100, block[8 * i..8 * i + 8]);
      }
      inputIdx := 128;
      buffer := block;
      assert forall k :: 0 <= k < 16 ==> Piece(block, k) == block[8 * k..8 * k + 8];
      assert done + [] == done;
    }

    /** Compresses the block as needed, and clears the input for the next. */
    method MakeRoom()
      requires Valid()
      modifies this`hash, this`offset0, this`offset1, this`done, this`blocks, this`buffer, this`inputIdx, input
      ensures Valid() && Fed() == old(Fed()) && inputIdx == if old(inputIdx) == 128 then 0 else old(inputIdx)
    {
      if inputIdx == 128 {
        Flush();
      }
      if inputIdx == 0 {
        forall i | 0 <= i < 16 {
          input[i] := 0;
        }
        FilledEmpty(input[..]);
      }
    }

    /** What is left of the message, which is less than a block. */
    method Remainder(message: Message)
      requires Valid() && Lazy() && |message| < 128
      requires message != [] ==> inputIdx % 8 == 0 && (inputIdx % 128 == 0 || |message| < 8)
      modifies this`hash, this`offset0, this`offset1, this`done, this`blocks, this`buffer, this`inputIdx, input
      ensures Valid() && Lazy() && Fed() == old(Fed()) + message
    {
      if |message| != 0 {
        MakeRoom();
        var nbWords := |message| / 8;
        LoadWords(message[..8 * nbWords], nbWords);
        OrBytes(message[8 * nbWords..]);
        Regroup(done, old(Fed()), buffer, message, 8 * nbWords);
      } else {
        assert Fed() + message == Fed();
      }
    }

    /** Feeds a part of the message, of any length. */
    method Update(message: Message)
      requires Valid() && Lazy()
      modifies this`hash, this`offset0, this`offset1, this`done, this`blocks, this`buffer, this`inputIdx, input
      ensures Valid() && Lazy() && Fed() == old(Fed()) + message
    {
      if |message| == 0 {
        assert Fed() + message == Fed();
        return;
      }
      var rest := AlignWord(message);
      rest := AlignBlock(rest);
      rest := WholeBlocks(rest);
      Remainder(rest);
    }

    /** The state after everything that was fed, whatever the parts were. */
    method LastBlock()
      requires Valid() && Lazy()
      modifies this`hash, this`offset0, this`offset1
      ensures hash == Digest(f, start, old(Fed()))
    {
      ghost var data := Fed();
      FilledPadded(input[..], buffer);
      WholePrefix(f, start, done, buffer, blocks);
      assert data[128 * blocks..] == buffer;
      assert Before(data) == blocks;
      Compress(true);
    }

    /** Stores the first bytes of the state, as whole words first. */
    method Store(out: array<byte>, size: nat)
      requires size <= 64 && size <= out.Length
      modifies out
      ensures out[..size] == Serialized(hash)[..size] && out[size..] == old(out[size..])
    {
      ghost var (before, bytes) := (out[..], Serialized(hash));
      for i := 0 to 8 * (size / 8)
        invariant out[..i] == bytes[..i] && out[i..] == before[i..]
      {
        out[i] := ByteOf(hash[i / 8], i % 8);
      }
      for i := 8 * (size / 8) to size
        invariant out[..i] == bytes[..i] && out[i..] == before[i..]
      {
        ShiftedByte(hash[i / 8], i % 8);
        out[i] := And(ShiftRight(hash[i / 8], 8 * (i % 8)), 0xff);
      }
    }

    /** The hash of everything that was fed: as many bytes as were asked for, but at most those of the state. */
    method Final(out: array<byte>)
      requires Valid() && Lazy() && Min(hashSize, 64) <= out.Length
      modifies this`hash, this`offset0, this`offset1, out
      ensures var size := Min(hashSize, 64);
              && out[..size] == Serialized(Digest(f, start, old(Fed())))[..size]
              && out[size..] == old(out[size..])
    {
      LastBlock();
      Store(out, Min(hashSize, 64));
    }
  }

  /** The one-shot interface. */
  method Hash(f: Compression, hashSize: u64, key: Message, message: Message, out: array<byte>)
    requires |key| <= 64 && Min(hashSize, 64) <= out.Length
    modifies out
    ensures var size := Min(hashSize, 64);
            && out[..size] == Serialized(Digest(f, StartOf(hashSize, |key|), KeyBlock(key) + message))[..size]
            && out[size..] == old(out[size..])
  {
    var ctx := new Context(f, hashSize, key);
    ctx.Update(message);
    ctx.Final(out);
  }

  lemma GapWord(x: nat)
    requires x % 8 != 0
    ensures Gap(x, 8) == 8 - x % 8
  {
    GapBelow(x % 8, 8);
  }

  lemma Regroup(done: Message, fed: Message, buffer: Message, message: Message, n: nat)
    requires n <= |message| && |fed| >= |done| && fed[..|done|] == done
    requires buffer == fed[|done|..] + message[..n] + message[n..]
    ensures done + buffer == fed + message
  {
    assert message == message[..n] + message[n..];
    assert fed == done + fed[|done|..];
  }

  /** Adding to the low word of the counter, with the carry into the high one. */
  lemma CounterStep(t: nat, y: nat)
    requires y <= 128
    ensures var low := (Wrap(t) + y) % W64;
            && low == Wrap(t + y)
            && High(t + y) == if low < y then (High(t) + 1) % W64 else High(t)
  {
    var w := W64;
    var (q, r) := (t / w, t % w);
    if r + y < w {
      DivUnique(t + y, w, q, r + y);
      DivUnique(r + y, w, 0, r + y);
    } else {
      DivUnique(t + y, w, q + 1, r + y - w);
      DivUnique(r + y, w, 1, r + y - w);
      NextMod(q, w);
    }
  }
}
