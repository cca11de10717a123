// The Poly1305 authenticator (src/monocypher.c, section 2.5 of RFC 8439).

module Poly1305 {
  import opened Words

  /** 2^130 - 5. */
  const P: nat := 0x3_ffffffff_ffffffff_ffffffff_fffffffb

  const W128: nat := 0x1_00000000_00000000_00000000_00000000

  /** Four or five limbs as a number. */
  function Num(x0: int, x1: int, x2: int, x3: int, x4: int): int {
    x0 + 0x1_00000000 * x1 + 0x1_00000000_00000000 * x2 + 0x1_00000000_00000000_00000000 * x3 + W128 * x4
  }

  /** The schoolbook product of s and r, with the limbs from 2^130 up folded back by 5. */
  lemma FoldedProduct(s0: int, s1: int, s2: int, s3: int, s4: int,
                      q0: int, q1: int, q2: int, q3: int, m: int)
    ensures Num(s0, s1, s2, s3, s4) * Num(4 * q0 + m, 4 * q1, 4 * q2, 4 * q3, 0)
         == Num(s0 * (4 * q0 + m) + s1 * (5 * q3) + s2 * (5 * q2) + s3 * (5 * q1) + s4 * (5 * q0),
                s0 * (4 * q1) + s1 * (4 * q0 + m) + s2 * (5 * q3) + s3 * (5 * q2) + s4 * (5 * q1),
                s0 * (4 * q2) + s1 * (4 * q1) + s2 * (4 * q0 + m) + s3 * (5 * q3) + s4 * (5 * q2),
                s0 * (4 * q3) + s1 * (4 * q2) + s2 * (4 * q1) + s3 * (4 * q0 + m) + s4 * (5 * q3),
                s4 * m)
            + P * Num(s1 * q3 + s2 * q2 + s3 * q1 + s4 * q0,
                      s2 * q3 + s3 * q2 + s4 * q1,
                      s3 * q3 + s4 * q2,
                      s4 * q3,
                      0)
  {
  }

  /** The same number modulo P. */
  ghost predicate Congruent(x: int, y: int) {
    x % P == y % P
  }

  const S_MAX: nat := 0x1_fffffffe
  const R_MAX: nat := 0x13fffffb

  /** No column of the product overflows 64 bits. */
  lemma ColumnBound(s0: nat, s1: nat, s2: nat, s3: nat, s4: nat, a0: nat, a1: nat, a2: nat, a3: nat, a4: nat)
    requires s0 <= S_MAX && s1 <= S_MAX && s2 <= S_MAX && s3 <= S_MAX && s4 <= 5
    requires a0 <= R_MAX && a1 <= R_MAX && a2 <= R_MAX && a3 <= R_MAX && a4 <= R_MAX
    ensures 0 <= s0 * a0 + s1 * a1 + s2 * a2 + s3 * a3 + s4 * a4 <= 4 * S_MAX * R_MAX + 5 * R_MAX
  {
    MulLe(s0, a0, S_MAX, R_MAX);
    MulLe(s1, a1, S_MAX, R_MAX);
    MulLe(s2, a2, S_MAX, R_MAX);
    MulLe(s3, a3, S_MAX, R_MAX);
    MulLe(s4, a4, 5, R_MAX);
  }

  /** r with the bits cleared that the algorithm requires. */
  ghost predicate Clamped(r: seq<u32>) {
    && |r| == 4
    && r[0] <= 0x0fffffff
    && forall i :: 1 <= i < 4 ==> r[i] <= 0x0ffffffc && r[i] % 4 == 0
  }

  /** The accumulator stays at most 4_ffffffff_ffffffff_ffffffff_ffffffff. */
  type Hash = h: seq<u32> | |h| == 5 && h[4] <= 4 witness [0, 0, 0, 0, 0]

  type Multiplier = r: seq<u32> | Clamped(r) witness [0, 0, 0, 0]

  type Secret = key: seq<byte> | |key| == 32 witness seq(32, _ => 0)

  ghost function Key(r: Multiplier): int {
    Num(r[0], r[1], r[2], r[3], 0)
  }

  ghost function Acc(h: Hash): int {
    Num(h[0], h[1], h[2], h[3], h[4])
  }

  /** Propagates the carries of the columns x, subtracting a multiple of P. */
  method Carry(x0: u64, x1: u64, x2: u64, x3: u64, x4: u32)
    returns (h: Hash)
    requires x0 <= 4 * S_MAX * R_MAX + 5 * R_MAX && x1 <= 4 * S_MAX * R_MAX + 5 * R_MAX
    requires x2 <= 4 * S_MAX * R_MAX + 5 * R_MAX && x3 <= 4 * S_MAX * R_MAX + 5 * R_MAX
    requires x4 <= 15
    ensures Congruent(Acc(h), Num(x0, x1, x2, x3, x4))
  {
    var u5: u32 := x4 as int + x3 as int / B;
    var folded: u32 := u5 as int / 4 * 5;
    var u0: u64 := folded as int + x0 as int % B;
    var u1: u64 := u0 as int / B + x1 as int % B + x0 as int / B;
    var u2: u64 := u1 as int / B + x2 as int % B + x1 as int / B;
    var u3: u64 := u2 as int / B + x3 as int % B + x2 as int / B;
    var u4: u32 := u3 as int / B + u5 as int % 4;
    h := [u0 % B, u1 % B, u2 % B, u3 % B, u4];
    SameResidue(Acc(h), Num(x0, x1, x2, x3, x4), u5 as int / 4);
  }

  /** The products with the top limb, which are computed in 32 bits. */
  method TopProducts(s4: u32, rr0: u32, rr1: u32, rr2: u32, rr3: u32) returns (p0: u32, p1: u32, p2: u32, p3: u32)
    requires s4 <= 5 && rr0 <= R_MAX && rr1 <= R_MAX && rr2 <= R_MAX && rr3 <= R_MAX
    ensures p0 as int == s4 as int * rr0 as int && p1 as int == s4 as int * rr1 as int
    ensures p2 as int == s4 as int * rr2 as int && p3 as int == s4 as int * rr3 as int
  {
    MulLe(s4, rr0, 5, R_MAX);
    MulLe(s4, rr1, 5, R_MAX);
    MulLe(s4, rr2, 5, R_MAX);
    MulLe(s4, rr3, 5, R_MAX);
    p0, p1, p2, p3 := s4 * rr0, s4 * rr1, s4 * rr2, s4 * rr3;
  }

  /** The columns of s * r, with the limbs from 2^130 up folded back. */
  method Columns(s0: u64, s1: u64, s2: u64, s3: u64, s4: u32, r: Multiplier)
    returns (x0: u64, x1: u64, x2: u64, x3: u64, x4: u32)
    requires s0 <= S_MAX && s1 <= S_MAX && s2 <= S_MAX && s3 <= S_MAX && s4 <= 5
    ensures x0 <= 4 * S_MAX * R_MAX + 5 * R_MAX && x1 <= 4 * S_MAX * R_MAX + 5 * R_MAX
    ensures x2 <= 4 * S_MAX * R_MAX + 5 * R_MAX && x3 <= 4 * S_MAX * R_MAX + 5 * R_MAX
    ensures x4 <= 15
    ensures Congruent(Num(x0, x1, x2, x3, x4), Num(s0, s1, s2, s3, s4) * Key(r))
  {
    var (t0, t1, t2, t3, t4) := (s0 as int, s1 as int, s2 as int, s3 as int, s4 as int);
    var (r0, r1, r2, r3) := (r[0] as int, r[1] as int, r[2] as int, r[3] as int);
    var rr0: u32 := r0 / 4 * 5;  // without the two lowest bits of r0
    var rr1: u32 := r1 / 4 + r1;
    var rr2: u32 := r2 / 4 + r2;
    var rr3: u32 := r3 / 4 + r3;
    var rr4: u32 := r0 % 4;      // and those two
    ColumnBound(t0, t1, t2, t3, t4, r0, rr3, rr2, rr1, rr0);
    ColumnBound(t0, t1, t2, t3, t4, r1, r0, rr3, rr2, rr1);
    ColumnBound(t0, t1, t2, t3, t4, r2, r1, r0, rr3, rr2);
    ColumnBound(t0, t1, t2, t3, t4, r3, r2, r1, r0, rr3);
    MulLe(t4, rr4, 5, 3);
    var p0, p1, p2, p3 := TopProducts(s4, rr0, rr1, rr2, rr3);
    x0 := t0 * r0 + t1 * rr3 + t2 * rr2 + t3 * rr1 + p0 as int;
    x1 := t0 * r1 + t1 * r0 + t2 * rr3 + t3 * rr2 + p1 as int;
    x2 := t0 * r2 + t1 * r1 + t2 * r0 + t3 * rr3 + p2 as int;
    x3 := t0 * r3 + t1 * r2 + t2 * r1 + t3 * r0 + p3 as int;
    x4 := t4 * rr4;
    FoldedProduct(t0, t1, t2, t3, t4, r0 / 4, r1 / 4, r2 / 4, r3 / 4, rr4);
    SameResidue(Num(x0, x1, x2, x3, x4), Num(t0, t1, t2, t3, t4) * Key(r),
                Num(t1 * (r3 / 4) + t2 * (r2 / 4) + t3 * (r1 / 4) + t4 * (r0 / 4),
                    t2 * (r3 / 4) + t3 * (r2 / 4) + t4 * (r1 / 4),
                    t3 * (r3 / 4) + t4 * (r2 / 4),
                    t4 * (r3 / 4),
                    0));
  }

  /** (h + c + end * 2^128) * r, partially reduced modulo P. */
  method MulReduce(h: Hash, c: seq<u32>, end: u32, r: Multiplier) returns (h': Hash)
    requires |c| == 4 && end <= 1
    ensures Congruent(Acc(h'), (Acc(h) + Num(c[0], c[1], c[2], c[3], end)) * Key(r))
  {
    // the limbs are added without carrying between them
    var s0: u64 := h[0] as int + c[0] as int;
    var s1: u64 := h[1] as int + c[1] as int;
    var s2: u64 := h[2] as int + c[2] as int;
    var s3: u64 := h[3] as int + c[3] as int;
    var s4: u32 := h[4] as int + end as int;
    var x0, x1, x2, x3, x4 := Columns(s0, s1, s2, s3, s4, r);
    assert Acc(h) + Num(c[0], c[1], c[2], c[3], end) == Num(s0, s1, s2, s3, s4);
    h' := Carry(x0, x1, x2, x3, x4);
  }

  lemma SameResidue(x: int, y: int, k: int)
    requires y == x + P * k
    ensures Congruent(x, y)
  {
    DivUnique(y, P, x / P + k, x % P);
  }

  // ---------------------------------------------------------------------
  // Section 2.5 of RFC 8439
  // ---------------------------------------------------------------------

  /** Adds the message to the accumulator a, sixteen bytes (with a one byte on top) at a time. */
  ghost function Accumulate(a: int, msg: seq<byte>, r: int): int
    decreases |msg|
  {
    if msg == [] then a
    else if |msg| < 16 then Absorb(a, msg, r)
    else Accumulate(Absorb(a, msg[..16], r), msg[16..], r)
  }

  ghost function Absorb(a: int, block: seq<byte>, r: int): int {
    ((a + Value(0x100, block + [1])) * r) % P
  }

  /** The key's first half with the bits of section 2.5 cleared. */
  function ClampBytes(key: seq<byte>): (r: seq<byte>)
    requires |key| == 16
    ensures |r| == 16
  {
    [
      key[0], key[1], key[2], key[3] % 16,
      key[4] - key[4] % 4, key[5], key[6], key[7] % 16,
      key[8] - key[8] % 4, key[9], key[10], key[11] % 16,
      key[12] - key[12] % 4, key[13], key[14], key[15] % 16
    ]
  }

  /** mac is the authenticator of msg under the 32-byte key. */
  ghost predicate IsMac(mac: seq<byte>, msg: seq<byte>, key: Secret) {
    && |mac| == 16
    && Value(0x100, mac)
       == (Accumulate(0, msg, Value(0x100, ClampBytes(key[..16]))) + Value(0x100, key[16..])) % W128
  }

  lemma {:induction false} AccumulateAppend(a: int, done: seq<byte>, n: nat, more: seq<byte>, r: int)
    requires |done| == 16 * n
    ensures Accumulate(a, done + more, r) == Accumulate(Accumulate(a, done, r), more, r)
    decreases n
  {
    if n == 0 {
      assert done + more == more;
    } else {
      assert (done + more)[..16] == done[..16] && (done + more)[16..] == done[16..] + more;
      AccumulateAppend(Absorb(a, done[..16], r), done[16..], n - 1, more, r);
    }
  }

  // ---------------------------------------------------------------------
  // The incremental interface
  // ---------------------------------------------------------------------


  lemma NumValue(s: seq<nat>)
    requires |s| == 4 || |s| == 5
    ensures Value(B, s) == Num(s[0], s[1], s[2], s[3], if |s| == 5 then s[4] else 0)
  {
    ValueOfFour(B, s[..4]);
    assert s[..4] == if |s| == 4 then s else s[..4];
    if |s| == 5 {
      ValueStep(B, s, 4);
      assert s[..5] == s;
      assert Pow(B, 2) == 0x1_00000000_00000000;
      PowAdd(B, 2, 2);
    }
  }

  lemma BlockNumber(block: seq<byte>, c: seq<u32>)
    requires |block| == 16 && c == LoadWords(block)
    ensures Num(c[0], c[1], c[2], c[3], 0) == Value(0x100, block)
    ensures Num(c[0], c[1], c[2], c[3], 1) == Value(0x100, block + [1])
  {
    NumValue(c);
    LoadWordsValue(block);
    ValueAppend(0x100, block, 1);
    PowWord(4);
    assert Pow(B, 2) == 0x1_00000000_00000000;
    PowAdd(B, 2, 2);
  }

  class Context {
    const c: array<byte>       // the unfinished block
    var cIdx: nat              // the bytes of it that are filled
    var r: Multiplier          // the clamped half of the key
    var pad: seq<u32>          // the other half, added at the very end
    var h: Hash                // the accumulator
    ghost const key: Secret
    ghost var done: seq<byte>  // what of the message is in h
    ghost var blocks: nat      // and how many blocks that is

    ghost predicate Valid()
      reads this, c
    {
      && c.Length == 16 && cIdx <= 16 && |done| == 16 * blocks
      && r == ClampWords(LoadWords(key[..16])) && pad == LoadWords(key[16..])
      && Acc(h) % P == Accumulate(0, done, Key(r))
    }

    /** Everything the context was fed so far. */
    ghost function Message(): seq<byte>
      requires cIdx <= c.Length
      reads this, c
    {
      done + c[..cIdx]
    }

    constructor (key: Secret)
      ensures Valid() && fresh(c) && cIdx < 16
      ensures this.key == key && Message() == []
    {
      this.key := key;
      h := [0, 0, 0, 0, 0];
      c := new byte[16];
      cIdx := 0;
      done, blocks := [], 0;
      r := ClampWords(LoadWords(key[..16]));
      pad := LoadWords(key[16..]);
    }

    /** Adds nbBlocks whole blocks of the input to the hash. */
    method Blocks(input: seq<byte>, nbBlocks: nat, end: u32)
      requires |input| >= 16 * nbBlocks && end <= 1
      modifies this`h
      ensures Acc(h) % P == Fold(old(Acc(h)) % P, input, nbBlocks, end, Key(r))
    {
      for i := 0 to nbBlocks
        invariant Acc(h) % P == Fold(old(Acc(h)) % P, input, i, end, Key(r))
      {
        Block(input[16 * i..16 * i + 16], end);
      }
    }

    method Block(block: seq<byte>, end: u32)
      requires |block| == 16 && end <= 1
      modifies this`h
      ensures Acc(h) % P == ((old(Acc(h)) % P + (Value(0x100, block) + end as int * W128)) * Key(r)) % P
    {
      var words := LoadWords(block);
      ghost var (a, m) := (Acc(h), Num(words[0], words[1], words[2], words[3], end));
      BlockNumber(block, words);
      SplitProduct(a / P, a % P, m, Key(r));
      SameResidue((a % P + m) * Key(r), (a + m) * Key(r), a / P * Key(r));
      h := MulReduce(h, words, end, r);
    }

    /** Whole blocks of the message go straight into the hash. */
    method Consume(input: seq<byte>, nbBlocks: nat)
      requires Valid() && |input| >= 16 * nbBlocks
      modifies this`h, this`done, this`blocks
      ensures Valid() && done == old(done) + input[..16 * nbBlocks]
    {
      ghost var whole := input[..16 * nbBlocks];
      FoldAccumulates(Accumulate(0, done, Key(r)), input, nbBlocks, Key(r));
      AccumulateAppend(0, done, blocks, whole, Key(r));
      Blocks(input, nbBlocks, 1);
      done, blocks := done + whole, blocks + nbBlocks;
    }

    /** Copies bytes behind those that are in the chunk. */
    method Buffer(bytes: seq<byte>)
      requires Valid() && cIdx + |bytes| <= 16
      modifies this`cIdx, c
      ensures Valid() && cIdx == old(cIdx) + |bytes|
      ensures Message() == old(Message()) + bytes
    {
      ghost var before := c[..cIdx];
      for i := 0 to |bytes|
        invariant cIdx == old(cIdx) + i
        invariant c[..cIdx] == before + bytes[..i]
      {
        c[cIdx] := bytes[i];
        cIdx := cIdx + 1;
      }
      assert bytes[..|bytes|] == bytes;
      assert done + (before + bytes) == done + before + bytes;
    }

    /** If the chunk is complete, it goes into the hash. */
    method Flush()
      requires Valid()
      modifies this`cIdx, this`h, this`done, this`blocks
      ensures Valid() && Message() == old(Message())
      ensures cIdx == if old(cIdx) == 16 then 0 else old(cIdx)
    {
      if cIdx == 16 {
        assert c[..][..16 * 1] == c[..16];
        Consume(c[..], 1);
        cIdx := 0;
        assert c[..0] == [];
      }
    }

    /** Fills the chunk up to a block boundary, and processes it when it is complete. */
    method Align(message: seq<byte>) returns (aligned: nat)
      requires Valid() && cIdx < 16
      modifies this`cIdx, this`h, this`done, this`blocks, c
      ensures Valid() && aligned <= |message|
      ensures Message() == old(Message()) + message[..aligned]
      ensures cIdx == 0 || (cIdx < 16 && aligned == |message|)
    {
      GapBelow(cIdx, 16);
      aligned := Min(Gap(cIdx, 16), |message|);
      ghost var fed := Message() + message[..aligned];
      Buffer(message[..aligned]);
      assert Message() == fed;
      Flush();
      assert Message() == fed;
    }

    /** The part of a message behind the alignment: whole blocks, then the remaining bytes. */
    method Rest(message: seq<byte>)
      requires Valid() && (cIdx == 0 || (cIdx < 16 && message == []))
      modifies this`cIdx, this`h, this`done, this`blocks, c
      ensures Valid() && cIdx < 16
      ensures Message() == old(Message()) + message
    {
      var nbBlocks := |message| / 16;
      ghost var before := Message();
      Consume(message, nbBlocks);
      assert Message() == before + message[..16 * nbBlocks];
      Buffer(message[16 * nbBlocks..]);
      assert message == message[..16 * nbBlocks] + message[16 * nbBlocks..];
    }

    method Update(message: seq<byte>)
      requires Valid() && cIdx < 16
      modifies this`cIdx, this`h, this`done, this`blocks, c
      ensures Valid() && cIdx < 16
      ensures Message() == old(Message()) + message
    {
      if |message| == 0 {
        return;
      }
      var aligned := Align(message);
      Rest(message[aligned..]);
      assert message == message[..aligned] + message[aligned..];
    }

    /** Pads the chunk: a one byte at the end of the input, then zeros. */
    method PadChunk()
      requires c.Length == 16 && cIdx < 16
      modifies c
      ensures Value(0x100, c[..]) == Value(0x100, old(c[..cIdx]) + [1])
    {
      for i := cIdx to 16
        invariant c[..cIdx] == old(c[..cIdx]) && forall k :: cIdx <= k < i ==> c[k] == 0
      {
        c[i] := 0;
      }
      c[cIdx] := 1;
      PaddedBlock(old(c[..cIdx]), c[..]);
    }

    /** What is left of the message, if anything, with a one byte directly behind it. */
    method LastBlock()
      requires Valid() && cIdx < 16
      modifies this`h, c
      ensures Acc(h) % P == Accumulate(0, old(Message()), Key(r))
    {
      ghost var tail := c[..cIdx];
      AccumulateAppend(0, done, blocks, tail, Key(r));
      if cIdx != 0 {
        PadChunk();
        Blocks(c[..], 1, 0);
        OneFold(Accumulate(0, done, Key(r)), c[..], Key(r));
      } else {
        assert done + tail == done;
      }
    }

    /** The authenticator of everything the context was fed. */
    method Final() returns (mac: seq<byte>)
      requires Valid() && cIdx < 16
      modifies this`h, c
      ensures IsMac(mac, old(Message()), key)
    {
      LastBlock();
      mac := Finish(h, pad);
      ClampedKey(key[..16]);
      LoadWordsValue(key[16..]);
      NumValue(pad);
    }
  }

  lemma OneFold(a: int, block: seq<byte>, r: int)
    requires |block| == 16
    ensures Fold(a, block, 1, 0, r) == ((a + Value(0x100, block)) * r) % P
  {
    assert block[16 * 0..16 * 1] == block;
    assert Fold(a, block, 0, 0, r) == a;
  }

  lemma PaddedBlock(tail: seq<byte>, block: seq<byte>)
    requires |tail| < 16 == |block| && block[..|tail|] == tail && block[|tail|] == 1
    requires forall k :: |tail| < k < 16 ==> block[k] == 0
    ensures Value(0x100, block) == Value(0x100, tail + [1])
  {
    var n := |tail| + 1;
    ValueSplit(0x100, block, n);
    assert block[..n] == tail + [1];
    ValueZeros(0x100, block[n..]);
  }

  /** The carry out of the low limbs of h + 5. */
  method CarryOut(h: Hash) returns (c: u64, ghost dropped: seq<nat>)
    ensures |dropped| == 4 && Digits(B, dropped) && c <= 1
    ensures Value(B, dropped) + c as int * Pow(B, 4) == 5 + Value(B, h[..4])
  {
    c := 5;
    dropped := [];
    for i := 0 to 4
      invariant |dropped| == i && Digits(B, dropped) && c <= 5 && (i > 0 ==> c <= 1)
      invariant Value(B, dropped) + c as int * Pow(B, i) == 5 + Value(B, h[..i])
    {
      c := c as int + h[i] as int;
      AppendCarry(B, dropped, c, c % B, c / B);
      ValueStep(B, h, i);
      MulDistribute(c as int - h[i] as int, h[i], Pow(B, i));
      dropped := dropped + [c % B];
      c := c as int / B;
    }
  }

  /** The low limbs of h + pad + first. */
  method AddPad(h: Hash, pad: seq<u32>, first: u64) returns (out: seq<u32>, ghost carry: nat)
    requires |pad| == 4 && first <= 5
    ensures |out| == 4 && Value(B, out) + carry * Pow(B, 4) == Value(B, h[..4]) + Value(B, pad[..4]) + first
  {
    var c: u64 := first;
    out := [];
    for i := 0 to 4
      invariant |out| == i && c <= 5
      invariant Value(B, out) + c as int * Pow(B, i) == Value(B, h[..i]) + Value(B, pad[..i]) + first
    {
      c := c as int + h[i] as int + pad[i] as int;
      AppendCarry(B, out, c, c % B, c / B);
      ValueStep(B, h, i);
      ValueStep(B, pad, i);
      ColumnDistribute(c as int - h[i] as int - pad[i] as int, h[i], pad[i], Pow(B, i));
      out := out + [c % B];
      c := c as int / B;
    }
    carry := c;
  }

  /**
    The accumulator, fully reduced, plus the pad, in four limbs. P is taken off as often as 2^130 fits in h + 5; the
    low limbs show that by a multiple of 5 that is added to them.
   */
  method Finish(h: Hash, pad: seq<u32>) returns (mac: seq<byte>)
    requires |pad| == 4
    ensures |mac| == 16
    ensures Value(0x100, mac) == (Acc(h) % P + Num(pad[0], pad[1], pad[2], pad[3], 0)) % W128
  {
    var c, dropped := CarryOut(h);
    var times: u64 := (c as int + h[4] as int) / 4;
    var out, carry := AddPad(h, pad, times as int * 5);
    mac := StoreWords(out);
    StoreWordsValue(out);
    FinishValue(h, pad, dropped, c, times, out, carry);
  }

  lemma ColumnDistribute(x: int, y: int, z: int, p: int)
    ensures (x + y + z) * p == x * p + y * p + z * p
  {
    MulDistribute(x + y, z, p);
    MulDistribute(x, y, p);
  }

  lemma FinishValue(h: Hash, pad: seq<u32>, dropped: seq<nat>, carry: nat, times: nat, out: seq<u32>, c: nat)
    requires |pad| == |dropped| == |out| == 4 && Digits(B, dropped)
    requires Value(B, dropped) + carry * Pow(B, 4) == 5 + Value(B, h[..4])
    requires times == (carry + h[4]) / 4
    requires Value(B, out) + c * Pow(B, 4) == Value(B, h[..4]) + Value(B, pad[..4]) + 5 * times
    ensures Value(B, out) == (Acc(h) % P + Num(pad[0], pad[1], pad[2], pad[3], 0)) % W128
  {
    assert Pow(B, 2) == 0x1_00000000_00000000;
    PowAdd(B, 2, 2);
    ValueBound(B, dropped);
    ValueBound(B, out);
    ValueBound(B, h[..4]);
    NumValue(h[..4]);
    NumValue(pad);
    assert pad[..4] == pad;
    FinishArithmetic(Value(B, h[..4]), h[4], Value(B, pad), Value(B, dropped), carry, times, Value(B, out), c);
    assert Acc(h) == Value(B, h[..4]) + W128 * h[4];
  }

  lemma FinishArithmetic(v: nat, h4: nat, pad: nat, dropped: nat, carry: nat, times: nat, out: nat, c: nat)
    requires v < W128 && h4 <= 4 && dropped < W128 && out < W128
    requires dropped + carry * W128 == 5 + v
    requires times == (carry + h4) / 4
    requires out + c * W128 == v + pad + 5 * times
    ensures out == ((v + W128 * h4) % P + pad) % W128
  {
    DivUnique(v + W128 * h4, P, times, v + W128 * h4 - P * times);
    DivUnique((v + W128 * h4) % P + pad, W128, c + h4 - 4 * times, out);
  }

  /** The one-shot interface. */
  method Authenticate(message: seq<byte>, key: Secret) returns (mac: seq<byte>)
    ensures IsMac(mac, message, key)
  {
    var ctx := new Context(key);
    ctx.Update(message);
    assert [] + message == message;
    mac := ctx.Final();
  }

  /** n blocks of the input added to a, each with end * 2^128 on top. */
  ghost function Fold(a: int, input: seq<byte>, n: nat, end: nat, r: int): int
    requires |input| >= 16 * n
  {
    if n == 0 then a
    else ((Fold(a, input, n - 1, end, r) + (Value(0x100, input[16 * (n - 1)..16 * n]) + end * W128)) * r) % P
  }

  /** With the one byte on top, folding whole blocks is accumulating them. */
  lemma {:induction false} FoldAccumulates(a: int, input: seq<byte>, n: nat, r: int)
    requires |input| >= 16 * n
    ensures Fold(a, input, n, 1, r) == Accumulate(a, input[..16 * n], r)
  {
    if n > 0 {
      FoldAccumulates(a, input, n - 1, r);
      var block := input[16 * (n - 1)..16 * n];
      AccumulateAppend(a, input[..16 * (n - 1)], n - 1, block, r);
      assert input[..16 * (n - 1)] + block == input[..16 * n];
      AccumulateBlock(Accumulate(a, input[..16 * (n - 1)], r), block, r);
    }
  }

  lemma AccumulateBlock(a: int, block: seq<byte>, r: int)
    requires |block| == 16
    ensures Accumulate(a, block, r) == ((a + (Value(0x100, block) + 1 * W128)) * r) % P
  {
    assert block[..16] == block && block[16..] == [];
    BlockNumber(block, LoadWords(block));
  }

  lemma SplitProduct(q: int, m: int, c: int, r: int)
    ensures (P * q + m + c) * r == (m + c) * r + P * (q * r)
  {
  }

  /** The words of the key's first half with some of their bits cleared. */
  function ClampWords(w: seq<u32>): Multiplier
    requires |w| == 4
  {
    [
      w[0] % 0x1000_0000,
      w[1] % 0x1000_0000 - w[1] % 4,
      w[2] % 0x1000_0000 - w[2] % 4,
      w[3] % 0x1000_0000 - w[3] % 4
    ]
  }

  lemma ClampedKey(key: seq<byte>)
    requires |key| == 16
    ensures Key(ClampWords(LoadWords(key))) == Value(0x100, ClampBytes(key))
  {
    var w, r := LoadWords(key), LoadWords(ClampBytes(key));
    assert |w| == 4 && |r| == 4;
    ClampedWord(key, w, r, 0);
    ClampedWord(key, w, r, 1);
    ClampedWord(key, w, r, 2);
    ClampedWord(key, w, r, 3);
    assert r == ClampWords(w);
    LoadWordsValue(ClampBytes(key));
    NumValue(r);
  }

  lemma ClampedWord(key: seq<byte>, w: seq<u32>, r: seq<u32>, k: nat)
    requires |key| == 16 && k < 4 && w == LoadWords(key) && r == LoadWords(ClampBytes(key))
    ensures r[k] == ClampWords(w)[k]
  {
    var i := 4 * k;
    var b := ClampBytes(key);
    LoadWordsAt(key, k);
    LoadWordsAt(b, k);
    ClampedDigits(key[i], key[i + 1], key[i + 2], key[i + 3]);
    ClampedBytes(key, k);
  }

  lemma ClampedBytes(key: seq<byte>, k: nat)
    requires |key| == 16 && k < 4
    ensures ClampBytes(key)[4 * k] == if k == 0 then key[4 * k] else key[4 * k] - key[4 * k] % 4
    ensures ClampBytes(key)[4 * k + 1] == key[4 * k + 1] && ClampBytes(key)[4 * k + 2] == key[4 * k + 2]
    ensures ClampBytes(key)[4 * k + 3] == key[4 * k + 3] % 16
  {
  }

  lemma ClampedDigits(b0: byte, b1: byte, b2: byte, b3: byte)
    ensures var w := Load32([b0, b1, b2, b3]) as int;
            && w % 4 == b0 % 4
            && w % 0x1000_0000 == Load32([b0, b1, b2, b3 % 16])
            && w % 0x1000_0000 - w % 4 == Load32([b0 - b0 % 4, b1, b2, b3 % 16])
  {
    var w := Load32([b0, b1, b2, b3]) as int;
    DivUnique(w, 0x1000_0000, b3 as int / 16, Load32([b0, b1, b2, b3 % 16]));
  }
}
