// Scalar operations on byte strings built on the limb arithmetic (src/monocypher.c).

module Scalars {
  import opened Words
  import opened BitOps
  import opened ScalarL

  // ---------------------------------------------------------------------
  // Reduction and multiply-add on bytes
  // ---------------------------------------------------------------------

  /** Reduces a 64-byte number modulo L. */
  method Reduce(expanded: seq<byte>) returns (reduced: seq<byte>)
    requires |expanded| == 64
    ensures |reduced| == 32
    ensures Value(0x100, reduced) == Value(0x100, expanded) % LVAL
  {
    var r := new u32[8];
    LoadWordsValue(expanded);
    ModL(r, LoadWords(expanded));
    reduced := StoreWords(r[..]);
    StoreWordsValue(r[..]);
  }

  /** a * b + c modulo L, for any 32-byte a, b and c. */
  method MulAdd(a: seq<byte>, b: seq<byte>, c: seq<byte>) returns (r: seq<byte>)
    requires |a| == |b| == |c| == 32
    ensures |r| == 32
    ensures Value(0x100, r) == (Value(0x100, a) * Value(0x100, b) + Value(0x100, c)) % LVAL
  {
    var p, reduced := new u32[16], new u32[8];
    var words := LoadWords(c);
    forall i | 0 <= i < 16 {
      p[i] := if i < 8 then words[i] else 0;
    }
    assert p[..8] == words;
    Multiply(p, LoadWords(a), LoadWords(b));
    assert p[..16] == p[..];
    ModL(reduced, p[..]);
    r := StoreWords(reduced[..]);
    LoadWordsValue(a);
    LoadWordsValue(b);
    LoadWordsValue(c);
    StoreWordsValue(reduced[..]);
  }

  // ---------------------------------------------------------------------
  // Montgomery form
  // ---------------------------------------------------------------------

  /** x and y agree modulo L. */
  ghost predicate Congruent(x: int, y: int) {
    (x - y) % LVAL == 0
  }

  lemma CongruentBy(x: int, y: int, k: int)
    requires x - y == k * LVAL
    ensures Congruent(x, y)
  {
  }

  lemma CongruentMul(x: int, x': int, y: int, y': int)
    requires Congruent(x, x') && Congruent(y, y')
    ensures Congruent(x * y, x' * y')
  {
    var j, k := (x - x') / LVAL, (y - y') / LVAL;
    calc {
      x * y - x' * y';
      (x - x') * y + x' * (y - y');
      (j * LVAL) * y + x' * (k * LVAL);
      (j * y + x' * k) * LVAL;
    }
    CongruentBy(x * y, x' * y', j * y + x' * k);
  }

  /** 2^256 is invertible modulo L, so it cancels. */
  lemma CancelW(x: int, y: int)
    requires Congruent(x * W256, y * W256)
    ensures Congruent(x, y)
  {
    var inv := (KVAL * LVAL + 1) / W256;
    assert W256 * inv == KVAL * LVAL + 1;
    var k := (x * W256 - y * W256) / LVAL;
    assert (x - y) * W256 == k * LVAL;
    assert (x - y) * (KVAL * LVAL + 1) == k * LVAL * inv;
    CongruentBy(x, y, k * inv - (x - y) * KVAL);
  }

  /** The limbs m hold v * 2^256 modulo L. */
  ghost predicate Montgomery(m: seq<u32>, v: int) {
    |m| == 8 && Value(B, m) < LVAL && Congruent(Value(B, m), v * W256)
  }

  /** Montgomery product of two values in Montgomery form. */
  method MontgomeryMul(r: array<u32>, a: seq<u32>, b: seq<u32>, ghost x: int, ghost y: int, ghost z: int)
    requires r.Length == 8 && Montgomery(a, x) && Montgomery(b, y) && z == x * y
    modifies r
    ensures Montgomery(r[..], z)
  {
    var product := new u32[16];
    Zero(product, 16);
    ValueZeros(B, product[..8]);
    Multiply(product, a, b);
    assert product[..16] == product[..];
    MulLe(Value(B, a), Value(B, b), LVAL - 1, LVAL - 1);
    Redc(r, product[..]);
    ghost var (va, vb, m) := (Value(B, a), Value(B, b), Value(B, r[..]));
    CongruentMul(va, x * W256, vb, y * W256);
    FactorW(x, y);
    SameRemainder(m * W256, va * vb, (x * y * W256) * W256);
    CancelW(m, x * y * W256);
  }

  lemma FactorW(x: int, y: int)
    ensures (x * W256) * (y * W256) == (x * y * W256) * W256
  {
    assert (x * W256) * (y * W256) == x * y * (W256 * W256);
  }

  lemma SameRemainder(m: int, p: int, q: int)
    requires m % LVAL == p % LVAL && Congruent(p, q)
    ensures Congruent(m, q)
  {
    CongruentBy(m, q, m / LVAL - p / LVAL + (p - q) / LVAL);
  }

  // ---------------------------------------------------------------------
  // Exponentiation to L - 2
  // ---------------------------------------------------------------------

  const LM2_WORDS: seq<u32> := [
    0x5cf5d3eb, 0x5812631a, 0xa2f79cd6, 0x14def9de,
    0x00000000, 0x00000000, 0x00000000, 0x10000000
  ]

  /** The bytes of L - 2. */
  const LM2: seq<byte> := StoreWords(LM2_WORDS)

  /** 2^256 modulo L, which stands for 1. */
  const ONE: seq<u32> := [
    0x8d98951d, 0xd6ec3174, 0x737dcf70, 0xc6ef5bf4,
    0xfffffffe, 0xffffffff, 0xffffffff, 0x0fffffff
  ]

  lemma ExponentValue()
    ensures Value(0x100, LM2) == LVAL - 2
  {
    ValueOfEight(LM2_WORDS);
    StoreWordsValue(LM2_WORDS);
  }

  lemma OneInMontgomeryForm()
    ensures Montgomery(ONE, 1)
  {
    ValueOfEight(ONE);
    CongruentBy(Value(B, ONE), W256, (Value(B, ONE) - W256) / LVAL);
  }

  /** x * 2^256 modulo L. */
  method ToMontgomery(m: array<u32>, x: seq<u32>)
    requires m.Length == 8 && |x| == 8
    modifies m
    ensures Montgomery(m[..], Value(B, x))
  {
    var tmp := new u32[16];
    forall i | 0 <= i < 16 {
      tmp[i] := if i < 8 then 0 else x[i - 8];
    }
    ModL(m, tmp[..]);
    assert tmp[..][8..] == x;
    ValueZeros(B, tmp[..][..8]);
    ValueSplit(B, tmp[..], 8);
    Powers();
    var v := Value(B, x) * W256;
    CongruentBy(v % LVAL, v, -(v / LVAL));
  }

  /** v modulo L, from v in Montgomery form. */
  method FromMontgomery(m: array<u32>, ghost v: nat)
    requires m.Length == 8 && Montgomery(m[..], v)
    modifies m
    ensures Value(B, m[..]) == v % LVAL
  {
    var product := new u32[16];
    ghost var before := m[..];
    forall i | 0 <= i < 16 {
      product[i] := if i < 8 then m[i] else 0;
    }
    assert product[..][..8] == before;
    ValueZeros(B, product[..][8..]);
    ValueSplit(B, product[..], 8);
    Redc(m, product[..]);
    SameRemainder(Value(B, m[..]) * W256, Value(B, before), v * W256);
    CancelW(Value(B, m[..]), v);
    ghost var k := (Value(B, m[..]) - v) / LVAL;
    DivUnique(v, LVAL, -k, Value(B, m[..]));
  }

  /** Square and multiply over the low 253 bits of the exponent, from the top. */
  method Exponentiate(m: array<u32>, scl: seq<u32>, exponent: seq<byte>, ghost x: nat)
    requires m.Length == 8 && |exponent| == 32 && Montgomery(scl, x) && Montgomery(m[..], 1)
    modifies m
    ensures Montgomery(m[..], Pow(x, Value(2, Bits(exponent)[..253])))
  {
    ghost var e, bits := 0, Bits(exponent)[..253];
    for i := 253 downto 0
      invariant e == Value(2, bits[i..])
      invariant Montgomery(m[..], Pow(x, e))
    {
      ValueDown(2, bits, i);
      e := SquareMultiply(m, scl, ScalarBit(exponent, i), x, e);
    }
    assert bits[0..] == bits;
  }

  /** scalar to the power L - 2, modulo L, computed in Montgomery form. */
  method Inverse(scalar: seq<byte>) returns (inverse: seq<byte>)
    requires |scalar| == 32
    ensures |inverse| == 32
    ensures Value(0x100, inverse) == Pow(Value(0x100, scalar), LVAL - 2) % LVAL
  {
    ghost var x := Value(0x100, scalar);
    var m := new u32[8];
    LoadWordsValue(scalar);
    ToMontgomery(m, LoadWords(scalar));
    var scl := m[..];
    forall i | 0 <= i < 8 {
      m[i] := ONE[i];
    }
    assert m[..] == ONE;
    OneInMontgomeryForm();
    Exponentiate(m, scl, LM2, x);
    ExponentBits();
    FromMontgomery(m, Pow(x, Value(2, Bits(LM2)[..253])));
    inverse := StoreWords(m[..]);
    StoreWordsValue(m[..]);
  }

  /** From x^e to x^(2 * e + bit), in Montgomery form. */
  method SquareMultiply(m: array<u32>, scl: seq<u32>, bit: nat, ghost x: nat, ghost e: nat) returns (ghost e': nat)
    requires m.Length == 8 && bit <= 1 && Montgomery(scl, x) && Montgomery(m[..], Pow(x, e))
    modifies m
    ensures e' == bit + 2 * e && Montgomery(m[..], Pow(x, e'))
  {
    PowAdd(x, e, e);
    MontgomeryMul(m, m[..], m[..], Pow(x, e), Pow(x, e), Pow(x, e + e));
    if bit == 1 {
      MontgomeryMul(m, m[..], scl, Pow(x, e + e), x, Pow(x, 1 + (e + e)));
    }
    e' := bit + (e + e);
  }

  /** Bits 253 to 255 of L - 2 are zero. */
  lemma ExponentBits()
    ensures Value(2, Bits(LM2)[..253]) == LVAL - 2
  {
    ExponentValue();
    BitsValue(LM2);
    var bits := Bits(LM2);
    var high := Value(2, bits[253..]);
    ValueSplit(2, bits, 253);
    PowAdd(2, 253, 3);
    PowByte(32);
    PowWord(8);
    Powers();
    assert Pow(2, 3) == 8;
    if high > 0 {
      MulLe(Pow(2, 253), 1, Pow(2, 253), high);
    }
  }

  // ---------------------------------------------------------------------
  // Scalars of the curve
  // ---------------------------------------------------------------------

  /** A scalar for multiplying points of the curve. */
  function TrimScalar(s: seq<byte>): (trimmed: seq<byte>)
    requires |s| == 32
    ensures |trimmed| == 32
  {
    TrimmedBytes(s[0], s[31]);
    s[0 := And(s[0], 248)][31 := Or(And(s[31], 127), 64)]
  }

  lemma TrimmedBytes(first: byte, last: byte)
    ensures And(first, 248) == first - first % 8
    ensures Or(And(last, 127), 64) == 64 + last % 64
  {
    FirstByte(first);
    LastByte(last);
  }

  lemma FirstByte(x: nat)
    requires x < 0x100
    ensures And(x, 248) == x - x % 8
  {
    SmallPowers();
    AndAbove(x, 3, 5);
    assert (Pow(2, 5) - 1) * Pow(2, 3) == 248;
    ByteParts(x);
  }

  lemma ByteParts(x: nat)
    requires x < 0x100
    ensures x / 8 % 32 * 8 == x - x % 8
  {
  }

  lemma LastByte(x: nat)
    requires x < 0x100
    ensures Or(And(x, 127), 64) == 64 + x % 64
  {
    SmallPowers();
    AndMask(x, 7);
    OrTop(x % 128, 6);
    SixBits(x);
  }

  lemma SixBits(x: nat)
    ensures x % 128 % 64 == x % 64
  {
  }

  lemma SmallPowers()
    ensures Pow(2, 3) == 8 && Pow(2, 5) == 32 && Pow(2, 6) == 64 && Pow(2, 7) == 128
  {
    assert Pow(2, 3) == 8;
    assert Pow(2, 5) == 2 * (2 * Pow(2, 3));
  }

  const TOP: nat := 0x1_00000000_00000000_00000000_00000000_00000000_00000000_00000000_000000

  lemma PowTop()
    ensures Pow(0x100, 31) == TOP && Pow(0x100, 32) == W256
  {
    PowWord(7);
    PowWord(8);
    Powers();
    assert Pow(0x100, 3) == 0x1_000000;
    PowAdd(0x100, 28, 3);
  }

  /** Trimming clears the three lowest bits and the top one, and sets the one below that. */
  lemma TrimmedValue(s: seq<byte>)
    requires |s| == 32
    ensures Value(0x100, TrimScalar(s)) == 64 * TOP + Value(0x100, s) % (64 * TOP) - Value(0x100, s) % 8
  {
    var (first, last) := (s[0] as int, s[31] as int);
    TrimmedBytes(s[0], s[31]);
    EndsReplaced(s, first - first % 8, 64 + last % 64);
    LowBits(s);
    HighBits(s);
    TrimmedIs(s, first - first % 8, 64 + last % 64);
    TrimAlgebra(Value(0x100, s), Value(0x100, TrimScalar(s)), Value(0x100, s) % (64 * TOP), first, first % 8, last,
                last % 64);
  }

  lemma EndsReplaced(s: seq<nat>, first: nat, last: nat)
    requires |s| == 32
    ensures Value(0x100, s[0 := first][31 := last]) == Value(0x100, s) + (first - s[0]) + (last - s[31]) * TOP
  {
    PowTop();
    ValueUpdate(0x100, s, 0, first);
    ValueUpdate(0x100, s[0 := first], 31, last);
    assert Pow(0x100, 0) == 1;
  }

  lemma TrimmedIs(s: seq<byte>, first: byte, last: byte)
    requires |s| == 32 && first == And(s[0], 248) && last == Or(And(s[31], 127), 64)
    ensures TrimScalar(s) == s[0 := first][31 := last]
  {
  }

  lemma TrimAlgebra(v: int, trimmed: int, high: int, first: int, low: int, last: int, rest: int)
    requires trimmed == v + (first - low - first) + (64 + rest - last) * TOP && high == v - (last - rest) * TOP
    ensures trimmed == 64 * TOP + high - low
  {
  }

  lemma LowBits(s: seq<byte>)
    requires |s| == 32
    ensures Value(0x100, s) % 8 == s[0] % 8
  {
    ValueDown(0x100, s, 0);
    assert s[0..] == s;
    var rest := Value(0x100, s[1..]);
    DivUnique(Value(0x100, s), 8, s[0] as int / 8 + 32 * rest, s[0] as int % 8);
  }

  lemma HighBits(s: seq<byte>)
    requires |s| == 32
    ensures Value(0x100, s) % (64 * TOP) == Value(0x100, s) - (s[31] as int - s[31] as int % 64) * TOP
  {
    PowTop();
    ValueStep(0x100, s, 31);
    assert s[..32] == s;
    ValueBound(0x100, s[..31]);
    var low := Value(0x100, s[..31]);
    DivUnique(Value(0x100, s), 64 * TOP, s[31] as int / 64, low + s[31] as int % 64 * TOP);
  }

  /** Adds a multiple of L, of x modulo 8. */
  method AddXL(s: seq<byte>, x: nat) returns (r: seq<byte>)
    requires |s| == 32 && Value(0x100, s) + x % 8 * LVAL < W256
    ensures |r| == 32 && Value(0x100, r) == Value(0x100, s) + x % 8 * LVAL
  {
    var p := new u32[8];
    var words := LoadWords(s);
    forall i | 0 <= i < 8 {
      p[i] := words[i];
    }
    assert p[..8] == p[..] == words;
    LoadWordsValue(s);
    ConstantValues();
    Powers();
    assert Pow(B, 0) == 1;
    var carry := MultiplyRow(p, 0, x % 8, L);
    assert p[..8] == p[..];
    NoCarry(Value(B, p[..]), carry, Value(0x100, s) + x % 8 * LVAL);
    r := StoreWords(p[..]);
    StoreWordsValue(p[..]);
  }

  lemma NoCarry(v: nat, carry: nat, sum: nat)
    requires v + carry * W256 == sum < W256
    ensures carry == 0
  {
  }

  /** The only multiple of 8 below 8 * L that is a scalar modulo L. */
  ghost predicate Cleared(r: nat, scalar: nat) {
    r < 8 * LVAL && r % 8 == 0 && Congruent(r, scalar)
  }

  lemma OnlyCleared(r: nat, r': nat, scalar: nat)
    requires Cleared(r, scalar) && Cleared(r', scalar)
    ensures r == r'
  {
    var k := (r - scalar) / LVAL - (r' - scalar) / LVAL;
    assert r - r' == k * LVAL;
    assert -8 < k < 8;
    assert k * LVAL == k * 5 + 8 * (k * (LVAL / 8));
    assert k * 5 % 8 == 0;
  }

  /** Clears the cofactor of a scalar: a multiple of 8 that is the same modulo L. */
  method ClearCofactor(s: seq<byte>) returns (r: seq<byte>)
    requires |s| == 32 && Value(0x100, s) < LVAL
    ensures |r| == 32 && Cleared(Value(0x100, r), Value(0x100, s))
  {
    var x := s[0] as int * 3 % 0x100;
    r := AddXL(s, x);
    LowBits(s);
    ClearedValue(Value(0x100, s), s[0], x);
  }

  lemma ClearedValue(v: nat, first: nat, x: nat)
    requires v < LVAL && v % 8 == first % 8 && x == first * 3 % 0x100
    ensures Cleared(v + x % 8 * LVAL, v)
  {
    var y := x % 8;
    CongruentBy(v + y * LVAL, v, y);
    Tripled(v, first, x);
    assert y * LVAL == y * 5 + 8 * (y * (LVAL / 8));
    DivUnique(v + y * LVAL, 8, (v + y * 5) / 8 + y * (LVAL / 8), 0);
  }

  lemma Tripled(v: nat, first: nat, x: nat)
    requires v % 8 == first % 8 && x == first * 3 % 0x100
    ensures (v + x % 8 * 5) % 8 == 0
  {
    var (r, y) := (v % 8, v % 8 * 3 % 8);
    var q := first * 3 / 0x100;
    assert first * 3 == 8 * (first / 8 * 3 + r * 3 / 8) + y;
    DivUnique(x, 8, first / 8 * 3 + r * 3 / 8 - 32 * q, y);
    Sixteenfold(r, y);
    DivUnique(v + y * 5, 8, v / 8 + (r + y * 5) / 8, 0);
  }

  lemma Sixteenfold(r: nat, y: nat)
    requires r < 8 && y == r * 3 % 8
    ensures (r + y * 5) % 8 == 0
  {
  }

  /** The scalar that takes back multiplying by a private key, as a multiple of the cofactor. */
  method InverseScalar(privateKey: seq<byte>) returns (r: seq<byte>)
    requires |privateKey| == 32
    ensures |r| == 32
    ensures Cleared(Value(0x100, r), Pow(Value(0x100, TrimScalar(privateKey)), LVAL - 2) % LVAL)
  {
    var inverse := Inverse(TrimScalar(privateKey));
    r := ClearCofactor(inverse);
  }
}
