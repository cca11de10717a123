// Arithmetic modulo the group order L on 32-bit limbs (src/monocypher.c).

module ScalarL {
  import opened Words

  const LVAL: nat := 0x10000000_00000000_00000000_00000000_14def9de_a2f79cd6_5812631a_5cf5d3ed
  const RVAL: nat := 0xf_ffffffff_ffffffff_ffffffff_ffffffeb_2106215d_086329a7_ed9ce5a3_0a2c131b
  const KVAL: nat := 0x9db6c6f2_6fe91836_14e75438_ffa36bea_b1a206f2_fdba84ff_d2b51da3_12547e1b

  const L: seq<u32> := [
    0x5cf5d3ed, 0x5812631a, 0xa2f79cd6, 0x14def9de,
    0x00000000, 0x00000000, 0x00000000, 0x10000000
  ]
  const R: seq<u32> := [
    0x0a2c131b, 0xed9ce5a3, 0x086329a7, 0x2106215d,
    0xffffffeb, 0xffffffff, 0xffffffff, 0xffffffff, 0xf
  ]
  const K: seq<u32> := [
    0x12547e1b, 0xd2b51da3, 0xfdba84ff, 0xb1a206f2,
    0xffa36bea, 0x14e75438, 0x6fe91836, 0x9db6c6f2
  ]

  const W256: nat := 0x1_00000000_00000000_00000000_00000000_00000000_00000000_00000000_00000000

  lemma Powers()
    ensures Pow(B, 2) == 0x1_00000000_00000000
    ensures Pow(B, 3) == 0x1_00000000_00000000_00000000
    ensures Pow(B, 4) == 0x1_00000000_00000000_00000000_00000000
    ensures Pow(B, 5) == 0x1_00000000_00000000_00000000_00000000_00000000
    ensures Pow(B, 6) == 0x1_00000000_00000000_00000000_00000000_00000000_00000000
    ensures Pow(B, 7) == 0x1_00000000_00000000_00000000_00000000_00000000_00000000_00000000
    ensures Pow(B, 8) == 0x1_00000000_00000000_00000000_00000000_00000000_00000000_00000000_00000000
    ensures Pow(B, 16) == W256 * W256
  {
    assert Pow(B, 1) == B;
    PowAdd(B, 8, 8);
  }

  /** L is the order that section 5.1 of RFC 8032 gives, 2^252 + 27742317777372353535851937790883648493. */
  lemma GroupOrder()
    ensures LVAL == 0x1000_0000 * Pow(B, 7) + 27742317777372353535851937790883648493
  {
    Powers();
  }

  lemma ValueOfEight(s: seq<nat>)
    requires |s| == 8
    ensures Value(B, s) == s[0] + s[1] * 0x1_00000000 + s[2] * 0x1_00000000_00000000
                           + s[3] * 0x1_00000000_00000000_00000000
                           + s[4] * 0x1_00000000_00000000_00000000_00000000
                           + s[5] * 0x1_00000000_00000000_00000000_00000000_00000000
                           + s[6] * 0x1_00000000_00000000_00000000_00000000_00000000_00000000
                           + s[7] * 0x1_00000000_00000000_00000000_00000000_00000000_00000000_00000000
  {
    Powers();
    forall k | 0 <= k < 8
      ensures Value(B, s[..k + 1]) == Value(B, s[..k]) + s[k] * Pow(B, k)
    {
      ValueStep(B, s, k);
    }
    assert s[..8] == s && s[..0] == [];
    assert Value(B, s[..1]) == s[0] * Pow(B, 0);
    assert Value(B, s[..2]) == Value(B, s[..1]) + s[1] * Pow(B, 1);
    assert Value(B, s[..3]) == Value(B, s[..2]) + s[2] * Pow(B, 2);
    assert Value(B, s[..4]) == Value(B, s[..3]) + s[3] * Pow(B, 3);
    assert Value(B, s[..5]) == Value(B, s[..4]) + s[4] * Pow(B, 4);
    assert Value(B, s[..6]) == Value(B, s[..5]) + s[5] * Pow(B, 5);
    assert Value(B, s[..7]) == Value(B, s[..6]) + s[6] * Pow(B, 6);
  }

  lemma {:induction false} ConstantValues()
    ensures Value(B, L) == LVAL && Value(B, R) == RVAL && Value(B, K) == KVAL
  {
    ValueOfEight(L);
    ValueOfEight(K);
    ValueOfEight(R[..8]);
    Powers();
    ValueStep(B, R, 8);
    assert R[..9] == R;
  }

  // ---------------------------------------------------------------------
  // Carry chains
  // ---------------------------------------------------------------------

  /** One multiply-accumulate into limb k: the limb kept and the carry out, neither of which overflows. */
  method MulAdd(limb: u32, x: u32, y: u32, carry: u32) returns (v: u32, carry': u32)
    ensures limb as int + x as int * y as int + carry as int == v as int + carry' as int * B
  {
    assert x as int * y as int <= (B - 1) * (B - 1) by {
      MulLe(x, y, B - 1, B - 1);
    }
    var sum: u64 := carry as int + (limb as int + x as int * y as int);
    v := sum % B;
    carry' := sum / B;
  }

  /** Adds x * b to p at limb i, and hands back the carry that falls off the top. */
  method MultiplyRow(p: array<u32>, i: nat, x: u32, b: seq<u32>) returns (carry: u32)
    requires i + |b| <= p.Length
    modifies p
    ensures Value(B, p[..i + |b|]) + carry as int * Pow(B, i + |b|)
         == old(Value(B, p[..i + |b|])) + x as int * Value(B, b) * Pow(B, i)
    ensures p[i + |b|..] == old(p[i + |b|..])
  {
    ghost var s := p[..i + |b|];
    carry := 0;
    for j := 0 to |b|
      invariant p[i + |b|..] == old(p[i + |b|..])
      invariant s == p[..i + |b|]
      invariant Value(B, s) + carry as int * Pow(B, i + j)
             == old(Value(B, p[..i + |b|])) + x as int * Value(B, b[..j]) * Pow(B, i)
    {
      ghost var c := carry;
      var v;
      v, carry := MulAdd(p[i + j], x, b[j], carry);
      RowStep(s, i, j, x, b, c, v, carry);
      s := s[i + j := v];
      p[i + j] := v;
    }
    assert b[..|b|] == b;
  }

  /** Adds x * b to p at limb i, and stores the carry in the limb above, whatever was there. */
  method FullRow(p: array<u32>, i: nat, x: u32, b: seq<u32>)
    requires i + |b| < p.Length
    modifies p
    ensures Value(B, p[..i + 1 + |b|]) == old(Value(B, p[..i + |b|])) + x as int * Value(B, b) * Pow(B, i)
    ensures p[i + 1 + |b|..] == old(p[i + 1 + |b|..])
  {
    ghost var above := p[i + |b|..][1..];
    assert p[i + 1 + |b|..] == above;
    var carry := MultiplyRow(p, i, x, b);
    ghost var s := p[..i + |b|];
    assert p[i + |b|..][1..] == above;
    p[i + |b|] := carry;
    ValueAppend(B, s, carry);
    assert p[..i + 1 + |b|] == s + [carry];
    assert p[i + 1 + |b|..] == above;
  }

  /** p[..|a|+|b|] becomes a * b plus the low |b| limbs of p. */
  method Multiply(p: array<u32>, a: seq<u32>, b: seq<u32>)
    requires |a| + |b| <= p.Length
    modifies p
    ensures Value(B, p[..|a| + |b|]) == old(Value(B, p[..|b|])) + Value(B, a) * Value(B, b)
    ensures p[|a| + |b|..] == old(p[|a| + |b|..])
  {
    for i := 0 to |a|
      invariant Value(B, p[..i + |b|]) == old(Value(B, p[..|b|])) + Value(B, a[..i]) * Value(B, b)
      invariant p[|a| + |b|..] == old(p[|a| + |b|..])
    {
      FullRow(p, i, a[i], b);
      ValueStep(B, a, i);
      RowAlgebra(Value(B, a[..i]), a[i], Value(B, b), Pow(B, i));
    }
    assert a[..|a|] == a;
  }

  lemma RowStep(s: seq<nat>, i: nat, j: nat, x: nat, b: seq<nat>, carry: nat, v: nat, carry': nat)
    requires i + j < |s| && j < |b|
    requires s[i + j] + x * b[j] + carry == v + carry' * B
    ensures Value(B, s[i + j := v]) + carry' * Pow(B, i + j + 1) + x * Value(B, b[..j]) * Pow(B, i)
         == Value(B, s) + carry * Pow(B, i + j) + x * Value(B, b[..j + 1]) * Pow(B, i)
  {
    CarryStep(B, s, i + j, x * b[j], carry, v, carry');
    ValueStep(B, b, j);
    PowAdd(B, j, i);
    RowStepAlgebra(x, b[j], carry, Value(B, b[..j]), Pow(B, j), Pow(B, i));
  }

  lemma RowStepAlgebra(x: int, y: int, c: int, v: int, pj: int, pi: int)
    ensures (x * y + c) * (pj * pi) + x * v * pi == c * (pj * pi) + x * (v + y * pj) * pi
  {
    MulDistribute(x * y, c, pj * pi);
    calc {
      x * (v + y * pj) * pi;
      (x * v + x * (y * pj)) * pi;
      x * v * pi + x * (y * pj) * pi;
      { MulAssoc(x, y, pj); MulAssoc(x * y, pj, pi); }
      x * v * pi + x * y * (pj * pi);
    }
  }

  lemma RowAlgebra(v: int, x: int, w: int, p: int)
    ensures v * w + x * w * p == (v + x * p) * w
  {
  }

  /** The low eight limbs of p become p + a * b modulo 2^256; the limbs above are kept. */
  method MultiplyLow(p: array<u32>, a: seq<u32>, b: seq<u32>)
    requires |a| == |b| == 8 <= p.Length
    modifies p
    ensures Value(B, p[..8]) == (old(Value(B, p[..8])) + Value(B, a) * Value(B, b)) % W256
    ensures p[8..] == old(p[8..])
  {
    ghost var p0, v, lost: nat := Value(B, p[..8]), Value(B, p[..8]), 0;
    for i := 0 to 8
      invariant v == Value(B, p[..8])
      invariant v + lost * Pow(B, 8) == p0 + Value(B, a[..i]) * Value(B, b)
      invariant p[8..] == old(p[8..])
    {
      assert i + |b[..8 - i]| == 8;
      var carry := MultiplyRow(p, i, a[i], b[..8 - i]);
      v, lost := LowRow(p0, v, lost, i, a, b, Value(B, p[..8]), carry);
    }
    assert a[..8] == a;
    Powers();
    ValueBound(B, p[..8]);
    DivUnique(p0 + Value(B, a) * Value(B, b), W256, lost, v);
  }

  /** A truncated row loses a multiple of 2^256 only. */
  lemma LowRow(p0: nat, v: nat, lost: nat, i: nat, a: seq<nat>, b: seq<nat>, v': nat, carry: nat)
    returns (vOut: nat, lost': nat)
    requires i < 8 == |a| == |b|
    requires v + lost * Pow(B, 8) == p0 + Value(B, a[..i]) * Value(B, b)
    requires v' + carry * Pow(B, 8) == v + a[i] * Value(B, b[..8 - i]) * Pow(B, i)
    ensures vOut == v' && v' + lost' * Pow(B, 8) == p0 + Value(B, a[..i + 1]) * Value(B, b)
  {
    var high := Value(B, b[8 - i..]);
    ValueSplit(B, b, 8 - i);
    PowAdd(B, i, 8 - i);
    ValueStep(B, a, i);
    LowAlgebra(Value(B, a[..i]), a[i], Value(B, b[..8 - i]), high, Pow(B, i), Pow(B, 8 - i), lost, carry);
    vOut, lost' := v', lost + carry + a[i] * high;
  }

  lemma LowAlgebra(v: int, x: int, low: int, high: int, pi: int, rest: int, lost: int, carry: int)
    ensures v * (low + rest * high) + x * low * pi + (x * high) * (pi * rest)
         == (v + x * pi) * (low + rest * high)
    ensures (lost + carry + x * high) * (pi * rest)
         == lost * (pi * rest) + carry * (pi * rest) + (x * high) * (pi * rest)
  {
    MulDistribute(lost + carry, x * high, pi * rest);
    MulDistribute(lost, carry, pi * rest);
    MulDistribute(v, x * pi, low + rest * high);
    calc {
      x * pi * (low + rest * high);
      x * pi * low + x * pi * (rest * high);
      { HighAlgebra(x, high, pi, rest); }
      x * low * pi + (x * high) * (pi * rest);
    }
  }

  lemma HighAlgebra(x: int, high: int, pi: int, rest: int)
    ensures x * pi * (rest * high) == (x * high) * (pi * rest)
  {
  }

  // ---------------------------------------------------------------------
  // Two's complement subtraction
  // ---------------------------------------------------------------------

  /** One limb of x - y (complement y, add): the limb kept and the carry out. */
  method SubLimb(x: u32, y: u32, carry: u32) returns (v: u32, carry': u32)
    requires carry <= 1
    ensures carry' <= 1
    ensures v as int + carry' as int * B == x as int + (B - 1 - y as int) + carry as int
  {
    var sum: u64 := carry as int + x as int + (B - 1 - y as int);
    v, carry' := sum % B, sum / B;
  }

  /** low is x - y modulo B^i, and carry tells whether there was no borrow. */
  ghost predicate Subtracted(x: seq<nat>, y: seq<nat>, i: nat, low: nat, carry: nat)
    requires i <= |x| && i <= |y|
  {
    && low < Pow(B, i)
    && low + carry * Pow(B, i) == Value(B, x[..i]) + Pow(B, i) - Value(B, y[..i])
  }

  lemma SubStep(x: seq<nat>, y: seq<nat>, i: nat, low: nat, carry: nat, v: nat, carry': nat) returns (low': nat)
    requires i < |x| && i < |y| && v < B
    requires Subtracted(x, y, i, low, carry)
    requires v + carry' * B == x[i] + (B - 1 - y[i]) + carry
    ensures low' == low + v * Pow(B, i) && Subtracted(x, y, i + 1, low', carry')
  {
    ValueStep(B, x, i);
    ValueStep(B, y, i);
    var p := Pow(B, i);
    SubAlgebra(p, x[i], y[i], carry, v, carry');
    MulLe(v, p, B - 1, p);
    MulDistribute(B - 1, 1, p);
    low' := low + v * p;
  }

  lemma SubAlgebra(p: int, x: int, y: int, carry: int, v: int, carry': int)
    requires v + carry' * B == x + (B - 1 - y) + carry
    ensures v * p + carry' * (B * p) == x * p + B * p - p - y * p + carry * p
  {
    MulAssoc(carry', B, p);
    MulDistribute(v, carry' * B, p);
    MulDistribute(x + (B - 1 - y), carry, p);
    MulDistribute(x, B - 1 - y, p);
  }

  lemma SubtractedL(x: seq<u32>, low: nat, carry: nat)
    requires |x| == 8 && carry <= 1 && Subtracted(x, L, 8, low, carry)
    ensures low + carry * W256 == Value(B, x) + W256 - LVAL
    ensures (carry == 1) == (Value(B, x) >= LVAL)
  {
    Powers();
    ConstantValues();
    assert x[..8] == x && L[..8] == L;
  }

  /** 1 exactly when x is at least L. */
  method IsAboveL(x: seq<u32>) returns (r: u32)
    requires |x| == 8
    ensures r == if Value(B, x) >= LVAL then 1 else 0
  {
    r := 1;
    ghost var low: nat := 0;
    assert Subtracted(x, L, 0, 0, 1);
    for i := 0 to 8
      invariant r <= 1 && Subtracted(x, L, i, low, r)
    {
      var v, next := SubLimb(x[i], L[i], r);
      low := SubStep(x, L, i, low, r, v, next);
      r := next;
    }
    SubtractedL(x, low, r);
  }

  /** Removes L once if it fits. */
  method RemoveL(r: array<u32>, x: seq<u32>)
    requires |x| == 8 <= r.Length
    modifies r
    ensures Value(B, r[..8]) == if Value(B, x) >= LVAL then Value(B, x) - LVAL else Value(B, x)
    ensures r[8..] == old(r[8..])
  {
    var carry: u32 := IsAboveL(x);
    var mask := (B - carry) % B;  // all ones or all zeros
    assert Subtracted(x, L, 0, 0, 1);
    for i := 0 to 8
      invariant carry <= 1 && r[8..] == old(r[8..])
      invariant mask != 0 ==> Subtracted(x, L, i, Value(B, r[..i]), carry)
      invariant mask == 0 ==> carry == 0 && r[..i] == x[..i]
    {
      ghost var c, s := carry, r[..i];
      var masked: u32 := if mask == 0 then 0 else B - 1 - L[i];
      var sum: u64 := carry as int + x[i] as int + masked as int;
      var v: u32;
      v, carry := sum % B, sum / B;
      r[i] := v;
      assert r[..i + 1] == s + [v];
      ValueAppend(B, s, v);
      if mask != 0 {
        var low := SubStep(x, L, i, Value(B, s), c, v, carry);
      }
    }
    assert x[..8] == x;
    if mask != 0 {
      SubtractedL(x, Value(B, r[..8]), carry);
    }
  }

  // ---------------------------------------------------------------------
  // Barrett reduction
  // ---------------------------------------------------------------------

  /** The quotient estimate x * r / w, with r = w / m, is short by less than two. */
  lemma Barrett(x: nat, m: nat, w: nat, r: nat, e: nat, q: nat, f: nat)
    requires 0 < m && x < w && w == r * m + e && e < m
    requires x * r == q * w + f && f < w
    ensures 0 <= x - q * m < 2 * m
  {
    BarrettIdentity(x, m, w, r, e, q, f);
    MulLe(x, e, w - 1, m);
    MulLe(f, m, w - 1, m);
    MulDistribute(w, -1, m);
    BarrettBound(w, x - q * m, m, x * e + f * m);
  }

  lemma BarrettIdentity(x: int, m: int, w: int, r: int, e: int, q: int, f: int)
    requires w == r * m + e && x * r == q * w + f
    ensures w * (x - q * m) == x * e + f * m
  {
    calc {
      w * (x - q * m);
      { BarrettAlgebra(w, x, q, m); }
      x * w - (q * w) * m;
      { assert x * w == x * (r * m) + x * e; MulAssoc(x, r, m); }
      (x * r) * m + x * e - (q * w) * m;
      { MulDistribute(q * w, f, m); }
      x * e + f * m;
    }
  }

  lemma BarrettBound(w: int, d: int, m: int, total: int)
    requires 0 < w && 0 < m && w * d == total && 0 <= total < 2 * (w * m)
    ensures 0 <= d < 2 * m
  {
    if d < 0 {
      MulPositive(w, -d);
    } else if d >= 2 * m {
      MulLe(w, 2 * m, w, d);
    }
  }

  lemma BarrettAlgebra(w: int, x: int, q: int, m: int)
    ensures w * (x - q * m) == x * w - (q * w) * m
  {
    MulAssoc(w, q, m);
    assert w * (q * m) == (q * w) * m;
  }

  method Zero(p: array<u32>, n: nat)
    requires n <= p.Length
    modifies p
    ensures forall i :: 0 <= i < n ==> p[i] == 0
    ensures p[n..] == old(p[n..])
  {
    for i := 0 to n
      invariant forall k :: 0 <= k < i ==> p[k] == 0
      invariant p[n..] == old(p[n..])
    {
      p[i] := 0;
    }
  }

  /** p becomes x - p modulo 2^256, in place, over the low eight limbs. */
  method SubtractFrom(p: array<u32>, x: seq<u32>) returns (carry: u32)
    requires 8 <= p.Length && 8 <= |x|
    modifies p
    ensures Subtracted(x, old(p[..8]), 8, Value(B, p[..8]), carry)
  {
    ghost var y := p[..8];
    carry := 1;
    for i := 0 to 8
      invariant forall k :: i <= k < 8 ==> p[k] == y[k]
      invariant carry <= 1 && Subtracted(x, y, i, Value(B, p[..i]), carry)
    {
      ghost var s, c := p[..i], carry;
      var v;
      v, carry := SubLimb(x[i], p[i], carry);
      ghost var low := SubStep(x, y, i, Value(B, s), c, v, carry);
      p[i] := v;
      assert p[..i + 1] == s + [v];
      ValueAppend(B, s, v);
    }
  }

  /** xr[16..24] holds floor(x * R / 2^512), up to a multiple of 2^256. */
  method BarrettQuotient(xr: array<u32>, x: seq<u32>) returns (ghost q: nat, ghost q9: nat)
    requires xr.Length == 25 && |x| == 16
    modifies xr
    ensures q == Value(B, xr[16..24]) + W256 * q9
    ensures 0 <= Value(B, x) - q * LVAL < 2 * LVAL
  {
    Zero(xr, 25);
    ValueZeros(B, xr[..16]);
    Multiply(xr, R, x);
    assert xr[..25] == xr[..];
    q, q9 := QuotientParts(xr[..], x);
    assert xr[..][16..24] == xr[16..24];
  }

  lemma QuotientParts(s: seq<u32>, x: seq<u32>) returns (q: nat, q9: nat)
    requires |s| == 25 && |x| == 16
    requires Value(B, s) == Value(B, R) * Value(B, x)
    ensures q == Value(B, s[16..24]) + W256 * q9
    ensures 0 <= Value(B, x) - q * LVAL < 2 * LVAL
  {
    var high := s[16..];
    q, q9 := Value(B, high), Value(B, high[8..]);
    ValueSplit(B, s, 16);
    ValueSplit(B, high, 8);
    assert high[..8] == s[16..24];
    ValueBound(B, s[..16]);
    ValueBound(B, x);
    Powers();
    ConstantValues();
    Barrett(Value(B, x), LVAL, W256 * W256, RVAL, W256 * W256 - RVAL * LVAL, q, Value(B, s[..16]));
  }

  /** The remainder modulo L, by an estimate of the quotient and one correction. */
  method ModL(reduced: array<u32>, x: seq<u32>)
    requires |x| == 16 && reduced.Length == 8
    modifies reduced
    ensures Value(B, reduced[..]) == Value(B, x) % LVAL
  {
    var xr := new u32[25];
    ghost var q, q9 := BarrettQuotient(xr, x);
    var quotient := xr[16..24];
    Zero(xr, 8);
    ValueZeros(B, xr[..8]);
    assert xr[8..][8..16] == quotient;
    MultiplyLow(xr, quotient, L);
    ghost var y := xr[..8];
    var carry := SubtractFrom(xr, x);
    ConstantValues();
    RemainderLow(x, q, Value(B, quotient), q9, y, Value(B, xr[..8]), carry);
    ghost var d := Value(B, x) - q * LVAL;
    RemoveL(xr, xr[..8]);
    var low := xr[..8];
    assert Value(B, low) == if d >= LVAL then d - LVAL else d;
    forall i | 0 <= i < 8 {
      reduced[i] := low[i];
    }
    assert reduced[..] == low;
    DivUnique(Value(B, x), LVAL, if d >= LVAL then q + 1 else q, Value(B, reduced[..]));
  }

  /** Working modulo 2^256 loses nothing: the difference fits. */
  lemma RemainderLow(x: seq<u32>, q: nat, qLow: nat, q9: nat, y: seq<u32>, low: nat, carry: nat)
    requires |x| == 16 && |y| == 8
    requires q == qLow + W256 * q9 && 0 <= Value(B, x) - q * LVAL < 2 * LVAL
    requires Value(B, y) == (qLow * LVAL) % W256
    requires Subtracted(x, y, 8, low, carry)
    ensures low == Value(B, x) - q * LVAL
  {
    Powers();
    ValueSplit(B, x, 8);
    assert y[..8] == y;
    var d := Value(B, x) - q * LVAL;
    var t := (qLow * LVAL) / W256;
    assert d == Value(B, x[..8]) - Value(B, y) + W256 * (Value(B, x[8..]) - t - q9 * LVAL);
    QuotientUnique(W256, 0, d, Value(B, x[8..]) - t - q9 * LVAL + carry - 1, low);
  }

  // ---------------------------------------------------------------------
  // Montgomery reduction
  // ---------------------------------------------------------------------

  /** t becomes t + x; the carry out of the top limb is returned. */
  method AddTo(t: array<u32>, x: seq<u32>) returns (carry: u32)
    requires |x| == t.Length
    modifies t
    ensures Value(B, t[..]) + carry as int * Pow(B, |x|) == old(Value(B, t[..])) + Value(B, x)
  {
    ghost var s := t[..];
    carry := 0;
    for i := 0 to |x|
      invariant s == t[..] && carry <= 1
      invariant Value(B, s) + carry as int * Pow(B, i) == old(Value(B, t[..])) + Value(B, x[..i])
    {
      var sum: u64 := carry as int + t[i] as int + x[i] as int;
      ghost var c: u32 := carry;
      CarryStep(B, s, i, x[i], c, sum % B, sum / B);
      MulDistribute(x[i], c, Pow(B, i));
      ValueStep(B, x, i);
      t[i] := sum % B;
      carry := sum / B;
      s := s[i := sum % B];
    }
    assert x[..|x|] == x;
  }

  /** The high half of x + ((x * K) mod 2^256) * L. */
  method MontgomerySum(x: seq<u32>) returns (high: seq<u32>, ghost q: nat)
    requires |x| == 16
    requires Value(B, x) < LVAL * W256
    ensures |high| == 8 && Value(B, high) < 2 * LVAL
    ensures Value(B, high) * W256 == Value(B, x) + q * LVAL
  {
    var s, t := new u32[8], new u32[16];
    Zero(s, 8);
    ValueZeros(B, s[..8]);
    MultiplyLow(s, x[..8], K);
    ghost var sLow := s[..8];
    Zero(t, 16);
    ValueZeros(B, t[..8]);
    assert s[..] == sLow;
    Multiply(t, s[..], L);
    assert t[..16] == t[..];
    var carry := AddTo(t, x);
    high := t[8..16];
    ConstantValues();
    ghost var h;
    q, h := MontgomeryExact(x, sLow, t[..], carry);
    assert t[..][8..16] == high;
  }

  /** The inverse of scaling by 2^256, modulo L. */
  method Redc(u: array<u32>, x: seq<u32>)
    requires u.Length == 8 && |x| == 16
    requires Value(B, x) < LVAL * W256
    modifies u
    ensures Value(B, u[..]) < LVAL
    ensures (Value(B, u[..]) * W256) % LVAL == Value(B, x) % LVAL
  {
    var high, q := MontgomerySum(x);
    RemoveL(u, high);
    assert u[..8] == u[..];
    CongruentProducts(Value(B, u[..]), Value(B, x), Value(B, high), q);
  }

  /** x + s * L is a multiple of 2^256, fits in sixteen limbs, and its high half is below 2 * L. */
  lemma MontgomeryExact(x: seq<u32>, s: seq<u32>, t: seq<u32>, carry: nat) returns (q: nat, h: nat)
    requires |x| == 16 && |s| == 8 && |t| == 16
    requires Value(B, x) < LVAL * W256
    requires Value(B, s) == (Value(B, x[..8]) * KVAL) % W256
    requires Value(B, t) + carry * Pow(B, 16) == Value(B, s) * LVAL + Value(B, x)
    ensures q == Value(B, s) && h == Value(B, t[8..16]) < 2 * LVAL
    ensures h * W256 == Value(B, x) + q * LVAL
  {
    Powers();
    q, h := Value(B, s), Value(B, t[8..16]);
    ValueSplit(B, x, 8);
    ValueSplit(B, t, 8);
    assert t[8..] == t[8..16];
    ValueBound(B, t[..8]);
    ValueBound(B, s);
    ValueBound(B, x);
    var w := (Value(B, x[..8]) * KVAL) / W256;
    var xLow, xHigh := Value(B, x[..8]), Value(B, x[8..]);
    assert KVAL * LVAL + 1 == W256 * ((KVAL * LVAL + 1) / W256);
    var c := (KVAL * LVAL + 1) / W256;
    assert q * LVAL + xLow == W256 * (xLow * c - w * LVAL);
    assert carry == 0;
    QuotientUnique(W256, h, Value(B, t[..8]), xLow * c - w * LVAL + xHigh, 0);
  }

  /** u and h differ by L or nothing, so u * 2^256 is x modulo L. */
  lemma CongruentProducts(u: nat, x: nat, h: nat, q: nat)
    requires h * W256 == x + q * LVAL
    requires u == h || u == h - LVAL
    ensures (u * W256) % LVAL == x % LVAL
  {
    var k := if u == h then q else q - W256;
    assert u * W256 == x + k * LVAL;
    DivUnique(u * W256, LVAL, x / LVAL + k, x % LVAL);
  }
}
