// Machine words and positional values, shared by the limb arithmetic.

module Words {
  type byte = x: int | 0 <= x < 0x100
  type u32 = x: int | 0 <= x < 0x1_0000_0000
  type u64 = x: int | 0 <= x < 0x1_0000_0000_0000_0000

  datatype Option<T> = None | Some(value: T)

  const B: nat := 0x1_0000_0000
  const W64: nat := 0x1_0000_0000_0000_0000

  /** Arithmetic on size_t. */
  function Wrap(x: int): u64 {
    x % W64
  }

  lemma WrapSmall(x: nat)
    requires x < W64
    ensures Wrap(x) == x
  {
  }

  lemma WrapOnce(x: nat)
    requires W64 <= x < 2 * W64
    ensures Wrap(x) == x - W64
  {
    DivUnique(x, W64, 1, x - W64);
  }

  lemma WrapPlus(x: int, y: int)
    ensures Wrap(Wrap(x) + y) == Wrap(x + y)
  {
    DivUnique(x + y, W64, x / W64 + (Wrap(x) + y) / W64, Wrap(Wrap(x) + y));
  }

  lemma NextMod(q: nat, w: nat)
    requires w > 1
    ensures (q + 1) % w == (q % w + 1) % w
  {
    if q % w + 1 < w {
      DivUnique(q + 1, w, q / w, q % w + 1);
      DivUnique(q % w + 1, w, 0, q % w + 1);
    } else {
      DivUnique(q + 1, w, q / w + 1, 0);
      DivUnique(q % w + 1, w, 1, 0);
    }
  }

  function Min(a: int, b: int): int {
    if a <= b then a else b
  }

  /** How much is missing to align x to a multiple of m, that is -x modulo m. */
  function Gap(x: nat, m: nat): nat
    requires m > 0
  {
    (m - x % m) % m
  }

  lemma GapBelow(x: nat, m: nat)
    requires x < m
    ensures Gap(x, m) == if x == 0 then 0 else m - x
  {
    DivUnique(x, m, 0, x);
    DivUnique(m - x, m, if x == 0 then 1 else 0, if x == 0 then 0 else m - x);
  }

  function Pow(b: nat, k: nat): nat {
    if k == 0 then 1 else b * Pow(b, k - 1)
  }

  /** The number whose base-b digits are s, least significant first. */
  function Value(b: nat, s: seq<nat>): nat {
    if s == [] then 0 else Value(b, s[..|s| - 1]) + s[|s| - 1] * Pow(b, |s| - 1)
  }

  /** All entries of s are base-b digits. */
  ghost predicate Digits(b: nat, s: seq<nat>) {
    forall i :: 0 <= i < |s| ==> s[i] < b
  }

  lemma {:induction false} PowPositive(b: nat, k: nat)
    requires b > 0
    ensures Pow(b, k) > 0
  {
    if k > 0 {
      PowPositive(b, k - 1);
      MulPositive(b, Pow(b, k - 1));
    }
  }

  lemma {:induction false} PowAdd(b: nat, i: nat, j: nat)
    ensures Pow(b, i + j) == Pow(b, i) * Pow(b, j)
  {
    if i > 0 {
      PowAdd(b, i - 1, j);
      MulAssoc(b, Pow(b, i - 1), Pow(b, j));
    }
  }

  lemma MulPositive(x: int, y: int)
    requires x > 0 && y > 0
    ensures x * y > 0
  {
  }

  lemma MulAssoc(x: int, y: int, z: int)
    ensures x * (y * z) == (x * y) * z
  {
  }

  lemma MulLe(x: int, y: int, x1: int, y1: int)
    requires 0 <= x <= x1 && 0 <= y <= y1
    ensures 0 <= x * y <= x1 * y1
  {
    assert x * y <= x1 * y;
    assert x1 * y <= x1 * y1;
  }

  lemma MulDistribute(x: int, y: int, z: int)
    ensures (x + y) * z == x * z + y * z
  {
  }

  /** Quotient and remainder of a division are determined by their equation. */
  lemma QuotientUnique(d: int, q: int, r: int, q': int, r': int)
    requires 0 <= r < d && 0 <= r' < d
    requires d * q + r == d * q' + r'
    ensures q == q' && r == r'
  {
    if q < q' {
      MulLe(1, d, q' - q, d);
      MulDistribute(q' - q, q, d);
    } else if q' < q {
      MulLe(1, d, q - q', d);
      MulDistribute(q - q', q', d);
    }
  }

  lemma DivUnique(a: int, d: int, q: int, r: int)
    requires 0 <= r < d && a == d * q + r
    ensures a / d == q && a % d == r
  {
    QuotientUnique(d, q, r, a / d, a % d);
  }

  /** One more digit on top of a prefix. */
  lemma ValueStep(b: nat, s: seq<nat>, k: nat)
    requires k < |s|
    ensures Value(b, s[..k + 1]) == Value(b, s[..k]) + s[k] * Pow(b, k)
  {
    assert s[..k + 1][..k] == s[..k];
  }

  lemma ValueAppend(b: nat, s: seq<nat>, v: nat)
    ensures Value(b, s + [v]) == Value(b, s) + v * Pow(b, |s|)
  {
    assert (s + [v])[..|s|] == s;
  }

  lemma {:induction false} ValueSplit(b: nat, s: seq<nat>, k: nat)
    requires k <= |s|
    ensures Value(b, s) == Value(b, s[..k]) + Pow(b, k) * Value(b, s[k..])
  {
    if k == |s| {
      assert s[..k] == s;
    } else {
      var t := s[..|s| - 1];
      ValueSplit(b, t, k);
      assert t[..k] == s[..k] && t[k..] == s[k..][..|s| - 1 - k];
      PowAdd(b, k, |s| - 1 - k);
      MulAssoc(s[|s| - 1], Pow(b, k), Pow(b, |s| - 1 - k));
      SplitDistribute(Pow(b, k), Value(b, t[k..]), s[|s| - 1], Pow(b, |s| - 1 - k));
    }
  }

  lemma SplitDistribute(p: int, v: int, d: int, q: int)
    ensures p * v + d * (p * q) == p * (v + d * q)
  {
  }

  /** One digit less at the bottom. */
  lemma ValueDown(b: nat, s: seq<nat>, i: nat)
    requires i < |s|
    ensures Value(b, s[i..]) == s[i] + b * Value(b, s[i + 1..])
  {
    ValueSplit(b, s[i..], 1);
    assert s[i..][..1] == [s[i]] && s[i..][1..] == s[i + 1..];
    assert Value(b, [s[i]]) == s[i] && Pow(b, 1) == b;
  }

  lemma {:induction false} ValueUpdate(b: nat, s: seq<nat>, k: nat, v: nat)
    requires k < |s|
    ensures Value(b, s[k := v]) == Value(b, s) + (v - s[k]) * Pow(b, k)
  {
    var n := |s| - 1;
    if k == n {
      assert s[k := v][..n] == s[..n];
    } else {
      ValueUpdate(b, s[..n], k, v);
      assert s[k := v][..n] == s[..n][k := v];
    }
  }

  lemma {:induction false} ValueBound(b: nat, s: seq<nat>)
    requires b > 0 && Digits(b, s)
    ensures Value(b, s) < Pow(b, |s|)
  {
    if s != [] {
      var n := |s| - 1;
      ValueBound(b, s[..n]);
      PowPositive(b, n);
      MulLe(s[n], Pow(b, n), b - 1, Pow(b, n));
      MulDistribute(b - 1, 1, Pow(b, n));
    }
  }

  lemma {:induction false} ValueZeros(b: nat, s: seq<nat>)
    requires forall i :: 0 <= i < |s| ==> s[i] == 0
    ensures Value(b, s) == 0
  {
    if s != [] {
      ValueZeros(b, s[..|s| - 1]);
    }
  }

  /** One step of a multiply-accumulate carry chain at limb k. */
  lemma CarryStep(b: nat, s: seq<nat>, k: nat, x: nat, carry: nat, v: nat, carry': nat)
    requires k < |s|
    requires s[k] + x + carry == v + carry' * b
    ensures Value(b, s[k := v]) + carry' * Pow(b, k + 1) == Value(b, s) + (x + carry) * Pow(b, k)
  {
    ValueUpdate(b, s, k, v);
    CarryAlgebra(b, Pow(b, k), s[k], x, carry, v, carry');
  }

  /** One more digit on top, with the carry left over. */
  lemma AppendCarry(b: nat, s: seq<nat>, x: nat, d: nat, carry: nat)
    requires x == d + carry * b
    ensures Value(b, s + [d]) + carry * Pow(b, |s| + 1) == Value(b, s) + x * Pow(b, |s|)
  {
    var p := Pow(b, |s|);
    ValueAppend(b, s, d);
    AppendAlgebra(b, p, x, d, carry);
    assert Pow(b, |s| + 1) == b * p;
  }

  lemma AppendAlgebra(b: int, p: int, x: int, d: int, carry: int)
    requires x == d + carry * b
    ensures d * p + carry * (b * p) == x * p
  {
    MulAssoc(carry, b, p);
    MulDistribute(d, carry * b, p);
  }

  lemma CarryAlgebra(b: int, p: int, d: int, x: int, carry: int, v: int, carry': int)
    requires d + x + carry == v + carry' * b
    ensures (v - d) * p + carry' * (b * p) == (x + carry) * p
  {
    MulAssoc(carry', b, p);
    MulDistribute(v - d, carry' * b, p);
  }

  // ---------------------------------------------------------------------
  // Little-endian bytes and bits
  // ---------------------------------------------------------------------

  function Load32(s: seq<byte>): (w: u32)
    requires |s| == 4
  {
    s[0] as int + s[1] as int * 0x100 + s[2] as int * 0x1_0000 + s[3] as int * 0x100_0000
  }

  function Store32(w: u32): (s: seq<byte>)
    ensures |s| == 4
  {
    var w1 := w as int / 0x100;
    var w2 := w1 / 0x100;
    [w % 0x100, w1 % 0x100, w2 % 0x100, w2 / 0x100]
  }

  lemma Load32Store32(w: u32)
    ensures Load32(Store32(w)) == w
  {
  }

  function LoadWords(s: seq<byte>): (ws: seq<u32>)
    requires |s| % 4 == 0
    ensures |ws| == |s| / 4
  {
    if s == [] then [] else LoadWords(s[..|s| - 4]) + [Load32(s[|s| - 4..])]
  }

  function StoreWords(ws: seq<u32>): (s: seq<byte>)
    ensures |s| == 4 * |ws|
  {
    if ws == [] then [] else StoreWords(ws[..|ws| - 1]) + Store32(ws[|ws| - 1])
  }

  lemma {:induction false} LoadStore(ws: seq<u32>)
    ensures LoadWords(StoreWords(ws)) == ws
  {
    if ws != [] {
      var n := |ws| - 1;
      var s := StoreWords(ws);
      LoadStore(ws[..n]);
      assert s[..|s| - 4] == StoreWords(ws[..n]) && s[|s| - 4..] == Store32(ws[n]);
      Load32Store32(ws[n]);
      assert ws == ws[..n] + [ws[n]];
    }
  }

  lemma {:induction false} LoadWordsAt(s: seq<byte>, k: nat)
    requires |s| % 4 == 0 && 4 * k < |s|
    ensures LoadWords(s)[k] == Load32([s[4 * k], s[4 * k + 1], s[4 * k + 2], s[4 * k + 3]])
  {
    if 4 * k + 4 < |s| {
      LoadWordsAt(s[..|s| - 4], k);
    } else {
      assert s[|s| - 4..] == [s[4 * k], s[4 * k + 1], s[4 * k + 2], s[4 * k + 3]];
    }
  }

  lemma {:induction false} PowWord(n: nat)
    ensures Pow(0x100, 4 * n) == Pow(B, n)
  {
    if n > 0 {
      PowWord(n - 1);
      PowAdd(0x100, 4, 4 * (n - 1));
      assert Pow(0x100, 2) == 0x1_0000;
      PowAdd(0x100, 2, 2);
    }
  }

  /** Loading words keeps the little-endian value. */
  lemma {:induction false} LoadWordsValue(s: seq<byte>)
    requires |s| % 4 == 0
    ensures Value(B, LoadWords(s)) == Value(0x100, s)
  {
    if s != [] {
      var n := |s| - 4;
      LoadWordsValue(s[..n]);
      Load32Value(s[n..]);
      WordStep(s, LoadWords(s[..n]), n, Load32(s[n..]));
    }
  }

  lemma WordStep(s: seq<nat>, ws: seq<nat>, n: nat, w: nat)
    requires |s| == n + 4 && n == 4 * |ws|
    requires Value(B, ws) == Value(0x100, s[..n]) && w == Value(0x100, s[n..])
    ensures Value(B, ws + [w]) == Value(0x100, s)
  {
    PowWord(|ws|);
    GroupDigits(B, 0x100, s, ws, n, w);
  }

  /** A block of base-c digits is one more base-b digit. */
  lemma GroupDigits(b: nat, c: nat, s: seq<nat>, ws: seq<nat>, n: nat, w: nat)
    requires n <= |s| && Pow(c, n) == Pow(b, |ws|)
    requires Value(b, ws) == Value(c, s[..n]) && w == Value(c, s[n..])
    ensures Value(b, ws + [w]) == Value(c, s)
  {
    ValueAppend(b, ws, w);
    ValueSplit(c, s, n);
  }

  lemma Load32Value(s: seq<byte>)
    requires |s| == 4
    ensures Load32(s) == Value(0x100, s)
  {
    ValueOfFour(0x100, s);
  }

  lemma StoreWordsValue(ws: seq<u32>)
    ensures Value(0x100, StoreWords(ws)) == Value(B, ws)
  {
    LoadStore(ws);
    LoadWordsValue(StoreWords(ws));
  }

  lemma ValueOfFour(b: nat, s: seq<nat>)
    requires |s| == 4
    ensures Value(b, s) == s[0] + s[1] * b + s[2] * (b * b) + s[3] * (b * (b * b))
  {
    ValueStep(b, s, 0);
    ValueStep(b, s, 1);
    ValueStep(b, s, 2);
    ValueStep(b, s, 3);
    assert s[..4] == s && s[..0] == [];
    assert Pow(b, 0) == 1 && Pow(b, 1) == b && Pow(b, 2) == b * b && Pow(b, 3) == b * (b * b);
  }

  /** Bit i of x, that is (x >> i) & 1. */
  function Bit(x: nat, i: nat): (b: nat)
    ensures b <= 1
  {
    if i == 0 then x % 2 else Bit(x / 2, i - 1)
  }

  /** Bit i of a little-endian byte string; negative positions read as zero. */
  function ScalarBit(s: seq<byte>, i: int): (b: nat)
    requires i < 8 * |s|
    ensures b <= 1
  {
    if i < 0 then 0 else Bit(s[i / 8], i % 8)
  }

  function Bits(s: seq<byte>): (bits: seq<nat>)
    ensures |bits| == 8 * |s|
  {
    seq(8 * |s|, i requires 0 <= i < 8 * |s| => ScalarBit(s, i))
  }

  lemma {:induction false} BitsOf(x: nat, bits: seq<nat>)
    requires x < Pow(2, |bits|) && forall i :: 0 <= i < |bits| ==> bits[i] == Bit(x, i)
    ensures Value(2, bits) == x
  {
    if bits != [] {
      BitsOf(x / 2, bits[1..]);
      ValueSplit(2, bits, 1);
      assert bits[..1] == [bits[0]];
      assert Value(2, [bits[0]]) == bits[0];
    }
  }

  lemma {:induction false} PowByte(n: nat)
    ensures Pow(2, 8 * n) == Pow(0x100, n)
  {
    if n > 0 {
      PowByte(n - 1);
      PowAdd(2, 8, 8 * (n - 1));
      assert Pow(2, 4) == 16;
      PowAdd(2, 4, 4);
    }
  }

  lemma {:induction false} BitsValue(s: seq<byte>)
    ensures Value(2, Bits(s)) == Value(0x100, s)
  {
    if s != [] {
      var n := |s| - 1;
      var bits := Bits(s);
      BitsValue(s[..n]);
      assert bits[..8 * n] == Bits(s[..n]);
      PowByte(1);
      BitsOf(s[n], bits[8 * n..]);
      PowByte(n);
      GroupDigits(0x100, 2, bits, s[..n], 8 * n, s[n]);
      assert s == s[..n] + [s[n]];
    }
  }
}
