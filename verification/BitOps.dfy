// Bitwise operations on numbers.

module BitOps {
  import opened Words

  function Or(a: nat, b: nat): nat
    decreases a + b
  {
    if a == 0 && b == 0 then 0 else 2 * Or(a / 2, b / 2) + if a % 2 == 1 || b % 2 == 1 then 1 else 0
  }

  function Xor(a: nat, b: nat): nat
    decreases a + b
  {
    if a == 0 && b == 0 then 0 else 2 * Xor(a / 2, b / 2) + if a % 2 != b % 2 then 1 else 0
  }

  function And(a: nat, b: nat): nat
    decreases a + b
  {
    if a == 0 || b == 0 then 0 else 2 * And(a / 2, b / 2) + if a % 2 == 1 && b % 2 == 1 then 1 else 0
  }

  function ShiftRight(x: nat, s: nat): nat
    decreases s
  {
    if s == 0 then x else ShiftRight(x / 2, s - 1)
  }

  function ShiftLeft(x: nat, s: nat): nat {
    x * Pow(2, s)
  }

  lemma {:induction false} OrBit(a: nat, b: nat, i: nat)
    ensures Bit(Or(a, b), i) == if Bit(a, i) == 1 || Bit(b, i) == 1 then 1 else 0
    decreases i
  {
    if a == 0 && b == 0 {
      ZeroBit(i);
    } else if i > 0 {
      OrBit(a / 2, b / 2, i - 1);
      assert Or(a, b) / 2 == Or(a / 2, b / 2);
    }
  }

  lemma {:induction false} ZeroBit(i: nat)
    ensures Bit(0, i) == 0
  {
    if i > 0 {
      ZeroBit(i - 1);
    }
  }

  lemma {:induction false} ShiftBit(x: nat, s: nat, i: nat)
    ensures Bit(ShiftRight(x, s), i) == Bit(x, i + s)
    decreases s
  {
    if s > 0 {
      ShiftBit(x / 2, s - 1, i);
    }
  }

  lemma {:induction false} OrBelow(a: nat, b: nat, k: nat)
    requires a < Pow(2, k) && b < Pow(2, k)
    ensures Or(a, b) < Pow(2, k)
    decreases k
  {
    if k > 0 {
      OrBelow(a / 2, b / 2, k - 1);
    }
  }

  lemma {:induction false} ShiftBelow(x: nat, s: nat)
    ensures ShiftRight(x, s) <= x
    decreases s
  {
    if s > 0 {
      ShiftBelow(x / 2, s - 1);
    }
  }

  lemma {:induction false} AllOnes(x: nat, k: nat)
    requires x < Pow(2, k) && forall i :: 0 <= i < k ==> Bit(x, i) == 1
    ensures x == Pow(2, k) - 1
    decreases k
  {
    if k > 0 {
      assert Bit(x, 0) == 1;
      forall i | 0 <= i < k - 1
        ensures Bit(x / 2, i) == 1
      {
        assert Bit(x, i + 1) == 1;
      }
      AllOnes(x / 2, k - 1);
    }
  }

  lemma {:induction false} OrZero(y: nat)
    ensures Or(0, y) == y
  {
    if y > 0 {
      OrZero(y / 2);
    }
  }

  /** What is put above the bits of x is added to it. */
  lemma {:induction false} OrDisjoint(x: nat, y: nat, k: nat)
    requires x < Pow(2, k)
    ensures Or(x, ShiftLeft(y, k)) == x + y * Pow(2, k)
    decreases k
  {
    if k == 0 {
      OrZero(y);
    } else {
      OrDisjoint(x / 2, y, k - 1);
      HalfShift(y, Pow(2, k - 1));
    }
  }

  lemma HalfShift(y: nat, p: nat)
    ensures y * (2 * p) == 2 * (y * p)
  {
  }

  lemma {:induction false} AndMask(x: nat, k: nat)
    ensures Pow(2, k) > 0 && And(x, Pow(2, k) - 1) == x % Pow(2, k)
    decreases k
  {
    PowPositive(2, k);
    if k > 0 {
      AndMask(x / 2, k - 1);
      var p := Pow(2, k - 1);
      DoubleMod(x, p);
      if x == 0 {
        DivUnique(0, 2 * p, 0, 0);
      }
    }
  }

  lemma DoubleMod(x: nat, p: nat)
    requires p > 0
    ensures x % (2 * p) == 2 * ((x / 2) % p) + x % 2
  {
    var q, r := (x / 2) / p, (x / 2) % p;
    assert x == 2 * (q * p + r) + x % 2;
    HalfShift(q, p);
    DivUnique(x, 2 * p, q, 2 * r + x % 2);
  }

  lemma {:induction false} XorZero(y: nat)
    ensures Xor(y, 0) == y
  {
    if y > 0 {
      XorZero(y / 2);
    }
  }

  lemma {:induction false} XorCommutes(a: nat, b: nat)
    ensures Xor(a, b) == Xor(b, a)
    decreases a + b
  {
    if a > 0 || b > 0 {
      XorCommutes(a / 2, b / 2);
    }
  }

  /** The bits of x take the place of zeros. */
  lemma {:induction false} XorDisjoint(x: nat, y: nat, k: nat)
    requires x < Pow(2, k)
    ensures Xor(ShiftLeft(y, k), x) == y * Pow(2, k) + x
    decreases k
  {
    if k == 0 {
      XorZero(y);
    } else {
      XorDisjoint(x / 2, y, k - 1);
      HalfShift(y, Pow(2, k - 1));
    }
  }

  lemma {:induction false} ShiftDivides(x: nat, s: nat)
    ensures Pow(2, s) > 0 && ShiftRight(x, s) == x / Pow(2, s)
    decreases s
  {
    PowPositive(2, s);
    if s > 0 {
      ShiftDivides(x / 2, s - 1);
      HalfDivides(x, Pow(2, s - 1));
    }
  }

  lemma HalfDivides(x: nat, p: nat)
    requires p > 0
    ensures x / (2 * p) == (x / 2) / p
  {
    var q, r := (x / 2) / p, (x / 2) % p;
    HalfShift(q, p);
    DivUnique(x, 2 * p, q, 2 * r + x % 2);
  }

  lemma {:induction false} OrTop(y: nat, k: nat)
    requires y < 2 * Pow(2, k)
    ensures Pow(2, k) > 0 && Or(y, Pow(2, k)) == Pow(2, k) + y % Pow(2, k)
    decreases k
  {
    PowPositive(2, k);
    if k > 0 {
      OrTop(y / 2, k - 1);
      DoubleMod(y, Pow(2, k - 1));
    } else {
      assert Or(y / 2, 0) == 0;
    }
  }

  /** A mask of n bits above the lowest k. */
  lemma {:induction false} AndAbove(x: nat, k: nat, n: nat)
    ensures Pow(2, k) > 0 && Pow(2, n) > 0
    ensures And(x, (Pow(2, n) - 1) * Pow(2, k)) == x / Pow(2, k) % Pow(2, n) * Pow(2, k)
    decreases k
  {
    PowPositive(2, k);
    PowPositive(2, n);
    if k == 0 {
      AndMask(x, n);
    } else {
      var (p, mask) := (Pow(2, k - 1), (Pow(2, n) - 1) * Pow(2, k - 1));
      AndAbove(x / 2, k - 1, n);
      HalfShift(Pow(2, n) - 1, p);
      AndDouble(x, mask);
      HalfDivides(x, p);
      HalfShift(x / Pow(2, k) % Pow(2, n), p);
    }
  }

  lemma AndDouble(x: nat, mask: nat)
    ensures And(x, 2 * mask) == 2 * And(x / 2, mask)
  {
  }

  lemma {:induction false} XorBelow(a: nat, b: nat, k: nat)
    requires a < Pow(2, k) && b < Pow(2, k)
    ensures Xor(a, b) < Pow(2, k)
    decreases k
  {
    if k > 0 {
      XorBelow(a / 2, b / 2, k - 1);
    }
  }

  lemma {:induction false} XorTwice(a: nat, b: nat)
    ensures Xor(Xor(a, b), b) == a
    decreases a + b
  {
    if a > 0 || b > 0 {
      XorTwice(a / 2, b / 2);
      var x := Xor(a, b);
      assert x / 2 == Xor(a / 2, b / 2) && x % 2 == if a % 2 != b % 2 then 1 else 0;
    }
  }

  /** One more bit below. */
  lemma XorStep(a: nat, m: nat, c: nat, n: nat, x: nat)
    requires Xor(a / 2 + m, c / 2 + n) == Xor(a / 2, c / 2) + x
    ensures Xor(a + 2 * m, c + 2 * n) == Xor(a, c) + 2 * x
  {
    var (y, z) := (a + 2 * m, c + 2 * n);
    assert y / 2 == a / 2 + m && z / 2 == c / 2 + n && y % 2 == a % 2 && z % 2 == c % 2;
  }

  /** The bits above the lowest k are combined by themselves. */
  lemma {:induction false} XorSplit(a: nat, b: nat, c: nat, d: nat, k: nat)
    requires a < Pow(2, k) && c < Pow(2, k)
    ensures Xor(a + ShiftLeft(b, k), c + ShiftLeft(d, k)) == Xor(a, c) + ShiftLeft(Xor(b, d), k)
    decreases k
  {
    if k > 0 {
      XorSplit(a / 2, b, c / 2, d, k - 1);
      XorStep(a, ShiftLeft(b, k - 1), c, ShiftLeft(d, k - 1), ShiftLeft(Xor(b, d), k - 1));
      ShiftOnce(b, k);
      ShiftOnce(d, k);
      ShiftOnce(Xor(b, d), k);
    } else {
      assert Xor(a, c) == 0;
    }
  }

  lemma ShiftOnce(y: nat, k: nat)
    requires k > 0
    ensures ShiftLeft(y, k) == 2 * ShiftLeft(y, k - 1)
  {
    HalfShift(y, Pow(2, k - 1));
  }
}
