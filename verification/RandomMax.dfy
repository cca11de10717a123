// Random numbers below a maximum, by masking and rejecting (src/random/random.c).

module RandomMax {
  import opened Words
  import opened BitOps

  // ---------------------------------------------------------------------
  // Masks
  // ---------------------------------------------------------------------

  /** The number with the low k bits set. */
  function Ones(k: nat): nat {
    PowPositive(2, k);
    Pow(2, k) - 1
  }

  /** max has k bits. */
  ghost predicate HasBits(max: nat, k: nat) {
    k > 0 && Pow(2, k - 1) <= max < Pow(2, k)
  }

  /** The bits of mask at every s-th position, from that at the top of k bits down, over a width of w. */
  ghost predicate Spaced(mask: nat, k: nat, s: nat, w: nat)
    requires s > 0
  {
    forall o: nat :: o < w && o < k && o % s == 0 ==> Bit(mask, k - 1 - o) == 1
  }

  lemma {:induction false} TopBit(max: nat, k: nat)
    requires HasBits(max, k)
    ensures Bit(max, k - 1) == 1
  {
    if k > 1 {
      TopBit(max / 2, k - 1);
    } else {
      assert Pow(2, 0) == 1 && Pow(2, 1) == 2;
    }
  }

  /** Or-ing with the mask shifted by half the spacing fills in between. */
  lemma Smear(mask: nat, k: nat, s: nat, w: nat)
    requires s > 0 && mask < Pow(2, k) && Spaced(mask, k, 2 * s, w)
    ensures Or(mask, ShiftRight(mask, s)) < Pow(2, k)
    ensures Spaced(Or(mask, ShiftRight(mask, s)), k, s, w)
  {
    var shifted := ShiftRight(mask, s);
    ShiftBelow(mask, s);
    OrBelow(mask, shifted, k);
    forall o: nat | o < w && o < k && o % s == 0
      ensures Bit(Or(mask, shifted), k - 1 - o) == 1
    {
      OrBit(mask, shifted, k - 1 - o);
      HalfStep(o, s);
      if o % (2 * s) != 0 {
        ShiftBit(mask, s, k - 1 - o);
        assert Bit(mask, k - 1 - (o - s)) == 1;
      }
    }
  }

  /** A multiple of s is one of 2 * s, or s more than one. */
  lemma HalfStep(o: nat, s: nat)
    requires s > 0 && o % s == 0
    ensures o % (2 * s) == 0 || (o >= s && (o - s) % (2 * s) == 0)
  {
    var q := o / s;
    assert o == q * s;
    if q % 2 == 0 {
      EvenMultiple(q / 2, s);
      DivUnique(o, 2 * s, q / 2, 0);
    } else {
      EvenMultiple(q / 2, s);
      MulDistribute(q - 1, 1, s);
      DivUnique(o - s, 2 * s, q / 2, 0);
    }
  }

  lemma EvenMultiple(h: nat, s: nat)
    ensures (2 * h) * s == h * (2 * s)
  {
  }

  lemma StartSpaced(max: nat, k: nat, w: nat)
    requires HasBits(max, k) && w > 0
    ensures Spaced(max, k, w, w)
  {
    TopBit(max, k);
    forall o: nat | o < w && o < k && o % w == 0
      ensures Bit(max, k - 1 - o) == 1
    {
      DivUnique(o, w, 0, o);
    }
  }

  /** The mask is the least 2^k - 1 that is at least max. */
  ghost predicate IsMask(mask: nat, max: nat) {
    exists k: nat :: HasBits(max, k) && mask == Ones(k)
  }

  lemma MaskDone(mask: nat, max: nat, k: nat, w: nat)
    requires HasBits(max, k) && k <= w && mask < Pow(2, k) && Spaced(mask, k, 1, w)
    ensures IsMask(mask, max)
  {
    forall i | 0 <= i < k
      ensures Bit(mask, i) == 1
    {
      var o := k - 1 - i;
      assert o % 1 == 0;
      assert Bit(mask, k - 1 - o) == 1;
    }
    AllOnes(mask, k);
  }

  lemma {:induction false} FindBits(max: nat, w: nat) returns (k: nat)
    requires 0 < max < Pow(2, w)
    ensures HasBits(max, k) && k <= w
  {
    if max < Pow(2, w - 1) {
      k := FindBits(max, w - 1);
    } else {
      k := w;
    }
  }

  method Mask8(max: nat) returns (mask: nat)
    requires 0 < max < Pow(2, 8)
    ensures IsMask(mask, max) && mask < Pow(2, 8)
  {
    ghost var k := FindBits(max, 8);
    StartSpaced(max, k, 8);
    mask := max;
    Smear(mask, k, 4, 8);
    mask := Or(mask, ShiftRight(mask, 4));
    Smear(mask, k, 2, 8);
    mask := Or(mask, ShiftRight(mask, 2));
    Smear(mask, k, 1, 8);
    mask := Or(mask, ShiftRight(mask, 1));
    MaskDone(mask, max, k, 8);
    PowMonotone(k, 8);
  }

  method Mask16(max: nat) returns (mask: nat)
    requires 0 < max < Pow(2, 16)
    ensures IsMask(mask, max) && mask < Pow(2, 16)
  {
    ghost var k := FindBits(max, 16);
    StartSpaced(max, k, 16);
    mask := max;
    Smear(mask, k, 8, 16);
    mask := Or(mask, ShiftRight(mask, 8));
    Smear(mask, k, 4, 16);
    mask := Or(mask, ShiftRight(mask, 4));
    Smear(mask, k, 2, 16);
    mask := Or(mask, ShiftRight(mask, 2));
    Smear(mask, k, 1, 16);
    mask := Or(mask, ShiftRight(mask, 1));
    MaskDone(mask, max, k, 16);
    PowMonotone(k, 16);
  }

  method Mask32(max: nat) returns (mask: nat)
    requires 0 < max < Pow(2, 32)
    ensures IsMask(mask, max) && mask < Pow(2, 32)
  {
    ghost var k := FindBits(max, 32);
    StartSpaced(max, k, 32);
    mask := max;
    Smear(mask, k, 16, 32);
    mask := Or(mask, ShiftRight(mask, 16));
    Smear(mask, k, 8, 32);
    mask := Or(mask, ShiftRight(mask, 8));
    Smear(mask, k, 4, 32);
    mask := Or(mask, ShiftRight(mask, 4));
    Smear(mask, k, 2, 32);
    mask := Or(mask, ShiftRight(mask, 2));
    Smear(mask, k, 1, 32);
    mask := Or(mask, ShiftRight(mask, 1));
    MaskDone(mask, max, k, 32);
    PowMonotone(k, 32);
  }

  method Mask64(max: nat) returns (mask: nat)
    requires 0 < max < Pow(2, 64)
    ensures IsMask(mask, max) && mask < Pow(2, 64)
  {
    ghost var k := FindBits(max, 64);
    StartSpaced(max, k, 64);
    mask := max;
    Smear(mask, k, 32, 64);
    mask := Or(mask, ShiftRight(mask, 32));
    Smear(mask, k, 16, 64);
    mask := Or(mask, ShiftRight(mask, 16));
    Smear(mask, k, 8, 64);
    mask := Or(mask, ShiftRight(mask, 8));
    Smear(mask, k, 4, 64);
    mask := Or(mask, ShiftRight(mask, 4));
    Smear(mask, k, 2, 64);
    mask := Or(mask, ShiftRight(mask, 2));
    Smear(mask, k, 1, 64);
    mask := Or(mask, ShiftRight(mask, 1));
    MaskDone(mask, max, k, 64);
    PowMonotone(k, 64);
  }

  lemma {:induction false} PowMonotone(i: nat, j: nat)
    requires i <= j
    ensures Pow(2, i) <= Pow(2, j)
    decreases j
  {
    if i < j {
      PowMonotone(i, j - 1);
    }
  }

  // ---------------------------------------------------------------------
  // Rejection
  // ---------------------------------------------------------------------

  /** The first masked word that is below max; none if the words run out. */
  ghost predicate FirstBelow(mask: nat, max: nat, words: seq<nat>, number: Option<nat>, used: nat) {
    && used <= |words|
    && match number
       case None => used == |words| && forall i :: 0 <= i < used ==> And(words[i], mask) >= max
       case Some(n) =>
         && used > 0 && n == And(words[used - 1], mask) < max
         && forall i :: 0 <= i < used - 1 ==> And(words[i], mask) >= max
  }

  method Reject(mask: nat, max: nat, words: seq<nat>) returns (number: Option<nat>, used: nat)
    ensures FirstBelow(mask, max, words, number, used)
  {
    used := 0;
    while used < |words|
      invariant 0 <= used <= |words| && forall i :: 0 <= i < used ==> And(words[i], mask) >= max
    {
      var num := And(words[used], mask);
      used := used + 1;
      if num < max {
        return Some(num), used;
      }
    }
    return None, used;
  }

  /** The result for words of the given width: below max, and what the mask leaves of the first word that it can be. */
  ghost predicate Uniform(width: nat, max: nat, words: seq<nat>, number: Option<nat>, used: nat) {
    exists mask: nat :: IsMask(mask, max) && mask < Pow(2, width) && FirstBelow(mask, max, words, number, used)
  }

  method U8Max(max: nat, words: seq<nat>) returns (number: Option<nat>, used: nat)
    requires 0 < max < Pow(2, 8)
    ensures Uniform(8, max, words, number, used)
  {
    var mask := Mask8(max);
    number, used := Reject(mask, max, words);
  }

  method U16Max(max: nat, words: seq<nat>) returns (number: Option<nat>, used: nat)
    requires 0 < max < Pow(2, 16)
    ensures Uniform(16, max, words, number, used)
  {
    var mask := Mask16(max);
    number, used := Reject(mask, max, words);
  }

  method U32Max(max: nat, words: seq<nat>) returns (number: Option<nat>, used: nat)
    requires 0 < max < Pow(2, 32)
    ensures Uniform(32, max, words, number, used)
  {
    var mask := Mask32(max);
    number, used := Reject(mask, max, words);
  }

  method U64Max(max: nat, words: seq<nat>) returns (number: Option<nat>, used: nat)
    requires 0 < max < Pow(2, 64)
    ensures Uniform(64, max, words, number, used)
  {
    var mask := Mask64(max);
    number, used := Reject(mask, max, words);
  }

  // ---------------------------------------------------------------------
  // Counting words
  // ---------------------------------------------------------------------

  /** How many of the first n words are masked to a number from lo to below hi. */
  ghost function Masked(mask: nat, lo: nat, hi: nat, n: nat): nat {
    if n == 0 then 0 else Masked(mask, lo, hi, n - 1) + if lo <= And(n - 1, mask) < hi then 1 else 0
  }

  /** Over whole periods of the mask, and part of the next. */
  lemma {:induction false} MaskedPeriods(k: nat, lo: nat, hi: nat, q: nat, r: nat)
    requires lo <= hi <= Pow(2, k) && r <= Pow(2, k)
    ensures Masked(Ones(k), lo, hi, q * Pow(2, k) + r)
         == q * (hi - lo) + if r <= lo then 0 else if r <= hi then r - lo else hi - lo
    decreases q, r
  {
    var p := Pow(2, k);
    if r > 0 {
      var x := q * p + (r - 1);
      MaskedPeriods(k, lo, hi, q, r - 1);
      AndMask(x, k);
      DivUnique(x, p, q, r - 1);
    } else if q > 0 {
      MaskedPeriods(k, lo, hi, q - 1, p);
      MulDistribute(q - 1, 1, p);
      MulDistribute(q - 1, 1, hi - lo);
    }
  }

  /** Every number below max is what the same number of words is masked to. */
  lemma EquallyMany(width: nat, max: nat, k: nat, v: nat)
    requires HasBits(max, k) && k <= width && v < max
    ensures Masked(Ones(k), v, v + 1, Pow(2, width)) == Pow(2, width - k)
  {
    PowAdd(2, width - k, k);
    MaskedPeriods(k, v, v + 1, Pow(2, width - k), 0);
  }

  /** At least half of all words are masked to a number below max. */
  lemma HalfAccepted(width: nat, max: nat, k: nat)
    requires HasBits(max, k) && k <= width
    ensures 2 * Masked(Ones(k), 0, max, Pow(2, width)) >= Pow(2, width)
  {
    PowAdd(2, width - k, k);
    var q := Pow(2, width - k);
    MaskedPeriods(k, 0, max, q, 0);
    assert Pow(2, k) == 2 * Pow(2, k - 1);
    MulLe(q, 2 * Pow(2, k - 1), q, 2 * max);
    HalfShift(q, max);
  }

  /** No smaller mask of this form would do. */
  lemma LeastMask(mask: nat, max: nat, j: nat)
    requires IsMask(mask, max) && max <= Ones(j)
    ensures mask <= Ones(j) && max <= mask
  {
    var k: nat :| HasBits(max, k) && mask == Ones(k);
    if j < k {
      PowMonotone(j, k - 1);
    } else {
      PowMonotone(k, j);
    }
  }
}
