// Recoding scalars in signed windows, from the top bit down (src/monocypher.c).

module Slide {
  import opened Words

  // ---------------------------------------------------------------------
  // The lowest set bit and its position
  // ---------------------------------------------------------------------

  /** x << n. */
  function Shl(x: int, n: nat): int {
    if n == 0 then x else 2 * Shl(x, n - 1)
  }

  /** x >> n, the sign kept. */
  function Shr(x: int, n: nat): int
    decreases n
  {
    if n == 0 then x else Shr(x / 2, n - 1)
  }

  lemma {:induction false} ShlSum(x: int, y: int, n: nat)
    ensures Shl(x + y, n) == Shl(x, n) + Shl(y, n)
  {
    if n > 0 {
      ShlSum(x, y, n - 1);
    }
  }

  lemma {:induction false} ShlDouble(x: int, n: nat)
    ensures Shl(2 * x, n) == Shl(x, n + 1)
  {
    if n > 0 {
      ShlDouble(x, n - 1);
    }
  }

  lemma {:induction false} ShlShl(x: int, m: nat, n: nat)
    ensures Shl(Shl(x, m), n) == Shl(x, m + n)
  {
    if n > 0 {
      ShlShl(x, m, n - 1);
    }
  }

  lemma {:induction false} ShrShl(x: int, n: nat)
    ensures Shr(Shl(x, n), n) == x
  {
    if n > 0 {
      ShrShl(x, n - 1);
    }
  }

  /** The lowest set bit of v, that is v & -v. */
  function LowestBit(v: int): nat
    requires v != 0
    decreases if v < 0 then -v else v
  {
    if v % 2 == 1 then 1 else 2 * LowestBit(v / 2)
  }

  /** The base-2 logarithm of a power of two below 256, by testing its bits with masks. */
  function MaskLog(lsb: byte): nat {
    var x := lsb as int as bv8;
    (if x & 0xAA != 0 then 1 else 0) + (if x & 0xCC != 0 then 2 else 0) + (if x & 0xF0 != 0 then 4 else 0)
  }

  lemma MaskLogPower(s: nat)
    requires s < 8
    ensures 1 <= Shl(1, s) <= 128 && MaskLog(Shl(1, s)) == s
  {
    assert Shl(1, 1) == 2 && Shl(1, 2) == 4 && Shl(1, 3) == 8;
    assert Shl(1, 4) == 16 && Shl(1, 5) == 32 && Shl(1, 6) == 64 && Shl(1, 7) == 128;
    assert MaskLog(1) == 0 && MaskLog(2) == 1 && MaskLog(4) == 2 && MaskLog(8) == 3;
    assert MaskLog(16) == 4 && MaskLog(32) == 5 && MaskLog(64) == 6 && MaskLog(128) == 7;
  }

  /** v is an odd number shifted by the logarithm of its lowest bit, and both are small when v is. */
  lemma {:induction false} OddPart(v: int, m: nat) returns (s: nat, d: int)
    requires v != 0 && -Shl(1, m) <= v <= Shl(1, m)
    ensures LowestBit(v) == Shl(1, s) && v == Shl(d, s) && d % 2 == 1
    ensures s <= m && -Shl(1, m - s) <= d <= Shl(1, m - s)
    decreases m
  {
    if v % 2 == 1 {
      s, d := 0, v;
    } else {
      s, d := OddPart(v / 2, m - 1);
      s := s + 1;
    }
  }

  // ---------------------------------------------------------------------
  // Prefixes and windows of a number
  // ---------------------------------------------------------------------

  type Scalar = s: seq<byte> | |s| == 32 witness seq(32, _ => 0)

  /** The scalar is below 2^253. */
  ghost predicate Reduced(scalar: Scalar) {
    forall i :: 253 <= i < 256 ==> ScalarBit(scalar, i) == 0
  }

  ghost function At(bits: seq<nat>, i: int): nat
    requires i < |bits|
  {
    if i < 0 then 0 else bits[i]
  }

  /** The number that the bits from lo to below hi spell. */
  ghost function Segment(bits: seq<nat>, lo: nat, hi: nat): nat
    requires lo <= hi <= |bits|
    decreases hi - lo
  {
    if lo == hi then 0 else bits[lo] + 2 * Segment(bits, lo + 1, hi)
  }

  /** The number from bit i up, rounded by the bit below; in units of 2^i. */
  ghost function Prefix(bits: seq<nat>, i: nat): nat
    requires i <= |bits|
  {
    At(bits, i - 1) + Segment(bits, i, |bits|)
  }

  /** The signed window of w bits that ends at bit i, rounded by the bit below it. */
  ghost function Window(bits: seq<nat>, i: nat, w: nat): int
    requires i < |bits| && 1 <= w <= i + 1
  {
    Segment(bits, i - w + 1, i) + At(bits, i - w) - Shl(At(bits, i), w - 1)
  }

  lemma {:induction false} SegmentSplit(bits: seq<nat>, lo: nat, mid: nat, hi: nat)
    requires lo <= mid <= hi <= |bits|
    ensures Segment(bits, lo, hi) == Segment(bits, lo, mid) + Shl(Segment(bits, mid, hi), mid - lo)
    decreases mid - lo
  {
    if lo < mid {
      SegmentSplit(bits, lo + 1, mid, hi);
    }
  }

  lemma {:induction false} SegmentValue(bits: seq<nat>, i: nat)
    requires i <= |bits|
    ensures Segment(bits, i, |bits|) == Value(2, bits[i..])
    decreases |bits| - i
  {
    if i < |bits| {
      SegmentValue(bits, i + 1);
      ValueDown(2, bits, i);
    }
  }

  lemma {:induction false} SegmentBound(bits: seq<nat>, lo: nat, hi: nat)
    requires lo <= hi <= |bits| && Digits(2, bits)
    ensures Segment(bits, lo, hi) < Shl(1, hi - lo)
    decreases hi - lo
  {
    if lo < hi {
      SegmentBound(bits, lo + 1, hi);
    }
  }

  lemma WholePrefix(scalar: Scalar)
    ensures Prefix(Bits(scalar), 0) == Value(0x100, scalar)
  {
    SegmentValue(Bits(scalar), 0);
    assert Bits(scalar)[0..] == Bits(scalar);
    BitsValue(scalar);
  }

  /** A window takes a prefix down by w bits. */
  lemma PrefixWindow(bits: seq<nat>, i: nat, w: nat)
    requires i < |bits| && 1 <= w <= i + 1
    ensures Prefix(bits, i - w + 1) == Shl(Prefix(bits, i + 1), w) + Window(bits, i, w)
  {
    var above := Segment(bits, i + 1, |bits|);
    SegmentSplit(bits, i - w + 1, i, |bits|);
    ShlSum(bits[i], 2 * above, w - 1);
    ShlDouble(above, w - 1);
    ShlSum(bits[i], above, w);
  }

  /** Where neighbouring bits differ, the window is not zero; it always fits. */
  lemma WindowRange(bits: seq<nat>, i: nat, w: nat)
    requires i < |bits| && 1 <= w <= i + 1 && Digits(2, bits)
    requires At(bits, i) != At(bits, i - 1)
    requires w == 1 ==> i == 0
    ensures Window(bits, i, w) != 0 && -Shl(1, w - 1) <= Window(bits, i, w) <= Shl(1, w - 1)
  {
    ShlZero(w - 1);
    if w >= 2 {
      ShlZero(w - 2);
      SegmentBound(bits, i - w + 1, i - 1);
      SegmentSplit(bits, i - w + 1, i - 1, i);
      assert Segment(bits, i - 1, i) == bits[i - 1] + 2 * Segment(bits, i, i);
    }
  }

  lemma {:induction false} ShlZero(n: nat)
    ensures Shl(0, n) == 0 && Shl(1, n) >= 1
  {
    if n > 0 {
      ShlZero(n - 1);
    }
  }

  /** A window is worth its digit at the digit's position. */
  lemma WindowStep(bits: seq<nat>, i: nat, w: nat, s: nat, d: int)
    requires i < |bits| && 1 <= w <= i + 1
    requires Window(bits, i, w) == Shl(d, s)
    ensures Shl(Prefix(bits, i + 1), i + 1) + Shl(d, i - (w - 1) + s)
         == Shl(Prefix(bits, i - w + 1), i - w + 1)
  {
    PrefixWindow(bits, i, w);
    ShlSum(Shl(Prefix(bits, i + 1), w), Shl(d, s), i - w + 1);
    ShlShl(Prefix(bits, i + 1), w, i - w + 1);
    ShlShl(d, s, i - w + 1);
  }

  // ---------------------------------------------------------------------
  // The recoder
  // ---------------------------------------------------------------------

  /** A digit that is zero, or odd and inside a table of 2^(width - 2) odd multiples. */
  ghost predicate TableDigit(d: int, width: nat)
    requires width >= 2
  {
    d == 0 || (d % 2 == 1 && (if d < 0 then -d else d) / 2 < Shl(1, width - 2))
  }

  /** A digit, the position where it is due, and the bit from which the next window is cut; below zero, none is. */
  datatype Recoder = Recoder(index: int, digit: int, check: int) {

    /** A digit is waiting at a position that is still to come, from n - 1 down. */
    ghost predicate Pending(n: int) {
      0 <= index < n
    }

    /** What the waiting digit is worth. */
    ghost function Amount(n: int): int {
      if Pending(n) then Shl(digit, index) else 0
    }

    /** The check is below position n, and a waiting digit is above the check and fits its table. */
    ghost predicate Ordered(width: nat, n: int)
      requires width >= 2
    {
      && -1 <= check < n <= 254
      && (Pending(n) ==> check < index && TableDigit(digit, width) && -128 <= digit < 128)
    }

    /**
      The positions from n up are done: what the ladder collected from them, plus the waiting digit, is the prefix
      of the number down to the position of the next check.
     */
    ghost predicate Valid(bits: seq<nat>, width: nat, n: int, total: int)
      requires width >= 2
    {
      && |bits| == 256 && Ordered(width, n)
      && total + Amount(n) == Shl(Prefix(bits, check + 1), check + 1)
    }

    /** Above the highest bit, nothing is collected yet. */
    lemma Start(bits: seq<nat>, width: nat, n: nat)
      requires width >= 2 && |bits| == 256 && index == -1 && 1 <= check < n <= 254
      requires Prefix(bits, check + 1) == 0
      ensures Valid(bits, width, n, Shl(0, n))
    {
      ShlZero(n);
      ShlZero(check + 1);
    }

    /** Where two bits agree, the check moves down. */
    lemma Skip(bits: seq<nat>, width: nat, i: nat, total: int)
      requires width >= 2 && check == i && Valid(bits, width, i + 1, total)
      requires At(bits, i) == At(bits, i - 1)
      ensures this.(check := i - 1).Valid(bits, width, i + 1, total)
    {
      ShlZero(i);
      WindowStep(bits, i, 1, 0, 0);
    }

    /** At the check, no digit is waiting any more. */
    lemma NoneWaiting(width: nat, i: nat)
      requires width >= 2 && check == i && Ordered(width, i + 1)
      ensures !Pending(i + 1) && Amount(i + 1) == 0
    {
    }

    lemma ReplaceOrdered(width: nat, i: nat, w: nat, s: nat, d: int)
      requires width >= 2 && i < 254 && 1 <= w <= i + 1 && s <= w - 1 && TableDigit(d, width) && -128 <= d < 128
      ensures Recoder(i - (w - 1) + s, d, i - w).Ordered(width, i + 1)
      ensures Recoder(i - (w - 1) + s, d, i - w).Amount(i + 1) == Shl(d, i - (w - 1) + s)
    {
    }

    /** Where they differ, no digit is waiting any more, and the window's digit takes its place. */
    lemma Replace(bits: seq<nat>, width: nat, i: nat, total: int, w: nat, s: nat, d: int)
      requires width >= 2 && check == i && Valid(bits, width, i + 1, total)
      requires 1 <= w <= i + 1 && s <= w - 1 && Window(bits, i, w) == Shl(d, s)
      requires TableDigit(d, width) && -128 <= d < 128
      ensures !Pending(i + 1)
      ensures Recoder(i - (w - 1) + s, d, i - w).Valid(bits, width, i + 1, total)
    {
      NoneWaiting(width, i);
      ReplaceOrdered(width, i, w, s, d);
      WindowStep(bits, i, w, s, d);
    }

    /** The digit at position i. */
    function DigitAt(i: int): int {
      if i == index then digit else 0
    }

    lemma DigitOrdered(width: nat, i: nat)
      requires width >= 2 && check < i && Ordered(width, i + 1)
      ensures TableDigit(DigitAt(i), width) && Ordered(width, i)
      ensures Amount(i + 1) == Amount(i) + Shl(DigitAt(i), i)
    {
      ShlZero(i);
    }

    /** Emitting the digit at position i. */
    lemma Emit(bits: seq<nat>, width: nat, i: nat, acc: int)
      requires width >= 2 && check < i && Valid(bits, width, i + 1, Shl(acc, i + 1))
      ensures Valid(bits, width, i, Shl(2 * acc + DigitAt(i), i)) && TableDigit(DigitAt(i), width)
    {
      DigitOrdered(width, i);
      ShlDouble(acc, i);
      ShlSum(2 * acc, DigitAt(i), i);
    }

    /** After position 0 the ladder holds the number. */
    lemma Finished(scalar: Scalar, width: nat, acc: int)
      requires width >= 2 && Valid(Bits(scalar), width, 0, acc)
      ensures acc == Value(0x100, scalar)
    {
      WholePrefix(scalar);
    }
  }

  /** The signed value of the window of w bits that ends at bit i. */
  method WindowValue(scalar: Scalar, i: nat, w: nat) returns (v: int)
    requires i < 256 && 1 <= w <= i + 1
    ensures v == Window(Bits(scalar), i, w)
  {
    ghost var bits := Bits(scalar);
    v := -Shl(ScalarBit(scalar, i), w - 1);
    for j := 0 to w - 1
      invariant v == Segment(bits, i - w + 1, i - w + 1 + j) - Shl(At(bits, i), w - 1)
    {
      var bit := ScalarBit(scalar, i - (w - 1) + j);
      ghost var mid := i - w + 1 + j;
      SegmentSplit(bits, i - w + 1, mid, mid + 1);
      assert bit == bits[mid] == Segment(bits, mid, mid + 1);
      v := v + Shl(bit, j);
    }
    v := v + ScalarBit(scalar, i - w);
  }

  /** The odd part of a window and its shift. */
  method SplitDigit(v: int, ghost w: nat, ghost width: nat) returns (s: nat, digit: int)
    requires 1 <= w <= width <= 8 && 2 <= width
    requires v != 0 && -Shl(1, w - 1) <= v <= Shl(1, w - 1)
    ensures v == Shl(digit, s) && s <= w - 1
    ensures digit != 0 && TableDigit(digit, width) && -128 <= digit < 128
  {
    ghost var k, d := OddPart(v, w - 1);
    FitsTable(d, w - 1 - k, width);
    MaskLogPower(k);
    var lsb: byte := LowestBit(v);
    s := MaskLog(lsb);
    ShrShl(d, s);
    digit := Shr(v, s);
  }

  lemma FitsTable(d: int, m: nat, width: nat)
    requires d % 2 == 1 && -Shl(1, m) <= d <= Shl(1, m) && m < width <= 8 && 2 <= width
    ensures TableDigit(d, width) && -128 <= d < 128
  {
    ShlMonotone(m, width - 1);
    ShlMonotone(width - 1, 7);
    MaskLogPower(7);
    var half := Shl(1, width - 2);
    assert Shl(1, width - 1) == 2 * half;
  }

  lemma {:induction false} ShlMonotone(i: nat, j: nat)
    requires i <= j
    ensures 1 <= Shl(1, i) <= Shl(1, j)
  {
    if i < j {
      ShlMonotone(i, j - 1);
    } else {
      ShlZero(i);
    }
  }

  class SlideContext {
    var nextIndex: int   // the position of the digit that is waiting
    var nextDigit: int   // that digit
    var nextCheck: byte  // the bit at which the next window may begin
    ghost var check: int // the same, had it not wrapped around below zero

    ghost function State(): Recoder
      reads this
    {
      Recoder(nextIndex, nextDigit, check)
    }

    ghost predicate Valid(scalar: Scalar, width: nat, n: int, acc: int)
      requires width >= 2 && n >= 0
      reads this
    {
      nextCheck == (check + 256) % 256 && State().Valid(Bits(scalar), width, n, Shl(acc, n))
    }

    /** Nothing is recoded yet, and no bit is set from the check up. */
    ghost predicate Fresh(scalar: Scalar)
      requires 0 <= check < 256
      reads this
    {
      nextIndex == -1 && Prefix(Bits(scalar), check + 1) == 0
    }

    /** A ladder may start anywhere above the check. */
    lemma Start(scalar: Scalar, width: nat, n: nat)
      requires width >= 2 && nextCheck == check && 1 <= check < n <= 254 && Fresh(scalar)
      ensures Valid(scalar, width, n, 0)
    {
      State().Start(Bits(scalar), width, n);
    }

    /** Starts above the highest bit that is set, or at bit 0. */
    constructor (scalar: Scalar)
      requires Reduced(scalar)
      ensures 1 <= nextCheck <= 253 && check == nextCheck
      ensures Fresh(scalar)
    {
      var i := 252;
      ghost var bits := Bits(scalar);
      while i > 0 && ScalarBit(scalar, i) == 0
        invariant 0 <= i <= 252 && Segment(bits, i + 1, 256) == 0
      {
        i := i - 1;
      }
      nextCheck, check := i + 1, i + 1;
      nextIndex, nextDigit := -1, -1;
      assert Segment(bits, i + 1, 256) == bits[i + 1] + 2 * Segment(bits, i + 2, 256);
    }

    /** Moves the check down by one bit, or sets up the digit of the next window. */
    method Check(width: nat, i: nat, scalar: Scalar, ghost total: int)
      requires 2 <= width <= 8 && nextCheck == i == check && State().Valid(Bits(scalar), width, i + 1, total)
      modifies this
      ensures nextCheck == (check + 256) % 256 && check < i
      ensures State().Valid(Bits(scalar), width, i + 1, total)
    {
      ghost var before := State();
      var b, c := ScalarBit(scalar, i), ScalarBit(scalar, i - 1);
      assert b == At(Bits(scalar), i) && c == At(Bits(scalar), i - 1);
      if b == c {
        before.Skip(Bits(scalar), width, i, total);
        nextCheck, check := (nextCheck as int + 255) % 256, i - 1;
      } else {
        NewWindow(width, i, scalar, total);
      }
    }

    /** Sets up the digit of the window that ends at bit i. */
    method NewWindow(width: nat, i: nat, scalar: Scalar, ghost total: int)
      requires 2 <= width <= 8 && nextCheck == i == check && State().Valid(Bits(scalar), width, i + 1, total)
      requires At(Bits(scalar), i) != At(Bits(scalar), i - 1)
      modifies this
      ensures nextCheck == (check + 256) % 256 && check < i
      ensures State().Valid(Bits(scalar), width, i + 1, total)
    {
      var w := Min(width, i + 1);
      var v := WindowValue(scalar, i, w);
      WindowRange(Bits(scalar), i, w);
      var s, d := SplitDigit(v, w, width);
      State().Replace(Bits(scalar), width, i, total, w, s, d);
      nextIndex, nextDigit := i - (w - 1) + s, d;
      nextCheck, check := (nextCheck as int + 256 - w) % 256, i - w;
      assert State() == Recoder(i - (w - 1) + s, d, i - w);
    }

    /** The digit at position i. */
    method Step(width: nat, i: nat, scalar: Scalar, ghost acc: int)
      returns (digit: int, ghost acc': int)
      requires 2 <= width <= 8 && Valid(scalar, width, i + 1, acc)
      modifies this
      ensures acc' == 2 * acc + digit && Valid(scalar, width, i, acc') && TableDigit(digit, width)
    {
      if i == nextCheck {
        Check(width, i, scalar, Shl(acc, i + 1));
      }
      State().Emit(Bits(scalar), width, i, acc);
      digit := if i == nextIndex then nextDigit else 0;
      acc' := 2 * acc + digit;
    }
  }

  // ---------------------------------------------------------------------
  // The merged ladder
  // ---------------------------------------------------------------------

  const P_W_WIDTH: nat := 3
  const B_W_WIDTH: nat := 5

  const P_W_SIZE: nat := 2
  const B_W_SIZE: nat := 8

  /** How often the entry of a table holds its point: the tables are of the odd multiples. */
  function Entry(index: nat, size: nat): (times: nat)
    requires index < size
    ensures times == 2 * index + 1
  {
    2 * index + 1
  }

  /** Adds the entry for a digit, or takes it away. */
  method AddDigit(times: int, digit: int, size: nat) returns (times': int)
    requires digit != 0 ==> digit % 2 == 1 && (if digit < 0 then -digit else digit) / 2 < size
    ensures times' == times + digit
  {
    times' := times;
    if digit > 0 {
      times' := times' + Entry(digit / 2, size);
    }
    if digit < 0 {
      times' := times' - Entry(-digit / 2, size);
    }
  }

  lemma TableSizes()
    ensures Shl(1, P_W_WIDTH - 2) == P_W_SIZE && Shl(1, B_W_WIDTH - 2) == B_W_SIZE
  {
    assert Shl(1, 3) == 2 * Shl(1, 2) && Shl(1, 2) == 2 * Shl(1, 1);
  }

  /** One doubling, and the digits of both scalars. */
  method Round(hSlide: SlideContext, sSlide: SlideContext, i: nat, h: Scalar, s: Scalar, hTimes: int, sTimes: int)
    returns (hTimes': int, sTimes': int)
    requires hSlide != sSlide
    requires hSlide.Valid(h, P_W_WIDTH, i + 1, hTimes) && sSlide.Valid(s, B_W_WIDTH, i + 1, sTimes)
    modifies hSlide, sSlide
    ensures hSlide.Valid(h, P_W_WIDTH, i, hTimes') && sSlide.Valid(s, B_W_WIDTH, i, sTimes')
  {
    var hDigit, hAcc := hSlide.Step(P_W_WIDTH, i, h, hTimes);
    assert sSlide.Valid(s, B_W_WIDTH, i + 1, sTimes);
    var sDigit, sAcc := sSlide.Step(B_W_WIDTH, i, s, sTimes);
    TableSizes();
    hTimes' := AddDigit(2 * hTimes, hDigit, P_W_SIZE);
    sTimes' := AddDigit(2 * sTimes, sDigit, B_W_SIZE);
    assert hTimes' == hAcc && sTimes' == sAcc;
  }

  /**
    The ladder that recodes two scalars at once, with a table of 2 and a table of 8 odd multiples. The curve points
    are left out: what is kept of the sum is how often it holds each of the two points.
   */
  method Ladder(h: Scalar, s: Scalar) returns (hTimes: int, sTimes: int)
    requires Reduced(h) && Reduced(s)
    ensures hTimes == Value(0x100, h) && sTimes == Value(0x100, s)
  {
    var hSlide := new SlideContext(h);
    var sSlide := new SlideContext(s);
    var top := if hSlide.nextCheck >= sSlide.nextCheck then hSlide.nextCheck else sSlide.nextCheck;
    var n: nat := top as int + 1;
    hSlide.Start(h, P_W_WIDTH, n);
    sSlide.Start(s, B_W_WIDTH, n);
    hTimes, sTimes := 0, 0;
    for i := n downto 0
      invariant hSlide.Valid(h, P_W_WIDTH, i, hTimes) && sSlide.Valid(s, B_W_WIDTH, i, sTimes)
    {
      hTimes, sTimes := Round(hSlide, sSlide, i, h, s, hTimes, sTimes);
    }
    hSlide.State().Finished(h, P_W_WIDTH, hTimes);
    sSlide.State().Finished(s, B_W_WIDTH, sTimes);
  }
}
