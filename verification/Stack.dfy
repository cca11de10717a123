// The binned stack (src/container/stack.c): a bin table whose first bin grows and shrinks, and whose other bins are
// allocated at full size.

module Stack {
  import opened Words

  const BIN: nat := 32
  const INITIAL: nat := 4

  ghost predicate PowerOfTwo(p: nat)
  {
    p == 1 || (p > 1 && p % 2 == 0 && PowerOfTwo(p / 2))
  }

  /** The least power of two that is at least len. */
  function BinCount(len: nat): (power: nat)
    ensures power >= 1 && power >= len
  {
    DoubleUntil(1, len)
  }

  function DoubleUntil(power: nat, len: nat): (r: nat)
    requires power >= 1
    ensures r >= power && r >= len
    decreases if power < len then len - power else 0
  {
    if power < len then DoubleUntil(2 * power, len) else power
  }

  lemma {:induction false} DoubleUntilPower(power: nat, len: nat)
    requires PowerOfTwo(power) && power >= 1
    ensures PowerOfTwo(DoubleUntil(power, len))
    decreases if power < len then len - power else 0
  {
    if power < len {
      assert 2 * power % 2 == 0 && 2 * power / 2 == power;
      DoubleUntilPower(2 * power, len);
    }
  }

  lemma {:induction false} DoubleUntilLeast(power: nat, len: nat, p: nat)
    requires PowerOfTwo(power) && PowerOfTwo(p) && power >= 1 && p >= len && p >= power
    ensures DoubleUntil(power, len) <= p
    decreases if power < len then len - power else 0
  {
    if power < len {
      PowersApart(power, p);
      assert 2 * power % 2 == 0 && 2 * power / 2 == power;
      DoubleUntilLeast(2 * power, len, p);
    }
  }

  lemma {:induction false} PowersApart(a: nat, b: nat)
    requires PowerOfTwo(a) && PowerOfTwo(b) && a < b
    ensures 2 * a <= b
    decreases b
  {
    if a > 1 {
      PowersApart(a / 2, b / 2);
    }
  }

  /** The bin count is the least power of two that is at least len. */
  lemma BinCountLeast(len: nat, p: nat)
    requires PowerOfTwo(p) && p >= len
    ensures PowerOfTwo(BinCount(len)) && BinCount(len) <= p
  {
    DoubleUntilPower(1, len);
    DoubleUntilLeast(1, len, p);
  }

  lemma BinCountMonotone(a: nat, b: nat)
    requires a <= b
    ensures BinCount(a) <= BinCount(b)
  {
    DoubleUntilPower(1, b);
    DoubleUntilLeast(1, a, BinCount(b));
  }

  /** How many bins len elements take. */
  function Bins(len: nat): nat {
    (len + BIN - 1) / BIN
  }

  method PassBinCount(len: nat) returns (power: nat)
    ensures power == BinCount(len)
  {
    power := 1;
    while power < len
      invariant power >= 1 && DoubleUntil(power, len) == BinCount(len)
      decreases if power < len then len - power else 0
    {
      power := power * 2;
    }
  }

  /** How many elements bin i has to hold when the stack has len elements. */
  function BinSize(i: nat, len: nat): nat {
    if i > 0 then BIN else BinCount(if len < BIN then len else BIN)
  }

  /** No bin gets larger than the others are, and the first one is as large as soon as there are others. */
  lemma BinSizes(i: nat, len: nat)
    ensures BinSize(i, len) <= 32 && (i > 0 || len > 16 ==> BinSize(i, len) == 32)
  {
    var n := if len < BIN then len else BIN;
    assert PowerOfTwo(32) && PowerOfTwo(1) by {
      assert PowerOfTwo(2) && PowerOfTwo(4) && PowerOfTwo(8) && PowerOfTwo(16);
    }
    DoubleUntilLeast(1, n, 32);
    DoubleUntilPower(1, n);
    if len > 16 {
      SmallPower(BinCount(n));
    }
  }

  lemma SmallPower(p: nat)
    requires PowerOfTwo(p) && 16 < p <= 32
    ensures p == 32
  {
    assert p % 2 == 0 && PowerOfTwo(p / 2);
    assert p / 2 % 2 == 0 && PowerOfTwo(p / 4);
    assert p / 4 % 2 == 0 && PowerOfTwo(p / 8);
    assert p / 8 % 2 == 0 && PowerOfTwo(p / 16);
  }

  lemma BinBounds(len: nat)
    requires len > 0
    ensures Bins(len) == (len - 1) / BIN + 1
    ensures Bins(len + 1) == len / BIN + 1
    ensures Bins(len) == if len % BIN == 0 then len / BIN else len / BIN + 1
  {
  }

  class Stack<T(0)> {
    var len: nat
    var data: array?<array?<T>>
    ghost var Contents: seq<T>
    ghost var Repr: set<object>  // the bin table and the bins

    ghost predicate Valid()
      reads this, Repr
    {
      Holds(Contents) && len == |Contents| && (data == null <==> len == 0)
    }

    /** The elements lie in the bins, with the memory that the allocation policy promises for that many. */
    ghost predicate Holds(s: seq<T>)
      reads this`data, this`Repr, Repr
    {
      && this !in Repr
      && (s != [] ==>
            && data != null && data in Repr
            && Bins(|s|) <= BinCount(Bins(|s|)) <= data.Length
            && (forall i :: 0 <= i < Bins(|s|) ==> BinHolds(i, s))
            && (forall i, j :: 0 <= i < j < Bins(|s|) ==> data[i] != data[j]))
    }

    ghost predicate BinHolds(i: nat, s: seq<T>)
      requires data != null && data in Repr && i < data.Length
      reads this`data, this`Repr, Repr
    {
      && data[i] != null && data[i] in Repr && data[i] as object != data
      && data[i].Length >= BinSize(i, |s|)
      && forall j :: 0 <= j < BIN && BIN * i + j < |s| ==> j < data[i].Length && data[i][j] == s[BIN * i + j]
    }

    constructor ()
      ensures Valid() && fresh(Repr) && Contents == []
    {
      len, data, Contents := 0, null, [];
      Repr := {};
    }

    /** Gives the first bin, which holds all the elements, room for size of them. */
    method ResizeFirst(size: nat, kept: nat)
      requires Holds(Contents) && 0 < kept == |Contents| <= BIN && BinCount(kept) <= size
      modifies data, this`Repr
      ensures Holds(Contents) && fresh(Repr - old(Repr)) && old(Repr) <= Repr
      ensures data[0] != null && data[0].Length == size
    {
      BinBounds(kept);
      assert BinHolds(0, Contents);
      var bin := new T[size];
      var first := data[0];
      forall i | 0 <= i < kept {
        bin[i] := first[i];
      }
      data[0] := bin;
      Repr := Repr + {bin};
    }

    /** Memory for the first bin, when the stack is empty. */
    method AllocateFirst()
      requires Holds(Contents) && Contents == []
      modifies this`data, this`Repr
      ensures Holds(Contents) && fresh(Repr - old(Repr)) && old(Repr) <= Repr
      ensures data != null && data in Repr && data.Length == 1
      ensures BinHolds(0, []) && data[0].Length == INITIAL
    {
      var table := new array?<T>[1];
      var first := new T[INITIAL];
      table[0] := first;
      data := table;
      Repr := Repr + {table, first};
    }

    /** Makes room in the bin table for bin number newBin. */
    method GrowTable(newBin: nat)
      requires Holds(Contents) && |Contents| == BIN * newBin && newBin > 0
      modifies this`data, this`Repr
      ensures Holds(Contents) && fresh(Repr - old(Repr)) && old(Repr) <= Repr
      ensures data.Length >= BinCount(newBin + 1) && (data == old(data) || fresh(data))
    {
      BinBounds(|Contents|);
      var currentBins := PassBinCount(newBin);
      var neededBins := PassBinCount(newBin + 1);
      if currentBins != neededBins {
        var table := new array?<T>[neededBins];
        var before := data;
        BinCountMonotone(newBin, newBin + 1);
        forall i | 0 <= i < neededBins {
          table[i] := if i < before.Length then before[i] else null;
        }
        data := table;
        Repr := Repr + {table};
        forall i | 0 <= i < newBin
          ensures BinHolds(i, Contents)
        {
          assert old(BinHolds(i, Contents));
        }
      }
    }

    /** There is memory for one more element in bin b. */
    ghost predicate Room(b: nat)
      reads this, Repr
    {
      && Holds(Contents) && b == |Contents| / BIN
      && data != null && data in Repr
      && b + 1 <= BinCount(b + 1) <= data.Length
      && data[b] != null && data[b] in Repr && data[b] as object != data
      && data[b].Length >= BinSize(b, |Contents| + 1)
      && forall i :: 0 <= i < b ==> data[i] != data[b]
    }

    method AllocateBin(newBin: nat)
      requires Holds(Contents) && |Contents| == BIN * newBin && newBin > 0 && data.Length >= BinCount(newBin + 1)
      modifies data, this`Repr
      ensures Room(newBin) && fresh(Repr - old(Repr)) && old(Repr) <= Repr
    {
      BinBounds(|Contents|);
      var bin := new T[BIN];
      data[newBin] := bin;
      Repr := Repr + {bin};
      forall i | 0 <= i < newBin
        ensures BinHolds(i, Contents)
      {
        assert old(BinHolds(i, Contents));
      }
    }

    /** Makes room in the first bin. */
    method ReserveFirst()
      requires Valid() && len < BIN
      modifies this`data, this`Repr, data
      ensures Room(0) && fresh(Repr - old(Repr)) && old(Repr) <= Repr
    {
      BinBounds(len + 1);
      if len == 0 {
        AllocateFirst();
      } else {
        assert BinHolds(0, Contents);
      }
      var power := PassBinCount(len);
      if power == len {
        var size := PassBinCount(len + 1);
        BinCountMonotone(len, len + 1);
        ResizeFirst(size, len);
        assert BinHolds(0, Contents);
      } else {
        DoubleUntilPower(1, len);
        BinCountLeast(len + 1, power);
      }
    }

    /** Makes room in a bin behind the first. */
    method ReserveNext(newBin: nat)
      requires Valid() && len >= BIN && newBin == len / BIN
      modifies this`data, this`Repr, data
      ensures Room(newBin) && fresh(Repr - old(Repr)) && old(Repr) <= Repr
    {
      BinBounds(len);
      var maxBin := (len - 1) / BIN;
      if newBin != maxBin {
        GrowTable(newBin);
        AllocateBin(newBin);
      } else {
        assert BinHolds(newBin, Contents);
      }
    }

    /** Writes x behind the elements. */
    method Place(b: nat, x: T)
      requires Room(b) && len == |Contents|
      modifies this`len, this`Contents, data[b]
      ensures Valid() && Contents == old(Contents) + [x]
    {
      ghost var (before, s, size) := (Contents, Contents + [x], BinSize(b, |Contents| + 1));
      BinBounds(len + 1);
      var offset := len % BIN;
      assert len == BIN * b + offset && offset < BIN;
      assert offset > 0 ==> BinHolds(b, before);
      data[b][offset] := x;
      len := len + 1;
      Contents := s;
      forall i | 0 <= i < b
        ensures BinHolds(i, s)
      {
        assert old(BinHolds(i, before));
      }
      assert data[b].Length >= size;
      assert BinHolds(b, s);
      AllBins(s, b);
    }

    /** The bins hold a sequence that ends in bin b. */
    lemma AllBins(s: seq<T>, b: nat)
      requires this !in Repr && s != [] && b == (|s| - 1) / BIN
      requires data != null && data in Repr && b + 1 <= BinCount(b + 1) <= data.Length
      requires forall i :: 0 <= i <= b ==> BinHolds(i, s)
      requires forall i, j :: 0 <= i < j <= b ==> data[i] != data[j]
      ensures Holds(s)
    {
      BinBounds(|s|);
    }

    method Push(x: T)
      requires Valid()
      modifies this, Repr
      ensures Valid() && fresh(Repr - old(Repr)) && Contents == old(Contents) + [x]
    {
      var newBin := len / BIN;
      if newBin == 0 {
        ReserveFirst();
      } else {
        ReserveNext(newBin);
      }
      Place(newBin, x);
    }

    /** The element at a position, none if there is no such position. */
    method Get(pos: nat) returns (element: Option<T>)
      requires Valid()
      ensures element == if pos < |Contents| then Some(Contents[pos]) else None
    {
      if len <= pos {
        return None;
      }
      var bin, offset := pos / BIN, pos % BIN;
      BinBounds(len);
      assert BinHolds(bin, Contents) && BIN * bin + offset == pos;
      return Some(data[bin][offset]);
    }

    method Top() returns (element: Option<T>)
      requires Valid()
      ensures element == if Contents == [] then None else Some(Contents[|Contents| - 1])
    {
      element := Get(if len > 0 then len - 1 else 0);
    }

    /** What the bins hold of a shorter stack. */
    lemma HoldsPrefix(n: nat)
      requires Holds(Contents) && n <= |Contents|
      ensures Holds(Contents[..n])
    {
      var s := Contents[..n];
      if n > 0 {
        BinBounds(n);
        BinBounds(|Contents|);
        BinCountMonotone(Bins(n), Bins(|Contents|));
        BinCountMonotone(if n < BIN then n else BIN, if |Contents| < BIN then |Contents| else BIN);
        forall i | 0 <= i < Bins(n)
          ensures BinHolds(i, s)
        {
          assert BinHolds(i, Contents);
        }
      }
    }

    method Pop() returns (element: Option<T>)
      requires Valid()
      modifies this, Repr
      ensures Valid() && fresh(Repr - old(Repr))
      ensures old(Contents) == [] ==> element == None && Contents == []
      ensures old(Contents) != [] ==> element.Some? && old(Contents) == Contents + [element.value]
    {
      if len == 0 {
        return None;
      }
      element := Top();
      HoldsPrefix(len - 1);
      Contents := Contents[..len - 1];
      if len == 1 {
        data := null;
      } else {
        Release();
      }
      len := len - 1;
    }

    /** Gives back the memory of the last element, which is not the only one. */
    method Release()
      requires Holds(Contents) && len == |Contents| + 1 && len >= 2 && Bins(len) <= data.Length
      modifies this`Repr, data
      ensures Holds(Contents) && fresh(Repr - old(Repr))
    {
      if len <= BIN {
        var entrySize := PassBinCount(len);
        var newSize := PassBinCount(len - 1);
        if entrySize != newSize {
          ResizeFirst(newSize, len - 1);
        }
      } else {
        BinBounds(len - 1);
        BinBounds(len);
        var maxBin := (len - 1) / BIN;
        var newBin := (len - 2) / BIN;
        if maxBin != newBin {
          ClearBin(maxBin);
        }
      }
    }

    /** Forgets a bin behind those that are in use. */
    method ClearBin(maxBin: nat)
      requires Holds(Contents) && Contents != [] && Bins(|Contents|) == maxBin < data.Length
      modifies data
      ensures Holds(Contents)
    {
      data[maxBin] := null;
      forall i | 0 <= i < maxBin
        ensures BinHolds(i, Contents)
      {
        assert old(BinHolds(i, Contents));
      }
    }
  }
}
