// Which blocks Argon2 refers to, and filling its memory in place (src/monocypher.c, section 3.4 of RFC 9106).

module Argon2 {
  import opened Words

  /** Arithmetic on 32-bit words. */
  function U32(x: int): nat {
    x % B
  }

  /** The first column of a slice: slice * segment. */
  function SliceStart(slice: nat, segment: nat): nat {
    if slice == 0 then 0 else if slice == 1 then segment else if slice == 2 then 2 * segment else 3 * segment
  }

  /** A block's place in its lane, for segments of a size such that a lane has fewer than 2^32 blocks. */
  predicate Place(slice: nat, block: nat, segment: nat) {
    slice < 4 && block < segment && 2 <= segment && 4 * segment < B
  }

  function Column(slice: nat, block: nat, segment: nat): nat {
    SliceStart(slice, segment) + block
  }

  /** The column before, around the end of the lane. */
  function Previous(column: nat, segment: nat): int {
    if column == 0 then 4 * segment - 1 else column - 1
  }

  function WindowStart(pass: nat, slice: nat, segment: nat): nat {
    if pass == 0 then 0 else SliceStart((slice + 1) % 4, segment)
  }

  /** The size of the window, as it is computed in 32 bits; same says whether it is in the lane of the current block. */
  function WindowSize(pass: nat, slice: nat, block: nat, same: bool, segment: nat): nat {
    var nbSegments := if pass == 0 then slice else 3;
    U32(SliceStart(nbSegments, segment) + (if same then U32(block - 1) else if block == 0 then U32(-1) else 0))
  }

  /**
    The blocks that section 3.4 of RFC 9106 allows: those of the last three slices, as far as there are any yet, in the
    same lane also those of the current segment so far; the previous block is left out in the same lane, and the block
    beside it in another lane if the current block is the first of its segment.
   */
  predicate Allowed(pass: nat, slice: nat, block: nat, same: bool, segment: nat, column: nat) {
    var start := SliceStart(slice, segment);
    && column < 4 * segment
    && (column < start || (pass > 0 && column >= start + segment) || (same && column < start + block))
    && !((same || block == 0) && column == Previous(start + block, segment))
  }

  /** The window is not empty. */
  lemma WindowNotEmpty(pass: nat, slice: nat, block: nat, same: bool, segment: nat)
    requires Place(slice, block, segment) && (pass == 0 && slice == 0 ==> block >= 2 && same)
    ensures 0 < WindowSize(pass, slice, block, same, segment) < 4 * segment
    ensures WindowSize(pass, slice, block, same, segment)
         == SliceStart(if pass == 0 then slice else 3, segment)
            + if same then block - 1 else if block == 0 then -1 else 0
  {
    var older := SliceStart(if pass == 0 then slice else 3, segment);
    if block > 0 {
      U32Range(older + (if same then block - 1 else 0));
      U32Range(block - 1);
    } else {
      DivUnique(-1, B, -1, B - 1);
      U32Range(older + (B - 1));
    }
  }

  lemma U32Range(x: nat)
    requires x < 2 * B
    ensures U32(x) == if x < B then x else x - B
  {
    DivUnique(x, B, if x < B then 0 else 1, if x < B then x else x - B);
  }

  /** The columns of the window are exactly the allowed ones. */
  lemma WindowAllowed(pass: nat, slice: nat, block: nat, same: bool, segment: nat, z: nat)
    requires Place(slice, block, segment) && (pass == 0 && slice == 0 ==> block >= 2 && same)
    requires z < WindowSize(pass, slice, block, same, segment)
    ensures Allowed(pass, slice, block, same, segment, (WindowStart(pass, slice, segment) + z) % (4 * segment))
  {
    WindowNotEmpty(pass, slice, block, same, segment);
    var sum := WindowStart(pass, slice, segment) + z;
    ModOnce(sum, 4 * segment);
  }

  lemma AllowedInWindow(pass: nat, slice: nat, block: nat, same: bool, segment: nat, column: nat) returns (z: nat)
    requires Place(slice, block, segment) && (pass == 0 && slice == 0 ==> block >= 2 && same)
    requires Allowed(pass, slice, block, same, segment, column)
    ensures z < WindowSize(pass, slice, block, same, segment)
    ensures (WindowStart(pass, slice, segment) + z) % (4 * segment) == column
  {
    WindowNotEmpty(pass, slice, block, same, segment);
    var start := WindowStart(pass, slice, segment);
    z := if column >= start then column - start else column + 4 * segment - start;
    ModOnce(start + z, 4 * segment);
  }

  lemma ModOnce(x: nat, m: nat)
    requires m > 0 && x < 2 * m
    ensures x % m == if x < m then x else x - m
  {
    if x < m {
      DivUnique(x, m, 0, x);
    } else {
      DivUnique(x, m, 1, x - m);
    }
  }

  // ---------------------------------------------------------------------
  // The reference block
  // ---------------------------------------------------------------------

  /** The distance into the window that a seed selects. */
  function Selected(seed: nat, size: nat): int {
    var j1 := seed % B;
    var x := j1 * j1 / B;
    var y := size * x / B;
    size - 1 - y
  }

  /**
    The distance is the one for the square of the low half of the seed, scaled down to the window: squares lead to the
    most recent blocks more often.
   */
  lemma SelectedExact(high: nat, low: nat, x: nat, size: nat, d: nat)
    requires low < B && x * B <= low * low < (x + 1) * B
    ensures Selected(high * B + low, size) == d <==> (size - 1 - d) * B <= size * x < (size - d) * B
  {
    DivUnique(high * B + low, B, high, low);
    DivUnique(low * low, B, x, low * low - x * B);
    var y := size * x / B;
    if (size - 1 - d) * B <= size * x < (size - d) * B {
      DivUnique(size * x, B, size - 1 - d, size * x - (size - 1 - d) * B);
    }
  }

  lemma SelectedBelow(seed: nat, size: nat)
    requires size > 0
    ensures 0 <= Selected(seed, size) < size
  {
    var (w, j1) := (B, seed % B);
    var x := j1 * j1 / w;
    MulLe(j1, j1, w - 1, w - 1);
    ScaledBelow(size, x);
  }

  lemma ScaledBelow(size: nat, x: nat)
    requires size > 0 && x < B
    ensures 0 <= size * x / B < size
  {
    MulLe(size, x, size, 0xffff_ffff);
    var y := size * x / B;
    assert size * x <= size * 0xffff_ffff < size * B;
  }

  /** The lane of the reference block. */
  function ReferenceLane(pass: nat, slice: nat, lane: nat, lanes: nat, seed: nat): (l: nat)
    requires lane < lanes
    ensures l < lanes
  {
    if pass == 0 && slice == 0 then lane else seed / B % lanes
  }

  /** The column of the reference block. */
  function ReferenceColumn(pass: nat, slice: nat, block: nat, same: bool, segment: nat, seed: nat): (column: nat)
    requires Place(slice, block, segment) && (pass == 0 && slice == 0 ==> block >= 2 && same)
    ensures Allowed(pass, slice, block, same, segment, column)
  {
    var size := WindowSize(pass, slice, block, same, segment);
    WindowNotEmpty(pass, slice, block, same, segment);
    SelectedBelow(seed, size);
    WindowAllowed(pass, slice, block, same, segment, Selected(seed, size));
    (WindowStart(pass, slice, segment) + Selected(seed, size)) % (4 * segment)
  }

  // ---------------------------------------------------------------------
  // The contents of the memory
  // ---------------------------------------------------------------------

  /**
    How a block is computed: from the previous and the reference block, and in later passes also from what it replaces;
    the seed is the first word of the previous block, or a word of an address block, of which each place in a pass has
    one for every 128 columns.
   */
  datatype Config<!T> = Config(
    lanes: nat, segment: nat, passes: nat,
    start: (nat, nat) -> T,
    fill: (T, T) -> T,
    refill: (T, T, T) -> T,
    seedOf: T -> nat,
    address: (nat, nat, nat, nat, nat) -> nat,
    algorithm: Algorithm)

  datatype Algorithm = Argon2d | Argon2i | Argon2id

  predicate Sized<T>(c: Config<T>) {
    c.lanes > 0 && c.segment >= 2 && 4 * c.segment < B && c.lanes * (4 * c.segment) < B
  }

  /** Whether the seed only depends on the place. */
  predicate Independent(algorithm: Algorithm, pass: nat, slice: nat) {
    algorithm == Argon2i || (algorithm == Argon2id && pass == 0 && slice < 2)
  }

  /** The word for a block, of the address block with its number in the segment. */
  function PlaceSeed<T>(c: Config<T>, pass: nat, lane: nat, slice: nat, block: nat): nat {
    c.address(pass, lane, slice, block / 128 + 1, block % 128)
  }

  function SliceOf(column: nat, segment: nat): nat {
    if column < segment then 0 else if column < 2 * segment then 1 else if column < 3 * segment then 2 else 3
  }

  /** The value of a block in a pass, by the recurrence of section 3.4, without any order of the lanes. */
  function BlockValue<T>(c: Config<T>, pass: nat, lane: nat, column: nat): T
    requires Sized(c) && lane < c.lanes && column < 4 * c.segment
    decreases pass, column, 1
  {
    if pass == 0 && column < 2 then c.start(lane, column)
    else
      var before := BlockBefore(c, pass, lane, column);
      var (l, z) := Reference(c, pass, lane, column, before);
      var reference := if z < column && (l == lane || SliceOf(z, c.segment) < SliceOf(column, c.segment))
                       then BlockValue(c, pass, l, z) else BlockValue(c, pass - 1, l, z);
      if pass == 0 then c.fill(before, reference)
      else c.refill(before, reference, BlockValue(c, pass - 1, lane, column))
  }

  /** The value of the previous block. */
  function BlockBefore<T>(c: Config<T>, pass: nat, lane: nat, column: nat): T
    requires Sized(c) && lane < c.lanes && column < 4 * c.segment && (pass == 0 ==> column >= 2)
    decreases pass, column, 0
  {
    if column > 0 then BlockValue(c, pass, lane, column - 1) else BlockValue(c, pass - 1, lane, 4 * c.segment - 1)
  }

  function Seed<T>(c: Config<T>, pass: nat, lane: nat, column: nat, before: T): nat
    requires Sized(c) && column < 4 * c.segment
  {
    var slice := SliceOf(column, c.segment);
    if Independent(c.algorithm, pass, slice)
    then PlaceSeed(c, pass, lane, slice, column - SliceStart(slice, c.segment))
    else c.seedOf(before)
  }

  /** The reference block of a place. */
  function Reference<T>(c: Config<T>, pass: nat, lane: nat, column: nat, before: T): (r: (nat, nat))
    requires Sized(c) && lane < c.lanes && column < 4 * c.segment && (pass == 0 ==> column >= 2)
    ensures r.0 < c.lanes
    ensures var slice := SliceOf(column, c.segment);
            Allowed(pass, slice, column - SliceStart(slice, c.segment), r.0 == lane, c.segment, r.1)
    ensures pass == 0 ==> r.1 < column && (r.0 == lane || SliceOf(r.1, c.segment) < SliceOf(column, c.segment))
  {
    var slice := SliceOf(column, c.segment);
    var block := column - SliceStart(slice, c.segment);
    var seed := Seed(c, pass, lane, column, before);
    var l := ReferenceLane(pass, slice, lane, c.lanes, seed);
    (l, ReferenceColumn(pass, slice, block, l == lane, c.segment, seed))
  }

  lemma SliceNumbers(column: nat, segment: nat)
    requires column < 4 * segment
    ensures segment > 0 && SliceOf(column, segment) == column / segment
    ensures column - SliceStart(SliceOf(column, segment), segment) == column % segment
  {
    var slice := SliceOf(column, segment);
    assert SliceStart(slice, segment) == segment * slice;
    DivUnique(column, segment, slice, column - segment * slice);
  }

  /** The lane that the high half of a seed selects. */
  lemma LaneExact(pass: nat, slice: nat, lane: nat, lanes: nat, high: nat, low: nat)
    requires lane < lanes && low < B
    ensures ReferenceLane(pass, slice, lane, lanes, high * B + low)
         == if pass == 0 && slice == 0 then lane else high % lanes
  {
    DivUnique(high * B + low, B, high, low);
  }

  /** The first column and the size of the window, without 32-bit arithmetic. */
  function Window(pass: nat, column: nat, same: bool, segment: nat): (int, int)
    requires segment > 0
  {
    var (slice, block) := (column / segment, column % segment);
    (if pass == 0 then 0 else (slice + 1) % 4 * segment,
     (if pass == 0 then slice else 3) * segment + (if same then block - 1 else if block == 0 then -1 else 0))
  }

  lemma WindowNumbers(pass: nat, column: nat, same: bool, segment: nat)
    requires column < 4 * segment && 2 <= segment && 4 * segment < B
    requires pass == 0 && column < segment ==> column >= 2 && same
    ensures var slice := SliceOf(column, segment);
            Window(pass, column, same, segment)
            == (WindowStart(pass, slice, segment),
                WindowSize(pass, slice, column - SliceStart(slice, segment), same, segment))
  {
    SliceNumbers(column, segment);
    WindowNotEmpty(pass, SliceOf(column, segment), column % segment, same, segment);
  }

  lemma ColumnExact(pass: nat, slice: nat, block: nat, same: bool, segment: nat, seed: nat, d: nat)
    requires Place(slice, block, segment) && (pass == 0 && slice == 0 ==> block >= 2 && same)
    requires Selected(seed, WindowSize(pass, slice, block, same, segment)) == d
    ensures ReferenceColumn(pass, slice, block, same, segment, seed)
         == (WindowStart(pass, slice, segment) + d) % (4 * segment)
  {
  }

  /** Where the reference block of section 3.4.1.2 of RFC 9106 lies, of which d is the distance into the window. */
  function ReferenceAt<T>(c: Config<T>, pass: nat, lane: nat, column: nat, high: nat, d: nat): (int, int)
    requires Sized(c)
  {
    var l := SelectedLane(c, pass, lane, column, high);
    (l, (Window(pass, column, l == lane, c.segment).0 + d) % (4 * c.segment))
  }

  function SelectedLane<T>(c: Config<T>, pass: nat, lane: nat, column: nat, high: nat): nat
    requires Sized(c)
  {
    if pass == 0 && column < c.segment then lane else high % c.lanes
  }

  /** The reference block, from the halves of the seed; x is the high half of the square of the low one. */
  lemma ReferenceExact<T>(c: Config<T>, pass: nat, lane: nat, column: nat, before: T,
                          high: nat, low: nat, x: nat, d: nat)
    requires Sized(c) && lane < c.lanes && column < 4 * c.segment && (pass == 0 ==> column >= 2)
    requires Seed(c, pass, lane, column, before) == high * B + low && low < B && x * B <= low * low < (x + 1) * B
    requires var size := Window(pass, column, SelectedLane(c, pass, lane, column, high) == lane, c.segment).1;
             (size - 1 - d) * B <= size * x < (size - d) * B
    ensures Reference(c, pass, lane, column, before) == ReferenceAt(c, pass, lane, column, high, d)
  {
    var slice := SliceOf(column, c.segment);
    var l := SelectedLane(c, pass, lane, column, high);
    LaneExact(pass, slice, lane, c.lanes, high, low);
    WindowNumbers(pass, column, l == lane, c.segment);
    SelectedExact(high, low, x, Window(pass, column, l == lane, c.segment).1, d);
    ColumnExact(pass, slice, column - SliceStart(slice, c.segment), l == lane, c.segment, high * B + low, d);
  }

  // ---------------------------------------------------------------------
  // Filling the memory in place
  // ---------------------------------------------------------------------

  /** Where a block lies in the memory. */
  function Flat(lane: nat, column: nat, size: nat): nat {
    lane * size + column
  }

  lemma FlatInside(lane: nat, column: nat, lanes: nat, size: nat)
    requires lane < lanes && column < size
    ensures Flat(lane, column, size) < lanes * size
  {
    MulDistribute(lanes - lane - 1, lane + 1, size);
    MulDistribute(lane, 1, size);
  }

  /** The indices of blocks and lanes do not change when they are cut to 32 bits. */
  lemma IndexFits<T>(c: Config<T>, lane: nat, column: nat)
    requires Sized(c) && lane < c.lanes && column < 4 * c.segment
    ensures U32(Flat(lane, column, 4 * c.segment)) == Flat(lane, column, 4 * c.segment) < c.lanes * (4 * c.segment)
  {
    var index := Flat(lane, column, 4 * c.segment);
    FlatInside(lane, column, c.lanes, 4 * c.segment);
    DivUnique(index, B, 0, index);
  }

  lemma FlatDistinct(lane: nat, column: nat, lane': nat, column': nat, size: nat)
    requires column < size && column' < size && (lane, column) != (lane', column')
    ensures Flat(lane, column, size) != Flat(lane', column', size)
  {
    if Flat(lane, column, size) == Flat(lane', column', size) {
      QuotientUnique(size, lane, column, lane', column');
    }
  }

  /** The block of a lane and column. */
  function Stored<T>(c: Config<T>, blocks: array<T>, lane: nat, column: nat): T
    requires blocks.Length >= c.lanes * (4 * c.segment) && lane < c.lanes && column < 4 * c.segment
    reads blocks
  {
    FlatInside(lane, column, c.lanes, 4 * c.segment);
    blocks[Flat(lane, column, 4 * c.segment)]
  }

  /** Lanes lie one behind the other. */
  lemma StoredAt<T>(c: Config<T>, blocks: array<T>, lane: nat, column: nat)
    requires blocks.Length >= c.lanes * (4 * c.segment) && lane < c.lanes && column < 4 * c.segment
    ensures lane * (4 * c.segment) + column < blocks.Length
    ensures Stored(c, blocks, lane, column) == blocks[lane * (4 * c.segment) + column]
  {
    FlatInside(lane, column, c.lanes, 4 * c.segment);
  }

  /** The block was computed in this pass, before the given place. */
  predicate Done(pass: nat, slice: nat, lane: nat, block: nat, segment: nat, l: nat, column: nat) {
    || (pass == 0 && column < 2)
    || SliceOf(column, segment) < slice
    || (SliceOf(column, segment) == slice && (l < lane || (l == lane && column < SliceStart(slice, segment) + block)))
  }

  /** The memory when the given place is next: values of this pass before it, and of the last pass from there on. */
  ghost predicate Progress<T>(c: Config<T>, blocks: array<T>, pass: nat, slice: nat, lane: nat, block: nat)
    requires Sized(c)
    reads blocks
  {
    && blocks.Length >= c.lanes * (4 * c.segment)
    && forall l: nat, column: nat {:trigger Stored(c, blocks, l, column)} :: l < c.lanes && column < 4 * c.segment ==>
         if Done(pass, slice, lane, block, c.segment, l, column)
         then Stored(c, blocks, l, column) == BlockValue(c, pass, l, column)
         else pass > 0 ==> Stored(c, blocks, l, column) == BlockValue(c, pass - 1, l, column)
  }

  lemma SliceOfColumn(slice: nat, block: nat, segment: nat)
    requires Place(slice, block, segment)
    ensures SliceOf(Column(slice, block, segment), segment) == slice
    ensures Column(slice, block, segment) < 4 * segment
  {
  }

  /** The previous block, around the end of the lane. */
  method PreviousBlock<T>(c: Config<T>, blocks: array<T>, pass: nat, slice: nat, lane: nat, block: nat)
    returns (before: T)
    requires Sized(c) && lane < c.lanes && Place(slice, block, c.segment) && (pass == 0 && slice == 0 ==> block >= 2)
    requires Progress(c, blocks, pass, slice, lane, block)
    ensures before == BlockBefore(c, pass, lane, Column(slice, block, c.segment))
  {
    var column := Column(slice, block, c.segment);
    SliceOfColumn(slice, block, c.segment);
    if block == 0 && slice == 0 {
      before := Stored(c, blocks, lane, 4 * c.segment - 1);
      assert !Done(pass, slice, lane, block, c.segment, lane, 4 * c.segment - 1);
    } else {
      before := Stored(c, blocks, lane, column - 1);
      assert Done(pass, slice, lane, block, c.segment, lane, column - 1);
    }
  }

  /** Computes the block at a place, from the seed that belongs there. */
  method ComputeBlock<T>(c: Config<T>, blocks: array<T>, pass: nat, slice: nat, lane: nat, block: nat,
                         fixedSeed: nat, constantTime: bool) returns (value: T)
    requires Sized(c) && lane < c.lanes && Place(slice, block, c.segment) && (pass == 0 && slice == 0 ==> block >= 2)
    requires Progress(c, blocks, pass, slice, lane, block)
    requires constantTime == Independent(c.algorithm, pass, slice)
    requires constantTime ==> fixedSeed == PlaceSeed(c, pass, lane, slice, block)
    ensures Column(slice, block, c.segment) < 4 * c.segment
    ensures value == BlockValue(c, pass, lane, Column(slice, block, c.segment))
  {
    var column := Column(slice, block, c.segment);
    SliceOfColumn(slice, block, c.segment);
    var before := PreviousBlock(c, blocks, pass, slice, lane, block);
    var seed := if constantTime then fixedSeed else c.seedOf(before);
    var l := ReferenceLane(pass, slice, lane, c.lanes, seed);
    var z := ReferenceColumn(pass, slice, block, l == lane, c.segment, seed);
    assert (l, z) == Reference(c, pass, lane, column, before);
    IndexFits(c, l, z);
    var index := U32(Flat(l, z, 4 * c.segment));
    var reference := blocks[index];
    assert reference == Stored(c, blocks, l, z);
    ReferenceReady(pass, slice, lane, block, c.segment, l, z);
    if pass == 0 {
      value := c.fill(before, reference);
    } else {
      assert !Done(pass, slice, lane, block, c.segment, lane, column);
      var replaced := Stored(c, blocks, lane, column);
      assert replaced == BlockValue(c, pass - 1, lane, column);
      value := c.refill(before, reference, replaced);
    }
  }

  /** Stores the block at a place, which becomes the last one that is done. */
  method StoreBlock<T>(c: Config<T>, blocks: array<T>, pass: nat, slice: nat, lane: nat, block: nat, value: T)
    requires Sized(c) && lane < c.lanes
    requires Place(slice, block, c.segment) && Column(slice, block, c.segment) < 4 * c.segment
    requires Progress(c, blocks, pass, slice, lane, block)
    requires value == BlockValue(c, pass, lane, Column(slice, block, c.segment))
    modifies blocks
    ensures Progress(c, blocks, pass, slice, lane, block + 1)
  {
    var size := 4 * c.segment;
    var column := Column(slice, block, c.segment);
    IndexFits(c, lane, column);
    IndexFits(c, lane, 0);
    var laneOffset := U32(lane * size);
    blocks[laneOffset + column] := value;
    forall l: nat, k: nat | l < c.lanes && k < size
      ensures Stored(c, blocks, l, k) == if (l, k) == (lane, column) then value else old(Stored(c, blocks, l, k))
    {
      FlatInside(l, k, c.lanes, size);
      if (l, k) != (lane, column) {
        FlatDistinct(l, k, lane, column, size);
      }
    }
    forall l: nat, k: nat | l < c.lanes && k < size
      ensures Done(pass, slice, lane, block + 1, c.segment, l, k)
         <==> Done(pass, slice, lane, block, c.segment, l, k) || (l, k) == (lane, column)
    {
      DoneNext(pass, slice, lane, block, c.segment, l, k);
    }
  }

  /** Fills a segment, from the first block of it that is not there from the start. */
  method FillSegment<T>(c: Config<T>, blocks: array<T>, pass: nat, slice: nat, lane: nat, constantTime: bool)
    requires Sized(c) && lane < c.lanes && slice < 4
    requires Progress(c, blocks, pass, slice, lane, if pass == 0 && slice == 0 then 2 else 0)
    requires constantTime == Independent(c.algorithm, pass, slice)
    modifies blocks
    ensures Progress(c, blocks, pass, slice, lane, c.segment)
  {
    var passOffset := if pass == 0 && slice == 0 then 2 else 0;
    var indexCtr := 1;
    var indexBlock: nat -> nat := (k: nat) => 0;
    for block := passOffset to c.segment
      invariant Progress(c, blocks, pass, slice, lane, block)
      invariant constantTime ==> indexCtr == if block == passOffset then 1 else (block - 1) / 128 + 2
      invariant constantTime && block > passOffset ==>
                  forall k: nat :: indexBlock(k) == c.address(pass, lane, slice, (block - 1) / 128 + 1, k)
    {
      if constantTime && (block == passOffset || block % 128 == 0) {
        var ctr := indexCtr;
        indexBlock := (k: nat) => c.address(pass, lane, slice, ctr, k);
        indexCtr := indexCtr + 1;
      }
      CounterStep(block);
      FillBlock(c, blocks, pass, slice, lane, block, indexBlock(block % 128), constantTime);
    }
  }

  lemma CounterStep(block: nat)
    ensures block > 0 && block % 128 == 0 ==> (block - 1) / 128 + 1 == block / 128
    ensures block > 0 && block % 128 != 0 ==> (block - 1) / 128 == block / 128
    ensures block < 128 ==> block / 128 == 0
  {
  }

  method FillBlock<T>(c: Config<T>, blocks: array<T>, pass: nat, slice: nat, lane: nat, block: nat,
                      fixedSeed: nat, constantTime: bool)
    requires Sized(c) && lane < c.lanes && Place(slice, block, c.segment) && (pass == 0 && slice == 0 ==> block >= 2)
    requires Progress(c, blocks, pass, slice, lane, block)
    requires constantTime == Independent(c.algorithm, pass, slice)
    requires constantTime ==> fixedSeed == PlaceSeed(c, pass, lane, slice, block)
    modifies blocks
    ensures Progress(c, blocks, pass, slice, lane, block + 1)
  {
    var value := ComputeBlock(c, blocks, pass, slice, lane, block, fixedSeed, constantTime);
    StoreBlock(c, blocks, pass, slice, lane, block, value);
  }

  /** Between segments and slices, nothing changes. */
  lemma NextSegment<T>(c: Config<T>, blocks: array<T>, pass: nat, slice: nat, lane: nat)
    requires Sized(c) && lane < c.lanes && slice < 4 && Progress(c, blocks, pass, slice, lane, c.segment)
    ensures Progress(c, blocks, pass, slice, lane + 1, if pass == 0 && slice == 0 then 2 else 0)
  {
    forall l: nat, k: nat | l < c.lanes && k < 4 * c.segment
      ensures Done(pass, slice, lane, c.segment, c.segment, l, k)
         <==> Done(pass, slice, lane + 1, if pass == 0 && slice == 0 then 2 else 0, c.segment, l, k)
    {
    }
  }

  lemma NextSlice<T>(c: Config<T>, blocks: array<T>, pass: nat, slice: nat)
    requires Sized(c) && slice < 4
    requires Progress(c, blocks, pass, slice, c.lanes, if pass == 0 && slice == 0 then 2 else 0)
    ensures Progress(c, blocks, pass, slice + 1, 0, 0)
  {
  }

  lemma NextPass<T>(c: Config<T>, blocks: array<T>, pass: nat)
    requires Sized(c) && Progress(c, blocks, pass, 4, 0, 0)
    ensures Progress(c, blocks, pass + 1, 0, 0, 0)
  {
  }

  /** Fills the memory: after the last pass, it holds the values of the recurrence. */
  method Fill<T>(c: Config<T>, blocks: array<T>)
    requires Sized(c) && blocks.Length >= c.lanes * (4 * c.segment)
    modifies blocks
    ensures c.passes > 0 ==>
              forall l: nat, k: nat {:trigger Stored(c, blocks, l, k)} :: l < c.lanes && k < 4 * c.segment ==>
                Stored(c, blocks, l, k) == BlockValue(c, c.passes - 1, l, k)
  {
    StartLanes(c, blocks);
    var constantTime := c.algorithm != Argon2d;
    for pass := 0 to c.passes
      invariant Progress(c, blocks, pass, 0, 0, if pass == 0 then 2 else 0)
      invariant constantTime == Independent(c.algorithm, pass, 0)
    {
      constantTime := FillPass(c, blocks, pass, constantTime);
      NextPass(c, blocks, pass);
    }
    if c.passes > 0 {
      LastPass(c, blocks, c.passes);
    }
  }

  /** With at least eight blocks for each lane, segments have two or more, and all of them fit. */
  lemma SegmentSized(nbBlocks: nat, lanes: nat, segment: nat)
    requires lanes > 0 && 8 * lanes <= nbBlocks < B && segment == nbBlocks / lanes / 4
    ensures segment >= 2 && 4 * segment < B && lanes * (4 * segment) <= nbBlocks
  {
    var q := nbBlocks / lanes;
    assert nbBlocks == lanes * q + nbBlocks % lanes;
    if q < 8 {
      MulLe(lanes, q, lanes, 7);
    }
    MulLe(lanes, 4 * segment, lanes, q);
    MulLe(1, q, lanes, q);
  }

  /** Fills a work area of nbBlocks blocks, as many of them as all the segments of all lanes take when rounded down. */
  method FillWorkArea<T>(nbBlocks: nat, config: Config<T>, blocks: array<T>) returns (c: Config<T>)
    requires config.lanes > 0 && 8 * config.lanes <= nbBlocks < B && blocks.Length == nbBlocks
    modifies blocks
    ensures c == config.(segment := nbBlocks / config.lanes / 4) && Sized(c) && nbBlocks >= c.lanes * (4 * c.segment)
    ensures c.passes > 0 ==>
              forall l: nat, k: nat {:trigger Stored(c, blocks, l, k)} :: l < c.lanes && k < 4 * c.segment ==>
                Stored(c, blocks, l, k) == BlockValue(c, c.passes - 1, l, k)
  {
    var segment := nbBlocks / config.lanes / 4;
    SegmentSized(nbBlocks, config.lanes, segment);
    c := config.(segment := segment);
    Fill(c, blocks);
  }

  lemma LastPass<T>(c: Config<T>, blocks: array<T>, passes: nat)
    requires Sized(c) && passes > 0 && Progress(c, blocks, passes, 0, 0, 0)
    ensures forall l: nat, k: nat {:trigger Stored(c, blocks, l, k)} :: l < c.lanes && k < 4 * c.segment ==>
              Stored(c, blocks, l, k) == BlockValue(c, passes - 1, l, k)
  {
  }

  /** Fills the four slices; Argon2id indexes by the place only in the first half of the first pass. */
  method FillPass<T>(c: Config<T>, blocks: array<T>, pass: nat, early: bool) returns (constantTime: bool)
    requires Sized(c) && Progress(c, blocks, pass, 0, 0, if pass == 0 then 2 else 0)
    requires early == Independent(c.algorithm, pass, 0)
    modifies blocks
    ensures Progress(c, blocks, pass, 4, 0, 0) && constantTime == Independent(c.algorithm, pass + 1, 0)
  {
    constantTime := early;
    for slice := 0 to 4
      invariant Progress(c, blocks, pass, slice, 0, if pass == 0 && slice == 0 then 2 else 0)
      invariant constantTime == Independent(c.algorithm, pass, if slice == 0 then 0 else slice - 1)
    {
      if slice == 2 && c.algorithm == Argon2id {
        constantTime := false;
      }
      FillSlice(c, blocks, pass, slice, constantTime);
    }
  }

  /** Fills a slice, one lane after the other. */
  method FillSlice<T>(c: Config<T>, blocks: array<T>, pass: nat, slice: nat, constantTime: bool)
    requires Sized(c) && slice < 4
    requires Progress(c, blocks, pass, slice, 0, if pass == 0 && slice == 0 then 2 else 0)
    requires constantTime == Independent(c.algorithm, pass, slice)
    modifies blocks
    ensures Progress(c, blocks, pass, slice + 1, 0, 0)
  {
    for lane := 0 to c.lanes
      invariant Progress(c, blocks, pass, slice, lane, if pass == 0 && slice == 0 then 2 else 0)
    {
      FillSegment(c, blocks, pass, slice, lane, constantTime);
      NextSegment(c, blocks, pass, slice, lane);
    }
    NextSlice(c, blocks, pass, slice);
  }

  /** The first two blocks of every lane. */
  method StartLanes<T>(c: Config<T>, blocks: array<T>)
    requires Sized(c) && blocks.Length >= c.lanes * (4 * c.segment)
    modifies blocks
    ensures Progress(c, blocks, 0, 0, 0, 2)
  {
    var size := 4 * c.segment;
    for lane := 0 to c.lanes
      invariant forall l: nat, k: nat {:trigger Stored(c, blocks, l, k)} :: l < lane && k < 2 ==>
                  Stored(c, blocks, l, k) == c.start(l, k)
    {
      StartLane(c, blocks, lane);
    }
  }

  method StartLane<T>(c: Config<T>, blocks: array<T>, lane: nat)
    requires Sized(c) && blocks.Length >= c.lanes * (4 * c.segment) && lane < c.lanes
    modifies blocks
    ensures forall l: nat, k: nat {:trigger Stored(c, blocks, l, k)} :: l < c.lanes && k < 2 ==>
              Stored(c, blocks, l, k) == if l == lane then c.start(l, k) else old(Stored(c, blocks, l, k))
  {
    var size := 4 * c.segment;
    FlatInside(lane, 0, c.lanes, size);
    FlatInside(lane, 1, c.lanes, size);
    blocks[Flat(lane, 0, size)] := c.start(lane, 0);
    blocks[Flat(lane, 1, size)] := c.start(lane, 1);
    forall l: nat, k: nat | l < c.lanes && k < 2
      ensures Stored(c, blocks, l, k) == if l == lane then c.start(l, k) else old(Stored(c, blocks, l, k))
    {
      FlatInside(l, k, c.lanes, size);
      if (l, k) != (lane, 0) {
        FlatDistinct(l, k, lane, 0, size);
      }
      if (l, k) != (lane, 1) {
        FlatDistinct(l, k, lane, 1, size);
      }
    }
  }

  lemma DoneNext(pass: nat, slice: nat, lane: nat, block: nat, segment: nat, l: nat, column: nat)
    requires Place(slice, block, segment) && column < 4 * segment
    ensures Done(pass, slice, lane, block + 1, segment, l, column)
       <==> Done(pass, slice, lane, block, segment, l, column) || (l, column) == (lane, Column(slice, block, segment))
  {
    SliceOfColumn(slice, block, segment);
  }

  /** The reference block holds the value that the recurrence asks for, whatever the order of the lanes. */
  lemma ReferenceReady(pass: nat, slice: nat, lane: nat, block: nat, segment: nat, l: nat, z: nat)
    requires Place(slice, block, segment) && Allowed(pass, slice, block, l == lane, segment, z)
    ensures var column := Column(slice, block, segment);
            Done(pass, slice, lane, block, segment, l, z)
            <==> (pass == 0 && z < 2) || (z < column && (l == lane || SliceOf(z, segment) < SliceOf(column, segment)))
  {
    SliceOfColumn(slice, block, segment);
  }
}
