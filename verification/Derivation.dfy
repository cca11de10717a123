// What a pattern means: the words of its language, and the derivations that generation chooses among.

module Derivation {
  import opened Words
  import opened Pattern

  type Word = seq<int>

  // ---------------------------------------------------------------------
  // The language of a pattern
  // ---------------------------------------------------------------------

  ghost predicate InGroup(g: Group, w: Word)
    decreases g
  {
    exists k :: 0 <= k < |g.segments| && g.segments[k].multiplier > 0 && InItems(g.segments[k].items, w)
  }

  ghost predicate InItems(items: seq<Item>, w: Word)
    decreases items
  {
    if items == [] then w == []
    else exists i :: 0 <= i <= |w| && InItem(items[0], w[..i]) && InItems(items[1..], w[i..])
  }

  ghost predicate InItem(item: Item, w: Word)
    decreases item
  {
    (item.maybe && w == []) || exists n: nat :: item.min <= n <= item.max && InRepeat(item.kind, n, w)
  }

  ghost predicate InRepeat(kind: Kind, n: nat, w: Word)
    decreases kind, n
  {
    if n == 0 then w == []
    else exists i :: 0 <= i <= |w| && InKind(kind, w[..i]) && InRepeat(kind, n - 1, w[i..])
  }

  ghost predicate InKind(kind: Kind, w: Word)
    decreases kind, 0
  {
    match kind
    case Set(ranges, _) =>
      if ranges == [] then w == []
      else |w| == 1 && exists r :: 0 <= r < |ranges| && ranges[r].start <= w[0] <= ranges[r].end
    case Literal(codepoints, _) => w == codepoints
    case Special(_, _) => false
    case Nested(group) => InGroup(group, w)
  }

  // ---------------------------------------------------------------------
  // Derivations
  // ---------------------------------------------------------------------

  /** The choices that generation makes, as a tree along the pattern. */
  datatype Derivation =
    | Segmented(segment: nat, items: seq<Derivation>)  // of a group: the segment, and its items
    | Skipped                                          // of an item with a question mark
    | Taken(extra: nat, parts: seq<Derivation>)        // of an item: repetitions beyond the minimum, and each of them
    | Chosen(choice: nat)                              // of a set: the index of the codepoint
    | Fixed                                            // of a literal or an empty set

  ghost predicate ValidGroup(g: Group, d: Derivation)
    decreases g
  {
    && d.Segmented? && d.segment < |g.segments| && g.segments[d.segment].multiplier > 0
    && ValidItems(g.segments[d.segment].items, d.items)
  }

  ghost predicate ValidItems(items: seq<Item>, ds: seq<Derivation>)
    decreases items
  {
    if items == [] then ds == []
    else ds != [] && ValidItem(items[0], ds[0]) && ValidItems(items[1..], ds[1..])
  }

  ghost predicate ValidItem(item: Item, d: Derivation)
    decreases item
  {
    match d
    case Skipped => item.maybe
    case Taken(extra, parts) => item.min + extra <= item.max && ValidParts(item.kind, item.min + extra, parts)
    case _ => false
  }

  ghost predicate ValidParts(kind: Kind, n: nat, ds: seq<Derivation>)
    decreases kind, n
  {
    if n == 0 then ds == []
    else ds != [] && ValidKind(kind, ds[0]) && ValidParts(kind, n - 1, ds[1..])
  }

  ghost predicate ValidKind(kind: Kind, d: Derivation)
    decreases kind, 0
  {
    match kind
    case Set(ranges, _) =>
      if ranges == [] then d == Fixed else d.Chosen? && d.choice < Codepoints(ranges, |ranges|)
    case Literal(_, _) => d == Fixed
    case Special(_, _) => false
    case Nested(group) => ValidGroup(group, d)
  }

  /** The codepoint with the given index among those of all ranges, in order. */
  function Pick(ranges: seq<Range>, choice: int): int {
    if ranges == [] then 0
    else
      var size := 1 + ranges[0].end as int - ranges[0].start as int;
      if choice < size then ranges[0].start + choice else Pick(ranges[1..], choice - size)
  }

  ghost function YieldGroup(g: Group, d: Derivation): Word
    requires ValidGroup(g, d)
    decreases g
  {
    YieldItems(g.segments[d.segment].items, d.items)
  }

  ghost function YieldItems(items: seq<Item>, ds: seq<Derivation>): Word
    requires ValidItems(items, ds)
    decreases items
  {
    if items == [] then [] else YieldItem(items[0], ds[0]) + YieldItems(items[1..], ds[1..])
  }

  ghost function YieldItem(item: Item, d: Derivation): Word
    requires ValidItem(item, d)
    decreases item
  {
    match d
    case Skipped => []
    case Taken(extra, parts) => YieldParts(item.kind, item.min + extra, parts)
  }

  ghost function YieldParts(kind: Kind, n: nat, ds: seq<Derivation>): Word
    requires ValidParts(kind, n, ds)
    decreases kind, n
  {
    if n == 0 then [] else YieldKind(kind, ds[0]) + YieldParts(kind, n - 1, ds[1..])
  }

  ghost function YieldKind(kind: Kind, d: Derivation): Word
    requires ValidKind(kind, d)
    decreases kind, 0
  {
    match kind
    case Set(ranges, _) => if ranges == [] then [] else [Pick(ranges, d.choice)]
    case Literal(codepoints, _) => codepoints
    case Nested(group) => YieldGroup(group, d)
  }

  // ---------------------------------------------------------------------
  // The random draws behind a derivation
  // ---------------------------------------------------------------------

  /**
    A uniform draw below outOf: the values from first to below first + ways lead on to the derivation. The draws for
    question marks are not counted in the entropy.
   */
  datatype Draw = Draw(first: nat, ways: nat, outOf: nat, counted: bool)

  ghost function DrawsGroup(g: Group, d: Derivation): seq<Draw>
    requires ValidGroup(g, d)
    decreases g
  {
    var segment := g.segments[d.segment];
    [Draw(Multipliers(g.segments, d.segment), segment.multiplier, g.sum, true)] + DrawsItems(segment.items, d.items)
  }

  ghost function DrawsItems(items: seq<Item>, ds: seq<Derivation>): seq<Draw>
    requires ValidItems(items, ds)
    decreases items
  {
    if items == [] then [] else DrawsItem(items[0], ds[0]) + DrawsItems(items[1..], ds[1..])
  }

  ghost function DrawsItem(item: Item, d: Derivation): seq<Draw>
    requires ValidItem(item, d)
    decreases item
  {
    match d
    case Skipped => [Draw(1, 1, 2, false)]
    case Taken(extra, parts) =>
      (if item.maybe then [Draw(0, 1, 2, false)] else [])
      + (if item.min == item.max then [] else [Draw(extra, 1, item.max - item.min + 1, true)])
      + DrawsParts(item.kind, item.min + extra, parts)
  }

  ghost function DrawsParts(kind: Kind, n: nat, ds: seq<Derivation>): seq<Draw>
    requires ValidParts(kind, n, ds)
    decreases kind, n
  {
    if n == 0 then [] else DrawsKind(kind, ds[0]) + DrawsParts(kind, n - 1, ds[1..])
  }

  ghost function DrawsKind(kind: Kind, d: Derivation): seq<Draw>
    requires ValidKind(kind, d)
    decreases kind, 0
  {
    match kind
    case Set(ranges, _) => if ranges == [] then [] else [Draw(d.choice, 1, Codepoints(ranges, |ranges|), true)]
    case Literal(_, _) => []
    case Nested(group) => DrawsGroup(group, d)
  }

  /** A draw that can happen. */
  ghost predicate Possible(draw: Draw) {
    draw.ways > 0 && draw.first + draw.ways <= draw.outOf
  }

  ghost predicate AllPossible(draws: seq<Draw>) {
    forall i :: 0 <= i < |draws| ==> Possible(draws[i])
  }

  // ---------------------------------------------------------------------
  // Derivations yield exactly the words of the language
  // ---------------------------------------------------------------------

  lemma {:induction false} YieldInGroup(g: Group, d: Derivation)
    requires WellFormed(g) && ValidGroup(g, d)
    ensures InGroup(g, YieldGroup(g, d))
    decreases g
  {
    YieldInItems(g.segments[d.segment].items, d.items);
  }

  lemma {:induction false} YieldInItems(items: seq<Item>, ds: seq<Derivation>)
    requires WellFormedItems(items) && ValidItems(items, ds)
    ensures InItems(items, YieldItems(items, ds))
    decreases items
  {
    if items != [] {
      YieldInItem(items[0], ds[0]);
      YieldInItems(items[1..], ds[1..]);
      SplitWitness(YieldItem(items[0], ds[0]), YieldItems(items[1..], ds[1..]));
    }
  }

  lemma {:induction false} YieldInItem(item: Item, d: Derivation)
    requires WellFormedItem(item) && ValidItem(item, d)
    ensures InItem(item, YieldItem(item, d))
    decreases item
  {
    match d
    case Skipped =>
    case Taken(extra, parts) =>
      YieldInRepeat(item.kind, item.min + extra, parts);
  }

  lemma {:induction false} YieldInRepeat(kind: Kind, n: nat, ds: seq<Derivation>)
    requires WellFormedKind(kind) && ValidParts(kind, n, ds)
    ensures InRepeat(kind, n, YieldParts(kind, n, ds))
    decreases kind, n
  {
    if n > 0 {
      YieldInKind(kind, ds[0]);
      YieldInRepeat(kind, n - 1, ds[1..]);
      SplitWitness(YieldKind(kind, ds[0]), YieldParts(kind, n - 1, ds[1..]));
    }
  }

  lemma {:induction false} YieldInKind(kind: Kind, d: Derivation)
    requires WellFormedKind(kind) && ValidKind(kind, d)
    ensures InKind(kind, YieldKind(kind, d))
    decreases kind, 0
  {
    match kind
    case Set(ranges, _) =>
      if ranges != [] {
        var r := PickInRange(ranges, d.choice);
      }
    case Literal(_, _) =>
    case Nested(group) => YieldInGroup(group, d);
  }

  lemma SplitWitness(u: Word, v: Word)
    ensures 0 <= |u| <= |u + v| && (u + v)[..|u|] == u && (u + v)[|u|..] == v
  {
  }

  lemma {:induction false} CodepointsFront(ranges: seq<Range>, n: nat)
    requires 1 <= n <= |ranges|
    ensures Codepoints(ranges, n)
         == (1 + ranges[0].end as int - ranges[0].start as int) + Codepoints(ranges[1..], n - 1)
  {
    if n > 1 {
      CodepointsFront(ranges, n - 1);
    } else {
      assert Codepoints(ranges, 0) == 0;
    }
  }

  /** The picked codepoint lies in a range. */
  lemma {:induction false} PickInRange(ranges: seq<Range>, choice: nat) returns (r: nat)
    requires Ascending(ranges) && choice < Codepoints(ranges, |ranges|)
    ensures r < |ranges| && ranges[r].start <= Pick(ranges, choice) <= ranges[r].end
  {
    CodepointsFront(ranges, |ranges|);
    var size := 1 + ranges[0].end as int - ranges[0].start as int;
    if choice < size {
      r := 0;
    } else {
      r := PickInRange(ranges[1..], choice - size);
      r := r + 1;
    }
  }

  /** Every codepoint of a range can be picked. */
  lemma {:induction false} RangePicked(ranges: seq<Range>, r: nat, c: int) returns (choice: nat)
    requires Ascending(ranges) && r < |ranges| && ranges[r].start <= c <= ranges[r].end
    ensures choice < Codepoints(ranges, |ranges|) && Pick(ranges, choice) == c
  {
    CodepointsFront(ranges, |ranges|);
    CodepointsNonNegative(ranges[1..], |ranges| - 1);
    var size := 1 + ranges[0].end as int - ranges[0].start as int;
    if r == 0 {
      choice := c - ranges[0].start;
    } else {
      choice := RangePicked(ranges[1..], r - 1, c);
      choice := choice + size;
    }
  }

  lemma {:induction false} CodepointsNonNegative(ranges: seq<Range>, n: nat)
    requires Ascending(ranges) && n <= |ranges|
    ensures Codepoints(ranges, n) >= n
  {
    if n > 0 {
      CodepointsNonNegative(ranges, n - 1);
    }
  }

  lemma {:induction false} GroupYields(g: Group, w: Word) returns (d: Derivation)
    requires WellFormed(g) && InGroup(g, w)
    ensures ValidGroup(g, d) && YieldGroup(g, d) == w
    decreases g
  {
    var k :| 0 <= k < |g.segments| && g.segments[k].multiplier > 0 && InItems(g.segments[k].items, w);
    var ds := ItemsYield(g.segments[k].items, w);
    d := Segmented(k, ds);
  }

  lemma {:induction false} ItemsYield(items: seq<Item>, w: Word) returns (ds: seq<Derivation>)
    requires WellFormedItems(items) && InItems(items, w)
    ensures ValidItems(items, ds) && YieldItems(items, ds) == w
    decreases items
  {
    if items == [] {
      ds := [];
    } else {
      var i :| 0 <= i <= |w| && InItem(items[0], w[..i]) && InItems(items[1..], w[i..]);
      assert w == w[..i] + w[i..];
      var d := ItemYields(items[0], w[..i]);
      var rest := ItemsYield(items[1..], w[i..]);
      ds := [d] + rest;
      assert ds[0] == d && ds[1..] == rest;
    }
  }

  lemma {:induction false} ItemYields(item: Item, w: Word) returns (d: Derivation)
    requires WellFormedItem(item) && InItem(item, w)
    ensures ValidItem(item, d) && YieldItem(item, d) == w
    decreases item
  {
    if item.maybe && w == [] {
      d := Skipped;
    } else {
      var n: nat :| item.min <= n <= item.max && InRepeat(item.kind, n, w);
      var parts := RepeatYields(item.kind, n, w);
      d := Taken(n - item.min, parts);
    }
  }

  lemma RepeatSplit(kind: Kind, n: nat, w: Word) returns (u: Word, v: Word)
    requires n > 0 && InRepeat(kind, n, w)
    ensures w == u + v && InKind(kind, u) && InRepeat(kind, n - 1, v)
  {
    var i :| 0 <= i <= |w| && InKind(kind, w[..i]) && InRepeat(kind, n - 1, w[i..]);
    u, v := w[..i], w[i..];
  }

  lemma {:induction false} RepeatYields(kind: Kind, n: nat, w: Word) returns (ds: seq<Derivation>)
    requires WellFormedKind(kind) && InRepeat(kind, n, w)
    ensures ValidParts(kind, n, ds) && YieldParts(kind, n, ds) == w
    decreases kind, n
  {
    if n == 0 {
      ds := [];
    } else {
      var u, v := RepeatSplit(kind, n, w);
      var d := KindYields(kind, u);
      var rest := RepeatYields(kind, n - 1, v);
      ds := [d] + rest;
      assert ds[0] == d && ds[1..] == rest;
    }
  }

  lemma {:induction false} KindYields(kind: Kind, w: Word) returns (d: Derivation)
    requires WellFormedKind(kind) && InKind(kind, w)
    ensures ValidKind(kind, d) && YieldKind(kind, d) == w
    decreases kind, 0
  {
    match kind
    case Set(ranges, _) =>
      if ranges == [] {
        d := Fixed;
      } else {
        var r :| 0 <= r < |ranges| && ranges[r].start <= w[0] <= ranges[r].end;
        var choice := RangePicked(ranges, r, w[0]);
        d := Chosen(choice);
      }
    case Literal(_, _) => d := Fixed;
    case Nested(group) => d := GroupYields(group, w);
  }

  // ---------------------------------------------------------------------
  // Every derivation is behind some draws
  // ---------------------------------------------------------------------

  lemma {:induction false} MultipliersMonotone(segments: seq<Segment>, i: nat, j: nat)
    requires i <= j <= |segments|
    ensures Multipliers(segments, i) <= Multipliers(segments, j)
  {
    if i < j {
      MultipliersMonotone(segments, i, j - 1);
    }
  }

  lemma {:induction false} PossibleGroup(g: Group, d: Derivation)
    requires WellFormed(g) && ValidGroup(g, d)
    ensures AllPossible(DrawsGroup(g, d))
    decreases g
  {
    MultipliersMonotone(g.segments, d.segment + 1, |g.segments|);
    PossibleItems(g.segments[d.segment].items, d.items);
  }

  lemma {:induction false} PossibleItems(items: seq<Item>, ds: seq<Derivation>)
    requires WellFormedItems(items) && ValidItems(items, ds)
    ensures AllPossible(DrawsItems(items, ds))
    decreases items
  {
    if items != [] {
      PossibleItem(items[0], ds[0]);
      PossibleItems(items[1..], ds[1..]);
    }
  }

  lemma {:induction false} PossibleItem(item: Item, d: Derivation)
    requires WellFormedItem(item) && ValidItem(item, d)
    ensures AllPossible(DrawsItem(item, d))
    decreases item
  {
    match d
    case Skipped =>
    case Taken(extra, parts) => PossibleParts(item.kind, item.min + extra, parts);
  }

  lemma {:induction false} PossibleParts(kind: Kind, n: nat, ds: seq<Derivation>)
    requires WellFormedKind(kind) && ValidParts(kind, n, ds)
    ensures AllPossible(DrawsParts(kind, n, ds))
    decreases kind, n
  {
    if n > 0 {
      PossibleKind(kind, ds[0]);
      PossibleParts(kind, n - 1, ds[1..]);
    }
  }

  lemma {:induction false} PossibleKind(kind: Kind, d: Derivation)
    requires WellFormedKind(kind) && ValidKind(kind, d)
    ensures AllPossible(DrawsKind(kind, d))
    decreases kind, 0
  {
    match kind
    case Set(_, _) =>
    case Literal(_, _) =>
    case Nested(group) => PossibleGroup(group, d);
  }
}
