// The derivations of a pattern, listed, and the sum of their probabilities.

module TotalProbability {
  import opened Pattern
  import opened Derivation
  import opened Probability

  // ---------------------------------------------------------------------
  // Sums
  // ---------------------------------------------------------------------

  ghost function SumOf<T>(f: T -> real, xs: seq<T>): real {
    if xs == [] then 0.0 else f(xs[0]) + SumOf(f, xs[1..])
  }

  lemma {:induction false} SumAppend<T>(f: T -> real, a: seq<T>, b: seq<T>)
    ensures SumOf(f, a + b) == SumOf(f, a) + SumOf(f, b)
  {
    if a == [] {
      assert a + b == b;
    } else {
      SumAppend(f, a[1..], b);
      assert (a + b)[1..] == a[1..] + b;
    }
  }

  /** Every term of one list is c times the term of another. */
  ghost predicate Scaled<T, U>(f: T -> real, xs: seq<T>, c: real, h: U -> real, ys: seq<U>) {
    |xs| == |ys| && forall i {:trigger Index(i)} :: 0 <= i < |xs| && Index(i) ==> IsProduct(c, h(ys[i]), f(xs[i]))
  }

  ghost predicate Index(i: int) {
    true
  }

  /** A sum of which every term is c times that of another. */
  lemma {:induction false} SumScale<T, U>(f: T -> real, xs: seq<T>, c: real, h: U -> real, ys: seq<U>)
    requires Scaled(f, xs, c, h, ys)
    ensures SumOf(f, xs) == c * SumOf(h, ys)
  {
    if xs != [] {
      forall i | 0 <= i < |xs| - 1 && Index(i)
        ensures IsProduct(c, h(ys[1..][i]), f(xs[1..][i]))
      {
        assert Index(i + 1);
      }
      SumScale(f, xs[1..], c, h, ys[1..]);
      assert Index(0);
    }
  }

  lemma SumShare<T, U>(f: T -> real, xs: seq<T>, c: real, h: U -> real, ys: seq<U>)
    requires Scaled(f, xs, c, h, ys) && SumOf(h, ys) == 1.0
    ensures SumOf(f, xs) == c
  {
    SumScale(f, xs, c, h, ys);
  }

  // ---------------------------------------------------------------------
  // Lists of derivations
  // ---------------------------------------------------------------------

  function ConsAll(x: Derivation, yss: seq<seq<Derivation>>): seq<seq<Derivation>> {
    seq(|yss|, i requires 0 <= i < |yss| => [x] + yss[i])
  }

  function Cross(xs: seq<Derivation>, yss: seq<seq<Derivation>>): seq<seq<Derivation>> {
    if xs == [] then [] else ConsAll(xs[0], yss) + Cross(xs[1..], yss)
  }

  ghost function AllGroup(g: Group): seq<Derivation>
    decreases g
  {
    AllSegments(g, |g.segments|)
  }

  /** The derivations through the first n segments. */
  ghost function AllSegments(g: Group, n: nat): seq<Derivation>
    requires n <= |g.segments|
    decreases g, n
  {
    if n == 0 then []
    else
      AllSegments(g, n - 1) + if g.segments[n - 1].multiplier == 0 then [] else ThroughSegment(g, n - 1)
  }

  /** The derivations through segment k. */
  ghost function ThroughSegment(g: Group, k: nat): seq<Derivation>
    requires k < |g.segments|
    decreases g, k
  {
    var dss := AllItems(g.segments[k].items);
    seq(|dss|, i requires 0 <= i < |dss| => Segmented(k, dss[i]))
  }

  ghost function AllItems(items: seq<Item>): seq<seq<Derivation>>
    decreases items
  {
    if items == [] then [[]] else Cross(AllItem(items[0]), AllItems(items[1..]))
  }

  ghost function AllItem(item: Item): seq<Derivation>
    decreases item, Extras(item) + 1
  {
    (if item.maybe then [Skipped] else []) + AllTaken(item, Extras(item))
  }

  /** How many numbers of repetitions an item allows. */
  ghost function Extras(item: Item): nat {
    if item.max < item.min then 0 else item.max - item.min + 1
  }

  /** The derivations with fewer than n repetitions beyond the minimum. */
  ghost function AllTaken(item: Item, n: nat): seq<Derivation>
    decreases item, n
  {
    if n == 0 then [] else AllTaken(item, n - 1) + WithExtra(item, n - 1)
  }

  /** The derivations with just extra repetitions beyond the minimum. */
  ghost function WithExtra(item: Item, extra: nat): seq<Derivation>
    decreases item, extra
  {
    var dss := AllParts(item.kind, item.min + extra);
    seq(|dss|, i requires 0 <= i < |dss| => Taken(extra, dss[i]))
  }

  ghost function AllParts(kind: Kind, n: nat): seq<seq<Derivation>>
    decreases kind, n
  {
    if n == 0 then [[]] else Cross(AllKind(kind), AllParts(kind, n - 1))
  }

  ghost function AllKind(kind: Kind): seq<Derivation>
    decreases kind, 0
  {
    match kind
    case Set(ranges, _) =>
      if ranges == [] then [Fixed] else AllChosen(ranges)
    case Literal(_, _) => [Fixed]
    case Special(_, _) => []
    case Nested(group) => AllGroup(group)
  }

  ghost function AllChosen(ranges: seq<Range>): seq<Derivation>
  {
    var n := Codepoints(ranges, |ranges|);
    seq(if n < 0 then 0 else n, i requires i >= 0 => Chosen(i))
  }

  // ---------------------------------------------------------------------
  // The probability of a derivation, zero for what is none
  // ---------------------------------------------------------------------

  ghost function ChanceGroup(g: Group, d: Derivation): real {
    if ValidGroup(g, d) then Chance(DrawsGroup(g, d)) else 0.0
  }

  ghost function ChanceItems(items: seq<Item>, ds: seq<Derivation>): real {
    if ValidItems(items, ds) then Chance(DrawsItems(items, ds)) else 0.0
  }

  ghost function ChanceItem(item: Item, d: Derivation): real {
    if ValidItem(item, d) then Chance(DrawsItem(item, d)) else 0.0
  }

  ghost function ChanceParts(kind: Kind, n: nat, ds: seq<Derivation>): real {
    if ValidParts(kind, n, ds) then Chance(DrawsParts(kind, n, ds)) else 0.0
  }

  ghost function ChanceKind(kind: Kind, d: Derivation): real {
    if ValidKind(kind, d) then Chance(DrawsKind(kind, d)) else 0.0
  }

  ghost function OfGroup(g: Group): Derivation -> real {
    d => ChanceGroup(g, d)
  }

  ghost function OfItems(items: seq<Item>): seq<Derivation> -> real {
    ds => ChanceItems(items, ds)
  }

  ghost function OfItem(item: Item): Derivation -> real {
    d => ChanceItem(item, d)
  }

  ghost function OfParts(kind: Kind, n: nat): seq<Derivation> -> real {
    ds => ChanceParts(kind, n, ds)
  }

  ghost function OfKind(kind: Kind): Derivation -> real {
    d => ChanceKind(kind, d)
  }

  // ---------------------------------------------------------------------
  // The probabilities add up to 1
  // ---------------------------------------------------------------------

  /** The probability of a list is that of its first element times that of the rest. */
  ghost predicate Independent(f: seq<Derivation> -> real, h: Derivation -> real, k: seq<Derivation> -> real) {
    forall x, ys {:trigger Pair(x, ys)} :: Pair(x, ys) ==> IsProduct(h(x), k(ys), f([x] + ys))
  }

  ghost predicate Pair(x: Derivation, ys: seq<Derivation>) {
    true
  }

  /** Independent choices: the sum over all pairs is the product of the sums. */
  lemma {:induction false} SumCross(f: seq<Derivation> -> real, h: Derivation -> real, k: seq<Derivation> -> real,
                                    xs: seq<Derivation>, yss: seq<seq<Derivation>>)
    requires Independent(f, h, k)
    ensures SumOf(f, Cross(xs, yss)) == SumOf(h, xs) * SumOf(k, yss)
  {
    if xs != [] {
      forall i | 0 <= i < |yss| && Index(i)
        ensures IsProduct(h(xs[0]), k(yss[i]), f(ConsAll(xs[0], yss)[i]))
      {
        assert Pair(xs[0], yss[i]);
      }
      SumScale(f, ConsAll(xs[0], yss), h(xs[0]), k, yss);
      SumAppend(f, ConsAll(xs[0], yss), Cross(xs[1..], yss));
      SumCross(f, h, k, xs[1..], yss);
      CrossDistribute(h(xs[0]), SumOf(h, xs[1..]), SumOf(k, yss));
    }
  }

  lemma CrossDistribute(x: real, y: real, z: real)
    ensures (x + y) * z == x * z + y * z
  {
  }

  /** Independent choices whose probabilities add up to 1 each. */
  lemma CrossTotal(f: seq<Derivation> -> real, h: Derivation -> real, k: seq<Derivation> -> real,
                   xs: seq<Derivation>, yss: seq<seq<Derivation>>)
    requires Independent(f, h, k)
    requires SumOf(h, xs) == 1.0 && SumOf(k, yss) == 1.0
    ensures SumOf(f, Cross(xs, yss)) == 1.0
  {
    SumCross(f, h, k, xs, yss);
  }

  lemma ItemsChance(items: seq<Item>, d: Derivation, ds: seq<Derivation>)
    requires items != []
    ensures IsProduct(ChanceItem(items[0], d), ChanceItems(items[1..], ds), ChanceItems(items, [d] + ds))
  {
    var all := [d] + ds;
    assert all[0] == d && all[1..] == ds;
    if ValidItem(items[0], d) && ValidItems(items[1..], ds) {
      ChanceAppend(DrawsItem(items[0], d), DrawsItems(items[1..], ds));
    }
  }

  lemma PartsChance(kind: Kind, n: nat, d: Derivation, ds: seq<Derivation>)
    requires n > 0
    ensures IsProduct(ChanceKind(kind, d), ChanceParts(kind, n - 1, ds), ChanceParts(kind, n, [d] + ds))
  {
    var all := [d] + ds;
    assert all[0] == d && all[1..] == ds;
    if ValidKind(kind, d) && ValidParts(kind, n - 1, ds) {
      ChanceAppend(DrawsKind(kind, d), DrawsParts(kind, n - 1, ds));
    }
  }

  lemma OneDraw(draw: Draw, draws: seq<Draw>)
    ensures IsProduct(Odds(draw), Chance(draws), Chance([draw] + draws))
  {
    ChanceAppend([draw], draws);
    assert OddsOf([draw]) == [Odds(draw)];
    assert Product([Odds(draw)]) == Odds(draw) * Product([]);
  }

  lemma LastDraw(draw: Draw)
    ensures Chance([draw]) == Odds(draw)
  {
    OneDraw(draw, []);
    assert [draw] + [] == [draw] && OddsOf([]) == [];
  }

  lemma SumOne<T>(f: T -> real, x: T)
    ensures SumOf(f, [x]) == f(x)
  {
    assert SumOf(f, [x]) == f(x) + SumOf(f, [x][1..]);
  }

  // Shares: what the choice of a segment or of a number of repetitions contributes.

  ghost function Total(rs: seq<real>): real {
    if rs == [] then 0.0 else Total(rs[..|rs| - 1]) + rs[|rs| - 1]
  }

  lemma {:induction false} TotalMultiples(segments: seq<Segment>, n: nat, unit: real, rs: seq<real>)
    requires n <= |segments| && |rs| == n
    requires forall k :: 0 <= k < n ==> rs[k] == segments[k].multiplier as real * unit
    ensures Total(rs) == Multipliers(segments, n) as real * unit
  {
    if n > 0 {
      TotalMultiples(segments, n - 1, unit, rs[..n - 1]);
      CrossDistribute(Multipliers(segments, n - 1) as real, segments[n - 1].multiplier as real, unit);
    }
  }

  lemma {:induction false} TotalRepeated(n: nat, x: real, rs: seq<real>)
    requires |rs| == n && forall k :: 0 <= k < n ==> rs[k] == x
    ensures Total(rs) == n as real * x
  {
    if n > 0 {
      TotalRepeated(n - 1, x, rs[..n - 1]);
      CrossDistribute((n - 1) as real, 1.0, x);
    }
  }

  /** c is what choosing segment k contributes to every derivation through it. */
  ghost predicate SegmentShare(f: Derivation -> real, k: nat, c: real, h: seq<Derivation> -> real) {
    forall ds {:trigger Through(ds)} :: Through(ds) ==> IsProduct(c, h(ds), f(Segmented(k, ds)))
  }

  /** c is what choosing a number of repetitions contributes to every derivation with that number. */
  ghost predicate RepeatShare(f: Derivation -> real, extra: nat, c: real, h: seq<Derivation> -> real) {
    forall ds {:trigger Through(ds)} :: Through(ds) ==> IsProduct(c, h(ds), f(Taken(extra, ds)))
  }

  ghost predicate Through(ds: seq<Derivation>) {
    true
  }

  lemma SegmentScaled(f: Derivation -> real, k: nat, c: real, h: seq<Derivation> -> real, dss: seq<seq<Derivation>>)
    requires SegmentShare(f, k, c, h)
    ensures Scaled(f, seq(|dss|, i requires 0 <= i < |dss| => Segmented(k, dss[i])), c, h, dss)
  {
    forall i | 0 <= i < |dss| && Index(i)
      ensures IsProduct(c, h(dss[i]), f(Segmented(k, dss[i])))
    {
      assert Through(dss[i]);
    }
  }

  lemma RepeatScaled(f: Derivation -> real, extra: nat, c: real, h: seq<Derivation> -> real, dss: seq<seq<Derivation>>)
    requires RepeatShare(f, extra, c, h)
    ensures Scaled(f, seq(|dss|, i requires 0 <= i < |dss| => Taken(extra, dss[i])), c, h, dss)
  {
    forall i | 0 <= i < |dss| && Index(i)
      ensures IsProduct(c, h(dss[i]), f(Taken(extra, dss[i])))
    {
      assert Through(dss[i]);
    }
  }

  lemma GroupShares(g: Group) returns (shares: seq<real>)
    requires WellFormed(g)
    ensures |shares| == |g.segments| && Total(shares) == 1.0
    ensures forall k :: 0 <= k < |shares| ==>
              if g.segments[k].multiplier == 0 then shares[k] == 0.0
              else SegmentShare(OfGroup(g), k, shares[k], OfItems(g.segments[k].items))
  {
    var unit := 1.0 / g.sum as real;
    shares := seq(|g.segments|, k requires 0 <= k < |g.segments| => g.segments[k].multiplier as real * unit);
    TotalMultiples(g.segments, |g.segments|, unit, shares);
    forall k | 0 <= k < |shares| && g.segments[k].multiplier > 0
      ensures SegmentShare(OfGroup(g), k, shares[k], OfItems(g.segments[k].items))
    {
      SegmentOdds(g, k, shares[k]);
    }
  }

  lemma SegmentOdds(g: Group, k: nat, share: real)
    requires k < |g.segments| && g.segments[k].multiplier > 0 && g.sum > 0
    requires share == g.segments[k].multiplier as real * (1.0 / g.sum as real)
    ensures SegmentShare(OfGroup(g), k, share, OfItems(g.segments[k].items))
  {
    forall ds | Through(ds)
      ensures IsProduct(share, OfItems(g.segments[k].items)(ds), OfGroup(g)(Segmented(k, ds)))
    {
      SegmentChance(g, k, ds, share);
    }
  }

  lemma SegmentChance(g: Group, k: nat, ds: seq<Derivation>, share: real)
    requires k < |g.segments| && g.segments[k].multiplier > 0 && g.sum > 0
    requires share == g.segments[k].multiplier as real * (1.0 / g.sum as real)
    ensures IsProduct(share, ChanceItems(g.segments[k].items, ds), ChanceGroup(g, Segmented(k, ds)))
  {
    var items := g.segments[k].items;
    var draw := Draw(Multipliers(g.segments, k), g.segments[k].multiplier, g.sum, true);
    assert Odds(draw) == share;
    if ValidItems(items, ds) {
      OneDraw(draw, DrawsItems(items, ds));
    }
  }

  lemma ItemShare(item: Item) returns (share: real, shares: seq<real>)
    requires item.min <= item.max
    ensures |shares| == Extras(item) && Total(shares) == if item.maybe then 0.5 else 1.0
    ensures (forall k :: 0 <= k < |shares| ==> shares[k] == share) && RepeatShares(item, share)
  {
    share := (if item.maybe then 0.5 else 1.0) * (1.0 / Extras(item) as real);
    shares := seq(Extras(item), _ => share);
    TotalRepeated(Extras(item), share, shares);
    forall k: nat | k < Extras(item) && Index(k)
      ensures RepeatShare(OfItem(item), k, share, OfParts(item.kind, item.min + k))
    {
      RepeatOdds(item, k, share);
    }
  }

  /** Every number of repetitions has the same share. */
  ghost predicate RepeatShares(item: Item, share: real) {
    forall k: nat {:trigger Index(k)} :: k < Extras(item) && Index(k) ==>
      RepeatShare(OfItem(item), k, share, OfParts(item.kind, item.min + k))
  }

  lemma RepeatOdds(item: Item, extra: nat, share: real)
    requires item.min + extra <= item.max
    requires share == (if item.maybe then 0.5 else 1.0) * (1.0 / Extras(item) as real)
    ensures RepeatShare(OfItem(item), extra, share, OfParts(item.kind, item.min + extra))
  {
    forall ds | Through(ds)
      ensures IsProduct(share, OfParts(item.kind, item.min + extra)(ds), OfItem(item)(Taken(extra, ds)))
    {
      TakenChance(item, extra, ds, share);
    }
  }

  lemma TakenChance(item: Item, extra: nat, ds: seq<Derivation>, share: real)
    requires item.min + extra <= item.max
    requires share == (if item.maybe then 0.5 else 1.0) * (1.0 / Extras(item) as real)
    ensures IsProduct(share, ChanceParts(item.kind, item.min + extra, ds), ChanceItem(item, Taken(extra, ds)))
  {
    if ValidParts(item.kind, item.min + extra, ds) {
      var parts := DrawsParts(item.kind, item.min + extra, ds);
      var r := 1.0 / Extras(item) as real;
      var tail := RepeatTail(item, extra, parts, r);
      if item.maybe {
        var maybe := Draw(0, 1, 2, false);
        assert DrawsItem(item, Taken(extra, ds)) == [maybe] + tail;
        OneDraw(maybe, tail);
        ShareProduct(0.5, r, Chance(parts), Chance(tail), Chance([maybe] + tail));
      } else {
        assert DrawsItem(item, Taken(extra, ds)) == tail;
        ShareProduct(1.0, r, Chance(parts), Chance(tail), Chance(tail));
      }
    }
  }

  lemma RepeatTail(item: Item, extra: nat, parts: seq<Draw>, r: real) returns (tail: seq<Draw>)
    requires item.min + extra <= item.max && r == 1.0 / Extras(item) as real
    ensures tail == (if item.min == item.max then [] else [Draw(extra, 1, item.max - item.min + 1, true)]) + parts
    ensures IsProduct(r, Chance(parts), Chance(tail))
  {
    var repeat := Draw(extra, 1, item.max - item.min + 1, true);
    assert Odds(repeat) == r;
    OneDraw(repeat, parts);
    tail := if item.min == item.max then parts else [repeat] + parts;
  }

  lemma ShareProduct(half: real, r: real, c: real, x: real, y: real)
    requires IsProduct(r, c, x) && IsProduct(half, x, y)
    ensures IsProduct(half * r, c, y)
  {
  }

  lemma ItemsIndependent(items: seq<Item>)
    requires items != []
    ensures Independent(OfItems(items), OfItem(items[0]), OfItems(items[1..]))
  {
    forall d, ds | Pair(d, ds)
      ensures IsProduct(OfItem(items[0])(d), OfItems(items[1..])(ds), OfItems(items)([d] + ds))
    {
      ItemsChance(items, d, ds);
    }
  }

  lemma PartsIndependent(kind: Kind, n: nat)
    requires n > 0
    ensures Independent(OfParts(kind, n), OfKind(kind), OfParts(kind, n - 1))
  {
    forall d, ds | Pair(d, ds)
      ensures IsProduct(OfKind(kind)(d), OfParts(kind, n - 1)(ds), OfParts(kind, n)([d] + ds))
    {
      PartsChance(kind, n, d, ds);
    }
  }

  lemma FixedSum(kind: Kind)
    requires kind.Literal? || (kind.Set? && kind.ranges == [])
    ensures SumOf(OfKind(kind), AllKind(kind)) == 1.0
  {
    assert OddsOf(DrawsKind(kind, Fixed)) == [];
    SumOne(OfKind(kind), Fixed);
  }

  lemma {:induction false} ChosenSum(kind: Kind, n: nat)
    requires kind.Set? && kind.ranges != [] && n <= Codepoints(kind.ranges, |kind.ranges|)
    requires 0 < Codepoints(kind.ranges, |kind.ranges|)
    ensures SumOf(OfKind(kind), seq(n, i requires i >= 0 => Chosen(i)))
         == n as real / Codepoints(kind.ranges, |kind.ranges|) as real
  {
    if n > 0 {
      var all := Codepoints(kind.ranges, |kind.ranges|);
      AddRatio(n - 1, 1, all);
      ChosenSum(kind, n - 1);
      var init := seq(n - 1, i requires i >= 0 => Chosen(i));
      assert seq(n, i requires i >= 0 => Chosen(i)) == init + [Chosen(n - 1)];
      SumAppend(OfKind(kind), init, [Chosen(n - 1)]);
      LastDraw(Draw(n - 1, 1, all, true));
      SumOne(OfKind(kind), Chosen(n - 1));
    }
  }

  lemma AddRatio(a: nat, b: nat, s: nat)
    requires s > 0
    ensures a as real / s as real + b as real / s as real == (a + b) as real / s as real
  {
  }

  lemma SelfRatio(n: nat)
    requires n > 0
    ensures n as real / n as real == 1.0
  {
  }

  // The sums of all the lists.

  /** The probabilities of a group's derivations add up to exactly 1. */
  lemma {:induction false} TotalGroup(g: Group)
    requires WellFormed(g)
    ensures SumOf(OfGroup(g), AllGroup(g)) == 1.0
    decreases g
  {
    var shares := GroupShares(g);
    TotalSegments(g, |g.segments|, shares);
    assert shares[..|shares|] == shares;
  }

  lemma {:induction false} TotalSegments(g: Group, n: nat, shares: seq<real>)
    requires WellFormed(g) && n <= |g.segments| == |shares|
    requires forall k :: 0 <= k < |shares| ==>
               if g.segments[k].multiplier == 0 then shares[k] == 0.0
               else SegmentShare(OfGroup(g), k, shares[k], OfItems(g.segments[k].items))
    ensures SumOf(OfGroup(g), AllSegments(g, n)) == Total(shares[..n])
    decreases g, n
  {
    if n > 0 {
      TotalSegments(g, n - 1, shares);
      assert shares[..n][..n - 1] == shares[..n - 1];
      if g.segments[n - 1].multiplier > 0 {
        var (items, c) := (g.segments[n - 1].items, shares[n - 1]);
        TotalItems(items);
        SegmentScaled(OfGroup(g), n - 1, c, OfItems(items), AllItems(items));
        SumShare(OfGroup(g), ThroughSegment(g, n - 1), c, OfItems(items), AllItems(items));
        SumAppend(OfGroup(g), AllSegments(g, n - 1), ThroughSegment(g, n - 1));
      } else {
        assert AllSegments(g, n) == AllSegments(g, n - 1);
      }
    }
  }

  lemma {:induction false} TotalItems(items: seq<Item>)
    requires WellFormedItems(items)
    ensures SumOf(OfItems(items), AllItems(items)) == 1.0
    decreases items
  {
    if items == [] {
      assert OddsOf(DrawsItems([], [])) == [];
      SumOne(OfItems(items), []);
    } else {
      TotalItem(items[0]);
      TotalItems(items[1..]);
      ItemsIndependent(items);
      CrossTotal(OfItems(items), OfItem(items[0]), OfItems(items[1..]), AllItem(items[0]), AllItems(items[1..]));
    }
  }

  lemma {:induction false} TotalItem(item: Item)
    requires WellFormedItem(item)
    ensures SumOf(OfItem(item), AllItem(item)) == 1.0
    decreases item, Extras(item) + 1
  {
    var share, shares := ItemShare(item);
    TotalTaken(item, Extras(item), share, shares);
    if item.maybe {
      SkippedSum(item);
      SumAppend(OfItem(item), [Skipped], AllTaken(item, Extras(item)));
    } else {
      assert AllItem(item) == AllTaken(item, Extras(item));
    }
  }

  lemma SkippedSum(item: Item)
    requires item.maybe
    ensures SumOf(OfItem(item), [Skipped]) == 0.5
  {
    SumOne(OfItem(item), Skipped);
    LastDraw(Draw(1, 1, 2, false));
  }

  lemma {:induction false} TotalTaken(item: Item, n: nat, share: real, shares: seq<real>)
    requires WellFormedItem(item) && n == |shares| <= Extras(item)
    requires (forall k :: 0 <= k < |shares| ==> shares[k] == share) && RepeatShares(item, share)
    ensures SumOf(OfItem(item), AllTaken(item, n)) == Total(shares)
    decreases item, n
  {
    if n > 0 {
      TotalTaken(item, n - 1, share, shares[..n - 1]);
      var m := item.min + (n - 1);
      assert Index(n - 1);
      TotalParts(item.kind, m);
      RepeatScaled(OfItem(item), n - 1, share, OfParts(item.kind, m), AllParts(item.kind, m));
      SumShare(OfItem(item), WithExtra(item, n - 1), share, OfParts(item.kind, m), AllParts(item.kind, m));
      SumAppend(OfItem(item), AllTaken(item, n - 1), WithExtra(item, n - 1));
    }
  }

  lemma {:induction false} TotalParts(kind: Kind, n: nat)
    requires WellFormedKind(kind)
    ensures SumOf(OfParts(kind, n), AllParts(kind, n)) == 1.0
    decreases kind, n
  {
    if n == 0 {
      assert OddsOf(DrawsParts(kind, 0, [])) == [];
      SumOne(OfParts(kind, 0), []);
    } else {
      TotalKind(kind);
      TotalParts(kind, n - 1);
      PartsIndependent(kind, n);
      CrossTotal(OfParts(kind, n), OfKind(kind), OfParts(kind, n - 1), AllKind(kind), AllParts(kind, n - 1));
    }
  }

  lemma {:induction false} TotalKind(kind: Kind)
    requires WellFormedKind(kind)
    ensures SumOf(OfKind(kind), AllKind(kind)) == 1.0
    decreases kind, 0
  {
    match kind
    case Set(ranges, _) =>
      if ranges == [] {
        FixedSum(kind);
      } else {
        CodepointsNonNegative(ranges, |ranges|);
        SelfRatio(Codepoints(ranges, |ranges|));
        ChosenSum(kind, Codepoints(ranges, |ranges|));
      }
    case Literal(_, _) => FixedSum(kind);
    case Nested(group) =>
      TotalGroup(group);
      SumShare(OfKind(kind), AllGroup(group), 1.0, OfGroup(group), AllGroup(group));
  }
}
