// Patterns that may ask a question mark, and the ones whose reported entropy is always right.

module Questions {
  import opened Pattern
  import opened Derivation
  import opened Probability
  import opened TotalProbability
  import opened Generation
  import opened Enumeration

  /** Some segment that can be chosen has an item whose question mark, or one inside it, may have to be decided. */
  ghost predicate Asks(g: Group)
    decreases g
  {
    exists k :: 0 <= k < |g.segments| && g.segments[k].multiplier > 0 && AsksItems(g.segments[k].items)
  }

  ghost predicate AsksItems(items: seq<Item>)
    decreases items
  {
    exists i :: 0 <= i < |items| && AsksItem(items[i])
  }

  ghost predicate AsksItem(item: Item)
    decreases item
  {
    item.maybe || (item.max > 0 && item.kind.Nested? && Asks(item.kind.group))
  }

  lemma AsksFirst(items: seq<Item>)
    requires items != []
    ensures AsksItems(items) <==> AsksItem(items[0]) || AsksItems(items[1..])
  {
    if AsksItems(items) && !AsksItem(items[0]) {
      var i :| 0 <= i < |items| && AsksItem(items[i]);
      assert items[1..][i - 1] == items[i];
    }
    if AsksItems(items[1..]) {
      var i :| 0 <= i < |items[1..]| && AsksItem(items[1..][i]);
      assert items[i + 1] == items[1..][i];
    }
  }

  lemma CountedAppend(a: seq<Draw>, b: seq<Draw>)
    ensures AllCounted(a + b) <==> AllCounted(a) && AllCounted(b)
  {
    if AllCounted(a + b) {
      assert forall i :: 0 <= i < |a| ==> (a + b)[i] == a[i];
      assert forall i :: 0 <= i < |b| ==> (a + b)[|a| + i] == b[i];
    }
  }

  // ---------------------------------------------------------------------
  // Without a question, all draws are counted
  // ---------------------------------------------------------------------

  lemma {:induction false} SilentGroup(g: Group, d: Derivation)
    requires !Asks(g) && ValidGroup(g, d)
    ensures AllCounted(DrawsGroup(g, d))
    decreases g
  {
    SilentItems(g.segments[d.segment].items, d.items);
    CountedAppend([Choice(g, d.segment)], DrawsItems(g.segments[d.segment].items, d.items));
  }

  lemma {:induction false} SilentItems(items: seq<Item>, ds: seq<Derivation>)
    requires !AsksItems(items) && ValidItems(items, ds)
    ensures AllCounted(DrawsItems(items, ds))
    decreases items
  {
    if items != [] {
      AsksFirst(items);
      SilentItem(items[0], ds[0]);
      SilentItems(items[1..], ds[1..]);
      CountedAppend(DrawsItem(items[0], ds[0]), DrawsItems(items[1..], ds[1..]));
    }
  }

  lemma {:induction false} SilentItem(item: Item, d: Derivation)
    requires !AsksItem(item) && ValidItem(item, d)
    ensures AllCounted(DrawsItem(item, d))
    decreases item
  {
    var n := item.min + d.extra;
    SilentParts(item.kind, n, d.parts);
    TakenItem(item, d.extra, d.parts, []);
    CountedAppend(Repetition(item, d.extra), DrawsParts(item.kind, n, d.parts));
    assert [] + (Repetition(item, d.extra) + DrawsParts(item.kind, n, d.parts)) == DrawsItem(item, d);
  }

  lemma {:induction false} SilentParts(kind: Kind, n: nat, ds: seq<Derivation>)
    requires ValidParts(kind, n, ds) && (n > 0 && kind.Nested? ==> !Asks(kind.group))
    ensures AllCounted(DrawsParts(kind, n, ds))
    decreases kind, n
  {
    if n > 0 {
      SilentParts(kind, n - 1, ds[1..]);
      if kind.Nested? {
        SilentGroup(kind.group, ds[0]);
      }
      CountedAppend(DrawsKind(kind, ds[0]), DrawsParts(kind, n - 1, ds[1..]));
    }
  }

  // ---------------------------------------------------------------------
  // With one, some derivation decides it
  // ---------------------------------------------------------------------

  /** Probabilities that add up to 1 are not those of nothing. */
  lemma SomeItems(items: seq<Item>) returns (ds: seq<Derivation>)
    requires WellFormedItems(items)
    ensures ValidItems(items, ds)
  {
    ItemsListed(items);
    TotalItems(items);
    ds := AllItems(items)[0];
    assert ds in AllItems(items) && IsItems(items)(ds);
  }

  lemma SomeItem(item: Item) returns (d: Derivation)
    requires WellFormedItem(item)
    ensures ValidItem(item, d)
  {
    ItemListed(item);
    TotalItem(item);
    d := AllItem(item)[0];
    assert d in AllItem(item) && IsItem(item)(d);
  }

  lemma SomeParts(kind: Kind, n: nat) returns (ds: seq<Derivation>)
    requires WellFormedKind(kind)
    ensures ValidParts(kind, n, ds)
  {
    PartsListed(kind, n);
    TotalParts(kind, n);
    ds := AllParts(kind, n)[0];
    assert ds in AllParts(kind, n) && IsParts(kind, n)(ds);
  }

  lemma {:induction false} AskingGroup(g: Group) returns (d: Derivation)
    requires WellFormed(g) && Asks(g)
    ensures ValidGroup(g, d) && !AllCounted(DrawsGroup(g, d))
    decreases g
  {
    var k :| 0 <= k < |g.segments| && g.segments[k].multiplier > 0 && AsksItems(g.segments[k].items);
    var ds := AskingItems(g.segments[k].items);
    d := Segmented(k, ds);
    CountedAppend([Choice(g, k)], DrawsItems(g.segments[k].items, ds));
  }

  lemma {:induction false} AskingItems(items: seq<Item>) returns (ds: seq<Derivation>)
    requires WellFormedItems(items) && AsksItems(items)
    ensures ValidItems(items, ds) && !AllCounted(DrawsItems(items, ds))
    decreases items
  {
    AsksFirst(items);
    var d, rest;
    if AsksItem(items[0]) {
      d := AskingItem(items[0]);
      rest := SomeItems(items[1..]);
    } else {
      d := SomeItem(items[0]);
      rest := AskingItems(items[1..]);
    }
    ds := [d] + rest;
    assert ds[0] == d && ds[1..] == rest;
    CountedAppend(DrawsItem(items[0], d), DrawsItems(items[1..], rest));
  }

  lemma {:induction false} AskingItem(item: Item) returns (d: Derivation)
    requires WellFormedItem(item) && AsksItem(item)
    ensures ValidItem(item, d) && !AllCounted(DrawsItem(item, d))
    decreases item
  {
    if item.maybe {
      d := Skipped;
      assert !DrawsItem(item, d)[0].counted;
    } else {
      var extra := item.max - item.min;
      var parts := AskingParts(item.kind, item.max);
      d := Taken(extra, parts);
      TakenItem(item, extra, parts, []);
      CountedAppend(Repetition(item, extra), DrawsParts(item.kind, item.max, parts));
      CountedAppend([], Repetition(item, extra) + DrawsParts(item.kind, item.max, parts));
    }
  }

  lemma {:induction false} AskingParts(kind: Kind, n: nat) returns (ds: seq<Derivation>)
    requires WellFormedKind(kind) && n > 0 && kind.Nested? && Asks(kind.group)
    ensures ValidParts(kind, n, ds) && !AllCounted(DrawsParts(kind, n, ds))
    decreases kind
  {
    var d := AskingGroup(kind.group);
    var rest := SomeParts(kind, n - 1);
    ds := [d] + rest;
    assert ds[0] == d && ds[1..] == rest;
    CountedAppend(DrawsKind(kind, d), DrawsParts(kind, n - 1, rest));
  }

  // ---------------------------------------------------------------------
  // The reported entropy
  // ---------------------------------------------------------------------

  /** The reported entropy of a derivation is the reciprocal of its probability. */
  ghost predicate Reported(g: Group, d: Derivation)
    requires ValidGroup(g, d)
  {
    IsProduct(Entropy(DrawsGroup(g, d)), Chance(DrawsGroup(g, d)), 1.0)
  }

  /** What is reported is right for everything that can be generated exactly if no question mark may be decided. */
  lemma ReportedExact(g: Group)
    requires WellFormed(g)
    ensures (forall d :: ValidGroup(g, d) ==> Reported(g, d)) <==> !Asks(g)
  {
    if Asks(g) {
      var d := AskingGroup(g);
      EntropyReciprocal(g, d);
      assert !Reported(g, d);
    } else {
      forall d | ValidGroup(g, d)
        ensures Reported(g, d)
      {
        SilentGroup(g, d);
        EntropyReciprocal(g, d);
      }
    }
  }

  /** If no question mark may be decided, the reported entropy is the reciprocal of the probability of what is taken. */
  lemma ReportedEntropy(source: Source, room: nat, limit: nat, g: Group) returns (d: Derivation)
    requires WellFormed(g) && !Asks(g) && RunGroup(source, room, g, Start(limit)).ok
    ensures Takes(source, room, limit, g, d)
    ensures IsProduct(RunGroup(source, room, g, Start(limit)).state.entropy, Chance(DrawsGroup(g, d)), 1.0)
  {
    GenerationRuns(source, room, limit, g);
    d :| Takes(source, room, limit, g, d);
    ReportedExact(g);
    assert Reported(g, d);
  }

  /** The reciprocal of the entropy that is reported for a derivation. */
  ghost function Reciprocal(g: Group): Derivation -> real {
    d => if ValidGroup(g, d) && Entropy(DrawsGroup(g, d)) != 0.0 then 1.0 / Entropy(DrawsGroup(g, d)) else 0.0
  }

  /** x is the entropy, y the probability, and z what is left out. */
  lemma ReciprocalAtLeast(x: real, y: real, z: real)
    requires IsProduct(x, y, z) && 0.0 < z <= 1.0 && y > 0.0
    ensures x != 0.0 && 1.0 / x >= y && (1.0 / x == y <==> z == 1.0)
  {
    assert x > 0.0 && 1.0 / x == y / z;
  }

  lemma {:induction false} ChancePositive(draws: seq<Draw>)
    requires AllPossible(draws)
    ensures Chance(draws) > 0.0
  {
    if draws != [] {
      ChancePositive(draws[1..]);
      assert OddsOf(draws)[1..] == OddsOf(draws[1..]);
      PositiveProduct(Odds(draws[0]), Chance(draws[1..]));
    }
  }

  lemma PositiveProduct(x: real, y: real)
    requires x > 0.0 && y > 0.0
    ensures x * y > 0.0
  {
  }

  /** The reciprocal of the reported entropy is never less than the probability, and equal only if that is right. */
  lemma ReciprocalBound(g: Group, d: Derivation)
    requires WellFormed(g) && ValidGroup(g, d)
    ensures Reciprocal(g)(d) >= OfGroup(g)(d)
    ensures Reciprocal(g)(d) == OfGroup(g)(d) <==> AllCounted(DrawsGroup(g, d))
  {
    var draws := DrawsGroup(g, d);
    EntropyReciprocal(g, d);
    FlipsGroup(g, d);
    FlipsHalve(draws);
    HalvedOne(Flips(draws));
    PossibleGroup(g, d);
    ChancePositive(draws);
    ReciprocalAtLeast(Entropy(draws), Chance(draws), Halved(Flips(draws)));
  }

  /** Terms that are at least as large, and all equal or one of them larger. */
  lemma {:induction false} SumAtLeast<T>(f: T -> real, h: T -> real, xs: seq<T>)
    requires forall i :: 0 <= i < |xs| ==> f(xs[i]) >= h(xs[i])
    ensures SumOf(f, xs) >= SumOf(h, xs)
    ensures SumOf(f, xs) == SumOf(h, xs) <==> forall i :: 0 <= i < |xs| ==> f(xs[i]) == h(xs[i])
  {
    if xs != [] {
      SumAtLeast(f, h, xs[1..]);
      assert forall i :: 0 <= i < |xs[1..]| ==> xs[1..][i] == xs[i + 1];
      assert forall i :: 1 <= i < |xs| ==> xs[i] == xs[1..][i - 1];
    }
  }

  /**
    The reciprocals of the reported entropies add up to 1 over all derivations exactly if no question mark may be
    decided; else they add up to more.
   */
  lemma ReciprocalsAddUp(g: Group)
    requires WellFormed(g)
    ensures SumOf(Reciprocal(g), AllGroup(g)) >= 1.0
    ensures SumOf(Reciprocal(g), AllGroup(g)) == 1.0 <==> !Asks(g)
  {
    var ds := AllGroup(g);
    ProbabilitiesAddUp(g);
    forall i | 0 <= i < |ds|
      ensures Reciprocal(g)(ds[i]) >= OfGroup(g)(ds[i])
      ensures !Asks(g) ==> Reciprocal(g)(ds[i]) == OfGroup(g)(ds[i])
    {
      assert ds[i] in ds && IsGroup(g)(ds[i]);
      ReciprocalBound(g, ds[i]);
      if !Asks(g) {
        SilentGroup(g, ds[i]);
      }
    }
    SumAtLeast(Reciprocal(g), OfGroup(g), ds);
    if Asks(g) {
      var d := AskingGroup(g);
      assert IsGroup(g)(d) && d in ds;
      ReciprocalBound(g, d);
    }
  }

  // Patterns without question marks.

  ghost predicate Plain(g: Group)
    decreases g
  {
    forall k :: 0 <= k < |g.segments| ==> PlainItems(g.segments[k].items)
  }

  ghost predicate PlainItems(items: seq<Item>)
    decreases items
  {
    forall i :: 0 <= i < |items| ==> PlainItem(items[i])
  }

  ghost predicate PlainItem(item: Item)
    decreases item
  {
    !item.maybe && (item.kind.Nested? ==> Plain(item.kind.group))
  }

  lemma {:induction false} PlainGroup(g: Group)
    requires Plain(g)
    ensures !Asks(g)
    decreases g
  {
    forall k | 0 <= k < |g.segments|
      ensures !AsksItems(g.segments[k].items)
    {
      PlainAll(g.segments[k].items);
    }
  }

  lemma {:induction false} PlainAll(items: seq<Item>)
    requires PlainItems(items)
    ensures !AsksItems(items)
    decreases items
  {
    forall i | 0 <= i < |items|
      ensures !AsksItem(items[i])
    {
      PlainOne(items[i]);
    }
  }

  lemma {:induction false} PlainOne(item: Item)
    requires PlainItem(item)
    ensures !AsksItem(item)
    decreases item
  {
    if item.kind.Nested? {
      PlainGroup(item.kind.group);
    }
  }
}
