// The lists of derivations hold every derivation exactly once.

module Enumeration {
  import opened Pattern
  import opened Derivation
  import opened Probability
  import opened TotalProbability
  import opened Generation

  ghost predicate Distinct<T(!new)>(xs: seq<T>) {
    forall i, j :: 0 <= i < j < |xs| ==> xs[i] != xs[j]
  }

  /** The list holds exactly what has property p, and each only once. */
  ghost predicate Lists<T(!new)>(xs: seq<T>, p: T -> bool) {
    Distinct(xs) && forall x :: x in xs <==> p(x)
  }

  ghost function IsGroup(g: Group): Derivation -> bool {
    d => ValidGroup(g, d)
  }

  ghost function IsItems(items: seq<Item>): seq<Derivation> -> bool {
    ds => ValidItems(items, ds)
  }

  ghost function IsItem(item: Item): Derivation -> bool {
    d => ValidItem(item, d)
  }

  ghost function IsParts(kind: Kind, n: nat): seq<Derivation> -> bool {
    ds => ValidParts(kind, n, ds)
  }

  ghost function IsKind(kind: Kind): Derivation -> bool {
    d => ValidKind(kind, d)
  }

  lemma DistinctAppend<T(!new)>(a: seq<T>, b: seq<T>)
    requires Distinct(a) && Distinct(b) && forall x :: x in a ==> x !in b
    ensures Distinct(a + b)
  {
    forall i, j | 0 <= i < j < |a + b|
      ensures (a + b)[i] != (a + b)[j]
    {
      if i < |a| <= j {
        assert a[i] in a && b[j - |a|] in b;
      }
    }
  }

  lemma ConsAllMember(x: Derivation, yss: seq<seq<Derivation>>, zs: seq<Derivation>)
    ensures zs in ConsAll(x, yss) <==> zs != [] && zs[0] == x && zs[1..] in yss
  {
    if zs in ConsAll(x, yss) {
      var i :| 0 <= i < |yss| && ConsAll(x, yss)[i] == zs;
      assert zs[1..] == yss[i];
    }
    if zs != [] && zs[0] == x && zs[1..] in yss {
      var i :| 0 <= i < |yss| && yss[i] == zs[1..];
      assert ConsAll(x, yss)[i] == [x] + zs[1..] == zs;
    }
  }

  lemma {:induction false} CrossMember(xs: seq<Derivation>, yss: seq<seq<Derivation>>, zs: seq<Derivation>)
    ensures zs in Cross(xs, yss) <==> zs != [] && zs[0] in xs && zs[1..] in yss
  {
    if xs != [] {
      ConsAllMember(xs[0], yss, zs);
      CrossMember(xs[1..], yss, zs);
    }
  }

  lemma {:induction false} CrossDistinct(xs: seq<Derivation>, yss: seq<seq<Derivation>>)
    requires Distinct(xs) && Distinct(yss)
    ensures Distinct(Cross(xs, yss))
  {
    if xs != [] {
      CrossDistinct(xs[1..], yss);
      var first := ConsAll(xs[0], yss);
      forall i, j | 0 <= i < j < |first|
        ensures first[i] != first[j]
      {
        assert first[i][1..] == yss[i] && first[j][1..] == yss[j];
      }
      forall zs | zs in first
        ensures zs !in Cross(xs[1..], yss)
      {
        ConsAllMember(xs[0], yss, zs);
        CrossMember(xs[1..], yss, zs);
      }
      DistinctAppend(first, Cross(xs[1..], yss));
    }
  }

  /** Pairs of a listed head and a listed tail. */
  lemma CrossLists(f: seq<Derivation> -> bool, h: Derivation -> bool, k: seq<Derivation> -> bool,
                   xs: seq<Derivation>, yss: seq<seq<Derivation>>)
    requires Lists(xs, h) && Lists(yss, k)
    requires forall zs :: f(zs) <==> zs != [] && h(zs[0]) && k(zs[1..])
    ensures Lists(Cross(xs, yss), f)
  {
    CrossDistinct(xs, yss);
    forall zs
      ensures zs in Cross(xs, yss) <==> f(zs)
    {
      CrossMember(xs, yss, zs);
    }
  }

  lemma ListsAppend<T(!new)>(a: seq<T>, p: T -> bool, b: seq<T>, q: T -> bool, r: T -> bool)
    requires Lists(a, p) && Lists(b, q)
    requires forall x :: r(x) <==> p(x) || q(x)
    requires forall x :: !(p(x) && q(x))
    ensures Lists(a + b, r)
  {
    DistinctAppend(a, b);
  }

  /** Through the first n segments. */
  ghost function IsThrough(g: Group, n: nat): Derivation -> bool {
    d => ValidGroup(g, d) && d.segment < n
  }

  ghost function IsAt(g: Group, k: nat): Derivation -> bool {
    d => ValidGroup(g, d) && d.segment == k
  }

  /** With fewer than n repetitions beyond the minimum. */
  ghost function IsTaken(item: Item, n: nat): Derivation -> bool {
    (d: Derivation) => d.Taken? && ValidItem(item, d) && d.extra < n
  }

  ghost function HasExtra(item: Item, extra: nat): Derivation -> bool {
    (d: Derivation) => d.Taken? && ValidItem(item, d) && d.extra == extra
  }

  // ---------------------------------------------------------------------
  // The lists
  // ---------------------------------------------------------------------

  lemma {:induction false} GroupListed(g: Group)
    requires WellFormed(g)
    ensures Lists(AllGroup(g), IsGroup(g))
    decreases g
  {
    SegmentsListed(g, |g.segments|);
  }

  lemma {:induction false} SegmentsListed(g: Group, n: nat)
    requires WellFormed(g) && n <= |g.segments|
    ensures Lists(AllSegments(g, n), IsThrough(g, n))
    decreases g, n
  {
    if n > 0 {
      SegmentsListed(g, n - 1);
      if g.segments[n - 1].multiplier > 0 {
        ItemsListed(g.segments[n - 1].items);
        ThroughListed(g, n - 1);
        ListsAppend(AllSegments(g, n - 1), IsThrough(g, n - 1), ThroughSegment(g, n - 1), IsAt(g, n - 1),
                    IsThrough(g, n));
      } else {
        assert AllSegments(g, n) == AllSegments(g, n - 1);
      }
    }
  }

  lemma ThroughListed(g: Group, k: nat)
    requires k < |g.segments| && g.segments[k].multiplier > 0
    requires Lists(AllItems(g.segments[k].items), IsItems(g.segments[k].items))
    ensures Lists(ThroughSegment(g, k), IsAt(g, k))
  {
    var (list, dss) := (ThroughSegment(g, k), AllItems(g.segments[k].items));
    forall d
      ensures d in list <==> IsAt(g, k)(d)
    {
      if d in list {
        var i :| 0 <= i < |list| && list[i] == d;
        assert dss[i] in dss && IsItems(g.segments[k].items)(dss[i]);
      }
      if IsAt(g, k)(d) {
        assert IsItems(g.segments[k].items)(d.items);
        var i :| 0 <= i < |dss| && dss[i] == d.items;
        assert list[i] == d;
      }
    }
    assert forall i :: 0 <= i < |dss| ==> list[i].items == dss[i];
  }

  lemma {:induction false} ItemsListed(items: seq<Item>)
    requires WellFormedItems(items)
    ensures Lists(AllItems(items), IsItems(items))
    decreases items
  {
    if items != [] {
      ItemListed(items[0]);
      ItemsListed(items[1..]);
      CrossLists(IsItems(items), IsItem(items[0]), IsItems(items[1..]), AllItem(items[0]), AllItems(items[1..]));
    }
  }

  lemma {:induction false} ItemListed(item: Item)
    requires WellFormedItem(item)
    ensures Lists(AllItem(item), IsItem(item))
    decreases item, Extras(item) + 1
  {
    TakenListed(item, Extras(item));
    var skips := if item.maybe then [Skipped] else [];
    ListsAppend(skips, d => item.maybe && d == Skipped, AllTaken(item, Extras(item)), IsTaken(item, Extras(item)),
                IsItem(item));
  }

  lemma {:induction false} TakenListed(item: Item, n: nat)
    requires WellFormedItem(item) && n <= Extras(item)
    ensures Lists(AllTaken(item, n), IsTaken(item, n))
    decreases item, n
  {
    if n > 0 {
      TakenListed(item, n - 1);
      PartsListed(item.kind, item.min + (n - 1));
      ExtraListed(item, n - 1);
      ListsAppend(AllTaken(item, n - 1), IsTaken(item, n - 1), WithExtra(item, n - 1), HasExtra(item, n - 1),
                  IsTaken(item, n));
    }
  }

  lemma ExtraListed(item: Item, extra: nat)
    requires item.min + extra <= item.max
    requires Lists(AllParts(item.kind, item.min + extra), IsParts(item.kind, item.min + extra))
    ensures Lists(WithExtra(item, extra), HasExtra(item, extra))
  {
    var n := item.min + extra;
    var (list, dss) := (WithExtra(item, extra), AllParts(item.kind, n));
    forall d
      ensures d in list <==> HasExtra(item, extra)(d)
    {
      if d in list {
        var i :| 0 <= i < |list| && list[i] == d;
        assert dss[i] in dss && IsParts(item.kind, n)(dss[i]);
      }
      if HasExtra(item, extra)(d) {
        assert IsParts(item.kind, n)(d.parts);
        var i :| 0 <= i < |dss| && dss[i] == d.parts;
        assert list[i] == d;
      }
    }
    assert forall i :: 0 <= i < |dss| ==> list[i].parts == dss[i];
  }

  lemma {:induction false} PartsListed(kind: Kind, n: nat)
    requires WellFormedKind(kind)
    ensures Lists(AllParts(kind, n), IsParts(kind, n))
    decreases kind, n
  {
    if n > 0 {
      KindListed(kind);
      PartsListed(kind, n - 1);
      CrossLists(IsParts(kind, n), IsKind(kind), IsParts(kind, n - 1), AllKind(kind), AllParts(kind, n - 1));
    }
  }

  lemma {:induction false} KindListed(kind: Kind)
    requires WellFormedKind(kind)
    ensures Lists(AllKind(kind), IsKind(kind))
    decreases kind, 0
  {
    match kind
    case Set(ranges, _) =>
      if ranges != [] {
        ChosenListed(kind);
      }
    case Literal(_, _) =>
    case Nested(group) => GroupListed(group);
  }

  lemma ChosenListed(kind: Kind)
    requires kind.Set? && kind.ranges != []
    ensures Lists(AllChosen(kind.ranges), IsKind(kind))
  {
    var list := AllChosen(kind.ranges);
    forall d | IsKind(kind)(d)
      ensures d in list
    {
      assert list[d.choice] == d;
    }
  }

  // ---------------------------------------------------------------------
  // The probabilities
  // ---------------------------------------------------------------------

  /** The list holds exactly the derivations of a pattern, each once, and their probabilities add up to 1. */
  lemma ProbabilitiesAddUp(g: Group)
    requires WellFormed(g)
    ensures Lists(AllGroup(g), IsGroup(g))
    ensures SumOf(OfGroup(g), AllGroup(g)) == 1.0
  {
    GroupListed(g);
    TotalGroup(g);
  }
}
