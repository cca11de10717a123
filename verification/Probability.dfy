// How likely each derivation is, and what the reported entropy says about it.

module Probability {
  import opened Pattern
  import opened Derivation

  // ---------------------------------------------------------------------
  // Lists of draws
  // ---------------------------------------------------------------------

  /** The probability that a draw comes out as it should. */
  ghost function Odds(draw: Draw): real {
    if draw.outOf == 0 then 0.0 else draw.ways as real / draw.outOf as real
  }

  /** What a draw multiplies the reported entropy by. */
  ghost function Factor(draw: Draw): real {
    if draw.counted && draw.ways != 0 then draw.outOf as real / draw.ways as real else 1.0
  }

  ghost function Product(rs: seq<real>): real {
    if rs == [] then 1.0 else rs[0] * Product(rs[1..])
  }

  ghost function OddsOf(draws: seq<Draw>): seq<real> {
    seq(|draws|, i requires 0 <= i < |draws| => Odds(draws[i]))
  }

  ghost function FactorsOf(draws: seq<Draw>): seq<real> {
    seq(|draws|, i requires 0 <= i < |draws| => Factor(draws[i]))
  }

  /** The probability that every draw of the list comes out as it should. */
  ghost function Chance(draws: seq<Draw>): real {
    Product(OddsOf(draws))
  }

  /** The entropy that is reported for the list, as an effective number of choices. */
  ghost function Entropy(draws: seq<Draw>): real {
    Product(FactorsOf(draws))
  }

  /** The draws that the entropy leaves out. */
  ghost function Uncounted(draws: seq<Draw>): seq<Draw> {
    seq(|draws|, i requires 0 <= i < |draws| => if draws[i].counted then Draw(0, 1, 1, true) else draws[i])
  }

  ghost predicate IsProduct(x: real, y: real, z: real) {
    x * y == z
  }

  lemma {:induction false} ProductAppend(a: seq<real>, b: seq<real>)
    ensures IsProduct(Product(a), Product(b), Product(a + b))
  {
    if a == [] {
      assert a + b == b;
    } else {
      ProductAppend(a[1..], b);
      assert (a + b)[1..] == a[1..] + b;
      RealAssoc(a[0], Product(a[1..]), Product(b));
    }
  }

  lemma RealAssoc(x: real, y: real, z: real)
    ensures x * (y * z) == x * y * z
  {
  }

  lemma ChanceAppend(a: seq<Draw>, b: seq<Draw>)
    ensures IsProduct(Chance(a), Chance(b), Chance(a + b))
  {
    assert OddsOf(a + b) == OddsOf(a) + OddsOf(b);
    ProductAppend(OddsOf(a), OddsOf(b));
  }

  lemma EntropyAppend(a: seq<Draw>, b: seq<Draw>)
    ensures Entropy(a + b) == Entropy(a) * Entropy(b)
  {
    assert FactorsOf(a + b) == FactorsOf(a) + FactorsOf(b);
    ProductAppend(FactorsOf(a), FactorsOf(b));
  }

  ghost predicate Pairwise(a: seq<real>, b: seq<real>, c: seq<real>) {
    |a| == |b| == |c| && forall i :: 0 <= i < |a| ==> IsProduct(a[i], b[i], c[i])
  }

  lemma {:induction false} ProductPairs(a: seq<real>, b: seq<real>, c: seq<real>)
    requires Pairwise(a, b, c)
    ensures IsProduct(Product(a), Product(b), Product(c))
  {
    if a != [] {
      assert Pairwise(a[1..], b[1..], c[1..]);
      ProductPairs(a[1..], b[1..], c[1..]);
      Regroup(a[0], Product(a[1..]), b[0], Product(b[1..]));
    }
  }

  lemma Regroup(f: real, e: real, o: real, c: real)
    ensures (f * e) * (o * c) == (f * o) * (e * c)
  {
  }

  /** The reported entropy times the probability is exactly what the question marks leave uncounted. */
  lemma EntropyExact(draws: seq<Draw>)
    requires AllPossible(draws)
    ensures IsProduct(Entropy(draws), Chance(draws), Chance(Uncounted(draws)))
  {
    var factors, odds, rest := FactorsOf(draws), OddsOf(draws), OddsOf(Uncounted(draws));
    forall i | 0 <= i < |draws|
      ensures IsProduct(factors[i], odds[i], rest[i])
    {
      FactorOdds(draws[i]);
    }
    ProductPairs(factors, odds, rest);
  }

  lemma FactorOdds(draw: Draw)
    requires Possible(draw)
    ensures Factor(draw) * Odds(draw) == if draw.counted then 1.0 else Odds(draw)
  {
    var (x, y) := (draw.outOf as real, draw.ways as real);
    assert (x / y) * (y / x) == 1.0;
  }

  /** No draw of the list is for a question mark. */
  ghost predicate AllCounted(draws: seq<Draw>) {
    forall i :: 0 <= i < |draws| ==> draws[i].counted
  }

  /** The draws that are not counted are one in two. */
  ghost predicate CoinFlips(draws: seq<Draw>) {
    forall i :: 0 <= i < |draws| && !draws[i].counted ==> draws[i].ways == 1 && draws[i].outOf == 2
  }

  /** How many draws are not counted. */
  ghost function Flips(draws: seq<Draw>): nat {
    if draws == [] then 0 else (if draws[0].counted then 0 else 1) + Flips(draws[1..])
  }

  ghost function Halved(n: nat): real {
    if n == 0 then 1.0 else 0.5 * Halved(n - 1)
  }

  lemma {:induction false} HalvedOne(n: nat)
    ensures 0.0 < Halved(n) <= 1.0 && (Halved(n) == 1.0 <==> n == 0)
  {
    if n > 0 {
      HalvedOne(n - 1);
    }
  }

  /** Every draw that is not counted halves the chance. */
  lemma {:induction false} FlipsHalve(draws: seq<Draw>)
    requires CoinFlips(draws)
    ensures Chance(Uncounted(draws)) == Halved(Flips(draws))
    ensures Flips(draws) == 0 <==> AllCounted(draws)
  {
    if draws != [] {
      FlipsHalve(draws[1..]);
      var odds, rest := OddsOf(Uncounted(draws)), OddsOf(Uncounted(draws[1..]));
      assert odds[1..] == rest;
      assert odds[0] == if draws[0].counted then 1.0 else 0.5;
      assert AllCounted(draws) <==> draws[0].counted && AllCounted(draws[1..]) by {
        assert draws == [draws[0]] + draws[1..];
      }
    }
  }
}
