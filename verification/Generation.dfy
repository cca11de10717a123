// Generation as a function of its state: what a run does, and that the successful runs are the derivations.

module Generation {
  import opened Words
  import opened Pattern
  import opened Derivation
  import opened Probability

  /** The source of randomness: the p-th draw, when it has to be below m, which has to be a positive 64-bit number. */
  type Source = f: (nat, nat) -> nat | forall p: nat, m: nat :: 0 < m < W64 ==> f(p, m) < m witness (p, m) => 0

  /** The depth that is left, the entropy so far, the codepoints written, and how many draws were made. */
  datatype State = State(depth: nat, entropy: real, out: Word, draws: nat)

  datatype Outcome = Outcome(ok: bool, state: State)

  /** Which segment a choice below the sum of the multipliers lands on. */
  function Select(segments: seq<Segment>, choice: nat): (k: nat)
    ensures k <= |segments|
  {
    if segments == [] then 0
    else if choice < segments[0].multiplier then 0
    else 1 + Select(segments[1..], choice - segments[0].multiplier)
  }

  function Draws(s: State): State {
    s.(draws := s.draws + 1)
  }

  function Counted(s: State, outOf: nat, ways: nat): State {
    if ways == 0 then s else s.(entropy := s.entropy * outOf as real / ways as real)
  }

  /** Writing codepoints to a buffer for room of them. */
  function Emit(room: nat, codepoints: seq<int>, s: State): Outcome {
    if codepoints == [] then Outcome(true, s)
    else if |s.out| >= room then Outcome(false, s)
    else Emit(room, codepoints[1..], s.(out := s.out + [codepoints[0]]))
  }

  /** How many choices for a repetition there are, in size_t, and the number of times that one of them means. */
  function Ways(item: Item): u64 {
    Wrap(Wrap(item.max - item.min) + 1)
  }

  function Times(item: Item, choice: nat): u64 {
    Wrap(item.min + choice)
  }

  /** The number of repetitions that a run draws, and the state after that. */
  function Repeats(source: Source, item: Item, s: State): (nat, State) {
    var difference := Wrap(item.max - item.min);
    if difference == 0 then (item.min, s) else RepeatsOneOf(source, item, Ways(item), s)
  }

  function RepeatsOneOf(source: Source, item: Item, ways: nat, s: State): (nat, State) {
    (Times(item, source(s.draws, ways)), Counted(Draws(s), ways, 1))
  }

  /** On success, the depth is given back. */
  function Ascended(r: Outcome): Outcome {
    if r.ok then Outcome(true, r.state.(depth := r.state.depth + 1)) else r
  }

  function RunGroup(source: Source, room: nat, g: Group, s: State): Outcome
    decreases g
  {
    if s.depth == 0 then Outcome(false, s)
    else if g.sum == 0 then Outcome(false, s.(depth := s.depth - 1))
    else
      var k := Select(g.segments, source(s.draws, g.sum));
      var below := Draws(s.(depth := s.depth - 1));
      if k == |g.segments| then Outcome(false, below)
      else
        Ascended(RunItems(source, room, g.segments[k].items, Counted(below, g.sum, g.segments[k].multiplier)))
  }

  function RunItems(source: Source, room: nat, items: seq<Item>, s: State): Outcome
    decreases items
  {
    if items == [] then Outcome(true, s)
    else
      var r := RunItem(source, room, items[0], s);
      if r.ok then RunItems(source, room, items[1..], r.state) else r
  }

  function RunItem(source: Source, room: nat, item: Item, s: State): Outcome
    decreases item, 1
  {
    if item.maybe then
      if source(s.draws, 2) == 1 then Outcome(true, Draws(s)) else RunTaken(source, room, item, Draws(s))
    else RunTaken(source, room, item, s)
  }

  function RunTaken(source: Source, room: nat, item: Item, s: State): Outcome
    decreases item, 0
  {
    var (n, t) := Repeats(source, item, s);
    RunParts(source, room, item.kind, n, t)
  }

  function RunParts(source: Source, room: nat, kind: Kind, n: nat, s: State): Outcome
    decreases kind, n
  {
    if n == 0 then Outcome(true, s)
    else
      var r := RunKind(source, room, kind, s);
      if r.ok then RunParts(source, room, kind, n - 1, r.state) else r
  }

  function RunKind(source: Source, room: nat, kind: Kind, s: State): Outcome
    decreases kind, 0
  {
    match kind
    case Set(ranges, _) =>
      var possible := Codepoints(ranges, |ranges|);
      if ranges == [] || possible <= 0 then Outcome(true, s)
      else Emit(room, [Pick(ranges, source(s.draws, possible))], Counted(Draws(s), possible, 1))
    case Literal(codepoints, _) => Emit(room, codepoints, s)
    case Special(_, _) => Outcome(false, s)
    case Nested(group) => RunGroup(source, room, group, s)
  }

  // ---------------------------------------------------------------------
  // Choosing a segment
  // ---------------------------------------------------------------------

  lemma {:induction false} MultipliersFront(segments: seq<Segment>, n: nat)
    requires 1 <= n <= |segments|
    ensures Multipliers(segments, n) == segments[0].multiplier + Multipliers(segments[1..], n - 1)
  {
    if n > 1 {
      MultipliersFront(segments, n - 1);
    } else {
      assert Multipliers(segments, 0) == 0;
    }
  }

  /** A segment is chosen by exactly as many choices as its multiplier says. */
  lemma {:induction false} SelectWindow(segments: seq<Segment>, choice: nat, k: nat)
    requires k < |segments|
    ensures Select(segments, choice) == k <==> Multipliers(segments, k) <= choice < Multipliers(segments, k + 1)
  {
    MultipliersFront(segments, k + 1);
    if k > 0 {
      MultipliersFront(segments, k);
      if choice >= segments[0].multiplier {
        SelectWindow(segments[1..], choice - segments[0].multiplier, k - 1);
      } else {
        MultipliersMonotone(segments, 1, k);
      }
    } else {
      assert Multipliers(segments[1..], 0) == 0 && Multipliers(segments, 0) == 0;
    }
  }

  /** With the right sum, every choice lands on a segment. */
  lemma {:induction false} SelectInRange(segments: seq<Segment>, choice: nat)
    ensures Select(segments, choice) < |segments| <==> choice < Multipliers(segments, |segments|)
  {
    if segments != [] {
      MultipliersFront(segments, |segments|);
      if choice >= segments[0].multiplier {
        SelectInRange(segments[1..], choice - segments[0].multiplier);
      }
    }
  }

  // ---------------------------------------------------------------------
  // What a derivation does to the state
  // ---------------------------------------------------------------------

  /** The draws from position p on come out as the list says. */
  ghost predicate Fits(source: Source, p: nat, draws: seq<Draw>) {
    forall i :: 0 <= i < |draws| ==>
      draws[i].first <= source(p + i, draws[i].outOf) < draws[i].first + draws[i].ways
  }

  lemma FitsAppend(source: Source, p: nat, a: seq<Draw>, b: seq<Draw>)
    ensures Fits(source, p, a + b) <==> Fits(source, p, a) && Fits(source, p + |a|, b)
  {
    if Fits(source, p, a + b) {
      forall i | 0 <= i < |a|
        ensures a[i].first <= source(p + i, a[i].outOf) < a[i].first + a[i].ways
      {
        assert (a + b)[i] == a[i];
      }
      forall i | 0 <= i < |b|
        ensures b[i].first <= source(p + |a| + i, b[i].outOf) < b[i].first + b[i].ways
      {
        assert (a + b)[|a| + i] == b[i];
      }
    }
    if Fits(source, p, a) && Fits(source, p + |a|, b) {
      forall i | 0 <= i < |a + b|
        ensures (a + b)[i].first <= source(p + i, (a + b)[i].outOf) < (a + b)[i].first + (a + b)[i].ways
      {
        if i >= |a| {
          assert (a + b)[i] == b[i - |a|] && p + |a| + (i - |a|) == p + i;
        }
      }
    }
  }

  /** The state after draws that write w. */
  ghost function After(s: State, draws: seq<Draw>, w: Word): State {
    State(s.depth, s.entropy * Entropy(draws), s.out + w, s.draws + |draws|)
  }

  lemma AfterAppend(s: State, a: seq<Draw>, v: Word, b: seq<Draw>, w: Word)
    ensures After(After(s, a, v), b, w) == After(s, a + b, v + w)
  {
    EntropyAppend(a, b);
    RealAssoc(s.entropy, Entropy(a), Entropy(b));
    assert s.out + v + w == s.out + (v + w);
  }

  lemma AfterNothing(s: State)
    ensures After(s, [], []) == s
  {
    assert FactorsOf([]) == [];
    assert s.out + [] == s.out;
  }

  lemma AfterDraw(s: State, draw: Draw)
    requires Possible(draw)
    ensures After(s, [draw], []) == if draw.counted then Counted(Draws(s), draw.outOf, draw.ways) else Draws(s)
  {
    var factors := FactorsOf([draw]);
    assert factors == [Factor(draw)] && factors[1..] == [];
    assert Product(factors) == Factor(draw);
    assert s.out + [] == s.out;
    ScaleRatio(s.entropy, draw.outOf as real, draw.ways as real);
  }

  lemma ScaleRatio(e: real, x: real, y: real)
    requires y != 0.0
    ensures e * x / y == e * (x / y)
  {
  }

  lemma {:induction false} EmitAll(room: nat, codepoints: seq<int>, s: State)
    ensures Emit(room, codepoints, s).ok <==> |s.out| + |codepoints| <= room || codepoints == []
    ensures Emit(room, codepoints, s).ok ==> Emit(room, codepoints, s).state == s.(out := s.out + codepoints)
  {
    if codepoints == [] {
      assert s.out + [] == s.out;
    } else if |s.out| < room {
      EmitAll(room, codepoints[1..], s.(out := s.out + [codepoints[0]]));
      assert s.out + [codepoints[0]] + codepoints[1..] == s.out + codepoints;
    }
  }

  // How deep a derivation nests groups.

  ghost function NestGroup(g: Group, d: Derivation): nat
    requires ValidGroup(g, d)
    decreases g
  {
    1 + NestItems(g.segments[d.segment].items, d.items)
  }

  ghost function NestItems(items: seq<Item>, ds: seq<Derivation>): nat
    requires ValidItems(items, ds)
    decreases items
  {
    if items == [] then 0 else Larger(NestItem(items[0], ds[0]), NestItems(items[1..], ds[1..]))
  }

  ghost function NestItem(item: Item, d: Derivation): nat
    requires ValidItem(item, d)
    decreases item
  {
    match d
    case Skipped => 0
    case Taken(extra, parts) => NestParts(item.kind, item.min + extra, parts)
  }

  ghost function NestParts(kind: Kind, n: nat, ds: seq<Derivation>): nat
    requires ValidParts(kind, n, ds)
    decreases kind, n
  {
    if n == 0 then 0 else Larger(NestKind(kind, ds[0]), NestParts(kind, n - 1, ds[1..]))
  }

  ghost function NestKind(kind: Kind, d: Derivation): nat
    requires ValidKind(kind, d)
    decreases kind, 0
  {
    match kind
    case Set(_, _) => 0
    case Literal(_, _) => 0
    case Nested(group) => NestGroup(group, d)
  }

  function Larger(a: nat, b: nat): nat {
    if a < b then b else a
  }

  /** There are room and depth for a derivation. */
  ghost predicate Room(room: nat, s: State, w: Word, nest: nat) {
    (w == [] || |s.out| + |w| <= room) && nest <= s.depth
  }

  lemma RoomSplit(room: nat, s: State, draws: seq<Draw>, v: Word, w: Word, m: nat, n: nat)
    ensures Room(room, s, v + w, Larger(m, n)) <==> Room(room, s, v, m) && Room(room, After(s, draws, v), w, n)
  {
  }

  // ---------------------------------------------------------------------
  // A run finds every derivation
  // ---------------------------------------------------------------------

  /** The draw of a group that a segment is chosen by. */
  ghost function Choice(g: Group, k: nat): Draw
    requires k < |g.segments|
  {
    Draw(Multipliers(g.segments, k), g.segments[k].multiplier, g.sum, true)
  }

  /** A draw that fits leads through the segment. */
  lemma ThroughChoice(source: Source, room: nat, g: Group, s: State, k: nat)
    requires g.sum == Multipliers(g.segments, |g.segments|) && k < |g.segments| && g.segments[k].multiplier > 0
    requires s.depth > 0 && Fits(source, s.draws, [Choice(g, k)])
    ensures RunGroup(source, room, g, s)
         == Ascended(RunItems(source, room, g.segments[k].items, After(s.(depth := s.depth - 1), [Choice(g, k)], [])))
  {
    MultipliersMonotone(g.segments, k + 1, |g.segments|);
    FirstFits(source, s.draws, Choice(g, k));
    SelectWindow(g.segments, source(s.draws, g.sum), k);
    AfterDraw(s.(depth := s.depth - 1), Choice(g, k));
  }

  /** The draws of a derivation make a run succeed and yield its word, if there are depth and room for it. */
  lemma {:induction false} ReachGroup(source: Source, room: nat, g: Group, s: State, d: Derivation)
    requires WellFormed(g) && ValidGroup(g, d) && Fits(source, s.draws, DrawsGroup(g, d))
    requires Room(room, s, YieldGroup(g, d), NestGroup(g, d))
    ensures RunGroup(source, room, g, s) == Outcome(true, After(s, DrawsGroup(g, d), YieldGroup(g, d)))
    decreases g
  {
    var (items, draw) := (g.segments[d.segment].items, Choice(g, d.segment));
    var draws := DrawsItems(items, d.items);
    FitsAppend(source, s.draws, [draw], draws);
    ThroughChoice(source, room, g, s, d.segment);
    var below := s.(depth := s.depth - 1);
    ReachItems(source, room, items, After(below, [draw], []), d.items);
    AfterAppend(below, [draw], [], draws, YieldItems(items, d.items));
    assert [] + YieldItems(items, d.items) == YieldItems(items, d.items);
  }

  lemma FirstFits(source: Source, p: nat, draw: Draw)
    ensures Fits(source, p, [draw]) <==> draw.first <= source(p, draw.outOf) < draw.first + draw.ways
  {
    assert p + 0 == p;
    var draws := [draw];
    assert Fits(source, p, draws) ==> draws[0].first <= source(p + 0, draws[0].outOf) < draws[0].first + draws[0].ways;
  }

  lemma {:induction false} ReachItems(source: Source, room: nat, items: seq<Item>, s: State, ds: seq<Derivation>)
    requires WellFormedItems(items) && ValidItems(items, ds) && Fits(source, s.draws, DrawsItems(items, ds))
    requires Room(room, s, YieldItems(items, ds), NestItems(items, ds))
    ensures RunItems(source, room, items, s) == Outcome(true, After(s, DrawsItems(items, ds), YieldItems(items, ds)))
    decreases items
  {
    if items == [] {
      AfterNothing(s);
    } else {
      var a, b := DrawsItem(items[0], ds[0]), DrawsItems(items[1..], ds[1..]);
      var v, w := YieldItem(items[0], ds[0]), YieldItems(items[1..], ds[1..]);
      FitsAppend(source, s.draws, a, b);
      RoomSplit(room, s, a, v, w, NestItem(items[0], ds[0]), NestItems(items[1..], ds[1..]));
      ReachItem(source, room, items[0], s, ds[0]);
      ReachItems(source, room, items[1..], After(s, a, v), ds[1..]);
      AfterAppend(s, a, v, b, w);
    }
  }

  lemma {:induction false} ReachItem(source: Source, room: nat, item: Item, s: State, d: Derivation)
    requires WellFormedItem(item) && ValidItem(item, d) && Fits(source, s.draws, DrawsItem(item, d))
    requires Room(room, s, YieldItem(item, d), NestItem(item, d))
    ensures RunItem(source, room, item, s) == Outcome(true, After(s, DrawsItem(item, d), YieldItem(item, d)))
    decreases item, 1
  {
    match d
    case Skipped =>
      var skip := Draw(1, 1, 2, false);
      FirstFits(source, s.draws, skip);
      AfterDraw(s, skip);
    case Taken(extra, parts) =>
      var take := Draw(0, 1, 2, false);
      var w := YieldItem(item, d);
      var n := item.min + extra;
      var draws := Repetition(item, extra) + DrawsParts(item.kind, n, parts);
      if item.maybe {
        assert DrawsItem(item, d) == [take] + draws;
        FitsAppend(source, s.draws, [take], draws);
        FirstFits(source, s.draws, take);
        AfterDraw(s, take);
        ReachTaken(source, room, item, Draws(s), extra, n, parts);
        AfterAppend(s, [take], [], draws, w);
        assert [] + w == w;
      } else {
        assert DrawsItem(item, d) == draws;
        ReachTaken(source, room, item, s, extra, n, parts);
      }
  }

  /** The draw for the number of repetitions. */
  ghost function Repetition(item: Item, extra: nat): seq<Draw> {
    if item.min >= item.max then [] else [Draw(extra, 1, item.max - item.min + 1, true)]
  }

  lemma {:induction false} ReachTaken(source: Source, room: nat, item: Item, s: State,
                                      extra: nat, n: nat, parts: seq<Derivation>)
    requires WellFormedItem(item) && n == item.min + extra <= item.max && ValidParts(item.kind, n, parts)
    requires Fits(source, s.draws, Repetition(item, extra) + DrawsParts(item.kind, n, parts))
    requires Room(room, s, YieldParts(item.kind, n, parts), NestParts(item.kind, n, parts))
    ensures RunTaken(source, room, item, s)
         == Outcome(true, After(s, Repetition(item, extra) + DrawsParts(item.kind, n, parts),
                                YieldParts(item.kind, n, parts)))
    decreases item, 0
  {
    var draws, w := DrawsParts(item.kind, n, parts), YieldParts(item.kind, n, parts);
    var repetition := Repetition(item, extra);
    FitsAppend(source, s.draws, repetition, draws);
    RepetitionRuns(source, item, s, extra);
    ReachParts(source, room, item.kind, n, After(s, repetition, []), parts);
    AfterAppend(s, repetition, [], draws, w);
    assert [] + w == w;
  }

  /** How many choices there are for a repetition that does not run backwards: none at all if all of size_t is. */
  lemma RepetitionWays(item: Item)
    requires item.min <= item.max
    ensures Wrap(item.max - item.min) == item.max - item.min
    ensures Ways(item) == if Drawable(item) then item.max - item.min + 1 else 0
  {
  }

  /** There is something to draw, and all that is drawn is from the minimum to the maximum. */
  ghost predicate InBounds(item: Item) {
    Ways(item) > 0 && forall choice: nat :: choice < Ways(item) ==> item.min <= Times(item, choice) <= item.max
  }

  /** Exactly the drawable repetitions stay in their bounds; one that runs backwards can be repeated its minimum. */
  lemma RepetitionExact(item: Item)
    ensures InBounds(item) <==> Drawable(item)
  {
    if item.min <= item.max {
      RepetitionWays(item);
      forall choice: nat | Drawable(item) && choice < Ways(item)
        ensures item.min <= Times(item, choice) <= item.max
      {
        WrapSmall(item.min + choice);
      }
    } else if Ways(item) > 0 {
      WrapSmall(item.min + 0);
      assert Times(item, 0) == item.min;
    }
  }

  lemma RepeatsSmall(source: Source, item: Item, s: State)
    requires Drawable(item)
    ensures Repeats(source, item, s)
         == if item.min == item.max then (item.min, s) else RepeatsOneOf(source, item, item.max - item.min + 1, s)
    ensures item.min < item.max ==>
              Repeats(source, item, s).0 == item.min + source(s.draws, item.max - item.min + 1) <= item.max
  {
    RepetitionWays(item);
    if item.min < item.max {
      var x := source(s.draws, item.max - item.min + 1);
      assert x <= item.max - item.min;
      WrapSmall(item.min + x);
    }
  }

  lemma RepetitionRuns(source: Source, item: Item, s: State, extra: nat)
    requires Drawable(item) && item.min + extra <= item.max
    ensures Fits(source, s.draws, Repetition(item, extra)) <==> Repeats(source, item, s).0 == item.min + extra
    ensures Repeats(source, item, s).1 == After(s, Repetition(item, extra), [])
  {
    RepeatsSmall(source, item, s);
    AfterNothing(s);
    if item.min < item.max {
      var draw := Draw(extra, 1, item.max - item.min + 1, true);
      FirstFits(source, s.draws, draw);
      AfterDraw(s, draw);
    }
  }

  lemma {:induction false} ReachParts(source: Source, room: nat, kind: Kind, n: nat, s: State, ds: seq<Derivation>)
    requires WellFormedKind(kind) && ValidParts(kind, n, ds) && Fits(source, s.draws, DrawsParts(kind, n, ds))
    requires Room(room, s, YieldParts(kind, n, ds), NestParts(kind, n, ds))
    ensures RunParts(source, room, kind, n, s)
         == Outcome(true, After(s, DrawsParts(kind, n, ds), YieldParts(kind, n, ds)))
    decreases kind, n
  {
    if n == 0 {
      AfterNothing(s);
    } else {
      var a, b := DrawsKind(kind, ds[0]), DrawsParts(kind, n - 1, ds[1..]);
      var v, w := YieldKind(kind, ds[0]), YieldParts(kind, n - 1, ds[1..]);
      FitsAppend(source, s.draws, a, b);
      RoomSplit(room, s, a, v, w, NestKind(kind, ds[0]), NestParts(kind, n - 1, ds[1..]));
      ReachKind(source, room, kind, s, ds[0]);
      ReachParts(source, room, kind, n - 1, After(s, a, v), ds[1..]);
      AfterAppend(s, a, v, b, w);
    }
  }

  lemma {:induction false} ReachKind(source: Source, room: nat, kind: Kind, s: State, d: Derivation)
    requires WellFormedKind(kind) && ValidKind(kind, d) && Fits(source, s.draws, DrawsKind(kind, d))
    requires Room(room, s, YieldKind(kind, d), NestKind(kind, d))
    ensures RunKind(source, room, kind, s) == Outcome(true, After(s, DrawsKind(kind, d), YieldKind(kind, d)))
    decreases kind, 0
  {
    match kind
    case Set(ranges, _) =>
      if ranges == [] {
        AfterNothing(s);
      } else {
        ReachSet(source, room, ranges, s, d.choice);
      }
    case Literal(codepoints, _) =>
      EmitAll(room, codepoints, s);
      AfterWord(s, [], codepoints);
    case Nested(group) => ReachGroup(source, room, group, s, d);
  }

  lemma ReachSet(source: Source, room: nat, ranges: seq<Range>, s: State, choice: nat)
    requires ranges != [] && choice < Codepoints(ranges, |ranges|) && |s.out| < room
    requires Fits(source, s.draws, [Draw(choice, 1, Codepoints(ranges, |ranges|), true)])
    ensures RunKind(source, room, Set(ranges, []), s)
         == Outcome(true, After(s, [Draw(choice, 1, Codepoints(ranges, |ranges|), true)], [Pick(ranges, choice)]))
  {
    var draw := Draw(choice, 1, Codepoints(ranges, |ranges|), true);
    FirstFits(source, s.draws, draw);
    AfterDraw(s, draw);
    AfterWord(s, [draw], [Pick(ranges, choice)]);
    EmitAll(room, [Pick(ranges, choice)], Counted(Draws(s), draw.outOf, 1));
  }

  lemma AfterWord(s: State, draws: seq<Draw>, w: Word)
    ensures After(s, draws, w) == After(s, draws, []).(out := s.out + w)
    ensures draws == [] ==> After(s, draws, w) == s.(out := s.out + w)
  {
    assert s.out + [] == s.out;
    if draws == [] {
      AfterNothing(s);
    }
  }

  // ---------------------------------------------------------------------
  // Every successful run follows a derivation
  // ---------------------------------------------------------------------

  /** A run from s to t made these draws and wrote this word, with enough depth and room. */
  ghost predicate Explains(source: Source, room: nat, s: State, t: State, draws: seq<Draw>, w: Word, nest: nat) {
    Fits(source, s.draws, draws) && t == After(s, draws, w) && Room(room, s, w, nest)
  }

  lemma ExplainsAppend(source: Source, room: nat, s: State, t: State, u: State,
                       a: seq<Draw>, v: Word, m: nat, b: seq<Draw>, w: Word, n: nat)
    requires Explains(source, room, s, t, a, v, m) && Explains(source, room, t, u, b, w, n)
    ensures Explains(source, room, s, u, a + b, v + w, Larger(m, n))
  {
    FitsAppend(source, s.draws, a, b);
    AfterAppend(s, a, v, b, w);
    RoomSplit(room, s, a, v, w, m, n);
  }

  lemma ExplainsNothing(source: Source, room: nat, s: State)
    ensures Explains(source, room, s, s, [], [], 0)
  {
    AfterNothing(s);
  }

  /** What a run draws before it goes on. */
  lemma ExplainsFirst(source: Source, room: nat, s: State, t: State, u: State,
                      a: seq<Draw>, b: seq<Draw>, w: Word, n: nat)
    requires Fits(source, s.draws, a) && t == After(s, a, []) && Explains(source, room, t, u, b, w, n)
    ensures Explains(source, room, s, u, a + b, w, n)
  {
    ExplainsAppend(source, room, s, t, u, a, [], 0, b, w, n);
    assert [] + w == w;
  }

  lemma {:induction false} FollowGroup(source: Source, room: nat, g: Group, s: State) returns (d: Derivation)
    requires WellFormed(g) && RunGroup(source, room, g, s).ok
    ensures ValidGroup(g, d)
    ensures Explains(source, room, s, RunGroup(source, room, g, s).state,
                     DrawsGroup(g, d), YieldGroup(g, d), NestGroup(g, d))
    decreases g
  {
    var k := ChosenSegment(source, room, g, s);
    var (items, draw) := (g.segments[k].items, Choice(g, k));
    ThroughChoice(source, room, g, s, k);
    var below := s.(depth := s.depth - 1);
    var start := After(below, [draw], []);
    var ds := FollowItems(source, room, items, start);
    d := Segmented(k, ds);
    var end := RunItems(source, room, items, start).state;
    var draws, w := DrawsItems(items, ds), YieldItems(items, ds);
    ExplainsFirst(source, room, below, start, end, [draw], draws, w, NestItems(items, ds));
    ExplainsDeeper(source, room, s, end, [draw] + draws, w, NestItems(items, ds));
  }

  lemma ChosenSegment(source: Source, room: nat, g: Group, s: State) returns (k: nat)
    requires WellFormed(g) && RunGroup(source, room, g, s).ok
    ensures s.depth > 0 && k < |g.segments| && g.segments[k].multiplier > 0 && Fits(source, s.draws, [Choice(g, k)])
  {
    k := Select(g.segments, source(s.draws, g.sum));
    SelectWindow(g.segments, source(s.draws, g.sum), k);
    FirstFits(source, s.draws, Choice(g, k));
  }

  /** Depth that was taken away and given back. */
  lemma ExplainsDeeper(source: Source, room: nat, s: State, end: State, draws: seq<Draw>, w: Word, nest: nat)
    requires s.depth > 0 && Explains(source, room, s.(depth := s.depth - 1), end, draws, w, nest)
    ensures Explains(source, room, s, end.(depth := end.depth + 1), draws, w, 1 + nest)
  {
  }

  lemma {:induction false} FollowItems(source: Source, room: nat, items: seq<Item>, s: State)
    returns (ds: seq<Derivation>)
    requires WellFormedItems(items) && RunItems(source, room, items, s).ok
    ensures ValidItems(items, ds)
    ensures Explains(source, room, s, RunItems(source, room, items, s).state,
                     DrawsItems(items, ds), YieldItems(items, ds), NestItems(items, ds))
    decreases items
  {
    if items == [] {
      ds := [];
      ExplainsNothing(source, room, s);
    } else {
      var t := RunItem(source, room, items[0], s).state;
      var u := RunItems(source, room, items[1..], t).state;
      var d := FollowItem(source, room, items[0], s);
      var rest := FollowItems(source, room, items[1..], t);
      ds := [d] + rest;
      assert ds[0] == d && ds[1..] == rest;
      ExplainsAppend(source, room, s, t, u, DrawsItem(items[0], d), YieldItem(items[0], d), NestItem(items[0], d),
                     DrawsItems(items[1..], rest), YieldItems(items[1..], rest), NestItems(items[1..], rest));
    }
  }

  lemma {:induction false} FollowItem(source: Source, room: nat, item: Item, s: State) returns (d: Derivation)
    requires WellFormedItem(item) && RunItem(source, room, item, s).ok
    ensures ValidItem(item, d)
    ensures Explains(source, room, s, RunItem(source, room, item, s).state,
                     DrawsItem(item, d), YieldItem(item, d), NestItem(item, d))
    decreases item, 1
  {
    if item.maybe {
      var skip := source(s.draws, 2) == 1;
      var draw := if skip then Draw(1, 1, 2, false) else Draw(0, 1, 2, false);
      FirstFits(source, s.draws, draw);
      AfterDraw(s, draw);
      if skip {
        d := Skipped;
        ExplainsNothing(source, room, Draws(s));
        ExplainsFirst(source, room, s, Draws(s), Draws(s), [draw], [], [], 0);
        assert [draw] + [] == [draw];
      } else {
        d := FollowOnward(source, room, item, s, [draw], Draws(s));
      }
    } else {
      AfterNothing(s);
      d := FollowOnward(source, room, item, s, [], s);
    }
  }

  /** The derivation of an item that is taken, from its parts. */
  lemma TakenItem(item: Item, extra: nat, parts: seq<Derivation>, maybe: seq<Draw>)
    requires item.min + extra <= item.max && ValidParts(item.kind, item.min + extra, parts)
    requires maybe == (if item.maybe then [Draw(0, 1, 2, false)] else [])
    ensures ValidItem(item, Taken(extra, parts))
    ensures DrawsItem(item, Taken(extra, parts))
         == maybe + (Repetition(item, extra) + DrawsParts(item.kind, item.min + extra, parts))
    ensures YieldItem(item, Taken(extra, parts)) == YieldParts(item.kind, item.min + extra, parts)
    ensures NestItem(item, Taken(extra, parts)) == NestParts(item.kind, item.min + extra, parts)
  {
  }

  lemma TakenExplained(source: Source, room: nat, item: Item, s: State, t: State, u: State, maybe: seq<Draw>,
                       extra: nat, n: nat, parts: seq<Derivation>)
    requires n == item.min + extra <= item.max && ValidParts(item.kind, n, parts)
    requires maybe == (if item.maybe then [Draw(0, 1, 2, false)] else [])
    requires Fits(source, s.draws, maybe) && t == After(s, maybe, [])
    requires Explains(source, room, t, u, Repetition(item, extra) + DrawsParts(item.kind, n, parts),
                      YieldParts(item.kind, n, parts), NestParts(item.kind, n, parts))
    ensures ValidItem(item, Taken(extra, parts))
    ensures Explains(source, room, s, u, DrawsItem(item, Taken(extra, parts)),
                     YieldItem(item, Taken(extra, parts)), NestItem(item, Taken(extra, parts)))
  {
    TakenItem(item, extra, parts, maybe);
    ExplainsFirst(source, room, s, t, u, maybe, Repetition(item, extra) + DrawsParts(item.kind, n, parts),
                  YieldParts(item.kind, n, parts), NestParts(item.kind, n, parts));
  }

  /** From t on, after the draw for the question mark. */
  lemma {:induction false} FollowOnward(source: Source, room: nat, item: Item, s: State, maybe: seq<Draw>, t: State)
    returns (d: Derivation)
    requires WellFormedItem(item) && RunTaken(source, room, item, t).ok
    requires maybe == (if item.maybe then [Draw(0, 1, 2, false)] else [])
    requires Fits(source, s.draws, maybe) && t == After(s, maybe, [])
    ensures ValidItem(item, d)
    ensures Explains(source, room, s, RunTaken(source, room, item, t).state,
                     DrawsItem(item, d), YieldItem(item, d), NestItem(item, d))
    decreases item, 0, 1
  {
    var extra, n, parts := FollowTaken(source, room, item, t);
    d := Taken(extra, parts);
    TakenExplained(source, room, item, s, t, RunTaken(source, room, item, t).state, maybe, extra, n, parts);
  }

  /** The draw for the number of repetitions, and the run after it. */
  lemma RepetitionDrawn(source: Source, room: nat, item: Item, s: State) returns (extra: nat, t: State)
    requires Drawable(item)
    ensures item.min + extra <= item.max
    ensures Fits(source, s.draws, Repetition(item, extra)) && t == After(s, Repetition(item, extra), [])
    ensures RunTaken(source, room, item, s) == RunParts(source, room, item.kind, item.min + extra, t)
  {
    RepeatsSmall(source, item, s);
    var n := Repeats(source, item, s).0;
    extra, t := n - item.min, Repeats(source, item, s).1;
    RepetitionRuns(source, item, s, extra);
  }

  lemma {:induction false} FollowTaken(source: Source, room: nat, item: Item, s: State)
    returns (extra: nat, n: nat, parts: seq<Derivation>)
    requires WellFormedItem(item) && RunTaken(source, room, item, s).ok
    ensures n == item.min + extra <= item.max && ValidParts(item.kind, n, parts)
    ensures Explains(source, room, s, RunTaken(source, room, item, s).state,
                     Repetition(item, extra) + DrawsParts(item.kind, n, parts),
                     YieldParts(item.kind, n, parts), NestParts(item.kind, n, parts))
    decreases item, 0, 0
  {
    var t;
    extra, t := RepetitionDrawn(source, room, item, s);
    n := item.min + extra;
    parts := FollowParts(source, room, item.kind, n, t);
    ExplainsFirst(source, room, s, t, RunTaken(source, room, item, s).state,
                  Repetition(item, extra), DrawsParts(item.kind, n, parts),
                  YieldParts(item.kind, n, parts), NestParts(item.kind, n, parts));
  }

  lemma {:induction false} FollowParts(source: Source, room: nat, kind: Kind, n: nat, s: State)
    returns (ds: seq<Derivation>)
    requires WellFormedKind(kind) && RunParts(source, room, kind, n, s).ok
    ensures ValidParts(kind, n, ds)
    ensures Explains(source, room, s, RunParts(source, room, kind, n, s).state,
                     DrawsParts(kind, n, ds), YieldParts(kind, n, ds), NestParts(kind, n, ds))
    decreases kind, n
  {
    if n == 0 {
      ds := [];
      ExplainsNothing(source, room, s);
    } else {
      var t := RunKind(source, room, kind, s).state;
      var u := RunParts(source, room, kind, n - 1, t).state;
      var d := FollowKind(source, room, kind, s);
      var rest := FollowParts(source, room, kind, n - 1, t);
      ds := [d] + rest;
      assert ds[0] == d && ds[1..] == rest;
      ExplainsAppend(source, room, s, t, u, DrawsKind(kind, d), YieldKind(kind, d), NestKind(kind, d),
                     DrawsParts(kind, n - 1, rest), YieldParts(kind, n - 1, rest), NestParts(kind, n - 1, rest));
    }
  }

  lemma {:induction false} FollowKind(source: Source, room: nat, kind: Kind, s: State) returns (d: Derivation)
    requires WellFormedKind(kind) && RunKind(source, room, kind, s).ok
    ensures ValidKind(kind, d)
    ensures Explains(source, room, s, RunKind(source, room, kind, s).state,
                     DrawsKind(kind, d), YieldKind(kind, d), NestKind(kind, d))
    decreases kind, 0
  {
    match kind
    case Set(ranges, choices) =>
      if ranges == [] {
        d := Fixed;
        ExplainsNothing(source, room, s);
      } else {
        assert choices[|ranges| - 1] as int == Codepoints(ranges, |ranges|);
        d := FollowSet(source, room, ranges, s);
      }
    case Literal(codepoints, _) =>
      d := Fixed;
      EmitAll(room, codepoints, s);
      AfterWord(s, [], codepoints);
    case Nested(group) => d := FollowGroup(source, room, group, s);
  }

  lemma FollowSet(source: Source, room: nat, ranges: seq<Range>, s: State) returns (d: Derivation)
    requires ranges != [] && Ascending(ranges) && Codepoints(ranges, |ranges|) < W64
    requires RunKind(source, room, Set(ranges, []), s).ok
    ensures d.Chosen? && d.choice < Codepoints(ranges, |ranges|)
    ensures Explains(source, room, s, RunKind(source, room, Set(ranges, []), s).state,
                     [Draw(d.choice, 1, Codepoints(ranges, |ranges|), true)], [Pick(ranges, d.choice)], 0)
  {
    CodepointsNonNegative(ranges, |ranges|);
    var possible := Codepoints(ranges, |ranges|);
    d := Chosen(source(s.draws, possible));
    var draw := Draw(d.choice, 1, possible, true);
    FirstFits(source, s.draws, draw);
    AfterDraw(s, draw);
    AfterWord(s, [draw], [Pick(ranges, d.choice)]);
    EmitAll(room, [Pick(ranges, d.choice)], Counted(Draws(s), possible, 1));
  }

  // ---------------------------------------------------------------------
  // Generation
  // ---------------------------------------------------------------------

  function Start(limit: nat): State {
    State(limit, 1.0, [], 0)
  }

  /** d is the derivation that a run from the start takes. */
  ghost predicate Takes(source: Source, room: nat, limit: nat, g: Group, d: Derivation) {
    && ValidGroup(g, d) && Fits(source, 0, DrawsGroup(g, d))
    && NestGroup(g, d) <= limit && (YieldGroup(g, d) == [] || |YieldGroup(g, d)| <= room)
  }

  /** The outcome of taking it. */
  ghost function Taking(limit: nat, g: Group, d: Derivation): Outcome
    requires ValidGroup(g, d)
  {
    Outcome(true, State(limit, Entropy(DrawsGroup(g, d)), YieldGroup(g, d), |DrawsGroup(g, d)|))
  }

  /**
    Generation succeeds exactly if the draws are those of a derivation that has the depth and the room it needs. It
    writes the word of that derivation, restores the depth, and reports the entropy of the derivation's draws.
   */
  lemma GenerationRuns(source: Source, room: nat, limit: nat, g: Group)
    requires WellFormed(g)
    ensures RunGroup(source, room, g, Start(limit)).ok <==> exists d :: Takes(source, room, limit, g, d)
    ensures forall d :: Takes(source, room, limit, g, d) ==>
              RunGroup(source, room, g, Start(limit)) == Taking(limit, g, d)
  {
    forall d | Takes(source, room, limit, g, d)
      ensures RunGroup(source, room, g, Start(limit)) == Taking(limit, g, d)
    {
      ReachGroup(source, room, g, Start(limit), d);
      assert [] + YieldGroup(g, d) == YieldGroup(g, d);
    }
    if RunGroup(source, room, g, Start(limit)).ok {
      var d := FollowGroup(source, room, g, Start(limit));
      assert Takes(source, room, limit, g, d);
    }
  }

  /** What is generated is a word of the pattern's language. */
  lemma GeneratedWord(source: Source, room: nat, limit: nat, g: Group) returns (d: Derivation, s: State)
    requires WellFormed(g) && RunGroup(source, room, g, Start(limit)).ok
    ensures ValidGroup(g, d) && NestGroup(g, d) <= limit
    ensures s == RunGroup(source, room, g, Start(limit)).state
    ensures s.out == YieldGroup(g, d) && InGroup(g, s.out) && s.depth == limit
    ensures IsProduct(s.entropy, Chance(DrawsGroup(g, d)), Chance(Uncounted(DrawsGroup(g, d))))
  {
    GenerationRuns(source, room, limit, g);
    d :| Takes(source, room, limit, g, d);
    s := RunGroup(source, room, g, Start(limit)).state;
    YieldInGroup(g, d);
    DerivationEntropy(g, d);
  }

  lemma DerivationEntropy(g: Group, d: Derivation)
    requires WellFormed(g) && ValidGroup(g, d)
    ensures IsProduct(Entropy(DrawsGroup(g, d)), Chance(DrawsGroup(g, d)), Chance(Uncounted(DrawsGroup(g, d))))
  {
    PossibleGroup(g, d);
    EntropyExact(DrawsGroup(g, d));
  }

  /** Some draws make a run take any given derivation, whatever the depth and the room beyond what it needs. */
  lemma EveryDerivation(g: Group, d: Derivation) returns (source: Source)
    requires WellFormed(g) && ValidGroup(g, d)
    ensures forall room: nat, limit: nat :: |YieldGroup(g, d)| <= room && NestGroup(g, d) <= limit ==>
              RunGroup(source, room, g, Start(limit)) == Taking(limit, g, d)
  {
    var draws := DrawsGroup(g, d);
    PossibleGroup(g, d);
    source := (p: nat, m: nat) => if p < |draws| && draws[p].first < m then draws[p].first else 0;
    assert Fits(source, 0, draws) by {
      forall i | 0 <= i < |draws|
        ensures draws[i].first <= source(0 + i, draws[i].outOf) < draws[i].first + draws[i].ways
      {
        assert Possible(draws[i]);
      }
    }
    forall room: nat, limit: nat | |YieldGroup(g, d)| <= room && NestGroup(g, d) <= limit
      ensures RunGroup(source, room, g, Start(limit)) == Taking(limit, g, d)
    {
      assert Takes(source, room, limit, g, d);
      GenerationRuns(source, room, limit, g);
    }
  }

  /** Every word of the language is generated by some draws, given the depth and the room. */
  lemma EveryWord(g: Group, w: Word) returns (source: Source, nest: nat)
    requires WellFormed(g) && InGroup(g, w)
    ensures forall room: nat, limit: nat :: |w| <= room && nest <= limit ==>
              RunGroup(source, room, g, Start(limit)).ok && RunGroup(source, room, g, Start(limit)).state.out == w
  {
    var d := GroupYields(g, w);
    source := EveryDerivation(g, d);
    nest := NestGroup(g, d);
  }

  // Question marks.

  lemma {:induction false} FlipsGroup(g: Group, d: Derivation)
    requires ValidGroup(g, d)
    ensures CoinFlips(DrawsGroup(g, d))
    decreases g
  {
    FlipsItems(g.segments[d.segment].items, d.items);
  }

  lemma {:induction false} FlipsItems(items: seq<Item>, ds: seq<Derivation>)
    requires ValidItems(items, ds)
    ensures CoinFlips(DrawsItems(items, ds))
    decreases items
  {
    if items != [] {
      FlipsItem(items[0], ds[0]);
      FlipsItems(items[1..], ds[1..]);
    }
  }

  lemma {:induction false} FlipsItem(item: Item, d: Derivation)
    requires ValidItem(item, d)
    ensures CoinFlips(DrawsItem(item, d))
    decreases item
  {
    if d.Taken? {
      FlipsParts(item.kind, item.min + d.extra, d.parts);
    }
  }

  lemma {:induction false} FlipsParts(kind: Kind, n: nat, ds: seq<Derivation>)
    requires ValidParts(kind, n, ds)
    ensures CoinFlips(DrawsParts(kind, n, ds))
    decreases kind, n
  {
    if n > 0 {
      FlipsParts(kind, n - 1, ds[1..]);
      if kind.Nested? {
        FlipsGroup(kind.group, ds[0]);
      }
    }
  }

  /**
    The reported entropy is the reciprocal of the probability exactly if no question mark was decided; every one that
    was leaves a factor of two out.
   */
  lemma EntropyReciprocal(g: Group, d: Derivation)
    requires WellFormed(g) && ValidGroup(g, d)
    ensures IsProduct(Entropy(DrawsGroup(g, d)), Chance(DrawsGroup(g, d)), Halved(Flips(DrawsGroup(g, d))))
    ensures IsProduct(Entropy(DrawsGroup(g, d)), Chance(DrawsGroup(g, d)), 1.0) <==> AllCounted(DrawsGroup(g, d))
  {
    var draws := DrawsGroup(g, d);
    FlipsGroup(g, d);
    DerivationEntropy(g, d);
    FlipsHalve(draws);
    HalvedOne(Flips(draws));
  }

  /** A question mark halves the probability without a trace in the reported entropy. */
  lemma MaybeUncounted()
    ensures
      var item := Item(Literal([65], false), 1, 1, true);
      var g := Group([Segment([item], 1)], 1);
      var d := Segmented(0, [Taken(0, [Fixed])]);
      && WellFormed(g) && ValidGroup(g, d)
      && Entropy(DrawsGroup(g, d)) == 1.0 && Chance(DrawsGroup(g, d)) == 0.5
  {
    var item := Item(Literal([65], false), 1, 1, true);
    var g := Group([Segment([item], 1)], 1);
    var d := Segmented(0, [Taken(0, [Fixed])]);
    assert Multipliers(g.segments, 1) == 1;
    MaybeDraws(item);
    var draws := [Draw(0, 1, 1, true), Draw(0, 1, 2, false)];
    assert DrawsGroup(g, d) == draws;
    assert FactorsOf(draws) == [1.0, 1.0] && OddsOf(draws) == [1.0, 0.5];
    assert Product([1.0]) == 1.0 && Product([0.5]) == 0.5;
    assert [1.0, 1.0][1..] == [1.0] && [1.0, 0.5][1..] == [0.5];
  }

  lemma MaybeDraws(item: Item)
    requires item == Item(Literal([65], false), 1, 1, true)
    ensures WellFormedItems([item]) && ValidItems([item], [Taken(0, [Fixed])])
    ensures DrawsItems([item], [Taken(0, [Fixed])]) == [Draw(0, 1, 2, false)]
  {
    var ds := [Taken(0, [Fixed])];
    assert [Fixed][1..] == [] && ds[1..] == [] && [item][1..] == [];
    assert ValidParts(item.kind, 0, []) && ValidParts(item.kind, 1, [Fixed]);
    assert DrawsParts(item.kind, 1, [Fixed]) == [];
    assert ValidItem(item, ds[0]) && DrawsItem(item, ds[0]) == [Draw(0, 1, 2, false)];
    assert ValidItems([], []);
  }
}
