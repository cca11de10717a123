// The generator (src/generate.c), writing codepoints to a buffer.

module Generate {
  import opened Words
  import opened Pattern
  import opened Derivation
  import opened Generation

  /** The choice with index num of the ranges' codepoints, found by a linear search. */
  lemma {:induction false} PickAt(ranges: seq<Range>, choice: nat, num: nat)
    requires num < |ranges| && Ascending(ranges)
    requires Codepoints(ranges, num) <= choice < Codepoints(ranges, num + 1)
    ensures Pick(ranges, choice) == ranges[num].start + (choice - Codepoints(ranges, num))
    ensures ranges[num].start <= Pick(ranges, choice) <= ranges[num].end
  {
    CodepointsFront(ranges, num + 1);
    if num == 0 {
      assert Codepoints(ranges, 0) == 0 && Codepoints(ranges[1..], 0) == 0;
    } else {
      CodepointsFront(ranges, num);
      CodepointsNonNegative(ranges[1..], num - 1);
      var size := 1 + ranges[0].end as int - ranges[0].start as int;
      PickAt(ranges[1..], choice - size, num - 1);
    }
  }

  class Context {
    const source: Source
    const buffer: array<u32>
    var depth: nat
    var entropy: real
    var cur: nat
    var draws: nat

    ghost predicate Valid()
      reads this
    {
      cur <= buffer.Length
    }

    ghost function Now(): State
      requires Valid()
      reads this, buffer
    {
      State(depth, entropy, buffer[..cur], draws)
    }

    constructor (source: Source, limit: nat, buffer: array<u32>)
      ensures Valid() && this.source == source && this.buffer == buffer
      ensures Now() == Start(limit)
    {
      this.source, this.buffer := source, buffer;
      depth, entropy, cur, draws := limit, 1.0, 0, 0;
    }

    /** A random number below max. */
    method Random(max: nat) returns (choice: nat)
      requires Valid() && 0 < max < W64
      modifies this`draws
      ensures Valid() && choice == source(old(draws), max) < max && Now() == Draws(old(Now()))
    {
      choice := source(draws, max);
      draws := draws + 1;
    }

    method Emit(codepoint: u32) returns (ok: bool)
      requires Valid()
      modifies this`cur, buffer
      ensures Valid() && Outcome(ok, Now()) == Generation.Emit(buffer.Length, [codepoint], old(Now()))
    {
      if cur == buffer.Length {
        return false;
      }
      buffer[cur] := codepoint;
      cur := cur + 1;
      assert buffer[..cur] == old(buffer[..cur]) + [codepoint];
      return true;
    }

    method Descend() returns (ok: bool)
      requires Valid()
      modifies this`depth
      ensures Valid() && ok == (old(depth) > 0)
      ensures Now() == if ok then old(Now()).(depth := old(depth) - 1) else old(Now())
    {
      if depth == 0 {
        return false;
      }
      depth := depth - 1;
      return true;
    }

    method Ascend()
      requires Valid()
      modifies this`depth
      ensures Valid() && Now() == old(Now()).(depth := old(depth) + 1)
    {
      depth := depth + 1;
    }

    /** Keeps track of entropy: one of outOf choices was made, and ways of them are the same. */
    method Weigh(outOf: nat, ways: nat)
      requires Valid() && ways > 0
      modifies this`entropy
      ensures Valid() && Now() == Counted(old(Now()), outOf, ways)
    {
      entropy := entropy * outOf as real;
      entropy := entropy / ways as real;
    }

    method Repeat(item: Item) returns (reps: nat)
      requires Valid() && Drawable(item)
      modifies this`draws, this`entropy
      ensures Valid() && (reps, Now()) == Repeats(source, item, old(Now()))
    {
      RepetitionWays(item);
      var difference := Wrap(item.max - item.min);
      if difference == 0 {
        return item.min;
      }
      var choice := Random(Wrap(difference + 1));
      Weigh(Wrap(difference + 1), 1);
      return Wrap(item.min + choice);
    }

    method Set(kind: Kind) returns (ok: bool)
      requires Valid() && kind.Set? && WellFormedKind(kind)
      modifies this`draws, this`entropy, this`cur, buffer
      ensures Valid() && Outcome(ok, Now()) == RunKind(source, buffer.Length, kind, old(Now()))
    {
      var ranges, choices := kind.ranges, kind.choices;
      if |ranges| == 0 {
        return true;
      }
      CodepointsNonNegative(ranges, |ranges|);
      var possible := choices[|ranges| - 1];
      var choice := Random(possible);
      Weigh(possible, 1);
      var num := 0;
      while num < |ranges|
        invariant 0 <= num <= |ranges| && Codepoints(ranges, num) <= choice
      {
        if choice < choices[num] {
          break;
        }
        num := num + 1;
      }
      PickAt(ranges, choice, num);
      var offset := choice;
      if num > 0 {
        offset := offset - choices[num - 1];
      }
      ok := Emit(ranges[num].start + offset);
    }

    method Literal(codepoints: seq<u32>) returns (ok: bool)
      requires Valid()
      modifies this`cur, buffer
      ensures Valid() && Outcome(ok, Now()) == Generation.Emit(buffer.Length, codepoints, old(Now()))
    {
      for i := 0 to |codepoints|
        invariant Valid()
        invariant Generation.Emit(buffer.Length, codepoints[i..], Now())
               == Generation.Emit(buffer.Length, codepoints, old(Now()))
      {
        ghost var now := Now();
        ok := Emit(codepoints[i]);
        EmitFirst(buffer.Length, codepoints[i..], now, Outcome(ok, Now()));
        assert codepoints[i..][1..] == codepoints[i + 1..];
        if !ok {
          return false;
        }
      }
      return true;
    }

    method Item(item: Item) returns (ok: bool)
      requires Valid() && WellFormedItem(item)
      modifies this, buffer
      ensures Valid() && Outcome(ok, Now()) == RunItem(source, buffer.Length, item, old(Now()))
      decreases item
    {
      if item.maybe {
        var skip := Random(2);
        if skip == 1 {
          return true;
        }
      }
      var reps := Repeat(item);
      ghost var start := Now();
      for i := 0 to reps
        invariant Valid()
        invariant RunParts(source, buffer.Length, item.kind, reps - i, Now())
               == RunParts(source, buffer.Length, item.kind, reps, start)
      {
        ok := OfKind(item.kind);
        if !ok {
          return false;
        }
      }
      return true;
    }

    method OfKind(kind: Kind) returns (ok: bool)
      requires Valid() && WellFormedKind(kind)
      modifies this, buffer
      ensures Valid() && Outcome(ok, Now()) == RunKind(source, buffer.Length, kind, old(Now()))
      decreases kind
    {
      match kind
      case Set(_, _) => ok := Set(kind);
      case Literal(codepoints, _) => ok := Literal(codepoints);
      case Special(_, _) => assert false;
      case Nested(group) => ok := Group(group);
    }

    method Segment(segment: Segment) returns (ok: bool)
      requires Valid() && WellFormedItems(segment.items)
      modifies this, buffer
      ensures Valid() && Outcome(ok, Now()) == RunItems(source, buffer.Length, segment.items, old(Now()))
      decreases segment
    {
      var items := segment.items;
      for i := 0 to |items|
        invariant Valid()
        invariant RunItems(source, buffer.Length, items[i..], Now())
               == RunItems(source, buffer.Length, items, old(Now()))
      {
        ok := Item(items[i]);
        assert items[i..][1..] == items[i + 1..];
        if !ok {
          return false;
        }
      }
      return true;
    }

    method Group(group: Group) returns (ok: bool)
      requires Valid() && WellFormed(group)
      modifies this, buffer
      ensures Valid() && Outcome(ok, Now()) == RunGroup(source, buffer.Length, group, old(Now()))
      decreases group
    {
      ok := Descend();
      if !ok {
        return false;
      }
      if group.sum == 0 {
        return false;
      }
      var choice := Random(group.sum);
      var index := Choose(group.segments, choice);
      var segment := group.segments[index];
      Weigh(group.sum, segment.multiplier);
      ok := Segment(segment);
      if !ok {
        return false;
      }
      Ascend();
      return true;
    }
  }

  /** The search for the segment that a choice lands on. */
  method Choose(segments: seq<Segment>, number: nat) returns (index: nat)
    requires number < Multipliers(segments, |segments|)
    ensures index < |segments| && Multipliers(segments, index) <= number < Multipliers(segments, index + 1)
    ensures index == Select(segments, number) && segments[index].multiplier > 0
  {
    var choice := number;
    index := 0;
    SelectInRange(segments, number);
    while choice >= segments[index].multiplier
      invariant index < |segments| && choice >= 0
      invariant Select(segments, number) == index + Select(segments[index..], choice)
      decreases |segments| - index
    {
      assert segments[index..][1..] == segments[index + 1..];
      choice := choice - segments[index].multiplier;
      index := index + 1;
    }
    SelectWindow(segments, number, index);
  }

  /** Fills the buffer and returns how many codepoints were written, none on failure (passgen_generate_fill_unicode). */
  method FillUnicode(g: Group, source: Source, limit: nat, buffer: array<u32>) returns (len: nat, entropy: real)
    requires WellFormed(g)
    modifies buffer
    ensures len <= buffer.Length
    ensures len > 0 ==> InGroup(g, buffer[..len])
    ensures Filled(RunGroup(source, buffer.Length, g, Start(limit)), buffer[..len], entropy)
  {
    var context := new Context(source, limit, buffer);
    var ok := context.Group(g);
    entropy := context.entropy;
    if !ok {
      return 0, entropy;
    }
    ghost var d, s := GeneratedWord(source, buffer.Length, limit, g);
    return context.cur, entropy;
  }

  ghost predicate Filled(r: Outcome, out: Word, entropy: real) {
    entropy == r.state.entropy && out == if r.ok then r.state.out else []
  }

  lemma EmitFirst(room: nat, codepoints: seq<int>, s: State, first: Outcome)
    requires codepoints != [] && first == Generation.Emit(room, [codepoints[0]], s)
    ensures Generation.Emit(room, codepoints, s)
         == if first.ok then Generation.Emit(room, codepoints[1..], first.state) else first
  {
    assert [codepoints[0]][1..] == [];
  }
}
