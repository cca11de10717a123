// Patterns as the parser leaves them (include/passgen/pattern/*.h).

module Pattern {
  import opened Words

  datatype Range = Range(start: u32, end: u32)

  datatype SpecialKind = Markov | Wordlist | Preset

  datatype Kind =
    | Set(ranges: seq<Range>, choices: seq<u64>)
    | Literal(codepoints: seq<u32>, tainted: bool)
    | Special(special: SpecialKind, name: seq<u32>)
    | Nested(group: Group)

  datatype Item = Item(kind: Kind, min: u64, max: u64, maybe: bool)

  datatype Segment = Segment(items: seq<Item>, multiplier: u64)

  datatype Group = Group(segments: seq<Segment>, sum: u64)

  /** Sum of the multipliers of the first n segments. */
  function Multipliers(segments: seq<Segment>, n: nat): nat
    requires n <= |segments|
  {
    if n == 0 then 0 else Multipliers(segments, n - 1) + segments[n - 1].multiplier
  }

  /** How many codepoints the first n ranges hold, overlaps counted again. */
  function Codepoints(ranges: seq<Range>, n: nat): int
    requires n <= |ranges|
  {
    if n == 0 then 0 else Codepoints(ranges, n - 1) + (1 + ranges[n - 1].end as int - ranges[n - 1].start as int)
  }

  /** No range runs backwards. */
  predicate Ascending(ranges: seq<Range>) {
    forall i :: 0 <= i < |ranges| ==> ranges[i].start <= ranges[i].end
  }

  // A pattern that generation is meant for: the counts that the parser keeps are right, no range or repetition runs
  // backwards, and no special is in it.

  ghost predicate WellFormed(g: Group)
    decreases g
  {
    && 0 < g.sum == Multipliers(g.segments, |g.segments|)
    && forall k :: 0 <= k < |g.segments| ==> WellFormedItems(g.segments[k].items)
  }

  ghost predicate WellFormedItems(items: seq<Item>)
    decreases items
  {
    forall i :: 0 <= i < |items| ==> WellFormedItem(items[i])
  }

  /** The repetition does not run backwards, and the number of its choices fits in a size_t. */
  predicate Drawable(item: Item) {
    item.min <= item.max && item.max - item.min < W64 - 1
  }

  ghost predicate WellFormedItem(item: Item)
    decreases item
  {
    Drawable(item) && WellFormedKind(item.kind)
  }

  ghost predicate WellFormedKind(kind: Kind)
    decreases kind
  {
    match kind
    case Set(ranges, choices) =>
      && |choices| == |ranges| && Ascending(ranges)
      && (forall i :: 0 <= i < |ranges| ==> choices[i] == Codepoints(ranges, i + 1))
    case Literal(codepoints, _) => 0 < |codepoints| < 8
    case Special(_, _) => false
    case Nested(group) => WellFormed(group)
  }
}
