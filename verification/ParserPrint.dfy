// Writing patterns down: what is written is parsed to the pattern again.

module ParserPrint {
  import opened Words
  import opened Pattern
  import opened Parsing
  import opened ParserSpine
  import opened ParserSums
  import opened ParserContent
  import opened ParserSimple

  // ---------------------------------------------------------------------
  // Printing
  // ---------------------------------------------------------------------

  /** The decimal digits of a number. */
  function Decimal(n: nat): (digits: seq<u32>)
    ensures forall i :: 0 <= i < |digits| ==> IsDigit(digits[i])
  {
    (if n < 10 then [] else Decimal(n / 10)) + ['0' as int + n % 10]
  }

  function Mark(c: u32): u32 {
    if IsEscaped(c) then c else ESCAPED + c
  }

  predicate Syntax(c: int) {
    c in [0x7c, 0x28, 0x29, 0x7b, 0x7d, 0x5b, 0x5d]
  }

  function Char(c: u32): u32 {
    if Syntax(Low(c)) then Mark(c) else c
  }

  function Chars(cs: seq<u32>): seq<u32> {
    if cs == [] then [] else Chars(cs[..|cs| - 1]) + [Char(cs[|cs| - 1])]
  }

  function PrintRange(range: Range): seq<u32> {
    [if range.start as int == '-' as int then Mark(range.start) else range.start]
    + (if range.end == range.start then [] else ['-' as int, range.end])
  }

  function PrintRanges(ranges: seq<Range>): seq<u32> {
    if ranges == [] then [] else PrintRanges(ranges[..|ranges| - 1]) + PrintRange(ranges[|ranges| - 1])
  }

  function PrintName(name: seq<u32>): seq<u32> {
    if name == [] then []
    else
      var c := name[|name| - 1];
      PrintName(name[..|name| - 1]) + [if c as int == '}' as int then Mark(c) else c]
  }

  function SpecialLetter(special: SpecialKind): int {
    match special
    case Markov => 'm' as int
    case Wordlist => 'w' as int
    case Preset => 'p' as int
  }

  function PrintKind(kind: Kind): seq<u32>
    decreases kind
  {
    match kind
    case Literal(cs, _) => Chars(cs)
    case Set(ranges, _) => ['[' as int] + PrintRanges(ranges) + [']' as int]
    case Special(special, name) => [ESCAPED + SpecialLetter(special), '{' as int] + PrintName(name) + ['}' as int]
    case Nested(group) => ['(' as int] + PrintSegments(group.segments, |group.segments|) + [')' as int]
  }

  /** The bounds of an item whose repetition is being read. */
  function PrintBounds(item: Item): seq<u32> {
    Decimal(item.min) + [',' as int] + Decimal(item.max) + ['}' as int]
  }

  function PrintMaybe(item: Item): seq<u32> {
    if item.maybe then ['?' as int] else []
  }

  /** A literal that can be read as it is. */
  predicate IsText(item: Item) {
    item.kind.Literal? && !item.kind.tainted
  }

  function PrintItem(item: Item): seq<u32>
    decreases item
  {
    if IsText(item) then PrintKind(item.kind)
    else PrintKind(item.kind) + ['{' as int] + PrintBounds(item) + PrintMaybe(item)
  }

  function PrintItems(items: seq<Item>, n: nat): seq<u32>
    requires n <= |items|
    decreases items, n
  {
    if n == 0 then [] else PrintItems(items, n - 1) + PrintItem(items[n - 1])
  }

  function PrintPrefix(multiplier: nat): seq<u32> {
    if multiplier == 1 then [] else ['{' as int] + Decimal(multiplier) + ['}' as int]
  }

  function PrintSegments(segments: seq<Segment>, n: nat): seq<u32>
    requires n <= |segments|
    decreases segments, n
  {
    if n == 0 then []
    else
      var segment := segments[n - 1];
      (if n == 1 then [] else PrintSegments(segments, n - 1) + ['|' as int])
      + PrintPrefix(segment.multiplier) + PrintItems(segment.items, |segment.items|)
  }

  function Print(g: Group): seq<u32> {
    PrintSegments(g.segments, |g.segments|)
  }

  // ---------------------------------------------------------------------
  // Patterns that can be written down
  // ---------------------------------------------------------------------

  /** A codepoint that can stand for itself: there is no way to write a question mark. */
  predicate Readable(c: u32) {
    !IsEscaped(c) && Low(c) != '?' as int
  }

  /** The range can be written in a set. */
  predicate PrintableRange(range: Range) {
    && range.start <= range.end && !IsEscaped(range.start) && range.start as int != ']' as int
    && (range.end != range.start ==> range.end as int != ']' as int)
  }

  /** A literal as the parser leaves it: of at most seven codepoints, and only of one if it is repeated. */
  predicate PrintableLiteral(item: Item)
    requires item.kind.Literal?
  {
    && 0 < |item.kind.codepoints| < 8
    && (forall i :: 0 <= i < |item.kind.codepoints| ==> Readable(item.kind.codepoints[i]))
    && if item.kind.tainted then |item.kind.codepoints| == 1 else item.min == 1 && item.max == 1 && !item.maybe
  }

  ghost predicate PrintableItem(item: Item)
    decreases item
  {
    match item.kind
    case Literal(_, _) => PrintableLiteral(item)
    case Set(ranges, choices) =>
      choices == ChoicesList(ranges) && forall i :: 0 <= i < |ranges| ==> PrintableRange(ranges[i])
    case Special(_, name) => forall i :: 0 <= i < |name| ==> !IsEscaped(name[i])
    case Nested(group) => Printable(group) && Closable(group)
  }

  /** A group that neither loses its last segment nor is removed when it is closed. */
  predicate Closable(g: Group) {
    g.sum != 0 && HasItems(g) && g.segments != [] && g.segments[|g.segments| - 1].multiplier > 0
  }

  predicate HasItems(g: Group) {
    exists k :: 0 <= k < |g.segments| && g.segments[k].items != []
  }

  /** Text joins the text before it, up to seven codepoints. */
  predicate Chunked(items: seq<Item>) {
    forall i :: 0 < i < |items| && IsText(items[i]) && IsText(items[i - 1]) ==> |items[i - 1].kind.codepoints| == 7
  }

  ghost predicate PrintableItems(items: seq<Item>)
    decreases items
  {
    Chunked(items) && forall i :: 0 <= i < |items| ==> PrintableItem(items[i])
  }

  /** A pattern that can be written down. */
  ghost predicate Printable(g: Group)
    decreases g
  {
    && g.segments != [] && g.sum == Wrap(Multipliers(g.segments, |g.segments|))
    && (forall k :: 0 <= k < |g.segments| - 1 ==> g.segments[k].multiplier > 0)
    && (forall k :: 0 <= k < |g.segments| ==> PrintableItems(g.segments[k].items))
  }

  function Max(a: nat, b: nat): nat {
    if a < b then b else a
  }

  /** How many frames the parser needs at most: one for every group around, and another for what is more than text. */
  function Frames(segments: seq<Segment>, n: nat): nat
    requires n <= |segments|
    decreases segments, n
  {
    if n == 0 then 1
    else
      var segment := segments[n - 1];
      Max(Frames(segments, n - 1),
          1 + Max(if segment.multiplier == 1 then 0 else 1, ItemsFrames(segment.items, |segment.items|)))
  }

  function ItemsFrames(items: seq<Item>, n: nat): nat
    requires n <= |items|
    decreases items, n
  {
    if n == 0 then 0 else Max(ItemsFrames(items, n - 1), ItemFrames(items[n - 1]))
  }

  function ItemFrames(item: Item): (frames: nat)
    ensures !IsText(item) ==> frames >= 1
    decreases item
  {
    match item.kind
    case Nested(group) => Max(1, Frames(group.segments, |group.segments|))
    case _ => if IsText(item) then 0 else 1
  }

  /** The parser's stack has room for the frames. */
  predicate Room(limit: nat, frames: nat) {
    limit == 0 || frames < limit
  }

  // ---------------------------------------------------------------------
  // Reading one token after the other
  // ---------------------------------------------------------------------

  /** A token that makes no sum drift. */
  function Even(v: View, token: u32): Option<View> {
    if Strays(v, token) then None else Next(v, token)
  }

  function EvenReads(v: View, tokens: seq<u32>): Option<View>
    decreases |tokens|
  {
    if tokens == [] then Some(v)
    else
      var next := Even(v, tokens[0]);
      if next.None? then None else EvenReads(next.value, tokens[1..])
  }

  lemma {:induction false} One(v: View, token: u32)
    ensures EvenReads(v, [token]) == Even(v, token)
  {
    assert [token][1..] == [];
    assert Even(v, token).Some? ==> EvenReads(Even(v, token).value, []) == Even(v, token);
  }

  lemma {:induction false} Both(v: View, a: seq<u32>, b: seq<u32>)
    requires EvenReads(v, a).Some?
    ensures EvenReads(v, a + b) == EvenReads(EvenReads(v, a).value, b)
    decreases |a|
  {
    if a == [] {
      assert a + b == b;
    } else {
      assert (a + b)[1..] == a[1..] + b;
      Both(Even(v, a[0]).value, a[1..], b);
    }
  }

  lemma {:induction false} Then(v: View, a: seq<u32>, v': View, token: u32, v'': View)
    requires EvenReads(v, a) == Some(v') && Even(v', token) == Some(v'')
    ensures EvenReads(v, a + [token]) == Some(v'')
  {
    Both(v, a, [token]);
    One(v', token);
  }

  lemma {:induction false} Compose(v: View, a: seq<u32>, v': View, b: seq<u32>, v'': View)
    requires EvenReads(v, a) == Some(v') && EvenReads(v', b) == Some(v'')
    ensures EvenReads(v, a + b) == Some(v'')
  {
    Both(v, a, b);
  }

  /** What stands between two brackets. */
  lemma {:induction false} Around(v: View, open: u32, v1: View, inside: seq<u32>, v2: View, close: u32, v3: View)
    requires Even(v, open) == Some(v1) && EvenReads(v1, inside) == Some(v2) && Even(v2, close) == Some(v3)
    ensures EvenReads(v, [open] + inside + [close]) == Some(v3)
  {
    One(v, open);
    Compose(v, [open], v1, inside, v2);
    Then(v, [open] + inside, v2, close, v3);
  }

  /** Between the items of a group, of which the last is as the parser leaves it. */
  predicate Ready(v: View) {
    && v.mode.InGroup? && !EndsEmpty(v.top)
    && (v.top.items != [] && Last(v.top).kind.Literal? ==> Last(v.top).kind.codepoints != [])
  }

  /** The view with one more item, while that is read or behind it. */
  function With(v: View, item: Item, mode: Mode): View {
    v.(top := v.top.(items := v.top.items + [item]), mode := mode)
  }

  // ---------------------------------------------------------------------
  // Numbers
  // ---------------------------------------------------------------------

  predicate ReadsNumber(v: View) {
    v.mode.InMultiplier? || ((v.mode.InRepeat? || v.mode.InRepeatRange?) && v.top.items != [])
  }

  /** The view with another number in the place of the one that is being read. */
  function WithNumber(v: View, n: u64): View
    requires ReadsNumber(v)
  {
    match v.mode
    case InMultiplier => v.(top := v.top.(multiplier := n))
    case InRepeat => v.(top := WithLast(v.top, Last(v.top).(min := n)))
    case InRepeatRange => v.(top := WithLast(v.top, Last(v.top).(max := n)))
  }

  lemma {:induction false} DigitNext(v: View, n: u64, token: u32)
    requires ReadsNumber(v) && Room(v.limit, |v.outer| + 2) && IsDigit(token)
    ensures ReadsNumber(WithNumber(v, n))
    ensures Even(WithNumber(v, n), token) == Some(WithNumber(v, Digit(n, token)))
  {
  }

  /** The number in a bound after more of its digits. */
  lemma {:induction false} DigitValue(n: nat)
    requires n < W64
    ensures Digit(if n < 10 then 0 else n / 10, '0' as int + n % 10) == n
  {
  }

  lemma {:induction false} NumberRead(v: View, n: u64)
    requires ReadsNumber(v) && Room(v.limit, |v.outer| + 2)
    ensures EvenReads(WithNumber(v, 0), Decimal(n)) == Some(WithNumber(v, n))
    decreases n
  {
    var front := if n < 10 then [] else Decimal(n / 10);
    var m := if n < 10 then 0 else n / 10;
    if n >= 10 {
      NumberRead(v, m);
    }
    DigitValue(n);
    DigitNext(v, m, '0' as int + n % 10);
    Then(WithNumber(v, 0), front, WithNumber(v, m), '0' as int + n % 10, WithNumber(v, n));
  }

  // ---------------------------------------------------------------------
  // Literals
  // ---------------------------------------------------------------------

  lemma {:induction false} Marked(c: u32)
    requires !IsEscaped(c)
    ensures Mark(c) == ESCAPED + c && IsEscaped(Mark(c)) && Unescaped(Mark(c)) == c
  {
  }

  lemma {:induction false} CharNext(v: View, c: u32)
    requires Ready(v) && Room(v.limit, |v.outer| + 1) && Readable(c)
    ensures Even(v, Char(c)) == Some(v.(top := WithText(v.top, c)))
  {
    Marked(c);
  }

  lemma {:induction false} CharsRead(v: View, cs: seq<u32>)
    requires Ready(v) && Room(v.limit, |v.outer| + 1) && !Joins(v.top)
    requires 0 < |cs| < 8 && forall i :: 0 <= i < |cs| ==> Readable(cs[i])
    ensures EvenReads(v, Chars(cs)) == Some(With(v, Item(Literal(cs, false), 1, 1, false), InGroup))
    decreases |cs|
  {
    var (front, c) := (cs[..|cs| - 1], cs[|cs| - 1]);
    assert cs == front + [c];
    if front == [] {
      CharNext(v, c);
      Then(v, [], v, Char(c), With(v, Item(Literal(cs, false), 1, 1, false), InGroup));
    } else {
      CharsRead(v, front);
      var v' := With(v, Item(Literal(front, false), 1, 1, false), InGroup);
      CharNext(v', c);
      assert WithText(v'.top, c) == With(v, Item(Literal(cs, false), 1, 1, false), InGroup).top;
      Then(v, Chars(front), v', Char(c), With(v, Item(Literal(cs, false), 1, 1, false), InGroup));
    }
  }

  /** A codepoint that is repeated is taken from the text that it joined, if any. */
  lemma {:induction false} LetterRead(v: View, c: u32)
    requires Ready(v) && Room(v.limit, |v.outer| + 1) && Readable(c)
    ensures EvenReads(v, Chars([c]) + ['{' as int]) == Some(With(v, Item(Literal([c], true), 0, 0, false), InRepeat))
  {
    var v' := v.(top := WithText(v.top, c));
    CharNext(v, c);
    assert [c][..0] == [] && Chars([c]) == [] + [Char(c)];
    Then(v, [], v, Char(c), v');
    SplitText(v.top, c);
    LetterNext(v, v'.top, c);
    Then(v, Chars([c]), v', '{' as int, With(v, Item(Literal([c], true), 0, 0, false), InRepeat));
  }

  lemma {:induction false} BraceAt(v: View)
    requires v.mode.InGroup? && !EndsEmpty(v.top) && v.top.items != [] && Room(v.limit, |v.outer| + 1)
    ensures Even(v, '{' as int)
         == Some(v.(top := WithLast(Split(v.top), Last(Split(v.top)).(min := 0, max := 0)), mode := InRepeat))
  {
  }

  lemma {:induction false} LetterNext(v: View, p: Partial, c: u32)
    requires v.mode.InGroup? && Room(v.limit, |v.outer| + 1)
    requires p.items != [] && Last(p).kind.Literal? && Split(p) == Added(v.top, Literal([c], true))
    ensures Even(v.(top := p), '{' as int) == Some(With(v, Item(Literal([c], true), 0, 0, false), InRepeat))
  {
    LastAgain(v.top, Item(Literal([c], true), 1, 1, false), Item(Literal([c], true), 0, 0, false));
    BraceAt(v.(top := p));
  }

  lemma {:induction false} LastAgain(p: Partial, item: Item, item': Item)
    ensures var q := p.(items := p.items + [item]);
            q.items != [] && Last(q) == item && WithLast(q, item') == p.(items := p.items + [item'])
  {
  }

  lemma {:induction false} SplitText(p: Partial, c: u32)
    requires p.items != [] && Last(p).kind.Literal? ==> Last(p).kind.codepoints != []
    ensures WithText(p, c).items != [] && Last(WithText(p, c)).kind.Literal?
    ensures Split(WithText(p, c)) == Added(p, Literal([c], true))
  {
    if Joins(p) {
      var cs := Last(p).kind.codepoints;
      assert (cs + [c])[..|cs|] == cs;
    }
  }

  // ---------------------------------------------------------------------
  // Repetitions
  // ---------------------------------------------------------------------

  /** The bounds, and the question mark, behind an item. */
  lemma {:induction false} ModifiersRead(v: View, item: Item)
    requires v.mode.InGroup? && Room(v.limit, |v.outer| + 2)
    requires !(item.kind.Nested? && item.kind.group.sum == 0)
    requires item.kind.Literal? ==> item.kind.tainted && |item.kind.codepoints| == 1
    ensures EvenReads(With(v, Item(item.kind, 0, 0, false), InRepeat), PrintBounds(item) + PrintMaybe(item))
         == Some(With(v, item, InGroup))
  {
    var v' := With(v, item.(maybe := false), InGroup);
    BoundsRead(v, item);
    if item.maybe {
      Then(With(v, Item(item.kind, 0, 0, false), InRepeat), PrintBounds(item), v', '?' as int, With(v, item, InGroup));
    } else {
      assert PrintBounds(item) + [] == PrintBounds(item);
    }
  }

  lemma {:induction false} BoundsRead(v: View, item: Item)
    requires Room(v.limit, |v.outer| + 2)
    ensures EvenReads(With(v, Item(item.kind, 0, 0, false), InRepeat), PrintBounds(item))
         == Some(With(v, item.(maybe := false), InGroup))
  {
    var v0 := With(v, Item(item.kind, 0, 0, false), InRepeat);
    var v1 := With(v, Item(item.kind, item.min, 0, false), InRepeat);
    var v2 := v1.(mode := InRepeatRange);
    var v3 := With(v, item.(maybe := false), InRepeatRange);
    NumberRead(v0, item.min);
    Then(v0, Decimal(item.min), v1, ',' as int, v2);
    NumberRead(v2, item.max);
    Both(v0, Decimal(item.min) + [',' as int], Decimal(item.max));
    Then(v0, Decimal(item.min) + [',' as int] + Decimal(item.max), v3, '}' as int, v3.(mode := InGroup));
  }

  /** The brace behind an item that is not a literal. */
  lemma {:induction false} BraceBehind(v: View, kind: Kind)
    requires v.mode.InGroup? && Room(v.limit, |v.outer| + 1) && !kind.Literal?
    requires kind.Nested? ==> kind.group.sum != 0
    ensures Even(With(v, Item(kind, 1, 1, false), InGroup), '{' as int)
         == Some(With(v, Item(kind, 0, 0, false), InRepeat))
  {
    LastAgain(v.top, Item(kind, 1, 1, false), Item(kind, 0, 0, false));
    BraceAt(With(v, Item(kind, 1, 1, false), InGroup));
  }

  // ---------------------------------------------------------------------
  // Sets
  // ---------------------------------------------------------------------

  function SetView(v: View, ranges: seq<Range>): View {
    With(v, Item(Set(ranges, []), 1, 1, false), InSet(ranges != []))
  }

  lemma {:induction false} LastKind(p: Partial, item: Item, kind: Kind)
    ensures var q := p.(items := p.items + [item]);
            q.items != [] && WithKind(q, kind) == p.(items := p.items + [item.(kind := kind)])
  {
    LastAgain(p, item, item.(kind := kind));
  }

  lemma {:induction false} StartNext(v: View, ranges: seq<Range>, c: u32)
    requires Room(v.limit, |v.outer| + 2) && !IsEscaped(c) && c as int != ']' as int
    ensures Even(SetView(v, ranges), if c as int == '-' as int then Mark(c) else c)
         == Some(SetView(v, ranges + [Range(c, c)]))
  {
    Marked(c);
    LastKind(v.top, Item(Set(ranges, []), 1, 1, false), Set(ranges + [Range(c, c)], []));
  }

  lemma {:induction false} EndNext(v: View, ranges: seq<Range>, range: Range)
    requires Room(v.limit, |v.outer| + 2) && range.start <= range.end && range.end as int != ']' as int
    ensures Even(SetView(v, ranges + [Range(range.start, range.start)]).(mode := InRange), range.end)
         == Some(SetView(v, ranges + [range]))
  {
    var first := ranges + [Range(range.start, range.start)];
    LastKind(v.top, Item(Set(first, []), 1, 1, false), Set(ranges + [range], []));
    assert first[..|first| - 1] == ranges;
  }

  lemma {:induction false} RangeRead(v: View, ranges: seq<Range>, range: Range)
    requires Room(v.limit, |v.outer| + 2) && PrintableRange(range)
    ensures EvenReads(SetView(v, ranges), PrintRange(range)) == Some(SetView(v, ranges + [range]))
  {
    var c := range.start;
    var start: u32 := if c as int == '-' as int then Mark(c) else c;
    var v' := SetView(v, ranges + [Range(c, c)]);
    StartNext(v, ranges, c);
    One(SetView(v, ranges), start);
    if range.end != c {
      EndNext(v, ranges, range);
      Then(SetView(v, ranges), [start], v', '-' as int, v'.(mode := InRange));
      Then(SetView(v, ranges), [start] + ['-' as int], v'.(mode := InRange), range.end, SetView(v, ranges + [range]));
      assert PrintRange(range) == [start] + ['-' as int] + [range.end];
    } else {
      assert PrintRange(range) == [start];
    }
  }

  lemma {:induction false} RangesRead(v: View, ranges: seq<Range>)
    requires Room(v.limit, |v.outer| + 2) && forall i :: 0 <= i < |ranges| ==> PrintableRange(ranges[i])
    ensures EvenReads(SetView(v, []), PrintRanges(ranges)) == Some(SetView(v, ranges))
    decreases |ranges|
  {
    if ranges != [] {
      var (front, range) := (ranges[..|ranges| - 1], ranges[|ranges| - 1]);
      assert ranges == front + [range];
      RangesRead(v, front);
      RangeRead(v, front, range);
      Both(SetView(v, []), PrintRanges(front), PrintRange(range));
    }
  }

  lemma {:induction false} SetRead(v: View, ranges: seq<Range>)
    requires Ready(v) && Room(v.limit, |v.outer| + 2) && forall i :: 0 <= i < |ranges| ==> PrintableRange(ranges[i])
    ensures EvenReads(v, ['[' as int] + PrintRanges(ranges) + [']' as int])
         == Some(With(v, Item(Set(ranges, ChoicesList(ranges)), 1, 1, false), InGroup))
  {
    var v' := With(v, Item(Set(ranges, ChoicesList(ranges)), 1, 1, false), InGroup);
    assert Even(v, '[' as int) == Some(SetView(v, []));
    SetEnds(v, ranges);
    RangesRead(v, ranges);
    Around(v, '[' as int, SetView(v, []), PrintRanges(ranges), SetView(v, ranges), ']' as int, v');
  }

  lemma {:induction false} SetEnds(v: View, ranges: seq<Range>)
    requires Room(v.limit, |v.outer| + 2)
    ensures Even(SetView(v, ranges), ']' as int)
         == Some(With(v, Item(Set(ranges, ChoicesList(ranges)), 1, 1, false), InGroup))
  {
    LastKind(v.top, Item(Set(ranges, []), 1, 1, false), Set(ranges, ChoicesList(ranges)));
  }

  // ---------------------------------------------------------------------
  // Specials
  // ---------------------------------------------------------------------

  function NameView(v: View, special: SpecialKind, name: seq<u32>): View {
    With(v, Item(Special(special, name), 1, 1, false), InName)
  }

  lemma {:induction false} NameRead(v: View, special: SpecialKind, name: seq<u32>)
    requires Room(v.limit, |v.outer| + 2) && forall i :: 0 <= i < |name| ==> !IsEscaped(name[i])
    ensures EvenReads(NameView(v, special, []), PrintName(name)) == Some(NameView(v, special, name))
    decreases |name|
  {
    if name != [] {
      var (front, c) := (name[..|name| - 1], name[|name| - 1]);
      assert name == front + [c];
      NameRead(v, special, front);
      Marked(c);
      LastKind(v.top, Item(Special(special, front), 1, 1, false), Special(special, name));
      Then(NameView(v, special, []), PrintName(front), NameView(v, special, front),
           if c as int == '}' as int then Mark(c) else c, NameView(v, special, name));
    }
  }

  lemma {:induction false} SpecialNext(v: View, special: SpecialKind)
    requires Ready(v) && Room(v.limit, |v.outer| + 1)
    ensures Even(v, ESCAPED + SpecialLetter(special))
         == Some(With(v, Item(Special(special, []), 1, 1, false), InSpecial))
  {
    Marked(SpecialLetter(special));
  }

  lemma {:induction false} SpecialStarts(v: View, special: SpecialKind)
    requires Ready(v) && Room(v.limit, |v.outer| + 2)
    ensures EvenReads(v, [ESCAPED + SpecialLetter(special), '{' as int]) == Some(NameView(v, special, []))
  {
    var letter: u32 := ESCAPED + SpecialLetter(special);
    var v' := NameView(v, special, []).(mode := InSpecial);
    SpecialNext(v, special);
    One(v, letter);
    assert Even(v', '{' as int) == Some(NameView(v, special, []));
    Then(v, [letter], v', '{' as int, NameView(v, special, []));
    assert [letter] + ['{' as int] == [letter, '{' as int];
  }

  lemma {:induction false} SpecialRead(v: View, special: SpecialKind, name: seq<u32>)
    requires Ready(v) && Room(v.limit, |v.outer| + 2) && forall i :: 0 <= i < |name| ==> !IsEscaped(name[i])
    ensures EvenReads(v, [ESCAPED + SpecialLetter(special), '{' as int] + PrintName(name) + ['}' as int])
         == Some(With(v, Item(Special(special, name), 1, 1, false), InGroup))
  {
    var start: seq<u32> := [ESCAPED + SpecialLetter(special), '{' as int];
    SpecialStarts(v, special);
    NameRead(v, special, name);
    Both(v, start, PrintName(name));
    var v' := NameView(v, special, name);
    assert Even(v', '}' as int) == Some(v'.(mode := InGroup));
    Then(v, start + PrintName(name), v', '}' as int, v'.(mode := InGroup));
  }

  // ---------------------------------------------------------------------
  // Groups
  // ---------------------------------------------------------------------

  /** The number of a prefix, which takes the place of the 1 that the sum had for the segment. */
  lemma {:induction false} NumberedRead(v: View, done: seq<Segment>, sum: u64, multiplier: u64, less: u64, sum': u64)
    requires v.top == Partial(done, [], 1, sum) && v.mode.InGroup? && Room(v.limit, |v.outer| + 2)
    requires Wrap(sum - 1) == less && Wrap(less + multiplier) == sum'
    ensures EvenReads(v, ['{' as int] + Decimal(multiplier) + ['}' as int])
         == Some(v.(top := Partial(done, [], multiplier, sum')))
  {
    var v0 := v.(top := Partial(done, [], 0, less), mode := InMultiplier);
    var v1 := WithNumber(v0, multiplier);
    assert Even(v, '{' as int) == Some(v0);
    assert Even(v1, '}' as int) == Some(v.(top := Partial(done, [], multiplier, sum')));
    NumberRead(v0, multiplier);
    Around(v, '{' as int, v0, Decimal(multiplier), v1, '}' as int, v.(top := Partial(done, [], multiplier, sum')));
  }

  /** The start of a segment, with a prefix if its multiplier is not 1; x is the sum before it. */
  lemma {:induction false} PrefixRead(v: View, done: seq<Segment>, x: nat, multiplier: u64)
    requires v.top == Partial(done, [], 1, Wrap(x + 1)) && v.mode.InGroup?
    requires Room(v.limit, |v.outer| + 1) && (multiplier != 1 ==> Room(v.limit, |v.outer| + 2))
    ensures EvenReads(v, PrintPrefix(multiplier))
         == Some(v.(top := Partial(done, [], multiplier, Wrap(x + multiplier))))
  {
    if multiplier != 1 {
      PrefixSums(x, multiplier);
      NumberedRead(v, done, Wrap(x + 1), multiplier, Wrap(x), Wrap(x + multiplier));
    }
  }

  lemma PrefixSums(x: nat, multiplier: nat)
    ensures Wrap(Wrap(x + 1) - 1) == Wrap(x) && Wrap(Wrap(x) + multiplier) == Wrap(x + multiplier)
  {
    WrapPlus(x + 1, -1);
    WrapPlus(x, multiplier);
  }

  /** Behind the opening parenthesis of a group. */
  function Inside(v: View): View {
    v.(outer := v.outer + [v.top.(items := v.top.items + [Item(Nested(Group([], 0)), 1, 1, false)])], top := NEW)
  }

  lemma {:induction false} EmptyItem(v: View)
    requires Ready(v) && Room(v.limit, |v.outer| + 1)
    ensures Even(v, '(' as int) == Some(Inside(v))
  {
  }

  lemma {:induction false} GroupClosedRead(v: View, inner: View, group: Group)
    requires inner.mode.InGroup? && inner.limit == v.limit && Room(v.limit, |v.outer| + 2) && !EndsEmpty(inner.top)
    requires inner.outer == Inside(v).outer
    requires inner.top.multiplier > 0 && Whole(inner.top) == group && HasItems(group) && v.mode.InGroup?
    ensures Even(inner, ')' as int) == Some(With(v, Item(Nested(group), 1, 1, false), InGroup))
  {
    LastKind(v.top, Item(Nested(Group([], 0)), 1, 1, false), Nested(group));
    assert inner.outer[..|v.outer|] == v.outer;
  }

  /** What stands between the first n segments and the rest. */
  function Behind(v: View, g: Group, n: nat): View
    requires 0 < n <= |g.segments|
  {
    v.(top := Partial(g.segments[..n - 1], g.segments[n - 1].items, g.segments[n - 1].multiplier,
                      Wrap(Multipliers(g.segments, n))))
  }

  /** What is written in front of segment n - 1, and the view behind it. */
  function Before(g: Group, n: nat): seq<u32>
    requires 0 < n <= |g.segments|
  {
    if n == 1 then [] else PrintSegments(g.segments, n - 1) + ['|' as int]
  }

  function AtSegment(v: View, g: Group, n: nat): View
    requires 0 < n <= |g.segments|
  {
    v.(top := Partial(g.segments[..n - 1], [], 1, Wrap(Multipliers(g.segments, n - 1) + 1)))
  }

  lemma {:induction false} FirstSegment(v: View, g: Group)
    requires v.top == NEW && g.segments != []
    ensures AtSegment(v, g, 1) == v
  {
    assert Multipliers(g.segments, 0) == 0 && Wrap(1) == 1;
  }

  lemma {:induction false} PipeNext(v: View, g: Group, n: nat)
    requires 0 < n < |g.segments| && g.segments[n - 1].multiplier > 0 && Ready(Behind(v, g, n))
    requires Room(v.limit, |v.outer| + 1)
    ensures Even(Behind(v, g, n), '|' as int) == Some(AtSegment(v, g, n + 1))
  {
    WrapPlus(Multipliers(g.segments, n), 1);
    assert g.segments[..n] == g.segments[..n - 1] + [g.segments[n - 1]];
  }

  lemma {:induction false} BeforeRead(v: View, g: Group, n: nat)
    requires v.top == NEW && v.mode.InGroup? && 0 < n <= |g.segments| && Room(v.limit, |v.outer| + 1)
    requires n > 1 ==> EvenReads(v, PrintSegments(g.segments, n - 1)) == Some(Behind(v, g, n - 1))
    requires n > 1 ==> Ready(Behind(v, g, n - 1)) && g.segments[n - 2].multiplier > 0
    ensures EvenReads(v, Before(g, n)) == Some(AtSegment(v, g, n))
  {
    if n > 1 {
      PipeNext(v, g, n - 1);
      Then(v, PrintSegments(g.segments, n - 1), Behind(v, g, n - 1), '|' as int, AtSegment(v, g, n));
    } else {
      FirstSegment(v, g);
    }
  }

  /** Behind the prefix of segment n - 1. */
  function Prefixed(v: View, g: Group, n: nat): View
    requires 0 < n <= |g.segments|
  {
    v.(top := Partial(g.segments[..n - 1], [], g.segments[n - 1].multiplier, Wrap(Multipliers(g.segments, n))))
  }

  lemma {:induction false} PrefixedRead(v: View, g: Group, n: nat)
    requires v.mode.InGroup? && 0 < n <= |g.segments| && Room(v.limit, |v.outer| + 1)
    requires g.segments[n - 1].multiplier != 1 ==> Room(v.limit, |v.outer| + 2)
    ensures EvenReads(AtSegment(v, g, n), PrintPrefix(g.segments[n - 1].multiplier)) == Some(Prefixed(v, g, n))
  {
    var (done, x, multiplier) := (g.segments[..n - 1], Multipliers(g.segments, n - 1), g.segments[n - 1].multiplier);
    assert AtSegment(v, g, n).(top := Partial(done, [], multiplier, Wrap(x + multiplier))) == Prefixed(v, g, n);
    PrefixRead(AtSegment(v, g, n), done, x, multiplier);
  }

  lemma {:induction false} GroupRead(v: View, g: Group, n: nat)
    requires v.top == NEW && v.mode.InGroup? && Printable(g) && 0 < n <= |g.segments|
    requires Room(v.limit, |v.outer| + Frames(g.segments, n))
    ensures EvenReads(v, PrintSegments(g.segments, n)) == Some(Behind(v, g, n)) && Ready(Behind(v, g, n))
    decreases g, n
  {
    SegmentFacts(v.limit, |v.outer|, g, n);
    if n > 1 {
      GroupRead(v, g, n - 1);
    }
    BeforeRead(v, g, n);
    PrefixedRead(v, g, n);
    SegmentRead(AtSegment(v, g, n), Prefixed(v, g, n), g.segments[n - 1]);
    SegmentBehind(v, g, n);
  }

  lemma {:induction false} SegmentBehind(v: View, g: Group, n: nat)
    requires 0 < n <= |g.segments| && EvenReads(v, Before(g, n)) == Some(AtSegment(v, g, n))
    requires var segment := g.segments[n - 1];
             EvenReads(AtSegment(v, g, n), PrintPrefix(segment.multiplier) + PrintItems(segment.items, |segment.items|))
             == Some(Behind(v, g, n))
    ensures EvenReads(v, PrintSegments(g.segments, n)) == Some(Behind(v, g, n))
  {
    var segment := g.segments[n - 1];
    var (a, b) := (PrintPrefix(segment.multiplier), PrintItems(segment.items, |segment.items|));
    Both(v, Before(g, n), a + b);
    assert Before(g, n) + (a + b) == Before(g, n) + a + b;
  }

  lemma {:induction false} SegmentFacts(limit: nat, depth: nat, g: Group, n: nat)
    requires 0 < n <= |g.segments| && Printable(g) && Room(limit, depth + Frames(g.segments, n))
    ensures var segment := g.segments[n - 1];
            && PrintableItems(segment.items)
            && Multipliers(g.segments, n) == Multipliers(g.segments, n - 1) + segment.multiplier
            && Room(limit, depth + 1) && (segment.multiplier != 1 ==> Room(limit, depth + 2))
            && Room(limit, depth + 1 + ItemsFrames(segment.items, |segment.items|))
    ensures n > 1 ==> Room(limit, depth + Frames(g.segments, n - 1)) && g.segments[n - 2].multiplier > 0
  {
  }

  /** The items of a segment, behind its prefix. */
  lemma {:induction false} SegmentRead(v: View, v': View, segment: Segment)
    requires EvenReads(v, PrintPrefix(segment.multiplier)) == Some(v') && v'.mode.InGroup? && v'.top.items == []
    requires PrintableItems(segment.items)
    requires Room(v'.limit, |v'.outer| + 1 + ItemsFrames(segment.items, |segment.items|))
    ensures var v'' := v'.(top := v'.top.(items := segment.items));
            && EvenReads(v, PrintPrefix(segment.multiplier) + PrintItems(segment.items, |segment.items|)) == Some(v'')
            && Ready(v'')
    decreases segment
  {
    ItemsRead(v', segment.items, |segment.items|);
    assert segment.items[..|segment.items|] == segment.items;
    Both(v, PrintPrefix(segment.multiplier), PrintItems(segment.items, |segment.items|));
  }

  lemma {:induction false} ItemsRead(v: View, items: seq<Item>, n: nat)
    requires v.top.items == [] && v.mode.InGroup? && PrintableItems(items) && n <= |items|
    requires Room(v.limit, |v.outer| + 1 + ItemsFrames(items, n))
    ensures EvenReads(v, PrintItems(items, n)) == Some(v.(top := v.top.(items := items[..n])))
    ensures Ready(v.(top := v.top.(items := items[..n])))
    decreases items, n
  {
    if n > 0 {
      ItemsRead(v, items, n - 1);
      var v' := v.(top := v.top.(items := items[..n - 1]));
      assert items[..n] == items[..n - 1] + [items[n - 1]];
      ItemRead(v', items[n - 1]);
      Both(v, PrintItems(items, n - 1), PrintItem(items[n - 1]));
    }
  }

  lemma {:induction false} ItemRead(v: View, item: Item)
    requires Ready(v) && PrintableItem(item) && (IsText(item) ==> !Joins(v.top))
    requires Room(v.limit, |v.outer| + 1 + ItemFrames(item))
    ensures EvenReads(v, PrintItem(item)) == Some(With(v, item, InGroup))
    ensures Ready(With(v, item, InGroup))
    decreases item, 1
  {
    if IsText(item) {
      CharsRead(v, item.kind.codepoints);
    } else {
      var v' := With(v, Item(item.kind, 0, 0, false), InRepeat);
      KindRead(v, item);
      ModifiersRead(v, item);
      Both(v, PrintKind(item.kind) + ['{' as int], PrintBounds(item) + PrintMaybe(item));
      assert PrintKind(item.kind) + ['{' as int] + (PrintBounds(item) + PrintMaybe(item)) == PrintItem(item);
    }
  }

  /** An item up to the brace behind it. */
  lemma {:induction false} KindRead(v: View, item: Item)
    requires Ready(v) && PrintableItem(item) && !IsText(item) && Room(v.limit, |v.outer| + 1 + ItemFrames(item))
    ensures EvenReads(v, PrintKind(item.kind) + ['{' as int]) == Some(With(v, Item(item.kind, 0, 0, false), InRepeat))
    decreases item, 0
  {
    match item.kind
    case Literal(cs, _) =>
      LetterRead(v, cs[0]);
      assert cs == [cs[0]];
    case Set(ranges, _) =>
      SetRead(v, ranges);
      BraceRead(v, item.kind);
    case Special(special, name) =>
      SpecialRead(v, special, name);
      BraceRead(v, item.kind);
    case Nested(group) =>
      NestedRead(v, group);
      BraceRead(v, item.kind);
  }

  lemma {:induction false} BraceRead(v: View, kind: Kind)
    requires EvenReads(v, PrintKind(kind)) == Some(With(v, Item(kind, 1, 1, false), InGroup)) && Ready(v)
    requires Room(v.limit, |v.outer| + 1) && !kind.Literal? && (kind.Nested? ==> kind.group.sum != 0)
    ensures EvenReads(v, PrintKind(kind) + ['{' as int]) == Some(With(v, Item(kind, 0, 0, false), InRepeat))
  {
    BraceBehind(v, kind);
    Then(v, PrintKind(kind), With(v, Item(kind, 1, 1, false), InGroup), '{' as int,
         With(v, Item(kind, 0, 0, false), InRepeat));
  }

  lemma {:induction false} NestedRead(v: View, g: Group)
    requires Ready(v) && Printable(g) && Closable(g)
    requires Room(v.limit, |v.outer| + 1 + Frames(g.segments, |g.segments|)) && Room(v.limit, |v.outer| + 2)
    ensures EvenReads(v, PrintKind(Nested(g))) == Some(With(v, Item(Nested(g), 1, 1, false), InGroup))
    decreases g, |g.segments| + 1
  {
    var n := |g.segments|;
    var inner := Inside(v);
    EmptyItem(v);
    GroupFacts(inner, g);
    GroupClosedRead(v, Behind(inner, g, n), g);
    GroupRead(inner, g, n);
    Around(v, '(' as int, inner, PrintSegments(g.segments, n), Behind(inner, g, n), ')' as int,
           With(v, Item(Nested(g), 1, 1, false), InGroup));
  }

  lemma {:induction false} GroupFacts(v: View, g: Group)
    requires Printable(g) && g.segments != [] && v.mode.InGroup?
    ensures Whole(Behind(v, g, |g.segments|).top) == g
    ensures Closable(g) ==> Behind(v, g, |g.segments|).top.multiplier > 0
    ensures !EndsEmpty(Behind(v, g, |g.segments|).top)
  {
    var n := |g.segments|;
    assert g.segments == g.segments[..n - 1] + [g.segments[n - 1]];
    assert PrintableItems(g.segments[n - 1].items);
  }

  /** Without a drift, the parser's run is regular. */
  lemma {:induction false} EvenRegular(s: State, v: View, tokens: seq<u32>)
    requires Spine(s) && Shows(s, v)
    ensures EvenReads(v, tokens).Some? ==> Reads(v, tokens) == EvenReads(v, tokens) && Regular(s, tokens)
    decreases |tokens|
  {
    if tokens != [] && Even(v, tokens[0]).Some? {
      DriftShown(s, v, tokens[0]);
      StepShows(s, v, tokens[0]);
      StepSpine(s, tokens[0]);
      EvenRegular(Step(s, tokens[0]).1, Next(v, tokens[0]).value, tokens[1..]);
    }
  }

  /** A pattern that can be written down is what it is parsed to again, without a drift, if the stack has room. */
  lemma {:induction false} RoundTrip(limit: nat, g: Group)
    requires Printable(g) && Room(limit, Frames(g.segments, |g.segments|))
    ensures Parse(limit, Print(g)) == Some(g) && Regular(Initial(limit), Print(g))
  {
    GroupFacts(ParserSimple.Start(limit), g);
    GroupRead(ParserSimple.Start(limit), g, |g.segments|);
    InitialShows(limit);
    EvenRegular(Initial(limit), ParserSimple.Start(limit), Print(g));
    ParsesAlike(limit, Print(g));
  }
}
