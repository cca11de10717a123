// What every token means, by its number: codepoints are below 0x110000, and 2^30 more if they are escaped.

module ParserTokens {
  import opened Words
  import opened Pattern
  import opened Parsing
  import opened ParserSpine
  import opened ParserSums
  import opened ParserContent
  import opened ParserSimple
  import opened ParserPrint

  /** The low bytes that are syntax in a group: parentheses, the question mark, the bracket, the brace and the bar. */
  predicate Active(c: nat) {
    c % 0x100 in {0x28, 0x29, 0x3f, 0x5b, 0x7b, 0x7c}
  }

  /** The low bytes that an escape makes text, closing brackets and braces among them. */
  predicate Escapable(c: nat) {
    c % 0x100 in {0x28, 0x29, 0x5b, 0x5d, 0x7b, 0x7c, 0x7d}
  }

  /** In a group, with an end that is not removed. */
  predicate Between(v: View) {
    v.mode.InGroup? && !EndsEmpty(v.top) && Room(v.limit, |v.outer| + 1)
  }

  /** The items when the text goes on: a literal has up to seven codepoints. */
  function MoreText(items: seq<Item>, c: u32): seq<Item> {
    var n := |items| - 1;
    if n >= 0 && items[n].kind.Literal? && !items[n].kind.tainted && |items[n].kind.codepoints| <= 6 then
      items[..n] + [Item(Literal(items[n].kind.codepoints + [c], false), items[n].min, items[n].max, items[n].maybe)]
    else items + [Item(Literal([c], false), 1, 1, false)]
  }

  lemma {:induction false} Number(c: nat)
    requires c <= 0x10ffff
    ensures !IsEscaped(c) && Low(c) == c % 0x100
    ensures IsEscaped(0x4000_0000 + c) && Unescaped(0x4000_0000 + c) == c && Low(0x4000_0000 + c) == c % 0x100
  {
    DivUnique(0x4000_0000 + c, 0x4000_0000, 1, c);
    DivUnique(0x4000_0000 + c, 0x100, 0x40_0000 + c / 0x100, c % 0x100);
  }

  /** Whatever is not syntax is text, from all of Unicode. */
  lemma {:induction false} TextNext(v: View, c: nat)
    requires Between(v) && c <= 0x10ffff && !Active(c)
    ensures Next(v, c) == Some(v.(top := v.top.(items := MoreText(v.top.items, c))))
  {
    Number(c);
  }

  /** An escape makes syntax text, the letters m, w and p specials, and all else an error. */
  lemma {:induction false} EscapeNext(v: View, c: nat)
    requires Between(v) && c <= 0x10ffff
    ensures Escapable(c) ==> Next(v, 0x4000_0000 + c) == Some(v.(top := v.top.(items := MoreText(v.top.items, c))))
    ensures c % 0x100 == 0x6d ==>
              Next(v, 0x4000_0000 + c) == Some(With(v, Item(Special(Markov, []), 1, 1, false), InSpecial))
    ensures c % 0x100 == 0x77 ==>
              Next(v, 0x4000_0000 + c) == Some(With(v, Item(Special(Wordlist, []), 1, 1, false), InSpecial))
    ensures c % 0x100 == 0x70 ==>
              Next(v, 0x4000_0000 + c) == Some(With(v, Item(Special(Preset, []), 1, 1, false), InSpecial))
    ensures !Escapable(c) && c % 0x100 !in {0x6d, 0x77, 0x70} ==> Next(v, 0x4000_0000 + c) == None
  {
    Number(c);
  }

  /** The bar begins the next segment, or the current one again if its multiplier is 0. */
  lemma {:induction false} BarNext(v: View, c: nat)
    requires Between(v) && c <= 0x10ffff && c % 0x100 == 0x7c
    ensures Next(v, c) == Some(v.(top :=
              if v.top.multiplier == 0 then Partial(v.top.done, [], 1, v.top.sum)
              else Partial(v.top.done + [Segment(v.top.items, v.top.multiplier)], [], 1,
                           (v.top.sum + 1) % 0x1_0000_0000_0000_0000)))
  {
    Number(c);
  }

  /** An opening parenthesis begins a group, and a bracket a set. */
  lemma {:induction false} OpenNext(v: View, c: nat)
    requires Between(v) && c <= 0x10ffff
    ensures c % 0x100 == 0x28 ==> Next(v, c) == Some(Inside(v)) && Inside(v).top == Partial([], [], 1, 1)
    ensures c % 0x100 == 0x5b ==> Next(v, c) == Some(With(v, Item(Set([], []), 1, 1, false), InSet(false)))
  {
    Number(c);
  }

  /** A closing parenthesis puts the group into its place, without a segment of multiplier 0 at its end. */
  lemma {:induction false} CloseNext(v: View, c: nat, group: Group, outer: seq<Partial>, p: Partial, item: Item)
    requires Between(v) && c <= 0x10ffff && c % 0x100 == 0x29
    requires v.outer == outer + [p.(items := p.items + [item])]
    requires group.segments
          == v.top.done + if v.top.multiplier == 0 then [] else [Segment(v.top.items, v.top.multiplier)]
    requires group.sum == if HasItems(Group(group.segments, 0)) then v.top.sum else 0
    ensures Next(v, c) == Some(v.(outer := outer, top := p.(items := p.items + [item.(kind := Nested(group))])))
  {
    Number(c);
    LastKind(p, item, Nested(group));
    assert v.outer[..|v.outer| - 1] == outer;
    assert v.top.done + [] == v.top.done;
  }

  lemma {:induction false} CloseRefused(v: View, c: nat)
    requires Between(v) && c <= 0x10ffff && c % 0x100 == 0x29 && v.outer == []
    ensures Next(v, c) == None
  {
    Number(c);
  }

  /** Without items, a brace begins the segment's multiplier, and a question mark is an error. */
  lemma {:induction false} PrefixNext(v: View, c: nat)
    requires Between(v) && c <= 0x10ffff && v.top.items == []
    ensures c % 0x100 == 0x7b ==>
              Next(v, c) == Some(v.(top := v.top.(multiplier := 0, sum := (v.top.sum - 1) % 0x1_0000_0000_0000_0000),
                                    mode := InMultiplier))
    ensures c % 0x100 == 0x3f ==> Next(v, c) == None
  {
    Number(c);
  }

  /** Behind text of more than one codepoint, both are about the last codepoint, which is taken from the text. */
  lemma {:induction false} LetterModified(v: View, p: Partial, item: Item, cs: seq<u32>, last: u32, c: nat)
    requires Between(v) && c <= 0x10ffff && v.top == p.(items := p.items + [item]) && cs != []
    requires item.kind == Literal(cs + [last], false)
    ensures var shorter := v.(top := p.(items := p.items + [item.(kind := Literal(cs, false))]));
            && (c % 0x100 == 0x7b ==>
                  Next(v, c) == Some(With(shorter, Item(Literal([last], true), 0, 0, false), InRepeat)))
            && (c % 0x100 == 0x3f ==>
                  Next(v, c) == Some(With(shorter, Item(Literal([last], true), 1, 1, true), InGroup)))
  {
    Number(c);
    LastKind(p, item, Literal(cs, false));
    assert (cs + [last])[..|cs|] == cs;
    var shorter := p.(items := p.items + [item.(kind := Literal(cs, false))]);
    LastAgain(shorter, Item(Literal([last], true), 1, 1, false), Item(Literal([last], true), 0, 0, false));
    LastAgain(shorter, Item(Literal([last], true), 1, 1, false), Item(Literal([last], true), 1, 1, true));
  }

  /** Behind a single codepoint, or what is not text, they are about that. */
  lemma {:induction false} ItemModified(v: View, p: Partial, item: Item, c: nat)
    requires Between(v) && c <= 0x10ffff && v.top == p.(items := p.items + [item])
    requires item.kind.Literal? ==> |item.kind.codepoints| == 1
    ensures var kind := if item.kind.Literal? then Literal(item.kind.codepoints, true) else item.kind;
            && (c % 0x100 == 0x7b ==>
                  Next(v, c) == Some(With(v.(top := p), Item(kind, 0, 0, item.maybe), InRepeat)))
            && (c % 0x100 == 0x3f ==>
                  Next(v, c) == Some(With(v.(top := p), Item(kind, item.min, item.max, true), InGroup)))
  {
    Number(c);
    var kind := if item.kind.Literal? then Literal(item.kind.codepoints, true) else item.kind;
    LastKind(p, item, kind);
    LastAgain(p, item.(kind := kind), Item(kind, 0, 0, item.maybe));
    LastAgain(p, item.(kind := kind), Item(kind, item.min, item.max, true));
  }

  // ---------------------------------------------------------------------
  // Inside braces and brackets
  // ---------------------------------------------------------------------

  /** In a multiplier, digits go on with the number, a closing brace adds it to the sum, and all else is an error. */
  lemma {:induction false} MultiplierRead(v: View, token: u32)
    requires v.mode.InMultiplier? && Room(v.limit, |v.outer| + 2)
    ensures Next(v, token) ==
            if token == 0x7d then
              Some(v.(top := v.top.(sum := (v.top.sum + v.top.multiplier) % 0x1_0000_0000_0000_0000), mode := InGroup))
            else if 0x30 <= token <= 0x39 then
              Some(v.(top := v.top.(multiplier := (v.top.multiplier * 10 + (token - 0x30)) % 0x1_0000_0000_0000_0000)))
            else None
  {
  }

  /** In a repetition, a closing brace makes the maximum the minimum, and a comma begins it anew. */
  lemma {:induction false} RepeatRead(v: View, item: Item, token: u32)
    requires Room(v.limit, |v.outer| + 2)
    ensures Next(With(v, item, InRepeat), token) ==
            if token == 0x7d then Some(With(v, item.(max := item.min), InGroup))
            else if token == 0x2c then Some(With(v, item.(max := 0), InRepeatRange))
            else if 0x30 <= token <= 0x39 then
              Some(With(v, item.(min := (item.min * 10 + (token - 0x30)) % 0x1_0000_0000_0000_0000), InRepeat))
            else None
  {
    if 0x30 <= token <= 0x39 {
      LastAgain(v.top, item, item.(min := (item.min * 10 + (token - 0x30)) % 0x1_0000_0000_0000_0000));
    }
    LastAgain(v.top, item, item.(max := item.min));
    LastAgain(v.top, item, item.(max := 0));
  }

  lemma {:induction false} RepeatRangeRead(v: View, item: Item, token: u32)
    requires Room(v.limit, |v.outer| + 2)
    ensures Next(With(v, item, InRepeatRange), token) ==
            if token == 0x7d then Some(With(v, item, InGroup))
            else if 0x30 <= token <= 0x39 then
              Some(With(v, item.(max := (item.max * 10 + (token - 0x30)) % 0x1_0000_0000_0000_0000), InRepeatRange))
            else None
  {
    if 0x30 <= token <= 0x39 {
      LastAgain(v.top, item, item.(max := (item.max * 10 + (token - 0x30)) % 0x1_0000_0000_0000_0000));
    }
  }

  /** In a set, a bracket ends it, and a dash behind a codepoint begins a range; an escape is for a dash only. */
  lemma {:induction false} SetTokens(v: View, ranges: seq<Range>, c: nat)
    requires Room(v.limit, |v.outer| + 2) && c <= 0x10ffff
    ensures c == 0x5d ==>
              Next(SetView(v, ranges), c)
              == Some(With(v, Item(Set(ranges, ChoicesList(ranges)), 1, 1, false), InGroup))
    ensures c == 0x2d && ranges != [] ==> Next(SetView(v, ranges), c) == Some(SetView(v, ranges).(mode := InRange))
    ensures c != 0x5d && (c == 0x2d ==> ranges == []) ==>
              Next(SetView(v, ranges), c) == Some(SetView(v, ranges + [Range(c, c)]))
    ensures Next(SetView(v, ranges), 0x4000_0000 + c)
         == if c == 0x2d then Some(SetView(v, ranges + [Range(c, c)])) else None
  {
    Number(c);
    LastKind(v.top, Item(Set(ranges, []), 1, 1, false), Set(ranges, ChoicesList(ranges)));
    LastKind(v.top, Item(Set(ranges, []), 1, 1, false), Set(ranges + [Range(c, c)], []));
  }

  /** The end of a range is any codepoint that is not before its start, but for a closing bracket. */
  lemma {:induction false} RangeTokens(v: View, ranges: seq<Range>, start: u32, token: u32)
    requires Room(v.limit, |v.outer| + 2)
    ensures Next(SetView(v, ranges + [Range(start, start)]).(mode := InRange), token)
         == if token == 0x5d || token < start then None else Some(SetView(v, ranges + [Range(start, token)]))
  {
    var first := ranges + [Range(start, start)];
    LastKind(v.top, Item(Set(first, []), 1, 1, false), Set(ranges + [Range(start, token)], []));
    assert first[..|first| - 1] == ranges;
  }

  /** The name of a special stands in braces; it ends with one that is not escaped. */
  lemma {:induction false} NameTokens(v: View, special: SpecialKind, name: seq<u32>, token: u32, c: nat)
    requires Room(v.limit, |v.outer| + 2) && c <= 0x10ffff
    ensures Next(NameView(v, special, name).(mode := InSpecial), token)
         == if token == 0x7b then Some(NameView(v, special, name)) else None
    ensures Next(NameView(v, special, name), c)
         == if c == 0x7d then Some(With(v, Item(Special(special, name), 1, 1, false), InGroup))
            else Some(NameView(v, special, name + [c]))
    ensures Next(NameView(v, special, name), 0x4000_0000 + c) == Some(NameView(v, special, name + [c]))
  {
    Number(c);
    LastKind(v.top, Item(Special(special, name), 1, 1, false), Special(special, name + [c]));
  }

  // ---------------------------------------------------------------------
  // Whole inputs
  // ---------------------------------------------------------------------

  /** A pattern of one segment. */
  function Single(items: seq<Item>): Group {
    Group([Segment(items, 1)], 1)
  }

  lemma {:induction false} ReadsOne(v: View, token: u32)
    ensures Reads(v, [token]) == Next(v, token)
  {
    assert [token][1..] == [];
    assert Next(v, token).Some? ==> Reads(Next(v, token).value, []) == Next(v, token);
  }

  lemma {:induction false} OneSegment(items: seq<Item>)
    requires items != [] ==> !items[|items| - 1].kind.Nested?
    ensures Whole(Cleaned(NEW.(items := items))) == Single(items)
  {
    assert NEW.done + [Segment(items, 1)] == [Segment(items, 1)];
  }

  /** With the low byte of the bar, such as U+017C, it makes two empty segments. */
  lemma {:induction false} BarParsed(c: nat)
    requires c <= 0x10ffff && c % 0x100 == 0x7c
    ensures Parse(0, [c]) == Some(Group([Segment([], 1), Segment([], 1)], 2))
  {
    var v := ParserSimple.Start(0);
    ParsesAlike(0, [c]);
    ReadsOne(v, c);
    BarNext(v, c);
    assert NEW.done + [Segment([], 1)] + [Segment([], 1)] == [Segment([], 1), Segment([], 1)];
  }

  /** The items of text that begins a pattern: it is cut into literals of seven codepoints. */
  function TextItems(cs: seq<u32>): seq<Item> {
    if cs == [] then [] else MoreText(TextItems(cs[..|cs| - 1]), cs[|cs| - 1])
  }

  /** The part of a text that literal i holds. */
  function Cut(cs: seq<u32>, i: nat): Item
    requires 7 * i <= |cs|
  {
    Item(Literal(cs[7 * i..Min(7 * i + 7, |cs|)], false), 1, 1, false)
  }

  /** The literals hold seven codepoints each, but for the last. */
  predicate IsCut(items: seq<Item>, cs: seq<u32>) {
    |items| == (|cs| + 6) / 7 && forall i :: 0 <= i < |items| ==> items[i] == Cut(cs, i)
  }

  lemma {:induction false} TextCut(cs: seq<u32>)
    ensures IsCut(TextItems(cs), cs)
    decreases |cs|
  {
    if cs != [] {
      var (front, c) := (cs[..|cs| - 1], cs[|cs| - 1]);
      TextCut(front);
      CutMore(TextItems(front), front, c);
      assert cs == front + [c] && TextItems(cs) == MoreText(TextItems(front), c);
    }
  }

  lemma {:induction false} CutMore(items: seq<Item>, front: seq<u32>, c: u32)
    requires IsCut(items, front)
    ensures IsCut(MoreText(items, c), front + [c])
  {
    var (n, r) := (|front| / 7, |front| % 7);
    if r == 0 {
      CutFull(items, front, c, n);
    } else {
      CutPart(items, front, c, n, r);
    }
    forall i | 0 <= i < n
      ensures Cut(front + [c], i) == Cut(front, i)
    {
      assert (front + [c])[7 * i..7 * i + 7] == front[7 * i..7 * i + 7];
    }
  }

  lemma {:induction false} CutFull(items: seq<Item>, front: seq<u32>, c: u32, n: nat)
    requires |front| == 7 * n && |items| == n && forall i :: 0 <= i < n ==> items[i] == Cut(front, i)
    ensures MoreText(items, c) == items + [Cut(front + [c], n)]
  {
    assert (front + [c])[7 * n..7 * n + 1] == [c];
    if n > 0 {
      assert items[n - 1] == Cut(front, n - 1) && |front[7 * (n - 1)..7 * n]| == 7;
    }
  }

  lemma {:induction false} CutPart(items: seq<Item>, front: seq<u32>, c: u32, n: nat, r: nat)
    requires |front| == 7 * n + r && 0 < r < 7 && |items| == n + 1
    requires forall i :: 0 <= i <= n ==> items[i] == Cut(front, i)
    ensures MoreText(items, c) == items[..n] + [Cut(front + [c], n)]
  {
    assert (front + [c])[7 * n..7 * n + r + 1] == front[7 * n..7 * n + r] + [c];
    assert items[n] == Cut(front, n);
  }

  /** All of them are text. */
  predicate Text(cs: seq<u32>) {
    forall i :: 0 <= i < |cs| ==> cs[i] <= 0x10ffff && !Active(cs[i])
  }

  /** Behind text that begins a pattern. */
  function TextView(limit: nat, cs: seq<u32>): View {
    View(limit, [], Partial([], TextItems(cs), 1, 1), InGroup)
  }

  lemma {:induction false} TextBetween(limit: nat, cs: seq<u32>)
    requires Room(limit, 1)
    ensures Between(TextView(limit, cs))
    ensures cs != [] ==>
              TextItems(cs) != [] && Last(TextView(limit, cs).top).kind.Literal?
              && Last(TextView(limit, cs).top).kind.codepoints != []
    ensures cs == [] ==> TextItems(cs) == []
  {
    TextCut(cs);
    if cs != [] {
      var n := |TextItems(cs)| - 1;
      assert TextItems(cs)[n] == Cut(cs, n);
    }
  }

  lemma {:induction false} TextRead(limit: nat, cs: seq<u32>)
    requires Room(limit, 1) && Text(cs)
    ensures Reads(ParserSimple.Start(limit), cs) == Some(TextView(limit, cs))
    decreases |cs|
  {
    if cs != [] {
      var (front, c) := (cs[..|cs| - 1], cs[|cs| - 1]);
      TextRead(limit, front);
      TextBetween(limit, front);
      TextNext(TextView(limit, front), c);
      ReadsAppend(ParserSimple.Start(limit), front, c);
      assert cs == front + [c];
    }
  }

  lemma {:induction false} ReadsAppend(v: View, a: seq<u32>, token: u32)
    requires Reads(v, a).Some?
    ensures Reads(v, a + [token]) == Next(Reads(v, a).value, token)
    decreases |a|
  {
    if a == [] {
      assert [] + [token] == [token];
      ReadsOne(v, token);
    } else {
      assert (a + [token])[1..] == a[1..] + [token];
      ReadsAppend(Next(v, a[0]).value, a[1..], token);
    }
  }

  /** Text without syntax in it is parsed to the literals that it is cut into. */
  lemma {:induction false} TextParsed(limit: nat, cs: seq<u32>)
    requires Room(limit, 1) && Text(cs)
    ensures Parse(limit, cs) == Some(Single(TextItems(cs)))
  {
    TextRead(limit, cs);
    TextBetween(limit, cs);
    ParsesAlike(limit, cs);
    OneSegment(TextItems(cs));
  }

  lemma {:induction false} ActiveParsed(v: View, c: nat)
    requires v == ParserSimple.Start(0) && c <= 0x10ffff && Active(c)
    ensures SimpleParse(0, [c]) != Some(Single([Item(Literal([c], false), 1, 1, false)]))
  {
    ReadsOne(v, c);
    if c % 0x100 == 0x7c {
      BarNext(v, c);
    } else if c % 0x100 == 0x29 {
      CloseRefused(v, c);
    } else if c % 0x100 == 0x28 || c % 0x100 == 0x5b {
      OpenNext(v, c);
    } else {
      PrefixNext(v, c);
    }
  }

  /** A codepoint on its own is parsed as text exactly if its low byte is not syntax, also above 0xff. */
  lemma {:induction false} CodepointParsed(c: nat)
    requires c <= 0x10ffff
    ensures Parse(0, [c]) == Some(Single([Item(Literal([c], false), 1, 1, false)])) <==> !Active(c)
  {
    if Active(c) {
      ParsesAlike(0, [c]);
      ActiveParsed(ParserSimple.Start(0), c);
    } else {
      TextParsed(0, [c]);
      TextCut([c]);
      assert [c][0..1] == [c];
      assert TextItems([c]) == [Item(Literal([c], false), 1, 1, false)];
    }
  }

  /** A brace or a question mark behind text is about its last codepoint alone. */
  lemma {:induction false} BehindText(v: View, c: u32, token: nat)
    requires Between(v) && token <= 0x10ffff
    requires v.top.items != [] && Last(v.top).kind.Literal? ==> Last(v.top).kind.codepoints != []
    ensures var v' := v.(top := v.top.(items := MoreText(v.top.items, c)));
            && (token % 0x100 == 0x7b ==>
                  Next(v', token) == Some(With(v, Item(Literal([c], true), 0, 0, false), InRepeat)))
            && (token % 0x100 == 0x3f ==>
                  Next(v', token) == Some(With(v, Item(Literal([c], true), 1, 1, true), InGroup)))
  {
    var v' := v.(top := v.top.(items := MoreText(v.top.items, c)));
    if Joins(v.top) {
      var n := |v.top.items| - 1;
      var (p, item, cs) := (v.top.(items := v.top.items[..n]), Last(v'.top), Last(v.top).kind.codepoints);
      LetterModified(v', p, item, cs, c, token);
      assert p.items + [item.(kind := Literal(cs, false))] == v.top.items;
    } else {
      ItemModified(v', v.top, Item(Literal([c], false), 1, 1, false), token);
    }
  }

  /** The number of the short form is both bounds. */
  lemma {:induction false} ShortRead(v: View, item: Item, n: u64)
    requires Room(v.limit, |v.outer| + 2)
    ensures Reads(With(v, Item(item.kind, 0, 0, item.maybe), InRepeat), Decimal(n) + [0x7d])
         == Some(With(v, Item(item.kind, n, n, item.maybe), InGroup))
  {
    var v0 := With(v, Item(item.kind, 0, 0, item.maybe), InRepeat);
    var v1 := With(v, Item(item.kind, n, 0, item.maybe), InRepeat);
    DigitsRead(v, item, n);
    ReadsAppend(v0, Decimal(n), 0x7d);
    RepeatRead(v, Item(item.kind, n, 0, item.maybe), 0x7d);
  }

  lemma {:induction false} DigitsRead(v: View, item: Item, n: u64)
    requires Room(v.limit, |v.outer| + 2)
    ensures Reads(With(v, Item(item.kind, 0, 0, item.maybe), InRepeat), Decimal(n))
         == Some(With(v, Item(item.kind, n, 0, item.maybe), InRepeat))
    decreases n
  {
    var v0 := With(v, Item(item.kind, 0, 0, item.maybe), InRepeat);
    var (front, m) := (if n < 10 then [] else Decimal(n / 10), if n < 10 then 0 else n / 10);
    if n >= 10 {
      DigitsRead(v, item, m);
    }
    ReadsAppend(v0, front, '0' as int + n % 10);
    RepeatRead(v, Item(item.kind, m, 0, item.maybe), '0' as int + n % 10);
    DigitValue(n);
  }

  /** Text of which the last codepoint is repeated n times. */
  lemma {:induction false} ShortParsed(limit: nat, front: seq<u32>, c: u32, n: u64)
    requires Room(limit, 2) && Text(front + [c])
    ensures Parse(limit, front + [c] + [0x7b] + (Decimal(n) + [0x7d]))
         == Some(Single(TextItems(front) + [Item(Literal([c], true), n, n, false)]))
  {
    var (start, v) := (ParserSimple.Start(limit), TextView(limit, front));
    var (cs, rest) := (front + [c], Decimal(n) + [0x7d]);
    var item := Item(Literal([c], true), 0, 0, false);
    LastText(limit, front, c, 0x7b);
    ReadsAppend(start, cs, 0x7b);
    ShortRead(v, item, n);
    ReadsBoth(start, cs + [0x7b], rest);
    ParsesAlike(limit, cs + [0x7b] + rest);
    OneSegment(TextItems(front) + [Item(Literal([c], true), n, n, false)]);
  }

  /** Text of which the last codepoint may be left out. */
  lemma {:induction false} MaybeParsed(limit: nat, front: seq<u32>, c: u32)
    requires Room(limit, 1) && Text(front + [c])
    ensures Parse(limit, front + [c] + [0x3f])
         == Some(Single(TextItems(front) + [Item(Literal([c], true), 1, 1, true)]))
  {
    LastText(limit, front, c, 0x3f);
    ReadsAppend(ParserSimple.Start(limit), front + [c], 0x3f);
    ParsesAlike(limit, front + [c] + [0x3f]);
    OneSegment(TextItems(front) + [Item(Literal([c], true), 1, 1, true)]);
  }

  lemma {:induction false} LastText(limit: nat, front: seq<u32>, c: u32, token: nat)
    requires Room(limit, 1) && Text(front + [c]) && token in {0x3f, 0x7b}
    ensures Reads(ParserSimple.Start(limit), front + [c]) == Some(TextView(limit, front + [c]))
    ensures Next(TextView(limit, front + [c]), token)
         == Some(if token == 0x7b
                 then With(TextView(limit, front), Item(Literal([c], true), 0, 0, false), InRepeat)
                 else With(TextView(limit, front), Item(Literal([c], true), 1, 1, true), InGroup))
  {
    TextRead(limit, front + [c]);
    TextBetween(limit, front);
    BehindText(TextView(limit, front), c, token);
    assert (front + [c])[..|front|] == front;
  }

  lemma {:induction false} ReadsBoth(v: View, a: seq<u32>, b: seq<u32>)
    requires Reads(v, a).Some?
    ensures Reads(v, a + b) == Reads(Reads(v, a).value, b)
    decreases |a|
  {
    if a == [] {
      assert a + b == b;
    } else {
      assert (a + b)[1..] == a[1..] + b;
      ReadsBoth(Next(v, a[0]).value, a[1..], b);
    }
  }
}
