// Everything that is parsed without a drift can be written down again.

module ParserWritten {
  import opened Words
  import opened Pattern
  import opened Parsing
  import opened ParserSums
  import opened ParserContent
  import opened ParserSimple
  import opened ParserPrint

  // ---------------------------------------------------------------------
  // What the parser makes, but for the sums
  // ---------------------------------------------------------------------

  ghost predicate NeatItem(item: Item)
    decreases item
  {
    match item.kind
    case Nested(group) => NeatGroup(group)
    case _ => PrintableItem(item)
  }

  ghost predicate NeatItems(items: seq<Item>)
    decreases items
  {
    Chunked(items) && forall i :: 0 <= i < |items| ==> NeatItem(items[i])
  }

  /** A closed group; it has items, unless it is marked for removal. */
  ghost predicate NeatGroup(g: Group)
    decreases g
  {
    && (g.sum != 0 ==> HasItems(g))
    && (forall k :: 0 <= k < |g.segments| ==> g.segments[k].multiplier > 0)
    && (forall k :: 0 <= k < |g.segments| ==> NeatItems(g.segments[k].items))
  }

  ghost predicate NeatSegments(segments: seq<Segment>) {
    && (forall k :: 0 <= k < |segments| ==> segments[k].multiplier > 0)
    && (forall k :: 0 <= k < |segments| ==> NeatItems(segments[k].items))
  }

  /** All items but the last are finished. */
  ghost predicate NeatButLast(items: seq<Item>) {
    items != [] && NeatItems(items[..|items| - 1])
  }

  ghost predicate NeatLast(item: Item, mode: Mode) {
    match mode
    case InSet(_) => item.kind.Set? && forall i :: 0 <= i < |item.kind.ranges| ==> PrintableRange(item.kind.ranges[i])
    case InRange => item.kind.Set? && forall i :: 0 <= i < |item.kind.ranges| ==> PrintableRange(item.kind.ranges[i])
    case InRepeat => NeatItem(item) && !IsText(item)
    case InRepeatRange => NeatItem(item) && !IsText(item)
    case InSpecial => item.kind.Special? && forall i :: 0 <= i < |item.kind.name| ==> !IsEscaped(item.kind.name[i])
    case InName => item.kind.Special? && forall i :: 0 <= i < |item.kind.name| ==> !IsEscaped(item.kind.name[i])
    case _ => true
  }

  ghost predicate NeatTop(p: Partial, mode: Mode) {
    && NeatSegments(p.done)
    && if mode.InGroup? || mode.InMultiplier? then NeatItems(p.items)
       else NeatButLast(p.items) && NeatLast(Last(p), mode)
  }

  ghost predicate NeatOuter(p: Partial) {
    NeatSegments(p.done) && NeatButLast(p.items) && Last(p).kind.Nested?
  }

  ghost predicate NeatView(v: View) {
    NeatTop(v.top, v.mode) && forall k :: 0 <= k < |v.outer| ==> NeatOuter(v.outer[k])
  }

  // ---------------------------------------------------------------------
  // Changes of an open group
  // ---------------------------------------------------------------------

  lemma {:induction false} FrontNeat(items: seq<Item>)
    requires NeatItems(items) && items != []
    ensures NeatButLast(items) && NeatItem(items[|items| - 1])
  {
  }

  lemma {:induction false} AppendNeat(items: seq<Item>, item: Item)
    requires NeatItems(items) && NeatItem(item)
    requires items != [] && IsText(items[|items| - 1]) && IsText(item) ==> |items[|items| - 1].kind.codepoints| == 7
    ensures NeatItems(items + [item])
  {
  }

  lemma {:induction false} AddedNeat(p: Partial, kind: Kind)
    requires NeatItems(p.items)
    ensures NeatButLast(Added(p, kind).items) && Last(Added(p, kind)) == Item(kind, 1, 1, false)
  {
    assert Added(p, kind).items[..|p.items|] == p.items;
  }

  lemma {:induction false} LastNeat(p: Partial, item: Item)
    requires NeatButLast(p.items)
    ensures NeatButLast(WithLast(p, item).items) && Last(WithLast(p, item)) == item
    ensures NeatItem(item) && !IsText(item) ==> NeatItems(WithLast(p, item).items)
  {
    var front := p.items[..|p.items| - 1];
    assert WithLast(p, item).items[..|front|] == front;
    if NeatItem(item) && !IsText(item) {
      AppendNeat(front, item);
    }
  }

  lemma {:induction false} CleanedNeat(p: Partial)
    requires NeatItems(p.items)
    ensures NeatItems(Cleaned(p).items)
  {
    if p.items != [] {
      FrontNeat(p.items);
    }
  }

  lemma {:induction false} TextNeat(p: Partial, c: u32)
    requires NeatItems(p.items) && Readable(c)
    ensures NeatItems(WithText(p, c).items)
  {
    var item := Item(Literal([c], false), 1, 1, false);
    if Joins(p) {
      FrontNeat(p.items);
      var longer := Last(p).(kind := Literal(Last(p).kind.codepoints + [c], false));
      assert NeatItem(longer);
      AppendNeat(p.items[..|p.items| - 1], longer);
    } else {
      AppendNeat(p.items, item);
    }
  }

  lemma {:induction false} SplitNeat(p: Partial)
    requires NeatItems(p.items) && p.items != []
    ensures NeatButLast(Split(p).items) && NeatItem(Last(Split(p))) && !IsText(Last(Split(p)))
  {
    FrontNeat(p.items);
    var kind := Last(p).kind;
    if kind.Literal? {
      var n := |kind.codepoints| - 1;
      if n >= 1 {
        var shorter := Last(p).(kind := kind.(codepoints := kind.codepoints[..n]));
        AppendNeat(p.items[..|p.items| - 1], shorter);
        AddedNeat(WithLast(p, shorter), Literal([kind.codepoints[n]], true));
      } else {
        LastNeat(p, Last(p).(kind := kind.(tainted := true)));
      }
    }
  }

  // ---------------------------------------------------------------------
  // Tokens
  // ---------------------------------------------------------------------

  ghost predicate NextNeat(next: Option<View>) {
    next.Some? ==> NeatView(next.value)
  }

  lemma {:induction false} ClosingNeat(v: View)
    requires NeatView(v) && v.mode.InGroup?
    ensures NextNeat(ClosingNext(v))
  {
    var n := |v.outer| - 1;
    if n >= 0 {
      var group := ClosedGroup(v.top);
      assert NeatGroup(group);
      var item := Last(v.outer[n]).(kind := Nested(group));
      assert NeatOuter(v.outer[n]) && NeatItem(item);
      LastNeat(v.outer[n], item);
    }
  }

  lemma {:induction false} PipeNeat(p: Partial)
    requires NeatTop(p, InGroup)
    ensures NeatTop(NextSegment(p), InGroup)
  {
    assert NeatItems([]);
  }

  lemma {:induction false} ModifierNeat(v: View)
    requires NeatView(v) && v.mode.InGroup?
    ensures NeatView(BraceNext(v)) && NextNeat(QuestionNext(v))
  {
    var p := v.top;
    if p.items != [] {
      SplitNeat(p);
      var q := Split(p);
      assert NeatSegments(q.done);
      LastNeat(q, Last(q).(min := 0, max := 0));
      LastNeat(q, Last(q).(maybe := true));
      ModifiedNeat(Last(q));
    }
  }

  /** The bounds of what is not text, and whether it may be left out, do not matter. */
  lemma {:induction false} ModifiedNeat(item: Item)
    requires NeatItem(item) && !IsText(item)
    ensures forall min, max, maybe ::
              var item' := Item(item.kind, min, max, maybe); NeatItem(item') && !IsText(item')
  {
  }

  lemma {:induction false} OpeningNeat(v: View)
    requires NeatView(v) && v.mode.InGroup?
    ensures NeatView(v.(outer := v.outer + [Added(v.top, Nested(Group([], 0)))], top := NEW))
    ensures NeatView(v.(top := Added(v.top, Set([], [])), mode := InSet(false)))
  {
    AddedNeat(v.top, Nested(Group([], 0)));
    AddedNeat(v.top, Set([], []));
    assert NeatOuter(Added(v.top, Nested(Group([], 0))));
    assert NeatTop(NEW, InGroup);
  }

  lemma {:induction false} EscapedNeat(v: View, token: u32)
    requires NeatView(v) && v.mode.InGroup? && IsEscaped(token)
    ensures NextNeat(EscapedNext(v, Unescaped(token)))
  {
    var c := Unescaped(token);
    if Syntax(Low(c)) {
      assert Readable(c);
      TextNeat(v.top, c);
    } else {
      AddedNeat(v.top, Special(SpecialOf(Low(c)), []));
    }
  }

  lemma {:induction false} GroupNeat(v: View, token: u32)
    requires NeatView(v) && v.mode.InGroup?
    ensures NextNeat(GroupNext(v, token))
  {
    var c := Low(token);
    if IsEscaped(token) {
      EscapedNeat(v, token);
    } else if c == '|' as int {
      PipeNeat(v.top);
    } else if c == ')' as int {
      ClosingNeat(v);
    } else if c == '(' as int || c == '[' as int {
      OpeningNeat(v);
    } else if c == '{' as int || c == '?' as int {
      ModifierNeat(v);
    } else {
      TextNeat(v.top, token);
    }
  }

  lemma {:induction false} RepeatNeat(v: View, token: u32)
    requires NeatView(v) && v.mode.InRepeat?
    ensures NextNeat(RepeatNext(v, token))
  {
    var item := Last(v.top);
    ModifiedNeat(item);
    LastNeat(v.top, item.(max := item.min));
    LastNeat(v.top, item.(max := 0));
    if IsDigit(token) {
      LastNeat(v.top, item.(min := Digit(item.min, token)));
    }
  }

  lemma {:induction false} RepeatRangeNeat(v: View, token: u32)
    requires NeatView(v) && v.mode.InRepeatRange?
    ensures NextNeat(RepeatRangeNext(v, token))
  {
    var item := Last(v.top);
    ModifiedNeat(item);
    LastNeat(v.top, item);
    assert WithLast(v.top, item).items == v.top.items;
    if IsDigit(token) {
      LastNeat(v.top, item.(max := Digit(item.max, token)));
    }
  }

  lemma {:induction false} SetNeat(v: View, token: u32)
    requires NeatView(v) && v.mode.InSet?
    ensures NextNeat(SetNext(v, token))
  {
    var ranges := Last(v.top).kind.ranges;
    var c := Unescaped(token);
    LastNeat(v.top, Last(v.top).(kind := Set(ranges, ChoicesList(ranges))));
    LastNeat(v.top, Last(v.top).(kind := Set(ranges + [Range(c, c)], [])));
  }

  lemma {:induction false} RangeNeat(v: View, token: u32)
    requires NeatView(v) && v.mode.InRange?
    ensures NextNeat(RangeNext(v, token))
  {
    var ranges := Last(v.top).kind.ranges;
    var n := |ranges| - 1;
    if n >= 0 {
      LastNeat(v.top, Last(v.top).(kind := Set(ranges[..n] + [Range(ranges[n].start, token)], [])));
    }
  }

  lemma {:induction false} NameNeat(v: View, token: u32)
    requires NeatView(v) && v.mode.InName?
    ensures NextNeat(NameNext(v, token))
  {
    var item := Last(v.top);
    LastNeat(v.top, item);
    assert WithLast(v.top, item).items == v.top.items;
    LastNeat(v.top, item.(kind := item.kind.(name := item.kind.name + [Unescaped(token)])));
  }

  lemma {:induction false} StepNeat(v: View, token: u32)
    requires NeatView(v)
    ensures NextNeat(Next(v, token))
  {
    match v.mode
    case InGroup =>
      CleanedNeat(v.top);
      GroupNeat(v.(top := Cleaned(v.top)), token);
    case InMultiplier =>
    case InSet(_) => SetNeat(v, token);
    case InRange => RangeNeat(v, token);
    case InRepeat => RepeatNeat(v, token);
    case InRepeatRange => RepeatRangeNeat(v, token);
    case InSpecial =>
    case InName => NameNeat(v, token);
  }

  lemma {:induction false} ReadsNeat(v: View, tokens: seq<u32>)
    requires NeatView(v)
    ensures NextNeat(Reads(v, tokens))
    decreases |tokens|
  {
    if tokens != [] {
      StepNeat(v, tokens[0]);
      if Next(v, tokens[0]).Some? {
        ReadsNeat(Next(v, tokens[0]).value, tokens[1..]);
      }
    }
  }

  // ---------------------------------------------------------------------
  // Patterns
  // ---------------------------------------------------------------------

  lemma {:induction false} NeatPrintable(g: Group)
    requires NeatGroup(g) && CompleteGroup(g, true) && g.sum != 0
    ensures Printable(g) && Closable(g)
    decreases g
  {
    forall k | 0 <= k < |g.segments|
      ensures PrintableItems(g.segments[k].items)
    {
      ItemsPrintable(g.segments[k].items);
    }
  }

  lemma {:induction false} ItemsPrintable(items: seq<Item>)
    requires NeatItems(items) && Done(items, true)
    ensures PrintableItems(items)
    decreases items
  {
    forall i | 0 <= i < |items|
      ensures PrintableItem(items[i])
    {
      ItemPrintable(items[i]);
    }
  }

  lemma {:induction false} ItemPrintable(item: Item)
    requires NeatItem(item) && Kept(item) && Complete(item, true)
    ensures PrintableItem(item)
    decreases item
  {
    if item.kind.Nested? {
      NeatPrintable(item.kind.group);
    }
  }

  /** Every pattern that a run without a drift is parsed to can be written down. */
  lemma {:induction false} ParsedPrintable(limit: nat, tokens: seq<u32>)
    requires Parse(limit, tokens).Some? && Regular(Initial(limit), tokens)
    ensures Printable(Parse(limit, tokens).value)
  {
    var g := Parse(limit, tokens).value;
    ParsesAlike(limit, tokens);
    assert NeatView(ParserSimple.Start(limit));
    ReadsNeat(ParserSimple.Start(limit), tokens);
    var p := Reads(ParserSimple.Start(limit), tokens).value.top;
    CleanedNeat(p);
    ParsedContent(limit, tokens, true);
    forall k | 0 <= k < |g.segments|
      ensures PrintableItems(g.segments[k].items)
    {
      ItemsPrintable(g.segments[k].items);
    }
  }

  /** The patterns that inputs are parsed to without a drift are exactly those that can be written down. */
  lemma {:induction false} ParsedExact(g: Group)
    ensures (exists tokens :: Parse(0, tokens) == Some(g) && Regular(Initial(0), tokens)) <==> Printable(g)
    ensures Printable(g) ==> Parse(0, Print(g)) == Some(g) && Regular(Initial(0), Print(g))
  {
    forall tokens | Parse(0, tokens) == Some(g) && Regular(Initial(0), tokens)
      ensures Printable(g)
    {
      ParsedPrintable(0, tokens);
    }
    if Printable(g) {
      RoundTrip(0, g);
    }
  }
}
