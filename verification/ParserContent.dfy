// What the parser builds: every finished item is complete, and which of the patterns are fit for generation.

module ParserContent {
  import opened Words
  import opened Pattern
  import opened Parsing
  import opened ParserSpine
  import opened ParserSums

  /** An item that the parser is done with; in a regular run the sums of its groups are right. */
  ghost predicate Complete(item: Item, regular: bool)
    decreases item
  {
    match item.kind
    case Set(ranges, choices) => Ascending(ranges) && choices == ChoicesList(ranges)
    case Literal(codepoints, tainted) =>
      && 0 < |codepoints| < 8
      && (tainted || item.min != 1 || item.max != 1 || item.maybe ==> tainted && |codepoints| == 1)
    case Special(_, _) => true
    case Nested(group) => CompleteGroup(group, regular)
  }

  ghost predicate CompleteGroup(g: Group, regular: bool)
    decreases g
  {
    && (forall k :: 0 <= k < |g.segments| ==> Done(g.segments[k].items, regular))
    && (regular ==> g.sum == 0 || g.sum == Wrap(Multipliers(g.segments, |g.segments|)))
  }

  ghost predicate Done(items: seq<Item>, regular: bool)
    decreases items
  {
    forall i :: 0 <= i < |items| ==> Kept(items[i]) && Complete(items[i], regular)
  }

  /** Not a group that is to be removed. */
  predicate Kept(item: Item) {
    item.kind.Nested? ==> item.kind.group.sum != 0
  }

  /** All but the last item of a level are done. */
  ghost predicate LevelDone(l: Level, regular: bool) {
    && (forall k :: 0 <= k < |l.group.segments| - 1 ==> Done(l.group.segments[k].items, regular))
    && (HasItem(l) ==> Done(Current(l).items[..|Current(l).items| - 1], regular))
  }

  /** And so far, so is the last. */
  ghost predicate LastDone(l: Level, frame: Frame, regular: bool) {
    HasItem(l) ==>
      match frame
      case GroupFrame(_, _) => Complete(LastItem(l), regular)
      case MultiplierFrame(_, _) => Complete(LastItem(l), regular)
      case SetFrame(_, _) => LastItem(l).kind.Set? && Ascending(LastItem(l).kind.ranges)
      case SetRangeFrame(_, _) => LastItem(l).kind.Set? && Ascending(LastItem(l).kind.ranges)
      case RepeatFrame(_) => Repeatable(LastItem(l), regular)
      case RepeatRangeFrame(_) => Repeatable(LastItem(l), regular)
      case SpecialFrame(_) => LastItem(l).kind.Special?
      case SpecialNameFrame(_) => LastItem(l).kind.Special?
  }

  /** An item that repetitions and a question mark can be attached to. */
  ghost predicate Repeatable(item: Item, regular: bool) {
    && Kept(item) && Complete(item, regular)
    && (item.kind.Literal? ==> item.kind.tainted && |item.kind.codepoints| == 1)
  }

  ghost predicate Content(s: State, regular: bool) {
    && s.frames != [] && s.levels != []
    && (forall k :: 0 <= k < |s.levels| ==> LevelDone(s.levels[k], regular))
    && LastDone(TopLevel(s), TopFrame(s), regular)
  }

  /** A level of which every item is done. */
  ghost predicate AllDone(l: Level, regular: bool) {
    forall k :: 0 <= k < |l.group.segments| ==> Done(l.group.segments[k].items, regular)
  }

  // ---------------------------------------------------------------------
  // Changes at the end of a level
  // ---------------------------------------------------------------------

  lemma PutItemDone(l: Level, item: Item, ranges: seq<nat>, regular: bool)
    requires HasItem(l) && LevelDone(l, regular)
    ensures var l' := PutItem(l, item).(ranges := ranges);
            LevelDone(l', regular) && HasItem(l') && LastItem(l') == item
  {
    var l' := PutItem(l, item);
    assert Current(l').items[..|Current(l').items| - 1] == Current(l).items[..|Current(l).items| - 1];
  }

  lemma AppendItemDone(l: Level, kind: Kind, next: nat, regular: bool)
    requires l.group.segments != [] && AllDone(l, regular)
    ensures var l' := AppendItem(l, kind, next);
            LevelDone(l', regular) && HasItem(l') && LastItem(l') == Item(kind, 1, 1, false)
  {
    var l' := AppendItem(l, kind, next);
    assert Current(l').items[..|Current(l').items| - 1] == Current(l).items;
    assert Done(l.group.segments[|l.group.segments| - 1].items, regular);
  }

  lemma CleanDone(l: Level, next: nat, regular: bool)
    requires l.group.segments != [] && LevelDone(l, regular) && (HasItem(l) ==> Complete(LastItem(l), regular))
    ensures AllDone(Clean(l, next), regular)
  {
    var l' := Clean(l, next);
    forall k | 0 <= k < |l'.group.segments|
      ensures Done(l'.group.segments[k].items, regular)
    {
      if k < |l.group.segments| - 1 {
        assert Done(l.group.segments[k].items, regular);
      } else if HasItem(l) {
        var items := Current(l).items;
        assert items == items[..|items| - 1] + [items[|items| - 1]];
      }
    }
  }

  lemma TaintDone(l: Level, next: nat, regular: bool)
    requires HasItem(l) && AllDone(l, regular)
    ensures var l' := Taint(l, next); LevelDone(l', regular) && HasItem(l') && Repeatable(LastItem(l'), regular)
  {
    LastOfDone(l, regular);
    var item := LastItem(l);
    if item.kind.Literal? {
      var cs := item.kind.codepoints;
      PutItemDone(l, item.(kind := Literal(cs, true)), l.ranges, regular);
      if |cs| > 1 {
        var shorter := item.(kind := Literal(cs[..|cs| - 1], item.kind.tainted));
        PutItemDone(l, shorter, l.ranges, regular);
        LevelAllDone(PutItem(l, shorter), regular);
        AppendItemDone(PutItem(l, shorter), Literal([cs[|cs| - 1]], true), next, regular);
      }
    }
  }

  lemma LastOfDone(l: Level, regular: bool)
    requires HasItem(l) && AllDone(l, regular)
    ensures LevelDone(l, regular) && Kept(LastItem(l)) && Complete(LastItem(l), regular)
  {
    assert Done(l.group.segments[|l.group.segments| - 1].items, regular);
  }

  lemma LevelAllDone(l: Level, regular: bool)
    requires HasItem(l) && LevelDone(l, regular) && Kept(LastItem(l)) && Complete(LastItem(l), regular)
    ensures AllDone(l, regular)
  {
    var items := Current(l).items;
    assert items == items[..|items| - 1] + [items[|items| - 1]];
  }

  lemma TextDone(l: Level, codepoint: u32, next: nat, regular: bool)
    requires l.group.segments != [] && AllDone(l, regular)
    ensures var l' := Text(l, codepoint, next); LevelDone(l', regular) && HasItem(l') && Complete(LastItem(l'), regular)
  {
    AppendItemDone(l, Literal([codepoint], false), next, regular);
    if HasItem(l) {
      LastOfDone(l, regular);
      if LastItem(l).kind.Literal? {
        var longer := Literal(LastItem(l).kind.codepoints + [codepoint], false);
        PutItemDone(l, LastItem(l).(kind := longer), l.ranges, regular);
      }
    }
  }

  lemma SegmentsDone(l: Level, next: nat, regular: bool)
    requires AllDone(l, regular)
    ensures AllDone(AppendSegment(l, next), regular) && AllDone(DropSegment(l, next), regular)
    ensures AllDone(PutSegment(l, Segment([], 1)).(items := []), regular)
    ensures AllDone(Prefixed(l), regular)
    ensures LevelDone(AppendSegment(l, next), regular) && !HasItem(AppendSegment(l, next))
  {
    if l.group.segments != [] {
      assert Done(l.group.segments[|l.group.segments| - 1].items, regular);
    }
  }

  // ---------------------------------------------------------------------
  // Actions
  // ---------------------------------------------------------------------

  ghost predicate Settles(frame: Frame, action: Action, regular: bool) {
    match action
    case Reject(_) => true
    case Stay(l) => LevelDone(l, regular) && LastDone(l, frame, regular)
    case Become(l, frame') => LevelDone(l, regular) && LastDone(l, frame', regular)
    case Push(l, frame') => LevelDone(l, regular) && LastDone(l, frame', regular)
    case Pop(l) => LevelDone(l, regular) && (HasItem(l) ==> Complete(LastItem(l), regular))
    case Open(l, inner) => LevelDone(l, regular) && LevelDone(inner, regular) && !HasItem(inner)
    case Close(group) => CompleteGroup(group, regular)
  }

  lemma AllDoneLevel(l: Level, regular: bool)
    requires AllDone(l, regular)
    ensures LevelDone(l, regular) && (HasItem(l) ==> Complete(LastItem(l), regular))
  {
    if HasItem(l) {
      LastOfDone(l, regular);
    }
  }

  lemma PipeSettles(l: Level, frame: Frame, next: nat, regular: bool)
    requires l.group.segments != [] && frame.GroupFrame? && AllDone(l, regular)
    ensures Settles(frame, Pipe(l, frame, next), regular)
  {
    SegmentsDone(l, next + 1, regular);
    AllDoneLevel(PutSegment(l, Segment([], 1)).(items := []), regular);
  }

  lemma OpenSettles(l: Level, frame: Frame, next: nat, regular: bool)
    requires l.group.segments != [] && frame.GroupFrame? && AllDone(l, regular)
    ensures Settles(frame, Opening(l, next), regular)
  {
    AppendItemDone(l, Nested(Group([], 0)), next + 1, regular);
    SegmentsDone(Level(Group([], 0), [], [], []), next + 2, regular);
  }

  lemma BraceSettles(l: Level, frame: Frame, address: Address, next: nat, regular: bool)
    requires l.group.segments != [] && frame.GroupFrame? && AllDone(l, regular)
    ensures Settles(frame, Brace(l, frame, address, next), regular)
    ensures Settles(frame, Question(l, next), regular)
  {
    if HasItem(l) {
      ModifierSettles(l, next + 1, regular);
    } else {
      SegmentsDone(l, next, regular);
      AllDoneLevel(Prefixed(l), regular);
    }
  }

  lemma GroupTokenSettles(l: Level, frame: Frame, address: Address, depth: nat, token: u32, next: nat, regular: bool)
    requires InGroup(l, frame, address) && LevelDone(l, regular) && LastDone(l, frame, regular)
    requires regular ==> Balanced(l, 0, 0)
    ensures Settles(frame, GroupToken(l, frame, address, depth, token, next), regular)
  {
    var l' := Clean(l, next);
    CleanKeeps(l, next);
    CleanDone(l, next, regular);
    AllDoneLevel(l', regular);
    var c := Low(token);
    if IsEscaped(token) {
      EscapedSettles(l', frame, Unescaped(token), next, regular);
    } else if c == '|' as int {
      PipeSettles(l', frame, next, regular);
    } else if c == ')' as int {
      if depth > 1 {
        CloseSettles(l, frame, address, depth, token, next, regular);
      }
    } else if c == '(' as int {
      OpenSettles(l', frame, next, regular);
    } else if c == '[' as int {
      AppendItemDone(l', Set([], []), next + 1, regular);
    } else if c == '{' as int || c == '?' as int {
      BraceSettles(l', frame, address, next, regular);
    } else {
      TextDone(l', token, next + 1, regular);
    }
  }

  lemma EscapedSettles(l: Level, frame: Frame, codepoint: u32, next: nat, regular: bool)
    requires l.group.segments != [] && frame.GroupFrame? && AllDone(l, regular)
    ensures Settles(frame, EscapedToken(l, codepoint, next), regular)
  {
    TextDone(l, codepoint, next + 1, regular);
    AppendItemDone(l, Special(SpecialOf(Low(codepoint)), []), next + 1, regular);
  }

  lemma ModifierSettles(l: Level, next: nat, regular: bool)
    requires HasItem(l) && AllDone(l, regular)
    ensures HasItem(Taint(l, next))
    ensures var t := Taint(l, next);
            var l' := PutItem(t, LastItem(t).(min := 0, max := 0));
            LevelDone(l', regular) && HasItem(l') && Repeatable(LastItem(l'), regular)
    ensures var t := Taint(l, next);
            var l' := PutItem(t, LastItem(t).(maybe := true));
            LevelDone(l', regular) && HasItem(l') && Complete(LastItem(l'), regular)
  {
    TaintDone(l, next, regular);
    var t := Taint(l, next);
    PutItemDone(t, LastItem(t).(min := 0, max := 0), t.ranges, regular);
    PutItemDone(t, LastItem(t).(maybe := true), t.ranges, regular);
  }

  lemma CloseSettles(l: Level, frame: Frame, address: Address, depth: nat, token: u32, next: nat, regular: bool)
    requires InGroup(l, frame, address) && AllDone(Clean(l, next), regular) && (regular ==> Balanced(l, 0, 0))
    requires !IsEscaped(token) && Low(token) == ')' as int && depth > 1
    ensures Settles(frame, GroupToken(l, frame, address, depth, token, next), regular)
  {
    SegmentsDone(Clean(l, next), next + 1, regular);
    if regular {
      ClosedSum(l, frame, address, depth, token, next, 0);
    }
  }

  lemma ItemTokenSettles(l: Level, item: Item, ranges: seq<nat>, frame: Frame, regular: bool)
    requires HasItem(l) && LevelDone(l, regular)
    requires match frame
             case RepeatFrame(_) => Repeatable(item, regular)
             case RepeatRangeFrame(_) => Repeatable(item, regular)
             case SetFrame(_, _) => item.kind.Set? && Ascending(item.kind.ranges)
             case SpecialNameFrame(_) => item.kind.Special?
             case GroupFrame(_, _) => Complete(item, regular)
             case _ => false
    ensures var l' := PutItem(l, item).(ranges := ranges); LevelDone(l', regular) && LastDone(l', frame, regular)
    ensures frame.GroupFrame? ==> HasItem(PutItem(l, item)) && Complete(LastItem(PutItem(l, item)), regular)
  {
    PutItemDone(l, item, ranges, regular);
  }

  lemma SetTokenSettles(l: Level, frame: Frame, token: u32, next: nat, regular: bool)
    requires frame.SetFrame? && RefersSet(frame.target, frame.range, l)
    requires LevelDone(l, regular) && LastDone(l, frame, regular)
    ensures Settles(frame, SetToken(l, frame, token, next), regular)
  {
    var ranges := LastItem(l).kind.ranges;
    var more := ranges + [Range(Unescaped(token), Unescaped(token))];
    PutItemDone(l, LastItem(l).(kind := Set(ranges, ChoicesList(ranges))), l.ranges, regular);
    ItemTokenSettles(l, LastItem(l).(kind := Set(more, [])), Grown(l.ranges, |ranges|, next), frame, regular);
  }

  lemma SetRangeTokenSettles(l: Level, frame: Frame, token: u32, regular: bool)
    requires frame.SetRangeFrame? && frame.range.Some? && RefersSet(frame.target, frame.range, l)
    requires LevelDone(l, regular) && LastDone(l, frame, regular)
    ensures Settles(frame, SetRangeToken(l, frame, token), regular)
  {
    var ranges := LastItem(l).kind.ranges;
    var wider := ranges[|ranges| - 1 := ranges[|ranges| - 1].(end := token)];
    PutItemDone(l, LastItem(l).(kind := Set(wider, [])), l.ranges, regular);
  }

  lemma RepeatTokenSettles(l: Level, frame: Frame, token: u32, regular: bool)
    requires (frame.RepeatFrame? || frame.RepeatRangeFrame?) && HasItem(l)
    requires LevelDone(l, regular) && LastDone(l, frame, regular)
    ensures frame.RepeatFrame? ==> Settles(frame, RepeatToken(l, frame, token), regular)
    ensures frame.RepeatRangeFrame? ==> Settles(frame, RepeatRangeToken(l, token), regular)
  {
    var item := LastItem(l);
    PutItemDone(l, item.(max := item.min), l.ranges, regular);
    PutItemDone(l, item.(max := 0), l.ranges, regular);
    if IsDigit(token) {
      PutItemDone(l, item.(min := Digit(item.min, token)), l.ranges, regular);
      PutItemDone(l, item.(max := Digit(item.max, token)), l.ranges, regular);
    }
  }

  lemma SpecialTokenSettles(l: Level, frame: Frame, token: u32, regular: bool)
    requires (frame.SpecialFrame? || frame.SpecialNameFrame?) && HasItem(l) && LastItem(l).kind.Special?
    requires LevelDone(l, regular)
    ensures frame.SpecialFrame? ==> Settles(frame, SpecialToken(l, frame, token), regular)
    ensures frame.SpecialNameFrame? ==> Settles(frame, SpecialNameToken(l, token), regular)
  {
    var kind := LastItem(l).kind;
    PutItemDone(l, LastItem(l).(kind := kind.(name := kind.name + [Unescaped(token)])), l.ranges, regular);
  }

  lemma MultiplierTokenSettles(l: Level, frame: Frame, token: u32, regular: bool)
    requires frame.MultiplierFrame? && l.group.segments != [] && !HasItem(l) && LevelDone(l, regular)
    ensures Settles(frame, MultiplierToken(l, token), regular)
  {
  }

  lemma ActionSettles(s: State, token: u32, regular: bool)
    requires Spine(s) && Content(s, regular)
    requires regular && TopFrame(s).GroupFrame? ==> Balanced(TopLevel(s), 0, 0)
    ensures Refers(TopFrame(s), TopLevel(s), TopAddress(s))
    ensures Settles(TopFrame(s), ActionOf(s, token), regular)
  {
    TopFacts(s);
    var (l, frame) := (TopLevel(s), TopFrame(s));
    match frame
    case GroupFrame(_, _) => GroupTokenSettles(l, frame, TopAddress(s), |s.frames|, token, s.next, regular);
    case MultiplierFrame(_, _) => MultiplierTokenSettles(l, frame, token, regular);
    case SetFrame(_, _) => SetTokenSettles(l, frame, token, s.next, regular);
    case SetRangeFrame(_, _) => SetRangeTokenSettles(l, frame, token, regular);
    case RepeatFrame(_) => RepeatTokenSettles(l, frame, token, regular);
    case RepeatRangeFrame(_) => RepeatTokenSettles(l, frame, token, regular);
    case SpecialFrame(_) => SpecialTokenSettles(l, frame, token, regular);
    case SpecialNameFrame(_) => SpecialTokenSettles(l, frame, token, regular);
  }

  lemma ApplySettles(s: State, action: Action, regular: bool)
    requires Spine(s) && Content(s, regular) && !action.Reject? && Settles(TopFrame(s), action, regular)
    requires Sound(TopLevel(s), TopFrame(s), TopAddress(s), |s.frames|, action)
    ensures Content(Apply(s, action), regular)
  {
    TopFacts(s);
    ApplySound(s, action);
    TopFacts(Apply(s, action));
    if action.Close? {
      CloseDone(s, action.group, regular);
    }
  }

  /** A group that is closed is a complete item of the level below. */
  lemma CloseDone(s: State, group: Group, regular: bool)
    requires Spine(s) && |s.levels| > 1 && |s.frames| == |s.levels| && Content(s, regular)
    requires CompleteGroup(group, regular) && Spine(Apply(s, Close(group)))
    ensures Content(Apply(s, Close(group)), regular)
  {
    TopFacts(Apply(s, Close(group)));
    var top := |s.levels| - 2;
    assert Nests(s, top);
    PutItemDone(s.levels[top], LastItem(s.levels[top]).(kind := Nested(group)), s.levels[top].ranges, regular);
  }

  // ---------------------------------------------------------------------
  // Runs
  // ---------------------------------------------------------------------

  lemma StepContent(s: State, drifts: seq<int>, token: u32, regular: bool)
    requires Spine(s) && Content(s, regular) && Step(s, token).0 == Accepted
    requires regular ==> Balance(s, drifts) && NoDrift(drifts)
    ensures Content(Step(s, token).1, regular)
  {
    if regular {
      assert Balanced(TopLevel(s), drifts[|s.levels| - 1], Pending(s, |s.levels| - 1));
    }
    ActionSound(s, token);
    ActionSettles(s, token, regular);
    ApplySettles(s, ActionOf(s, token), regular);
  }

  lemma {:induction false} RunContent(s: State, drifts: seq<int>, tokens: seq<u32>, regular: bool)
    requires Spine(s) && Content(s, regular) && Run(s, tokens).0 == Accepted
    requires Balance(s, drifts) && (regular ==> Regular(s, tokens) && NoDrift(drifts))
    ensures Content(Run(s, tokens).1, regular)
    decreases |tokens|
  {
    if tokens != [] {
      StepContent(s, drifts, tokens[0], regular);
      StepBalance(s, drifts, tokens[0]);
      if regular {
        RegularStep(s, drifts, tokens);
      }
      RunContent(Step(s, tokens[0]).1, Drifted(s, drifts, tokens[0]), tokens[1..], regular);
    }
  }

  lemma RegularStep(s: State, drifts: seq<int>, tokens: seq<u32>)
    requires tokens != [] && Regular(s, tokens) && NoDrift(drifts)
    ensures Regular(Step(s, tokens[0]).1, tokens[1..]) && NoDrift(Drifted(s, drifts, tokens[0]))
  {
  }

  /** Whether the whole input is accepted, and the pattern that it is parsed to. */
  function Parse(limit: nat, tokens: seq<u32>): Option<Group> {
    var (code, s) := Run(Initial(limit), tokens);
    if code != Accepted then None
    else
      var (end, t) := Finish(s);
      if end == Accepted && t.levels != [] then Some(t.levels[0].group) else None
  }

  /** Parsing never follows an address that has gone stale, whatever the input. */
  lemma ParseSafe(limit: nat, tokens: seq<u32>)
    ensures Run(Initial(limit), tokens).0 != Astray
    ensures Run(Initial(limit), tokens).0 == Accepted ==> Finish(Run(Initial(limit), tokens).1).0 != Astray
  {
    InitialSpine(limit);
    RunSpine(Initial(limit), tokens);
    var (code, s) := Run(Initial(limit), tokens);
    if code == Accepted {
      TopFacts(s);
    }
  }

  /** All the items of a parsed pattern are complete, and in a regular run the sum of the root is right. */
  lemma ParsedContent(limit: nat, tokens: seq<u32>, regular: bool)
    requires Parse(limit, tokens).Some? && (regular ==> Regular(Initial(limit), tokens))
    ensures var g := Parse(limit, tokens).value;
            && (forall k :: 0 <= k < |g.segments| ==> Done(g.segments[k].items, regular))
            && (regular ==> g.sum == Wrap(Multipliers(g.segments, |g.segments|)))
  {
    var s := Run(Initial(limit), tokens).1;
    InitialSpine(limit);
    NewGroupEvens(0);
    RunSpine(Initial(limit), tokens);
    RunBalance(Initial(limit), [0], tokens);
    RunContent(Initial(limit), [0], tokens, regular);
    TopFacts(s);
    var l := s.levels[0];
    CleanDone(l, s.next, regular);
    CleanSums(l, s.next);
    if regular {
      RegularNoDrift(Initial(limit), [0], tokens);
      assert Balanced(l, 0, Pending(s, 0));
    }
  }

  // ---------------------------------------------------------------------
  // Patterns that are fit for generation
  // ---------------------------------------------------------------------

  /** What has to hold besides: no sum overflows, no range or repetition runs backwards, and there are no specials. */
  ghost predicate Usable(g: Group)
    decreases g
  {
    && 0 < Multipliers(g.segments, |g.segments|) < W64
    && forall k :: 0 <= k < |g.segments| ==> UsableItems(g.segments[k].items)
  }

  ghost predicate UsableItems(items: seq<Item>)
    decreases items
  {
    forall i :: 0 <= i < |items| ==> UsableItem(items[i])
  }

  ghost predicate UsableItem(item: Item)
    decreases item
  {
    && Drawable(item)
    && match item.kind
       case Set(ranges, _) => Narrow(ranges) && Codepoints(ranges, |ranges|) < W64
       case Literal(_, _) => true
       case Special(_, _) => false
       case Nested(group) => Usable(group)
  }

  /** No range holds all the 32-bit numbers. */
  predicate Narrow(ranges: seq<Range>) {
    forall i :: 0 <= i < |ranges| ==> ranges[i].end as int - ranges[i].start as int < B - 1
  }

  lemma {:induction false} ChoicesAtMost(ranges: seq<Range>, n: nat)
    requires Ascending(ranges) && n <= |ranges|
    ensures Choices(ranges, n) <= Codepoints(ranges, n) && Choices(ranges, n) < W64
  {
    if n > 0 {
      ChoicesAtMost(ranges, n - 1);
      var size := 1 + ranges[n - 1].end as int - ranges[n - 1].start as int;
      assert 0 <= size % B <= size;
      WrapAtMost(Choices(ranges, n - 1) + size % B);
    }
  }

  lemma WrapAtMost(x: nat)
    ensures Wrap(x) <= x && Wrap(x) < W64 && (x < W64 ==> Wrap(x) == x)
  {
  }

  /** The choices of the ranges up to that with index i are counted right. */
  predicate Exact(ranges: seq<Range>, i: nat)
    requires i < |ranges|
  {
    Choices(ranges, i + 1) == Codepoints(ranges, i + 1)
  }

  /** The choices are counted right exactly if no range is full and there are fewer than 2^64 of them. */
  lemma {:induction false} ChoicesExact(ranges: seq<Range>, n: nat)
    requires Ascending(ranges) && n <= |ranges|
    ensures (forall i :: 0 <= i < n ==> Exact(ranges, i)) <==> Narrow(ranges[..n]) && Codepoints(ranges, n) < W64
  {
    if n > 0 {
      ChoicesExact(ranges, n - 1);
      CodepointsGrow(ranges, n);
      ExactStep(ranges, n - 1);
      if n > 1 {
        assert Exact(ranges, n - 2) <==> Choices(ranges, n - 1) == Codepoints(ranges, n - 1);
      }
      assert ranges[..n] == ranges[..n - 1] + [ranges[n - 1]];
    }
  }

  lemma CodepointsGrow(ranges: seq<Range>, n: nat)
    requires Ascending(ranges) && 0 < n <= |ranges|
    ensures Codepoints(ranges, n - 1) < Codepoints(ranges, n)
  {
  }

  /** Given the count so far, whether the next one is right. */
  lemma ExactStep(ranges: seq<Range>, n: nat)
    requires Ascending(ranges) && n < |ranges|
    ensures Choices(ranges, n) == Codepoints(ranges, n) ==>
              (Exact(ranges, n)
               <==> ranges[n].end as int - ranges[n].start as int < B - 1 && Codepoints(ranges, n + 1) < W64)
  {
    ChoicesAtMost(ranges, n);
    var size := 1 + ranges[n].end as int - ranges[n].start as int;
    WrapAtMost(Choices(ranges, n) + size % B);
  }

  lemma {:induction false} UsableGroup(g: Group)
    requires CompleteGroup(g, true) && g.sum == Wrap(Multipliers(g.segments, |g.segments|))
    ensures WellFormed(g) <==> Usable(g)
    decreases g
  {
    WrapAtMost(Multipliers(g.segments, |g.segments|));
    forall k | 0 <= k < |g.segments|
      ensures WellFormedItems(g.segments[k].items) <==> UsableItems(g.segments[k].items)
    {
      UsableAll(g.segments[k].items);
    }
  }

  lemma {:induction false} UsableAll(items: seq<Item>)
    requires Done(items, true)
    ensures WellFormedItems(items) <==> UsableItems(items)
    decreases items
  {
    forall i | 0 <= i < |items|
      ensures WellFormedItem(items[i]) <==> UsableItem(items[i])
    {
      UsableOne(items[i]);
    }
  }

  lemma {:induction false} UsableOne(item: Item)
    requires Kept(item) && Complete(item, true)
    ensures WellFormedItem(item) <==> UsableItem(item)
    decreases item
  {
    match item.kind
    case Set(ranges, choices) => UsableSet(item, ranges, choices);
    case Literal(_, _) =>
    case Special(_, _) =>
    case Nested(group) => UsableGroup(group);
  }

  lemma UsableSet(item: Item, ranges: seq<Range>, choices: seq<u64>)
    requires item.kind == Set(ranges, choices) && Complete(item, true)
    ensures WellFormedItem(item) <==> UsableItem(item)
  {
    ChoicesExact(ranges, |ranges|);
    assert ranges[..|ranges|] == ranges;
    assert forall i :: 0 <= i < |ranges| ==> (Exact(ranges, i) <==> choices[i] == Codepoints(ranges, i + 1));
  }

  /** What a regular run parses is fit for generation exactly if it is usable. */
  lemma ParsedWellFormed(limit: nat, tokens: seq<u32>)
    requires Parse(limit, tokens).Some? && Regular(Initial(limit), tokens)
    ensures WellFormed(Parse(limit, tokens).value) <==> Usable(Parse(limit, tokens).value)
  {
    ParsedContent(limit, tokens, true);
    UsableGroup(Parse(limit, tokens).value);
  }

  // ---------------------------------------------------------------------
  // Runs that are not regular
  // ---------------------------------------------------------------------

  /** The parser at the start of a segment of the root: one frame, and one segment without items. */
  function AtRoot(multiplier: u64, sum: u64, next: nat): State {
    State([GroupFrame(Root, At(0, 0))], [Level(Group([Segment([], multiplier)], sum), [0], [], [])], 0, next)
  }

  /** The same, with the segment's multiplier being read. */
  function AtMultiplier(multiplier: u64, sum: u64, next: nat): State {
    var s := AtRoot(multiplier, sum, next);
    s.(frames := s.frames + [MultiplierFrame(At(0, 0), Root)])
  }

  lemma StartsAtRoot()
    ensures Initial(0) == AtRoot(1, 1, 1)
  {
    assert [] + [Segment([], 1)] == [Segment([], 1)];
  }

  lemma PrefixStarts(multiplier: u64, sum: u64, next: nat)
    ensures Step(AtRoot(multiplier, sum, next), '{' as int) == (Accepted, AtMultiplier(0, Wrap(sum - 1), next + 3))
  {
    var s := AtRoot(multiplier, sum, next);
    assert Low('{' as int) == '{' as int && !IsEscaped('{' as int);
    assert Prefixed(TopLevel(s)).group.segments == [Segment([], 0)];
    var action := ActionOf(s, '{' as int);
    assert action == Push(Prefixed(TopLevel(s)), MultiplierFrame(At(0, 0), Root));
    assert PutTop(s, action.level, TopFrame(s)).frames == s.frames;
    assert PutTop(s, action.level, TopFrame(s)).levels == [action.level];
  }

  lemma DigitRead(multiplier: u64, sum: u64, next: nat, token: u32)
    requires IsDigit(token)
    ensures Step(AtMultiplier(multiplier, sum, next), token)
         == (Accepted, AtMultiplier(Digit(multiplier, token), sum, next + 3))
  {
    var s := AtMultiplier(multiplier, sum, next);
    var l := MultiplierToken(TopLevel(s), token).level;
    assert l.group.segments == [Segment([], Digit(multiplier, token))];
    assert PutTop(s, l, TopFrame(s)).frames == s.frames;
    assert PutTop(s, l, TopFrame(s)).levels == [l];
  }

  lemma PrefixEnds(multiplier: u64, sum: u64, next: nat)
    ensures Step(AtMultiplier(multiplier, sum, next), '}' as int)
         == (Accepted, AtRoot(multiplier, Wrap(sum + multiplier), next + 3))
  {
    var s := AtMultiplier(multiplier, sum, next);
    var l := MultiplierToken(TopLevel(s), '}' as int).level;
    assert Popped(PutTop(s, l, TopFrame(s))).frames == [GroupFrame(Root, At(0, 0))];
    assert PutTop(s, l, TopFrame(s)).levels == [l];
  }

  lemma Recycles(sum: u64, next: nat)
    ensures Step(AtRoot(0, sum, next), '|' as int) == (Accepted, AtRoot(1, sum, next + 3))
  {
    var s := AtRoot(0, sum, next);
    assert Low('|' as int) == '|' as int && !IsEscaped('|' as int);
    var l := ActionOf(s, '|' as int).level;
    assert l.group.segments == [Segment([], 1)];
    assert PutTop(s, l, TopFrame(s)).frames == s.frames;
    assert PutTop(s, l, TopFrame(s)).levels == [l];
  }

  function Prefix(digit: nat): seq<u32>
    requires digit < 10
  {
    ['{' as int, '0' as int + digit, '}' as int]
  }

  /** A prefix of one digit, from start to end. */
  lemma PrefixRead(multiplier: u64, sum: u64, next: nat, digit: nat, sum': u64)
    requires digit < 10 && Wrap(10 * 0 + digit) == digit && sum' == Wrap(Wrap(sum - 1) + digit)
    ensures Run(AtRoot(multiplier, sum, next), Prefix(digit)) == (Accepted, AtRoot(digit, sum', next + 9))
  {
    var less := Wrap(sum - 1);
    PrefixStarts(multiplier, sum, next);
    DigitRead(0, less, next + 3, '0' as int + digit);
    PrefixEnds(digit, less, next + 6);
    RunThree(AtRoot(multiplier, sum, next), AtMultiplier(0, less, next + 3), AtMultiplier(digit, less, next + 6),
             AtRoot(digit, sum', next + 9), '{' as int, '0' as int + digit, '}' as int);
  }

  lemma RunThree(s: State, t: State, u: State, v: State, a: u32, b: u32, c: u32)
    requires Step(s, a) == (Accepted, t) && Step(t, b) == (Accepted, u) && Step(u, c) == (Accepted, v)
    ensures Run(s, [a, b, c]) == (Accepted, v)
  {
    RunOne(u, v, c);
    assert [b, c][1..] == [c] && [a, b, c][1..] == [b, c];
    assert Run(t, [b, c]) == (Accepted, v);
  }

  lemma RunOne(s: State, t: State, a: u32)
    requires Step(s, a) == (Accepted, t)
    ensures Run(s, [a]) == (Accepted, t)
  {
    assert [a][1..] == [] && Run(t, []) == (Accepted, t);
  }

  lemma {:induction false} RunAppend(s: State, a: seq<u32>, b: seq<u32>)
    requires Run(s, a).0 == Accepted
    ensures Run(s, a + b) == Run(Run(s, a).1, b)
    decreases |a|
  {
    if a == [] {
      assert a + b == b;
    } else {
      assert (a + b)[1..] == a[1..] + b && (a + b)[0] == a[0];
      RunAppend(Step(s, a[0]).1, a[1..], b);
    }
  }

  /** {0}| leaves a segment with multiplier 1 in a group whose sum is 0. */
  lemma RecycledSegment()
    ensures Run(Initial(0), Prefix(0) + ['|' as int]) == (Accepted, AtRoot(1, 0, 13))
    ensures Sum(AtRoot(1, 0, 13).levels[0]) == 1
  {
    StartsAtRoot();
    PrefixRead(1, 1, 1, 0, 0);
    Recycles(0, 10);
    RunOne(AtRoot(0, 0, 10), AtRoot(1, 0, 13), '|' as int);
    RunBoth(Initial(0), AtRoot(0, 0, 10), AtRoot(1, 0, 13), Prefix(0), ['|' as int]);
    assert Multipliers([Segment([], 1)], 1) == Multipliers([Segment([], 1)], 0) + 1;
  }

  lemma RunBoth(s: State, t: State, u: State, a: seq<u32>, b: seq<u32>)
    requires Run(s, a) == (Accepted, t) && Run(t, b) == (Accepted, u)
    ensures Run(s, a + b) == (Accepted, u)
  {
    RunAppend(s, a, b);
  }

  /** Two prefixes of a digit each, such as {2}{3}: the sum of a group of the multiplier n is n + m - 1. */
  lemma PrefixedTwice(m: nat, n: nat)
    requires m < 10 && n < 10
    ensures Run(Initial(0), Prefix(m) + Prefix(n)) == (Accepted, AtRoot(n, Wrap(n + m - 1), 19))
    ensures Sum(AtRoot(n, Wrap(n + m - 1), 19).levels[0]) == n
  {
    StartsAtRoot();
    SmallSums(m, n);
    PrefixRead(1, 1, 1, m, m);
    PrefixRead(m, m, 10, n, Wrap(n + m - 1));
    RunBoth(Initial(0), AtRoot(m, m, 10), AtRoot(n, Wrap(n + m - 1), 19), Prefix(m), Prefix(n));
    assert Multipliers([Segment([], n)], 1) == Multipliers([Segment([], n)], 0) + n;
  }

  lemma SmallSums(m: nat, n: nat)
    requires m < 10 && n < 10
    ensures Wrap(10 * 0 + m) == m && Wrap(10 * 0 + n) == n
    ensures Wrap(Wrap(1 - 1) + m) == m && Wrap(Wrap(m - 1) + n) == Wrap(n + m - 1)
  {
    WrapPlus(m - 1, n);
  }
}
