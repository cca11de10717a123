// The parser without blocks and addresses: a simpler form of it that parses every input to the same pattern.

module ParserSimple {
  import opened Words
  import opened Pattern
  import opened Parsing
  import opened ParserSpine
  import opened ParserSums
  import opened ParserContent

  /** What the input so far belongs to. */
  datatype Mode =
    | InGroup
    | InMultiplier
    | InSet(some: bool)
    | InRange
    | InRepeat
    | InRepeatRange
    | InSpecial
    | InName

  /** An open group: the segments that are finished, the current one, and the sum. */
  datatype Partial = Partial(done: seq<Segment>, items: seq<Item>, multiplier: u64, sum: u64)

  /** The open groups from the root on, and what is being read at the end of the last one. */
  datatype View = View(limit: nat, outer: seq<Partial>, top: Partial, mode: Mode)

  const NEW: Partial := Partial([], [], 1, 1)

  function Whole(p: Partial): Group {
    Group(p.done + [Segment(p.items, p.multiplier)], p.sum)
  }

  // ---------------------------------------------------------------------
  // Changes of an open group
  // ---------------------------------------------------------------------

  function Last(p: Partial): Item
    requires p.items != []
  {
    p.items[|p.items| - 1]
  }

  function Added(p: Partial, kind: Kind): Partial {
    p.(items := p.items + [Item(kind, 1, 1, false)])
  }

  function WithLast(p: Partial, item: Item): Partial
    requires p.items != []
  {
    p.(items := p.items[..|p.items| - 1] + [item])
  }

  function WithKind(p: Partial, kind: Kind): Partial
    requires p.items != []
  {
    WithLast(p, Last(p).(kind := kind))
  }

  /** Whether the group ends with one that is marked for removal. */
  predicate EndsEmpty(p: Partial) {
    p.items != [] && Last(p).kind.Nested? && Last(p).kind.group.sum == 0
  }

  function Cleaned(p: Partial): Partial {
    if EndsEmpty(p) then p.(items := p.items[..|p.items| - 1]) else p
  }

  /** Whether the next codepoint joins the last item. */
  predicate Joins(p: Partial) {
    p.items != [] && Last(p).kind.Literal? && |Last(p).kind.codepoints| < 7 && !Last(p).kind.tainted
  }

  function WithText(p: Partial, codepoint: u32): Partial {
    if Joins(p) then WithKind(p, Literal(Last(p).kind.codepoints + [codepoint], false))
    else Added(p, Literal([codepoint], false))
  }

  /** A literal at the end gives its last codepoint away to one of its own. */
  function Split(p: Partial): (q: Partial)
    requires p.items != []
    ensures q.items != []
  {
    var kind := Last(p).kind;
    if !kind.Literal? then p
    else if |kind.codepoints| <= 1 then WithKind(p, kind.(tainted := true))
    else
      var n := |kind.codepoints| - 1;
      Added(WithKind(p, kind.(codepoints := kind.codepoints[..n])), Literal([kind.codepoints[n]], true))
  }

  function ClosedGroup(p: Partial): Group {
    Finished(if p.multiplier == 0 then Group(p.done, p.sum) else Whole(p))
  }

  // ---------------------------------------------------------------------
  // Tokens
  // ---------------------------------------------------------------------

  function Depth(v: View): nat {
    |v.outer| + 1 + (if v.mode.InGroup? then 0 else 1)
  }

  /** What the token makes of the view, if it is accepted. */
  function Next(v: View, token: u32): Option<View> {
    if v.limit > 0 && Depth(v) >= v.limit then None
    else if v.mode.InGroup? then GroupNext(v.(top := Cleaned(v.top)), token)
    else if v.mode.InMultiplier? then MultiplierNext(v, token)
    else if v.top.items == [] then None
    else match v.mode
      case InSet(some) => if Last(v.top).kind.Set? then SetNext(v, token) else None
      case InRange => if Last(v.top).kind.Set? then RangeNext(v, token) else None
      case InRepeat => RepeatNext(v, token)
      case InRepeatRange => RepeatRangeNext(v, token)
      case InSpecial => if token as int == '{' as int then Some(v.(mode := InName)) else None
      case InName => if Last(v.top).kind.Special? then NameNext(v, token) else None
  }

  function GroupNext(v: View, token: u32): Option<View> {
    var p := v.top;
    var c := Low(token);
    if IsEscaped(token) then EscapedNext(v, Unescaped(token))
    else if c == '|' as int then Some(v.(top := NextSegment(p)))
    else if c == ')' as int then ClosingNext(v)
    else if c == '(' as int then Some(v.(outer := v.outer + [Added(p, Nested(Group([], 0)))], top := NEW))
    else if c == '[' as int then Some(v.(top := Added(p, Set([], [])), mode := InSet(false)))
    else if c == '{' as int then Some(BraceNext(v))
    else if c == '?' as int then QuestionNext(v)
    else Some(v.(top := WithText(p, token)))
  }

  function EscapedNext(v: View, codepoint: u32): Option<View> {
    var c := Low(codepoint);
    if c in [0x7c, 0x28, 0x29, 0x7b, 0x7d, 0x5b, 0x5d] then Some(v.(top := WithText(v.top, codepoint)))
    else if c == 'm' as int || c == 'p' as int || c == 'w' as int then
      Some(v.(top := Added(v.top, Special(SpecialOf(c), [])), mode := InSpecial))
    else None
  }

  function NextSegment(p: Partial): Partial {
    if p.multiplier > 0 then Partial(p.done + [Segment(p.items, p.multiplier)], [], 1, Wrap(p.sum + 1))
    else p.(items := [], multiplier := 1)
  }

  function ClosingNext(v: View): Option<View> {
    var n := |v.outer| - 1;
    if n < 0 || v.outer[n].items == [] then None
    else Some(v.(outer := v.outer[..n], top := WithKind(v.outer[n], Nested(ClosedGroup(v.top)))))
  }

  function BraceNext(v: View): View {
    var p := v.top;
    if p.items == [] then v.(top := p.(multiplier := 0, sum := Wrap(p.sum - 1)), mode := InMultiplier)
    else v.(top := WithLast(Split(p), Last(Split(p)).(min := 0, max := 0)), mode := InRepeat)
  }

  function QuestionNext(v: View): Option<View> {
    var p := v.top;
    if p.items == [] then None else Some(v.(top := WithLast(Split(p), Last(Split(p)).(maybe := true))))
  }

  function MultiplierNext(v: View, token: u32): Option<View> {
    var p := v.top;
    if token as int == '}' as int then Some(v.(top := p.(sum := Wrap(p.sum + p.multiplier)), mode := InGroup))
    else if IsDigit(token) then Some(v.(top := p.(multiplier := Digit(p.multiplier, token))))
    else None
  }

  function RepeatNext(v: View, token: u32): Option<View>
    requires v.top.items != []
  {
    var item := Last(v.top);
    if token as int == '}' as int then Some(v.(top := WithLast(v.top, item.(max := item.min)), mode := InGroup))
    else if token as int == ',' as int then Some(v.(top := WithLast(v.top, item.(max := 0)), mode := InRepeatRange))
    else if IsDigit(token) then Some(v.(top := WithLast(v.top, item.(min := Digit(item.min, token)))))
    else None
  }

  function RepeatRangeNext(v: View, token: u32): Option<View>
    requires v.top.items != []
  {
    var item := Last(v.top);
    if token as int == '}' as int then Some(v.(mode := InGroup))
    else if IsDigit(token) then Some(v.(top := WithLast(v.top, item.(max := Digit(item.max, token)))))
    else None
  }

  function SetNext(v: View, token: u32): Option<View>
    requires v.mode.InSet? && v.top.items != [] && Last(v.top).kind.Set?
  {
    var ranges := Last(v.top).kind.ranges;
    if token as int == ']' as int then
      Some(v.(top := WithKind(v.top, Set(ranges, ChoicesList(ranges))), mode := InGroup))
    else if v.mode.some && token as int == '-' as int then Some(v.(mode := InRange))
    else if IsEscaped(token) && Unescaped(token) as int != '-' as int then None
    else Some(v.(top := WithKind(v.top, Set(ranges + [Range(Unescaped(token), Unescaped(token))], [])),
                 mode := InSet(true)))
  }

  function RangeNext(v: View, token: u32): Option<View>
    requires v.top.items != [] && Last(v.top).kind.Set?
  {
    var ranges := Last(v.top).kind.ranges;
    var n := |ranges| - 1;
    if n < 0 || token as int == ']' as int || token < ranges[n].start then None
    else Some(v.(top := WithKind(v.top, Set(ranges[..n] + [Range(ranges[n].start, token)], [])), mode := InSet(true)))
  }

  function NameNext(v: View, token: u32): Option<View>
    requires v.top.items != [] && Last(v.top).kind.Special?
  {
    var kind := Last(v.top).kind;
    if token as int == '}' as int then Some(v.(mode := InGroup))
    else Some(v.(top := WithKind(v.top, kind.(name := kind.name + [Unescaped(token)]))))
  }

  function Reads(v: View, tokens: seq<u32>): Option<View>
    decreases |tokens|
  {
    if tokens == [] then Some(v)
    else
      var next := Next(v, tokens[0]);
      if next.None? then None else Reads(next.value, tokens[1..])
  }

  function Start(limit: nat): View {
    View(limit, [], NEW, InGroup)
  }

  function SimpleParse(limit: nat, tokens: seq<u32>): Option<Group> {
    var v := Reads(Start(limit), tokens);
    if v.Some? && v.value.outer == [] && v.value.mode.InGroup? then Some(Whole(Cleaned(v.value.top))) else None
  }

  // ---------------------------------------------------------------------
  // The parser does the same
  // ---------------------------------------------------------------------

  function ModeOf(frame: Frame): Mode {
    match frame
    case GroupFrame(_, _) => InGroup
    case MultiplierFrame(_, _) => InMultiplier
    case SetFrame(_, range) => InSet(range.Some?)
    case SetRangeFrame(_, _) => InRange
    case RepeatFrame(_) => InRepeat
    case RepeatRangeFrame(_) => InRepeatRange
    case SpecialFrame(_) => InSpecial
    case SpecialNameFrame(_) => InName
  }

  /** The view of a state of the parser. */
  ghost predicate Shows(s: State, v: View) {
    && s.limit == v.limit && |s.levels| == |v.outer| + 1 && s.frames != []
    && (forall k :: 0 <= k < |v.outer| ==> s.levels[k].group == Whole(v.outer[k]))
    && TopLevel(s).group == Whole(v.top) && ModeOf(TopFrame(s)) == v.mode
  }

  /** The level of an open group. */
  predicate Is(l: Level, p: Partial) {
    l.group == Whole(p)
  }

  lemma PartialFacts(l: Level, p: Partial)
    requires Is(l, p)
    ensures l.group.segments != [] && Current(l) == Segment(p.items, p.multiplier)
    ensures HasItem(l) <==> p.items != []
    ensures p.items != [] ==> LastItem(l) == Last(p)
  {
  }

  lemma PutIs(l: Level, p: Partial, segment: Segment)
    requires Is(l, p)
    ensures Is(PutSegment(l, segment), p.(items := segment.items, multiplier := segment.multiplier))
  {
    assert l.group.segments[|l.group.segments| - 1 := segment] == p.done + [segment];
  }

  lemma PutItemIs(l: Level, p: Partial, item: Item)
    requires Is(l, p) && p.items != []
    ensures Is(PutItem(l, item), WithLast(p, item))
  {
    PartialFacts(l, p);
    assert p.items[|p.items| - 1 := item] == WithLast(p, item).items;
    PutIs(l, p, Segment(WithLast(p, item).items, p.multiplier));
  }

  lemma AppendIs(l: Level, p: Partial, kind: Kind, next: nat)
    requires Is(l, p)
    ensures Is(AppendItem(l, kind, next), Added(p, kind))
  {
    PartialFacts(l, p);
    PutIs(l, p, Segment(Added(p, kind).items, p.multiplier));
  }

  lemma CleanIs(l: Level, p: Partial, next: nat)
    requires Is(l, p)
    ensures Is(Clean(l, next), Cleaned(p))
  {
    PartialFacts(l, p);
    if EndsEmpty(p) {
      PutIs(l, p, Segment(Cleaned(p).items, p.multiplier));
    }
  }

  lemma TextIs(l: Level, p: Partial, codepoint: u32, next: nat)
    requires Is(l, p)
    ensures Is(Text(l, codepoint, next), WithText(p, codepoint))
  {
    PartialFacts(l, p);
    AppendIs(l, p, Literal([codepoint], false), next);
    if Joins(p) {
      PutItemIs(l, p, Last(p).(kind := Literal(Last(p).kind.codepoints + [codepoint], false)));
    }
  }

  lemma TaintIs(l: Level, p: Partial, next: nat)
    requires Is(l, p) && p.items != []
    ensures Is(Taint(l, next), Split(p))
  {
    PartialFacts(l, p);
    var kind := Last(p).kind;
    if kind.Literal? {
      var cs := kind.codepoints;
      if |cs| > 1 {
        var shorter := Last(p).(kind := Literal(cs[..|cs| - 1], kind.tainted));
        PutItemIs(l, p, shorter);
        AppendIs(PutItem(l, shorter), WithLast(p, shorter), Literal([cs[|cs| - 1]], true), next);
      } else {
        PutItemIs(l, p, Last(p).(kind := Literal(cs, true)));
      }
    }
  }

  /** The action makes of the view what the next view is. */
  ghost predicate Agrees(action: Action, v: View, next: Option<View>) {
    match action
    case Reject(_) => next == None
    case Stay(l) => next.Some? && Is(l, next.value.top) && next.value == v.(top := next.value.top)
    case Become(l, frame) => AgreesTop(l, ModeOf(frame), v, next)
    case Push(l, frame) => AgreesTop(l, ModeOf(frame), v, next)
    case Pop(l) => AgreesTop(l, InGroup, v, next)
    case Open(l, inner) =>
      && next.Some? && Is(inner, next.value.top) && |next.value.outer| == |v.outer| + 1
      && Is(l, next.value.outer[|v.outer|])
      && next.value == View(v.limit, v.outer + [next.value.outer[|v.outer|]], next.value.top, InGroup)
    case Close(group) =>
      && v.outer != [] && v.outer[|v.outer| - 1].items != []
      && next == Some(v.(outer := v.outer[..|v.outer| - 1],
                         top := WithKind(v.outer[|v.outer| - 1], Nested(group))))
  }

  ghost predicate AgreesTop(l: Level, mode: Mode, v: View, next: Option<View>) {
    next.Some? && Is(l, next.value.top) && next.value == v.(top := next.value.top, mode := mode)
  }

  lemma PipeAgrees(l: Level, frame: Frame, v: View, next: nat)
    requires Is(l, v.top) && v.mode.InGroup? && frame.GroupFrame?
    ensures Agrees(Pipe(l, frame, next), v, Some(v.(top := NextSegment(v.top))))
  {
    PartialFacts(l, v.top);
    PutIs(l, v.top, Segment([], 1));
  }

  lemma ClosingAgrees(l: Level, v: View, depth: nat, next: nat)
    requires Is(l, v.top) && v.mode.InGroup? && depth == |v.outer| + 1
    requires v.outer != [] ==> v.outer[|v.outer| - 1].items != []
    ensures Agrees(Closing(l, depth, next), v, ClosingNext(v))
  {
    PartialFacts(l, v.top);
    assert l.group.segments[..|l.group.segments| - 1] == v.top.done;
  }

  lemma OpeningAgrees(l: Level, v: View, next: nat)
    requires Is(l, v.top) && v.mode.InGroup?
    ensures Agrees(Opening(l, next), v,
                   Some(v.(outer := v.outer + [Added(v.top, Nested(Group([], 0)))], top := NEW)))
    ensures Agrees(OpeningSet(l, next), v, Some(v.(top := Added(v.top, Set([], [])), mode := InSet(false))))
  {
    AppendIs(l, v.top, Nested(Group([], 0)), next + 1);
    AppendIs(l, v.top, Set([], []), next + 1);
    assert Is(AppendSegment(Level(Group([], 0), [], [], []), next + 2), NEW);
  }

  lemma BraceAgrees(l: Level, frame: Frame, address: Address, v: View, next: nat)
    requires Is(l, v.top) && v.mode.InGroup? && frame.GroupFrame?
    ensures Agrees(Brace(l, frame, address, next), v, Some(BraceNext(v)))
  {
    var p := v.top;
    PartialFacts(l, p);
    if p.items == [] {
      PutIs(l, p, Segment([], 0));
    } else {
      TaintIs(l, p, next + 1);
      var l' := Taint(l, next + 1);
      PartialFacts(l', Split(p));
      PutItemIs(l', Split(p), LastItem(l').(min := 0, max := 0));
    }
  }

  lemma QuestionAgrees(l: Level, v: View, next: nat)
    requires Is(l, v.top) && v.mode.InGroup?
    ensures Agrees(Question(l, next), v, QuestionNext(v))
  {
    PartialFacts(l, v.top);
    if v.top.items != [] {
      TaintIs(l, v.top, next + 1);
      var l' := Taint(l, next + 1);
      PartialFacts(l', Split(v.top));
      PutItemIs(l', Split(v.top), LastItem(l').(maybe := true));
    }
  }

  lemma EscapedAgrees(l: Level, v: View, codepoint: u32, next: nat)
    requires Is(l, v.top) && v.mode.InGroup?
    ensures Agrees(EscapedToken(l, codepoint, next), v, EscapedNext(v, codepoint))
  {
    TextIs(l, v.top, codepoint, next + 1);
    AppendIs(l, v.top, Special(SpecialOf(Low(codepoint)), []), next + 1);
  }

  lemma GroupAgrees(l: Level, frame: Frame, address: Address, v: View, token: u32, next: nat)
    requires Is(l, v.top) && v.mode.InGroup? && frame.GroupFrame?
    requires v.outer != [] ==> v.outer[|v.outer| - 1].items != []
    ensures Agrees(GroupToken(l, frame, address, |v.outer| + 1, token, next), v,
                   GroupNext(v.(top := Cleaned(v.top)), token))
  {
    var (l', v') := (Clean(l, next), v.(top := Cleaned(v.top)));
    CleanIs(l, v.top, next);
    var c := Low(token);
    if IsEscaped(token) {
      EscapedAgrees(l', v', Unescaped(token), next);
    } else if c == '|' as int {
      PipeAgrees(l', frame, v', next);
    } else if c == ')' as int {
      ClosingAgrees(l', v', |v.outer| + 1, next);
    } else if c == '(' as int || c == '[' as int {
      OpeningAgrees(l', v', next);
    } else if c == '{' as int {
      BraceAgrees(l', frame, address, v', next);
    } else if c == '?' as int {
      QuestionAgrees(l', v', next);
    } else {
      TextIs(l', v'.top, token, next + 1);
    }
    TopIrrelevant(GroupToken(l, frame, address, |v.outer| + 1, token, next), v, v', GroupNext(v', token));
  }

  /** What becomes of a view does not depend on the group that is changed. */
  lemma TopIrrelevant(action: Action, v: View, v': View, next: Option<View>)
    requires v' == v.(top := v'.top) && Agrees(action, v', next)
    ensures Agrees(action, v, next)
  {
  }

  lemma MultiplierAgrees(l: Level, v: View, token: u32)
    requires Is(l, v.top) && v.mode.InMultiplier?
    ensures Agrees(MultiplierToken(l, token), v, MultiplierNext(v, token))
  {
    PartialFacts(l, v.top);
    if IsDigit(token) {
      PutIs(l, v.top, Segment(v.top.items, Digit(v.top.multiplier, token)));
    }
  }

  lemma RepeatAgrees(l: Level, frame: Frame, v: View, token: u32)
    requires Is(l, v.top) && v.top.items != [] && frame.RepeatFrame? && v.mode.InRepeat?
    ensures HasItem(l) && Agrees(RepeatToken(l, frame, token), v, RepeatNext(v, token))
  {
    PartialFacts(l, v.top);
    var item := Last(v.top);
    PutItemIs(l, v.top, item.(max := item.min));
    PutItemIs(l, v.top, item.(max := 0));
    if IsDigit(token) {
      PutItemIs(l, v.top, item.(min := Digit(item.min, token)));
    }
  }

  lemma RepeatRangeAgrees(l: Level, v: View, token: u32)
    requires Is(l, v.top) && v.top.items != [] && v.mode.InRepeatRange?
    ensures HasItem(l) && Agrees(RepeatRangeToken(l, token), v, RepeatRangeNext(v, token))
  {
    PartialFacts(l, v.top);
    if IsDigit(token) {
      PutItemIs(l, v.top, Last(v.top).(max := Digit(Last(v.top).max, token)));
    }
  }

  lemma SetAgrees(l: Level, frame: Frame, v: View, token: u32, next: nat)
    requires Is(l, v.top) && v.top.items != [] && Last(v.top).kind.Set? && frame.SetFrame? && v.mode == ModeOf(frame)
    ensures HasItem(l) && LastItem(l).kind.Set?
    ensures Agrees(SetToken(l, frame, token, next), v, SetNext(v, token))
  {
    PartialFacts(l, v.top);
    var ranges := Last(v.top).kind.ranges;
    PutItemIs(l, v.top, Last(v.top).(kind := Set(ranges, ChoicesList(ranges))));
    PutItemIs(l, v.top,
              Last(v.top).(kind := Set(ranges + [Range(Unescaped(token), Unescaped(token))], [])));
  }

  lemma RangeAgrees(l: Level, frame: Frame, v: View, token: u32)
    requires Is(l, v.top) && v.top.items != [] && Last(v.top).kind.Set? && Last(v.top).kind.ranges != []
    requires frame.SetRangeFrame? && frame.range.Some? && v.mode.InRange?
    ensures HasItem(l) && LastItem(l).kind.Set? && LastItem(l).kind.ranges != []
    ensures Agrees(SetRangeToken(l, frame, token), v, RangeNext(v, token))
  {
    PartialFacts(l, v.top);
    var ranges := Last(v.top).kind.ranges;
    var n := |ranges| - 1;
    var wider := ranges[..n] + [Range(ranges[n].start, token)];
    assert wider == ranges[n := ranges[n].(end := token)];
    PutItemIs(l, v.top, Last(v.top).(kind := Set(wider, [])));
  }

  lemma NameAgrees(l: Level, v: View, token: u32)
    requires Is(l, v.top) && v.top.items != [] && Last(v.top).kind.Special? && v.mode.InName?
    ensures HasItem(l) && LastItem(l).kind.Special?
    ensures Agrees(SpecialNameToken(l, token), v, NameNext(v, token))
  {
    PartialFacts(l, v.top);
    var kind := Last(v.top).kind;
    PutItemIs(l, v.top, Last(v.top).(kind := kind.(name := kind.name + [Unescaped(token)])));
  }

  lemma ActionAgrees(s: State, v: View, token: u32)
    requires Spine(s) && Shows(s, v) && (s.limit > 0 ==> |s.frames| < s.limit)
    ensures Refers(TopFrame(s), TopLevel(s), TopAddress(s)) && Agrees(ActionOf(s, token), v, Next(v, token))
  {
    TopFacts(s);
    var (l, frame) := (TopLevel(s), TopFrame(s));
    PartialFacts(l, v.top);
    match frame
    case GroupFrame(_, _) =>
      BelowHasItem(s, v);
      GroupAgrees(l, frame, TopAddress(s), v, token, s.next);
    case MultiplierFrame(_, _) => MultiplierAgrees(l, v, token);
    case SetFrame(_, _) => SetAgrees(l, frame, v, token, s.next);
    case SetRangeFrame(_, _) => RangeAgrees(l, frame, v, token);
    case RepeatFrame(_) => RepeatAgrees(l, frame, v, token);
    case RepeatRangeFrame(_) => RepeatRangeAgrees(l, v, token);
    case SpecialFrame(_) =>
    case SpecialNameFrame(_) => NameAgrees(l, v, token);
  }

  lemma BelowHasItem(s: State, v: View)
    requires Spine(s) && Shows(s, v)
    ensures v.outer != [] ==> v.outer[|v.outer| - 1].items != []
  {
    if v.outer != [] {
      var k := |v.outer| - 1;
      assert Nests(s, k) && s.levels[k].group == Whole(v.outer[k]);
      PartialFacts(s.levels[k], v.outer[k]);
    }
  }

  lemma TopShows(s: State, v: View, l: Level, frame: Frame, v': View)
    requires s.levels != [] && Shows(s, v) && Is(l, v'.top) && v' == v.(top := v'.top, mode := ModeOf(frame))
    ensures Shows(PutTop(s, l, frame), v')
  {
  }

  lemma OpenShows(s: State, v: View, l: Level, inner: Level, v': View)
    requires s.levels != [] && Shows(s, v) && Agrees(Open(l, inner), v, Some(v'))
    ensures Shows(Apply(s, Open(l, inner)), v')
  {
    var p := v'.outer[|v.outer|];
    TopShows(s, v, l, TopFrame(s), v.(top := p));
    var (t, u) := (PutTop(s, l, TopFrame(s)), Apply(s, Open(l, inner)));
    assert u.levels == t.levels + [inner];
    forall k | 0 <= k < |v'.outer|
      ensures u.levels[k].group == Whole(v'.outer[k])
    {
      assert u.levels[k] == t.levels[k];
    }
  }

  lemma CloseShows(s: State, v: View, group: Group, v': View)
    requires Spine(s) && Shows(s, v) && |s.frames| == |s.levels| && Agrees(Close(group), v, Some(v'))
    ensures Shows(Apply(s, Close(group)), v')
  {
    TopFacts(s);
    var k := |v.outer| - 1;
    var below := s.levels[k];
    assert Nests(s, k) && GroupRefers(s, k) && below.group == Whole(v.outer[k]);
    PartialFacts(below, v.outer[k]);
    PutItemIs(below, v.outer[k], LastItem(below).(kind := Nested(group)));
    var u := Apply(s, Close(group));
    assert u.levels == s.levels[..k] + [PutItem(below, LastItem(below).(kind := Nested(group)))];
    assert TopFrame(u) == s.frames[k];
  }

  lemma ApplyShows(s: State, v: View, action: Action, next: Option<View>)
    requires Spine(s) && Shows(s, v) && !action.Reject? && Agrees(action, v, next)
    requires Sound(TopLevel(s), TopFrame(s), TopAddress(s), |s.frames|, action)
    ensures Shows(Apply(s, action), next.value)
  {
    TopFacts(s);
    match action
    case Open(l, inner) => OpenShows(s, v, l, inner, next.value);
    case Close(group) => CloseShows(s, v, group, next.value);
    case Stay(l) => TopShows(s, v, l, TopFrame(s), next.value);
    case Become(l, frame) => TopShows(s, v, l, frame, next.value);
    case Push(l, frame) => TopShows(s, v, l, TopFrame(s), v.(top := next.value.top));
    case Pop(l) =>
      TopShows(s, v, l, TopFrame(s), v.(top := next.value.top));
      assert GroupRefers(s, |s.levels| - 1);
  }

  /** The parser accepts a token if the simpler one does, and then does the same. */
  lemma StepShows(s: State, v: View, token: u32)
    requires Spine(s) && Shows(s, v)
    ensures Step(s, token).0 == Accepted <==> Next(v, token).Some?
    ensures Step(s, token).0 == Accepted ==> Shows(Step(s, token).1, Next(v, token).value)
  {
    TopFacts(s);
    assert |s.frames| == Depth(v);
    if s.limit == 0 || |s.frames| < s.limit {
      ActionSound(s, token);
      ActionAgrees(s, v, token);
      if !ActionOf(s, token).Reject? {
        ApplyShows(s, v, ActionOf(s, token), Next(v, token));
      }
    }
  }

  lemma {:induction false} RunShows(s: State, v: View, tokens: seq<u32>)
    requires Spine(s) && Shows(s, v)
    ensures Run(s, tokens).0 == Accepted <==> Reads(v, tokens).Some?
    ensures Run(s, tokens).0 == Accepted ==> Shows(Run(s, tokens).1, Reads(v, tokens).value) && Spine(Run(s, tokens).1)
    decreases |tokens|
  {
    if tokens != [] {
      StepShows(s, v, tokens[0]);
      StepSpine(s, tokens[0]);
      if Step(s, tokens[0]).0 == Accepted {
        RunShows(Step(s, tokens[0]).1, Next(v, tokens[0]).value, tokens[1..]);
      }
    }
  }

  /** Whether the token makes the sum of the group drift away from that of its segments. */
  predicate Strays(v: View, token: u32) {
    var p := Cleaned(v.top);
    && v.mode.InGroup? && !IsEscaped(token)
    && ((Low(token) == '|' as int && p.multiplier == 0)
        || (Low(token) == '{' as int && p.items == [] && p.multiplier != 1))
  }

  lemma DriftShown(s: State, v: View, token: u32)
    requires Spine(s) && Shows(s, v)
    ensures Drift(s, token) != 0 <==> Strays(v, token)
  {
    var l := Clean(TopLevel(s), s.next);
    CleanIs(TopLevel(s), v.top, s.next);
    PartialFacts(l, Cleaned(v.top));
  }

  lemma InitialShows(limit: nat)
    ensures Spine(Initial(limit)) && Shows(Initial(limit), Start(limit))
  {
    InitialSpine(limit);
  }

  /** Whatever the input, the parser gives what the simpler one gives: blocks and addresses make no difference. */
  lemma ParsesAlike(limit: nat, tokens: seq<u32>)
    ensures Parse(limit, tokens) == SimpleParse(limit, tokens)
  {
    InitialShows(limit);
    RunShows(Initial(limit), Start(limit), tokens);
    if Run(Initial(limit), tokens).0 == Accepted {
      FinishShows(Run(Initial(limit), tokens).1, Reads(Start(limit), tokens).value);
    }
  }

  lemma FinishShows(s: State, v: View)
    requires Spine(s) && Shows(s, v)
    ensures Finish(s).0 == Accepted <==> v.outer == [] && v.mode.InGroup?
    ensures Finish(s).0 == Accepted ==> Finish(s).1.levels != [] && Finish(s).1.levels[0].group == Whole(Cleaned(v.top))
  {
    TopFacts(s);
    CleanIs(TopLevel(s), v.top, s.next);
  }
}
