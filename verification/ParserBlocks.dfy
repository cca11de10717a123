// Blocks are never used twice: an address into a block that was moved or freed is never that of anything again.

module ParserBlocks {
  import opened Words
  import opened Pattern
  import opened Parsing
  import opened ParserSpine
  import Stack

  // ---------------------------------------------------------------------
  // Stacks
  // ---------------------------------------------------------------------

  predicate Below(bins: seq<nat>, next: nat) {
    forall i :: 0 <= i < |bins| ==> bins[i] < next
  }

  predicate Distinct(bins: seq<nat>) {
    forall i, j :: 0 <= i < j < |bins| ==> bins[i] != bins[j]
  }

  /** The blocks of the one stack are those of the other, or new. */
  ghost predicate From(bins': seq<nat>, bins: seq<nat>, next: nat) {
    forall x :: x in bins' ==> x in bins || x >= next
  }

  ghost predicate Apart(a: seq<nat>, b: seq<nat>) {
    forall x :: x in a ==> x !in b
  }

  lemma StackChanged(bins: seq<nat>, len: nat, next: nat)
    requires Below(bins, next) && Distinct(bins)
    ensures Below(Grown(bins, len, next), next + 1) && Distinct(Grown(bins, len, next))
    ensures Below(Shrunk(bins, len, next), next + 1) && Distinct(Shrunk(bins, len, next))
    ensures From(Grown(bins, len, next), bins, next) && From(Shrunk(bins, len, next), bins, next)
  {
  }

  // ---------------------------------------------------------------------
  // Levels
  // ---------------------------------------------------------------------

  /** No block is used twice, and every one was allocated before. */
  ghost predicate LevelFresh(l: Level, next: nat) {
    && Below(l.segments, next) && Below(l.items, next) && Below(l.ranges, next)
    && Distinct(l.segments) && Distinct(l.items) && Distinct(l.ranges)
    && Apart(l.segments, l.items) && Apart(l.segments, l.ranges) && Apart(l.items, l.ranges)
  }

  ghost predicate Inherits(l': Level, l: Level, next: nat) {
    From(l'.segments, l.segments, next) && From(l'.items, l.items, next) && From(l'.ranges, l.ranges, next)
  }

  /** What the level became, with blocks from next to below limit. */
  ghost predicate Renewed(l': Level, l: Level, next: nat, limit: nat) {
    LevelFresh(l', limit) && Inherits(l', l, next)
  }

  lemma RenewedAgain(l'': Level, l': Level, l: Level, next: nat, middle: nat, limit: nat)
    requires Renewed(l', l, next, middle) && Renewed(l'', l', middle, limit) && next <= middle
    ensures Renewed(l'', l, next, limit)
  {
  }

  /** The same blocks, and perhaps fewer. */
  lemma SameBlocks(l': Level, l: Level, next: nat, limit: nat)
    requires LevelFresh(l, next) && next <= limit
    requires l'.segments == l.segments && l'.items == l.items && (l'.ranges == l.ranges || l'.ranges == [])
    ensures Renewed(l', l, next, limit)
  {
  }

  lemma ItemsChanged(l: Level, kind: Kind, next: nat)
    requires LevelFresh(l, next)
    ensures Renewed(AppendItem(l, kind, next), l, next, next + 1) && Renewed(DropItem(l, next), l, next, next + 1)
    ensures Renewed(Clean(l, next), l, next, next + 1)
  {
    StackChanged(l.items, |Current(l).items|, next);
  }

  lemma SegmentsChanged(l: Level, next: nat)
    requires LevelFresh(l, next)
    ensures Renewed(AppendSegment(l, next), l, next, next + 1) && Renewed(DropSegment(l, next), l, next, next + 1)
  {
    StackChanged(l.segments, |l.group.segments|, next);
  }

  lemma TaintRenewed(l: Level, next: nat)
    requires LevelFresh(l, next)
    ensures Renewed(Taint(l, next), l, next, next + 1)
  {
    if HasItem(l) && LastItem(l).kind.Literal? && |LastItem(l).kind.codepoints| > 1 {
      var item := LastItem(l);
      var cs := item.kind.codepoints;
      var l' := PutItem(l, item.(kind := Literal(cs[..|cs| - 1], item.kind.tainted)));
      ItemsChanged(l', Literal([cs[|cs| - 1]], true), next);
    }
  }

  // ---------------------------------------------------------------------
  // Tokens
  // ---------------------------------------------------------------------

  ghost predicate ActionRenewed(action: Action, l: Level, next: nat, limit: nat)
    requires limit > 0
  {
    match action
    case Reject(l') => Renewed(l', l, next, limit)
    case Stay(l') => Renewed(l', l, next, limit)
    case Become(l', _) => Renewed(l', l, next, limit)
    case Push(l', _) => Renewed(l', l, next, limit)
    case Pop(l') => Renewed(l', l, next, limit)
    case Open(l', inner) =>
      Renewed(l', l, next, limit - 1) && Renewed(inner, Level(Group([], 0), [], [], []), limit - 1, limit)
    case Close(_) => true
  }

  lemma PipeRenewed(l: Level, frame: Frame, next: nat)
    requires LevelFresh(l, next + 1) && frame.GroupFrame?
    ensures ActionRenewed(Pipe(l, frame, next), l, next + 1, next + 3)
  {
    SegmentsChanged(l, next + 1);
  }

  lemma ClosingRenewed(l: Level, depth: nat, next: nat)
    requires LevelFresh(l, next + 1)
    ensures ActionRenewed(Closing(l, depth, next), l, next + 1, next + 3)
  {
    SegmentsChanged(l, next + 1);
  }

  lemma OpeningRenewed(l: Level, next: nat)
    requires LevelFresh(l, next + 1)
    ensures ActionRenewed(Opening(l, next), l, next + 1, next + 3)
    ensures ActionRenewed(OpeningSet(l, next), l, next + 1, next + 3)
  {
    ItemsChanged(l, Nested(Group([], 0)), next + 1);
    ItemsChanged(l, Set([], []), next + 1);
    SegmentsChanged(Level(Group([], 0), [], [], []), next + 2);
  }

  lemma ModifierRenewed(l: Level, frame: Frame, address: Address, next: nat)
    requires LevelFresh(l, next + 1) && frame.GroupFrame?
    ensures ActionRenewed(Brace(l, frame, address, next), l, next + 1, next + 3)
    ensures ActionRenewed(Question(l, next), l, next + 1, next + 3)
  {
    if HasItem(l) {
      var l' := Taint(l, next + 1);
      TaintRenewed(l, next + 1);
      PutRenewed(l', l, LastItem(l').(min := 0, max := 0), next);
      PutRenewed(l', l, LastItem(l').(maybe := true), next);
    } else {
      SameBlocks(Prefixed(l), l, next + 1, next + 3);
      SameBlocks(l, l, next + 1, next + 3);
    }
  }

  lemma PutRenewed(l': Level, l: Level, item: Item, next: nat)
    requires Renewed(l', l, next + 1, next + 2)
    ensures Renewed(PutItem(l', item), l, next + 1, next + 3)
  {
    SameBlocks(PutItem(l', item), l', next + 2, next + 3);
    RenewedAgain(PutItem(l', item), l', l, next + 1, next + 2, next + 3);
  }

  lemma TextRenewed(l: Level, codepoint: u32, next: nat)
    requires LevelFresh(l, next + 1)
    ensures ActionRenewed(Stay(Text(l, codepoint, next + 1)), l, next + 1, next + 3)
  {
    ItemsChanged(l, Literal([codepoint], false), next + 1);
  }

  lemma EscapedRenewed(l: Level, codepoint: u32, next: nat)
    requires LevelFresh(l, next + 1)
    ensures ActionRenewed(EscapedToken(l, codepoint, next), l, next + 1, next + 3)
  {
    TextRenewed(l, codepoint, next);
    ItemsChanged(l, Special(SpecialOf(Low(codepoint)), []), next + 1);
  }

  lemma GroupTokenRenewed(l: Level, frame: Frame, address: Address, depth: nat, token: u32, next: nat)
    requires LevelFresh(l, next) && frame.GroupFrame?
    ensures ActionRenewed(GroupToken(l, frame, address, depth, token, next), l, next, next + 3)
  {
    var l' := Clean(l, next);
    ItemsChanged(l, Set([], []), next);
    var c := Low(token);
    if IsEscaped(token) {
      EscapedRenewed(l', Unescaped(token), next);
    } else if c == '|' as int {
      PipeRenewed(l', frame, next);
    } else if c == ')' as int {
      ClosingRenewed(l', depth, next);
    } else if c == '(' as int || c == '[' as int {
      OpeningRenewed(l', next);
    } else if c == '{' as int || c == '?' as int {
      ModifierRenewed(l', frame, address, next);
    } else {
      TextRenewed(l', token, next);
    }
    ActionAgain(GroupToken(l, frame, address, depth, token, next), l', l, next);
  }

  lemma ActionAgain(action: Action, l': Level, l: Level, next: nat)
    requires Renewed(l', l, next, next + 1) && ActionRenewed(action, l', next + 1, next + 3)
    ensures ActionRenewed(action, l, next, next + 3)
  {
    if action.Open? {
      RenewedAgain(action.level, l', l, next, next + 1, next + 2);
    } else if !action.Close? {
      RenewedAgain(action.level, l', l, next, next + 1, next + 3);
    }
  }

  // ---------------------------------------------------------------------
  // States
  // ---------------------------------------------------------------------

  predicate Uses(l: Level, block: nat) {
    block in l.segments || block in l.items || block in l.ranges
  }

  ghost predicate LevelsApart(a: Level, b: Level) {
    forall x: nat {:trigger Uses(a, x)} :: Uses(a, x) ==> !Uses(b, x)
  }

  /** No block is used twice, anywhere. */
  ghost predicate Used(s: State) {
    && (forall k :: 0 <= k < |s.levels| ==> LevelFresh(s.levels[k], s.next))
    && (forall j, k :: 0 <= j < k < |s.levels| ==> LevelsApart(s.levels[j], s.levels[k]))
  }

  ghost predicate Live(s: State, block: nat) {
    exists k :: 0 <= k < |s.levels| && Uses(s.levels[k], block)
  }

  lemma InitialUsed(limit: nat)
    ensures Used(Initial(limit))
  {
    SegmentsChanged(Level(Group([], 0), [], [], []), 0);
  }

  lemma SetRenewed(l: Level, frame: Frame, token: u32, next: nat)
    requires frame.SetFrame? && HasItem(l) && LastItem(l).kind.Set? && LevelFresh(l, next)
    ensures ActionRenewed(SetToken(l, frame, token, next), l, next, next + 3)
  {
    var ranges := LastItem(l).kind.ranges;
    StackChanged(l.ranges, |ranges|, next);
    SameBlocks(l, l, next, next + 3);
    SameBlocks(PutItem(l, LastItem(l).(kind := Set(ranges, ChoicesList(ranges)))), l, next, next + 3);
  }

  lemma RestRenewed(s: State, token: u32)
    requires s.levels != [] && s.frames != [] && Refers(TopFrame(s), TopLevel(s), TopAddress(s))
    requires LevelFresh(TopLevel(s), s.next) && !TopFrame(s).GroupFrame? && !TopFrame(s).SetFrame?
    ensures ActionRenewed(ActionOf(s, token), TopLevel(s), s.next, s.next + 3)
  {
    SameBlocks(ActionOf(s, token).level, TopLevel(s), s.next, s.next + 3);
  }

  lemma StepRenewed(s: State, token: u32)
    requires s.levels != [] && s.frames != [] && Refers(TopFrame(s), TopLevel(s), TopAddress(s)) && Used(s)
    ensures ActionRenewed(ActionOf(s, token), TopLevel(s), s.next, s.next + 3)
  {
    var (l, frame) := (TopLevel(s), TopFrame(s));
    assert LevelFresh(l, s.next);
    if frame.GroupFrame? {
      GroupTokenRenewed(l, frame, TopAddress(s), |s.frames|, token, s.next);
    } else if frame.SetFrame? {
      SetRenewed(l, frame, token, s.next);
    } else {
      RestRenewed(s, token);
    }
  }

  /** A state of which each level only has blocks of its own from before, or new ones. */
  ghost predicate Carried(t: State, s: State) {
    forall k {:trigger t.levels[k]} :: 0 <= k < |t.levels| ==> CarriedAt(t, s, k)
  }

  ghost predicate CarriedAt(t: State, s: State, k: nat)
    requires k < |t.levels|
  {
    if k < |s.levels| then Inherits(t.levels[k], s.levels[k], s.next)
    else forall x: nat {:trigger Uses(t.levels[k], x)} :: Uses(t.levels[k], x) ==> x >= s.next
  }

  lemma UsesBelow(l: Level, next: nat, block: nat)
    requires LevelFresh(l, next) && Uses(l, block)
    ensures block < next
  {
  }

  lemma RenewedApart(below: Level, l: Level, l': Level, next: nat, limit: nat)
    requires LevelFresh(below, next) && LevelsApart(below, l) && Renewed(l', l, next, limit)
    ensures LevelsApart(below, l')
  {
    forall x: nat | Uses(below, x)
      ensures !Uses(l', x)
    {
      UsesBelow(below, next, x);
    }
  }

  lemma TopRenewed(s: State, t: State, l: Level)
    requires s.levels != [] && Used(s) && Renewed(l, TopLevel(s), s.next, t.next) && t.next >= s.next
    requires t.levels == s.levels[|s.levels| - 1 := l]
    ensures Used(t) && Carried(t, s)
  {
    var top := |s.levels| - 1;
    forall k | 0 <= k < top
      ensures LevelFresh(t.levels[k], t.next) && LevelsApart(t.levels[k], l) && CarriedAt(t, s, k)
    {
      SameBlocks(s.levels[k], s.levels[k], s.next, t.next);
      RenewedApart(s.levels[k], s.levels[top], l, s.next, t.next);
    }
    assert t.levels[top] == l && CarriedAt(t, s, top);
  }

  lemma OpenUsed(s: State, l: Level, inner: Level)
    requires s.levels != [] && s.frames != [] && Used(s) && Renewed(l, TopLevel(s), s.next, s.next + 2)
    requires Renewed(inner, Level(Group([], 0), [], [], []), s.next + 2, s.next + 3)
    ensures Used(Apply(s, Open(l, inner))) && Carried(Apply(s, Open(l, inner)), s)
  {
    var top := |s.levels| - 1;
    var (t, u) := (PutTop(s, l, TopFrame(s)).(next := s.next + 2), Apply(s, Open(l, inner)));
    TopRenewed(s, t, l);
    forall k | 0 <= k <= top
      ensures LevelsApart(u.levels[k], inner) && LevelFresh(u.levels[k], u.next) && CarriedAt(u, s, k)
    {
      assert u.levels[k] == t.levels[k] && LevelFresh(t.levels[k], t.next) && CarriedAt(t, s, k);
      OlderApart(t.levels[k], inner, s.next + 2, s.next + 3);
      SameBlocks(t.levels[k], t.levels[k], t.next, u.next);
    }
    forall j, k | 0 <= j < k < |u.levels|
      ensures LevelsApart(u.levels[j], u.levels[k])
    {
      assert k <= top ==> LevelsApart(t.levels[j], t.levels[k]);
    }
    assert CarriedAt(u, s, top + 1);
  }

  lemma OlderApart(l: Level, inner: Level, next: nat, limit: nat)
    requires LevelFresh(l, next) && Renewed(inner, Level(Group([], 0), [], [], []), next, limit)
    ensures LevelsApart(l, inner)
  {
    forall x: nat | Uses(l, x)
      ensures !Uses(inner, x)
    {
      UsesBelow(l, next, x);
    }
  }

  lemma CloseUsed(s: State, group: Group)
    requires Spine(s) && Used(s)
    ensures Used(Apply(s, Close(group))) && Carried(Apply(s, Close(group)), s)
  {
    var t := Apply(s, Close(group));
    forall k | 0 <= k < |t.levels|
      ensures LevelFresh(t.levels[k], t.next) && CarriedAt(t, s, k)
      ensures forall x: nat :: Uses(t.levels[k], x) <==> Uses(s.levels[k], x)
    {
      SameBlocks(t.levels[k], s.levels[k], s.next, t.next);
    }
  }

  /** A token takes its blocks from those that were not in use. */
  lemma StepUsed(s: State, token: u32)
    requires Spine(s) && Used(s) && Step(s, token).0 == Accepted
    ensures Used(Step(s, token).1) && Carried(Step(s, token).1, s)
  {
    TopFacts(s);
    StepRenewed(s, token);
    var action := ActionOf(s, token);
    if action.Open? {
      OpenUsed(s, action.level, action.inner);
    } else if action.Close? {
      CloseUsed(s, action.group);
    } else {
      TopRenewed(s, Step(s, token).1, action.level);
    }
  }

  // ---------------------------------------------------------------------
  // Runs
  // ---------------------------------------------------------------------

  lemma {:induction false} RunUsed(s: State, tokens: seq<u32>)
    requires Spine(s) && Used(s) && Run(s, tokens).0 == Accepted
    ensures Used(Run(s, tokens).1) && Spine(Run(s, tokens).1)
    decreases |tokens|
  {
    if tokens != [] {
      StepUsed(s, tokens[0]);
      StepSpine(s, tokens[0]);
      RunUsed(Step(s, tokens[0]).1, tokens[1..]);
    }
  }

  /** A block that is not in use is never in use again. */
  lemma {:induction false} StaysDead(s: State, tokens: seq<u32>, block: nat)
    requires Spine(s) && Used(s) && Run(s, tokens).0 == Accepted && block < s.next && !Live(s, block)
    ensures !Live(Run(s, tokens).1, block)
    decreases |tokens|
  {
    if tokens != [] {
      var t := Step(s, tokens[0]).1;
      StepUsed(s, tokens[0]);
      StepSpine(s, tokens[0]);
      assert !Live(t, block) by {
        forall k | 0 <= k < |t.levels|
          ensures !Uses(t.levels[k], block)
        {
          assert CarriedAt(t, s, k);
        }
      }
      StaysDead(t, tokens[1..], block);
    }
  }

  /** The stacks of a level: that of its segments, of the last segment's items, and of the last item's ranges. */
  datatype Which = Segments | Items | Ranges

  function StackOf(l: Level, which: Which): seq<nat> {
    match which
    case Segments => l.segments
    case Items => l.items
    case Ranges => l.ranges
  }

  /** A block that its stack has given up. */
  ghost predicate GivenUp(s: State, t: State, k: nat, which: Which, block: nat) {
    && k < |s.levels| && block in StackOf(s.levels[k], which)
    && (k < |t.levels| ==> block !in StackOf(t.levels[k], which))
  }

  lemma GivenUpGone(l: Level, l': Level, next: nat, which: Which, block: nat)
    requires LevelFresh(l, next) && Inherits(l', l, next)
    requires block in StackOf(l, which) && block !in StackOf(l', which)
    ensures block < next && !Uses(l', block)
  {
    UsesBelow(l, next, block);
    match which
    case Segments => assert block !in l.items && block !in l.ranges;
    case Items => assert block !in l.segments && block !in l.ranges;
    case Ranges => assert block !in l.segments && block !in l.items;
  }

  lemma InheritedUse(l: Level, l': Level, next: nat, block: nat)
    requires Inherits(l', l, next) && block < next
    ensures Uses(l', block) ==> Uses(l, block)
  {
  }

  lemma GivenUpDead(s: State, t: State, k: nat, which: Which, block: nat)
    requires Used(s) && Carried(t, s) && GivenUp(s, t, k, which, block)
    ensures block < s.next && !Live(t, block)
  {
    assert Uses(s.levels[k], block) && LevelFresh(s.levels[k], s.next);
    UsesBelow(s.levels[k], s.next, block);
    forall j | 0 <= j < |t.levels|
      ensures !Uses(t.levels[j], block)
    {
      assert CarriedAt(t, s, j);
      if j == k {
        GivenUpGone(s.levels[k], t.levels[k], s.next, which, block);
      } else if j < |s.levels| {
        InheritedUse(s.levels[j], t.levels[j], s.next, block);
        assert if j < k then LevelsApart(s.levels[j], s.levels[k]) else LevelsApart(s.levels[k], s.levels[j]);
      }
    }
  }

  lemma NeverAgainFrom(s: State, t: State, token: u32, after: seq<u32>, k: nat, which: Which, block: nat)
    requires Spine(s) && Used(s) && Step(s, token) == (Accepted, t) && Run(t, after).0 == Accepted
    requires GivenUp(s, t, k, which, block)
    ensures !Live(Run(t, after).1, block)
  {
    StepUsed(s, token);
    StepSpine(s, token);
    GivenUpDead(s, t, k, which, block);
    StaysDead(t, after, block);
  }

  /**
    When a token makes a stack give up a block, because the first bin moved or the bin was freed, no address into that
    block is ever again that of anything, however the run goes on.
   */
  lemma NeverAgain(limit: nat, before: seq<u32>, token: u32, after: seq<u32>, k: nat, which: Which, block: nat)
    requires Run(Initial(limit), before).0 == Accepted
    requires Step(Run(Initial(limit), before).1, token).0 == Accepted
    requires Run(Step(Run(Initial(limit), before).1, token).1, after).0 == Accepted
    requires GivenUp(Run(Initial(limit), before).1, Step(Run(Initial(limit), before).1, token).1, k, which, block)
    ensures !Live(Run(Step(Run(Initial(limit), before).1, token).1, after).1, block)
  {
    var s := Run(Initial(limit), before).1;
    InitialUsed(limit);
    InitialSpine(limit);
    RunUsed(Initial(limit), before);
    NeverAgainFrom(s, Step(s, token).1, token, after, k, which, block);
  }

  // ---------------------------------------------------------------------
  // First bins that move
  // ---------------------------------------------------------------------

  /** How many elements a stack has. */
  function Length(l: Level, which: Which): nat {
    match which
    case Segments => |l.group.segments|
    case Items => |Current(l).items|
    case Ranges => if HasItem(l) && LastItem(l).kind.Set? then |LastItem(l).kind.ranges| else 0
  }

  /** The stack gets one more element than its first bin, which is its only one so far, has room for. */
  predicate Outgrown(l: Level, l': Level, which: Which) {
    && 0 < Length(l, which) < Stack.BIN && Stack.BinCount(Length(l, which)) == Length(l, which)
    && Length(l', which) == Length(l, which) + 1
  }

  /** Where a stack outgrew its first bin, its blocks are new. */
  ghost predicate Moves(l: Level, l': Level, next: nat) {
    && |Current(l').items| <= |Current(l).items| + 1
    && forall which, x :: Outgrown(l, l', which) && x in StackOf(l', which) ==> x >= next
  }

  lemma ItemsMove(l: Level, kind: Kind, next: nat)
    requires kind.Set? ==> kind.ranges == []
    ensures Moves(l, AppendItem(l, kind, next), next)
  {
  }

  lemma PutMoves(l: Level, l': Level, item: Item, next: nat)
    requires Moves(l, l', next) && HasItem(l') && item.kind == LastItem(l').kind
    ensures Moves(l, PutItem(l', item), next)
  {
    var l'' := PutItem(l', item);
    assert HasItem(l'') && LastItem(l'') == item;
    assert forall which :: Length(l'', which) == Length(l', which) && StackOf(l'', which) == StackOf(l', which);
  }

  lemma TaintMoves(l: Level, next: nat)
    requires HasItem(l)
    ensures HasItem(Taint(l, next)) && Moves(l, Taint(l, next), next)
  {
    var item := LastItem(l);
    if item.kind.Literal? {
      var cs := item.kind.codepoints;
      if |cs| > 1 {
        var shorter := PutItem(l, item.(kind := Literal(cs[..|cs| - 1], item.kind.tainted)));
        ItemsMove(shorter, Literal([cs[|cs| - 1]], true), next);
      }
    }
  }

  lemma TextMoves(l: Level, codepoint: u32, next: nat)
    ensures Moves(l, Text(l, codepoint, next), next)
  {
    ItemsMove(l, Literal([codepoint], false), next);
  }

  /** Of the level that an action leaves in the place of the top one, if any. */
  ghost predicate ActionMoves(action: Action, l: Level, next: nat) {
    !action.Close? && !action.Reject? ==> Moves(l, action.level, next)
  }

  lemma ModifierMoves(l: Level, frame: Frame, address: Address, next: nat)
    requires frame.GroupFrame?
    ensures ActionMoves(Brace(l, frame, address, next), l, next) && ActionMoves(Question(l, next), l, next)
  {
    if HasItem(l) {
      var l' := Taint(l, next + 1);
      TaintMoves(l, next + 1);
      assert Moves(l, l', next);
      PutMoves(l, l', LastItem(l').(min := 0, max := 0), next);
      PutMoves(l, l', LastItem(l').(maybe := true), next);
    }
  }

  lemma PipeMoves(l: Level, frame: Frame, next: nat)
    requires frame.GroupFrame?
    ensures ActionMoves(Pipe(l, frame, next), l, next)
  {
  }

  lemma EscapedMoves(l: Level, codepoint: u32, next: nat)
    ensures ActionMoves(EscapedToken(l, codepoint, next), l, next)
  {
    TextMoves(l, codepoint, next + 1);
    ItemsMove(l, Special(SpecialOf(Low(codepoint)), []), next + 1);
  }

  lemma OpeningMoves(l: Level, next: nat)
    ensures ActionMoves(Opening(l, next), l, next) && ActionMoves(OpeningSet(l, next), l, next)
  {
    ItemsMove(l, Nested(Group([], 0)), next + 1);
    ItemsMove(l, Set([], []), next + 1);
  }

  lemma GroupTokenMoves(l: Level, frame: Frame, address: Address, depth: nat, token: u32, next: nat)
    requires frame.GroupFrame?
    ensures ActionMoves(GroupToken(l, frame, address, depth, token, next), l, next)
  {
    var l' := Clean(l, next);
    var c := Low(token);
    if IsEscaped(token) {
      EscapedMoves(l', Unescaped(token), next);
    } else if c == '|' as int {
      PipeMoves(l', frame, next);
    } else if c == '(' as int || c == '[' as int {
      OpeningMoves(l', next);
    } else if c == '{' as int || c == '?' as int {
      ModifierMoves(l', frame, address, next);
    } else {
      TextMoves(l', token, next + 1);
    }
    CleanMoves(l, GroupToken(l, frame, address, depth, token, next), next);
  }

  /** An item that is removed leaves its stack with too few elements to outgrow a bin at once. */
  lemma CleanMoves(l: Level, action: Action, next: nat)
    requires ActionMoves(action, Clean(l, next), next)
    ensures ActionMoves(action, l, next)
  {
    if Clean(l, next) != l {
      assert |Current(Clean(l, next)).items| == |Current(l).items| - 1;
    }
  }

  lemma SetMoves(l: Level, frame: Frame, token: u32, next: nat)
    requires HasItem(l) && LastItem(l).kind.Set?
    ensures frame.SetFrame? ==> ActionMoves(SetToken(l, frame, token, next), l, next)
    ensures frame.SetRangeFrame? && LastItem(l).kind.ranges != [] ==>
              ActionMoves(SetRangeToken(l, frame, token), l, next)
  {
  }

  lemma StepMoves(s: State, token: u32)
    requires Spine(s)
    ensures Refers(TopFrame(s), TopLevel(s), TopAddress(s)) && ActionMoves(ActionOf(s, token), TopLevel(s), s.next)
  {
    TopFacts(s);
    var (l, frame) := (TopLevel(s), TopFrame(s));
    if frame.GroupFrame? {
      GroupTokenMoves(l, frame, TopAddress(s), |s.frames|, token, s.next);
    } else if frame.SetFrame? || frame.SetRangeFrame? {
      SetMoves(l, frame, token, s.next);
    }
  }

  /** A group that is closed outgrows nothing in the level below. */
  lemma CloseMoves(below: Level, group: Group, which: Which)
    requires HasItem(below) && LastItem(below).kind.Nested?
    ensures Length(PutItem(below, LastItem(below).(kind := Nested(group))), which) == Length(below, which)
  {
    PutItemLast(below, LastItem(below).(kind := Nested(group)));
  }

  lemma PutItemLast(l: Level, item: Item)
    requires HasItem(l)
    ensures HasItem(PutItem(l, item)) && LastItem(PutItem(l, item)) == item
    ensures |Current(PutItem(l, item)).items| == |Current(l).items|
  {
  }

  /** Only the top level, and the one below when a group is closed, become other ones. */
  lemma LevelMoves(s: State, action: Action, k: nat, which: Which)
    requires Spine(s) && !action.Reject? && ActionMoves(action, TopLevel(s), s.next)
    requires k < |s.levels| && k < |Apply(s, action).levels|
    ensures Outgrown(s.levels[k], Apply(s, action).levels[k], which) ==>
              forall x :: x in StackOf(Apply(s, action).levels[k], which) ==> x >= s.next
  {
    if action.Close? && k < |s.levels| - 1 {
      assert Nests(s, k);
      CloseMoves(s.levels[k], action.group, which);
    } else if !action.Close? && k == |s.levels| - 1 {
      assert Apply(s, action).levels[k] == action.level;
    }
  }

  /** A stack that outgrows its first bin gives up the block. */
  lemma MovedAway(s: State, token: u32, k: nat, which: Which, block: nat)
    requires Spine(s) && Used(s) && Step(s, token).0 == Accepted && k < |s.levels| && k < |Step(s, token).1.levels|
    requires Outgrown(s.levels[k], Step(s, token).1.levels[k], which) && block in StackOf(s.levels[k], which)
    ensures GivenUp(s, Step(s, token).1, k, which, block)
  {
    StepMoves(s, token);
    LevelMoves(s, ActionOf(s, token), k, which);
    assert LevelFresh(s.levels[k], s.next) && Uses(s.levels[k], block);
    UsesBelow(s.levels[k], s.next, block);
  }

  predicate Into(address: Address, block: nat) {
    address.At? && address.block == block
  }

  /** Whether the frame has an address into the block. */
  predicate Holds(frame: Frame, block: nat) {
    match frame
    case GroupFrame(group, segment) => Into(group, block) || Into(segment, block)
    case MultiplierFrame(value, sum) => Into(value, block) || Into(sum, block)
    case SetFrame(target, range) => Into(target, block) || (range.Some? && Into(range.value, block))
    case SetRangeFrame(target, range) => Into(target, block) || (range.Some? && Into(range.value, block))
    case RepeatFrame(repeat) => Into(repeat, block)
    case RepeatRangeFrame(repeat) => Into(repeat, block)
    case SpecialFrame(special) => Into(special, block)
    case SpecialNameFrame(special) => Into(special, block)
  }

  /** The address of the last element of a stack is in a block in use, and where the stack looks for the element. */
  lemma LastLive(s: State, k: nat, which: Which)
    requires k < |s.levels| && Length(s.levels[k], which) > 0
    ensures var (bins, len) := (StackOf(s.levels[k], which), Length(s.levels[k], which));
            && (LastSlot(bins, len).At? ==> Live(s, LastSlot(bins, len).block))
            && (Fit(bins, len) ==>
                  && |bins| == Stack.Bins(len)
                  && LastSlot(bins, len) == At(bins[(len - 1) / Stack.BIN], (len - 1) % Stack.BIN))
  {
    var bins := StackOf(s.levels[k], which);
    if bins != [] {
      assert Uses(s.levels[k], bins[|bins| - 1]);
    }
  }

  lemma LastDead(s: State, block: nat, k: nat, which: Which)
    requires !Live(s, block) && k < |s.levels|
    ensures !Into(LastSlot(StackOf(s.levels[k], which), Length(s.levels[k], which)), block)
  {
    if Length(s.levels[k], which) > 0 {
      LastLive(s, k, which);
    }
  }

  /** No frame has an address into a block that is not in use. */
  lemma FramesLive(s: State, block: nat)
    requires Spine(s) && !Live(s, block)
    ensures forall k :: 0 <= k < |s.frames| ==> !Holds(s.frames[k], block)
  {
    forall k | 0 <= k < |s.frames|
      ensures !Holds(s.frames[k], block)
    {
      FrameLive(s, block, k);
    }
  }

  lemma FrameLive(s: State, block: nat, k: nat)
    requires Spine(s) && !Live(s, block) && k < |s.frames|
    ensures !Holds(s.frames[k], block)
  {
    var at := if k < |s.levels| then k else |s.levels| - 1;
    LastDead(s, block, at, Segments);
    LastDead(s, block, at, Items);
    LastDead(s, block, at, Ranges);
    if at > 0 {
      LastDead(s, block, at - 1, Items);
    }
    if k < |s.levels| {
      assert GroupRefers(s, k);
    } else {
      assert TopRefers(TopFrame(s), TopLevel(s), TopAddress(s));
    }
  }

  /**
    When a push makes a stack outgrow its first bin, no address into the old bin is ever again that of the last element
    of anything, and no frame holds one, however the run goes on.
   */
  lemma OldBinForgotten(limit: nat, before: seq<u32>, token: u32, after: seq<u32>, k: nat, which: Which, block: nat)
    requires Run(Initial(limit), before).0 == Accepted
    requires Step(Run(Initial(limit), before).1, token).0 == Accepted
    requires Run(Step(Run(Initial(limit), before).1, token).1, after).0 == Accepted
    requires var (s, t) := (Run(Initial(limit), before).1, Step(Run(Initial(limit), before).1, token).1);
             && k < |s.levels| && k < |t.levels|
             && Outgrown(s.levels[k], t.levels[k], which) && block in StackOf(s.levels[k], which)
    ensures var u := Run(Step(Run(Initial(limit), before).1, token).1, after).1;
            && (forall j, stack, offset :: 0 <= j < |u.levels| ==>
                  LastSlot(StackOf(u.levels[j], stack), Length(u.levels[j], stack)) != At(block, offset))
            && (forall j :: 0 <= j < |u.frames| ==> !Holds(u.frames[j], block))
  {
    var s := Run(Initial(limit), before).1;
    var t := Step(s, token).1;
    var u := Run(t, after).1;
    InitialUsed(limit);
    InitialSpine(limit);
    RunUsed(Initial(limit), before);
    MovedAway(s, token, k, which, block);
    NeverAgain(limit, before, token, after, k, which, block);
    StepSpine(s, token);
    RunSpine(t, after);
    FramesLive(u, block);
    forall j, stack, offset | 0 <= j < |u.levels|
      ensures LastSlot(StackOf(u.levels[j], stack), Length(u.levels[j], stack)) != At(block, offset)
    {
      LastDead(u, block, j, stack);
    }
  }
}
