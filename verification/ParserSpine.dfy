// The frames of the parser form a spine: no frame's address ever dangles.

module ParserSpine {
  import opened Words
  import opened Pattern
  import opened Parsing
  import Stack

  // ---------------------------------------------------------------------
  // Blocks
  // ---------------------------------------------------------------------

  /** As many blocks as len elements take. */
  predicate Fit(bins: seq<nat>, len: nat) {
    len <= Stack.BIN * |bins| < len + Stack.BIN
  }

  predicate Fits(l: Level) {
    Fit(l.segments, |l.group.segments|) && Fit(l.items, |Current(l).items|)
  }

  lemma GrownFit(bins: seq<nat>, len: nat, next: nat)
    requires Fit(bins, len)
    ensures Fit(Grown(bins, len, next), len + 1)
  {
  }

  lemma ShrunkFit(bins: seq<nat>, len: nat, next: nat)
    requires Fit(bins, len) && len > 0
    ensures Fit(Shrunk(bins, len, next), len - 1)
  {
  }

  // ---------------------------------------------------------------------
  // Changes that leave the segment where it is
  // ---------------------------------------------------------------------

  predicate SameSegment(l: Level, l': Level) {
    l'.segments == l.segments && |l'.group.segments| == |l.group.segments|
  }

  lemma PutItemKeeps(l: Level, item: Item)
    requires HasItem(l) && Fits(l)
    ensures var l' := PutItem(l, item);
            && SameSegment(l, l') && Fits(l') && HasItem(l') && LastItem(l') == item
            && l'.items == l.items && l'.ranges == l.ranges && ItemAddress(l') == ItemAddress(l)
  {
  }

  lemma AppendItemKeeps(l: Level, kind: Kind, next: nat)
    requires l.group.segments != [] && Fits(l)
    ensures var l' := AppendItem(l, kind, next);
            SameSegment(l, l') && Fits(l') && HasItem(l') && LastItem(l') == Item(kind, 1, 1, false)
  {
    GrownFit(l.items, |Current(l).items|, next);
  }

  lemma CleanKeeps(l: Level, next: nat)
    requires l.group.segments != [] && Fits(l)
    ensures var l' := Clean(l, next); SameSegment(l, l') && Fits(l')
  {
    if HasItem(l) {
      ShrunkFit(l.items, |Current(l).items|, next);
    }
  }

  lemma TaintKeeps(l: Level, next: nat)
    requires HasItem(l) && Fits(l)
    ensures var l' := Taint(l, next); SameSegment(l, l') && Fits(l') && HasItem(l')
  {
    var item := LastItem(l);
    if item.kind.Literal? && |item.kind.codepoints| > 1 {
      var cs := item.kind.codepoints;
      var shorter := item.(kind := Literal(cs[..|cs| - 1], item.kind.tainted));
      PutItemKeeps(l, shorter);
      AppendItemKeeps(PutItem(l, shorter), Literal([cs[|cs| - 1]], true), next);
    }
  }

  lemma TextKeeps(l: Level, codepoint: u32, next: nat)
    requires l.group.segments != [] && Fits(l)
    ensures var l' := Text(l, codepoint, next); SameSegment(l, l') && Fits(l')
  {
    AppendItemKeeps(l, Literal([codepoint], false), next);
  }

  // ---------------------------------------------------------------------
  // The spine
  // ---------------------------------------------------------------------

  /**
    The frames of groups come first, one for each level; only the top frame may be another one. Each frame refers to the
    end of its level, and each level above the first belongs to the last item of the level below.
   */
  predicate Spine(s: State) {
    && 1 <= |s.levels| <= |s.frames| <= |s.levels| + 1
    && (forall k :: 0 <= k < |s.levels| ==> GroupRefers(s, k))
    && (forall k :: 0 <= k < |s.levels| - 1 ==> Nests(s, k))
    && (|s.frames| > |s.levels| ==> TopRefers(TopFrame(s), TopLevel(s), TopAddress(s)))
  }

  predicate GroupRefers(s: State, k: nat)
    requires k < |s.levels| <= |s.frames|
  {
    Fits(s.levels[k]) && RefersGroup(s.frames[k], s.levels[k], GroupAddress(s.levels, k))
  }

  predicate Nests(s: State, k: nat)
    requires k < |s.levels|
  {
    HasItem(s.levels[k]) && LastItem(s.levels[k]).kind.Nested?
  }

  /** A frame that is not a group's; a multiplier is in front of its segment's items. */
  predicate TopRefers(frame: Frame, l: Level, address: Address) {
    RefersOther(frame, l, address) && (frame.MultiplierFrame? ==> !HasItem(l))
  }

  /** An action on the top level l that keeps the spine. */
  predicate Sound(l: Level, frame: Frame, address: Address, depth: nat, action: Action) {
    match action
    case Reject(_) => true
    case Stay(l') => Fits(l') && SameSegment(l, l') && (frame.GroupFrame? || TopRefers(frame, l', address))
    case Become(l', frame') =>
      && Fits(l') && frame.GroupFrame? == frame'.GroupFrame?
      && if frame.GroupFrame? then RefersGroup(frame', l', address)
         else SameSegment(l, l') && TopRefers(frame', l', address)
    case Push(l', frame') => frame.GroupFrame? && Fits(l') && SameSegment(l, l') && TopRefers(frame', l', address)
    case Pop(l') => !frame.GroupFrame? && Fits(l') && SameSegment(l, l')
    case Open(l', inner) =>
      && frame.GroupFrame? && Fits(l') && SameSegment(l, l') && HasItem(l') && LastItem(l').kind.Nested?
      && Fits(inner) && inner.group.segments != []
    case Close(_) => frame.GroupFrame? && depth > 1
  }

  /** The top frame belongs to the group l. */
  predicate InGroup(l: Level, frame: Frame, address: Address) {
    Fits(l) && RefersGroup(frame, l, address)
  }

  lemma GroupTokenSound(l: Level, frame: Frame, address: Address, depth: nat, token: u32, next: nat)
    requires InGroup(l, frame, address)
    ensures Sound(l, frame, address, depth, GroupToken(l, frame, address, depth, token, next))
  {
    var l' := Clean(l, next);
    CleanKeeps(l, next);
    assert InGroup(l', frame, address);
    var c := Low(token);
    if IsEscaped(token) {
      EscapedSound(l', frame, address, depth, Unescaped(token), next);
    } else if c == '|' as int {
      SegmentsKeep(l', next + 1);
    } else if c == '(' as int {
      AppendItemKeeps(l', Nested(Group([], 0)), next + 1);
      SegmentsKeep(Level(Group([], 0), [], [], []), next + 2);
    } else if c == '[' as int {
      AppendItemKeeps(l', Set([], []), next + 1);
    } else if (c == '{' as int || c == '?' as int) && HasItem(l') {
      ModifierSound(l', next + 1);
    } else {
      TextKeeps(l', token, next + 1);
    }
  }

  lemma ModifierSound(l: Level, next: nat)
    requires HasItem(l) && Fits(l)
    ensures var t := Taint(l, next);
            && HasItem(t)
            && var l' := PutItem(t, LastItem(t).(min := 0, max := 0));
               Fits(l') && SameSegment(l, l') && HasItem(l') && ItemAddress(l') == ItemAddress(t)
    ensures var t := Taint(l, next);
            && HasItem(t)
            && var l' := PutItem(t, LastItem(t).(maybe := true));
               Fits(l') && SameSegment(l, l')
  {
    TaintKeeps(l, next);
    var t := Taint(l, next);
    PutItemKeeps(t, LastItem(t).(min := 0, max := 0));
    PutItemKeeps(t, LastItem(t).(maybe := true));
  }

  lemma EscapedSound(l: Level, frame: Frame, address: Address, depth: nat, codepoint: u32, next: nat)
    requires InGroup(l, frame, address)
    ensures Sound(l, frame, address, depth, EscapedToken(l, codepoint, next))
  {
    TextKeeps(l, codepoint, next + 1);
    AppendItemKeeps(l, Special(SpecialOf(Low(codepoint)), []), next + 1);
  }

  lemma SegmentsKeep(l: Level, next: nat)
    requires Fit(l.segments, |l.group.segments|)
    ensures var l' := AppendSegment(l, next); Fits(l') && l'.group.segments != []
  {
    GrownFit(l.segments, |l.group.segments|, next);
  }

  /** What a token does to the item at the end. */
  lemma ItemTokenSound(l: Level, item: Item, ranges: seq<nat>)
    requires HasItem(l) && Fits(l)
    ensures var l' := PutItem(l, item).(ranges := ranges);
            Fits(l') && SameSegment(l, l') && HasItem(l') && LastItem(l') == item && ItemAddress(l') == ItemAddress(l)
  {
    PutItemKeeps(l, item);
  }

  lemma SetTokenSound(l: Level, frame: Frame, address: Address, depth: nat, token: u32, next: nat)
    requires frame.SetFrame? && Fits(l) && Refers(frame, l, address)
    ensures Sound(l, frame, address, depth, SetToken(l, frame, token, next))
  {
    var ranges := LastItem(l).kind.ranges;
    var more := ranges + [Range(Unescaped(token), Unescaped(token))];
    ItemTokenSound(l, LastItem(l).(kind := Set(ranges, ChoicesList(ranges))), l.ranges);
    ItemTokenSound(l, LastItem(l).(kind := Set(more, [])), Grown(l.ranges, |ranges|, next));
  }

  lemma SetRangeTokenSound(l: Level, frame: Frame, address: Address, depth: nat, token: u32)
    requires frame.SetRangeFrame? && Fits(l) && Refers(frame, l, address)
    ensures Sound(l, frame, address, depth, SetRangeToken(l, frame, token))
  {
    var ranges := LastItem(l).kind.ranges;
    var wider := ranges[|ranges| - 1 := ranges[|ranges| - 1].(end := token)];
    ItemTokenSound(l, LastItem(l).(kind := Set(wider, [])), l.ranges);
  }

  lemma RepeatTokenSound(l: Level, frame: Frame, address: Address, depth: nat, token: u32)
    requires (frame.RepeatFrame? || frame.RepeatRangeFrame?) && Fits(l) && Refers(frame, l, address)
    ensures frame.RepeatFrame? ==> Sound(l, frame, address, depth, RepeatToken(l, frame, token))
    ensures frame.RepeatRangeFrame? ==> Sound(l, frame, address, depth, RepeatRangeToken(l, token))
  {
    var item := LastItem(l);
    PutItemKeeps(l, item.(max := item.min));
    PutItemKeeps(l, item.(max := 0));
    if IsDigit(token) {
      PutItemKeeps(l, item.(min := Digit(item.min, token)));
      PutItemKeeps(l, item.(max := Digit(item.max, token)));
    }
  }

  lemma SpecialTokenSound(l: Level, frame: Frame, address: Address, depth: nat, token: u32)
    requires (frame.SpecialFrame? || frame.SpecialNameFrame?) && Fits(l) && Refers(frame, l, address)
    ensures frame.SpecialFrame? ==> Sound(l, frame, address, depth, SpecialToken(l, frame, token))
    ensures frame.SpecialNameFrame? ==> Sound(l, frame, address, depth, SpecialNameToken(l, token))
  {
    var kind := LastItem(l).kind;
    PutItemKeeps(l, LastItem(l).(kind := kind.(name := kind.name + [Unescaped(token)])));
  }

  lemma MultiplierTokenSound(l: Level, frame: Frame, address: Address, depth: nat, token: u32)
    requires frame.MultiplierFrame? && Fits(l) && TopRefers(frame, l, address)
    ensures Sound(l, frame, address, depth, MultiplierToken(l, token))
  {
  }

  /** Whatever the token, the action keeps the spine. */
  lemma ActionSound(s: State, token: u32)
    requires Spine(s)
    ensures Refers(TopFrame(s), TopLevel(s), TopAddress(s))
    ensures Sound(TopLevel(s), TopFrame(s), TopAddress(s), |s.frames|, ActionOf(s, token))
  {
    TopFacts(s);
    var (l, frame, address, depth) := (TopLevel(s), TopFrame(s), TopAddress(s), |s.frames|);
    match frame
    case GroupFrame(_, _) => GroupTokenSound(l, frame, address, depth, token, s.next);
    case MultiplierFrame(_, _) => MultiplierTokenSound(l, frame, address, depth, token);
    case SetFrame(_, _) => SetTokenSound(l, frame, address, depth, token, s.next);
    case SetRangeFrame(_, _) => SetRangeTokenSound(l, frame, address, depth, token);
    case RepeatFrame(_) => RepeatTokenSound(l, frame, address, depth, token);
    case RepeatRangeFrame(_) => RepeatTokenSound(l, frame, address, depth, token);
    case SpecialFrame(_) => SpecialTokenSound(l, frame, address, depth, token);
    case SpecialNameFrame(_) => SpecialTokenSound(l, frame, address, depth, token);
  }

  lemma TopFacts(s: State)
    requires Spine(s)
    ensures Fits(TopLevel(s)) && Refers(TopFrame(s), TopLevel(s), TopAddress(s))
    ensures TopFrame(s).GroupFrame? <==> |s.frames| == |s.levels|
    ensures TopFrame(s).MultiplierFrame? ==> !HasItem(TopLevel(s))
  {
    assert GroupRefers(s, |s.levels| - 1);
  }

  // ---------------------------------------------------------------------
  // Applying an action
  // ---------------------------------------------------------------------

  /** The frame and the level stay, and so does the level below. */
  lemma LevelKept(s: State, t: State, k: nat)
    requires k < |s.levels| <= |s.frames| && k < |t.levels| <= |t.frames| && GroupRefers(s, k)
    requires t.frames[k] == s.frames[k] && t.levels[k] == s.levels[k]
    requires k > 0 ==> ItemAddress(t.levels[k - 1]) == ItemAddress(s.levels[k - 1])
    ensures GroupRefers(t, k)
    ensures Nests(s, k) ==> Nests(t, k)
  {
  }

  lemma SegmentRefers(frame: Frame, l: Level, l': Level, address: Address)
    requires RefersGroup(frame, l, address) && SameSegment(l, l')
    ensures RefersGroup(frame, l', address)
  {
  }

  lemma TopReplaced(s: State, l: Level, frame: Frame)
    requires Spine(s) && Fits(l)
    requires |s.frames| == |s.levels| ==> RefersGroup(frame, l, TopAddress(s))
    requires |s.frames| > |s.levels| ==> SameSegment(TopLevel(s), l) && TopRefers(frame, l, TopAddress(s))
    ensures Spine(PutTop(s, l, frame))
  {
    var t := PutTop(s, l, frame);
    var top := |s.levels| - 1;
    assert GroupRefers(s, top);
    assert GroupAddress(t.levels, top) == GroupAddress(s.levels, top);
    if |s.frames| > |s.levels| {
      SegmentRefers(s.frames[top], s.levels[top], l, TopAddress(s));
    }
    assert GroupRefers(t, top);
    forall k | 0 <= k < top
      ensures GroupRefers(t, k) && Nests(t, k)
    {
      assert GroupRefers(s, k) && Nests(s, k);
      LevelKept(s, t, k);
    }
  }

  lemma FramePushed(s: State, l: Level, frame: Frame)
    requires Spine(s) && |s.frames| == |s.levels| && Fits(l) && SameSegment(TopLevel(s), l)
    requires TopRefers(frame, l, TopAddress(s))
    ensures Spine(Pushed(PutTop(s, l, TopFrame(s)), frame))
  {
    TopFacts(s);
    TopReplaced(s, l, TopFrame(s));
    var t := PutTop(s, l, TopFrame(s));
    var u := Pushed(t, frame);
    forall k | 0 <= k < |u.levels|
      ensures GroupRefers(u, k) && (k < |u.levels| - 1 ==> Nests(u, k))
    {
      assert GroupRefers(t, k) && (k < |t.levels| - 1 ==> Nests(t, k));
      LevelKept(t, u, k);
    }
  }

  lemma FramePopped(s: State, l: Level)
    requires Spine(s) && |s.frames| > |s.levels| && Fits(l) && SameSegment(TopLevel(s), l)
    ensures Spine(Popped(PutTop(s, l, TopFrame(s))))
  {
    var u := Popped(PutTop(s, l, TopFrame(s)));
    var top := |s.levels| - 1;
    assert GroupRefers(s, top);
    assert GroupAddress(u.levels, top) == GroupAddress(s.levels, top);
    SegmentRefers(s.frames[top], s.levels[top], l, TopAddress(s));
    forall k | 0 <= k < top
      ensures GroupRefers(u, k) && Nests(u, k)
    {
      assert GroupRefers(s, k) && Nests(s, k);
      LevelKept(s, u, k);
    }
    assert GroupRefers(u, top);
  }

  lemma GroupOpened(s: State, l: Level, inner: Level)
    requires Spine(s) && |s.frames| == |s.levels| && Fits(l) && SameSegment(TopLevel(s), l)
    requires HasItem(l) && LastItem(l).kind.Nested? && Fits(inner) && inner.group.segments != []
    ensures Spine(Apply(s, Open(l, inner)))
  {
    TopFacts(s);
    TopReplaced(s, l, TopFrame(s));
    var t := PutTop(s, l, TopFrame(s));
    var u := Apply(s, Open(l, inner));
    var top := |s.levels| - 1;
    forall k | 0 <= k < top
      ensures GroupRefers(u, k) && Nests(u, k)
    {
      assert GroupRefers(t, k) && Nests(t, k);
      LevelKept(t, u, k);
    }
    assert GroupRefers(t, top);
    LevelKept(t, u, top);
    assert Nests(u, top) && GroupRefers(u, top + 1);
  }

  lemma GroupClosed(s: State, group: Group)
    requires Spine(s) && |s.frames| == |s.levels| > 1
    ensures Spine(Apply(s, Close(group)))
  {
    var u := Apply(s, Close(group));
    var top := |s.levels| - 2;
    var below := s.levels[top];
    assert GroupRefers(s, top) && Nests(s, top);
    PutItemKeeps(below, LastItem(below).(kind := Nested(group)));
    assert GroupAddress(u.levels, top) == GroupAddress(s.levels, top);
    SegmentRefers(s.frames[top], below, u.levels[top], GroupAddress(s.levels, top));
    forall k | 0 <= k < top
      ensures GroupRefers(u, k) && Nests(u, k)
    {
      assert GroupRefers(s, k) && Nests(s, k);
      LevelKept(s, u, k);
    }
  }

  lemma ApplySound(s: State, action: Action)
    requires Spine(s) && !action.Reject? && Sound(TopLevel(s), TopFrame(s), TopAddress(s), |s.frames|, action)
    ensures Spine(Apply(s, action))
  {
    TopFacts(s);
    match action
    case Stay(l) => TopReplaced(s, l, TopFrame(s));
    case Become(l, frame) => TopReplaced(s, l, frame);
    case Push(l, frame) => FramePushed(s, l, frame);
    case Pop(l) => FramePopped(s, l);
    case Open(l, inner) => GroupOpened(s, l, inner);
    case Close(group) => GroupClosed(s, group);
  }

  /** A token never finds a frame with an address other than that of what it is about, and keeps the spine. */
  lemma StepSpine(s: State, token: u32)
    requires Spine(s)
    ensures Step(s, token).0 != Astray
    ensures Step(s, token).0 == Accepted ==> Spine(Step(s, token).1)
  {
    ActionSound(s, token);
    if !ActionOf(s, token).Reject? {
      ApplySound(s, ActionOf(s, token));
    }
  }

  lemma InitialSpine(limit: nat)
    ensures Spine(Initial(limit))
  {
    SegmentsKeep(Level(Group([], 0), [], [], []), 0);
  }

  lemma {:induction false} RunSpine(s: State, tokens: seq<u32>)
    requires Spine(s)
    ensures Run(s, tokens).0 != Astray
    ensures Run(s, tokens).0 == Accepted ==> Spine(Run(s, tokens).1)
    decreases |tokens|
  {
    if tokens != [] {
      StepSpine(s, tokens[0]);
      if Step(s, tokens[0]).0 == Accepted {
        RunSpine(Step(s, tokens[0]).1, tokens[1..]);
      }
    }
  }
}
