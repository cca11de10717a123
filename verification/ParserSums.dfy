// The sum of multipliers that the parser keeps for every group, and by how much it drifts from the real one.

module ParserSums {
  import opened Words
  import opened Pattern
  import opened Parsing
  import opened ParserSpine

  /** The sum of the multipliers that the segments really have. */
  function Sum(l: Level): nat {
    Multipliers(l.group.segments, |l.group.segments|)
  }

  /** The kept sum is the real one, without the multiplier that is being read, and with the drift. */
  predicate Balanced(l: Level, drift: int, pending: nat) {
    l.group.sum == Wrap(Sum(l) - pending + drift)
  }

  /** The multiplier that is being read on level k. */
  function Pending(s: State, k: nat): nat
    requires k < |s.levels|
  {
    if k == |s.levels| - 1 && s.frames != [] && TopFrame(s).MultiplierFrame? then Current(s.levels[k]).multiplier else 0
  }

  predicate Balance(s: State, drifts: seq<int>) {
    && |drifts| == |s.levels|
    && forall k :: 0 <= k < |s.levels| ==> Balanced(s.levels[k], drifts[k], Pending(s, k))
  }

  /**
    How a token makes the sum drift: a segment that is taken up again after a zero multiplier counts one too little, and
    a prefix takes back only one, whatever the segment's multiplier was.
   */
  function GroupDrift(l: Level, token: u32): int {
    if IsEscaped(token) then 0
    else if Low(token) == '|' as int && Current(l).multiplier == 0 then -1
    else if Low(token) == '{' as int && !HasItem(l) then Current(l).multiplier - 1
    else 0
  }

  function Drift(s: State, token: u32): int
    requires s.frames != [] && s.levels != []
  {
    if TopFrame(s).GroupFrame? then GroupDrift(Clean(TopLevel(s), s.next), token) else 0
  }

  /** The drifts of all the levels after a token. */
  function Drifted(s: State, drifts: seq<int>, token: u32): seq<int> {
    if s.frames == [] || s.levels == [] || drifts == [] || !Refers(TopFrame(s), TopLevel(s), TopAddress(s)) then drifts
    else DriftedBy(drifts, ActionOf(s, token), drifts[|drifts| - 1] + Drift(s, token))
  }

  function DriftedBy(drifts: seq<int>, action: Action, drift: int): seq<int>
    requires drifts != []
  {
    match action
    case Open(_, _) => drifts[|drifts| - 1 := drift] + [0]
    case Close(_) => drifts[..|drifts| - 1]
    case _ => drifts[|drifts| - 1 := drift]
  }

  // ---------------------------------------------------------------------
  // Arithmetic
  // ---------------------------------------------------------------------

  lemma {:induction false} MultipliersPrefix(a: seq<Segment>, b: seq<Segment>, n: nat)
    requires n <= |a| && n <= |b| && a[..n] == b[..n]
    ensures Multipliers(a, n) == Multipliers(b, n)
  {
    if n > 0 {
      assert a[n - 1] == a[..n][n - 1] == b[..n][n - 1] == b[n - 1];
      assert a[..n - 1] == a[..n][..n - 1] == b[..n][..n - 1] == b[..n - 1];
      MultipliersPrefix(a, b, n - 1);
    }
  }

  lemma PutSegmentSum(l: Level, segment: Segment)
    requires l.group.segments != []
    ensures Sum(PutSegment(l, segment)) == Sum(l) - Current(l).multiplier + segment.multiplier
  {
    var n := |l.group.segments|;
    MultipliersPrefix(l.group.segments, PutSegment(l, segment).group.segments, n - 1);
  }

  lemma AppendSegmentSum(l: Level, next: nat)
    ensures Sum(AppendSegment(l, next)) == Sum(l) + 1
  {
    var n := |l.group.segments|;
    MultipliersPrefix(l.group.segments, AppendSegment(l, next).group.segments, n);
  }

  lemma DropSegmentSum(l: Level, next: nat)
    requires l.group.segments != [] && Current(l).multiplier == 0
    ensures Sum(DropSegment(l, next)) == Sum(l)
  {
    var n := |l.group.segments|;
    MultipliersPrefix(l.group.segments, DropSegment(l, next).group.segments, n - 1);
  }

  /** The multipliers and their sum are left alone. */
  predicate SameSums(l: Level, l': Level) {
    l'.group.sum == l.group.sum && Sum(l') == Sum(l) && Current(l').multiplier == Current(l).multiplier
  }

  lemma PutItemSums(l: Level, item: Item)
    requires HasItem(l)
    ensures SameSums(l, PutItem(l, item))
  {
    PutSegmentSum(l, Current(l).(items := Current(l).items[|Current(l).items| - 1 := item]));
  }

  lemma AppendItemSums(l: Level, kind: Kind, next: nat)
    requires l.group.segments != []
    ensures SameSums(l, AppendItem(l, kind, next))
  {
    PutSegmentSum(l, Current(l).(items := Current(l).items + [Item(kind, 1, 1, false)]));
  }

  lemma CleanSums(l: Level, next: nat)
    ensures SameSums(l, Clean(l, next))
  {
    if HasItem(l) {
      PutSegmentSum(l, Current(l).(items := Current(l).items[..|Current(l).items| - 1]));
    }
  }

  lemma TaintSums(l: Level, next: nat)
    requires HasItem(l)
    ensures SameSums(l, Taint(l, next)) && HasItem(Taint(l, next))
  {
    var item := LastItem(l);
    if item.kind.Literal? {
      var cs := item.kind.codepoints;
      PutItemSums(l, item.(kind := Literal(cs, true)));
      if |cs| > 1 {
        var shorter := item.(kind := Literal(cs[..|cs| - 1], item.kind.tainted));
        PutItemSums(l, shorter);
        AppendItemSums(PutItem(l, shorter), Literal([cs[|cs| - 1]], true), next);
      }
    }
  }

  lemma TextSums(l: Level, codepoint: u32, next: nat)
    requires l.group.segments != []
    ensures SameSums(l, Text(l, codepoint, next))
  {
    AppendItemSums(l, Literal([codepoint], false), next);
    if HasItem(l) && LastItem(l).kind.Literal? {
      PutItemSums(l, LastItem(l).(kind := Literal(LastItem(l).kind.codepoints + [codepoint], false)));
    }
  }

  // ---------------------------------------------------------------------
  // Actions
  // ---------------------------------------------------------------------

  /** The multiplier of the current segment, if the frame is reading it. */
  function Reading(frame: Frame, l: Level): nat {
    if frame.MultiplierFrame? then Current(l).multiplier else 0
  }

  /** After the action, the kept sums are the real ones with this drift. */
  predicate Evens(frame: Frame, action: Action, drift: int) {
    match action
    case Reject(_) => true
    case Stay(l) => Balanced(l, drift, Reading(frame, l))
    case Become(l, frame') => Balanced(l, drift, Reading(frame', l))
    case Push(l, frame') => Balanced(l, drift, Reading(frame', l))
    case Pop(l) => Balanced(l, drift, 0)
    case Open(l, inner) => Balanced(l, drift, 0) && Balanced(inner, 0, 0)
    case Close(_) => true
  }

  lemma PipeEvens(l: Level, frame: Frame, drift: int, next: nat)
    requires l.group.segments != [] && Balanced(l, drift, 0)
    ensures Current(l).multiplier > 0 ==> Balanced(AppendSegment(l, next), drift, 0)
    ensures Current(l).multiplier == 0 ==> Balanced(PutSegment(l, Segment([], 1)).(items := []), drift - 1, 0)
  {
    AppendSegmentSum(l, next);
    WrapPlus(Sum(l) + drift, 1);
    PutSegmentSum(l, Segment([], 1));
  }

  lemma PrefixEvens(l: Level, drift: int)
    requires l.group.segments != [] && Balanced(l, drift, 0)
    ensures Balanced(Prefixed(l), drift + Current(l).multiplier - 1, 0) && Current(Prefixed(l)).multiplier == 0
  {
    PutSegmentSum(l, Current(l).(multiplier := 0));
    WrapPlus(Sum(l) + drift, -1);
  }

  lemma NewGroupEvens(next: nat)
    ensures Balanced(AppendSegment(Level(Group([], 0), [], [], []), next), 0, 0)
  {
    AppendSegmentSum(Level(Group([], 0), [], [], []), next);
  }

  lemma ModifierEvens(l: Level, drift: int, next: nat)
    requires HasItem(l) && Balanced(l, drift, 0)
    ensures HasItem(Taint(l, next))
    ensures var t := Taint(l, next); Balanced(PutItem(t, LastItem(t).(min := 0, max := 0)), drift, 0)
    ensures var t := Taint(l, next); Balanced(PutItem(t, LastItem(t).(maybe := true)), drift, 0)
  {
    TaintSums(l, next);
    var t := Taint(l, next);
    PutItemSums(t, LastItem(t).(min := 0, max := 0));
    PutItemSums(t, LastItem(t).(maybe := true));
  }

  lemma EscapedEvens(l: Level, frame: Frame, drift: int, codepoint: u32, next: nat)
    requires l.group.segments != [] && frame.GroupFrame? && Balanced(l, drift, 0)
    ensures Evens(frame, EscapedToken(l, codepoint, next), drift)
  {
    TextSums(l, codepoint, next + 1);
    AppendItemSums(l, Special(SpecialOf(Low(codepoint)), []), next + 1);
  }

  lemma GroupTokenEvens(l: Level, frame: Frame, address: Address, depth: nat, token: u32, next: nat, drift: int)
    requires InGroup(l, frame, address) && Balanced(l, drift, 0)
    ensures Evens(frame, GroupToken(l, frame, address, depth, token, next), drift + GroupDrift(Clean(l, next), token))
  {
    var l' := Clean(l, next);
    CleanSums(l, next);
    var c := Low(token);
    if IsEscaped(token) {
      EscapedEvens(l', frame, drift, Unescaped(token), next);
    } else if c == '|' as int {
      PipeEvens(l', frame, drift, next + 1);
    } else if c == '(' as int {
      AppendItemSums(l', Nested(Group([], 0)), next + 1);
      NewGroupEvens(next + 2);
    } else if c == '[' as int {
      AppendItemSums(l', Set([], []), next + 1);
    } else if c == '{' as int && !HasItem(l') {
      PrefixEvens(l', drift);
    } else if c == '{' as int || c == '?' as int {
      if HasItem(l') {
        ModifierEvens(l', drift, next + 1);
      }
    } else {
      TextSums(l', token, next + 1);
    }
  }

  lemma MultiplierTokenEvens(l: Level, frame: Frame, token: u32, drift: int)
    requires frame.MultiplierFrame? && l.group.segments != [] && Balanced(l, drift, Current(l).multiplier)
    ensures Evens(frame, MultiplierToken(l, token), drift)
  {
    if token as int == '}' as int {
      WrapPlus(Sum(l) - Current(l).multiplier + drift, Current(l).multiplier);
    } else if IsDigit(token) {
      PutSegmentSum(l, Current(l).(multiplier := Digit(Current(l).multiplier, token)));
    }
  }

  lemma ItemTokenEvens(l: Level, item: Item, ranges: seq<nat>, drift: int)
    requires HasItem(l) && Balanced(l, drift, 0)
    ensures Balanced(PutItem(l, item).(ranges := ranges), drift, 0)
  {
    PutItemSums(l, item);
  }

  lemma SetTokenEvens(l: Level, frame: Frame, token: u32, next: nat, drift: int)
    requires frame.SetFrame? && RefersSet(frame.target, frame.range, l) && Balanced(l, drift, 0)
    ensures Evens(frame, SetToken(l, frame, token, next), drift)
  {
    var ranges := LastItem(l).kind.ranges;
    var more := ranges + [Range(Unescaped(token), Unescaped(token))];
    ItemTokenEvens(l, LastItem(l).(kind := Set(ranges, ChoicesList(ranges))), l.ranges, drift);
    ItemTokenEvens(l, LastItem(l).(kind := Set(more, [])), Grown(l.ranges, |ranges|, next), drift);
  }

  lemma SetRangeTokenEvens(l: Level, frame: Frame, token: u32, drift: int)
    requires frame.SetRangeFrame? && frame.range.Some? && RefersSet(frame.target, frame.range, l)
    requires Balanced(l, drift, 0)
    ensures Evens(frame, SetRangeToken(l, frame, token), drift)
  {
    var ranges := LastItem(l).kind.ranges;
    var wider := ranges[|ranges| - 1 := ranges[|ranges| - 1].(end := token)];
    ItemTokenEvens(l, LastItem(l).(kind := Set(wider, [])), l.ranges, drift);
  }

  lemma RepeatTokenEvens(l: Level, frame: Frame, token: u32, drift: int)
    requires (frame.RepeatFrame? || frame.RepeatRangeFrame?) && HasItem(l) && Balanced(l, drift, 0)
    ensures frame.RepeatFrame? ==> Evens(frame, RepeatToken(l, frame, token), drift)
    ensures frame.RepeatRangeFrame? ==> Evens(frame, RepeatRangeToken(l, token), drift)
  {
    var item := LastItem(l);
    PutItemSums(l, item.(max := item.min));
    PutItemSums(l, item.(max := 0));
    if IsDigit(token) {
      PutItemSums(l, item.(min := Digit(item.min, token)));
      PutItemSums(l, item.(max := Digit(item.max, token)));
    }
  }

  lemma SpecialTokenEvens(l: Level, frame: Frame, token: u32, drift: int)
    requires (frame.SpecialFrame? || frame.SpecialNameFrame?) && HasItem(l) && LastItem(l).kind.Special?
    requires Balanced(l, drift, 0)
    ensures frame.SpecialFrame? ==> Evens(frame, SpecialToken(l, frame, token), drift)
    ensures frame.SpecialNameFrame? ==> Evens(frame, SpecialNameToken(l, token), drift)
  {
    var kind := LastItem(l).kind;
    PutItemSums(l, LastItem(l).(kind := kind.(name := kind.name + [Unescaped(token)])));
  }

  lemma ActionEvens(s: State, drifts: seq<int>, token: u32)
    requires Spine(s) && Balance(s, drifts)
    ensures Refers(TopFrame(s), TopLevel(s), TopAddress(s))
    ensures Evens(TopFrame(s), ActionOf(s, token), drifts[|drifts| - 1] + Drift(s, token))
  {
    TopFacts(s);
    var top := |s.levels| - 1;
    var (l, frame, drift) := (TopLevel(s), TopFrame(s), drifts[top]);
    assert Balanced(l, drift, Pending(s, top));
    match frame
    case GroupFrame(_, _) => GroupTokenEvens(l, frame, TopAddress(s), |s.frames|, token, s.next, drift);
    case MultiplierFrame(_, _) => MultiplierTokenEvens(l, frame, token, drift);
    case SetFrame(_, _) => SetTokenEvens(l, frame, token, s.next, drift);
    case SetRangeFrame(_, _) => SetRangeTokenEvens(l, frame, token, drift);
    case RepeatFrame(_) => RepeatTokenEvens(l, frame, token, drift);
    case RepeatRangeFrame(_) => RepeatTokenEvens(l, frame, token, drift);
    case SpecialFrame(_) => SpecialTokenEvens(l, frame, token, drift);
    case SpecialNameFrame(_) => SpecialTokenEvens(l, frame, token, drift);
  }

  // ---------------------------------------------------------------------
  // Runs
  // ---------------------------------------------------------------------

  /** An accepted token keeps the balance of all the levels, with the drifts that it causes. */
  lemma StepBalance(s: State, drifts: seq<int>, token: u32)
    requires Spine(s) && Balance(s, drifts) && Step(s, token).0 == Accepted
    ensures Spine(Step(s, token).1) && Balance(Step(s, token).1, Drifted(s, drifts, token))
  {
    StepSpine(s, token);
    ActionSound(s, token);
    ActionEvens(s, drifts, token);
    ApplyBalance(s, ActionOf(s, token), drifts, drifts[|drifts| - 1] + Drift(s, token));
  }

  lemma ApplyBalance(s: State, action: Action, drifts: seq<int>, drift: int)
    requires Spine(s) && Balance(s, drifts) && !action.Reject? && Evens(TopFrame(s), action, drift)
    requires Sound(TopLevel(s), TopFrame(s), TopAddress(s), |s.frames|, action)
    ensures Balance(Apply(s, action), DriftedBy(drifts, action, drift))
  {
    TopFacts(s);
    ApplySound(s, action);
    var t := Apply(s, action);
    TopFacts(t);
    match action
    case Stay(l) => TopBalance(s, t, l, drifts, drift);
    case Become(l, _) => TopBalance(s, t, l, drifts, drift);
    case Push(l, _) => TopBalance(s, t, l, drifts, drift);
    case Pop(l) => TopBalance(s, t, l, drifts, drift);
    case Open(l, inner) => OpenBalance(s, t, l, inner, drifts, drift);
    case Close(group) => CloseBalance(s, t, group, drifts);
  }

  lemma TopBalance(s: State, t: State, l: Level, drifts: seq<int>, drift: int)
    requires s.levels != [] && t.frames != [] && Balance(s, drifts)
    requires t.levels == s.levels[|s.levels| - 1 := l] && Balanced(l, drift, Reading(TopFrame(t), l))
    ensures Balance(t, drifts[|drifts| - 1 := drift])
  {
    forall k | 0 <= k < |t.levels|
      ensures Balanced(t.levels[k], drifts[|drifts| - 1 := drift][k], Pending(t, k))
    {
      assert Balanced(s.levels[k], drifts[k], Pending(s, k));
    }
  }

  lemma OpenBalance(s: State, t: State, l: Level, inner: Level, drifts: seq<int>, drift: int)
    requires s.levels != [] && t.frames != [] && TopFrame(t).GroupFrame? && Balance(s, drifts)
    requires t.levels == s.levels[|s.levels| - 1 := l] + [inner] && Balanced(l, drift, 0) && Balanced(inner, 0, 0)
    ensures Balance(t, drifts[|drifts| - 1 := drift] + [0])
  {
    var drifts' := drifts[|drifts| - 1 := drift] + [0];
    forall k | 0 <= k < |t.levels|
      ensures Balanced(t.levels[k], drifts'[k], Pending(t, k))
    {
      if k < |s.levels| - 1 {
        assert Balanced(s.levels[k], drifts[k], Pending(s, k));
      }
    }
  }

  lemma CloseBalance(s: State, t: State, group: Group, drifts: seq<int>)
    requires Spine(s) && |s.levels| > 1 && Balance(s, drifts)
    requires t == Apply(s, Close(group)) && t.frames != [] && TopFrame(t).GroupFrame?
    ensures Balance(t, drifts[..|drifts| - 1])
  {
    var top := |s.levels| - 2;
    assert Nests(s, top);
    PutItemSums(s.levels[top], LastItem(s.levels[top]).(kind := Nested(group)));
    forall k | 0 <= k < |t.levels|
      ensures Balanced(t.levels[k], drifts[..|drifts| - 1][k], Pending(t, k))
    {
      assert Balanced(s.levels[k], drifts[k], Pending(s, k));
    }
  }

  function RunDrifts(s: State, drifts: seq<int>, tokens: seq<u32>): seq<int>
    decreases |tokens|
  {
    if tokens == [] then drifts else RunDrifts(Step(s, tokens[0]).1, Drifted(s, drifts, tokens[0]), tokens[1..])
  }

  /** After an accepted run, the kept sums are the real ones with the drift that the run caused. */
  lemma {:induction false} RunBalance(s: State, drifts: seq<int>, tokens: seq<u32>)
    requires Spine(s) && Balance(s, drifts) && Run(s, tokens).0 == Accepted
    ensures Balance(Run(s, tokens).1, RunDrifts(s, drifts, tokens))
    decreases |tokens|
  {
    if tokens != [] {
      StepBalance(s, drifts, tokens[0]);
      RunBalance(Step(s, tokens[0]).1, Drifted(s, drifts, tokens[0]), tokens[1..]);
    }
  }

  /** No segment is taken up again after a zero multiplier, and prefixes only meet multipliers of 1. */
  predicate Regular(s: State, tokens: seq<u32>)
    decreases |tokens|
  {
    tokens != [] ==>
      && s.frames != [] && s.levels != [] && Drift(s, tokens[0]) == 0
      && Regular(Step(s, tokens[0]).1, tokens[1..])
  }

  predicate NoDrift(drifts: seq<int>) {
    forall k :: 0 <= k < |drifts| ==> drifts[k] == 0
  }

  lemma {:induction false} RegularNoDrift(s: State, drifts: seq<int>, tokens: seq<u32>)
    requires Regular(s, tokens) && NoDrift(drifts)
    ensures NoDrift(RunDrifts(s, drifts, tokens))
    decreases |tokens|
  {
    if tokens != [] {
      RegularNoDrift(Step(s, tokens[0]).1, Drifted(s, drifts, tokens[0]), tokens[1..]);
    }
  }

  /** In a regular run, every group's sum is that of its segments' multipliers, whenever no multiplier is being read. */
  lemma {:induction false} RegularSums(limit: nat, tokens: seq<u32>, k: nat)
    requires Run(Initial(limit), tokens).0 == Accepted && Regular(Initial(limit), tokens)
    requires k < |Run(Initial(limit), tokens).1.levels| && Pending(Run(Initial(limit), tokens).1, k) == 0
    ensures var l := Run(Initial(limit), tokens).1.levels[k]; l.group.sum == Wrap(Sum(l))
  {
    InitialSpine(limit);
    NewGroupEvens(0);
    RunBalance(Initial(limit), [0], tokens);
    RegularNoDrift(Initial(limit), [0], tokens);
  }

  /** A closed group keeps its sum with the drift, unless it has no items. */
  lemma ClosedSum(l: Level, frame: Frame, address: Address, depth: nat, token: u32, next: nat, drift: int)
    requires InGroup(l, frame, address) && Balanced(l, drift, 0)
    requires GroupToken(l, frame, address, depth, token, next).Close?
    ensures var g := GroupToken(l, frame, address, depth, token, next).group;
            if forall i :: 0 <= i < |g.segments| ==> g.segments[i].items == [] then g.sum == 0
            else g.sum == Wrap(Multipliers(g.segments, |g.segments|) + drift)
  {
    var l' := Clean(l, next);
    CleanKeeps(l, next);
    CleanSums(l, next);
    if Current(l').multiplier == 0 {
      DropSegmentSum(l', next + 1);
    }
  }

  lemma DriftShows(sum: nat, drift: int)
    ensures Wrap(sum + drift) == Wrap(sum) <==> drift % W64 == 0
  {
    if drift % W64 == 0 {
      DivUnique(sum + drift, W64, sum / W64 + drift / W64, Wrap(sum));
    }
    if Wrap(sum + drift) == Wrap(sum) {
      DivUnique(drift, W64, (sum + drift) / W64 - sum / W64, 0);
    }
  }

  lemma BalanceExact(s: State, drifts: seq<int>, k: nat)
    requires Balance(s, drifts) && k < |s.levels| && Pending(s, k) == 0
    ensures s.levels[k].group.sum == Wrap(Sum(s.levels[k])) <==> drifts[k] % W64 == 0
  {
    assert Balanced(s.levels[k], drifts[k], 0);
    DriftShows(Sum(s.levels[k]), drifts[k]);
  }

  /**
    After an accepted run, a group's sum is that of its segments' multipliers exactly if what the tokens made it drift
    by is none modulo 2^64, whenever no multiplier is being read.
   */
  lemma SumsExact(limit: nat, tokens: seq<u32>, k: nat)
    requires Run(Initial(limit), tokens).0 == Accepted
    requires k < |Run(Initial(limit), tokens).1.levels| && Pending(Run(Initial(limit), tokens).1, k) == 0
    ensures k < |RunDrifts(Initial(limit), [0], tokens)|
    ensures var l := Run(Initial(limit), tokens).1.levels[k];
            l.group.sum == Wrap(Sum(l)) <==> RunDrifts(Initial(limit), [0], tokens)[k] % W64 == 0
  {
    InitialSpine(limit);
    NewGroupEvens(0);
    RunBalance(Initial(limit), [0], tokens);
    BalanceExact(Run(Initial(limit), tokens).1, RunDrifts(Initial(limit), [0], tokens), k);
  }
}
