// The parser (src/parser/parser.c) as the object that the tokens are fed to.

module Parser {
  import opened Words
  import opened Pattern
  import opened Parsing
  import opened ParserSpine
  import opened ParserSums
  import opened ParserContent
  import opened ParserBlocks
  import ParserPrint
  import ParserSimple
  import ParserWritten

  /** The choices of a set, summed up over its ranges. */
  method SumChoices(ranges: seq<Range>) returns (list: seq<nat>)
    ensures list == ChoicesList(ranges)
  {
    var choices := 0;
    list := [];
    for i := 0 to |ranges|
      invariant |list| == i && choices == Choices(ranges, i)
      invariant forall k :: 0 <= k < i ==> list[k] == Choices(ranges, k + 1)
    {
      var size := (1 + ranges[i].end as int - ranges[i].start as int) % B;
      choices := Wrap(choices + size);
      list := list + [choices];
    }
  }

  /** Whether the group has items decides whether it keeps its sum. */
  method FinishGroup(g: Group) returns (g': Group)
    ensures g' == Finished(g)
  {
    var empty := true;
    for i := 0 to |g.segments|
      invariant empty <==> forall k :: 0 <= k < i ==> g.segments[k].items == []
    {
      if |g.segments[i].items| > 0 {
        empty := false;
      }
    }
    return if empty then g.(sum := 0) else g;
  }

  class Parser {
    const limit: nat
    var frames: seq<Frame>
    var levels: seq<Level>
    var next: nat
    ghost var drifts: seq<int>  // by how much the sum of each open group is off

    ghost function Now(): State
      reads this
    {
      State(frames, levels, limit, next)
    }

    ghost predicate Valid()
      reads this
    {
      Spine(Now()) && Balance(Now(), drifts) && Content(Now(), false) && Used(Now())
    }

    constructor (limit: nat)
      ensures Valid() && Now() == Initial(limit) && drifts == [0]
    {
      this.limit := limit;
      var root := AppendSegment(Level(Group([], 0), [], [], []), 0);
      frames := [GroupFrame(Root, SegmentAddress(root))];
      levels := [root];
      next := 1;
      drifts := [0];
      new;
      InitialSpine(limit);
      NewGroupEvens(0);
      InitialUsed(limit);
    }

    /** The new top level, and the blocks that it took. */
    method Put(l: Level)
      requires levels != [] && frames != []
      modifies this`levels, this`next
      ensures Now() == PutTop(old(Now()), l, TopFrame(old(Now())))
    {
      levels := levels[|levels| - 1 := l];
      next := next + 3;
    }

    /** The top frame changes its type or its addresses. */
    method Replace(frame: Frame)
      requires levels != [] && frames != []
      modifies this`frames
      ensures Now() == old(Now()).(frames := frames) && frames == old(frames)[|old(frames)| - 1 := frame]
    {
      frames := frames[|frames| - 1 := frame];
    }

    method PushFrame(frame: Frame)
      modifies this`frames
      ensures Now() == Pushed(old(Now()), frame)
    {
      frames := frames + [frame];
    }

    method PopFrame()
      requires frames != []
      modifies this`frames
      ensures Now() == Popped(old(Now()))
    {
      frames := frames[..|frames| - 1];
    }

    /**
      Feeds a token. If it is accepted, the frames still form a spine, every sum is off by just what the tokens so far
      made it drift by, all the items that are done are complete, and no block is used twice.
     */
    method Token(token: u32) returns (code: Code)
      requires Valid()
      modifies this
      ensures (code, Now()) == Step(old(Now()), token)
      ensures code != Astray && (code == Accepted ==> Valid())
      ensures code == Accepted ==> drifts == Drifted(old(Now()), old(drifts), token)
    {
      ghost var s := Now();
      StepSpine(s, token);
      TopFacts(s);
      if limit > 0 && |frames| >= limit {
        return Rejected;
      }
      code := Handle(token);
      if code == Accepted {
        StepBalance(s, drifts, token);
        StepContent(s, drifts, token, false);
        StepUsed(s, token);
        drifts := Drifted(s, drifts, token);
      }
    }

    /** What the top frame makes of the token. */
    method Handle(token: u32) returns (code: Code)
      requires Spine(Now()) && Refers(TopFrame(Now()), TopLevel(Now()), TopAddress(Now()))
      modifies this`frames, this`levels, this`next
      ensures Does(old(Now()), token, code)
    {
      match frames[|frames| - 1]
      case GroupFrame(_, _) => code := InGroup(token);
      case MultiplierFrame(_, _) => code := InMultiplier(token);
      case SetFrame(_, _) => code := InSet(token);
      case SetRangeFrame(_, _) => code := InSetRange(token);
      case RepeatFrame(_) => code := InRepeat(token);
      case RepeatRangeFrame(_) => code := InRepeatRange(token);
      case SpecialFrame(_) => code := InSpecial(token);
      case SpecialNameFrame(_) => code := InSpecialName(token);
    }

    /** The code and the state that the token's action leads to. */
    ghost predicate Does(s: State, token: u32, code: Code)
      requires s.frames != [] && s.levels != [] && Refers(TopFrame(s), TopLevel(s), TopAddress(s))
      reads this
    {
      Performs(s, ActionOf(s, token), code)
    }

    method InMultiplier(token: u32) returns (code: Code)
      requires Spine(Now()) && TopFrame(Now()).MultiplierFrame?
      requires Refers(TopFrame(Now()), TopLevel(Now()), TopAddress(Now()))
      modifies this`frames, this`levels, this`next
      ensures Does(old(Now()), token, code)
    {
      var l := levels[|levels| - 1];
      var segment := Current(l);
      if token as int == '}' as int {
        Put(l.(group := l.group.(sum := Wrap(l.group.sum + segment.multiplier))));
        PopFrame();
        return Accepted;
      }
      if IsDigit(token) {
        Put(PutSegment(l, segment.(multiplier := Digit(segment.multiplier, token))));
        return Accepted;
      }
      Put(l);
      return Rejected;
    }

    method InSet(token: u32) returns (code: Code)
      requires Spine(Now()) && TopFrame(Now()).SetFrame?
      requires Refers(TopFrame(Now()), TopLevel(Now()), TopAddress(Now()))
      modifies this`frames, this`levels, this`next
      ensures Does(old(Now()), token, code)
    {
      var l := levels[|levels| - 1];
      var frame := frames[|frames| - 1];
      var ranges := LastItem(l).kind.ranges;
      if token as int == ']' as int {
        var choices := SumChoices(ranges);
        Put(PutItem(l, LastItem(l).(kind := Set(ranges, choices))));
        PopFrame();
        return Accepted;
      }
      if frame.range.Some? && token as int == '-' as int {
        Put(l);
        Replace(SetRangeFrame(frame.target, frame.range));
        return Accepted;
      }
      var codepoint := token;
      if IsEscaped(codepoint) {
        codepoint := Unescaped(codepoint);
        if codepoint as int != '-' as int {
          Put(l);
          return Rejected;
        }
      }
      var l' := PutRanges(l, ranges + [Range(codepoint, codepoint)]).(ranges := Grown(l.ranges, |ranges|, next));
      Put(l');
      Replace(SetFrame(frame.target, Some(RangeAddress(l'))));
      return Accepted;
    }

    method InSetRange(token: u32) returns (code: Code)
      requires Spine(Now()) && TopFrame(Now()).SetRangeFrame?
      requires Refers(TopFrame(Now()), TopLevel(Now()), TopAddress(Now()))
      modifies this`frames, this`levels, this`next
      ensures Does(old(Now()), token, code)
    {
      var l := levels[|levels| - 1];
      var frame := frames[|frames| - 1];
      var ranges := LastItem(l).kind.ranges;
      var range := ranges[|ranges| - 1];
      if token as int == ']' as int || token < range.start {
        Put(l);
        return Rejected;
      }
      Put(PutRanges(l, ranges[|ranges| - 1 := range.(end := token)]));
      Replace(SetFrame(frame.target, frame.range));
      return Accepted;
    }

    method InRepeat(token: u32) returns (code: Code)
      requires Spine(Now()) && TopFrame(Now()).RepeatFrame?
      requires Refers(TopFrame(Now()), TopLevel(Now()), TopAddress(Now()))
      modifies this`frames, this`levels, this`next
      ensures Does(old(Now()), token, code)
    {
      var l := levels[|levels| - 1];
      var frame := frames[|frames| - 1];
      var item := LastItem(l);
      if token as int == '}' as int {
        Put(PutItem(l, item.(max := item.min)));
        PopFrame();
        return Accepted;
      }
      if token as int == ',' as int {
        Put(PutItem(l, item.(max := 0)));
        Replace(RepeatRangeFrame(frame.repeat));
        return Accepted;
      }
      if IsDigit(token) {
        Put(PutItem(l, item.(min := Digit(item.min, token))));
        return Accepted;
      }
      Put(l);
      return Rejected;
    }

    method InRepeatRange(token: u32) returns (code: Code)
      requires Spine(Now()) && TopFrame(Now()).RepeatRangeFrame?
      requires Refers(TopFrame(Now()), TopLevel(Now()), TopAddress(Now()))
      modifies this`frames, this`levels, this`next
      ensures Does(old(Now()), token, code)
    {
      var l := levels[|levels| - 1];
      var item := LastItem(l);
      if token as int == '}' as int {
        Put(l);
        PopFrame();
        return Accepted;
      }
      if IsDigit(token) {
        Put(PutItem(l, item.(max := Digit(item.max, token))));
        return Accepted;
      }
      Put(l);
      return Rejected;
    }

    method InSpecial(token: u32) returns (code: Code)
      requires Spine(Now()) && TopFrame(Now()).SpecialFrame?
      requires Refers(TopFrame(Now()), TopLevel(Now()), TopAddress(Now()))
      modifies this`frames, this`levels, this`next
      ensures Does(old(Now()), token, code)
    {
      var l := levels[|levels| - 1];
      Put(l);
      if token as int == '{' as int {
        Replace(SpecialNameFrame(frames[|frames| - 1].special));
        return Accepted;
      }
      return Rejected;
    }

    method InSpecialName(token: u32) returns (code: Code)
      requires Spine(Now()) && TopFrame(Now()).SpecialNameFrame?
      requires Refers(TopFrame(Now()), TopLevel(Now()), TopAddress(Now()))
      modifies this`frames, this`levels, this`next
      ensures Does(old(Now()), token, code)
    {
      var l := levels[|levels| - 1];
      if token as int == '}' as int {
        Put(l);
        PopFrame();
      } else {
        var kind := LastItem(l).kind;
        Put(PutItem(l, LastItem(l).(kind := kind.(name := kind.name + [Unescaped(token)]))));
      }
      return Accepted;
    }

    /** The code and the state that an action leads to. */
    ghost predicate Performs(s: State, action: Action, code: Code)
      requires s.frames != [] && s.levels != []
      reads this
    {
      Now() == Apply(s, action) && code == if action.Reject? then Rejected else Accepted
    }

    method InGroup(token: u32) returns (code: Code)
      requires Spine(Now()) && TopFrame(Now()).GroupFrame?
      requires Refers(TopFrame(Now()), TopLevel(Now()), TopAddress(Now()))
      modifies this`frames, this`levels, this`next
      ensures Does(old(Now()), token, code)
    {
      var l := Clean(levels[|levels| - 1], next);
      if IsEscaped(token) {
        code := EscapedText(l, Unescaped(token));
        return;
      }
      var c := Low(token);
      if c == '|' as int {
        code := NextSegment(l);
      } else if c == ')' as int {
        code := CloseGroup(l);
      } else if c == '(' as int {
        code := OpenGroup(l);
      } else if c == '[' as int {
        code := OpenSet(l);
      } else if c == '{' as int {
        code := OpenBrace(l);
      } else if c == '?' as int {
        code := QuestionMark(l);
      } else {
        Put(Text(l, token, next + 1));
        code := Accepted;
      }
    }

    method EscapedText(l: Level, codepoint: u32) returns (code: Code)
      requires levels != [] && frames != []
      modifies this`frames, this`levels, this`next
      ensures Performs(old(Now()), EscapedToken(l, codepoint, old(next)), code)
    {
      var c := Low(codepoint);
      if c in [0x7c, 0x28, 0x29, 0x7b, 0x7d, 0x5b, 0x5d] {
        Put(Text(l, codepoint, next + 1));
        return Accepted;
      }
      if c == 'm' as int || c == 'p' as int || c == 'w' as int {
        var l' := AppendItem(l, Special(SpecialOf(c), []), next + 1);
        Put(l');
        PushFrame(SpecialFrame(ItemAddress(l')));
        return Accepted;
      }
      Put(l);
      return Rejected;
    }

    method NextSegment(l: Level) returns (code: Code)
      requires levels != [] && frames != [] && frames[|frames| - 1].GroupFrame?
      modifies this`frames, this`levels, this`next
      ensures Performs(old(Now()), Pipe(l, TopFrame(old(Now())), old(next)), code)
    {
      if Current(l).multiplier > 0 {
        var l' := AppendSegment(l, next + 1);
        Put(l');
        Replace(frames[|frames| - 1].(segment := SegmentAddress(l')));
      } else {
        Put(PutSegment(l, Segment([], 1)).(items := []));
      }
      return Accepted;
    }

    method CloseGroup(l: Level) returns (code: Code)
      requires Spine(Now()) && frames[|frames| - 1].GroupFrame?
      modifies this`frames, this`levels, this`next
      ensures Performs(old(Now()), Closing(l, |old(frames)|, old(next)), code)
    {
      TopFacts(Now());
      var l' := l;
      if Current(l).multiplier == 0 {
        l' := DropSegment(l, next + 1);
      }
      if |frames| <= 1 {
        Put(l');
        return Rejected;
      }
      var group := FinishGroup(l'.group);
      var below := levels[|levels| - 2];
      assert Nests(Now(), |levels| - 2);
      levels := levels[..|levels| - 2] + [PutItem(below, LastItem(below).(kind := Nested(group)))];
      next := next + 3;
      PopFrame();
      return Accepted;
    }

    method OpenGroup(l: Level) returns (code: Code)
      requires levels != [] && frames != []
      modifies this`frames, this`levels, this`next
      ensures Performs(old(Now()), Opening(l, old(next)), code)
    {
      var l' := AppendItem(l, Nested(Group([], 0)), next + 1);
      var inner := AppendSegment(Level(Group([], 0), [], [], []), next + 2);
      Put(l');
      levels := levels + [inner];
      PushFrame(GroupFrame(ItemAddress(l'), SegmentAddress(inner)));
      return Accepted;
    }

    method OpenSet(l: Level) returns (code: Code)
      requires levels != [] && frames != []
      modifies this`frames, this`levels, this`next
      ensures Performs(old(Now()), OpeningSet(l, old(next)), code)
    {
      var l' := AppendItem(l, Set([], []), next + 1);
      Put(l');
      PushFrame(SetFrame(ItemAddress(l'), None));
      return Accepted;
    }

    method OpenBrace(l: Level) returns (code: Code)
      requires levels != [] && frames != [] && frames[|frames| - 1].GroupFrame?
      modifies this`frames, this`levels, this`next
      ensures Performs(old(Now()), Brace(l, TopFrame(old(Now())), TopFrame(old(Now())).group, old(next)), code)
    {
      var frame := frames[|frames| - 1];
      if HasItem(l) {
        var l' := Taint(l, next + 1);
        Put(PutItem(l', LastItem(l').(min := 0, max := 0)));
        PushFrame(RepeatFrame(ItemAddress(l')));
      } else {
        Put(Prefixed(l));
        PushFrame(MultiplierFrame(frame.segment, frame.group));
      }
      return Accepted;
    }

    method QuestionMark(l: Level) returns (code: Code)
      requires levels != [] && frames != []
      modifies this`frames, this`levels, this`next
      ensures Performs(old(Now()), Question(l, old(next)), code)
    {
      if !HasItem(l) {
        Put(l);
        return Rejected;
      }
      var l' := Taint(l, next + 1);
      Put(PutItem(l', LastItem(l').(maybe := true)));
      return Accepted;
    }

    /** The end of the input. */
    method Finish() returns (code: Code)
      requires Valid()
      modifies this
      ensures (code, Now()) == Parsing.Finish(old(Now()))
      ensures code != Astray
    {
      TopFacts(Now());
      if |frames| != 1 || !frames[0].GroupFrame? {
        return Rejected;
      }
      Put(Clean(levels[|levels| - 1], next));
      return Accepted;
    }
  }

  /** Feeds a whole input to a new parser. */
  method ParseTokens(limit: nat, tokens: seq<u32>) returns (pattern: Option<Group>)
    ensures pattern == Parse(limit, tokens) == ParserSimple.SimpleParse(limit, tokens)
    ensures pattern.Some? && Regular(Initial(limit), tokens) ==>
              ParserPrint.Printable(pattern.value) && (WellFormed(pattern.value) <==> Usable(pattern.value))
  {
    ParsedFacts(limit, tokens);
    var parser := new Parser(limit);
    ParseSafe(limit, tokens);
    for i := 0 to |tokens|
      invariant parser.Valid() && Run(Initial(limit), tokens) == Run(parser.Now(), tokens[i..])
    {
      var code := parser.Token(tokens[i]);
      assert tokens[i..][1..] == tokens[i + 1..];
      if code != Accepted {
        return None;
      }
    }
    var code := parser.Finish();
    if code != Accepted {
      return None;
    }
    return Some(parser.levels[0].group);
  }

  lemma {:induction false} ParsedFacts(limit: nat, tokens: seq<u32>)
    ensures Parse(limit, tokens) == ParserSimple.SimpleParse(limit, tokens)
    ensures var pattern := Parse(limit, tokens);
            pattern.Some? && Regular(Initial(limit), tokens) ==>
              ParserPrint.Printable(pattern.value) && (WellFormed(pattern.value) <==> Usable(pattern.value))
  {
    ParserSimple.ParsesAlike(limit, tokens);
    if Parse(limit, tokens).Some? && Regular(Initial(limit), tokens) {
      ParsedWellFormed(limit, tokens);
      ParserWritten.ParsedPrintable(limit, tokens);
    }
  }
}
