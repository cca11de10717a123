// The parser (src/parser/parser.c) as a function of its state.
//
// Every open group is a level. The group of a level is kept beside the item that it belongs to, which is the last item
// of the level below; when the group is closed it takes its place there. For every level, the blocks that hold the
// group's segments, the current segment's items and the open set's ranges are recorded, so that the addresses that the
// frames hold can be told from the addresses of what they should refer to. Where an allocation grows or shrinks it is
// taken to move.

module Parsing {
  import opened Words
  import opened Pattern
  import Stack

  const ESCAPED: nat := 0x4000_0000

  datatype Address = Root | At(block: nat, offset: int)

  datatype Frame =
    | GroupFrame(group: Address, segment: Address)
    | MultiplierFrame(value: Address, sum: Address)
    | SetFrame(target: Address, range: Option<Address>)
    | SetRangeFrame(target: Address, range: Option<Address>)
    | RepeatFrame(repeat: Address)
    | RepeatRangeFrame(repeat: Address)
    | SpecialFrame(special: Address)
    | SpecialNameFrame(special: Address)

  datatype Level = Level(group: Group, segments: seq<nat>, items: seq<nat>, ranges: seq<nat>)

  /** The stack of frames, the open groups, the limit on the stack, and the next block to be allocated. */
  datatype State = State(frames: seq<Frame>, levels: seq<Level>, limit: nat, next: nat)

  /** Whether a token is accepted; it goes astray if a frame's address is not that of what the token is about. */
  datatype Code = Accepted | Rejected | Astray

  // ---------------------------------------------------------------------
  // Addresses
  // ---------------------------------------------------------------------

  /** The blocks of a stack after a push onto len elements. */
  function Grown(bins: seq<nat>, len: nat, next: nat): seq<nat> {
    if len == 0 then [next]
    else if len < Stack.BIN then if Stack.BinCount(len) == len then [next] else bins
    else if len % Stack.BIN == 0 then bins + [next] else bins
  }

  /** The blocks of a stack after a pop from len elements. */
  function Shrunk(bins: seq<nat>, len: nat, next: nat): seq<nat> {
    if len <= 1 || bins == [] then []
    else if len <= Stack.BIN then if Stack.BinCount(len) != Stack.BinCount(len - 1) then [next] else bins
    else if len % Stack.BIN == 1 then bins[..|bins| - 1] else bins
  }

  /** The address of the last of len elements: behind all the full blocks. */
  function LastSlot(bins: seq<nat>, len: nat): Address {
    if len == 0 || bins == [] then Root else At(bins[|bins| - 1], len - 1 - Stack.BIN * (|bins| - 1))
  }

  function Current(l: Level): Segment {
    if l.group.segments == [] then Segment([], 0) else l.group.segments[|l.group.segments| - 1]
  }

  function HasItem(l: Level): bool {
    l.group.segments != [] && Current(l).items != []
  }

  function LastItem(l: Level): Item
    requires HasItem(l)
  {
    Current(l).items[|Current(l).items| - 1]
  }

  function SegmentAddress(l: Level): Address {
    LastSlot(l.segments, |l.group.segments|)
  }

  function ItemAddress(l: Level): Address {
    LastSlot(l.items, |Current(l).items|)
  }

  function RangeAddress(l: Level): Address {
    if HasItem(l) && LastItem(l).kind.Set? then LastSlot(l.ranges, |LastItem(l).kind.ranges|) else Root
  }

  /** The address of the group of level k: the root, or inside the last item of the level below. */
  function GroupAddress(levels: seq<Level>, k: nat): Address
    requires k < |levels|
  {
    if k == 0 then Root else ItemAddress(levels[k - 1])
  }

  // ---------------------------------------------------------------------
  // Changes at the end of a level
  // ---------------------------------------------------------------------

  function PutSegment(l: Level, segment: Segment): Level {
    if l.group.segments == [] then l
    else l.(group := l.group.(segments := l.group.segments[|l.group.segments| - 1 := segment]))
  }

  function AppendSegment(l: Level, next: nat): Level {
    Level(Group(l.group.segments + [Segment([], 1)], Wrap(l.group.sum + 1)),
          Grown(l.segments, |l.group.segments|, next), [], [])
  }

  function DropSegment(l: Level, next: nat): Level {
    if l.group.segments == [] then l
    else Level(l.group.(segments := l.group.segments[..|l.group.segments| - 1]),
               Shrunk(l.segments, |l.group.segments|, next), [], [])
  }

  function AppendItem(l: Level, kind: Kind, next: nat): Level {
    var segment := Current(l);
    PutSegment(l, segment.(items := segment.items + [Item(kind, 1, 1, false)]))
      .(items := Grown(l.items, |segment.items|, next), ranges := [])
  }

  function PutItem(l: Level, item: Item): Level {
    if !HasItem(l) then l
    else PutSegment(l, Current(l).(items := Current(l).items[|Current(l).items| - 1 := item]))
  }

  function DropItem(l: Level, next: nat): Level {
    if !HasItem(l) then l
    else PutSegment(l, Current(l).(items := Current(l).items[..|Current(l).items| - 1]))
           .(items := Shrunk(l.items, |Current(l).items|, next))
  }

  // ---------------------------------------------------------------------
  // Tokens of a group
  // ---------------------------------------------------------------------

  /** A group that turned out to be empty is removed. */
  function Clean(l: Level, next: nat): Level {
    if HasItem(l) && LastItem(l).kind.Nested? && LastItem(l).kind.group.sum == 0 then DropItem(l, next) else l
  }

  /** Makes the last item, if it is a literal, one of a single codepoint that nothing is added to. */
  function Taint(l: Level, next: nat): Level {
    if HasItem(l) && LastItem(l).kind.Literal? then
      var item := LastItem(l);
      var cs := item.kind.codepoints;
      if |cs| > 1 then
        var shorter := PutItem(l, item.(kind := Literal(cs[..|cs| - 1], item.kind.tainted)));
        AppendItem(shorter, Literal([cs[|cs| - 1]], true), next)
      else PutItem(l, item.(kind := Literal(cs, true)))
    else l
  }

  /** A codepoint joins the last literal if it can. */
  function Text(l: Level, codepoint: u32, next: nat): Level {
    if HasItem(l) && LastItem(l).kind.Literal? && |LastItem(l).kind.codepoints| < 7 && !LastItem(l).kind.tainted then
      PutItem(l, LastItem(l).(kind := Literal(LastItem(l).kind.codepoints + [codepoint], false)))
    else AppendItem(l, Literal([codepoint], false), next)
  }

  /** A group without items is marked for removal. */
  function Finished(g: Group): Group {
    if forall i :: 0 <= i < |g.segments| ==> g.segments[i].items == [] then g.(sum := 0) else g
  }

  datatype Action =
    | Reject(level: Level)
    | Stay(level: Level)
    | Become(level: Level, frame: Frame)
    | Push(level: Level, frame: Frame)
    | Pop(level: Level)
    | Open(level: Level, inner: Level)
    | Close(group: Group)

  function SpecialOf(c: int): SpecialKind {
    if c == 'm' as int then Markov else if c == 'w' as int then Wordlist else Preset
  }

  function Low(token: u32): int {
    token as int % 0x100
  }

  function IsEscaped(token: u32): bool {
    token as int / ESCAPED % 2 == 1
  }

  function Unescaped(token: u32): (codepoint: u32)
    ensures codepoint <= token
  {
    if IsEscaped(token) then token as int - ESCAPED else token
  }

  /** A token in a group; address is that of the group, and depth the number of frames. */
  function GroupToken(l: Level, frame: Frame, address: Address, depth: nat, token: u32, next: nat): Action
    requires frame.GroupFrame?
  {
    var l := Clean(l, next);
    if IsEscaped(token) then EscapedToken(l, Unescaped(token), next)
    else
      var c := Low(token);
      if c == '|' as int then Pipe(l, frame, next)
      else if c == ')' as int then Closing(l, depth, next)
      else if c == '(' as int then Opening(l, next)
      else if c == '[' as int then OpeningSet(l, next)
      else if c == '{' as int then Brace(l, frame, address, next)
      else if c == '?' as int then Question(l, next)
      else Stay(Text(l, token, next + 1))
  }

  /** The next segment: a new one, or the current one again if its multiplier is zero. */
  function Pipe(l: Level, frame: Frame, next: nat): Action
    requires frame.GroupFrame?
  {
    if Current(l).multiplier > 0 then
      var l' := AppendSegment(l, next + 1);
      Become(l', frame.(segment := SegmentAddress(l')))
    else Stay(PutSegment(l, Segment([], 1)).(items := []))
  }

  /** The end of a group; a segment whose multiplier is zero is dropped, also at the root, where it is an error. */
  function Closing(l: Level, depth: nat, next: nat): Action {
    var l' := if Current(l).multiplier == 0 then DropSegment(l, next + 1) else l;
    if depth <= 1 then Reject(l') else Close(Finished(l'.group))
  }

  /** A group begins, with its first segment. */
  function Opening(l: Level, next: nat): Action {
    Open(AppendItem(l, Nested(Group([], 0)), next + 1), AppendSegment(Level(Group([], 0), [], [], []), next + 2))
  }

  function OpeningSet(l: Level, next: nat): Action {
    var l' := AppendItem(l, Set([], []), next + 1);
    Push(l', SetFrame(ItemAddress(l'), None))
  }

  /** A repetition of the last item, or a multiplier of the segment if it has no items. */
  function Brace(l: Level, frame: Frame, address: Address, next: nat): Action
    requires frame.GroupFrame?
  {
    if HasItem(l) then
      var l' := Taint(l, next + 1);
      Push(PutItem(l', LastItem(l').(min := 0, max := 0)), RepeatFrame(ItemAddress(l')))
    else Push(Prefixed(l), MultiplierFrame(frame.segment, address))
  }

  function Question(l: Level, next: nat): Action {
    if HasItem(l) then
      var l' := Taint(l, next + 1);
      Stay(PutItem(l', LastItem(l').(maybe := true)))
    else Reject(l)
  }

  /** The start of a multiplier in front of a segment. */
  function Prefixed(l: Level): Level {
    var l' := PutSegment(l, Current(l).(multiplier := 0));
    l'.(group := l'.group.(sum := Wrap(l.group.sum - 1)))
  }

  function EscapedToken(l: Level, codepoint: u32, next: nat): Action {
    var c := Low(codepoint);
    if c in [0x7c, 0x28, 0x29, 0x7b, 0x7d, 0x5b, 0x5d] then Stay(Text(l, codepoint, next + 1))
    else if c == 'm' as int || c == 'p' as int || c == 'w' as int then
      var l' := AppendItem(l, Special(SpecialOf(c), []), next + 1);
      Push(l', SpecialFrame(ItemAddress(l')))
    else Reject(l)
  }

  // ---------------------------------------------------------------------
  // Tokens of the other frames
  // ---------------------------------------------------------------------

  function IsDigit(token: u32): bool {
    0x30 <= token as int <= 0x39
  }

  /** A decimal number with one more digit. */
  function Digit(number: nat, token: u32): u64
    requires IsDigit(token)
  {
    Wrap(10 * number + (token as int - 0x30))
  }

  function MultiplierToken(l: Level, token: u32): Action {
    if token as int == '}' as int then
      Pop(l.(group := l.group.(sum := Wrap(l.group.sum + Current(l).multiplier))))
    else if IsDigit(token) then Stay(PutSegment(l, Current(l).(multiplier := Digit(Current(l).multiplier, token))))
    else Reject(l)
  }

  function RepeatToken(l: Level, frame: Frame, token: u32): Action
    requires frame.RepeatFrame? && HasItem(l)
  {
    var item := LastItem(l);
    if token as int == '}' as int then Pop(PutItem(l, item.(max := item.min)))
    else if token as int == ',' as int then Become(PutItem(l, item.(max := 0)), RepeatRangeFrame(frame.repeat))
    else if IsDigit(token) then Stay(PutItem(l, item.(min := Digit(item.min, token))))
    else Reject(l)
  }

  function RepeatRangeToken(l: Level, token: u32): Action
    requires HasItem(l)
  {
    var item := LastItem(l);
    if token as int == '}' as int then Pop(l)
    else if IsDigit(token) then Stay(PutItem(l, item.(max := Digit(item.max, token))))
    else Reject(l)
  }

  /** How many codepoints the first n ranges hold, in 32-bit arithmetic for each of them. */
  function Choices(ranges: seq<Range>, n: nat): u64
    requires n <= |ranges|
  {
    if n == 0 then 0
    else Wrap(Choices(ranges, n - 1) + (1 + ranges[n - 1].end as int - ranges[n - 1].start as int) % B)
  }

  function ChoicesList(ranges: seq<Range>): seq<u64> {
    seq(|ranges|, i requires 0 <= i < |ranges| => Choices(ranges, i + 1))
  }

  function PutRanges(l: Level, ranges: seq<Range>): Level
    requires HasItem(l)
  {
    PutItem(l, LastItem(l).(kind := Set(ranges, [])))
  }

  function SetToken(l: Level, frame: Frame, token: u32, next: nat): Action
    requires frame.SetFrame? && HasItem(l) && LastItem(l).kind.Set?
  {
    var ranges := LastItem(l).kind.ranges;
    if token as int == ']' as int then
      Pop(PutItem(l, LastItem(l).(kind := Set(ranges, ChoicesList(ranges)))))
    else if frame.range.Some? && token as int == '-' as int then Become(l, SetRangeFrame(frame.target, frame.range))
    else if IsEscaped(token) && Unescaped(token) as int != '-' as int then Reject(l)
    else
      var more := ranges + [Range(Unescaped(token), Unescaped(token))];
      var l' := PutRanges(l, more).(ranges := Grown(l.ranges, |ranges|, next));
      Become(l', SetFrame(frame.target, Some(RangeAddress(l'))))
  }

  function SetRangeToken(l: Level, frame: Frame, token: u32): Action
    requires frame.SetRangeFrame? && HasItem(l) && LastItem(l).kind.Set? && LastItem(l).kind.ranges != []
  {
    var ranges := LastItem(l).kind.ranges;
    var range := ranges[|ranges| - 1];
    if token as int == ']' as int || token < range.start then Reject(l)
    else Become(PutRanges(l, ranges[|ranges| - 1 := range.(end := token)]), SetFrame(frame.target, frame.range))
  }

  function SpecialToken(l: Level, frame: Frame, token: u32): Action
    requires frame.SpecialFrame?
  {
    if token as int == '{' as int then Become(l, SpecialNameFrame(frame.special)) else Reject(l)
  }

  function SpecialNameToken(l: Level, token: u32): Action
    requires HasItem(l) && LastItem(l).kind.Special?
  {
    var kind := LastItem(l).kind;
    if token as int == '}' as int then Pop(l)
    else Stay(PutItem(l, LastItem(l).(kind := kind.(name := kind.name + [Unescaped(token)]))))
  }

  // ---------------------------------------------------------------------
  // Steps
  // ---------------------------------------------------------------------

  function TopFrame(s: State): Frame
    requires s.frames != []
  {
    s.frames[|s.frames| - 1]
  }

  function TopLevel(s: State): Level
    requires s.levels != []
  {
    s.levels[|s.levels| - 1]
  }

  function TopAddress(s: State): Address
    requires s.levels != []
  {
    GroupAddress(s.levels, |s.levels| - 1)
  }

  /** Every address in the frame is that of what the frame is about: the end of the top level. */
  predicate Refers(frame: Frame, l: Level, address: Address) {
    if frame.GroupFrame? then RefersGroup(frame, l, address) else RefersOther(frame, l, address)
  }

  predicate RefersGroup(frame: Frame, l: Level, address: Address) {
    && frame.GroupFrame? && l.group.segments != []
    && frame.group == address && frame.segment == SegmentAddress(l)
  }

  predicate RefersOther(frame: Frame, l: Level, address: Address) {
    match frame
    case GroupFrame(_, _) => false
    case MultiplierFrame(value, sum) => l.group.segments != [] && value == SegmentAddress(l) && sum == address
    case SetFrame(target, range) => RefersSet(target, range, l)
    case SetRangeFrame(target, range) => RefersSet(target, range, l) && range.Some?
    case RepeatFrame(repeat) => HasItem(l) && repeat == ItemAddress(l)
    case RepeatRangeFrame(repeat) => HasItem(l) && repeat == ItemAddress(l)
    case SpecialFrame(special) => HasItem(l) && LastItem(l).kind.Special? && special == ItemAddress(l)
    case SpecialNameFrame(special) => HasItem(l) && LastItem(l).kind.Special? && special == ItemAddress(l)
  }

  predicate RefersSet(target: Address, range: Option<Address>, l: Level) {
    HasItem(l) && LastItem(l).kind.Set? && target == ItemAddress(l) && RefersRange(range, l)
  }

  predicate RefersRange(range: Option<Address>, l: Level)
    requires HasItem(l) && LastItem(l).kind.Set?
  {
    range.Some? ==> LastItem(l).kind.ranges != [] && range.value == RangeAddress(l)
  }

  /** What the token does, if the top frame refers to the end of the top level. */
  function ActionOf(s: State, token: u32): Action
    requires s.frames != [] && s.levels != [] && Refers(TopFrame(s), TopLevel(s), TopAddress(s))
  {
    var l := TopLevel(s);
    match TopFrame(s)
    case GroupFrame(_, _) => GroupToken(l, TopFrame(s), TopAddress(s), |s.frames|, token, s.next)
    case MultiplierFrame(_, _) => MultiplierToken(l, token)
    case SetFrame(_, _) => SetToken(l, TopFrame(s), token, s.next)
    case SetRangeFrame(_, _) => SetRangeToken(l, TopFrame(s), token)
    case RepeatFrame(_) => RepeatToken(l, TopFrame(s), token)
    case RepeatRangeFrame(_) => RepeatRangeToken(l, token)
    case SpecialFrame(_) => SpecialToken(l, TopFrame(s), token)
    case SpecialNameFrame(_) => SpecialNameToken(l, token)
  }

  function PutTop(s: State, l: Level, frame: Frame): State
    requires s.frames != [] && s.levels != []
  {
    s.(levels := s.levels[|s.levels| - 1 := l], frames := s.frames[|s.frames| - 1 := frame], next := s.next + 3)
  }

  function Apply(s: State, action: Action): State
    requires s.frames != [] && s.levels != []
  {
    match action
    case Reject(l) => PutTop(s, l, TopFrame(s))
    case Stay(l) => PutTop(s, l, TopFrame(s))
    case Become(l, frame) => PutTop(s, l, frame)
    case Push(l, frame) => Pushed(PutTop(s, l, TopFrame(s)), frame)
    case Pop(l) => Popped(PutTop(s, l, TopFrame(s)))
    case Open(l, inner) =>
      var t := Pushed(PutTop(s, l, TopFrame(s)), GroupFrame(ItemAddress(l), SegmentAddress(inner)));
      t.(levels := t.levels + [inner])
    case Close(group) => Closed(Popped(s.(next := s.next + 3)), group)
  }

  function Pushed(s: State, frame: Frame): State {
    s.(frames := s.frames + [frame])
  }

  function Popped(s: State): State {
    if s.frames == [] then s else s.(frames := s.frames[..|s.frames| - 1])
  }

  /** The closed group takes its place in the level below. */
  function Closed(s: State, group: Group): State {
    if |s.levels| < 2 then s
    else
      var below := s.levels[|s.levels| - 2];
      if !HasItem(below) then s
      else s.(levels := s.levels[..|s.levels| - 2] + [PutItem(below, LastItem(below).(kind := Nested(group)))])
  }

  function Step(s: State, token: u32): (Code, State) {
    if s.frames == [] || s.levels == [] then (Astray, s)
    else if s.limit > 0 && |s.frames| >= s.limit then (Rejected, s)
    else if !Refers(TopFrame(s), TopLevel(s), TopAddress(s)) then (Astray, s)
    else
      var action := ActionOf(s, token);
      (if action.Reject? then Rejected else Accepted, Apply(s, action))
  }

  function Initial(limit: nat): State {
    var root := AppendSegment(Level(Group([], 0), [], [], []), 0);
    State([GroupFrame(Root, SegmentAddress(root))], [root], limit, 1)
  }

  /** A run over tokens, up to the first that is not accepted. */
  function Run(s: State, tokens: seq<u32>): (Code, State)
    decreases |tokens|
  {
    if tokens == [] then (Accepted, s)
    else
      var (code, t) := Step(s, tokens[0]);
      if code == Accepted then Run(t, tokens[1..]) else (code, t)
  }

  /** The end of the input; the result is the group of the root. */
  function Finish(s: State): (Code, State) {
    if |s.frames| != 1 || s.levels == [] || !TopFrame(s).GroupFrame? then (Rejected, s)
    else if !Refers(TopFrame(s), TopLevel(s), TopAddress(s)) then (Astray, s)
    else (Accepted, PutTop(s, Clean(TopLevel(s), s.next), TopFrame(s)))
  }
}
