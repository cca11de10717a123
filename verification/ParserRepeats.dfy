// Repetitions with two bounds: every pair of size_t numbers can be written, also those that generation cannot draw
// from.

module ParserRepeats {
  import opened Words
  import opened Pattern
  import opened Parsing
  import opened ParserContent
  import opened ParserSimple
  import opened ParserPrint

  function OneItem(kind: Kind, min: u64, max: u64): Group {
    Group([Segment([Item(kind, min, max, false)], 1)], 1)
  }

  /** a{min,max} */
  function Letter(min: nat, max: nat): seq<u32> {
    ['a' as int, '{' as int] + Decimal(min) + [',' as int] + Decimal(max) + ['}' as int]
  }

  lemma LetterPrinted(min: u64, max: u64)
    ensures Print(OneItem(Literal(['a' as int], true), min, max)) == Letter(min, max)
  {
    var g := OneItem(Literal(['a' as int], true), min, max);
    var item := g.segments[0].items[0];
    assert Chars(['a' as int]) == ['a' as int] by {
      assert ['a' as int][..0] == [] && Low('a' as int) == 'a' as int;
    }
    assert PrintItems(g.segments[0].items, 1) == [] + PrintItem(item);
    assert PrintSegments(g.segments, 1) == [] + [] + PrintItems(g.segments[0].items, 1);
    assert PrintItem(item) == ['a' as int] + ['{' as int] + PrintBounds(item) + [];
  }

  lemma LetterPrintable(min: u64, max: u64)
    ensures var g := OneItem(Literal(['a' as int], true), min, max);
            Printable(g) && Frames(g.segments, |g.segments|) == 2
  {
    var g := OneItem(Literal(['a' as int], true), min, max);
    assert Multipliers(g.segments, 1) == Multipliers(g.segments, 0) + 1;
    assert PrintableItem(g.segments[0].items[0]);
    assert ItemsFrames(g.segments[0].items, 1) == Max(ItemsFrames(g.segments[0].items, 0), 1);
    assert Frames(g.segments, 1) == Max(Frames(g.segments, 0), 2);
  }

  /** A stack of at most two frames has no room for a repetition. */
  lemma {:induction false} LetterRefused(limit: nat, min: u64, max: u64)
    requires 0 < limit <= 2
    ensures Parse(limit, Letter(min, max)) == None
  {
    var (tokens, v) := (Letter(min, max), ParserSimple.Start(limit));
    ParsesAlike(limit, tokens);
    if limit == 2 {
      var rest := tokens[1..][1..];
      assert tokens[1..][0] == '{' as int && rest != [];
      var v' := v.(top := WithText(NEW, 'a' as int));
      assert Last(v'.top).kind.Literal?;
      LetterTaken(v);
      BraceTaken(v', rest);
      assert Reads(v', tokens[1..]) == Reads(BraceNext(v'), rest);
    }
  }

  lemma LetterTaken(v: View)
    requires v == ParserSimple.Start(2)
    ensures Next(v, 'a' as int) == Some(v.(top := WithText(NEW, 'a' as int)))
  {
    assert Low('a' as int) == 'a' as int && !IsEscaped('a' as int);
  }

  lemma {:induction false} BraceTaken(v: View, rest: seq<u32>)
    requires v.limit == 2 && v.outer == [] && v.mode.InGroup? && v.top.items != [] && !EndsEmpty(v.top) && rest != []
    ensures Next(v, '{' as int) == Some(BraceNext(v)) && Reads(BraceNext(v), rest) == None
  {
    assert Low('{' as int) == '{' as int && !IsEscaped('{' as int);
    assert Depth(BraceNext(v)) >= 2;
  }

  /**
    What is written as a{min,max} is parsed to that repetition, for all bounds, also if they run backwards, exactly if
    the stack has room for three frames.
   */
  lemma LetterParsed(limit: nat, min: u64, max: u64)
    ensures Parse(limit, Letter(min, max)) == Some(OneItem(Literal(['a' as int], true), min, max)) <==> Room(limit, 2)
  {
    if Room(limit, 2) {
      LetterPrinted(min, max);
      LetterPrintable(min, max);
      RoundTrip(limit, OneItem(Literal(['a' as int], true), min, max));
    } else {
      LetterRefused(limit, min, max);
    }
  }

  /**
    A repetition of which the number of choices wraps around to none at all: those from 0 to the largest number, and
    those whose maximum is one below the minimum, as in a{1,0}. The source of randomness is asked for a number below 0,
    which it cannot give.
   */
  lemma NothingToDraw(min: u64, max: u64)
    ensures Parse(0, Letter(min, max)) == Some(OneItem(Literal(['a' as int], true), min, max))
    ensures Wrap(Wrap(max - min) + 1) == 0 <==> (min == 0 && max == W64 - 1) || max + 1 == min
    ensures WellFormed(OneItem(Literal(['a' as int], true), min, max)) <==>
              min <= max && Wrap(Wrap(max - min) + 1) != 0
  {
    LetterParsed(0, min, max);
    WrappedWays(min, max);
    LetterWellFormed(min, max);
  }

  lemma LetterWellFormed(min: u64, max: u64)
    ensures WellFormed(OneItem(Literal(['a' as int], true), min, max)) <==> min <= max && max - min < W64 - 1
  {
    var g := OneItem(Literal(['a' as int], true), min, max);
    assert Multipliers(g.segments, 1) == Multipliers(g.segments, 0) + 1;
    assert WellFormedItems(g.segments[0].items) <==> WellFormedItem(g.segments[0].items[0]);
  }

  lemma WrappedWays(min: u64, max: u64)
    ensures Wrap(max - min) == if min <= max then max - min else W64 + max - min
    ensures Wrap(Wrap(max - min) + 1) == 0 <==> Wrap(max - min) == W64 - 1
  {
    DivUnique(max - min, W64, if min <= max then 0 else -1, if min <= max then max - min else W64 + max - min);
  }
}
