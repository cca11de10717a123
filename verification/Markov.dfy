// The Markov chain (src/markov.c): a trie that counts what follows the contexts in a list of words.

module Markov {
  import opened Words
  import opened MarkovLeaf
  import opened MarkovTrie
  import opened MarkovCounts

  // ---------------------------------------------------------------------
  // Drawing
  // ---------------------------------------------------------------------

  /** A random number below m. */
  type Random = f: nat -> nat | forall m: nat :: m > 0 ==> f(m) < m witness (m: nat) => 0

  lemma {:induction false} SumPrefix(counts: seq<nat>, i: nat)
    requires i < |counts|
    ensures Sum(counts[..i]) + counts[i] == Sum(counts[..i + 1]) <= Sum(counts)
    decreases |counts|
  {
    var last := |counts| - 1;
    assert counts[..i + 1][..i] == counts[..i];
    if i == last {
      assert counts[..i + 1] == counts;
    } else {
      assert counts[..last][..i] == counts[..i] && counts[..last][..i + 1] == counts[..i + 1];
      SumPrefix(counts[..last], i);
    }
  }

  /** The first choice that leads to a codepoint. */
  function FirstChoice(leaf: Leaf, c: nat): nat
    requires |leaf.codepoints| == |leaf.counts| > 0
  {
    Sum(leaf.counts[..Slot(c, |leaf.counts|)])
  }

  /** The choices for a codepoint: exactly as many as its count. */
  predicate Chosen(leaf: Leaf, c: nat, choice: nat)
    requires |leaf.codepoints| == |leaf.counts| > 0
  {
    FirstChoice(leaf, c) <= choice < FirstChoice(leaf, c) + Count(leaf, c) as int
  }

  lemma ChosenOnce(leaf: Leaf, i: nat, choice: nat, c: nat)
    requires LeafValid(leaf) && i < |leaf.counts| && leaf.counts[i] != 0
    requires Sum(leaf.counts[..i]) <= choice < Sum(leaf.counts[..i]) + leaf.counts[i] as int
    ensures Chosen(leaf, c, choice) <==> c == leaf.codepoints[i]
  {
    var j := Slot(c, |leaf.counts|);
    if j < i {
      SumMonotone(leaf.counts, j + 1, i);
      SumPrefix(leaf.counts, j);
    } else if j > i {
      SumMonotone(leaf.counts, i + 1, j);
      SumPrefix(leaf.counts, i);
    }
  }

  lemma {:induction false} SumMonotone(counts: seq<nat>, i: nat, j: nat)
    requires i <= j <= |counts|
    ensures Sum(counts[..i]) <= Sum(counts[..j])
    decreases j - i
  {
    if i < j {
      SumPrefix(counts, i);
      SumMonotone(counts, i + 1, j);
    }
  }

  /** A number that is not below the sum of the counts leads to no codepoint. */
  lemma NotChosen(leaf: Leaf, number: nat, c: nat)
    requires LeafValid(leaf) && number >= Sum(leaf.counts)
    ensures !Chosen(leaf, c, number)
  {
    SumPrefix(leaf.counts, Slot(c, |leaf.counts|));
  }

  /** Goes through the slots until the choice is used up; none if it is not. */
  method Draw(leaf: Leaf, number: nat) returns (c: Option<Codepoint>)
    requires LeafValid(leaf)
    ensures c == None <==> number >= Sum(leaf.counts)
    ensures c.Some? ==> Count(leaf, c.value) > 0 && forall d: nat :: Chosen(leaf, d, number) <==> d == c.value
    ensures c.None? ==> forall d: nat :: !Chosen(leaf, d, number)
  {
    var choice := number;
    SumStart(leaf.counts);
    for i := 0 to |leaf.counts|
      invariant choice >= 0 && choice + Sum(leaf.counts[..i]) == number
    {
      SumPrefix(leaf.counts, i);
      if leaf.counts[i] != 0 {
        if choice < leaf.counts[i] {
          forall d: nat
            ensures Chosen(leaf, d, number) <==> d == leaf.codepoints[i]
          {
            ChosenOnce(leaf, i, number, d);
          }
          return Some(leaf.codepoints[i]);
        }
        choice := choice - leaf.counts[i] as int;
      }
    }
    forall d: nat
      ensures !Chosen(leaf, d, number)
    {
      NotChosen(leaf, number, d);
    }
    return None;
  }

  lemma {:induction false} SlotOf(counts: seq<nat>, n: nat, number: nat) returns (i: nat)
    requires n <= |counts| && number < Sum(counts[..n])
    ensures i < n && Sum(counts[..i]) <= number < Sum(counts[..i]) + counts[i]
  {
    SumPrefix(counts, n - 1);
    if number >= Sum(counts[..n - 1]) {
      i := n - 1;
    } else {
      i := SlotOf(counts, n - 1, number);
    }
  }

  /** Whatever number below the total is drawn, it leads to a codepoint. */
  ghost predicate NeverStuck(leaf: Leaf)
    requires LeafValid(leaf)
  {
    forall number: nat :: number < leaf.total ==> Leads(leaf, number)
  }

  ghost predicate Leads(leaf: Leaf, number: nat)
    requires LeafValid(leaf)
  {
    exists c: nat :: Chosen(leaf, c, number)
  }

  /** The search behind a context never fails exactly if the total is not more than the sum of the counts. */
  lemma StuckExact(leaf: Leaf)
    requires LeafValid(leaf)
    ensures NeverStuck(leaf) <==> leaf.total <= Sum(leaf.counts)
  {
    if leaf.total <= Sum(leaf.counts) {
      forall number: nat | number < leaf.total
        ensures Leads(leaf, number)
      {
        SumStart(leaf.counts);
        var i := SlotOf(leaf.counts, |leaf.counts|, number);
        ChosenOnce(leaf, i, number, leaf.codepoints[i]);
      }
    } else {
      forall c: nat
        ensures !Chosen(leaf, c, Sum(leaf.counts))
      {
        NotChosen(leaf, Sum(leaf.counts), c);
      }
      assert !Leads(leaf, Sum(leaf.counts));
    }
  }

  lemma SlideText(zeros: seq<nat>, word: seq<nat>, c: nat)
    requires zeros != []
    ensures (zeros + (word + [c]))[|word| + 1..] == (zeros + word)[|word|..][1..] + [c]
  {
  }

  /** One of total choices was made, and count of them are the same. */
  ghost predicate Weighed(entropy: real, total: nat, count: nat, entropy': real) {
    count > 0 && entropy' == entropy * total as real / count as real
  }

  method Record(entropy: real, total: nat, count: nat) returns (entropy': real)
    requires count > 0
    ensures Weighed(entropy, total, count, entropy')
  {
    entropy' := entropy * total as real;
    entropy' := entropy' / count as real;
  }

  lemma SumStart(counts: seq<nat>)
    ensures Sum(counts[..0]) == 0 && counts[..|counts|] == counts
  {
  }

  method EndSequence(level: nat, word: seq<Codepoint>, m: nat) returns (sequence: seq<Codepoint>)
    requires m == Min(level, |word|)
    ensures sequence == Padded(level, word)[|word|..|word| + level + 1]
  {
    sequence := Zeros(level - m) + word[|word| - m..] + Zeros(level + 1);
    EndWindow(level, word, m);
    sequence := sequence[..level + 1];
  }

  /** The leaf has the counts of what follows the context. */
  ghost predicate Follows(leaf: Leaf, level: nat, history: seq<Entry>, context: seq<nat>)
    requires LeafValid(leaf) && |context| == level
  {
    forall c: nat :: Count(leaf, c) as int == Tally(level, history, context + [c])
  }

  lemma EndBehind(root: Node, level: nat, history: seq<Entry>, context: seq<nat>)
    requires level > 0 && TrieValid(root, level) && Agrees(root, level, history, [], 0, 0) && Countable(level, history)
    requires |context| == level && TrieEnd(root, level, context).Outer?
    ensures LeafValid(TrieEnd(root, level, context).leaf)
    ensures Follows(TrieEnd(root, level, context).leaf, level, history, context)
  {
    EndCount(Inner(root), level, context, 0);
    var leaf := TrieEnd(root, level, context).leaf;
    forall c: nat
      ensures Count(leaf, c) as int == Tally(level, history, context + [c])
    {
      EndCount(Inner(root), level, context, c);
      CountExact(root, level, history, context, c);
    }
  }

  /** What the walk to the end of a context keeps. */
  ghost predicate OnTheWay(child: Child, depth: nat, context: seq<nat>, total: nat, end: Child) {
    && ChildValid(child, depth) && ChildTotals(child, depth) && |context| == depth
    && ChildTotal(child, depth, context) == total && ChildEnd(child, depth, context) == end
  }

  /** The child of the first codepoint, which does not have to be looked at if something is counted behind it. */
  method Descend(child: Child, depth: nat, context: seq<Codepoint>) returns (next: Child)
    requires depth > 0 && ChildValid(child, depth) && ChildTotals(child, depth) && |context| == depth
    requires ChildTotal(child, depth, context) > 0
    ensures OnTheWay(next, depth - 1, context[1..], ChildTotal(child, depth, context), ChildEnd(child, depth, context))
  {
    var node := child.node;
    assert ChildTotal(child, depth, context) == ChildTotal(Lookup(node, context[0]), depth - 1, context[1..]);
    next := node.children[Slot(context[0], |node.children|)];
  }

  class Chain {
    const level: nat
    var count: nat
    var root: Node
    ghost var history: seq<Entry>

    ghost predicate Valid()
      reads this
    {
      && level > 0 && TrieValid(root, level) && count == Wrap(Mass(history))
      && Agrees(root, level, history, [], 0, 0)
      && (Countable(level, history) ==> TotalsAgree(root, level, history, [], 0, 0))
    }

    /** What holds after the first n windows of a word. */
    ghost predicate Adding(text: seq<nat>, n: nat, weight: nat)
      reads this
    {
      && level > 0 && (n == 0 || n + level <= |text|)
      && TrieValid(root, level) && count == Wrap(Heavier(history, n, weight))
      && Agrees(root, level, history, text, n, weight)
      && (Fitting(level, history, text, n, weight) ==> TotalsAgree(root, level, history, text, n, weight))
    }

    constructor (level: nat)
      requires level > 0
      ensures Valid() && this.level == level && history == []
    {
      this.level := level;
      count := 0;
      history := [];
      new;
      root := NewNode(SIZES[0]);
      NothingCounted(root, level);
    }

    method Insert(sequence: seq<Codepoint>, weight: nat)
      requires level > 0 && TrieValid(root, level) && |sequence| == level + 1
      modifies this`root, this`count
      ensures TrieValid(root, level) && Counted(root, old(root), level, sequence, weight)
      ensures TotalsRight(old(root), level) && Fits(old(root), level, sequence, weight) ==>
                Totalled(root, old(root), level, sequence, weight)
      ensures count == Wrap(old(count) + weight)
    {
      root := InsertWord(root, level, sequence, weight);
      count := Wrap(count + weight);
    }

    /** Inserts the window with index n. */
    method AddWindow(sequence: seq<Codepoint>, weight: nat, ghost text: seq<nat>, ghost n: nat)
      requires Adding(text, n, weight) && n + level + 1 <= |text| && sequence == text[n..n + level + 1]
      modifies this`root, this`count
      ensures Adding(text, n + 1, weight)
    {
      HeavierNext(history, n, weight);
      WrapPlus(Heavier(history, n, weight), weight);
      ghost var root0 := root;
      Insert(sequence, weight);
      WindowAdded(root0, root, level, history, text, n, weight);
    }

    /** The windows that begin before the word. */
    method AddStart(word: seq<Codepoint>, weight: nat, m: nat)
      requires Adding(Padded(level, word), 0, weight) && m == Min(level, |word|)
      modifies this`root, this`count
      ensures Adding(Padded(level, word), m, weight)
    {
      var sequence := Zeros(level) + word[..m] + Zeros(level + 1 - m);
      for i := 0 to m
        invariant Adding(Padded(level, word), i, weight)
      {
        StartWindow(level, word, m, i);
        AddWindow(sequence[i..i + level + 1], weight, Padded(level, word), i);
      }
    }

    /** The windows inside the word. */
    method AddInner(word: seq<Codepoint>, weight: nat, m: nat)
      requires Adding(Padded(level, word), m, weight) && m == Min(level, |word|)
      modifies this`root, this`count
      ensures Adding(Padded(level, word), |word|, weight)
    {
      ghost var n := m;
      for i := 0 to |word| - m
        invariant n == m + i && Adding(Padded(level, word), n, weight)
      {
        InnerWindow(level, word, i);
        AddWindow(word[i..i + level + 1], weight, Padded(level, word), n);
        n := n + 1;
      }
    }

    /** The window that ends behind the word. */
    method AddEnd(word: seq<Codepoint>, weight: nat, m: nat)
      requires Adding(Padded(level, word), |word|, weight) && m == Min(level, |word|)
      modifies this`root, this`count
      ensures Adding(Padded(level, word), |word| + 1, weight)
    {
      var sequence := EndSequence(level, word, m);
      AddWindow(sequence, weight, Padded(level, word), |word|);
    }

    /** All the windows of a word, each just once. */
    method AddWindows(word: seq<Codepoint>, weight: nat)
      requires Adding(Padded(level, word), 0, weight)
      modifies this`root, this`count
      ensures Adding(Padded(level, word), |word| + 1, weight)
    {
      var m := Min(level, |word|);
      AddStart(word, weight, m);
      AddInner(word, weight, m);
      AddEnd(word, weight, m);
    }

    /** Adds a word. */
    method Add(word: seq<Codepoint>, weight: nat)
      requires Valid()
      modifies this
      ensures Valid() && history == old(history) + [Entry(word, weight)]
    {
      NoneYet(root, level, history, Padded(level, word), weight);
      AddWindows(word, weight);
      Recorded(root, level, history, Entry(word, weight));
      history := history + [Entry(word, weight)];
    }

    /** What is counted behind a known context. */
    ghost predicate Behind(leaf: Leaf, context: seq<nat>)
      requires |context| == level
      reads this
    {
      && LeafValid(leaf) && TotalRight(leaf) && leaf.total == Tally(level, history, context)
      && Follows(leaf, level, history, context)
    }

    /** Walks to the leaf of a context, without looking at the codepoints in the slots. */
    method Walk(context: seq<Codepoint>) returns (leaf: Leaf)
      requires Valid() && Countable(level, history) && Known(level, history, context)
      ensures Behind(leaf, context) && TrieEnd(root, level, context) == Outer(leaf)
    {
      var child := Inner(root);
      ghost var (total, end) := (Tally(level, history, context), TrieEnd(root, level, context));
      assert TrieTotal(root, level, context) == total;
      for i := 0 to level
        invariant OnTheWay(child, level - i, context[i..], total, end)
      {
        assert context[i..][1..] == context[i + 1..];
        child := Descend(child, level - i, context[i..]);
      }
      leaf := child.leaf;
      EndBehind(root, level, history, context);
    }

    /**
      Draws the codepoint behind a known context. Each one that was seen there comes out for exactly as many of the
      total choices as it was seen, and unless it is the end of a word, the context that it leads to is known again.
     */
    method Generate(current: seq<Codepoint>, random: Random, entropy: real) returns (c: Codepoint, entropy': real)
      requires Valid() && Countable(level, history) && Known(level, history, current)
      ensures Tally(level, history, current + [c]) > 0
      ensures c != 0 ==> Known(level, history, current[1..] + [c])
      ensures Weighed(entropy, Tally(level, history, current), Tally(level, history, current + [c]), entropy')
      ensures Drawn(current, random, c)
    {
      var leaf := Walk(current);
      var drawn := Draw(leaf, random(leaf.total));
      c := drawn.value;
      entropy' := Record(entropy, leaf.total, Count(leaf, c));
      if c != 0 {
        NextKnown(level, history, current, c);
      }
    }

    /** The choice is one of those for the codepoint, and of no other. */
    ghost predicate Drawn(current: seq<nat>, random: Random, c: nat)
      requires level > 0 && TrieValid(root, level) && |current| == level
      reads this
    {
      var end := TrieEnd(root, level, current);
      && end.Outer? && Behind(end.leaf, current)
      && forall d: nat :: Chosen(end.leaf, d, random(end.leaf.total)) <==> d == c
    }

    /** Each codepoint of the text behind its first level ones is what its own draw gives. */
    ghost predicate Spelled(text: seq<nat>, randoms: seq<Random>)
      requires level > 0 && TrieValid(root, level)
      reads this
    {
      && level <= |text| <= level + |randoms|
      && forall i :: 0 <= i < |text| - level ==> Drawn(text[i..i + level], randoms[i], text[i + level])
    }

    lemma {:induction false} SpelledNext(text: seq<nat>, randoms: seq<Random>, c: nat)
      requires level > 0 && TrieValid(root, level) && Spelled(text, randoms) && |text| < level + |randoms|
      requires Drawn(text[|text| - level..], randoms[|text| - level], c)
      ensures Spelled(text + [c], randoms)
    {
      var (more, n) := (text + [c], |text| - level);
      forall i | 0 <= i < |more| - level
        ensures Drawn(more[i..i + level], randoms[i], more[i + level])
      {
        if i == n {
          assert more[n..n + level] == text[n..];
        } else {
          assert more[i..i + level] == text[i..i + level];
        }
      }
    }

    /** Where a word is after n draws: each gave its codepoint, and all of them are in the entropy. */
    ghost predicate Spelling(text: seq<nat>, randoms: seq<Random>, first: real, entropy: real)
      requires level > 0 && TrieValid(root, level)
      reads this
    {
      Spelled(text, randoms) && Multiplied(first, Odds(level, history, text), entropy)
    }

    /** The next draw. */
    method NextDraw(ghost text: seq<nat>, current: seq<Codepoint>, randoms: seq<Random>, n: nat, ghost first: real,
                 entropy: real) returns (c: Codepoint, entropy': real)
      requires Valid() && Countable(level, history) && |text| == level + n && n < |randoms|
      requires Spelling(text, randoms, first, entropy) && current == text[n..] && Known(level, history, current)
      ensures Spelling(text + [c], randoms, first, entropy')
      ensures c != 0 ==> Known(level, history, current[1..] + [c])
    {
      c, entropy' := Generate(current, randoms[n], entropy);
      SpelledNext(text, randoms, c);
      OddsNext(level, history, text, c);
      MultipliedNext(first, Odds(level, history, text), entropy, Tally(level, history, current),
                     Tally(level, history, current + [c]), entropy');
    }

    /**
      From the start of a word, generation never runs into a context that was not seen. It goes on, each codepoint being
      what its own draw gives, until one gives the end of the word; the entropy is multiplied by what all of these were
      one of, and divided by how many of those are the same.
     */
    method Word(randoms: seq<Random>, entropy: real) returns (word: seq<Codepoint>, ended: bool, entropy': real)
      requires Valid() && Countable(level, history) && exists k :: 0 <= k < |history| && history[k].weight > 0
      ensures ended || |word| == |randoms|
      ensures forall i :: 0 <= i < |word| ==> word[i] != 0
      ensures !ended ==> Known(level, history, (Zeros(level) + word)[|word|..])
      ensures Spelling(Zeros(level) + word + if ended then [0] else [], randoms, entropy, entropy')
    {
      ghost var k :| 0 <= k < |history| && history[k].weight > 0;
      StartKnown(level, history, k);
      var current := Zeros(level);
      word, ended, entropy' := [], false, entropy;
      assert Zeros(level) + word == current;
      for i := 0 to |randoms|
        invariant |word| == i && forall j :: 0 <= j < i ==> word[j] != 0
        invariant Spelling(Zeros(level) + word, randoms, entropy, entropy')
        invariant current == (Zeros(level) + word)[i..] && Known(level, history, current)
      {
        var c;
        c, entropy' := NextDraw(Zeros(level) + word, current, randoms, i, entropy, entropy');
        if c == 0 {
          ended := true;
          return;
        }
        SlideText(Zeros(level), word, c);
        assert Zeros(level) + word + [c] == Zeros(level) + (word + [c]);
        current := current[1..] + [c];
        word := word + [c];
      }
      assert Zeros(level) + word + [] == Zeros(level) + word;
    }
  }

  /** One over the probability of the codepoints behind the first level ones, by how often each was seen there. */
  ghost function Odds(level: nat, history: seq<Entry>, text: seq<nat>): real {
    if |text| <= level then 1.0
    else
      var n := |text| - level - 1;
      OneOf(Odds(level, history, text[..n + level]), Tally(level, history, text[n..n + level]),
            Tally(level, history, text[n..]))
  }

  /** One of total choices was made on top, and count of them are the same. */
  function OneOf(odds: real, total: nat, count: nat): real {
    if count == 0 then 0.0 else odds * total as real / count as real
  }

  ghost predicate Multiplied(first: real, odds: real, entropy: real) {
    entropy == first * odds
  }

  lemma {:induction false} OddsNext(level: nat, history: seq<Entry>, text: seq<nat>, c: nat)
    requires |text| >= level
    ensures var context := text[|text| - level..];
            Odds(level, history, text + [c])
            == OneOf(Odds(level, history, text), Tally(level, history, context), Tally(level, history, context + [c]))
  {
    var (more, n) := (text + [c], |text| - level);
    assert more[n..n + level] == text[n..] && more[n..] == text[n..] + [c] && more[..n + level] == text;
  }

  lemma MultipliedNext(first: real, odds: real, before: real, total: nat, count: nat, after: real)
    requires Multiplied(first, odds, before) && Weighed(before, total, count, after)
    ensures Multiplied(first, OneOf(odds, total, count), after)
  {
  }

  // ---------------------------------------------------------------------
  // Counts that wrap around
  // ---------------------------------------------------------------------

  lemma {:induction false} EndCount(child: Child, depth: nat, context: seq<nat>, c: nat)
    requires ChildValid(child, depth) && |context| == depth
    ensures var end := ChildEnd(child, depth, context);
            match end
            case Null => ChildCount(child, depth, context, c) == 0
            case Outer(leaf) => LeafValid(leaf) && ChildCount(child, depth, context, c) == Count(leaf, c)
            case Inner(_) => false
    decreases depth
  {
    if child.Inner? {
      EndCount(Lookup(child.node, context[0]), depth - 1, context[1..], c);
    }
  }

  lemma {:induction false} WeighWrapped(text: seq<nat>, n: nat, window: seq<nat>)
    requires n == 0 || n - 1 + |window| <= |text|
    ensures Plus(Weigh(text, n, window, B), 0) == 0
  {
    if n > 0 {
      WeighWrapped(text, n - 1, window);
    }
  }

  /** After one word with weight 2^32, every count is 0, although the start was seen. */
  lemma HeavyCounts(root: Node, level: nat, word: seq<Codepoint>, context: seq<nat>, c: nat)
    requires level > 0 && TrieValid(root, level) && Agrees(root, level, [Entry(word, B)], [], 0, 0)
    requires |context| == level
    ensures TrieCount(root, level, context, c) == 0
    ensures Known(level, [Entry(word, B)], Zeros(level))
  {
    var history := [Entry(word, B)];
    StartKnown(level, history, 0);
    TallyMore(level, [], Entry(word, B), context + [c]);
    assert [] + history == history;
    WeighWrapped(Padded(level, word), |word| + 1, context + [c]);
  }

  /** Such is the trie that the empty word leaves: behind the start, there are 2^32 choices, and nothing to choose. */
  method DeadEnd(level: nat) returns (root: Node)
    requires level > 0
    ensures TrieValid(root, level) && TrieEnd(root, level, Zeros(level)).Outer?
    ensures var leaf := TrieEnd(root, level, Zeros(level)).leaf;
            LeafValid(leaf) && leaf.total == B && !NeverStuck(leaf) && forall choice, c :: !Chosen(leaf, c, choice)
  {
    var empty := NewNode(SIZES[0]);
    NothingCounted(empty, level);
    var sequence := Zeros(level + 1);
    assert sequence[..level] == Zeros(level);
    root := InsertWord(empty, level, sequence, B);
    NothingChosen(empty, root, level, sequence);
    assert !Leads(TrieEnd(root, level, Zeros(level)).leaf, 0);
  }

  lemma NothingChosen(empty: Node, root: Node, level: nat, sequence: seq<nat>)
    requires level > 0 && TrieValid(empty, level) && TrieValid(root, level) && |sequence| == level + 1
    requires Agrees(empty, level, [], [], 0, 0) && Counted(root, empty, level, sequence, B)
    requires TrieEnd(root, level, Zeros(level)).Outer?
    ensures var leaf := TrieEnd(root, level, Zeros(level)).leaf;
            LeafValid(leaf) && forall choice, c :: !Chosen(leaf, c, choice)
  {
    EndCount(Inner(root), level, Zeros(level), 0);
    var leaf := TrieEnd(root, level, Zeros(level)).leaf;
    forall choice, c
      ensures !Chosen(leaf, c, choice)
    {
      EndCount(Inner(root), level, Zeros(level), c);
      assert TrieCount(empty, level, Zeros(level), c) == 0;
      assert TrieCount(root, level, Zeros(level), c) == 0;
    }
  }
}
