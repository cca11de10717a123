// Counting what follows the contexts in a list of words, plainly and in the Markov chain's trie (src/markov.c).

module MarkovCounts {
  import opened Words
  import opened MarkovLeaf
  import opened MarkovTrie

  // ---------------------------------------------------------------------
  // Plain counting
  // ---------------------------------------------------------------------

  datatype Entry = Entry(word: seq<Codepoint>, weight: nat)

  function Zeros(n: nat): seq<Codepoint> {
    seq(n, _ => 0)
  }

  /** A word with the zeros that mark its start and its end. */
  function Padded(level: nat, word: seq<Codepoint>): seq<Codepoint> {
    Zeros(level) + word + [0]
  }

  /** weight for each of the first n positions at which the text has the window. */
  function Weigh(text: seq<nat>, n: nat, window: seq<nat>, weight: nat): nat
    requires n == 0 || n - 1 + |window| <= |text|
  {
    if n == 0 then 0
    else Weigh(text, n - 1, window, weight) + if text[n - 1..n - 1 + |window|] == window then weight else 0
  }

  /** How often the window was seen in the words: one position for every codepoint, and one for the end. */
  function Tally(level: nat, history: seq<Entry>, window: seq<nat>): nat
    requires |window| <= level + 1
  {
    if history == [] then 0
    else
      var last := history[|history| - 1];
      Tally(level, history[..|history| - 1], window)
      + Weigh(Padded(level, last.word), |last.word| + 1, window, last.weight)
  }

  /** The weight of all the windows of all the words. */
  function Mass(history: seq<Entry>): nat {
    if history == [] then 0
    else
      var last := history[|history| - 1];
      Mass(history[..|history| - 1]) + last.weight * (|last.word| + 1)
  }

  /** And of the first n windows of one more word. */
  function Heavier(history: seq<Entry>, n: nat, weight: nat): nat {
    Mass(history) + weight * n
  }

  lemma HeavierNext(history: seq<Entry>, n: nat, weight: nat)
    ensures Heavier(history, n + 1, weight) == Heavier(history, n, weight) + weight
  {
    assert weight * (n + 1) == weight * n + weight;
  }

  lemma {:induction false} WeighBound(text: seq<nat>, n: nat, window: seq<nat>, weight: nat)
    requires n == 0 || n - 1 + |window| <= |text|
    ensures Weigh(text, n, window, weight) <= weight * n
  {
    if n > 0 {
      WeighBound(text, n - 1, window, weight);
      assert weight * n == weight * (n - 1) + weight;
    }
  }

  lemma {:induction false} TallyBound(level: nat, history: seq<Entry>, window: seq<nat>)
    requires |window| == level + 1
    ensures Tally(level, history, window) <= Mass(history)
  {
    if history != [] {
      var last := history[|history| - 1];
      TallyBound(level, history[..|history| - 1], window);
      WeighBound(Padded(level, last.word), |last.word| + 1, window, last.weight);
    }
  }

  /** The trie agrees with the plain counts, and with those of the first n windows of one more word. */
  ghost predicate Agrees(root: Node, level: nat, history: seq<Entry>, text: seq<nat>, n: nat, weight: nat)
    requires level > 0 && TrieValid(root, level) && (n == 0 || n + level <= |text|)
  {
    forall context, c {:trigger TrieCount(root, level, context, c)} :: |context| == level ==>
      TrieCount(root, level, context, c)
      == Plus(Tally(level, history, context + [c]), Weigh(text, n, context + [c], weight))
  }

  /** And so do the totals of its leaves. */
  ghost predicate TotalsAgree(root: Node, level: nat, history: seq<Entry>, text: seq<nat>, n: nat, weight: nat)
    requires level > 0 && TrieValid(root, level) && (n == 0 || n + level <= |text|)
  {
    TotalsRight(root, level)
    && forall context {:trigger TrieTotal(root, level, context)} :: |context| == level ==>
         TrieTotal(root, level, context) == Tally(level, history, context) + Weigh(text, n, context, weight)
  }

  /** Without words, nothing is counted. */
  lemma NothingCounted(root: Node, level: nat)
    requires level > 0 && TrieValid(root, level) && forall c :: Lookup(root, c) == Null
    ensures Agrees(root, level, [], [], 0, 0) && TotalsAgree(root, level, [], [], 0, 0)
    ensures forall context | |context| == level :: TrieEnd(root, level, context) == Null
  {
    forall context, c | |context| == level
      ensures TrieCount(root, level, context, c) == 0 && TrieTotal(root, level, context) == 0
      ensures TrieEnd(root, level, context) == Null
    {
      assert Lookup(root, context[0]) == Null;
    }
  }

  lemma PlusPlus(x: nat, y: nat, z: nat)
    ensures Plus(Plus(x, y), z) == Plus(x, y + z)
  {
    DivUnique(x + y + z, B, (x + y) / B + (Plus(x, y) as int + z) / B, Plus(Plus(x, y), z));
  }

  lemma PlusSmall(x: nat, y: nat)
    ensures Plus(x, y) as int <= x + y
    ensures x + y < B ==> Plus(x, y) as int == x + y
  {
  }

  /** Adding the next window. */
  lemma NextWindow(root: Node, root': Node, level: nat, history: seq<Entry>, text: seq<nat>, n: nat, weight: nat)
    requires level > 0 && TrieValid(root, level) && TrieValid(root', level) && n + level + 1 <= |text|
    requires Agrees(root, level, history, text, n, weight)
    requires Counted(root', root, level, text[n..n + level + 1], weight)
    ensures Agrees(root', level, history, text, n + 1, weight)
  {
    var sequence := text[n..n + level + 1];
    forall context, c | |context| == level
      ensures TrieCount(root', level, context, c)
           == Plus(Tally(level, history, context + [c]), Weigh(text, n + 1, context + [c], weight))
    {
      var window := context + [c];
      assert Hits(sequence, context, c) <==> sequence == window by {
        assert sequence == sequence[..level] + [sequence[level]];
        assert window[..level] == context && window[level] == c;
      }
      PlusPlus(Tally(level, history, window), Weigh(text, n, window, weight), weight);
    }
  }

  lemma NextTotal(root: Node, root': Node, level: nat, history: seq<Entry>, text: seq<nat>, n: nat, weight: nat)
    requires level > 0 && TrieValid(root, level) && TrieValid(root', level) && n + level + 1 <= |text|
    requires TotalsAgree(root, level, history, text, n, weight)
    requires Totalled(root', root, level, text[n..n + level + 1], weight)
    ensures TotalsAgree(root', level, history, text, n + 1, weight)
  {
    assert text[n..n + level + 1][..level] == text[n..n + level];
  }

  /** No window was seen 2^32 times or more, and so no count has wrapped around. */
  ghost predicate Countable(level: nat, history: seq<Entry>) {
    forall window {:trigger Tally(level, history, window)} :: |window| == level + 1 ==>
      Tally(level, history, window) < B
  }

  /** Nor with the first n windows of one more word. */
  ghost predicate Fitting(level: nat, history: seq<Entry>, text: seq<nat>, n: nat, weight: nat)
    requires n == 0 || n + level <= |text|
  {
    forall window {:trigger Tally(level, history, window)} :: |window| == level + 1 ==>
      Tally(level, history, window) + Weigh(text, n, window, weight) < B
  }

  /** If the next window still fits, its count does not overflow. */
  lemma NoOverflow(root: Node, level: nat, history: seq<Entry>, text: seq<nat>, n: nat, weight: nat)
    requires level > 0 && TrieValid(root, level) && n + level + 1 <= |text|
    requires Agrees(root, level, history, text, n, weight) && Fitting(level, history, text, n + 1, weight)
    ensures Fits(root, level, text[n..n + level + 1], weight)
  {
    var sequence := text[n..n + level + 1];
    var window := sequence[..level] + [sequence[level]];
    assert window == sequence;
    assert Tally(level, history, window) + Weigh(text, n + 1, window, weight) < B;
    PlusSmall(Tally(level, history, window), Weigh(text, n, window, weight));
  }

  lemma FittingBefore(level: nat, history: seq<Entry>, text: seq<nat>, n: nat, weight: nat)
    requires n + level + 1 <= |text| && Fitting(level, history, text, n + 1, weight)
    ensures Fitting(level, history, text, n, weight)
  {
    forall window | |window| == level + 1
      ensures Tally(level, history, window) + Weigh(text, n, window, weight) < B
    {
      assert Weigh(text, n, window, weight) <= Weigh(text, n + 1, window, weight);
    }
  }

  /** What was inserted is one more window, and the totals follow while nothing overflows. */
  lemma WindowAdded(root: Node, root': Node, level: nat, history: seq<Entry>, text: seq<nat>, n: nat, weight: nat)
    requires level > 0 && TrieValid(root, level) && TrieValid(root', level) && n + level + 1 <= |text|
    requires Agrees(root, level, history, text, n, weight)
    requires Fitting(level, history, text, n, weight) ==> TotalsAgree(root, level, history, text, n, weight)
    requires Counted(root', root, level, text[n..n + level + 1], weight)
    requires TotalsRight(root, level) && Fits(root, level, text[n..n + level + 1], weight) ==>
               Totalled(root', root, level, text[n..n + level + 1], weight)
    ensures Agrees(root', level, history, text, n + 1, weight)
    ensures Fitting(level, history, text, n + 1, weight) ==> TotalsAgree(root', level, history, text, n + 1, weight)
  {
    NextWindow(root, root', level, history, text, n, weight);
    if Fitting(level, history, text, n + 1, weight) {
      FittingBefore(level, history, text, n, weight);
      NoOverflow(root, level, history, text, n, weight);
      NextTotal(root, root', level, history, text, n, weight);
    }
  }

  /** It is enough that the weights of all the windows add up to less than 2^32. */
  lemma LightCountable(level: nat, history: seq<Entry>)
    requires Mass(history) < B
    ensures Countable(level, history)
  {
    forall window | |window| == level + 1
      ensures Tally(level, history, window) < B
    {
      TallyBound(level, history, window);
    }
  }

  /** Every window is counted as often as it was seen. */
  ghost predicate CountsRight(root: Node, level: nat, history: seq<Entry>)
    requires level > 0 && TrieValid(root, level)
  {
    forall context, c {:trigger TrieCount(root, level, context, c)} :: |context| == level ==>
      TrieCount(root, level, context, c) as int == Tally(level, history, context + [c])
  }

  /** A count is right exactly if it is less than 2^32. */
  lemma CountExact(root: Node, level: nat, history: seq<Entry>, context: seq<nat>, c: nat)
    requires level > 0 && TrieValid(root, level) && Agrees(root, level, history, [], 0, 0) && |context| == level
    ensures TrieCount(root, level, context, c) as int == Tally(level, history, context + [c])
       <==> Tally(level, history, context + [c]) < B
  {
    PlusSmall(Tally(level, history, context + [c]), 0);
    assert Weigh([], 0, context + [c], 0) == 0;
  }

  lemma CountsExact(root: Node, level: nat, history: seq<Entry>)
    requires level > 0 && TrieValid(root, level) && Agrees(root, level, history, [], 0, 0)
    ensures CountsRight(root, level, history) <==> Countable(level, history)
  {
    if CountsRight(root, level, history) {
      forall window | |window| == level + 1
        ensures Tally(level, history, window) < B
      {
        assert window == window[..level] + [window[level]];
        CountExact(root, level, history, window[..level], window[level]);
      }
    }
    if Countable(level, history) {
      forall context, c | |context| == level
        ensures TrieCount(root, level, context, c) as int == Tally(level, history, context + [c])
      {
        CountExact(root, level, history, context, c);
      }
    }
  }

  // ---------------------------------------------------------------------
  // Walking
  // ---------------------------------------------------------------------

  /** The context was seen in the words. */
  predicate Known(level: nat, history: seq<Entry>, context: seq<nat>) {
    |context| == level && Tally(level, history, context) > 0
  }

  lemma {:induction false} SeenAt(text: seq<nat>, n: nat, window: seq<nat>, weight: nat) returns (i: nat)
    requires n == 0 || n - 1 + |window| <= |text|
    requires Weigh(text, n, window, weight) > 0
    ensures i < n && text[i..i + |window|] == window && weight > 0
  {
    if text[n - 1..n - 1 + |window|] == window && weight > 0 {
      i := n - 1;
    } else {
      i := SeenAt(text, n - 1, window, weight);
    }
  }

  lemma {:induction false} AtSeen(text: seq<nat>, n: nat, window: seq<nat>, weight: nat, i: nat)
    requires n - 1 + |window| <= |text|
    requires i < n && text[i..i + |window|] == window && weight > 0
    ensures Weigh(text, n, window, weight) > 0
  {
    if i < n - 1 {
      AtSeen(text, n - 1, window, weight, i);
    }
  }

  /** After a codepoint that is not zero, there is a next context, and it was seen. */
  lemma {:induction false} NextKnown(level: nat, history: seq<Entry>, context: seq<nat>, c: nat)
    requires level > 0 && |context| == level && Tally(level, history, context + [c]) > 0 && c != 0
    ensures Known(level, history, context[1..] + [c])
  {
    var last := history[|history| - 1];
    if Weigh(Padded(level, last.word), |last.word| + 1, context + [c], last.weight) > 0 {
      NextInWord(level, last.word, last.weight, context, c);
    } else {
      NextKnown(level, history[..|history| - 1], context, c);
    }
  }

  lemma NextInWord(level: nat, word: seq<Codepoint>, weight: nat, context: seq<nat>, c: nat)
    requires level > 0 && |context| == level && c != 0
    requires Weigh(Padded(level, word), |word| + 1, context + [c], weight) > 0
    ensures Weigh(Padded(level, word), |word| + 1, context[1..] + [c], weight) > 0
  {
    var (text, window) := (Padded(level, word), context + [c]);
    var i := SeenAt(text, |word| + 1, window, weight);
    SlideWindow(text, i, context, c);
    assert text[|word| + level] == 0;
    AtSeen(text, |word| + 1, context[1..] + [c], weight, i + 1);
  }

  lemma SlideWindow(text: seq<nat>, i: nat, context: seq<nat>, c: nat)
    requires context != [] && i + |context| < |text|
    requires text[i..i + |context| + 1] == context + [c]
    ensures text[i + |context|] == c
    ensures text[i + 1..i + 1 + |context|] == context[1..] + [c]
  {
    var sequence := text[i..i + |context| + 1];
    assert text[i + |context|] == sequence[|context|];
    assert text[i + 1..i + 1 + |context|] == sequence[1..];
  }

  /** Every word begins behind the zeros. */
  lemma {:induction false} StartKnown(level: nat, history: seq<Entry>, k: nat)
    requires k < |history| && history[k].weight > 0
    ensures Known(level, history, Zeros(level))
  {
    var last := history[|history| - 1];
    if k == |history| - 1 {
      assert Padded(level, last.word)[0..level] == Zeros(level);
      AtSeen(Padded(level, last.word), |last.word| + 1, Zeros(level), last.weight, 0);
    } else {
      StartKnown(level, history[..|history| - 1], k);
    }
  }

  // ---------------------------------------------------------------------
  // The windows of a word
  // ---------------------------------------------------------------------

  /** The first windows begin in the zeros before the word. */
  lemma StartWindow(level: nat, word: seq<Codepoint>, m: nat, i: nat)
    requires m == Min(level, |word|) && i < m
    ensures (Zeros(level) + word[..m] + Zeros(level + 1 - m))[i..i + level + 1] == Padded(level, word)[i..i + level + 1]
  {
  }

  /** The windows inside the word. */
  lemma InnerWindow(level: nat, word: seq<Codepoint>, i: nat)
    requires i + level < |word|
    ensures word[i..i + level + 1] == Padded(level, word)[level + i..level + i + level + 1]
  {
  }

  /** The last window ends with a zero behind the word. */
  lemma EndWindow(level: nat, word: seq<Codepoint>, m: nat)
    requires m == Min(level, |word|)
    ensures (Zeros(level - m) + word[|word| - m..] + Zeros(level + 1))[..level + 1]
         == Padded(level, word)[|word|..|word| + level + 1]
  {
  }

  // ---------------------------------------------------------------------
  // One more word
  // ---------------------------------------------------------------------

  lemma AllFitting(level: nat, history: seq<Entry>, entry: Entry)
    requires Countable(level, history + [entry])
    ensures Fitting(level, history, Padded(level, entry.word), |entry.word| + 1, entry.weight)
  {
    forall window | |window| == level + 1
      ensures Tally(level, history, window)
            + Weigh(Padded(level, entry.word), |entry.word| + 1, window, entry.weight) < B
    {
      TallyMore(level, history, entry, window);
    }
  }

  lemma AgreesMore(root: Node, level: nat, history: seq<Entry>, entry: Entry)
    requires level > 0 && TrieValid(root, level)
    requires Agrees(root, level, history, Padded(level, entry.word), |entry.word| + 1, entry.weight)
    ensures Agrees(root, level, history + [entry], [], 0, 0)
  {
    var text := Padded(level, entry.word);
    forall context, c | |context| == level
      ensures TrieCount(root, level, context, c)
           == Plus(Tally(level, history + [entry], context + [c]), Weigh([], 0, context + [c], 0))
    {
      var window := context + [c];
      var weigh := Weigh(text, |entry.word| + 1, window, entry.weight);
      assert TrieCount(root, level, context, c) == Plus(Tally(level, history, window), weigh);
      TallyMore(level, history, entry, window);
      PlusZero(Tally(level, history, window), weigh);
    }
  }

  lemma PlusZero(x: nat, y: nat)
    ensures Plus(x, y) == Plus(x + y, 0)
  {
  }

  lemma TotalsMore(root: Node, level: nat, history: seq<Entry>, entry: Entry)
    requires level > 0 && TrieValid(root, level)
    requires TotalsAgree(root, level, history, Padded(level, entry.word), |entry.word| + 1, entry.weight)
    ensures TotalsAgree(root, level, history + [entry], [], 0, 0)
  {
    forall context | |context| == level
      ensures TrieTotal(root, level, context) == Tally(level, history + [entry], context)
    {
      TallyMore(level, history, entry, context);
    }
  }

  lemma TallyMore(level: nat, history: seq<Entry>, entry: Entry, window: seq<nat>)
    requires |window| <= level + 1
    ensures Tally(level, history + [entry], window)
         == Tally(level, history, window) + Weigh(Padded(level, entry.word), |entry.word| + 1, window, entry.weight)
  {
    var more := history + [entry];
    assert more[..|more| - 1] == history && more[|more| - 1] == entry;
  }

  /** No window of the word is counted yet. */
  lemma NoneYet(root: Node, level: nat, history: seq<Entry>, text: seq<nat>, weight: nat)
    requires level > 0 && TrieValid(root, level) && Agrees(root, level, history, [], 0, 0)
    requires Countable(level, history) ==> TotalsAgree(root, level, history, [], 0, 0)
    ensures Agrees(root, level, history, text, 0, weight)
    ensures Fitting(level, history, text, 0, weight) ==> TotalsAgree(root, level, history, text, 0, weight)
  {
    if Fitting(level, history, text, 0, weight) {
      forall window | |window| == level + 1
        ensures Tally(level, history, window) < B
      {
        assert Weigh(text, 0, window, weight) == 0;
      }
    }
  }

  /** With all the windows of a word counted, the word is part of the history. */
  lemma Recorded(root: Node, level: nat, history: seq<Entry>, entry: Entry)
    requires level > 0 && TrieValid(root, level)
    requires Agrees(root, level, history, Padded(level, entry.word), |entry.word| + 1, entry.weight)
    requires Fitting(level, history, Padded(level, entry.word), |entry.word| + 1, entry.weight) ==>
               TotalsAgree(root, level, history, Padded(level, entry.word), |entry.word| + 1, entry.weight)
    ensures Agrees(root, level, history + [entry], [], 0, 0)
    ensures Countable(level, history + [entry]) ==> TotalsAgree(root, level, history + [entry], [], 0, 0)
    ensures Mass(history + [entry]) == Heavier(history, |entry.word| + 1, entry.weight)
  {
    var more := history + [entry];
    assert more[..|more| - 1] == history && more[|more| - 1] == entry;
    AgreesMore(root, level, history, entry);
    if Countable(level, more) {
      AllFitting(level, history, entry);
      TotalsMore(root, level, history, entry);
    }
  }
}
