// The nodes of the Markov chain's trie: growing hash tables from codepoints to children (src/markov.c).

module MarkovTrie {
  import opened Words
  import opened MarkovLeaf

  datatype Child = Null | Inner(node: Node) | Outer(leaf: Leaf)

  /** A slot is in use if it has a child. */
  datatype Node = Node(codepoints: seq<nat>, children: seq<Child>)

  ghost predicate NodeValid(node: Node) {
    && |node.codepoints| == |node.children| && IsSize(|node.children|) && 0 < |node.children| <= LAST
    && forall i :: 0 <= i < |node.children| && node.children[i] != Null ==>
         node.codepoints[i] <= 0x10ffff && Slot(node.codepoints[i], |node.children|) == i
  }

  /** The child of a codepoint. */
  function Lookup(node: Node, c: nat): Child
    requires |node.codepoints| == |node.children| > 0
  {
    var i := Slot(c, |node.children|);
    if node.codepoints[i] == c then node.children[i] else Null
  }

  method NewNode(capacity: nat) returns (node: Node)
    requires IsSize(capacity) && 0 < capacity <= LAST
    ensures NodeValid(node) && |node.children| == capacity
    ensures forall c :: Lookup(node, c) == Null
  {
    node := Node(seq(capacity, _ => 0), seq(capacity, _ => Null));
  }

  /** Makes the slot of a codepoint its own; the table grows until there is one. */
  method InsertKey(node: Node, codepoint: Codepoint) returns (result: Node)
    requires NodeValid(node)
    ensures NodeValid(result) && |result.children| >= |node.children|
    ensures forall c :: Lookup(result, c) == Lookup(node, c)
    ensures result.codepoints[Slot(codepoint, |result.children|)] == codepoint
    decreases LAST - |node.children|, 1
  {
    result := node;
    while result.children[Slot(codepoint, |result.children|)] != Null
       && result.codepoints[Slot(codepoint, |result.children|)] != codepoint
      invariant NodeValid(result) && |result.children| >= |node.children|
      invariant forall c :: Lookup(result, c) == Lookup(node, c)
      decreases LAST - |result.children|
    {
      if |result.children| == LAST {
        SlotLast(codepoint, result.codepoints[Slot(codepoint, LAST)]);
      }
      result := Realloc(result);
    }
    result := result.(codepoints := result.codepoints[Slot(codepoint, |result.children|) := codepoint]);
  }

  /** Stores a child in the slot of its codepoint. */
  method SetChild(node: Node, codepoint: Codepoint, child: Child) returns (result: Node)
    requires NodeValid(node) && node.codepoints[Slot(codepoint, |node.children|)] == codepoint
    ensures NodeValid(result) && |result.children| == |node.children|
    ensures Lookup(result, codepoint) == child
    ensures forall c :: c != codepoint ==> Lookup(result, c) == Lookup(node, c)
  {
    result := node.(children := node.children[Slot(codepoint, |node.children|) := child]);
  }

  /** A larger table with the same children. */
  method Realloc(node: Node) returns (result: Node)
    requires NodeValid(node) && |node.children| < LAST
    ensures NodeValid(result) && |result.children| > |node.children|
    ensures forall c :: Lookup(result, c) == Lookup(node, c)
    decreases LAST - |node.children|, 0
  {
    var capacity := |node.children|;
    var next := NextSize(capacity);
    result := NewNode(next);
    for i := 0 to capacity
      invariant NodeValid(result) && |result.children| > capacity
      invariant CopiedNode(result, node, i)
    {
      if node.children[i] != Null {
        ghost var before := result;
        var codepoint := node.codepoints[i];
        result := InsertKey(result, codepoint);
        assert Lookup(result, codepoint) == Null;
        result := SetChild(result, codepoint, node.children[i]);
        ChildCopied(node, before, result, i);
      } else {
        NoChild(node, result, i);
      }
    }
    AllCopiedNode(result, node);
  }

  /** The children of the codepoints that belong in the first n slots. */
  ghost predicate CopiedNode(result: Node, node: Node, n: nat)
    requires NodeValid(result) && NodeValid(node)
  {
    forall c :: Lookup(result, c) == if Slot(c, |node.children|) < n then Lookup(node, c) else Null
  }

  lemma ChildCopied(node: Node, before: Node, result: Node, i: nat)
    requires NodeValid(node) && NodeValid(before) && NodeValid(result)
    requires i < |node.children| && node.children[i] != Null && CopiedNode(before, node, i)
    requires Lookup(result, node.codepoints[i]) == node.children[i]
    requires forall c :: c != node.codepoints[i] ==> Lookup(result, c) == Lookup(before, c)
    ensures CopiedNode(result, node, i + 1)
  {
  }

  lemma NoChild(node: Node, result: Node, i: nat)
    requires NodeValid(node) && NodeValid(result) && i < |node.children| && node.children[i] == Null
    requires CopiedNode(result, node, i)
    ensures CopiedNode(result, node, i + 1)
  {
  }

  lemma AllCopiedNode(result: Node, node: Node)
    requires NodeValid(result) && NodeValid(node) && CopiedNode(result, node, |node.children|)
    ensures forall c :: Lookup(result, c) == Lookup(node, c)
  {
  }

  // ---------------------------------------------------------------------
  // Tries
  // ---------------------------------------------------------------------

  /** A trie of the given depth: all paths of that length end in leaves. */
  ghost predicate TrieValid(node: Node, depth: nat)
    decreases depth, 0
  {
    && depth > 0 && NodeValid(node)
    && forall c: nat :: ChildValid(Lookup(node, c), depth - 1)
  }

  ghost predicate ChildValid(child: Child, depth: nat)
    decreases depth, 1
  {
    match child
    case Null => true
    case Inner(node) => depth > 0 && TrieValid(node, depth)
    case Outer(leaf) => depth == 0 && LeafValid(leaf)
  }

  /** How often a codepoint was counted behind a context. */
  ghost function TrieCount(node: Node, depth: nat, context: seq<nat>, c: nat): u32
    requires TrieValid(node, depth) && |context| == depth
    decreases depth, 0
  {
    ChildCount(Lookup(node, context[0]), depth - 1, context[1..], c)
  }

  ghost function ChildCount(child: Child, depth: nat, context: seq<nat>, c: nat): u32
    requires ChildValid(child, depth) && |context| == depth
    decreases depth, 1
  {
    match child
    case Null => 0
    case Inner(node) => TrieCount(node, depth, context, c)
    case Outer(leaf) => Count(leaf, c)
  }

  /** The totals of all the leaves are right. */
  ghost predicate TotalsRight(node: Node, depth: nat)
    requires TrieValid(node, depth)
    decreases depth, 0
  {
    forall c: nat :: ChildTotals(Lookup(node, c), depth - 1)
  }

  ghost predicate ChildTotals(child: Child, depth: nat)
    requires ChildValid(child, depth)
    decreases depth, 1
  {
    match child
    case Null => true
    case Inner(node) => TotalsRight(node, depth)
    case Outer(leaf) => TotalRight(leaf)
  }

  /** The total of the leaf behind a context. */
  ghost function TrieTotal(node: Node, depth: nat, context: seq<nat>): nat
    requires TrieValid(node, depth) && |context| == depth
    decreases depth, 0
  {
    ChildTotal(Lookup(node, context[0]), depth - 1, context[1..])
  }

  ghost function ChildTotal(child: Child, depth: nat, context: seq<nat>): nat
    requires ChildValid(child, depth) && |context| == depth
    decreases depth, 1
  {
    match child
    case Null => 0
    case Inner(node) => TrieTotal(node, depth, context)
    case Outer(leaf) => leaf.total
  }

  /** What a context leads to. */
  ghost function TrieEnd(node: Node, depth: nat, context: seq<nat>): Child
    requires TrieValid(node, depth) && |context| == depth
    decreases depth, 0
  {
    ChildEnd(Lookup(node, context[0]), depth - 1, context[1..])
  }

  ghost function ChildEnd(child: Child, depth: nat, context: seq<nat>): Child
    requires ChildValid(child, depth) && |context| == depth
    decreases depth, 1
  {
    if child.Inner? then TrieEnd(child.node, depth, context) else child
  }

  /** Where there was no leaf yet, one was made for the sequence, and weight is its total. */
  ghost predicate Started(child: Child, result: Child, depth: nat, sequence: seq<nat>, weight: nat)
    requires ChildValid(child, depth) && ChildValid(result, depth) && |sequence| == depth + 1
  {
    ChildEnd(child, depth, sequence[..depth]) == Null ==>
      var end := ChildEnd(result, depth, sequence[..depth]);
      end.Outer? && end.leaf.total == Wrap(weight)
  }

  /** The context and the codepoint behind it are those of the sequence. */
  predicate Hits(sequence: seq<nat>, context: seq<nat>, c: nat) {
    |sequence| == |context| + 1 && context == sequence[..|context|] && c == sequence[|context|]
  }

  /** The count of the sequence does not overflow. */
  ghost predicate Fits(node: Node, depth: nat, sequence: seq<nat>, weight: nat)
    requires TrieValid(node, depth) && |sequence| == depth + 1
  {
    TrieCount(node, depth, sequence[..depth], sequence[depth]) as int + weight < B
  }

  ghost predicate ChildFits(child: Child, depth: nat, sequence: seq<nat>, weight: nat)
    requires ChildValid(child, depth) && |sequence| == depth + 1
  {
    ChildCount(child, depth, sequence[..depth], sequence[depth]) as int + weight < B
  }

  /** The counts of the other trie, with weight more for the sequence. */
  ghost predicate Counted(result: Node, node: Node, depth: nat, sequence: seq<nat>, weight: nat)
    requires TrieValid(node, depth) && TrieValid(result, depth)
  {
    forall context, c {:trigger TrieCount(result, depth, context, c)} :: |context| == depth ==>
      TrieCount(result, depth, context, c)
      == if Hits(sequence, context, c) then Plus(TrieCount(node, depth, context, c), weight)
         else TrieCount(node, depth, context, c)
  }

  ghost predicate ChildCounted(result: Child, child: Child, depth: nat, sequence: seq<nat>, weight: nat)
    requires ChildValid(child, depth) && ChildValid(result, depth)
  {
    forall context, c {:trigger ChildCount(result, depth, context, c)} :: |context| == depth ==>
      ChildCount(result, depth, context, c)
      == if Hits(sequence, context, c) then Plus(ChildCount(child, depth, context, c), weight)
         else ChildCount(child, depth, context, c)
  }

  /** The totals of the other trie, with weight more for the context of the sequence. */
  ghost predicate Totalled(result: Node, node: Node, depth: nat, sequence: seq<nat>, weight: nat)
    requires TrieValid(node, depth) && TrieValid(result, depth) && |sequence| == depth + 1
  {
    TotalsRight(result, depth)
    && forall context {:trigger TrieTotal(result, depth, context)} :: |context| == depth ==>
         TrieTotal(result, depth, context)
         == TrieTotal(node, depth, context) + if context == sequence[..depth] then weight else 0
  }

  ghost predicate ChildTotalled(result: Child, child: Child, depth: nat, sequence: seq<nat>, weight: nat)
    requires ChildValid(child, depth) && ChildValid(result, depth) && |sequence| == depth + 1
  {
    ChildTotals(result, depth)
    && forall context {:trigger ChildTotal(result, depth, context)} :: |context| == depth ==>
         ChildTotal(result, depth, context)
         == ChildTotal(child, depth, context) + if context == sequence[..depth] then weight else 0
  }

  /** Adds a sequence of the trie's depth and one more codepoint. */
  method InsertWord(node: Node, depth: nat, sequence: seq<Codepoint>, weight: nat) returns (result: Node)
    requires TrieValid(node, depth) && |sequence| == depth + 1
    ensures TrieValid(result, depth) && Counted(result, node, depth, sequence, weight)
    ensures TotalsRight(node, depth) && Fits(node, depth, sequence, weight) ==>
              Totalled(result, node, depth, sequence, weight)
    ensures Started(Inner(node), Inner(result), depth, sequence, weight)
    decreases depth, 0
  {
    var codepoint := sequence[0];
    var keyed := InsertKey(node, codepoint);
    var child := keyed.children[Slot(codepoint, |keyed.children|)];
    assert child == Lookup(node, codepoint) && ChildValid(child, depth - 1);
    assert sequence[..depth][1..] == sequence[1..][..depth - 1];
    var child' := InsertChild(child, depth - 1, sequence[1..], weight);
    result := SetChild(keyed, codepoint, child');
    assert Replaced(result, node, depth, codepoint, child');
    ChildReplaced(node, result, depth, sequence, weight, child');
    EndReplaced(node, result, depth, sequence, weight, child');
  }

  /** Adds the rest of a sequence to a child, which is made if there is none. */
  method InsertChild(child: Child, depth: nat, sequence: seq<Codepoint>, weight: nat) returns (result: Child)
    requires ChildValid(child, depth) && |sequence| == depth + 1
    ensures ChildValid(result, depth) && ChildCounted(result, child, depth, sequence, weight)
    ensures ChildTotals(child, depth) && ChildFits(child, depth, sequence, weight) ==>
              ChildTotalled(result, child, depth, sequence, weight)
    ensures Started(child, result, depth, sequence, weight)
    decreases depth, 1
  {
    if depth == 0 {
      var leaf;
      if child == Null {
        leaf := NewLeaf(SIZES[0]);
        EmptyCounts(leaf);
      } else {
        leaf := child.leaf;
      }
      var leaf' := Insert(leaf, sequence[0], weight);
      result := Outer(leaf');
      LeafChanged(child, leaf, leaf', sequence, weight);
      LeafTotalled(child, leaf, leaf', sequence, weight);
    } else {
      var node;
      if child == Null {
        node := NewNode(SIZES[0]);
      } else {
        node := child.node;
      }
      SameCounts(child, node, depth);
      var node' := InsertWord(node, depth, sequence, weight);
      result := Inner(node');
    }
  }

  lemma LeafChanged(child: Child, leaf: Leaf, leaf': Leaf, sequence: seq<nat>, weight: nat)
    requires ChildValid(child, 0) && LeafValid(leaf) && LeafValid(leaf') && |sequence| == 1
    requires forall c :: Count(leaf, c) == ChildCount(child, 0, [], c)
    requires Increased(leaf', leaf, sequence[0], weight)
    ensures ChildCounted(Outer(leaf'), child, 0, sequence, weight)
  {
    forall context, c | |context| == 0
      ensures ChildCount(Outer(leaf'), 0, context, c)
           == if Hits(sequence, context, c) then Plus(ChildCount(child, 0, context, c), weight)
              else ChildCount(child, 0, context, c)
    {
      assert context == [] && sequence[..0] == [];
    }
  }

  lemma LeafTotalled(child: Child, leaf: Leaf, leaf': Leaf, sequence: seq<nat>, weight: nat)
    requires ChildValid(child, 0) && LeafValid(leaf) && LeafValid(leaf') && |sequence| == 1
    requires child == Outer(leaf) || (child == Null && leaf.total == 0)
    ensures TotalRight(leaf') && leaf'.total == leaf.total + weight ==>
              ChildTotalled(Outer(leaf'), child, 0, sequence, weight)
  {
    forall context: seq<nat> | |context| == 0
      ensures context == sequence[..0]
    {
    }
  }

  /** A new node counts as no child at all. */
  lemma SameCounts(child: Child, node: Node, depth: nat)
    requires ChildValid(child, depth) && TrieValid(node, depth)
    requires child == Null || child == Inner(node)
    requires child == Null ==> forall c :: Lookup(node, c) == Null
    ensures forall context, c | |context| == depth ::
              TrieCount(node, depth, context, c) == ChildCount(child, depth, context, c)
    ensures ChildTotals(child, depth) <==> TotalsRight(node, depth)
    ensures forall context | |context| == depth :: TrieTotal(node, depth, context) == ChildTotal(child, depth, context)
    ensures forall context | |context| == depth :: TrieEnd(node, depth, context) == ChildEnd(child, depth, context)
  {
  }

  // ---------------------------------------------------------------------
  // Replacing a child
  // ---------------------------------------------------------------------

  /** The result has another child behind the codepoint; nothing else has changed. */
  ghost predicate Replaced(result: Node, node: Node, depth: nat, codepoint: nat, child: Child)
    requires depth > 0
  {
    && TrieValid(node, depth) && NodeValid(result) && ChildValid(child, depth - 1) && child == Lookup(result, codepoint)
    && forall c :: c != codepoint ==> Lookup(result, c) == Lookup(node, c)
  }

  lemma ContextSplit(sequence: seq<nat>, context: seq<nat>, depth: nat)
    requires |context| == depth > 0 && |sequence| == depth + 1
    ensures context == sequence[..depth] <==> context[0] == sequence[0] && context[1..] == sequence[1..][..depth - 1]
  {
    assert context == [context[0]] + context[1..];
    assert sequence[..depth] == [sequence[0]] + sequence[1..][..depth - 1];
  }

  lemma ValidReplaced(result: Node, node: Node, depth: nat, codepoint: nat, child: Child)
    requires depth > 0 && Replaced(result, node, depth, codepoint, child)
    ensures TrieValid(result, depth)
  {
    forall c: nat
      ensures ChildValid(Lookup(result, c), depth - 1)
    {
      assert c != codepoint ==> Lookup(result, c) == Lookup(node, c);
    }
  }

  lemma CountReplaced(result: Node, node: Node, depth: nat, sequence: seq<nat>, weight: nat, child: Child,
                      context: seq<nat>, c: nat)
    requires |context| == depth > 0 && |sequence| == depth + 1 && Replaced(result, node, depth, sequence[0], child)
    requires ChildCounted(child, Lookup(node, sequence[0]), depth - 1, sequence[1..], weight)
    requires TrieValid(result, depth)
    ensures TrieCount(result, depth, context, c)
         == if Hits(sequence, context, c) then Plus(TrieCount(node, depth, context, c), weight)
            else TrieCount(node, depth, context, c)
  {
    ContextSplit(sequence, context, depth);
    if context[0] == sequence[0] {
      assert Hits(sequence, context, c) <==> Hits(sequence[1..], context[1..], c);
    }
  }

  lemma TotalReplaced(result: Node, node: Node, depth: nat, sequence: seq<nat>, weight: nat, child: Child,
                      context: seq<nat>)
    requires |context| == depth > 0 && |sequence| == depth + 1 && Replaced(result, node, depth, sequence[0], child)
    requires ChildTotalled(child, Lookup(node, sequence[0]), depth - 1, sequence[1..], weight)
    requires TrieValid(result, depth)
    ensures TrieTotal(result, depth, context)
         == TrieTotal(node, depth, context) + if context == sequence[..depth] then weight else 0
  {
    ContextSplit(sequence, context, depth);
  }

  lemma TotalsReplaced(result: Node, node: Node, depth: nat, codepoint: nat, child: Child)
    requires depth > 0 && Replaced(result, node, depth, codepoint, child) && TrieValid(result, depth)
    requires TotalsRight(node, depth) && ChildTotals(child, depth - 1)
    ensures TotalsRight(result, depth)
  {
    forall c: nat
      ensures ChildTotals(Lookup(result, c), depth - 1)
    {
      if c != codepoint {
        assert Lookup(result, c) == Lookup(node, c) && ChildTotals(Lookup(node, c), depth - 1);
      }
    }
  }

  lemma ChildReplaced(node: Node, result: Node, depth: nat, sequence: seq<nat>, weight: nat, child: Child)
    requires depth > 0 && |sequence| == depth + 1 && Replaced(result, node, depth, sequence[0], child)
    requires ChildCounted(child, Lookup(node, sequence[0]), depth - 1, sequence[1..], weight)
    ensures TrieValid(result, depth) && Counted(result, node, depth, sequence, weight)
    ensures TotalsRight(node, depth) ==>
              ChildTotalled(child, Lookup(node, sequence[0]), depth - 1, sequence[1..], weight) ==>
                Totalled(result, node, depth, sequence, weight)
  {
    ValidReplaced(result, node, depth, sequence[0], child);
    forall context, c | |context| == depth
      ensures TrieCount(result, depth, context, c)
           == if Hits(sequence, context, c) then Plus(TrieCount(node, depth, context, c), weight)
              else TrieCount(node, depth, context, c)
    {
      CountReplaced(result, node, depth, sequence, weight, child, context, c);
    }
    if TotalsRight(node, depth) && ChildTotalled(child, Lookup(node, sequence[0]), depth - 1, sequence[1..], weight) {
      TotalsReplaced(result, node, depth, sequence[0], child);
      forall context | |context| == depth
        ensures TrieTotal(result, depth, context)
             == TrieTotal(node, depth, context) + if context == sequence[..depth] then weight else 0
      {
        TotalReplaced(result, node, depth, sequence, weight, child, context);
      }
    }
  }

  /** A new leaf that counts only the sequence. */
  lemma EndReplaced(node: Node, result: Node, depth: nat, sequence: seq<nat>, weight: nat, child: Child)
    requires depth > 0 && |sequence| == depth + 1 && Replaced(result, node, depth, sequence[0], child)
    requires TrieValid(result, depth)
    requires Started(Lookup(node, sequence[0]), child, depth - 1, sequence[1..], weight)
    ensures Started(Inner(node), Inner(result), depth, sequence, weight)
  {
    var (context, rest) := (sequence[..depth], sequence[1..][..depth - 1]);
    assert context[1..] == rest;
    assert ChildEnd(Inner(node), depth, context) == ChildEnd(Lookup(node, sequence[0]), depth - 1, rest);
    assert ChildEnd(Inner(result), depth, context) == ChildEnd(child, depth - 1, rest);
  }
}
