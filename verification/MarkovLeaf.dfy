// The leaves of the Markov chain's trie: growing hash tables from codepoints to counts (src/markov.c).

module MarkovLeaf {
  import opened Words

  type Codepoint = c: nat | c <= 0x10ffff

  /** The capacities that a table goes through, up to the first that no two codepoints collide in. */
  const SIZES: seq<nat> := [
    3, 7, 17, 37, 79, 163, 331, 673, 1361, 2729, 5471, 10949, 21911, 43853, 87719, 175447, 350899, 701819, 1403641
  ]

  const LAST: nat := 1403641

  ghost predicate IsSize(capacity: nat) {
    exists k :: 0 <= k < |SIZES| && SIZES[k] == capacity
  }

  /** Where a codepoint belongs in a table. */
  function Slot(c: nat, capacity: nat): (i: nat)
    requires capacity > 0
    ensures i < capacity
  {
    c % capacity
  }

  /** At the last capacity, there are no collisions. */
  lemma SlotLast(a: Codepoint, b: Codepoint)
    requires Slot(a, LAST) == Slot(b, LAST)
    ensures a == b
  {
  }

  lemma SizesGrow(k: nat)
    requires k < |SIZES|
    ensures 0 < SIZES[k] <= LAST && (SIZES[k] == LAST <==> k == |SIZES| - 1)
    ensures forall j :: 0 <= j < k ==> SIZES[j] < SIZES[k]
  {
  }

  /** The next capacity, found by going through the list. */
  method NextSize(capacity: nat) returns (next: nat)
    requires IsSize(capacity) && capacity < LAST
    ensures IsSize(next) && capacity < next
  {
    var index := 0;
    ghost var k :| 0 <= k < |SIZES| && SIZES[k] == capacity;
    SizesGrow(k);
    while SIZES[index] < capacity
      invariant 0 <= index <= k
      decreases k - index
    {
      index := index + 1;
    }
    assert index == k;
    SizesGrow(k + 1);
    next := SIZES[index + 1];
  }

  // ---------------------------------------------------------------------
  // Leaves
  // ---------------------------------------------------------------------

  /** A slot is in use if its count is not zero. */
  datatype Leaf = Leaf(codepoints: seq<nat>, counts: seq<u32>, total: nat)

  ghost predicate LeafValid(leaf: Leaf) {
    && |leaf.codepoints| == |leaf.counts| && IsSize(|leaf.counts|) && 0 < |leaf.counts| <= LAST && leaf.total < W64
    && forall i :: 0 <= i < |leaf.counts| && leaf.counts[i] != 0 ==>
         leaf.codepoints[i] <= 0x10ffff && Slot(leaf.codepoints[i], |leaf.counts|) == i
  }

  /** The count of a codepoint (passgen_markov_leaf_count). */
  function Count(leaf: Leaf, c: nat): u32
    requires |leaf.codepoints| == |leaf.counts| > 0
  {
    var i := Slot(c, |leaf.counts|);
    if leaf.codepoints[i] == c then leaf.counts[i] else 0
  }

  /** Adding up in 32 bits. */
  function Plus(x: nat, y: nat): u32 {
    (x + y) % B
  }

  function Sum(counts: seq<nat>): nat {
    if counts == [] then 0 else Sum(counts[..|counts| - 1]) + counts[|counts| - 1]
  }

  /** The slot of a codepoint is not in use, or its own. */
  predicate HasPlace(leaf: Leaf, c: nat)
    requires |leaf.codepoints| == |leaf.counts| > 0
  {
    var i := Slot(c, |leaf.counts|);
    leaf.counts[i] == 0 || leaf.codepoints[i] == c
  }

  predicate Empty(leaf: Leaf) {
    forall i :: 0 <= i < |leaf.counts| ==> leaf.counts[i] == 0
  }

  lemma EmptyCounts(leaf: Leaf)
    requires LeafValid(leaf) && Empty(leaf)
    ensures forall c :: Count(leaf, c) == 0
  {
  }

  /** The counts of the codepoints that belong in the first n slots. */
  ghost predicate Copied(result: Leaf, leaf: Leaf, n: nat)
    requires LeafValid(result) && LeafValid(leaf)
  {
    forall c :: Count(result, c) == if Slot(c, |leaf.counts|) < n then Count(leaf, c) else 0
  }

  ghost predicate SameAs(result: Leaf, leaf: Leaf)
    requires LeafValid(result) && LeafValid(leaf)
  {
    forall c :: Count(result, c) == Count(leaf, c)
  }

  /** Weight more for the codepoint. */
  ghost predicate Increased(result: Leaf, leaf: Leaf, codepoint: nat, weight: nat)
    requires LeafValid(result) && LeafValid(leaf)
  {
    && Count(result, codepoint) == Plus(Count(leaf, codepoint), weight)
    && forall c :: c != codepoint ==> Count(result, c) == Count(leaf, c)
  }

  /** The total is the sum of the counts. */
  ghost predicate TotalRight(leaf: Leaf) {
    leaf.total == Sum(leaf.counts)
  }

  lemma {:induction false} SumUpdate(counts: seq<nat>, i: nat, n: nat)
    requires i < |counts|
    ensures Sum(counts[i := n]) == Sum(counts) - counts[i] + n
  {
    var last := |counts| - 1;
    if i == last {
      assert counts[i := n][..last] == counts[..last];
    } else {
      assert counts[i := n][..last] == counts[..last][i := n];
      SumUpdate(counts[..last], i, n);
    }
  }

  lemma {:induction false} SumZeros(n: nat)
    ensures Sum(seq(n, _ => 0)) == 0
  {
    if n > 0 {
      assert seq(n, _ => 0)[..n - 1] == seq(n - 1, _ => 0);
      SumZeros(n - 1);
    }
  }

  lemma {:induction false} SumBound(counts: seq<u32>)
    ensures Sum(counts) <= |counts| * (B - 1)
  {
    if counts != [] {
      SumBound(counts[..|counts| - 1]);
    }
  }

  /** An empty leaf. */
  method NewLeaf(capacity: nat) returns (leaf: Leaf)
    requires IsSize(capacity) && 0 < capacity <= LAST
    ensures LeafValid(leaf) && |leaf.counts| == capacity && TotalRight(leaf) && leaf.total == 0
    ensures Empty(leaf)
  {
    leaf := Leaf(seq(capacity, _ => 0), seq(capacity, _ => 0), 0);
    SumZeros(capacity);
  }

  /** Adds weight to the count of a codepoint, in 32 bits; the table grows until there is a slot for it. */
  method Insert(leaf: Leaf, codepoint: Codepoint, weight: nat) returns (result: Leaf)
    requires LeafValid(leaf)
    ensures LeafValid(result) && |result.counts| >= |leaf.counts|
    ensures Increased(result, leaf, codepoint, weight)
    ensures TotalRight(leaf) && Count(leaf, codepoint) as int + weight < B ==>
              TotalRight(result) && result.total == leaf.total + weight
    ensures HasPlace(leaf, codepoint) ==> result.total == Wrap(leaf.total + weight)
    decreases LAST - |leaf.counts|, 2
  {
    if weight == 0 {
      return leaf;
    }
    var before := MakePlace(leaf, codepoint);
    result := Place(before, codepoint, weight);
    SameIncreased(leaf, before, result, codepoint, weight);
  }

  /** Lets the table grow until there is a slot for the codepoint. */
  method MakePlace(leaf: Leaf, codepoint: Codepoint) returns (result: Leaf)
    requires LeafValid(leaf)
    ensures LeafValid(result) && |result.counts| >= |leaf.counts| && HasPlace(result, codepoint)
    ensures SameAs(result, leaf)
    ensures TotalRight(leaf) ==> TotalRight(result) && result.total == leaf.total
    ensures HasPlace(leaf, codepoint) ==> result == leaf
    decreases LAST - |leaf.counts|, 1
  {
    result := leaf;
    while result.counts[Slot(codepoint, |result.counts|)] != 0
       && result.codepoints[Slot(codepoint, |result.counts|)] != codepoint
      invariant LeafValid(result) && |result.counts| >= |leaf.counts|
      invariant SameAs(result, leaf)
      invariant TotalRight(leaf) ==> TotalRight(result) && result.total == leaf.total
      invariant HasPlace(leaf, codepoint) ==> result == leaf
      decreases LAST - |result.counts|
    {
      if |result.counts| == LAST {
        SlotLast(codepoint, result.codepoints[Slot(codepoint, LAST)]);
      }
      ghost var before := result;
      result := Realloc(result);
      SameAgain(leaf, before, result);
    }
  }

  lemma SameAgain(leaf: Leaf, before: Leaf, result: Leaf)
    requires LeafValid(leaf) && LeafValid(before) && LeafValid(result) && SameAs(before, leaf) && SameAs(result, before)
    ensures SameAs(result, leaf)
  {
  }

  lemma SameIncreased(leaf: Leaf, before: Leaf, result: Leaf, codepoint: nat, weight: nat)
    requires LeafValid(leaf) && LeafValid(before) && LeafValid(result)
    requires SameAs(before, leaf) && Increased(result, before, codepoint, weight)
    ensures Increased(result, leaf, codepoint, weight)
    ensures Count(before, codepoint) == Count(leaf, codepoint)
  {
  }

  /** Writes to the slot of a codepoint, which is its own or not in use. */
  method Place(leaf: Leaf, codepoint: Codepoint, weight: nat) returns (result: Leaf)
    requires LeafValid(leaf) && HasPlace(leaf, codepoint)
    ensures LeafValid(result) && |result.counts| == |leaf.counts|
    ensures Increased(result, leaf, codepoint, weight)
    ensures TotalRight(leaf) && Count(leaf, codepoint) as int + weight < B ==>
              TotalRight(result) && result.total == leaf.total + weight
    ensures result.total == Wrap(leaf.total + weight)
  {
    var i := Slot(codepoint, |leaf.counts|);
    var count := Plus(leaf.counts[i], weight);
    result := Leaf(leaf.codepoints[i := codepoint], leaf.counts[i := count], Wrap(leaf.total + weight));
    PlacedCounts(leaf, result, codepoint, weight);
    if leaf.counts[i] as int + weight < B {
      PlacedTotal(leaf.counts, i, weight, count);
    }
  }

  lemma PlacedCounts(leaf: Leaf, result: Leaf, codepoint: Codepoint, weight: nat)
    requires LeafValid(leaf) && HasPlace(leaf, codepoint) && result.total < W64
    requires var i := Slot(codepoint, |leaf.counts|);
             && result.codepoints == leaf.codepoints[i := codepoint]
             && result.counts == leaf.counts[i := Plus(leaf.counts[i], weight)]
    ensures LeafValid(result) && Increased(result, leaf, codepoint, weight)
    ensures Count(leaf, codepoint) == leaf.counts[Slot(codepoint, |leaf.counts|)]
  {
  }

  lemma PlacedTotal(counts: seq<u32>, i: nat, weight: nat, count: u32)
    requires i < |counts| <= LAST && counts[i] as int + weight < B && count == Plus(counts[i], weight)
    ensures Wrap(Sum(counts) + weight) == Sum(counts) + weight == Sum(counts[i := count])
  {
    SumUpdate(counts, i, count);
    SumBound(counts[i := count]);
    MulLe(|counts|, B - 1, LAST, B - 1);
  }

  /** A larger table with the same counts. */
  method Realloc(leaf: Leaf) returns (result: Leaf)
    requires LeafValid(leaf) && |leaf.counts| < LAST
    ensures LeafValid(result) && |result.counts| > |leaf.counts|
    ensures SameAs(result, leaf)
    ensures TotalRight(result) && result.total == Sum(leaf.counts)
    decreases LAST - |leaf.counts|, 0
  {
    var capacity := |leaf.counts|;
    var next := NextSize(capacity);
    result := NewLeaf(next);
    EmptyCounts(result);
    for i := 0 to capacity
      invariant LeafValid(result) && |result.counts| > capacity
      invariant TotalRight(result) && result.total == Sum(leaf.counts[..i])
      invariant Copied(result, leaf, i)
    {
      SumNext(leaf.counts, i);
      result := CopySlot(leaf, result, i);
    }
    AllCopied(result, leaf);
  }

  lemma SumNext(counts: seq<nat>, i: nat)
    requires i < |counts|
    ensures Sum(counts[..i + 1]) == Sum(counts[..i]) + counts[i]
  {
    assert counts[..i + 1][..i] == counts[..i];
  }

  /** Inserts what is in a slot of the smaller table. */
  method CopySlot(leaf: Leaf, target: Leaf, i: nat) returns (result: Leaf)
    requires LeafValid(leaf) && LeafValid(target) && i < |leaf.counts| < |target.counts| && Copied(target, leaf, i)
    requires TotalRight(target)
    ensures LeafValid(result) && |result.counts| > |leaf.counts| && Copied(result, leaf, i + 1)
    ensures TotalRight(result) && result.total == target.total + leaf.counts[i] as int
    decreases LAST - |target.counts|, 3
  {
    if leaf.counts[i] != 0 {
      CopiedNone(leaf, target, i);
      result := Insert(target, leaf.codepoints[i], leaf.counts[i]);
      Reinserted(leaf, target, result, i);
    } else {
      result := target;
      NothingThere(leaf, result, i);
    }
  }

  lemma CopiedNone(leaf: Leaf, target: Leaf, i: nat)
    requires LeafValid(leaf) && LeafValid(target) && i < |leaf.counts| && leaf.counts[i] != 0
    requires Copied(target, leaf, i)
    ensures Count(target, leaf.codepoints[i]) == 0
  {
  }

  /** The counts of the first slots, and then also of the next. */
  lemma Reinserted(leaf: Leaf, before: Leaf, result: Leaf, i: nat)
    requires LeafValid(leaf) && LeafValid(before) && LeafValid(result) && i < |leaf.counts| && leaf.counts[i] != 0
    requires Copied(before, leaf, i) && Increased(result, before, leaf.codepoints[i], leaf.counts[i])
    ensures Copied(result, leaf, i + 1)
  {
  }

  lemma NothingThere(leaf: Leaf, result: Leaf, i: nat)
    requires LeafValid(leaf) && LeafValid(result) && i < |leaf.counts| && leaf.counts[i] == 0
    requires Copied(result, leaf, i)
    ensures Copied(result, leaf, i + 1)
  {
  }

  lemma AllCopied(result: Leaf, leaf: Leaf)
    requires LeafValid(result) && LeafValid(leaf) && Copied(result, leaf, |leaf.counts|)
    ensures SameAs(result, leaf)
    ensures leaf.counts[..|leaf.counts|] == leaf.counts
  {
  }
}
