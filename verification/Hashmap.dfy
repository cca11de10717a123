// The hash map with two places for every key (src/container/hashmap.c). The two hashes are arbitrary functions.

module Hashmap {
  import opened Words

  datatype Slot<K, V> = Free | Used(key: K, value: V)

  /** One of the two places of a key. */
  function Position<K>(hash: (K, bool) -> nat, capacity: nat, key: K, first: bool): (i: nat)
    requires capacity > 0
    ensures i < capacity
  {
    hash(key, first) % capacity
  }

  /** The slot at index i is at one of its key's places. */
  predicate Placed<K, V>(hash: (K, bool) -> nat, s: seq<Slot<K, V>>, i: nat)
    requires i < |s|
  {
    s[i].Used? ==> i == Position(hash, |s|, s[i].key, true) || i == Position(hash, |s|, s[i].key, false)
  }

  /** Index i holds the key. */
  predicate Holds<K(==), V>(s: seq<Slot<K, V>>, i: nat, key: K)
    requires i < |s|
  {
    s[i].Used? && s[i].key == key
  }

  /** The slots hold the map: every key once, at one of its places. */
  ghost predicate Represents<K(!new), V(!new)>(hash: (K, bool) -> nat, s: seq<Slot<K, V>>, m: map<K, V>) {
    && (forall i :: 0 <= i < |s| ==> Placed(hash, s, i))
    && (forall i :: 0 <= i < |s| && s[i].Used? ==> s[i].key in m && m[s[i].key] == s[i].value)
    && (forall i, j :: 0 <= i < j < |s| && s[i].Used? && s[j].Used? ==> s[i].key != s[j].key)
    && (forall k :: k in m ==>
          |s| > 0 && (Holds(s, Position(hash, |s|, k, true), k) || Holds(s, Position(hash, |s|, k, false), k)))
  }

  // ---------------------------------------------------------------------
  // Changes of the slots
  // ---------------------------------------------------------------------

  lemma AbsentKey<K(!new), V(!new)>(hash: (K, bool) -> nat, s: seq<Slot<K, V>>, m: map<K, V>, key: K)
    requires Represents(hash, s, m)
    ensures key in m <==> exists i :: 0 <= i < |s| && Holds(s, i, key)
  {
  }

  lemma PutFree<K(!new), V(!new)>(hash: (K, bool) -> nat, s: seq<Slot<K, V>>, m: map<K, V>, i: nat, key: K, value: V)
    requires Represents(hash, s, m) && i < |s| && s[i] == Free && key !in m
    requires i == Position(hash, |s|, key, true) || i == Position(hash, |s|, key, false)
    ensures Represents(hash, s[i := Used(key, value)], m[key := value])
  {
    var t, n := s[i := Used(key, value)], m[key := value];
    forall k | k in n
      ensures Holds(t, Position(hash, |t|, k, true), k) || Holds(t, Position(hash, |t|, k, false), k)
    {
      if k != key {
        assert Holds(s, Position(hash, |s|, k, true), k) || Holds(s, Position(hash, |s|, k, false), k);
      }
    }
  }

  lemma PutSame<K(!new), V(!new)>(hash: (K, bool) -> nat, s: seq<Slot<K, V>>, m: map<K, V>, i: nat, key: K, value: V)
    requires Represents(hash, s, m) && i < |s| && Holds(s, i, key)
    ensures key in m && Represents(hash, s[i := Used(key, value)], m[key := value])
  {
    var t, n := s[i := Used(key, value)], m[key := value];
    forall k | k in n
      ensures Holds(t, Position(hash, |t|, k, true), k) || Holds(t, Position(hash, |t|, k, false), k)
    {
      assert Holds(s, Position(hash, |s|, k, true), k) || Holds(s, Position(hash, |s|, k, false), k);
    }
  }

  /** The other place of the key in a slot. */
  function OtherPlace<K(==), V>(hash: (K, bool) -> nat, s: seq<Slot<K, V>>, i: nat): (j: nat)
    requires i < |s| && s[i].Used?
    ensures j < |s|
  {
    var first := Position(hash, |s|, s[i].key, true) == i;
    Position(hash, |s|, s[i].key, !first)
  }

  lemma TakeOut<K(!new), V(!new)>(hash: (K, bool) -> nat, s: seq<Slot<K, V>>, m: map<K, V>, i: nat)
    requires Represents(hash, s, m) && i < |s| && s[i].Used?
    ensures s[i].key in m && Represents(hash, s[i := Free], m - {s[i].key})
  {
    var t, n := s[i := Free], m - {s[i].key};
    forall k | k in n
      ensures Holds(t, Position(hash, |t|, k, true), k) || Holds(t, Position(hash, |t|, k, false), k)
    {
      assert Holds(s, Position(hash, |s|, k, true), k) || Holds(s, Position(hash, |s|, k, false), k);
    }
  }

  /** Moving a slot to the other place of its key, and using the one that it leaves. */
  lemma PutMoved<K(!new), V(!new)>(hash: (K, bool) -> nat, s: seq<Slot<K, V>>, m: map<K, V>, i: nat, key: K, value: V)
    requires Represents(hash, s, m) && i < |s| && s[i].Used? && s[OtherPlace(hash, s, i)] == Free && key !in m
    requires i == Position(hash, |s|, key, true) || i == Position(hash, |s|, key, false)
    ensures Represents(hash, s[OtherPlace(hash, s, i) := s[i]][i := Used(key, value)], m[key := value])
  {
    var j := OtherPlace(hash, s, i);
    assert Placed(hash, s, i);
    var moved := s[i].key;
    TakeOut(hash, s, m, i);
    PutFree(hash, s[i := Free], m - {moved}, j, moved, s[i].value);
    assert (m - {moved})[moved := s[i].value] == m;
    PutFree(hash, s[i := Free][j := s[i]], m, i, key, value);
    assert s[i := Free][j := s[i]][i := Used(key, value)] == s[j := s[i]][i := Used(key, value)];
  }

  lemma AllFree<K(!new), V(!new)>(hash: (K, bool) -> nat, s: seq<Slot<K, V>>)
    requires forall i :: 0 <= i < |s| ==> s[i] == Free
    ensures Represents(hash, s, map[])
  {
  }

  // ---------------------------------------------------------------------
  // Insertion without growth
  // ---------------------------------------------------------------------

  /** Using place i for a key, if it is free, holds the key already, or can be made free. */
  function TryPlace<K(==), V(==)>(hash: (K, bool) -> nat, s: seq<Slot<K, V>>, i: nat, key: K, value: V)
    : (t: Option<seq<Slot<K, V>>>)
    requires i < |s|
    ensures t.Some? ==> |t.value| == |s|
  {
    if s[i] == Free || s[i].key == key then Some(s[i := Used(key, value)])
    else if s[OtherPlace(hash, s, i)] == Free then Some(s[OtherPlace(hash, s, i) := s[i]][i := Used(key, value)])
    else None
  }

  /** The first place, or else the second. */
  function TryBoth<K(==), V(==)>(hash: (K, bool) -> nat, s: seq<Slot<K, V>>, key: K, value: V): Option<seq<Slot<K, V>>>
    requires |s| > 0
  {
    var first := TryPlace(hash, s, Position(hash, |s|, key, true), key, value);
    if first.Some? then first else TryPlace(hash, s, Position(hash, |s|, key, false), key, value)
  }

  /** The key sits in its second place, and the first can be used as well. */
  predicate Clashes<K(==), V(==)>(hash: (K, bool) -> nat, s: seq<Slot<K, V>>, key: K) {
    |s| > 0 &&
    var i := Position(hash, |s|, key, true);
    && !Holds(s, i, key) && Holds(s, Position(hash, |s|, key, false), key)
    && (s[i] == Free || s[OtherPlace(hash, s, i)] == Free)
  }

  lemma TryPlaceGood<K(!new), V(!new)>(hash: (K, bool) -> nat, s: seq<Slot<K, V>>, m: map<K, V>, i: nat,
                                       key: K, value: V)
    requires Represents(hash, s, m) && i < |s| && (key !in m || Holds(s, i, key))
    requires i == Position(hash, |s|, key, true) || i == Position(hash, |s|, key, false)
    ensures TryPlace(hash, s, i, key, value).Some? ==>
              Represents(hash, TryPlace(hash, s, i, key, value).value, m[key := value])
  {
    AbsentKey(hash, s, m, key);
    if s[i] == Free {
      PutFree(hash, s, m, i, key, value);
    } else if s[i].key == key {
      PutSame(hash, s, m, i, key, value);
    } else if s[OtherPlace(hash, s, i)] == Free {
      PutMoved(hash, s, m, i, key, value);
    }
  }

  /** Inserting where there is a place gives the map with that binding, unless the key clashes. */
  lemma InsertGood<K(!new), V(!new)>(hash: (K, bool) -> nat, s: seq<Slot<K, V>>, m: map<K, V>, key: K, value: V)
    requires |s| > 0 && Represents(hash, s, m) && !Clashes(hash, s, key) && TryBoth(hash, s, key, value).Some?
    ensures Represents(hash, TryBoth(hash, s, key, value).value, m[key := value])
  {
    var (i, j) := (Position(hash, |s|, key, true), Position(hash, |s|, key, false));
    if key !in m || Holds(s, i, key) {
      TryPlaceGood(hash, s, m, i, key, value);
    }
    if key !in m || Holds(s, j, key) {
      TryPlaceGood(hash, s, m, j, key, value);
    }
  }

  /** A key is in two slots, so there is no map that the slots represent. */
  ghost predicate Doubled<K, V>(s: seq<Slot<K, V>>, key: K) {
    exists i, j :: 0 <= i < j < |s| && Holds(s, i, key) && Holds(s, j, key)
  }

  lemma DoubledRepresentsNone<K(!new), V(!new)>(hash: (K, bool) -> nat, s: seq<Slot<K, V>>, key: K, m: map<K, V>)
    requires Doubled(s, key)
    ensures !Represents(hash, s, m)
  {
  }

  /** Where a key finds a place, the slots represent the map with that binding exactly if it does not clash. */
  lemma InsertExact<K(!new), V(!new)>(hash: (K, bool) -> nat, s: seq<Slot<K, V>>, m: map<K, V>, key: K, value: V)
    requires |s| > 0 && Represents(hash, s, m) && TryBoth(hash, s, key, value).Some?
    ensures Represents(hash, TryBoth(hash, s, key, value).value, m[key := value]) <==> !Clashes(hash, s, key)
  {
    if Clashes(hash, s, key) {
      InsertClash(hash, s, m, key, value);
      DoubledRepresentsNone(hash, TryBoth(hash, s, key, value).value, key, m[key := value]);
    } else {
      InsertGood(hash, s, m, key, value);
    }
  }

  /** A key that clashes is in two slots afterwards. */
  lemma InsertClash<K(!new), V(!new)>(hash: (K, bool) -> nat, s: seq<Slot<K, V>>, m: map<K, V>, key: K, value: V)
    requires Represents(hash, s, m) && Clashes(hash, s, key)
    ensures TryBoth(hash, s, key, value).Some? && Doubled(TryBoth(hash, s, key, value).value, key)
  {
    var (i, j) := (Position(hash, |s|, key, true), Position(hash, |s|, key, false));
    var t := TryBoth(hash, s, key, value).value;
    assert Holds(t, i, key) && Holds(t, j, key) && i != j;
    if i < j {
      assert Holds(t, i, key) && Holds(t, j, key);
    } else {
      assert Holds(t, j, key) && Holds(t, i, key);
    }
  }

  /** A key in its second place, with the first one free. */
  lemma ClashExample()
    ensures var hash := (k: int, first: bool) => if first then 0 else 1;
            var s := [Free, Used(5, 7), Free];
            Represents(hash, s, map[5 := 7]) && Clashes(hash, s, 5)
  {
    var hash := (k: int, first: bool) => if first then 0 else 1;
    var s := [Free, Used(5, 7), Free];
    assert Position(hash, 3, 5, true) == 0 && Position(hash, 3, 5, false) == 1;
    assert Holds(s, 1, 5);
  }

  lemma NewKeys<K(!new), V(!new)>(m: map<K, V>, key: K, value: V)
    ensures |m[key := value]| == if key in m then |m| else |m| + 1
  {
    if key in m {
      assert m[key := value].Keys == m.Keys;
    } else {
      assert m[key := value].Keys == m.Keys + {key};
    }
  }

  const SIZES: seq<nat> := [
    3, 7, 17, 37, 79, 163, 331, 673, 1361, 2729, 5471, 10949, 21911, 43853, 87719, 175447, 350899, 701819
  ]

  lemma SizesGrow(i: nat, j: nat)
    requires i < j < |SIZES|
    ensures SIZES[i] < SIZES[j]
  {
  }

  /** How many slots come after capacity: the size after the first that is large enough, or nearly twice as many. */
  function NextFrom(capacity: nat, i: nat): (next: nat)
    requires capacity > 1
    ensures next > capacity
    decreases |SIZES| - i
  {
    if i + 1 >= |SIZES| then 2 * capacity - 1
    else if SIZES[i] >= capacity then
      SizesGrow(i, i + 1);
      SIZES[i + 1]
    else NextFrom(capacity, i + 1)
  }

  function NextSize(capacity: nat): (next: nat)
    requires capacity > 1
    ensures next > capacity
  {
    NextFrom(capacity, 0)
  }

  lemma {:induction false} NextListed(k: nat, i: nat)
    requires i <= k < |SIZES| && SIZES[k] > 1
    ensures NextFrom(SIZES[k], i) == if k + 1 < |SIZES| then SIZES[k + 1] else 2 * SIZES[k] - 1
    decreases k - i
  {
    if i < k {
      SizesGrow(i, k);
      NextListed(k, i + 1);
    }
  }

  /** The sizes come one after the other, and behind the last one a map nearly doubles. */
  lemma SizesInOrder(k: nat)
    requires k < |SIZES|
    ensures SIZES[0] == 3 && SIZES[k] > 1
    ensures NextSize(SIZES[k]) == if k + 1 < |SIZES| then SIZES[k + 1] else 2 * SIZES[k] - 1
  {
    NextListed(k, 0);
  }

  method NextCapacity(capacity: nat) returns (next: nat)
    requires capacity > 1
    ensures next == NextSize(capacity) > capacity
  {
    var i := 0;
    while i < |SIZES| && SIZES[i] < capacity
      invariant 0 <= i <= |SIZES| && NextSize(capacity) == NextFrom(capacity, i)
    {
      i := i + 1;
    }
    if i + 1 < |SIZES| {
      next := SIZES[i + 1];
    } else {
      next := 2 * capacity - 1;
    }
  }

  // ---------------------------------------------------------------------
  // Growing
  // ---------------------------------------------------------------------

  /** The first places of the keys are all different. */
  ghost predicate Spread<K(!new)>(hash: (K, bool) -> nat, capacity: nat, keys: iset<K>) {
    capacity > 1 && forall k, l :: k in keys && l in keys && k != l ==>
      Position(hash, capacity, k, true) != Position(hash, capacity, l, true)
  }

  /** Growing leads from the one number of slots to the other, in so many steps at most. */
  predicate Reaches(capacity: nat, goal: nat, steps: nat)
    decreases steps
  {
    capacity == goal || (capacity > 1 && steps > 0 && Reaches(NextSize(capacity), goal, steps - 1))
  }

  ghost predicate Within<K(!new), V>(m: map<K, V>, keys: iset<K>) {
    forall k :: k in m ==> k in keys
  }

  ghost predicate AllFirst<K, V>(hash: (K, bool) -> nat, s: seq<Slot<K, V>>) {
    forall i :: 0 <= i < |s| && s[i].Used? ==> Position(hash, |s|, s[i].key, true) == i
  }

  /**
    The map will never grow beyond a number of slots, the goal, at which its keys have different first places: it gets
    there in so many steps at most, and if it is there, every key is in its first place.
   */
  ghost predicate Heading<K(!new), V(!new)>(hash: (K, bool) -> nat, s: seq<Slot<K, V>>, m: map<K, V>, keys: iset<K>,
                                            goal: nat, steps: nat) {
    && Spread(hash, goal, keys) && Reaches(|s|, goal, steps)
    && Within(m, keys) && (|s| == goal ==> AllFirst(hash, s))
  }

  lemma {:induction false} ReachesMore(capacity: nat, goal: nat, steps: nat)
    requires Reaches(capacity, goal, steps)
    ensures Reaches(capacity, goal, steps + 1)
    decreases steps
  {
    if capacity != goal {
      ReachesMore(NextSize(capacity), goal, steps - 1);
    }
  }

  /** At the goal, every key finds its first place free, or holding it. */
  lemma FirstTried<K(!new), V(!new)>(hash: (K, bool) -> nat, s: seq<Slot<K, V>>, m: map<K, V>, keys: iset<K>,
                                     goal: nat, steps: nat, key: K, value: V)
    requires Represents(hash, s, m) && Heading(hash, s, m, keys, goal, steps) && |s| == goal && key in keys
    ensures TryBoth(hash, s, key, value).Some? && AllFirst(hash, TryBoth(hash, s, key, value).value)
  {
    var i := Position(hash, |s|, key, true);
    if s[i].Used? {
      assert s[i].key in m;
    }
    assert TryPlace(hash, s, i, key, value) == Some(s[i := Used(key, value)]);
  }

  /** An attempt succeeds, or there is another step to take. */
  lemma HeadingTried<K(!new), V(!new)>(hash: (K, bool) -> nat, s: seq<Slot<K, V>>, m: map<K, V>, keys: iset<K>,
                                       goal: nat, steps: nat, key: K, value: V)
    requires Represents(hash, s, m) && Heading(hash, s, m, keys, goal, steps)
    requires key in keys && |s| > 1 && !Clashes(hash, s, key)
    ensures match TryBoth(hash, s, key, value)
            case Some(t) => Heading(hash, t, m[key := value], keys, goal, steps)
            case None => steps > 0 && Reaches(NextSize(|s|), goal, steps - 1)
  {
    if |s| == goal {
      FirstTried(hash, s, m, keys, goal, steps, key, value);
    }
    if TryBoth(hash, s, key, value).Some? {
      InsertGood(hash, s, m, key, value);
    }
  }

  lemma HeadingStarts<K(!new), V(!new)>(hash: (K, bool) -> nat, s: seq<Slot<K, V>>, keys: iset<K>, goal: nat,
                                        steps: nat)
    requires Spread(hash, goal, keys) && Reaches(|s|, goal, steps) && forall i :: 0 <= i < |s| ==> s[i] == Free
    ensures Heading(hash, s, map[], keys, goal, steps)
  {
    AllFree(hash, s);
  }

  lemma HeadingMore<K(!new), V(!new)>(hash: (K, bool) -> nat, s: seq<Slot<K, V>>, m: map<K, V>, keys: iset<K>,
                                      goal: nat, steps: nat)
    requires Heading(hash, s, m, keys, goal, steps)
    ensures Heading(hash, s, m, keys, goal, steps + 1)
  {
    ReachesMore(|s|, goal, steps);
  }

  // ---------------------------------------------------------------------
  // The map
  // ---------------------------------------------------------------------

  /** What inserting returns; it may go on for ever, so it is given a number of reallocations. */
  datatype Inserted<K, V> = New | Replaced(key: K, value: V) | Unfinished

  /** What removing comes to: nothing at all without slots, as the source divides by their number. */
  datatype Removed<V> = DividesByZero | Entry(entry: Option<V>)

  class Map<K(!new, ==), V(!new, ==)> {
    const hash: (K, bool) -> nat
    var len: nat
    var data: array?<Slot<K, V>>
    ghost var Contents: map<K, V>

    ghost function Slots(): seq<Slot<K, V>>
      reads this`data, data
    {
      if data == null then [] else data[..]
    }

    ghost predicate Valid()
      reads this, data
    {
      Represents(hash, Slots(), Contents) && len == |Contents| && (data != null ==> data.Length > 1)
    }

    constructor (hash: (K, bool) -> nat)
      ensures Valid() && data == null && Contents == map[] && this.hash == hash
    {
      this.hash := hash;
      len, data, Contents := 0, null, map[];
    }

    /** Moves the entry in a slot to the other place of its key, if that is free. */
    method Move(pos: nat) returns (moved: bool)
      requires data != null && pos < data.Length && data[pos].Used?
      modifies data
      ensures moved <==> old(data[OtherPlace(hash, data[..], pos)]) == Free
      ensures data[..] == if moved then old(data[..][OtherPlace(hash, data[..], pos) := data[pos]]) else old(data[..])
    {
      var key := data[pos].key;
      var first := Position(hash, data.Length, key, true) == pos;
      var otherPos := Position(hash, data.Length, key, !first);
      if data[otherPos] == Free {
        data[otherPos] := data[pos];
        return true;
      }
      return false;
    }

    /** Tries to put a key at one of its places. */
    method Try(pos: nat, key: K, value: V) returns (done: bool, old': Inserted<K, V>)
      requires data != null && pos < data.Length
      modifies this`len, data
      ensures done <==> TryPlace(hash, old(data[..]), pos, key, value).Some?
      ensures data[..] == if done then TryPlace(hash, old(data[..]), pos, key, value).value else old(data[..])
      ensures done ==>
                old' == if old(Holds(data[..], pos, key)) then Replaced(old(data[pos].key), old(data[pos].value))
                        else New
      ensures len == if done && old' == New then old(len) + 1 else old(len)
    {
      if data[pos] == Free {
        data[pos] := Used(key, value);
        len := len + 1;
        return true, New;
      }
      if data[pos].key == key {
        old' := Replaced(data[pos].key, data[pos].value);
        data[pos] := Used(key, value);
        return true, old';
      }
      var moved := Move(pos);
      if moved {
        data[pos] := Used(key, value);
        len := len + 1;
        return true, New;
      }
      return false, Unfinished;
    }

    /** One attempt at both places, without growing. */
    method TryKey(key: K, value: V) returns (done: bool, old': Inserted<K, V>)
      requires Valid() && data != null
      modifies this`len, this`Contents, data
      ensures done <==> TryBoth(hash, old(data[..]), key, value).Some?
      ensures !done ==> Valid() && data[..] == old(data[..]) && Contents == old(Contents) && key !in Contents
      ensures done ==> data[..] == TryBoth(hash, old(data[..]), key, value).value
      ensures done && !old(Clashes(hash, data[..], key)) ==>
                && Valid() && Contents == old(Contents)[key := value]
                && old' == if key in old(Contents) then Replaced(key, old(Contents)[key]) else New
      ensures old(Clashes(hash, data[..], key)) ==> old' == New && len == old(len) + 1
    {
      ghost var s := data[..];
      AbsentKey(hash, s, Contents, key);
      NewKeys(Contents, key, value);
      if !Clashes(hash, s, key) && TryBoth(hash, s, key, value).Some? {
        InsertGood(hash, s, Contents, key, value);
        Contents := Contents[key := value];
      }
      done, old' := Try(Position(hash, data.Length, key, true), key, value);
      if !done {
        done, old' := Try(Position(hash, data.Length, key, false), key, value);
      }
    }

    /** Slots for a map that has none yet. */
    method Allocate(ghost keys: iset<K>, ghost goal: nat, ghost steps: nat)
      requires Valid()
      modifies this`data
      ensures Valid() && data != null && (data == old(data) || fresh(data))
      ensures forall k :: Clashes(hash, Slots(), k) <==> old(Clashes(hash, Slots(), k))
      ensures old(data) != null ==> data == old(data)
      ensures old(data) == null ==> forall k, v :: TryBoth(hash, Slots(), k, v).Some?
      ensures old(data) == null && Spread(hash, goal, keys) && Reaches(3, goal, steps) ==> Heads(keys, goal, steps)
    {
      if data == null {
        data := new Slot[SIZES[0]](_ => Free);
        AllFree(hash, data[..]);
        assert Contents == map[];
        forall k
          ensures !Clashes(hash, Slots(), k)
        {
          assert !Holds(data[..], Position(hash, |data[..]|, k, false), k);
        }
        if Spread(hash, goal, keys) && Reaches(3, goal, steps) {
          HeadingStarts<K, V>(hash, data[..], keys, goal, steps);
        }
      }
    }

    /** What holds of the map, if it is heading for the goal, which is of no consequence for what is done. */
    ghost predicate Heads(keys: iset<K>, goal: nat, steps: nat)
      reads this, data
    {
      data != null && Heading(hash, Slots(), Contents, keys, goal, steps)
    }

    /**
      Inserts a key, with growing as often as it takes, but for the given number of reallocations. It takes no more than
      to get to a goal: a number of slots at which the first places of all keys are different.
     */
    method Insert(key: K, value: V, reallocations: nat, ghost keys: iset<K>, ghost goal: nat)
      returns (r: Inserted<K, V>)
      requires Valid()
      modifies this, data
      ensures data != null && (data == old(data) || fresh(data))
      ensures r != Unfinished && !old(Clashes(hash, Slots(), key)) ==>
                && Valid() && Contents == old(Contents)[key := value]
                && r == if key in old(Contents) then Replaced(key, old(Contents)[key]) else New
      ensures old(Clashes(hash, Slots(), key)) ==>
                r == New && len == old(len) + 1 && Doubled(Slots(), key)
      ensures r == Unfinished ==> old(data) != null && TryBoth(hash, old(Slots()), key, value).None?
      ensures old(Heads(keys, goal, reallocations) && !Clashes(hash, Slots(), key)) && key in keys ==>
                r != Unfinished && Heads(keys, goal, reallocations)
      ensures old(data) == null && Spread(hash, goal, keys) && Reaches(3, goal, reallocations) && key in keys ==>
                r != Unfinished && Heads(keys, goal, reallocations)
      decreases reallocations, 2
    {
      Allocate(keys, goal, reallocations);
      ghost var s := data[..];
      assert Clashes(hash, s, key) == old(Clashes(hash, Slots(), key));
      if Clashes(hash, s, key) {
        InsertClash(hash, s, Contents, key, value);
      } else if Heads(keys, goal, reallocations) && key in keys {
        HeadingTried(hash, s, Contents, keys, goal, reallocations, key, value);
      }
      var done, old' := TryKey(key, value);
      if done {
        return old';
      }
      assert !Clashes(hash, s, key) && Valid() && Contents == old(Contents) && key !in Contents;
      r := Grow(key, value, reallocations, keys, goal);
    }

    /** Inserts a key that finds no place into more slots. */
    method Grow(key: K, value: V, reallocations: nat, ghost keys: iset<K>, ghost goal: nat)
      returns (r: Inserted<K, V>)
      requires Valid() && data != null && key !in Contents
      modifies this
      ensures data != null && (data == old(data) || fresh(data))
      ensures r != Unfinished ==> Valid() && Contents == old(Contents)[key := value] && r == New
      ensures old(Leads(keys, goal, reallocations)) && key in keys ==>
                r != Unfinished && Heads(keys, goal, reallocations)
      decreases reallocations, 1
    {
      if reallocations == 0 {
        return Unfinished;
      }
      var capacity := NextCapacity(data.Length);
      var done := Realloc(capacity, reallocations - 1, keys, goal);
      if !done {
        return Unfinished;
      }
      NotClashing(hash, Slots(), Contents, key);
      r := Insert(key, value, reallocations - 1, keys, goal);
      if Heads(keys, goal, reallocations - 1) {
        HeadingMore(hash, Slots(), Contents, keys, goal, reallocations - 1);
      }
    }

    /** From so many slots, the goal can be reached. */
    ghost predicate Aimed(keys: iset<K>, goal: nat, capacity: nat, steps: nat, m: map<K, V>) {
      Spread(hash, goal, keys) && Reaches(capacity, goal, steps) && Within(m, keys)
    }

    /** One more step leads on towards the goal. */
    ghost predicate Leads(keys: iset<K>, goal: nat, steps: nat)
      reads this, data
    {
      data != null && data.Length > 1 && steps > 0 && Aimed(keys, goal, NextSize(data.Length), steps - 1, Contents)
    }

    /** New slots, with nothing in them. */
    method StartOver(capacity: nat)
      requires capacity > 1
      modifies this
      ensures Valid() && Contents == map[] && fresh(data) && data != null && data.Length == capacity
      ensures forall i :: 0 <= i < data.Length ==> data[i] == Free
    {
      data := new Slot[capacity](_ => Free);
      len, Contents := 0, map[];
      AllFree(hash, data[..]);
    }

    /** Moves everything to new slots. */
    method Realloc(capacity: nat, reallocations: nat, ghost keys: iset<K>, ghost goal: nat) returns (done: bool)
      requires Valid() && data != null && capacity > 1
      modifies this
      ensures data != null && (data == old(data) || fresh(data))
      ensures done ==> Valid() && Contents == old(Contents) && fresh(data)
      ensures Aimed(keys, goal, capacity, reallocations, old(Contents)) ==> done && Heads(keys, goal, reallocations)
      decreases reallocations, 4
    {
      var before := data;
      ghost var m := Contents;
      StartOver(capacity);
      if Aimed(keys, goal, capacity, reallocations, m) {
        HeadingStarts(hash, data[..], keys, goal, reallocations);
      }
      done := Refill(before, reallocations, m, keys, goal);
    }

    /** Inserts everything that is in the old slots. */
    method Refill(before: array<Slot<K, V>>, reallocations: nat, ghost m: map<K, V>, ghost keys: iset<K>,
                  ghost goal: nat) returns (done: bool)
      requires Valid() && data != null && before != data && Represents(hash, before[..], m) && Contents == map[]
      modifies this, data
      ensures data != null && (data == old(data) || fresh(data))
      ensures done ==> Valid() && Contents == m
      ensures old(Heads(keys, goal, reallocations)) && Within(m, keys) ==>
                done && Heads(keys, goal, reallocations)
      decreases reallocations, 3, 1
    {
      ghost var (s, heading) := (before[..], Heads(keys, goal, reallocations) && Within(m, keys));
      for i := 0 to before.Length
        invariant data != null && (data == old(data) || fresh(data)) && Valid()
        invariant before[..] == s && Contents == FirstKeys(s, i)
        invariant heading ==> Heads(keys, goal, reallocations)
      {
        done := Reinsert(before, i, reallocations, m, keys, goal);
        if !done {
          return;
        }
      }
      AllKeys(hash, s, m);
      return true;
    }

    /** Inserts what is in one of the old slots. */
    method Reinsert(before: array<Slot<K, V>>, i: nat, reallocations: nat, ghost m: map<K, V>, ghost keys: iset<K>,
                    ghost goal: nat) returns (done: bool)
      requires Valid() && data != null && before != data && i < before.Length && Represents(hash, before[..], m)
      requires Contents == FirstKeys(before[..], i)
      modifies this, data
      ensures data != null && (data == old(data) || fresh(data))
      ensures done ==> Valid() && Contents == FirstKeys(before[..], i + 1)
      ensures old(Heads(keys, goal, reallocations)) && Within(m, keys) ==>
                done && Heads(keys, goal, reallocations)
      decreases reallocations, 3, 0
    {
      if before[i].Free? {
        return true;
      }
      NextKey(hash, before[..], m, i);
      NotClashing(hash, Slots(), Contents, before[i].key);
      var r := Insert(before[i].key, before[i].value, reallocations, keys, goal);
      return r != Unfinished;
    }

    /** What the map has for a key. */
    method Lookup(key: K) returns (entry: Option<V>)
      requires Valid()
      ensures entry == if key in Contents then Some(Contents[key]) else None
    {
      if data == null {
        return None;
      }
      AbsentKey(hash, data[..], Contents, key);
      var pos := Position(hash, data.Length, key, true);
      if data[pos].Used? && data[pos].key == key {
        return Some(data[pos].value);
      }
      pos := Position(hash, data.Length, key, false);
      if data[pos].Used? && data[pos].key == key {
        return Some(data[pos].value);
      }
      return None;
    }

    /**
      Takes a key out. Unlike a lookup, this does not check that there are slots: of a map that nothing was inserted
      into yet, it asks for a position modulo the capacity 0.
     */
    method Remove(key: K) returns (r: Removed<V>)
      requires Valid()
      modifies this`len, this`Contents, data
      ensures Valid() && Contents == old(Contents) - {key}
      ensures r == DividesByZero <==> data == null
      ensures data != null ==> r == Entry(if key in old(Contents) then Some(old(Contents)[key]) else None)
    {
      if data == null {
        assert Contents - {key} == Contents;
        return DividesByZero;
      }
      AbsentKey(hash, data[..], Contents, key);
      var pos := Position(hash, data.Length, key, true);
      if data[pos].Used? && data[pos].key == key {
        r := Entry(Some(data[pos].value));
        Clear(pos);
        return;
      }
      pos := Position(hash, data.Length, key, false);
      if data[pos].Used? && data[pos].key == key {
        r := Entry(Some(data[pos].value));
        Clear(pos);
        return;
      }
      assert Contents - {key} == Contents;
      return Entry(None);
    }

    method Clear(pos: nat)
      requires Valid() && data != null && pos < data.Length && data[pos].Used?
      modifies this`len, this`Contents, data
      ensures Valid() && Contents == old(Contents) - {old(data[pos].key)}
    {
      ghost var key := data[pos].key;
      TakeOut(hash, data[..], Contents, pos);
      assert (Contents - {key}).Keys == Contents.Keys - {key};
      data[pos] := Free;
      len := len - 1;
      Contents := Contents - {key};
    }
  }

  /** What the first n slots hold. */
  ghost function FirstKeys<K, V>(s: seq<Slot<K, V>>, n: nat): map<K, V>
    requires n <= |s|
  {
    if n == 0 then map[]
    else if s[n - 1].Used? then FirstKeys(s, n - 1)[s[n - 1].key := s[n - 1].value]
    else FirstKeys(s, n - 1)
  }

  lemma {:induction false} FirstKeysHold<K(!new), V(!new)>(hash: (K, bool) -> nat, s: seq<Slot<K, V>>, m: map<K, V>,
                                                           n: nat)
    requires Represents(hash, s, m) && n <= |s|
    ensures forall k :: k in FirstKeys(s, n) <==> exists j :: 0 <= j < n && Holds(s, j, k)
    ensures forall k :: k in FirstKeys(s, n) ==> k in m && FirstKeys(s, n)[k] == m[k]
  {
    if n > 0 {
      FirstKeysHold(hash, s, m, n - 1);
      if s[n - 1].Used? {
        assert Holds(s, n - 1, s[n - 1].key);
      }
    }
  }

  lemma NextKey<K(!new), V(!new)>(hash: (K, bool) -> nat, s: seq<Slot<K, V>>, m: map<K, V>, i: nat)
    requires Represents(hash, s, m) && i < |s| && s[i].Used?
    ensures s[i].key !in FirstKeys(s, i)
  {
    FirstKeysHold(hash, s, m, i);
  }

  lemma AllKeys<K(!new), V(!new)>(hash: (K, bool) -> nat, s: seq<Slot<K, V>>, m: map<K, V>)
    requires Represents(hash, s, m)
    ensures FirstKeys(s, |s|) == m
  {
    FirstKeysHold(hash, s, m, |s|);
    forall k | k in m
      ensures k in FirstKeys(s, |s|)
    {
      assert Holds(s, Position(hash, |s|, k, true), k) || Holds(s, Position(hash, |s|, k, false), k);
    }
  }

  /** A key that is not there yet does not clash. */
  lemma NotClashing<K(!new), V(!new)>(hash: (K, bool) -> nat, s: seq<Slot<K, V>>, m: map<K, V>, key: K)
    requires Represents(hash, s, m)
    ensures key !in m ==> !Clashes(hash, s, key)
  {
    AbsentKey(hash, s, m, key);
  }

  /** Removing the first thing from a new map. */
  method RemoveFromNew<K(!new, ==), V(!new, ==)>(hash: (K, bool) -> nat, key: K) returns (r: Removed<V>)
    ensures r == DividesByZero
  {
    var m := new Map<K, V>(hash);
    r := m.Remove(key);
  }

  /** With a hash that is the same for all keys, no number of slots holds three of them. */
  lemma AtMostTwo<K(!new), V(!new)>(hash: (K, bool) -> nat, s: seq<Slot<K, V>>, m: map<K, V>, a: K, b: K, c: K)
    requires Represents(hash, s, m) && forall k, l, first :: hash(k, first) == hash(l, first)
    requires a in m && b in m && c in m
    ensures a == b || b == c || a == c
  {
    var (i, j) := (Position(hash, |s|, a, true), Position(hash, |s|, a, false));
    assert Holds(s, i, a) || Holds(s, j, a);
    assert Position(hash, |s|, b, true) == i && Position(hash, |s|, b, false) == j;
    assert Position(hash, |s|, c, true) == i && Position(hash, |s|, c, false) == j;
  }

  /** So inserting the third never finishes, however often the map may grow. */
  method InsertThird<K(!new, ==), V(!new, ==)>(m: Map<K, V>, a: K, b: K, c: K, value: V, reallocations: nat)
    returns (r: Inserted<K, V>)
    requires m.Valid() && forall k, l, first :: m.hash(k, first) == m.hash(l, first)
    requires a in m.Contents && b in m.Contents && c !in m.Contents && a != b
    modifies m, m.data
    ensures r == Unfinished
  {
    NotClashing(m.hash, m.Slots(), m.Contents, c);
    r := m.Insert(c, value, reallocations, iset{}, 0);
    if r != Unfinished {
      AtMostTwo(m.hash, m.Slots(), m.Contents, a, b, c);
    }
  }
}
