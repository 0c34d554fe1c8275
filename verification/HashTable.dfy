/** The chained hash table of `src/hashtable.c`. */
module HashTable {
  import opened Sequences
  import opened ListRing
  import opened HashBuckets
  import L = List

  // ----- the array of lists

  /** A list that holds the bucket `b`, with the delete function `dfn` when that matters. */
  ghost predicate ChainAt<T>(l: L.List<T>, b: seq<T>, repr: set<object>, dfn: bool, matters: bool)
    reads repr
  {
    && l in repr && (l.items != null ==> l.items in repr)
    && forall k: int {:trigger Look(k)} | Look(k) :: l.Valid() && l.Contents() == b && (matters ==> l.dfn == dfn)
  }

  /** As `Unfold`, for `ChainAt`, `Chains` and `At`. */
  predicate Look(k: int) { true }
  predicate Links(k: int) { true }
  predicate Stand(k: int) { true }

  ghost predicate Apart<T>(l: L.List<T>, m: L.List<T>)
    reads l`items, m`items
  {
    l != m && (l.items != null ==> l.items != m.items)
  }

  /** The lists hold the buckets `b` and share nothing; all they are made of is in `repr`. Those from
      `from` on have the delete function `dfn`. */
  ghost predicate Chains<T>(lists: seq<L.List<T>>, b: seq<seq<T>>, repr: set<object>, dfn: bool, from: nat)
    reads repr
  {
    |lists| == |b| && forall k: int {:trigger Links(k)} | Links(k) ::
      && (forall i | 0 <= i < |lists| :: ChainAt(lists[i], b[i], repr, dfn, i >= from))
      && (forall i, j | 0 <= i < j < |lists| :: lists[i] in repr && lists[j] in repr && Apart(lists[i], lists[j]))
  }

  lemma ChainsHave<T>(lists: seq<L.List<T>>, b: seq<seq<T>>, repr: set<object>, dfn: bool, from: nat, i: nat)
    requires Chains(lists, b, repr, dfn, from) && i < |lists|
    ensures ChainAt(lists[i], b[i], repr, dfn, i >= from)
    ensures lists[i].Valid() && lists[i].Contents() == b[i] && (i >= from ==> lists[i].dfn == dfn)
  {
    assert Links(0) && Look(0);
  }

  lemma ForgetDfn<T>(lists: seq<L.List<T>>, b: seq<seq<T>>, repr: set<object>, dfn: bool)
    requires Chains(lists, b, repr, dfn, 0)
    ensures Chains(lists, b, repr, dfn, |lists|)
  {
    assert Links(0);
    assert forall i | 0 <= i < |lists| && ChainAt(lists[i], b[i], repr, dfn, true) ::
      ChainAt(lists[i], b[i], repr, dfn, false);
  }

  method PushTail<T>(lists: seq<L.List<T>>, k: nat, x: T,
                     ghost b: seq<seq<T>>, ghost repr: set<object>, ghost dfn: bool, ghost from: nat)
    returns (ghost repr': set<object>)
    requires Chains(lists, b, repr, dfn, from) && k < |lists|
    modifies lists[k], lists[k].items
    ensures Chains(lists, b[k := b[k] + [x]], repr', dfn, from) && repr <= repr' && fresh(repr' - repr)
  {
    var l := lists[k];
    ChainsHave(lists, b, repr, dfn, from, k);
    var _ := l.Push(x, END);
    repr' := repr + if l.items == null then {} else {l.items};
    ghost var c := b[k := b[k] + [x]];
    assert Inserted(b[k], |b[k]|, x) == b[k] + [x];
    assert Links(0);
    forall i | 0 <= i < |lists| ensures ChainAt(lists[i], c[i], repr', dfn, i >= from) {
      if i != k {
        assert old(ChainAt(lists[i], b[i], repr, dfn, i >= from));
        assert old(i < k ==> Apart(lists[i], lists[k])) && old(k < i ==> Apart(lists[k], lists[i]));
      }
    }
  }

  method PopAt<T>(lists: seq<L.List<T>>, k: nat, itr: int, ghost j: nat,
                  ghost b: seq<seq<T>>, ghost repr: set<object>, ghost dfn: bool, ghost from: nat)
    requires Chains(lists, b, repr, dfn, from) && k < |lists| && j < |b[k]|
    requires |lists[k].rings.used| == |b[k]| && itr == lists[k].rings.used[j]
    modifies lists[k], lists[k].items
    ensures Chains(lists, b[k := Without(b[k], j)], repr, dfn, from)
  {
    ChainsHave(lists, b, repr, dfn, from, k);
    var l := lists[k];
    ghost var c := b[k := Without(b[k], j)];
    SlotFacts(l.Slots(), l.rings, j);
    var _ := l.Pop(itr);
    assert Links(0);
    forall i | 0 <= i < |lists| ensures ChainAt(lists[i], c[i], repr, dfn, i >= from) {
      if i != k {
        assert old(ChainAt(lists[i], b[i], repr, dfn, i >= from));
        assert old(i < k ==> Apart(lists[i], lists[k])) && old(k < i ==> Apart(lists[k], lists[i]));
      }
    }
  }

  method HeadAt<T>(lists: seq<L.List<T>>, k: nat,
                   ghost b: seq<seq<T>>, ghost repr: set<object>, ghost dfn: bool, ghost from: nat)
    returns (x: T)
    requires Chains(lists, b, repr, dfn, from) && k < |lists| && b[k] != []
    ensures x == b[k][0]
  {
    var l := lists[k];
    ChainsHave(lists, b, repr, dfn, from, k);
    SlotFacts(l.Slots(), l.rings, 0);
    x := l.Get(l.ItrBegin()).value;
  }

  method PopHead<T>(lists: seq<L.List<T>>, k: nat,
                    ghost b: seq<seq<T>>, ghost repr: set<object>, ghost dfn: bool, ghost from: nat)
    requires Chains(lists, b, repr, dfn, from) && k < |lists| && b[k] != []
    requires lists[k] in repr && (lists[k].items != null ==> lists[k].items in repr)
    modifies lists[k], lists[k].items
    ensures Chains(lists, b[k := Without(b[k], 0)], repr, dfn, from)
  {
    var l := lists[k];
    ChainsHave(lists, b, repr, dfn, from, k);
    PopAt(lists, k, l.ItrBegin(), 0, b, repr, dfn, from);
  }

  method DeinitAt<T>(lists: seq<L.List<T>>, k: nat,
                     ghost b: seq<seq<T>>, ghost repr: set<object>, ghost dfn: bool, ghost from: nat)
    returns (deleted: seq<T>)
    requires Chains(lists, b, repr, dfn, from) && k < |lists| && k <= from
    modifies lists[k]
    ensures Chains(lists, b[k := []], repr, dfn, if k == from then k + 1 else from)
    ensures k >= from ==> deleted == if dfn then b[k] else []
    ensures b[k] == [] ==> deleted == []
  {
    var l := lists[k];
    ghost var c := b[k := []];
    ChainsHave(lists, b, repr, dfn, from, k);
    deleted := l.Deinit();
    assert Links(0);
    forall i | 0 <= i < |lists| ensures ChainAt(lists[i], c[i], repr, dfn, i >= if k == from then k + 1 else from) {
      if i != k {
        assert old(ChainAt(lists[i], b[i], repr, dfn, i >= from));
        assert old(i < k ==> Apart(lists[i], lists[k])) && old(k < i ==> Apart(lists[k], lists[i]));
      }
    }
  }

  /** The loop of `ht_deinit`. */
  method DeinitAll<T>(lists: seq<L.List<T>>, ghost b: seq<seq<T>>, ghost repr: set<object>, ghost dfn: bool)
    returns (deleted: seq<T>)
    requires Chains(lists, b, repr, dfn, 0)
    modifies repr
    ensures deleted == if dfn then Flat(b) else []
  {
    deleted := [];
    ghost var c := b;
    for i := 0 to |lists|
      invariant Chains(lists, c, repr, dfn, i) && c == Cleared(b, i)
      invariant deleted == if dfn then FlatTo(b, i) else []
    {
      ChainsHave(lists, c, repr, dfn, i, i);
      var more := DeinitAt(lists, i, c, repr, dfn, i);
      deleted := deleted + more;
      c := c[i := []];
    }
  }

  /** The buckets with the first `n` emptied. */
  ghost function Cleared<T>(b: seq<seq<T>>, n: nat): seq<seq<T>>
    requires n <= |b|
  {
    seq(|b|, k requires 0 <= k < |b| => if k < n then [] else b[k])
  }

  /** One more list, with nothing in it. */
  method AddList<T>(lists0: seq<L.List<T>>, capacity: nat, dfn: bool, ghost b: seq<seq<T>>, ghost repr0: set<object>)
    returns (lists: seq<L.List<T>>, ghost repr: set<object>)
    requires Chains(lists0, b, repr0, dfn, 0)
    ensures |lists| == |lists0| + 1 && lists[..|lists0|] == lists0
    ensures Chains(lists, b + [[]], repr, dfn, 0) && repr0 <= repr && fresh(repr - repr0)
  {
    var l := new L.List<T>(capacity, dfn);
    lists := lists0 + [l];
    repr := repr0 + {l} + if l.items == null then {} else {l.items};
    ghost var c := b + [[]];
    assert Links(0);
    forall i | 0 <= i < |lists| ensures ChainAt(lists[i], c[i], repr, dfn, true) {
      assert i < |lists0| ==> old(ChainAt(lists0[i], b[i], repr0, dfn, true));
    }
  }

  /** An array of empty lists. */
  method NewLists<T>(n: nat, dfn: bool) returns (lists: seq<L.List<T>>, ghost repr: set<object>)
    ensures |lists| == n && fresh(repr) && Chains(lists, Empties(n), repr, dfn, 0)
  {
    lists, repr := [], {};
    for i := 0 to n
      invariant |lists| == i && fresh(repr) && Chains(lists, Empties(i), repr, dfn, 0)
    {
      lists, repr := AddList(lists, 0, dfn, Empties(i), repr);
      assert Empties<T>(i) + [[]] == Empties(i + 1);
    }
  }

  // ----- the table

  /** An iterator: a list and a slot of it. */
  datatype Itr = Itr(idx: int, itr: int)

  const END_ITR: Itr := Itr(-1, -1)

  class HashTable<T(!new,==)> {
    const hfn: T -> nat
    const mfn: (T, T) -> bool
    var dfn: bool
    var initial: nat
    var count: nat
    var size: nat
    var lists: seq<L.List<T>>

    ghost var buckets: seq<seq<T>>
    ghost var repr: set<object>

    /** A table whose array of lists may still be missing. */
    ghost predicate Consistent()
      reads this, repr
    {
      && this !in repr && size == |lists| && size <= LAST && Chains(lists, buckets, repr, dfn, 0)
      && Lawful(hfn, mfn) && Hashed(buckets, hfn, mfn) && count == |Flat(buckets)|
    }

    ghost predicate Valid()
      reads this, repr
    {
      Consistent() && size > 0
    }

    /** The items that the table represents. */
    ghost function Items(): set<T>
      reads `buckets
    {
      Elements(buckets)
    }

    /** The iterator stands at the j-th item of the list `idx`. */
    ghost predicate StandsAt(it: Itr, j: int)
      requires Valid()
      reads this, repr
    {
      0 <= it.idx < size && 0 <= j < |buckets[it.idx]| &&
      (ChainsHave(lists, buckets, repr, dfn, 0, it.idx);
       it.itr == lists[it.idx].rings.used[j])
    }

    /** `ht_find`. */
    method Find(data: T) returns (it: Itr, ghost j: int)
      requires Valid()
      ensures it == END_ITR <==> !Matched(Items(), mfn, data)
      ensures it != END_ITR ==> StandsAt(it, j) && mfn(data, buckets[it.idx][j])
    {
      var index := hfn(data) % size;
      var l := lists[index];
      ghost var b := buckets[index];
      MatchedInBucket(buckets, hfn, mfn, data);
      ChainsHave(lists, buckets, repr, dfn, 0, index);
      var itr := l.ItrBegin();
      j := 0;
      while itr != END
        invariant 0 <= j <= |b| && itr == if j < |b| then l.rings.used[j] else END
        invariant forall i | 0 <= i < j :: !mfn(data, b[i])
        decreases |b| - j
      {
        SlotFacts(l.Slots(), l.rings, j);
        if mfn(data, l.Get(itr).value) {
          return Itr(index, itr), j;
        }
        itr := l.ItrNext(itr);
        j := j + 1;
      }
      return END_ITR, -1;
    }

    /** The last steps of `ht_insert`: the item goes to the end of the list of its hash. */
    method AddAt(x: T)
      requires Valid() && !Matched(Items(), mfn, x)
      modifies `count, `buckets, `repr, repr
      ensures Valid() && repr >= old(repr) && fresh(repr - old(repr))
      ensures Items() == old(Items()) + {x} && count == old(count) + 1 && size == old(size) && lists == old(lists)
    {
      var index := hfn(x) % size;
      AddedHashed(buckets, hfn, mfn, x);
      ChainsHave(lists, buckets, repr, dfn, 0, index);
      ghost var b := buckets[index := buckets[index] + [x]];
      ghost var r := PushTail(lists, index, x, buckets, repr, dfn, 0);
      count := count + 1;
      Record(r, b);
    }

    /** `ht_insert`. It also tells what it passed to the delete function, and how often the table
        grew. */
    method Insert(x: T) returns (ok: bool, deleted: seq<T>, ghost grows: nat)
      requires Valid()
      modifies this, repr
      ensures Valid() && fresh(repr - old(repr)) && dfn == old(dfn) && initial == old(initial)
      ensures ok == !Matched(old(Items()), mfn, x) && deleted == []
      ensures Items() == if ok then old(Items()) + {x} else old(Items())
      ensures count == old(count) + if ok then 1 else 0
      ensures !ok ==> lists == old(lists) && buckets == old(buckets)
      ensures size == if ok && NeedsGrow(old(count), old(size)) then NewSize(old(count)) else old(size)
      ensures grows > 0 <==> ok && NeedsGrow(old(count), old(size))
      ensures ok && old(count) / old(size) <= 3 ==> size == old(size) && lists == old(lists) && grows == 0
      ensures ok && old(count) / old(size) > 3 ==> size == NewSize(old(count)) && grows > 0
      ensures grows <= 1 <==> !ok || old(count) <= 4 * LAST
      ensures ok ==> (count <= 4 * size <==> count <= 4 * LAST) && (count <= 4 * size || size == LAST)
      decreases count, 5
    {
      ok, deleted, grows := false, [], 0;
      OverLimit(count, size);
      var it, _ := Find(x);
      if it != END_ITR { return; }
      if NeedsGrow(count, size) {
        GrowthBounds(count, size);
        deleted, grows := Grow();
        grows := grows + 1;
      }
      AddAt(x);
      ok := true;
    }

    /** `ht_grow`: all items move to a new array of lists. It tells what was passed to the delete
        function, and how often inserting the items made the table grow again. */
    method Grow() returns (deleted: seq<T>, ghost nested: nat)
      requires Consistent()
      modifies this, repr
      ensures Valid() && fresh(repr) && dfn == old(dfn) && initial == old(initial)
      ensures Items() == old(Items()) && count == old(count)
      ensures size == NewSize(if old(count) > 0 then old(count) else initial)
      ensures deleted == [] && (nested == 0 <==> old(count) <= 4 * LAST)
      decreases count, 4
    {
      var newSize := GetNewSize(if count > 0 then count else initial);
      FirstFitBounds(if count > 0 then count else initial, 0);
      var oldLists := lists;
      ghost var b, oldRepr, whole, n := buckets, repr, Items(), count;
      ForgetDfn(lists, b, repr, dfn);
      SetUp(newSize);
      assert Chains(oldLists, b, oldRepr, dfn, |oldLists|);
      deleted, nested := DrainAll(oldLists, b, oldRepr, whole);
    }

    /** The first loop of `ht_grow`: sets up the table with empty lists. */
    method SetUp(newSize: nat)
      requires Lawful(hfn, mfn) && 0 < newSize <= LAST
      modifies `count, `size, `lists, `repr, `buckets
      ensures Valid() && fresh(repr) && size == newSize && count == 0 && Items() == {}
    {
      count, size := 0, newSize;
      var newLists; ghost var newRepr;
      newLists, newRepr := NewLists(newSize, dfn);
      EmptiesHashed(newSize, hfn, mfn);
      lists := newLists;
      Record(newRepr, Empties(newSize));
    }

    /** Records what the lists hold now. */
    ghost method Record(r: set<object>, b: seq<seq<T>>)
      modifies `repr, `buckets
      requires this !in r && Chains(lists, b, r, dfn, 0)
      ensures repr == r && buckets == b && Chains(lists, buckets, repr, dfn, 0)
    {
      repr, buckets := r, b;
    }

    /** The second loop of `ht_grow`. */
    method DrainAll(oldLists: seq<L.List<T>>, ghost b0: seq<seq<T>>, ghost oldRepr: set<object>, ghost whole: set<T>)
      returns (deleted: seq<T>, ghost nested: nat)
      requires Valid() && Moving(oldLists, b0, oldRepr, whole)
      modifies this, repr, oldRepr
      ensures Valid() && fresh(repr - old(repr)) && dfn == old(dfn) && initial == old(initial) && size == old(size)
      ensures Items() == whole && count == old(count) + |Flat(b0)| && deleted == []
      ensures old(count) <= 4 * size ==> (nested == 0 <==> count <= 4 * size)
      decreases count + |Flat(b0)|, 3
    {
      deleted, nested := [], 0;
      ghost var b, n := b0, count + |Flat(b0)|;
      for i := 0 to |oldLists|
        invariant Valid() && fresh(repr - old(repr)) && dfn == old(dfn) && initial == old(initial) && size == old(size)
        invariant Moving(oldLists, b, oldRepr, whole) && forall j | 0 <= j < i :: b[j] == []
        invariant count + |Flat(b)| == n && deleted == []
        invariant old(count) <= 4 * size ==> (nested == 0 <==> count <= 4 * size)
      {
        var d;
        ghost var more;
        d, b, more := Drain(oldLists, i, b, oldRepr, whole);
        deleted, nested := deleted + d, nested + more;
      }
      FlatSkip(b, 0, |b|);
    }

    /** The table holds what has been moved from the old lists, which share nothing with it. */
    ghost predicate Moving(oldLists: seq<L.List<T>>, b: seq<seq<T>>, oldRepr: set<object>, whole: set<T>)
      reads this, oldRepr
    {
      && Chains(oldLists, b, oldRepr, dfn, |oldLists|) && oldRepr !! repr && this !in oldRepr
      && Divided(Items(), b, whole, hfn, mfn)
      && (count + |Flat(b)| <= 3 * size || size == LAST)
    }

    /** What `ht_grow` does with one old list: moves its items and deletes it. */
    method Drain(oldLists: seq<L.List<T>>, i: nat, ghost b0: seq<seq<T>>, ghost oldRepr: set<object>,
                 ghost whole: set<T>) returns (deleted: seq<T>, ghost b: seq<seq<T>>, ghost nested: nat)
      requires Valid() && Moving(oldLists, b0, oldRepr, whole) && i < |b0|
      modifies this, repr, oldRepr
      ensures Valid() && fresh(repr - old(repr)) && dfn == old(dfn) && initial == old(initial) && size == old(size)
      ensures b == b0[i := []] && Moving(oldLists, b, oldRepr, whole)
      ensures count + |Flat(b)| == old(count) + |Flat(b0)| && deleted == []
      ensures old(count) <= count && (old(count) <= 4 * size ==> (nested == 0 <==> count <= 4 * size))
      decreases count + |Flat(b0)|, 2
    {
      deleted, b, nested := MoveAll(oldLists, i, b0, oldRepr, whole);
      ChainsHave(oldLists, b, oldRepr, dfn, |oldLists|, i);
      var d := DeinitAt(oldLists, i, b, oldRepr, dfn, |oldLists|);
      assert b[i := []] == b;
      deleted := deleted + d;
    }

    /** The inner loop of `ht_grow`. */
    method MoveAll(oldLists: seq<L.List<T>>, i: nat, ghost b0: seq<seq<T>>, ghost oldRepr: set<object>,
                   ghost whole: set<T>) returns (deleted: seq<T>, ghost b: seq<seq<T>>, ghost nested: nat)
      requires Valid() && Moving(oldLists, b0, oldRepr, whole) && i < |b0|
      modifies this, repr, oldRepr
      ensures Valid() && fresh(repr - old(repr)) && dfn == old(dfn) && initial == old(initial) && size == old(size)
      ensures b == b0[i := []] && Moving(oldLists, b, oldRepr, whole)
      ensures count + |Flat(b)| == old(count) + |Flat(b0)| && deleted == []
      ensures old(count) <= count && (old(count) <= 4 * size ==> (nested == 0 <==> count <= 4 * size))
      decreases count + |Flat(b0)|, 1
    {
      deleted, b, nested := [], b0, 0;
      var l := oldLists[i];
      ghost var n := count + |Flat(b0)|;
      ChainsHave(oldLists, b, oldRepr, dfn, |oldLists|, i);
      while l.count > 0
        invariant Valid() && fresh(repr - old(repr)) && dfn == old(dfn) && initial == old(initial) && size == old(size)
        invariant Moving(oldLists, b, oldRepr, whole) && l.count == |b[i]|
        invariant |b| == |b0| && b[i := []] == b0[i := []] && count + |Flat(b)| == n && deleted == []
        invariant old(count) <= count && (old(count) <= 4 * size ==> (nested == 0 <==> count <= 4 * size))
        decreases n - count
      {
        var d;
        ghost var more;
        d, more := MoveHead(oldLists, i, b, oldRepr, whole);
        deleted, nested := deleted + d, nested + more;
        b := b[i := Without(b[i], 0)];
        ChainsHave(oldLists, b, oldRepr, dfn, |oldLists|, i);
      }
    }

    /** One turn of that loop. */
    method MoveHead(oldLists: seq<L.List<T>>, i: nat,
                    ghost b: seq<seq<T>>, ghost oldRepr: set<object>, ghost whole: set<T>)
      returns (deleted: seq<T>, ghost nested: nat)
      requires Valid() && Moving(oldLists, b, oldRepr, whole) && i < |b| && b[i] != []
      modifies this, repr, oldRepr
      ensures Valid() && fresh(repr - old(repr)) && dfn == old(dfn) && initial == old(initial) && size == old(size)
      ensures Moving(oldLists, b[i := Without(b[i], 0)], oldRepr, whole) && count == old(count) + 1
      ensures |Flat(b[i := Without(b[i], 0)])| == |Flat(b)| - 1 && deleted == []
      ensures nested == 0 <==> count <= 4 * size
      decreases count + |Flat(b)|, 0
    {
      MovedOne(Items(), b, whole, hfn, mfn, i);
      FirstFitBounds(count, 0);
      var x := HeadAt(oldLists, i, b, oldRepr, dfn, |oldLists|);
      var ok;
      ok, deleted, nested := Insert(x);
      assert ok;
      ChainsHave(oldLists, b, oldRepr, dfn, |oldLists|, i);
      PopHead(oldLists, i, b, oldRepr, dfn, |oldLists|);
    }

    // ----- life cycle

    /** `ht_new`. */
    constructor (initial: nat, hfn: T -> nat, mfn: (T, T) -> bool, dfn: bool)
      requires Lawful(hfn, mfn)
      ensures Valid() && Items() == {} && count == 0 && size == NewSize(initial) && fresh(repr)
      ensures this.hfn == hfn && this.mfn == mfn && this.dfn == dfn && this.initial == initial
    {
      this.hfn, this.mfn := hfn, mfn;
      new;
      Init(initial, dfn);
    }

    /** `ht_init`. */
    method Init(initial: nat, dfn: bool)
      requires Lawful(hfn, mfn)
      modifies this
      ensures Valid() && Items() == {} && count == 0 && size == NewSize(initial) && fresh(repr)
      ensures this.dfn == dfn && this.initial == initial
    {
      this.dfn, this.initial := dfn, initial;
      EmptiesHashed(0, hfn, mfn);
      count, size, lists := 0, 0, [];
      repr, buckets := {}, [];
      assert Empties<T>(0) == [];
      var _, _ := Grow();
    }

    /** `ht_deinit`: the items passed to the delete function. */
    method Deinit() returns (deleted: seq<T>)
      requires Valid()
      modifies repr
      ensures deleted == if dfn then Flat(buckets) else []
      ensures dfn ==> NoDup(deleted) && Items() == set x | x in deleted
    {
      FlatNoDup(buckets, |buckets|, hfn, mfn);
      deleted := DeinitAll(lists, buckets, repr, dfn);
    }

    /** `ht_clear`. */
    method Clear() returns (deleted: seq<T>)
      requires Valid()
      modifies this, repr
      ensures Valid() && Items() == {} && count == 0 && size == NewSize(initial) && fresh(repr)
      ensures dfn == old(dfn) && initial == old(initial)
      ensures deleted == if old(dfn) then Flat(old(buckets)) else []
      ensures old(dfn) ==> NoDup(deleted) && old(Items()) == set x | x in deleted
    {
      deleted := Deinit();
      Init(initial, dfn);
    }

    // ----- remove and get

    /** The iterator stands at an item. */
    ghost predicate Live(it: Itr)
      requires Valid()
      reads this, repr
    {
      exists j :: StandsAt(it, j)
    }

    /** `ht_get`. */
    function Get(it: Itr): (data: Option<T>)
      requires Valid()
      reads this, repr
      ensures forall j | StandsAt(it, j) :: data == Some(buckets[it.idx][j])
      ensures data.Some? <==> Live(it)
      ensures data.Some? ==> data.value in Items()
    {
      if it == END_ITR || !(0 <= it.idx < size) then None
      else
        ChainsHave(lists, buckets, repr, dfn, 0, it.idx);
        BucketElements(buckets, it.idx);
        var l := lists[it.idx];
        Indexes(l.Slots(), l.rings);
        assert it.itr in l.rings.used ==> StandsAt(it, IndexOf(l.rings.used, it.itr));
        l.Get(it.itr)
    }

    /** `ht_remove`. */
    method Remove(it: Itr) returns (ok: bool)
      requires Valid()
      modifies this, repr
      ensures Valid() && repr == old(repr) && size == old(size) && dfn == old(dfn) && initial == old(initial)
      ensures ok == old(Live(it))
      ensures ok ==> Items() == old(Items()) - {old(Get(it)).value} && count == old(count) - 1
      ensures !ok ==> buckets == old(buckets) && count == old(count)
    {
      if it == END_ITR || !(0 <= it.idx < size) || count == 0 || Get(it) == None {
        assert Live(it) ==> count > 0 by { LivePositive(it); }
        return false;
      }
      ghost var j :| StandsAt(it, j);
      RemoveAt(it, j);
      return true;
    }

    lemma LivePositive(it: Itr)
      requires Valid()
      ensures Live(it) ==> count > 0
    {
      if j :| StandsAt(it, j) {
        FlatAt(buckets, |buckets|, it.idx, j);
      }
    }

    method RemoveAt(it: Itr, ghost j: nat)
      requires Valid() && StandsAt(it, j)
      modifies this, repr
      ensures Valid() && repr == old(repr) && size == old(size) && dfn == old(dfn) && initial == old(initial)
      ensures Items() == old(Items()) - {old(buckets[it.idx][j])} && count == old(count) - 1
    {
      ghost var b := buckets[it.idx := Without(buckets[it.idx], j)];
      RemovedHashed(buckets, hfn, mfn, it.idx, j);
      ChainsHave(lists, buckets, repr, dfn, 0, it.idx);
      PopAt(lists, it.idx, it.itr, j, buckets, repr, dfn, 0);
      count := count - 1;
      Record(repr, b);
    }

    // ----- iterators

    /** The iterator stands at the n-th item of all; outside of them it is the end. */
    ghost predicate At(it: Itr, n: int)
      requires Valid()
      reads this, repr
    {
      && (it == END_ITR <==> !(0 <= n < count))
      && forall k: int {:trigger Stand(k)} | Stand(k) ::
        it != END_ITR ==> exists j :: StandsAt(it, j) && n == |FlatTo(buckets, it.idx)| + j
    }

    lemma AtHead(it: Itr)
      requires Valid() && StandsAt(it, 0)
      ensures At(it, |FlatTo(buckets, it.idx)|)
    {
      FlatAt(buckets, |buckets|, it.idx, 0);
    }

    lemma AtTail(it: Itr)
      requires Valid() && 0 <= it.idx < size && StandsAt(it, |buckets[it.idx]| - 1)
      ensures At(it, |FlatTo(buckets, it.idx + 1)| - 1)
    {
      FlatAt(buckets, |buckets|, it.idx, |buckets[it.idx]| - 1);
    }

    /** The scan for the first list from `i0` on that is not empty: its head, or the end. */
    method HeadFrom(i0: int) returns (it: Itr)
      requires Valid() && 0 <= i0 <= size
      ensures At(it, |FlatTo(buckets, i0)|)
    {
      var i := i0;
      while i < size && ListCount(i) == 0
        invariant i0 <= i <= size && forall k | i0 <= k < i :: buckets[k] == []
      {
        i := i + 1;
      }
      FlatSkip(buckets, i0, i);
      if i >= size { return END_ITR; }
      ChainsHave(lists, buckets, repr, dfn, 0, i);
      it := Itr(i, lists[i].ItrBegin());
      AtHead(it);
    }

    /** The scan for the last list up to `i0` that is not empty: its tail, or the end. */
    method TailUpTo(i0: int) returns (it: Itr)
      requires Valid() && -1 <= i0 < size
      ensures At(it, |FlatTo(buckets, i0 + 1)| - 1)
    {
      var i := i0;
      while i >= 0 && ListCount(i) == 0
        invariant -1 <= i <= i0 && forall k | i < k <= i0 :: buckets[k] == []
      {
        i := i - 1;
      }
      FlatSkip(buckets, i + 1, i0 + 1);
      if i < 0 { return END_ITR; }
      ChainsHave(lists, buckets, repr, dfn, 0, i);
      it := Itr(i, lists[i].ItrTail());
      AtTail(it);
    }

    /** `ht_itr_begin`. */
    method ItrBegin() returns (it: Itr)
      requires Valid()
      ensures At(it, 0)
    {
      if count == 0 { return END_ITR; }
      it := HeadFrom(0);
    }

    /** `ht_itr_rbegin`. */
    method ItrRbegin() returns (it: Itr)
      requires Valid()
      ensures At(it, count - 1)
    {
      if count == 0 { return END_ITR; }
      it := TailUpTo(size - 1);
    }

    function ListCount(i: int): (n: nat)
      requires Valid() && 0 <= i < size
      reads this, repr
      ensures n == |buckets[i]|
    {
      ChainsHave(lists, buckets, repr, dfn, 0, i);
      lists[i].count
    }

    /** `ht_itr_next`. */
    method ItrNext(it: Itr, ghost n: nat) returns (next: Itr)
      requires Valid() && n < count && At(it, n)
      ensures At(next, n + 1)
    {
      assert Stand(0);
      ghost var j :| StandsAt(it, j) && n == |FlatTo(buckets, it.idx)| + j;
      var i := it.idx;
      ChainsHave(lists, buckets, repr, dfn, 0, i);
      SlotFacts(lists[i].Slots(), lists[i].rings, j);
      FlatAt(buckets, |buckets|, i, j);
      next := Itr(i, lists[i].ItrNext(it.itr));
      if next.itr != END {
        assert StandsAt(next, j + 1);
        FlatAt(buckets, |buckets|, i, j + 1);
        return;
      }
      next := HeadFrom(i + 1);
    }

    /** `ht_itr_rnext`. */
    method ItrRnext(it: Itr, ghost n: nat) returns (next: Itr)
      requires Valid() && n < count && At(it, n)
      ensures At(next, n - 1)
    {
      assert Stand(0);
      ghost var j :| StandsAt(it, j) && n == |FlatTo(buckets, it.idx)| + j;
      var i := it.idx;
      ChainsHave(lists, buckets, repr, dfn, 0, i);
      SlotFacts(lists[i].Slots(), lists[i].rings, j);
      FlatAt(buckets, |buckets|, i, j);
      next := Itr(i, lists[i].ItrRnext(it.itr));
      if next.itr != END {
        assert StandsAt(next, j - 1);
        return;
      }
      next := TailUpTo(i - 1);
    }

    lemma GetAt(it: Itr, n: nat)
      requires Valid() && n < count && At(it, n)
      ensures Get(it) == Some(Flat(buckets)[n])
    {
      assert Stand(0);
      var j :| StandsAt(it, j) && n == |FlatTo(buckets, it.idx)| + j;
      FlatAt(buckets, |buckets|, it.idx, j);
    }

    /** A walk from begin to end visits every item once. */
    method Forward() returns (out: seq<T>)
      requires Valid()
      ensures out == Flat(buckets) && NoDup(out) && Items() == set x | x in out
    {
      FlatNoDup(buckets, |buckets|, hfn, mfn);
      out := [];
      ghost var flat := Flat(buckets);
      var it := ItrBegin();
      while it != END_ITR
        invariant |out| <= count == |flat| && At(it, |out|) && out == flat[..|out|]
        decreases count - |out|
      {
        assert |out| < count;
        GetAt(it, |out|);
        var x := Get(it).value;
        it := ItrNext(it, |out|);
        out := out + [x];
      }
      assert |out| == count;
    }

    /** A walk from rbegin to the end visits the items in reverse. */
    method Backward() returns (out: seq<T>)
      requires Valid()
      ensures out == Backwards(Flat(buckets), 0)
    {
      out := [];
      ghost var flat, n := Flat(buckets), count;
      var it := ItrRbegin();
      while it != END_ITR
        invariant 0 <= n <= count == |flat| && At(it, n - 1) && out == Backwards(flat, n)
        decreases n
      {
        GetAt(it, n - 1);
        var x := Get(it).value;
        it := ItrRnext(it, n - 1);
        out := out + [x];
        n := n - 1;
      }
      assert n == 0;
    }

    // ----- runs

    lemma CountIsSize()
      requires Valid()
      ensures count == |Items()|
    {
      FlatNoDup(buckets, |buckets|, hfn, mfn);
      NoDupSize(Flat(buckets));
    }

    /** Finds the match of an item and removes it. */
    method RemoveMatch(x: T) returns (ok: bool)
      requires Valid()
      modifies this, repr
      ensures Valid() && repr == old(repr) && size == old(size) && count <= old(count)
      ensures ok == Matched(old(Items()), mfn, x)
      ensures Items() == set y | y in old(Items()) && !mfn(x, y)
    {
      var it, j := Find(x);
      if it == END_ITR { return false; }
      BucketElements(buckets, it.idx);
      OneMatch(buckets, hfn, mfn, x, buckets[it.idx][j]);
      ok := Remove(it);
    }

    method Apply(op: Op<T>) returns (ok: bool)
      requires Valid() && (count <= 4 * size || size == LAST)
      modifies this, repr
      ensures Valid() && (count <= 4 * size || size == LAST) && fresh(repr - old(repr))
      ensures Items() == Step(old(Items()), mfn, op) && ok == Answer(old(Items()), mfn, op)
    {
      match op
      case Insert(x) =>
        var deleted;
        ghost var grows;
        ok, deleted, grows := Insert(x);
      case Remove(x) => ok := RemoveMatch(x);
      case Find(x) =>
        var it, _ := Find(x);
        ok := it != END_ITR;
      case Clear =>
        var _ := Clear();
        ok := true;
    }
  }

  /** Any run of operations on a new table ends in a valid table that represents what the run means
      for sets up to matching, with at most four items a bucket below the last size; every operation
      returns what it means for the set at that point. */
  method Run<T(!new,==)>(initial: nat, hfn: T -> nat, mfn: (T, T) -> bool, dfn: bool, ops: seq<Op<T>>)
    returns (table: HashTable<T>, results: seq<bool>)
    requires Lawful(hfn, mfn)
    ensures table.Valid() && table.mfn == mfn && table.Items() == RunOps(mfn, ops, |ops|)
    ensures table.count == |table.Items()| && (table.count <= 4 * table.size || table.size == LAST)
    ensures results == RunAnswers(mfn, ops, |ops|)
  {
    table := new HashTable(initial, hfn, mfn, dfn);
    results := [];
    for i := 0 to |ops|
      invariant table.Valid() && fresh(table) && fresh(table.repr) && table.mfn == mfn
      invariant table.Items() == RunOps(mfn, ops, i) && (table.count <= 4 * table.size || table.size == LAST)
      invariant results == RunAnswers(mfn, ops, i)
    {
      results := ApplyNth(table, ops, i, results);
    }
    table.CountIsSize();
  }

  /** The i-th operation of a run. */
  method ApplyNth<T(!new,==)>(table: HashTable<T>, ops: seq<Op<T>>, i: nat, results0: seq<bool>)
    returns (results: seq<bool>)
    requires table.Valid() && (table.count <= 4 * table.size || table.size == LAST) && i < |ops|
    requires table.Items() == RunOps(table.mfn, ops, i) && results0 == RunAnswers(table.mfn, ops, i)
    modifies table, table.repr
    ensures table.Valid() && (table.count <= 4 * table.size || table.size == LAST)
    ensures fresh(table.repr - old(table.repr))
    ensures table.Items() == RunOps(table.mfn, ops, i + 1) && results == RunAnswers(table.mfn, ops, i + 1)
  {
    var ok := table.Apply(ops[i]);
    results := results0 + [ok];
  }
}
