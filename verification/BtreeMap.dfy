/** The finite map that the tree of `src/btree.c` represents: bindings in strictly
    increasing order of the key compare function. */
module BtreeMap {
  import opened BtreeShape

  type Compare = (Ptr, Ptr) -> int

  datatype Binding = Binding(key: Ptr, val: Ptr)

  /** What a key compare function must be for the tree to make sense: a total order
      (up to keys it calls equal). */
  ghost predicate TotalOrder(cmp: Compare) {
    forall k: int {:trigger Laws(k)} | Laws(k) ::
      && (forall a, b :: cmp(a, b) < 0 <==> cmp(b, a) > 0)
      && (forall a, b, c :: AtMost(cmp, a, b) && AtMost(cmp, b, c) ==> AtMost(cmp, a, c))
  }

  /** As `Unfold`, for `TotalOrder`. */
  predicate Laws(k: int) { true }

  lemma Opposites(cmp: Compare)
    requires TotalOrder(cmp)
    ensures forall a, b :: cmp(a, b) < 0 <==> cmp(b, a) > 0
  {
    assert Laws(0);
  }

  predicate AtMost(cmp: Compare, a: Ptr, b: Ptr) {
    cmp(a, b) <= 0
  }

  /** The default compare function orders keys by their address. */
  function DefaultKeyCmp(l: Ptr, r: Ptr): int {
    if l < r then -1 else if l == r then 0 else 1
  }

  lemma LessTransitive(cmp: Compare, a: Ptr, b: Ptr, c: Ptr)
    requires TotalOrder(cmp)
    requires cmp(a, b) <= 0 && cmp(b, c) <= 0
    ensures cmp(a, c) <= 0
    ensures cmp(a, b) < 0 || cmp(b, c) < 0 ==> cmp(a, c) < 0
  {
    assert Laws(0);
    assert AtMost(cmp, a, b) && AtMost(cmp, b, c);
    assert AtMost(cmp, c, a) ==> AtMost(cmp, c, b) && AtMost(cmp, b, a);
  }

  ghost predicate Sorted(cmp: Compare, s: seq<Binding>) {
    forall i, j :: 0 <= i < j < |s| ==> cmp(s[i].key, s[j].key) < 0
  }

  predicate Bound(cmp: Compare, s: seq<Binding>, key: Ptr) {
    exists i | 0 <= i < |s| :: cmp(key, s[i].key) == 0
  }

  lemma BoundAt(cmp: Compare, s: seq<Binding>, key: Ptr, i: nat)
    requires i < |s| && cmp(key, s[i].key) == 0
    ensures Bound(cmp, s, key)
  {
  }

  /** The value bound to `key`, NULL when there is none. */
  ghost function Lookup(cmp: Compare, s: seq<Binding>, key: Ptr): Ptr {
    if Bound(cmp, s, key) then var i :| 0 <= i < |s| && cmp(key, s[i].key) == 0; s[i].val else NULL
  }

  lemma OneBinding(cmp: Compare, s: seq<Binding>, k: Ptr, i: nat)
    requires TotalOrder(cmp) && Sorted(cmp, s)
    requires i < |s| && cmp(k, s[i].key) == 0
    ensures Bound(cmp, s, k) && Lookup(cmp, s, k) == s[i].val
  {
    Opposites(cmp);
    forall j | 0 <= j < |s| && j != i ensures cmp(k, s[j].key) != 0 {
      if cmp(k, s[j].key) == 0 {
        LessTransitive(cmp, s[j].key, k, s[i].key);
        LessTransitive(cmp, s[i].key, k, s[j].key);
        assert false;
      }
    }
  }

  /** The bindings after adding (key, val): a bound key keeps its old binding. */
  function Insert(cmp: Compare, s: seq<Binding>, key: Ptr, val: Ptr): seq<Binding> {
    if s == [] || cmp(key, s[0].key) < 0 then [Binding(key, val)] + s
    else if cmp(key, s[0].key) == 0 then s
    else [s[0]] + Insert(cmp, s[1..], key, val)
  }

  /** Where the tree finds room for a new key is where `Insert` puts it. */
  lemma {:induction false} InsertBetween(cmp: Compare, a: seq<Binding>, b: seq<Binding>, key: Ptr, val: Ptr)
    requires forall x | x in a :: cmp(key, x.key) > 0
    requires forall x | x in b :: cmp(key, x.key) < 0
    ensures Insert(cmp, a + b, key, val) == a + [Binding(key, val)] + b
    ensures !Bound(cmp, a + b, key)
  {
    assert forall x | x in a + b :: x in a || x in b;
    if a == [] {
      assert a + b == b;
    } else {
      assert (a + b)[1..] == a[1..] + b;
      InsertBetween(cmp, a[1..], b, key, val);
    }
  }

  lemma {:induction false} InsertUpTo(cmp: Compare, a: seq<Binding>, b: seq<Binding>, key: Ptr, val: Ptr)
    requires forall x | x in a :: cmp(key, x.key) > 0
    requires b != [] && cmp(key, b[0].key) == 0
    ensures Insert(cmp, a + b, key, val) == a + b
  {
    if a == [] {
      assert a + b == b;
    } else {
      assert (a + b)[1..] == a[1..] + b;
      InsertUpTo(cmp, a[1..], b, key, val);
    }
  }

  lemma InsertBound(cmp: Compare, s: seq<Binding>, key: Ptr, val: Ptr, i: nat)
    requires TotalOrder(cmp) && Sorted(cmp, s) && i < |s| && cmp(key, s[i].key) == 0
    ensures Insert(cmp, s, key, val) == s
  {
    Opposites(cmp);
    forall j | 0 <= j < i ensures cmp(key, s[j].key) > 0 {
      LessTransitive(cmp, s[j].key, s[i].key, key);
    }
    assert s == s[..i] + s[i..];
    InsertUpTo(cmp, s[..i], s[i..], key, val);
  }

  /** A sorted sequence splits around an unbound key. */
  lemma {:induction false} SplitPoint(cmp: Compare, s: seq<Binding>, key: Ptr) returns (k: nat)
    requires TotalOrder(cmp) && Sorted(cmp, s) && !Bound(cmp, s, key)
    ensures k <= |s|
    ensures forall x | x in s[..k] :: cmp(key, x.key) > 0
    ensures forall x | x in s[k..] :: cmp(key, x.key) < 0
  {
    Opposites(cmp);
    k := 0;
    while k < |s| && cmp(key, s[k].key) > 0
      invariant k <= |s|
      invariant forall j :: 0 <= j < k ==> cmp(key, s[j].key) > 0
    {
      k := k + 1;
    }
    forall j | k <= j < |s| ensures cmp(key, s[j].key) < 0 {
      if j > k { LessTransitive(cmp, key, s[k].key, s[j].key); }
    }
  }

  /** Adding keeps the order, adds one binding exactly when the key is new, and changes
      what is looked up for the keys equal to `key` only, and only if `key` was unbound. */
  lemma InsertIsMapUpdate(cmp: Compare, s: seq<Binding>, key: Ptr, val: Ptr, k: Ptr)
    requires TotalOrder(cmp) && Sorted(cmp, s)
    ensures var t := Insert(cmp, s, key, val);
      && Sorted(cmp, t)
      && |t| == |s| + (if Bound(cmp, s, key) then 0 else 1)
      && (Bound(cmp, t, k) <==> Bound(cmp, s, k) || cmp(k, key) == 0)
      && Lookup(cmp, t, k) == if cmp(k, key) == 0 && !Bound(cmp, s, key) then val else Lookup(cmp, s, k)
  {
    Opposites(cmp);
    if Bound(cmp, s, key) {
      var i :| 0 <= i < |s| && cmp(key, s[i].key) == 0;
      InsertBound(cmp, s, key, val, i);
      if cmp(k, key) == 0 { BoundEqual(cmp, s, k, key); }
    } else {
      var m := SplitPoint(cmp, s, key);
      assert s == s[..m] + s[m..];
      InsertBetween(cmp, s[..m], s[m..], key, val);
      InsertedSorted(cmp, s, m, Binding(key, val));
      InsertedLookup(cmp, s, m, Binding(key, val), k);
    }
  }

  /** Keys that compare equal are bound together. */
  lemma SameBound(cmp: Compare, s: seq<Binding>, k: Ptr, key: Ptr)
    requires TotalOrder(cmp) && cmp(k, key) == 0
    ensures Bound(cmp, s, k) <==> Bound(cmp, s, key)
  {
    Opposites(cmp);
    if Bound(cmp, s, k) { BoundEqual(cmp, s, key, k); }
    if Bound(cmp, s, key) { BoundEqual(cmp, s, k, key); }
  }

  lemma BoundEqual(cmp: Compare, s: seq<Binding>, k: Ptr, key: Ptr)
    requires TotalOrder(cmp) && cmp(k, key) == 0 && Bound(cmp, s, key)
    ensures Bound(cmp, s, k)
  {
    Opposites(cmp);
    var i :| 0 <= i < |s| && cmp(key, s[i].key) == 0;
    LessTransitive(cmp, k, key, s[i].key);
    LessTransitive(cmp, s[i].key, key, k);
  }

  lemma InsertedSorted(cmp: Compare, s: seq<Binding>, m: nat, b: Binding)
    requires TotalOrder(cmp) && Sorted(cmp, s) && m <= |s|
    requires forall x | x in s[..m] :: cmp(b.key, x.key) > 0
    requires forall x | x in s[m..] :: cmp(b.key, x.key) < 0
    ensures Sorted(cmp, s[..m] + [b] + s[m..])
  {
    Opposites(cmp);
    var t := s[..m] + [b] + s[m..];
    forall i, j | 0 <= i < j < |t| ensures cmp(t[i].key, t[j].key) < 0 {
      if j == m {
        assert t[i] in s[..m];
      } else if i == m {
        assert t[j] in s[m..];
      }
    }
  }

  lemma InsertedLookup(cmp: Compare, s: seq<Binding>, m: nat, b: Binding, k: Ptr)
    requires TotalOrder(cmp) && Sorted(cmp, s) && m <= |s| && Sorted(cmp, s[..m] + [b] + s[m..])
    ensures var t := s[..m] + [b] + s[m..];
      && (Bound(cmp, t, k) <==> Bound(cmp, s, k) || cmp(k, b.key) == 0)
      && Lookup(cmp, t, k) == if cmp(k, b.key) == 0 then b.val else Lookup(cmp, s, k)
  {
    Opposites(cmp);
    var t := s[..m] + [b] + s[m..];
    assert t[m] == b;
    assert forall q | 0 <= q < |t| && q != m :: t[q] == s[if q < m then q else q - 1];
    if cmp(k, b.key) == 0 {
      OneBinding(cmp, t, k, m);
    } else if Bound(cmp, s, k) {
      var i :| 0 <= i < |s| && cmp(k, s[i].key) == 0;
      OneBinding(cmp, s, k, i);
      assert t[if i < m then i else i + 1] == s[i];
      OneBinding(cmp, t, k, if i < m then i else i + 1);
    }
  }

  // ----- runs of additions

  /** What one addition makes of the bindings: a null key or a null value is refused. */
  function Put(cmp: Compare, s: seq<Binding>, b: Binding): seq<Binding> {
    if b.key == NULL || b.val == NULL then s else Insert(cmp, s, b.key, b.val)
  }

  /** The bindings after the first `n` additions to an empty tree. */
  function RunAdds(cmp: Compare, adds: seq<Binding>, n: nat): seq<Binding>
    requires n <= |adds|
  {
    if n == 0 then [] else Put(cmp, RunAdds(cmp, adds, n - 1), adds[n - 1])
  }

  predicate Binds(cmp: Compare, b: Binding, k: Ptr) {
    b.key != NULL && b.val != NULL && cmp(k, b.key) == 0
  }

  /** The index of the first of `n` additions that binds `k`, `n` when there is none. */
  function FirstAdd(cmp: Compare, adds: seq<Binding>, n: nat, k: Ptr): (i: nat)
    requires n <= |adds|
    ensures i <= n && (i < n ==> Binds(cmp, adds[i], k)) && forall j | 0 <= j < i :: !Binds(cmp, adds[j], k)
  {
    if n == 0 then 0
    else
      var i := FirstAdd(cmp, adds, n - 1, k);
      if i < n - 1 || Binds(cmp, adds[n - 1], k) then i else n
  }

  /** Over any run the first addition of a key wins, and nothing else is ever found. */
  lemma {:induction false} RunAddsLookup(cmp: Compare, adds: seq<Binding>, n: nat, k: Ptr)
    requires TotalOrder(cmp) && n <= |adds|
    ensures Sorted(cmp, RunAdds(cmp, adds, n))
    ensures Bound(cmp, RunAdds(cmp, adds, n), k) <==> FirstAdd(cmp, adds, n, k) < n
    ensures Lookup(cmp, RunAdds(cmp, adds, n), k) ==
      var i := FirstAdd(cmp, adds, n, k); if i < n then adds[i].val else NULL
  {
    if n > 0 {
      var s, b := RunAdds(cmp, adds, n - 1), adds[n - 1];
      RunAddsLookup(cmp, adds, n - 1, k);
      if b.key != NULL && b.val != NULL {
        InsertIsMapUpdate(cmp, s, b.key, b.val, k);
        if cmp(k, b.key) == 0 { SameBound(cmp, s, k, b.key); }
      }
    }
  }

  /** What the i-th addition returns: whether it is the first one of its key. */
  predicate IsFirst(cmp: Compare, adds: seq<Binding>, i: nat)
    requires i < |adds|
  {
    adds[i].key != NULL && adds[i].val != NULL && FirstAdd(cmp, adds, i, adds[i].key) == i
  }

  lemma FirstAddIsNew(cmp: Compare, adds: seq<Binding>, i: nat)
    requires TotalOrder(cmp) && i < |adds|
    ensures IsFirst(cmp, adds, i) <==>
      adds[i].key != NULL && adds[i].val != NULL && !Bound(cmp, RunAdds(cmp, adds, i), adds[i].key)
  {
    RunAddsLookup(cmp, adds, i, adds[i].key);
  }

  /** What a lookup returns after a run of additions. */
  function FirstValue(cmp: Compare, adds: seq<Binding>, k: Ptr): Ptr {
    var i := FirstAdd(cmp, adds, |adds|, k);
    if k == NULL || i == |adds| then NULL else adds[i].val
  }

  /** What the first `n` additions return, and what lookups of the first `n` keys return after it. */
  function Firsts(cmp: Compare, adds: seq<Binding>, n: nat): seq<bool>
    requires n <= |adds|
  {
    if n == 0 then [] else Firsts(cmp, adds, n - 1) + [IsFirst(cmp, adds, n - 1)]
  }

  function FirstValues(cmp: Compare, adds: seq<Binding>, keys: seq<Ptr>, n: nat): seq<Ptr>
    requires n <= |keys|
  {
    if n == 0 then [] else FirstValues(cmp, adds, keys, n - 1) + [FirstValue(cmp, adds, keys[n - 1])]
  }

  lemma {:induction false} FirstsAt(cmp: Compare, adds: seq<Binding>, n: nat)
    requires n <= |adds|
    ensures |Firsts(cmp, adds, n)| == n && forall i | 0 <= i < n :: Firsts(cmp, adds, n)[i] == IsFirst(cmp, adds, i)
  {
    if n > 0 { FirstsAt(cmp, adds, n - 1); }
  }

  lemma {:induction false} FirstValuesAt(cmp: Compare, adds: seq<Binding>, keys: seq<Ptr>, n: nat)
    requires n <= |keys|
    ensures |FirstValues(cmp, adds, keys, n)| == n
    ensures forall i | 0 <= i < n :: FirstValues(cmp, adds, keys, n)[i] == FirstValue(cmp, adds, keys[i])
  {
    if n > 0 { FirstValuesAt(cmp, adds, keys, n - 1); }
  }

  // ----- the same in terms of the additions alone

  lemma FirstMeans(cmp: Compare, adds: seq<Binding>, i: nat)
    requires i < |adds|
    ensures IsFirst(cmp, adds, i) <==>
      && adds[i].key != NULL && adds[i].val != NULL
      && forall j | 0 <= j < i :: adds[j].key == NULL || adds[j].val == NULL || cmp(adds[i].key, adds[j].key) != 0
  {
    var k := adds[i].key;
    assert forall j | 0 <= j < i :: !Binds(cmp, adds[j], k) <==>
      adds[j].key == NULL || adds[j].val == NULL || cmp(k, adds[j].key) != 0;
    if forall j | 0 <= j < i :: !Binds(cmp, adds[j], k) {
      assert FirstAdd(cmp, adds, i, k) == i;
    }
  }

  /** What is found is the value of the successful addition of an equal key. */
  lemma FoundMeans(cmp: Compare, adds: seq<Binding>, k: Ptr)
    requires TotalOrder(cmp) && k != NULL
    ensures forall j | 0 <= j < |adds| && IsFirst(cmp, adds, j) && cmp(k, adds[j].key) == 0 ::
      FirstValue(cmp, adds, k) == adds[j].val
    ensures (forall j | 0 <= j < |adds| && IsFirst(cmp, adds, j) :: cmp(k, adds[j].key) != 0) ==>
      FirstValue(cmp, adds, k) == NULL
  {
    var n, i := |adds|, FirstAdd(cmp, adds, |adds|, k);
    if i < n {
      forall m | 0 <= m < i ensures !Binds(cmp, adds[m], adds[i].key) {
        EqualKeys(cmp, k, adds[i].key, adds[m].key);
      }
      FirstIsFirst(cmp, adds, i);
    }
    forall j | 0 <= j < n && IsFirst(cmp, adds, j) && cmp(k, adds[j].key) == 0 ensures j == i {
      assert Binds(cmp, adds[j], k);
      EqualKeys(cmp, k, adds[j].key, adds[i].key);
      if i < j { assert Binds(cmp, adds[i], adds[j].key); }
    }
  }

  lemma FirstIsFirst(cmp: Compare, adds: seq<Binding>, i: nat)
    requires i < |adds| && adds[i].key != NULL && adds[i].val != NULL
    requires forall m | 0 <= m < i :: !Binds(cmp, adds[m], adds[i].key)
    ensures IsFirst(cmp, adds, i)
  {
    assert FirstAdd(cmp, adds, i, adds[i].key) == i;
  }

  /** Two keys that compare equal compare equal to the same keys. */
  lemma EqualKeys(cmp: Compare, k: Ptr, l: Ptr, m: Ptr)
    requires TotalOrder(cmp) && cmp(k, l) == 0
    ensures cmp(k, m) == 0 <==> cmp(l, m) == 0
  {
    Opposites(cmp);
    if cmp(k, m) == 0 {
      LessTransitive(cmp, l, k, m);
      LessTransitive(cmp, m, k, l);
    }
    if cmp(l, m) == 0 {
      LessTransitive(cmp, k, l, m);
      LessTransitive(cmp, m, l, k);
    }
  }

  lemma InsertMembers(cmp: Compare, s: seq<Binding>, key: Ptr, val: Ptr)
    requires TotalOrder(cmp) && Sorted(cmp, s)
    ensures Bound(cmp, s, key) ==> Insert(cmp, s, key, val) == s
    ensures !Bound(cmp, s, key) ==> exists k | 0 <= k <= |s| ::
      Insert(cmp, s, key, val) == s[..k] + [Binding(key, val)] + s[k..]
  {
    if Bound(cmp, s, key) {
      var i :| 0 <= i < |s| && cmp(key, s[i].key) == 0;
      InsertBound(cmp, s, key, val, i);
    } else {
      var k := SplitPoint(cmp, s, key);
      assert s == s[..k] + s[k..];
      InsertBetween(cmp, s[..k], s[k..], key, val);
    }
  }

  lemma PutMembers(cmp: Compare, s: seq<Binding>, x: Binding, b: Binding)
    requires TotalOrder(cmp) && Sorted(cmp, s)
    ensures b in Put(cmp, s, x) <==>
      b in s || (b == x && x.key != NULL && x.val != NULL && !Bound(cmp, s, x.key))
  {
    InsertMembers(cmp, s, x.key, x.val);
    if x.key != NULL && x.val != NULL && !Bound(cmp, s, x.key) {
      var k :| 0 <= k <= |s| && Insert(cmp, s, x.key, x.val) == s[..k] + [Binding(x.key, x.val)] + s[k..];
      BetweenMembers(s, k, x, b);
    }
  }

  lemma BetweenMembers(s: seq<Binding>, k: nat, x: Binding, b: Binding)
    requires k <= |s|
    ensures b in s[..k] + [x] + s[k..] <==> b in s || b == x
  {
    assert s == s[..k] + s[k..];
  }

  /** The addition that put a binding into the tree. */
  ghost predicate AddedBy(cmp: Compare, adds: seq<Binding>, n: nat, b: Binding)
    requires n <= |adds|
  {
    exists j | 0 <= j < n :: IsFirst(cmp, adds, j) && adds[j] == b
  }

  /** The tree holds exactly the bindings of the successful additions. */
  lemma {:induction false} VisitedMeans(cmp: Compare, adds: seq<Binding>, n: nat, b: Binding)
    requires TotalOrder(cmp) && n <= |adds|
    ensures b in RunAdds(cmp, adds, n) <==> AddedBy(cmp, adds, n, b)
  {
    if n > 0 {
      var s, x := RunAdds(cmp, adds, n - 1), adds[n - 1];
      VisitedMeans(cmp, adds, n - 1, b);
      RunAddsLookup(cmp, adds, n - 1, x.key);
      FirstAddIsNew(cmp, adds, n - 1);
      PutMembers(cmp, s, x, b);
      AddedByNext(cmp, adds, n, b);
    }
  }

  lemma AddedByNext(cmp: Compare, adds: seq<Binding>, n: nat, b: Binding)
    requires 0 < n <= |adds|
    ensures AddedBy(cmp, adds, n, b) <==>
      AddedBy(cmp, adds, n - 1, b) || (IsFirst(cmp, adds, n - 1) && adds[n - 1] == b)
  {
    if AddedBy(cmp, adds, n - 1, b) {
      var j :| 0 <= j < n - 1 && IsFirst(cmp, adds, j) && adds[j] == b;
      assert j < n;
    }
  }

  /** All that a run of additions, lookups and a walk shows. */
  lemma AddedMeansAll(cmp: Compare, adds: seq<Binding>, added: seq<bool>)
    requires added == Firsts(cmp, adds, |adds|)
    ensures |added| == |adds|
    ensures forall i | 0 <= i < |adds| :: added[i] <==>
      && adds[i].key != NULL && adds[i].val != NULL
      && forall j | 0 <= j < i :: adds[j].key == NULL || adds[j].val == NULL || cmp(adds[i].key, adds[j].key) != 0
  {
    FirstsAt(cmp, adds, |adds|);
    forall i | 0 <= i < |adds|
      ensures added[i] <==>
        && adds[i].key != NULL && adds[i].val != NULL
        && forall j | 0 <= j < i :: adds[j].key == NULL || adds[j].val == NULL || cmp(adds[i].key, adds[j].key) != 0
    {
      FirstMeans(cmp, adds, i);
    }
  }

  lemma FoundMeansAt(cmp: Compare, adds: seq<Binding>, k: Ptr, added: seq<bool>)
    requires TotalOrder(cmp) && added == Firsts(cmp, adds, |adds|) && |added| == |adds|
    ensures k != NULL ==> forall j | 0 <= j < |adds| && added[j] ::
      cmp(k, adds[j].key) == 0 ==> FirstValue(cmp, adds, k) == adds[j].val
    ensures var v := FirstValue(cmp, adds, k);
      v == NULL || (k != NULL && exists j | 0 <= j < |adds| :: added[j] && v == adds[j].val && cmp(k, adds[j].key) == 0)
  {
    FirstsAt(cmp, adds, |adds|);
    if k != NULL { FoundMeans(cmp, adds, k); }
  }

  lemma FoundMeansAll(cmp: Compare, adds: seq<Binding>, keys: seq<Ptr>, added: seq<bool>, found: seq<Ptr>)
    requires TotalOrder(cmp) && added == Firsts(cmp, adds, |adds|) && |added| == |adds|
    requires found == FirstValues(cmp, adds, keys, |keys|)
    ensures |found| == |keys|
    ensures forall i, j | 0 <= i < |keys| && 0 <= j < |adds| && added[j] && keys[i] != NULL ::
      cmp(keys[i], adds[j].key) == 0 ==> found[i] == adds[j].val
    ensures forall i | 0 <= i < |keys| :: found[i] == NULL || (keys[i] != NULL && exists j | 0 <= j < |adds| ::
      added[j] && found[i] == adds[j].val && cmp(keys[i], adds[j].key) == 0)
  {
    FirstValuesAt(cmp, adds, keys, |keys|);
    forall i | 0 <= i < |keys|
      ensures keys[i] != NULL ==> forall j | 0 <= j < |adds| && added[j] ::
        cmp(keys[i], adds[j].key) == 0 ==> found[i] == adds[j].val
      ensures found[i] == NULL || (keys[i] != NULL && exists j | 0 <= j < |adds| ::
        added[j] && found[i] == adds[j].val && cmp(keys[i], adds[j].key) == 0)
    {
      FoundMeansAt(cmp, adds, keys[i], added);
    }
  }

  lemma VisitedMeansAll(cmp: Compare, adds: seq<Binding>, added: seq<bool>, visited: seq<Binding>)
    requires TotalOrder(cmp) && added == Firsts(cmp, adds, |adds|) && |added| == |adds|
    requires visited == RunAdds(cmp, adds, |adds|)
    ensures forall i, j | 0 <= i < j < |visited| :: cmp(visited[i].key, visited[j].key) < 0
    ensures forall b :: b in visited <==> exists j | 0 <= j < |adds| :: added[j] && adds[j] == b
  {
    RunAddsLookup(cmp, adds, |adds|, NULL);
    FirstsAt(cmp, adds, |adds|);
    forall b ensures b in visited <==> exists j | 0 <= j < |adds| :: added[j] && adds[j] == b {
      VisitedMeans(cmp, adds, |adds|, b);
      VisitedBy(cmp, adds, added, b);
    }
  }

  lemma VisitedBy(cmp: Compare, adds: seq<Binding>, added: seq<bool>, b: Binding)
    requires |added| == |adds| && forall i | 0 <= i < |adds| :: added[i] == IsFirst(cmp, adds, i)
    ensures AddedBy(cmp, adds, |adds|, b) <==> exists j | 0 <= j < |adds| :: added[j] && adds[j] == b
  {
    if j :| 0 <= j < |adds| && added[j] && adds[j] == b {
      assert IsFirst(cmp, adds, j);
    }
  }
}
