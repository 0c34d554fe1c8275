/** The two circular lists that `src/list.c` keeps in one array of slots: what it means that slots
    form a ring, and what inserting and removing a slot make of the rings. */
module ListRing {
  import opened Sequences

  /** An index of a slot, or -1. */
  const END: int := -1

  datatype Slot<+T> = Slot(next: int, prev: int, used: bool, data: Option<T>)

  function Succ(k: nat, n: nat): nat {
    if k + 1 == n then 0 else k + 1
  }

  function Pred(k: nat, n: nat): nat
    requires k < n
  {
    if k == 0 then n - 1 else k - 1
  }

  predicate RingAt<T>(a: seq<Slot<T>>, s: seq<int>, k: nat)
    requires k < |s|
  {
    && 0 <= s[k] < |a|
    && a[s[k]].next == s[Succ(k, |s|)] && a[s[k]].prev == s[Pred(k, |s|)]
  }

  /** The slots of `s` form one cycle in this order, `prev` being the inverse of `next`. */
  ghost predicate Ring<T>(a: seq<Slot<T>>, s: seq<int>) {
    NoDup(s) && forall k | 0 <= k < |s| :: RingAt(a, s, k)
  }

  function HeadOf(s: seq<int>): int {
    if s == [] then END else s[0]
  }

  // ----- changes of sequences

  function Inserted<X>(s: seq<X>, k: nat, x: X): seq<X>
    requires k <= |s|
  {
    s[..k] + [x] + s[k..]
  }

  function Without<X>(s: seq<X>, k: nat): seq<X>
    requires k < |s|
  {
    s[..k] + s[k + 1..]
  }

  /** Element by element: `x` is at position `k`, and those from there on move up by one. */
  lemma InsertedElements<X>(s: seq<X>, k: nat, x: X)
    requires k <= |s|
    ensures var t := Inserted(s, k, x);
      && |t| == |s| + 1 && t[k] == x
      && (forall j | 0 <= j < k :: t[j] == s[j]) && (forall j | k < j < |t| :: t[j] == s[j - 1])
  {
  }

  /** Element by element: those behind position `k` move down by one. */
  lemma WithoutElements<X>(s: seq<X>, k: nat)
    requires k < |s|
    ensures var t := Without(s, k);
      && |t| == |s| - 1
      && (forall j | 0 <= j < k :: t[j] == s[j]) && (forall j | k <= j < |t| :: t[j] == s[j + 1])
  {
  }

  // ----- changes of the rings

  /** `item` is put between `p` and `n`. */
  ghost predicate Spliced<T>(a: seq<Slot<T>>, b: seq<Slot<T>>, p: int, item: int, n: int) {
    |b| == |a| && forall i | 0 <= i < |a| ::
      b[i] == a[i].(next := if i == item then n else if i == p then item else a[i].next,
                    prev := if i == item then p else if i == n then item else a[i].prev)
  }

  /** `item` is taken out from between its neighbours. */
  ghost predicate Unspliced<T>(a: seq<Slot<T>>, b: seq<Slot<T>>, item: int)
    requires 0 <= item < |a|
  {
    |b| == |a| && forall i | 0 <= i < |a| ::
      b[i] == a[i].(next := if i == item then END else if i == a[item].prev then a[item].next else a[i].next,
                    prev := if i == item then END else if i == a[item].next then a[item].prev else a[i].prev)
  }

  predicate SameLinks<T>(a: seq<Slot<T>>, b: seq<Slot<T>>, s: seq<int>) {
    forall k | 0 <= k < |s| ::
      0 <= s[k] < |a| ==> s[k] < |b| && b[s[k]].next == a[s[k]].next && b[s[k]].prev == a[s[k]].prev
  }

  lemma RingFrame<T>(a: seq<Slot<T>>, b: seq<Slot<T>>, s: seq<int>)
    requires Ring(a, s) && SameLinks(a, b, s)
    ensures Ring(b, s)
  {
    forall k | 0 <= k < |s| ensures RingAt(b, s, k) {
      assert RingAt(a, s, k);
    }
  }

  /** Inserting a slot before the k-th one of a ring, or into an empty ring. */
  lemma RingInsert<T>(a: seq<Slot<T>>, b: seq<Slot<T>>, s: seq<int>, k: nat, item: int)
    requires Ring(a, s) && item !in s && 0 <= item < |a|
    requires if s == [] then k == 0 && Spliced(a, b, item, item, item)
             else k < |s| && Spliced(a, b, s[Pred(k, |s|)], item, s[k])
    ensures Ring(b, Inserted(s, k, item))
  {
    var t := Inserted(s, k, item);
    InsertedElements(s, k, item);
    if s != [] { assert RingAt(a, s, k); }
    forall j | 0 <= j < |t| ensures RingAt(b, t, j) {
      if j < k { assert RingAt(a, s, j); }
      if j > k { assert RingAt(a, s, j - 1); }
    }
  }

  lemma RotateNoDup(x: int, s: seq<int>)
    requires NoDup([x] + s)
    ensures NoDup(s + [x])
  {
    var t, u := [x] + s, s + [x];
    forall i, j | 0 <= i < j < |u| ensures u[i] != u[j] {
      assert u[i] == t[i + 1] && u[j] == if j == |s| then t[0] else t[j + 1];
    }
  }

  /** A ring may be read from any of its slots. */
  lemma RingRotate<T>(a: seq<Slot<T>>, x: int, s: seq<int>)
    requires Ring(a, [x] + s)
    ensures Ring(a, s + [x])
  {
    var t, u, n := [x] + s, s + [x], |s| + 1;
    RotateNoDup(x, s);
    forall j | 0 <= j < n ensures RingAt(a, u, j) {
      var i := if j == |s| then 0 else j + 1;
      assert RingAt(a, t, i) && u[j] == t[i];
      assert u[Succ(j, n)] == t[Succ(i, n)] && u[Pred(j, n)] == t[Pred(i, n)];
    }
  }

  /** Removing the k-th slot of a ring. */
  lemma RingRemove<T>(a: seq<Slot<T>>, b: seq<Slot<T>>, s: seq<int>, k: nat)
    requires Ring(a, s) && k < |s| && 0 <= s[k] < |a| && Unspliced(a, b, s[k])
    ensures Ring(b, Without(s, k)) && s[k] !in Without(s, k)
  {
    var t := Without(s, k);
    WithoutElements(s, k);
    assert RingAt(a, s, k);
    assert NoDup(t) && forall j | 0 <= j < |t| :: t[j] != s[k];
    forall j | 0 <= j < |t| ensures RingAt(b, t, j) {
      assert RingAt(a, s, if j < k then j else j + 1);
    }
  }

  // ----- the slots of one list

  /** What the slots of a list represent: the used ring, the free ring, and the values in order. */
  datatype Rings<T> = Rings(used: seq<int>, free: seq<int>, values: seq<T>)

  predicate UsedAt<T(==)>(a: seq<Slot<T>>, i: int, x: T) {
    0 <= i < |a| && a[i].used && a[i].data == Some(x)
  }

  predicate FreeAt<T>(a: seq<Slot<T>>, i: int) {
    0 <= i < |a| && !a[i].used && a[i].data.None?
  }

  /** Every slot is in exactly one of the two rings, the used one when its flag says so. */
  ghost predicate Sound<T>(a: seq<Slot<T>>, r: Rings<T>) {
    && |r.used| == |r.values| && |r.used| + |r.free| == |a|
    && (forall k | 0 <= k < |r.used| :: 0 <= r.used[k] < |a|)
    && forall k: int {:trigger Deep(k)} | Deep(k) ::
      && Ring(a, r.used) && Ring(a, r.free)
      && (forall k | 0 <= k < |r.used| :: UsedAt(a, r.used[k], r.values[k]))
      && (forall k | 0 <= k < |r.free| :: FreeAt(a, r.free[k]))
      && (forall i | 0 <= i < |a| :: i in r.used || i in r.free)
  }

  /** As `Unfold`, for `Sound`. */
  predicate Deep(k: int) { true }

  lemma SoundRings<T>(a: seq<Slot<T>>, r: Rings<T>)
    requires Sound(a, r)
    ensures Ring(a, r.used) && Ring(a, r.free)
  {
    assert Deep(0);
  }

  /** The k-th used slot: what it holds and where its links lead. */
  lemma SlotFacts<T>(a: seq<Slot<T>>, r: Rings<T>, k: nat)
    requires Sound(a, r) && k < |r.used|
    ensures UsedAt(a, r.used[k], r.values[k]) && IndexOf(r.used, r.used[k]) == k
    ensures a[r.used[k]].next == r.used[Succ(k, |r.used|)] && a[r.used[k]].prev == r.used[Pred(k, |r.used|)]
    ensures (r.used[k] == r.used[0] <==> k == 0) && (a[r.used[k]].next == r.used[0] <==> k + 1 == |r.used|)
  {
    assert Deep(0);
    IndexAt(r.used, k);
    RingSteps(a, r.used, k);
    assert UsedAt(a, r.used[k], r.values[k]) && RingAt(a, r.used, k);
  }

  /** The slot that a push before position `k` is put in front of; the first one at the end. */
  function Follower(s: seq<int>, k: nat): int
    requires k <= |s| && s != []
  {
    if k == |s| then s[0] else s[k]
  }

  function Leader(s: seq<int>, k: nat): int
    requires k <= |s| && s != []
  {
    if k == 0 then s[|s| - 1] else s[k - 1]
  }

  ghost predicate SplicedAt<T>(a: seq<Slot<T>>, b: seq<Slot<T>>, s: seq<int>, k: nat, item: int)
    requires k <= |s|
  {
    if s == [] then Spliced(a, b, item, item, item) else Spliced(a, b, Leader(s, k), item, Follower(s, k))
  }

  lemma RingSplice<T>(a: seq<Slot<T>>, b: seq<Slot<T>>, s: seq<int>, k: nat, item: int)
    requires Ring(a, s) && item !in s && 0 <= item < |a| && k <= |s| && SplicedAt(a, b, s, k, item)
    ensures Ring(b, Inserted(s, k, item))
  {
    if s != [] && k == |s| {
      RingInsert(a, b, s, 0, item);
      assert Inserted(s, 0, item) == [item] + s;
      RingRotate(b, item, s);
      assert Inserted(s, k, item) == s + [item];
    } else {
      RingInsert(a, b, s, k, item);
    }
  }

  lemma UsedApart<T>(a: seq<Slot<T>>, r: Rings<T>)
    requires Sound(a, r)
    ensures forall i, j | 0 <= i < |r.used| && 0 <= j < |r.free| :: r.used[i] != r.free[j]
    ensures forall k | 0 <= k < |r.used| :: 0 <= r.used[k] < |a|
    ensures forall k | 0 <= k < |r.free| :: 0 <= r.free[k] < |a|
  {
    assert Deep(0);
    forall i, j | 0 <= i < |r.used| && 0 <= j < |r.free| ensures r.used[i] != r.free[j] {
      assert UsedAt(a, r.used[i], r.values[i]) && FreeAt(a, r.free[j]);
    }
  }

  /** The rings after a push of `x` before position `k`. */
  ghost function Pushed<T>(r: Rings<T>, k: nat, x: T): Rings<T>
    requires k <= |r.used| == |r.values| && r.free != []
  {
    Rings(Inserted(r.used, k, r.free[0]), r.free[1..], Inserted(r.values, k, x))
  }

  /** The rings after a pop at position `k`. */
  ghost function Popped<T>(r: Rings<T>, k: nat): Rings<T>
    requires k < |r.used| == |r.values|
  {
    Rings(Without(r.used, k), r.free + [r.used[k]], Without(r.values, k))
  }

  /** Inserting into one ring leaves the other one alone. */
  lemma SpliceElsewhere<T>(a: seq<Slot<T>>, b: seq<Slot<T>>, s: seq<int>, k: nat, item: int, t: seq<int>)
    requires Ring(a, t) && k <= |s| && SplicedAt(a, b, s, k, item) && item !in t
    requires forall i, j | 0 <= i < |s| && 0 <= j < |t| :: s[i] != t[j]
    ensures Ring(b, t)
  {
    assert forall j | 0 <= j < |t| && RingAt(a, t, j) :: t[j] != item;
    RingFrame(a, b, t);
  }

  /** Only what the slot at `i` holds changes. */
  lemma RefilledRing<T>(a: seq<Slot<T>>, i: int, used: bool, data: Option<T>, s: seq<int>)
    requires Ring(a, s) && 0 <= i < |a|
    ensures Ring(a[i := a[i].(data := data, used := used)], s)
  {
    RingFrame(a, a[i := a[i].(data := data, used := used)], s);
  }

  /** A push takes the first free slot and puts it into the used ring. */
  lemma PushRings<T>(a: seq<Slot<T>>, b: seq<Slot<T>>, c: seq<Slot<T>>, d: seq<Slot<T>>, r: Rings<T>, k: nat, x: T)
    requires Sound(a, r) && r.free != [] && k <= |r.used| && 0 <= r.free[0] < |a|
    requires Unspliced(a, b, r.free[0])
    requires c == b[r.free[0] := b[r.free[0]].(data := Some(x), used := true)]
    requires SplicedAt(c, d, r.used, k, r.free[0])
    ensures Ring(d, Inserted(r.used, k, r.free[0])) && Ring(d, r.free[1..]) && r.free[0] !in r.free[1..]
  {
    var item, free := r.free[0], r.free[1..];
    SoundRings(a, r);
    RingRemove(a, b, r.free, 0);
    assert Without(r.free, 0) == free;
    WithoutElements(r.free, 0);
    UsedKept(a, b, c, r, x);
    RingSplice(c, d, r.used, k, item);
    RefilledRing(b, item, true, Some(x), free);
    UsedApart(a, r);
    SpliceElsewhere(c, d, r.used, k, item, free);
  }

  lemma PushSound<T>(a: seq<Slot<T>>, d: seq<Slot<T>>, r: Rings<T>, k: nat, x: T)
    requires Sound(a, r) && r.free != [] && k <= |r.used|
    requires Ring(d, Inserted(r.used, k, r.free[0])) && Ring(d, r.free[1..]) && r.free[0] !in r.free[1..]
    requires |d| == |a| && forall i | 0 <= i < |a| ::
      d[i].data == (if i == r.free[0] then Some(x) else a[i].data) && d[i].used == (i == r.free[0] || a[i].used)
    ensures Sound(d, Rings(Inserted(r.used, k, r.free[0]), r.free[1..], Inserted(r.values, k, x)))
  {
    assert Deep(0);
    var item, used, free := r.free[0], Inserted(r.used, k, r.free[0]), r.free[1..];
    UsedApart(a, r);
    InsertedElements(r.used, k, item);
    InsertedElements(r.values, k, x);
    forall j | 0 <= j < |used| ensures UsedAt(d, used[j], Inserted(r.values, k, x)[j]) {
      if j != k { assert UsedAt(a, r.used[if j < k then j else j - 1], r.values[if j < k then j else j - 1]); }
    }
    forall j | 0 <= j < |free| ensures FreeAt(d, free[j]) {
      assert FreeAt(a, r.free[j + 1]);
    }
    assert r.free == [item] + free && used[k] == item;
    forall i | 0 <= i < |d| ensures i in used || i in free {
      if i in r.used { assert r.used == r.used[..k] + r.used[k..]; }
    }
  }

  lemma PushedSound<T>(a: seq<Slot<T>>, b: seq<Slot<T>>, c: seq<Slot<T>>, d: seq<Slot<T>>, r: Rings<T>, k: nat, x: T)
    requires Sound(a, r) && r.free != [] && k <= |r.used| && 0 <= r.free[0] < |a|
    requires Unspliced(a, b, r.free[0])
    requires c == b[r.free[0] := b[r.free[0]].(data := Some(x), used := true)]
    requires SplicedAt(c, d, r.used, k, r.free[0])
    ensures Sound(d, Pushed(r, k, x))
  {
    PushRings(a, b, c, d, r, k, x);
    PushSound(a, d, r, k, x);
  }

  /** A pop takes the k-th slot from the used ring and puts it at the end of the free ring. */
  lemma PopRings<T>(a: seq<Slot<T>>, b: seq<Slot<T>>, c: seq<Slot<T>>, d: seq<Slot<T>>, r: Rings<T>, k: nat)
    requires Sound(a, r) && k < |r.used| && 0 <= r.used[k] < |a|
    requires Unspliced(a, b, r.used[k])
    requires c == b[r.used[k] := b[r.used[k]].(data := None, used := false)]
    requires SplicedAt(c, d, r.free, |r.free|, r.used[k])
    ensures Ring(d, Without(r.used, k)) && Ring(d, r.free + [r.used[k]]) && r.used[k] !in Without(r.used, k)
  {
    var item, used := r.used[k], Without(r.used, k);
    SoundRings(a, r);
    RingRemove(a, b, r.used, k);
    FreeKept(a, b, c, r, k);
    UsedApart(a, r);
    RingSplice(c, d, r.free, |r.free|, item);
    assert Inserted(r.free, |r.free|, item) == r.free + [item];
    RefilledRing(b, item, false, None, used);
    WithoutElements(r.used, k);
    SpliceElsewhere(c, d, r.free, |r.free|, item, used);
  }

  lemma PopSound<T>(a: seq<Slot<T>>, d: seq<Slot<T>>, r: Rings<T>, k: nat)
    requires Sound(a, r) && k < |r.used|
    requires Ring(d, Without(r.used, k)) && Ring(d, r.free + [r.used[k]]) && r.used[k] !in Without(r.used, k)
    requires |d| == |a| && forall i | 0 <= i < |a| ::
      d[i].data == (if i == r.used[k] then None else a[i].data) && d[i].used == (i != r.used[k] && a[i].used)
    ensures Sound(d, Rings(Without(r.used, k), r.free + [r.used[k]], Without(r.values, k)))
  {
    assert Deep(0);
    var item, used, free := r.used[k], Without(r.used, k), r.free + [r.used[k]];
    UsedApart(a, r);
    WithoutElements(r.used, k);
    WithoutElements(r.values, k);
    forall j | 0 <= j < |used| ensures UsedAt(d, used[j], Without(r.values, k)[j]) {
      var i := if j < k then j else j + 1;
      assert UsedAt(a, r.used[i], r.values[i]) && used[j] in used;
    }
    forall j | 0 <= j < |free| ensures FreeAt(d, free[j]) {
      if j < |r.free| { assert FreeAt(a, r.free[j]); }
    }
    assert r.used == r.used[..k] + [item] + r.used[k + 1..] && free[|r.free|] == item;
  }

  lemma PoppedSound<T>(a: seq<Slot<T>>, b: seq<Slot<T>>, c: seq<Slot<T>>, d: seq<Slot<T>>, r: Rings<T>, k: nat)
    requires Sound(a, r) && k < |r.used| && 0 <= r.used[k] < |a|
    requires Unspliced(a, b, r.used[k])
    requires c == b[r.used[k] := b[r.used[k]].(data := None, used := false)]
    requires SplicedAt(c, d, r.free, |r.free|, r.used[k])
    ensures Sound(d, Popped(r, k))
  {
    PopRings(a, b, c, d, r, k);
    PopSound(a, d, r, k);
  }

  /** Taking a free slot leaves the used ring alone. */
  lemma UsedKept<T>(a: seq<Slot<T>>, b: seq<Slot<T>>, c: seq<Slot<T>>, r: Rings<T>, x: T)
    requires Sound(a, r) && r.free != [] && 0 <= r.free[0] < |a| && Unspliced(a, b, r.free[0])
    requires c == b[r.free[0] := b[r.free[0]].(data := Some(x), used := true)]
    ensures Ring(c, r.used) && r.free[0] !in r.used
  {
    SoundRings(a, r);
    UsedApart(a, r);
    assert RingAt(a, r.free, 0);
    RingFrame(a, c, r.used);
  }

  lemma FreeKept<T>(a: seq<Slot<T>>, b: seq<Slot<T>>, c: seq<Slot<T>>, r: Rings<T>, k: nat)
    requires Sound(a, r) && k < |r.used| && 0 <= r.used[k] < |a| && Unspliced(a, b, r.used[k])
    requires c == b[r.used[k] := b[r.used[k]].(data := None, used := false)]
    ensures Ring(c, r.free) && r.used[k] !in r.free
  {
    SoundRings(a, r);
    UsedApart(a, r);
    assert RingAt(a, r.used, k);
    RingFrame(a, c, r.free);
  }

  lemma Indexes<T>(a: seq<Slot<T>>, r: Rings<T>)
    requires Sound(a, r)
    ensures forall k | 0 <= k < |r.used| :: IndexOf(r.used, r.used[k]) == k
  {
    SoundRings(a, r);
  }

  /** The flag tells the used slots from the free ones. */
  lemma LiveByFlag<T>(a: seq<Slot<T>>, r: Rings<T>, i: int)
    requires Sound(a, r) && 0 <= i < |a|
    ensures a[i].used <==> i in r.used
  {
    assert Deep(0);
    if i in r.used {
      var k :| 0 <= k < |r.used| && r.used[k] == i;
      assert UsedAt(a, r.used[k], r.values[k]);
    } else {
      var k :| 0 <= k < |r.free| && r.free[k] == i;
      assert FreeAt(a, r.free[k]);
    }
  }

  // ----- positions

  ghost function IndexOf(s: seq<int>, x: int): (k: nat)
    requires x in s
    ensures k < |s| && s[k] == x
  {
    var k :| 0 <= k < |s| && s[k] == x;
    k
  }

  lemma IndexAt(s: seq<int>, k: nat)
    requires NoDup(s) && k < |s|
    ensures IndexOf(s, s[k]) == k
  {
  }

  /** Where the links of the k-th slot of a ring lead, and when they lead back to the head. */
  lemma RingSteps<T>(a: seq<Slot<T>>, s: seq<int>, k: nat)
    requires Ring(a, s) && k < |s|
    ensures 0 <= s[k] < |a| && (s[k] == s[0] <==> k == 0)
    ensures a[s[k]].next == s[0] <==> k + 1 == |s|
    ensures k + 1 < |s| ==> a[s[k]].next == s[k + 1]
    ensures k > 0 ==> a[s[k]].prev == s[k - 1]
  {
    assert RingAt(a, s, k);
  }
}
