/** The buckets of `src/hashtable.c` as sequences, what makes them a set of items that do not match
    each other, and the arithmetic of the table sizes. */
module HashBuckets {
  import opened Sequences
  import opened ListRing

  // ----- sizes

  const PRIMES: seq<nat> := [
    3, 7, 13, 29, 53, 97, 193, 389, 769, 1543, 3079, 6151, 12289, 24593, 49157,
    98317, 196613, 393241, 786433, 1572869, 3145739, 6291469, 12582917, 251658343, 50331653,
    100663319, 201326611, 402563189, 805306457, 1610612741]

  const LAST: nat := 1610612741

  /** The size for `count` items: the first prime from the i-th on that keeps the load at 3 or less,
      the last one if none does. */
  function FirstFit(count: nat, i: nat): nat
    requires i < |PRIMES|
    decreases |PRIMES| - i
  {
    if i < |PRIMES| - 1 && count > 3 * PRIMES[i] then FirstFit(count, i + 1) else PRIMES[i]
  }

  function NewSize(count: nat): nat {
    FirstFit(count, 0)
  }

  function NeedsGrow(count: nat, size: nat): bool {
    count >= 4 * size
  }

  /** The test of the load is the one with the integer division of the code. */
  lemma OverLimit(count: nat, size: nat)
    requires size > 0
    ensures NeedsGrow(count, size) <==> count / size > 3
  {
    assert count == count / size * size + count % size;
  }

  /** `ht_get_new_size`. */
  method GetNewSize(count: nat) returns (size: nat)
    ensures size == NewSize(count)
  {
    var index := 0;
    while index < |PRIMES| - 1 && count > 3 * PRIMES[index]
      invariant index < |PRIMES| && NewSize(count) == FirstFit(count, index)
    {
      index := index + 1;
    }
    return PRIMES[index];
  }

  lemma {:induction false} FirstFitBounds(count: nat, i: nat)
    requires i < |PRIMES|
    ensures var p := FirstFit(count, i);
      p in PRIMES && p <= LAST && (count <= 3 * p || p == LAST) && (count > 3 * LAST ==> p == LAST)
    decreases |PRIMES| - i
  {
    assert PRIMES[|PRIMES| - 1] == LAST;
    assert PRIMES[i] <= LAST;
    if i < |PRIMES| - 1 && count > 3 * PRIMES[i] { FirstFitBounds(count, i + 1); }
  }

  predicate TooSmall(count: nat, i: nat)
    requires i < |PRIMES|
  {
    count > 3 * PRIMES[i]
  }

  /** The size found is the first one that is enough: all sizes before it are too small. */
  lemma {:induction false} FirstFitIsFirst(count: nat, i: nat, j: nat) returns (k: nat)
    requires i <= j < |PRIMES| && !TooSmall(count, j)
    ensures i <= k <= j && FirstFit(count, i) == PRIMES[k] && !TooSmall(count, k)
    ensures forall m | i <= m < k :: TooSmall(count, m)
    decreases j - i
  {
    if !TooSmall(count, i) {
      k := i;
    } else {
      k := FirstFitIsFirst(count, i + 1, j);
      forall m | i <= m < k ensures TooSmall(count, m) {
        assert m == i || i + 1 <= m;
      }
    }
  }

  /** A growth that a full load triggers: the size increases unless it is the last one already, and
      the load falls to 3 or less exactly when the last size is enough for that. */
  lemma GrowthBounds(count: nat, size: nat)
    requires NeedsGrow(count, size) && size <= LAST
    ensures NewSize(count) > size <==> size < LAST
    ensures size <= NewSize(count) <= LAST
    ensures count <= 3 * NewSize(count) <==> count <= 3 * LAST
    ensures count > 3 * LAST ==> NewSize(count) == LAST
  {
    FirstFitBounds(count, 0);
  }

  /** The sizes are not increasing: three primes come after a larger one and are never used. */
  lemma {:induction false} UnusedSizes(count: nat, i: nat)
    requires i <= 23
    ensures FirstFit(count, i) !in [50331653, 100663319, 201326611]
    decreases 23 - i
  {
    if i < 23 {
      UnusedSizes(count, i + 1);
    } else if count > 3 * PRIMES[23] {
      assert FirstFit(count, 24) == FirstFit(count, 25) == FirstFit(count, 26) == FirstFit(count, 27);
      assert FirstFit(count, 27) in [402563189, 805306457, 1610612741];
    }
  }

  // ----- buckets

  /** All items of the first `n` buckets, in order. */
  function FlatTo<T>(b: seq<seq<T>>, n: nat): seq<T>
    requires n <= |b|
  {
    if n == 0 then [] else FlatTo(b, n - 1) + b[n - 1]
  }

  function Flat<T>(b: seq<seq<T>>): seq<T> {
    FlatTo(b, |b|)
  }

  function Elements<T>(b: seq<seq<T>>): set<T> {
    set x | x in Flat(b)
  }

  lemma {:induction false} FlatMembers<T>(b: seq<seq<T>>, n: nat, x: T)
    requires n <= |b|
    ensures x in FlatTo(b, n) <==> exists i :: 0 <= i < n && x in b[i]
  {
    if n > 0 { FlatMembers(b, n - 1, x); }
  }

  lemma ElementsMembers<T>(b: seq<seq<T>>, x: T)
    ensures x in Elements(b) <==> exists i :: 0 <= i < |b| && x in b[i]
  {
    FlatMembers(b, |b|, x);
  }

  lemma BucketElements<T>(b: seq<seq<T>>, i: nat)
    requires i < |b|
    ensures forall x | x in b[i] :: x in Elements(b)
  {
    forall x | x in b[i] ensures x in Elements(b) {
      ElementsMembers(b, x);
    }
  }

  /** Where the j-th item of the i-th bucket is in the flat sequence. */
  lemma {:induction false} FlatAt<T>(b: seq<seq<T>>, n: nat, i: nat, j: nat)
    requires i < n <= |b| && j < |b[i]|
    ensures |FlatTo(b, i)| + j < |FlatTo(b, n)| && FlatTo(b, n)[|FlatTo(b, i)| + j] == b[i][j]
  {
    if i < n - 1 { FlatAt(b, n - 1, i, j); }
  }

  lemma {:induction false} FlatUpdate<T>(b: seq<seq<T>>, n: nat, k: nat, s: seq<T>)
    requires n <= |b| && k < |b|
    ensures n <= k ==> FlatTo(b[k := s], n) == FlatTo(b, n)
    ensures n > k ==> |FlatTo(b[k := s], n)| + |b[k]| == |FlatTo(b, n)| + |s|
  {
    if n > 0 { FlatUpdate(b, n - 1, k, s); }
  }

  lemma {:induction false} FlatSkip<T>(b: seq<seq<T>>, k: nat, n: nat)
    requires k <= n <= |b| && forall i | k <= i < n :: b[i] == []
    ensures FlatTo(b, n) == FlatTo(b, k)
  {
    if k < n { FlatSkip(b, k, n - 1); }
  }

  // ----- matching

  /** Matching is an equivalence, and matching items hash equal. */
  ghost predicate Lawful<T(!new)>(hfn: T -> nat, mfn: (T, T) -> bool) {
    forall k: int {:trigger Laws(k)} | Laws(k) ::
      && (forall x :: mfn(x, x))
      && (forall x, y :: mfn(x, y) ==> mfn(y, x) && hfn(x) == hfn(y))
      && (forall x, y, z :: mfn(x, y) && mfn(y, z) ==> mfn(x, z))
  }

  /** As `Unfold`, for `Lawful`. */
  predicate Laws(k: int) { true }

  lemma MatchingLaws<T(!new)>(hfn: T -> nat, mfn: (T, T) -> bool)
    requires Lawful(hfn, mfn)
    ensures forall x :: mfn(x, x)
    ensures forall x, y :: mfn(x, y) ==> mfn(y, x) && hfn(x) == hfn(y)
  {
    assert Laws(0);
  }

  /** Every item is in the bucket of its hash, and no two items match. */
  ghost predicate Hashed<T(!new)>(b: seq<seq<T>>, hfn: T -> nat, mfn: (T, T) -> bool) {
    forall k: int {:trigger Unfold(k)} | Unfold(k) :: forall i | 0 <= i < |b| :: HashedAt(b, i, hfn, mfn)
  }

  ghost predicate HashedAt<T(!new)>(b: seq<seq<T>>, i: nat, hfn: T -> nat, mfn: (T, T) -> bool)
    requires i < |b|
  {
    && (forall x | x in b[i] :: hfn(x) % |b| == i)
    && (forall j, k | 0 <= j < k < |b[i]| :: !mfn(b[i][j], b[i][k]))
  }

  ghost predicate Matched<T>(s: set<T>, mfn: (T, T) -> bool, x: T) {
    exists y :: y in s && mfn(x, y)
  }

  /** Only the bucket of its hash can hold a match for `x`. */
  lemma MatchedInBucket<T(!new)>(b: seq<seq<T>>, hfn: T -> nat, mfn: (T, T) -> bool, x: T)
    requires Lawful(hfn, mfn) && Hashed(b, hfn, mfn) && b != []
    ensures Matched(Elements(b), mfn, x) <==> exists y :: y in b[hfn(x) % |b|] && mfn(x, y)
  {
    assert Unfold(0);
    MatchingLaws(hfn, mfn);
    var i := hfn(x) % |b|;
    if Matched(Elements(b), mfn, x) {
      var y :| y in Elements(b) && mfn(x, y);
      ElementsMembers(b, y);
      var k :| 0 <= k < |b| && y in b[k];
      assert HashedAt(b, k, hfn, mfn);
    }
    if y :| y in b[i] && mfn(x, y) {
      ElementsMembers(b, y);
    }
  }

  /** Adding an item that has no match at the end of its bucket. */
  lemma AddedHashed<T(!new)>(b: seq<seq<T>>, hfn: T -> nat, mfn: (T, T) -> bool, x: T)
    requires Lawful(hfn, mfn) && Hashed(b, hfn, mfn) && b != [] && !Matched(Elements(b), mfn, x)
    ensures var k := hfn(x) % |b|; var c := b[k := b[k] + [x]];
      Hashed(c, hfn, mfn) && Elements(c) == Elements(b) + {x} && |Flat(c)| == |Flat(b)| + 1
  {
    assert Unfold(0);
    MatchingLaws(hfn, mfn);
    var k := hfn(x) % |b|;
    var c := b[k := b[k] + [x]];
    MatchedInBucket(b, hfn, mfn, x);
    FlatUpdate(b, |b|, k, b[k] + [x]);
    forall i | 0 <= i < |c| ensures HashedAt(c, i, hfn, mfn) {
      assert HashedAt(b, i, hfn, mfn);
      assert forall j | 0 <= j < |b[k]| :: b[k][j] in b[k];
    }
    forall y ensures y in Elements(c) <==> y in Elements(b) + {x} {
      ElementsMembers(b, y);
      ElementsMembers(c, y);
      assert c[k] == b[k] + [x];
      if y in Elements(b) {
        var i :| 0 <= i < |b| && y in b[i];
        assert y in c[i];
      }
    }
  }

  lemma WithoutMembers<T>(s: seq<T>, j: nat)
    requires j < |s| && forall i | 0 <= i < |s| && i != j :: s[i] != s[j]
    ensures forall y :: y in Without(s, j) <==> y in s && y != s[j]
  {
    var t := Without(s, j);
    assert forall i | 0 <= i < |t| :: t[i] == s[if i < j then i else i + 1];
    assert forall i | 0 <= i < |s| && i != j :: s[i] == t[if i < j then i else i - 1];
  }

  /** Removing the j-th item of the k-th bucket. */
  lemma RemovedHashed<T(!new)>(b: seq<seq<T>>, hfn: T -> nat, mfn: (T, T) -> bool, k: nat, j: nat)
    requires Lawful(hfn, mfn) && Hashed(b, hfn, mfn) && k < |b| && j < |b[k]|
    ensures var c := b[k := Without(b[k], j)];
      Hashed(c, hfn, mfn) && Elements(c) == Elements(b) - {b[k][j]} && |Flat(c)| == |Flat(b)| - 1
  {
    assert Unfold(0);
    MatchingLaws(hfn, mfn);
    var s, x := Without(b[k], j), b[k][j];
    var c := b[k := s];
    FlatUpdate(b, |b|, k, s);
    assert HashedAt(b, k, hfn, mfn);
    assert forall i | 0 <= i < |s| :: s[i] == b[k][if i < j then i else i + 1];
    WithoutMembers(b[k], j);
    assert forall i | 0 <= i < |b| && HashedAt(b, i, hfn, mfn) :: HashedAt(c, i, hfn, mfn);
    RemovedElements(b, hfn, mfn, k, x, s);
  }

  lemma RemovedElements<T(!new)>(b: seq<seq<T>>, hfn: T -> nat, mfn: (T, T) -> bool, k: nat, x: T, s: seq<T>)
    requires Hashed(b, hfn, mfn) && k < |b| && x in b[k] && forall y :: y in s <==> y in b[k] && y != x
    ensures Elements(b[k := s]) == Elements(b) - {x}
  {
    var c := b[k := s];
    assert Unfold(0) && HashedAt(b, k, hfn, mfn);
    forall y ensures y in Elements(c) <==> y in Elements(b) && y != x {
      ElementsMembers(b, y);
      ElementsMembers(c, y);
      if y in Elements(c) {
        var i :| 0 <= i < |c| && y in c[i];
        assert HashedAt(b, i, hfn, mfn) && y in b[i];
      }
      if y in Elements(b) && y != x {
        var i :| 0 <= i < |b| && y in b[i];
        assert y in c[i];
      }
    }
  }

  /** No item occurs twice in the flat sequence. */
  lemma {:induction false} FlatNoDup<T(!new)>(b: seq<seq<T>>, n: nat, hfn: T -> nat, mfn: (T, T) -> bool)
    requires Lawful(hfn, mfn) && Hashed(b, hfn, mfn) && n <= |b|
    ensures NoDup(FlatTo(b, n))
  {
    if n > 0 {
      FlatNoDup(b, n - 1, hfn, mfn);
      MatchingLaws(hfn, mfn);
      var s, t := FlatTo(b, n - 1), b[n - 1];
      assert Unfold(0) && HashedAt(b, n - 1, hfn, mfn);
      forall x | x in s ensures x !in t {
        FlatMembers(b, n - 1, x);
        var i :| 0 <= i < n - 1 && x in b[i];
        assert HashedAt(b, i, hfn, mfn);
      }
      NoDupConcat(s, t);
    }
  }

  /** Two items that match are the same item. */
  lemma NoTwoMatch<T(!new)>(b: seq<seq<T>>, hfn: T -> nat, mfn: (T, T) -> bool, y: T, z: T)
    requires Lawful(hfn, mfn) && Hashed(b, hfn, mfn) && y in Elements(b) && z in Elements(b) && mfn(y, z)
    ensures y == z
  {
    assert Unfold(0);
    MatchingLaws(hfn, mfn);
    ElementsMembers(b, y);
    ElementsMembers(b, z);
    var i :| 0 <= i < |b| && y in b[i];
    var k :| 0 <= k < |b| && z in b[k];
    assert HashedAt(b, i, hfn, mfn) && HashedAt(b, k, hfn, mfn);
  }

  /** Any item has at most one match. */
  lemma OneMatch<T(!new)>(b: seq<seq<T>>, hfn: T -> nat, mfn: (T, T) -> bool, x: T, y: T)
    requires Lawful(hfn, mfn) && Hashed(b, hfn, mfn) && y in Elements(b) && mfn(x, y)
    ensures forall z | z in Elements(b) && mfn(x, z) :: z == y
  {
    forall z | z in Elements(b) && mfn(x, z) ensures z == y {
      assert Laws(0);
      assert mfn(y, x) && mfn(y, z);
      NoTwoMatch(b, hfn, mfn, y, z);
    }
  }

  // ----- moving the items to another table

  /** `whole` is divided into the items that have been moved and those of `b`; none of the latter
      has a match among the former. */
  ghost predicate Divided<T(!new)>(moved: set<T>, b: seq<seq<T>>, whole: set<T>, hfn: T -> nat, mfn: (T, T) -> bool) {
    && Hashed(b, hfn, mfn) && moved + Elements(b) == whole
    && forall k: int {:trigger Unfold(k)} | Unfold(k) :: forall y | y in Elements(b) :: !Matched(moved, mfn, y)
  }

  /** Moving the first item of a bucket. */
  lemma MovedOne<T(!new)>(moved: set<T>, b: seq<seq<T>>, whole: set<T>, hfn: T -> nat, mfn: (T, T) -> bool, i: nat)
    requires Lawful(hfn, mfn) && Divided(moved, b, whole, hfn, mfn) && i < |b| && b[i] != []
    ensures !Matched(moved, mfn, b[i][0])
    ensures Divided(moved + {b[i][0]}, b[i := Without(b[i], 0)], whole, hfn, mfn)
    ensures |Flat(b[i := Without(b[i], 0)])| == |Flat(b)| - 1
  {
    assert Unfold(0);
    MatchingLaws(hfn, mfn);
    var x, s := b[i][0], Without(b[i], 0);
    var c := b[i := s];
    RemovedHashed(b, hfn, mfn, i, 0);
    ElementsMembers(b, x);
    assert HashedAt(b, i, hfn, mfn);
    assert forall j | 0 <= j < |s| :: s[j] == b[i][j + 1] && !mfn(x, s[j]);
    MatchedInBucket(c, hfn, mfn, x);
    assert !Matched(Elements(c), mfn, x);
    assert forall y | y in Elements(c) :: !mfn(y, x);
  }

  // ----- empty buckets

  ghost function Empties<T>(n: nat): seq<seq<T>> {
    seq(n, _ => [])
  }

  lemma EmptiesHashed<T(!new)>(n: nat, hfn: T -> nat, mfn: (T, T) -> bool)
    ensures Hashed(Empties(n), hfn, mfn) && Flat(Empties<T>(n)) == [] && Elements(Empties<T>(n)) == {}
  {
    FlatSkip(Empties<T>(n), 0, n);
    assert forall i | 0 <= i < n :: HashedAt(Empties(n), i, hfn, mfn);
  }

  // ----- runs

  datatype Op<T> = Insert(x: T) | Remove(x: T) | Find(x: T) | Clear

  /** Sets of items up to matching: an item that has a match is not inserted, and the match of an
      item is removed. */
  function Step<T>(s: set<T>, mfn: (T, T) -> bool, op: Op<T>): set<T> {
    match op
    case Insert(x) => if exists y :: y in s && mfn(x, y) then s else s + {x}
    case Remove(x) => set y | y in s && !mfn(x, y)
    case Find(_) => s
    case Clear => {}
  }

  /** What an operation returns: an insertion whether there was no match, a removal and a search
      whether there was one. */
  function Answer<T>(s: set<T>, mfn: (T, T) -> bool, op: Op<T>): bool {
    match op
    case Insert(x) => !exists y :: y in s && mfn(x, y)
    case Remove(x) => exists y :: y in s && mfn(x, y)
    case Find(x) => exists y :: y in s && mfn(x, y)
    case Clear => true
  }

  /** The set after the first `n` operations, and what they have returned. */
  function RunOps<T>(mfn: (T, T) -> bool, ops: seq<Op<T>>, n: nat): set<T>
    requires n <= |ops|
  {
    if n == 0 then {} else Step(RunOps(mfn, ops, n - 1), mfn, ops[n - 1])
  }

  function RunAnswers<T(==)>(mfn: (T, T) -> bool, ops: seq<Op<T>>, n: nat): seq<bool>
    requires n <= |ops|
  {
    if n == 0 then [] else RunAnswers(mfn, ops, n - 1) + [Answer(RunOps(mfn, ops, n - 1), mfn, ops[n - 1])]
  }

  lemma {:induction false} RunAnswersAt<T>(mfn: (T, T) -> bool, ops: seq<Op<T>>, n: nat, i: nat)
    requires i < n <= |ops|
    ensures |RunAnswers(mfn, ops, n)| == n && RunAnswers(mfn, ops, n)[i] == Answer(RunOps(mfn, ops, i), mfn, ops[i])
  {
    if n > 1 { RunAnswersAt(mfn, ops, n - 1, if i < n - 1 then i else 0); }
  }
}
