/** Sequences, optional values and a way to fold predicates, for all the modules. */
module Sequences {
  datatype Option<+T> = None | Some(value: T)

  /** Predicates that quantify over `Unfold(k)` are looked into only where `Unfold(0)` is mentioned,
      which keeps the proofs about the methods small. */
  predicate Unfold(k: int) { true }

  predicate NoDup<T(==)>(s: seq<T>) {
    forall i, j :: 0 <= i < j < |s| ==> s[i] != s[j]
  }

  lemma NoDupConcat<T>(s: seq<T>, t: seq<T>)
    requires NoDup(s) && NoDup(t) && forall x | x in s :: x !in t
    ensures NoDup(s + t)
  {
    var u := s + t;
    forall i, j | 0 <= i < j < |u| ensures u[i] != u[j] {
      assert i < |s| ==> u[i] in s;
      assert j >= |s| ==> u[j] in t;
    }
  }

  lemma NoDupJoin<T>(a: seq<T>, x: T, b: seq<T>)
    requires NoDup(a) && NoDup(b) && x !in a && x !in b
    requires forall y | y in a :: y !in b
    ensures NoDup(a + [x] + b)
  {
    var s := a + [x] + b;
    forall i, j | 0 <= i < j < |s| ensures s[i] != s[j] {
      assert i < |a| ==> s[i] in a;
      assert j > |a| ==> s[j] in b;
    }
  }

  /** The elements of `s` from the last down to the k-th. */
  function Backwards<T>(s: seq<T>, k: nat): seq<T>
    decreases |s| - k
  {
    if k >= |s| then [] else Backwards(s, k + 1) + [s[k]]
  }

  lemma {:induction false} BackwardsAt<T>(s: seq<T>, k: nat)
    requires k <= |s|
    ensures |Backwards(s, k)| == |s| - k
    ensures forall i | 0 <= i < |s| - k :: Backwards(s, k)[i] == s[|s| - 1 - i]
    decreases |s| - k
  {
    if k < |s| { BackwardsAt(s, k + 1); }
  }

  lemma PrefixStep<T>(s: seq<T>, k: nat)
    requires k < |s|
    ensures s[..k + 1] == s[..k] + [s[k]]
  {
  }

  lemma {:induction false} NoDupSize<T>(s: seq<T>)
    requires NoDup(s)
    ensures |set x | x in s| == |s|
  {
    if s != [] {
      var t, y := s[..|s| - 1], s[|s| - 1];
      NoDupSize(t);
      assert s == t + [y];
      assert (set x | x in s) == (set x | x in t) + {y};
    }
  }
}
