/** What `bt_deinitialize` of `src/btree.c` hands to the delete functions. */
module BtreeRelease {
  import opened Sequences
  import opened BtreeShape
  import opened BtreeMap
  import opened BtreeState

  /** The key or the value of a binding. */
  function Part(b: Binding, ofKeys: bool): Ptr {
    if ofKeys then b.key else b.val
  }

  /** What one node hands over: its key or value, unless that is null. */
  function Release(d: map<Node, Binding>, n: Node, ofKeys: bool): seq<Ptr> {
    if n in d && Part(d[n], ofKeys) != NULL then [Part(d[n], ofKeys)] else []
  }

  /** What is deleted when the nodes of `s` are released in turn. */
  function Released(d: map<Node, Binding>, s: seq<Node>, ofKeys: bool): seq<Ptr> {
    if s == [] then [] else Released(d, s[..|s| - 1], ofKeys) + Release(d, s[|s| - 1], ofKeys)
  }

  /** What a delete function is passed, if there is one. */
  function Handed(given: bool, d: map<Node, Binding>, s: seq<Node>, ofKeys: bool): seq<Ptr> {
    if given then Released(d, s, ofKeys) else []
  }

  /** What the next node of a block adds to it. */
  lemma HandedNext(given: bool, d: map<Node, Binding>, s: seq<Node>, b: seq<Node>, j: nat, ofKeys: bool)
    requires j < |b|
    ensures Handed(given, d, s + b[..j + 1], ofKeys)
         == Handed(given, d, s + b[..j], ofKeys) + if given then Release(d, b[j], ofKeys) else []
  {
    assert (s + b[..j + 1])[..|s| + j] == s + b[..j];
  }

  lemma {:induction false} ReleasedJoin(d: map<Node, Binding>, s: seq<Node>, t: seq<Node>, ofKeys: bool)
    ensures Released(d, s + t, ofKeys) == Released(d, s, ofKeys) + Released(d, t, ofKeys)
  {
    if t == [] {
      assert s + t == s;
    } else {
      assert (s + t)[..|s + t| - 1] == s + t[..|t| - 1];
      ReleasedJoin(d, s, t[..|t| - 1], ofKeys);
    }
  }

  lemma ReleasedMiddle(d: map<Node, Binding>, x: seq<Node>, n: Node, y: seq<Node>, ofKeys: bool)
    ensures multiset(Released(d, x + [n] + y, ofKeys))
         == multiset(Released(d, x + y, ofKeys)) + multiset(Release(d, n, ofKeys))
  {
    ReleasedJoin(d, x + [n], y, ofKeys);
    ReleasedJoin(d, x, [n], ofKeys);
    ReleasedJoin(d, x, y, ofKeys);
    assert Released(d, [n], ofKeys) == Release(d, n, ofKeys);
  }

  /** The order in which the nodes are released does not matter. */
  lemma {:induction false} ReleasedAnyOrder(d: map<Node, Binding>, s: seq<Node>, t: seq<Node>, ofKeys: bool)
    requires NoDup(s) && NoDup(t) && Set(s) == Set(t)
    ensures multiset(Released(d, s, ofKeys)) == multiset(Released(d, t, ofKeys))
    decreases |s|
  {
    if s == [] {
      assert forall i | 0 <= i < |t| :: t[i] in Set(t);
    } else {
      var s', n := s[..|s| - 1], s[|s| - 1];
      assert s == s' + [n];
      assert n in Set(s);
      var j :| 0 <= j < |t| && t[j] == n;
      var x, y := t[..j], t[j + 1..];
      assert t == x + [n] + y;
      WithoutOne(s', n, x, y);
      ReleasedAnyOrder(d, s', x + y, ofKeys);
      ReleasedMiddle(d, x, n, y, ofKeys);
    }
  }

  lemma WithoutOne(s: seq<Node>, n: Node, x: seq<Node>, y: seq<Node>)
    requires NoDup(s + [n]) && NoDup(x + [n] + y) && Set(s + [n]) == Set(x + [n] + y)
    ensures NoDup(s) && NoDup(x + y) && Set(s) == Set(x + y)
  {
    var a, b, t := s + [n], x + [n] + y, x + y;
    assert forall i | 0 <= i < |s| :: s[i] == a[i];
    assert a[|s|] == n && b[|x|] == n;
    assert forall i | 0 <= i < |t| :: t[i] == b[if i < |x| then i else i + 1];
    forall m | m in s ensures m in t {
      assert m in Set(a) && m != n;
      assert m in b;
    }
    forall m | m in t ensures m in s {
      assert m in Set(b) && m != n;
      assert m in a;
    }
  }

  function Parts(e: seq<Binding>, ofKeys: bool): seq<Ptr> {
    seq(|e|, i requires 0 <= i < |e| => Part(e[i], ofKeys))
  }

  /** The same without regard to `Part`: the keys, or the values, of the nodes in turn, without the
      null pointers. */
  function KeysOf(d: map<Node, Binding>, s: seq<Node>): seq<Ptr> {
    seq(|s|, i requires 0 <= i < |s| => if s[i] in d then d[s[i]].key else NULL)
  }

  function ValuesOf(d: map<Node, Binding>, s: seq<Node>): seq<Ptr> {
    seq(|s|, i requires 0 <= i < |s| => if s[i] in d then d[s[i]].val else NULL)
  }

  function NonNull(s: seq<Ptr>): seq<Ptr> {
    if s == [] then [] else NonNull(s[..|s| - 1]) + if s[|s| - 1] == NULL then [] else [s[|s| - 1]]
  }

  /** Only null pointers are left out, and all of them. */
  lemma {:induction false} NonNullCounts(s: seq<Ptr>, x: Ptr)
    ensures multiset(NonNull(s))[x] == if x == NULL then 0 else multiset(s)[x]
  {
    if s != [] {
      var s', y := s[..|s| - 1], s[|s| - 1];
      NonNullCounts(s', x);
      assert s == s' + [y] && multiset(s) == multiset(s') + multiset{y};
    }
  }

  lemma {:induction false} ReleasedKeys(d: map<Node, Binding>, s: seq<Node>)
    ensures Released(d, s, true) == NonNull(KeysOf(d, s))
  {
    if s != [] {
      var s', t := s[..|s| - 1], KeysOf(d, s);
      ReleasedKeys(d, s');
      assert t[..|t| - 1] == KeysOf(d, s');
    }
  }

  lemma {:induction false} ReleasedValues(d: map<Node, Binding>, s: seq<Node>)
    ensures Released(d, s, false) == NonNull(ValuesOf(d, s))
  {
    if s != [] {
      var s', t := s[..|s| - 1], ValuesOf(d, s);
      ReleasedValues(d, s');
      assert t[..|t| - 1] == ValuesOf(d, s');
    }
  }

  lemma PartsAre(e: seq<Binding>)
    ensures Parts(e, true) == seq(|e|, i requires 0 <= i < |e| => e[i].key)
    ensures Parts(e, false) == seq(|e|, i requires 0 <= i < |e| => e[i].val)
  {
  }

  lemma {:induction false} ReleasedHeld(d: map<Node, Binding>, s: seq<Node>, e: seq<Binding>, ofKeys: bool)
    requires Holds(d, s, e) && forall b | b in e :: b.key != NULL && b.val != NULL
    ensures Released(d, s, ofKeys) == Parts(e, ofKeys)
  {
    if s != [] {
      var k := |s| - 1;
      ReleasedHeld(d, s[..k], e[..k], ofKeys);
      assert e[k] in e && e == e[..k] + [e[k]];
    }
  }

  lemma {:induction false} ReleasedFree(th: map<Node, Tie>, d: map<Node, Binding>, head: Node?, s: seq<Node>,
                                        k: nat, ofKeys: bool)
    requires Chained(th, d, head, s) && k <= |s|
    ensures Released(d, s[..k], ofKeys) == []
  {
    if k > 0 {
      assert FreeAt(th, d, s, k - 1);
      assert s[..k][..k - 1] == s[..k - 1];
      ReleasedFree(th, d, head, s, k - 1, ofKeys);
    }
  }

  lemma OrderAndFree(cmp: Compare, nodes: set<Node>, st: State)
    requires Intact(cmp, nodes, st)
    ensures NoDup(Inorder(st.shape) + st.free) && Set(Inorder(st.shape) + st.free) == nodes
    ensures Holds(st.d, Inorder(st.shape), st.e) && Chained(st.th, st.d, st.head, st.free)
    ensures forall b | b in st.e :: b.key != NULL && b.val != NULL
  {
    IntactTree(cmp, nodes, st);
    IntactBindings(cmp, nodes, st);
    IntactMemory(cmp, nodes, st);
    PooledHas(st.th, st.d, st.head, st.free);
    InorderNodes(st.shape);
    InorderNoDup(st.shape);
    NoDupAppend(Inorder(st.shape), st.free);
  }

  /** Releasing all the nodes deletes every stored key, or value, exactly once, and nothing else. */
  lemma AllReleased(cmp: Compare, nodes: set<Node>, st: State, flat: seq<Node>, ofKeys: bool)
    requires Intact(cmp, nodes, st) && NoDup(flat) && Set(flat) == nodes
    ensures multiset(Released(st.d, flat, ofKeys)) == multiset(Parts(st.e, ofKeys))
  {
    var order := Inorder(st.shape);
    OrderAndFree(cmp, nodes, st);
    ReleasedAnyOrder(st.d, flat, order + st.free, ofKeys);
    ReleasedJoin(st.d, order, st.free, ofKeys);
    ReleasedHeld(st.d, order, st.e, ofKeys);
    ReleasedFree(st.th, st.d, st.head, st.free, |st.free|, ofKeys);
    assert st.free[..|st.free|] == st.free;
  }

  /** The same for the keys `k` and the values `v` of the bindings. */
  lemma AllKeysAndValues(cmp: Compare, nodes: set<Node>, st: State, flat: seq<Node>, k: seq<Ptr>, v: seq<Ptr>)
    requires Intact(cmp, nodes, st) && NoDup(flat) && Set(flat) == nodes
    requires |k| == |v| == |st.e| && forall i | 0 <= i < |st.e| :: st.e[i].key == k[i] && st.e[i].val == v[i]
    ensures multiset(NonNull(KeysOf(st.d, flat))) == multiset(k)
    ensures multiset(NonNull(ValuesOf(st.d, flat))) == multiset(v)
  {
    AllReleased(cmp, nodes, st, flat, true);
    AllReleased(cmp, nodes, st, flat, false);
    ReleasedKeys(st.d, flat);
    ReleasedValues(st.d, flat);
    assert Parts(st.e, true) == k && Parts(st.e, false) == v;
  }

  lemma AllHanded(cmp: Compare, nodes: set<Node>, st: State, flat: seq<Node>, given: bool, ofKeys: bool)
    requires Intact(cmp, nodes, st) && NoDup(flat) && Set(flat) == nodes
    ensures multiset(Handed(given, st.d, flat, ofKeys)) == if given then multiset(Parts(st.e, ofKeys)) else multiset{}
  {
    if given { AllReleased(cmp, nodes, st, flat, ofKeys); }
  }
}
