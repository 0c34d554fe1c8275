/** Walking down the tree of `src/btree.c` towards a key. */
module BtreeSearch {
  import opened Numbers
  import opened BtreeShape
  import opened BtreeRotate
  import opened BtreeMap

  /** The walk stands at `p`, the root of the subtree `t` at the end of the path `c`. */
  predicate Standing(h: Links, t: Tree, p: Node?, c: Path, root: Node?) {
    HangsAt(h, t, p, c, root, Height(t)) && Avl(t)
  }

  function Side(t: Tree, left: bool): Tree
    requires t.Branch?
  {
    if left then t.l else t.r
  }

  /** One step down, to the left or to the right. */
  lemma Descended(h: Links, t: Tree, p: Node?, c: Path, root: Node?, left: bool)
    requires Standing(h, t, p, c, root) && p != null
    ensures t.Branch? && t.n == p && p in h
    ensures Standing(h, Side(t, left), Child(h[p], left), Down(c, p, left, Side(t, !left)), root)
  {
    var d := Down(c, p, left, Side(t, !left));
    assert StepLinked(h, d, Child(h[p], left), Height(Side(t, left)));
    assert PathLinked(h, d, root, Child(h[p], left), Height(Side(t, left)));
  }

  /** The positions of the subtree in the whole order. */
  function From(c: Path): nat { |Before(c)| }
  function Upto(c: Path, t: Tree): nat { |Before(c)| + |Inorder(t)| }

  lemma Positions(c: Path, t: Tree)
    requires t.Branch?
    ensures var s, m := Inorder(Plug(c, t)), From(c) + |Inorder(t.l)|;
      && Upto(c, t) <= |s| && m < |s| && s[m] == t.n
      && From(Down(c, t.n, true, t.r)) == From(c) && Upto(Down(c, t.n, true, t.r), t.l) == m
      && From(Down(c, t.n, false, t.l)) == m + 1 && Upto(Down(c, t.n, false, t.l), t.r) == Upto(c, t)
  {
    PlugInorder(c, t);
  }

  /** Only the positions lo..hi can hold `key`. */
  ghost predicate Within(cmp: Compare, e: seq<Binding>, key: Ptr, lo: int, hi: int) {
    && 0 <= lo <= hi <= |e|
    && (forall j | 0 <= j < lo :: cmp(key, e[j].key) > 0)
    && (forall j | hi <= j < |e| :: cmp(key, e[j].key) < 0)
  }

  /** The state of a walk towards `key` in the tree `shape` whose bindings are `e`: the walk stands
      at `p`, and only the subtree there can hold the key. */
  ghost predicate Walking(h: Links, cmp: Compare, e: seq<Binding>, key: Ptr, shape: Tree,
                          t: Tree, p: Node?, c: Path, root: Node?)
  {
    forall k: int {:trigger Watch(k)} | Watch(k) ::
      && Standing(h, t, p, c, root) && Plug(c, t) == shape && |e| == |Inorder(shape)| && Sorted(cmp, e)
      && Within(cmp, e, key, From(c), Upto(c, t))
  }

  /** As `Unfold`, for `Walking`. */
  predicate Watch(k: int) { true }

  lemma WalkingHas(h: Links, cmp: Compare, e: seq<Binding>, key: Ptr, shape: Tree,
                   t: Tree, p: Node?, c: Path, root: Node?)
    requires Walking(h, cmp, e, key, shape, t, p, c, root)
    ensures Standing(h, t, p, c, root) && Plug(c, t) == shape && |e| == |Inorder(shape)| && Sorted(cmp, e)
    ensures Within(cmp, e, key, From(c), Upto(c, t))
  {
    assert Watch(0);
  }

  lemma AtLeaf(h: Links, cmp: Compare, e: seq<Binding>, key: Ptr, shape: Tree, t: Tree, c: Path, root: Node?)
    requires Walking(h, cmp, e, key, shape, t, null, c, root)
    ensures t == Leaf && Upto(c, t) == From(c)
  {
    WalkingHas(h, cmp, e, key, shape, t, null, c, root);
  }

  /** One step of the walk, on the side of the key. */
  lemma Walked(h: Links, cmp: Compare, e: seq<Binding>, key: Ptr, shape: Tree,
               t: Tree, p: Node?, c: Path, root: Node?) returns (m: nat)
    requires TotalOrder(cmp) && Walking(h, cmp, e, key, shape, t, p, c, root) && p != null
    ensures t.Branch? && t.n == p && p in h && m < |e| == |Inorder(shape)| && Inorder(shape)[m] == p
    ensures cmp(key, e[m].key) < 0 ==>
      && Walking(h, cmp, e, key, shape, t.l, h[p].left, Down(c, p, true, t.r), root)
      && From(Down(c, p, true, t.r)) == From(c) && Upto(Down(c, p, true, t.r), t.l) == m
    ensures cmp(key, e[m].key) > 0 ==>
      && Walking(h, cmp, e, key, shape, t.r, h[p].right, Down(c, p, false, t.l), root)
      && From(Down(c, p, false, t.l)) == m + 1 && Upto(Down(c, p, false, t.l), t.r) == Upto(c, t)
  {
    WalkingHas(h, cmp, e, key, shape, t, p, c, root);
    Descended(h, t, p, c, root, true);
    Descended(h, t, p, c, root, false);
    Positions(c, t);
    m := From(c) + |Inorder(t.l)|;
    Narrowed(cmp, e, key, From(c), m, Upto(c, t));
  }

  lemma Narrowed(cmp: Compare, e: seq<Binding>, key: Ptr, lo: int, m: int, hi: int)
    requires TotalOrder(cmp) && Sorted(cmp, e) && Within(cmp, e, key, lo, hi) && lo <= m < hi
    ensures cmp(key, e[m].key) < 0 ==> Within(cmp, e, key, lo, m)
    ensures cmp(key, e[m].key) > 0 ==> Within(cmp, e, key, m + 1, hi)
  {
    Opposites(cmp);
    forall j | 0 <= j < |e| && j != m
      ensures m < j && cmp(key, e[m].key) < 0 ==> cmp(key, e[j].key) < 0
      ensures j < m && cmp(key, e[m].key) > 0 ==> cmp(key, e[j].key) > 0
    {
      if m < j && cmp(key, e[m].key) < 0 { LessTransitive(cmp, key, e[m].key, e[j].key); }
      if j < m && cmp(key, e[m].key) > 0 { LessTransitive(cmp, e[j].key, e[m].key, key); }
    }
  }

  /** A walk of at most `height` steps is logarithmic in the size. */
  lemma FewSteps(t: Tree, steps: nat)
    requires Avl(t) && steps <= Height(t)
    ensures Pow2(steps / 2) <= |Inorder(t)| + 1
  {
    AvlHeight(t);
    Pow2Monotone(steps / 2, Height(t) / 2);
  }

  /** Where nothing is left, the key is unbound and belongs right there. */
  lemma NowhereElse(cmp: Compare, e: seq<Binding>, key: Ptr, k: nat, val: Ptr)
    requires Within(cmp, e, key, k, k)
    ensures !Bound(cmp, e, key)
    ensures Insert(cmp, e, key, val) == e[..k] + [Binding(key, val)] + e[k..]
  {
    assert e == e[..k] + e[k..];
    InsertBetween(cmp, e[..k], e[k..], key, val);
  }

  /** The tree with a leaf `n` in the hole of `c`, rearranged to `u`, against the tree without. */
  lemma Grown(c: Path, n: Node, u: Tree)
    requires PathDistinct(c) && n !in PathNodes(c) && SameOrder(Plug(c, Branch(Leaf, n, Leaf)), u)
    ensures var s, k := Inorder(Plug(c, Leaf)), From(c);
      k <= |s| && Inorder(u) == s[..k] + [n] + s[k..]
    ensures Nodes(u) == Nodes(Plug(c, Leaf)) + {n} && Distinct(u)
  {
    GrownOrder(c, n, u);
    PlugNodes(c, Leaf);
    PlugNodes(c, Branch(Leaf, n, Leaf));
    PlugDistinct(c, Branch(Leaf, n, Leaf));
  }

  lemma GrownOrder(c: Path, n: Node, u: Tree)
    requires Inorder(u) == Inorder(Plug(c, Branch(Leaf, n, Leaf)))
    ensures var s, k := Inorder(Plug(c, Leaf)), From(c);
      k <= |s| && Inorder(u) == s[..k] + [n] + s[k..]
  {
    PlugInorder(c, Leaf);
    PlugInorder(c, Branch(Leaf, n, Leaf));
    assert Inorder(Branch(Leaf, n, Leaf)) == [n] && Inorder(Leaf) == [];
  }
}
