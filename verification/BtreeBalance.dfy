/** `bt_balance_tree` of `src/btree.c`: the climb from a fresh leaf that makes the tree balanced. */
module BtreeBalance {
  import opened BtreeShape
  import opened BtreeRotate

  /** The balance factor of the last node of the path when its hole holds `t`. */
  function Factor(c: Path, t: Tree): int
    requires c.Down?
  {
    if c.left then Height(c.sibling) - Height(t) else Height(t) - Height(c.sibling)
  }

  /** Storing the true balance factor at the parent moves the fault one step up the path. */
  lemma Retuned(h: Links, g: Links, t: Tree, n: Node, c: Path, root: Node?, k: nat)
    requires c.Down? && HangsAt(h, t, n, c, root, k) && SameExcept(h, g, {c.p})
    requires c.p in h ==> g[c.p] == h[c.p].(balance := Factor(c, t))
    ensures c.p in h && HangsAt(g, Joined(c, t), c.p, c.up, root, 1 + Max(k, Height(c.sibling)))
  {
    LinkedFrame(h, g, {c.p}, t, n, c.p);
    LinkedFrame(h, g, {c.p}, c.sibling, Child(h[c.p], !c.left), c.p);
    PathLinkedFrame(h, g, {c.p}, c.up, root, c.p, 1 + Max(k, Height(c.sibling)));
  }

  /** The state of the climb: the subtree `t` at `n` is balanced and one higher than the rest of
      the tree, above it, counts on. */
  predicate Climbing(h: Links, t: Tree, n: Node, c: Path, root: Node?) {
    t.Branch? && Avl(t) && HangsAt(h, t, n, c, root, Height(t) - 1) &&
    n in h && (Height(t) == 1 || h[n].balance != 0)
  }

  /** Which side the climb comes from can be told by comparing with the left child. */
  lemma ClimbSide(h: Links, t: Tree, n: Node, c: Path, root: Node?)
    requires Climbing(h, t, n, c, root)
    ensures c.Down? ==> c.p in h && (h[c.p].left == n <==> c.left)
  {
    WhichChild(h, c, root, n, Height(t) - 1);
  }

  /** Case 1: the parent was even, so it is one higher now. */
  lemma ClimbEven(h: Links, g: Links, t: Tree, n: Node, c: Path, root: Node?)
    requires Climbing(h, t, n, c, root) && c.Down? && c.p in h && h[c.p].balance == 0
    requires SameExcept(h, g, {c.p}) && g[c.p] == h[c.p].(balance := if c.left then -1 else 1)
    ensures Climbing(g, Joined(c, t), c.p, c.up, root)
  {
    Retuned(h, g, t, n, c, root, Height(t) - 1);
  }

  /** Case 2: the shorter subtree grew, so the whole tree is balanced again. */
  lemma ClimbShort(h: Links, g: Links, t: Tree, n: Node, c: Path, root: Node?)
    requires Climbing(h, t, n, c, root) && c.Down? && c.p in h
    requires h[c.p].balance == if c.left then 1 else -1
    requires SameExcept(h, g, {c.p}) && g[c.p] == h[c.p].(balance := 0)
    ensures Linked(g, Plug(c, t), root, null) && Avl(Plug(c, t))
  {
    Retuned(h, g, t, n, c, root, Height(t) - 1);
    PlugLinked(g, c.up, Joined(c, t), root, c.p);
  }

  /** Case 3: the taller subtree grew, which calls for a rotation. */
  lemma ClimbTall(h: Links, g: Links, t: Tree, n: Node, c: Path, root: Node?)
    requires Climbing(h, t, n, c, root) && c.Down? && c.p in h
    requires h[c.p].balance == if c.left then -1 else 1
    requires SameExcept(h, g, {c.p}) && g[c.p] == h[c.p].(balance := if c.left then -2 else 2)
    ensures var u := Joined(c, t); OffByTwo(u) && HangsAt(g, u, c.p, c.up, root, Height(u) - 1)
    ensures n in g && n == Child(g[c.p], c.left) && g[n].balance != 0
  {
    Retuned(h, g, t, n, c, root, Height(t) - 1);
    RootIn(h, t, n, Parent(c));
  }

  /** Once a subtree has the height the rest counts on, the whole tree is balanced, and holds the
      same nodes in the same order. */
  lemma ClimbDone(h: Links, t: Tree, u: Tree, m: Node, c: Path, root: Node?)
    requires HangsAt(h, u, m, c, root, Height(u)) && Avl(u) && SameOrder(t, u)
    ensures Linked(h, Plug(c, u), root, null) && Avl(Plug(c, u)) && SameOrder(Plug(c, t), Plug(c, u))
  {
    PlugLinked(h, c, u, root, m);
    PlugInorder(c, t);
    PlugInorder(c, u);
    PlugNodes(c, t);
    PlugNodes(c, u);
    PlugDistinct(c, u);
  }

  /** Below a node whose taller subtree grew there is one of four cases, and only one. */
  lemma OneRotationFits(h: Links, t: Tree, p: Node, par: Node?)
    requires OffByTwo(t) && Linked(h, t, p, par)
    requires t.l.Branch? && Height(t.l) > Height(t.r) ==> Height(t.l.l) != Height(t.l.r)
    requires t.r.Branch? && Height(t.r) > Height(t.l) ==> Height(t.r.l) != Height(t.r.r)
    ensures var a, b := CanRotateLeft(h, p), CanRotateRight(h, p);
      var c, d := CanRotateLeftRight(h, p), CanRotateRightLeft(h, p);
      (a && !b && !c && !d) || (!a && b && !c && !d) || (!a && !b && c && !d) || (!a && !b && !c && d)
  {
    RootIn(h, t.l, h[p].left, p);
    RootIn(h, t.r, h[p].right, p);
    if Height(t.l) > Height(t.r) {
      RootIn(h, t.l.r, h[t.l.n].right, t.l.n);
    } else {
      RootIn(h, t.r.l, h[t.r.n].left, t.r.n);
    }
  }

  /** Case 3 of the climb: the rotation that fits. */
  method Rotate(p: Node, n: Node, ghost s: set<Node>, ghost t: Tree, ghost c: Path, ghost root: Node?)
    returns (m: Node, ghost u: Tree)
    requires OffByTwo(t) && HangsAt(Snap(s), t, p, c, root, Height(t) - 1)
    requires p in s && n in s && n == (if p.balance < 0 then p.left else p.right) && n.balance != 0
    modifies s`left, s`right, s`parent, s`balance
    ensures SameOrder(t, u) && Avl(u) && Height(u) == Height(t) - 1
    ensures HangsAt(Snap(s), u, m, c, NewRoot(c, root, m), Height(u))
  {
    ghost var h := Snap(s);
    RootIn(h, t.l, h[p].left, p);
    RootIn(h, t.r, h[p].right, p);
    OneRotationFits(h, t, p, Parent(c));
    assert p.balance == -2 || p.balance == 2;
    assert n.balance == -1 || n.balance == 1;
    if p.balance == -2 && n.balance == -1 {
      u := RotatedRight(t);
      RotatedRightSameOrder(t);
      RotatedRightLowers(t);
      m := RotateRightAt(p, s, t, c, root);
    } else if p.balance == -2 && n.balance == 1 {
      u := RotatedLeftRight(t);
      RotatedLeftRightSameOrder(t);
      RotatedLeftRightLowers(t);
      m := RotateLeftRightAt(p, s, t, c, root);
    } else if p.balance == 2 && n.balance == -1 {
      u := RotatedRightLeft(t);
      RotatedRightLeftSameOrder(t);
      RotatedRightLeftLowers(t);
      m := RotateRightLeftAt(p, s, t, c, root);
    } else {
      u := RotatedLeft(t);
      RotatedLeftSameOrder(t);
      RotatedLeftLowers(t);
      m := RotateLeftAt(p, s, t, c, root);
    }
  }
}
