/** The four rotations of `src/btree.c`: what they do to a tree, what they do to the links, and
    that the two agree. */
module BtreeRotate {
  import opened BtreeShape

  function Opt(n: Node?): set<Node> {
    if n == null then {} else {n}
  }

  // ----- rotating a tree

  predicate HasLeftRight(t: Tree) { t.Branch? && t.l.Branch? && t.l.r.Branch? }
  predicate HasRightLeft(t: Tree) { t.Branch? && t.r.Branch? && t.r.l.Branch? }

  function RotatedLeft(t: Tree): Tree
    requires t.Branch? && t.r.Branch?
  {
    Branch(Branch(t.l, t.n, t.r.l), t.r.n, t.r.r)
  }

  function RotatedRight(t: Tree): Tree
    requires t.Branch? && t.l.Branch?
  {
    Branch(t.l.l, t.l.n, Branch(t.l.r, t.n, t.r))
  }

  /** First the left child to the left, then the whole to the right. */
  function RotatedLeftRight(t: Tree): Tree
    requires HasLeftRight(t)
  {
    RotatedRight(Branch(RotatedLeft(t.l), t.n, t.r))
  }

  function RotatedRightLeft(t: Tree): Tree
    requires HasRightLeft(t)
  {
    RotatedLeft(Branch(t.l, t.n, RotatedRight(t.r)))
  }

  /** `u` rearranges the nodes of `t` without changing their order. */
  predicate SameOrder(t: Tree, u: Tree) {
    Inorder(u) == Inorder(t) && Nodes(u) == Nodes(t) && (Distinct(t) ==> Distinct(u))
  }

  lemma RotatedLeftSameOrder(t: Tree)
    requires t.Branch? && t.r.Branch?
    ensures SameOrder(t, RotatedLeft(t))
  {
    var a, b, c := t.l, t.r.l, t.r.r;
    assert Nodes(t) == Nodes(a) + {t.n} + (Nodes(b) + {t.r.n} + Nodes(c));
    assert Distinct(t) ==> Distinct(Branch(a, t.n, b)) && Distinct(t.r);
    assert Inorder(a) + [t.n] + (Inorder(b) + [t.r.n] + Inorder(c))
        == (Inorder(a) + [t.n] + Inorder(b)) + [t.r.n] + Inorder(c);
  }

  lemma RotatedRightSameOrder(t: Tree)
    requires t.Branch? && t.l.Branch?
    ensures SameOrder(t, RotatedRight(t))
  {
    var a, b, c := t.l.l, t.l.r, t.r;
    assert Nodes(t) == (Nodes(a) + {t.l.n} + Nodes(b)) + {t.n} + Nodes(c);
    assert Distinct(t) ==> Distinct(Branch(b, t.n, c)) && Distinct(t.l);
    assert (Inorder(a) + [t.l.n] + Inorder(b)) + [t.n] + Inorder(c)
        == Inorder(a) + [t.l.n] + (Inorder(b) + [t.n] + Inorder(c));
  }

  lemma RotatedLeftRightSameOrder(t: Tree)
    requires HasLeftRight(t)
    ensures SameOrder(t, RotatedLeftRight(t))
  {
    RotatedLeftSameOrder(t.l);
    RotatedRightSameOrder(Branch(RotatedLeft(t.l), t.n, t.r));
  }

  lemma RotatedRightLeftSameOrder(t: Tree)
    requires HasRightLeft(t)
    ensures SameOrder(t, RotatedRightLeft(t))
  {
    RotatedRightSameOrder(t.r);
    RotatedLeftSameOrder(Branch(t.l, t.n, RotatedRight(t.r)));
  }

  /** Each rotation turns its kind of off-by-two tree into an AVL tree one lower, which is the
      height the tree had before the insertion. */
  lemma RotatedLeftLowers(t: Tree)
    requires t.Branch? && t.r.Branch? && Avl(t.l) && Avl(t.r)
    requires Height(t.r) == Height(t.l) + 2 && Height(t.r.r) == Height(t.r.l) + 1
    ensures Avl(RotatedLeft(t)) && Height(RotatedLeft(t)) == Height(t) - 1
  {
  }

  lemma RotatedRightLowers(t: Tree)
    requires t.Branch? && t.l.Branch? && Avl(t.l) && Avl(t.r)
    requires Height(t.l) == Height(t.r) + 2 && Height(t.l.l) == Height(t.l.r) + 1
    ensures Avl(RotatedRight(t)) && Height(RotatedRight(t)) == Height(t) - 1
  {
  }

  lemma RotatedLeftRightLowers(t: Tree)
    requires HasLeftRight(t) && Avl(t.l) && Avl(t.r)
    requires Height(t.l) == Height(t.r) + 2 && Height(t.l.r) == Height(t.l.l) + 1
    ensures Avl(RotatedLeftRight(t)) && Height(RotatedLeftRight(t)) == Height(t) - 1
  {
    assert Avl(t.l.r);
    assert Avl(Branch(t.l.l, t.l.n, t.l.r.l)) && Avl(Branch(t.l.r.r, t.n, t.r));
  }

  lemma RotatedRightLeftLowers(t: Tree)
    requires HasRightLeft(t) && Avl(t.l) && Avl(t.r)
    requires Height(t.r) == Height(t.l) + 2 && Height(t.r.l) == Height(t.r.r) + 1
    ensures Avl(RotatedRightLeft(t)) && Height(RotatedRightLeft(t)) == Height(t) - 1
  {
    assert Avl(t.r.l);
    assert Avl(Branch(t.l, t.n, t.r.l.l)) && Avl(Branch(t.r.l.r, t.r.n, t.r.r));
  }

  // ----- a tree that hangs at the end of a path

  /** The subtree `t` at `p` hangs at the end of the path `c`; no node occurs twice; below and above
      `p` everything is balanced, where the path still counts on a subtree of height `k`. */
  predicate HangsAt(h: Links, t: Tree, p: Node?, c: Path, root: Node?, k: nat) {
    && Linked(h, t, p, Parent(c)) && PathLinked(h, c, root, p, k)
    && Distinct(t) && PathDistinct(c) && Nodes(t) !! PathNodes(c)
  }

  /** One subtree of `t` is two higher than the other, the fault an insertion can cause. */
  predicate OffByTwo(t: Tree) {
    t.Branch? && Avl(t.l) && Avl(t.r) && (Height(t.r) - Height(t.l) == 2 || Height(t.r) - Height(t.l) == -2)
  }

  /** Where the root pointer belongs once `m` hangs at the end of `c`. */
  function NewRoot(c: Path, root: Node?, m: Node): Node? {
    if c.Top? then m else root
  }

  lemma RootIn(h: Links, t: Tree, p: Node?, par: Node?)
    requires Linked(h, t, p, par)
    ensures p == null <==> t.Leaf?
    ensures p != null ==> t.n == p && p in h && p in Nodes(t)
  {
  }

  /** A subtree given a new parent stays linked. */
  lemma Adopted(h: Links, g: Links, w: set<Node>, t: Tree, b: Node?, par: Node?, par': Node?)
    requires Linked(h, t, b, par) && Distinct(t) && SameExcept(h, g, w) && Nodes(t) - Opt(b) !! w
    requires b != null && b in h ==> g[b] == h[b].(parent := par')
    ensures Linked(g, t, b, par')
  {
    if t.Branch? {
      LinkedFrame(h, g, w, t.l, h[b].left, b);
      LinkedFrame(h, g, w, t.r, h[b].right, b);
    }
  }

  /** The path whose hole is given a new node stays linked. */
  lemma Rehung(h: Links, g: Links, w: set<Node>, c: Path, root: Node?, p: Node?, m: Node, k: nat)
    requires PathLinked(h, c, root, p, k) && PathDistinct(c)
    requires SameExcept(h, g, w) && PathNodes(c) - Opt(Parent(c)) !! w
    requires c.Down? && c.p in h ==> g[c.p] == if c.left then h[c.p].(left := m) else h[c.p].(right := m)
    ensures PathLinked(g, c, NewRoot(c, root, m), m, k)
  {
    if c.Down? {
      StepRehung(h, g, w, c, p, m, k);
      PathLinkedFrame(h, g, w, c.up, root, c.p, 1 + Max(k, Height(c.sibling)));
    }
  }

  lemma StepRehung(h: Links, g: Links, w: set<Node>, c: Path, p: Node?, m: Node, k: nat)
    requires c.Down? && StepLinked(h, c, p, k) && SameExcept(h, g, w) && Nodes(c.sibling) !! w
    requires g[c.p] == if c.left then h[c.p].(left := m) else h[c.p].(right := m)
    ensures StepLinked(g, c, m, k)
  {
    LinkedFrame(h, g, w, c.sibling, Child(h[c.p], !c.left), c.p);
  }

  /** Which child of its parent `p` is can be told by comparing with the left child. */
  lemma WhichChild(h: Links, c: Path, root: Node?, p: Node, k: nat)
    requires PathLinked(h, c, root, p, k) && PathDistinct(c) && p !in PathNodes(c)
    ensures c.Down? ==> c.p in h && (h[c.p].left == p <==> c.left)
  {
    if c.Down? { RootIn(h, c.sibling, Child(h[c.p], !c.left), c.p); }
  }

  // ----- rotating the links

  /** A parent cell whose child `p` is replaced by `m`. */
  function Swung(x: Cell, p: Node, m: Node): Cell {
    if x.left == p then x.(left := m) else x.(right := m)
  }

  predicate CanRotateLeft(h: Links, p: Node) {
    p in h && h[p].right != null && h[p].right in h && h[p].balance == 2 && h[h[p].right].balance == 1
  }

  /** What a left rotation at `p` does to the links `h`. */
  predicate RotatesLeft(h: Links, g: Links, p: Node)
    requires CanRotateLeft(h, p)
  {
    var R, n := h[p].parent, h[p].right;
    var b := h[n].left;
    && SameExcept(h, g, {p, n} + Opt(b) + Opt(R))
    && g[p] == Cell(h[p].left, b, n, 0)
    && g[n] == Cell(p, h[n].right, R, 0)
    && (b != null && b in h ==> g[b] == h[b].(parent := p))
    && (R != null && R in h ==> g[R] == Swung(h[R], p, n))
  }

  lemma RotateLeftLinked(h: Links, g: Links, t: Tree, p: Node, c: Path, root: Node?, k: nat)
    requires t.Branch? && HangsAt(h, t, p, c, root, k) && CanRotateLeft(h, p) && RotatesLeft(h, g, p)
    requires Height(t.r) == Height(t.l) + 2
    ensures t.r.Branch? && Linked(g, RotatedLeft(t), t.r.n, Parent(c))
  {
    var n: Node := h[p].right;
    RootIn(h, t.r, n, p);
    RootIn(h, t.r.l, h[n].left, n);
    var w: set<Node> := {p, n} + Opt(h[n].left) + Opt(h[p].parent);
    assert Distinct(t.r);
    LinkedFrame(h, g, w, t.l, h[p].left, p);
    LinkedFrame(h, g, w, t.r.r, h[n].right, n);
    Adopted(h, g, w, t.r.l, h[n].left, n, p);
    assert Linked(g, Branch(t.l, p, t.r.l), p, n);
  }

  lemma RotateLeftPath(h: Links, g: Links, t: Tree, p: Node, c: Path, root: Node?, k: nat)
    requires t.Branch? && HangsAt(h, t, p, c, root, k) && CanRotateLeft(h, p) && RotatesLeft(h, g, p)
    ensures t.r.Branch? && PathLinked(g, c, NewRoot(c, root, t.r.n), t.r.n, k)
  {
    var n: Node := h[p].right;
    RootIn(h, t.r, n, p);
    RootIn(h, t.r.l, h[n].left, n);
    var w: set<Node> := {p, n} + Opt(h[n].left) + Opt(h[p].parent);
    WhichChild(h, c, root, p, k);
    Rehung(h, g, w, c, root, p, n, k);
  }

  lemma RotateLeftHangs(h: Links, g: Links, t: Tree, p: Node, c: Path, root: Node?)
    requires OffByTwo(t) && HangsAt(h, t, p, c, root, Height(t) - 1) && CanRotateLeft(h, p) && RotatesLeft(h, g, p)
    ensures t.r.Branch? && Avl(RotatedLeft(t)) && Height(RotatedLeft(t)) == Height(t) - 1
    ensures var u := RotatedLeft(t);
      HangsAt(g, u, u.n, c, NewRoot(c, root, u.n), Height(u))
  {
    RotateLeftLinked(h, g, t, p, c, root, Height(t) - 1);
    RotateLeftPath(h, g, t, p, c, root, Height(t) - 1);
    RotatedLeftSameOrder(t);
    RotatedLeftLowers(t);
  }

  // ----- to the right

  predicate CanRotateRight(h: Links, p: Node) {
    p in h && h[p].left != null && h[p].left in h && h[p].balance == -2 && h[h[p].left].balance == -1
  }

  /** What a right rotation at `p` does to the links `h`. */
  predicate RotatesRight(h: Links, g: Links, p: Node)
    requires CanRotateRight(h, p)
  {
    var R, n := h[p].parent, h[p].left;
    var b := h[n].right;
    && SameExcept(h, g, {p, n} + Opt(b) + Opt(R))
    && g[p] == Cell(b, h[p].right, n, 0)
    && g[n] == Cell(h[n].left, p, R, 0)
    && (b != null && b in h ==> g[b] == h[b].(parent := p))
    && (R != null && R in h ==> g[R] == Swung(h[R], p, n))
  }

  lemma RotateRightLinked(h: Links, g: Links, t: Tree, p: Node, c: Path, root: Node?, k: nat)
    requires t.Branch? && HangsAt(h, t, p, c, root, k) && CanRotateRight(h, p) && RotatesRight(h, g, p)
    requires Height(t.l) == Height(t.r) + 2
    ensures t.l.Branch? && Linked(g, RotatedRight(t), t.l.n, Parent(c))
  {
    var n: Node := h[p].left;
    RootIn(h, t.l, n, p);
    RootIn(h, t.l.r, h[n].right, n);
    var w: set<Node> := {p, n} + Opt(h[n].right) + Opt(h[p].parent);
    assert Distinct(t.l);
    LinkedFrame(h, g, w, t.r, h[p].right, p);
    LinkedFrame(h, g, w, t.l.l, h[n].left, n);
    Adopted(h, g, w, t.l.r, h[n].right, n, p);
    assert Linked(g, Branch(t.l.r, p, t.r), p, n);
  }

  lemma RotateRightPath(h: Links, g: Links, t: Tree, p: Node, c: Path, root: Node?, k: nat)
    requires t.Branch? && HangsAt(h, t, p, c, root, k) && CanRotateRight(h, p) && RotatesRight(h, g, p)
    ensures t.l.Branch? && PathLinked(g, c, NewRoot(c, root, t.l.n), t.l.n, k)
  {
    var n: Node := h[p].left;
    RootIn(h, t.l, n, p);
    RootIn(h, t.l.r, h[n].right, n);
    var w: set<Node> := {p, n} + Opt(h[n].right) + Opt(h[p].parent);
    WhichChild(h, c, root, p, k);
    Rehung(h, g, w, c, root, p, n, k);
  }

  lemma RotateRightHangs(h: Links, g: Links, t: Tree, p: Node, c: Path, root: Node?)
    requires OffByTwo(t) && HangsAt(h, t, p, c, root, Height(t) - 1) && CanRotateRight(h, p) && RotatesRight(h, g, p)
    ensures t.l.Branch? && Avl(RotatedRight(t)) && Height(RotatedRight(t)) == Height(t) - 1
    ensures var u := RotatedRight(t);
      HangsAt(g, u, u.n, c, NewRoot(c, root, u.n), Height(u))
  {
    RotateRightLinked(h, g, t, p, c, root, Height(t) - 1);
    RotateRightPath(h, g, t, p, c, root, Height(t) - 1);
    RotatedRightSameOrder(t);
    RotatedRightLowers(t);
  }

  // ----- left-right

  predicate CanRotateLeftRight(h: Links, p: Node) {
    && p in h && h[p].left != null && h[p].left in h
    && h[h[p].left].right != null && h[h[p].left].right in h
    && h[p].balance == -2 && h[h[p].left].balance == 1
  }

  /** What a left-right rotation at `p` does to the links `h`; the balance factors of `p` and its
      child depend on that of the grandchild. */
  predicate RotatesLeftRight(h: Links, g: Links, p: Node)
    requires CanRotateLeftRight(h, p)
  {
    var R, n := h[p].parent, h[p].left;
    var m := h[n].right;
    var b, c := h[m].left, h[m].right;
    && SameExcept(h, g, {p, n, m} + Opt(b) + Opt(c) + Opt(R))
    && g[n] == Cell(h[n].left, b, m, if h[m].balance == 0 || h[m].balance == -1 then 0 else -1)
    && g[p] == Cell(c, h[p].right, m, if h[m].balance == -1 then 1 else 0)
    && g[m] == Cell(n, p, R, 0)
    && (b != null && b in h ==> g[b] == h[b].(parent := n))
    && (c != null && c in h ==> g[c] == h[c].(parent := p))
    && (R != null && R in h ==> g[R] == Swung(h[R], p, m))
  }

  /** The four subtrees below the three turned nodes stay linked, each to its new parent. */
  lemma RotateLeftRightSubtrees(h: Links, g: Links, t: Tree, p: Node, c: Path, root: Node?, k: nat)
    requires t.Branch? && HangsAt(h, t, p, c, root, k) && CanRotateLeftRight(h, p) && RotatesLeftRight(h, g, p)
    ensures HasLeftRight(t) && t.n == p && t.l.n == h[p].left && t.l.r.n == h[t.l.n].right
    ensures p != t.l.n && t.l.n != t.l.r.n && p != t.l.r.n && t.l.r.n !in PathNodes(c)
    ensures var n, m := t.l.n, t.l.r.n;
      && Linked(g, t.l.l, h[n].left, n) && Linked(g, t.l.r.l, h[m].left, n)
      && Linked(g, t.l.r.r, h[m].right, p) && Linked(g, t.r, h[p].right, p)
  {
    var n: Node := h[p].left;
    RootIn(h, t.l, n, p);
    var m: Node := h[n].right;
    RootIn(h, t.l.r, m, n);
    RootIn(h, t.l.r.l, h[m].left, m);
    RootIn(h, t.l.r.r, h[m].right, m);
    assert Distinct(t.l) && Distinct(t.l.r);
    var w: set<Node> := {p, n, m} + Opt(h[m].left) + Opt(h[m].right) + Opt(h[p].parent);
    LinkedFrame(h, g, w, t.r, h[p].right, p);
    LinkedFrame(h, g, w, t.l.l, h[n].left, n);
    Adopted(h, g, w, t.l.r.l, h[m].left, m, n);
    Adopted(h, g, w, t.l.r.r, h[m].right, m, p);
  }

  lemma RotateLeftRightLinked(h: Links, g: Links, t: Tree, p: Node, c: Path, root: Node?, k: nat)
    requires t.Branch? && HangsAt(h, t, p, c, root, k) && CanRotateLeftRight(h, p) && RotatesLeftRight(h, g, p)
    requires Height(t.l) == Height(t.r) + 2 && Avl(t.l)
    ensures HasLeftRight(t) && Linked(g, RotatedLeftRight(t), t.l.r.n, Parent(c))
  {
    RotateLeftRightSubtrees(h, g, t, p, c, root, k);
    var n, m := t.l.n, t.l.r.n;
    RootIn(h, t.l, h[p].left, p);
    assert Linked(h, t.l.r, m, n);
    assert Linked(g, Branch(t.l.l, n, t.l.r.l), n, m);
    assert Linked(g, Branch(t.l.r.r, p, t.r), p, m);
  }

  lemma RotateLeftRightPath(h: Links, g: Links, t: Tree, p: Node, c: Path, root: Node?, k: nat)
    requires t.Branch? && HangsAt(h, t, p, c, root, k) && CanRotateLeftRight(h, p) && RotatesLeftRight(h, g, p)
    ensures HasLeftRight(t) && PathLinked(g, c, NewRoot(c, root, t.l.r.n), t.l.r.n, k)
  {
    var n: Node := h[p].left;
    RootIn(h, t.l, n, p);
    var m: Node := h[n].right;
    RootIn(h, t.l.r, m, n);
    RootIn(h, t.l.r.l, h[m].left, m);
    RootIn(h, t.l.r.r, h[m].right, m);
    var w: set<Node> := {p, n, m} + Opt(h[m].left) + Opt(h[m].right) + Opt(h[p].parent);
    WhichChild(h, c, root, p, k);
    Rehung(h, g, w, c, root, p, m, k);
  }

  lemma RotateLeftRightHangs(h: Links, g: Links, t: Tree, p: Node, c: Path, root: Node?)
    requires OffByTwo(t) && HangsAt(h, t, p, c, root, Height(t) - 1)
    requires CanRotateLeftRight(h, p) && RotatesLeftRight(h, g, p)
    ensures HasLeftRight(t) && Avl(RotatedLeftRight(t)) && Height(RotatedLeftRight(t)) == Height(t) - 1
    ensures var u := RotatedLeftRight(t);
      HangsAt(g, u, u.n, c, NewRoot(c, root, u.n), Height(u))
  {
    RotateLeftRightLinked(h, g, t, p, c, root, Height(t) - 1);
    RotateLeftRightPath(h, g, t, p, c, root, Height(t) - 1);
    RotatedLeftRightSameOrder(t);
    RotatedLeftRightLowers(t);
  }

  // ----- right-left

  predicate CanRotateRightLeft(h: Links, p: Node) {
    && p in h && h[p].right != null && h[p].right in h
    && h[h[p].right].left != null && h[h[p].right].left in h
    && h[p].balance == 2 && h[h[p].right].balance == -1
  }

  /** What a right-left rotation at `p` does to the links `h`. */
  predicate RotatesRightLeft(h: Links, g: Links, p: Node)
    requires CanRotateRightLeft(h, p)
  {
    var R, n := h[p].parent, h[p].right;
    var m := h[n].left;
    var b, c := h[m].left, h[m].right;
    && SameExcept(h, g, {p, n, m} + Opt(b) + Opt(c) + Opt(R))
    && g[n] == Cell(c, h[n].right, m, if h[m].balance == -1 then 1 else 0)
    && g[p] == Cell(h[p].left, b, m, if h[m].balance == 0 || h[m].balance == -1 then 0 else -1)
    && g[m] == Cell(p, n, R, 0)
    && (b != null && b in h ==> g[b] == h[b].(parent := p))
    && (c != null && c in h ==> g[c] == h[c].(parent := n))
    && (R != null && R in h ==> g[R] == Swung(h[R], p, m))
  }

  /** The four subtrees below the three turned nodes stay linked, each to its new parent. */
  lemma RotateRightLeftSubtrees(h: Links, g: Links, t: Tree, p: Node, c: Path, root: Node?, k: nat)
    requires t.Branch? && HangsAt(h, t, p, c, root, k) && CanRotateRightLeft(h, p) && RotatesRightLeft(h, g, p)
    ensures HasRightLeft(t) && t.n == p && t.r.n == h[p].right && t.r.l.n == h[t.r.n].left
    ensures p != t.r.n && t.r.n != t.r.l.n && p != t.r.l.n && t.r.l.n !in PathNodes(c)
    ensures var n, m := t.r.n, t.r.l.n;
      && Linked(g, t.r.r, h[n].right, n) && Linked(g, t.r.l.r, h[m].right, n)
      && Linked(g, t.r.l.l, h[m].left, p) && Linked(g, t.l, h[p].left, p)
  {
    var n: Node := h[p].right;
    RootIn(h, t.r, n, p);
    var m: Node := h[n].left;
    RootIn(h, t.r.l, m, n);
    RootIn(h, t.r.l.r, h[m].right, m);
    RootIn(h, t.r.l.l, h[m].left, m);
    assert Distinct(t.r) && Distinct(t.r.l);
    var w: set<Node> := {p, n, m} + Opt(h[m].left) + Opt(h[m].right) + Opt(h[p].parent);
    LinkedFrame(h, g, w, t.l, h[p].left, p);
    LinkedFrame(h, g, w, t.r.r, h[n].right, n);
    Adopted(h, g, w, t.r.l.r, h[m].right, m, n);
    Adopted(h, g, w, t.r.l.l, h[m].left, m, p);
  }

  lemma RotateRightLeftLinked(h: Links, g: Links, t: Tree, p: Node, c: Path, root: Node?, k: nat)
    requires t.Branch? && HangsAt(h, t, p, c, root, k) && CanRotateRightLeft(h, p) && RotatesRightLeft(h, g, p)
    requires Height(t.r) == Height(t.l) + 2 && Avl(t.r)
    ensures HasRightLeft(t) && Linked(g, RotatedRightLeft(t), t.r.l.n, Parent(c))
  {
    RotateRightLeftSubtrees(h, g, t, p, c, root, k);
    var n, m := t.r.n, t.r.l.n;
    RootIn(h, t.r, h[p].right, p);
    assert Linked(h, t.r.l, m, n);
    assert Linked(g, Branch(t.r.l.r, n, t.r.r), n, m);
    assert Linked(g, Branch(t.l, p, t.r.l.l), p, m);
  }

  lemma RotateRightLeftPath(h: Links, g: Links, t: Tree, p: Node, c: Path, root: Node?, k: nat)
    requires t.Branch? && HangsAt(h, t, p, c, root, k) && CanRotateRightLeft(h, p) && RotatesRightLeft(h, g, p)
    ensures HasRightLeft(t) && PathLinked(g, c, NewRoot(c, root, t.r.l.n), t.r.l.n, k)
  {
    var n: Node := h[p].right;
    RootIn(h, t.r, n, p);
    var m: Node := h[n].left;
    RootIn(h, t.r.l, m, n);
    RootIn(h, t.r.l.r, h[m].right, m);
    RootIn(h, t.r.l.l, h[m].left, m);
    var w: set<Node> := {p, n, m} + Opt(h[m].left) + Opt(h[m].right) + Opt(h[p].parent);
    WhichChild(h, c, root, p, k);
    Rehung(h, g, w, c, root, p, m, k);
  }

  lemma RotateRightLeftHangs(h: Links, g: Links, t: Tree, p: Node, c: Path, root: Node?)
    requires OffByTwo(t) && HangsAt(h, t, p, c, root, Height(t) - 1)
    requires CanRotateRightLeft(h, p) && RotatesRightLeft(h, g, p)
    ensures HasRightLeft(t) && Avl(RotatedRightLeft(t)) && Height(RotatedRightLeft(t)) == Height(t) - 1
    ensures var u := RotatedRightLeft(t);
      HangsAt(g, u, u.n, c, NewRoot(c, root, u.n), Height(u))
  {
    RotateRightLeftLinked(h, g, t, p, c, root, Height(t) - 1);
    RotateRightLeftPath(h, g, t, p, c, root, Height(t) - 1);
    RotatedRightLeftSameOrder(t);
    RotatedRightLeftLowers(t);
  }

  // ----- the rotations as the code performs them

  ghost function CellOf(n: Node): Cell
    reads n
  {
    Cell(n.left, n.right, n.parent, n.balance)
  }

  function IsLeftChild(p: Node?, n: Node?): bool
    reads p
  {
    p != null && n != null && p.left == n
  }

  /** `x`, when there is one, is none of the nodes of `w`. */
  predicate Outside(x: Node?, w: set<Node>) {
    x != null ==> x !in w
  }

  // ----- the left rotation

  /** The pointers of the left rotation at `p`, after its guards. */
  method TurnLeft(p: Node) returns (n: Node)
    requires p.right != null && p.balance == 2 && p.right.balance == 1
    requires p.right != p && Outside(p.right.left, {p, p.right})
    requires Outside(p.parent, {p, p.right} + Opt(p.right.left))
    modifies p`right, p`parent, p`balance, p.right`left, p.right`parent, p.right`balance
    modifies Opt(p.right.left)`parent, Opt(p.parent)`left, Opt(p.parent)`right
    ensures n == old(p.right)
    ensures CellOf(p) == old(Cell(p.left, n.left, n, 0)) && CellOf(n) == old(Cell(p, n.right, p.parent, 0))
    ensures old(n.left) != null ==> CellOf(old(n.left)) == old(CellOf(n.left)).(parent := p)
    ensures old(p.parent) != null ==> CellOf(old(p.parent)) == Swung(old(CellOf(p.parent)), p, n)
  {
    var R := p.parent;
    var left := IsLeftChild(R, p);
    n := p.right;
    var b := n.left;

    p.right := b;
    if b != null { b.parent := p; }
    n.left := p;
    p.parent := n;
    if R != null {
      if left { R.left := n; } else { R.right := n; }
      n.parent := R;
    } else {
      n.parent := null;
    }
    n.balance := 0;
    p.balance := 0;
  }

  /** The nodes that the left rotation at `p` links anew are different ones. */
  predicate LeftApart(h: Links, p: Node)
    requires CanRotateLeft(h, p)
  {
    var R, n := h[p].parent, h[p].right;
    var b := h[n].left;
    n != p && Outside(b, {p, n}) && Outside(R, {p, n} + Opt(b)) && Opt(b) <= h.Keys && Opt(R) <= h.Keys
  }

  lemma LeftSite(h: Links, t: Tree, p: Node, c: Path, root: Node?, k: nat)
    requires t.Branch? && HangsAt(h, t, p, c, root, k) && CanRotateLeft(h, p)
    ensures t.r.Branch? && h[p].right == t.r.n
    ensures LeftApart(h, p)
  {
    var n: Node := h[p].right;
    RootIn(h, t.r, n, p);
    RootIn(h, t.r.l, h[n].left, n);
    assert Distinct(t.r);
  }

  /** The left rotation at `p`: nothing happens when a guard fails. */
  method RotateLeft(p: Node, ghost s: set<Node>) returns (n: Node)
    requires p in s && Opt(p.right) <= s
    requires CanRotateLeft(Snap(s), p) ==> LeftApart(Snap(s), p)
    modifies s`left, s`right, s`parent, s`balance
    ensures !old(CanRotateLeft(Snap(s), p)) ==> n == p && Snap(s) == old(Snap(s))
    ensures old(CanRotateLeft(Snap(s), p)) ==>
      n == old(p.right) && RotatesLeft(old(Snap(s)), Snap(s), p)
  {
    if p.right == null || p.balance != 2 || p.right.balance != 1 {
      return p;
    }
    n := TurnLeft(p);
  }

  method RotateLeftAt(p: Node, ghost s: set<Node>, ghost t: Tree, ghost c: Path, ghost root: Node?)
    returns (n: Node)
    requires OffByTwo(t) && HangsAt(Snap(s), t, p, c, root, Height(t) - 1) && CanRotateLeft(Snap(s), p)
    modifies s`left, s`right, s`parent, s`balance
    ensures t.r.Branch? && n == t.r.n
    ensures HangsAt(Snap(s), RotatedLeft(t), n, c, NewRoot(c, root, n), Height(RotatedLeft(t)))
  {
    ghost var h := Snap(s);
    LeftSite(h, t, p, c, root, Height(t) - 1);
    n := RotateLeft(p, s);
    RotateLeftHangs(h, Snap(s), t, p, c, root);
  }

  // ----- the right rotation

  /** The pointers of the right rotation at `p`, after its guards. */
  method TurnRight(p: Node) returns (n: Node)
    requires p.left != null && p.balance == -2 && p.left.balance == -1
    requires p.left != p && Outside(p.left.right, {p, p.left})
    requires Outside(p.parent, {p, p.left} + Opt(p.left.right))
    modifies p`left, p`parent, p`balance, p.left`right, p.left`parent, p.left`balance
    modifies Opt(p.left.right)`parent, Opt(p.parent)`left, Opt(p.parent)`right
    ensures n == old(p.left)
    ensures CellOf(p) == old(Cell(n.right, p.right, n, 0)) && CellOf(n) == old(Cell(n.left, p, p.parent, 0))
    ensures old(n.right) != null ==> CellOf(old(n.right)) == old(CellOf(n.right)).(parent := p)
    ensures old(p.parent) != null ==> CellOf(old(p.parent)) == Swung(old(CellOf(p.parent)), p, n)
  {
    var R := p.parent;
    var left := IsLeftChild(R, p);
    n := p.left;
    var b := n.right;

    p.left := b;
    if b != null { b.parent := p; }
    n.right := p;
    p.parent := n;
    if R != null {
      if left { R.left := n; } else { R.right := n; }
      n.parent := R;
    } else {
      n.parent := null;
    }
    n.balance := 0;
    p.balance := 0;
  }

  /** The nodes that the right rotation at `p` links anew are different ones. */
  predicate RightApart(h: Links, p: Node)
    requires CanRotateRight(h, p)
  {
    var R, n := h[p].parent, h[p].left;
    var b := h[n].right;
    n != p && Outside(b, {p, n}) && Outside(R, {p, n} + Opt(b)) && Opt(b) <= h.Keys && Opt(R) <= h.Keys
  }

  lemma RightSite(h: Links, t: Tree, p: Node, c: Path, root: Node?, k: nat)
    requires t.Branch? && HangsAt(h, t, p, c, root, k) && CanRotateRight(h, p)
    ensures t.l.Branch? && h[p].left == t.l.n
    ensures RightApart(h, p)
  {
    var n: Node := h[p].left;
    RootIn(h, t.l, n, p);
    RootIn(h, t.l.r, h[n].right, n);
    assert Distinct(t.l);
  }

  /** The right rotation at `p`: nothing happens when a guard fails. */
  method RotateRight(p: Node, ghost s: set<Node>) returns (n: Node)
    requires p in s && Opt(p.left) <= s
    requires CanRotateRight(Snap(s), p) ==> RightApart(Snap(s), p)
    modifies s`left, s`right, s`parent, s`balance
    ensures !old(CanRotateRight(Snap(s), p)) ==> n == p && Snap(s) == old(Snap(s))
    ensures old(CanRotateRight(Snap(s), p)) ==>
      n == old(p.left) && RotatesRight(old(Snap(s)), Snap(s), p)
  {
    if p.left == null || p.balance != -2 || p.left.balance != -1 {
      return p;
    }
    n := TurnRight(p);
  }

  method RotateRightAt(p: Node, ghost s: set<Node>, ghost t: Tree, ghost c: Path, ghost root: Node?)
    returns (n: Node)
    requires OffByTwo(t) && HangsAt(Snap(s), t, p, c, root, Height(t) - 1) && CanRotateRight(Snap(s), p)
    modifies s`left, s`right, s`parent, s`balance
    ensures t.l.Branch? && n == t.l.n
    ensures HangsAt(Snap(s), RotatedRight(t), n, c, NewRoot(c, root, n), Height(RotatedRight(t)))
  {
    ghost var h := Snap(s);
    RightSite(h, t, p, c, root, Height(t) - 1);
    n := RotateRight(p, s);
    RotateRightHangs(h, Snap(s), t, p, c, root);
  }

  // ----- the double rotations

  /** The table of the double rotations: the factors of the node that goes to the left of `g` and of
      the one that goes to its right depend on that of `g`. */
  method StoreFactors(l: Node, r: Node, g: Node)
    requires l != r && l != g && r != g
    modifies l`balance, r`balance, g`balance
    ensures l.balance == (if old(g.balance) == 0 || old(g.balance) == -1 then 0 else -1)
    ensures r.balance == (if old(g.balance) == -1 then 1 else 0)
    ensures g.balance == 0
  {
    if g.balance == 0 {
      l.balance := 0;
      r.balance := 0;
    } else if g.balance == -1 {
      l.balance := 0;
      r.balance := 1;
    } else {
      l.balance := -1;
      r.balance := 0;
    }
    g.balance := 0;
  }

  // ----- the left-right rotation

  /** The pointers of the left-right rotation at `p`, after its guards. */
  method TurnLeftRight(p: Node) returns (g: Node)
    requires p.left != null && p.left.right != null && p.balance == -2 && p.left.balance == 1
    requires p.left != p && p.left.right !in {p, p.left}
    requires Outside(p.left.right.left, {p, p.left, p.left.right})
    requires Outside(p.left.right.right, {p, p.left, p.left.right} + Opt(p.left.right.left))
    requires Outside(p.parent, {p, p.left, p.left.right} + Opt(p.left.right.left) + Opt(p.left.right.right))
    modifies {p, p.left, p.left.right}`left, {p, p.left, p.left.right}`right
    modifies {p, p.left, p.left.right}`parent, {p, p.left, p.left.right}`balance
    modifies Opt(p.left.right.left)`parent, Opt(p.left.right.right)`parent, Opt(p.parent)`left, Opt(p.parent)`right
    ensures g == old(p.left.right)
    ensures CellOf(old(p.left)) ==
      old(Cell(p.left.left, g.left, g, if g.balance == 0 || g.balance == -1 then 0 else -1))
    ensures CellOf(p) == old(Cell(g.right, p.right, g, if g.balance == -1 then 1 else 0))
    ensures CellOf(g) == old(Cell(p.left, p, p.parent, 0))
    ensures old(g.left) != null ==> CellOf(old(g.left)) == old(CellOf(g.left)).(parent := old(p.left))
    ensures old(g.right) != null ==> CellOf(old(g.right)) == old(CellOf(g.right)).(parent := p)
    ensures old(p.parent) != null ==> CellOf(old(p.parent)) == Swung(old(CellOf(p.parent)), p, g)
  {
    var R := p.parent;
    var left := IsLeftChild(R, p);
    var n := p.left;
    g := n.right;
    var b := g.left;
    var c := g.right;

    n.right := b;
    if b != null { b.parent := n; }
    p.left := c;
    if c != null { c.parent := p; }
    g.left := n;
    n.parent := g;
    g.right := p;
    p.parent := g;
    if R != null {
      if left { R.left := g; } else { R.right := g; }
      g.parent := R;
    } else {
      g.parent := null;
    }
    StoreFactors(n, p, g);
  }

  /** The nodes that the left-right rotation at `p` links anew are different ones. */
  predicate LeftRightApart(h: Links, p: Node)
    requires CanRotateLeftRight(h, p)
  {
    var R, n := h[p].parent, h[p].left;
    var m := h[n].right;
    var x, y := h[m].left, h[m].right;
    && n != p && m !in {p, n} && Outside(x, {p, n, m}) && Outside(y, {p, n, m} + Opt(x))
    && Outside(R, {p, n, m} + Opt(x) + Opt(y))
    && Opt(x) <= h.Keys && Opt(y) <= h.Keys && Opt(R) <= h.Keys
  }

  lemma LeftRightSite(h: Links, t: Tree, p: Node, c: Path, root: Node?, k: nat)
    requires t.Branch? && HangsAt(h, t, p, c, root, k) && CanRotateLeftRight(h, p)
    ensures HasLeftRight(t) && h[h[p].left].right == t.l.r.n
    ensures LeftRightApart(h, p)
  {
    var n: Node := h[p].left;
    RootIn(h, t.l, n, p);
    var m: Node := h[n].right;
    RootIn(h, t.l.r, m, n);
    RootIn(h, t.l.r.l, h[m].left, m);
    RootIn(h, t.l.r.r, h[m].right, m);
    assert Distinct(t.l) && Distinct(t.l.r);
  }

  /** The left-right rotation at `p`: nothing happens when a guard fails. */
  method RotateLeftRight(p: Node, ghost s: set<Node>) returns (g: Node)
    requires p in s && Opt(p.left) <= s && (p.left != null ==> Opt(p.left.right) <= s)
    requires CanRotateLeftRight(Snap(s), p) ==> LeftRightApart(Snap(s), p)
    modifies s`left, s`right, s`parent, s`balance
    ensures !old(CanRotateLeftRight(Snap(s), p)) ==> g == p && Snap(s) == old(Snap(s))
    ensures old(CanRotateLeftRight(Snap(s), p)) ==>
      g == old(p.left.right) && RotatesLeftRight(old(Snap(s)), Snap(s), p)
  {
    if p.left == null || p.left.right == null || p.balance != -2 || p.left.balance != 1 {
      return p;
    }
    g := TurnLeftRight(p);
  }

  method RotateLeftRightAt(p: Node, ghost s: set<Node>, ghost t: Tree, ghost c: Path, ghost root: Node?)
    returns (g: Node)
    requires OffByTwo(t) && HangsAt(Snap(s), t, p, c, root, Height(t) - 1) && CanRotateLeftRight(Snap(s), p)
    modifies s`left, s`right, s`parent, s`balance
    ensures HasLeftRight(t) && g == t.l.r.n
    ensures HangsAt(Snap(s), RotatedLeftRight(t), g, c, NewRoot(c, root, g), Height(RotatedLeftRight(t)))
  {
    ghost var h := Snap(s);
    LeftRightSite(h, t, p, c, root, Height(t) - 1);
    g := RotateLeftRight(p, s);
    RotateLeftRightHangs(h, Snap(s), t, p, c, root);
  }

  // ----- the right-left rotation

  /** The pointers of the right-left rotation at `p`, after its guards. */
  method TurnRightLeft(p: Node) returns (g: Node)
    requires p.right != null && p.right.left != null && p.balance == 2 && p.right.balance == -1
    requires p.right != p && p.right.left !in {p, p.right}
    requires Outside(p.right.left.left, {p, p.right, p.right.left})
    requires Outside(p.right.left.right, {p, p.right, p.right.left} + Opt(p.right.left.left))
    requires Outside(p.parent, {p, p.right, p.right.left} + Opt(p.right.left.left) + Opt(p.right.left.right))
    modifies {p, p.right, p.right.left}`left, {p, p.right, p.right.left}`right
    modifies {p, p.right, p.right.left}`parent, {p, p.right, p.right.left}`balance
    modifies Opt(p.right.left.left)`parent, Opt(p.right.left.right)`parent, Opt(p.parent)`left, Opt(p.parent)`right
    ensures g == old(p.right.left)
    ensures CellOf(old(p.right)) == old(Cell(g.right, p.right.right, g, if g.balance == -1 then 1 else 0))
    ensures CellOf(p) == old(Cell(p.left, g.left, g, if g.balance == 0 || g.balance == -1 then 0 else -1))
    ensures CellOf(g) == old(Cell(p, p.right, p.parent, 0))
    ensures old(g.left) != null ==> CellOf(old(g.left)) == old(CellOf(g.left)).(parent := p)
    ensures old(g.right) != null ==> CellOf(old(g.right)) == old(CellOf(g.right)).(parent := old(p.right))
    ensures old(p.parent) != null ==> CellOf(old(p.parent)) == Swung(old(CellOf(p.parent)), p, g)
  {
    var R := p.parent;
    var left := IsLeftChild(R, p);
    var n := p.right;
    g := n.left;
    var b := g.left;
    var c := g.right;

    p.right := b;
    if b != null { b.parent := p; }
    n.left := c;
    if c != null { c.parent := n; }
    g.left := p;
    p.parent := g;
    g.right := n;
    n.parent := g;
    if R != null {
      if left { R.left := g; } else { R.right := g; }
      g.parent := R;
    } else {
      g.parent := null;
    }
    StoreFactors(p, n, g);
  }

  /** The nodes that the right-left rotation at `p` links anew are different ones. */
  predicate RightLeftApart(h: Links, p: Node)
    requires CanRotateRightLeft(h, p)
  {
    var R, n := h[p].parent, h[p].right;
    var m := h[n].left;
    var x, y := h[m].left, h[m].right;
    && n != p && m !in {p, n} && Outside(x, {p, n, m}) && Outside(y, {p, n, m} + Opt(x))
    && Outside(R, {p, n, m} + Opt(x) + Opt(y))
    && Opt(x) <= h.Keys && Opt(y) <= h.Keys && Opt(R) <= h.Keys
  }

  lemma RightLeftSite(h: Links, t: Tree, p: Node, c: Path, root: Node?, k: nat)
    requires t.Branch? && HangsAt(h, t, p, c, root, k) && CanRotateRightLeft(h, p)
    ensures HasRightLeft(t) && h[h[p].right].left == t.r.l.n
    ensures RightLeftApart(h, p)
  {
    var n: Node := h[p].right;
    RootIn(h, t.r, n, p);
    var m: Node := h[n].left;
    RootIn(h, t.r.l, m, n);
    RootIn(h, t.r.l.l, h[m].left, m);
    RootIn(h, t.r.l.r, h[m].right, m);
    assert Distinct(t.r) && Distinct(t.r.l);
  }

  /** The right-left rotation at `p`: nothing happens when a guard fails. */
  method RotateRightLeft(p: Node, ghost s: set<Node>) returns (g: Node)
    requires p in s && Opt(p.right) <= s && (p.right != null ==> Opt(p.right.left) <= s)
    requires CanRotateRightLeft(Snap(s), p) ==> RightLeftApart(Snap(s), p)
    modifies s`left, s`right, s`parent, s`balance
    ensures !old(CanRotateRightLeft(Snap(s), p)) ==> g == p && Snap(s) == old(Snap(s))
    ensures old(CanRotateRightLeft(Snap(s), p)) ==>
      g == old(p.right.left) && RotatesRightLeft(old(Snap(s)), Snap(s), p)
  {
    if p.right == null || p.right.left == null || p.balance != 2 || p.right.balance != -1 {
      return p;
    }
    g := TurnRightLeft(p);
  }

  method RotateRightLeftAt(p: Node, ghost s: set<Node>, ghost t: Tree, ghost c: Path, ghost root: Node?)
    returns (g: Node)
    requires OffByTwo(t) && HangsAt(Snap(s), t, p, c, root, Height(t) - 1) && CanRotateRightLeft(Snap(s), p)
    modifies s`left, s`right, s`parent, s`balance
    ensures HasRightLeft(t) && g == t.r.l.n
    ensures HangsAt(Snap(s), RotatedRightLeft(t), g, c, NewRoot(c, root, g), Height(RotatedRightLeft(t)))
  {
    ghost var h := Snap(s);
    RightLeftSite(h, t, p, c, root, Height(t) - 1);
    g := RotateRightLeft(p, s);
    RotateRightLeftHangs(h, Snap(s), t, p, c, root);
  }
}
