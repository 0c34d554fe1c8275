/** The nodes of the threaded AVL tree of `src/btree.c`, the tree and the path that describe how
    they are linked, and snapshots of those links. */
module BtreeShape {
  import opened Sequences
  import opened Numbers

  /** A `void *`: an address, 0 being the null pointer. */
  type Ptr = nat
  const NULL: Ptr := 0

  class Node {
    var key: Ptr
    var val: Ptr
    var balance: int
    var parent: Node?
    var left: Node?
    var right: Node?
    var next: Node?
    var prev: Node?

    /** A zeroed node, as `CALLOC` hands it out. */
    constructor ()
      ensures key == NULL && val == NULL && balance == 0
      ensures parent == null && left == null && right == null && next == null && prev == null
    {
      key, val, balance := NULL, NULL, 0;
      parent, left, right, next, prev := null, null, null, null, null;
    }
  }

  // ----- trees

  /** The shape of a (sub)tree: which node sits where. */
  datatype Tree = Leaf | Branch(l: Tree, n: Node, r: Tree)

  function Max(a: int, b: int): int {
    if a < b then b else a
  }

  function Height(t: Tree): nat {
    match t
    case Leaf => 0
    case Branch(l, _, r) => 1 + Max(Height(l), Height(r))
  }

  function Nodes(t: Tree): set<Node> {
    match t
    case Leaf => {}
    case Branch(l, n, r) => Nodes(l) + {n} + Nodes(r)
  }

  function Inorder(t: Tree): seq<Node> {
    match t
    case Leaf => []
    case Branch(l, n, r) => Inorder(l) + [n] + Inorder(r)
  }

  /** No node occurs twice in the tree. */
  predicate Distinct(t: Tree) {
    match t
    case Leaf => true
    case Branch(l, n, r) =>
      Distinct(l) && Distinct(r) && n !in Nodes(l) && n !in Nodes(r) && Nodes(l) !! Nodes(r)
  }

  /** The two subtrees of every node differ in height by at most one. */
  predicate Avl(t: Tree) {
    match t
    case Leaf => true
    case Branch(l, _, r) => Avl(l) && Avl(r) && -1 <= Height(r) - Height(l) <= 1
  }

  // ----- links

  /** The links of one node. */
  datatype Cell = Cell(left: Node?, right: Node?, parent: Node?, balance: int)

  type Links = map<Node, Cell>

  /** The links that the nodes in `s` hold now. */
  ghost function Snap(s: set<Node>): Links
    reads s`left, s`right, s`parent, s`balance
  {
    map n | n in s :: Cell(n.left, n.right, n.parent, n.balance)
  }

  /** `h` links a copy of `t` rooted at `ptr`, whose parent is `par`: `parent` inverts `left` and
      `right`, and every stored balance factor is height(right) - height(left). */
  predicate Linked(h: Links, t: Tree, ptr: Node?, par: Node?) {
    match t
    case Leaf => ptr == null
    case Branch(l, n, r) =>
      ptr == n && n in h && h[n].parent == par && h[n].balance == Height(r) - Height(l) &&
      Linked(h, l, h[n].left, n) && Linked(h, r, h[n].right, n)
  }

  /** `g` holds the links of `h` for all nodes of `h` but those in `w`. */
  predicate SameExcept(h: Links, g: Links, w: set<Node>) {
    h.Keys <= g.Keys && forall n | n in h && n !in w :: g[n] == h[n]
  }

  lemma {:induction false} LinkedFrame(h: Links, g: Links, w: set<Node>, t: Tree, ptr: Node?, par: Node?)
    requires SameExcept(h, g, w) && Nodes(t) !! w && Linked(h, t, ptr, par)
    ensures Linked(g, t, ptr, par)
  {
    if t.Branch? {
      LinkedFrame(h, g, w, t.l, h[t.n].left, t.n);
      LinkedFrame(h, g, w, t.r, h[t.n].right, t.n);
    }
  }

  // ----- paths

  /** The way from a hole in the tree up to the root: `Down(up, p, left, s)` ends at the left or
      the right child of `p`, whose other child is `s`. */
  datatype Path = Top | Down(up: Path, p: Node, left: bool, sibling: Tree)

  function PathNodes(c: Path): set<Node> {
    if c.Top? then {} else {c.p} + Nodes(c.sibling) + PathNodes(c.up)
  }

  function Parent(c: Path): Node? {
    if c.Top? then null else c.p
  }

  /** `p` with the sibling and `t` as its children. */
  function Joined(c: Path, t: Tree): Tree
    requires c.Down?
  {
    if c.left then Branch(t, c.p, c.sibling) else Branch(c.sibling, c.p, t)
  }

  /** Fills the hole at the end of a path. */
  function Plug(c: Path, t: Tree): Tree {
    if c.Top? then t else Plug(c.up, Joined(c, t))
  }

  /** The nodes before, and after, the hole in in-order. */
  function Before(c: Path): seq<Node> {
    if c.Top? then [] else if c.left then Before(c.up) else Before(c.up) + (Inorder(c.sibling) + [c.p])
  }

  function After(c: Path): seq<Node> {
    if c.Top? then [] else if c.left then ([c.p] + Inorder(c.sibling)) + After(c.up) else After(c.up)
  }

  predicate PathDistinct(c: Path) {
    c.Top? ||
    (Distinct(c.sibling) && PathDistinct(c.up) && c.p !in Nodes(c.sibling) &&
     c.p !in PathNodes(c.up) && Nodes(c.sibling) !! PathNodes(c.up))
  }

  function Child(c: Cell, left: bool): Node? {
    if left then c.left else c.right
  }

  /** `h` links the last step of the path to its sibling, its parent and the pointer `hole`, with a
      true balance factor within bounds when the hole holds a tree of height `k`. */
  predicate StepLinked(h: Links, c: Path, hole: Node?, k: nat)
    requires c.Down?
  {
    && c.p in h && h[c.p].parent == Parent(c.up)
    && Child(h[c.p], c.left) == hole
    && Linked(h, c.sibling, Child(h[c.p], !c.left), c.p) && Avl(c.sibling)
    && h[c.p].balance == (if c.left then Height(c.sibling) - k else k - Height(c.sibling))
    && -1 <= h[c.p].balance <= 1
  }

  /** `h` links the path from `root` down to its hole. */
  predicate PathLinked(h: Links, c: Path, root: Node?, hole: Node?, k: nat) {
    if c.Top? then root == hole
    else StepLinked(h, c, hole, k) && PathLinked(h, c.up, root, c.p, 1 + Max(k, Height(c.sibling)))
  }

  lemma {:induction false} PathLinkedFrame(h: Links, g: Links, w: set<Node>, c: Path, root: Node?, hole: Node?, k: nat)
    requires SameExcept(h, g, w) && PathNodes(c) !! w && PathLinked(h, c, root, hole, k)
    ensures PathLinked(g, c, root, hole, k)
  {
    if c.Down? {
      LinkedFrame(h, g, w, c.sibling, Child(h[c.p], !c.left), c.p);
      PathLinkedFrame(h, g, w, c.up, root, c.p, 1 + Max(k, Height(c.sibling)));
    }
  }

  // ----- filling the hole

  lemma {:induction false} PlugInorder(c: Path, t: Tree)
    ensures Inorder(Plug(c, t)) == Before(c) + Inorder(t) + After(c)
  {
    if c.Down? {
      PlugInorder(c.up, Joined(c, t));
      var x, y := Before(c.up), After(c.up);
      if c.left {
        Regroup(x, Inorder(t), [c.p], Inorder(c.sibling), y);
      } else {
        Regroup(x, Inorder(c.sibling), [c.p], Inorder(t), y);
      }
    }
  }

  lemma Regroup<T>(x: seq<T>, a: seq<T>, b: seq<T>, c: seq<T>, y: seq<T>)
    ensures x + (a + b + c) + y == x + a + (b + c + y)
    ensures x + (a + b + c) + y == x + (a + b) + c + y
  {
  }

  lemma {:induction false} PlugNodes(c: Path, t: Tree)
    ensures Nodes(Plug(c, t)) == PathNodes(c) + Nodes(t)
  {
    if c.Down? { PlugNodes(c.up, Joined(c, t)); }
  }

  lemma {:induction false} PlugDistinct(c: Path, t: Tree)
    requires PathDistinct(c) && Distinct(t) && PathNodes(c) !! Nodes(t)
    ensures Distinct(Plug(c, t))
  {
    if c.Down? { PlugDistinct(c.up, Joined(c, t)); }
  }

  lemma JoinLinked(h: Links, c: Path, t: Tree, hole: Node?)
    requires c.Down? && StepLinked(h, c, hole, Height(t)) && Linked(h, t, hole, c.p) && Avl(t)
    ensures Linked(h, Joined(c, t), c.p, Parent(c.up)) && Avl(Joined(c, t))
    ensures Height(Joined(c, t)) == 1 + Max(Height(t), Height(c.sibling))
  {
  }

  /** A balanced tree in the hole makes the whole tree balanced and linked. */
  lemma {:induction false} PlugLinked(h: Links, c: Path, t: Tree, root: Node?, hole: Node?)
    requires PathLinked(h, c, root, hole, Height(t)) && Linked(h, t, hole, Parent(c)) && Avl(t)
    ensures Linked(h, Plug(c, t), root, null) && Avl(Plug(c, t))
  {
    if c.Down? {
      JoinLinked(h, c, t, hole);
      PlugLinked(h, c.up, Joined(c, t), root, c.p);
    }
  }

  // ----- the in-order sequence

  lemma {:induction false} InorderNodes(t: Tree)
    ensures Nodes(t) == set n | n in Inorder(t)
  {
    match t
    case Leaf =>
    case Branch(l, _, r) => InorderNodes(l); InorderNodes(r);
  }

  lemma {:induction false} InorderNoDup(t: Tree)
    requires Distinct(t)
    ensures NoDup(Inorder(t))
  {
    match t
    case Leaf =>
    case Branch(l, n, r) =>
      InorderNoDup(l);
      InorderNoDup(r);
      InorderNodes(l);
      InorderNodes(r);
      assert forall y | y in Inorder(l) :: y in Nodes(l) && y !in Inorder(r);
      NoDupJoin(Inorder(l), n, Inorder(r));
  }

  // ----- how tall an AVL tree can be

  function Fib(n: nat): nat {
    if n < 2 then n else Fib(n - 1) + Fib(n - 2)
  }

  lemma {:induction false} FibMonotone(m: nat, n: nat)
    requires m <= n
    ensures Fib(m) <= Fib(n)
    decreases n
  {
    if m < n && n >= 2 {
      FibMonotone(m, n - 1);
    }
  }

  lemma {:induction false} FibGrows(n: nat)
    ensures Fib(n + 2) >= Pow2(n / 2)
  {
    if n >= 2 {
      FibGrows(n - 2);
      assert Pow2(n / 2) == 2 * Pow2((n - 2) / 2);
      FibMonotone(n, n + 1);
    }
  }

  /** An AVL tree of height h holds at least fib(h + 2) - 1 nodes. */
  lemma {:induction false} AvlSize(t: Tree)
    requires Avl(t)
    ensures |Inorder(t)| + 1 >= Fib(Height(t) + 2)
  {
    if t.Branch? {
      var x, y := Height(t.l), Height(t.r);
      AvlSize(t.l);
      AvlSize(t.r);
      AvlSizeStep(x, y);
      assert Height(t) + 2 == Max(x, y) + 3;
      assert |Inorder(t)| == |Inorder(t.l)| + 1 + |Inorder(t.r)|;
    }
  }

  lemma AvlSizeStep(x: nat, y: nat)
    requires -1 <= y - x <= 1
    ensures Fib(x + 2) + Fib(y + 2) >= Fib(Max(x, y) + 3)
  {
    var k := Max(x, y);
    FibMonotone(k + 1, x + 2);
    FibMonotone(k + 1, y + 2);
    assert Fib(k + 3) == Fib(k + 2) + Fib(k + 1);
  }

  /** The height is at most twice the binary logarithm of the size. */
  lemma AvlHeight(t: Tree)
    requires Avl(t)
    ensures Pow2(Height(t) / 2) <= |Inorder(t)| + 1
  {
    AvlSize(t);
    FibGrows(Height(t));
  }
}
