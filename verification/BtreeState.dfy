/** What a state of the tree of `src/btree.c` holds: the links, the threads, the keys and values of
    all its nodes; when such a state is sound; and that adding a leaf leads to a sound state. */
module BtreeState {
  import opened Sequences
  import opened Numbers
  import opened BtreeShape
  import opened BtreeRotate
  import opened BtreeMap
  import opened BtreeSearch

  /** The threading pointers of one node. */
  datatype Tie = Tie(next: Node?, prev: Node?)

  ghost function Ties(s: set<Node>): map<Node, Tie>
    reads s`next, s`prev
  {
    map n | n in s :: Tie(n.next, n.prev)
  }

  ghost function Data(s: set<Node>): map<Node, Binding>
    reads s`key, s`val
  {
    map n | n in s :: Binding(n.key, n.val)
  }

  /** The i-th node, null outside the sequence. */
  function NodeAt(s: seq<Node>, i: int): Node? {
    if 0 <= i < |s| then s[i] else null
  }

  function Set(s: seq<Node>): set<Node> {
    set n | n in s
  }

  /** `n` is given the binding `b`, nothing else changes. */
  predicate DataSet(d: map<Node, Binding>, d': map<Node, Binding>, n: Node, b: Binding) {
    && d'.Keys == d.Keys && (n in d ==> d'[n] == b)
    && forall x | x in d && x != n :: d'[x] == d[x]
  }

  /** As `Unfold`, for `Filled` and `Pooled`. */
  predicate Open(k: int) { true }

  // ----- threads

  predicate TiedAt(th: map<Node, Tie>, s: seq<Node>, i: nat)
    requires i < |s|
  {
    s[i] in th && th[s[i]] == Tie(NodeAt(s, i + 1), NodeAt(s, i - 1))
  }

  /** `next` and `prev` thread the nodes in this order. */
  predicate Threaded(th: map<Node, Tie>, s: seq<Node>) {
    forall i | 0 <= i < |s| :: TiedAt(th, s, i)
  }

  /** `n` is tied in between the neighbours `pred` and `succ`, nothing else changes. */
  predicate TiedBetween(th: map<Node, Tie>, th': map<Node, Tie>, n: Node, succ: Node?, pred: Node?) {
    && th'.Keys == th.Keys
    && (n in th ==> th'[n] == Tie(succ, pred))
    && forall x | x in th && x != n ::
         th'[x] == Tie(if x == pred then n else th[x].next, if x == succ then n else th[x].prev)
  }

  lemma RetiedBetween(th: map<Node, Tie>, th': map<Node, Tie>, n: Node, x: Tie, succ: Node?, pred: Node?)
    requires n in th && TiedBetween(th[n := x], th', n, succ, pred)
    ensures TiedBetween(th, th', n, succ, pred)
  {
  }

  lemma ThreadedBetween(th: map<Node, Tie>, th': map<Node, Tie>, s: seq<Node>, k: nat, n: Node)
    requires Threaded(th, s) && NoDup(s) && n !in s && n in th && k <= |s|
    requires TiedBetween(th, th', n, NodeAt(s, k), NodeAt(s, k - 1))
    ensures Threaded(th', s[..k] + [n] + s[k..])
  {
    var t := s[..k] + [n] + s[k..];
    forall i | 0 <= i < |t| ensures TiedAt(th', t, i) {
      if i < k { assert TiedAt(th, s, i); }
      if i > k { assert TiedAt(th, s, i - 1); }
    }
  }

  // ----- the free list

  predicate FreeAt(th: map<Node, Tie>, d: map<Node, Binding>, s: seq<Node>, i: nat)
    requires i < |s|
  {
    s[i] in th && s[i] in d && th[s[i]].next == NodeAt(s, i + 1) && d[s[i]] == Binding(NULL, NULL)
  }

  /** The free list: a chain through `next` of nodes that hold no key and no value. */
  predicate Chained(th: map<Node, Tie>, d: map<Node, Binding>, head: Node?, s: seq<Node>) {
    head == NodeAt(s, 0) && forall i | 0 <= i < |s| :: FreeAt(th, d, s, i)
  }

  lemma ChainedTail(th: map<Node, Tie>, th': map<Node, Tie>, d: map<Node, Binding>, head: Node?, s: seq<Node>)
    requires Chained(th, d, head, s) && NoDup(s) && head != null
    requires th'.Keys == th.Keys && forall x | x in th && x != head :: th'[x] == th[x]
    ensures head == s[0] && head !in s[1..] && head in th && Chained(th', d, th[head].next, s[1..])
  {
    assert FreeAt(th, d, s, 0);
    forall i | 0 <= i < |s[1..]| ensures FreeAt(th', d, s[1..], i) {
      assert FreeAt(th, d, s, i + 1);
    }
  }

  lemma ChainedFrame(th: map<Node, Tie>, th': map<Node, Tie>, d: map<Node, Binding>, d': map<Node, Binding>,
                     head: Node?, s: seq<Node>)
    requires Chained(th, d, head, s)
    requires forall x | x in s && x in th :: x in th' && th'[x].next == th[x].next
    requires forall x | x in s && x in d :: x in d' && d'[x] == d[x]
    ensures Chained(th', d', head, s)
  {
    forall i | 0 <= i < |s| ensures FreeAt(th', d', s, i) {
      assert FreeAt(th, d, s, i);
    }
  }

  // ----- keys and values

  /** `e` lists the key and value of every node of `s`. */
  predicate Holds(d: map<Node, Binding>, s: seq<Node>, e: seq<Binding>) {
    |e| == |s| && forall i | 0 <= i < |s| :: s[i] in d && d[s[i]] == e[i]
  }

  lemma HoldsBetween(d: map<Node, Binding>, s: seq<Node>, e: seq<Binding>, k: nat, n: Node, b: Binding)
    requires Holds(d, s, e) && n !in s && k <= |s|
    ensures Holds(d[n := b], s[..k] + [n] + s[k..], e[..k] + [b] + e[k..])
  {
  }

  // ----- states

  /** What a state represents: the shape of the tree, the free nodes, the map. */
  datatype Meaning = Meaning(shape: Tree, free: seq<Node>, e: seq<Binding>)

  datatype State = State(h: Links, th: map<Node, Tie>, d: map<Node, Binding>,
                         tree: Node?, head: Node?, size: nat,
                         shape: Tree, free: seq<Node>, e: seq<Binding>)

  /** The nodes are threaded in this order and hold the bindings `e`, sorted by key and without null
      pointers. */
  ghost predicate Filled(cmp: Compare, th: map<Node, Tie>, d: map<Node, Binding>, order: seq<Node>, e: seq<Binding>) {
    |e| == |order| && forall k: int {:trigger Open(k)} | Open(k) ::
      && Threaded(th, order) && Holds(d, order, e) && Sorted(cmp, e)
      && forall b | b in e :: b.key != NULL && b.val != NULL
  }

  lemma FilledHas(cmp: Compare, th: map<Node, Tie>, d: map<Node, Binding>, order: seq<Node>, e: seq<Binding>)
    requires Filled(cmp, th, d, order, e)
    ensures Threaded(th, order) && Holds(d, order, e) && Sorted(cmp, e)
    ensures forall b | b in e :: b.key != NULL && b.val != NULL
  {
    assert Open(0);
  }

  /** The tree is a linked, threaded AVL tree with true balance factors, sorted by key. */
  ghost predicate SoundTree(cmp: Compare, st: State) {
    && Distinct(st.shape) && Avl(st.shape) && Linked(st.h, st.shape, st.tree, null)
    && Filled(cmp, st.th, st.d, Inorder(st.shape), st.e) && st.size == |st.e|
  }

  /** The free list, in which no node is twice. */
  ghost predicate Pooled(th: map<Node, Tie>, d: map<Node, Binding>, head: Node?, free: seq<Node>) {
    head == NodeAt(free, 0) && forall k: int {:trigger Open(k)} | Open(k) :: Chained(th, d, head, free) && NoDup(free)
  }

  lemma PooledHas(th: map<Node, Tie>, d: map<Node, Binding>, head: Node?, free: seq<Node>)
    requires Pooled(th, d, head, free)
    ensures Chained(th, d, head, free) && NoDup(free)
  {
    assert Open(0);
  }

  /** Every node is in the tree or in the free list, and in one of them only. */
  ghost predicate SoundMemory(nodes: set<Node>, st: State) {
    && st.h.Keys == st.th.Keys == st.d.Keys == nodes
    && Pooled(st.th, st.d, st.head, st.free)
    && Nodes(st.shape) !! Set(st.free) && Nodes(st.shape) + Set(st.free) == nodes
  }

  ghost predicate Sound(cmp: Compare, nodes: set<Node>, st: State) {
    SoundTree(cmp, st) && SoundMemory(nodes, st)
  }

  /** `n` is stored, without children, in the empty left or right child pointer of `parent`. */
  predicate LeafLinked(h: Links, g: Links, n: Node, parent: Node?, left: bool) {
    && SameExcept(h, g, {n} + Opt(parent))
    && (n in h ==> g[n] == Cell(null, null, parent, 0))
    && (parent != null && parent in h ==>
          g[parent] == if left then h[parent].(left := n) else h[parent].(right := n))
  }

  /** The new leaf hangs in the hole of the path. */
  lemma LeafHangs(h: Links, g: Links, c: Path, root: Node?, n: Node, left: bool)
    requires Standing(h, Leaf, null, c, root) && n !in PathNodes(c) && n in h && (c.Down? ==> left == c.left)
    requires LeafLinked(h, g, n, Parent(c), left)
    ensures HangsAt(g, Branch(Leaf, n, Leaf), n, c, NewRoot(c, root, n), 0)
  {
    Rehung(h, g, {n} + Opt(Parent(c)), c, root, null, n, 0);
  }

  ghost predicate Intact(cmp: Compare, nodes: set<Node>, st: State) {
    forall k: int {:trigger Unfold(k)} | Unfold(k) :: Sound(cmp, nodes, st)
  }

  lemma Unfolded(cmp: Compare, nodes: set<Node>, st: State)
    requires Intact(cmp, nodes, st)
    ensures Sound(cmp, nodes, st)
  {
    assert Unfold(0);
  }

  /** The parts of a sound state, one by one. */
  lemma IntactTree(cmp: Compare, nodes: set<Node>, st: State)
    requires Intact(cmp, nodes, st)
    ensures Distinct(st.shape) && Avl(st.shape) && Linked(st.h, st.shape, st.tree, null)
    ensures st.size == |st.e| == |Inorder(st.shape)|
  {
    Unfolded(cmp, nodes, st);
  }

  lemma IntactBindings(cmp: Compare, nodes: set<Node>, st: State)
    requires Intact(cmp, nodes, st)
    ensures Threaded(st.th, Inorder(st.shape)) && Holds(st.d, Inorder(st.shape), st.e) && Sorted(cmp, st.e)
    ensures forall b | b in st.e :: b.key != NULL && b.val != NULL
  {
    Unfolded(cmp, nodes, st);
    FilledHas(cmp, st.th, st.d, Inorder(st.shape), st.e);
  }

  lemma IntactMemory(cmp: Compare, nodes: set<Node>, st: State)
    requires Intact(cmp, nodes, st)
    ensures SoundMemory(nodes, st)
  {
    Unfolded(cmp, nodes, st);
  }

  /** Adding a bound key changes nothing. */
  lemma IntactBound(cmp: Compare, nodes: set<Node>, st: State, key: Ptr, val: Ptr)
    requires TotalOrder(cmp) && Intact(cmp, nodes, st) && Bound(cmp, st.e, key)
    ensures Insert(cmp, st.e, key, val) == st.e
  {
    IntactBindings(cmp, nodes, st);
    var i :| 0 <= i < |st.e| && cmp(key, st.e[i].key) == 0;
    InsertBound(cmp, st.e, key, val, i);
  }

  /** The tree is low. */
  lemma IntactIsShallow(cmp: Compare, nodes: set<Node>, st: State, steps: nat)
    requires Intact(cmp, nodes, st) && steps <= Height(st.shape)
    ensures st.size + 1 >= Fib(Height(st.shape) + 2) && st.size + 1 >= Pow2(steps / 2)
  {
    IntactTree(cmp, nodes, st);
    AvlSize(st.shape);
    FewSteps(st.shape, steps);
  }

  /** A walk starts at the root. */
  lemma StartWalk(cmp: Compare, nodes: set<Node>, st: State, key: Ptr)
    requires Intact(cmp, nodes, st)
    ensures Walking(st.h, cmp, st.e, key, st.shape, st.shape, st.tree, Top, st.tree)
    ensures From(Top) == 0 && Upto(Top, st.shape) == |Inorder(st.shape)|
  {
    IntactTree(cmp, nodes, st);
    IntactBindings(cmp, nodes, st);
  }

  /** The m-th node holds the m-th binding. */
  lemma KeyAt(cmp: Compare, nodes: set<Node>, st: State, m: nat)
    requires Intact(cmp, nodes, st) && m < |st.e|
    ensures |st.e| == |Inorder(st.shape)| && Inorder(st.shape)[m] in st.d && st.d[Inorder(st.shape)[m]] == st.e[m]
  {
    IntactTree(cmp, nodes, st);
    IntactBindings(cmp, nodes, st);
  }

  /** The value that goes with a key that was found. */
  lemma IntactFound(cmp: Compare, nodes: set<Node>, st: State, key: Ptr, i: nat)
    requires TotalOrder(cmp) && Intact(cmp, nodes, st) && i < |st.e| && cmp(key, st.e[i].key) == 0
    ensures |st.e| == |Inorder(st.shape)| && Inorder(st.shape)[i] in st.d
    ensures st.d[Inorder(st.shape)[i]].val == Lookup(cmp, st.e, key)
  {
    KeyAt(cmp, nodes, st, i);
    IntactBindings(cmp, nodes, st);
    OneBinding(cmp, st.e, key, i);
  }

  /** The child of `n` on the side of `key`. */
  function Toward(cmp: Compare, st: State, key: Ptr, n: Node): Node?
    requires n in st.h && n in st.d
  {
    if cmp(key, st.d[n].key) < 0 then st.h[n].left else st.h[n].right
  }

  /** The path leads from the root, at each node on to the child on the side of the key, to `p`. */
  ghost predicate Descent(cmp: Compare, st: State, key: Ptr, path: seq<Node>, p: Node?) {
    && (if path == [] then p == st.tree else path[0] == st.tree)
    && forall m | 0 <= m < |path| :: DescentAt(cmp, st, key, path, p, m)
  }

  ghost predicate DescentAt(cmp: Compare, st: State, key: Ptr, path: seq<Node>, p: Node?, m: nat)
    requires m < |path|
  {
    && path[m] in st.h && path[m] in st.d && cmp(key, st.d[path[m]].key) != 0
    && Toward(cmp, st, key, path[m]) == if m + 1 < |path| then path[m + 1] else p
  }

  lemma DescentNext(cmp: Compare, st: State, key: Ptr, path: seq<Node>, n: Node)
    requires Descent(cmp, st, key, path, n) && n in st.h && n in st.d && cmp(key, st.d[n].key) != 0
    ensures Descent(cmp, st, key, path + [n], Toward(cmp, st, key, n))
  {
    var longer, p := path + [n], Toward(cmp, st, key, n);
    forall m | 0 <= m < |longer| ensures DescentAt(cmp, st, key, longer, p, m) {
      if m < |path| { assert DescentAt(cmp, st, key, path, n, m); }
    }
  }

  /** A walk that ended at a null pointer found nothing. */
  lemma WalkEnded(cmp: Compare, st: State, key: Ptr, c: Path)
    requires Walking(st.h, cmp, st.e, key, st.shape, Leaf, null, c, st.tree)
    ensures !Bound(cmp, st.e, key)
  {
    WalkingHas(st.h, cmp, st.e, key, st.shape, Leaf, null, c, st.tree);
    NowhereElse(cmp, st.e, key, From(c), NULL);
  }

  /** Where a walk towards an unbound key ended, with the head of the free list as new leaf. */
  ghost predicate Place(cmp: Compare, st: State, key: Ptr, c: Path) {
    Walking(st.h, cmp, st.e, key, st.shape, Leaf, null, c, st.tree) && st.head != null
  }

  /** What separates the new leaf from the tree. */
  lemma PlaceFacts(cmp: Compare, nodes: set<Node>, st: State, key: Ptr, c: Path)
    requires Sound(cmp, nodes, st) && Place(cmp, st, key, c)
    ensures st.free != [] && st.head == st.free[0] && st.head in nodes
    ensures st.head !in PathNodes(c) && st.head !in Inorder(st.shape) && NoDup(Inorder(st.shape))
    ensures PathNodes(c) == Nodes(st.shape) == Set(Inorder(st.shape)) && Nodes(st.shape) <= nodes
    ensures From(c) <= |Inorder(st.shape)|
  {
    WalkingHas(st.h, cmp, st.e, key, st.shape, Leaf, null, c, st.tree);
    PlugNodes(c, Leaf);
    InorderNodes(st.shape);
    InorderNoDup(st.shape);
    assert st.free[0] in Set(st.free);
  }

  lemma PlaceGrown(cmp: Compare, st: State, key: Ptr, c: Path, u: Tree)
    requires Place(cmp, st, key, c) && st.head !in PathNodes(c)
    requires SameOrder(Plug(c, Branch(Leaf, st.head, Leaf)), u)
    ensures var order, k := Inorder(st.shape), From(c);
      k <= |order| && Inorder(u) == order[..k] + [st.head] + order[k..]
    ensures Nodes(u) == Nodes(st.shape) + {st.head} && Distinct(u)
  {
    WalkingHas(st.h, cmp, st.e, key, st.shape, Leaf, null, c, st.tree);
    Grown(c, st.head, u);
  }

  lemma PlaceWithin(cmp: Compare, st: State, key: Ptr, c: Path)
    requires Place(cmp, st, key, c)
    ensures Within(cmp, st.e, key, From(c), From(c)) && Standing(st.h, Leaf, null, c, st.tree)
  {
    WalkingHas(st.h, cmp, st.e, key, st.shape, Leaf, null, c, st.tree);
  }

  /** The state after the new leaf is filled in, linked and tied (`th`, `d` and the free list), and
      the tree is balanced to `u` (`g`, `root`). */
  ghost function Added(st: State, g: Links, th: map<Node, Tie>, root: Node?, head: Node?, u: Tree,
                       b: Binding, e: seq<Binding>): State
    requires st.head != null && st.free != []
  {
    State(g, th, st.d[st.head := b], root, head, st.size + 1, u, st.free[1..], e)
  }

  lemma AddedEntries(cmp: Compare, e: seq<Binding>, key: Ptr, val: Ptr, k: nat)
    requires TotalOrder(cmp) && Sorted(cmp, e) && Within(cmp, e, key, k, k)
    ensures !Bound(cmp, e, key) && k <= |e|
    ensures Insert(cmp, e, key, val) == e[..k] + [Binding(key, val)] + e[k..]
    ensures Sorted(cmp, Insert(cmp, e, key, val))
    ensures forall x | x in Insert(cmp, e, key, val) :: x == Binding(key, val) || x in e
  {
    NowhereElse(cmp, e, key, k, val);
    InsertIsMapUpdate(cmp, e, key, val, key);
  }

  lemma AddedFilled(cmp: Compare, th: map<Node, Tie>, th': map<Node, Tie>, d: map<Node, Binding>, order: seq<Node>,
                    e: seq<Binding>, key: Ptr, val: Ptr, k: nat, n: Node)
    requires TotalOrder(cmp) && Filled(cmp, th, d, order, e) && Within(cmp, e, key, k, k)
    requires key != NULL && val != NULL && NoDup(order) && n !in order && n in th
    requires TiedBetween(th, th', n, NodeAt(order, k), NodeAt(order, k - 1))
    ensures !Bound(cmp, e, key) && k <= |order|
    ensures Filled(cmp, th', d[n := Binding(key, val)], order[..k] + [n] + order[k..], Insert(cmp, e, key, val))
  {
    FilledHas(cmp, th, d, order, e);
    ThreadedBetween(th, th', order, k, n);
    AddedEntries(cmp, e, key, val, k);
    HoldsBetween(d, order, e, k, n, Binding(key, val));
  }

  lemma AddedSoundTree(cmp: Compare, nodes: set<Node>, st: State, key: Ptr, val: Ptr, c: Path,
                       g: Links, th: map<Node, Tie>, root: Node?, head: Node?, u: Tree)
    requires TotalOrder(cmp) && Intact(cmp, nodes, st) && Place(cmp, st, key, c) && key != NULL && val != NULL
    requires SameOrder(Plug(c, Branch(Leaf, st.head, Leaf)), u) && Avl(u) && Linked(g, u, root, null)
    requires TiedBetween(st.th, th, st.head, NodeAt(Inorder(st.shape), From(c)), NodeAt(Inorder(st.shape), From(c) - 1))
    ensures st.free != [] && !Bound(cmp, st.e, key)
    ensures SoundTree(cmp, Added(st, g, th, root, head, u, Binding(key, val), Insert(cmp, st.e, key, val)))
    ensures Nodes(u) == Nodes(st.shape) + {st.head}
  {
    Unfolded(cmp, nodes, st);
    PlaceFacts(cmp, nodes, st, key, c);
    PlaceGrown(cmp, st, key, c, u);
    PlaceWithin(cmp, st, key, c);
    AddedFilled(cmp, st.th, th, st.d, Inorder(st.shape), st.e, key, val, From(c), st.head);
  }

  lemma AddedChain(nodes: set<Node>, st: State, th: map<Node, Tie>, succ: Node?, pred: Node?, b: Binding)
    requires SoundMemory(nodes, st) && st.head != null && st.free != []
    requires st.head in st.th && TiedBetween(st.th, th, st.head, succ, pred)
    requires pred != null ==> pred in Nodes(st.shape)
    ensures Pooled(th, st.d[st.head := b], st.th[st.head].next, st.free[1..])
  {
    var n: Node, rest := st.head, st.free[1..];
    PooledHas(st.th, st.d, st.head, st.free);
    ChainedTail(st.th, st.th, st.d, n, st.free);
    TailSet(st.free);
    forall x | x in rest ensures x in st.th && x != n && x != pred {
      assert x in Set(rest);
    }
    ChainedFrame(st.th, th, st.d, st.d[n := b], st.th[n].next, rest);
  }

  lemma AddedSoundMemory(nodes: set<Node>, st: State, b: Binding, k: int,
                         g: Links, th: map<Node, Tie>, root: Node?, u: Tree, e: seq<Binding>)
    requires SoundMemory(nodes, st) && st.head != null && g.Keys == nodes && st.head in st.th
    requires TiedBetween(st.th, th, st.head, NodeAt(Inorder(st.shape), k), NodeAt(Inorder(st.shape), k - 1))
    requires Nodes(u) == Nodes(st.shape) + {st.head}
    ensures st.free != [] && SoundMemory(nodes, Added(st, g, th, root, st.th[st.head].next, u, b, e))
  {
    var order := Inorder(st.shape);
    InorderNodes(st.shape);
    assert 0 < k <= |order| ==> order[k - 1] in order;
    AddedChain(nodes, st, th, NodeAt(order, k), NodeAt(order, k - 1), b);
    PooledHas(st.th, st.d, st.head, st.free);
    TailSet(st.free);
  }

  lemma AddedSound(cmp: Compare, nodes: set<Node>, st: State, key: Ptr, val: Ptr, c: Path,
                   g: Links, th: map<Node, Tie>, root: Node?, head: Node?, u: Tree) returns (st': State)
    requires TotalOrder(cmp) && Intact(cmp, nodes, st) && Place(cmp, st, key, c) && key != NULL && val != NULL
    requires SameOrder(Plug(c, Branch(Leaf, st.head, Leaf)), u) && Avl(u) && Linked(g, u, root, null)
    requires TiedBetween(st.th, th, st.head, NodeAt(Inorder(st.shape), From(c)), NodeAt(Inorder(st.shape), From(c) - 1))
    requires g.Keys == nodes && st.head in st.th && head == st.th[st.head].next
    ensures st.free != [] && Intact(cmp, nodes, st')
    ensures st' == Added(st, g, th, root, head, u, Binding(key, val), Insert(cmp, st.e, key, val))
  {
    AddedSoundTree(cmp, nodes, st, key, val, c, g, th, root, head, u);
    IntactMemory(cmp, nodes, st);
    AddedSoundMemory(nodes, st, Binding(key, val), From(c), g, th, root, u, Insert(cmp, st.e, key, val));
    st' := Added(st, g, th, root, head, u, Binding(key, val), Insert(cmp, st.e, key, val));
  }

  /** Adding an unbound key leads from a sound state to a sound state. */
  lemma AddedIntact(cmp: Compare, nodes: set<Node>, st: State, key: Ptr, val: Ptr, c: Path,
                    g: Links, th: map<Node, Tie>, d: map<Node, Binding>, root: Node?, head: Node?, u: Tree)
    returns (st': State)
    requires TotalOrder(cmp) && Intact(cmp, nodes, st) && Place(cmp, st, key, c) && key != NULL && val != NULL
    requires SameOrder(Plug(c, Branch(Leaf, st.head, Leaf)), u) && Avl(u) && Linked(g, u, root, null)
    requires TiedBetween(st.th, th, st.head, NodeAt(Inorder(st.shape), From(c)), NodeAt(Inorder(st.shape), From(c) - 1))
    requires g.Keys == nodes && st.head in nodes && st.head in st.th && head == st.th[st.head].next
    requires DataSet(st.d, d, st.head, Binding(key, val)) && st.head in st.d
    ensures st.free != [] && Intact(cmp, nodes, st')
    ensures st' == State(g, th, d, root, head, st.size + 1, u, st.free[1..], Insert(cmp, st.e, key, val))
  {
    st' := AddedSound(cmp, nodes, st, key, val, c, g, th, root, head, u);
    assert d == st.d[st.head := Binding(key, val)];
  }

  /** The spot for the new leaf, for `AddAt`. */
  lemma SpotFacts(cmp: Compare, nodes: set<Node>, st: State, key: Ptr, c: Path)
    requires Intact(cmp, nodes, st) && Place(cmp, st, key, c)
    ensures st.head in nodes && st.head in st.th && st.head in st.d && st.head in st.h && st.head !in PathNodes(c)
    ensures PathNodes(c) <= nodes && From(c) <= |Inorder(st.shape)|
    ensures var order, k: int := Inorder(st.shape), From(c);
      Opt(NodeAt(order, k)) <= PathNodes(c) && Opt(NodeAt(order, k - 1)) <= PathNodes(c)
  {
    Unfolded(cmp, nodes, st);
    PlaceFacts(cmp, nodes, st, key, c);
    var order, k: int := Inorder(st.shape), From(c);
    assert forall i | 0 <= i < |order| :: order[i] in Set(order);
  }

  lemma TailSet(s: seq<Node>)
    requires s != [] && NoDup(s)
    ensures NoDup(s[1..]) && s[0] !in Set(s[1..]) && Set(s) == {s[0]} + Set(s[1..])
  {
    assert s == [s[0]] + s[1..];
  }

  /** A new block of free nodes joins a state whose free list is empty. */
  predicate BlockJoins(nodes: set<Node>, st: State, b: seq<Node>, st': State) {
    && b != [] && NoDup(b) && nodes !! Set(b)
    && st'.h.Keys == st'.th.Keys == st'.d.Keys == nodes + Set(b)
    && (forall n | n in nodes :: n in st.h && st'.h[n] == st.h[n])
    && (forall n | n in nodes :: n in st.th && st'.th[n] == st.th[n])
    && (forall n | n in nodes :: n in st.d && st'.d[n] == st.d[n])
    && Chained(st'.th, st'.d, st'.head, b)
    && st' == st.(h := st'.h, th := st'.th, d := st'.d, head := st'.head, free := b)
  }

  lemma BlockJoinsTree(cmp: Compare, nodes: set<Node>, st: State, b: seq<Node>, st': State)
    requires Sound(cmp, nodes, st) && BlockJoins(nodes, st, b, st')
    ensures SoundTree(cmp, st')
  {
    LinkedFrame(st.h, st'.h, {}, st.shape, st.tree, null);
    var order := Inorder(st.shape);
    InorderNodes(st.shape);
    FilledElsewhere(cmp, st.th, st'.th, st.d, st'.d, order, st.e);
  }

  lemma FilledElsewhere(cmp: Compare, th: map<Node, Tie>, th': map<Node, Tie>, d: map<Node, Binding>,
                        d': map<Node, Binding>, order: seq<Node>, e: seq<Binding>)
    requires Filled(cmp, th, d, order, e)
    requires forall n | n in order && n in th :: n in th' && th'[n] == th[n]
    requires forall n | n in order && n in d :: n in d' && d'[n] == d[n]
    ensures Filled(cmp, th', d', order, e)
  {
    FilledHas(cmp, th, d, order, e);
    forall i | 0 <= i < |order| ensures TiedAt(th', order, i) && order[i] in d' && d'[order[i]] == e[i] {
      assert TiedAt(th, order, i) && order[i] in order;
    }
  }

  lemma BlockJoinsIntact(cmp: Compare, nodes: set<Node>, st: State, b: seq<Node>, st': State)
    requires Intact(cmp, nodes, st) && st.head == null && BlockJoins(nodes, st, b, st')
    ensures Intact(cmp, nodes + Set(b), st')
  {
    Unfolded(cmp, nodes, st);
    BlockJoinsTree(cmp, nodes, st, b, st');
    assert st.free == [];
    assert SoundMemory(nodes + Set(b), st');
  }

  /** The same, the chain of the block being known from its own threads and data. */
  lemma BlockJoined(cmp: Compare, nodes: set<Node>, st: State, b: seq<Node>, st': State,
                    th: map<Node, Tie>, d: map<Node, Binding>)
    requires Intact(cmp, nodes, st) && st.head == null && b != [] && NoDup(b) && nodes !! Set(b)
    requires st'.h.Keys == st'.th.Keys == st'.d.Keys == nodes + Set(b)
    requires forall n | n in nodes :: n in st.h && n in st.th && n in st.d
    requires forall n | n in nodes :: st'.h[n] == st.h[n] && st'.th[n] == st.th[n] && st'.d[n] == st.d[n]
    requires Chained(th, d, st'.head, b) && th.Keys == d.Keys == Set(b)
    requires forall n | n in Set(b) :: st'.th[n] == th[n] && st'.d[n] == d[n]
    requires st' == st.(h := st'.h, th := st'.th, d := st'.d, head := st'.head, free := b)
    ensures Intact(cmp, nodes + Set(b), st')
  {
    ChainedFrame(th, st'.th, d, st'.d, st'.head, b);
    BlockJoinsIntact(cmp, nodes, st, b, st');
  }

  lemma NoDupAppend(s: seq<Node>, t: seq<Node>)
    requires NoDup(s) && NoDup(t) && Set(s) !! Set(t)
    ensures NoDup(s + t) && Set(s + t) == Set(s) + Set(t)
  {
    var u := s + t;
    forall i, j | 0 <= i < j < |u| ensures u[i] != u[j] {
      assert i < |s| ==> u[i] in Set(s);
      assert j >= |s| ==> u[j] in Set(t);
    }
  }

  // ----- an empty tree

  lemma EmptyIntact(cmp: Compare, nodes: set<Node>, st: State)
    requires nodes == {} && st == State(map[], map[], map[], null, null, 0, Leaf, [], [])
    ensures Intact(cmp, nodes, st)
  {
  }
}
