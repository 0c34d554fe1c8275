/** The threaded AVL tree of `src/btree.c`. */
module Btree {
  import opened Sequences
  import opened Numbers
  import opened BtreeShape
  import opened BtreeRotate
  import opened BtreeBalance
  import opened BtreeMap
  import opened BtreeSearch
  import opened BtreeState
  import opened BtreeRelease

  /** The compare function in use: the default one when none is given. */
  function KeyCmp(cmp: Option<Compare>): Compare {
    match cmp
    case None => (l: Ptr, r: Ptr) => DefaultKeyCmp(l, r)
    case Some(f) => f
  }

  lemma KeyCmpIsTotal(cmp: Option<Compare>)
    requires cmp.Some? ==> TotalOrder(cmp.value)
    ensures TotalOrder(KeyCmp(cmp))
  {
  }

  function Flat(blocks: seq<seq<Node>>): seq<Node> {
    if blocks == [] then [] else Flat(blocks[..|blocks| - 1]) + blocks[|blocks| - 1]
  }

  /** The nodes are those of the allocated blocks, and no node belongs to two blocks. */
  ghost predicate BlocksHold(blocks: seq<seq<Node>>, num: nat, size: nat, nodes: set<Node>) {
    num == |blocks| && size > 0 && forall k: int {:trigger Stack(k)} | Stack(k) ::
      (forall b | b in blocks :: |b| == size) && NoDup(Flat(blocks)) && nodes == Set(Flat(blocks))
  }

  /** The nodes of a block follow those of the blocks before it. */
  lemma {:induction false} FlatBlocks(blocks: seq<seq<Node>>, i: nat, j: nat)
    requires i < |blocks| && j < |blocks[i]|
    ensures |Flat(blocks[..i])| + j < |Flat(blocks)| && Flat(blocks)[|Flat(blocks[..i])| + j] == blocks[i][j]
    ensures |Flat(blocks[..i + 1])| == |Flat(blocks[..i])| + |blocks[i]| && Flat(blocks[..0]) == []
  {
    var n := |blocks| - 1;
    assert blocks[..i + 1][..i] == blocks[..i];
    if i < n {
      FlatBlocks(blocks[..n], i, j);
      assert blocks[..n][..i] == blocks[..i];
    }
  }

  /** As `Unfold`, for `BlocksHold`. */
  predicate Stack(k: int) { true }

  lemma BlocksHave(blocks: seq<seq<Node>>, num: nat, size: nat, nodes: set<Node>)
    requires BlocksHold(blocks, num, size, nodes)
    ensures NoDup(Flat(blocks)) && nodes == Set(Flat(blocks))
  {
    assert Stack(0);
  }

  lemma BlockHas(blocks: seq<seq<Node>>, num: nat, size: nat, nodes: set<Node>, i: nat)
    requires BlocksHold(blocks, num, size, nodes) && i < num
    ensures |blocks[i]| == size && forall n | n in blocks[i] :: n in nodes
  {
    assert Stack(0) && blocks[i] in blocks;
    InFlat(blocks, i);
  }

  lemma BlocksGrow(blocks: seq<seq<Node>>, size: nat, nodes: set<Node>, b: seq<Node>)
    requires BlocksHold(blocks, |blocks|, size, nodes) && |b| == size && NoDup(b) && nodes !! Set(b)
    ensures BlocksHold(blocks + [b], |blocks| + 1, size, nodes + Set(b))
  {
    assert Stack(0);
    assert (blocks + [b])[..|blocks|] == blocks;
    NoDupAppend(Flat(blocks), b);
  }

  lemma {:induction false} InFlat(blocks: seq<seq<Node>>, i: nat)
    requires i < |blocks|
    ensures forall n | n in blocks[i] :: n in Set(Flat(blocks))
  {
    if i < |blocks| - 1 { InFlat(blocks[..|blocks| - 1], i); }
  }

  lemma StepAt(th: map<Node, Tie>, d: map<Node, Binding>, order: seq<Node>, e: seq<Binding>, k: nat)
    requires Threaded(th, order) && Holds(d, order, e) && k < |order|
    ensures order[k] in th && th[order[k]] == Tie(NodeAt(order, k + 1), NodeAt(order, k - 1))
    ensures order[k] in d && d[order[k]] == e[k]
  {
    assert TiedAt(th, order, k);
  }

  class Btree {
    const kcfn: Compare
    const hasKdfn: bool
    const hasVdfn: bool
    var nodeList: seq<seq<Node>>
    var freeList: Node?
    var numLists: nat
    var listSize: nat
    var tree: Node?
    var size: nat

    ghost var nodes: set<Node>
    ghost var meaning: Meaning

    /** The nodes in order. */
    ghost function Order(): seq<Node>
      reads `meaning
    {
      Inorder(meaning.shape)
    }

    /** The map that the tree represents, sorted by key. */
    ghost function Bindings(): seq<Binding>
      reads `meaning
    {
      meaning.e
    }

    ghost function Now(): State
      reads `tree, `freeList, `size, `nodes, `meaning
      reads nodes`left, nodes`right, nodes`parent, nodes`balance, nodes`next, nodes`prev, nodes`key, nodes`val
    {
      State(Snap(nodes), Ties(nodes), Data(nodes), tree, freeList, size, meaning.shape, meaning.free, meaning.e)
    }

    ghost predicate ValidBlocks()
      reads `nodeList, `numLists, `listSize, `nodes
    {
      BlocksHold(nodeList, numLists, listSize, nodes)
    }

    ghost predicate Valid()
      reads this, nodes
    {
      TotalOrder(kcfn) && ValidBlocks() && Intact(kcfn, nodes, Now())
    }

    /** What every reachable tree is: an AVL tree with true balance factors and exact parents, keys
        in strict order, threads in that order, and every allocated node either in the tree or in
        the free list. */
    lemma ThreadedAvlTree()
      requires Valid()
      ensures var t, order := meaning.shape, Order();
        && Avl(t) && Distinct(t) && Linked(Snap(nodes), t, tree, null)
        && Sorted(kcfn, Bindings()) && Holds(Data(nodes), order, Bindings()) && Threaded(Ties(nodes), order)
        && Chained(Ties(nodes), Data(nodes), freeList, meaning.free)
        && nodes == Set(Flat(nodeList)) == Nodes(t) + Set(meaning.free) && Nodes(t) !! Set(meaning.free)
    {
      IntactTree(kcfn, nodes, Now());
      IntactBindings(kcfn, nodes, Now());
      IntactMemory(kcfn, nodes, Now());
      PooledHas(Ties(nodes), Data(nodes), freeList, meaning.free);
      BlocksHave(nodeList, numLists, listSize, nodes);
    }

    /** Case 1 of `bt_balance_tree`: `p` was even. */
    method Tip(p: Node, n: Node, leftChild: bool, ghost s: set<Node>, ghost t: Tree, ghost c: Path)
      requires Climbing(Snap(s), t, n, c, tree) && p == Parent(c) && PathNodes(c) <= s
      requires leftChild == c.left && p.balance == 0
      modifies p`balance
      ensures Climbing(Snap(s), Joined(c, t), p, c.up, tree)
    {
      ghost var h := Snap(s);
      p.balance := if leftChild then -1 else 1;
      ClimbEven(h, Snap(s), t, n, c, tree);
    }

    /** Case 2 of `bt_balance_tree`: the shorter subtree of `p` grew. */
    method Absorb(p: Node, n: Node, leftChild: bool, ghost s: set<Node>, ghost t: Tree, ghost c: Path)
      requires Climbing(Snap(s), t, n, c, tree) && p == Parent(c) && PathNodes(c) <= s
      requires leftChild == c.left && p.balance == (if leftChild then 1 else -1)
      modifies p`balance
      ensures Linked(Snap(s), Plug(c, t), tree, null) && Avl(Plug(c, t))
    {
      ghost var h := Snap(s);
      p.balance := if leftChild then p.balance - 1 else p.balance + 1;
      assert p.balance == 0;
      ClimbShort(h, Snap(s), t, n, c, tree);
    }

    /** Case 3 of `bt_balance_tree`: the taller subtree of `p` grew. */
    method RotateAndStop(p: Node, n: Node, leftChild: bool, ghost s: set<Node>, ghost t: Tree, ghost c: Path)
      returns (r: Node, ghost u: Tree)
      requires Climbing(Snap(s), t, n, c, tree) && p == Parent(c) && PathNodes(c) <= s
      requires leftChild == c.left && p.balance == (if leftChild then -1 else 1)
      modifies `tree, s`left, s`right, s`parent, s`balance
      ensures Linked(Snap(s), u, tree, null) && Avl(u) && SameOrder(Plug(c, t), u)
    {
      var updateRoot := p.parent == null;
      assert updateRoot == c.up.Top?;
      r, u := RotateTaller(p, n, leftChild, s, t, c);
      if updateRoot { tree := r; }
    }

    /** The rotation of case 3, before the root pointer is updated. */
    method RotateTaller(p: Node, n: Node, leftChild: bool, ghost s: set<Node>, ghost t: Tree, ghost c: Path)
      returns (r: Node, ghost u: Tree)
      requires Climbing(Snap(s), t, n, c, tree) && p == Parent(c) && PathNodes(c) <= s
      requires leftChild == c.left && p.balance == (if leftChild then -1 else 1)
      modifies s`left, s`right, s`parent, s`balance
      ensures Linked(Snap(s), u, NewRoot(c.up, tree, r), null) && Avl(u) && SameOrder(Plug(c, t), u)
    {
      TipOver(p, n, leftChild, s, t, c);
      r, u := Rotate(p, n, s, Joined(c, t), c.up, tree);
      ClimbDone(Snap(s), Joined(c, t), u, r, c.up, NewRoot(c.up, tree, r));
      u := Plug(c.up, u);
    }

    /** Stores the balance factor of `p` in case 3. */
    method TipOver(p: Node, n: Node, leftChild: bool, ghost s: set<Node>, ghost t: Tree, ghost c: Path)
      requires Climbing(Snap(s), t, n, c, tree) && p == Parent(c) && PathNodes(c) <= s
      requires leftChild == c.left && p.balance == (if leftChild then -1 else 1)
      modifies p`balance
      ensures OffByTwo(Joined(c, t)) && HangsAt(Snap(s), Joined(c, t), p, c.up, tree, Height(Joined(c, t)) - 1)
      ensures n in s && n == (if leftChild then p.left else p.right) && n.balance != 0
      ensures p.balance == (if leftChild then -2 else 2)
    {
      ghost var h := Snap(s);
      p.balance := if leftChild then p.balance - 1 else p.balance + 1;
      ClimbTall(h, Snap(s), t, n, c, tree);
    }

    /** `bt_balance_tree`: climbs from the fresh leaf `n0`, storing true balance factors, until a
        subtree has regained the height it had before. */
    method BalanceTree(n0: Node, ghost s: set<Node>, ghost t0: Tree, ghost c0: Path) returns (r: Node, ghost u: Tree)
      requires t0 == Branch(Leaf, n0, Leaf) && HangsAt(Snap(s), t0, n0, c0, tree, 0) && PathNodes(c0) + {n0} <= s
      modifies `tree, s`left, s`right, s`parent, s`balance
      ensures Linked(Snap(s), u, tree, null) && Avl(u)
      ensures SameOrder(Plug(c0, t0), u)
    {
      var n: Node := n0;
      var p := n.parent;
      ghost var t, c, whole := t0, c0, Plug(c0, t0);
      while p != null
        invariant Climbing(Snap(s), t, n, c, tree) && p == Parent(c)
        invariant Plug(c, t) == whole && PathNodes(c) <= s
        decreases c
      {
        ClimbSide(Snap(s), t, n, c, tree);
        var leftChild := IsLeftChild(p, n);
        if p.balance == 0 {
          Tip(p, n, leftChild, s, t, c);
          n := p;
          p := n.parent;
          t, c := Joined(c, t), c.up;
        } else if (p.balance < 0 && !leftChild) || (p.balance > 0 && leftChild) {
          Absorb(p, n, leftChild, s, t, c);
          return p, Plug(c, t);
        } else {
          r, u := RotateAndStop(p, n, leftChild, s, t, c);
          return;
        }
      }
      return n, t;
    }

    /** `bt_find_node`. The path it takes down leads from the root, at each node on to the child on
        the side of the key, and ends at the node found or where there is no such child. */
    method FindNode(key: Ptr) returns (p: Node?, ghost i: nat, ghost path: seq<Node>)
      requires TotalOrder(kcfn) && Intact(kcfn, nodes, Now())
      ensures p != null ==>
        && key != NULL && i < |Bindings()| == |Order()| && p == Order()[i]
        && kcfn(key, Bindings()[i].key) == 0
      ensures p == null ==> key == NULL || !Bound(kcfn, Bindings(), key)
      ensures |path| <= Height(meaning.shape) && (key != NULL ==> Descent(kcfn, Now(), key, path, p))
    {
      ghost var st := Now();
      StartWalk(kcfn, nodes, st, key);
      i, path := 0, [];
      if key == NULL {
        return null, 0, [];
      }
      p := tree;
      ghost var t, c := st.shape, Top;
      while p != null
        invariant st.h == Snap(nodes) && st.d == Data(nodes)
        invariant Walking(st.h, kcfn, st.e, key, st.shape, t, p, c, st.tree)
        invariant |path| + Height(t) <= Height(st.shape) && Descent(kcfn, st, key, path, p)
        decreases t
      {
        ghost var m := Walked(st.h, kcfn, st.e, key, st.shape, t, p, c, st.tree);
        KeyAt(kcfn, nodes, st, m);
        ghost var n: Node := p;
        if kcfn(key, p.key) < 0 {
          t, c := t.l, Down(c, p, true, t.r);
          p := p.left;
        } else if kcfn(key, p.key) > 0 {
          t, c := t.r, Down(c, p, false, t.l);
          p := p.right;
        } else {
          i := m;
          return;
        }
        DescentNext(kcfn, st, key, path, n);
        path := path + [n];
      }
      AtLeaf(st.h, kcfn, st.e, key, st.shape, t, c, st.tree);
      WalkEnded(kcfn, st, key, c);
    }

    /** `bt_find`. */
    method Find(key: Ptr) returns (val: Ptr)
      requires Valid()
      ensures val == if key == NULL then NULL else Lookup(kcfn, Bindings(), key)
    {
      val := NULL;
      var p, i, _ := FindNode(key);
      if p != null {
        IntactFound(kcfn, nodes, Now(), key, i);
        val := p.val;
      }
    }

    /** The loop of `bt_insert_node`: finds the empty child pointer where `key` belongs and the
        neighbours of that place in order. */
    method FindPlace(key: Ptr) returns (dup: bool, parent: Node?, left: bool, succ: Node?, pred: Node?, ghost c: Path)
      requires TotalOrder(kcfn) && Intact(kcfn, nodes, Now())
      ensures dup ==> Bound(kcfn, Bindings(), key)
      ensures !dup ==>
        && Walking(Snap(nodes), kcfn, Bindings(), key, meaning.shape, Leaf, null, c, tree)
        && parent == Parent(c) && (c.Down? ==> left == c.left)
        && succ == NodeAt(Order(), From(c)) && pred == NodeAt(Order(), From(c) - 1)
    {
      ghost var st := Now();
      StartWalk(kcfn, nodes, st, key);
      var p := tree;
      dup, parent, left, succ, pred, c := false, null, false, null, null, Top;
      ghost var t, order, before: int, hi: int := st.shape, Inorder(st.shape), -1, |Inorder(st.shape)|;
      while p != null
        invariant st.h == Snap(nodes) && st.d == Data(nodes) && !dup
        invariant Walking(st.h, kcfn, st.e, key, st.shape, t, p, c, st.tree)
        invariant parent == Parent(c) && (c.Down? ==> left == c.left)
        invariant before + 1 == From(c) && hi == Upto(c, t)
        invariant succ == NodeAt(order, hi) && pred == NodeAt(order, before)
        decreases t
      {
        ghost var m := Walked(st.h, kcfn, st.e, key, st.shape, t, p, c, st.tree);
        KeyAt(kcfn, nodes, st, m);
        if kcfn(key, p.key) < 0 {
          t, c := t.l, Down(c, p, true, t.r);
          parent, left, succ, hi := p, true, p, m;
          p := p.left;
        } else if kcfn(key, p.key) > 0 {
          t, c := t.r, Down(c, p, false, t.l);
          parent, left, pred, before := p, false, p, m;
          p := p.right;
        } else {
          BoundAt(kcfn, st.e, key, m);
          dup := true;
          return;
        }
      }
      AtLeaf(st.h, kcfn, st.e, key, st.shape, t, c, st.tree);
    }

    /** `bt_get_node`: takes the node at the head of the free list. */
    method GetNode() returns (n: Node)
      requires freeList != null && freeList in nodes
      modifies `freeList, freeList`next
      ensures n == old(freeList) && freeList == old(n.next)
      ensures Ties(nodes) == old(Ties(nodes))[n := Tie(null, old(n.prev))]
    {
      n := freeList;
      freeList := n.next;
      n.next := null;
    }

    /** Makes the new node a leaf, and stores it in the empty child pointer or at the root. */
    method Hang(n: Node, parent: Node?, left: bool)
      requires n in nodes && n !in Opt(parent) && Opt(parent) <= nodes
      modifies `tree, `size, n`left, n`right, n`parent, n`balance, Opt(parent)`left, Opt(parent)`right
      ensures LeafLinked(old(Snap(nodes)), Snap(nodes), n, parent, left)
      ensures tree == (if parent == null then n else old(tree)) && size == old(size) + 1
    {
      n.parent := parent;
      n.left, n.right := null, null;
      n.balance := 0;
      if parent == null {
        tree := n;
      } else if left {
        parent.left := n;
      } else {
        parent.right := n;
      }
      size := size + 1;
    }

    /** `Hang`, which leaves the threads, the keys and the values alone. */
    method HangOnly(n: Node, parent: Node?, left: bool)
      requires n in nodes && n !in Opt(parent) && Opt(parent) <= nodes
      modifies `tree, `size, n`left, n`right, n`parent, n`balance, Opt(parent)`left, Opt(parent)`right
      ensures LeafLinked(old(Snap(nodes)), Snap(nodes), n, parent, left)
      ensures tree == (if parent == null then n else old(tree)) && size == old(size) + 1
      ensures Ties(nodes) == old(Ties(nodes)) && Data(nodes) == old(Data(nodes))
    {
      Hang(n, parent, left);
    }

    /** Fills in the new node and ties it to its neighbours. */
    method TieIn(n: Node, key: Ptr, val: Ptr, succ: Node?, pred: Node?)
      requires n in nodes && n !in Opt(succ) + Opt(pred) && Opt(succ) + Opt(pred) <= nodes
      modifies n`key, n`val, n`next, n`prev, Opt(succ)`prev, Opt(pred)`next
      ensures TiedBetween(old(Ties(nodes)), Ties(nodes), n, succ, pred)
      ensures DataSet(old(Data(nodes)), Data(nodes), n, Binding(key, val))
    {
      n.next, n.prev := succ, pred;
      n.key, n.val := key, val;
      if succ != null { succ.prev := n; }
      if pred != null { pred.next := n; }
    }

    /** Takes a node from the free list, fills it in and ties it to its neighbours. */
    method Take(key: Ptr, val: Ptr, succ: Node?, pred: Node?)
      returns (n: Node, ghost th: map<Node, Tie>, ghost d: map<Node, Binding>)
      requires freeList != null && freeList in nodes && freeList !in Opt(succ) + Opt(pred)
      requires Opt(succ) + Opt(pred) <= nodes
      modifies `freeList, nodes`key, nodes`val, nodes`next, nodes`prev
      ensures n == old(freeList) && freeList == old(n.next)
      ensures th == Ties(nodes) && TiedBetween(old(Ties(nodes)), th, n, succ, pred)
      ensures d == Data(nodes) && DataSet(old(Data(nodes)), d, n, Binding(key, val))
    {
      ghost var was := Ties(nodes);
      n := GetNode();
      ghost var x := Ties(nodes)[n];
      TieIn(n, key, val, succ, pred);
      th, d := Ties(nodes), Data(nodes);
      RetiedBetween(was, th, n, x, succ, pred);
    }

    /** `Take`, which leaves the links alone. */
    method TakeOnly(key: Ptr, val: Ptr, succ: Node?, pred: Node?)
      returns (n: Node, ghost th: map<Node, Tie>, ghost d: map<Node, Binding>)
      requires freeList != null && freeList in nodes && freeList !in Opt(succ) + Opt(pred)
      requires Opt(succ) + Opt(pred) <= nodes
      modifies `freeList, nodes`key, nodes`val, nodes`next, nodes`prev
      ensures n == old(freeList) && freeList == old(n.next) && Snap(nodes) == old(Snap(nodes))
      ensures th == Ties(nodes) && TiedBetween(old(Ties(nodes)), th, n, succ, pred)
      ensures d == Data(nodes) && DataSet(old(Data(nodes)), d, n, Binding(key, val))
    {
      n, th, d := Take(key, val, succ, pred);
    }

    /** Makes a node from the free list the new leaf. */
    method Splice(key: Ptr, val: Ptr, parent: Node?, left: bool, succ: Node?, pred: Node?)
      returns (n: Node, ghost th: map<Node, Tie>, ghost d: map<Node, Binding>)
      requires freeList != null && freeList in nodes && freeList !in Opt(parent) + Opt(succ) + Opt(pred)
      requires Opt(parent) + Opt(succ) + Opt(pred) <= nodes
      modifies `tree, `size, `freeList, nodes
      ensures n == old(freeList) && freeList == old(n.next)
      ensures LeafLinked(old(Snap(nodes)), Snap(nodes), n, parent, left)
      ensures th == Ties(nodes) && TiedBetween(old(Ties(nodes)), th, n, succ, pred)
      ensures d == Data(nodes) && DataSet(old(Data(nodes)), d, n, Binding(key, val))
      ensures tree == (if parent == null then n else old(tree)) && size == old(size) + 1
    {
      n, th, d := TakeOnly(key, val, succ, pred);
      HangOnly(n, parent, left);
    }

    /** Balancing leaves the threads, the keys and the values alone. */
    method Rebalance(n: Node, ghost c: Path) returns (ghost u: Tree)
      requires HangsAt(Snap(nodes), Branch(Leaf, n, Leaf), n, c, tree, 0) && PathNodes(c) + {n} <= nodes
      modifies `tree, nodes`left, nodes`right, nodes`parent, nodes`balance
      ensures Linked(Snap(nodes), u, tree, null) && Avl(u)
      ensures SameOrder(Plug(c, Branch(Leaf, n, Leaf)), u)
      ensures Ties(nodes) == old(Ties(nodes)) && Data(nodes) == old(Data(nodes))
    {
      var r;
      r, u := BalanceTree(n, nodes, Branch(Leaf, n, Leaf), c);
    }

    /** Records what the state now represents. */
    ghost method Record(m: Meaning)
      modifies `meaning
      ensures Now() == old(Now()).(shape := m.shape, free := m.free, e := m.e)
    {
      meaning := m;
    }

    /** Records the state after a leaf is added and the tree balanced. */
    ghost method Conclude(st: State, key: Ptr, val: Ptr, c: Path, u: Tree)
      requires TotalOrder(kcfn) && Intact(kcfn, nodes, st) && Place(kcfn, st, key, c) && key != NULL && val != NULL
      requires SameOrder(Plug(c, Branch(Leaf, st.head, Leaf)), u) && Avl(u) && Linked(Snap(nodes), u, tree, null)
      requires TiedBetween(st.th, Ties(nodes), st.head, NodeAt(Inorder(st.shape), From(c)),
                           NodeAt(Inorder(st.shape), From(c) - 1))
      requires st.head in nodes && st.head in st.th && st.head in st.d
      requires freeList == st.th[st.head].next && size == st.size + 1
      requires DataSet(st.d, Data(nodes), st.head, Binding(key, val))
      modifies `meaning
      ensures Intact(kcfn, nodes, Now()) && Bindings() == Insert(kcfn, st.e, key, val)
    {
      var st' := AddedIntact(kcfn, nodes, st, key, val, c, Snap(nodes), Ties(nodes), Data(nodes), tree, freeList, u);
      assert Now().(shape := st'.shape, free := st'.free, e := st'.e) == st';
      Record(Meaning(st'.shape, st'.free, st'.e));
    }

    /** Balances the tree with its new leaf. */
    method Settle(n: Node, ghost st: State, ghost key: Ptr, ghost val: Ptr, ghost c: Path)
      requires TotalOrder(kcfn) && Intact(kcfn, nodes, st) && Place(kcfn, st, key, c) && key != NULL && val != NULL
      requires HangsAt(Snap(nodes), Branch(Leaf, n, Leaf), n, c, tree, 0) && PathNodes(c) <= nodes
      requires n == st.head && n in nodes && n in st.th && n in st.d && freeList == st.th[n].next && size == st.size + 1
      requires TiedBetween(st.th, Ties(nodes), n, NodeAt(Inorder(st.shape), From(c)),
                           NodeAt(Inorder(st.shape), From(c) - 1))
      requires DataSet(st.d, Data(nodes), n, Binding(key, val))
      modifies `tree, `meaning, nodes`left, nodes`right, nodes`parent, nodes`balance
      ensures Intact(kcfn, nodes, Now()) && Bindings() == Insert(kcfn, st.e, key, val)
    {
      ghost var u := Rebalance(n, c);
      Conclude(st, key, val, c, u);
    }

    /** Adds an unbound key where `FindPlace` ended. */
    method AddAt(key: Ptr, val: Ptr, parent: Node?, left: bool, succ: Node?, pred: Node?,
                 ghost c: Path, ghost st: State)
      requires st == Now() && TotalOrder(kcfn) && Intact(kcfn, nodes, st) && Place(kcfn, st, key, c)
      requires key != NULL && val != NULL && parent == Parent(c) && (c.Down? ==> left == c.left)
      requires succ == NodeAt(Inorder(st.shape), From(c)) && pred == NodeAt(Inorder(st.shape), From(c) - 1)
      modifies `tree, `size, `freeList, `meaning, nodes
      ensures Intact(kcfn, nodes, Now()) && Bindings() == Insert(kcfn, st.e, key, val)
    {
      SpotFacts(kcfn, nodes, st, key, c);
      var n, _, _ := Splice(key, val, parent, left, succ, pred);
      PlaceWithin(kcfn, st, key, c);
      LeafHangs(st.h, Snap(nodes), c, st.tree, n, left);
      Settle(n, st, key, val, c);
    }

    /** `bt_insert_node`. */
    method InsertNode(key: Ptr, val: Ptr) returns (added: bool)
      requires Valid() && freeList != null && key != NULL && val != NULL
      modifies this, nodes
      ensures Valid() && nodeList == old(nodeList) && nodes == old(nodes)
      ensures added == !Bound(kcfn, old(Bindings()), key)
      ensures Bindings() == Insert(kcfn, old(Bindings()), key, val)
    {
      var dup, parent, left, succ, pred;
      ghost var c;
      dup, parent, left, succ, pred, c := FindPlace(key);
      ghost var st := Now();
      if dup {
        IntactBound(kcfn, nodes, st, key, val);
        return false;
      }
      WalkEnded(kcfn, st, key, c);
      AddAt(key, val, parent, left, succ, pred, c, st);
      return true;
    }

    /** `bt_add_more_nodes`: a new block joins the free list, which must be empty. */
    method AddMoreNodes()
      requires Valid()
      modifies `nodeList, `freeList, `numLists, `nodes, `meaning
      ensures Valid() && freeList != null && Bindings() == old(Bindings())
      ensures old(nodes) <= nodes && fresh(nodes - old(nodes))
      ensures if old(freeList) != null then nodeList == old(nodeList)
              else |nodeList| == |old(nodeList)| + 1 && old(nodeList) == nodeList[..|old(nodeList)|]
    {
      if freeList != null { return; }
      ghost var st := Now();
      var b := NewBlock(listSize);
      JoinBlock(b, st);
    }

    /** Lists a new block, and makes it the free list. */
    method JoinBlock(b: seq<Node>, ghost st: State)
      requires ValidBlocks() && Intact(kcfn, nodes, st) && st == Now() && freeList == null
      requires |b| == listSize && NoDup(b) && nodes !! Set(b) && Chained(Ties(Set(b)), Data(Set(b)), b[0], b)
      modifies `nodeList, `freeList, `numLists, `nodes, `meaning
      ensures ValidBlocks() && Intact(kcfn, nodes, Now())
      ensures nodes == old(nodes) + Set(b) && nodeList == old(nodeList) + [b]
      ensures freeList == b[0] && Bindings() == old(Bindings())
    {
      BlocksGrow(nodeList, listSize, nodes, b);
      EnterBlock(b);
      JoinFree(b, st);
    }

    method EnterBlock(b: seq<Node>)
      modifies `nodeList, `numLists
      ensures nodeList == old(nodeList) + [b] && numLists == old(numLists) + 1 && Now() == old(Now())
    {
      numLists := numLists + 1;
      nodeList := nodeList + [b];
    }

    /** Makes a new block the free list. */
    method JoinFree(b: seq<Node>, ghost st: State)
      requires Intact(kcfn, nodes, st) && st == Now() && freeList == null
      requires b != [] && NoDup(b) && nodes !! Set(b) && Chained(Ties(Set(b)), Data(Set(b)), b[0], b)
      modifies `freeList, `nodes, `meaning
      ensures Intact(kcfn, nodes, Now()) && nodes == old(nodes) + Set(b)
      ensures freeList == b[0] && Bindings() == old(Bindings())
    {
      ghost var s := nodes + Set(b);
      ghost var st' := State(Snap(s), Ties(s), Data(s), tree, b[0], size, meaning.shape, b, meaning.e);
      BlockJoined(kcfn, nodes, st, b, st', Ties(Set(b)), Data(Set(b)));
      EnterFree(b, st');
    }

    method EnterFree(b: seq<Node>, ghost st': State)
      requires b != [] && st'.free == b
      requires var s := nodes + Set(b);
        st' == State(Snap(s), Ties(s), Data(s), tree, b[0], size, meaning.shape, b, meaning.e)
      modifies `freeList, `nodes, `meaning
      ensures Now() == st' && nodes == old(nodes) + Set(b) && freeList == b[0]
    {
      freeList := b[0];
      Enrol(nodes + Set(b), st');
    }

    /** Records the nodes in use and the free list. */
    ghost method Enrol(s: set<Node>, st': State)
      requires st' == State(Snap(s), Ties(s), Data(s), tree, freeList, size, meaning.shape, st'.free, meaning.e)
      modifies `nodes, `meaning
      ensures Now() == st' && nodes == s
    {
      nodes, meaning := s, meaning.(free := st'.free);
    }

    /** `bt_new`: an empty tree with a first block of free nodes. */
    constructor (initialCapacity: nat, cmp: Option<Compare>, hasVdfn: bool, hasKdfn: bool)
      requires cmp.Some? ==> TotalOrder(cmp.value)
      ensures Valid() && Bindings() == [] && freeList != null && fresh(nodes)
      ensures kcfn == KeyCmp(cmp) && (cmp.Some? ==> kcfn == cmp.value)
      ensures cmp.None? ==> forall l, r :: (kcfn(l, r) < 0 <==> l < r) && (kcfn(l, r) == 0 <==> l == r)
      ensures this.hasVdfn == hasVdfn && this.hasKdfn == hasKdfn
    {
      kcfn := KeyCmp(cmp);
      this.hasVdfn, this.hasKdfn := hasVdfn, hasKdfn;
      numLists := 0;
      listSize := if initialCapacity > 0 then initialCapacity else DEFAULT_INITIAL_CAPACITY;
      nodeList := [];
      freeList := null;
      tree := null;
      size := 0;
      nodes := {};
      meaning := Meaning(Leaf, [], []);
      new;
      KeyCmpIsTotal(cmp);
      EmptyIntact(kcfn, nodes, Now());
      AddMoreNodes();
    }

    /** `bt_size`. */
    function Size(): (n: nat)
      requires Valid()
      reads this, nodes
      ensures n == |Bindings()|
    {
      IntactTree(kcfn, nodes, Now());
      size
    }

    /** `bt_add`. */
    method Add(key: Ptr, val: Ptr) returns (added: bool)
      requires Valid()
      modifies this, nodes
      ensures Valid() && old(nodes) <= nodes && fresh(nodes - old(nodes))
      ensures added == (key != NULL && val != NULL && !Bound(kcfn, old(Bindings()), key))
      ensures Bindings() == Put(kcfn, old(Bindings()), Binding(key, val))
      ensures !added ==> Bindings() == old(Bindings())
      ensures added ==> exists k | 0 <= k <= |old(Bindings())| ::
        Bindings() == old(Bindings())[..k] + [Binding(key, val)] + old(Bindings())[k..]
    {
      if key == NULL || val == NULL {
        return false;
      }
      if freeList == null {
        AddMoreNodes();
      }
      IntactBindings(kcfn, nodes, Now());
      InsertMembers(kcfn, Bindings(), key, val);
      added := InsertNode(key, val);
    }

    // ----- iterators

    /** `bt_find_tree_min`. */
    method FindTreeMin(p: Node?, ghost t: Tree, ghost par: Node?) returns (m: Node?)
      requires Linked(Snap(nodes), t, p, par)
      ensures m == NodeAt(Inorder(t), 0)
    {
      m := p;
      if m == null { return; }
      ghost var u, q := t, par;
      while m.left != null
        invariant m != null && Linked(Snap(nodes), u, m, q) && u.Branch?
        invariant Inorder(t) != [] && Inorder(t)[0] == Inorder(u)[0]
        decreases u
      {
        q := m;
        u := u.l;
        m := m.left;
      }
    }

    /** `bt_find_tree_max`. */
    method FindTreeMax(p: Node?, ghost t: Tree, ghost par: Node?) returns (m: Node?)
      requires Linked(Snap(nodes), t, p, par)
      ensures m == NodeAt(Inorder(t), |Inorder(t)| - 1)
    {
      m := p;
      if m == null { return; }
      ghost var u, q := t, par;
      while m.right != null
        invariant m != null && Linked(Snap(nodes), u, m, q) && u.Branch?
        invariant Inorder(t) != [] && Inorder(t)[|Inorder(t)| - 1] == Inorder(u)[|Inorder(u)| - 1]
        decreases u
      {
        q := m;
        u := u.r;
        m := m.right;
      }
    }

    /** `bt_itr_begin` and `bt_itr_rbegin`. */
    method ItrBegin() returns (itr: Node?)
      requires Valid()
      ensures itr == NodeAt(Order(), 0)
    {
      IntactTree(kcfn, nodes, Now());
      itr := FindTreeMin(tree, meaning.shape, null);
    }

    method ItrRbegin() returns (itr: Node?)
      requires Valid()
      ensures itr == NodeAt(Order(), |Order()| - 1)
    {
      IntactTree(kcfn, nodes, Now());
      itr := FindTreeMax(tree, meaning.shape, null);
    }

    /** `bt_itr_next` and `bt_itr_rnext`; null is the end. */
    function ItrNext(itr: Node?): Node?
      reads itr
    {
      if itr == null then null else itr.next
    }

    function ItrRnext(itr: Node?): Node?
      reads itr
    {
      if itr == null then null else itr.prev
    }

    /** The i-th node holds the i-th binding, and its threads lead to its neighbours in order. */
    lemma ItrSteps(i: nat)
      requires Valid() && i < |Order()|
      ensures |Bindings()| == |Order()| && Order()[i] in nodes
      ensures Binding(Order()[i].key, Order()[i].val) == Bindings()[i]
      ensures ItrNext(Order()[i]) == NodeAt(Order(), i + 1) && ItrRnext(Order()[i]) == NodeAt(Order(), i - 1)
    {
      IntactTree(kcfn, nodes, Now());
      IntactBindings(kcfn, nodes, Now());
      StepAt(Ties(nodes), Data(nodes), Order(), Bindings(), i);
    }

    lemma Walkable()
      requires Valid()
      ensures |Order()| == |Bindings()| && Threaded(Ties(nodes), Order()) && Holds(Data(nodes), Order(), Bindings())
    {
      IntactTree(kcfn, nodes, Now());
      IntactBindings(kcfn, nodes, Now());
    }

    /** A walk with the iterators from the first node to the end. */
    method Forward() returns (out: seq<Binding>)
      requires Valid()
      ensures out == Bindings()
      ensures forall i, j | 0 <= i < j < |out| :: kcfn(out[i].key, out[j].key) < 0
    {
      Walkable();
      IntactBindings(kcfn, nodes, Now());
      ghost var order, e, th, d := Order(), Bindings(), Ties(nodes), Data(nodes);
      out := [];
      var itr := ItrBegin();
      ghost var k := 0;
      while itr != null
        invariant th == Ties(nodes) && d == Data(nodes)
        invariant 0 <= k <= |order| && itr == NodeAt(order, k) && out == e[..k]
        decreases |order| - k
      {
        StepAt(th, d, order, e, k);
        PrefixStep(e, k);
        assert itr in nodes;
        out := out + [Binding(itr.key, itr.val)];
        itr := ItrNext(itr);
        k := k + 1;
      }
    }

    /** A walk with the iterators from the last node to the reverse end. */
    method Backward() returns (out: seq<Binding>)
      requires Valid()
      ensures out == Backwards(Bindings(), 0)
    {
      Walkable();
      ghost var order, e, th, d := Order(), Bindings(), Ties(nodes), Data(nodes);
      out := [];
      var itr := ItrRbegin();
      ghost var k := |order| - 1;
      while itr != null
        invariant th == Ties(nodes) && d == Data(nodes)
        invariant -1 <= k < |order| && itr == NodeAt(order, k) && out == Backwards(e, k + 1)
        decreases k + 1
      {
        StepAt(th, d, order, e, k);
        assert itr in nodes;
        out := out + [Binding(itr.key, itr.val)];
        itr := ItrRnext(itr);
        k := k - 1;
      }
    }

    /** The height, and so the number of steps of a search, is logarithmic in the size. */
    lemma SearchIsLogarithmic(steps: nat)
      requires Valid() && steps <= Height(meaning.shape)
      ensures size + 1 >= Fib(Height(meaning.shape) + 2) && size + 1 >= Pow2(steps / 2)
    {
      IntactIsShallow(kcfn, nodes, Now(), steps);
    }

    // ----- release

    /** `bt_deinitialize`: the keys and the values passed to the delete functions, in order. */
    method Deinitialize() returns (keys: seq<Ptr>, vals: seq<Ptr>)
      requires Valid()
      modifies this
      ensures var e := old(Bindings());
        multiset(keys) == if hasKdfn then multiset(seq(|e|, i requires 0 <= i < |e| => e[i].key)) else multiset{}
      ensures var e := old(Bindings());
        multiset(vals) == if hasVdfn then multiset(seq(|e|, i requires 0 <= i < |e| => e[i].val)) else multiset{}
      ensures Valid() && Bindings() == [] && freeList == null && nodeList == []
    {
      keys, vals := ReleaseAll();
      BlocksHave(nodeList, numLists, listSize, nodes);
      AllHanded(kcfn, nodes, Now(), Flat(nodeList), hasKdfn, true);
      AllHanded(kcfn, nodes, Now(), Flat(nodeList), hasVdfn, false);
      PartsAre(Bindings());
      Clear();
    }

    method Clear()
      requires TotalOrder(kcfn) && listSize > 0
      modifies `nodeList, `freeList, `tree, `size, `numLists, `nodes, `meaning
      ensures Valid() && Bindings() == [] && freeList == null && nodeList == []
    {
      nodeList := [];
      freeList, tree := null, null;
      size, numLists := 0, 0;
      nodes, meaning := {}, Meaning(Leaf, [], []);
      EmptyIntact(kcfn, nodes, Now());
    }

    method ReleaseAll() returns (keys: seq<Ptr>, vals: seq<Ptr>)
      requires ValidBlocks()
      ensures keys == Handed(hasKdfn, Data(nodes), Flat(nodeList), true)
      ensures vals == Handed(hasVdfn, Data(nodes), Flat(nodeList), false)
      ensures keys == if hasKdfn then NonNull(KeysOf(Data(nodes), Flat(nodeList))) else []
      ensures vals == if hasVdfn then NonNull(ValuesOf(Data(nodes), Flat(nodeList))) else []
    {
      keys, vals := [], [];
      ghost var d, done := Data(nodes), [];
      for i := 0 to numLists
        invariant d == Data(nodes) && done == Flat(nodeList[..i])
        invariant keys == Handed(hasKdfn, d, done, true) && vals == Handed(hasVdfn, d, done, false)
      {
        var b := nodeList[i];
        BlockHas(nodeList, numLists, listSize, nodes, i);
        keys, vals := ReleaseBlock(b, keys, vals, done);
        done := done + b;
        assert nodeList[..i + 1][..i] == nodeList[..i];
      }
      assert nodeList[..numLists] == nodeList;
      ReleasedKeys(d, Flat(nodeList));
      ReleasedValues(d, Flat(nodeList));
    }

    /** The inner loop of `bt_deinitialize`. */
    method ReleaseBlock(b: seq<Node>, keys0: seq<Ptr>, vals0: seq<Ptr>, ghost before: seq<Node>)
      returns (keys: seq<Ptr>, vals: seq<Ptr>)
      requires |b| == listSize && forall n | n in b :: n in nodes
      requires keys0 == Handed(hasKdfn, Data(nodes), before, true)
      requires vals0 == Handed(hasVdfn, Data(nodes), before, false)
      ensures keys == Handed(hasKdfn, Data(nodes), before + b, true)
      ensures vals == Handed(hasVdfn, Data(nodes), before + b, false)
    {
      keys, vals := keys0, vals0;
      ghost var d := Data(nodes);
      assert before + b[..0] == before;
      for j := 0 to listSize
        invariant d == Data(nodes)
        invariant keys == Handed(hasKdfn, d, before + b[..j], true)
        invariant vals == Handed(hasVdfn, d, before + b[..j], false)
      {
        var p := b[j];
        HandedNext(hasKdfn, d, before, b, j, true);
        HandedNext(hasVdfn, d, before, b, j, false);
        if hasKdfn && p.key != NULL { keys := keys + [p.key]; }
        if hasVdfn && p.val != NULL { vals := vals + [p.val]; }
      }
      assert b[..listSize] == b;
    }
  }

  const DEFAULT_INITIAL_CAPACITY: nat := 16

  /** Any run of additions to a new tree ends in a valid tree that represents what the run of
      additions means; each addition tells whether it was the first one of its key. */
  method RunAll(initialCapacity: nat, cmp: Option<Compare>, adds: seq<Binding>)
    returns (bt: Btree, added: seq<bool>)
    requires cmp.Some? ==> TotalOrder(cmp.value)
    ensures bt.Valid() && bt.kcfn == KeyCmp(cmp) && (cmp.Some? ==> bt.kcfn == cmp.value)
    ensures cmp.None? ==> forall l, r :: (bt.kcfn(l, r) < 0 <==> l < r) && (bt.kcfn(l, r) == 0 <==> l == r)
    ensures bt.Bindings() == RunAdds(bt.kcfn, adds, |adds|)
    ensures added == Firsts(bt.kcfn, adds, |adds|)
  {
    KeyCmpIsTotal(cmp);
    bt := new Btree(initialCapacity, cmp, false, false);
    added := [];
    for i := 0 to |adds|
      invariant bt.Valid() && fresh(bt) && fresh(bt.nodes)
      invariant bt.Bindings() == RunAdds(bt.kcfn, adds, i)
      invariant added == Firsts(bt.kcfn, adds, i)
    {
      var a := AddNth(bt, adds, i);
      added := added + [a];
    }
  }

  /** The i-th addition of a run. */
  method AddNth(bt: Btree, adds: seq<Binding>, i: nat) returns (added: bool)
    requires bt.Valid() && i < |adds| && bt.Bindings() == RunAdds(bt.kcfn, adds, i)
    modifies bt, bt.nodes
    ensures bt.Valid() && fresh(bt.nodes - old(bt.nodes)) && bt.Bindings() == RunAdds(bt.kcfn, adds, i + 1)
    ensures Firsts(bt.kcfn, adds, i + 1) == Firsts(bt.kcfn, adds, i) + [added]
  {
    FirstAddIsNew(bt.kcfn, adds, i);
    added := bt.Add(adds[i].key, adds[i].val);
  }

  /** The same with lookups and a walk after it. An addition succeeds exactly if its key and value
      are not null and no earlier addition of the kind has an equal key. A lookup finds the value of
      the successful addition of an equal key, or NULL. The walk visits the successful additions in
      increasing order of their keys. Without a compare function, keys are equal if they are the same
      address, and ordered as addresses. */
  method Run(initialCapacity: nat, cmp: Option<Compare>, adds: seq<Binding>, keys: seq<Ptr>)
    returns (added: seq<bool>, found: seq<Ptr>, visited: seq<Binding>)
    requires cmp.Some? ==> TotalOrder(cmp.value)
    ensures |added| == |adds| && |found| == |keys|
    ensures cmp.None? ==> forall i | 0 <= i < |adds| :: added[i] <==>
      && adds[i].key != NULL && adds[i].val != NULL
      && forall j | 0 <= j < i :: adds[j].val == NULL || adds[j].key != adds[i].key
    ensures cmp.Some? ==> forall i | 0 <= i < |adds| :: added[i] <==>
      && adds[i].key != NULL && adds[i].val != NULL
      && forall j | 0 <= j < i ::
           adds[j].key == NULL || adds[j].val == NULL || cmp.value(adds[i].key, adds[j].key) != 0
    ensures forall i, j | 0 <= i < |keys| && 0 <= j < |adds| && added[j] && keys[i] != NULL ::
      (if cmp.None? then keys[i] == adds[j].key else cmp.value(keys[i], adds[j].key) == 0) ==> found[i] == adds[j].val
    ensures forall i | 0 <= i < |keys| :: found[i] == NULL || (keys[i] != NULL && exists j | 0 <= j < |adds| ::
      added[j] && found[i] == adds[j].val
      && if cmp.None? then keys[i] == adds[j].key else cmp.value(keys[i], adds[j].key) == 0)
    ensures forall i, j | 0 <= i < j < |visited| ::
      if cmp.None? then visited[i].key < visited[j].key else cmp.value(visited[i].key, visited[j].key) < 0
    ensures forall b :: b in visited <==> exists j | 0 <= j < |adds| :: added[j] && adds[j] == b
  {
    KeyCmpIsTotal(cmp);
    var bt;
    bt, added := RunAll(initialCapacity, cmp, adds);
    found := FindAll(bt, adds, keys);
    visited := bt.Forward();
    AddedMeansAll(KeyCmp(cmp), adds, added);
    FoundMeansAll(KeyCmp(cmp), adds, keys, added, found);
    VisitedMeansAll(KeyCmp(cmp), adds, added, visited);
  }

  method FindAll(bt: Btree, adds: seq<Binding>, keys: seq<Ptr>) returns (found: seq<Ptr>)
    requires bt.Valid() && bt.Bindings() == RunAdds(bt.kcfn, adds, |adds|)
    ensures found == FirstValues(bt.kcfn, adds, keys, |keys|)
  {
    found := [];
    for i := 0 to |keys|
      invariant bt.Valid() && bt.Bindings() == RunAdds(bt.kcfn, adds, |adds|)
      invariant found == FirstValues(bt.kcfn, adds, keys, i)
    {
      var val := FindAfter(bt, adds, keys[i]);
      found := found + [val];
    }
  }

  /** A lookup after a run. */
  method FindAfter(bt: Btree, adds: seq<Binding>, key: Ptr) returns (val: Ptr)
    requires bt.Valid() && bt.Bindings() == RunAdds(bt.kcfn, adds, |adds|)
    ensures val == FirstValue(bt.kcfn, adds, key)
  {
    RunAddsLookup(bt.kcfn, adds, |adds|, key);
    val := bt.Find(key);
  }

  /** A zeroed block of nodes, linked into a free list. */
  method NewBlock(size: nat) returns (b: seq<Node>)
    requires size > 0
    ensures |b| == size && NoDup(b) && fresh(b)
    ensures Chained(Ties(Set(b)), Data(Set(b)), b[0], b)
  {
    b := [];
    while |b| < size
      invariant |b| <= size && NoDup(b) && fresh(b)
      invariant forall i | 0 <= i < |b| :: b[i].key == NULL && b[i].val == NULL
    {
      var n := new Node();
      b := b + [n];
    }
    var j := 0;
    while j < size - 1
      invariant 0 <= j <= size - 1
      invariant forall i | 0 <= i < |b| :: b[i].key == NULL && b[i].val == NULL
      invariant forall i {:trigger b[i].next} | 0 <= i < j :: b[i].next == NodeAt(b, i + 1)
    {
      b[j].next := b[j + 1];
      j := j + 1;
    }
    b[size - 1].next := null;
    forall i | 0 <= i < |b| ensures FreeAt(Ties(Set(b)), Data(Set(b)), b, i) {
    }
  }
}
