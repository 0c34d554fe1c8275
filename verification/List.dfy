/** The array-backed list of `src/list.c`. */
module List {
  import opened Sequences
  import opened Numbers
  import opened ListRing

  function Range(i: nat, n: nat): seq<int>
    requires i <= n
  {
    seq(n - i, k requires 0 <= k < n - i => i + k)
  }

  lemma InRange(i: nat, n: nat)
    requires i <= n
    ensures forall x | i <= x < n :: x in Range(i, n)
  {
    forall x | i <= x < n ensures x in Range(i, n) {
      assert Range(i, n)[x - i] == x;
    }
  }

  lemma RangeStep(k: nat, n: nat)
    requires k < n
    ensures Range(0, k) + [Range(k, n)[0]] == Range(0, k + 1) && Range(k, n)[1..] == Range(k + 1, n)
  {
  }

  /** The size that doubling as often as needed leads to; a list without slots gets what it needs. */
  ghost predicate GrownSize(size: nat, amount: nat, newSize: nat) {
    if size == 0 then newSize == amount
    else exists m: nat {:trigger Doubled(size, m)} ::
      && m > 0 && newSize == Doubled(size, m) && newSize >= size + amount
      && (m == 1 || Doubled(size, m - 1) < size + amount)
  }

  lemma GrownByOne(size: nat, newSize: nat)
    requires GrownSize(size, 1, newSize)
    ensures newSize == if size == 0 then 1 else 2 * size
  {
    if size > 0 {
      var m: nat :| m > 0 && newSize == Doubled(size, m) && (m == 1 || Doubled(size, m - 1) < size + 1);
      if m > 1 { DoubledGrows(size, m - 2); }
      assert Doubled(size, 1) == 2 * size;
    }
  }

  lemma {:induction false} DoubledGrows(size: nat, m: nat)
    ensures Doubled(size, m) >= size && Doubled(size, m + 1) >= 2 * size
  {
    if m > 0 { DoubledGrows(size, m - 1); }
  }

  function Doubled(size: nat, m: nat): nat {
    if m == 0 then size else 2 * Doubled(size, m - 1)
  }

  lemma {:induction false} DoubledIsPower(size: nat, m: nat)
    ensures Doubled(size, m) == size * Pow2(m)
  {
    if m > 0 {
      DoubledIsPower(size, m - 1);
      TwiceProduct(size, Pow2(m - 1));
    }
  }

  lemma TwiceProduct(x: nat, y: nat)
    ensures 2 * (x * y) == x * (2 * y)
  {
  }

  /** The size after growing: the old one times a power of two, the least one that makes room. */
  lemma GrownExactly(size: nat, amount: nat, newSize: nat)
    requires GrownSize(size, amount, newSize) && amount > 0
    ensures size == 0 ==> newSize == amount
    ensures size > 0 ==> exists m: nat {:trigger Pow2(m)} :: m > 0 && newSize == size * Pow2(m)
    ensures size > 0 ==> newSize >= size + amount && (newSize == 2 * size || newSize < 2 * (size + amount))
  {
    if size > 0 {
      var m: nat :|
        && m > 0 && newSize == Doubled(size, m) && newSize >= size + amount
        && (m == 1 || Doubled(size, m - 1) < size + amount);
      DoubledIsPower(size, m);
      assert Doubled(size, 1) == 2 * size;
    }
  }

  /** `insert_item`: puts `item` in front of `itr`, the slot at position `k` of the ring `s`, or
      makes it the only one of an empty ring. */
  method InsertItem<T>(items: array<Slot<T>>, itr: int, item: int, ghost s: seq<int>, ghost k: nat) returns (r: int)
    requires Ring(items[..], s) && k <= |s| && item !in s && 0 <= item < items.Length
    requires itr == if s == [] then END else Follower(s, k)
    modifies items
    ensures SplicedAt(old(items[..]), items[..], s, k, item)
    ensures r == if s == [] then item else itr
  {
    if s != [] {
      ghost var j := if k == |s| then 0 else k;
      assert RingAt(items[..], s, j) && RingAt(items[..], s, Pred(j, |s|));
    }
    if itr == END {
      items[item] := items[item].(prev := item);
      items[item] := items[item].(next := item);
      return item;
    }
    items[item] := items[item].(next := itr);
    var p := items[itr].prev;
    items[p] := items[p].(next := item);
    items[item] := items[item].(prev := p);
    items[itr] := items[itr].(prev := item);
    return itr;
  }

  /** `remove_item`: takes `itr`, the slot at position `k` of the ring `s`, out of its ring and
      returns the slot after it, if there is one. */
  method RemoveItem<T>(items: array<Slot<T>>, itr: int, ghost s: seq<int>, ghost k: nat) returns (next: int)
    requires Ring(items[..], s) && k < |s| && itr == s[k]
    modifies items
    ensures 0 <= itr < items.Length && Unspliced(old(items[..]), items[..], itr)
    ensures next == if |s| == 1 then END else s[Succ(k, |s|)]
  {
    assert RingAt(items[..], s, k);
    assert RingAt(items[..], s, Succ(k, |s|)) && RingAt(items[..], s, Pred(k, |s|));
    next := END;
    if items[itr].next != itr && items[itr].prev != itr {
      next := items[itr].next;
      var p := items[itr].prev;
      items[p] := items[p].(next := items[itr].next);
      items[next] := items[next].(prev := items[itr].prev);
    }
    items[itr] := items[itr].(next := END);
    items[itr] := items[itr].(prev := END);
  }

  /** The first loop of `list_grow`: a new array whose slots form one free ring. */
  method NewSlots<T>(n: nat) returns (items: array<Slot<T>>, freeHead: int)
    ensures fresh(items) && items.Length == n && freeHead == HeadOf(Range(0, n))
    ensures Sound(items[..], Rings([], Range(0, n), []))
  {
    items := new Slot<T>[n](_ => Slot(0, 0, false, None));
    freeHead := END;
    for i := 0 to n
      invariant Ring(items[..], Range(0, i)) && freeHead == HeadOf(Range(0, i))
      invariant forall k | 0 <= k < n :: !items[k].used && items[k].data.None?
    {
      ghost var a := items[..];
      freeHead := InsertItem(items, freeHead, i, Range(0, i), i);
      RingSplice(a, items[..], Range(0, i), i, i);
      assert Inserted(Range(0, i), i, i) == Range(0, i + 1);
    }
    InRange(0, n);
  }

  /** Takes the first free slot for `x`; it is not in a ring yet. */
  method TakeFree<T>(items: array<Slot<T>>, head: int, x: T, ghost r: Rings<T>)
    returns (next: int, ghost b: seq<Slot<T>>)
    requires Sound(items[..], r) && r.free != [] && head == HeadOf(r.free)
    modifies items
    ensures 0 <= head < items.Length && Unspliced(old(items[..]), b, head)
    ensures items[..] == b[head := b[head].(data := Some(x), used := true)]
    ensures next == HeadOf(r.free[1..])
  {
    SoundRings(items[..], r);
    next := RemoveItem(items, head, r.free, 0);
    b := items[..];
    items[head] := items[head].(data := Some(x));
    items[head] := items[head].(used := true);
  }

  /** Takes the slot at position `k` out of the used ring and clears it. */
  method TakeUsed<T>(items: array<Slot<T>>, item: int, ghost r: Rings<T>, ghost k: nat)
    returns (next: int, ghost b: seq<Slot<T>>)
    requires Sound(items[..], r) && k < |r.used| && item == r.used[k]
    modifies items
    ensures 0 <= item < items.Length && Unspliced(old(items[..]), b, item)
    ensures items[..] == b[item := b[item].(data := None, used := false)]
    ensures next == if |r.used| == 1 then END else r.used[Succ(k, |r.used|)]
  {
    SoundRings(items[..], r);
    next := RemoveItem(items, item, r.used, k);
    b := items[..];
    items[item] := items[item].(data := None);
    items[item] := items[item].(used := false);
  }

  /** One turn of the second loop of `list_grow`: `x` goes to the first free slot, at the end of the
      used ring. */
  method Append<T>(items: array<Slot<T>>, usedHead: int, freeHead: int, x: T, ghost r: Rings<T>)
    returns (used: int, free: int)
    requires Sound(items[..], r) && r.free != [] && usedHead == HeadOf(r.used) && freeHead == HeadOf(r.free)
    modifies items
    ensures Sound(items[..], Rings(r.used + [r.free[0]], r.free[1..], r.values + [x]))
    ensures used == HeadOf(r.used + [r.free[0]]) && free == HeadOf(r.free[1..])
  {
    ghost var a, b, k := items[..], [], |r.used|;
    free, b := TakeFree(items, freeHead, x, r);
    ghost var c := items[..];
    UsedKept(a, b, c, r, x);
    used := InsertItem(items, usedHead, freeHead, r.used, k);
    PushedSound(a, b, c, items[..], r, k, x);
    assert Inserted(r.used, k, freeHead) == r.used + [freeHead] && Inserted(r.values, k, x) == r.values + [x];
  }

  /** The doubling loop of `list_grow`. */
  method NewSize(size: nat, amount: nat) returns (newSize: nat)
    requires amount > 0
    ensures GrownSize(size, amount, newSize)
  {
    if size == 0 { return amount; }
    newSize := 2 * size;
    ghost var m := 1;
    assert newSize == Doubled(size, 1);
    while newSize < size + amount
      invariant m > 0 && newSize == Doubled(size, m) >= size && (m == 1 || Doubled(size, m - 1) < size + amount)
      decreases size + amount - newSize
    {
      newSize := 2 * newSize;
      m := m + 1;
    }
  }

  /** The rings after growing to `size` slots. */
  ghost function Regrown<T>(values: seq<T>, size: nat): Rings<T>
    requires |values| <= size
  {
    Rings(Range(0, |values|), Range(|values|, size), values)
  }

  class List<T> {
    var dfn: bool
    var size: nat
    var count: nat
    var usedHead: int
    var freeHead: int
    var items: array?<Slot<T>>

    ghost var rings: Rings<T>
    /** How many elements growing has moved so far. */
    ghost var moved: nat

    ghost function Slots(): seq<Slot<T>>
      reads this`items, items
    {
      if items == null then [] else items[..]
    }

    ghost predicate Valid()
      reads this, items
    {
      && size == |Slots()| && (size == 0 ==> items == null)
      && count == |rings.used| && usedHead == HeadOf(rings.used) && freeHead == HeadOf(rings.free)
      && Sound(Slots(), rings)
    }

    /** The sequence that the list represents. */
    ghost function Contents(): seq<T>
      reads `rings
    {
      rings.values
    }

    /** The position that an iterator stands for; the end stands for the position after the last. */
    ghost function Position(itr: int): (k: nat)
      requires itr == END || itr in rings.used
      reads `rings
      ensures if itr == END then k == |rings.used| else k < |rings.used| && rings.used[k] == itr
    {
      if itr == END then |rings.used| else IndexOf(rings.used, itr)
    }

    /** The second loop of `list_grow`: copies the elements, in order, to the new slots. */
    method MoveInto(newItems: array<Slot<T>>, freeHead: int) returns (used: int, free: int)
      requires Valid() && newItems != items && count <= newItems.Length
      requires Sound(newItems[..], Rings([], Range(0, newItems.Length), []))
      requires freeHead == HeadOf(Range(0, newItems.Length))
      modifies newItems
      ensures Sound(newItems[..], Rings(Range(0, count), Range(count, newItems.Length), rings.values))
      ensures used == HeadOf(Range(0, count)) && free == HeadOf(Range(count, newItems.Length))
    {
      ghost var a, n, s, k := Slots(), newItems.Length, rings.used, 0;
      ghost var r := Rings([], Range(0, n), []);
      used, free := END, freeHead;
      var itr := ItrBegin();
      while itr != END
        invariant Valid() && a == Slots() && 0 <= k <= count && itr == if k < count then s[k] else END
        invariant Sound(newItems[..], r) && used == HeadOf(r.used) && free == HeadOf(r.free)
        invariant r == Rings(Range(0, k), Range(k, n), rings.values[..k])
        decreases count - k
      {
        SlotFacts(a, rings, k);
        RangeStep(k, n);
        PrefixStep(rings.values, k);
        used, free := Append(newItems, used, free, items[itr].data.value, r);
        itr := ItrNext(itr);
        k := k + 1;
        r := Rings(Range(0, k), Range(k, n), rings.values[..k]);
      }
    }

    /** `list_grow`: all elements move, in order, to the first slots of a larger array. */
    method Grow(amount: nat)
      requires Valid()
      modifies this
      ensures Valid() && count == old(count) && dfn == old(dfn)
      ensures amount == 0 ==> items == old(items) && size == old(size) && rings == old(rings) && moved == old(moved)
      ensures amount > 0 ==> fresh(items) && GrownSize(old(size), amount, size) && moved == old(moved) + count
      ensures amount > 0 ==> count == |old(rings.values)| <= size && rings == Regrown(old(rings.values), size)
      ensures amount > 0 ==> Contents() == old(Contents()) && |rings.used| == count && |rings.free| == size - count
      ensures amount > 0 ==> forall k | 0 <= k < count :: rings.used[k] == k
      ensures amount > 0 ==> forall k | 0 <= k < size - count :: rings.free[k] == count + k
      ensures amount > 0 && old(size) == 0 ==> size == amount
      ensures amount > 0 && old(size) > 0 ==>
        exists m: nat {:trigger Pow2(m)} :: m > 0 && size == old(size) * Pow2(m)
      ensures amount > 0 && old(size) > 0 ==>
        size >= old(size) + amount && (size == 2 * old(size) || size < 2 * (old(size) + amount))
    {
      if amount > 0 {
        GrowBy(amount);
        GrownExactly(old(size), amount, size);
      }
    }

    method GrowBy(amount: nat)
      requires Valid() && amount > 0
      modifies this
      ensures Valid() && count == old(count) && dfn == old(dfn)
      ensures items != null && fresh(items) && GrownSize(old(size), amount, size) && moved == old(moved) + count
      ensures count == |old(rings.values)| <= size && rings == Regrown(old(rings.values), size)
    {
      var newSize := NewSize(size, amount);
      var newItems, newFree := NewSlots(newSize);
      var newUsed;
      newUsed, newFree := MoveInto(newItems, newFree);
      moved := moved + count;
      items, size, usedHead, freeHead := newItems, newSize, newUsed, newFree;
      rings := Regrown(rings.values, size);
    }

    /** The slots are divided into two rings: the used ones, exactly those with the flag, from
        `usedHead` on, and the free ones from `freeHead` on. */
    lemma TwoRings()
      requires Valid()
      ensures Ring(Slots(), rings.used) && |rings.used| == count && usedHead == HeadOf(rings.used)
      ensures Ring(Slots(), rings.free) && |rings.free| == size - count && freeHead == HeadOf(rings.free)
      ensures forall i | 0 <= i < size :: Slots()[i].used <==> i in rings.used
      ensures forall i | 0 <= i < size :: i in rings.used <==> i !in rings.free
      ensures (usedHead == END <==> count == 0) && (freeHead == END <==> count == size)
    {
      UsedApart(Slots(), rings);
      SoundRings(Slots(), rings);
      assert Deep(0);
      forall i | 0 <= i < size ensures Slots()[i].used <==> i in rings.used {
        LiveByFlag(Slots(), rings, i);
      }
    }

    // ----- life cycle

    /** `list_new`. */
    constructor (initialCapacity: nat, dfn: bool)
      ensures Valid() && Contents() == [] && size == initialCapacity && this.dfn == dfn && moved == 0
      ensures items == null || fresh(items)
    {
      new;
      Init(initialCapacity, dfn);
    }

    /** `list_init`. */
    method Init(initialCapacity: nat, dfn: bool)
      modifies this
      ensures Valid() && rings == Regrown([], initialCapacity) && size == initialCapacity
      ensures this.dfn == dfn && moved == 0 && (items == null || fresh(items))
    {
      this.dfn := dfn;
      size, count := 0, 0;
      usedHead, freeHead := END, END;
      items := null;
      rings, moved := Rings([], [], []), 0;
      Grow(initialCapacity);
      assert Range(0, 0) == [];
    }

    /** `list_deinit`: the elements passed to the delete function, in order. A list without slots
        is left as it is. */
    method Deinit() returns (deleted: seq<T>)
      requires Valid()
      modifies this
      ensures Valid() && Contents() == [] && size == 0 && items == null
      ensures deleted == if old(dfn) then old(Contents()) else []
      ensures dfn == (old(dfn) && old(size) == 0)
    {
      deleted := [];
      if size == 0 { return; }
      if dfn { deleted := Forward(); }
      dfn := false;
      size, count := 0, 0;
      usedHead, freeHead := END, END;
      items := null;
      rings := Rings([], [], []);
    }

    /** `list_clear`. */
    method Clear() returns (deleted: seq<T>)
      requires Valid()
      modifies this
      ensures Valid() && Contents() == [] && size == 0 && items == null && dfn == old(dfn)
      ensures deleted == if old(dfn) then old(Contents()) else []
    {
      var d := dfn;
      deleted := Deinit();
      Init(0, d);
    }

    /** `list_reserve`. */
    method Reserve(amount: nat)
      requires Valid()
      modifies this
      ensures Valid() && Contents() == old(Contents()) && dfn == old(dfn) && size >= amount
      ensures amount <= old(size) ==> items == old(items) && size == old(size) && rings == old(rings)
      ensures amount > old(size) ==>
        fresh(items) && GrownSize(old(size), amount - old(size), size) && rings == Regrown(old(rings.values), size)
      ensures amount > old(size) == 0 ==> size == amount
      ensures amount > old(size) > 0 ==>
        exists m: nat {:trigger Pow2(m)} :: m > 0 && size == old(size) * Pow2(m)
      ensures amount > old(size) > 0 ==> size == 2 * old(size) || size < 2 * amount
    {
      if amount > size {
        Grow(amount - size);
      }
    }

    // ----- iterators

    /** `list_itr_begin`. */
    function ItrBegin(): (itr: int)
      requires Valid()
      reads this, items
      ensures itr == if count > 0 then rings.used[0] else END
    {
      if count == 0 then END else usedHead
    }

    /** `list_itr_tail`. */
    function ItrTail(): (itr: int)
      requires Valid()
      reads this, items
      ensures itr == if count > 0 then rings.used[count - 1] else END
    {
      if count == 0 then END else
        SlotFacts(Slots(), rings, 0);
        items[usedHead].prev
    }

    /** `list_itr_next`. */
    function ItrNext(itr: int): (next: int)
      requires Valid() && (itr == END || itr in rings.used)
      reads this, items
      ensures itr == END ==> next == END
      ensures itr != END ==>
        (next == var k := IndexOf(rings.used, itr); if k + 1 < count then rings.used[k + 1] else END)
    {
      if itr == END then END else
        SlotFacts(Slots(), rings, IndexOf(rings.used, itr));
        if items[itr].next != usedHead then items[itr].next else END
    }

    /** `list_itr_rnext`. */
    function ItrRnext(itr: int): (next: int)
      requires Valid() && (itr == END || itr in rings.used)
      reads this, items
      ensures itr == END ==> next == END
      ensures itr != END ==>
        (next == var k := IndexOf(rings.used, itr); if k > 0 then rings.used[k - 1] else END)
    {
      if itr == END then END else
        SlotFacts(Slots(), rings, IndexOf(rings.used, itr));
        if itr != usedHead then items[itr].prev else END
    }

    /** `list_get`. */
    function Get(itr: int): (data: Option<T>)
      requires Valid()
      reads this, items
      ensures data == if itr in rings.used then Some(rings.values[IndexOf(rings.used, itr)]) else None
    {
      if itr == END || size == 0 || !(0 <= itr < size) then None
      else
        LiveByFlag(Slots(), rings, itr);
        if !items[itr].used then None
        else
          SlotFacts(Slots(), rings, IndexOf(rings.used, itr));
          items[itr].data
    }

    /** A walk from the head to the end. */
    method Forward() returns (out: seq<T>)
      requires Valid()
      ensures out == Contents()
    {
      out := [];
      var itr := ItrBegin();
      while itr != END
        invariant |out| <= count && itr == (if |out| < count then rings.used[|out|] else END)
        invariant out == rings.values[..|out|]
        decreases count - |out|
      {
        SlotFacts(Slots(), rings, |out|);
        out := out + [Get(itr).value];
        itr := ItrNext(itr);
      }
    }

    /** A walk from the tail to the reverse end. */
    method Backward() returns (out: seq<T>)
      requires Valid()
      ensures out == Backwards(Contents(), 0)
    {
      out := [];
      var itr := ItrTail();
      ghost var k := count;
      while itr != END
        invariant 0 <= k <= count && itr == if k > 0 then rings.used[k - 1] else END
        invariant out == Backwards(rings.values, k)
        decreases k
      {
        SlotFacts(Slots(), rings, k - 1);
        out := out + [Get(itr).value];
        itr := ItrRnext(itr);
        k := k - 1;
      }
    }

    /** The iterator that k steps from the head lead to. */
    method At(k: nat) returns (itr: int)
      requires Valid()
      ensures itr == if k < count then rings.used[k] else END
    {
      itr := ItrBegin();
      for i := 0 to k
        invariant itr == if i < count then rings.used[i] else END
      {
        if i < count { SlotFacts(Slots(), rings, i); }
        itr := ItrNext(itr);
      }
    }

    // ----- push and pop

    /** The loop of `list_push` that finds out which position `itr` has; `count` when it has none. */
    method CountTo(itr: int) returns (i: nat)
      requires Valid() && count > 0
      ensures i == if itr in rings.used then IndexOf(rings.used, itr) else count
    {
      var tmp := usedHead;
      i := 0;
      while tmp != itr && i < count
        invariant i <= count && tmp == rings.used[if i < count then i else 0]
        invariant forall j | 0 <= j < i :: rings.used[j] != itr
        decreases count - i
      {
        SlotFacts(Slots(), rings, i);
        i := i + 1;
        tmp := items[tmp].next;
      }
      if i < count { SlotFacts(Slots(), rings, i); }
    }

    /** The loop of `list_push` that finds the slot at a position after growing. */
    method SlotAt(n: nat) returns (before: int)
      requires Valid() && n < count
      ensures before == rings.used[n]
    {
      var i := n;
      before := usedHead;
      while i > 0
        invariant 0 <= i <= n && before == rings.used[n - i]
      {
        SlotFacts(Slots(), rings, n - i);
        before := items[before].next;
        i := i - 1;
      }
    }

    /** The first part of `list_push`: grows a full list; `before` is the slot at `itr` after that. */
    method MakeRoom(itr: int) returns (ok: bool, before: int)
      requires Valid() && (itr == END || itr in rings.used || (count == size && count > 0))
      modifies this
      ensures Valid() && count == old(count) && dfn == old(dfn)
      ensures ok == (itr == END || itr in old(rings.used))
      ensures !ok || old(count < size) ==>
        items == old(items) && size == old(size) && rings == old(rings) && moved == old(moved)
      ensures ok && old(count == size) ==>
        && fresh(items) && size == (if old(size) == 0 then 1 else 2 * old(size))
        && rings == Regrown(old(rings.values), size) && moved == old(moved) + count
      ensures ok ==> before == if itr == END then END else rings.used[old(Position(itr))]
    {
      before, ok := itr, true;
      if count == size {
        var i := 0;
        if count > 0 && itr != END {
          i := CountTo(itr);
          if i == count { return false, before; }
        }
        Grow(1);
        GrownByOne(old(size), size);
        if count > 0 && itr != END {
          before := SlotAt(i);
        }
      }
    }

    /** The branches of `list_push`: the item goes in front of `before`; for a new head in front of
        the head, which changes; and at the end in front of the head, which stays. */
    method LinkItem(item: int, itr: int, before: int, theHead: int, ghost s: seq<int>, ghost k: nat)
      requires items != null && 0 <= item < items.Length && Ring(items[..], s) && item !in s
      requires |s| == count && usedHead == HeadOf(s) && k <= |s| && if itr == END then k == |s| else k < |s|
      requires before == (if itr == END then END else s[k]) && (itr != END ==> (itr == theHead <==> k == 0))
      modifies `usedHead, items
      ensures SplicedAt(old(items[..]), items[..], s, k, item) && usedHead == HeadOf(Inserted(s, k, item))
      ensures usedHead == if k == 0 then item else s[0]
    {
      if count > 0 {
        if itr == END {
          var _ := InsertItem(items, usedHead, item, s, k);
        } else if itr == theHead {
          var _ := InsertItem(items, usedHead, item, s, k);
          usedHead := item;
        } else {
          var _ := InsertItem(items, before, item, s, k);
        }
      } else {
        usedHead := InsertItem(items, before, item, s, k);
      }
    }

    /** The second part of `list_push`: fills in the first free slot and links it. */
    method PlaceItem(data: T, itr: int, before: int, theHead: int, ghost k: nat)
      requires Valid() && count < size && k <= count
      requires if itr == END then k == count else k < count
      requires before == (if itr == END then END else rings.used[k]) && (itr != END ==> (itr == theHead <==> k == 0))
      modifies this, items
      ensures Valid() && items == old(items) && size == old(size) && dfn == old(dfn) && moved == old(moved)
      ensures count == old(count) + 1 && |old(rings.used)| == |old(rings.values)| && old(rings.free) != []
      ensures rings == Pushed(old(rings), k, data)
    {
      ghost var a, b, r := items[..], [], rings;
      var item := freeHead;
      freeHead, b := TakeFree(items, freeHead, data, rings);
      ghost var c := items[..];
      UsedKept(a, b, c, r, data);
      LinkItem(item, itr, before, theHead, r.used, k);
      count := count + 1;
      PushedSound(a, b, c, items[..], r, k, data);
      rings := Pushed(r, k, data);
    }

    /** `list_push`: inserts in front of `itr`, which is live or the end. A full list refuses any
        other `itr`. */
    method Push(data: T, itr: int) returns (ok: bool)
      requires Valid() && (itr == END || itr in rings.used || (count == size && count > 0))
      modifies this, items
      ensures Valid() && dfn == old(dfn) && |old(rings.used)| == |old(rings.values)| == old(count) <= old(size)
      ensures ok == (itr == END || itr in old(rings.used))
      ensures !ok ==> items == old(items) && size == old(size) && rings == old(rings) && moved == old(moved)
      ensures ok && old(count < size) ==>
        && items == old(items) && size == old(size) && moved == old(moved)
        && old(rings.free) != [] && rings == Pushed(old(rings), old(Position(itr)), data)
      ensures ok && old(count == size) ==>
        && fresh(items) && size == (if old(size) == 0 then 1 else 2 * old(size)) && moved == old(moved + count)
        && rings == Pushed(Regrown(old(rings.values), size), old(Position(itr)), data)
      ensures ok ==> Contents() == Inserted(old(Contents()), old(Position(itr)), data)
      ensures ok ==> |Contents()| == |rings.used| == old(count) + 1 && Contents()[old(Position(itr))] == data
      ensures ok ==> forall j | 0 <= j < old(Position(itr)) :: Contents()[j] == old(Contents())[j]
      ensures ok ==> forall j | old(Position(itr)) < j <= old(count) :: Contents()[j] == old(Contents())[j - 1]
      ensures ok ==> rings.used[old(Position(itr))] == if old(count < size) then old(freeHead) else old(count)
      ensures ok ==> forall j | 0 <= j < old(Position(itr)) ::
        rings.used[j] == if old(count < size) then old(rings.used)[j] else j
      ensures ok ==> forall j | old(Position(itr)) < j <= old(count) ::
        rings.used[j] == if old(count < size) then old(rings.used)[j - 1] else j - 1
      ensures ok ==> usedHead == rings.used[0]
    {
      var theHead := usedHead;
      var before;
      ghost var k := if itr == END || itr in rings.used then Position(itr) else 0;
      if k < count { SlotFacts(Slots(), rings, k); }
      ok, before := MakeRoom(itr);
      if !ok { return; }
      ghost var r := rings;
      PlaceItem(data, itr, before, theHead, k);
      InsertedElements(r.values, k, data);
      InsertedElements(r.used, k, r.free[0]);
    }

    /** The position of the element that `list_pop` removes. */
    ghost function PopPosition(itr: int): (k: nat)
      requires if itr == END then |rings.used| > 0 else itr in rings.used
      reads `rings
      ensures k < |rings.used| && if itr == END then k == |rings.used| - 1 else rings.used[k] == itr
    {
      if itr == END then |rings.used| - 1 else IndexOf(rings.used, itr)
    }

    /** After the last element the ring goes on with the head: popping the last one of several by its
        index returns the head, not the end. */
    lemma AfterTail()
      requires Valid() && count > 0
      ensures rings.used[Succ(PopPosition(rings.used[count - 1]), count)] == usedHead != END
    {
      SlotFacts(Slots(), rings, count - 1);
    }

    /** Removes a used slot; the slot after it in the ring is returned. */
    method Unlink(item: int, ghost k: nat) returns (next: int)
      requires Valid() && k < count && item == rings.used[k]
      modifies this, items
      ensures Valid() && items == old(items) && size == old(size) && dfn == old(dfn) && moved == old(moved)
      ensures count == old(count) - 1 && |old(rings.used)| == |old(rings.values)| && k < |old(rings.used)|
      ensures rings == Popped(old(rings), k)
      ensures next == if old(count) == 1 then END else old(rings.used[Succ(k, count)])
    {
      SlotFacts(Slots(), rings, k);
      ghost var a, b, r := items[..], [], rings;
      next, b := TakeUsed(items, item, rings, k);
      if item == usedHead { usedHead := next; }
      ghost var c := items[..];
      FreeKept(a, b, c, r, k);
      freeHead := InsertItem(items, freeHead, item, r.free, |r.free|);
      count := count - 1;
      PoppedSound(a, b, c, items[..], r, k);
      rings := Popped(r, k);
    }

    /** `list_pop`: removes the last element, or the one at `itr` and then returns the slot after it
        in the ring (the head after the last one). It refuses what is not a live iterator. */
    method Pop(itr: int) returns (next: int)
      requires Valid() && (itr == END ==> count > 0 || size == 0)
      modifies this, items
      ensures Valid() && items == old(items) && size == old(size) && dfn == old(dfn) && moved == old(moved)
      ensures |old(rings.used)| == |old(rings.values)| == old(count)
      ensures (if itr == END then old(count) > 0 else itr in old(rings.used)) ==>
        && rings == Popped(old(rings), old(PopPosition(itr)))
        && next == if itr == END || old(count) == 1 then END else old(rings.used[Succ(PopPosition(itr), count)])
      ensures (if itr == END then old(count) > 0 else itr in old(rings.used)) ==>
        (next == END <==> itr == END || old(count) == 1)
      ensures (if itr == END then old(count) > 0 else itr in old(rings.used)) ==>
        && |Contents()| == |rings.used| == old(count) - 1
        && (forall j | 0 <= j < old(PopPosition(itr)) ::
              Contents()[j] == old(Contents())[j] && rings.used[j] == old(rings.used)[j])
        && (forall j | old(PopPosition(itr)) <= j < old(count) - 1 ::
              Contents()[j] == old(Contents())[j + 1] && rings.used[j] == old(rings.used)[j + 1])
      ensures !(if itr == END then old(count) > 0 else itr in old(rings.used)) ==> rings == old(rings) && next == END
    {
      if size == 0 { return END; }
      if !(itr == END || 0 <= itr < size) { return END; }
      var item := if itr == END then ItrTail() else itr;
      LiveByFlag(Slots(), rings, item);
      if !items[item].used { return END; }
      WithoutElements(rings.values, PopPosition(itr));
      WithoutElements(rings.used, PopPosition(itr));
      next := Unlink(item, PopPosition(itr));
      next := if itr == END then END else next;
    }

    /** Applies one operation, walking to its position; nothing is popped from an empty list. */
    method Apply(op: Op<T>)
      requires Valid()
      modifies this, items
      ensures Valid() && (items == old(items) || fresh(items))
      ensures Contents() == Step(old(Contents()), op)
      ensures op.PopAt? ==> count <= old(count) && size == old(size) && moved == old(moved)
      ensures op.PushAt? ==> count == old(count) + 1
      ensures op.PushAt? && old(count < size) ==> size == old(size) && moved == old(moved)
      ensures op.PushAt? && old(count == size) ==>
        size == (if old(size) == 0 then 1 else 2 * old(size)) && moved == old(moved + count)
    {
      var itr := At(op.k);
      if op.k < count { SlotFacts(Slots(), rings, op.k); }
      if op.PushAt? {
        var ok := Push(op.x, itr);
      } else if count > 0 {
        var _ := Pop(itr);
      }
    }
  }

  // ----- runs

  /** One operation: push before, or pop at, the position that `k` steps from the head lead to. */
  datatype Op<T> = PushAt(x: T, k: nat) | PopAt(k: nat)

  function Step<T>(s: seq<T>, op: Op<T>): seq<T> {
    match op
    case PushAt(x, k) => Inserted(s, if k < |s| then k else |s|, x)
    case PopAt(k) => if s == [] then s else Without(s, if k < |s| then k else |s| - 1)
  }

  /** The same element by element. */
  lemma StepElements<T>(s: seq<T>, op: Op<T>)
    ensures var t := Step(s, op);
      && (op.PushAt? ==> var p := if op.k < |s| then op.k else |s|;
            && |t| == |s| + 1 && t[p] == op.x
            && (forall j | 0 <= j < p :: t[j] == s[j]) && (forall j | p < j < |t| :: t[j] == s[j - 1]))
      && (op.PopAt? && s != [] ==> var p := if op.k < |s| then op.k else |s| - 1;
            && |t| == |s| - 1
            && (forall j | 0 <= j < p :: t[j] == s[j]) && (forall j | p <= j < |t| :: t[j] == s[j + 1]))
      && (op.PopAt? && s == [] ==> t == [])
  {
  }

  /** The sequence after the first `n` operations, and the number of pushes among them. */
  function RunOps<T>(ops: seq<Op<T>>, n: nat): seq<T>
    requires n <= |ops|
  {
    if n == 0 then [] else Step(RunOps(ops, n - 1), ops[n - 1])
  }

  function Pushes<T>(ops: seq<Op<T>>, n: nat): nat
    requires n <= |ops|
  {
    if n == 0 then 0 else Pushes(ops, n - 1) + if ops[n - 1].PushAt? then 1 else 0
  }

  lemma {:induction false} PushesCounted<T>(ops: seq<Op<T>>, n: nat)
    requires n <= |ops|
    ensures Pushes(ops, n) == |set i | 0 <= i < n && ops[i].PushAt?|
  {
    if n > 0 {
      PushesCounted(ops, n - 1);
      var s, t := set i | 0 <= i < n - 1 && ops[i].PushAt?, set i | 0 <= i < n && ops[i].PushAt?;
      assert t == if ops[n - 1].PushAt? then s + {n - 1} else s;
    }
  }

  /** The sizes and the elements moved in a run that began with `initial` slots. */
  ghost predicate Amortized(initial: nat, size: nat, count: nat, moved: nat, pushes: nat) {
    && count <= pushes && size >= initial
    && moved == (if size == 0 then 0 else if initial == 0 then size - 1 else size - initial)
    && (moved > 0 ==> size <= 2 * (pushes - 1))
  }

  /** Any run of pushes and pops at any positions ends in a valid list that represents what the run
      means, and growing has moved fewer than two elements for each push. */
  method Run<T>(initialCapacity: nat, dfn: bool, ops: seq<Op<T>>) returns (list: List<T>)
    ensures list.Valid() && list.Contents() == RunOps(ops, |ops|)
    ensures list.moved == 0 || list.moved < 2 * |set i | 0 <= i < |ops| && ops[i].PushAt?|
  {
    list := new List(initialCapacity, dfn);
    for i := 0 to |ops|
      invariant list.Valid() && fresh(list) && (list.items == null || fresh(list.items))
      invariant list.Contents() == RunOps(ops, i)
      invariant Amortized(initialCapacity, list.size, list.count, list.moved, Pushes(ops, i))
    {
      ApplyNth(list, ops, i, initialCapacity);
    }
    PushesCounted(ops, |ops|);
  }

  /** The i-th operation of a run. */
  method ApplyNth<T>(list: List<T>, ops: seq<Op<T>>, i: nat, ghost initial: nat)
    requires i < |ops| && list.Valid() && list.Contents() == RunOps(ops, i)
    requires Amortized(initial, list.size, list.count, list.moved, Pushes(ops, i))
    modifies list, list.items
    ensures list.Valid() && (list.items == old(list.items) || fresh(list.items))
    ensures list.Contents() == RunOps(ops, i + 1)
    ensures Amortized(initial, list.size, list.count, list.moved, Pushes(ops, i + 1))
  {
    list.Apply(ops[i]);
  }
}
