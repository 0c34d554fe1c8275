/** The callback registry of `src/cb.c`: a hash table of buckets, each a name with a list of
    callbacks. */
module Registry {
  import opened Sequences
  import opened CStrings
  import opened RegistryView
  import opened ListRing
  import opened HashBuckets
  import L = List
  import HT = HashTable

  // ----- hashing

  /** A `uint32_t`. */
  type Word = x: nat | x < 0x1_0000_0000 witness 0

  /** Exclusive or with a byte, which reaches the last 8 bits only. */
  function LowMixed(x: nat, c: Byte): (r: nat)
    requires x < 256
    ensures r < 256
  {
    ((x as Byte) ^ c) as nat
  }

  lemma HighPart(x: Word)
    ensures 0 <= x / 256 <= 16777215 && 0 <= x % 256 < 256
  {
  }

  function Mixed(x: Word, c: Byte): Word {
    HighPart(x);
    Joined(x / 256, LowMixed(x % 256, c))
  }

  function Joined(high: nat, low: nat): Word
    requires high <= 16777215 && low < 256
  {
    high * 256 + low
  }

  /** One turn of the FNV loop: multiply, modulo 2^32, and mix in a byte. */
  function FnvStep(hash: Word, c: Byte): Word {
    Mixed((hash * 0x01000193) % 0x1_0000_0000, c)
  }

  function Fnv(t: seq<Byte>): Word {
    if t == [] then 0x811c9dc5 else FnvStep(Fnv(t[..|t| - 1]), t[|t| - 1])
  }

  /** The step over the integers: the product modulo 2^32, its last 8 bits mixed with the byte. */
  lemma FnvStepMeans(hash: Word, c: Byte, x: nat)
    requires x == (hash * 16777619) % 4294967296
    ensures FnvStep(hash, c) / 256 == x / 256 && FnvStep(hash, c) % 256 == LowMixed(x % 256, c)
  {
  }

  /** The hash of the empty name, 0x811c9dc5, and of a name of one byte: 0x050c5d1f with its last
      byte 0x1f mixed with the one of the name. */
  lemma FnvShortNames(c: Byte)
    ensures Fnv([]) == 2166136261
    ensures Fnv([c]) / 256 == 0x050c5d && Fnv([c]) % 256 == LowMixed(0x1f, c)
  {
    FnvOne(c);
    FnvProduct();
    FnvStepMeans(2166136261, c, 84696351);
  }

  /** The hash of "a". */
  lemma FnvOfA()
    ensures Fnv([97]) == 0x050c5d7e
  {
    FnvShortNames(97);
    assert LowMixed(0x1f, 97) == 0x7e;
  }

  lemma FnvProduct()
    ensures 84696351 == (2166136261 * 16777619) % 4294967296 && 84696351 / 256 == 0x050c5d && 84696351 % 256 == 0x1f
  {
  }

  lemma FnvOne(c: Byte)
    ensures Fnv([c]) == FnvStep(2166136261, c)
  {
    assert [c][..0] == [];
  }

  lemma FnvNext(t: seq<Byte>, p: nat)
    requires p < |t|
    ensures Fnv(t[..p + 1]) == FnvStep(Fnv(t[..p]), t[p])
  {
    assert t[..p + 1][..p] == t[..p];
  }

  /** `fnv_key_hash`. */
  method FnvKeyHash(key: seq<Byte>) returns (hash: Word)
    requires Terminated(key)
    ensures hash == Fnv(Text(key))
  {
    TextBytes(key);
    ghost var t := Text(key);
    hash := 0x811c9dc5;
    var p := 0;
    while key[p] != 0
      invariant 0 <= p <= |t| && hash == Fnv(t[..p])
      decreases |t| - p
    {
      FnvNext(t, p);
      hash := (hash * 0x01000193) % 0x1_0000_0000;
      hash := Mixed(hash, key[p]);
      p := p + 1;
    }
    assert t[..p] == t;
  }

  // ----- buckets

  /** A name with the address of its list. */
  datatype Bucket = Bucket(name: seq<Byte>, list: nat)

  /** `cb_hash_fn` and `cb_match_fn`. */
  function CbHash(b: Bucket): nat {
    Fnv(Text(b.name))
  }

  predicate CbMatch(l: Bucket, r: Bucket) {
    Text(l.name) == Text(r.name)
  }

  /** The hash respects the match, as the table asks. */
  lemma CbLawful()
    ensures Lawful(CbHash, CbMatch)
  {
    assert forall x, y :: CbMatch(x, y) ==> CbHash(x) == CbHash(y);
  }

  ghost predicate TiedAt(b: Bucket, recs: seq<seq<Record>>, view: View) {
    b.list < |recs| && Text(b.name) in view && view[Text(b.name)] == recs[b.list]
  }

  /** Every name has one bucket, every bucket its own list, and no callback is in a list twice. */
  ghost predicate Tied(items: set<Bucket>, recs: seq<seq<Record>>, view: View) {
    forall k: int {:trigger Unfold(k)} | Unfold(k) ::
      && (forall b | b in items :: TiedAt(b, recs, view))
      && (forall t | t in view :: exists b :: b in items && Text(b.name) == t)
      && (forall b, c | b in items && c in items && b.list == c.list :: b == c)
      && (forall a | 0 <= a < |recs| :: Proper(recs[a]))
  }

  lemma TiedHas(items: set<Bucket>, recs: seq<seq<Record>>, view: View, b: Bucket)
    requires Tied(items, recs, view) && b in items
    ensures b.list < |recs| && Text(b.name) in view && view[Text(b.name)] == recs[b.list]
    ensures Proper(recs[b.list])
  {
    assert Unfold(0) && TiedAt(b, recs, view);
  }

  /** Changing the list of a bucket changes what is registered under its name, and nothing else. */
  lemma TiedUpdate(items: set<Bucket>, recs: seq<seq<Record>>, view: View, b: Bucket, r: seq<Record>)
    requires Tied(items, recs, view) && b in items && b.list < |recs| && Proper(r)
    requires forall c | c in items && Text(c.name) == Text(b.name) :: c == b
    ensures Tied(items, recs[b.list := r], view[Text(b.name) := r])
  {
    assert Unfold(0);
    TiedHas(items, recs, view, b);
    var recs', view' := recs[b.list := r], view[Text(b.name) := r];
    forall c | c in items ensures TiedAt(c, recs', view') {
      assert TiedAt(c, recs, view);
    }
    assert forall t | t in view' :: t in view;
  }

  /** A new bucket with a new list. */
  lemma TiedNew(items: set<Bucket>, recs: seq<seq<Record>>, view: View, b: Bucket, r: seq<Record>)
    requires Tied(items, recs, view) && b.list == |recs| && Text(b.name) !in view && Proper(r)
    ensures Tied(items + {b}, recs + [r], view[Text(b.name) := r])
  {
    assert Unfold(0);
    var recs', view' := recs + [r], view[Text(b.name) := r];
    forall c | c in items + {b} ensures TiedAt(c, recs', view') {
      if c != b { assert TiedAt(c, recs, view); }
    }
    forall c, d | c in items + {b} && d in items + {b} && c.list == d.list ensures c == d {
      assert c in items ==> TiedAt(c, recs, view);
      assert d in items ==> TiedAt(d, recs, view);
    }
    forall t | t in view' ensures exists c :: c in items + {b} && Text(c.name) == t {
      if t in view {
        var c :| c in items && Text(c.name) == t;
        assert c in items + {b};
      } else {
        assert b in items + {b};
      }
    }
  }

  class Registry {
    const ht: HT.HashTable<Bucket>
    /** The lists that the buckets hold the addresses of. */
    var store: seq<L.List<Record>>

    ghost var recs: seq<seq<Record>>
    ghost var lrepr: set<object>
    /** The map that the registry represents. */
    ghost var view: View

    /** The table and the lists are well formed and share nothing. */
    ghost predicate WellFormed()
      reads this, ht, ht.repr, lrepr
    {
      && this !in ht.repr && this !in lrepr && ht !in lrepr && ht.repr !! lrepr
      && HT.Chains(store, recs, lrepr, true, 0)
      && ht.Valid() && ht.mfn == CbMatch
    }

    ghost predicate Valid()
      reads this, ht, ht.repr, lrepr
    {
      WellFormed() && Tied(ht.Items(), recs, view)
    }

    /** `cb_new`. */
    constructor ()
      ensures Valid() && view == map[] && fresh(ht) && fresh(ht.repr) && fresh(lrepr)
    {
      CbLawful();
      ht := new HT.HashTable<Bucket>(1, CbHash, CbMatch, true);
      store, recs, lrepr, view := [], [], {}, map[];
    }

    /** `find_bucket`. */
    method FindBucket(name: seq<Byte>) returns (b: Option<Bucket>)
      requires Valid()
      ensures b == None <==> Text(name) !in view
      ensures b.Some? ==>
        && b.value in ht.Items() && Text(b.value.name) == Text(name) && b.value.list < |recs| == |store|
        && view[Text(name)] == recs[b.value.list]
        && forall c | c in ht.Items() && Text(c.name) == Text(name) :: c == b.value
    {
      var it, _ := ht.Find(Bucket(name, 0));
      if it == HT.END_ITR {
        assert Unfold(0);
        assert forall c | c in ht.Items() :: !CbMatch(Bucket(name, 0), c);
        return None;
      }
      b := ht.Get(it);
      TiedHas(ht.Items(), recs, view, b.value);
      OneMatch(ht.buckets, ht.hfn, ht.mfn, Bucket(name, 0), b.value);
      assert forall c | c in ht.Items() && Text(c.name) == Text(name) :: ht.mfn(Bucket(name, 0), c);
    }

    /** `get_cb_itr`, in the list at address `a`. */
    method GetCbItr(a: nat, rec: Record) returns (itr: int, ghost j: nat)
      requires WellFormed() && a < |store|
      ensures itr == END <==> rec !in recs[a]
      ensures itr != END ==>
        j < |recs[a]| == |store[a].rings.used| && recs[a][j] == rec && itr == store[a].rings.used[j]
    {
      var l := store[a];
      HT.ChainsHave(store, recs, lrepr, true, 0, a);
      itr, j := l.ItrBegin(), 0;
      while itr != END
        invariant j <= |recs[a]| && itr == if j < |recs[a]| then l.rings.used[j] else END
        invariant forall i | 0 <= i < j :: recs[a][i] != rec
        decreases |recs[a]| - j
      {
        SlotFacts(l.Slots(), l.rings, j);
        if l.Get(itr).value == rec { return; }
        itr := l.ItrNext(itr);
        j := j + 1;
      }
    }

    method PushRecord(a: nat, rec: Record)
      requires WellFormed() && a < |store|
      modifies `recs, `lrepr, lrepr
      ensures WellFormed() && lrepr >= old(lrepr) && fresh(lrepr - old(lrepr))
      ensures |store| == |old(recs)| && recs == old(recs)[a := old(recs)[a] + [rec]]
    {
      HT.ChainsHave(store, recs, lrepr, true, 0, a);
      ghost var r := HT.PushTail(store, a, rec, recs, lrepr, true, 0);
      Note(recs[a := recs[a] + [rec]], r);
    }

    /** Notes what the lists hold now. */
    ghost method Note(b: seq<seq<Record>>, r: set<object>)
      requires HT.Chains(store, b, r, true, 0) && this !in r
      modifies `recs, `lrepr
      ensures recs == b && lrepr == r && HT.Chains(store, recs, lrepr, true, 0)
    {
      recs, lrepr := b, r;
    }

    method PopRecord(a: nat, itr: int, ghost j: nat)
      requires WellFormed() && a < |store| && j < |recs[a]| == |store[a].rings.used| && itr == store[a].rings.used[j]
      modifies `recs, lrepr
      ensures WellFormed()
      ensures |store| == |old(recs)| && j < |old(recs)[a]| && recs == old(recs)[a := Without(old(recs)[a], j)]
    {
      HT.ChainsHave(store, recs, lrepr, true, 0, a);
      HT.PopAt(store, a, itr, j, recs, lrepr, true, 0);
      recs := recs[a := Without(recs[a], j)];
    }

    method NewList()
      requires WellFormed()
      modifies `store, `recs, `lrepr
      ensures WellFormed() && lrepr >= old(lrepr) && fresh(lrepr - old(lrepr))
      ensures |store| == |old(recs)| + 1 && recs == old(recs) + [[]]
    {
      var s; ghost var r;
      s, r := HT.AddList(store, 1, true, recs, lrepr);
      store, recs, lrepr := s, recs + [[]], r;
    }

    /** `cb_has`; a null name has no value. */
    method Has(name: Option<seq<Byte>>) returns (has: bool)
      requires Valid() && (name.Some? ==> Terminated(name.value))
      ensures has == (name.Some? && Registered(view, Text(name.value)) != [])
    {
      if name == None { return false; }
      var b := FindBucket(name.value);
      if b == None { return false; }
      HT.ChainsHave(store, recs, lrepr, true, 0, b.value.list);
      has := store[b.value.list].count > 0;
    }

    /** `cb_call`: the callbacks called, in order. */
    method Call(name: Option<seq<Byte>>) returns (ok: bool, log: seq<Record>)
      requires Valid() && (name.Some? ==> Terminated(name.value))
      ensures log == if name.Some? then Registered(view, Text(name.value)) else []
      ensures ok == (log != [])
    {
      ok, log := false, [];
      if name == None { return; }
      var b := FindBucket(name.value);
      if b == None { return; }
      var l := store[b.value.list];
      ghost var r := recs[b.value.list];
      HT.ChainsHave(store, recs, lrepr, true, 0, b.value.list);
      TiedHas(ht.Items(), recs, view, b.value);
      var itr := l.ItrBegin();
      while itr != END
        invariant |log| <= |r| && itr == if |log| < |r| then l.rings.used[|log|] else END
        invariant log == r[..|log|] && ok == (log != [])
        decreases |r| - |log|
      {
        SlotFacts(l.Slots(), l.rings, |log|);
        var p := l.Get(itr).value;
        itr := l.ItrNext(itr);
        assert p in r;
        if p.fn == 0 { continue; }
        log := log + [p];
        ok := true;
      }
    }

    /** `cb_add`. */
    method Add(name: Option<seq<Byte>>, ctx: nat, fn: nat) returns (added: bool)
      requires Valid() && (name.Some? ==> Terminated(name.value))
      modifies this, ht, ht.repr, lrepr
      ensures Valid() && fresh(ht.repr - old(ht.repr)) && fresh(lrepr - old(lrepr))
      ensures added == (name.Some? && fn != 0 && Record(ctx, fn) !in Registered(old(view), Text(name.value)))
      ensures view == if name.Some? then Added(old(view), Text(name.value), Record(ctx, fn)) else old(view)
      ensures !added ==> view == old(view)
      ensures added ==> var t := Text(name.value); var r, s := Registered(old(view), t), Registered(view, t);
        |s| == |r| + 1 && s[|r|] == Record(ctx, fn) && forall j | 0 <= j < |r| :: s[j] == r[j]
      ensures added ==> forall u | u != Text(name.value) :: Registered(view, u) == Registered(old(view), u)
    {
      if name == None || fn == 0 { return false; }
      var rec := Record(ctx, fn);
      var b := FindBucket(name.value);
      if b == None {
        AddBucket(name.value, rec);
        assert [] + [rec] == [rec];
        return true;
      }
      var a := b.value.list;
      var itr, _ := GetCbItr(a, rec);
      if itr != END { return false; }
      TiedHas(ht.Items(), recs, view, b.value);
      ProperSnoc(recs[a], rec);
      TiedUpdate(ht.Items(), recs, view, b.value, recs[a] + [rec]);
      view := view[Text(name.value) := recs[a] + [rec]];
      PushRecord(a, rec);
      return true;
    }

    /** The part of `cb_add` for a name that has no bucket yet. */
    method AddBucket(name: seq<Byte>, rec: Record)
      requires Valid() && Text(name) !in view && rec.fn != 0
      modifies this, ht, ht.repr, lrepr
      ensures Valid() && fresh(ht.repr - old(ht.repr)) && fresh(lrepr - old(lrepr))
      ensures view == old(view)[Text(name) := [rec]]
    {
      var bucket := Bucket(Text(name) + [0], |store|);
      TextOfCopy(name);
      assert |store| == |recs|;
      TiedNew(ht.Items(), recs, view, bucket, [rec]);
      NoBucket(bucket);
      ghost var r := recs;
      NewList();
      PushRecord(bucket.list, rec);
      assert [] + [rec] == [rec] && recs == r + [[rec]];
      InsertBucket(bucket);
      view := view[Text(name) := [rec]];
    }

    lemma NoBucket(b: Bucket)
      requires Valid() && Text(b.name) !in view
      ensures !Matched(ht.Items(), ht.mfn, b)
    {
      forall c | c in ht.Items() ensures !ht.mfn(b, c) {
        TiedHas(ht.Items(), recs, view, c);
      }
    }

    method InsertBucket(b: Bucket)
      requires WellFormed() && !Matched(ht.Items(), ht.mfn, b)
      modifies ht, ht.repr
      ensures WellFormed() && fresh(ht.repr - old(ht.repr)) && ht.Items() == old(ht.Items()) + {b}
    {
      var ok, _, _ := ht.Insert(b);
      assert ok;
    }

    /** `cb_remove`. */
    method Remove(name: Option<seq<Byte>>, ctx: nat, fn: nat) returns (removed: bool)
      requires Valid() && (name.Some? ==> Terminated(name.value))
      modifies this, lrepr
      ensures Valid() && lrepr == old(lrepr)
      ensures removed == (name.Some? && Record(ctx, fn) in Registered(old(view), Text(name.value)))
      ensures view == if name.Some? then Removed(old(view), Text(name.value), Record(ctx, fn)) else old(view)
      ensures !removed ==> view == old(view)
      ensures removed ==> var t := Text(name.value); var r, s := Registered(old(view), t), Registered(view, t);
        && Record(ctx, fn) !in s && |s| == |r| - 1
        && exists p | 0 <= p < |r| ::
             && r[p] == Record(ctx, fn)
             && (forall j | 0 <= j < p :: s[j] == r[j]) && (forall j | p <= j < |s| :: s[j] == r[j + 1])
      ensures removed ==> forall u | u != Text(name.value) :: Registered(view, u) == Registered(old(view), u)
    {
      if name == None { return false; }
      var rec := Record(ctx, fn);
      var b := FindBucket(name.value);
      if b == None { return false; }
      var a := b.value.list;
      TiedHas(ht.Items(), recs, view, b.value);
      if fn == 0 { return false; }
      var itr, j := GetCbItr(a, rec);
      if itr == END { return false; }
      MinusAt(recs[a], j);
      WithoutElements(recs[a], j);
      ProperWithout(recs[a], j);
      TiedUpdate(ht.Items(), recs, view, b.value, Without(recs[a], j));
      view := view[Text(name.value) := Without(recs[a], j)];
      PopRecord(a, itr, j);
      return true;
    }

    method Apply(op: Request) returns (ok: bool, called: seq<Record>)
      requires Valid() && Terminated(op.name)
      modifies this, ht, ht.repr, lrepr
      ensures Valid() && fresh(ht.repr - old(ht.repr)) && fresh(lrepr - old(lrepr))
      ensures view == ViewAfter(old(view), op) && ok == Returns(old(view), op) && called == Calls(old(view), op)
    {
      called := [];
      match op
      case Add(name, rec) => ok := Add(Some(name), rec.ctx, rec.fn);
      case Remove(name, rec) => ok := Remove(Some(name), rec.ctx, rec.fn);
      case Has(name) => ok := Has(Some(name));
      case Call(name) => ok, called := Call(Some(name));
    }
  }

  // ----- runs

  predicate AllTerminated(ops: seq<Request>) {
    forall i | 0 <= i < |ops| :: Terminated(ops[i].name)
  }

  /** Any run on a new registry ends in one that represents what the run means for a map from names
      to sequences of callbacks; every operation returns, and calls, what it means for the map at
      that point. */
  method Run(ops: seq<Request>) returns (cb: Registry, results: seq<bool>, log: seq<Record>)
    requires AllTerminated(ops)
    ensures cb.Valid() && cb.view == RunView(ops, |ops|) && log == RunCalls(ops, |ops|)
    ensures results == RunReturns(ops, |ops|)
  {
    cb := new Registry();
    results, log := [], [];
    for i := 0 to |ops|
      invariant cb.Valid() && cb.view == RunView(ops, i) && log == RunCalls(ops, i)
      invariant fresh(cb) && fresh(cb.ht) && fresh(cb.ht.repr) && fresh(cb.lrepr)
      invariant results == RunReturns(ops, i)
    {
      results, log := ApplyNth(cb, ops, i, results, log);
    }
  }

  /** The i-th operation of a run. */
  method ApplyNth(cb: Registry, ops: seq<Request>, i: nat, results0: seq<bool>, log0: seq<Record>)
    returns (results: seq<bool>, log: seq<Record>)
    requires i < |ops| && cb.Valid() && cb.view == RunView(ops, i) && AllTerminated(ops)
    requires results0 == RunReturns(ops, i) && log0 == RunCalls(ops, i)
    modifies cb, cb.ht, cb.ht.repr, cb.lrepr
    ensures cb.Valid() && fresh(cb.ht.repr - old(cb.ht.repr)) && fresh(cb.lrepr - old(cb.lrepr))
    ensures cb.view == RunView(ops, i + 1) && results == RunReturns(ops, i + 1) && log == RunCalls(ops, i + 1)
  {
    var ok, called := cb.Apply(ops[i]);
    results, log := results0 + [ok], log0 + called;
  }
}
