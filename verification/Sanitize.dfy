/** `build_clean_environ` of `src/sanitize.c`: one block holds the pointers and, after them, the
    strings of the new environment. */
module Sanitize {
  import opened Sequences
  import opened CStrings

  /** The text of a C string. */
  type Name = s: seq<Byte> | 0 !in s

  type Env = map<Name, Name>

  const PTR_SIZE: nat := 8
  const EQUALS: Byte := 61

  /** The names in front of the first null pointer, `c` at the most. */
  function Taken(c: int, v: seq<Option<Name>>): seq<Name>
  {
    if c <= 0 || v == [] || v[0] == None then [] else [v[0].value] + Taken(c - 1, v[1..])
  }

  /** The loops over `v` read `c` elements or up to a null pointer. */
  predicate Readable(c: int, v: seq<Option<Name>>) {
    c <= |v| || None in v
  }

  /** The settings of the first `k` names, of those that the environment has. */
  function PresentTo(env: Env, names: seq<Name>, k: nat): seq<Name>
    requires k <= |names|
  {
    if k == 0 then [] else PresentTo(env, names, k - 1) + Setting(env, names[k - 1])
  }

  function Present(env: Env, names: seq<Name>): seq<Name> {
    PresentTo(env, names, |names|)
  }

  function Setting(env: Env, name: Name): seq<Name> {
    if name in env then
      assert forall c | c in name + [EQUALS] + env[name] :: c != 0;
      [name + [EQUALS] + env[name]]
    else []
  }

  function SettingSpan(env: Env, name: Name): nat {
    if name in env then |name| + |env[name]| + 2 else 0
  }

  /** The bytes that the first `k` strings take, each with its NUL. */
  function SpanTo(e: seq<Name>, k: nat): nat
    requires k <= |e|
  {
    if k == 0 then 0 else SpanTo(e, k - 1) + |e[k - 1]| + 1
  }

  function Span(e: seq<Name>): nat {
    SpanTo(e, |e|)
  }

  lemma {:induction false} SpanToPrefix(x: seq<Name>, y: seq<Name>, k: nat)
    requires k <= |x|
    ensures SpanTo(x + y, k) == SpanTo(x, k)
  {
    if k > 0 { SpanToPrefix(x, y, k - 1); }
  }

  lemma {:induction false} SpanMonotone(e: seq<Name>, k: nat, n: nat)
    requires k <= n <= |e|
    ensures SpanTo(e, k) <= SpanTo(e, n)
  {
    if k < n { SpanMonotone(e, k, n - 1); }
  }

  lemma SpanNext(e: seq<Name>, x: Name)
    ensures Span(e + [x]) == Span(e) + |x| + 1
  {
    SpanToPrefix(e, [x], |e|);
  }

  lemma {:induction false} SpanConcat(x: seq<Name>, y: seq<Name>)
    ensures Span(x + y) == Span(x) + Span(y)
  {
    if y == [] {
      assert x + y == x;
    } else {
      var y', z := y[..|y| - 1], y[|y| - 1];
      assert y == y' + [z] && x + y == (x + y') + [z];
      SpanConcat(x, y');
      SpanNext(x + y', z);
      SpanNext(y', z);
    }
  }

  lemma PresentNext(env: Env, names: seq<Name>, i: nat)
    requires i < |names|
    ensures Span(PresentTo(env, names, i + 1)) == Span(PresentTo(env, names, i)) + SettingSpan(env, names[i])
  {
    var s := Setting(env, names[i]);
    if names[i] in env {
      SpanNext(PresentTo(env, names, i), s[0]);
      assert s == [s[0]];
    } else {
      assert PresentTo(env, names, i) + s == PresentTo(env, names, i);
    }
  }

  lemma {:induction false} PresentMonotone(env: Env, names: seq<Name>, i: nat, n: nat)
    requires i <= n <= |names|
    ensures |PresentTo(env, names, i)| <= |PresentTo(env, names, n)|
    ensures Span(PresentTo(env, names, i)) <= Span(PresentTo(env, names, n))
    decreases n
  {
    if i < n {
      PresentMonotone(env, names, i, n - 1);
      PresentNext(env, names, n - 1);
    }
  }

  /** Where the loops over the names stop. */
  lemma {:induction false} TakenStops(c: int, v: seq<Option<Name>>)
    ensures var n := |Taken(c, v)|;
      && n <= |v| && (n <= c || n == 0)
      && (forall j | 0 <= j < n :: v[j] == Some(Taken(c, v)[j]))
      && (Readable(c, v) ==> n >= c || (n < |v| && v[n] == None))
  {
    if c > 0 && v != [] && v[0] != None {
      assert v == [v[0]] + v[1..];
      TakenStops(c - 1, v[1..]);
    }
  }

  // ----- the first pass

  /** Sizes strings that are copied as they are. */
  method SizePlain(c: int, v: seq<Option<Name>>) returns (bytes: nat, count: nat)
    requires Readable(c, v)
    ensures bytes == Span(Taken(c, v)) && count == |Taken(c, v)|
  {
    TakenStops(c, v);
    ghost var names := Taken(c, v);
    bytes, count := 0, 0;
    var i := 0;
    while i < c && v[i] != None
      invariant 0 <= i <= |names| && bytes == SpanTo(names, i) && count == i
      decreases c - i
    {
      bytes := bytes + |v[i].value| + 1;
      count := count + 1;
      i := i + 1;
    }
  }

  /** Sizes the settings of variables that are preserved. */
  method SizePreserved(env: Env, c: int, v: seq<Option<Name>>) returns (bytes: nat, count: nat)
    requires Readable(c, v)
    ensures bytes == Span(Present(env, Taken(c, v))) && count == |Present(env, Taken(c, v))|
  {
    TakenStops(c, v);
    ghost var names := Taken(c, v);
    bytes, count := 0, 0;
    var i := 0;
    while i < c && v[i] != None
      invariant 0 <= i <= |names|
      invariant bytes == Span(PresentTo(env, names, i)) && count == |PresentTo(env, names, i)|
      decreases c - i
    {
      PresentNext(env, names, i);
      var name := v[i].value;
      if name in env {
        bytes := bytes + |name| + |env[name]| + 2;
        count := count + 1;
      }
      i := i + 1;
    }
  }

  // ----- the second pass

  predicate StringAt(b: seq<Byte>, at: nat, e: Name) {
    at + |e| < |b| && b[at + |e|] == 0 && forall i | 0 <= i < |e| :: b[at + i] == e[i]
  }

  /** The strings of `e` are packed from `base` on, one behind the other, and the first pointers
      lead to them; the other pointers are null. */
  ghost predicate Packed(slots: seq<nat>, b: seq<Byte>, base: nat, e: seq<Name>) {
    && |e| < |slots| && base + Span(e) <= |b|
    && (forall k | 0 <= k < |e| :: StoredAt(slots, b, base, e, k))
    && (forall k | |e| <= k < |slots| :: slots[k] == 0)
  }

  predicate StoredAt(slots: seq<nat>, b: seq<Byte>, base: nat, e: seq<Name>, k: nat)
    requires k < |e| < |slots|
  {
    slots[k] == base + SpanTo(e, k) && StringAt(b, slots[k], e[k])
  }

  /** The bytes up to `n` are the same. */
  predicate Agree(b: seq<Byte>, b': seq<Byte>, n: nat) {
    n <= |b| == |b'| && forall i | 0 <= i < n :: b'[i] == b[i]
  }

  lemma StringKept(b: seq<Byte>, b': seq<Byte>, n: nat, at: nat, e: Name)
    requires Agree(b, b', n) && StringAt(b, at, e) && at + |e| < n
    ensures StringAt(b', at, e)
  {
  }

  lemma PackedNext(slots: seq<nat>, b: seq<Byte>, base: nat, e: seq<Name>, x: Name, b': seq<Byte>)
    requires Packed(slots, b, base, e) && |e| + 1 < |slots| && base + Span(e) + |x| + 1 <= |b|
    requires Agree(b, b', base + Span(e)) && StringAt(b', base + Span(e), x)
    ensures Packed(slots[|e| := base + Span(e)], b', base, e + [x])
    ensures Span(e + [x]) == Span(e) + |x| + 1
  {
    var s, f := slots[|e| := base + Span(e)], e + [x];
    SpanNext(e, x);
    SpanToPrefix(e, [x], |e|);
    forall k | 0 <= k < |e| ensures StoredAt(s, b', base, f, k) {
      assert StoredAt(slots, b, base, e, k);
      SpanToPrefix(e, [x], k);
      SpanMonotone(e, k + 1, |e|);
      StringKept(b, b', base + Span(e), slots[k], e[k]);
    }
  }

  method MemCpy(block: array<Byte>, at: nat, s: seq<Byte>)
    requires at + |s| <= block.Length
    modifies block
    ensures forall i | 0 <= i < block.Length && !(at <= i < at + |s|) :: block[i] == old(block[i])
    ensures forall i | 0 <= i < |s| :: block[at + i] == s[i]
  {
    forall i | 0 <= i < |s| {
      block[at + i] := s[i];
    }
  }

  /** Stores a string as it is. */
  method StorePlain(slots: array<nat>, block: array<Byte>, arr: nat, ptr: nat, x: Name,
                    ghost base: nat, ghost e: seq<Name>)
    requires Packed(slots[..], block[..], base, e) && arr == |e| && ptr == base + Span(e)
    requires slots as object != block as object
    requires |e| + 1 < slots.Length && base + Span(e) + |x| + 1 <= block.Length
    modifies slots, block
    ensures Packed(slots[..], block[..], base, e + [x]) && Span(e + [x]) == Span(e) + |x| + 1
  {
    ghost var s, b := slots[..], block[..];
    slots[arr] := ptr;
    MemCpy(block, ptr, x + [0]);
    assert slots[..] == s[arr := ptr];
    PlainStored(b, block[..], ptr, x);
    PackedNext(s, b, base, e, x, block[..]);
  }

  lemma PlainStored(b: seq<Byte>, c: seq<Byte>, ptr: nat, x: Name)
    requires |b| == |c| && ptr + |x| < |b|
    requires forall i | 0 <= i < |b| && !(ptr <= i < ptr + |x + [0]|) :: c[i] == b[i]
    requires forall i | 0 <= i < |x + [0]| :: c[ptr + i] == (x + [0])[i]
    ensures Agree(b, c, ptr) && StringAt(c, ptr, x)
  {
    assert c[ptr + |x|] == (x + [0])[|x|];
    forall i | 0 <= i < |x| ensures c[ptr + i] == x[i] {
      assert c[ptr + i] == (x + [0])[i];
    }
  }

  /** Stores the setting of a variable. */
  method StoreSetting(slots: array<nat>, block: array<Byte>, arr: nat, ptr: nat, name: Name, value: Name,
                      ghost x: Name, ghost base: nat, ghost e: seq<Name>)
    requires Packed(slots[..], block[..], base, e) && arr == |e| && ptr == base + Span(e)
    requires slots as object != block as object
    requires x == name + [EQUALS] + value
    requires |e| + 1 < slots.Length && base + Span(e) + |x| + 1 <= block.Length
    modifies slots, block
    ensures Packed(slots[..], block[..], base, e + [x]) && Span(e + [x]) == Span(e) + |x| + 1
  {
    ghost var s, b := slots[..], block[..];
    slots[arr] := ptr;
    WriteSetting(block, ptr, name, value);
    assert slots[..] == s[arr := ptr];
    PackedNext(s, b, base, e, x, block[..]);
  }

  method WriteSetting(block: array<Byte>, ptr: nat, name: Name, value: Name)
    requires ptr + |name| + |value| + 1 < block.Length
    modifies block
    ensures Agree(old(block[..]), block[..], ptr)
    ensures forall x: Name | x == name + [EQUALS] + value :: StringAt(block[..], ptr, x)
  {
    MemCpy(block, ptr, name);
    block[ptr + |name|] := EQUALS;
    ghost var c := block[..];
    MemCpy(block, ptr + |name| + 1, value + [0]);
    SettingWritten(c, block[..], ptr, name, value);
  }

  lemma SettingWritten(b: seq<Byte>, c: seq<Byte>, ptr: nat, name: Name, value: Name)
    requires |b| == |c| && ptr + |name| + |value| + 1 < |b|
    requires forall i | 0 <= i < |name| :: b[ptr + i] == name[i]
    requires b[ptr + |name|] == EQUALS
    requires forall i | 0 <= i < |b| && !(ptr + |name| + 1 <= i < ptr + |name| + 1 + |value + [0]|) :: c[i] == b[i]
    requires forall i | 0 <= i < |value + [0]| :: c[ptr + |name| + 1 + i] == (value + [0])[i]
    ensures forall x: Name | x == name + [EQUALS] + value :: StringAt(c, ptr, x)
  {
    forall x: Name | x == name + [EQUALS] + value ensures StringAt(c, ptr, x) {
      var at := ptr + |name| + 1;
      assert c[at + |value|] == (value + [0])[|value|];
      forall i | 0 <= i < |x| ensures c[ptr + i] == x[i] {
        if i > |name| {
          var k := i - |name| - 1;
          assert c[at + k] == (value + [0])[k];
        }
      }
    }
  }

  /** Packs strings as they are. */
  method PackPlain(slots: array<nat>, block: array<Byte>, arr0: nat, ptr0: nat, c: int, v: seq<Option<Name>>,
                   ghost base: nat, ghost e: seq<Name>) returns (arr: nat, ptr: nat)
    requires slots as object != block as object && Readable(c, v)
    requires Packed(slots[..], block[..], base, e) && arr0 == |e| && ptr0 == base + Span(e)
    requires |e| + |Taken(c, v)| < slots.Length && ptr0 + Span(Taken(c, v)) <= block.Length
    modifies slots, block
    ensures Packed(slots[..], block[..], base, e + Taken(c, v))
    ensures arr == |e + Taken(c, v)| && ptr == base + Span(e + Taken(c, v))
  {
    TakenStops(c, v);
    ghost var names := Taken(c, v);
    arr, ptr := arr0, ptr0;
    var i := 0;
    ghost var done := e;
    while i < c && v[i] != None
      invariant 0 <= i <= |names| && done == e + names[..i]
      invariant Packed(slots[..], block[..], base, done) && arr == |done| && ptr == base + Span(done)
      invariant ptr == ptr0 + SpanTo(names, i)
      decreases c - i
    {
      SpanMonotone(names, i + 1, |names|);
      StorePlain(slots, block, arr, ptr, v[i].value, base, done);
      arr := arr + 1;
      ptr := ptr + |v[i].value| + 1;
      done := done + [v[i].value];
      i := i + 1;
    }
    assert done == e + names;
  }

  /** Packs the setting of a variable, if it has one. */
  method PackSetting(env: Env, slots: array<nat>, block: array<Byte>, arr0: nat, ptr0: nat, name: Name,
                     ghost base: nat, ghost e: seq<Name>) returns (arr: nat, ptr: nat)
    requires slots as object != block as object
    requires Packed(slots[..], block[..], base, e) && arr0 == |e| && ptr0 == base + Span(e)
    requires |e| + |Setting(env, name)| < slots.Length && ptr0 + SettingSpan(env, name) <= block.Length
    modifies slots, block
    ensures Packed(slots[..], block[..], base, e + Setting(env, name))
    ensures arr == |e + Setting(env, name)|
    ensures ptr == base + Span(e + Setting(env, name)) == ptr0 + SettingSpan(env, name)
  {
    arr, ptr := arr0, ptr0;
    if name in env {
      ghost var x := Setting(env, name)[0];
      assert Setting(env, name) == [x];
      StoreSetting(slots, block, arr, ptr, name, env[name], x, base, e);
      arr := arr + 1;
      ptr := ptr + |name| + |env[name]| + 2;
    } else {
      assert e + Setting(env, name) == e;
    }
  }

  /** Packs the settings of variables that are preserved. */
  method PackPreserved(env: Env, slots: array<nat>, block: array<Byte>, arr0: nat, ptr0: nat,
                       c: int, v: seq<Option<Name>>, ghost base: nat, ghost e: seq<Name>) returns (arr: nat, ptr: nat)
    requires slots as object != block as object && Readable(c, v)
    requires Packed(slots[..], block[..], base, e) && arr0 == |e| && ptr0 == base + Span(e)
    requires |e| + |Present(env, Taken(c, v))| < slots.Length && ptr0 + Span(Present(env, Taken(c, v))) <= block.Length
    modifies slots, block
    ensures Packed(slots[..], block[..], base, e + Present(env, Taken(c, v)))
    ensures arr == |e + Present(env, Taken(c, v))| && ptr == base + Span(e + Present(env, Taken(c, v)))
  {
    TakenStops(c, v);
    ghost var names, part := Taken(c, v), [];
    assert e + part == e;
    arr, ptr := arr0, ptr0;
    var i := 0;
    while i < c && v[i] != None
      invariant 0 <= i <= |names| && part == PresentTo(env, names, i)
      invariant Packed(slots[..], block[..], base, e + part) && arr == |e| + |part|
      invariant ptr == ptr0 + Span(part) == base + Span(e + part)
      decreases c - i
    {
      PresentStep(env, names, i, e);
      arr, ptr := PackSetting(env, slots, block, arr, ptr, v[i].value, base, e + part);
      part := PresentTo(env, names, i + 1);
      i := i + 1;
    }
  }

  lemma PresentStep(env: Env, names: seq<Name>, i: nat, e: seq<Name>)
    requires i < |names|
    ensures e + PresentTo(env, names, i) + Setting(env, names[i]) == e + PresentTo(env, names, i + 1)
    ensures |PresentTo(env, names, i)| + |Setting(env, names[i])| <= |Present(env, names)|
    ensures Span(PresentTo(env, names, i)) + SettingSpan(env, names[i]) == Span(PresentTo(env, names, i + 1))
    ensures Span(PresentTo(env, names, i)) + SettingSpan(env, names[i]) <= Span(Present(env, names))
  {
    PresentNext(env, names, i);
    PresentMonotone(env, names, i + 1, |names|);
  }

  // ----- the whole

  /** The strings of the new environment, in order. */
  function NewEnviron(env: Env, clean: seq<Name>, kept: seq<Name>, preserved: seq<Name>, added: seq<Name>): seq<Name> {
    clean + Present(env, kept) + Present(env, preserved) + added
  }

  /** The names that the client passes: none if there is no array. */
  function Client(c: int, v: Option<seq<Option<Name>>>): seq<Name> {
    if c > 0 && v.Some? then Taken(c, v.value) else []
  }

  predicate ClientReadable(c: int, v: Option<seq<Option<Name>>>) {
    c > 0 && v.Some? ==> Readable(c, v.value)
  }

  /** Where the names of the client stop: at the count, or at the first null pointer. */
  lemma ClientStops(c: int, v: Option<seq<Option<Name>>>)
    requires ClientReadable(c, v)
    ensures c <= 0 || v.None? ==> Client(c, v) == []
    ensures c > 0 && v.Some? ==> var n := |Client(c, v)|;
      && n <= c && n <= |v.value| && (n == c || (n < |v.value| && v.value[n] == None))
      && forall j | 0 <= j < n :: v.value[j] == Some(Client(c, v)[j])
  {
    if v.Some? { TakenStops(c, v.value); }
  }

  /** The indices below `k` of the names that the environment has. */
  function PresentBelow(env: Env, names: seq<Name>, k: nat): set<int>
    requires k <= |names|
  {
    set j | 0 <= j < k && names[j] in env
  }

  /** The setting of the i-th name, if it is present, comes after those of the names before it. */
  lemma {:induction false} PresentByIndex(env: Env, names: seq<Name>, k: nat, i: nat)
    requires i < k <= |names|
    ensures |PresentTo(env, names, i)| == |PresentBelow(env, names, i)|
    ensures names[i] in env ==>
      && |PresentTo(env, names, i)| < |PresentTo(env, names, k)|
      && PresentTo(env, names, k)[|PresentTo(env, names, i)|] == names[i] + [61] + env[names[i]]
  {
    PresentCount(env, names, i);
    if i < k - 1 {
      PresentByIndex(env, names, k - 1, i);
    }
  }

  lemma {:induction false} PresentCount(env: Env, names: seq<Name>, k: nat)
    requires k <= |names|
    ensures |PresentTo(env, names, k)| == |PresentBelow(env, names, k)|
  {
    if k > 0 {
      PresentCount(env, names, k - 1);
      var s, t := PresentBelow(env, names, k - 1), PresentBelow(env, names, k);
      assert k - 1 !in s;
      if names[k - 1] in env { assert t == s + {k - 1}; } else { assert t == s; }
    }
  }

  /** What stands where in the new environment `r`, entry by entry, for the preserved names `pv` and
      the added strings `av`: the two clean entries; TZ, if present; each preserved name that is
      present, after those of the names before it; and the added strings. */
  ghost predicate EntryByEntry(env: Env, stdpath: Name, pv: seq<Name>, av: seq<Name>, r: seq<seq<Byte>>) {
    var b, m := if TZ in env then 3 else 2, |PresentBelow(env, pv, |pv|)|;
    && |r| == b + m + |av|
    && r[0] == [73, 70, 83, 61, 32, 9, 10] && r[1] == [80, 65, 84, 72, 61] + stdpath
    && (TZ in env ==> r[2] == [84, 90, 61] + env[TZ])
    && (forall i | 0 <= i < |pv| && pv[i] in env ::
          var k := b + |PresentBelow(env, pv, i)|;
          k < b + m && r[k] == pv[i] + [61] + env[pv[i]])
    && (forall i | 0 <= i < |av| :: r[b + m + i] == av[i])
  }

  lemma NewEnvironByIndex(env: Env, stdpath: Name, pv: seq<Name>, av: seq<Name>)
    ensures EntryByEntry(env, stdpath, pv, av, NewEnviron(env, [IFS, StandardPath(stdpath)], [TZ], pv, av))
  {
    var b, m := if TZ in env then 3 else 2, |PresentBelow(env, pv, |pv|)|;
    var clean, kept, p := [IFS, StandardPath(stdpath)], Present(env, [TZ]), Present(env, pv);
    PresentCount(env, pv, |pv|);
    assert PresentTo(env, [TZ], 1) == PresentTo(env, [TZ], 0) + Setting(env, TZ);
    assert |clean| + |kept| == b && |p| == m;
    FourParts(clean, kept, p, av);
    forall i | 0 <= i < |pv| && pv[i] in env
      ensures var k := |PresentBelow(env, pv, i)|; k < m && p[k] == pv[i] + [61] + env[pv[i]]
    {
      PresentByIndex(env, pv, |pv|, i);
    }
  }

  lemma FourParts(a: seq<Name>, b: seq<Name>, c: seq<Name>, d: seq<Name>)
    ensures var r := a + b + c + d;
      && |r| == |a| + |b| + |c| + |d|
      && (forall i | 0 <= i < |a| :: r[i] == a[i]) && (forall i | 0 <= i < |b| :: r[|a| + i] == b[i])
      && (forall i | 0 <= i < |c| :: r[|a| + |b| + i] == c[i])
      && (forall i | 0 <= i < |d| :: r[|a| + |b| + |c| + i] == d[i])
  {
  }

  /** The static arrays; `stdpath` is the standard path of the system. */
  const IFS: Name := [73, 70, 83, 61, 32, 9, 10]
  const PATH: Name := [80, 65, 84, 72, 61]
  const TZ: Name := [84, 90]

  function StandardPath(stdpath: Name): Name {
    PATH + stdpath
  }

  function CleanEnviron(stdpath: Name): seq<Option<Name>> {
    [Some(IFS), Some(StandardPath(stdpath)), None]
  }

  const PRESERVE_ENVIRON: seq<Option<Name>> := [Some(TZ), None]

  lemma StaticNames(stdpath: Name)
    ensures Taken(3, CleanEnviron(stdpath)) == [IFS, StandardPath(stdpath)]
    ensures Taken(2, PRESERVE_ENVIRON) == [TZ]
    ensures None in CleanEnviron(stdpath) && None in PRESERVE_ENVIRON
  {
    TakenStops(3, CleanEnviron(stdpath));
    TakenStops(2, PRESERVE_ENVIRON);
    assert CleanEnviron(stdpath)[2] == None && PRESERVE_ENVIRON[1] == None;
  }

  /** `build_clean_environ`, for a fixed environment: following the pointers up to the null one reads
      the clean entries, the preserved variables that are present, by default and by the client, and
      the added strings. */
  method BuildCleanEnviron(env: Env, stdpath: Name, preservec: int, preservev: Option<seq<Option<Name>>>,
                           addc: int, addv: Option<seq<Option<Name>>>)
    returns (slots: array<nat>, block: array<Byte>)
    requires ClientReadable(preservec, preservev) && ClientReadable(addc, addv)
    ensures var r := Environ(slots[..], block[..], 0);
      && EntryByEntry(env, stdpath, Client(preservec, preservev), Client(addc, addv), r)
      && slots.Length == |r| + 1 && slots[|r|] == 0
  {
    slots, block := BuildBlock(env, stdpath, preservec, preservev, addc, addv);
    NewEnvironByIndex(env, stdpath, Client(preservec, preservev), Client(addc, addv));
  }

  /** The block: what the first pass sized, the second one fills exactly. */
  method BuildBlock(env: Env, stdpath: Name, preservec: int, preservev: Option<seq<Option<Name>>>,
                    addc: int, addv: Option<seq<Option<Name>>>)
    returns (slots: array<nat>, block: array<Byte>)
    requires ClientReadable(preservec, preservev) && ClientReadable(addc, addv)
    ensures var e := NewEnviron(env, [IFS, StandardPath(stdpath)], [TZ],
                                Client(preservec, preservev), Client(addc, addv));
      && Packed(slots[..], block[..], slots.Length * PTR_SIZE, e)
      && slots.Length == |e| + 1 && block.Length == slots.Length * PTR_SIZE + Span(e)
      && Environ(slots[..], block[..], 0) == e && slots[|e|] == 0
  {
    var clean, kept := CleanEnviron(stdpath), PRESERVE_ENVIRON;
    StaticNames(stdpath);
    var arrSize, newSize := Measure(env, clean, kept, preservec, preservev, addc, addv);
    newSize := newSize + arrSize * PTR_SIZE;
    slots := new nat[arrSize](_ => 0);
    block := new Byte[newSize](_ => 0);
    Pack(env, clean, kept, preservec, preservev, addc, addv, slots, block);
    ghost var e := NewEnviron(env, [IFS, StandardPath(stdpath)], [TZ],
                              Client(preservec, preservev), Client(addc, addv));
    EnvironReadsBack(slots[..], block[..], slots.Length * PTR_SIZE, e, 0);
  }

  /** The first pass: the number of pointers, the last one null, and the bytes of the strings. */
  method Measure(env: Env, clean: seq<Option<Name>>, kept: seq<Option<Name>>,
                 preservec: int, preservev: Option<seq<Option<Name>>>,
                 addc: int, addv: Option<seq<Option<Name>>>)
    returns (arrSize: nat, newSize: nat)
    requires None in clean && None in kept && ClientReadable(preservec, preservev) && ClientReadable(addc, addv)
    ensures var e := NewEnviron(env, Taken(|clean|, clean), Taken(|kept|, kept),
                                Client(preservec, preservev), Client(addc, addv));
      arrSize == |e| + 1 && newSize == Span(e)
  {
    arrSize, newSize := 1, 0;
    var b, n := SizePlain(|clean|, clean);
    newSize, arrSize := newSize + b, arrSize + n;
    b, n := SizePreserved(env, |kept|, kept);
    newSize, arrSize := newSize + b, arrSize + n;
    if preservec > 0 && preservev != None {
      b, n := SizePreserved(env, preservec, preservev.value);
      newSize, arrSize := newSize + b, arrSize + n;
    }
    if addc > 0 && addv != None {
      b, n := SizePlain(addc, addv.value);
      newSize, arrSize := newSize + b, arrSize + n;
    }
    SpanConcat4(Taken(|clean|, clean), Present(env, Taken(|kept|, kept)), Present(env, Client(preservec, preservev)),
                Client(addc, addv));
  }

  lemma SpanConcat4(a: seq<Name>, b: seq<Name>, c: seq<Name>, d: seq<Name>)
    ensures Span(a + b) == Span(a) + Span(b)
    ensures Span(a + b + c) == Span(a) + Span(b) + Span(c)
    ensures Span(a + b + c + d) == Span(a) + Span(b) + Span(c) + Span(d)
  {
    SpanConcat(a, b);
    SpanConcat(a + b, c);
    SpanConcat(a + b + c, d);
  }

  /** The second pass. */
  method Pack(env: Env, clean: seq<Option<Name>>, kept: seq<Option<Name>>,
              preservec: int, preservev: Option<seq<Option<Name>>>,
              addc: int, addv: Option<seq<Option<Name>>>,
              slots: array<nat>, block: array<Byte>)
    requires None in clean && None in kept && ClientReadable(preservec, preservev) && ClientReadable(addc, addv)
    requires slots as object != block as object && forall i | 0 <= i < slots.Length :: slots[i] == 0
    requires var e := NewEnviron(env, Taken(|clean|, clean), Taken(|kept|, kept),
                                 Client(preservec, preservev), Client(addc, addv));
      slots.Length == |e| + 1 && block.Length == slots.Length * PTR_SIZE + Span(e)
    modifies slots, block
    ensures Packed(slots[..], block[..], slots.Length * PTR_SIZE,
      NewEnviron(env, Taken(|clean|, clean), Taken(|kept|, kept), Client(preservec, preservev), Client(addc, addv)))
  {
    ghost var base, a, b := slots.Length * PTR_SIZE, Taken(|clean|, clean), Present(env, Taken(|kept|, kept));
    ghost var c, d := Present(env, Client(preservec, preservev)), Client(addc, addv);
    SpanConcat4(a, b, c, d);
    var arr, ptr := 0, slots.Length * PTR_SIZE;
    arr, ptr := PackPlain(slots, block, arr, ptr, |clean|, clean, base, []);
    assert [] + a == a;
    arr, ptr := PackPreserved(env, slots, block, arr, ptr, |kept|, kept, base, a);
    if preservec > 0 && preservev != None {
      arr, ptr := PackPreserved(env, slots, block, arr, ptr, preservec, preservev.value, base, a + b);
    } else {
      assert a + b + c == a + b;
    }
    if addc > 0 && addv != None {
      arr, ptr := PackPlain(slots, block, arr, ptr, addc, addv.value, base, a + b + c);
    } else {
      assert a + b + c + d == a + b + c;
    }
  }

  // ----- reading the new environment

  /** What a reader finds who follows the pointers from the k-th on up to a null pointer. */
  function Environ(slots: seq<nat>, b: seq<Byte>, k: nat): seq<seq<Byte>>
    decreases |slots| - k
  {
    if k >= |slots| || slots[k] == 0 || slots[k] > |b| then []
    else [Text(b[slots[k]..])] + Environ(slots, b, k + 1)
  }

  /** Reading what was packed gives the strings back, in order. */
  lemma {:induction false} EnvironReadsBack(slots: seq<nat>, b: seq<Byte>, base: nat, e: seq<Name>, k: nat)
    requires Packed(slots, b, base, e) && base > 0 && k <= |e|
    ensures Environ(slots, b, k) == e[k..]
    decreases |e| - k
  {
    if k < |e| {
      assert StoredAt(slots, b, base, e, k);
      var at := slots[k];
      assert b[at..at + |e[k]|] == e[k];
      TextAt(b, at, e[k]);
      EnvironReadsBack(slots, b, base, e, k + 1);
      assert e[k..] == [e[k]] + e[k + 1..];
    }
  }

  /** Each string begins where the one before it ends, the first one behind the pointers, and the
      last one ends with the block: nothing overlaps and no byte is left. */
  lemma Tiled(slots: seq<nat>, b: seq<Byte>, base: nat, e: seq<Name>, k: nat)
    requires Packed(slots, b, base, e) && |b| == base + Span(e) && k < |e|
    ensures base <= slots[k] && slots[k] + |e[k]| + 1 == if k + 1 < |e| then slots[k + 1] else |b|
    ensures k == 0 ==> slots[k] == base
    ensures slots[|e|] == 0
  {
    assert StoredAt(slots, b, base, e, k);
    if k + 1 < |e| { assert StoredAt(slots, b, base, e, k + 1); }
  }
}
