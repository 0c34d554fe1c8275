/** What the registry of `src/cb.c` represents: a map from names to sequences of callbacks. */
module RegistryView {
  import opened Sequences
  import opened CStrings
  import opened ListRing

  /** A callback with its context; a null `fn` is 0. */
  datatype Record = Record(ctx: nat, fn: nat)

  /** What the buckets and the lists at their addresses represent. */
  type View = map<seq<Byte>, seq<Record>>

  predicate Proper(r: seq<Record>) {
    NoDup(r) && forall x | x in r :: x.fn != 0
  }

  function Registered(view: View, t: seq<Byte>): seq<Record> {
    if t in view then view[t] else []
  }

  /** What is registered after `cb_add`, and after `cb_remove`. */
  function Added(view: View, t: seq<Byte>, rec: Record): View {
    if rec.fn == 0 || rec in Registered(view, t) then view else view[t := Registered(view, t) + [rec]]
  }

  function Removed(view: View, t: seq<Byte>, rec: Record): View {
    if rec in Registered(view, t) then view[t := Minus(Registered(view, t), rec)] else view
  }

  /** `s` without the first `x`. */
  function Minus<X(==)>(s: seq<X>, x: X): seq<X> {
    if s == [] then [] else if s[0] == x then s[1..] else [s[0]] + Minus(s[1..], x)
  }

  lemma {:induction false} MinusAt<X>(s: seq<X>, j: nat)
    requires j < |s| && NoDup(s)
    ensures Minus(s, s[j]) == Without(s, j)
  {
    if j > 0 {
      MinusAt(s[1..], j - 1);
    }
  }

  lemma ProperWithout(r: seq<Record>, j: nat)
    requires Proper(r) && j < |r|
    ensures Proper(Without(r, j))
  {
    var t := Without(r, j);
    assert forall i | 0 <= i < |t| :: t[i] == r[if i < j then i else i + 1];
  }

  lemma ProperSnoc(r: seq<Record>, rec: Record)
    requires Proper(r) && rec !in r && rec.fn != 0
    ensures Proper(r + [rec])
  {
  }

  // ----- one operation, element by element

  /** An addition that is not refused puts the record after the others of its name. */
  lemma AddedElements(view: View, t: seq<Byte>, rec: Record)
    requires rec.fn != 0 && rec !in Registered(view, t)
    ensures var r, s := Registered(view, t), Registered(Added(view, t, rec), t);
      |s| == |r| + 1 && s[|r|] == rec && forall j | 0 <= j < |r| :: s[j] == r[j]
    ensures forall u | u != t :: Registered(Added(view, t, rec), u) == Registered(view, u)
  {
  }

  /** A removal that is not refused takes out the record, and those after it move up. */
  lemma RemovedElements(view: View, t: seq<Byte>, rec: Record) returns (p: nat)
    requires rec in Registered(view, t) && NoDup(Registered(view, t))
    ensures var r, s := Registered(view, t), Registered(Removed(view, t, rec), t);
      && p < |r| && r[p] == rec && |s| == |r| - 1 && rec !in s
      && (forall j | 0 <= j < p :: s[j] == r[j]) && (forall j | p <= j < |s| :: s[j] == r[j + 1])
    ensures forall u | u != t :: Registered(Removed(view, t, rec), u) == Registered(view, u)
  {
    var r := Registered(view, t);
    p :| 0 <= p < |r| && r[p] == rec;
    MinusAt(r, p);
    WithoutElements(r, p);
  }

  // ----- runs

  datatype Request =
    | Add(name: seq<Byte>, rec: Record)
    | Remove(name: seq<Byte>, rec: Record)
    | Has(name: seq<Byte>)
    | Call(name: seq<Byte>)

  function ViewAfter(view: View, op: Request): View {
    match op
    case Add(name, rec) => Added(view, Text(name), rec)
    case Remove(name, rec) => Removed(view, Text(name), rec)
    case Has(_) => view
    case Call(_) => view
  }

  /** What an operation returns. */
  function Returns(view: View, op: Request): bool {
    match op
    case Add(name, rec) => rec.fn != 0 && rec !in Registered(view, Text(name))
    case Remove(name, rec) => rec in Registered(view, Text(name))
    case Has(name) => Registered(view, Text(name)) != []
    case Call(name) => Registered(view, Text(name)) != []
  }

  /** The callbacks that an operation calls. */
  function Calls(view: View, op: Request): seq<Record> {
    if op.Call? then Registered(view, Text(op.name)) else []
  }

  /** What is registered after the first `n` operations, and what they have returned and called. */
  function RunView(ops: seq<Request>, n: nat): View
    requires n <= |ops|
  {
    if n == 0 then map[] else ViewAfter(RunView(ops, n - 1), ops[n - 1])
  }

  function RunReturns(ops: seq<Request>, n: nat): (r: seq<bool>)
    requires n <= |ops|
    ensures |r| == n
  {
    if n == 0 then [] else RunReturns(ops, n - 1) + [Returns(RunView(ops, n - 1), ops[n - 1])]
  }

  lemma {:induction false} RunReturnsAt(ops: seq<Request>, n: nat, i: nat)
    requires i < n <= |ops|
    ensures |RunReturns(ops, n)| == n && RunReturns(ops, n)[i] == Returns(RunView(ops, i), ops[i])
  {
    if n > 1 { RunReturnsAt(ops, n - 1, if i < n - 1 then i else 0); }
  }

  function RunCalls(ops: seq<Request>, n: nat): seq<Record>
    requires n <= |ops|
  {
    if n == 0 then [] else RunCalls(ops, n - 1) + Calls(RunView(ops, n - 1), ops[n - 1])
  }

  // ----- the law of runs

  predicate Adds(op: Request, t: seq<Byte>, rec: Record) {
    op.Add? && Text(op.name) == t && op.rec == rec && rec.fn != 0
  }

  predicate Removes(op: Request, t: seq<Byte>, rec: Record) {
    op.Remove? && Text(op.name) == t && op.rec == rec
  }

  /** The i-th operation adds the record and none of the first `n` removes it later. */
  predicate Stands(ops: seq<Request>, n: nat, t: seq<Byte>, rec: Record, i: int)
    requires n <= |ops|
  {
    0 <= i < n && Adds(ops[i], t, rec) && forall j | i < j < n :: !Removes(ops[j], t, rec)
  }

  predicate Standing(ops: seq<Request>, n: nat, t: seq<Byte>, rec: Record)
    requires n <= |ops|
  {
    exists i | 0 <= i < n :: Stands(ops, n, t, rec, i)
  }

  lemma StandingNext(ops: seq<Request>, n: nat, t: seq<Byte>, rec: Record)
    requires 0 < n <= |ops|
    ensures Standing(ops, n, t, rec) <==>
      Adds(ops[n - 1], t, rec) || (Standing(ops, n - 1, t, rec) && !Removes(ops[n - 1], t, rec))
  {
    if Adds(ops[n - 1], t, rec) { assert Stands(ops, n, t, rec, n - 1); }
    if Standing(ops, n - 1, t, rec) && !Removes(ops[n - 1], t, rec) {
      var i :| 0 <= i < n - 1 && Stands(ops, n - 1, t, rec, i);
      assert Stands(ops, n, t, rec, i);
    }
    if Standing(ops, n, t, rec) && !Adds(ops[n - 1], t, rec) {
      var i :| 0 <= i < n && Stands(ops, n, t, rec, i);
      assert Stands(ops, n - 1, t, rec, i);
    }
  }

  /** What the last operation does to one name. */
  lemma StepMembers(view: View, op: Request, t: seq<Byte>, rec: Record)
    requires NoDup(Registered(view, t))
    ensures NoDup(Registered(ViewAfter(view, op), t))
    ensures rec in Registered(ViewAfter(view, op), t) <==>
      Adds(op, t, rec) || (rec in Registered(view, t) && !Removes(op, t, rec))
  {
    var r := Registered(view, t);
    if op.Add? && Text(op.name) == t && op.rec.fn != 0 && op.rec !in r {
      AddedElements(view, t, op.rec);
    }
    if op.Remove? && Text(op.name) == t && op.rec in r {
      var p := RemovedElements(view, t, op.rec);
      var s := Registered(ViewAfter(view, op), t);
      assert forall j | 0 <= j < |r| && j != p :: r[j] == s[if j < p then j else j - 1];
    }
  }

  /** A record is registered under a name exactly if some addition of it has no later removal. */
  lemma {:induction false} RunRegistered(ops: seq<Request>, n: nat, t: seq<Byte>, rec: Record)
    requires n <= |ops|
    ensures NoDup(Registered(RunView(ops, n), t))
    ensures rec in Registered(RunView(ops, n), t) <==> Standing(ops, n, t, rec)
  {
    if n > 0 {
      RunRegistered(ops, n - 1, t, rec);
      StepMembers(RunView(ops, n - 1), ops[n - 1], t, rec);
      StandingNext(ops, n, t, rec);
    }
  }

  /** The addition that a record stands for: the earliest one that has no later removal. */
  ghost predicate StandsFirst(ops: seq<Request>, n: nat, t: seq<Byte>, rec: Record, i: int)
    requires n <= |ops|
  {
    Stands(ops, n, t, rec, i) && forall j | 0 <= j < i :: !Stands(ops, n, t, rec, j)
  }

  lemma StandsFirstBefore(ops: seq<Request>, n: nat, t: seq<Byte>, rec: Record, i: int)
    requires 0 < n <= |ops| && StandsFirst(ops, n, t, rec, i)
    requires rec in Registered(RunView(ops, n - 1), t) && !Removes(ops[n - 1], t, rec)
    ensures i < n - 1 && StandsFirst(ops, n - 1, t, rec, i)
  {
    var m := n - 1;
    RunRegistered(ops, m, t, rec);
    var k :| 0 <= k < m && Stands(ops, m, t, rec, k);
    assert Stands(ops, n, t, rec, k);
    forall j | 0 <= j < i ensures !Stands(ops, m, t, rec, j) {
      assert !Stands(ops, n, t, rec, j);
    }
  }

  /** Where the records of a name come from when one more operation has run: from a place before it,
      in the same order, or from the addition itself, at the end. */
  lemma StepOrder(view: View, op: Request, t: seq<Byte>, a: nat) returns (a0: nat)
    requires NoDup(Registered(view, t)) && a < |Registered(ViewAfter(view, op), t)|
    ensures var r, s := Registered(view, t), Registered(ViewAfter(view, op), t);
      && a <= a0 <= |r|
      && (a0 < |r| ==> s[a] == r[a0] && !Removes(op, t, s[a]))
      && (a0 == |r| ==> a == |s| - 1 && Adds(op, t, s[a]) && s[a] !in r)
    ensures op.Remove? && Text(op.name) == t && op.rec in Registered(view, t) ==>
      var p := IndexIn(Registered(view, t), op.rec); a0 == if a < p then a else a + 1
    ensures !(op.Remove? && Text(op.name) == t && op.rec in Registered(view, t)) ==> a0 == a
  {
    var r, s := Registered(view, t), Registered(ViewAfter(view, op), t);
    a0 := a;
    if op.Remove? && Text(op.name) == t && op.rec in r {
      var p := RemovedElements(view, t, op.rec);
      a0 := if a < p then a else a + 1;
      assert s[a] in s;
    }
  }

  function IndexIn(r: seq<Record>, x: Record): (p: nat)
    requires x in r
    ensures p < |r| && r[p] == x
  {
    if r[0] == x then 0 else 1 + IndexIn(r[1..], x)
  }

  /** The records of a name are in the order of the additions they stand for. */
  lemma {:induction false} RunOrder(ops: seq<Request>, n: nat, t: seq<Byte>, a: nat, b: nat, i: int, j: int)
    requires n <= |ops| && a < b < |Registered(RunView(ops, n), t)|
    requires StandsFirst(ops, n, t, Registered(RunView(ops, n), t)[a], i)
    requires StandsFirst(ops, n, t, Registered(RunView(ops, n), t)[b], j)
    ensures i < j
  {
    if n > 0 {
      var v, op := RunView(ops, n - 1), ops[n - 1];
      var r, s := Registered(v, t), Registered(RunView(ops, n), t);
      RunRegistered(ops, n - 1, t, s[a]);
      RunRegistered(ops, n - 1, t, s[b]);
      var a0 := StepOrder(v, op, t, a);
      var b0 := StepOrder(v, op, t, b);
      StandsFirstBefore(ops, n, t, s[a], i);
      if b0 < |r| {
        StandsFirstBefore(ops, n, t, s[b], j);
        RunOrder(ops, n - 1, t, a0, b0, i, j);
      } else {
        StandsAtLast(ops, n, t, s[b], j);
      }
    }
  }

  lemma StandsAtLast(ops: seq<Request>, n: nat, t: seq<Byte>, rec: Record, j: int)
    requires 0 < n <= |ops| && rec !in Registered(RunView(ops, n - 1), t) && Stands(ops, n, t, rec, j)
    ensures j == n - 1
  {
    RunRegistered(ops, n - 1, t, rec);
    if j < n - 1 { assert Stands(ops, n - 1, t, rec, j); }
  }

  /** What every operation of a run returns, in terms of the operations before it. */
  lemma RunReturnsMean(ops: seq<Request>, i: nat)
    requires i < |ops|
    ensures var op, ok := ops[i], RunReturns(ops, |ops|)[i]; var t := Text(op.name);
      && (op.Add? ==> (ok <==> op.rec.fn != 0 && !Standing(ops, i, t, op.rec)))
      && (op.Remove? ==> (ok <==> Standing(ops, i, t, op.rec)))
      && (op.Has? || op.Call? ==> (ok <==> exists rec :: Standing(ops, i, t, rec)))
  {
    RunReturnsAt(ops, |ops|, i);
    var op := ops[i];
    var r := Registered(RunView(ops, i), Text(op.name));
    forall rec ensures rec in r <==> Standing(ops, i, Text(op.name), rec) {
      RunRegistered(ops, i, Text(op.name), rec);
    }
    if r != [] { assert r[0] in r; }
  }
}
