/** Any run of array operations, against plain sequences. */
module RubyArrayRun {
  import opened Wrappers
  import opened RubyArray

  /** One operation on the arrays of a program, which are known by number. Slicing makes a new one. */
  datatype Op =
    | Store(k: nat, idx: int, val: Value)
    | Push(k: nat, val: Value)
    | Pop(k: nat)
    | Shift(k: nat)
    | Unshift(k: nat, val: Value)
    | UnshiftAll(k: nat, items: seq<Value>)
    | Subseq(k: nat, beg: int, n: int)
    | Replace(k: nat, from: nat)
    | Update(k: nat, beg: int, n: int, from: nat)
    | DeleteAt(k: nat, idx: int)
    | Clear(k: nat)

  predicate Fits(op: Op, n: nat) {
    op.k < n && (op.Replace? || op.Update? ==> op.from < n) && (op.UnshiftAll? ==> op.items != [])
  }

  /** The number of the other array an operation reads. */
  function From(op: Op): nat {
    if op.Replace? || op.Update? then op.from else op.k
  }

  /** What an array with the elements `s` holds after the operation; `r` is the other one read. */
  function Result(s: seq<Value>, r: seq<Value>, op: Op): seq<Value> {
    match op
    case Store(_, idx, val) => if Index(s, idx) >= 0 then Stored(s, Index(s, idx), val) else s
    case Push(_, val) => s + [val]
    case Pop(_) => if s == [] then s else s[..|s| - 1]
    case Shift(_) => if s == [] then s else s[1..]
    case Unshift(_, val) => [val] + s
    case UnshiftAll(_, items) => items + s
    case Subseq(_, _, _) => s
    case Replace(_, _) => r
    case Update(_, beg, n, _) => if n >= 0 && Index(s, beg) >= 0 then Spliced(s, Index(s, beg), n, r) else s
    case DeleteAt(_, idx) => var i := Index(s, idx); if 0 <= i < |s| then s[..i] + s[i + 1..] else s
    case Clear(_) => []
  }

  /** Every operation is the plain sequence operation on its own array, and nothing else. */
  function Apply(st: seq<seq<Value>>, op: Op): seq<seq<Value>>
    requires Fits(op, |st|)
  {
    var st' := st[op.k := Result(st[op.k], st[From(op)], op)];
    if op.Subseq? && 0 <= op.beg <= |st[op.k]| && op.n >= 0 then st' + [Sliced(st[op.k], op.beg, op.n)] else st'
  }

  function Bound(st: seq<seq<Value>>, ops: seq<Op>): bool
    decreases |ops|
  {
    ops == [] || (Fits(ops[0], |st|) && Bound(Apply(st, ops[0]), ops[1..]))
  }

  function RunAll(st: seq<seq<Value>>, ops: seq<Op>): seq<seq<Value>>
    requires Bound(st, ops)
    decreases |ops|
  {
    if ops == [] then st else RunAll(Apply(st, ops[0]), ops[1..])
  }

  ghost function Members(pool: seq<RArray>): set<RArray> {
    set i | 0 <= i < |pool| :: pool[i]
  }

  ghost function Buffers(pool: seq<RArray>): set<array<Value>>
    reads pool
  {
    set i | 0 <= i < |pool| :: pool[i].ptr
  }

  ghost predicate Pool(pool: seq<RArray>)
    reads pool
  {
    Separate(Members(pool)) && forall i, j :: 0 <= i < j < |pool| ==> pool[i] != pool[j]
  }

  /** The program's arrays hold what the plain sequences hold. */
  ghost predicate Shows(pool: seq<RArray>, st: seq<seq<Value>>)
    requires Pool(pool)
    reads pool, Buffers(pool)
  {
    |pool| == |st| && forall i :: 0 <= i < |pool| ==> pool[i].Contents() == st[i]
  }

  /** One operation on the array it changes. */
  method Act(a: RArray, from: RArray, op: Op, ghost all: set<RArray>) returns (made: Option<RArray>)
    requires a in all && from in all && Separate(all) && (op.UnshiftAll? ==> op.items != [])
    modifies a, a.ptr, from
    ensures Separate(all) && a.Contents() == Result(old(a.Contents()), old(from.Contents()), op)
    ensures forall y :: y in all && y != a ==> y.Contents() == old(y.Contents())
    ensures forall y :: y in all ==> y.ptr == old(y.ptr) || y.ptr == old(from.ptr) || fresh(y.ptr)
    ensures made.Some? <==> op.Subseq? && 0 <= op.beg <= |old(a.Contents())| && op.n >= 0
    ensures made.Some? ==> fresh(made.value) && Separate(all + {made.value}) && made.value.Ok() && made.value.Contents() == Sliced(old(a.Contents()), op.beg, op.n)
    ensures made.Some? ==> made.value.ptr == old(a.ptr) || fresh(made.value.ptr)
  {
    hide Separate, Stored, Spliced, Index, Sliced;
    made := None;
    match op
    case Store(_, idx, val) => var ok := a.Store(idx, val, all);
    case Push(_, val) => a.Push(val, all);
    case Pop(_) => var v := a.Pop(all);
    case Shift(_) => var v := a.Shift(all);
    case Unshift(_, val) => a.Unshift(val, all);
    case UnshiftAll(_, items) => a.UnshiftAll(items, all);
    case Replace(_, _) => a.Replace(from, all);
    case Update(_, beg, n, _) => var ok := a.Update(beg, n, from, all);
    case DeleteAt(_, idx) => var v := a.DeleteAt(idx, all);
    case Clear(_) => a.Clear(all);
    case Subseq(_, beg, n) => made := a.Subseq(beg, n, all);
  }

  /** One operation, before a new array joins the others. */
  method Change(pool: seq<RArray>, op: Op, ghost st: seq<seq<Value>>) returns (made: Option<RArray>)
    requires Pool(pool) && Shows(pool, st) && Fits(op, |pool|)
    modifies Members(pool), Buffers(pool)
    ensures Pool(pool) && Shows(pool, st[op.k := Result(st[op.k], st[From(op)], op)])
    ensures made.Some? <==> op.Subseq? && 0 <= op.beg <= |st[op.k]| && op.n >= 0
    ensures made.Some? ==> fresh(made.value) && Separate(Members(pool) + {made.value}) && made.value.Ok()
    ensures made.Some? ==> made.value.Contents() == Sliced(st[op.k], op.beg, op.n)
    ensures forall o :: o in Buffers(pool) ==> o in old(Buffers(pool)) || fresh(o)
    ensures made.Some? ==> made.value.ptr in old(Buffers(pool)) || fresh(made.value.ptr)
  {
    hide Separate, Result, Sliced;
    ghost var all := Members(pool);
    var a := pool[op.k];
    made := Act(a, pool[From(op)], op, all);
    forall i | 0 <= i < |pool| && i != op.k ensures pool[i].Ok() && pool[i].Contents() == st[i] {
      MemberOk(pool, i);
      assert pool[i] in all && pool[i] != a;
    }
  }

  /** One operation on the program's arrays. */
  method Do(pool: seq<RArray>, op: Op, ghost st: seq<seq<Value>>) returns (pool': seq<RArray>)
    requires Pool(pool) && Shows(pool, st) && Fits(op, |pool|)
    modifies Members(pool), Buffers(pool)
    ensures Pool(pool') && Shows(pool', Apply(st, op))
    ensures forall a :: a in Members(pool') ==> a in Members(pool) || fresh(a)
    ensures forall o :: o in Buffers(pool') ==> o in old(Buffers(pool)) || fresh(o)
  {
    hide Separate, Result, Sliced, Pool, Shows;
    SameSize(pool, st);
    var made := Change(pool, op, st);
    pool' := pool;
    if made.Some? {
      pool' := pool + [made.value];
      Grown(pool, made.value, st[op.k := Result(st[op.k], st[From(op)], op)], Sliced(st[op.k], op.beg, op.n));
    }
  }

  lemma Grown(pool: seq<RArray>, x: RArray, st: seq<seq<Value>>, s: seq<Value>)
    requires Pool(pool) && Shows(pool, st) && x !in pool && Separate(Members(pool) + {x}) && x.Ok() && x.Contents() == s
    ensures Pool(pool + [x]) && Shows(pool + [x], st + [s])
  {
    hide Separate;
    var more := pool + [x];
    assert Members(more) == Members(pool) + {x} by {
      assert more[|pool|] == x;
      forall i | 0 <= i < |pool| ensures pool[i] in Members(more) { assert more[i] == pool[i]; }
    }
    forall i | 0 <= i < |more| ensures more[i].Ok() { MemberOk(more, i); }
  }

  lemma MemberOk(pool: seq<RArray>, i: nat)
    requires i < |pool| && Separate(Members(pool))
    ensures pool[i].Ok()
  {
    assert pool[i] in Members(pool);
  }

  /** Any run of operations: every array ends with exactly what the plain sequence has, whatever
      buffers the arrays have shared on the way. */
  method Run(pool: seq<RArray>, ops: seq<Op>, ghost st: seq<seq<Value>>) returns (pool': seq<RArray>)
    requires Pool(pool) && Shows(pool, st) && Bound(st, ops)
    modifies Members(pool), Buffers(pool)
    ensures Pool(pool') && Shows(pool', RunAll(st, ops))
  {
    hide Apply, Shows, Pool, Fits;
    pool' := pool;
    ghost var now := st;
    var i := 0;
    assert ops[0..] == ops;
    while i < |ops|
      invariant 0 <= i <= |ops| && Pool(pool') && Shows(pool', now)
      invariant Bound(now, ops[i..]) && RunAll(now, ops[i..]) == RunAll(st, ops)
      invariant forall a :: a in Members(pool') ==> a in Members(pool) || fresh(a)
      invariant forall o :: o in Buffers(pool') ==> o in old(Buffers(pool)) || fresh(o)
    {
      assert ops[i..][1..] == ops[i + 1..];
      SameSize(pool', now);
      pool' := Do(pool', ops[i], now);
      now := Apply(now, ops[i]);
      i := i + 1;
    }
  }

  lemma SameSize(pool: seq<RArray>, st: seq<seq<Value>>)
    requires Pool(pool) && Shows(pool, st)
    ensures |pool| == |st|
  {
  }
}
