/** Array#flatten!: nested arrays are spliced into the array in place (ruby/array.c). */
module RubyFlatten {
  import opened Wrappers
  import opened RubyArray

  ghost function Buffers(nest: set<RArray>): set<array<Value>>
    reads nest
  {
    set a | a in nest :: a.ptr
  }

  /** The nested arrays contain one another without a cycle: every array is deeper than the arrays
      it contains. */
  ghost predicate Acyclic(nest: set<RArray>, depth: map<RArray, nat>)
    reads nest, Buffers(nest)
  {
    forall a :: a in nest ==> a in depth && a.Ok() && Below(a.Contents(), nest, depth, depth[a])
  }

  ghost predicate Below(s: seq<Value>, nest: set<RArray>, depth: map<RArray, nat>, d: nat) {
    forall i :: 0 <= i < |s| && s[i].Ary? ==> s[i].a in nest && s[i].a in depth && depth[s[i].a] < d
  }

  /** The elements that are no arrays, from left to right, of all arrays in between. */
  ghost function Leaves(s: seq<Value>, nest: set<RArray>, depth: map<RArray, nat>, d: nat): seq<Value>
    requires Acyclic(nest, depth) && Below(s, nest, depth, d)
    reads nest, Buffers(nest)
    decreases d, |s|
  {
    if s == [] then []
    else Leaves(s[..|s| - 1], nest, depth, d) + LeavesOf(s[|s| - 1], nest, depth, d)
  }

  ghost function LeavesOf(v: Value, nest: set<RArray>, depth: map<RArray, nat>, d: nat): seq<Value>
    requires Acyclic(nest, depth) && (v.Ary? ==> v.a in nest && v.a in depth && depth[v.a] < d)
    reads nest, Buffers(nest)
    decreases d, 0
  {
    if v.Ary? then Leaves(v.a.Contents(), nest, depth, depth[v.a]) else [v]
  }

  /** The array being flattened owns its buffer and is not part of the nest. */
  ghost predicate Apart(ary: RArray, nest: set<RArray>, all: set<RArray>)
    reads all
  {
    Separate(all) && ary in all && nest <= all && ary !in nest && ary.aux.Capa?
  }

  lemma ApartBuffers(ary: RArray, nest: set<RArray>, all: set<RArray>)
    requires Apart(ary, nest, all)
    ensures ary.Ok() && ary.ptr !in Buffers(nest)
  {
  }

  /** What stands where, when `k` elements of the inserted array have been worked off. */
  function Midway(s: seq<Value>, idx: nat, done: seq<Value>, rest: seq<Value>): seq<Value>
    requires idx < |s|
  {
    s[..idx] + done + rest + s[idx + 1..]
  }

  lemma LeavesSnoc(s: seq<Value>, k: nat, nest: set<RArray>, depth: map<RArray, nat>, d: nat)
    requires Acyclic(nest, depth) && Below(s, nest, depth, d) && k < |s|
    ensures Leaves(s[..k + 1], nest, depth, d) == Leaves(s[..k], nest, depth, d) + LeavesOf(s[k], nest, depth, d)
  {
    hide Acyclic;
    assert s[..k + 1][..k] == s[..k];
  }

  /** One nested array inside the middle of the sequence is replaced by its leaves. */
  lemma MidwayStep(s: seq<Value>, idx: nat, done: seq<Value>, c: seq<Value>, k: nat, n: seq<Value>, now: seq<Value>)
    requires idx < |s| && k < |c|
    requires var was := Midway(s, idx, done, c[k..]); var i := idx + |done|; now == was[..i] + n + was[i + 1..]
    ensures now == Midway(s, idx, done + n, c[k + 1..])
  {
    var was := Midway(s, idx, done, c[k..]);
    var i := idx + |done|;
    assert was[..i] == s[..idx] + done;
    assert was[i + 1..] == c[k + 1..] + s[idx + 1..];
  }

  lemma MidwayPlain(s: seq<Value>, idx: nat, done: seq<Value>, c: seq<Value>, k: nat)
    requires idx < |s| && k < |c|
    ensures Midway(s, idx, done, c[k..]) == Midway(s, idx, done + [c[k]], c[k + 1..])
    ensures Midway(s, idx, done, c[k..])[idx + |done|] == c[k]
  {
    assert c[k..] == [c[k]] + c[k + 1..];
  }

  /** What every step keeps. */
  ghost predicate Steady(ary: RArray, all: set<RArray>, nest: set<RArray>, depth: map<RArray, nat>)
    reads all, nest, Buffers(nest)
  {
    Apart(ary, nest, all) && Acyclic(nest, depth) && ary.Ok() && forall y :: y in all ==> y.Ok()
  }

  /** flatten: the nested array at `idx` is replaced by all its leaves. The result is by how much
      the array has grown, -1 when the nested array holds nothing; it never raises on an acyclic nest. */
  method Flatten(ary: RArray, idx: nat, ary2: RArray, memo: seq<RArray>,
                 ghost all: set<RArray>, ghost nest: set<RArray>, ghost depth: map<RArray, nat>)
    returns (r: Option<int>)
    requires Steady(ary, all, nest, depth) && ary2 in nest
    requires idx < ary.len && ary.Contents()[idx] == Ary(ary2)
    requires forall m :: m in memo ==> m in nest && m in depth && depth[ary2] < depth[m]
    modifies ary, ary.ptr
    ensures Steady(ary, all, nest, depth) && (ary.ptr == old(ary.ptr) || fresh(ary.ptr))
    ensures forall y :: y in all && y != ary ==> y.Contents() == old(y.Contents())
    ensures var l := old(Leaves(ary2.Contents(), nest, depth, depth[ary2]));
            r == Some(|l| - 1) && ary.Contents() == old(ary.Contents()[..idx]) + l + old(ary.Contents()[idx + 1..])
    decreases depth[ary2], 3
  {
    hide Separate, Leaves, Spliced, Midway;
    ghost var s, c := ary.Contents(), ary2.Contents();
    var lim := idx + ary2.len;
    if ary2 in memo { return None; }
    ApartBuffers(ary, nest, all);
    var ok := ary.Update(idx, 1, ary2, all);
    EveryOk(all);
    SplicedOne(s, idx, c);
    MidwayStart(s, idx, c);
    lim := FlattenRest(ary, idx, lim, ary2, memo + [ary2], s, c, all, nest, depth);
    r := Some(lim - idx - 1);
  }

  lemma EveryOk(all: set<RArray>)
    requires Separate(all)
    ensures forall y :: y in all ==> y.Ok()
  {
  }

  /** The loop of flatten over the elements that were just spliced in. */
  method FlattenRest(ary: RArray, idx: nat, end: nat, ary2: RArray, memo: seq<RArray>, ghost s: seq<Value>, ghost c: seq<Value>,
                     ghost all: set<RArray>, ghost nest: set<RArray>, ghost depth: map<RArray, nat>)
    returns (lim: int)
    requires Steady(ary, all, nest, depth) && ary2 in nest && ary2.Contents() == c && end == idx + |c|
    requires idx < |s| && ary.Contents() == Midway(s, idx, [], c)
    requires forall m :: m in memo ==> m in nest && m in depth && depth[ary2] <= depth[m]
    modifies ary, ary.ptr
    ensures Steady(ary, all, nest, depth) && (ary.ptr == old(ary.ptr) || fresh(ary.ptr))
    ensures forall y :: y in all && y != ary ==> y.Contents() == old(y.Contents())
    ensures var l := old(Leaves(ary2.Contents(), nest, depth, depth[ary2]));
            lim == idx + |l| && ary.Contents() == s[..idx] + l + s[idx + 1..]
    decreases depth[ary2], 2
  {
    hide Separate, Leaves, LeavesOf, Midway, Steady, Acyclic, Below;
    SteadyParts(ary, all, nest, depth);
    BelowItself(ary2, c, nest, depth);
    ghost var d, l := depth[ary2], Leaves(c, nest, depth, depth[ary2]);
    var i: int := idx;
    lim := end;
    ghost var k, done := 0, [];
    assert c[0..] == c && c[..0] == [];
    BelowPart(c, 0, nest, depth, d);
    NoLeaves(nest, depth, d);
    while i < lim
      invariant 0 <= k <= |c| && i == idx + |done| && lim == i + |c| - k
      invariant Steady(ary, all, nest, depth) && (ary.ptr == old(ary.ptr) || fresh(ary.ptr))
      invariant Acyclic(nest, depth) && ary.Ok() && Below(c, nest, depth, d) && Below(c[..k], nest, depth, d)
      invariant Leaves(c, nest, depth, d) == l && done == Leaves(c[..k], nest, depth, d)
      invariant ary.Contents() == Midway(s, idx, done, c[k..])
      invariant forall y :: y in all && y != ary ==> y.Ok() && y.Contents() == old(y.Contents())
      decreases |c| - k
    {
      ghost var more;
      BelowPart(c, k + 1, nest, depth, d);
      var n;
      n, more := FlattenNext(ary, idx, i, memo, s, c, k, done, d, all, nest, depth);
      done := done + more;
      i, lim := i + n, lim + n;
      i := i + 1;
      k := k + 1;
    }
    assert c[..|c|] == c && c[|c|..] == [];
    MidwayEnd(s, idx, done);
  }

  lemma BelowItself(a: RArray, c: seq<Value>, nest: set<RArray>, depth: map<RArray, nat>)
    requires Acyclic(nest, depth) && a in nest && a.Ok() && a.Contents() == c
    ensures a in depth && Below(c, nest, depth, depth[a])
  {
  }

  lemma BelowPart(c: seq<Value>, k: nat, nest: set<RArray>, depth: map<RArray, nat>, d: nat)
    requires Below(c, nest, depth, d) && k <= |c|
    ensures Below(c[..k], nest, depth, d)
    ensures forall i :: 0 <= i < |c| && c[i].Ary? ==> c[i].a in nest && c[i].a in depth && depth[c[i].a] < d
  {
  }

  /** The next element of the inserted array, which stands at `i`. */
  method FlattenNext(ary: RArray, idx: nat, i: nat, memo: seq<RArray>, ghost s: seq<Value>, ghost c: seq<Value>, ghost k: nat,
                     ghost done: seq<Value>, ghost d: nat, ghost all: set<RArray>, ghost nest: set<RArray>, ghost depth: map<RArray, nat>)
    returns (n: int, ghost more: seq<Value>)
    requires k < |c|
    requires Steady(ary, all, nest, depth) && Acyclic(nest, depth) && Below(c, nest, depth, d) && Below(c[..k], nest, depth, d)
    requires idx < |s| && i == idx + |done| && done == Leaves(c[..k], nest, depth, d)
    requires ary.Ok() && ary.Contents() == Midway(s, idx, done, c[k..])
    requires forall m :: m in memo ==> m in nest && m in depth && d <= depth[m]
    modifies ary, ary.ptr
    ensures Steady(ary, all, nest, depth) && (ary.ptr == old(ary.ptr) || fresh(ary.ptr))
    ensures Acyclic(nest, depth) && ary.Ok() && forall y :: y in all && y != ary ==> y.Ok() && y.Contents() == old(y.Contents())
    ensures n == |more| - 1 && Below(c[..k + 1], nest, depth, d) && done + more == Leaves(c[..k + 1], nest, depth, d)
    ensures Leaves(c, nest, depth, d) == old(Leaves(c, nest, depth, d))
    ensures ary.Contents() == Midway(s, idx, done + more, c[k + 1..])
    decreases d, 1
  {
    hide Separate, Leaves, LeavesOf, Midway, Steady, Acyclic, Below;
    SteadyParts(ary, all, nest, depth);
    BelowPart(c, k + 1, nest, depth, d);
    MidwayPlain(s, idx, done, c, k);
    LeavesSnoc(c, k, nest, depth, d);
    MidwayLength(s, idx, done, c[k..]);
    more := LeavesOf(c[k], nest, depth, d);
    n := FlattenOne(ary, i, memo, d, all, nest, depth);
    SteadyParts(ary, all, nest, depth);
    MidwayStep(s, idx, done, c, k, more, ary.Contents());
  }

  lemma SteadyParts(ary: RArray, all: set<RArray>, nest: set<RArray>, depth: map<RArray, nat>)
    requires Steady(ary, all, nest, depth)
    ensures Acyclic(nest, depth) && ary.Ok() && ary in all && ary !in nest && ary.ptr !in Buffers(nest)
    ensures forall y :: y in all ==> y.Ok()
    ensures forall a :: a in nest ==> a in depth && a.Ok() && Below(a.Contents(), nest, depth, depth[a])
  {
    ApartBuffers(ary, nest, all);
  }

  /** One element: an array is flattened in its place, anything else stays. */
  method FlattenOne(ary: RArray, i: nat, memo: seq<RArray>, ghost d: nat,
                    ghost all: set<RArray>, ghost nest: set<RArray>, ghost depth: map<RArray, nat>)
    returns (n: int)
    requires Steady(ary, all, nest, depth) && i < ary.len
    requires var v := ary.Contents()[i]; v.Ary? ==> v.a in nest && v.a in depth && depth[v.a] < d
    requires forall m :: m in memo ==> m in nest && m in depth && d <= depth[m]
    modifies ary, ary.ptr
    ensures Steady(ary, all, nest, depth) && (ary.ptr == old(ary.ptr) || fresh(ary.ptr))
    ensures forall y :: y in all && y != ary ==> y.Contents() == old(y.Contents())
    ensures var l := old(LeavesOf(ary.Contents()[i], nest, depth, d));
            n == |l| - 1 && ary.Contents() == old(ary.Contents()[..i]) + l + old(ary.Contents()[i + 1..])
    decreases d, 0
  {
    hide Leaves, LeavesOf, Steady;
    SteadyParts(ary, all, nest, depth);
    ghost var s := ary.Contents();
    var v := ary.ptr[ary.off + i];
    assert v == s[i];
    if v.Ary? {
      LeavesOfArray(v, nest, depth, d);
      var r := Flatten(ary, i, v.a, memo, all, nest, depth);
      n := r.value;
    } else {
      LeavesOfOther(v, nest, depth, d);
      assert s == s[..i] + [v] + s[i + 1..];
      n := 0;
    }
  }

  /** rb_ary_flatten_bang: the array ends with exactly the leaves of what it held, in order; the
      result is nil when it held no arrays. */
  method FlattenBang(ary: RArray, ghost all: set<RArray>, ghost nest: set<RArray>, ghost depth: map<RArray, nat>, ghost d: nat)
    returns (modified: bool)
    requires Separate(all) && ary in all && nest <= all && ary !in nest && Acyclic(nest, depth) && ary.Ok()
    requires Below(ary.Contents(), nest, depth, d)
    modifies ary, ary.ptr
    ensures Separate(all) && ary.Ok() && forall y :: y in all && y != ary ==> y.Ok() && y.Contents() == old(y.Contents())
    ensures ary.Contents() == old(Leaves(ary.Contents(), nest, depth, d))
    ensures modified <==> exists i :: 0 <= i < |old(ary.Contents())| && old(ary.Contents())[i].Ary?
  {
    hide Leaves, LeavesOf, Midway, Below, Acyclic;
    ghost var c := ary.Contents();
    ghost var l := Leaves(c, nest, depth, d);
    label before:
    ary.Modify(all);
    assert forall a :: a in nest ==> unchanged@before(a);
    assert Buffers(nest) == old(Buffers(nest));
    assert forall b :: b in Buffers(nest) ==> unchanged@before(b);
    assert Leaves(c, nest, depth, d) == l;
    modified := FlattenAll(ary, c, all, nest, depth, d);
  }

  /** The loop of rb_ary_flatten_bang. */
  method FlattenAll(ary: RArray, ghost c: seq<Value>, ghost all: set<RArray>, ghost nest: set<RArray>, ghost depth: map<RArray, nat>, ghost d: nat)
    returns (modified: bool)
    requires Steady(ary, all, nest, depth) && ary.Contents() == c && Below(c, nest, depth, d)
    modifies ary, ary.ptr
    ensures Steady(ary, all, nest, depth) && (ary.ptr == old(ary.ptr) || fresh(ary.ptr))
    ensures forall y :: y in all && y != ary ==> y.Contents() == old(y.Contents())
    ensures ary.Contents() == old(Leaves(c, nest, depth, d))
    ensures modified <==> exists i :: 0 <= i < |c| && c[i].Ary?
  {
    hide Separate, Leaves, LeavesOf, Steady, Acyclic, Below;
    SteadyParts(ary, all, nest, depth);
    ghost var l := Leaves(c, nest, depth, d);
    var i: int := 0;
    modified := false;
    ghost var k, done := 0, [];
    assert c[0..] == c && c[..0] == [] && [] + c == c;
    BelowPart(c, 0, nest, depth, d);
    NoLeaves(nest, depth, d);
    while i < ary.len
      invariant 0 <= k <= |c| && i == |done| && Steady(ary, all, nest, depth) && (ary.ptr == old(ary.ptr) || fresh(ary.ptr))
      invariant Acyclic(nest, depth) && ary.Ok() && Below(c, nest, depth, d) && Below(c[..k], nest, depth, d)
      invariant Leaves(c, nest, depth, d) == l && done == Leaves(c[..k], nest, depth, d)
      invariant ary.Contents() == done + c[k..]
      invariant modified <==> exists x :: 0 <= x < k && c[x].Ary?
      invariant forall y :: y in all && y != ary ==> y.Ok() && y.Contents() == old(y.Contents())
      decreases |c| - k
    {
      BelowPart(c, k + 1, nest, depth, d);
      ghost var more;
      var n, nested;
      n, nested, more := FlattenTop(ary, i, c, k, done, d, all, nest, depth);
      if nested { modified := true; }
      done := done + more;
      i := i + n;
      i := i + 1;
      k := k + 1;
    }
    assert c[..|c|] == c;
    assert done + c[k..] == done;
  }

  /** One element of the array itself. */
  method FlattenTop(ary: RArray, i: nat, ghost c: seq<Value>, ghost k: nat, ghost done: seq<Value>, ghost d: nat,
                    ghost all: set<RArray>, ghost nest: set<RArray>, ghost depth: map<RArray, nat>)
    returns (n: int, nested: bool, ghost more: seq<Value>)
    requires i < ary.len && k <= |c|
    requires Steady(ary, all, nest, depth) && Acyclic(nest, depth) && Below(c, nest, depth, d) && Below(c[..k], nest, depth, d)
    requires i == |done| && done == Leaves(c[..k], nest, depth, d) && ary.Ok() && ary.Contents() == done + c[k..]
    modifies ary, ary.ptr
    ensures Steady(ary, all, nest, depth) && (ary.ptr == old(ary.ptr) || fresh(ary.ptr))
    ensures Acyclic(nest, depth) && ary.Ok() && forall y :: y in all && y != ary ==> y.Ok() && y.Contents() == old(y.Contents())
    ensures k < |c| && nested == c[k].Ary? && n == |more| - 1 && Below(c[..k + 1], nest, depth, d)
    ensures done + more == Leaves(c[..k + 1], nest, depth, d) && Leaves(c, nest, depth, d) == old(Leaves(c, nest, depth, d))
    ensures ary.Contents() == done + more + c[k + 1..]
  {
    hide Separate, Leaves, LeavesOf, Steady, Acyclic, Below;
    SteadyParts(ary, all, nest, depth);
    assert k < |c| && (done + c[k..])[i] == c[k];
    BelowPart(c, k + 1, nest, depth, d);
    LeavesSnoc(c, k, nest, depth, d);
    more := LeavesOf(c[k], nest, depth, d);
    nested := ary.ptr[ary.off + i].Ary?;
    assert ary.Contents()[i] == ary.ptr[ary.off + i];
    ghost var was := ary.Contents();
    assert was[..i] == done && was[i + 1..] == c[k + 1..];
    n := FlattenOne(ary, i, [], d, all, nest, depth);
    SteadyParts(ary, all, nest, depth);
  }

  lemma SplicedOne(s: seq<Value>, idx: nat, c: seq<Value>)
    requires idx < |s|
    ensures Spliced(s, idx, 1, c) == s[..idx] + c + s[idx + 1..]
  {
  }

  lemma NoLeaves(nest: set<RArray>, depth: map<RArray, nat>, d: nat)
    requires Acyclic(nest, depth)
    ensures Leaves([], nest, depth, d) == []
  {
  }

  lemma LeavesOfArray(v: Value, nest: set<RArray>, depth: map<RArray, nat>, d: nat)
    requires Acyclic(nest, depth) && v.Ary? && v.a in nest && v.a in depth && depth[v.a] < d
    ensures LeavesOf(v, nest, depth, d) == Leaves(v.a.Contents(), nest, depth, depth[v.a])
  {
  }

  lemma LeavesOfOther(v: Value, nest: set<RArray>, depth: map<RArray, nat>, d: nat)
    requires Acyclic(nest, depth) && !v.Ary?
    ensures LeavesOf(v, nest, depth, d) == [v]
  {
  }

  lemma MidwayStart(s: seq<Value>, idx: nat, c: seq<Value>)
    requires idx < |s|
    ensures Midway(s, idx, [], c) == s[..idx] + c + s[idx + 1..]
  {
  }

  lemma MidwayEnd(s: seq<Value>, idx: nat, done: seq<Value>)
    requires idx < |s|
    ensures Midway(s, idx, done, []) == s[..idx] + done + s[idx + 1..]
  {
  }

  lemma MidwayLength(s: seq<Value>, idx: nat, done: seq<Value>, rest: seq<Value>)
    requires idx < |s|
    ensures |Midway(s, idx, done, rest)| == |s| - 1 + |done| + |rest|
  {
  }
}
