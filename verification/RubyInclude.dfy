/** rb_include_module: a module and what it includes become ancestors of a class, by new nodes in
    the linked chain of its ancestors (ruby/class.c). */
module RubyInclude {
  datatype Kind = IsClass | IsModule | IsInclude

  /** A class, a module, or the node that stands for an included module. A module and its nodes
      share their method table. */
  class RClass {
    const kind: Kind
    const mTbl: nat
    var super: RClass?

    constructor (kind: Kind, mTbl: nat, super: RClass?)
      ensures this.kind == kind && this.mTbl == mTbl && this.super == super
    {
      this.kind, this.mTbl, this.super := kind, mTbl, super;
    }
  }

  /** The nodes are the whole chain from the first one on; a finite chain has no cycle. */
  ghost predicate Linked(ns: seq<RClass>)
    reads ns
  {
    ns != [] && (forall i, j :: 0 <= i < j < |ns| ==> ns[i] != ns[j]) &&
    forall i :: 0 <= i < |ns| ==> ns[i].super == After(ns, i)
  }

  /** The node behind node `i`. */
  ghost function After(ns: seq<RClass>, i: nat): RClass? {
    if i + 1 < |ns| then ns[i + 1] else null
  }

  /** The table is that of an included module among the ancestors proper. */
  ghost predicate Includes(ns: seq<RClass>, t: nat) {
    exists i :: 0 < i < |ns| && ns[i].kind.IsInclude? && ns[i].mTbl == t
  }

  /** The place of the first superclass, or the length of the chain. */
  ghost function Superclass(ns: seq<RClass>): (k: nat)
    requires ns != []
    ensures 1 <= k <= |ns| && (k < |ns| ==> ns[k].kind.IsClass?) && forall i :: 0 < i < k ==> !ns[i].kind.IsClass?
  {
    if |ns| == 1 then 1
    else
      var k := Superclass(ns[..|ns| - 1]);
      if k < |ns| - 1 then k else if ns[|ns| - 1].kind.IsClass? then |ns| - 1 else |ns|
  }

  /** The place of the first node of an included module with this table, or the length of the chain. */
  ghost function First(ns: seq<RClass>, t: nat): (k: nat)
    requires ns != []
    ensures 1 <= k <= |ns| && (k < |ns| ==> ns[k].kind.IsInclude? && ns[k].mTbl == t)
    ensures forall i :: 0 < i < k ==> !(ns[i].kind.IsInclude? && ns[i].mTbl == t)
    ensures k < |ns| <==> Includes(ns, t)
  {
    if |ns| == 1 then 1
    else
      var last := |ns| - 1;
      var k := First(ns[..last], t);
      if k < last then k else if ns[last].kind.IsInclude? && ns[last].mTbl == t then last else |ns|
  }

  /** The nodes of a chain that were there before. */
  ghost function Keep(ns: seq<RClass>, earlier: set<RClass>): seq<RClass> {
    if ns == [] then []
    else Keep(ns[..|ns| - 1], earlier) + (if ns[|ns| - 1] in earlier then [ns[|ns| - 1]] else [])
  }

  lemma {:induction false} KeepConcat(a: seq<RClass>, b: seq<RClass>, earlier: set<RClass>)
    ensures Keep(a + b, earlier) == Keep(a, earlier) + Keep(b, earlier)
  {
    if b == [] {
      assert a + b == a;
    } else {
      assert (a + b)[..|a + b| - 1] == a + b[..|b| - 1];
      KeepConcat(a, b[..|b| - 1], earlier);
    }
  }

  lemma {:induction false} KeepAll(ns: seq<RClass>, earlier: set<RClass>)
    requires forall x :: x in ns ==> x in earlier
    ensures Keep(ns, earlier) == ns
  {
    if ns != [] {
      KeepAll(ns[..|ns| - 1], earlier);
      assert ns[|ns| - 1] in ns;
    }
  }

  function Inserted(ns: seq<RClass>, at: nat, x: RClass): (r: seq<RClass>)
    requires at < |ns|
    ensures |r| == |ns| + 1 && r[at + 1] == x
    ensures forall i :: 0 <= i < |r| && i != at + 1 ==> r[i] == if i <= at then ns[i] else ns[i - 1]
  {
    ns[..at + 1] + [x] + ns[at + 1..]
  }

  lemma KeepInserted(ns: seq<RClass>, at: nat, x: RClass, earlier: set<RClass>)
    requires at < |ns| && x !in earlier
    ensures Keep(Inserted(ns, at, x), earlier) == Keep(ns, earlier)
  {
    hide Keep;
    var a, b := ns[..at + 1], ns[at + 1..];
    KeepConcat(a + [x], b, earlier);
    KeepConcat(a, [x], earlier);
    KeepConcat(a, b, earlier);
    KeepOne(x, earlier);
    NothingAdded(Keep(a, earlier));
    assert Inserted(ns, at, x) == a + [x] + b;
    assert ns == a + b;
  }

  lemma NothingAdded(ns: seq<RClass>)
    ensures ns + [] == ns
  {
  }

  lemma KeepOne(x: RClass, earlier: set<RClass>)
    requires x !in earlier
    ensures Keep([x], earlier) == []
  {
    assert [x][..0] == [];
  }

  /** Inserting in front of the first superclass leaves it and what follows in place. */
  lemma SuperclassInserted(ns: seq<RClass>, at: nat, x: RClass)
    requires ns != [] && at < Superclass(ns) && !x.kind.IsClass?
    ensures var ns' := Inserted(ns, at, x);
            Superclass(ns') == Superclass(ns) + 1 && ns'[Superclass(ns')..] == ns[Superclass(ns)..]
  {
    var ns', k := Inserted(ns, at, x), Superclass(ns);
    assert forall i :: at + 1 < i < |ns'| ==> ns'[i] == ns[i - 1];
    assert forall i :: 0 < i < k + 1 ==> !ns'[i].kind.IsClass?;
    if k < |ns| {
      assert ns'[k + 1] == ns[k];
      assert !(Superclass(ns') > k + 1);
    }
    assert !(Superclass(ns') < k + 1);
  }

  lemma SuperclassAt(ns: seq<RClass>, at: nat)
    requires 0 < at < |ns|
    ensures Superclass(ns) <= at || !ns[at].kind.IsClass?
    ensures ns[at].kind.IsClass? ==> Superclass(ns) < at + 1
    ensures !ns[at].kind.IsClass? ==> Superclass(ns) != at
  {
  }

  lemma HasHead(ns: seq<RClass>)
    requires Linked(ns)
    ensures ns != []
  {
  }

  lemma NextIs(ns: seq<RClass>, i: nat)
    requires Linked(ns) && i < |ns|
    ensures ns[i].super == if i + 1 < |ns| then ns[i + 1] else null
  {
    assert ns[i].super == After(ns, i);
  }

  // ----- the order of the new nodes -----

  /** The module's chain has every table once. */
  ghost predicate Distinct(ms: seq<RClass>) {
    forall a, b :: 0 <= a < b < |ms| ==> ms[a].mTbl != ms[b].mTbl
  }

  /** The table has its node in front of the first superclass, or gets it there. */
  ghost predicate Fronted(ks: seq<RClass>, t: nat)
    requires ks != []
  {
    First(ks, t) < Superclass(ks) || !Includes(ks, t)
  }

  /** The place of the node for the nearest table of the module in front of number `j` that has its node
      in front of the first superclass, or that of the class. */
  ghost function Anchor(ks: seq<RClass>, ns: seq<RClass>, ms: seq<RClass>, j: nat): nat
    requires ks != [] && ns != [] && j <= |ms|
  {
    if j == 0 then 0
    else if Fronted(ks, ms[j - 1].mTbl) then First(ns, ms[j - 1].mTbl)
    else Anchor(ks, ns, ms, j - 1)
  }

  /** The new nodes of the first `j` tables stand directly behind the nodes they are placed by. */
  ghost predicate Placed(ks: seq<RClass>, ns: seq<RClass>, ms: seq<RClass>, j: nat)
    requires ks != [] && ns != [] && j <= |ms|
  {
    forall i :: 0 <= i < j && !Includes(ks, ms[i].mTbl) ==> First(ns, ms[i].mTbl) == Anchor(ks, ns, ms, i) + 1
  }

  /** The tables of the old chain are in the same order, on the same side of the first superclass. */
  ghost predicate SameSides(ks: seq<RClass>, ns: seq<RClass>)
    requires ks != [] && ns != []
  {
    (forall t :: Includes(ns, t) ==> (First(ns, t) < Superclass(ns) <==> Fronted(ks, t))) &&
    (forall t, t' :: Includes(ks, t) && Includes(ks, t') ==> (First(ks, t) < First(ks, t') <==> First(ns, t) < First(ns, t')))
  }

  /** Where the walk along the module's chain stands. */
  ghost predicate Ordered(ks: seq<RClass>, ns: seq<RClass>, ms: seq<RClass>, j: nat, at: nat)
    requires ks != [] && ns != [] && j <= |ms|
  {
    SameSides(ks, ns) && at == Anchor(ks, ns, ms, j) && (Distinct(ms) ==> Placed(ks, ns, ms, j))
  }

  function Moved(k: nat, at: nat): nat {
    if k <= at then k else k + 1
  }

  lemma FirstInserted(ns: seq<RClass>, at: nat, x: RClass, t: nat)
    requires at < |ns| && x.kind.IsInclude? && !Includes(ns, x.mTbl)
    ensures First(Inserted(ns, at, x), t) == if t == x.mTbl then at + 1 else Moved(First(ns, t), at)
  {
    var r, k := Inserted(ns, at, x), First(ns, t);
    if t != x.mTbl && k < |ns| { assert r[Moved(k, at)] == ns[k]; }
  }

  lemma {:induction false} AnchorInserted(ks: seq<RClass>, ns: seq<RClass>, ms: seq<RClass>, j: nat, at: nat, x: RClass)
    requires ks != [] && at < |ns| && x.kind.IsInclude? && !Includes(ns, x.mTbl) && j <= |ms|
    requires forall m :: 0 <= m < j ==> Includes(ns, ms[m].mTbl)
    ensures Anchor(ks, Inserted(ns, at, x), ms, j) == Moved(Anchor(ks, ns, ms, j), at)
  {
    hide First, Includes, Inserted, Superclass, Fronted;
    if j > 0 {
      assert Includes(ns, ms[j - 1].mTbl);
      FirstInserted(ns, at, x, ms[j - 1].mTbl);
      AnchorInserted(ks, ns, ms, j - 1, at, x);
    }
  }

  /** Two different tables are not placed behind the same node when the first of them is new. */
  lemma {:induction false} AnchorsDiffer(ks: seq<RClass>, ns: seq<RClass>, ms: seq<RClass>, i: nat, j: nat)
    requires ks != [] && ns != [] && i < j <= |ms| && Distinct(ms) && Fronted(ks, ms[i].mTbl)
    requires forall m :: 0 <= m < j ==> Includes(ns, ms[m].mTbl)
    ensures Anchor(ks, ns, ms, i) != Anchor(ks, ns, ms, j)
  {
    hide First, Includes, Superclass, Fronted;
    if Fronted(ks, ms[j - 1].mTbl) {
      AnchorIsNot(ks, ns, ms, i, j - 1);
    } else {
      AnchorsDiffer(ks, ns, ms, i, j - 1);
    }
  }

  lemma {:induction false} AnchorIsNot(ks: seq<RClass>, ns: seq<RClass>, ms: seq<RClass>, i: nat, j: nat)
    requires ks != [] && ns != [] && i <= j < |ms| && Distinct(ms)
    requires forall m :: 0 <= m <= j ==> Includes(ns, ms[m].mTbl)
    ensures Anchor(ks, ns, ms, i) != First(ns, ms[j].mTbl)
  {
    hide First, Includes, Superclass, Fronted;
    assert Includes(ns, ms[j].mTbl);
    if i > 0 {
      assert Includes(ns, ms[i - 1].mTbl);
      AnchorIsNot(ks, ns, ms, i - 1, j);
    }
  }

  lemma OrderStarts(ks: seq<RClass>, ms: seq<RClass>)
    requires ks != []
    ensures Ordered(ks, ks, ms, 0, 0)
  {
    hide Superclass;
  }

  /** A table that is there already: the insertion point moves to its node, unless a superclass stands
      in front of it. */
  lemma OrderFound(ks: seq<RClass>, ns: seq<RClass>, ms: seq<RClass>, j: nat, at: nat)
    requires ks != [] && ns != [] && j < |ms| && Ordered(ks, ns, ms, j, at) && Includes(ns, ms[j].mTbl)
    requires Includes(ks, ms[j].mTbl) || exists m :: 0 <= m < j && ms[m].mTbl == ms[j].mTbl
    ensures Ordered(ks, ns, ms, j + 1, if First(ns, ms[j].mTbl) < Superclass(ns) then First(ns, ms[j].mTbl) else at)
  {
    hide First, Superclass, Includes, Fronted, Anchor, Placed;
    SideOf(ks, ns, ms[j].mTbl);
    if Fronted(ks, ms[j].mTbl) { AnchorNext(ks, ns, ms, j); } else { AnchorSkips(ks, ns, ms, j); }
    if Distinct(ms) { PlacedOn(ks, ns, ms, j); }
  }

  lemma SideOf(ks: seq<RClass>, ns: seq<RClass>, t: nat)
    requires ks != [] && ns != [] && SameSides(ks, ns) && Includes(ns, t)
    ensures First(ns, t) < Superclass(ns) <==> Fronted(ks, t)
  {
    hide First, Superclass, Includes, Fronted;
  }

  lemma AnchorSkips(ks: seq<RClass>, ns: seq<RClass>, ms: seq<RClass>, j: nat)
    requires ks != [] && ns != [] && j < |ms| && !Fronted(ks, ms[j].mTbl)
    ensures Anchor(ks, ns, ms, j + 1) == Anchor(ks, ns, ms, j)
  {
    hide First, Superclass, Includes, Fronted;
  }

  lemma PlacedOn(ks: seq<RClass>, ns: seq<RClass>, ms: seq<RClass>, j: nat)
    requires ks != [] && ns != [] && j < |ms| && Placed(ks, ns, ms, j) && Distinct(ms)
    requires Includes(ks, ms[j].mTbl) || exists m :: 0 <= m < j && ms[m].mTbl == ms[j].mTbl
    ensures Placed(ks, ns, ms, j + 1)
  {
    hide First, Superclass, Includes, Anchor;
    assert Includes(ks, ms[j].mTbl);
  }

  /** A new table: its node comes behind the insertion point, which moves to it. */
  lemma OrderInserted(ks: seq<RClass>, ns: seq<RClass>, ms: seq<RClass>, j: nat, at: nat, x: RClass)
    requires ks != [] && ns != [] && j < |ms| && Ordered(ks, ns, ms, j, at) && at < Superclass(ns)
    requires x.kind.IsInclude? && x.mTbl == ms[j].mTbl && !Includes(ns, x.mTbl)
    requires (forall m :: 0 <= m < j ==> Includes(ns, ms[m].mTbl)) && forall t :: Includes(ks, t) ==> Includes(ns, t)
    ensures Ordered(ks, Inserted(ns, at, x), ms, j + 1, at + 1)
  {
    hide First, Superclass, Includes, Inserted, Anchor, Placed;
    var r := Inserted(ns, at, x);
    SuperclassInserted(ns, at, x);
    FirstInserted(ns, at, x, x.mTbl);
    SidesInserted(ks, ns, at, x);
    AnchorNext(ks, r, ms, j);
    if Distinct(ms) { PlacedInserted(ks, ns, ms, j, at, x); }
  }

  lemma AnchorNext(ks: seq<RClass>, ns: seq<RClass>, ms: seq<RClass>, j: nat)
    requires ks != [] && ns != [] && j < |ms| && Fronted(ks, ms[j].mTbl)
    ensures Anchor(ks, ns, ms, j + 1) == First(ns, ms[j].mTbl)
  {
    hide First, Superclass, Includes, Fronted;
  }

  lemma SidesInserted(ks: seq<RClass>, ns: seq<RClass>, at: nat, x: RClass)
    requires ks != [] && ns != [] && SameSides(ks, ns) && at < Superclass(ns) && x.kind.IsInclude? && !Includes(ns, x.mTbl)
    requires forall t :: Includes(ks, t) ==> Includes(ns, t)
    ensures SameSides(ks, Inserted(ns, at, x))
  {
    hide First, Superclass, Includes, Inserted;
    var r := Inserted(ns, at, x);
    SuperclassInserted(ns, at, x);
    forall t | Includes(r, t) ensures First(r, t) < Superclass(r) <==> Fronted(ks, t) {
      FirstInserted(ns, at, x, t);
      if t != x.mTbl { IncludedBefore(ns, at, x, t); }
    }
    forall t, t' | Includes(ks, t) && Includes(ks, t') ensures First(ks, t) < First(ks, t') <==> First(r, t) < First(r, t') {
      FirstInserted(ns, at, x, t);
      FirstInserted(ns, at, x, t');
    }
  }

  lemma IncludedBefore(ns: seq<RClass>, at: nat, x: RClass, t: nat)
    requires ns != [] && at < |ns| && x.kind.IsInclude? && !Includes(ns, x.mTbl) && Includes(Inserted(ns, at, x), t) && t != x.mTbl
    ensures Includes(ns, t)
  {
    hide Includes, Inserted;
    FirstInserted(ns, at, x, t);
  }

  lemma PlacedInserted(ks: seq<RClass>, ns: seq<RClass>, ms: seq<RClass>, j: nat, at: nat, x: RClass)
    requires ks != [] && at < |ns| && j < |ms| && Distinct(ms) && Placed(ks, ns, ms, j) && at == Anchor(ks, ns, ms, j)
    requires x.kind.IsInclude? && x.mTbl == ms[j].mTbl && !Includes(ns, x.mTbl)
    requires (forall m :: 0 <= m < j ==> Includes(ns, ms[m].mTbl)) && forall t :: Includes(ks, t) ==> Includes(ns, t)
    ensures Placed(ks, Inserted(ns, at, x), ms, j + 1)
  {
    hide First, Superclass, Includes, Inserted, Anchor;
    var r := Inserted(ns, at, x);
    forall i | 0 <= i < j + 1 && !Includes(ks, ms[i].mTbl) ensures First(r, ms[i].mTbl) == Anchor(ks, r, ms, i) + 1 {
      FirstInserted(ns, at, x, ms[i].mTbl);
      AnchorInserted(ks, ns, ms, i, at, x);
      if i < j { AnchorsDiffer(ks, ns, ms, i, j); }
    }
  }

  lemma FirstIs(ns: seq<RClass>, t: nat, at: nat)
    requires ns != [] && 1 <= at <= |ns| && (at < |ns| ==> ns[at].kind.IsInclude? && ns[at].mTbl == t)
    requires forall i :: 0 < i < at ==> !(ns[i].kind.IsInclude? && ns[i].mTbl == t)
    ensures First(ns, t) == at && (Includes(ns, t) <==> at < |ns|)
  {
  }

  /** The inner loop: the first node of the ancestors with this table, and whether a superclass
      lies before it. */
  method Find(klass: RClass, t: nat, ghost ns: seq<RClass>) returns (p: RClass?, seen: bool, ghost at: nat)
    requires Linked(ns) && ns[0] == klass
    ensures p == null <==> !Includes(ns, t)
    ensures p != null ==> at == First(ns, t) && ns[at] == p && (seen <==> Superclass(ns) < at)
  {
    hide Superclass, First, Includes, Linked;
    HasHead(ns);
    NextIs(ns, 0);
    p, seen, at := klass.super, false, 1;
    while p != null
      invariant 1 <= at <= |ns| && p == (if at < |ns| then ns[at] else null)
      invariant forall i :: 0 < i < at ==> !(ns[i].kind.IsInclude? && ns[i].mTbl == t)
      invariant seen <==> Superclass(ns) < at
      decreases |ns| - at
    {
      if p.kind.IsInclude? {
        if p.mTbl == t { FirstIs(ns, t, at); return; }
      } else if p.kind.IsClass? {
        seen := true;
      }
      SuperclassAt(ns, at);
      NextIs(ns, at);
      p := p.super;
      at := at + 1;
    }
    FirstIs(ns, t, at);
  }

  /** include_class_new, spliced in behind the node at `at`. */
  method InsertAfter(c: RClass, t: nat, ghost ns: seq<RClass>, ghost at: nat) returns (x: RClass)
    requires Linked(ns) && at < |ns| && ns[at] == c
    modifies c
    ensures fresh(x) && x.kind.IsInclude? && x.mTbl == t && Linked(Inserted(ns, at, x))
  {
    assert ns[at].super == After(ns, at);
    x := new RClass(IsInclude, t, c.super);
    c.super := x;
    ghost var r := Inserted(ns, at, x);
    forall i: nat | i < |r| ensures r[i].super == After(r, i) {
      if i <= at { assert ns[i].super == (if i == at then x else After(ns, i)); }
      else if i > at + 1 { assert ns[i - 1].super == After(ns, i - 1); }
    }
  }

  /** The state of the walk along the module's own chain. */
  ghost predicate Walked(ks: seq<RClass>, ns: seq<RClass>, ms: seq<RClass>, j: nat, earlier: set<RClass>)
    requires ks != [] && j <= |ms|
  {
    ns != [] && ns[0] == ks[0] && Keep(ns, earlier) == ks && ns[Superclass(ns)..] == ks[Superclass(ks)..] &&
    (forall i :: 0 <= i < |ns| && ns[i] !in earlier ==>
      ns[i].kind.IsInclude? && !Includes(ks, ns[i].mTbl) && exists m :: 0 <= m < j && ms[m].mTbl == ns[i].mTbl) &&
    (forall a, b :: 0 <= a < b < |ns| && ns[a] !in earlier && ns[b] !in earlier ==> ns[a].mTbl != ns[b].mTbl) &&
    (forall m :: 0 <= m < j ==> Includes(ns, ms[m].mTbl)) &&
    (forall t :: Includes(ks, t) ==> Includes(ns, t)) &&
    ((forall m :: 0 <= m < j ==> Includes(ks, ms[m].mTbl)) ==> ns == ks)
  }

  datatype IncludeResult = Included(changed: bool) | CyclicInclude

  /** rb_include_module. It raises exactly when the class's own table is in the module's chain.
      Without the new nodes the chain is the old one; it stays the same from the first superclass on;
      a new node stands for a table of the module's chain that no ancestor had, and only one for each;
      and every table of the module's chain is there in the end. Including again changes nothing. */
  method IncludeModule(klass: RClass, module_: RClass, ghost ks: seq<RClass>, ghost ms: seq<RClass>)
    returns (r: IncludeResult, ghost ns: seq<RClass>)
    requires Linked(ks) && ks[0] == klass && Linked(ms) && ms[0] == module_
    requires klass != module_ ==> forall x :: x in ks ==> x !in ms
    modifies set x | x in ks
    ensures Linked(ns) && ns[0] == klass && Linked(ms) && forall x :: x in ns ==> x in ks || fresh(x)
    ensures klass == module_ ==> ns == ks && r == Included(false)
    ensures klass != module_ ==> (r.CyclicInclude? <==> exists m :: 0 <= m < |ms| && ms[m].mTbl == klass.mTbl)
    ensures Keep(ns, set x | x in ks) == ks && ns[Superclass(ns)..] == ks[Superclass(ks)..]
    ensures klass != module_ && r.Included? ==> Walked(ks, ns, ms, |ms|, set x | x in ks) && r.changed == (ns != ks)
    ensures klass != module_ && r.Included? ==> SameSides(ks, ns) && (Distinct(ms) ==> Placed(ks, ns, ms, |ms|))
  {
    hide Superclass, Keep, Includes, Inserted, Walked, Ordered, SameSides, Placed, Distinct;
    ghost var earlier := set x | x in ks;
    ns := ks;
    KeepAll(ks, earlier);
    if klass == module_ { return Included(false), ks; }
    var c: RClass, changed, m: RClass? := klass, false, module_;
    ghost var at, j := 0, 0;
    WalkStarts(ks, ms, earlier);
    OrderStarts(ks, ms);
    while m != null
      invariant Linked(ns) && Linked(ms) && 0 <= j <= |ms| && m == (if j < |ms| then ms[j] else null)
      invariant Walked(ks, ns, ms, j, earlier) && forall x :: x in ns ==> x in earlier || fresh(x)
      invariant 0 <= at < Superclass(ns) && Ordered(ks, ns, ms, j, at) && ns[at] == c && changed == (ns != ks)
      invariant forall i :: 0 <= i < j ==> ms[i].mTbl != klass.mTbl
      decreases |ms| - j
    {
      WalkedParts(ks, ns, ms, j, earlier);
      if klass.mTbl == m.mTbl { return CyclicInclude, ns; }
      assert c in ns;
      var one;
      c, one, ns, at := IncludeOne(klass, c, m.mTbl, ks, ns, ms, j, at, earlier);
      if one { changed := true; }
      assert ms[j].super == After(ms, j);
      m := m.super;
      j := j + 1;
    }
    WalkedParts(ks, ns, ms, j, earlier);
    OrderParts(ks, ns, ms, j, at);
    r := Included(changed);
  }

  lemma OrderParts(ks: seq<RClass>, ns: seq<RClass>, ms: seq<RClass>, j: nat, at: nat)
    requires ks != [] && ns != [] && j <= |ms| && Ordered(ks, ns, ms, j, at)
    ensures SameSides(ks, ns) && (Distinct(ms) ==> Placed(ks, ns, ms, j))
  {
  }

  /** Including the same module a second time changes nothing. */
  method IncludeTwice(klass: RClass, module_: RClass, ghost ks: seq<RClass>, ghost ms: seq<RClass>)
    returns (again: IncludeResult, ghost once: seq<RClass>, ghost twice: seq<RClass>)
    requires Linked(ks) && ks[0] == klass && Linked(ms) && ms[0] == module_
    requires klass != module_ ==> forall x :: x in ks ==> x !in ms
    requires forall m :: 0 <= m < |ms| ==> ms[m].mTbl != klass.mTbl
    modifies set x | x in ks
    ensures Linked(twice) && once == twice && again == Included(false)
  {
    hide Superclass, Keep, Includes, SameSides, Placed, Distinct, First;
    var r;
    r, once := IncludeModule(klass, module_, ks, ms);
    again, twice := IncludeModule(klass, module_, once, ms);
  }

  lemma WalkStarts(ks: seq<RClass>, ms: seq<RClass>, earlier: set<RClass>)
    requires ks != [] && earlier == set x | x in ks
    ensures Walked(ks, ks, ms, 0, earlier)
  {
    KeepAll(ks, earlier);
    hide Superclass, Keep, Includes;
  }

  lemma WalkedParts(ks: seq<RClass>, ns: seq<RClass>, ms: seq<RClass>, j: nat, earlier: set<RClass>)
    requires ks != [] && j <= |ms| && Walked(ks, ns, ms, j, earlier)
    ensures ns != [] && ns[0] == ks[0] && Keep(ns, earlier) == ks && ns[Superclass(ns)..] == ks[Superclass(ks)..]
  {
    hide Superclass, Keep, Includes;
  }

  /** One table of the module's chain: it is found, or a node for it is spliced in. */
  method IncludeOne(klass: RClass, c: RClass, t: nat, ghost ks: seq<RClass>, ghost ns: seq<RClass>, ghost ms: seq<RClass>,
                    ghost j: nat, ghost at: nat, ghost earlier: set<RClass>)
    returns (c': RClass, added: bool, ghost ns': seq<RClass>, ghost at': nat)
    requires ks != [] && j < |ms| && ms[j].mTbl == t && Linked(ns) && ns[0] == klass && Linked(ms)
    requires Walked(ks, ns, ms, j, earlier) && earlier == (set x | x in ks) && at < Superclass(ns) && ns[at] == c
    requires Ordered(ks, ns, ms, j, at) && forall x :: x in ns ==> x !in ms
    modifies c
    ensures Linked(ns') && ns'[0] == klass && Linked(ms) && Walked(ks, ns', ms, j + 1, earlier)
    ensures Ordered(ks, ns', ms, j + 1, at')
    ensures at' < Superclass(ns') && ns'[at'] == c' && (added ==> ns' != ks) && (!added ==> ns' == ns)
    ensures forall x :: x in ns' ==> x in ns || fresh(x)
  {
    hide Superclass, Keep, Includes, Inserted, Walked, Linked, Ordered, First;
    var p, seen;
    ghost var found;
    p, seen, found := Find(klass, t, ns);
    ns', at', c', added := ns, at, c, false;
    WalkedTables(ks, ns, ms, j, earlier);
    if p != null {
      NotClass(ns, found);
      OrderFound(ks, ns, ms, j, at);
      if !seen { c', at' := p, found; }
      WalkedOn(ks, ns, ms, j, earlier);
    } else {
      NotTheSame(ns, ms, c, at);
      var x := InsertAfter(c, t, ns, at);
      WalkedFurther(ks, ns, ms, j, earlier, at, x);
      OrderInserted(ks, ns, ms, j, at, x);
      SuperclassInserted(ns, at, x);
      InsertedParts(ns, at, x);
      ns', at', c', added := Inserted(ns, at, x), at + 1, x, true;
    }
  }

  /** What the tables of a chain come from. */
  lemma WalkedTables(ks: seq<RClass>, ns: seq<RClass>, ms: seq<RClass>, j: nat, earlier: set<RClass>)
    requires ks != [] && j <= |ms| && Walked(ks, ns, ms, j, earlier) && Linked(ns) && earlier == set x | x in ks
    ensures ns != [] && (forall m :: 0 <= m < j ==> Includes(ns, ms[m].mTbl)) && forall t :: Includes(ks, t) ==> Includes(ns, t)
    ensures forall t :: Includes(ns, t) ==> Includes(ks, t) || exists m :: 0 <= m < j && ms[m].mTbl == t
  {
    hide Superclass, Keep;
    forall t | Includes(ns, t) ensures Includes(ks, t) || exists m :: 0 <= m < j && ms[m].mTbl == t {
      var i :| 0 < i < |ns| && ns[i].kind.IsInclude? && ns[i].mTbl == t;
      if ns[i] in earlier { var k :| 0 <= k < |ks| && ks[k] == ns[i]; }
    }
  }

  lemma NotTheSame(ns: seq<RClass>, ms: seq<RClass>, c: RClass, at: nat)
    requires at < |ns| && ns[at] == c && forall x :: x in ns ==> x !in ms
    ensures c !in ms
  {
  }

  lemma InsertedParts(ns: seq<RClass>, at: nat, x: RClass)
    requires at < |ns|
    ensures Inserted(ns, at, x)[at + 1] == x && Inserted(ns, at, x)[0] == ns[0]
    ensures forall y :: y in Inserted(ns, at, x) ==> y in ns || y == x
  {
  }

  lemma NotClass(ns: seq<RClass>, at: nat)
    requires 0 < at < |ns| && ns[at].kind.IsInclude?
    ensures Superclass(ns) != at
  {
  }

  lemma WalkedOn(ks: seq<RClass>, ns: seq<RClass>, ms: seq<RClass>, j: nat, earlier: set<RClass>)
    requires ks != [] && j < |ms| && Walked(ks, ns, ms, j, earlier) && Includes(ns, ms[j].mTbl)
    requires earlier == set x | x in ks
    ensures Walked(ks, ns, ms, j + 1, earlier)
  {
    hide Superclass, Keep, Includes;
  }

  lemma WalkedFurther(ks: seq<RClass>, ns: seq<RClass>, ms: seq<RClass>, j: nat, earlier: set<RClass>, at: nat, x: RClass)
    requires ks != [] && j < |ms| && Walked(ks, ns, ms, j, earlier) && !Includes(ns, ms[j].mTbl)
    requires at < Superclass(ns) && x !in earlier && x.kind.IsInclude? && x.mTbl == ms[j].mTbl && earlier == set y | y in ks
    ensures Walked(ks, Inserted(ns, at, x), ms, j + 1, earlier)
  {
    hide Superclass, Keep, Includes;
    var ns' := Inserted(ns, at, x);
    KeepInserted(ns, at, x, earlier);
    SuperclassInserted(ns, at, x);
    IncludesInserted(ns, at, x);
    NewTableIsNew(ns, earlier, ms[j].mTbl);
    assert !Includes(ks, x.mTbl);
    forall i | 0 <= i < |ns'| && ns'[i] !in earlier
      ensures ns'[i].kind.IsInclude? && !Includes(ks, ns'[i].mTbl) && exists m :: 0 <= m < j + 1 && ms[m].mTbl == ns'[i].mTbl
    {
      assert ns'[i] == if i <= at then ns[i] else if i == at + 1 then x else ns[i - 1];
    }
  }

  lemma IncludesInserted(ns: seq<RClass>, at: nat, x: RClass)
    requires at < |ns| && x.kind.IsInclude?
    ensures Includes(Inserted(ns, at, x), x.mTbl)
    ensures forall t :: Includes(ns, t) ==> Includes(Inserted(ns, at, x), t)
  {
    var ns' := Inserted(ns, at, x);
    assert ns'[at + 1] == x;
    forall t | Includes(ns, t) ensures Includes(ns', t) {
      var i :| 0 < i < |ns| && ns[i].kind.IsInclude? && ns[i].mTbl == t;
      assert ns'[if i <= at then i else i + 1] == ns[i];
    }
  }

  lemma NewTableIsNew(ns: seq<RClass>, earlier: set<RClass>, t: nat)
    requires ns != [] && !Includes(ns, t) && ns[0] in earlier
    requires forall i :: 0 <= i < |ns| && ns[i] !in earlier ==> ns[i].kind.IsInclude?
    ensures forall i :: 0 <= i < |ns| && ns[i] !in earlier ==> ns[i].mTbl != t
  {
  }

  /** Behind the class, node `j` is a new one for the table of the module's node `j`. */
  ghost predicate NewFor(ks: seq<RClass>, ns: seq<RClass>, ms: seq<RClass>, j: nat)
    requires j < |ms| && j + 1 < |ns|
  {
    ns[j + 1] !in ks && ns[j + 1].kind.IsInclude? && ns[j + 1].mTbl == ms[j].mTbl
  }

  /** When no ancestor has a table of the module, the new nodes stand right behind the class, in the order
      of the module's chain, and the old ancestors follow. */
  lemma NewAncestors(ks: seq<RClass>, ns: seq<RClass>, ms: seq<RClass>)
    requires Linked(ks) && Linked(ns) && Walked(ks, ns, ms, |ms|, set x | x in ks) && Placed(ks, ns, ms, |ms|)
    requires forall m :: 0 <= m < |ms| ==> !Includes(ks, ms[m].mTbl)
    ensures |ns| == |ks| + |ms| && ns[0] == ks[0] && ns[|ms| + 1..] == ks[1..]
    ensures forall j :: 0 <= j < |ms| ==> NewFor(ks, ns, ms, j)
  {
    hide Superclass, Keep, Includes, First, Placed, Walked, Linked;
    HasHead(ks);
    HasHead(ns);
    var earlier := set x | x in ks;
    var n := |ms| + 1;
    WalkedParts(ks, ns, ms, |ms|, earlier);
    if ms != [] { NewNode(ks, ns, ms, |ms| - 1); }
    forall j | 0 <= j < |ms| ensures NewFor(ks, ns, ms, j) { NewNode(ks, ns, ms, j); }
    forall x | x in ns[n..] ensures x in earlier {
      var i :| n <= i < |ns| && ns[i] == x;
      if x !in earlier { NewPlace(ks, ns, ms, earlier, i); }
    }
    forall i | 1 <= i < n ensures ns[i] !in earlier { assert NewFor(ks, ns, ms, i - 1); }
    KeptBehind(ks, ns, n, earlier);
    assert |ns| - n == |ns[n..]| == |ks[1..]|;
  }

  lemma NewNode(ks: seq<RClass>, ns: seq<RClass>, ms: seq<RClass>, j: nat)
    requires Linked(ks) && Linked(ns) && Walked(ks, ns, ms, |ms|, set x | x in ks) && Placed(ks, ns, ms, |ms|)
    requires (forall m :: 0 <= m < |ms| ==> !Includes(ks, ms[m].mTbl)) && j < |ms|
    ensures j + 1 < |ns| && NewFor(ks, ns, ms, j)
  {
    hide Superclass, Keep, Includes, First, Placed, Walked;
    var earlier := set x | x in ks;
    WalkedParts(ks, ns, ms, |ms|, earlier);
    WalkedTables(ks, ns, ms, |ms|, earlier);
    NewRuns(ks, ns, ms, j);
    assert Includes(ns, ms[j].mTbl);
    if ns[j + 1] in ks { OldTable(ks, ns, j + 1); }
  }

  /** Nodes between the class and old ones that are all new. */
  lemma KeptBehind(ks: seq<RClass>, ns: seq<RClass>, n: nat, earlier: set<RClass>)
    requires 1 <= n <= |ns| && ks != [] && ns[0] == ks[0] && ks[0] in earlier && Keep(ns, earlier) == ks
    requires (forall i :: 1 <= i < n ==> ns[i] !in earlier) && forall x :: x in ns[n..] ==> x in earlier
    ensures ns[n..] == ks[1..]
  {
    hide Keep;
    var news := ns[1..n];
    assert ns == [ns[0]] + news + ns[n..];
    KeepConcat([ns[0]] + news, ns[n..], earlier);
    KeepConcat([ns[0]], news, earlier);
    KeepAll([ns[0]], earlier);
    KeepNone(news, earlier);
    KeepAll(ns[n..], earlier);
    assert ks == [ns[0]] + ns[n..];
  }

  lemma {:induction false} NewRuns(ks: seq<RClass>, ns: seq<RClass>, ms: seq<RClass>, j: nat)
    requires ks != [] && ns != [] && j < |ms| && Placed(ks, ns, ms, |ms|)
    requires forall m :: 0 <= m < |ms| ==> !Includes(ks, ms[m].mTbl)
    ensures First(ns, ms[j].mTbl) == j + 1
  {
    hide Superclass, Includes, First, Anchor, Placed;
    PlacedAt(ks, ns, ms, j);
    if j > 0 {
      NewRuns(ks, ns, ms, j - 1);
      AnchorNext(ks, ns, ms, j - 1);
    } else {
      AnchorNone(ks, ns, ms);
    }
  }

  lemma AnchorNone(ks: seq<RClass>, ns: seq<RClass>, ms: seq<RClass>)
    requires ks != [] && ns != []
    ensures Anchor(ks, ns, ms, 0) == 0
  {
  }

  lemma PlacedAt(ks: seq<RClass>, ns: seq<RClass>, ms: seq<RClass>, j: nat)
    requires ks != [] && ns != [] && j < |ms| && Placed(ks, ns, ms, |ms|) && !Includes(ks, ms[j].mTbl)
    ensures First(ns, ms[j].mTbl) == Anchor(ks, ns, ms, j) + 1
  {
    hide Superclass, Includes, First, Anchor;
  }

  /** The table of an old node is one the old chain has. */
  lemma OldTable(ks: seq<RClass>, ns: seq<RClass>, i: nat)
    requires Linked(ks) && Linked(ns) && ns[0] == ks[0] && 0 < i < |ns| && ns[i].kind.IsInclude? && ns[i] in ks
    ensures Includes(ks, ns[i].mTbl)
  {
    var k :| 0 <= k < |ks| && ks[k] == ns[i];
  }

  lemma NewPlace(ks: seq<RClass>, ns: seq<RClass>, ms: seq<RClass>, earlier: set<RClass>, i: nat)
    requires ks != [] && Walked(ks, ns, ms, |ms|, earlier) && |ms| < |ns| && i < |ns| && ns[i] !in earlier
    requires earlier == (set x | x in ks) && forall j :: 0 <= j < |ms| ==> NewFor(ks, ns, ms, j)
    ensures i <= |ms|
  {
    hide Superclass, Keep, Includes;
    var m :| 0 <= m < |ms| && ms[m].mTbl == ns[i].mTbl;
    assert NewFor(ks, ns, ms, m);
  }

  lemma {:induction false} KeepNone(ns: seq<RClass>, earlier: set<RClass>)
    requires forall x :: x in ns ==> x !in earlier
    ensures Keep(ns, earlier) == []
  {
    if ns != [] { KeepNone(ns[..|ns| - 1], earlier); }
  }

  /** The table has had a node in front of the first superclass before. */
  ghost predicate HeldInFront(ks: seq<RClass>, t: nat)
    requires ks != []
  {
    Includes(ks, t) && Fronted(ks, t)
  }

  /** What stands in front of the first superclass is in the order of the module's chain, when the old
      chain does not hold its part of it in another order. */
  lemma {:induction false} ModuleOrder(ks: seq<RClass>, ns: seq<RClass>, ms: seq<RClass>, a: nat, b: nat)
    requires ks != [] && ns != [] && SameSides(ks, ns) && Distinct(ms) && Placed(ks, ns, ms, |ms|)
    requires forall m :: 0 <= m < |ms| ==> Includes(ns, ms[m].mTbl)
    requires forall x, y :: 0 <= x < y < |ms| && HeldInFront(ks, ms[x].mTbl) && HeldInFront(ks, ms[y].mTbl) ==>
               First(ks, ms[x].mTbl) < First(ks, ms[y].mTbl)
    requires a < b < |ms| && Fronted(ks, ms[a].mTbl) && Fronted(ks, ms[b].mTbl)
    ensures First(ns, ms[a].mTbl) < First(ns, ms[b].mTbl) < Superclass(ns)
    decreases a + b
  {
    hide Superclass, Includes, First, Fronted;
    assert Includes(ns, ms[a].mTbl) && Includes(ns, ms[b].mTbl);
    if !Includes(ks, ms[b].mTbl) {
      var c := AnchorSpot(ks, ns, ms, b);
      if c > a { ModuleOrder(ks, ns, ms, a, c); }
    } else if !Includes(ks, ms[a].mTbl) {
      var c := AnchorSpot(ks, ns, ms, a);
      if c >= 0 { ModuleOrder(ks, ns, ms, c, b); }
    }
  }

  lemma {:induction false} AnchorSpot(ks: seq<RClass>, ns: seq<RClass>, ms: seq<RClass>, j: nat) returns (c: int)
    requires ks != [] && ns != [] && j <= |ms|
    ensures -1 <= c < j && (forall i :: c < i < j ==> !Fronted(ks, ms[i].mTbl))
    ensures if c == -1 then Anchor(ks, ns, ms, j) == 0 else Fronted(ks, ms[c].mTbl) && Anchor(ks, ns, ms, j) == First(ns, ms[c].mTbl)
  {
    hide Superclass, Includes, First, Fronted;
    if j == 0 { c := -1; }
    else if Fronted(ks, ms[j - 1].mTbl) { c := j - 1; }
    else { c := AnchorSpot(ks, ns, ms, j - 1); }
  }
}
