/** The order of preference of nested quantifiers, over any body that always consumes something. What
    a body finds from an outcome is a list of outcomes; two lists are the same when they differ only in
    repetitions of what was there before, so that whatever follows chooses the same outcome. */
module RegOrder {
  import opened RegTree
  import opened Wrappers
  import opened RegRef
  import opened RegFacts
  import opened RegAgree

  /** The outcomes of a body, from any outcome on. */
  type Body = Out -> seq<Out>

  /** A quantifier without its body. */
  datatype Quantifier = Quantifier(lower: Count, upper: Upper, greedy: bool)

  /** One of ? * + ?? *? +?. */
  predicate Popular(q: Quantifier) {
    q.lower <= 1 && (q.upper == Infinite || (q.upper == Finite(1) && q.lower == 0))
  }

  /** In texts of length `n` the body always consumes something. */
  ghost predicate Advances(l: Body, n: nat) {
    forall o: Out, k: nat :: o.s <= n && 0 <= k < |l(o)| ==> o.s < l(o)[k].s <= n
  }

  function Flat(f: Body, xs: seq<Out>): seq<Out> {
    if xs == [] then [] else f(xs[0]) + Flat(f, xs[1..])
  }

  /** The loop of `*` or `*?`: a pass that consumes nothing leaves it. */
  function Star(l: Body, greedy: bool, n: nat, o: Out): seq<Out>
    decreases if o.s <= n then 2 * (n - o.s) + 1 else 1, 0
  {
    var more := Passes(l, greedy, n, o.s, l(o));
    if greedy then more + [o] else [o] + more
  }

  function Passes(l: Body, greedy: bool, n: nat, s: nat, xs: seq<Out>): seq<Out>
    decreases if s <= n then 2 * (n - s) else 0, |xs|
  {
    if xs == [] then []
    else
      (if s < xs[0].s <= n then Star(l, greedy, n, xs[0]) else [xs[0]]) + Passes(l, greedy, n, s, xs[1..])
  }

  function StarOf(l: Body, greedy: bool, n: nat): Body {
    (o: Out) => Star(l, greedy, n, o)
  }

  /** Where one pass that began at `s` leads. */
  function PassOf(l: Body, greedy: bool, n: nat, s: nat): Body {
    (o: Out) => if s < o.s <= n then Star(l, greedy, n, o) else [o]
  }

  /** The outcomes of a quantifier on a body. */
  function Picks(l: Body, n: nat, q: Quantifier, o: Out): seq<Out>
    requires Popular(q)
  {
    if q.upper.Finite? then (if q.greedy then l(o) + [o] else [o] + l(o))
    else if q.lower == 0 then Star(l, q.greedy, n, o)
    else Flat(StarOf(l, q.greedy, n), l(o))
  }

  function Quantified(l: Body, n: nat, q: Quantifier): Body
    requires Popular(q)
  {
    (o: Out) => Picks(l, n, q, o)
  }

  // ----- lists up to repetition -----

  function Members(xs: seq<Out>): set<Out> {
    set x | x in xs
  }

  /** What is new in a list when `seen` was there before. */
  function Fresh(xs: seq<Out>, seen: set<Out>): seq<Out> {
    if xs == [] then []
    else if xs[0] in seen then Fresh(xs[1..], seen)
    else [xs[0]] + Fresh(xs[1..], seen + {xs[0]})
  }

  /** The same outcomes in the same order, repetitions aside. */
  ghost predicate Same(a: seq<Out>, b: seq<Out>) {
    forall seen :: Fresh(a, seen) == Fresh(b, seen)
  }

  lemma {:induction false} FreshConcat(a: seq<Out>, b: seq<Out>, seen: set<Out>)
    ensures Fresh(a + b, seen) == Fresh(a, seen) + Fresh(b, seen + Members(a))
  {
    if a == [] {
      assert a + b == b && seen + Members(a) == seen;
    } else {
      var x := a[0];
      assert (a + b)[1..] == a[1..] + b;
      assert Members(a) == {x} + Members(a[1..]) by { assert a == [x] + a[1..]; }
      if x in seen {
        FreshConcat(a[1..], b, seen);
        assert seen + Members(a[1..]) == seen + Members(a);
      } else {
        FreshConcat(a[1..], b, seen + {x});
        assert seen + {x} + Members(a[1..]) == seen + Members(a);
      }
    }
  }

  lemma {:induction false} FreshNone(a: seq<Out>, seen: set<Out>)
    ensures Fresh(a, seen) == [] <==> Members(a) <= seen
  {
    if a != [] {
      assert a == [a[0]] + a[1..];
      FreshNone(a[1..], seen);
    }
  }

  lemma SameMembers(a: seq<Out>, b: seq<Out>)
    requires Same(a, b)
    ensures Members(a) == Members(b)
  {
    FreshNone(a, Members(a));
    FreshNone(b, Members(a));
    FreshNone(a, Members(b));
    FreshNone(b, Members(b));
    assert Fresh(a, Members(a)) == Fresh(b, Members(a));
    assert Fresh(a, Members(b)) == Fresh(b, Members(b));
  }

  lemma SameConcat(a: seq<Out>, a': seq<Out>, b: seq<Out>, b': seq<Out>)
    requires Same(a, a') && Same(b, b')
    ensures Same(a + b, a' + b')
  {
    hide Members;
    SameMembers(a, a');
    forall seen ensures Fresh(a + b, seen) == Fresh(a' + b', seen) {
      FreshConcat(a, b, seen);
      FreshConcat(a', b', seen);
    }
  }

  lemma SameSelf(a: seq<Out>)
    ensures Same(a, a)
  {
  }

  lemma SameTrans(a: seq<Out>, b: seq<Out>, c: seq<Out>)
    requires Same(a, b) && Same(b, c)
    ensures Same(a, c)
  {
  }

  lemma SameBack(a: seq<Out>, b: seq<Out>)
    requires Same(a, b)
    ensures Same(b, a)
  {
  }

  /** What was there before adds nothing. */
  lemma Seen(a: seq<Out>, b: seq<Out>)
    requires Members(b) <= Members(a)
    ensures Same(a + b, a)
  {
    hide Members;
    forall seen ensures Fresh(a + b, seen) == Fresh(a, seen) {
      FreshConcat(a, b, seen);
      FreshNone(b, seen + Members(a));
    }
  }

  lemma {:induction false} FreshOnly(b: seq<Out>, y: Out, seen: set<Out>)
    requires y in b && Members(b) <= seen + {y}
    ensures Fresh(b, seen) == Fresh([y], seen)
  {
    var x := b[0];
    assert b == [x] + b[1..];
    assert [y][1..] == [];
    if y in seen {
      FreshNone(b, seen);
      FreshNone([y], seen);
    } else if x == y {
      FreshNone(b[1..], seen + {y});
    } else {
      FreshOnly(b[1..], y, seen);
    }
  }

  lemma {:induction false} FlatConcat(f: Body, a: seq<Out>, b: seq<Out>)
    ensures Flat(f, a + b) == Flat(f, a) + Flat(f, b)
  {
    if a == [] {
      assert a + b == b;
    } else {
      assert (a + b)[1..] == a[1..] + b;
      FlatConcat(f, a[1..], b);
    }
  }

  lemma FlatOne(f: Body, x: Out)
    ensures Flat(f, [x]) == f(x)
  {
    assert [x][1..] == [];
    assert Flat(f, []) == [];
  }

  lemma {:induction false} FlatSame(f: Body, g: Body, xs: seq<Out>)
    requires forall x :: x in xs ==> Same(f(x), g(x))
    ensures Same(Flat(f, xs), Flat(g, xs))
  {
    hide Same;
    if xs == [] {
      SameSelf([]);
    } else {
      FlatSame(f, g, xs[1..]);
      SameConcat(f(xs[0]), g(xs[0]), Flat(f, xs[1..]), Flat(g, xs[1..]));
    }
  }

  lemma {:induction false} FlatEqual(f: Body, g: Body, xs: seq<Out>)
    requires forall x :: x in xs ==> f(x) == g(x)
    ensures Flat(f, xs) == Flat(g, xs)
  {
    if xs != [] { FlatEqual(f, g, xs[1..]); }
  }

  lemma {:induction false} FlatMembers(f: Body, xs: seq<Out>, y: Out)
    ensures y in Flat(f, xs) <==> exists x :: x in xs && y in f(x)
  {
    if xs != [] {
      assert xs == [xs[0]] + xs[1..];
      FlatMembers(f, xs[1..], y);
    }
  }

  lemma {:induction false} PassesAreFlat(l: Body, greedy: bool, n: nat, s: nat, xs: seq<Out>)
    ensures Passes(l, greedy, n, s, xs) == Flat(PassOf(l, greedy, n, s), xs)
    decreases |xs|
  {
    hide Star;
    if xs != [] { PassesAreFlat(l, greedy, n, s, xs[1..]); }
  }

  // ----- what a loop reaches -----

  /** Everything a loop over the body reaches from an outcome. */
  function Below(l: Body, n: nat, o: Out): set<Out> {
    Members(Star(l, true, n, o))
  }

  /** The outcomes behind one pass or more. */
  function Further(l: Body, greedy: bool, n: nat, o: Out): seq<Out> {
    Flat(StarOf(l, greedy, n), l(o))
  }

  lemma StarUnfold(l: Body, greedy: bool, n: nat, o: Out)
    requires Advances(l, n) && o.s <= n
    ensures Star(l, greedy, n, o) == if greedy then Further(l, greedy, n, o) + [o] else [o] + Further(l, greedy, n, o)
  {
    hide Flat, Passes;
    PassesAreFlat(l, greedy, n, o.s, l(o));
    forall x | x in l(o) ensures PassOf(l, greedy, n, o.s)(x) == StarOf(l, greedy, n)(x) {
      Steps(l, n, o, x);
    }
    FlatEqual(PassOf(l, greedy, n, o.s), StarOf(l, greedy, n), l(o));
  }

  lemma Steps(l: Body, n: nat, o: Out, x: Out)
    requires Advances(l, n) && o.s <= n && x in l(o)
    ensures o.s < x.s <= n
  {
    var k: nat :| k < |l(o)| && l(o)[k] == x;
  }

  lemma StarMembers(l: Body, greedy: bool, n: nat, o: Out, y: Out)
    requires Advances(l, n) && o.s <= n
    ensures y in Star(l, greedy, n, o) <==> y == o || exists x :: x in l(o) && y in Star(l, greedy, n, x)
  {
    hide Star, Flat;
    StarUnfold(l, greedy, n, o);
    FlatMembers(StarOf(l, greedy, n), l(o), y);
    if x :| x in l(o) && y in Star(l, greedy, n, x) {
      assert y in StarOf(l, greedy, n)(x);
    }
    if x :| x in l(o) && y in StarOf(l, greedy, n)(x) {
      assert y in Star(l, greedy, n, x);
    }
  }

  lemma {:induction false} LazyMembers(l: Body, n: nat, o: Out, y: Out)
    requires Advances(l, n) && o.s <= n
    ensures y in Star(l, false, n, o) <==> y in Star(l, true, n, o)
    decreases n - o.s
  {
    hide Star;
    StarMembers(l, false, n, o, y);
    StarMembers(l, true, n, o, y);
    forall x | x in l(o) ensures y in Star(l, false, n, x) <==> y in Star(l, true, n, x) {
      Steps(l, n, o, x);
      LazyMembers(l, n, x, y);
    }
  }

  lemma BelowSelf(l: Body, n: nat, o: Out)
    requires Advances(l, n) && o.s <= n
    ensures o in Below(l, n, o)
  {
    hide Star;
    StarMembers(l, true, n, o, o);
  }

  lemma {:induction false} BelowBounds(l: Body, n: nat, o: Out, y: Out)
    requires Advances(l, n) && o.s <= n && y in Below(l, n, o)
    ensures o.s <= y.s <= n && (y.s == o.s ==> y == o)
    decreases n - o.s
  {
    hide Star;
    StarMembers(l, true, n, o, y);
    if y != o {
      var x :| x in l(o) && y in Star(l, true, n, x);
      Steps(l, n, o, x);
      BelowBounds(l, n, x, y);
    }
  }

  lemma {:induction false} BelowTrans(l: Body, n: nat, o: Out, y: Out)
    requires Advances(l, n) && o.s <= n && y in Below(l, n, o)
    ensures Below(l, n, y) <= Below(l, n, o)
    decreases n - o.s
  {
    hide Star;
    StarMembers(l, true, n, o, y);
    if y != o {
      var x :| x in l(o) && y in Star(l, true, n, x);
      Steps(l, n, o, x);
      BelowTrans(l, n, x, y);
      forall z | z in Below(l, n, y) ensures z in Below(l, n, o) {
        assert z in Below(l, n, x);
        StarMembers(l, true, n, o, z);
      }
    }
  }

  lemma StepBelow(l: Body, n: nat, o: Out, x: Out)
    requires Advances(l, n) && o.s <= n && x in l(o)
    ensures x in Below(l, n, o) && o.s < x.s <= n
  {
    hide Star;
    Steps(l, n, o, x);
    BelowSelf(l, n, x);
    StarMembers(l, true, n, o, x);
  }

  /** What the body `y` finds is what a loop over `l` reaches. */
  ghost predicate Inside(y: Body, l: Body, n: nat) {
    forall o: Out, x: Out :: o.s <= n && x in y(o) ==> x in Below(l, n, o)
  }

  /** One pass of a loop over `y` stays below the outcome it came to. */
  ghost predicate Covers(f: Body, l: Body, n: nat, y: Out) {
    Members(f(y)) <= Below(l, n, y) && y in f(y)
  }

  lemma {:induction false} StarInside(y: Body, l: Body, greedy: bool, n: nat, o: Out)
    requires Advances(l, n) && Inside(y, l, n) && o.s <= n
    ensures Covers(StarOf(y, greedy, n), l, n, o)
    decreases n - o.s
  {
    hide Flat, Passes, Below, Advances, Inside;
    var f := PassOf(y, greedy, n, o.s);
    PassesAreFlat(y, greedy, n, o.s, y(o));
    BelowSelf(l, n, o);
    forall z | z in Flat(f, y(o)) ensures z in Below(l, n, o) {
      FlatMembers(f, y(o), z);
      var x :| x in y(o) && z in f(x);
      InsideAt(y, l, n, o, x);
      PassInside(y, l, greedy, n, o, x);
      BelowTrans(l, n, o, x);
    }
  }

  lemma InsideAt(y: Body, l: Body, n: nat, o: Out, x: Out)
    requires Inside(y, l, n) && o.s <= n && x in y(o)
    ensures x in Below(l, n, o)
  {
  }

  lemma {:induction false} PassInside(y: Body, l: Body, greedy: bool, n: nat, o: Out, x: Out)
    requires Advances(l, n) && Inside(y, l, n) && o.s <= n && x in Below(l, n, o)
    ensures Covers(PassOf(y, greedy, n, o.s), l, n, x)
    decreases n - o.s, 0
  {
    hide Star, Below, Advances, Inside;
    BelowBounds(l, n, o, x);
    BelowSelf(l, n, x);
    if o.s < x.s { StarInside(y, l, greedy, n, x); }
  }

  /** The outcomes of each of the six quantifiers are among those the loop reaches. */
  lemma PicksInside(l: Body, n: nat, q: Quantifier)
    requires Advances(l, n) && Popular(q)
    ensures Inside(Quantified(l, n, q), l, n)
  {
    hide Star, Flat, Below;
    forall o: Out, x: Out | o.s <= n && x in Quantified(l, n, q)(o) ensures x in Below(l, n, o) {
      PickInside(l, n, q, o, x);
    }
  }

  lemma PickInside(l: Body, n: nat, q: Quantifier, o: Out, x: Out)
    requires Advances(l, n) && Popular(q) && o.s <= n && x in Picks(l, n, q, o)
    ensures x in Below(l, n, o)
  {
    hide Star, Flat, Advances;
    BelowSelf(l, n, o);
    if q.upper.Finite? {
      if x != o { StepBelow(l, n, o, x); }
    } else if q.lower == 0 {
      if !q.greedy { LazyMembers(l, n, o, x); }
    } else {
      FlatMembers(StarOf(l, q.greedy, n), l(o), x);
      var z :| z in l(o) && x in StarOf(l, q.greedy, n)(z);
      StepBelow(l, n, o, z);
      BelowTrans(l, n, o, z);
      if !q.greedy { LazyMembers(l, n, z, x); }
    }
  }

  // ----- closed lists -----

  /** In front of every outcome stands everything else the loop reaches from it. */
  ghost predicate Closed(xs: seq<Out>, l: Body, n: nat) {
    forall i :: 0 <= i < |xs| ==> xs[i].s <= n && Below(l, n, xs[i]) <= Members(xs[..i + 1])
  }

  lemma ClosedConcat(a: seq<Out>, b: seq<Out>, l: Body, n: nat)
    requires Closed(a, l, n) && Closed(b, l, n)
    ensures Closed(a + b, l, n)
  {
    hide Below;
    forall i | 0 <= i < |a + b| ensures (a + b)[i].s <= n && Below(l, n, (a + b)[i]) <= Members((a + b)[..i + 1]) {
      if i < |a| {
        assert (a + b)[..i + 1] == a[..i + 1];
      } else {
        assert (a + b)[..i + 1] == a + b[..i - |a| + 1];
      }
    }
  }

  lemma {:induction false} StarClosed(l: Body, n: nat, o: Out)
    requires Advances(l, n) && o.s <= n
    ensures Closed(Star(l, true, n, o), l, n) && Closed(Further(l, true, n, o), l, n)
    decreases n - o.s, 1
  {
    hide Star, Flat, Closed, Advances;
    StarUnfold(l, true, n, o);
    forall x | x in l(o) ensures o.s < x.s <= n { Steps(l, n, o, x); }
    FlatClosedUnder(l, n, o.s, l(o));
    ClosedLast(l, n, o);
  }

  lemma ClosedLast(l: Body, n: nat, o: Out)
    requires Advances(l, n) && o.s <= n && Closed(Further(l, true, n, o), l, n)
    ensures Closed(Further(l, true, n, o) + [o], l, n)
  {
    hide Star, Flat, Further;
    StarUnfold(l, true, n, o);
    var xs := Further(l, true, n, o);
    var all := xs + [o];
    forall i | 0 <= i < |all| ensures all[i].s <= n && Below(l, n, all[i]) <= Members(all[..i + 1]) {
      if i < |xs| { assert all[..i + 1] == xs[..i + 1]; } else { assert all[..i + 1] == all; }
    }
  }

  lemma {:induction false} FlatClosedUnder(l: Body, n: nat, s: nat, xs: seq<Out>)
    requires Advances(l, n) && s <= n && forall x :: x in xs ==> s < x.s <= n
    ensures Closed(Flat(StarOf(l, true, n), xs), l, n)
    decreases n - s, 0, |xs|
  {
    hide Star, Closed, Advances;
    if xs == [] {
      ClosedNone(l, n);
    } else {
      StarClosed(l, n, xs[0]);
      FlatClosedUnder(l, n, s, xs[1..]);
      ClosedConcat(Star(l, true, n, xs[0]), Flat(StarOf(l, true, n), xs[1..]), l, n);
    }
  }

  lemma ClosedNone(l: Body, n: nat)
    ensures Closed([], l, n)
  {
  }

  /** Going on from every outcome of a closed list finds nothing that was not there already. */
  lemma {:induction false} ClosedStays(f: Body, xs: seq<Out>, l: Body, n: nat)
    requires Closed(xs, l, n) && forall y :: y in xs ==> Covers(f, l, n, y)
    ensures Same(Flat(f, xs), xs)
    decreases |xs|
  {
    hide Same, Below, Flat;
    if xs == [] {
      FlatNone(f);
      SameSelf([]);
    } else {
      var front, y := xs[..|xs| - 1], xs[|xs| - 1];
      assert xs == front + [y];
      assert Closed(front, l, n) by {
        forall i | 0 <= i < |front| ensures front[i].s <= n && Below(l, n, front[i]) <= Members(front[..i + 1]) {
          assert front[..i + 1] == xs[..i + 1];
        }
      }
      ClosedStays(f, front, l, n);
      FlatConcat(f, front, [y]);
      FlatOne(f, y);
      assert xs[..|xs| - 1 + 1] == xs;
      assert y in xs && Covers(f, l, n, y);
      OneMore(Flat(f, front), front, f(y), y);
    }
  }

  lemma FlatNone(f: Body)
    ensures Flat(f, []) == []
  {
  }

  lemma OneMore(a: seq<Out>, b: seq<Out>, c: seq<Out>, y: Out)
    requires Same(a, b) && y in c && Members(c) <= Members(b + [y])
    ensures Same(a + c, b + [y])
  {
    SameMembers(a, b);
    forall seen ensures Fresh(a + c, seen) == Fresh(b + [y], seen) {
      FreshConcat(a, c, seen);
      FreshConcat(b, [y], seen);
      assert Members(b + [y]) == Members(b) + {y};
      FreshOnly(c, y, seen + Members(b));
    }
  }

  // ----- lists in which an outcome stands in front of what it leads to -----

  /** From an outcome on, `f` finds what the lazy loop finds. */
  ghost predicate Lazily(f: Body, l: Body, n: nat, o: Out) {
    Same(f(o), Star(l, false, n, o))
  }

  lemma FrontSeen(f: Body, l: Body, n: nat, o: Out, rest: seq<Out>)
    requires Advances(l, n) && o.s <= n && Lazily(f, l, n, o) && Members(rest) <= Below(l, n, o)
    ensures Same(f(o) + rest, Star(l, false, n, o))
  {
    hide Same, Star, Advances;
    SameMembers(f(o), Star(l, false, n, o));
    forall y | y in rest ensures y in f(o) {
      assert y in Members(rest);
      LazyMembers(l, n, o, y);
      assert y in Members(Star(l, false, n, o));
      assert y in Members(f(o));
    }
    Seen(f(o), rest);
    SameTrans(f(o) + rest, f(o), Star(l, false, n, o));
  }

  /** Going on lazily from everything the lazy loop finds finds nothing new. */
  lemma LazyStays(f: Body, l: Body, n: nat, o: Out)
    requires Advances(l, n) && o.s <= n && Lazily(f, l, n, o)
    requires forall y :: y in Below(l, n, o) ==> Covers(f, l, n, y)
    ensures Same(Flat(f, Star(l, false, n, o)), Star(l, false, n, o))
  {
    hide Same, Star, Advances, Lazily, Flat;
    var rest := Further(l, false, n, o);
    StarUnfold(l, false, n, o);
    FlatConcat(f, [o], rest);
    FlatOne(f, o);
    forall z | z in Flat(f, rest) ensures z in Below(l, n, o) {
      FlatMembers(f, rest, z);
      var y :| y in rest && z in f(y);
      assert y in Star(l, false, n, o);
      LazyMembers(l, n, o, y);
      BelowTrans(l, n, o, y);
    }
    FrontSeen(f, l, n, o, Flat(f, rest));
  }

  /** The same for what the lazy loop finds behind one pass or more. */
  lemma {:induction false} LazyFurther(f: Body, l: Body, n: nat, s: nat, xs: seq<Out>)
    requires Advances(l, n) && forall x :: x in xs ==> s < x.s <= n
    requires forall y: Out :: s < y.s <= n ==> Covers(f, l, n, y) && Lazily(f, l, n, y)
    ensures Same(Flat(f, Flat(StarOf(l, false, n), xs)), Flat(StarOf(l, false, n), xs))
    decreases |xs|
  {
    hide Same, Star, Advances, Lazily, Covers, Below;
    if xs == [] {
      SameSelf([]);
    } else {
      var x := xs[0];
      LazyFurther(f, l, n, s, xs[1..]);
      forall y | y in Below(l, n, x) ensures Covers(f, l, n, y) { BelowBounds(l, n, x, y); }
      LazyStays(f, l, n, x);
      FlatConcat(f, Star(l, false, n, x), Flat(StarOf(l, false, n), xs[1..]));
      SameConcat(Flat(f, Star(l, false, n, x)), Star(l, false, n, x),
                 Flat(f, Flat(StarOf(l, false, n), xs[1..])), Flat(StarOf(l, false, n), xs[1..]));
    }
  }

  // ----- loops over a quantifier -----

  lemma PassIsStar(y: Body, greedy: bool, n: nat, s: nat, o: Out)
    requires s < o.s <= n
    ensures PassOf(y, greedy, n, s)(o) == StarOf(y, greedy, n)(o)
  {
    hide Star;
  }

  lemma PassStays(y: Body, greedy: bool, n: nat, o: Out)
    ensures PassOf(y, greedy, n, o.s)(o) == [o]
  {
    hide Star;
  }

  /** A loop over `y` from `o` on: what its passes lead to, and the way out. */
  lemma LoopUnfold(y: Body, greedy: bool, n: nat, o: Out)
    ensures var more := Flat(PassOf(y, greedy, n, o.s), y(o));
            Star(y, greedy, n, o) == if greedy then more + [o] else [o] + more
  {
    hide Passes, Flat;
    PassesAreFlat(y, greedy, n, o.s, y(o));
  }

  /** Passes of a loop stay below the outcomes they came to. */
  lemma PassesCover(y: Body, l: Body, greedy: bool, n: nat, o: Out, xs: seq<Out>)
    requires Advances(l, n) && Inside(y, l, n) && o.s <= n && Members(xs) <= Below(l, n, o)
    ensures forall x :: x in xs ==> Covers(PassOf(y, greedy, n, o.s), l, n, x)
  {
    hide Star, Below, Advances, Inside, Covers;
    forall x | x in xs ensures Covers(PassOf(y, greedy, n, o.s), l, n, x) {
      assert x in Members(xs);
      PassInside(y, l, greedy, n, o, x);
    }
  }

  /** `+`, and `*` or `*?` on it or on `*`: the passes after the first find nothing new. */
  lemma OverClosed(l: Body, n: nat, c: Quantifier, greedy: bool, o: Out)
    requires Advances(l, n) && o.s <= n && Popular(c) && c.greedy && c.upper.Infinite?
    ensures Same(Star(Quantified(l, n, c), greedy, n, o),
                 if greedy then Star(l, true, n, o) else [o] + Further(l, true, n, o))
  {
    hide Star, Flat, Advances, Inside, Covers, Same, Closed, Further, Below;
    var y, rest := Quantified(l, n, c), Further(l, true, n, o);
    var f := PassOf(y, greedy, n, o.s);
    var xs := y(o);
    assert xs == if c.lower == 0 then Star(l, true, n, o) else rest by { FurtherIs(l, true, n, o); }
    PicksInside(l, n, c);
    StarClosed(l, n, o);
    StarUnfold(l, true, n, o);
    forall x | x in xs ensures x in Below(l, n, o) { InsideAt(y, l, n, o, x); }
    PassesCover(y, l, greedy, n, o, xs);
    ClosedStays(f, xs, l, n);
    LoopUnfold(y, greedy, n, o);
    SameSelf([o]);
    if greedy {
      SameConcat(Flat(f, xs), xs, [o], [o]);
      if c.lower == 0 {
        assert o in xs;
        Seen(xs, [o]);
        SameTrans(Flat(f, xs) + [o], xs + [o], xs);
      }
    } else {
      SameConcat([o], [o], Flat(f, xs), xs);
      if c.lower == 0 { LastSeen([o] + rest, o); AssocThree([o], rest, [o]); SameTrans([o] + Flat(f, xs), [o] + xs, [o] + rest); }
    }
  }

  lemma FurtherIs(l: Body, greedy: bool, n: nat, o: Out)
    ensures Further(l, greedy, n, o) == Flat(StarOf(l, greedy, n), l(o))
  {
  }

  lemma AssocThree(a: seq<Out>, b: seq<Out>, c: seq<Out>)
    ensures (a + b) + c == a + (b + c)
  {
  }

  /** An outcome that was there before adds nothing at the end. */
  lemma LastSeen(xs: seq<Out>, o: Out)
    requires o in xs
    ensures Same(xs + [o], xs)
  {
    hide Same;
    Seen(xs, [o]);
  }

  /** `+` on `*` or on `+`, greedy or lazy: the loop behind the copy finds nothing new. */
  lemma PlusOverClosed(l: Body, n: nat, c: Quantifier, greedy: bool, o: Out)
    requires Advances(l, n) && o.s <= n && Popular(c) && c.greedy && c.upper.Infinite?
    ensures Same(Flat(StarOf(Quantified(l, n, c), greedy, n), Picks(l, n, c, o)), Picks(l, n, c, o))
  {
    hide Star, Flat, Advances, Inside, Covers, Same, Closed, Below;
    var y := Quantified(l, n, c);
    var f, xs := StarOf(y, greedy, n), Picks(l, n, c, o);
    PicksInside(l, n, c);
    StarClosed(l, n, o);
    FurtherIs(l, true, n, o);
    forall x | x in xs ensures Covers(f, l, n, x) {
      InsideAt(y, l, n, o, x);
      BelowBounds(l, n, o, x);
      StarInside(y, l, greedy, n, x);
    }
    ClosedStays(f, xs, l, n);
  }

  /** `*` on `?`. */
  lemma {:induction false} OverOption(l: Body, n: nat, c: Quantifier, o: Out)
    requires Advances(l, n) && o.s <= n && Popular(c) && c.greedy && c.upper.Finite?
    ensures Same(Star(Quantified(l, n, c), true, n, o), Star(l, true, n, o))
    decreases n - o.s
  {
    hide Star, Flat, Advances, Same;
    var y := Quantified(l, n, c);
    var f := PassOf(y, true, n, o.s);
    LoopUnfold(y, true, n, o);
    StarUnfold(l, true, n, o);
    FlatConcat(f, l(o), [o]);
    FlatOne(f, o);
    PassStays(y, true, n, o);
    forall x | x in l(o) ensures Same(f(x), StarOf(l, true, n)(x)) {
      Steps(l, n, o, x);
      PassIsStar(y, true, n, o.s, x);
      OverOption(l, n, c, x);
    }
    FlatSame(f, StarOf(l, true, n), l(o));
    var a, b := Flat(f, l(o)), Further(l, true, n, o);
    SameSelf([o]);
    SameConcat(a, b, [o], [o]);
    LastSeen(a + [o], o);
    SameTrans(a + [o] + [o], a + [o], b + [o]);
  }

  /** `+` on `?`. */
  lemma PlusOverOption(l: Body, n: nat, c: Quantifier, o: Out)
    requires Advances(l, n) && o.s <= n && Popular(c) && c.greedy && c.upper.Finite?
    ensures Same(Flat(StarOf(Quantified(l, n, c), true, n), l(o) + [o]), Star(l, true, n, o))
  {
    hide Star, Flat, Advances, Same, Further;
    var y := Quantified(l, n, c);
    var f, b := StarOf(y, true, n), Further(l, true, n, o);
    FlatConcat(f, l(o), [o]);
    FlatOne(f, o);
    FurtherIs(l, true, n, o);
    StarUnfold(l, true, n, o);
    forall x | x in l(o) ensures Same(f(x), StarOf(l, true, n)(x)) {
      Steps(l, n, o, x);
      OverOption(l, n, c, x);
    }
    FlatSame(f, StarOf(l, true, n), l(o));
    OverOption(l, n, c, o);
    SameConcat(Flat(f, l(o)), b, f(o), b + [o]);
    AssocThree(b, b, [o]);
    Seen(b, b);
    SameSelf([o]);
    SameConcat(b + b, b, [o], [o]);
    SameTrans(Flat(f, l(o)) + f(o), b + (b + [o]), b + [o]);
  }

  /** The loop over one of these quantifiers is the lazy loop over the body: over a lazy one that may be
      left out in any case, and over every other lazy one and over `?` when the loop is lazy too. */
  predicate GoesLazily(c: Quantifier, greedy: bool) {
    Popular(c) &&
    if c.greedy then c.upper.Finite? && !greedy else c.lower == 0 || !greedy
  }

  lemma {:induction false} OverLazy(l: Body, n: nat, c: Quantifier, greedy: bool, o: Out)
    requires Advances(l, n) && o.s <= n && GoesLazily(c, greedy)
    ensures Lazily(StarOf(Quantified(l, n, c), greedy, n), l, n, o)
    decreases n - o.s
  {
    hide Star, Flat, Advances, Same, Further, Inside, Covers, Below;
    var y, rest := Quantified(l, n, c), Further(l, false, n, o);
    var f := PassOf(y, greedy, n, o.s);
    PicksInside(l, n, c);
    LoopUnfold(y, greedy, n, o);
    StarUnfold(l, false, n, o);
    FurtherIs(l, false, n, o);
    PassStays(y, greedy, n, o);
    forall x: Out | o.s < x.s <= n ensures Covers(f, l, n, x) && Lazily(f, l, n, x) {
      PassIsStar(y, greedy, n, o.s, x);
      StarInside(y, l, greedy, n, x);
      CoversAlike(f, StarOf(y, greedy, n), l, n, x);
      OverLazy(l, n, c, greedy, x);
    }
    forall x | x in l(o) ensures o.s < x.s <= n && Same(f(x), StarOf(l, false, n)(x)) { Steps(l, n, o, x); assert Lazily(f, l, n, x); }
    FlatSame(f, StarOf(l, false, n), l(o));
    LazyFurther(f, l, n, o.s, l(o));
    PassesLazily(l, n, c, f, o);
    LazyTail(Flat(f, y(o)), rest, o, greedy);
  }

  lemma CoversAlike(f: Body, g: Body, l: Body, n: nat, x: Out)
    requires f(x) == g(x) && Covers(g, l, n, x)
    ensures Covers(f, l, n, x)
  {
  }

  /** The passes, with or without the way out before or behind them. */
  lemma PassesLazily(l: Body, n: nat, c: Quantifier, f: Body, o: Out)
    requires Advances(l, n) && o.s <= n && Popular(c) && (c.greedy ==> c.upper.Finite?) && f(o) == [o]
    requires Same(Flat(f, l(o)), Further(l, false, n, o))
    requires Same(Flat(f, Further(l, false, n, o)), Further(l, false, n, o))
    ensures var rest := Further(l, false, n, o);
            Same(Flat(f, Picks(l, n, c, o)),
                 if c.greedy then rest + [o] else if c.lower == 1 then rest else [o] + rest)
  {
    hide Star, Flat, Advances, Same, Further;
    var rest := Further(l, false, n, o);
    StarUnfold(l, false, n, o);
    FurtherIs(l, false, n, o);
    SameSelf([o]);
    FlatOne(f, o);
    FlatConcat(f, l(o), [o]);
    FlatConcat(f, [o], l(o));
    FlatConcat(f, [o], rest);
    SameConcat(Flat(f, l(o)), rest, [o], [o]);
    SameConcat([o], [o], Flat(f, l(o)), rest);
    SameConcat([o], [o], Flat(f, rest), rest);
  }

  lemma LazyTail(xs: seq<Out>, rest: seq<Out>, o: Out, greedy: bool)
    requires Same(xs, rest + [o]) || Same(xs, rest) || Same(xs, [o] + rest)
    requires greedy ==> Same(xs, [o] + rest)
    ensures Same(if greedy then xs + [o] else [o] + xs, [o] + rest)
  {
    hide Same;
    SameSelf([o]);
    if greedy {
      SameConcat(xs, [o] + rest, [o], [o]);
      LastSeen([o] + rest, o);
      SameTrans(xs + [o], [o] + rest + [o], [o] + rest);
    } else if Same(xs, rest + [o]) {
      SameConcat([o], [o], xs, rest + [o]);
      AssocThree([o], rest, [o]);
      LastSeen([o] + rest, o);
      SameTrans([o] + xs, [o] + (rest + [o]), [o] + rest);
    } else if Same(xs, rest) {
      SameConcat([o], [o], xs, rest);
    } else {
      SameConcat([o], [o], xs, [o] + rest);
      AssocThree([o], [o], rest);
      Seen([o], [o]);
      SameSelf(rest);
      SameConcat([o] + [o], [o], rest, rest);
      SameTrans([o] + xs, [o] + ([o] + rest), [o] + rest);
    }
  }

  /** `+` or `+?` on a lazy quantifier. */
  lemma PlusOverLazy(l: Body, n: nat, c: Quantifier, greedy: bool, o: Out)
    requires Advances(l, n) && o.s <= n && GoesLazily(c, greedy) && !c.greedy
    ensures Same(Flat(StarOf(Quantified(l, n, c), greedy, n), Picks(l, n, c, o)),
                 if c.lower == 1 then Further(l, false, n, o) else Star(l, false, n, o))
  {
    hide Star, Flat, Advances, Same, Further, Inside, Covers, Below, Lazily;
    var y := Quantified(l, n, c);
    var f := StarOf(y, greedy, n);
    PicksInside(l, n, c);
    FurtherIs(l, false, n, o);
    forall x: Out | o.s <= x.s <= n ensures Covers(f, l, n, x) && Lazily(f, l, n, x) {
      StarInside(y, l, greedy, n, x);
      OverLazy(l, n, c, greedy, x);
    }
    forall x | x in l(o) ensures o.s < x.s <= n { Steps(l, n, o, x); }
    if c.lower == 1 {
      LazyFurther(f, l, n, o.s, l(o));
    } else if c.upper.Infinite? {
      forall x | x in Below(l, n, o) ensures Covers(f, l, n, x) { BelowBounds(l, n, o, x); }
      LazyStays(f, l, n, o);
    } else {
      FlatConcat(f, [o], l(o));
      FlatOne(f, o);
      forall z | z in Flat(f, l(o)) ensures z in Below(l, n, o) {
        FlatMembers(f, l(o), z);
        var x :| x in l(o) && z in f(x);
        StepBelow(l, n, o, x);
        BelowTrans(l, n, o, x);
        CoversIs(f, l, n, x);
        assert z in Members(f(x));
      }
      FrontSeen(f, l, n, o, Flat(f, l(o)));
    }
  }

  lemma CoversIs(f: Body, l: Body, n: nat, x: Out)
    requires Covers(f, l, n, x)
    ensures Members(f(x)) <= Below(l, n, x)
  {
  }

  // ----- two quantifiers -----

  /** What a tower of quantifiers on a body finds, the innermost one first. */
  function Tower(l: Body, n: nat, qs: seq<Quantifier>): Body
    requires forall q :: q in qs ==> Popular(q)
    decreases |qs|
  {
    if qs == [] then l else Quantified(Tower(l, n, qs[..|qs| - 1]), n, qs[|qs| - 1])
  }

  lemma TowerOfOne(l: Body, n: nat, q: Quantifier)
    requires Popular(q)
    ensures Tower(l, n, [q]) == Quantified(l, n, q)
  {
    assert [q][..0] == [];
    assert Tower(l, n, []) == l;
  }

  lemma TowerOfTwo(l: Body, n: nat, c: Quantifier, p: Quantifier)
    requires Popular(c) && Popular(p)
    ensures Tower(l, n, [c, p]) == Quantified(Quantified(l, n, c), n, p)
  {
    hide Quantified;
    assert [c, p][..1] == [c];
    TowerOfOne(l, n, c);
  }

  /** Two towers find the same in the same order on every body that always consumes something. */
  ghost predicate SameOrder(a: seq<Quantifier>, b: seq<Quantifier>)
    requires forall q :: q in a || q in b ==> Popular(q)
  {
    forall l, n: nat, o: Out :: Advances(l, n) && o.s <= n ==> Same(Tower(l, n, a)(o), Tower(l, n, b)(o))
  }

  const OPTION := Quantifier(0, Finite(1), true)
  const LAZY_OPTION := Quantifier(0, Finite(1), false)
  const STAR := Quantifier(0, Infinite, true)
  const LAZY_STAR := Quantifier(0, Infinite, false)
  const PLUS := Quantifier(1, Infinite, true)
  const LAZY_PLUS := Quantifier(1, Infinite, false)

  /** `+?` under `*` or under `+`: the two pairs that prefer differently after the reduction. */
  predicate Reorders(c: Quantifier, p: Quantifier) {
    c == LAZY_PLUS && p.greedy && p.upper.Infinite?
  }

  /** What the nested pair amounts to. */
  function Simplified(c: Quantifier, p: Quantifier): (r: seq<Quantifier>)
    requires Popular(c) && Popular(p)
    ensures forall q :: q in r ==> Popular(q)
  {
    if c == OPTION then
      if p.upper.Finite? then [p] else if p == LAZY_PLUS then [c, p] else [Quantifier(0, Infinite, p.greedy)]
    else if c == STAR then (if p.greedy || p.lower == 1 then [STAR] else [PLUS, LAZY_OPTION])
    else if c == PLUS then (if p.lower == 1 then [PLUS] else if p.greedy then [STAR] else [PLUS, LAZY_OPTION])
    else if c == LAZY_OPTION then (if p.upper.Finite? then [LAZY_OPTION] else [LAZY_STAR])
    else if c == LAZY_STAR then [LAZY_STAR]
    else if p.lower == 1 then [LAZY_PLUS]
    else if p.greedy then [LAZY_PLUS, OPTION]
    else [LAZY_STAR]
  }

  /** `?` or `??` on one of the six. */
  lemma OptionOver(l: Body, n: nat, c: Quantifier, p: Quantifier, o: Out)
    requires Advances(l, n) && o.s <= n && Popular(c) && Popular(p) && p.upper.Finite?
    ensures Same(Tower(l, n, Simplified(c, p))(o), Picks(Quantified(l, n, c), n, p, o))
  {
    hide Star, Flat, Advances, Same, Further;
    var xs := Picks(l, n, c, o);
    TowerOfOne(l, n, Simplified(c, p)[0]);
    if |Simplified(c, p)| == 2 { TowerOfTwo(l, n, Simplified(c, p)[0], Simplified(c, p)[1]); }
    StarUnfold(l, true, n, o);
    StarUnfold(l, false, n, o);
    FurtherIs(l, true, n, o);
    FurtherIs(l, false, n, o);
    OptionAdds(xs, l(o), o);
    OptionAdds(xs, Further(l, true, n, o), o);
    OptionAdds(xs, Further(l, false, n, o), o);
  }

  /** A way out that was there before adds nothing in front or behind. */
  lemma OptionAdds(xs: seq<Out>, ys: seq<Out>, o: Out)
    ensures Same([o] + ys, [o] + (ys + [o])) && Same([o] + ys, [o] + ([o] + ys))
    ensures o in xs ==> Same(xs, xs + [o])
    ensures Same([o] + ys, [o] + ys + [o]) && Same(ys + [o], ys + [o] + [o])
    ensures Same([o] + ys, [o] + ys) && Same(ys + [o], ys + [o])
  {
    hide Same;
    SameSelf([o] + ys);
    SameSelf(ys + [o]);
    SameSelf(xs);
    SameSelf(ys);
    LastSeen([o] + ys, o);
    AssocThree([o], ys, [o]);
    SameBack([o] + ys + [o], [o] + ys);
    AssocThree([o], [o], ys);
    Seen([o], [o]);
    SameConcat([o] + [o], [o], ys, ys);
    SameBack([o] + [o] + ys, [o] + ys);
    LastSeen(ys + [o], o);
    SameBack(ys + [o] + [o], ys + [o]);
    if o in xs { LastSeen(xs, o); SameBack(xs + [o], xs); }
  }

  /** `*` or `*?` on one of the six. */
  lemma StarOver(l: Body, n: nat, c: Quantifier, p: Quantifier, o: Out)
    requires Advances(l, n) && o.s <= n && Popular(c) && Popular(p) && p.upper.Infinite? && p.lower == 0 && !Reorders(c, p)
    ensures Same(Tower(l, n, Simplified(c, p))(o), Picks(Quantified(l, n, c), n, p, o))
  {
    hide Star, Flat, Advances, Same, Further;
    TowerOfOne(l, n, Simplified(c, p)[0]);
    if |Simplified(c, p)| == 2 { TowerOfTwo(l, n, Simplified(c, p)[0], Simplified(c, p)[1]); }
    FurtherIs(l, true, n, o);
    if c.greedy && c.upper.Infinite? {
      OverClosed(l, n, c, p.greedy, o);
    } else if c.greedy && p.greedy {
      OverOption(l, n, c, o);
    } else {
      OverLazy(l, n, c, p.greedy, o);
    }
    SameBack(Star(Quantified(l, n, c), p.greedy, n, o), Tower(l, n, Simplified(c, p))(o));
  }

  /** `+` or `+?` on one of the six. */
  lemma PlusOver(l: Body, n: nat, c: Quantifier, p: Quantifier, o: Out)
    requires Advances(l, n) && o.s <= n && Popular(c) && Popular(p) && p.upper.Infinite? && p.lower == 1 && !Reorders(c, p)
    ensures Same(Tower(l, n, Simplified(c, p))(o), Picks(Quantified(l, n, c), n, p, o))
  {
    hide Star, Flat, Advances, Same, Further;
    TowerOfOne(l, n, Simplified(c, p)[0]);
    if |Simplified(c, p)| == 2 { TowerOfTwo(l, n, Simplified(c, p)[0], Simplified(c, p)[1]); }
    FurtherIs(l, false, n, o);
    var nested := Picks(Quantified(l, n, c), n, p, o);
    if c == OPTION && p == LAZY_PLUS {
      SameSelf(nested);
    } else {
      if c.greedy && c.upper.Infinite? {
        PlusOverClosed(l, n, c, p.greedy, o);
      } else if c.greedy {
        PlusOverOption(l, n, c, o);
      } else {
        PlusOverLazy(l, n, c, p.greedy, o);
      }
      SameBack(nested, Tower(l, n, Simplified(c, p))(o));
    }
  }

  /** For all pairs but two, the simplified quantifiers find what the nested pair finds, in the same
      order of preference. */
  lemma OrderKept(c: Quantifier, p: Quantifier)
    requires Popular(c) && Popular(p) && !Reorders(c, p)
    ensures SameOrder(Simplified(c, p), [c, p])
  {
    hide Advances, Same, Simplified, Picks, Reorders;
    forall l, n: nat, o: Out | Advances(l, n) && o.s <= n
      ensures Same(Tower(l, n, Simplified(c, p))(o), Tower(l, n, [c, p])(o))
    {
      TowerOfTwo(l, n, c, p);
      if p.upper.Finite? { OptionOver(l, n, c, p, o); }
      else if p.lower == 0 { StarOver(l, n, c, p, o); }
      else { PlusOver(l, n, c, p, o); }
    }
  }

  // ----- the two pairs -----

  /** A body of one byte. */
  function OneByte(n: nat): Body {
    (o: Out) => if o.s < n then [Out(o.s + 1, o.caps)] else []
  }

  lemma OneByteAdvances(n: nat)
    ensures Advances(OneByte(n), n)
  {
  }

  lemma FirstKept(a: seq<Out>, b: seq<Out>)
    requires Same(a, b) && a != []
    ensures b != [] && a[0] == b[0]
  {
    var none: set<Out> := {};
    assert Fresh(a, none)[0] == a[0];
    assert Fresh(b, none) == Fresh(a, none);
    assert Fresh(b, none)[0] == b[0];
  }

  /** The first outcome of a loop is that of its first pass. */
  lemma FirstOfStar(y: Body, n: nat, o: Out)
    requires y(o) != []
    ensures var x := y(o)[0]; Star(y, true, n, o)[0] == if o.s < x.s <= n then Star(y, true, n, x)[0] else x
  {
  }

  lemma FirstOfFlat(f: Body, xs: seq<Out>)
    requires xs != [] && f(xs[0]) != []
    ensures Flat(f, xs) != [] && Flat(f, xs)[0] == f(xs[0])[0]
  {
  }

  /** `a+?` from `o` on: one byte. */
  lemma LazyPlusFirst(n: nat, o: Out)
    requires o.s <= n
    ensures var y := Quantified(OneByte(n), n, LAZY_PLUS)(o);
            if o.s < n then y != [] && y[0] == Out(o.s + 1, o.caps) else y == []
  {
    if o.s < n { FirstOfFlat(StarOf(OneByte(n), false, n), OneByte(n)(o)); }
  }

  /** `(?:a+?)*` takes all of it. */
  lemma {:induction false} LazyPlusStarFirst(n: nat, o: Out)
    requires o.s <= n
    ensures var found := Star(Quantified(OneByte(n), n, LAZY_PLUS), true, n, o);
            found != [] && found[0] == Out(n, o.caps)
    decreases n - o.s
  {
    hide Quantified;
    var y := Quantified(OneByte(n), n, LAZY_PLUS);
    LazyPlusFirst(n, o);
    if o.s < n {
      FirstOfStar(y, n, o);
      LazyPlusStarFirst(n, Out(o.s + 1, o.caps));
    }
  }

  /** What the nested pair and what is left of it prefer on a body of one byte. */
  lemma FirstOfTwo(c: Quantifier, p: Quantifier, n: nat, o: Out)
    requires Popular(c) && Popular(p) && Reorders(c, p) && o.s < n
    ensures var nested, left := Tower(OneByte(n), n, [c, p])(o), Tower(OneByte(n), n, Simplified(c, p))(o);
            nested != [] && left != [] && nested[0] == Out(n, o.caps) && left[0] == Out(o.s + 1, o.caps)
  {
    hide Quantified, Star;
    var y := Quantified(OneByte(n), n, LAZY_PLUS);
    TowerOfTwo(OneByte(n), n, c, p);
    LazyPlusFirst(n, o);
    if p.lower == 0 {
      TowerOfTwo(OneByte(n), n, LAZY_PLUS, OPTION);
      QuantifiedIs(y, n, p, o);
      QuantifiedIs(y, n, OPTION, o);
      LazyPlusStarFirst(n, o);
    } else {
      TowerOfOne(OneByte(n), n, LAZY_PLUS);
      QuantifiedIs(y, n, p, o);
      LazyPlusStarFirst(n, y(o)[0]);
      FirstOfFlat(StarOf(y, true, n), y(o));
    }
  }

  lemma QuantifiedIs(l: Body, n: nat, q: Quantifier, o: Out)
    requires Popular(q)
    ensures Quantified(l, n, q)(o) == Picks(l, n, q, o)
    ensures q.upper.Infinite? && q.lower == 0 ==> Picks(l, n, q, o) != []
  {
    hide Flat, Passes;
    if q.upper.Infinite? && q.lower == 0 { LoopUnfold(l, q.greedy, n, o); }
  }

  /** Those two pairs prefer differently after the reduction. */
  lemma OrderChanged(c: Quantifier, p: Quantifier)
    requires Popular(c) && Popular(p) && Reorders(c, p)
    ensures !SameOrder(Simplified(c, p), [c, p])
  {
    hide Tower, Reorders, Simplified, Same;
    var o := Out(0, []);
    FirstOfTwo(c, p, 2, o);
    OneByteAdvances(2);
    if SameOrder(Simplified(c, p), [c, p]) {
      FirstKept(Tower(OneByte(2), 2, Simplified(c, p))(o), Tower(OneByte(2), 2, [c, p])(o));
    }
  }

  // ----- what the order decides -----

  /** The first outcome that what follows accepts. */
  function FirstSuch(xs: seq<Out>, accepts: Out -> bool): Option<Out> {
    if xs == [] then None else if accepts(xs[0]) then Some(xs[0]) else FirstSuch(xs[1..], accepts)
  }

  lemma {:induction false} FirstFresh(xs: seq<Out>, seen: set<Out>, accepts: Out -> bool)
    requires forall x :: x in seen ==> !accepts(x)
    ensures FirstSuch(xs, accepts) == FirstSuch(Fresh(xs, seen), accepts)
  {
    if xs != [] {
      if xs[0] in seen {
        FirstFresh(xs[1..], seen, accepts);
      } else if !accepts(xs[0]) {
        FirstFresh(xs[1..], seen + {xs[0]}, accepts);
      }
    }
  }

  /** Whatever follows, it goes on from the same outcome. */
  lemma SameChoice(a: seq<Out>, b: seq<Out>, accepts: Out -> bool)
    requires Same(a, b)
    ensures FirstSuch(a, accepts) == FirstSuch(b, accepts)
  {
    FirstFresh(a, {}, accepts);
    FirstFresh(b, {}, accepts);
    assert Fresh(a, {}) == Fresh(b, {});
  }

  // ----- trees -----

  /** What a tree finds in a text. */
  ghost function Finder(t: Node, u: Subject): Body {
    (o: Out) => Run(Whole(t), u, o.s, o.caps, ByTree)
  }

  /** A tree under a tower of quantifiers, the innermost one first. */
  function Nest(t: Node, qs: seq<Quantifier>): Node {
    if qs == [] then t
    else
      var q := qs[|qs| - 1];
      Quant(Nest(t, qs[..|qs| - 1]), q.lower, q.upper, q.greedy, false, None, None)
  }

  lemma {:induction false} LoopIsStar(t: Node, greedy: bool, u: Subject, o: Out)
    ensures Run(Repeat(t, greedy, Always), u, o.s, o.caps, ByTree) == Star(Finder(t, u), greedy, |u.text|, o)
    decreases if o.s <= |u.text| then 2 * (|u.text| - o.s) + 1 else 1, 0
  {
    hide RunTree, RunLeaf, RunAll, Iterate, Passes;
    PassesArePasses(t, greedy, u, o.s, Run(Whole(t), u, o.s, o.caps, ByTree));
  }

  lemma {:induction false} PassesArePasses(t: Node, greedy: bool, u: Subject, s: nat, xs: seq<Out>)
    ensures Iterate(t, greedy, Always, u, s, xs, ByTree) == Passes(Finder(t, u), greedy, |u.text|, s, xs)
    decreases if s <= |u.text| then 2 * (|u.text| - s) else 0, |xs|
  {
    hide Run, Star, Finder;
    if xs != [] {
      if s < xs[0].s <= |u.text| { LoopIsStar(t, greedy, u, xs[0]); }
      PassesArePasses(t, greedy, u, s, xs[1..]);
    }
  }

  lemma {:induction false} AllIsFlat(t: Node, greedy: bool, u: Subject, xs: seq<Out>)
    ensures RunAll(Repeat(t, greedy, Always), u, xs, ByTree) == Flat(StarOf(Finder(t, u), greedy, |u.text|), xs)
  {
    hide Run, Star, Finder;
    if xs != [] {
      LoopIsStar(t, greedy, u, xs[0]);
      AllIsFlat(t, greedy, u, xs[1..]);
    }
  }

  lemma {:induction false} AllOptional(t: Node, greedy: bool, u: Subject, o: Out)
    ensures Run(Optional(t, 1, greedy), u, o.s, o.caps, ByTree) ==
            if greedy then Run(Whole(t), u, o.s, o.caps, ByTree) + [o] else [o] + Run(Whole(t), u, o.s, o.caps, ByTree)
  {
    hide RunTree, RunLeaf, Iterate;
    RunAllNone(Optional(t, 0, greedy), u, Run(Whole(t), u, o.s, o.caps, ByTree), ByTree);
  }

  /** A quantifier node finds what the quantifier makes of its body. */
  lemma NodePicks(t: Node, q: Quantifier, u: Subject, o: Out)
    requires Popular(q)
    ensures Run(Whole(Nest(t, [q])), u, o.s, o.caps, ByTree) == Picks(Finder(t, u), |u.text|, q, o)
  {
    hide RunAll, Iterate, Star, Flat, RunLeaf;
    var xs := Run(Whole(t), u, o.s, o.caps, ByTree);
    assert [q][..0] == [];
    assert Nest(t, []) == t;
    CopiesAre(t, u, o);
    if q.upper.Finite? {
      AllOptional(t, q.greedy, u, o);
      OnlyOne(Optional(t, 1, q.greedy), u, o);
    } else if q.lower == 0 {
      LoopIsStar(t, q.greedy, u, o);
      OnlyOne(Repeat(t, q.greedy, Always), u, o);
    } else {
      AllIsFlat(t, q.greedy, u, xs);
    }
  }

  lemma CopiesAre(t: Node, u: Subject, o: Out)
    ensures Run(Copies(t, 0), u, o.s, o.caps, ByTree) == [o]
    ensures Run(Copies(t, 1), u, o.s, o.caps, ByTree) == Run(Whole(t), u, o.s, o.caps, ByTree)
  {
    hide RunTree, RunLeaf, Iterate;
    RunAllNone(Copies(t, 0), u, Run(Whole(t), u, o.s, o.caps, ByTree), ByTree);
  }

  lemma OnlyOne(p: Part, u: Subject, o: Out)
    ensures RunAll(p, u, [o], ByTree) == Run(p, u, o.s, o.caps, ByTree)
  {
    hide Run;
    assert [o][1..] == [];
    assert RunAll(p, u, [], ByTree) == [];
  }

  /** Bodies that find the same make quantifiers that find the same. */
  lemma {:induction false} StarAlike(l: Body, l': Body, greedy: bool, n: nat, o: Out)
    requires forall x: Out :: l(x) == l'(x)
    ensures Star(l, greedy, n, o) == Star(l', greedy, n, o)
    decreases if o.s <= n then n - o.s else 0
  {
    hide Flat;
    LoopUnfold(l, greedy, n, o);
    LoopUnfold(l', greedy, n, o);
    var f, g := PassOf(l, greedy, n, o.s), PassOf(l', greedy, n, o.s);
    forall x | x in l(o) ensures f(x) == g(x) {
      if o.s < x.s <= n { StarAlike(l, l', greedy, n, x); }
    }
    FlatEqual(f, g, l(o));
  }

  lemma PicksAlike(l: Body, l': Body, n: nat, q: Quantifier, o: Out)
    requires Popular(q) && forall x: Out :: l(x) == l'(x)
    ensures Picks(l, n, q, o) == Picks(l', n, q, o)
  {
    hide Star, Flat;
    StarAlike(l, l', q.greedy, n, o);
    var f, g := StarOf(l, q.greedy, n), StarOf(l', q.greedy, n);
    forall x | x in l(o) ensures f(x) == g(x) { StarAlike(l, l', q.greedy, n, x); }
    FlatEqual(f, g, l(o));
  }

  lemma {:induction false} NestFinds(t: Node, qs: seq<Quantifier>, u: Subject, o: Out)
    requires forall q :: q in qs ==> Popular(q)
    ensures Run(Whole(Nest(t, qs)), u, o.s, o.caps, ByTree) == Tower(Finder(t, u), |u.text|, qs)(o)
    decreases |qs|
  {
    hide Run, Star, Flat, Picks;
    if qs != [] {
      var below, q := qs[..|qs| - 1], qs[|qs| - 1];
      NodePicks(Nest(t, below), q, u, o);
      assert [q][..0] == [];
      assert Nest(Nest(t, below), [q]) == Nest(t, qs);
      forall x: Out ensures Finder(Nest(t, below), u)(x) == Tower(Finder(t, u), |u.text|, below)(x) {
        NestFinds(t, below, u, x);
      }
      PicksAlike(Finder(Nest(t, below), u), Tower(Finder(t, u), |u.text|, below), |u.text|, q, o);
    }
  }

  /** On every body that always consumes something, towers of the same order make trees with the same
      outcomes in the same order of preference. */
  lemma TreesInOrder(t: Node, a: seq<Quantifier>, b: seq<Quantifier>, u: Subject, s: nat, caps: Caps)
    requires forall q :: q in a || q in b ==> Popular(q)
    requires SameOrder(a, b) && LeastLength(t) > 0 && s <= |u.text|
    ensures Same(Run(Whole(Nest(t, a)), u, s, caps, ByTree), Run(Whole(Nest(t, b)), u, s, caps, ByTree))
  {
    hide Run, Tower, Same, Nest;
    NestFinds(t, a, u, Out(s, caps));
    NestFinds(t, b, u, Out(s, caps));
    Consumes(t, u);
  }

  /** `(?:.+?)*` and `(?:.+?)+` take the whole text where `.` matches every byte; what is left of them
      after the reduction takes one byte. */
  lemma ReorderedEnds(c: Quantifier, p: Quantifier, u: Subject, s: nat, caps: Caps)
    requires Popular(c) && Popular(p) && Reorders(c, p) && u.multiline && s < |u.text|
    ensures var nested := Run(Whole(Nest(AnyChar, [c, p])), u, s, caps, ByTree);
            nested != [] && nested[0] == Out(|u.text|, caps)
    ensures var left := Run(Whole(Nest(AnyChar, Simplified(c, p))), u, s, caps, ByTree);
            left != [] && left[0] == Out(s + 1, caps)
  {
    hide Run, Nest, Tower, Simplified, Reorders;
    var o, n := Out(s, caps), |u.text|;
    forall x: Out ensures Finder(AnyChar, u)(x) == OneByte(n)(x) { DotIsOneByte(u, x); }
    NestFinds(AnyChar, [c, p], u, o);
    NestFinds(AnyChar, Simplified(c, p), u, o);
    TowerAlike(Finder(AnyChar, u), OneByte(n), n, [c, p], o);
    TowerAlike(Finder(AnyChar, u), OneByte(n), n, Simplified(c, p), o);
    FirstOfTwo(c, p, n, o);
  }

  lemma DotIsOneByte(u: Subject, o: Out)
    requires u.multiline
    ensures Finder(AnyChar, u)(o) == OneByte(|u.text|)(o)
  {
  }

  lemma {:induction false} TowerAlike(l: Body, l': Body, n: nat, qs: seq<Quantifier>, o: Out)
    requires (forall q :: q in qs ==> Popular(q)) && forall x: Out :: l(x) == l'(x)
    ensures Tower(l, n, qs)(o) == Tower(l', n, qs)(o)
    decreases |qs|
  {
    hide Picks;
    if qs != [] {
      var below := qs[..|qs| - 1];
      forall x: Out ensures Tower(l, n, below)(x) == Tower(l', n, below)(x) { TowerAlike(l, l', n, below, x); }
      PicksAlike(Tower(l, n, below), Tower(l', n, below), n, qs[|qs| - 1], o);
    }
  }

  lemma Consumes(t: Node, u: Subject)
    requires LeastLength(t) > 0
    ensures Advances(Finder(t, u), |u.text|)
  {
    hide Run, Groups;
    forall o: Out, k: nat | o.s <= |u.text| && k < |Finder(t, u)(o)| ensures o.s < Finder(t, u)(o)[k].s <= |u.text| {
      RunLeast(Whole(t), u, o.s, o.caps, ByTree);
      assert OutOk(Run(Whole(t), u, o.s, o.caps, ByTree)[k], u, o.s + LeastLength(t), o.caps, Groups(t));
    }
  }
}
