/** The operations that look one byte ahead (OP_PUSH_OR_JUMP_EXACT1, OP_PUSH_IF_PEEK_NEXT and
    OP_ANYCHAR_STAR_PEEK_NEXT) never change what a pattern matches. */
module RegPeek {
  import opened RegInt
  import opened RegTree
  import opened Wrappers
  import opened RegRef
  import opened RegAgree
  import opened RegSetup

  /** The outcomes in front of the byte `c`. */
  function Before(outs: seq<Out>, u: Subject, c: Byte): seq<Out> {
    if outs == [] then []
    else (if IsNext(u, outs[0].s, c) then [outs[0]] else []) + Before(outs[1..], u, c)
  }

  /** The same outcomes in the same order; where the byte behind them is known, as far as they
      stand in front of it. */
  ghost predicate Same(plain: seq<Out>, fast: seq<Out>, u: Subject, next: Option<Byte>) {
    match next
    case None => plain == fast
    case Some(c) => Before(plain, u, c) == Before(fast, u, c)
  }

  lemma {:induction false} BeforeConcat(a: seq<Out>, b: seq<Out>, u: Subject, c: Byte)
    ensures Before(a + b, u, c) == Before(a, u, c) + Before(b, u, c)
  {
    if a == [] {
      assert a + b == b;
    } else {
      assert (a + b)[1..] == a[1..] + b;
      BeforeConcat(a[1..], b, u, c);
    }
  }

  lemma SameConcat(a: seq<Out>, b: seq<Out>, a': seq<Out>, b': seq<Out>, u: Subject, next: Option<Byte>)
    requires Same(a, a', u, next) && Same(b, b', u, next)
    ensures Same(a + b, a' + b', u, next)
  {
    hide Before;
    if next.Some? {
      BeforeConcat(a, b, u, next.value);
      BeforeConcat(a', b', u, next.value);
    }
  }

  /** A part that matches only in front of `c` does not care about outcomes elsewhere. */
  lemma {:induction false} RunAllBefore(n: Node, u: Subject, c: Byte, outs: seq<Out>, how: Reading)
    requires Honest(n) && HeadExact(n) == Some(c)
    ensures RunAll(Whole(n), u, Before(outs, u, c), how) == RunAll(Whole(n), u, outs, how)
  {
    hide Run, Honest, HeadExact;
    if outs != [] {
      RunAllBefore(n, u, c, outs[1..], how);
      var o := outs[0];
      var first := Run(Whole(n), u, o.s, o.caps, how);
      if IsNext(u, o.s, c) {
        assert Before(outs, u, c)[1..] == Before(outs[1..], u, c);
      } else {
        if first != [] {
          HeadsTrue(n, u, o.s, o.caps, how);
        }
        assert Before(outs, u, c) == Before(outs[1..], u, c);
        assert first + RunAll(Whole(n), u, outs[1..], how) == RunAll(Whole(n), u, outs[1..], how);
      }
    }
  }

  /** The body of a quantifier has the same outcomes in both readings. */
  ghost predicate BodySame(t: Node, u: Subject) {
    SameRuns(t, ByLayout, t, ByCode, u)
  }

  /** The byte a guard relies on to come after the loop. */
  function Relies(g: Guard): Option<Byte> {
    if g.NextIs? then Some(g.c) else None
  }

  ghost predicate GuardTrue(t: Node, g: Guard) {
    g.HeadIs? ==> Honest(t) && HeadExact(t) == Some(g.c)
  }

  function Left(u: Subject, s: nat): nat {
    if s <= |u.text| then 2 * (|u.text| - s) + 1 else 1
  }

  /** A guarded loop against the plain one. */
  lemma {:induction false} RepeatSame(t: Node, greedy: bool, g: Guard, u: Subject, s: nat, caps: Caps)
    requires BodySame(t, u) && GuardTrue(t, g) && s <= |u.text|
    ensures Same(Run(Repeat(t, greedy, Always), u, s, caps, ByLayout), Run(Repeat(t, greedy, g), u, s, caps, ByCode), u, Relies(g))
    decreases Left(u, s), 0
  {
    hide RunTree, RunLeaf, Iterate, Same, Honest, HeadExact, SameRuns;
    var body := Run(Whole(t), u, s, caps, ByCode);
    SameAt(t, ByLayout, t, ByCode, u, s, caps);
    IterateSame(t, greedy, g, u, s, body);
    var more := Iterate(t, greedy, Always, u, s, body, ByLayout);
    var more' := Iterate(t, greedy, g, u, s, body, ByCode);
    if greedy {
      EnterSame(t, g, u, s, caps, more, more');
      LeaveSame(g, u, s, caps);
      SameConcat(more, [Out(s, caps)], if MayEnter(g, u, s) then more' else [], When(MayLeave(g, u, s), Out(s, caps)), u, Relies(g));
    } else {
      SameSelf([Out(s, caps)], u, Relies(g));
      SameConcat([Out(s, caps)], more, [Out(s, caps)], more', u, Relies(g));
    }
  }

  lemma SameSelf(outs: seq<Out>, u: Subject, next: Option<Byte>)
    ensures Same(outs, outs, u, next)
  {
  }

  lemma EnterSame(t: Node, g: Guard, u: Subject, s: nat, caps: Caps, more: seq<Out>, more': seq<Out>)
    requires GuardTrue(t, g) && Same(more, more', u, Relies(g))
    requires Run(Whole(t), u, s, caps, ByCode) == [] ==> more == []
    ensures Same(more, if MayEnter(g, u, s) then more' else [], u, Relies(g))
  {
    hide Run, Before, Honest, HeadExact;
    if !MayEnter(g, u, s) && Run(Whole(t), u, s, caps, ByCode) != [] {
      HeadsTrue(t, u, s, caps, ByCode);
    }
  }

  lemma LeaveSame(g: Guard, u: Subject, s: nat, caps: Caps)
    ensures Same([Out(s, caps)], When(MayLeave(g, u, s), Out(s, caps)), u, Relies(g))
  {
  }

  lemma {:induction false} IterateSame(t: Node, greedy: bool, g: Guard, u: Subject, s0: nat, outs: seq<Out>)
    requires BodySame(t, u) && GuardTrue(t, g)
    ensures Same(Iterate(t, greedy, Always, u, s0, outs, ByLayout), Iterate(t, greedy, g, u, s0, outs, ByCode), u, Relies(g))
    ensures outs == [] ==> Iterate(t, greedy, Always, u, s0, outs, ByLayout) == []
    decreases if s0 <= |u.text| then 2 * (|u.text| - s0) else 0, 1 + |outs|
  {
    hide Run, Same, BodySame, Honest, HeadExact;
    if outs == [] {
      SameSelf([], u, Relies(g));
    } else {
      var o := outs[0];
      IterateSame(t, greedy, g, u, s0, outs[1..]);
      if s0 < o.s <= |u.text| {
        RepeatSame(t, greedy, g, u, o.s, o.caps);
        SameConcat(Run(Repeat(t, greedy, Always), u, o.s, o.caps, ByLayout), Iterate(t, greedy, Always, u, s0, outs[1..], ByLayout),
                   Run(Repeat(t, greedy, g), u, o.s, o.caps, ByCode), Iterate(t, greedy, g, u, s0, outs[1..], ByCode), u, Relies(g));
      } else {
        SameSelf([o], u, Relies(g));
        SameConcat([o], Iterate(t, greedy, Always, u, s0, outs[1..], ByLayout),
                   [o], Iterate(t, greedy, g, u, s0, outs[1..], ByCode), u, Relies(g));
      }
    }
  }

  /** OP_ANYCHAR_STAR and OP_ANYCHAR_STAR_PEEK_NEXT against the plain loop over `.`. */
  lemma {:induction false} DotStarSame(next: Option<Byte>, u: Subject, s: nat, caps: Caps)
    ensures Same(Run(Repeat(Node.AnyChar, true, Always), u, s, caps, ByLayout), RunDotStar(next, u, s, caps), u, next)
    decreases |u.text| - s
  {
    hide Same, RunTree;
    var o := Out(s, caps);
    var body := Run(Whole(Node.AnyChar), u, s, caps, ByLayout);
    assert body == When(DotAt(u, s), Out(s + 1, caps));
    var more := Iterate(Node.AnyChar, true, Always, u, s, body, ByLayout);
    assert Run(Repeat(Node.AnyChar, true, Always), u, s, caps, ByLayout) == more + [o];
    if s >= |u.text| {
      assert more == [];
      assert more + [o] == [o];
      SameSelf([o], u, next);
    } else {
      var rest := if DotAt(u, s) then Run(Repeat(Node.AnyChar, true, Always), u, s + 1, caps, ByLayout) else [];
      var rest' := if DotAt(u, s) then RunDotStar(next, u, s + 1, caps) else [];
      DotStarMore(u, s, caps);
      if DotAt(u, s) {
        DotStarSame(next, u, s + 1, caps);
      } else {
        SameSelf([], u, next);
      }
      PeekSame(next, u, s, caps);
      SameConcat(rest, [o], rest', When(next.None? || next.value == u.text[s], o), u, next);
    }
  }

  lemma DotStarMore(u: Subject, s: nat, caps: Caps)
    requires s < |u.text|
    ensures Iterate(Node.AnyChar, true, Always, u, s, When(DotAt(u, s), Out(s + 1, caps)), ByLayout)
         == if DotAt(u, s) then Run(Repeat(Node.AnyChar, true, Always), u, s + 1, caps, ByLayout) else []
  {
    hide Run;
    if DotAt(u, s) {
      var outs := [Out(s + 1, caps)];
      assert outs[1..] == [];
      assert Iterate(Node.AnyChar, true, Always, u, s, outs[1..], ByLayout) == [];
      var first := Run(Repeat(Node.AnyChar, true, Always), u, s + 1, caps, ByLayout);
      assert Iterate(Node.AnyChar, true, Always, u, s, outs, ByLayout) == first + [];
      assert first + [] == first;
    }
  }

  lemma PeekSame(next: Option<Byte>, u: Subject, s: nat, caps: Caps)
    requires s < |u.text|
    ensures Same([Out(s, caps)], When(next.None? || next.value == u.text[s], Out(s, caps)), u, next)
  {
  }

  /** One part against another after the same outcomes. */
  lemma {:induction false} AllSame(p: Part, p': Part, u: Subject, s0: nat, outs: seq<Out>, next: Option<Byte>)
    requires forall s: nat, caps :: s <= |u.text| ==> Same(Run(p, u, s, caps, ByLayout), Run(p', u, s, caps, ByCode), u, next)
    requires Inside(outs, u, s0)
    ensures Same(RunAll(p, u, outs, ByLayout), RunAll(p', u, outs, ByCode), u, next)
  {
    hide Run, Same, Inside;
    if outs == [] {
      SameSelf([], u, next);
    } else {
      var o := outs[0];
      InsideTail(outs, u, s0);
      AllSame(p, p', u, s0, outs[1..], next);
      SameConcat(Run(p, u, o.s, o.caps, ByLayout), RunAll(p, u, outs[1..], ByLayout),
                 Run(p', u, o.s, o.caps, ByCode), RunAll(p', u, outs[1..], ByCode), u, next);
    }
  }

  lemma SameWeaker(plain: seq<Out>, fast: seq<Out>, u: Subject, next: Option<Byte>)
    requires plain == fast
    ensures Same(plain, fast, u, next)
  {
  }

  /** The loop of an unbounded quantifier, guarded as it is compiled and plain. */
  lemma LoopSame(q: Node, u: Subject, s: nat, caps: Caps)
    requires q.Quant? && q.upper.Infinite? && Honest(q) && BodySame(q.target, u) && s <= |u.text|
    ensures Same(RunTree(q, u, s, caps, ByLayout), RunTree(q, u, s, caps, ByCode), u, NextOf(q))
  {
    hide Run, RunAll, Iterate, Layout, Same, HeadExact, GuardOf, NextOf, SameRuns, Inside;
    var t := q.target;
    var g := GuardIn(q, ByCode);
    GuardHonest(q, g);
    if Layout(q) == Loop(true) {
      SameAt(t, ByLayout, t, ByCode, u, s, caps);
      IterateSame(t, q.greedy, g, u, s, Run(Whole(t), u, s, caps, ByCode));
    } else {
      var copies := Copies(t, q.lower);
      PartAgrees(copies, ByLayout, t, ByCode, u, s, caps);
      RunInside(copies, u, s, caps, ByLayout);
      var outs := Run(copies, u, s, caps, ByLayout);
      if Layout(q).Dots? {
        DotsTarget(q);
        forall s': nat, caps' ensures Same(Run(Repeat(t, true, Always), u, s', caps', ByLayout), Run(DotStar(t, q.nextHeadExact), u, s', caps', ByCode), u, NextOf(q)) {
          DotStarSame(q.nextHeadExact, u, s', caps');
          DotStarRun(t, q.nextHeadExact, u, s', caps', ByCode);
        }
        AllSame(Repeat(t, true, Always), DotStar(t, q.nextHeadExact), u, s, outs, NextOf(q));
        return;
      }
      forall s': nat, caps' | s' <= |u.text|
        ensures Same(Run(Repeat(t, q.greedy, Always), u, s', caps', ByLayout), Run(Repeat(t, q.greedy, g), u, s', caps', ByCode), u, Relies(g))
      {
        RepeatSame(t, q.greedy, g, u, s', caps');
      }
      AllSame(Repeat(t, q.greedy, Always), Repeat(t, q.greedy, g), u, s, outs, Relies(g));
    }
    SameRelies(q, g, RunTree(q, u, s, caps, ByLayout), RunTree(q, u, s, caps, ByCode), u);
  }

  lemma DotsTarget(q: Node)
    requires q.Quant? && Layout(q).Dots?
    ensures q.target == Node.AnyChar && q.greedy && NextOf(q) == q.nextHeadExact
  {
  }

  lemma DotStarRun(t: Node, next: Option<Byte>, u: Subject, s: nat, caps: Caps, how: Reading)
    ensures Run(DotStar(t, next), u, s, caps, how) == RunDotStar(next, u, s, caps)
  {
  }

  lemma GuardHonest(q: Node, g: Guard)
    requires q.Quant? && Honest(q) && (g == Always || g == GuardOf(q))
    ensures GuardTrue(q.target, g) && (Relies(g).None? || Relies(g) == NextOf(q))
  {
    hide HeadExact;
  }

  lemma SameRelies(q: Node, g: Guard, plain: seq<Out>, fast: seq<Out>, u: Subject)
    requires Relies(g).None? || Relies(g) == NextOf(q)
    requires Same(plain, fast, u, Relies(g))
    ensures Same(plain, fast, u, NextOf(q))
  {
  }

  lemma ListSame(n: Node, u: Subject, s: nat, caps: Caps)
    requires n.List? && Honest(n) && s <= |u.text|
    requires Same(Run(Whole(n.left), u, s, caps, ByLayout), Run(Whole(n.left), u, s, caps, ByCode), u, NextOf(n.left))
    requires BodySame(n.right, u)
    ensures RunTree(n, u, s, caps, ByLayout) == RunTree(n, u, s, caps, ByCode)
  {
    hide Run, RunAll, SameRuns, NextOf, Before, Inside;
    var l, r := n.left, n.right;
    var outs, outs' := Run(Whole(l), u, s, caps, ByLayout), Run(Whole(l), u, s, caps, ByCode);
    if NextOf(l).Some? {
      var c := NextOf(l).value;
      RunAllBefore(r, u, c, outs, ByLayout);
      RunAllBefore(r, u, c, outs', ByLayout);
    }
    RunInside(Whole(l), u, s, caps, ByCode);
    AllAgree(Whole(r), ByLayout, r, ByCode, u, s, outs');
  }

  /** With true notes, the fast operations give the plain outcomes in the plain order, except
      that a loop may already drop those outcomes that what follows it must reject. */
  lemma {:induction false} FastSame(n: Node, u: Subject, s: nat, caps: Caps)
    requires Honest(n) && s <= |u.text|
    ensures Same(Run(Whole(n), u, s, caps, ByLayout), Run(Whole(n), u, s, caps, ByCode), u, NextOf(n))
    decreases n, 1
  {
    hide RunAll, Iterate, Layout, GuardOf, Same, HeadExact, NextOf, SameRuns;
    if IsLeaf(n) {
      SameSelf(RunLeaf(n, u, s, caps), u, NextOf(n));
    } else if n.List? {
      FastSame(n.left, u, s, caps);
      FastBody(n.right, u);
      ListSame(n, u, s, caps);
      SameWeaker(RunTree(n, u, s, caps, ByLayout), RunTree(n, u, s, caps, ByCode), u, NextOf(n));
    } else if n.Quant? {
      FastBody(n.target, u);
      if n.upper.Finite? {
        BoundedAgrees(n, ByLayout, n, ByCode, u, s, caps);
        SameWeaker(RunTree(n, u, s, caps, ByLayout), RunTree(n, u, s, caps, ByCode), u, NextOf(n));
      } else {
        LoopSame(n, u, s, caps);
      }
    } else {
      FastOne(n, u);
      SameAt(n, ByLayout, n, ByCode, u, s, caps);
      SameWeaker(Run(Whole(n), u, s, caps, ByLayout), Run(Whole(n), u, s, caps, ByCode), u, NextOf(n));
    }
  }

  lemma {:induction false} FastOne(n: Node, u: Subject)
    requires Honest(n) && !IsLeaf(n) && !n.List? && !n.Quant?
    ensures BodySame(n, u)
    decreases n, 0
  {
    hide Run, HeadExact, NextOf, SameRuns;
    match n {
      case Alt(l, r) => FastBody(l, u); FastBody(r, u);
      case Group(_, t) => FastBody(t, u);
      case PrecRead(t) => FastBody(t, u);
      case PrecReadNot(t) => FastBody(t, u);
      case StopBacktrack(t) => FastBody(t, u);
    }
    TreeAgrees(n, ByLayout, n, ByCode, u);
  }

  lemma {:induction false} FastBody(t: Node, u: Subject)
    requires Honest(t) && NextOf(t).None?
    ensures BodySame(t, u)
    decreases t, 2
  {
    hide Run, Honest;
    forall s: nat, caps | s <= |u.text| ensures Run(Whole(t), u, s, caps, ByLayout) == Run(Whole(t), u, s, caps, ByCode) {
      FastSame(t, u, s, caps);
    }
  }

  lemma HonestSame(n: Node, u: Subject, s: nat, maxMem: nat)
    requires Honest(n) && NextOf(n).None? && s <= |u.text|
    ensures Outcomes(n, u, s, maxMem, ByCode) == Outcomes(n, u, s, maxMem, ByLayout)
  {
    hide Run, Honest;
    FastSame(n, u, s, seq(maxMem + 1, _ => NotMatched));
  }

  /** Looking ahead changes nothing: on the tree setup_tree makes, the operations that look ahead give
      the same outcomes, in the same order and with the same captures, as plain loops do. */
  lemma FastIsPlain(n: Node, u: Subject, s: nat, maxMem: nat)
    requires Parsed(n, maxMem) && s <= |u.text|
    ensures Outcomes(Setup(n), u, s, maxMem, ByCode) == Outcomes(Setup(n), u, s, maxMem, ByLayout)
  {
    hide Run, Honest, NextOf;
    SetupHonest(n, maxMem);
    SetupKeeps(n, maxMem);
    HonestSame(Setup(n), u, s, maxMem);
  }
}
