/** Trees, and readings of trees, that have the same outcomes: what agrees below a node agrees at
    the node. */
module RegAgree {
  import opened RegTree
  import opened RegRef
  import opened RegFacts

  /** The two trees, read in these two ways, have the same outcomes everywhere in the text. */
  ghost predicate SameRuns(a: Node, how: Reading, b: Node, how': Reading, u: Subject) {
    forall s: nat, caps :: s <= |u.text| ==> Run(Whole(a), u, s, caps, how) == Run(Whole(b), u, s, caps, how')
  }

  lemma SameAt(a: Node, how: Reading, b: Node, how': Reading, u: Subject, s: nat, caps: Caps)
    requires SameRuns(a, how, b, how', u) && s <= |u.text|
    ensures Run(Whole(a), u, s, caps, how) == Run(Whole(b), u, s, caps, how')
  {
  }

  ghost predicate Inside(outs: seq<Out>, u: Subject, s: nat) {
    forall k :: 0 <= k < |outs| ==> s <= outs[k].s <= |u.text|
  }

  lemma RunInside(p: Part, u: Subject, s: nat, caps: Caps, how: Reading)
    requires s <= |u.text|
    ensures Inside(Run(p, u, s, caps, how), u, s)
  {
    hide Run, Groups;
    RunLeast(p, u, s, caps, how);
    var outs := Run(p, u, s, caps, how);
    forall k | 0 <= k < |outs| ensures s <= outs[k].s <= |u.text| {
      assert OutOk(outs[k], u, s + PartLeast(p), caps, Groups(PartNode(p)));
    }
  }

  lemma InsideTail(outs: seq<Out>, u: Subject, s: nat)
    requires outs != [] && Inside(outs, u, s)
    ensures s <= outs[0].s <= |u.text| && Inside(outs[1..], u, s)
  {
    forall k | 0 <= k < |outs[1..]| ensures s <= outs[1..][k].s <= |u.text| {
      assert outs[1..][k] == outs[k + 1];
    }
  }

  /** The same part of another tree. */
  function On(p: Part, t: Node): Part {
    match p
    case Whole(_) => Whole(t)
    case Copies(_, k) => Copies(t, k)
    case Optional(_, k, greedy) => Optional(t, k, greedy)
    case Repeat(_, greedy, g) => Repeat(t, greedy, g)
    case DotStar(_, next) => DotStar(t, next)
  }

  /** A part agrees with the same part of a tree with the same outcomes. */
  lemma {:induction false} PartAgrees(p: Part, how: Reading, b: Node, how': Reading, u: Subject, s: nat, caps: Caps)
    requires SameRuns(PartNode(p), how, b, how', u) && s <= |u.text|
    ensures Run(p, u, s, caps, how) == Run(On(p, b), u, s, caps, how')
    decreases PartCount(p), if p.Repeat? then 2 * (|u.text| - s) + 1 else 1, 0
  {
    hide RunTree, RunLeaf, RunAll, Iterate, SameRuns, Inside;
    SameAt(PartNode(p), how, b, how', u, s, caps);
    RunInside(Whole(PartNode(p)), u, s, caps, how);
    match p
    case Copies(t, k) => if k > 0 { AllAgree(Copies(t, k - 1), how, b, how', u, s, Run(Whole(t), u, s, caps, how)); }
    case Optional(t, k, greedy) =>
      if k > 0 { AllAgree(Optional(t, k - 1, greedy), how, b, how', u, s, Run(Whole(t), u, s, caps, how)); }
    case Repeat(t, greedy, g) => PassesAgree(t, greedy, g, how, b, how', u, s, Run(Whole(t), u, s, caps, how));
    case _ =>
  }

  lemma {:induction false} AllAgree(p: Part, how: Reading, b: Node, how': Reading, u: Subject, s: nat, outs: seq<Out>)
    requires SameRuns(PartNode(p), how, b, how', u) && Inside(outs, u, s)
    ensures RunAll(p, u, outs, how) == RunAll(On(p, b), u, outs, how')
    decreases PartCount(p), if p.Repeat? then 2 * |u.text| + 2 else 2, |outs|
  {
    hide Run, SameRuns, Inside;
    if outs != [] {
      InsideTail(outs, u, s);
      PartAgrees(p, how, b, how', u, outs[0].s, outs[0].caps);
      AllAgree(p, how, b, how', u, s, outs[1..]);
    }
  }

  /** Where one pass through the loop body leads. */
  function Onward(t: Node, greedy: bool, g: Guard, u: Subject, s0: nat, o: Out, how: Reading): seq<Out> {
    if s0 < o.s <= |u.text| then Run(Repeat(t, greedy, g), u, o.s, o.caps, how) else [o]
  }

  lemma PassFirst(t: Node, greedy: bool, g: Guard, u: Subject, s0: nat, outs: seq<Out>, how: Reading)
    requires outs != []
    ensures Iterate(t, greedy, g, u, s0, outs, how) ==
            Onward(t, greedy, g, u, s0, outs[0], how) + Iterate(t, greedy, g, u, s0, outs[1..], how)
  {
    hide Run;
  }

  /** The passes of a loop that began at `s0`. */
  lemma {:induction false} PassesAgree(t: Node, greedy: bool, g: Guard, how: Reading, b: Node, how': Reading, u: Subject,
                                       s0: nat, outs: seq<Out>)
    requires SameRuns(t, how, b, how', u) && s0 <= |u.text|
    ensures Iterate(t, greedy, g, u, s0, outs, how) == Iterate(b, greedy, g, u, s0, outs, how')
    decreases 0, 2 * (|u.text| - s0), |outs|
  {
    hide Run, Iterate, SameRuns;
    if outs == [] {
      NoPass(t, greedy, g, u, s0, how);
      NoPass(b, greedy, g, u, s0, how');
    } else {
      var o := outs[0];
      PassFirst(t, greedy, g, u, s0, outs, how);
      PassFirst(b, greedy, g, u, s0, outs, how');
      if s0 < o.s <= |u.text| { PartAgrees(Repeat(t, greedy, g), how, b, how', u, o.s, o.caps); }
      PassesAgree(t, greedy, g, how, b, how', u, s0, outs[1..]);
    }
  }

  lemma NoPass(t: Node, greedy: bool, g: Guard, u: Subject, s0: nat, how: Reading)
    ensures Iterate(t, greedy, g, u, s0, [], how) == []
  {
  }

  /** No copies at all change nothing. */
  lemma {:induction false} RunAllNone(p: Part, u: Subject, outs: seq<Out>, how: Reading)
    requires (p.Copies? || p.Optional?) && p.k == 0
    ensures RunAll(p, u, outs, how) == outs
  {
    hide RunTree, RunLeaf, Iterate;
    if outs != [] {
      RunAllNone(p, u, outs[1..], how);
      assert outs == [outs[0]] + outs[1..];
    }
  }

  /** The nodes are of one kind, and their subtrees have the same outcomes. */
  ghost predicate SameChildren(a: Node, how: Reading, b: Node, how': Reading, u: Subject) {
    match a
    case List(l, r) => b.List? && SameRuns(l, how, b.left, how', u) && SameRuns(r, how, b.right, how', u)
    case Alt(l, r) =>
      b.Alt? && SameRuns(l, how, b.left, how', u) && SameRuns(r, how, b.right, how', u) && (r.Null? <==> b.right.Null?)
    case Group(k, t) => b.Group? && b.num == k && SameRuns(t, how, b.target, how', u)
    case PrecRead(t) => b.PrecRead? && SameRuns(t, how, b.target, how', u)
    case PrecReadNot(t) => b.PrecReadNot? && SameRuns(t, how, b.target, how', u)
    case StopBacktrack(t) => b.StopBacktrack? && SameRuns(t, how, b.target, how', u)
    case _ => false
  }

  lemma TreeAgrees(a: Node, how: Reading, b: Node, how': Reading, u: Subject)
    requires SameChildren(a, how, b, how', u)
    ensures SameRuns(a, how, b, how', u)
  {
    hide SameChildren, SameRuns;
    forall s: nat, caps | s <= |u.text| ensures Run(Whole(a), u, s, caps, how) == Run(Whole(b), u, s, caps, how') {
      NodeAgrees(a, how, b, how', u, s, caps);
    }
    SameEverywhere(a, how, b, how', u);
  }

  lemma ListAgrees(l: Node, r: Node, how: Reading, l': Node, r': Node, how': Reading, u: Subject)
    requires SameRuns(l, how, l', how', u) && SameRuns(r, how, r', how', u)
    ensures SameRuns(List(l, r), how, List(l', r'), how', u)
  {
    hide SameRuns;
    TreeAgrees(List(l, r), how, List(l', r'), how', u);
  }

  lemma SameEverywhere(a: Node, how: Reading, b: Node, how': Reading, u: Subject)
    requires forall s: nat, caps :: s <= |u.text| ==> Run(Whole(a), u, s, caps, how) == Run(Whole(b), u, s, caps, how')
    ensures SameRuns(a, how, b, how', u)
  {
  }

  lemma NodeAgrees(a: Node, how: Reading, b: Node, how': Reading, u: Subject, s: nat, caps: Caps)
    requires SameChildren(a, how, b, how', u) && s <= |u.text|
    ensures Run(Whole(a), u, s, caps, how) == Run(Whole(b), u, s, caps, how')
  {
    hide Run, RunAll, SameRuns, Inside;
    KindOf(a, how, b, how', u, s, caps);
    if a.List? {
      SameAt(a.left, how, b.left, how', u, s, caps);
      RunInside(Whole(a.left), u, s, caps, how);
      AllAgree(Whole(a.right), how, b.right, how', u, s, Run(Whole(a.left), u, s, caps, how));
    } else if a.Alt? {
      SameAt(a.left, how, b.left, how', u, s, caps);
      SameAt(a.right, how, b.right, how', u, s, caps);
    } else {
      SameAt(a.target, how, b.target, how', u, s, if a.Group? then OpenGroup(caps, a.num, s) else caps);
    }
  }

  lemma KindOf(a: Node, how: Reading, b: Node, how': Reading, u: Subject, s: nat, caps: Caps)
    requires SameChildren(a, how, b, how', u)
    ensures !IsLeaf(a) && !IsLeaf(b)
    ensures Run(Whole(a), u, s, caps, how) == RunTree(a, u, s, caps, how)
    ensures Run(Whole(b), u, s, caps, how') == RunTree(b, u, s, caps, how')
  {
    hide RunTree, RunAll;
  }

  /** The copies and the bounded rest of a quantifier. */
  lemma BoundedAgrees(q: Node, how: Reading, q': Node, how': Reading, u: Subject, s: nat, caps: Caps)
    requires q.Quant? && q'.Quant? && q.lower == q'.lower && q.upper == q'.upper && q.greedy == q'.greedy
    requires q.upper.Finite? && SameRuns(q.target, how, q'.target, how', u) && s <= |u.text|
    ensures RunTree(q, u, s, caps, how) == RunTree(q', u, s, caps, how')
  {
    hide Run, RunAll, SameRuns, Inside, Iterate, Layout, GuardIn;
    var copies := Copies(q.target, q.lower);
    PartAgrees(copies, how, q'.target, how', u, s, caps);
    RunInside(copies, u, s, caps, how);
    AllAgree(Optional(q.target, Spare(q.lower, q.upper.n), q.greedy), how, q'.target, how', u, s, Run(copies, u, s, caps, how));
  }

  /** The copies and the loop of a quantifier that is not entered in its middle. */
  lemma UnboundedAgrees(q: Node, how: Reading, q': Node, how': Reading, u: Subject, s: nat, caps: Caps)
    requires q.Quant? && q'.Quant? && q.lower == q'.lower && q.upper == q'.upper && q.greedy == q'.greedy
    requires q.upper.Infinite? && SameRuns(q.target, how, q'.target, how', u) && s <= |u.text|
    requires !how.ByCode? && !how'.ByCode? && !JumpsIn(q, how) && !JumpsIn(q', how')
    ensures RunTree(q, u, s, caps, how) == RunTree(q', u, s, caps, how')
  {
    hide Run, RunAll, SameRuns, Inside, Iterate, Layout;
    var copies := Copies(q.target, q.lower);
    PartAgrees(copies, how, q'.target, how', u, s, caps);
    RunInside(copies, u, s, caps, how);
    AllAgree(Repeat(q.target, q.greedy, Always), how, q'.target, how', u, s, Run(copies, u, s, caps, how));
  }
}
