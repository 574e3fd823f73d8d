/** The tree alone against the tree as it is laid out. setup_tree changes no outcome. A loop that is
    entered in its middle does, exactly where a pass that consumed nothing leaves the body
    something more to match: the null check then ends the loop too early. */
module RegReading {
  import opened RegInt
  import opened RegTree
  import opened RegRef
  import opened RegFacts
  import opened RegAgree
  import opened RegSetup
  import opened RegLanguage

  // ----- setup_tree -----

  /** The tree alone does not read the notes on a quantifier. */
  lemma NotesUnread(q: Node, q': Node, u: Subject, s: nat, caps: Caps)
    requires q.Quant? && q'.Quant? && q.target == q'.target
    requires q.lower == q'.lower && q.upper == q'.upper && q.greedy == q'.greedy
    ensures Run(Whole(q), u, s, caps, ByTree) == Run(Whole(q'), u, s, caps, ByTree)
  {
    hide Run, RunAll, Iterate, Layout, GuardOf;
    TreeOf(q, u, s, caps, ByTree);
    TreeOf(q', u, s, caps, ByTree);
  }

  lemma TreeOf(n: Node, u: Subject, s: nat, caps: Caps, how: Reading)
    requires !IsLeaf(n)
    ensures Run(Whole(n), u, s, caps, how) == RunTree(n, u, s, caps, how)
  {
    hide RunTree, RunAll, Iterate;
  }

  lemma NextSetupUnread(n: Node, next: Node, u: Subject, s: nat, caps: Caps)
    ensures Run(Whole(NextSetup(n, next)), u, s, caps, ByTree) == Run(Whole(n), u, s, caps, ByTree)
  {
    hide Run, HeadExact;
    if n.Quant? { NotesUnread(NextSetup(n, next), n, u, s, caps); }
  }

  lemma StringSplit(text: seq<Byte>, i: nat, a: seq<Byte>, b: seq<Byte>)
    ensures StringAt(text, i, a + b) <==> StringAt(text, i, a) && StringAt(text, i + |a|, b)
  {
    if i + |a| + |b| <= |text| {
      var whole := text[i..i + |a| + |b|];
      assert text[i..i + |a|] == whole[..|a|];
      assert text[i + |a|..i + |a| + |b|] == whole[|a|..];
      assert whole == whole[..|a|] + whole[|a|..];
      assert (a + b)[..|a|] == a && (a + b)[|a|..] == b;
    }
  }

  /** Copies of a string are one longer string. */
  lemma {:induction false} StringCopies(str: seq<Byte>, k: nat, u: Subject, s: nat, caps: Caps)
    requires s <= |u.text|
    ensures Run(Copies(Str(str), k), u, s, caps, ByTree) ==
            RegRef.When(StringAt(u.text, s, RepeatString(str, k)), Out(s + |RepeatString(str, k)|, caps))
    decreases k
  {
    hide RunTree, Iterate, StringAt;
    if k == 0 {
      EmptyAt(u, s);
    } else {
      var rest := RepeatString(str, k - 1);
      var one := RegRef.When(StringAt(u.text, s, str), Out(s + |str|, caps));
      assert Run(Whole(Str(str)), u, s, caps, ByTree) == one;
      StringSplit(u.text, s, str, rest);
      if StringAt(u.text, s, str) {
        StringInside(u, s, str);
        StringCopies(str, k - 1, u, s + |str|, caps);
        assert one[1..] == [];
        assert RunAll(Copies(Str(str), k - 1), u, one, ByTree) ==
               Run(Copies(Str(str), k - 1), u, s + |str|, caps, ByTree) + RunAll(Copies(Str(str), k - 1), u, one[1..], ByTree);
      }
    }
  }

  lemma EmptyAt(u: Subject, s: nat)
    requires s <= |u.text|
    ensures StringAt(u.text, s, [])
  {
    assert u.text[s..s] == [];
  }

  lemma StringInside(u: Subject, s: nat, str: seq<Byte>)
    requires StringAt(u.text, s, str)
    ensures s + |str| <= |u.text|
  {
  }

  lemma ExpandedReads(q: Node, u: Subject, s: nat, caps: Caps)
    requires q.Quant? && Expands(q.target, q.lower, q.upper) && s <= |u.text|
    ensures Run(Whole(q), u, s, caps, ByTree) == Run(Whole(Str(RepeatString(q.target.s, q.lower))), u, s, caps, ByTree)
  {
    hide RunAll, Iterate, Layout, StringAt, Run, GuardIn;
    TreeOf(q, u, s, caps, ByTree);
    StringCopies(q.target.s, q.lower, u, s, caps);
    var outs := Run(Copies(q.target, q.lower), u, s, caps, ByTree);
    RunAllNone(Optional(q.target, 0, q.greedy), u, outs, ByTree);
    StringOf(RepeatString(q.target.s, q.lower), u, s, caps);
  }

  lemma StringOf(str: seq<Byte>, u: Subject, s: nat, caps: Caps)
    ensures Run(Whole(Str(str)), u, s, caps, ByTree) == RegRef.When(StringAt(u.text, s, str), Out(s + |str|, caps))
  {
    hide StringAt;
  }

  /** A quantifier on another body with the same outcomes. */
  lemma QuantReads(q: Node, q': Node, u: Subject, s: nat, caps: Caps)
    requires q.Quant? && q'.Quant? && q.lower == q'.lower && q.upper == q'.upper && q.greedy == q'.greedy
    requires SameRuns(q.target, ByTree, q'.target, ByTree, u) && s <= |u.text|
    ensures Run(Whole(q), u, s, caps, ByTree) == Run(Whole(q'), u, s, caps, ByTree)
  {
    hide Run, RunTree, SameRuns, Layout;
    TreeOf(q, u, s, caps, ByTree);
    TreeOf(q', u, s, caps, ByTree);
    if q.upper.Finite? {
      BoundedAgrees(q, ByTree, q', ByTree, u, s, caps);
    } else {
      UnboundedAgrees(q, ByTree, q', ByTree, u, s, caps);
    }
  }

  lemma SetupNull(n: Node)
    ensures Setup(n).Null? <==> n.Null?
  {
    hide MinLength, HeadExact, NextSetup, Expands;
  }

  lemma SetupListReads(n: Node, u: Subject)
    requires n.List? && SameRuns(Setup(n.left), ByTree, n.left, ByTree, u) && SameRuns(Setup(n.right), ByTree, n.right, ByTree, u)
    ensures SameRuns(Setup(n), ByTree, n, ByTree, u)
  {
    hide Run, NextSetup, MinLength, HeadExact, Expands;
    if n.right.List? {
      forall s: nat, caps | s <= |u.text|
        ensures Run(Whole(Setup(n).left), u, s, caps, ByTree) == Run(Whole(n.left), u, s, caps, ByTree)
      {
        NextSetupUnread(Setup(n.left), n.right.left, u, s, caps);
        SameAt(Setup(n.left), ByTree, n.left, ByTree, u, s, caps);
      }
    }
    ListAgrees(Setup(n).left, Setup(n.right), ByTree, n.left, n.right, ByTree, u);
  }

  lemma SetupQuantReads(n: Node, u: Subject)
    requires n.Quant? && SameRuns(Setup(n.target), ByTree, n.target, ByTree, u)
    ensures SameRuns(Setup(n), ByTree, n, ByTree, u)
  {
    hide Run, MinLength, HeadExact, Expands, SameRuns;
    var q := Quant(Setup(n.target), n.lower, n.upper, n.greedy, n.targetEmpty, n.headExact, n.nextHeadExact);
    forall s: nat, caps | s <= |u.text| ensures Run(Whole(Setup(n)), u, s, caps, ByTree) == Run(Whole(n), u, s, caps, ByTree) {
      QuantReads(q, n, u, s, caps);
      if Expands(q.target, q.lower, q.upper) {
        ExpandedReads(q, u, s, caps);
      } else {
        NotesUnread(q, Setup(n), u, s, caps);
      }
    }
    SameEverywhere(Setup(n), ByTree, n, ByTree, u);
  }

  /** setup_tree changes no outcome of the tree: expanded strings, and notes for the compiler. */
  lemma {:induction false} SetupReads(n: Node, u: Subject)
    ensures SameRuns(Setup(n), ByTree, n, ByTree, u)
  {
    hide Run, MinLength, HeadExact, Expands, SameRuns, NextSetup;
    if n.List? {
      SetupReads(n.left, u);
      SetupReads(n.right, u);
      SetupListReads(n, u);
    } else if n.Alt? {
      SetupReads(n.left, u);
      SetupReads(n.right, u);
      SetupNull(n.right);
      TreeAgrees(Setup(n), ByTree, n, ByTree, u);
    } else if n.Quant? {
      SetupReads(n.target, u);
      SetupQuantReads(n, u);
    } else if n.Group? || n.PrecRead? || n.PrecReadNot? || n.StopBacktrack? {
      SetupReads(n.target, u);
      TreeAgrees(Setup(n), ByTree, n, ByTree, u);
    } else {
      SameItself(n, ByTree, u);
    }
  }

  lemma SameItself(n: Node, how: Reading, u: Subject)
    ensures SameRuns(n, how, n, how, u)
  {
  }

  // ----- loops that are entered in their middle -----

  /** From `s` on the body is passed through at most once without consuming anything: behind a pass
      that consumed nothing the body matches no more. */
  ghost predicate OnlyOnce(t: Node, u: Subject, s: nat, caps: Caps, how: Reading) {
    NoSecond(t, u, s, Run(Whole(t), u, s, caps, how), how)
  }

  ghost predicate NoSecond(t: Node, u: Subject, s: nat, outs: seq<Out>, how: Reading) {
    forall k :: 0 <= k < |outs| && outs[k].s == s ==> Run(Whole(t), u, s, outs[k].caps, how) == []
  }

  /** A loop has the way out as an outcome, and no other exactly when its body does not match. */
  lemma LoopOutcomes(t: Node, greedy: bool, u: Subject, s: nat, caps: Caps, how: Reading)
    ensures |Run(Repeat(t, greedy, Always), u, s, caps, how)| >= 1
    ensures Run(Whole(t), u, s, caps, how) == [] ==> Run(Repeat(t, greedy, Always), u, s, caps, how) == [Out(s, caps)]
    ensures Run(Whole(t), u, s, caps, how) != [] ==> |Run(Repeat(t, greedy, Always), u, s, caps, how)| >= 2
    decreases if s <= |u.text| then |u.text| - s else 0
  {
    hide RunTree, RunLeaf, RunAll, Iterate;
    var outs := Run(Whole(t), u, s, caps, how);
    var more := Iterate(t, greedy, Always, u, s, outs, how);
    if outs == [] {
      NoPass(t, greedy, Always, u, s, how);
    } else {
      PassFirst(t, greedy, Always, u, s, outs, how);
      var o := outs[0];
      if s < o.s <= |u.text| { LoopOutcomes(t, greedy, u, o.s, o.caps, how); }
      assert |more| >= 1;
    }
  }

  /** The passes of a loop entered in its middle against those of the loop behind one copy. */
  lemma {:induction false} PassesExact(t: Node, greedy: bool, u: Subject, s: nat, outs: seq<Out>, how: Reading)
    requires Inside(outs, u, s)
    ensures |Iterate(t, greedy, Always, u, s, outs, how)| <= |RunAll(Repeat(t, greedy, Always), u, outs, how)|
    ensures Iterate(t, greedy, Always, u, s, outs, how) == RunAll(Repeat(t, greedy, Always), u, outs, how) <==>
            NoSecond(t, u, s, outs, how)
    decreases |outs|
  {
    hide Run, Iterate, RunTree, Inside;
    if outs == [] {
      NoPass(t, greedy, Always, u, s, how);
    } else {
      var o := outs[0];
      var first, all := Onward(t, greedy, Always, u, s, o, how), Run(Repeat(t, greedy, Always), u, o.s, o.caps, how);
      InsideTail(outs, u, s);
      PassFirst(t, greedy, Always, u, s, outs, how);
      PassesExact(t, greedy, u, s, outs[1..], how);
      LoopOutcomes(t, greedy, u, o.s, o.caps, how);
      assert outs == [o] + outs[1..];
      SecondOf(t, u, s, outs, how);
      SameHeads(first, all, Iterate(t, greedy, Always, u, s, outs[1..], how), RunAll(Repeat(t, greedy, Always), u, outs[1..], how));
    }
  }

  lemma SecondOf(t: Node, u: Subject, s: nat, outs: seq<Out>, how: Reading)
    requires outs != []
    ensures NoSecond(t, u, s, outs, how) <==>
            (outs[0].s == s ==> Run(Whole(t), u, s, outs[0].caps, how) == []) && NoSecond(t, u, s, outs[1..], how)
  {
    hide Run;
    if NoSecond(t, u, s, outs[1..], how) {
      forall k | 1 <= k < |outs| && outs[k].s == s ensures Run(Whole(t), u, s, outs[k].caps, how) == [] {
        assert outs[1..][k - 1] == outs[k];
      }
    }
    if NoSecond(t, u, s, outs, how) {
      forall k | 0 <= k < |outs[1..]| && outs[1..][k].s == s ensures Run(Whole(t), u, s, outs[1..][k].caps, how) == [] {
        assert outs[1..][k] == outs[k + 1];
      }
    }
  }

  lemma SameHeads(a: seq<Out>, b: seq<Out>, c: seq<Out>, d: seq<Out>)
    requires |a| <= |b| && |c| <= |d|
    ensures a + c == b + d <==> a == b && c == d
  {
    if a + c == b + d {
      assert a == (a + c)[..|a|] && b == (b + d)[..|b|];
      assert c == (a + c)[|a|..] && d == (b + d)[|b|..];
    }
  }

  /** The loop of `t+` entered in its middle has the outcomes of one copy and the loop behind it
      exactly where no pass that consumed nothing leaves the body something to match. */
  lemma JumpInExact(t: Node, greedy: bool, u: Subject, s: nat, caps: Caps, how: Reading)
    requires s <= |u.text|
    ensures Iterate(t, greedy, Always, u, s, Run(Whole(t), u, s, caps, how), how) ==
            RunAll(Repeat(t, greedy, Always), u, Run(Copies(t, 1), u, s, caps, how), how) <==>
            OnlyOnce(t, u, s, caps, how)
  {
    hide RunTree, RunLeaf, Iterate, NoSecond, Inside;
    var outs := Run(Whole(t), u, s, caps, how);
    RunInside(Whole(t), u, s, caps, how);
    RunAllNone(Copies(t, 0), u, outs, how);
    PassesExact(t, greedy, u, s, outs, how);
  }

  // ----- trees -----

  /** At this node the two readings can differ: an unbounded loop that is entered in its middle. */
  predicate JumpsInto(n: Node) {
    n.Quant? && n.upper.Infinite? && Layout(n) == Loop(true)
  }

  ghost predicate OnlyOnceIn(t: Node, u: Subject) {
    forall s: nat, caps :: s <= |u.text| ==> OnlyOnce(t, u, s, caps, ByTree)
  }

  /** Every loop in the tree that is entered in its middle passes through its body at most once
      without consuming anything. */
  ghost predicate Harmless(n: Node, u: Subject) {
    match n
    case List(l, r) => Harmless(l, u) && Harmless(r, u)
    case Alt(l, r) => Harmless(l, u) && Harmless(r, u)
    case Quant(t, _, _, _, _, _, _) => Harmless(t, u) && (JumpsInto(n) ==> OnlyOnceIn(t, u))
    case Group(_, t) => Harmless(t, u)
    case PrecRead(t) => Harmless(t, u)
    case PrecReadNot(t) => Harmless(t, u)
    case StopBacktrack(t) => Harmless(t, u)
    case _ => true
  }

  /** Every subtree has the same outcomes in both readings. */
  ghost predicate SameThroughout(n: Node, u: Subject) {
    SameRuns(n, ByTree, n, ByLayout, u) &&
    match n
    case List(l, r) => SameThroughout(l, u) && SameThroughout(r, u)
    case Alt(l, r) => SameThroughout(l, u) && SameThroughout(r, u)
    case Quant(t, _, _, _, _, _, _) => SameThroughout(t, u)
    case Group(_, t) => SameThroughout(t, u)
    case PrecRead(t) => SameThroughout(t, u)
    case PrecReadNot(t) => SameThroughout(t, u)
    case StopBacktrack(t) => SameThroughout(t, u)
    case _ => true
  }

  /** The two readings of a quantifier, given that they agree on its body. */
  lemma QuantExact(q: Node, u: Subject, s: nat, caps: Caps)
    requires q.Quant? && SameRuns(q.target, ByTree, q.target, ByLayout, u) && s <= |u.text|
    ensures Run(Whole(q), u, s, caps, ByTree) == Run(Whole(q), u, s, caps, ByLayout) <==>
            (JumpsInto(q) ==> OnlyOnce(q.target, u, s, caps, ByTree))
  {
    hide Run, RunTree, SameRuns, Layout, OnlyOnce;
    TreeOf(q, u, s, caps, ByTree);
    TreeOf(q, u, s, caps, ByLayout);
    if q.upper.Finite? {
      BoundedAgrees(q, ByTree, q, ByLayout, u, s, caps);
    } else if Layout(q) != Loop(true) {
      UnboundedAgrees(q, ByTree, q, ByLayout, u, s, caps);
    } else {
      JumpedExact(q, u, s, caps);
    }
  }

  lemma JumpedExact(q: Node, u: Subject, s: nat, caps: Caps)
    requires JumpsInto(q) && SameRuns(q.target, ByTree, q.target, ByLayout, u) && s <= |u.text|
    ensures RunTree(q, u, s, caps, ByTree) == RunTree(q, u, s, caps, ByLayout) <==> OnlyOnce(q.target, u, s, caps, ByTree)
  {
    hide Run, SameRuns, CompileLength, OnlyOnce, RunAll, Iterate;
    var t := q.target;
    JumpInExact(t, q.greedy, u, s, caps, ByTree);
    SameAt(t, ByTree, t, ByLayout, u, s, caps);
    PassesAgree(t, q.greedy, Always, ByTree, t, ByLayout, u, s, Run(Whole(t), u, s, caps, ByTree));
  }

  lemma QuantHarmless(q: Node, u: Subject)
    requires q.Quant? && SameRuns(q.target, ByTree, q.target, ByLayout, u)
    ensures SameRuns(q, ByTree, q, ByLayout, u) <==> (JumpsInto(q) ==> OnlyOnceIn(q.target, u))
  {
    hide Run, OnlyOnce, JumpsInto;
    forall s: nat, caps | s <= |u.text|
      ensures Run(Whole(q), u, s, caps, ByTree) == Run(Whole(q), u, s, caps, ByLayout) <==>
              (JumpsInto(q) ==> OnlyOnce(q.target, u, s, caps, ByTree))
    {
      QuantExact(q, u, s, caps);
    }
  }

  /** The compiled layout has the outcomes of the tree alone, in every subtree and everywhere in
      the text, exactly for the trees whose loops are harmless. */
  lemma {:induction false} LayoutExact(n: Node, u: Subject)
    ensures SameThroughout(n, u) <==> Harmless(n, u)
  {
    hide Run, SameRuns, OnlyOnceIn, JumpsInto;
    if n.List? || n.Alt? {
      LayoutExact(n.left, u);
      LayoutExact(n.right, u);
      if SameThroughout(n.left, u) && SameThroughout(n.right, u) {
        ThroughoutSame(n.left, u);
        ThroughoutSame(n.right, u);
        TreeAgrees(n, ByTree, n, ByLayout, u);
      }
    } else if n.Quant? {
      LayoutExact(n.target, u);
      if SameThroughout(n.target, u) {
        ThroughoutSame(n.target, u);
        QuantHarmless(n, u);
      }
    } else if n.Group? || n.PrecRead? || n.PrecReadNot? || n.StopBacktrack? {
      LayoutExact(n.target, u);
      if SameThroughout(n.target, u) {
        ThroughoutSame(n.target, u);
        TreeAgrees(n, ByTree, n, ByLayout, u);
      }
    } else {
      LeafSame(n, u);
    }
  }

  lemma ThroughoutSame(n: Node, u: Subject)
    requires SameThroughout(n, u)
    ensures SameRuns(n, ByTree, n, ByLayout, u)
  {
    hide SameRuns;
  }

  lemma LeafSame(n: Node, u: Subject)
    requires IsLeaf(n)
    ensures SameRuns(n, ByTree, n, ByLayout, u)
  {
  }

  // ----- what can be read off the tree -----

  /** Every loop in the tree that is entered in its middle has a body that always consumes something. */
  predicate Steady(n: Node) {
    match n
    case List(l, r) => Steady(l) && Steady(r)
    case Alt(l, r) => Steady(l) && Steady(r)
    case Quant(t, _, _, _, _, _, _) => Steady(t) && (JumpsInto(n) ==> LeastLength(t) > 0)
    case Group(_, t) => Steady(t)
    case PrecRead(t) => Steady(t)
    case PrecReadNot(t) => Steady(t)
    case StopBacktrack(t) => Steady(t)
    case _ => true
  }

  /** Strings, classes, lists, alternatives, quantifiers and groups only. */
  predicate Basic(n: Node) {
    match n
    case List(l, r) => Basic(l) && Basic(r)
    case Alt(l, r) => Basic(l) && Basic(r)
    case Quant(t, _, _, _, _, _, _) => Basic(t)
    case Group(_, t) => Basic(t)
    case _ => n.Null? || n.Empty? || n.Str? || n.CClass? || n.AnyChar?
  }

  lemma {:induction false} BasicOrderless(n: Node)
    requires Basic(n)
    ensures Orderless(n)
  {
    match n
    case List(l, r) => BasicOrderless(l); BasicOrderless(r);
    case Alt(l, r) => BasicOrderless(l); BasicOrderless(r);
    case Quant(t, _, _, _, _, _, _) => BasicOrderless(t);
    case Group(_, t) => BasicOrderless(t);
    case _ =>
  }

  lemma ConsumesOnce(t: Node, u: Subject)
    requires LeastLength(t) > 0
    ensures OnlyOnceIn(t, u)
  {
    hide Run, Groups;
    forall s: nat, caps | s <= |u.text| ensures OnlyOnce(t, u, s, caps, ByTree) {
      RunLeast(Whole(t), u, s, caps, ByTree);
      var outs := Run(Whole(t), u, s, caps, ByTree);
      forall k | 0 <= k < |outs| ensures outs[k].s > s {
        assert OutOk(outs[k], u, s + LeastLength(t), caps, Groups(t));
      }
    }
  }

  /** Loops whose bodies always consume something are harmless, in every text. */
  lemma {:induction false} SteadyHarmless(n: Node, u: Subject)
    requires Steady(n)
    ensures Harmless(n, u)
  {
    hide OnlyOnceIn, JumpsInto;
    match n
    case List(l, r) => SteadyHarmless(l, u); SteadyHarmless(r, u);
    case Alt(l, r) => SteadyHarmless(l, u); SteadyHarmless(r, u);
    case Quant(t, _, _, _, _, _, _) =>
      SteadyHarmless(t, u);
      if JumpsInto(n) { ConsumesOnce(t, u); }
    case Group(_, t) => SteadyHarmless(t, u);
    case PrecRead(t) => SteadyHarmless(t, u);
    case PrecReadNot(t) => SteadyHarmless(t, u);
    case StopBacktrack(t) => SteadyHarmless(t, u);
    case _ =>
  }

  lemma {:induction false} EmptyTimes(t: Node, u: Subject, k: nat, s: nat)
    requires Matches(t, u, s, s)
    ensures MatchesTimes(t, u, k, s, s)
  {
    hide Matches;
    if k > 0 { EmptyTimes(t, u, k - 1, s); TimesFold(t, u, k - 1, s, s, s); }
  }

  /** The least length of a basic tree is that of a match: where it is 0, the tree matches nothing
      at all anywhere. */
  lemma {:induction false} EmptyMatches(n: Node, u: Subject, s: nat)
    requires Basic(n) && LeastLength(n) == 0 && s <= |u.text|
    ensures Matches(n, u, s, s)
  {
    hide MatchesTimes, Times;
    match n
    case Str(str) => EmptyAt(u, s);
    case List(l, r) => EmptyMatches(l, u, s); EmptyMatches(r, u, s);
    case Alt(l, r) => if LeastLength(l) == 0 { EmptyMatches(l, u, s); } else { EmptyMatches(r, u, s); }
    case Quant(t, lower, upper, _, _, _, _) =>
      LeastZero(LeastLength(t), lower);
      if lower == 0 { TimesNone(t, u, s, s); } else { EmptyMatches(t, u, s); EmptyTimes(t, u, lower, s); }
      assert MayRepeat(lower, upper, lower);
    case Group(_, t) => EmptyMatches(t, u, s);
    case _ =>
  }

  /** Without back-references and atomic groups, the body passes at most once without consuming
      anything exactly where it has no empty match. */
  lemma OrderlessOnce(t: Node, u: Subject, s: nat, caps: Caps)
    requires Orderless(t) && s <= |u.text|
    ensures OnlyOnce(t, u, s, caps, ByTree) <==> !Matches(t, u, s, s)
  {
    hide Run, Matches, Orderless;
    var outs := Run(Whole(t), u, s, caps, ByTree);
    MatcherFinds(t, u, s, caps, s, ByTree);
    if Matches(t, u, s, s) {
      var k :| 0 <= k < |outs| && outs[k].s == s;
      MatcherFinds(t, u, s, outs[k].caps, s, ByTree);
      assert Run(Whole(t), u, s, outs[k].caps, ByTree) != [];
    }
  }

  lemma {:induction false} HarmlessSteady(n: Node, u: Subject)
    requires Basic(n) && Harmless(n, u)
    ensures Steady(n)
  {
    hide JumpsInto, OnlyOnce;
    match n
    case List(l, r) => HarmlessSteady(l, u); HarmlessSteady(r, u);
    case Alt(l, r) => HarmlessSteady(l, u); HarmlessSteady(r, u);
    case Quant(t, _, _, _, _, _, _) =>
      HarmlessSteady(t, u);
      if JumpsInto(n) && LeastLength(t) == 0 {
        BasicOrderless(t);
        EmptyMatches(t, u, 0);
        OrderlessOnce(t, u, 0, []);
      }
    case Group(_, t) => HarmlessSteady(t, u);
    case _ =>
  }

  /** For basic trees the condition is one on the tree: in whatever text, the compiled layout has the
      outcomes of the tree throughout exactly when every loop entered in its middle has a body that
      always consumes something. */
  lemma SteadyExact(n: Node, u: Subject)
    requires Basic(n)
    ensures SameThroughout(n, u) <==> Steady(n)
  {
    hide SameThroughout, Harmless, Steady, Basic;
    LayoutExact(n, u);
    if Steady(n) { SteadyHarmless(n, u); }
    if Harmless(n, u) { HarmlessSteady(n, u); }
  }
}
