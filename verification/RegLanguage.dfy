/** What a pattern matches, said without any matching procedure: a relation between a start and
    an end position. The backtracking matcher finds exactly the ends that the relation allows. */
module RegLanguage {
  import opened RegTree
  import opened RegRef
  import opened RegFacts

  /** No back-reference and no atomic group: whether such a tree matches from one position to
      another does not hang on the order in which alternatives are tried. */
  predicate Orderless(n: Node) {
    match n
    case Backref(_) => false
    case StopBacktrack(_) => false
    case List(l, r) => Orderless(l) && Orderless(r)
    case Alt(l, r) => Orderless(l) && Orderless(r)
    case Quant(t, _, _, _, _, _, _) => Orderless(t)
    case Group(_, t) => Orderless(t)
    case PrecRead(t) => Orderless(t)
    case PrecReadNot(t) => Orderless(t)
    case _ => true
  }

  /** The most copies of its body a quantifier may match; none where there is no limit. */
  predicate MayRepeat(lower: nat, upper: Upper, k: nat) {
    lower <= k && (upper.Finite? ==> k <= lower + Spare(lower, upper.n))
  }

  /** The tree matches the text from `i` to `j`. */
  ghost predicate Matches(n: Node, u: Subject, i: nat, j: nat)
    decreases n, 0, 0
  {
    match n
    case Null => i == j
    case Empty => i == j
    case Str(s) => StringAt(u.text, i, s) && j == i + |s|
    case CClass(bits, negated) => ClassAt(u, i, bits, negated) && j == i + 1
    case AnyChar => DotAt(u, i) && j == i + 1
    case Anchor(kind) => AnchorAt(u, i, kind) && i == j
    case Backref(_) => false
    case List(l, r) => exists m: nat :: Matches(l, u, i, m) && Matches(r, u, m, j)
    case Alt(l, r) => Matches(l, u, i, j) || (!r.Null? && Matches(r, u, i, j))
    case Quant(t, lower, upper, _, _, _, _) =>
      exists k: nat :: MayRepeat(lower, upper, k) && MatchesTimes(t, u, k, i, j)
    case Group(_, t) => Matches(t, u, i, j)
    case PrecRead(t) => i == j && exists m: nat :: Matches(t, u, i, m)
    case PrecReadNot(t) => i == j && !exists m: nat :: Matches(t, u, i, m)
    case StopBacktrack(_) => false
  }

  /** `k` matches of the tree, one behind the other. */
  ghost predicate MatchesTimes(t: Node, u: Subject, k: nat, i: nat, j: nat)
    decreases t, 1, k
  {
    if k == 0 then i == j
    else exists m: nat :: Matches(t, u, i, m) && MatchesTimes(t, u, k - 1, m, j)
  }

  ghost predicate HasEnd(outs: seq<Out>, j: nat) {
    exists k :: 0 <= k < |outs| && outs[k].s == j
  }

  // ----- ends of lists of outcomes -----

  lemma EndConcat(a: seq<Out>, b: seq<Out>, j: nat)
    ensures HasEnd(a + b, j) <==> HasEnd(a, j) || HasEnd(b, j)
  {
    if HasEnd(a, j) {
      var k :| 0 <= k < |a| && a[k].s == j;
      assert (a + b)[k].s == j;
    }
    if HasEnd(b, j) {
      var k :| 0 <= k < |b| && b[k].s == j;
      assert (a + b)[|a| + k].s == j;
    }
  }

  lemma EndOne(o: Out, j: nat)
    ensures HasEnd([o], j) <==> o.s == j
    ensures !HasEnd([], j)
  {
    assert [o][0] == o;
  }

  /** Outcome `k` of a list leads on to the end `j`. */
  ghost predicate LeadsTo(p: Part, u: Subject, o: Out, j: nat, how: Reading) {
    HasEnd(Run(p, u, o.s, o.caps, how), j)
  }

  lemma {:induction false} EndAll(p: Part, u: Subject, outs: seq<Out>, j: nat, how: Reading)
    ensures HasEnd(RunAll(p, u, outs, how), j) <==> exists k :: 0 <= k < |outs| && LeadsTo(p, u, outs[k], j, how)
  {
    hide Run;
    if outs != [] {
      EndAll(p, u, outs[1..], j, how);
      EndConcat(Run(p, u, outs[0].s, outs[0].caps, how), RunAll(p, u, outs[1..], how), j);
      if HasEnd(RunAll(p, u, outs[1..], how), j) {
        var k :| 0 <= k < |outs[1..]| && LeadsTo(p, u, outs[1..][k], j, how);
        assert outs[1..][k] == outs[k + 1];
      }
      if k :| 0 <= k < |outs| && LeadsTo(p, u, outs[k], j, how) {
        if k > 0 { assert outs[1..][k - 1] == outs[k]; }
      }
    }
  }

  /** One pass through a loop body that ended in `o` leads on to the end `j`. */
  ghost predicate PassTo(t: Node, greedy: bool, u: Subject, s0: nat, o: Out, j: nat, how: Reading) {
    if s0 < o.s <= |u.text| then HasEnd(Run(Repeat(t, greedy, Always), u, o.s, o.caps, how), j) else o.s == j
  }

  lemma {:induction false} EndIterate(t: Node, greedy: bool, u: Subject, s0: nat, outs: seq<Out>, j: nat, how: Reading)
    ensures HasEnd(Iterate(t, greedy, Always, u, s0, outs, how), j) <==>
      exists k :: 0 <= k < |outs| && PassTo(t, greedy, u, s0, outs[k], j, how)
    decreases |outs|
  {
    hide Run;
    if outs != [] {
      var o := outs[0];
      EndIterate(t, greedy, u, s0, outs[1..], j, how);
      EndOne(o, j);
      EndConcat(if s0 < o.s <= |u.text| then Run(Repeat(t, greedy, Always), u, o.s, o.caps, how) else [o],
                Iterate(t, greedy, Always, u, s0, outs[1..], how), j);
      if k :| 0 <= k < |outs| && PassTo(t, greedy, u, s0, outs[k], j, how) {
        if k > 0 { assert outs[1..][k - 1] == outs[k]; }
      }
      if k :| 0 <= k < |outs[1..]| && PassTo(t, greedy, u, s0, outs[1..][k], j, how) {
        assert outs[1..][k] == outs[k + 1];
      }
    }
  }

  // ----- the parts of a quantifier -----

  /** The matcher finds the ends of `t` from every position and with every captures. */
  ghost predicate Finds(t: Node, u: Subject, how: Reading) {
    forall s: nat, caps, j: nat :: s <= |u.text| ==>
      (HasEnd(Run(Whole(t), u, s, caps, how), j) <==> Matches(t, u, s, j))
  }

  lemma FindsAt(t: Node, u: Subject, s: nat, caps: Caps, j: nat, how: Reading)
    requires Finds(t, u, how) && s <= |u.text|
    ensures HasEnd(Run(Whole(t), u, s, caps, how), j) <==> Matches(t, u, s, j)
  {
  }

  /** Ends lie between the start and the end of the text. */
  lemma EndBounds(p: Part, u: Subject, s: nat, caps: Caps, j: nat, how: Reading)
    requires s <= |u.text| && HasEnd(Run(p, u, s, caps, how), j)
    ensures s <= j <= |u.text|
  {
    hide Run, Groups, PartLeast;
    RunLeast(p, u, s, caps, how);
    var k :| 0 <= k < |Run(p, u, s, caps, how)| && Run(p, u, s, caps, how)[k].s == j;
    assert OutOk(Run(p, u, s, caps, how)[k], u, s + PartLeast(p), caps, Groups(PartNode(p)));
  }

  /** A match of `t` to `m` comes from an outcome, and the outcome leads on. */
  lemma Witness(t: Node, u: Subject, s: nat, caps: Caps, m: nat, how: Reading) returns (k: nat)
    requires Finds(t, u, how) && s <= |u.text| && Matches(t, u, s, m)
    ensures k < |Run(Whole(t), u, s, caps, how)| && Run(Whole(t), u, s, caps, how)[k].s == m
    ensures s <= m <= |u.text|
  {
    hide Run, Matches;
    FindsAt(t, u, s, caps, m, how);
    EndBounds(Whole(t), u, s, caps, m, how);
    k :| 0 <= k < |Run(Whole(t), u, s, caps, how)| && Run(Whole(t), u, s, caps, how)[k].s == m;
  }

  lemma OutcomeMatches(t: Node, u: Subject, s: nat, caps: Caps, k: nat, how: Reading)
    requires Finds(t, u, how) && s <= |u.text| && k < |Run(Whole(t), u, s, caps, how)|
    ensures var m := Run(Whole(t), u, s, caps, how)[k].s; Matches(t, u, s, m) && s <= m <= |u.text|
  {
    hide Run, Matches;
    var m := Run(Whole(t), u, s, caps, how)[k].s;
    assert HasEnd(Run(Whole(t), u, s, caps, how), m);
    FindsAt(t, u, s, caps, m, how);
    EndBounds(Whole(t), u, s, caps, m, how);
  }

  lemma {:induction false} CopiesFind(t: Node, k: nat, u: Subject, s: nat, caps: Caps, j: nat, how: Reading)
    requires Finds(t, u, how) && s <= |u.text|
    ensures HasEnd(Run(Copies(t, k), u, s, caps, how), j) <==> MatchesTimes(t, u, k, s, j)
    decreases k
  {
    hide RunTree, RunLeaf, RunAll, Finds, Matches, HasEnd;
    if k == 0 {
      EndOne(Out(s, caps), j);
    } else {
      var outs := Run(Whole(t), u, s, caps, how);
      EndAll(Copies(t, k - 1), u, outs, j, how);
      if x :| 0 <= x < |outs| && LeadsTo(Copies(t, k - 1), u, outs[x], j, how) {
        OutcomeMatches(t, u, s, caps, x, how);
        CopiesFind(t, k - 1, u, outs[x].s, outs[x].caps, j, how);
      }
      if m: nat :| Matches(t, u, s, m) && MatchesTimes(t, u, k - 1, m, j) {
        var x := Witness(t, u, s, caps, m, how);
        CopiesFind(t, k - 1, u, m, outs[x].caps, j, how);
        assert LeadsTo(Copies(t, k - 1), u, outs[x], j, how);
      }
    }
  }

  ghost predicate AtMost(t: Node, u: Subject, k: nat, s: nat, j: nat) {
    exists c: nat :: c <= k && MatchesTimes(t, u, c, s, j)
  }

  ghost predicate AnyTimes(t: Node, u: Subject, s: nat, j: nat) {
    exists c: nat :: MatchesTimes(t, u, c, s, j)
  }

  lemma TimesUnfold(t: Node, u: Subject, k: nat, i: nat, j: nat) returns (m: nat)
    requires k > 0 && MatchesTimes(t, u, k, i, j)
    ensures Matches(t, u, i, m) && MatchesTimes(t, u, k - 1, m, j)
  {
    m :| Matches(t, u, i, m) && MatchesTimes(t, u, k - 1, m, j);
  }

  lemma TimesFold(t: Node, u: Subject, k: nat, i: nat, m: nat, j: nat)
    requires Matches(t, u, i, m) && MatchesTimes(t, u, k, m, j)
    ensures MatchesTimes(t, u, k + 1, i, j)
  {
  }

  lemma TimesNone(t: Node, u: Subject, i: nat, j: nat)
    ensures MatchesTimes(t, u, 0, i, j) <==> i == j
  {
  }

  lemma AtMostUnfold(t: Node, u: Subject, k: nat, s: nat, j: nat) returns (m: nat)
    requires k > 0 && AtMost(t, u, k, s, j) && s != j
    ensures Matches(t, u, s, m) && AtMost(t, u, k - 1, m, j)
  {
    hide Matches, MatchesTimes;
    var c: nat :| c <= k && MatchesTimes(t, u, c, s, j);
    TimesNone(t, u, s, j);
    m := TimesUnfold(t, u, c, s, j);
  }

  lemma AtMostFold(t: Node, u: Subject, k: nat, s: nat, m: nat, j: nat)
    requires Matches(t, u, s, m) && AtMost(t, u, k, m, j)
    ensures AtMost(t, u, k + 1, s, j)
  {
    hide Matches, MatchesTimes;
    var c: nat :| c <= k && MatchesTimes(t, u, c, m, j);
    TimesFold(t, u, c, s, m, j);
  }

  lemma AtMostSelf(t: Node, u: Subject, k: nat, s: nat)
    ensures AtMost(t, u, k, s, s)
  {
    assert MatchesTimes(t, u, 0, s, s);
  }

  lemma {:induction false} OptionalFind(t: Node, k: nat, greedy: bool, u: Subject, s: nat, caps: Caps, j: nat, how: Reading)
    requires Finds(t, u, how) && s <= |u.text|
    ensures HasEnd(Run(Optional(t, k, greedy), u, s, caps, how), j) <==> AtMost(t, u, k, s, j)
    decreases k
  {
    hide RunTree, RunLeaf, RunAll, Finds, Matches, HasEnd, AtMost;
    EndOne(Out(s, caps), j);
    if k == 0 {
      AtMostNone(t, u, s, j);
    } else {
      AtMostSelf(t, u, k, s);
      var outs := Run(Whole(t), u, s, caps, how);
      var more := RunAll(Optional(t, k - 1, greedy), u, outs, how);
      EndAll(Optional(t, k - 1, greedy), u, outs, j, how);
      EndConcat(more, [Out(s, caps)], j);
      EndConcat([Out(s, caps)], more, j);
      if x :| 0 <= x < |outs| && LeadsTo(Optional(t, k - 1, greedy), u, outs[x], j, how) {
        OutcomeMatches(t, u, s, caps, x, how);
        OptionalFind(t, k - 1, greedy, u, outs[x].s, outs[x].caps, j, how);
        AtMostFold(t, u, k - 1, s, outs[x].s, j);
      }
      if s != j && AtMost(t, u, k, s, j) {
        var m := AtMostUnfold(t, u, k, s, j);
        var x := Witness(t, u, s, caps, m, how);
        OptionalFind(t, k - 1, greedy, u, m, outs[x].caps, j, how);
        assert LeadsTo(Optional(t, k - 1, greedy), u, outs[x], j, how);
      }
    }
  }

  lemma AtMostNone(t: Node, u: Subject, s: nat, j: nat)
    ensures AtMost(t, u, 0, s, j) <==> s == j
  {
    assert MatchesTimes(t, u, 0, s, s);
  }

  /** Passes that consume nothing add no end: leaving the loop after such a pass loses nothing. */
  lemma {:induction false} RepeatFinds(t: Node, greedy: bool, u: Subject, s: nat, caps: Caps, j: nat, c: nat, how: Reading)
    requires Finds(t, u, how) && s <= |u.text| && MatchesTimes(t, u, c, s, j)
    ensures HasEnd(Run(Repeat(t, greedy, Always), u, s, caps, how), j)
    decreases c
  {
    hide Run, RunTree, RunLeaf, Iterate, Finds, Matches, HasEnd;
    if c == 0 {
      LoopLeft(t, greedy, u, s, caps, how);
    } else {
      var m: nat :| Matches(t, u, s, m) && MatchesTimes(t, u, c - 1, m, j);
      var x := Witness(t, u, s, caps, m, how);
      if m == s {
        RepeatFinds(t, greedy, u, s, caps, j, c - 1, how);
      } else {
        var o := Run(Whole(t), u, s, caps, how)[x];
        RepeatFinds(t, greedy, u, m, o.caps, j, c - 1, how);
        assert PassTo(t, greedy, u, s, o, j, how);
        EndIterate(t, greedy, u, s, Run(Whole(t), u, s, caps, how), j, how);
        LoopEnds(t, greedy, u, s, caps, j, how);
      }
    }
  }

  lemma LoopLeft(t: Node, greedy: bool, u: Subject, s: nat, caps: Caps, how: Reading)
    ensures HasEnd(Run(Repeat(t, greedy, Always), u, s, caps, how), s)
  {
    hide HasEnd;
    LoopEnds(t, greedy, u, s, caps, s, how);
  }

  lemma LoopEnds(t: Node, greedy: bool, u: Subject, s: nat, caps: Caps, j: nat, how: Reading)
    ensures HasEnd(Run(Repeat(t, greedy, Always), u, s, caps, how), j) <==>
      s == j || HasEnd(Iterate(t, greedy, Always, u, s, Run(Whole(t), u, s, caps, how), how), j)
  {
    hide RunTree, RunLeaf, Iterate, HasEnd;
    var more := Iterate(t, greedy, Always, u, s, Run(Whole(t), u, s, caps, how), how);
    EndOne(Out(s, caps), j);
    EndConcat(more, [Out(s, caps)], j);
    EndConcat([Out(s, caps)], more, j);
  }

  /** What a loop finds can be matched by some number of passes. */
  lemma {:induction false} RepeatSound(t: Node, greedy: bool, u: Subject, s: nat, caps: Caps, j: nat, how: Reading)
    requires Finds(t, u, how) && s <= |u.text| && HasEnd(Run(Repeat(t, greedy, Always), u, s, caps, how), j)
    ensures AnyTimes(t, u, s, j)
    decreases |u.text| - s
  {
    hide Run, Iterate, Finds, Matches, HasEnd;
    LoopEnds(t, greedy, u, s, caps, j, how);
    if s == j {
      assert MatchesTimes(t, u, 0, s, j);
    } else {
      var outs := Run(Whole(t), u, s, caps, how);
      EndIterate(t, greedy, u, s, outs, j, how);
      var k :| 0 <= k < |outs| && PassTo(t, greedy, u, s, outs[k], j, how);
      PassSound(t, greedy, u, s, caps, k, j, how);
    }
  }

  /** A pass through the body, and then what the loop finds, is at least one match of the body. */
  lemma {:induction false} PassSound(t: Node, greedy: bool, u: Subject, s: nat, caps: Caps, k: nat, j: nat, how: Reading)
    requires Finds(t, u, how) && s <= |u.text| && k < |Run(Whole(t), u, s, caps, how)|
    requires PassTo(t, greedy, u, s, Run(Whole(t), u, s, caps, how)[k], j, how)
    ensures exists c: nat :: c > 0 && MatchesTimes(t, u, c, s, j)
    decreases |u.text| - s, 0
  {
    hide Run, Finds, Matches, HasEnd;
    var o := Run(Whole(t), u, s, caps, how)[k];
    OutcomeMatches(t, u, s, caps, k, how);
    if s < o.s {
      RepeatSound(t, greedy, u, o.s, o.caps, j, how);
      var c: nat :| MatchesTimes(t, u, c, o.s, j);
      assert MatchesTimes(t, u, c + 1, s, j);
    } else {
      assert MatchesTimes(t, u, 0, s, j);
      assert MatchesTimes(t, u, 1, s, j);
    }
  }

  /** The loop that is entered in its middle finds what one pass or more can match. */
  lemma {:induction false} JumpInFinds(t: Node, greedy: bool, u: Subject, s: nat, caps: Caps, j: nat, c: nat, how: Reading)
    requires Finds(t, u, how) && s <= |u.text| && c > 0 && MatchesTimes(t, u, c, s, j)
    ensures HasEnd(Iterate(t, greedy, Always, u, s, Run(Whole(t), u, s, caps, how), how), j)
    decreases c
  {
    hide Run, Iterate, Finds, Matches, HasEnd;
    var outs := Run(Whole(t), u, s, caps, how);
    var m: nat :| Matches(t, u, s, m) && MatchesTimes(t, u, c - 1, m, j);
    var x := Witness(t, u, s, caps, m, how);
    EndIterate(t, greedy, u, s, outs, j, how);
    if m > s {
      RepeatFinds(t, greedy, u, m, outs[x].caps, j, c - 1, how);
      assert PassTo(t, greedy, u, s, outs[x], j, how);
    } else if c > 1 {
      JumpInFinds(t, greedy, u, s, caps, j, c - 1, how);
    } else {
      assert PassTo(t, greedy, u, s, outs[x], j, how);
    }
  }

  lemma {:induction false} TimesJoin(t: Node, u: Subject, a: nat, b: nat, i: nat, m: nat, j: nat)
    requires MatchesTimes(t, u, a, i, m) && MatchesTimes(t, u, b, m, j)
    ensures MatchesTimes(t, u, a + b, i, j)
  {
    hide Matches;
    if a > 0 {
      var x: nat :| Matches(t, u, i, x) && MatchesTimes(t, u, a - 1, x, m);
      TimesJoin(t, u, a - 1, b, x, m, j);
      assert MatchesTimes(t, u, a + b - 1, x, j);
    }
  }

  lemma {:induction false} TimesSplit(t: Node, u: Subject, a: nat, b: nat, i: nat, j: nat) returns (m: nat)
    requires MatchesTimes(t, u, a + b, i, j)
    ensures MatchesTimes(t, u, a, i, m) && MatchesTimes(t, u, b, m, j)
  {
    hide Matches;
    m := i;
    if a > 0 {
      var x: nat :| Matches(t, u, i, x) && MatchesTimes(t, u, a + b - 1, x, j);
      assert (a - 1) + b == a + b - 1;
      m := TimesSplit(t, u, a - 1, b, x, j);
    }
  }

  lemma TimesInside(t: Node, u: Subject, k: nat, i: nat, j: nat, how: Reading)
    requires Finds(t, u, how) && i <= |u.text| && MatchesTimes(t, u, k, i, j)
    ensures j <= |u.text|
  {
    hide Run, MatchesTimes, Finds, HasEnd;
    CopiesFind(t, k, u, i, [], j, how);
    EndBounds(Copies(t, k), u, i, [], j, how);
  }

  /** Mandatory copies followed by the part `p`, which finds what `After` says. */
  lemma QuantFinds(q: Node, u: Subject, s: nat, caps: Caps, j: nat, how: Reading)
    requires q.Quant? && Finds(q.target, u, how) && s <= |u.text|
    requires !how.ByCode? && (q.upper.Infinite? ==> !JumpsIn(q, how))
    ensures HasEnd(RunTree(q, u, s, caps, how), j) <==> Matches(q, u, s, j)
  {
    hide Run, RunAll, Iterate, Finds, HasEnd, MatchesTimes, Layout;
    var t := q.target;
    var outs := Run(Copies(t, q.lower), u, s, caps, how);
    var p := if q.upper.Finite? then Optional(t, Spare(q.lower, q.upper.n), q.greedy) else Repeat(t, q.greedy, Always);
    EndAll(p, u, outs, j, how);
    if x :| 0 <= x < |outs| && LeadsTo(p, u, outs[x], j, how) {
      assert HasEnd(outs, outs[x].s) by { EndAt(outs, x); }
      CopiesFind(t, q.lower, u, s, caps, outs[x].s, how);
      TimesInside(t, u, q.lower, s, outs[x].s, how);
      var c := RestSound(q, p, u, outs[x], j, how);
      TimesJoin(t, u, q.lower, c, s, outs[x].s, j);
      assert MayRepeat(q.lower, q.upper, q.lower + c);
    }
    if k: nat :| MayRepeat(q.lower, q.upper, k) && MatchesTimes(t, u, k, s, j) {
      var m := TimesSplit(t, u, q.lower, k - q.lower, s, j);
      CopiesFind(t, q.lower, u, s, caps, m, how);
      TimesInside(t, u, q.lower, s, m, how);
      var x := EndIndex(outs, m);
      RestFinds(q, p, u, outs[x], j, k - q.lower, how);
    }
  }

  lemma EndAt(outs: seq<Out>, x: nat)
    requires x < |outs|
    ensures HasEnd(outs, outs[x].s)
  {
  }

  lemma EndIndex(outs: seq<Out>, m: nat) returns (x: nat)
    requires HasEnd(outs, m)
    ensures x < |outs| && outs[x].s == m
  {
    x :| 0 <= x < |outs| && outs[x].s == m;
  }

  lemma RestSound(q: Node, p: Part, u: Subject, o: Out, j: nat, how: Reading) returns (c: nat)
    requires q.Quant? && Finds(q.target, u, how) && o.s <= |u.text| && LeadsTo(p, u, o, j, how)
    requires p == if q.upper.Finite? then Optional(q.target, Spare(q.lower, q.upper.n), q.greedy) else Repeat(q.target, q.greedy, Always)
    ensures MatchesTimes(q.target, u, c, o.s, j) && (q.upper.Finite? ==> c <= Spare(q.lower, q.upper.n))
  {
    hide Run, Finds, HasEnd, MatchesTimes;
    if q.upper.Finite? {
      OptionalFind(q.target, Spare(q.lower, q.upper.n), q.greedy, u, o.s, o.caps, j, how);
      c :| c <= Spare(q.lower, q.upper.n) && MatchesTimes(q.target, u, c, o.s, j);
    } else {
      RepeatSound(q.target, q.greedy, u, o.s, o.caps, j, how);
      c :| MatchesTimes(q.target, u, c, o.s, j);
    }
  }

  lemma RestFinds(q: Node, p: Part, u: Subject, o: Out, j: nat, c: nat, how: Reading)
    requires q.Quant? && Finds(q.target, u, how) && o.s <= |u.text|
    requires p == if q.upper.Finite? then Optional(q.target, Spare(q.lower, q.upper.n), q.greedy) else Repeat(q.target, q.greedy, Always)
    requires MatchesTimes(q.target, u, c, o.s, j) && (q.upper.Finite? ==> c <= Spare(q.lower, q.upper.n))
    ensures LeadsTo(p, u, o, j, how)
  {
    hide Run, Finds, HasEnd, MatchesTimes;
    if q.upper.Finite? {
      OptionalFind(q.target, Spare(q.lower, q.upper.n), q.greedy, u, o.s, o.caps, j, how);
    } else {
      RepeatFinds(q.target, q.greedy, u, o.s, o.caps, j, c, how);
    }
  }

  lemma JumpInMatches(q: Node, u: Subject, s: nat, caps: Caps, j: nat, how: Reading)
    requires q.Quant? && Finds(q.target, u, how) && s <= |u.text|
    requires q.upper.Infinite? && how.ByLayout? && JumpsIn(q, how)
    ensures HasEnd(RunTree(q, u, s, caps, how), j) <==> Matches(q, u, s, j)
  {
    hide Run, RunAll, Iterate, Finds, HasEnd, MatchesTimes, CompileLength;
    var t := q.target;
    var outs := Run(Whole(t), u, s, caps, how);
    EndIterate(t, q.greedy, u, s, outs, j, how);
    if x :| 0 <= x < |outs| && PassTo(t, q.greedy, u, s, outs[x], j, how) {
      PassSound(t, q.greedy, u, s, caps, x, j, how);
      var c: nat :| c > 0 && MatchesTimes(t, u, c, s, j);
      assert MayRepeat(q.lower, q.upper, c);
    }
    if k: nat :| MayRepeat(q.lower, q.upper, k) && MatchesTimes(t, u, k, s, j) {
      JumpInFinds(t, q.greedy, u, s, caps, j, k, how);
    }
  }

  // ----- trees -----

  lemma {:induction false} CloseEnds(outs: seq<Out>, k: nat, beg: nat, j: nat)
    ensures HasEnd(CloseAll(outs, k, beg), j) <==> HasEnd(outs, j)
  {
    if outs != [] {
      CloseEnds(outs[1..], k, beg, j);
      var first := Out(outs[0].s, CloseGroup(outs[0].caps, k, beg, outs[0].s));
      EndConcat([first], CloseAll(outs[1..], k, beg), j);
      EndConcat([outs[0]], outs[1..], j);
      assert outs == [outs[0]] + outs[1..];
      EndOne(first, j);
      EndOne(outs[0], j);
    }
  }

  lemma ListFinds(n: Node, u: Subject, s: nat, caps: Caps, j: nat, how: Reading)
    requires n.List? && Finds(n.left, u, how) && Finds(n.right, u, how) && s <= |u.text|
    ensures HasEnd(RunTree(n, u, s, caps, how), j) <==> Matches(n, u, s, j)
  {
    hide Run, RunAll, Finds, HasEnd;
    var l, r := n.left, n.right;
    var outs := Run(Whole(l), u, s, caps, how);
    EndAll(Whole(r), u, outs, j, how);
    if x :| 0 <= x < |outs| && LeadsTo(Whole(r), u, outs[x], j, how) {
      OutcomeMatches(l, u, s, caps, x, how);
      FindsAt(r, u, outs[x].s, outs[x].caps, j, how);
    }
    if m: nat :| Matches(l, u, s, m) && Matches(r, u, m, j) {
      var x := Witness(l, u, s, caps, m, how);
      FindsAt(r, u, m, outs[x].caps, j, how);
      assert LeadsTo(Whole(r), u, outs[x], j, how);
    }
  }

  lemma LookFinds(n: Node, u: Subject, s: nat, caps: Caps, j: nat, how: Reading)
    requires (n.PrecRead? || n.PrecReadNot?) && Finds(n.target, u, how) && s <= |u.text|
    ensures HasEnd(RunTree(n, u, s, caps, how), j) <==> Matches(n, u, s, j)
  {
    hide Run, RunAll, Finds, HasEnd;
    var outs := Run(Whole(n.target), u, s, caps, how);
    if outs != [] {
      OutcomeMatches(n.target, u, s, caps, 0, how);
      EndOne(Out(s, outs[0].caps), j);
    }
    EndOne(Out(s, caps), j);
    if m: nat :| Matches(n.target, u, s, m) {
      var x := Witness(n.target, u, s, caps, m, how);
    }
  }

  lemma LeafFinds(n: Node, u: Subject, s: nat, caps: Caps, j: nat)
    requires IsLeaf(n) && !n.Backref?
    ensures HasEnd(RunLeaf(n, u, s, caps), j) <==> Matches(n, u, s, j)
  {
    EndOne(Out(j, caps), j);
    EndOne(Out(s, caps), j);
    if RunLeaf(n, u, s, caps) != [] {
      EndOne(RunLeaf(n, u, s, caps)[0], j);
    }
  }

  /** The matcher ends exactly where the pattern matches: it finds every end the relation allows
      and no other, whatever the layout of its loops. */
  lemma {:induction false} MatcherFinds(n: Node, u: Subject, s: nat, caps: Caps, j: nat, how: Reading)
    requires !how.ByCode? && Orderless(n) && s <= |u.text|
    ensures HasEnd(Run(Whole(n), u, s, caps, how), j) <==> Matches(n, u, s, j)
    decreases n, 1
  {
    hide RunAll, Iterate, Layout, HasEnd, Matches, RunLeaf;
    if IsLeaf(n) {
      LeafFinds(n, u, s, caps, j);
    } else if n.List? {
      AllFound(n.left, u, how);
      AllFound(n.right, u, how);
      ListFinds(n, u, s, caps, j, how);
    } else if n.Alt? {
      AltFinds(n, u, s, caps, j, how);
    } else if n.Quant? {
      AllFound(n.target, u, how);
      if n.upper.Infinite? && JumpsIn(n, how) {
        JumpInMatches(n, u, s, caps, j, how);
      } else {
        QuantFinds(n, u, s, caps, j, how);
      }
    } else if n.Group? {
      GroupFinds(n, u, s, caps, j, how);
    } else {
      AllFound(n.target, u, how);
      LookFinds(n, u, s, caps, j, how);
    }
  }

  lemma {:induction false} AltFinds(n: Node, u: Subject, s: nat, caps: Caps, j: nat, how: Reading)
    requires !how.ByCode? && n.Alt? && Orderless(n) && s <= |u.text|
    ensures HasEnd(RunTree(n, u, s, caps, how), j) <==> Matches(n, u, s, j)
    decreases n, 0
  {
    hide Run, HasEnd;
    MatcherFinds(n.left, u, s, caps, j, how);
    MatcherFinds(n.right, u, s, caps, j, how);
    EndConcat(Run(Whole(n.left), u, s, caps, how), if n.right.Null? then [] else Run(Whole(n.right), u, s, caps, how), j);
    EndOne(Out(s, caps), j);
  }

  lemma {:induction false} GroupFinds(n: Node, u: Subject, s: nat, caps: Caps, j: nat, how: Reading)
    requires !how.ByCode? && n.Group? && Orderless(n) && s <= |u.text|
    ensures HasEnd(RunTree(n, u, s, caps, how), j) <==> Matches(n, u, s, j)
    decreases n, 0
  {
    hide Run, HasEnd;
    MatcherFinds(n.target, u, s, OpenGroup(caps, n.num, s), j, how);
    CloseEnds(Run(Whole(n.target), u, s, OpenGroup(caps, n.num, s), how), n.num, s, j);
  }

  lemma {:induction false} AllFound(t: Node, u: Subject, how: Reading)
    requires !how.ByCode? && Orderless(t)
    ensures Finds(t, u, how)
    decreases t, 2
  {
    hide Run, Matches, HasEnd, Orderless;
    forall s: nat, caps, j: nat | s <= |u.text|
      ensures HasEnd(Run(Whole(t), u, s, caps, how), j) <==> Matches(t, u, s, j)
    {
      MatcherFinds(t, u, s, caps, j, how);
    }
  }
}
