/** A pattern on which match_at does not report what backtracking over the tree finds: a loop that is
    entered in its middle, whose first pass consumes nothing but changes what the body matches. The
    pattern is `(?:\1a|()|z...z)+` with enough of the letter z, searched for in the text `a`. */
module RegEmptyPass {
  import opened RegInt
  import opened RegTree
  import opened Wrappers
  import opened RegComp
  import opened RegRef
  import opened RegExec
  import opened RegMatch
  import opened RegAgree
  import opened RegSetup
  import opened RegReading
  import opened RegPattern

  const A: Byte := 97

  function Long(): (s: seq<Byte>)
    ensures |s| == 51
  {
    RepeatStringLength([122], 51);
    TimesIsProduct(1, 51);
    RepeatString([122], 51)
  }

  function Again(): Node { List(Node.Backref(1), List(Str([A]), Null)) }

  /** The body of the loop, and the pattern. */
  function Body(): Node { Alt(Again(), Alt(Group(1, Empty), Alt(Str(Long()), Null))) }

  function Pattern(): Node { Quant(Body(), 1, Infinite, true, false, None, None) }

  function Text(): Subject { Subject([A], 0, false, 0) }

  /** Group 1 with an empty match at `x`, or without a match. */
  function Empties(x: Option<nat>): Caps {
    [NotMatched, if x.Some? then Span(x.value, x.value) else NotMatched]
  }

  lemma AgainOutcomes(s: nat, x: Option<nat>, how: Reading)
    requires s <= 1 && (x.Some? ==> x.value <= 1)
    ensures Run(Whole(Again()), Text(), s, Empties(x), how) ==
            RegRef.When(x.Some? && s == 0, Out(1, Empties(x)))
  {
    var u, caps := Text(), Empties(x);
    var rest := List(Str([A]), Null);
    if x.Some? {
      assert u.text[x.value..x.value] == [];
      assert Referred(u, caps, 1) == Some([]);
      EmptyBackref(s, x.value, how);
      OneLetter(s, caps, how);
      RunAllOne(rest, u, Out(s, caps), how);
    }
  }

  lemma EmptyBackref(s: nat, x: nat, how: Reading)
    requires s <= 1 && x <= 1
    ensures Run(Whole(Node.Backref(1)), Text(), s, Empties(Some(x)), how) == [Out(s, Empties(Some(x)))]
  {
    assert Text().text[x..x] == [] == Text().text[s..s];
  }

  lemma OneLetter(s: nat, caps: Caps, how: Reading)
    requires s <= 1
    ensures Run(Whole(List(Str([A]), Null)), Text(), s, caps, how) == RegRef.When(s == 0, Out(1, caps))
  {
    var u := Text();
    var outs := Run(Whole(Str([A])), u, s, caps, how);
    if s == 0 {
      assert u.text[0..1] == [A];
      assert outs == [Out(1, caps)];
      RunAllOne(Null, u, Out(1, caps), how);
    } else {
      assert outs == [];
      assert RunAll(Whole(Null), u, [], how) == [];
    }
  }

  lemma RunAllOne(n: Node, u: Subject, o: Out, how: Reading)
    ensures RunAll(Whole(n), u, [o], how) == Run(Whole(n), u, o.s, o.caps, how)
  {
    hide Run;
    assert [o][1..] == [];
    assert RunAll(Whole(n), u, [], how) == [];
  }

  /** The body at `s`: the letter when the group has matched, then the empty group. */
  lemma BodyOutcomes(s: nat, x: Option<nat>, how: Reading)
    requires s <= 1 && (x.Some? ==> x.value <= 1)
    ensures Run(Whole(Body()), Text(), s, Empties(x), how) ==
            RegRef.When(x.Some? && s == 0, Out(1, Empties(x))) + [Out(s, Empties(Some(s)))]
  {
    hide RunAll, Referred, Again, Long;
    var u, caps := Text(), Empties(x);
    AgainOutcomes(s, x, how);
    assert Run(Whole(Alt(Str(Long()), Null)), u, s, caps, how) == [];
    EmptyGroup(s, x, how);
  }

  lemma EmptyGroup(s: nat, x: Option<nat>, how: Reading)
    ensures Run(Whole(Group(1, Empty)), Text(), s, Empties(x), how) == [Out(s, Empties(Some(s)))]
  {
    var caps := OpenGroup(Empties(x), 1, s);
    var outs := Run(Whole(Empty), Text(), s, caps, how);
    assert outs == [Out(s, caps)];
    assert outs[1..] == [];
    assert CloseAll(outs, 1, s) == [Out(s, CloseGroup(caps, 1, s, s))] + CloseAll(outs[1..], 1, s);
    assert CloseGroup(caps, 1, s, s) == Empties(Some(s));
  }

  /** The first pass through the body has one outcome, which consumed nothing. */
  lemma FirstPass(how: Reading)
    ensures Run(Whole(Body()), Text(), 0, Empties(None), how) == [Out(0, Empties(Some(0)))]
  {
    hide Body, Run;
    BodyOutcomes(0, None, how);
  }

  /** Entered in its middle, the loop ends behind that pass. */
  lemma LaidOutEnd(n: Node)
    requires n.Quant? && n.target == Body() && n.upper.Infinite? && n.greedy && Layout(n) == Loop(true)
    ensures RunTree(n, Text(), 0, Empties(None), ByLayout) == [Out(0, Empties(Some(0)))]
  {
    hide Run, RunAll, Iterate, Body, Layout;
    FirstPass(ByLayout);
    var outs := [Out(0, Empties(Some(0)))];
    assert outs[1..] == [];
    PassFirst(Body(), true, Always, Text(), 0, outs, ByLayout);
    NoPass(Body(), true, Always, Text(), 0, ByLayout);
  }

  /** Behind one copy the loop goes on: the group has matched now, and the letter is found. */
  lemma TreeEnd()
    ensures var outs := RunTree(Pattern(), Text(), 0, Empties(None), ByTree); outs != [] && outs[0].s == 1
  {
    hide Run, RunAll, Iterate, Body, Layout;
    var t, u := Body(), Text();
    FirstPass(ByTree);
    OneCopy(t, u);
    LoopEnd(t);
    var first := Out(0, Empties(Some(0)));
    RunAllHead(Repeat(t, true, Always), u, [first]);
  }

  lemma OneCopy(t: Node, u: Subject)
    requires Run(Whole(t), u, 0, Empties(None), ByTree) == [Out(0, Empties(Some(0)))]
    ensures Run(Copies(t, 1), u, 0, Empties(None), ByTree) == [Out(0, Empties(Some(0)))]
  {
    hide RunTree, RunLeaf, Iterate;
    RunAllNone(Copies(t, 0), u, [Out(0, Empties(Some(0)))], ByTree);
  }

  lemma RunAllHead(p: Part, u: Subject, outs: seq<Out>)
    requires outs != [] && Run(p, u, outs[0].s, outs[0].caps, ByTree) != []
    ensures RunAll(p, u, outs, ByTree) != []
    ensures RunAll(p, u, outs, ByTree)[0] == Run(p, u, outs[0].s, outs[0].caps, ByTree)[0]
  {
    hide Run;
  }

  /** The loop at the start, when the group has matched nothing there: it ends behind the letter. */
  lemma LoopEnd(t: Node)
    requires t == Body()
    ensures var outs := Run(Repeat(t, true, Always), Text(), 0, Empties(Some(0)), ByTree); outs != [] && outs[0].s == 1
  {
    hide RunTree, RunLeaf, RunAll, Iterate, Body;
    var u, caps := Text(), Empties(Some(0));
    BodyOutcomes(0, Some(0), ByTree);
    var outs := Run(Whole(t), u, 0, caps, ByTree);
    assert outs[0] == Out(1, caps);
    PassFirst(t, true, Always, u, 0, outs, ByTree);
    LoopAtEnd(t);
  }

  lemma LoopAtEnd(t: Node)
    requires t == Body()
    ensures var outs := Run(Repeat(t, true, Always), Text(), 1, Empties(Some(0)), ByTree); outs != [] && outs[0].s == 1
  {
    hide RunTree, RunLeaf, RunAll, Iterate, Body;
    var u, caps := Text(), Empties(Some(0));
    BodyOutcomes(1, Some(0), ByTree);
    var outs := Run(Whole(t), u, 1, caps, ByTree);
    assert outs[0] == Out(1, Empties(Some(1)));
    PassFirst(t, true, Always, u, 1, outs, ByTree);
  }

  // ----- the compiled pattern -----

  lemma BodySize()
    ensures CompileLength(Again()) == 3 && CompileLength(Group(1, Empty)) == 6
    ensures CompileLength(Alt(Str(Long()), Null)) == 54 && CompileLength(Body()) == 75
  {
    hide Long;
    assert CompileLength(Str(Long())) == 54;
    AltSize(Str(Long()), Null);
    AltSize(Group(1, Empty), Alt(Str(Long()), Null));
    AltSize(Again(), Alt(Group(1, Empty), Alt(Str(Long()), Null)));
  }

  /** setup_tree only marks the loop for the null check. */
  lemma SetupPattern()
    ensures Setup(Pattern()) == Pattern().(targetEmpty := true)
    ensures Layout(Setup(Pattern())) == Loop(true)
  {
    hide Long, CompileLength;
    BodySize();
    assert Setup(Again()) == Again();
    assert Setup(Body()) == Body();
    assert MinLength(Body()) == 0;
  }

  lemma PatternParsed()
    ensures Parsed(Pattern(), 1) && MemStats(Pattern(), false) == {1} && Inlined(Setup(Pattern()))
  {
    hide Long, CompileLength, Layout, Setup, Body;
    SetupPattern();
    BodyParsed();
  }

  lemma BodyParsed()
    ensures Parsed(Body(), 1) && MemStats(Body(), false) == {1} && Inlined(Body())
  {
    hide Long, CompileLength, Layout, Setup;
    var last := Alt(Str(Long()), Null);
    assert Parsed(last, 1) && MemStats(last, true) == {} && Inlined(last);
    var group := Group(1, Empty);
    assert Parsed(group, 1) && MemStats(group, true) == {1} && Inlined(group);
  }

  /** match_at finds the pattern at the start of the text and reports the end 0, where backtracking
      over the tree ends at 1. */
  lemma EmptyPassEndsLoop() returns (j: Job)
    ensures Built(Pattern(), j) && j.u == Text()
    ensures exists r: Result :: Reaches(j, Start(j, 0), Halt(r)) && r.Match? && r.end == 0
    ensures var r := FirstOf(Outcomes(Pattern(), j.u, 0, j.maxMem, ByTree)); r.Match? && r.end == 1
  {
    hide Run, RunTree, Reaches, Start, Parsed, MemStats, Inlined, CompileLength, Layout, Setup, Code, Body;
    var n := Pattern();
    PatternParsed();
    SetupPattern();
    j := Job(Program(Setup(n), {1}), {1}, 1, Text());
    PatternShort();
    PatternHalts(n, j, 0);
    LaidOutEnd(Setup(n));
    TreeEnd();
    TreeOf(n, Text(), 0, Empties(None), ByTree);
    TreeOf(Setup(n), Text(), 0, Empties(None), ByLayout);
    assert seq(j.maxMem + 1, _ => NotMatched) == Empties(None);
  }

  lemma PatternShort()
    requires Inlined(Setup(Pattern()))
    ensures |Program(Setup(Pattern()), {1})| < 0x8000
  {
    hide Inlined, Setup, Code, Body;
    SetupPattern();
    BodySize();
    InlinedLength(Setup(Pattern()), {1}, 0);
  }
}
