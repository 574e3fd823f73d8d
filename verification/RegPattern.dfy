/** From the parsed tree to the answer of match_at: setup_tree, the compiler and the matching
    machine together. */
module RegPattern {
  import opened RegTree
  import opened RegComp
  import opened RegRef
  import opened RegExec
  import opened RegSim
  import opened RegCorrect
  import opened RegMatch
  import opened RegAgree
  import opened RegSetup
  import opened RegPeek
  import opened RegLanguage
  import opened RegReading

  /** The job holds the code that the compiler makes of the pattern after setup_tree. */
  ghost predicate Built(n: Node, j: Job) {
    Parsed(n, j.maxMem) && MemStats(n, false) <= j.stats && Inlined(Setup(n)) &&
    j.code == Program(Setup(n), j.stats) && |j.code| < 0x8000
  }

  lemma BuiltIsCompiled(n: Node, j: Job)
    requires Built(n, j)
    ensures Compiled(Setup(n), j)
  {
    hide Inlined, Prepared, Program, Setup, Parsed, MemStats;
    SetupPrepares(n, false, j.stats, j.maxMem);
  }

  /** match_at on a compiled pattern halts without ever leaving its code, and reports the first
      outcome of the tree as it is laid out, with its captures: for every pattern. */
  lemma PatternHalts(n: Node, j: Job, s: nat)
    requires Built(n, j) && s <= |j.u.text|
    ensures Reaches(j, Start(j, s), Halt(FirstOf(Outcomes(Setup(n), j.u, s, j.maxMem, ByLayout))))
  {
    hide Outcomes, Reaches, Start, Compiled, Inlined, Setup, Parsed, MemStats;
    BuiltIsCompiled(n, j);
    FastIsPlain(n, j.u, s, j.maxMem);
    MachineMatches(Setup(n), j, s);
  }

  /** The layout of the loops and the operations that look ahead change no outcome of a tree with true
      notes, where its loops are harmless. */
  lemma ReadingsAgree(n: Node, u: Subject, s: nat, maxMem: nat)
    requires Honest(n) && NextOf(n).None? && s <= |u.text| && Harmless(n, u)
    ensures Outcomes(n, u, s, maxMem, ByCode) == Outcomes(n, u, s, maxMem, ByTree)
  {
    hide Run, Honest, NextOf, Harmless, SameThroughout, SameRuns;
    HonestSame(n, u, s, maxMem);
    LayoutExact(n, u);
    ThroughoutSame(n, u);
    SameAt(n, ByTree, n, ByLayout, u, s, seq(maxMem + 1, _ => NotMatched));
  }

  /** Nor does setup_tree change an outcome of the parsed tree. */
  lemma OutcomesKept(n: Node, u: Subject, s: nat, maxMem: nat)
    requires Parsed(n, maxMem) && s <= |u.text| && Harmless(Setup(n), u)
    ensures Outcomes(Setup(n), u, s, maxMem, ByCode) == Outcomes(n, u, s, maxMem, ByTree)
  {
    hide Run, Setup, Parsed, Honest, NextOf, Harmless, SameRuns;
    SetupHonest(n, maxMem);
    SetupKeeps(n, maxMem);
    ReadingsAgree(Setup(n), u, s, maxMem);
    SetupReads(n, u);
    SameAt(Setup(n), ByTree, n, ByTree, u, s, seq(maxMem + 1, _ => NotMatched));
  }

  /** Running the compiled pattern explores exactly the outcomes of the parsed tree, in order. */
  lemma PatternDelivers(n: Node, j: Job, s: nat)
    requires Built(n, j) && s <= |j.u.text| && Harmless(Setup(n), j.u)
    ensures Delivers(TopFrame(Setup(n), j), Start(j, s), Outcomes(n, j.u, s, j.maxMem, ByTree))
  {
    hide Outcomes, Delivers, Start, Compiled, Inlined, Setup, Parsed, MemStats, Harmless;
    BuiltIsCompiled(n, j);
    OutcomesKept(n, j.u, s, j.maxMem);
    ProgramDelivers(Setup(n), j, s);
  }

  /** match_at reports the first outcome that plain backtracking over the parsed tree finds, with the
      same captures, or a mismatch when there is none. */
  lemma PatternMatches(n: Node, j: Job, s: nat)
    requires Built(n, j) && s <= |j.u.text| && Harmless(Setup(n), j.u)
    ensures Reaches(j, Start(j, s), Halt(FirstOf(Outcomes(n, j.u, s, j.maxMem, ByTree))))
  {
    hide Outcomes, Reaches, Start, Compiled, Inlined, Setup, Parsed, MemStats, Harmless;
    BuiltIsCompiled(n, j);
    OutcomesKept(n, j.u, s, j.maxMem);
    MachineMatches(Setup(n), j, s);
  }

  // ----- languages -----

  lemma {:induction false} SetupOrderless(n: Node)
    requires Orderless(n)
    ensures Orderless(Setup(n))
  {
    hide MinLength, HeadExact, CompileLength;
    match n
    case List(l, r) => SetupOrderless(l); SetupOrderless(r);
    case Alt(l, r) => SetupOrderless(l); SetupOrderless(r);
    case Quant(t, _, _, _, _, _, _) => SetupOrderless(t);
    case Group(_, t) => SetupOrderless(t);
    case PrecRead(t) => SetupOrderless(t);
    case PrecReadNot(t) => SetupOrderless(t);
    case _ =>
  }

  /** setup_tree keeps the language. */
  lemma SetupSame(n: Node, u: Subject, i: nat, j: nat)
    requires Orderless(n) && i <= |u.text|
    ensures Matches(Setup(n), u, i, j) <==> Matches(n, u, i, j)
  {
    hide Run, Setup, Matches, Orderless, SameRuns;
    SetupOrderless(n);
    SetupReads(n, u);
    SameAt(Setup(n), ByTree, n, ByTree, u, i, []);
    MatcherFinds(n, u, i, [], j, ByTree);
    MatcherFinds(Setup(n), u, i, [], j, ByTree);
  }

  lemma FirstMatches(n: Node, u: Subject, s: nat, maxMem: nat)
    requires Parsed(n, maxMem) && Orderless(n) && s <= |u.text|
    ensures var r := FirstOf(Outcomes(Setup(n), u, s, maxMem, ByCode));
            (r.Match? ==> Matches(n, u, s, r.end)) && (r.Mismatch? ==> forall e: nat :: !Matches(n, u, s, e))
  {
    hide Run, Setup, Parsed, Matches, Orderless;
    FastIsPlain(n, u, s, maxMem);
    SetupOrderless(n);
    var caps := seq(maxMem + 1, _ => NotMatched);
    var outs := Run(Whole(Setup(n)), u, s, caps, ByLayout);
    forall e: nat ensures HasEnd(outs, e) <==> Matches(n, u, s, e) {
      MatcherFinds(Setup(n), u, s, caps, e, ByLayout);
      SetupSame(n, u, s, e);
    }
    if outs != [] { EndAt(outs, 0); }
  }

  /** For patterns without back-references and atomic groups, harmless or not: match_at reports a
      mismatch exactly when the parsed pattern matches from `s` to no end at all, and else a place
      where it does end. */
  lemma PatternDecides(n: Node, j: Job, s: nat) returns (r: Result)
    requires Built(n, j) && Orderless(n) && s <= |j.u.text|
    ensures Reaches(j, Start(j, s), Halt(r)) && r == FirstOf(Outcomes(Setup(n), j.u, s, j.maxMem, ByCode))
    ensures r.Mismatch? <==> forall e: nat :: !Matches(n, j.u, s, e)
    ensures r.Match? ==> Matches(n, j.u, s, r.end)
  {
    hide Outcomes, Reaches, Start, Compiled, Inlined, Setup, Parsed, MemStats, Matches, Orderless;
    BuiltIsCompiled(n, j);
    MachineMatches(Setup(n), j, s);
    FirstMatches(n, j.u, s, j.maxMem);
    r := FirstOf(Outcomes(Setup(n), j.u, s, j.maxMem, ByCode));
  }
}
