/** match_at on a compiled pattern. */
module RegMatch {
  import opened RegInt
  import opened RegTree
  import opened RegComp
  import opened RegRef
  import opened RegExec
  import opened RegSim
  import opened RegCorrect
  import RegJumps

  /** What match_at reports for a list of outcomes: the first one, with the groups that matched. */
  function Closed(caps: Caps): (r: seq<Cap>)
    ensures |r| == |caps|
    ensures forall i :: 0 <= i < |caps| ==> r[i] == if caps[i].Span? then caps[i] else NotMatched
  {
    seq(|caps|, i requires 0 <= i < |caps| => if caps[i].Span? then caps[i] else NotMatched)
  }

  function FirstOf(outs: seq<Out>): Result {
    if outs == [] then Mismatch else Match(outs[0].s, Closed(outs[0].caps))
  }

  /** The pattern was compiled by this compiler, and its code is short enough for the two-byte
      addresses. */
  ghost predicate Compiled(n: Node, j: Job) {
    Inlined(n) && Prepared(n, j.stats, j.maxMem) && j.code == Program(n, j.stats) && |j.code| < 0x8000
  }

  function TopFrame(n: Node, j: Job): Frame {
    Frame(j, CompileLength(n), [AltEntry(FINISH_CODE, 0)], NoMemory(j.maxMem), 0, NullChecks(n), {})
  }

  /** match_at explores exactly the outcomes of the tree, in their order of preference. */
  lemma ProgramDelivers(n: Node, j: Job, s: nat)
    requires Compiled(n, j) && s <= |j.u.text|
    ensures Delivers(TopFrame(n, j), Start(j, s), Outcomes(n, j.u, s, j.maxMem, ByCode))
  {
    hide Delivers, Run, Inlined, Prepared, NullChecks, CompileLength, Code, Encode;
    var f := TopFrame(n, j);
    InlinedLength(n, j.stats, 0);
    RegJumps.NumbersBounded(n);
    assert Program(n, j.stats)[..CompileLength(n)] == Code(n, j.stats, 0, 0);
    var caps := seq(j.maxMem + 1, _ => NotMatched);
    assert Agree(j, {}, f.base, f.m, caps);
    assert Groups(n) !! {};
    Sim(Whole(n), f, 0, 0, false, s, caps, f.m);
  }

  /** region->beg and region->end at OP_END are the captures of the outcome. */
  lemma RegionsAgree(j: Job, stk: seq<Entry>, m: Memory, caps: Caps)
    requires Agree(j, {}, stk, m, caps)
    ensures Regions(j, j.maxMem + 1, stk, m) == Closed(caps)
  {
    var r := Regions(j, j.maxMem + 1, stk, m);
    forall i | 0 <= i < |caps| ensures r[i] == Closed(caps)[i] {
      assert GroupOk(j, {}, i, stk, m.start[i], m.end[i], caps[i]);
    }
  }

  lemma EndStep(n: Node, j: Job, s: nat, stk: seq<Entry>, m: Memory)
    requires Compiled(n, j)
    ensures Step(j, Exec(CompileLength(n), s, stk, m)) == Halt(Match(s, Regions(j, j.maxMem + 1, stk, m)))
    ensures Safe(j, Exec(CompileLength(n), s, stk, m))
  {
    hide Inlined, Prepared, CompileLength, Code, Step;
    InlinedLength(n, j.stats, 0);
    assert Placed(j.code, CompileLength(n), Encode(End));
    StepOf(j, CompileLength(n), End, s, stk, m);
  }

  lemma FinishSafe(j: Job, m: Memory)
    ensures Safe(j, Exec(FINISH_CODE, 0, [], m))
  {
  }

  /** match_at halts, and reports the first outcome of the tree with its captures, or
      REG_MISMATCH when there is none. */
  lemma MachineMatches(n: Node, j: Job, s: nat)
    requires Compiled(n, j) && s <= |j.u.text|
    ensures Reaches(j, Start(j, s), Halt(FirstOf(Outcomes(n, j.u, s, j.maxMem, ByCode))))
  {
    hide Compiled, Outcomes, Start, Reaches, NullChecks, CompileLength, Regions, Agree, Fetch;
    var f, st, outs := TopFrame(n, j), Start(j, s), Outcomes(n, j.u, s, j.maxMem, ByCode);
    ProgramDelivers(n, j, s);
    if outs == [] {
      var m :| GivesUp(f, st, m);
      var bottom := Exec(FINISH_CODE, 0, [], m);
      PopResume(j, [], f.base[0], m);
      assert [] + [f.base[0]] == f.base;
      assert Safe(j, bottom) by { FinishSafe(j, m); }
      ReachesStep(j, bottom);
      ReachesTrans(j, st, Backtrack(f.base, m), bottom);
      ReachesTrans(j, st, bottom, Halt(Mismatch));
    } else {
      var es, m :| Hands(f, st, outs[0], es, m) &&
                   forall m' :: MemEq(f.loose, m, m') ==> Delivers(f, Backtrack(f.base + es, m'), outs[1..]);
      var at := Exec(f.exit, outs[0].s, f.base + es, m);
      EndStep(n, j, outs[0].s, f.base + es, m);
      RegionsAgree(j, f.base + es, m, outs[0].caps);
      ReachesStep(j, at);
      ReachesTrans(j, st, at, Halt(FirstOf(outs)));
    }
  }
}
