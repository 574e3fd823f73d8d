/** The compiled code of a tree, run by the machine, hands out exactly the outcomes of the tree
    in their order of preference. */
module RegCorrect {
  import opened RegInt
  import opened RegTree
  import opened Wrappers
  import opened RegComp
  import opened RegRef
  import opened RegFacts
  import opened RegAgree
  import opened RegExec
  import opened RegSim

  /** What setup_tree and the numbering of the groups leave behind: groups that are referred to
      have their memory status bit, group numbers do not nest in themselves, and an unbounded
      loop whose body may match nothing is marked for the null check. */
  predicate Prepared(n: Node, stats: set<nat>, maxMem: nat) {
    match n
    case Backref(k) => k > maxMem || k in stats
    case List(l, r) => Prepared(l, stats, maxMem) && Prepared(r, stats, maxMem)
    case Alt(l, r) => Prepared(l, stats, maxMem) && Prepared(r, stats, maxMem)
    case Quant(t, _, upper, _, checked, _, _) =>
      Prepared(t, stats, maxMem) && (upper.Infinite? && MinLength(t) == 0 ==> checked)
    case Group(k, t) => k <= maxMem && k !in Groups(t) && Prepared(t, stats, maxMem)
    case PrecRead(t) => Prepared(t, stats, maxMem)
    case PrecReadNot(t) => Prepared(t, stats, maxMem)
    case StopBacktrack(t) => Prepared(t, stats, maxMem)
    case _ => true
  }

  function PartNulls(p: Part, checked: bool): nat {
    match p
    case Whole(n) => NullChecks(n)
    case Copies(t, k) => Times(NullChecks(t), k)
    case Optional(t, k, _) => Times(NullChecks(t), k)
    case Repeat(t, _, _) => NullChecks(t) + (if checked then 1 else 0)
    case DotStar(_, _) => 0
  }

  /** Where the code of the loop starts when its test is at `pc`: a lazy loop is tested at its end. */
  function LoopBegin(t: Node, greedy: bool, checked: bool, pc: int): int {
    if greedy then pc else pc - SIZE_OP_JUMP - BodyLength(CompileLength(t), checked)
  }

  /** The code of `p` stands in the program, entered at `pc` and left at `exit`. */
  ghost predicate Installed(p: Part, j: Job, pc: int, id: nat, checked: bool, exit: int)
    requires Inlined(PartNode(p))
  {
    match p
    case Whole(n) => Placed(j.code, pc, Code(n, j.stats, id, 0)) && exit == pc + CompileLength(n)
    case Copies(t, k) =>
      Placed(j.code, pc, CopiesCode(t, k, j.stats, id, 0)) && exit == pc + Times(CompileLength(t), k)
    case Optional(t, k, greedy) =>
      greedy && Placed(j.code, pc, OptionsCode(t, k, j.stats, id, 0)) &&
      exit == pc + Times(CompileLength(t) + SIZE_OP_PUSH, k)
    case Repeat(t, greedy, g) =>
      Placed(j.code, LoopBegin(t, greedy, checked, pc), LoopCode(t, greedy, checked, g, j.stats, id, 0)) &&
      (checked || MinLength(t) > 0) &&
      exit == LoopBegin(t, greedy, checked, pc) + |LoopCode(t, greedy, checked, g, j.stats, id, 0)|
    case DotStar(_, next) =>
      Placed(j.code, pc, Encode(AnyCharStarInstr(next))) && exit == pc + |Encode(AnyCharStarInstr(next))|
  }

  ghost predicate Sound(n: Node, f: Frame) {
    Inlined(n) && Prepared(n, f.j.stats, f.j.maxMem) && Groups(n) !! f.loose &&
    |f.j.code| < 0x8000 && f.base != [] && f.hi <= 0x8000
  }

  ghost predicate Ready(p: Part, f: Frame, pc: int, id: nat, checked: bool) {
    Sound(PartNode(p), f) && f.lo <= id && id + PartNulls(p, checked) <= f.hi &&
    Installed(p, f.j, pc, id, checked, f.exit)
  }

  ghost predicate At(f: Frame, s: nat, caps: Caps, m: Memory) {
    s <= |f.j.u.text| && Agree(f.j, f.loose, f.base, m, caps) && MemEq(f.loose, f.m, m)
  }

  lemma StepOf(j: Job, pc: int, i: Instr, s: nat, stk: seq<Entry>, m: Memory)
    requires Encodable(i) && Placed(j.code, pc, Encode(i))
    ensures Step(j, Exec(pc, s, stk, m)) == Perform(j, i, pc + |Encode(i)|, s, stk, m)
    ensures !i.MemoryEndPush? && !i.MemoryEnd? ==> Safe(j, Exec(pc, s, stk, m))
    ensures i.MemoryEndPush? && (ValidMem(m, i.num) ==> m.end[i.num] == Invalid) ==> Safe(j, Exec(pc, s, stk, m))
    ensures i.MemoryEnd? && i.num !in j.stats ==> Safe(j, Exec(pc, s, stk, m))
  {
    hide Fetch, Perform, Encode;
    FetchEncoded(j.code, pc, i);
  }

  lemma DeliverWhen(f: Frame, b: bool, o: Out, m: Memory)
    requires MemEq(f.loose, f.m, m) && Agree(f.j, f.loose, f.base, m, o.caps)
    ensures Delivers(f, RegExec.When(b, Exec(f.exit, o.s, f.base, m), f.base, m), RegRef.When(b, o))
  {
    hide Delivers, MemEq, Agree;
    if b { DeliverHere(f, o, m); } else { DeliverFail(f, m); }
  }

  // ----- trees without subtrees -----

  /** The back-reference read off the stack is the text of the group. */
  lemma BackrefAgrees(j: Job, loose: set<nat>, k: nat, stk: seq<Entry>, m: Memory, caps: Caps)
    requires Agree(j, loose, stk, m, caps) && (k > j.maxMem || k in j.stats)
    ensures BackrefText(j, k, stk, m) == Referred(j.u, caps, k)
  {
    if k <= j.maxMem {
      assert GroupOk(j, loose, k, stk, m.start[k], m.end[k], caps[k]);
    }
  }

  lemma SimLeaf(n: Node, f: Frame, pc: int, id: nat, s: nat, caps: Caps, m: Memory)
    requires IsLeaf(n) && Ready(Whole(n), f, pc, id, false) && At(f, s, caps, m)
    ensures Delivers(f, Exec(pc, s, f.base, m), RunLeaf(n, f.j.u, s, caps))
  {
    hide Delivers, MemEq, Agree, Encode, StringAt, ClassAt, DotAt, BackrefText, Referred, Reaches, Fetch;
    var st := Exec(pc, s, f.base, m);
    InlinedLength(n, f.j.stats, id);
    match n
    case Str(str) =>
      if str == [] {
        DeliverHere(f, Out(s, caps), m);
        assert f.j.u.text[s..s] == [];
        EmptyString(f.j.u, s);
      } else {
        StepOf(f.j, pc, Exact(str), s, f.base, m);
        ExactIsString(f.j.u, s, str);
        DeliverWhen(f, StringAt(f.j.u.text, s, str), Out(s + |str|, caps), m);
        DeliverStep(f, st, RunLeaf(n, f.j.u, s, caps));
      }
    case CClass(bits, negated) =>
      StepOf(f.j, pc, if negated then CClassNot(bits) else Instr.CClass(bits), s, f.base, m);
      DeliverWhen(f, ClassAt(f.j.u, s, bits, negated), Out(s + 1, caps), m);
      DeliverStep(f, st, RunLeaf(n, f.j.u, s, caps));
    case AnyChar =>
      StepOf(f.j, pc, Instr.AnyChar, s, f.base, m);
      DeliverWhen(f, DotAt(f.j.u, s), Out(s + 1, caps), m);
      DeliverStep(f, st, RunLeaf(n, f.j.u, s, caps));
    case Anchor(kind) =>
      StepOf(f.j, pc, AnchorInstr(kind), s, f.base, m);
      DeliverWhen(f, AnchorAt(f.j.u, s, kind), Out(s, caps), m);
      DeliverStep(f, st, RunLeaf(n, f.j.u, s, caps));
    case Backref(k) =>
      StepOf(f.j, pc, Instr.Backref(k), s, f.base, m);
      BackrefAgrees(f.j, f.loose, k, f.base, m, caps);
      var r := Referred(f.j.u, caps, k);
      if r.Some? {
        DeliverWhen(f, StringAt(f.j.u.text, s, r.value), Out(s + |r.value|, caps), m);
      } else {
        DeliverFail(f, m);
      }
      DeliverStep(f, st, RunLeaf(n, f.j.u, s, caps));
    case _ => DeliverHere(f, Out(s, caps), m);
  }

  lemma EmptyString(u: Subject, s: nat)
    requires s <= |u.text|
    ensures StringAt(u.text, s, [])
  {
  }

  lemma ExactIsString(u: Subject, s: nat, str: seq<Byte>)
    requires s <= |u.text|
    ensures ExactAt(u, s, str) == StringAt(u.text, s, str)
  {
    if |str| == 1 && s < |u.text| {
      assert u.text[s..s + 1] == [u.text[s]];
      assert str == [str[0]];
    }
  }

  /** OP_ANYCHAR_STAR and OP_ANYCHAR_STAR_PEEK_NEXT: their inner loop leaves one alternative for
      every position it passes. */
  lemma {:induction false} SimDotStar(f: Frame, next: Option<Byte>, s: nat, caps: Caps, m: Memory)
    requires At(f, s, caps, m)
    ensures Delivers(f, DotStarStep(f.j, next, f.exit, s, f.base, m), RunDotStar(next, f.j.u, s, caps))
    decreases |f.j.u.text| - s
  {
    hide Delivers, MemEq, Agree, DotAt, Reaches;
    var u := f.j.u;
    if s >= |u.text| {
      DeliverHere(f, Out(s, caps), m);
    } else {
      var offered := next.None? || next.value == u.text[s];
      var es := if offered then [AltEntry(f.exit, s)] else [];
      var g := Above(f, es, m);
      assert f.base + [] == f.base;
      AgreePush(f.j, f.loose, f.base, es, m, caps);
      MemEqSelf(f.loose, f.m, m);
      var first := if DotAt(u, s) then RunDotStar(next, u, s + 1, caps) else [];
      var st := if DotAt(u, s) then DotStarStep(f.j, next, f.exit, s + 1, g.base, m) else Backtrack(g.base, m);
      if DotAt(u, s) {
        DotInText(u, s);
        SimDotStar(g, next, s + 1, caps, m);
      } else {
        DeliverFail(g, m);
      }
      DeliverThenLeave(f, es, AltEntry(f.exit, s), offered, Out(s, caps), m, st, first);
    }
  }

  lemma DotInText(u: Subject, s: nat)
    requires DotAt(u, s)
    ensures s < |u.text|
  {
  }

  lemma MemEqSelf(loose: set<nat>, a: Memory, b: Memory)
    requires MemEq(loose, a, b)
    ensures MemEq(loose, b, b) && MemEq(loose, a, a)
  {
  }

  /** An alternative to the exit below the outcomes `first` is one more outcome after them. */
  lemma DeliverThenLeave(f: Frame, es: seq<Entry>, alt: Entry, offered: bool, o: Out, m: Memory, st: State, first: seq<Out>)
    requires es == (if offered then [alt] else []) && alt == AltEntry(f.exit, o.s)
    requires MemEq(f.loose, f.m, m) && Agree(f.j, f.loose, f.base, m, o.caps)
    requires Delivers(Above(f, es, m), st, first)
    ensures Delivers(f, st, first + RegRef.When(offered, o))
  {
    hide Delivers, MemEq, Agree, Reaches;
    var last := RegRef.When(offered, o);
    forall m' | MemEq(f.loose, m, m') ensures Delivers(f, Backtrack(f.base + es, m'), last) {
      MemEqTrans(f.loose, f.m, m, m');
      if offered {
        PopResume(f.j, f.base, alt, m');
        AgreeMemEq(f.j, f.loose, f.base, m, m', o.caps);
        DeliverHere(f, o, m');
        DeliverLater(f, Backtrack(f.base + es, m'), Exec(f.exit, o.s, f.base, m'), last);
      } else {
        assert f.base + [] == f.base;
        DeliverFail(f, m');
      }
    }
    if offered { UnwindOne(alt, m); }
    DeliverConcat(f, es, m, st, first, last);
  }

  // ----- lists, alternatives and copies -----

  lemma PartLater(p: Part, f: Frame, es: seq<Entry>, m: Memory, pc: int, id: nat, checked: bool)
    requires Ready(p, f, pc, id, checked)
    ensures Ready(p, Above(f, es, m), pc, id, checked)
  {
    hide Installed;
  }

  /** Each of the outcomes handed out at `mid` is continued through the part that stands there. */
  lemma {:induction false} SimAll(p: Part, f: Frame, mid: int, id: nat, checked: bool, st: State, outs: seq<Out>)
    requires Ready(p, f, mid, id, checked) && Delivers(f.(exit := mid), st, outs)
    requires forall k :: 0 <= k < |outs| ==> outs[k].s <= |f.j.u.text|
    ensures Delivers(f, st, RunAll(p, f.j.u, outs, ByCode))
    decreases PartNode(p), PartRank(p), PartCount(p), |outs|
  {
    hide MemEq, Agree, Reaches, Installed, Inlined, Prepared, Groups, EntriesOk, Unwind, Run;
    var g := f.(exit := mid);
    if outs == [] {
      var m :| GivesUp(g, st, m);
      assert GivesUp(f, st, m);
    } else {
      var es, m :| Hands(g, st, outs[0], es, m) &&
                   forall m' :: MemEq(g.loose, m, m') ==> Delivers(g, Backtrack(g.base + es, m'), outs[1..]);
      var o := outs[0];
      var at := Exec(mid, o.s, f.base + es, m);
      var above := Above(f, es, m);
      PartLater(p, f, es, m, mid, id, checked);
      MemEqRefl(f.loose, m);
      Sim(p, above, mid, id, checked, o.s, o.caps, m);
      var rest := RunAll(p, f.j.u, outs[1..], ByCode);
      forall m' | MemEq(f.loose, m, m') ensures Delivers(f, Backtrack(f.base + es, m'), rest) {
        SimAll(p, f, mid, id, checked, Backtrack(f.base + es, m'), outs[1..]);
      }
      DeliverConcat(f, es, m, at, Run(p, f.j.u, o.s, o.caps, ByCode), rest);
      DeliverLater(f, st, at, RunAll(p, f.j.u, outs, ByCode));
    }
  }

  lemma MemEqRefl(loose: set<nat>, m: Memory)
    ensures MemEq(loose, m, m)
  {
  }

  /** The outcomes of a tree lie inside the text. */
  lemma InText(p: Part, u: Subject, s: nat, caps: Caps)
    requires s <= |u.text|
    ensures forall k :: 0 <= k < |Run(p, u, s, caps, ByCode)| ==> s <= Run(p, u, s, caps, ByCode)[k].s <= |u.text|
  {
    hide Run;
    RunInside(p, u, s, caps, ByCode);
  }

  /** The side conditions pass down to the subtrees. */
  lemma SoundPair(n: Node, f: Frame)
    requires (n.List? || n.Alt?) && Sound(n, f)
    ensures Sound(n.left, f) && Sound(n.right, f)
    ensures NullChecks(n) == NullChecks(n.left) + NullChecks(n.right)
  {
  }

  lemma ListParts(l: Node, r: Node, f: Frame, pc: int, id: nat)
    requires Ready(Whole(List(l, r)), f, pc, id, false)
    ensures Ready(Whole(l), f.(exit := pc + CompileLength(l)), pc, id, false)
    ensures Ready(Whole(r), f, pc + CompileLength(l), id + NullChecks(l), false)
  {
    hide Code, Encode, Layout, MinLength, Inlined, Prepared, Groups, NullChecks;
    SoundPair(List(l, r), f);
    InlinedPair(List(l, r));
    ListCode(List(l, r), f.j.stats, id, 0);
    InlinedLength(l, f.j.stats, id);
    PlacedSplit(f.j.code, pc, Code(l, f.j.stats, id, 0), Code(r, f.j.stats, id + NullChecks(l), 0));
  }

  lemma {:induction false} SimList(l: Node, r: Node, f: Frame, pc: int, id: nat, s: nat, caps: Caps, m: Memory)
    requires Ready(Whole(List(l, r)), f, pc, id, false) && At(f, s, caps, m)
    ensures Delivers(f, Exec(pc, s, f.base, m), RunTree(List(l, r), f.j.u, s, caps, ByCode))
    decreases List(l, r), 0, 0, 0
  {
    hide Ready, Delivers, Run, RunAll, CompileLength, NullChecks, Agree, MemEq;
    var mid := pc + CompileLength(l);
    ListParts(l, r, f, pc, id);
    Sim(Whole(l), f.(exit := mid), pc, id, false, s, caps, m);
    InText(Whole(l), f.j.u, s, caps);
    SimAll(Whole(r), f, mid, id + NullChecks(l), false, Exec(pc, s, f.base, m), Run(Whole(l), f.j.u, s, caps, ByCode));
  }

  lemma AltPlaced(j: Job, l: Node, r: Node, pc: int, id: nat)
    requires Inlined(Alt(l, r)) && Inlined(l) && Inlined(r) && !r.Null? && Placed(j.code, pc, Code(Alt(l, r), j.stats, id, 0))
    ensures var afterL := pc + SIZE_OP_PUSH + CompileLength(l);
            Placed(j.code, pc, Encode(Push(CompileLength(l) + SIZE_OP_JUMP))) &&
            Placed(j.code, pc + SIZE_OP_PUSH, Code(l, j.stats, id, 0)) &&
            Placed(j.code, afterL, Encode(Jump(CompileLength(r)))) &&
            Placed(j.code, afterL + SIZE_OP_JUMP, Code(r, j.stats, id + NullChecks(l), 0))
  {
    hide Code, Encode, Inlined, NullChecks, CompileLength, Placed;
    InlinedSized(l);
    AltCode(l, r, j.stats, id, 0);
    var cl, cr := Code(l, j.stats, id, 0), Code(r, j.stats, id + NullChecks(l), 0);
    var push, jump := Push(CompileLength(l) + SIZE_OP_JUMP), Jump(CompileLength(r));
    InlinedLength(l, j.stats, id);
    SizeOf(push);
    SizeOf(jump);
    PlacedFour(j.code, pc, Encode(push), cl, Encode(jump), cr);
  }

  /** The pieces of `l|r`: OP_PUSH, the left side, OP_JUMP, the right side. */
  lemma AltParts(l: Node, r: Node, f: Frame, pc: int, id: nat, s: nat, m: Memory)
    requires Ready(Whole(Alt(l, r)), f, pc, id, false) && !r.Null?
    ensures var afterL := pc + SIZE_OP_PUSH + CompileLength(l);
            var right := afterL + SIZE_OP_JUMP;
            pc >= 0 && f.exit == right + CompileLength(r) &&
            Step(f.j, Exec(pc, s, f.base, m)) == Exec(pc + SIZE_OP_PUSH, s, f.base + [AltEntry(right, s)], m) &&
            Safe(f.j, Exec(pc, s, f.base, m)) &&
            Fetch(f.j.code, afterL) == Fetched(Jump(CompileLength(r)), right) &&
            Ready(Whole(l), f.(exit := afterL), pc + SIZE_OP_PUSH, id, false) &&
            Ready(Whole(r), f, right, id + NullChecks(l), false)
  {
    hide QuantCode, Encode, Layout, Fetch, Step, Inlined, Prepared, Groups, NullChecks, Code, CompileLength, Placed;
    var n := Alt(l, r);
    AltSize(l, r);
    InlinedLength(n, f.j.stats, id);
    InBounds(f.j.code, pc, Code(n, f.j.stats, id, 0));
    var afterL := pc + SIZE_OP_PUSH + CompileLength(l);
    var push, jump := Push(CompileLength(l) + SIZE_OP_JUMP), Jump(CompileLength(r));
    InlinedPair(Alt(l, r));
    AltPlaced(f.j, l, r, pc, id);
    SoundPair(Alt(l, r), f);
    InlinedLength(r, f.j.stats, id + NullChecks(l));
    SizeOf(push);
    SizeOf(jump);
    StepOf(f.j, pc, push, s, f.base, m);
    FetchEncoded(f.j.code, afterL, jump);
  }

  lemma {:induction false} SimAlt(l: Node, r: Node, f: Frame, pc: int, id: nat, s: nat, caps: Caps, m: Memory)
    requires Ready(Whole(Alt(l, r)), f, pc, id, false) && !r.Null? && At(f, s, caps, m)
    ensures Delivers(f, Exec(pc, s, f.base, m), RunTree(Alt(l, r), f.j.u, s, caps, ByCode))
    decreases Alt(l, r), 0, 0, 0
  {
    hide Ready, Delivers, Run, RunAll, CompileLength, NullChecks, Agree, MemEq, Reaches, Step, Fetch;
    var afterL := pc + SIZE_OP_PUSH + CompileLength(l);
    var right := afterL + SIZE_OP_JUMP;
    var es := [AltEntry(right, s)];
    AltParts(l, r, f, pc, id, s, m);
    var above := Above(f, es, m);
    PartLater(Whole(l), f.(exit := afterL), es, m, pc + SIZE_OP_PUSH, id, false);
    AgreePush(f.j, f.loose, f.base, es, m, caps);
    MemEqRefl(f.loose, m);
    var at := Exec(pc + SIZE_OP_PUSH, s, f.base + es, m);
    var a, b := Run(Whole(l), f.j.u, s, caps, ByCode), Run(Whole(r), f.j.u, s, caps, ByCode);
    Sim(Whole(l), above.(exit := afterL), pc + SIZE_OP_PUSH, id, false, s, caps, m);
    DeliverJump(above, afterL, CompileLength(r), at, a);
    forall m' | MemEq(f.loose, m, m') ensures Delivers(f, Backtrack(f.base + es, m'), b) {
      MemEqTrans(f.loose, f.m, m, m');
      AgreeMemEq(f.j, f.loose, f.base, m, m', caps);
      PopResume(f.j, f.base, es[0], m');
      Sim(Whole(r), f, right, id + NullChecks(l), false, s, caps, m');
      DeliverLater(f, Backtrack(f.base + es, m'), Exec(right, s, f.base, m'), b);
    }
    UnwindOne(es[0], m);
    DeliverConcat(f, es, m, at, a, b);
    DeliverStep(f, Exec(pc, s, f.base, m), a + b);
  }

  lemma CopiesParts(t: Node, k: nat, f: Frame, pc: int, id: nat)
    requires k > 0 && Ready(Copies(t, k), f, pc, id, false)
    ensures Ready(Whole(t), f.(exit := pc + CompileLength(t)), pc, id, false)
    ensures Ready(Copies(t, k - 1), f, pc + CompileLength(t), id + NullChecks(t), false)
  {
    hide Code, Inlined, Prepared, Groups, CompileLength, NullChecks;
    InlinedSized(t);
    InlinedLength(t, f.j.stats, id);
    PlacedSplit(f.j.code, pc, Code(t, f.j.stats, id, 0), CopiesCode(t, k - 1, f.j.stats, id + NullChecks(t), 0));
  }

  lemma OptionalPlaced(j: Job, t: Node, k: nat, pc: int, id: nat)
    requires k > 0 && Inlined(t) && Placed(j.code, pc, OptionsCode(t, k, j.stats, id, 0))
    ensures Placed(j.code, pc, Encode(Push(Times(CompileLength(t) + SIZE_OP_PUSH, k) - SIZE_OP_PUSH)))
    ensures Placed(j.code, pc + SIZE_OP_PUSH, Code(t, j.stats, id, 0))
    ensures Placed(j.code, pc + SIZE_OP_PUSH + CompileLength(t), OptionsCode(t, k - 1, j.stats, id + NullChecks(t), 0))
  {
    hide Code, CompileLength, NullChecks, Encode, Times;
    var push := Push(Times(CompileLength(t) + SIZE_OP_PUSH, k) - SIZE_OP_PUSH);
    var ct, rest := Code(t, j.stats, id, 0), OptionsCode(t, k - 1, j.stats, id + NullChecks(t), 0);
    InlinedSized(t);
    InlinedLength(t, j.stats, id);
    SizeOf(push);
    PlacedSplit(j.code, pc, Encode(push), ct + rest);
    PlacedSplit(j.code, pc + SIZE_OP_PUSH, ct, rest);
  }

  lemma OptionalParts(t: Node, k: nat, f: Frame, pc: int, id: nat, s: nat, m: Memory)
    requires k > 0 && Ready(Optional(t, k, true), f, pc, id, false)
    ensures Step(f.j, Exec(pc, s, f.base, m)) == Exec(pc + SIZE_OP_PUSH, s, f.base + [AltEntry(f.exit, s)], m)
    ensures Safe(f.j, Exec(pc, s, f.base, m))
    ensures Ready(Whole(t), f.(exit := pc + SIZE_OP_PUSH + CompileLength(t)), pc + SIZE_OP_PUSH, id, false)
    ensures Ready(Optional(t, k - 1, true), f, pc + SIZE_OP_PUSH + CompileLength(t), id + NullChecks(t), false)
  {
    hide Code, Inlined, Prepared, Groups, CompileLength, NullChecks, Encode, Step, OptionsCode, Placed;
    var push := Push(Times(CompileLength(t) + SIZE_OP_PUSH, k) - SIZE_OP_PUSH);
    OptionalPlaced(f.j, t, k, pc, id);
    InlinedSized(t);
    OptionsLength(t, k, f.j.stats, id, 0);
    InBounds(f.j.code, pc, OptionsCode(t, k, f.j.stats, id, 0));
    SizeOf(push);
    StepOf(f.j, pc, push, s, f.base, m);
  }

  lemma InBounds(code: seq<Byte>, pc: int, bytes: seq<Byte>)
    requires Placed(code, pc, bytes)
    ensures 0 <= pc && pc + |bytes| <= |code|
  {
  }

  /** Mandatory copies: the first one, and the others from each of its outcomes. */
  lemma {:induction false} SimCopies(t: Node, k: nat, f: Frame, pc: int, id: nat, s: nat, caps: Caps, m: Memory)
    requires k > 0 && Ready(Copies(t, k), f, pc, id, false) && At(f, s, caps, m)
    ensures Delivers(f, Exec(pc, s, f.base, m), Run(Copies(t, k), f.j.u, s, caps, ByCode))
    decreases t, 2, k - 1, |Run(Whole(t), f.j.u, s, caps, ByCode)| + 1
  {
    hide Delivers, RunTree, RunLeaf, RunAll, Iterate, Ready, Agree, MemEq;
    CopiesParts(t, k, f, pc, id);
    var mid := pc + CompileLength(t);
    Sim(Whole(t), f.(exit := mid), pc, id, false, s, caps, m);
    InText(Whole(t), f.j.u, s, caps);
    SimAll(Copies(t, k - 1), f, mid, id + NullChecks(t), false, Exec(pc, s, f.base, m), Run(Whole(t), f.j.u, s, caps, ByCode));
  }

  lemma {:induction false} SimOptional(t: Node, k: nat, f: Frame, pc: int, id: nat, s: nat, caps: Caps, m: Memory)
    requires k > 0 && Ready(Optional(t, k, true), f, pc, id, false) && At(f, s, caps, m)
    ensures Delivers(f, Exec(pc, s, f.base, m), Run(Optional(t, k, true), f.j.u, s, caps, ByCode))
    decreases t, 2, k - 1, |Run(Whole(t), f.j.u, s, caps, ByCode)| + 1
  {
    hide Ready, Delivers, RunAll, CompileLength, NullChecks, Agree, MemEq, Step, RunTree, RunLeaf;
    var mid := pc + SIZE_OP_PUSH + CompileLength(t);
    var es := [AltEntry(f.exit, s)];
    var above := Above(f, es, m);
    OptionalParts(t, k, f, pc, id, s, m);
    PartLater(Whole(t), f.(exit := mid), es, m, pc + SIZE_OP_PUSH, id, false);
    PartLater(Optional(t, k - 1, true), f, es, m, mid, id + NullChecks(t), false);
    AgreePush(f.j, f.loose, f.base, es, m, caps);
    MemEqRefl(f.loose, m);
    var at := Exec(pc + SIZE_OP_PUSH, s, f.base + es, m);
    var outs := Run(Whole(t), f.j.u, s, caps, ByCode);
    Sim(Whole(t), above.(exit := mid), pc + SIZE_OP_PUSH, id, false, s, caps, m);
    InText(Whole(t), f.j.u, s, caps);
    SimAll(Optional(t, k - 1, true), above, mid, id + NullChecks(t), false, at, outs);
    var more := RunAll(Optional(t, k - 1, true), f.j.u, outs, ByCode);
    DeliverThenLeave(f, es, es[0], true, Out(s, caps), m, at, more);
    DeliverStep(f, Exec(pc, s, f.base, m), more + [Out(s, caps)]);
  }

  // ----- loops -----

  function BodyPc(t: Node, greedy: bool, checked: bool, g: Guard, pc: int): int {
    LoopBegin(t, greedy, checked, pc) + (if greedy then PushSize(g) else SIZE_OP_JUMP)
  }

  /** Where the jump (or, in a lazy loop, the push) back to the body stands. */
  function TailPc(t: Node, greedy: bool, checked: bool, g: Guard, pc: int): int {
    BodyPc(t, greedy, checked, g, pc) + BodyLength(CompileLength(t), checked)
  }

  function HeadInstr(t: Node, greedy: bool, checked: bool, g: Guard): Instr {
    var len := BodyLength(CompileLength(t), checked);
    if greedy then PushInstr(g, len + SIZE_OP_JUMP) else Jump(len)
  }

  function TailInstr(t: Node, greedy: bool, checked: bool, g: Guard): Instr {
    var len := BodyLength(CompileLength(t), checked);
    if greedy then Jump(-(len + SIZE_OP_JUMP + PushSize(g))) else Push(-(len + SIZE_OP_PUSH))
  }

  lemma LoopPlaced(j: Job, t: Node, greedy: bool, checked: bool, g: Guard, pc: int, id: nat)
    requires Inlined(t) && |j.code| < 0x8000
    requires Placed(j.code, LoopBegin(t, greedy, checked, pc), LoopCode(t, greedy, checked, g, j.stats, id, 0))
    ensures var tail := TailPc(t, greedy, checked, g, pc);
            Placed(j.code, LoopBegin(t, greedy, checked, pc), Encode(HeadInstr(t, greedy, checked, g))) &&
            Placed(j.code, BodyPc(t, greedy, checked, g, pc), BodyCode(t, checked, j.stats, id, 0)) &&
            Placed(j.code, tail, Encode(TailInstr(t, greedy, checked, g))) &&
            Encodable(HeadInstr(t, greedy, checked, g)) && Encodable(TailInstr(t, greedy, checked, g)) &&
            |Encode(TailInstr(t, greedy, checked, g))| == SIZE_OP_JUMP &&
            LoopBegin(t, greedy, checked, pc) + |LoopCode(t, greedy, checked, g, j.stats, id, 0)| == tail + SIZE_OP_JUMP
  {
    hide BodyCode, CompileLength, Encode, Placed, Inlined;
    var head, tail := HeadInstr(t, greedy, checked, g), TailInstr(t, greedy, checked, g);
    var b := LoopBegin(t, greedy, checked, pc);
    var body := BodyCode(t, checked, j.stats, id, 0);
    InlinedSized(t);
    BodyCodeLength(t, checked, j.stats, id, 0);
    SizeOf(head);
    SizeOf(tail);
    assert LoopCode(t, greedy, checked, g, j.stats, id, 0) == Encode(head) + (body + Encode(tail));
    InBounds(j.code, b, LoopCode(t, greedy, checked, g, j.stats, id, 0));
    PlacedSplit(j.code, b, Encode(head), body + Encode(tail));
    PlacedSplit(j.code, b + |Encode(head)|, body, Encode(tail));
  }

  lemma BodyPlaced(j: Job, t: Node, checked: bool, pc: int, id: nat)
    requires Inlined(t) && Placed(j.code, pc, BodyCode(t, checked, j.stats, id, 0))
    ensures !checked ==> Placed(j.code, pc, Code(t, j.stats, id, 0))
    ensures checked ==> var end := pc + SIZE_OP_NULL_CHECK_START + CompileLength(t);
                        Placed(j.code, pc, Encode(NullCheckStart(id))) &&
                        Placed(j.code, pc + SIZE_OP_NULL_CHECK_START, Code(t, j.stats, id + 1, 0)) &&
                        Placed(j.code, end, Encode(NullCheckEnd(id)))
  {
    hide Code, CompileLength, Encode, Placed, Inlined;
    if checked {
      var code := Code(t, j.stats, id + 1, 0);
      InlinedLength(t, j.stats, id + 1);
      SizeOf(NullCheckStart(id));
      PlacedSplit(j.code, pc, Encode(NullCheckStart(id)), code + Encode(NullCheckEnd(id)));
      PlacedSplit(j.code, pc + SIZE_OP_NULL_CHECK_START, code, Encode(NullCheckEnd(id)));
    }
  }

  /** Entries with other numbers do not hide the start of the pass. */
  lemma {:induction false} NullCheckFound(base: seq<Entry>, es: seq<Entry>, id: nat, s0: nat, lo: nat, hi: nat)
    requires base != [] && base[|base| - 1] == NullCheckEntry(id, s0)
    requires EntriesOk(es, lo, hi) && id < lo
    ensures NullCheckStartOf(base + es, id) == Some(s0)
    decreases |es|
  {
    var stk := base + es;
    if es == [] {
      assert stk == base;
    } else {
      assert EntryOk(es[|es| - 1], lo, hi);
      assert stk[..|stk| - 1] == base + es[..|es| - 1];
      NullCheckFound(base, es[..|es| - 1], id, s0, lo, hi);
    }
  }

  /** Where a pass through the body ends: at OP_NULL_CHECK_END if there is one. */
  function PassEnd(t: Node, greedy: bool, checked: bool, g: Guard, pc: int): int {
    TailPc(t, greedy, checked, g, pc) - (if checked then SIZE_OP_NULL_CHECK_END else 0)
  }

  lemma TailFetched(t: Node, greedy: bool, g: Guard, f: Frame, pc: int, id: nat, checked: bool)
    requires Ready(Repeat(t, greedy, g), f, pc, id, checked)
    ensures var tail := TailPc(t, greedy, checked, g, pc);
            tail >= 0 && f.exit == tail + SIZE_OP_JUMP && (!greedy ==> tail == pc) && pc >= 0 &&
            (greedy ==> f.exit - (BodyLength(CompileLength(t), checked) + SIZE_OP_JUMP + PushSize(g)) == pc) &&
            Fetch(f.j.code, tail) == Fetched(TailInstr(t, greedy, checked, g), f.exit)
  {
    hide LoopCode, CompileLength, Encode, Placed, Inlined, Fetch, Prepared, Groups, NullChecks;
    LoopPlaced(f.j, t, greedy, checked, g, pc, id);
    InBounds(f.j.code, LoopBegin(t, greedy, checked, pc), LoopCode(t, greedy, checked, g, f.j.stats, id, 0));
    InBounds(f.j.code, TailPc(t, greedy, checked, g, pc), Encode(TailInstr(t, greedy, checked, g)));
    FetchEncoded(f.j.code, TailPc(t, greedy, checked, g, pc), TailInstr(t, greedy, checked, g));
  }

  /** After a pass that consumed something the machine is back at the test of the loop. */
  lemma FromTail(t: Node, greedy: bool, g: Guard, f: Frame, pc: int, id: nat, checked: bool, s: nat, stk: seq<Entry>, m: Memory)
    requires Ready(Repeat(t, greedy, g), f, pc, id, checked)
    ensures Reaches(f.j, Exec(TailPc(t, greedy, checked, g, pc), s, stk, m), Exec(pc, s, stk, m))
  {
    hide Ready, CompileLength, Reaches, Fetch;
    var at := Exec(TailPc(t, greedy, checked, g, pc), s, stk, m);
    TailFetched(t, greedy, g, f, pc, id, checked);
    if greedy {
      ReachesStep(f.j, at);
    } else {
      ReachesSelf(f.j, at);
    }
  }

  lemma PassEndStep(t: Node, greedy: bool, g: Guard, f: Frame, pc: int, id: nat, s: nat, s0: nat, stk: seq<Entry>, m: Memory)
    requires Ready(Repeat(t, greedy, g), f, pc, id, true) && NullCheckStartOf(stk, id) == Some(s0)
    ensures Step(f.j, Exec(PassEnd(t, greedy, true, g, pc), s, stk, m)) ==
            Exec(if s == s0 then f.exit else TailPc(t, greedy, true, g, pc), s, stk, m)
    ensures Safe(f.j, Exec(PassEnd(t, greedy, true, g, pc), s, stk, m))
  {
    hide LoopCode, CompileLength, Encode, Placed, Inlined, Fetch, Prepared, Groups, NullChecks, BodyCode, NullCheckStartOf, Step;
    LoopPlaced(f.j, t, greedy, true, g, pc, id);
    BodyPlaced(f.j, t, true, BodyPc(t, greedy, true, g, pc), id);
    TailFetched(t, greedy, g, f, pc, id, true);
    SizeOf(NullCheckEnd(id));
    StepOf(f.j, PassEnd(t, greedy, true, g, pc), NullCheckEnd(id), s, stk, m);
  }

  /** The end of a pass: back to the test, or out of the loop if the pass consumed nothing. */
  lemma LoopAgain(t: Node, greedy: bool, g: Guard, f: Frame, pc: int, id: nat, checked: bool,
                  s0: nat, s: nat, es: seq<Entry>, m: Memory)
    requires Ready(Repeat(t, greedy, g), f, pc, id, checked)
    requires checked ==> f.base[|f.base| - 1] == NullCheckEntry(id, s0)
    requires EntriesOk(es, if checked then id + 1 else id, f.hi)
    ensures Reaches(f.j, Exec(PassEnd(t, greedy, checked, g, pc), s, f.base + es, m),
                    Exec(if checked && s == s0 then f.exit else pc, s, f.base + es, m))
  {
    hide Installed, Reaches, CompileLength, EntriesOk, Groups, Step, Inlined, Prepared, NullChecks;
    var stk := f.base + es;
    var at, tail := Exec(PassEnd(t, greedy, checked, g, pc), s, stk, m), Exec(TailPc(t, greedy, checked, g, pc), s, stk, m);
    FromTail(t, greedy, g, f, pc, id, checked, s, stk, m);
    if checked {
      NullCheckFound(f.base, es, id, s0, id + 1, f.hi);
      PassEndStep(t, greedy, g, f, pc, id, s, s0, stk, m);
      ReachesStep(f.j, at);
      if s != s0 {
        ReachesTrans(f.j, at, tail, Exec(pc, s, stk, m));
      }
    }
  }

  /** The frame in which one pass through the body runs. */
  function PassFrame(t: Node, greedy: bool, g: Guard, f: Frame, pc: int, id: nat, checked: bool): Frame {
    f.(exit := PassEnd(t, greedy, checked, g, pc), lo := if checked then id + 1 else id)
  }

  lemma EntriesWider(es: seq<Entry>, lo: nat, lo': nat, hi: nat)
    requires EntriesOk(es, lo, hi) && lo' <= lo
    ensures EntriesOk(es, lo', hi)
  {
    forall k | 0 <= k < |es| ensures EntryOk(es[k], lo', hi) {
      assert EntryOk(es[k], lo, hi);
    }
  }

  lemma {:induction false} SimIterate(t: Node, greedy: bool, g: Guard, f: Frame, pc: int, id: nat, checked: bool,
                                      s0: nat, st: State, outs: seq<Out>)
    requires Ready(Repeat(t, greedy, g), f, pc, id, checked) && s0 <= |f.j.u.text|
    requires checked ==> f.base[|f.base| - 1] == NullCheckEntry(id, s0)
    requires Delivers(PassFrame(t, greedy, g, f, pc, id, checked), st, outs)
    requires forall k :: 0 <= k < |outs| ==> s0 <= outs[k].s <= |f.j.u.text| && (!checked ==> s0 < outs[k].s)
    ensures Delivers(f, st, Iterate(t, greedy, g, f.j.u, s0, outs, ByCode))
    decreases t, 2, 2 * (|f.j.u.text| - s0), |outs|
  {
    hide MemEq, Agree, Reaches, Installed, Sound, EntriesOk, Unwind, Run, PassEnd, NullChecks;
    var h := PassFrame(t, greedy, g, f, pc, id, checked);
    if outs == [] {
      var m :| GivesUp(h, st, m);
      assert GivesUp(f, st, m);
    } else {
      var es, m :| Hands(h, st, outs[0], es, m) &&
                   forall m' :: MemEq(h.loose, m, m') ==> Delivers(h, Backtrack(h.base + es, m'), outs[1..]);
      var o := outs[0];
      var at := Exec(h.exit, o.s, f.base + es, m);
      var above := Above(f, es, m);
      var rest := Iterate(t, greedy, g, f.j.u, s0, outs[1..], ByCode);
      var next := Exec(if s0 < o.s then pc else f.exit, o.s, f.base + es, m);
      var first := if s0 < o.s then Run(Repeat(t, greedy, g), f.j.u, o.s, o.caps, ByCode) else [o];
      LoopAgain(t, greedy, g, f, pc, id, checked, s0, o.s, es, m);
      MemEqRefl(f.loose, m);
      EntriesWider(es, h.lo, f.lo, f.hi);
      if s0 < o.s {
        PartLater(Repeat(t, greedy, g), f, es, m, pc, id, checked);
        Sim(Repeat(t, greedy, g), above, pc, id, checked, o.s, o.caps, m);
      } else {
        DeliverHere(above, o, m);
      }
      forall m' | MemEq(f.loose, m, m') ensures Delivers(f, Backtrack(f.base + es, m'), rest) {
        SimIterate(t, greedy, g, f, pc, id, checked, s0, Backtrack(f.base + es, m'), outs[1..]);
      }
      DeliverConcat(f, es, m, next, first, rest);
      DeliverLater(f, at, next, first + rest);
      DeliverLater(f, st, at, first + rest);
    }
  }

  /** A pass through the body starts with OP_NULL_CHECK_START where the loop is checked. */
  lemma BodyParts(t: Node, greedy: bool, g: Guard, f: Frame, pc: int, id: nat, checked: bool, s: nat, m: Memory)
    requires Ready(Repeat(t, greedy, g), f, pc, id, checked)
    ensures var b := BodyPc(t, greedy, checked, g, pc);
            if checked then
              Step(f.j, Exec(b, s, f.base, m)) == Exec(b + SIZE_OP_NULL_CHECK_START, s, f.base + [NullCheckEntry(id, s)], m) &&
              Safe(f.j, Exec(b, s, f.base, m)) &&
              Ready(Whole(t), PassFrame(t, greedy, g, f, pc, id, checked), b + SIZE_OP_NULL_CHECK_START, id + 1, false)
            else Ready(Whole(t), PassFrame(t, greedy, g, f, pc, id, checked), b, id, false)
  {
    hide LoopCode, CompileLength, Encode, Placed, Inlined, Fetch, Prepared, Groups, NullChecks, BodyCode, Step, Code;
    LoopPlaced(f.j, t, greedy, checked, g, pc, id);
    BodyPlaced(f.j, t, checked, BodyPc(t, greedy, checked, g, pc), id);
    SizeOf(NullCheckStart(id));
    if checked {
      StepOf(f.j, BodyPc(t, greedy, checked, g, pc), NullCheckStart(id), s, f.base, m);
    }
  }

  /** Without a null check every pass consumes something: that is what get_min_match_length is for. */
  lemma PassConsumes(t: Node, u: Subject, s: nat, caps: Caps, checked: bool)
    requires s <= |u.text| && (checked || MinLength(t) > 0)
    ensures forall k :: 0 <= k < |Run(Whole(t), u, s, caps, ByCode)| ==>
              s <= Run(Whole(t), u, s, caps, ByCode)[k].s <= |u.text| &&
              (!checked ==> s < Run(Whole(t), u, s, caps, ByCode)[k].s)
  {
    hide Run, MinLength;
    InText(Whole(t), u, s, caps);
    forall k | 0 <= k < |Run(Whole(t), u, s, caps, ByCode)| && !checked
      ensures s < Run(Whole(t), u, s, caps, ByCode)[k].s
    {
      MinLengthBound(t, u, s, caps, ByCode, k);
    }
  }

  lemma {:induction false} SimBody(t: Node, greedy: bool, g: Guard, f: Frame, pc: int, id: nat, checked: bool,
                                   s: nat, caps: Caps, m: Memory)
    requires Ready(Repeat(t, greedy, g), f, pc, id, checked) && At(f, s, caps, m)
    ensures Delivers(f, Exec(BodyPc(t, greedy, checked, g, pc), s, f.base, m),
                     Iterate(t, greedy, g, f.j.u, s, Run(Whole(t), f.j.u, s, caps, ByCode), ByCode))
    decreases t, 2, 2 * (|f.j.u.text| - s) + 1, 0
  {
    hide MemEq, Agree, Reaches, Installed, Sound, Unwind, Run, PassEnd, NullChecks, Delivers, Iterate, Step, BodyPc, Undo, MinLength;
    var at := Exec(BodyPc(t, greedy, checked, g, pc), s, f.base, m);
    var outs := Run(Whole(t), f.j.u, s, caps, ByCode);
    var all := Iterate(t, greedy, g, f.j.u, s, outs, ByCode);
    LoopChecked(t, greedy, g, f, pc, id, checked);
    PassConsumes(t, f.j.u, s, caps, checked);
    BodyParts(t, greedy, g, f, pc, id, checked, s, m);
    if !checked {
      Sim(Whole(t), PassFrame(t, greedy, g, f, pc, id, checked), BodyPc(t, greedy, checked, g, pc), id, false, s, caps, m);
      SimIterate(t, greedy, g, f, pc, id, checked, s, at, outs);
    } else {
      var es := [NullCheckEntry(id, s)];
      var above := Above(f, es, m);
      var inside := BodyPc(t, greedy, checked, g, pc) + SIZE_OP_NULL_CHECK_START;
      PartLater(Repeat(t, greedy, g), f, es, m, pc, id, checked);
      PartLater(Whole(t), PassFrame(t, greedy, g, f, pc, id, checked), es, m, inside, id + 1, false);
      AgreePush(f.j, f.loose, f.base, es, m, caps);
      MemEqRefl(f.loose, m);
      Sim(Whole(t), PassFrame(t, greedy, g, above, pc, id, checked), inside, id + 1, false, s, caps, m);
      SimIterate(t, greedy, g, above, pc, id, checked, s, Exec(inside, s, f.base + es, m), outs);
      DeliverWithout(f, es, m, Exec(inside, s, f.base + es, m), all);
      DeliverStep(f, at, all);
    }
  }

  lemma LoopChecked(t: Node, greedy: bool, g: Guard, f: Frame, pc: int, id: nat, checked: bool)
    requires Ready(Repeat(t, greedy, g), f, pc, id, checked)
    ensures checked || MinLength(t) > 0
    ensures checked ==> f.lo <= id < f.hi <= 0x8000
  {
  }

  /** A null-check entry below the outcomes changes nothing. */
  lemma DeliverWithout(f: Frame, es: seq<Entry>, m: Memory, st: State, outs: seq<Out>)
    requires |es| == 1 && es[0].NullCheckEntry? && f.lo <= es[0].id < f.hi
    requires MemEq(f.loose, f.m, m) && Delivers(Above(f, es, m), st, outs)
    ensures Delivers(f, st, outs)
  {
    hide MemEq, Delivers, Reaches;
    forall m' | MemEq(f.loose, m, m') ensures Delivers(f, Backtrack(f.base + es, m'), []) {
      MemEqTrans(f.loose, f.m, m, m');
      PopAll(f.j, f.base, es, m');
      assert es == [es[0]];
      UnwindOne(es[0], m');
      DeliverFail(f, m');
      DeliverLater(f, Backtrack(f.base + es, m'), Backtrack(f.base, m'), []);
    }
    assert es == [es[0]];
    UnwindOne(es[0], m);
    DeliverConcat(f, es, m, st, outs, []);
    assert outs + [] == outs;
  }

  /** The test of a greedy loop. */
  lemma GreedyHead(t: Node, g: Guard, f: Frame, pc: int, id: nat, checked: bool, s: nat, m: Memory)
    requires Ready(Repeat(t, true, g), f, pc, id, checked)
    ensures Step(f.j, Exec(pc, s, f.base, m)) ==
            if MayEnter(g, f.j.u, s) then
              Exec(BodyPc(t, true, checked, g, pc), s,
                   f.base + (if MayLeave(g, f.j.u, s) then [AltEntry(f.exit, s)] else []), m)
            else Exec(f.exit, s, f.base, m)
    ensures Safe(f.j, Exec(pc, s, f.base, m))
  {
    hide LoopCode, CompileLength, Encode, Placed, Inlined, Fetch, Prepared, Groups, NullChecks, Step;
    LoopPlaced(f.j, t, true, checked, g, pc, id);
    SizeOf(HeadInstr(t, true, checked, g));
    StepOf(f.j, pc, HeadInstr(t, true, checked, g), s, f.base, m);
    assert f.base + [] == f.base;
  }

  lemma {:induction false} SimGreedy(t: Node, g: Guard, f: Frame, pc: int, id: nat, checked: bool, s: nat, caps: Caps, m: Memory)
    requires Ready(Repeat(t, true, g), f, pc, id, checked) && At(f, s, caps, m)
    ensures Delivers(f, Exec(pc, s, f.base, m), Run(Repeat(t, true, g), f.j.u, s, caps, ByCode))
    decreases t, 2, 2 * (|f.j.u.text| - s) + 1, 1
  {
    hide MemEq, Agree, Reaches, Installed, Sound, Unwind, NullChecks, Delivers, Iterate, Step, BodyPc, RunTree, RunLeaf, RunAll;
    var at := Exec(pc, s, f.base, m);
    var outs := Run(Repeat(t, true, g), f.j.u, s, caps, ByCode);
    GreedyHead(t, g, f, pc, id, checked, s, m);
    assert f.base + [] == f.base;
    if MayEnter(g, f.j.u, s) {
      var offered := MayLeave(g, f.j.u, s);
      var es := if offered then [AltEntry(f.exit, s)] else [];
      PartLater(Repeat(t, true, g), f, es, m, pc, id, checked);
      AgreePush(f.j, f.loose, f.base, es, m, caps);
      MemEqRefl(f.loose, m);
      SimBody(t, true, g, Above(f, es, m), pc, id, checked, s, caps, m);
      var more := Iterate(t, true, g, f.j.u, s, Run(Whole(t), f.j.u, s, caps, ByCode), ByCode);
      DeliverThenLeave(f, es, AltEntry(f.exit, s), offered, Out(s, caps), m,
                       Exec(BodyPc(t, true, checked, g, pc), s, f.base + es, m), more);
      assert outs == more + RegRef.When(offered, Out(s, caps));
    } else {
      assert outs == [] + [Out(s, caps)] == [Out(s, caps)];
      DeliverHere(f, Out(s, caps), m);
    }
    DeliverStep(f, at, outs);
  }

  lemma {:induction false} SimLazy(t: Node, g: Guard, f: Frame, pc: int, id: nat, checked: bool, s: nat, caps: Caps, m: Memory)
    requires Ready(Repeat(t, false, g), f, pc, id, checked) && At(f, s, caps, m)
    ensures Delivers(f, Exec(pc, s, f.base, m), Run(Repeat(t, false, g), f.j.u, s, caps, ByCode))
    decreases t, 2, 2 * (|f.j.u.text| - s) + 1, 1
  {
    hide MemEq, Agree, Reaches, Installed, Sound, Unwind, NullChecks, Delivers, Iterate, RunTree, RunLeaf, RunAll, Fetch, CompileLength;
    var body := BodyPc(t, false, checked, g, pc);
    var es := [AltEntry(body, s)];
    var at, left := Exec(pc, s, f.base, m), Exec(f.exit, s, f.base + es, m);
    var more := Iterate(t, false, g, f.j.u, s, Run(Whole(t), f.j.u, s, caps, ByCode), ByCode);
    TailFetched(t, false, g, f, pc, id, checked);
    ReachesStep(f.j, at);
    AgreePush(f.j, f.loose, f.base, es, m, caps);
    UnwindOne(es[0], m);
    assert Hands(f, at, Out(s, caps), es, m);
    forall m' | MemEq(f.loose, m, m') ensures Delivers(f, Backtrack(f.base + es, m'), ([Out(s, caps)] + more)[1..]) {
      MemEqTrans(f.loose, f.m, m, m');
      AgreeMemEq(f.j, f.loose, f.base, m, m', caps);
      PopResume(f.j, f.base, es[0], m');
      SimBody(t, false, g, f, pc, id, checked, s, caps, m');
      DeliverLater(f, Backtrack(f.base + es, m'), Exec(body, s, f.base, m'), more);
      assert ([Out(s, caps)] + more)[1..] == more;
    }
    DeliverSome(f, at, [Out(s, caps)] + more, es, m);
  }

  // ----- quantifiers -----

  lemma SoundTarget(n: Node, f: Frame)
    requires (n.Quant? || n.Group? || n.PrecRead? || n.PrecReadNot? || n.StopBacktrack?) && Sound(n, f)
    ensures Sound(n.target, f)
    ensures n.Quant? ==> !Layout(n).Range? && (n.upper.Infinite? ==> n.targetEmpty || MinLength(n.target) > 0)
    ensures n.Quant? && n.upper.Finite? ==> n.lower <= n.upper.n
    ensures !n.Quant? ==> NullChecks(n) == NullChecks(n.target)
    ensures n.Group? ==> n.num <= f.j.maxMem && 1 <= n.num < 0x8000 && n.num !in f.loose && n.num !in Groups(n.target)
  {
    hide MinLength, Layout;
  }

  /** What stands behind the mandatory copies. */
  function AfterCopies(q: Node, stats: set<nat>, id: nat): seq<Byte>
    requires q.Quant? && Inlined(q) && (Layout(q).Dots? || Layout(q).Options? || Layout(q).Loop?)
  {
    var after := id + Times(NullChecks(q.target), q.lower);
    if Layout(q).Dots? then Encode(AnyCharStarInstr(q.nextHeadExact))
    else if Layout(q).Options? then OptionsCode(q.target, q.upper.n - q.lower, stats, after, 0)
    else LoopCode(q.target, q.greedy, q.targetEmpty, GuardOf(q), stats, after, 0)
  }

  lemma QuantCopies(q: Node, f: Frame, pc: int, id: nat)
    requires q.Quant? && Ready(Whole(q), f, pc, id, false) && (Layout(q).Dots? || Layout(q).Options? || Layout(q) == Loop(false))
    ensures var mid := pc + Times(CompileLength(q.target), q.lower);
            Ready(Copies(q.target, q.lower), f.(exit := mid), pc, id, false) &&
            Placed(f.j.code, mid, AfterCopies(q, f.j.stats, id)) &&
            f.exit == mid + |AfterCopies(q, f.j.stats, id)|
  {
    hide Encode, CopiesCode, OptionsCode, LoopCode, Layout, Placed, Inlined, Prepared, Groups, NullChecks, CompileLength, Times;
    SoundTarget(q, f);
    var copies := CopiesCode(q.target, q.lower, f.j.stats, id, 0);
    QuantNulls(q);
    InlinedSized(q.target);
    NoTimes(q.lower);
    CopiesLength(q.target, q.lower, f.j.stats, id, 0);
    InlinedLength(q, f.j.stats, id);
    assert Code(q, f.j.stats, id, 0) == QuantCode(q, f.j.stats, id, 0);
    assert QuantCode(q, f.j.stats, id, 0) == copies + AfterCopies(q, f.j.stats, id);
    PlacedSplit(f.j.code, pc, copies, AfterCopies(q, f.j.stats, id));
  }

  lemma DotsReady(q: Node, f: Frame, mid: int, id: nat)
    requires q.Quant? && Layout(q).Dots? && Sound(q, f) && f.lo <= id <= f.hi
    requires Placed(f.j.code, mid, AfterCopies(q, f.j.stats, 0)) && f.exit == mid + |AfterCopies(q, f.j.stats, 0)|
    ensures Ready(DotStar(q.target, q.nextHeadExact), f, mid, id, false)
  {
    hide Encode, Layout, Placed, Inlined, Prepared, Groups, NullChecks, CompileLength;
    SoundTarget(q, f);
  }

  lemma OptionsReady(q: Node, f: Frame, pc: int, id: nat)
    requires q.Quant? && Layout(q).Options? && Ready(Whole(q), f, pc, id, false)
    ensures q.upper.Finite? && q.greedy &&
            Ready(Optional(q.target, Spare(q.lower, q.upper.n), true), f, pc + Times(CompileLength(q.target), q.lower),
                  id + Times(NullChecks(q.target), q.lower), false)
  {
    hide Code, Encode, OptionsCode, Layout, Placed, Inlined, Prepared, Groups, NullChecks, CompileLength, Times;
    SoundTarget(q, f);
    QuantNulls(q);
    QuantCopies(q, f, pc, id);
    InlinedSized(q.target);
    OptionsLength(q.target, q.upper.n - q.lower, f.j.stats, id + Times(NullChecks(q.target), q.lower), 0);
  }

  /** Where the test of the loop stands when its code begins at `b`. */
  function TestPc(q: Node, b: int): int
    requires q.Quant?
  {
    if q.greedy then b else b + SIZE_OP_JUMP + BodyLength(CompileLength(q.target), q.targetEmpty)
  }

  lemma LoopReady(q: Node, f: Frame, b: int, id: nat)
    requires q.Quant? && Layout(q).Loop? && Sound(q, f)
    requires f.lo <= id && id + NullChecks(q.target) + (if q.targetEmpty then 1 else 0) <= f.hi
    requires Inlined(q.target) && Placed(f.j.code, b, LoopCode(q.target, q.greedy, q.targetEmpty, GuardOf(q), f.j.stats, id, 0))
    requires f.exit == b + |LoopCode(q.target, q.greedy, q.targetEmpty, GuardOf(q), f.j.stats, id, 0)|
    ensures Ready(Repeat(q.target, q.greedy, GuardOf(q)), f, TestPc(q, b), id, q.targetEmpty)
  {
    hide LoopCode, Layout, Placed, Inlined, Prepared, Groups, NullChecks, CompileLength, MinLength;
    SoundTarget(q, f);
    QuantNulls(q);
  }

  /** A lazy loop begins with a jump to its test. */
  lemma LazyEntry(q: Node, f: Frame, b: int, id: nat)
    requires q.Quant? && !q.greedy && Ready(Repeat(q.target, false, GuardOf(q)), f, TestPc(q, b), id, q.targetEmpty)
    ensures b >= 0 &&
            Fetch(f.j.code, b) == Fetched(Jump(BodyLength(CompileLength(q.target), q.targetEmpty)), b + SIZE_OP_JUMP)
  {
    hide LoopCode, Placed, Inlined, Prepared, Groups, NullChecks, CompileLength, MinLength, Fetch, Encode;
    var head := HeadInstr(q.target, false, q.targetEmpty, GuardOf(q));
    LoopPlaced(f.j, q.target, false, q.targetEmpty, GuardOf(q), TestPc(q, b), id);
    InBounds(f.j.code, b, Encode(head));
    SizeOf(head);
    FetchEncoded(f.j.code, b, head);
  }

  lemma {:induction false} SimCopiesThenLoop(q: Node, f: Frame, pc: int, id: nat, s: nat, caps: Caps, m: Memory)
    requires q.Quant? && Ready(Whole(q), f, pc, id, false) && Layout(q) == Loop(false) && At(f, s, caps, m)
    ensures Delivers(f, Exec(pc, s, f.base, m), RunTree(q, f.j.u, s, caps, ByCode))
    decreases q, 0, 0, 0
  {
    hide Code, Encode, LoopCode, CopiesCode, Placed, Inlined, Prepared, Groups, NullChecks, CompileLength, MinLength, Fetch,
         Delivers, Agree, MemEq, Run, RunAll, Times, Iterate, FormOf;
    var t, after := q.target, id + Times(NullChecks(q.target), q.lower);
    var mid := pc + Times(CompileLength(t), q.lower);
    var p := Repeat(t, q.greedy, GuardOf(q));
    var st, outs := Exec(pc, s, f.base, m), Run(Copies(t, q.lower), f.j.u, s, caps, ByCode);
    QuantNulls(q);
    SoundTarget(q, f);
    QuantCopies(q, f, pc, id);
    LoopReady(q, f, mid, after);
    Sim(Copies(t, q.lower), f.(exit := mid), pc, id, false, s, caps, m);
    InText(Copies(t, q.lower), f.j.u, s, caps);
    if !q.greedy {
      LazyEntry(q, f, mid, after);
      DeliverJump(f.(exit := TestPc(q, mid)), mid, BodyLength(CompileLength(t), q.targetEmpty), st, outs);
    }
    SimAll(p, f, TestPc(q, mid), after, q.targetEmpty, st, outs);
  }

  lemma JumpInParts(q: Node, f: Frame, pc: int, id: nat, s: nat, m: Memory)
    requires q.Quant? && Ready(Whole(q), f, pc, id, false) && Layout(q) == Loop(true)
    ensures var b := pc + SIZE_OP_JUMP;
            Ready(Repeat(q.target, q.greedy, GuardOf(q)), f, TestPc(q, b), id, q.targetEmpty) &&
            Step(f.j, Exec(pc, s, f.base, m)) ==
            Exec(BodyPc(q.target, q.greedy, q.targetEmpty, GuardOf(q), TestPc(q, b)), s, f.base, m) &&
            Safe(f.j, Exec(pc, s, f.base, m))
  {
    hide Encode, LoopCode, Layout, Placed, Inlined, Prepared, Groups, NullChecks, CompileLength, MinLength, Step, Times;
    SoundTarget(q, f);
    var jump := Jump(if q.greedy then PushSize(GuardOf(q)) else SIZE_OP_JUMP);
    var loop := LoopCode(q.target, q.greedy, q.targetEmpty, GuardOf(q), f.j.stats, id, 0);
    QuantNulls(q);
    InlinedLength(q, f.j.stats, id);
    SizeOf(jump);
    assert Code(q, f.j.stats, id, 0) == QuantCode(q, f.j.stats, id, 0) == Encode(jump) + loop;
    PlacedSplit(f.j.code, pc, Encode(jump), loop);
    StepOf(f.j, pc, jump, s, f.base, m);
    LoopReady(q, f, pc + SIZE_OP_JUMP, id);
  }

  /** The outcomes of `t??`: skipping it, then its own. */
  lemma LazyOptionOutcomes(q: Node, u: Subject, s: nat, caps: Caps)
    requires q.Quant? && Layout(q) == LazyOption
    ensures RunTree(q, u, s, caps, ByCode) == [Out(s, caps)] + Run(Whole(q.target), u, s, caps, ByCode)
  {
    hide CompileLength, GuardOf;
    var t, o := q.target, Out(s, caps);
    var outs := Run(Whole(t), u, s, caps, ByCode);
    QuantNulls(q);
    RunAllNone(Optional(t, 0, false), u, outs, ByCode);
    var lazy := Optional(t, 1, false);
    assert Run(lazy, u, s, caps, ByCode) == [o] + outs;
    assert Run(Copies(t, 0), u, s, caps, ByCode) == [o];
    assert [o][1..] == [];
    assert RunAll(lazy, u, [], ByCode) == [];
    assert RunAll(lazy, u, [o], ByCode) == Run(lazy, u, s, caps, ByCode) + RunAll(lazy, u, [o][1..], ByCode);
    assert RunTree(q, u, s, caps, ByCode) == RunAll(lazy, u, [o], ByCode);
  }

  lemma LazyOptionParts(q: Node, f: Frame, pc: int, id: nat, s: nat, m: Memory)
    requires q.Quant? && Ready(Whole(q), f, pc, id, false) && Layout(q) == LazyOption
    ensures var body := pc + SIZE_OP_PUSH + SIZE_OP_JUMP;
            Ready(Whole(q.target), f, body, id, false) &&
            Reaches(f.j, Exec(pc, s, f.base, m), Exec(f.exit, s, f.base + [AltEntry(body, s)], m))
  {
    hide Encode, Layout, Placed, Inlined, Prepared, Groups, NullChecks, CompileLength, MinLength, Step, Times, Reaches;
    SoundTarget(q, f);
    var t := q.target;
    var push, jump, body := Push(SIZE_OP_JUMP), Jump(CompileLength(t)), Code(t, f.j.stats, id, 0);
    var stk := f.base + [AltEntry(pc + SIZE_OP_PUSH + SIZE_OP_JUMP, s)];
    QuantNulls(q);
    InlinedLength(q, f.j.stats, id);
    InlinedLength(t, f.j.stats, id);
    SizeOf(push);
    SizeOf(jump);
    assert Code(q, f.j.stats, id, 0) == QuantCode(q, f.j.stats, id, 0) == Encode(push) + (Encode(jump) + body);
    InBounds(f.j.code, pc, Code(q, f.j.stats, id, 0));
    PlacedSplit(f.j.code, pc, Encode(push), Encode(jump) + body);
    PlacedSplit(f.j.code, pc + SIZE_OP_PUSH, Encode(jump), body);
    StepOf(f.j, pc, push, s, f.base, m);
    StepOf(f.j, pc + SIZE_OP_PUSH, jump, s, stk, m);
    ReachesStep(f.j, Exec(pc, s, f.base, m));
    ReachesStep(f.j, Exec(pc + SIZE_OP_PUSH, s, stk, m));
    ReachesTrans(f.j, Exec(pc, s, f.base, m), Exec(pc + SIZE_OP_PUSH, s, stk, m), Exec(f.exit, s, stk, m));
  }

  lemma {:induction false} SimLazyOption(q: Node, f: Frame, pc: int, id: nat, s: nat, caps: Caps, m: Memory)
    requires q.Quant? && Ready(Whole(q), f, pc, id, false) && Layout(q) == LazyOption && At(f, s, caps, m)
    ensures Delivers(f, Exec(pc, s, f.base, m), RunTree(q, f.j.u, s, caps, ByCode))
    decreases q, 0, 0, 0
  {
    hide Ready, Layout, Delivers, Agree, MemEq, Run, RunTree, Reaches, Unwind;
    var body := pc + SIZE_OP_PUSH + SIZE_OP_JUMP;
    var es := [AltEntry(body, s)];
    var at := Exec(pc, s, f.base, m);
    var more := Run(Whole(q.target), f.j.u, s, caps, ByCode);
    LazyOptionOutcomes(q, f.j.u, s, caps);
    LazyOptionParts(q, f, pc, id, s, m);
    AgreePush(f.j, f.loose, f.base, es, m, caps);
    UnwindOne(es[0], m);
    assert Hands(f, at, Out(s, caps), es, m);
    assert ([Out(s, caps)] + more)[1..] == more;
    forall m' | MemEq(f.loose, m, m') ensures Delivers(f, Backtrack(f.base + es, m'), more) {
      MemEqTrans(f.loose, f.m, m, m');
      AgreeMemEq(f.j, f.loose, f.base, m, m', caps);
      PopResume(f.j, f.base, es[0], m');
      Sim(Whole(q.target), f, body, id, false, s, caps, m');
      DeliverLater(f, Backtrack(f.base + es, m'), Exec(body, s, f.base, m'), more);
    }
    DeliverSome(f, at, [Out(s, caps)] + more, es, m);
  }

  lemma {:induction false} SimQuant(q: Node, f: Frame, pc: int, id: nat, s: nat, caps: Caps, m: Memory)
    requires q.Quant? && Ready(Whole(q), f, pc, id, false) && At(f, s, caps, m)
    ensures Delivers(f, Exec(pc, s, f.base, m), RunTree(q, f.j.u, s, caps, ByCode))
    decreases q, 0, 0, 1
  {
    hide Code, Encode, LoopCode, CopiesCode, Inlined, Prepared, Groups, NullChecks, CompileLength, MinLength, OptionsCode,
         Delivers, Agree, MemEq, Run, RunAll, Times, Iterate, Step, FormOf, Placed;
    var t, after := q.target, id + Times(NullChecks(q.target), q.lower);
    var mid := pc + Times(CompileLength(t), q.lower);
    var st, outs := Exec(pc, s, f.base, m), Run(Copies(t, q.lower), f.j.u, s, caps, ByCode);
    QuantNulls(q);
    SoundTarget(q, f);
    InText(Copies(t, q.lower), f.j.u, s, caps);
    match Layout(q)
    case Dots =>
      QuantCopies(q, f, pc, id);
      DotsReady(q, f, mid, after);
      Sim(Copies(t, q.lower), f.(exit := mid), pc, id, false, s, caps, m);
      SimAll(DotStar(t, q.nextHeadExact), f, mid, after, false, st, outs);
    case Options =>
      QuantCopies(q, f, pc, id);
      OptionsReady(q, f, pc, id);
      Sim(Copies(t, q.lower), f.(exit := mid), pc, id, false, s, caps, m);
      SimAll(Optional(t, Spare(q.lower, q.upper.n), true), f, mid, after, false, st, outs);
    case LazyOption => SimLazyOption(q, f, pc, id, s, caps, m);
    case Loop(jumpIn) =>
      if jumpIn {
        JumpInParts(q, f, pc, id, s, m);
        SimBody(t, q.greedy, GuardOf(q), f, TestPc(q, pc + SIZE_OP_JUMP), id, q.targetEmpty, s, caps, m);
        DeliverStep(f, st, RunTree(q, f.j.u, s, caps, ByCode));
      } else {
        SimCopiesThenLoop(q, f, pc, id, s, caps, m);
      }
  }

  // ----- groups, lookahead and atomic groups -----

  lemma EffectParts(n: Node, f: Frame, pc: int, id: nat)
    requires (n.Group? || n.PrecRead? || n.PrecReadNot? || n.StopBacktrack?) && Ready(Whole(n), f, pc, id, false)
    ensures var inside := pc + |Encode(Before(n))|;
            var end := inside + CompileLength(n.target);
            Placed(f.j.code, pc, Encode(Before(n))) && Encodable(Before(n)) && Encodable(Behind(n, f.j.stats)) &&
            Placed(f.j.code, end, Encode(Behind(n, f.j.stats))) && f.exit == end + |Encode(Behind(n, f.j.stats))| &&
            (n.PrecReadNot? ==> |Encode(Before(n))| == SIZE_OP_PUSH_POS_NOT && |Encode(Behind(n, f.j.stats))| == SIZE_OP_FAIL_POS) &&
            Placed(f.j.code, inside, Code(n.target, f.j.stats, id, 0))
  {
    hide Encode, Placed, Inlined, Prepared, Groups, NullChecks, CompileLength;
    SoundTarget(n, f);
    var a, t, b := Encode(Before(n)), Code(n.target, f.j.stats, id, 0), Encode(Behind(n, f.j.stats));
    SizeOf(Before(n));
    SizeOf(Behind(n, f.j.stats));
    InlinedLength(n, f.j.stats, id);
    InlinedLength(n.target, f.j.stats, id);
    EffectCode(n, f.j.stats, id, 0);
    InBounds(f.j.code, pc, a + (t + b));
    PlacedSplit(f.j.code, pc, a, t + b);
    PlacedSplit(f.j.code, pc + |a|, t, b);
  }

  /** The target of an effect node, run on top of one more entry. */
  lemma InsideReady(n: Node, f: Frame, pc: int, id: nat, es: seq<Entry>, m: Memory, loose: set<nat>)
    requires (n.Group? || n.PrecRead? || n.PrecReadNot? || n.StopBacktrack?) && Ready(Whole(n), f, pc, id, false)
    requires Groups(n.target) !! loose
    ensures var inside := pc + |Encode(Before(n))|;
            Ready(Whole(n.target), Above(f, es, m).(exit := inside + CompileLength(n.target), loose := loose), inside, id, false)
  {
    hide Encode, Placed, Inlined, Prepared, Groups, NullChecks, CompileLength, Code, Before, Behind;
    EffectParts(n, f, pc, id);
    SoundTarget(n, f);
  }

  lemma BeforeStep(n: Node, f: Frame, pc: int, id: nat, s: nat, m: Memory)
    requires (n.Group? || n.PrecRead? || n.PrecReadNot? || n.StopBacktrack?) && Ready(Whole(n), f, pc, id, false)
    ensures Step(f.j, Exec(pc, s, f.base, m)) ==
            Perform(f.j, Before(n), pc + |Encode(Before(n))|, s, f.base, m)
    ensures Safe(f.j, Exec(pc, s, f.base, m))
  {
    hide Encode, Placed, Ready, CompileLength, Perform, Step, Behind, Code, Safe;
    EffectParts(n, f, pc, id);
    StepOf(f.j, pc, Before(n), s, f.base, m);
  }

  lemma BehindStep(n: Node, f: Frame, pc: int, id: nat, s: nat, stk: seq<Entry>, m: Memory)
    requires (n.Group? || n.PrecRead? || n.PrecReadNot? || n.StopBacktrack?) && Ready(Whole(n), f, pc, id, false)
    ensures Step(f.j, Exec(pc + |Encode(Before(n))| + CompileLength(n.target), s, stk, m)) ==
            Perform(f.j, Behind(n, f.j.stats), f.exit, s, stk, m)
    ensures !n.Group? || (ValidMem(m, n.num) && (n.num in f.j.stats ==> m.end[n.num] == Invalid)) ==>
              Safe(f.j, Exec(pc + |Encode(Before(n))| + CompileLength(n.target), s, stk, m))
    ensures n.PrecReadNot? ==> f.exit == pc + SIZE_OP_PUSH_POS_NOT + CompileLength(n.target) + SIZE_OP_FAIL_POS &&
                               |Encode(Before(n))| == SIZE_OP_PUSH_POS_NOT
  {
    hide Encode, Placed, Ready, CompileLength, Perform, Step, Before, Code, Safe;
    EffectParts(n, f, pc, id);
    StepOf(f.j, pc + |Encode(Before(n))| + CompileLength(n.target), Behind(n, f.j.stats), s, stk, m);
  }

  /** A group without memory status bit is loose while it is open. */
  function LooseInside(f: Frame, k: nat): set<nat> {
    if k in f.j.stats then f.loose else f.loose + {k}
  }

  function OpenMem(f: Frame, k: nat, m: Memory): Memory {
    if ValidMem(m, k) then Memory(m.start[k := |f.base|], m.end[k := Invalid]) else m
  }

  lemma AgreeOpen(f: Frame, k: nat, s: nat, caps: Caps, m: Memory)
    requires Agree(f.j, f.loose, f.base, m, caps) && k <= f.j.maxMem && k !in f.loose
    ensures ValidMem(m, k)
    ensures Agree(f.j, LooseInside(f, k), f.base + [MemStartEntry(k, s, m.start[k], m.end[k])], OpenMem(f, k, m), OpenGroup(caps, k, s))
  {
    var e := MemStartEntry(k, s, m.start[k], m.end[k]);
    var m1, caps1 := OpenMem(f, k, m), OpenGroup(caps, k, s);
    forall i | 0 <= i < |caps1|
      ensures GroupOk(f.j, LooseInside(f, k), i, f.base + [e], m1.start[i], m1.end[i], caps1[i])
    {
      assert GroupOk(f.j, f.loose, i, f.base, m.start[i], m.end[i], caps[i]);
    }
  }

  /** Closing the group: the memory, the stack and the captures stay in step. */
  lemma AgreeClose(f: Frame, k: nat, beg: nat, s: nat, caps: Caps, stk: seq<Entry>, m: Memory, m': Memory, es: seq<Entry>)
    requires Agree(f.j, LooseInside(f, k), stk, m, caps) && k <= f.j.maxMem && k !in f.loose
    requires f.loose !! f.j.stats && caps[k] == Opened(beg)
    requires Exec(f.exit, s, stk + es, m') == RegExec.MemoryEnd(k, k in f.j.stats, s, f.exit, stk, m)
    ensures Agree(f.j, f.loose, stk + es, m', CloseGroup(caps, k, beg, s))
  {
    assert GroupOk(f.j, LooseInside(f, k), k, stk, m.start[k], m.end[k], caps[k]);
    if k in f.j.stats {
      assert (stk + es)[|stk|] == MemEndEntry(k, s, m.start[k]) by {
        assert stk + es == stk + [MemEndEntry(k, s, m.start[k])];
      }
    }
    forall i | 0 <= i < |caps|
      ensures GroupOk(f.j, f.loose, i, stk + es, m'.start[i], m'.end[i], CloseGroup(caps, k, beg, s)[i])
    {
      assert GroupOk(f.j, LooseInside(f, k), i, stk, m.start[i], m.end[i], caps[i]);
    }
  }

  /** What OP_MEMORY_END or OP_MEMORY_END_PUSH leaves on the stack and in the memory. */
  function ClosingEntries(f: Frame, k: nat, s: nat, m: Memory): seq<Entry>
    requires ValidMem(m, k)
  {
    if k in f.j.stats then [MemEndEntry(k, s, m.start[k])] else []
  }

  function ClosedMem(f: Frame, k: nat, s: nat, stk: seq<Entry>, m: Memory): Memory
    requires ValidMem(m, k)
  {
    if k in f.j.stats then Memory(m.start, m.end[k := Index(|stk|)]) else Memory(m.start, m.end[k := Raw(s)])
  }

  /** Failing back over the end of a group finds the memory of before, up to what is loose inside. */
  lemma ClosedUndone(f: Frame, k: nat, s: nat, stk: seq<Entry>, m: Memory, m': Memory)
    requires ValidMem(m, k) && k !in f.loose && (k in f.j.stats ==> m.end[k] == Invalid)
    requires MemEq(f.loose, ClosedMem(f, k, s, stk, m), m')
    ensures MemEq(LooseInside(f, k), m, Unwind(ClosingEntries(f, k, s, m), m'))
  {
    if k in f.j.stats {
      UnwindOne(MemEndEntry(k, s, m.start[k]), m');
    }
  }

  lemma OpenUndone(f: Frame, k: nat, s: nat, m: Memory, m': Memory)
    requires ValidMem(m, k) && MemEq(LooseInside(f, k), OpenMem(f, k, m), m')
    ensures MemEq(f.loose, m, Undo(MemStartEntry(k, s, m.start[k], m.end[k]), m'))
  {
    var u := Undo(MemStartEntry(k, s, m.start[k], m.end[k]), m');
    assert u.start == m.start;
  }

  /** The outcomes of the target, closed one by one. */
  lemma {:induction false} SimClose(n: Node, f: Frame, pc: int, id: nat, beg: nat, m0: Memory, st: State, outs: seq<Out>)
    requires n.Group? && Ready(Whole(n), f, pc, id, false) && f.loose !! f.j.stats
    requires ValidMem(m0, n.num) && MemEq(f.loose, f.m, m0)
    requires Delivers(GroupFrame(n, f, pc, beg, m0), st, outs)
    requires forall i :: 0 <= i < |outs| ==> n.num < |outs[i].caps| && outs[i].caps[n.num] == Opened(beg)
    ensures Delivers(f, st, CloseAll(outs, n.num, beg))
    decreases |outs|
  {
    hide MemEq, Agree, Reaches, Ready, EntriesOk, Unwind, Encode, CompileLength, Undo, Fetch;
    var k := n.num;
    var open := MemStartEntry(k, beg, m0.start[k], m0.end[k]);
    var g := GroupFrame(n, f, pc, beg, m0);
    if outs == [] {
      var m :| GivesUp(g, st, m);
      CloseNone(n, f, beg, m0, st, m, g);
    } else {
      var es, m :| Hands(g, st, outs[0], es, m) &&
                   forall m' :: MemEq(g.loose, m, m') ==> Delivers(g, Backtrack(g.base + es, m'), outs[1..]);
      SoundGroup(n, f, pc, id);
      GroupEndValid(g, k, es, m, outs[0].caps);
      var closing := ClosingEntries(f, k, outs[0].s, m);
      var m1 := ClosedMem(f, k, outs[0].s, g.base + es, m);
      var all := [open] + es + closing;
      CloseHands(n, f, pc, id, beg, m0, st, outs[0], es, m);
      var rest := CloseAll(outs[1..], k, beg);
      forall m' | MemEq(f.loose, m1, m') ensures Delivers(f, Backtrack(f.base + all, m'), rest) {
        ClosedUndone(f, k, outs[0].s, g.base + es, m, m');
        PopAll(f.j, g.base + es, closing, m');
        var m2 := Unwind(closing, m');
        SimClose(n, f, pc, id, beg, m0, Backtrack(g.base + es, m2), outs[1..]);
        assert f.base + all == g.base + es + closing;
        DeliverLater(f, Backtrack(f.base + all, m'), Backtrack(g.base + es, m2), rest);
      }
      DeliverSome(f, st, CloseAll(outs, k, beg), all, m1);
    }
  }

  /** The frame of the target of a group. */
  function GroupFrame(n: Node, f: Frame, pc: int, beg: nat, m0: Memory): Frame
    requires n.Group? && ValidMem(m0, n.num)
  {
    Above(f, [MemStartEntry(n.num, beg, m0.start[n.num], m0.end[n.num])], OpenMem(f, n.num, m0)).(
      exit := pc + |Encode(Before(n))| + CompileLength(n.target), loose := LooseInside(f, n.num))
  }

  lemma SoundGroup(n: Node, f: Frame, pc: int, id: nat)
    requires n.Group? && Ready(Whole(n), f, pc, id, false)
    ensures n.num <= f.j.maxMem && n.num !in f.loose && n.num !in Groups(n.target) && Groups(n.target) !! LooseInside(f, n.num)
  {
    hide Installed;
    SoundTarget(n, f);
  }

  lemma GroupEndValid(g: Frame, k: nat, es: seq<Entry>, m: Memory, caps: Caps)
    requires Agree(g.j, g.loose, g.base + es, m, caps) && k <= g.j.maxMem && caps[k].Opened?
    ensures ValidMem(m, k) && (k in g.j.stats ==> m.end[k] == Invalid)
  {
    assert GroupOk(g.j, g.loose, k, g.base + es, m.start[k], m.end[k], caps[k]);
  }

  lemma CloseNone(n: Node, f: Frame, beg: nat, m0: Memory, st: State, m: Memory, g: Frame)
    requires n.Group? && ValidMem(m0, n.num) && MemEq(f.loose, f.m, m0)
    requires g.j == f.j && g.loose == LooseInside(f, n.num) && g.m == OpenMem(f, n.num, m0)
    requires g.base == f.base + [MemStartEntry(n.num, beg, m0.start[n.num], m0.end[n.num])]
    requires GivesUp(g, st, m)
    ensures Delivers(f, st, [])
  {
    hide MemEq, Reaches, Undo;
    var open := MemStartEntry(n.num, beg, m0.start[n.num], m0.end[n.num]);
    PopAll(f.j, f.base, [open], m);
    UnwindOne(open, m);
    OpenUndone(f, n.num, beg, m0, m);
    MemEqTrans(f.loose, f.m, m0, Undo(open, m));
    DeliverFail(f, Undo(open, m));
    DeliverLater(f, Backtrack(g.base, m), Backtrack(f.base, Undo(open, m)), []);
    DeliverLater(f, st, Backtrack(g.base, m), []);
  }

  lemma CloseHands(n: Node, f: Frame, pc: int, id: nat, beg: nat, m0: Memory, st: State, o: Out, es: seq<Entry>, m: Memory)
    requires n.Group? && Ready(Whole(n), f, pc, id, false) && f.loose !! f.j.stats
    requires ValidMem(m0, n.num) && MemEq(f.loose, f.m, m0) && ValidMem(m, n.num)
    requires n.num < |o.caps| && o.caps[n.num] == Opened(beg)
    requires Hands(GroupFrame(n, f, pc, beg, m0), st, o, es, m)
    ensures var open := MemStartEntry(n.num, beg, m0.start[n.num], m0.end[n.num]);
            var g := GroupFrame(n, f, pc, beg, m0);
            Hands(f, st, Out(o.s, CloseGroup(o.caps, n.num, beg, o.s)),
                  [open] + es + ClosingEntries(f, n.num, o.s, m), ClosedMem(f, n.num, o.s, g.base + es, m))
  {
    hide MemEq, Agree, Reaches, Ready, EntriesOk, Unwind, Encode, CompileLength, Undo, Fetch, Step;
    var k := n.num;
    var open := MemStartEntry(k, beg, m0.start[k], m0.end[k]);
    var g := GroupFrame(n, f, pc, beg, m0);
    var stk, closing := g.base + es, ClosingEntries(f, k, o.s, m);
    var m1, all := ClosedMem(f, k, o.s, g.base + es, m), [open] + es + closing;
    SoundGroup(n, f, pc, id);
    GroupEndValid(g, k, es, m, o.caps);
    BehindStep(n, f, pc, id, o.s, stk, m);
    assert f.base + all == stk + closing;
    assert stk + [] == stk;
    ReachesStep(f.j, Exec(g.exit, o.s, stk, m));
    ReachesTrans(f.j, st, Exec(g.exit, o.s, stk, m), Exec(f.exit, o.s, f.base + all, m1));
    AgreeClose(f, k, beg, o.s, o.caps, stk, m, m1, closing);
    MemEqRefl(f.loose, m1);
    ClosedUndone(f, k, o.s, stk, m, m1);
    UnwindThree(f, k, beg, m0, es, closing, m, m1, g.m);
    EntriesThree(open, es, closing, f.lo, f.hi);
  }

  lemma EntriesThree(open: Entry, es: seq<Entry>, closing: seq<Entry>, lo: nat, hi: nat)
    requires open.MemStartEntry? && EntriesOk(es, lo, hi) && |closing| <= 1 && (closing != [] ==> closing[0].MemEndEntry?)
    ensures EntriesOk([open] + es + closing, lo, hi)
  {
  }

  lemma UnwindThree(f: Frame, k: nat, beg: nat, m0: Memory, es: seq<Entry>, closing: seq<Entry>, m: Memory, m1: Memory, inside: Memory)
    requires ValidMem(m0, k) && MemEq(f.loose, f.m, m0) && inside == OpenMem(f, k, m0)
    requires MemEq(LooseInside(f, k), inside, Unwind(es, m)) && MemEq(LooseInside(f, k), m, Unwind(closing, m1))
    ensures MemEq(f.loose, f.m, Unwind([MemStartEntry(k, beg, m0.start[k], m0.end[k])] + es + closing, m1))
  {
    hide MemEq, Undo;
    var open := MemStartEntry(k, beg, m0.start[k], m0.end[k]);
    var a := Unwind(closing, m1);
    UnwindConcat([open] + es, closing, m1);
    UnwindConcat([open], es, a);
    UnwindMemEq(LooseInside(f, k), es, m, a);
    MemEqTrans(LooseInside(f, k), inside, Unwind(es, m), Unwind(es, a));
    UnwindOne(open, Unwind(es, a));
    OpenUndone(f, k, beg, m0, Unwind(es, a));
    MemEqTrans(f.loose, f.m, m0, Undo(open, Unwind(es, a)));
  }

  lemma {:induction false} SimGroup(n: Node, f: Frame, pc: int, id: nat, s: nat, caps: Caps, m: Memory)
    requires n.Group? && Ready(Whole(n), f, pc, id, false) && At(f, s, caps, m)
    ensures Delivers(f, Exec(pc, s, f.base, m), RunTree(n, f.j.u, s, caps, ByCode))
    decreases n, 0, 0, 0
  {
    hide MemEq, Reaches, Ready, Unwind, Encode, CompileLength, Undo, Step, Run, Delivers, GroupOk;
    var k := n.num;
    SoundGroup(n, f, pc, id);
    AgreeOpen(f, k, s, caps, m);
    var g := GroupFrame(n, f, pc, s, m);
    var inside := pc + |Encode(Before(n))|;
    BeforeStep(n, f, pc, id, s, m);
    InsideReady(n, f, pc, id, [MemStartEntry(k, s, m.start[k], m.end[k])], g.m, g.loose);
    MemEqRefl(g.loose, g.m);
    var caps1 := OpenGroup(caps, k, s);
    Sim(Whole(n.target), g, inside, id, false, s, caps1, g.m);
    var outs := Run(Whole(n.target), f.j.u, s, caps1, ByCode);
    RunLeast(Whole(n.target), f.j.u, s, caps1, ByCode);
    forall i | 0 <= i < |outs| ensures k < |outs[i].caps| && outs[i].caps[k] == Opened(s) {
      assert OutOk(outs[i], f.j.u, s + LeastLength(n.target), caps1, Groups(n.target));
    }
    SimClose(n, f, pc, id, s, m, Exec(inside, s, g.base, g.m), outs);
    DeliverStep(f, Exec(pc, s, f.base, m), CloseAll(outs, k, s));
  }

  function VoidAll(es: seq<Entry>): (r: seq<Entry>)
    ensures |r| == |es| && forall i :: 0 <= i < |es| ==> r[i] == VoidEntry(es[i])
  {
    if es == [] then [] else VoidAll(es[..|es| - 1]) + [VoidEntry(es[|es| - 1])]
  }

  lemma {:induction false} StopBtEndOf(base: seq<Entry>, es: seq<Entry>, lo: nat, hi: nat)
    requires base != [] && EntriesOk(es, lo, hi)
    ensures StopBtEnd(base + [StopBtEntry] + es) == Some(base + [Void] + VoidAll(es))
    decreases |es|
  {
    var stk := base + [StopBtEntry] + es;
    if es == [] {
      assert stk[|stk| - 1] == StopBtEntry && stk[..|stk| - 1] == base;
      assert base + [Void] + VoidAll(es) == base + [Void];
    } else {
      var e := es[|es| - 1];
      assert EntryOk(e, lo, hi);
      assert stk[|stk| - 1] == e && stk[..|stk| - 1] == base + [StopBtEntry] + es[..|es| - 1];
      StopBtEndOf(base, es[..|es| - 1], lo, hi);
      assert base + [Void] + VoidAll(es) == base + [Void] + VoidAll(es[..|es| - 1]) + [VoidEntry(e)];
    }
  }

  lemma {:induction false} PosEndOf(base: seq<Entry>, s: nat, es: seq<Entry>, lo: nat, hi: nat)
    requires base != [] && EntriesOk(es, lo, hi)
    ensures PosEnd(base + [PosEntry(s)] + es) == Some((base + [Void] + VoidAll(es), s))
    decreases |es|
  {
    var stk := base + [PosEntry(s)] + es;
    if es == [] {
      assert stk[|stk| - 1] == PosEntry(s) && stk[..|stk| - 1] == base;
      assert base + [Void] + VoidAll(es) == base + [Void];
    } else {
      var e := es[|es| - 1];
      assert EntryOk(e, lo, hi);
      assert stk[|stk| - 1] == e && stk[..|stk| - 1] == base + [PosEntry(s)] + es[..|es| - 1];
      PosEndOf(base, s, es[..|es| - 1], lo, hi);
      assert base + [Void] + VoidAll(es) == base + [Void] + VoidAll(es[..|es| - 1]) + [VoidEntry(e)];
    }
  }

  lemma {:induction false} PopTilPosNotOf(base: seq<Entry>, pc: int, s: nat, es: seq<Entry>, m: Memory, lo: nat, hi: nat)
    requires EntriesOk(es, lo, hi)
    ensures PopTilPosNot(base + [PosNotEntry(pc, s)] + es, m) == Backtrack(base, Unwind(es, m))
    decreases |es|
  {
    hide Undo;
    var stk := base + [PosNotEntry(pc, s)] + es;
    if es == [] {
      assert stk[|stk| - 1] == PosNotEntry(pc, s) && stk[..|stk| - 1] == base;
    } else {
      var e := es[|es| - 1];
      assert EntryOk(e, lo, hi);
      assert stk[|stk| - 1] == e && stk[..|stk| - 1] == base + [PosNotEntry(pc, s)] + es[..|es| - 1];
      PopTilPosNotOf(base, pc, s, es[..|es| - 1], Undo(e, m), lo, hi);
    }
  }

  /** Blanking the alternatives leaves the undo records alone. */
  lemma {:induction false} UnwindVoid(es: seq<Entry>, m: Memory)
    ensures Unwind(VoidAll(es), m) == Unwind(es, m)
    decreases |es|
  {
    if es != [] {
      var e := es[|es| - 1];
      assert VoidAll(es)[..|es| - 1] == VoidAll(es[..|es| - 1]);
      assert Undo(VoidEntry(e), m) == Undo(e, m);
      UnwindVoid(es[..|es| - 1], Undo(e, m));
    }
  }

  lemma AgreeVoid(f: Frame, mark: Entry, es: seq<Entry>, m: Memory, caps: Caps)
    requires mark.StopBtEntry? || mark.PosEntry?
    requires Agree(f.j, f.loose, f.base + [mark] + es, m, caps)
    ensures Agree(f.j, f.loose, f.base + ([Void] + VoidAll(es)), m, caps)
  {
    var stk, stk' := f.base + [mark] + es, f.base + ([Void] + VoidAll(es));
    forall i | 0 <= i < |stk| && (stk[i].MemStartEntry? || stk[i].MemEndEntry?) ensures stk'[i] == stk[i] {
      if i > |f.base| {
        assert stk[i] == es[i - |f.base| - 1];
        assert stk'[i] == VoidAll(es)[i - |f.base| - 1];
      }
    }
    forall i | 0 <= i < |caps| ensures GroupOk(f.j, f.loose, i, stk', m.start[i], m.end[i], caps[i]) {
      assert GroupOk(f.j, f.loose, i, stk, m.start[i], m.end[i], caps[i]);
    }
  }

  lemma VoidEntries(es: seq<Entry>, lo: nat, hi: nat)
    requires EntriesOk(es, lo, hi)
    ensures EntriesOk([Void] + VoidAll(es), lo, hi)
    ensures forall k :: 0 <= k < |[Void] + VoidAll(es)| ==> !Resumes(([Void] + VoidAll(es))[k])
  {
    var vs := [Void] + VoidAll(es);
    forall k | 0 <= k < |vs| ensures EntryOk(vs[k], lo, hi) && !Resumes(vs[k]) {
      if k > 0 {
        assert EntryOk(es[k - 1], lo, hi);
        assert vs[k] == VoidAll(es)[k - 1] == VoidEntry(es[k - 1]);
      }
    }
  }

  lemma UnwindMark(mark: Entry, es: seq<Entry>, m: Memory)
    requires !mark.MemStartEntry? && !mark.MemEndEntry?
    ensures Unwind([mark] + es, m) == Unwind(es, m)
  {
    UnwindConcat([mark], es, m);
    UnwindOne(mark, Unwind(es, m));
  }

  /** After `(?=...)` or `(?>...)` only the first outcome of the target is left, and failing over
      it restores the memory as if the alternatives had been popped. */
  lemma DeliverFirst(f: Frame, mark: Entry, m0: Memory, st: State, o: Out, es: seq<Entry>, m: Memory, o': Out)
    requires mark.StopBtEntry? || mark.PosEntry?
    requires MemEq(f.loose, f.m, m0) && EntriesOk(es, f.lo, f.hi) && o'.caps == o.caps
    requires MemEq(f.loose, m0, Unwind(es, m)) && Agree(f.j, f.loose, f.base + [mark] + es, m, o.caps)
    requires Reaches(f.j, st, Exec(f.exit, o'.s, f.base + [Void] + VoidAll(es), m))
    ensures Delivers(f, st, [o'])
  {
    hide Reaches, MemEq, Agree, Unwind, EntriesOk, Delivers;
    var vs := [Void] + VoidAll(es);
    assert f.base + vs == f.base + [Void] + VoidAll(es);
    AgreeVoid(f, mark, es, m, o.caps);
    VoidEntries(es, f.lo, f.hi);
    UnwindVoid(es, m);
    UnwindMark(Void, VoidAll(es), m);
    MemEqTrans(f.loose, f.m, m0, Unwind(es, m));
    assert Hands(f, st, o', vs, m);
    assert [o'][1..] == [];
    forall m' | MemEq(f.loose, m, m') ensures Delivers(f, Backtrack(f.base + vs, m'), [o'][1..]) {
      PopAll(f.j, f.base, vs, m');
      UnwindMemEq(f.loose, vs, m, m');
      MemEqTrans(f.loose, f.m, Unwind(vs, m), Unwind(vs, m'));
      DeliverFail(f, Unwind(vs, m'));
      DeliverLater(f, Backtrack(f.base + vs, m'), Backtrack(f.base, Unwind(vs, m')), []);
    }
    DeliverSome(f, st, [o'], vs, m);
  }

  /** The target gives up on top of the mark. */
  lemma MarkGivesUp(f: Frame, mark: Entry, m0: Memory, st: State, m: Memory)
    requires mark.StopBtEntry? || mark.PosEntry?
    requires MemEq(f.loose, f.m, m0) && MemEq(f.loose, m0, m) && Reaches(f.j, st, Backtrack(f.base + [mark], m))
    ensures Delivers(f, st, [])
  {
    hide Reaches, MemEq;
    PopAll(f.j, f.base, [mark], m);
    UnwindOne(mark, m);
    MemEqTrans(f.loose, f.m, m0, m);
    DeliverFail(f, m);
    DeliverLater(f, Backtrack(f.base + [mark], m), Backtrack(f.base, m), []);
    DeliverLater(f, st, Backtrack(f.base + [mark], m), []);
  }

  lemma MarkStep(n: Node, f: Frame, pc: int, id: nat, s: nat, m: Memory)
    requires (n.PrecRead? || n.StopBacktrack?) && Ready(Whole(n), f, pc, id, false)
    ensures Step(f.j, Exec(pc, s, f.base, m)) ==
            Exec(pc + |Encode(Before(n))|, s, f.base + [if n.PrecRead? then PosEntry(s) else StopBtEntry], m)
    ensures Safe(f.j, Exec(pc, s, f.base, m))
  {
    hide Ready, Step, Safe, Encode;
    BeforeStep(n, f, pc, id, s, m);
  }

  lemma {:induction false} SimFirst(n: Node, f: Frame, pc: int, id: nat, s: nat, caps: Caps, m: Memory)
    requires (n.PrecRead? || n.StopBacktrack?) && Ready(Whole(n), f, pc, id, false) && At(f, s, caps, m)
    ensures Delivers(f, Exec(pc, s, f.base, m), RunTree(n, f.j.u, s, caps, ByCode))
    decreases n, 0, 0, 0
  {
    hide MemEq, Agree, Reaches, Unwind, Encode, CompileLength, Step, Run, Installed, Fetch, EntriesOk, Safe, Perform, Inlined, Prepared, NullChecks, Groups;
    var mark := if n.PrecRead? then PosEntry(s) else StopBtEntry;
    var inside := pc + |Encode(Before(n))|;
    var end := inside + CompileLength(n.target);
    var g := Above(f, [mark], m).(exit := end);
    var at := Exec(inside, s, g.base, m);
    SoundTarget(n, f);
    MarkStep(n, f, pc, id, s, m);
    InsideReady(n, f, pc, id, [mark], m, f.loose);
    AgreePush(f.j, f.loose, f.base, [mark], m, caps);
    MemEqRefl(f.loose, m);
    Sim(Whole(n.target), g, inside, id, false, s, caps, m);
    var outs := Run(Whole(n.target), f.j.u, s, caps, ByCode);
    if outs == [] {
      var m1 :| GivesUp(g, at, m1);
      MarkGivesUp(f, mark, m, at, m1);
      DeliverStep(f, Exec(pc, s, f.base, m), []);
    } else {
      var o := outs[0];
      var es, m1 :| Hands(g, at, o, es, m1) &&
                    forall m' :: MemEq(g.loose, m1, m') ==> Delivers(g, Backtrack(g.base + es, m'), outs[1..]);
      var o' := if n.PrecRead? then Out(s, o.caps) else o;
      var passed := Exec(f.exit, o'.s, f.base + [Void] + VoidAll(es), m1);
      FirstStep(n, f, pc, id, s, o.s, es, m1);
      ReachesStep(f.j, Exec(end, o.s, g.base + es, m1));
      ReachesTrans(f.j, at, Exec(end, o.s, g.base + es, m1), passed);
      DeliverFirst(f, mark, m, at, o, es, m1, o');
      DeliverStep(f, Exec(pc, s, f.base, m), [o']);
    }
  }

  lemma FirstStep(n: Node, f: Frame, pc: int, id: nat, s: nat, s1: nat, es: seq<Entry>, m: Memory)
    requires (n.PrecRead? || n.StopBacktrack?) && Ready(Whole(n), f, pc, id, false) && EntriesOk(es, f.lo, f.hi)
    ensures var mark := if n.PrecRead? then PosEntry(s) else StopBtEntry;
            Step(f.j, Exec(pc + |Encode(Before(n))| + CompileLength(n.target), s1, f.base + [mark] + es, m)) ==
            Exec(f.exit, if n.PrecRead? then s else s1, f.base + [Void] + VoidAll(es), m) &&
            Safe(f.j, Exec(pc + |Encode(Before(n))| + CompileLength(n.target), s1, f.base + [mark] + es, m))
  {
    hide Encode, CompileLength, Step, Installed, EntriesOk, Inlined, Prepared, Groups, NullChecks;
    if n.PrecRead? {
      BehindStep(n, f, pc, id, s1, f.base + [PosEntry(s)] + es, m);
      PosEndOf(f.base, s, es, f.lo, f.hi);
    } else {
      BehindStep(n, f, pc, id, s1, f.base + [StopBtEntry] + es, m);
      StopBtEndOf(f.base, es, f.lo, f.hi);
    }
  }

  lemma {:induction false} SimNot(n: Node, f: Frame, pc: int, id: nat, s: nat, caps: Caps, m: Memory)
    requires n.PrecReadNot? && Ready(Whole(n), f, pc, id, false) && At(f, s, caps, m)
    ensures Delivers(f, Exec(pc, s, f.base, m), RunTree(n, f.j.u, s, caps, ByCode))
    decreases n, 0, 0, 0
  {
    hide MemEq, Agree, Reaches, Unwind, Encode, CompileLength, Step, Run, Installed, Fetch, EntriesOk;
    var mark := PosNotEntry(f.exit, s);
    var inside := pc + |Encode(Before(n))|;
    var end := inside + CompileLength(n.target);
    var g := Above(f, [mark], m).(exit := end);
    var at := Exec(inside, s, g.base, m);
    SoundTarget(n, f);
    BeforeStep(n, f, pc, id, s, m);
    BehindStep(n, f, pc, id, s, f.base, m);
    InsideReady(n, f, pc, id, [mark], m, f.loose);
    AgreePush(f.j, f.loose, f.base, [mark], m, caps);
    MemEqRefl(f.loose, m);
    Sim(Whole(n.target), g, inside, id, false, s, caps, m);
    var outs := Run(Whole(n.target), f.j.u, s, caps, ByCode);
    if outs == [] {
      var m1 :| GivesUp(g, at, m1);
      MemEqTrans(f.loose, f.m, m, m1);
      AgreeMemEq(f.j, f.loose, f.base, m, m1, caps);
      PopResume(f.j, f.base, mark, m1);
      DeliverHere(f, Out(s, caps), m1);
      DeliverLater(f, Backtrack(g.base, m1), Exec(f.exit, s, f.base, m1), [Out(s, caps)]);
      DeliverLater(f, at, Backtrack(g.base, m1), [Out(s, caps)]);
    } else {
      var o := outs[0];
      var es, m1 :| Hands(g, at, o, es, m1) &&
                    forall m' :: MemEq(g.loose, m1, m') ==> Delivers(g, Backtrack(g.base + es, m'), outs[1..]);
      BehindStep(n, f, pc, id, o.s, g.base + es, m1);
      PopTilPosNotOf(f.base, f.exit, s, es, m1, f.lo, f.hi);
      ReachesStep(f.j, Exec(end, o.s, g.base + es, m1));
      MemEqTrans(f.loose, f.m, m, Unwind(es, m1));
      DeliverFail(f, Unwind(es, m1));
      DeliverLater(f, Exec(end, o.s, g.base + es, m1), Backtrack(f.base, Unwind(es, m1)), []);
      DeliverLater(f, at, Exec(end, o.s, g.base + es, m1), []);
    }
    DeliverStep(f, Exec(pc, s, f.base, m), RegRef.When(outs == [], Out(s, caps)));
  }

  // ----- all trees -----

  lemma {:induction false} SimTree(n: Node, f: Frame, pc: int, id: nat, s: nat, caps: Caps, m: Memory)
    requires !IsLeaf(n) && Ready(Whole(n), f, pc, id, false) && At(f, s, caps, m)
    ensures Delivers(f, Exec(pc, s, f.base, m), RunTree(n, f.j.u, s, caps, ByCode))
    decreases n, 0, 0, 2
  {
    hide Ready, At, Delivers, Run, RunAll, Iterate;
    match n
    case List(l, r) => SimList(l, r, f, pc, id, s, caps, m);
    case Alt(l, r) =>
      if r.Null? {
        LoneReady(l, f, pc, id);
        Sim(Whole(l), f, pc, id, false, s, caps, m);
        var outs := Run(Whole(l), f.j.u, s, caps, ByCode);
        assert RunTree(n, f.j.u, s, caps, ByCode) == outs + [] == outs;
      } else {
        SimAlt(l, r, f, pc, id, s, caps, m);
      }
    case Quant(_, _, _, _, _, _, _) => SimQuant(n, f, pc, id, s, caps, m);
    case Group(_, _) => SimGroup(n, f, pc, id, s, caps, m);
    case PrecRead(_) => SimFirst(n, f, pc, id, s, caps, m);
    case PrecReadNot(_) => SimNot(n, f, pc, id, s, caps, m);
    case StopBacktrack(_) => SimFirst(n, f, pc, id, s, caps, m);
  }

  /** The last alternative of a chain has no OP_PUSH. */
  lemma LoneReady(l: Node, f: Frame, pc: int, id: nat)
    requires Ready(Whole(Alt(l, Null)), f, pc, id, false)
    ensures Ready(Whole(l), f, pc, id, false)
  {
    hide Encode, QuantCode, MinLength, Layout;
    SoundPair(Alt(l, Null), f);
    AltSize(l, Null);
  }

  /** The simulation: entered at its first operation, the code of a part hands out exactly the
      outcomes of the part, in order, whatever lies on the stack below. */
  lemma {:induction false} Sim(p: Part, f: Frame, pc: int, id: nat, checked: bool, s: nat, caps: Caps, m: Memory)
    requires Ready(p, f, pc, id, checked) && At(f, s, caps, m)
    ensures Delivers(f, Exec(pc, s, f.base, m), Run(p, f.j.u, s, caps, ByCode))
    decreases PartNode(p), if p.Whole? then 0 else 2,
              if p.Whole? then 1 else if p.Repeat? then 2 * (|f.j.u.text| - s) + 1 else PartCount(p),
              if p.Repeat? then 2 else 0
  {
    hide Delivers, RunTree, RunLeaf, RunAll, Iterate, Ready, Agree, MemEq;
    match p
    case Whole(n) =>
      WholeReady(n, f, pc, id, checked);
      if IsLeaf(n) { SimLeaf(n, f, pc, id, s, caps, m); } else { SimTree(n, f, pc, id, s, caps, m); }
    case Copies(t, k) =>
      UncheckedReady(p, f, pc, id, checked);
      if k == 0 {
        NoCopies(p, f, pc, id);
        DeliverHere(f, Out(s, caps), m);
      } else {
        SimCopies(t, k, f, pc, id, s, caps, m);
      }
    case Optional(t, k, greedy) =>
      UncheckedReady(p, f, pc, id, checked);
      if k == 0 {
        NoCopies(p, f, pc, id);
        DeliverHere(f, Out(s, caps), m);
      } else {
        SimOptional(t, k, f, pc, id, s, caps, m);
      }
    case Repeat(t, greedy, g) =>
      if greedy { SimGreedy(t, g, f, pc, id, checked, s, caps, m); } else { SimLazy(t, g, f, pc, id, checked, s, caps, m); }
    case DotStar(t, next) =>
      DotStarStepOf(p, f, pc, id, checked, s, m);
      SimDotStar(f, next, s, caps, m);
      DeliverStep(f, Exec(pc, s, f.base, m), RunDotStar(next, f.j.u, s, caps));
  }

  lemma WholeReady(n: Node, f: Frame, pc: int, id: nat, checked: bool)
    requires Ready(Whole(n), f, pc, id, checked)
    ensures Ready(Whole(n), f, pc, id, false)
  {
  }

  lemma UncheckedReady(p: Part, f: Frame, pc: int, id: nat, checked: bool)
    requires (p.Copies? || p.Optional?) && Ready(p, f, pc, id, checked)
    ensures Ready(p, f, pc, id, false) && (p.Optional? ==> p.greedy)
  {
    hide Inlined, Prepared, Groups, Code, CopiesCode, OptionsCode, LoopCode, Encode, Placed;
  }

  lemma NoCopies(p: Part, f: Frame, pc: int, id: nat)
    requires (p.Copies? || p.Optional?) && p.k == 0 && Ready(p, f, pc, id, false)
    ensures f.exit == pc
  {
  }

  lemma DotStarStepOf(p: Part, f: Frame, pc: int, id: nat, checked: bool, s: nat, m: Memory)
    requires p.DotStar? && Ready(p, f, pc, id, checked)
    ensures Step(f.j, Exec(pc, s, f.base, m)) == DotStarStep(f.j, p.next, f.exit, s, f.base, m)
    ensures Safe(f.j, Exec(pc, s, f.base, m))
  {
    hide Encode, Step, Inlined, Prepared, Groups;
    StepOf(f.j, pc, AnyCharStarInstr(p.next), s, f.base, m);
  }

}
