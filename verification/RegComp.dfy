/** The compiler from parse trees to byte code (oniguruma/regcomp.c). `Code` is the byte
    sequence of a tree; class `Regex` is the compiler itself, which appends to a growing buffer. */
module RegComp {
  import opened RegInt
  import opened RegTree
  import opened Wrappers

  /** The operation at the head of a greedy loop. */
  function PushInstr(g: Guard, addr: int): Instr {
    match g
    case Always => Push(addr)
    case HeadIs(c) => PushOrJumpExact1(addr, c)
    case NextIs(c) => PushIfPeekNext(addr, c)
  }

  /** How many null-check numbers compiling the tree uses up. */
  function NullChecks(n: Node): nat {
    match n
    case List(l, r) => NullChecks(l) + NullChecks(r)
    case Alt(l, r) => NullChecks(l) + NullChecks(r)
    case Quant(t, lower, upper, _, checked, _, _) =>
      var k := NullChecks(t);
      (match Layout(n)
       case Dots => Times(k, lower)
       case Loop(jumpIn) => (if jumpIn then 0 else Times(k, lower)) + k + (if checked then 1 else 0)
       case Options => Times(k, lower) + Times(k, Spare(lower, upper.n))
       case LazyOption => k
       case Range => k + (if checked then 1 else 0))
    case Group(_, t) => NullChecks(t)
    case PrecRead(t) => NullChecks(t)
    case PrecReadNot(t) => NullChecks(t)
    case StopBacktrack(t) => NullChecks(t)
    case _ => 0
  }

  /** How many numbers for OP_REPEAT it uses up. */
  function Repeats(n: Node): nat {
    match n
    case List(l, r) => Repeats(l) + Repeats(r)
    case Alt(l, r) => Repeats(l) + Repeats(r)
    case Quant(t, lower, upper, _, _, _, _) =>
      var k := Repeats(t);
      (match Layout(n)
       case Dots => Times(k, lower)
       case Loop(jumpIn) => (if jumpIn then 0 else Times(k, lower)) + k
       case Options => Times(k, lower) + Times(k, Spare(lower, upper.n))
       case LazyOption => k
       case Range => k + 1)
    case Group(_, t) => Repeats(t)
    case PrecRead(t) => Repeats(t)
    case PrecReadNot(t) => Repeats(t)
    case StopBacktrack(t) => Repeats(t)
    case _ => 0
  }

  /** An alternative: OP_PUSH to the other side, this side, OP_JUMP over the other side. */
  function AltBytes(lenL: nat, lenR: nat, left: seq<Byte>, right: seq<Byte>): seq<Byte> {
    Encode(Push(lenL + SIZE_OP_JUMP)) + (left + (Encode(Jump(lenR)) + right))
  }

  /** compile_tree: the bytes of a tree, when null-check numbers start at `id` and the numbers of
      OP_REPEAT at `rep`, and `stats` is the set of groups whose memory status bit is on. */
  function Code(n: Node, stats: set<nat>, id: nat, rep: nat): seq<Byte>
    decreases n, 0, 0
  {
    match n
    case Null => []
    case Empty => []
    case Str(s) => if s == [] then [] else Encode(Exact(s))
    case CClass(bits, negated) => Encode(if negated then CClassNot(bits) else Instr.CClass(bits))
    case AnyChar => Encode(Instr.AnyChar)
    case Anchor(kind) => Encode(AnchorInstr(kind))
    case Backref(k) => Encode(Instr.Backref(k))
    case List(l, r) => Code(l, stats, id, rep) + Code(r, stats, id + NullChecks(l), rep + Repeats(l))
    case Alt(l, r) =>
      if r.Null? then Code(l, stats, id, rep)
      else
        AltBytes(CompileLength(l), CompileLength(r),
                 Code(l, stats, id, rep), Code(r, stats, id + NullChecks(l), rep + Repeats(l)))
    case Quant(_, _, _, _, _, _, _) => QuantCode(n, stats, id, rep)
    case Group(k, t) =>
      Encode(MemoryStartPush(k)) + (Code(t, stats, id, rep) + Encode(MemoryEndInstr(k, stats)))
    case PrecRead(t) => Encode(PushPos) + (Code(t, stats, id, rep) + Encode(PopPos))
    case PrecReadNot(t) =>
      Encode(PushPosNot(CompileLength(t) + SIZE_OP_FAIL_POS)) + (Code(t, stats, id, rep) + Encode(FailPos))
    case StopBacktrack(t) => Encode(PushStopBt) + (Code(t, stats, id, rep) + Encode(PopStopBt))
  }

  /** compile_qualifier_node. */
  function QuantCode(q: Node, stats: set<nat>, id: nat, rep: nat): seq<Byte>
    requires q.Quant?
    decreases q.target, 3, 0
  {
    var t := q.target;
    var after, repAfter := id + Times(NullChecks(t), q.lower), rep + Times(Repeats(t), q.lower);
    match Layout(q)
    case Dots => CopiesCode(t, q.lower, stats, id, rep) + Encode(AnyCharStarInstr(q.nextHeadExact))
    case Loop(jumpIn) =>
      if jumpIn then
        Encode(Jump(if q.greedy then PushSize(GuardOf(q)) else SIZE_OP_JUMP)) +
        LoopCode(t, q.greedy, q.targetEmpty, GuardOf(q), stats, id, rep)
      else
        CopiesCode(t, q.lower, stats, id, rep) +
        LoopCode(t, q.greedy, q.targetEmpty, GuardOf(q), stats, after, repAfter)
    case Options =>
      CopiesCode(t, q.lower, stats, id, rep) + OptionsCode(t, Spare(q.lower, q.upper.n), stats, after, repAfter)
    case LazyOption => Encode(Push(SIZE_OP_JUMP)) + (Encode(Jump(CompileLength(t))) + Code(t, stats, id, rep))
    case Range => RangeCode(q, stats, id, rep)
  }

  function AnchorInstr(kind: AnchorType): Instr {
    match kind
    case AtBufBegin => Instr.BeginBuf
    case AtBufEnd => Instr.EndBuf
    case AtBeginPosition => Instr.BeginPosition
  }

  function AnyCharStarInstr(next: Option<Byte>): Instr {
    match next
    case Some(c) => AnyCharStarPeekNext(c)
    case None => Instr.AnyCharStar
  }

  function MemoryEndInstr(k: nat, stats: set<nat>): Instr {
    if k in stats then MemoryEndPush(k) else MemoryEnd(k)
  }

  /** compile_tree_n_times. */
  function CopiesCode(t: Node, k: nat, stats: set<nat>, id: nat, rep: nat): seq<Byte>
    decreases t, 1, k
  {
    if k == 0 then []
    else Code(t, stats, id, rep) + CopiesCode(t, k - 1, stats, id + NullChecks(t), rep + Repeats(t))
  }

  /** `k` nested optional copies: each one is preceded by an OP_PUSH to the common end. */
  function OptionsCode(t: Node, k: nat, stats: set<nat>, id: nat, rep: nat): seq<Byte>
    decreases t, 1, k
  {
    if k == 0 then []
    else
      Encode(Push(Times(CompileLength(t) + SIZE_OP_PUSH, k) - SIZE_OP_PUSH)) +
      (Code(t, stats, id, rep) + OptionsCode(t, k - 1, stats, id + NullChecks(t), rep + Repeats(t)))
  }

  /** compile_tree_empty_check. */
  function BodyCode(t: Node, checked: bool, stats: set<nat>, id: nat, rep: nat): seq<Byte>
    decreases t, 1, 0
  {
    if checked then
      Encode(NullCheckStart(id)) + (Code(t, stats, id + 1, rep) + Encode(NullCheckEnd(id)))
    else Code(t, stats, id, rep)
  }

  /** The loop of `t*` or `t*?`. */
  function LoopCode(t: Node, greedy: bool, checked: bool, g: Guard, stats: set<nat>, id: nat, rep: nat): seq<Byte>
    decreases t, 2, 0
  {
    var len := BodyLength(CompileLength(t), checked);
    if greedy then
      Encode(PushInstr(g, len + SIZE_OP_JUMP)) +
      (BodyCode(t, checked, stats, id, rep) + Encode(Jump(-(len + SIZE_OP_JUMP + PushSize(g)))))
    else
      Encode(Jump(len)) + (BodyCode(t, checked, stats, id, rep) + Encode(Push(-(len + SIZE_OP_PUSH))))
  }

  const REPEAT_INFINITE := -1

  function UpperNum(u: Upper): int {
    match u
    case Infinite => REPEAT_INFINITE
    case Finite(n) => n
  }

  /** The operation at the head of a counted repeat: its number, and where it is left. */
  function RepeatInstr(q: Node, rep: nat): Instr
    requires q.Quant?
  {
    RepeatOp(rep, BodyLength(CompileLength(q.target), q.targetEmpty) + SIZE_OP_REPEAT_INC,
                 q.lower, UpperNum(q.upper), q.greedy)
  }

  /** compile_range_repeat_node. */
  function RangeCode(q: Node, stats: set<nat>, id: nat, rep: nat): seq<Byte>
    requires q.Quant?
    decreases q.target, 2, 0
  {
    Encode(RepeatInstr(q, rep)) +
    (BodyCode(q.target, q.targetEmpty, stats, id, rep + 1) + Encode(RepeatInc(rep, q.greedy)))
  }

  /** The compiled program of a pattern: its tree and OP_END. */
  function Program(n: Node, stats: set<nat>): seq<Byte> {
    Code(n, stats, 0, 0) + Encode(End)
  }

  lemma SizeOf(i: Instr)
    requires i.Exact? ==> i.str != []
    ensures i.Jump? || i.Push? || i.PushPosNot? ==> |Encode(i)| == SIZE_OPCODE + SIZE_RELADDR
    ensures i.MemoryStartPush? || i.MemoryEndPush? || i.MemoryEnd? || i.NullCheckStart? || i.NullCheckEnd? || i.RepeatInc? ==>
              |Encode(i)| == SIZE_OPCODE + SIZE_MEMNUM
    ensures i.RepeatOp? ==> |Encode(i)| == SIZE_OPCODE + SIZE_MEMNUM + SIZE_RELADDR + SIZE_REPEATNUM * 2
    ensures i.PushPos? || i.PopPos? || i.FailPos? || i.PushStopBt? || i.PopStopBt? || i.AnyCharStar? ==>
              |Encode(i)| == SIZE_OPCODE
    ensures i.AnyCharStarPeekNext? ==> |Encode(i)| == SIZE_OPCODE + 1
    ensures i.PushOrJumpExact1? || i.PushIfPeekNext? ==> |Encode(i)| == SIZE_OPCODE + SIZE_RELADDR + 1
  {
  }

  lemma {:induction false} CopiesLength(t: Node, k: nat, stats: set<nat>, id: nat, rep: nat)
    requires Sized(t)
    ensures |CopiesCode(t, k, stats, id, rep)| == Times(CompileLength(t), k)
    decreases t, 1, k
  {
    hide Code, CompileLength, NullChecks, Repeats;
    if k > 0 {
      LengthIsCodeSize(t, stats, id, rep);
      CopiesLength(t, k - 1, stats, id + NullChecks(t), rep + Repeats(t));
    }
  }

  lemma {:induction false} OptionsLength(t: Node, k: nat, stats: set<nat>, id: nat, rep: nat)
    requires Sized(t)
    ensures |OptionsCode(t, k, stats, id, rep)| == Times(CompileLength(t) + SIZE_OP_PUSH, k)
    decreases t, 1, k
  {
    hide Code, CompileLength, NullChecks, Repeats, Encode;
    if k > 0 {
      SizeOf(Push(Times(CompileLength(t) + SIZE_OP_PUSH, k) - SIZE_OP_PUSH));
      LengthIsCodeSize(t, stats, id, rep);
      OptionsLength(t, k - 1, stats, id + NullChecks(t), rep + Repeats(t));
    }
  }

  lemma {:induction false} BodyCodeLength(t: Node, checked: bool, stats: set<nat>, id: nat, rep: nat)
    requires Sized(t)
    ensures |BodyCode(t, checked, stats, id, rep)| == BodyLength(CompileLength(t), checked)
    decreases t, 1, 0
  {
    hide Code, CompileLength, Encode;
    SizeOf(NullCheckStart(id));
    SizeOf(NullCheckEnd(id));
    LengthIsCodeSize(t, stats, if checked then id + 1 else id, rep);
  }

  lemma {:induction false} LoopLength(t: Node, greedy: bool, checked: bool, g: Guard, stats: set<nat>, id: nat, rep: nat)
    requires Sized(t)
    ensures |LoopCode(t, greedy, checked, g, stats, id, rep)| ==
            (if greedy then PushSize(g) + BodyLength(CompileLength(t), checked) + SIZE_OP_JUMP
             else SIZE_OP_JUMP + BodyLength(CompileLength(t), checked) + SIZE_OP_PUSH)
    decreases t, 2, 0
  {
    hide Code, CompileLength, Encode, BodyCode;
    var len := BodyLength(CompileLength(t), checked);
    BodyCodeLength(t, checked, stats, id, rep);
    SizeOf(PushInstr(g, len + SIZE_OP_JUMP));
    SizeOf(Jump(-(len + SIZE_OP_JUMP + PushSize(g))));
    SizeOf(Jump(len));
    SizeOf(Push(-(len + SIZE_OP_PUSH)));
  }

  lemma OptionsFinite(q: Node)
    requires q.Quant? && Layout(q) == Options
    ensures q.upper.Finite?
  {
  }

  lemma {:induction false} QuantLength(q: Node, stats: set<nat>, id: nat, rep: nat)
    requires Sized(q) && q.Quant?
    ensures |QuantCode(q, stats, id, rep)| == CompileLength(q)
    decreases q.target, 3, 0
  {
    hide Encode, Code, CopiesCode, OptionsCode, LoopCode, BodyCode, BodyLength, FormOf, NullChecks, Repeats, GuardOf;
    var t := q.target;
    var after, repAfter := id + Times(NullChecks(t), q.lower), rep + Times(Repeats(t), q.lower);
    assert Layout(q) == FormOf(q, CompileLength(t));
    CopiesLength(t, q.lower, stats, id, rep);
    match Layout(q)
    case Dots => SizeOf(AnyCharStarInstr(q.nextHeadExact));
    case Loop(jumpIn) =>
      SizeOf(Jump(if q.greedy then PushSize(GuardOf(q)) else SIZE_OP_JUMP));
      LoopLength(t, q.greedy, q.targetEmpty, GuardOf(q), stats, if jumpIn then id else after, if jumpIn then rep else repAfter);
    case Options =>
      OptionsFinite(q);
      OptionsLength(t, Spare(q.lower, q.upper.n), stats, after, repAfter);
    case LazyOption =>
      SizeOf(Push(SIZE_OP_JUMP));
      SizeOf(Jump(CompileLength(t)));
      LengthIsCodeSize(t, stats, id, rep);
    case Range =>
      SizeOf(RepeatInstr(q, rep));
      SizeOf(RepeatInc(rep, q.greedy));
      BodyCodeLength(t, q.targetEmpty, stats, id, rep + 1);
  }

  lemma LeafLength(n: Node, stats: set<nat>, id: nat, rep: nat)
    requires Sized(n) && (n.Str? || n.CClass? || n.AnyChar? || n.Anchor? || n.Backref? || n.Null? || n.Empty?)
    ensures |Code(n, stats, id, rep)| == CompileLength(n)
  {
  }

  lemma SizedPair(n: Node)
    requires Sized(n) && (n.List? || n.Alt?)
    ensures Sized(n.left) && Sized(n.right)
  {
    hide Layout;
  }

  /** The code of `l|r`. */
  lemma AltCode(l: Node, r: Node, stats: set<nat>, id: nat, rep: nat)
    requires !r.Null?
    ensures Code(Alt(l, r), stats, id, rep) ==
            AltBytes(CompileLength(l), CompileLength(r), Code(l, stats, id, rep), Code(r, stats, id + NullChecks(l), rep + Repeats(l)))
  {
    hide Encode, QuantCode, NullChecks, Repeats, CompileLength, AltBytes;
  }

  lemma LastAltCode(l: Node, r: Node, stats: set<nat>, id: nat, rep: nat)
    requires r.Null?
    ensures Code(Alt(l, r), stats, id, rep) == Code(l, stats, id, rep)
    ensures Code(r, stats, id + NullChecks(l), rep + Repeats(l)) == [] && NullChecks(r) == 0 && Repeats(r) == 0
  {
    hide Encode, QuantCode, CompileLength;
  }

  lemma AltChecks(l: Node, r: Node)
    ensures NullChecks(Alt(l, r)) == NullChecks(l) + NullChecks(r)
    ensures Repeats(Alt(l, r)) == Repeats(l) + Repeats(r)
  {
  }

  lemma ListCode(n: Node, stats: set<nat>, id: nat, rep: nat)
    requires n.List?
    ensures Code(n, stats, id, rep) == Code(n.left, stats, id, rep) + Code(n.right, stats, id + NullChecks(n.left), rep + Repeats(n.left))
  {
    hide Encode, QuantCode, NullChecks, Repeats, CompileLength;
  }

  lemma QuantIsCode(n: Node, stats: set<nat>, id: nat, rep: nat)
    requires n.Quant?
    ensures Code(n, stats, id, rep) == QuantCode(n, stats, id, rep)
  {
    hide Encode, QuantCode, NullChecks, Repeats, CompileLength;
  }

  lemma ListSize(n: Node)
    requires n.List?
    ensures CompileLength(n) == CompileLength(n.left) + CompileLength(n.right)
    ensures NullChecks(n) == NullChecks(n.left) + NullChecks(n.right)
    ensures Repeats(n) == Repeats(n.left) + Repeats(n.right)
  {
    hide Layout, FormOf;
  }

  lemma AltLength(l: Node, r: Node, stats: set<nat>, id: nat, rep: nat)
    requires |Code(l, stats, id, rep)| == CompileLength(l) && |Code(r, stats, id + NullChecks(l), rep + Repeats(l))| == CompileLength(r)
    ensures |Code(Alt(l, r), stats, id, rep)| == CompileLength(Alt(l, r))
  {
    hide Encode, Code, NullChecks, Repeats, CompileLength;
    AltSize(l, r);
    if r.Null? {
      LastAltCode(l, r, stats, id, rep);
    } else {
      AltCode(l, r, stats, id, rep);
      SizeOf(Push(CompileLength(l) + SIZE_OP_JUMP));
      SizeOf(Jump(CompileLength(r)));
    }
  }

  lemma EffectLength(n: Node, stats: set<nat>, id: nat, rep: nat)
    requires n.Group? || n.PrecRead? || n.PrecReadNot? || n.StopBacktrack?
    requires |Code(n.target, stats, id, rep)| == CompileLength(n.target)
    ensures |Code(n, stats, id, rep)| == CompileLength(n)
  {
    hide Encode, QuantCode, NullChecks, Repeats, FormOf, Times, PushSize, BodyLength, GuardOf, Spare;
    match n
    case Group(k, t) => SizeOf(MemoryStartPush(k)); SizeOf(MemoryEndInstr(k, stats));
    case PrecRead(t) => SizeOf(PushPos); SizeOf(PopPos);
    case PrecReadNot(t) => SizeOf(PushPosNot(CompileLength(t) + SIZE_OP_FAIL_POS)); SizeOf(FailPos);
    case StopBacktrack(t) => SizeOf(PushStopBt); SizeOf(PopStopBt);
  }

  /** compile_length_tree announces exactly the number of bytes compile_tree writes, for every tree of
      the parser and whatever the numbers and memory status bits are. */
  lemma {:induction false} LengthIsCodeSize(n: Node, stats: set<nat>, id: nat, rep: nat)
    requires Sized(n)
    ensures |Code(n, stats, id, rep)| == CompileLength(n)
    decreases n, 0, 0
  {
    hide Encode, Code, QuantCode, NullChecks, Repeats, CompileLength, Layout;
    if n.List? {
      SizedPair(n);
      LengthIsCodeSize(n.left, stats, id, rep);
      LengthIsCodeSize(n.right, stats, id + NullChecks(n.left), rep + Repeats(n.left));
      ListCode(n, stats, id, rep);
      ListSize(n);
    } else if n.Alt? {
      SizedPair(n);
      LengthIsCodeSize(n.left, stats, id, rep);
      LengthIsCodeSize(n.right, stats, id + NullChecks(n.left), rep + Repeats(n.left));
      AltLength(n.left, n.right, stats, id, rep);
    } else if n.Quant? {
      QuantLength(n, stats, id, rep);
      QuantIsCode(n, stats, id, rep);
    } else if n.Group? || n.PrecRead? || n.PrecReadNot? || n.StopBacktrack? {
      SizedTarget(n);
      LengthIsCodeSize(n.target, stats, id, rep);
      EffectLength(n, stats, id, rep);
    } else {
      LeafLength(n, stats, id, rep);
    }
  }

  /** The null-check numbers of a quantifier by layout. */
  lemma QuantNulls(q: Node)
    requires q.Quant?
    ensures var k := NullChecks(q.target);
            match Layout(q)
            case Dots => NullChecks(q) == Times(k, q.lower) && q.upper.Infinite?
            case Loop(jumpIn) =>
              NullChecks(q) == (if jumpIn then 0 else Times(k, q.lower)) + k + (if q.targetEmpty then 1 else 0) &&
              q.upper.Infinite?
            case Options =>
              q.upper.Finite? && q.greedy && NullChecks(q) == Times(k, q.lower) + Times(k, Spare(q.lower, q.upper.n))
            case LazyOption => NullChecks(q) == k && !q.greedy && q.lower == 0 && q.upper == Finite(1)
            case Range => NullChecks(q) == k + (if q.targetEmpty then 1 else 0)
  {
    hide CompileLength, Times;
  }

  /** The numbers for OP_REPEAT of a quantifier by layout. */
  lemma QuantRepeats(q: Node)
    requires q.Quant?
    ensures var k := Repeats(q.target);
            match Layout(q)
            case Dots => Repeats(q) == Times(k, q.lower)
            case Loop(jumpIn) => Repeats(q) == (if jumpIn then 0 else Times(k, q.lower)) + k
            case Options => q.upper.Finite? && Repeats(q) == Times(k, q.lower) + Times(k, Spare(q.lower, q.upper.n))
            case LazyOption => Repeats(q) == k
            case Range => Repeats(q) == k + 1
  {
    hide CompileLength, Times;
  }

  lemma AltSize(l: Node, r: Node)
    ensures CompileLength(Alt(l, r)) ==
            CompileLength(l) + CompileLength(r) + (if r.Null? then 0 else SIZE_OP_PUSH + SIZE_OP_JUMP)
  {
  }

  /** The operation before and the operation behind the target of an effect node. */
  function Before(n: Node): (i: Instr)
    requires n.Group? || n.PrecRead? || n.PrecReadNot? || n.StopBacktrack?
    ensures !i.Exact?
  {
    match n
    case Group(k, _) => MemoryStartPush(k)
    case PrecRead(_) => PushPos
    case PrecReadNot(t) => PushPosNot(CompileLength(t) + SIZE_OP_FAIL_POS)
    case StopBacktrack(_) => PushStopBt
  }

  function Behind(n: Node, stats: set<nat>): (i: Instr)
    requires n.Group? || n.PrecRead? || n.PrecReadNot? || n.StopBacktrack?
    ensures !i.Exact?
  {
    match n
    case Group(k, _) => MemoryEndInstr(k, stats)
    case PrecRead(_) => PopPos
    case PrecReadNot(_) => FailPos
    case StopBacktrack(_) => PopStopBt
  }

  lemma EffectCode(n: Node, stats: set<nat>, id: nat, rep: nat)
    requires n.Group? || n.PrecRead? || n.PrecReadNot? || n.StopBacktrack?
    ensures Code(n, stats, id, rep) == Encode(Before(n)) + (Code(n.target, stats, id, rep) + Encode(Behind(n, stats)))
  {
    hide Encode, QuantCode, CopiesCode, CompileLength;
  }

  lemma SizedTarget(n: Node)
    requires Sized(n) && (n.Quant? || n.Group? || n.PrecRead? || n.PrecReadNot? || n.StopBacktrack?)
    ensures Sized(n.target)
    ensures n.Quant? && n.upper.Finite? ==> n.lower <= n.upper.n
    ensures !n.Quant? ==> NullChecks(n) == NullChecks(n.target) && Repeats(n) == Repeats(n.target)
  {
    hide Layout;
  }

  // ----- trees without OP_REPEAT -----

  lemma {:induction false} InlinedSized(n: Node)
    requires Inlined(n)
    ensures Sized(n) && Repeats(n) == 0
  {
    hide Layout, CompileLength;
    match n
    case List(l, r) => InlinedSized(l); InlinedSized(r);
    case Alt(l, r) => InlinedSized(l); InlinedSized(r);
    case Quant(t, lower, upper, _, _, _, _) =>
      InlinedSized(t);
      QuantRepeats(n);
      NoTimes(lower);
      if upper.Finite? { NoTimes(Spare(lower, upper.n)); }
    case Group(_, t) => InlinedSized(t);
    case PrecRead(t) => InlinedSized(t);
    case PrecReadNot(t) => InlinedSized(t);
    case StopBacktrack(t) => InlinedSized(t);
    case _ =>
  }

  lemma {:induction false} NoTimes(k: nat)
    ensures Times(0, k) == 0
  {
    if k > 0 { NoTimes(k - 1); }
  }

  lemma InlinedLength(n: Node, stats: set<nat>, id: nat)
    requires Inlined(n)
    ensures |Code(n, stats, id, 0)| == CompileLength(n)
  {
    hide Inlined, Sized, Code, CompileLength;
    InlinedSized(n);
    LengthIsCodeSize(n, stats, id, 0);
  }

  lemma InlinedPair(n: Node)
    requires Inlined(n) && (n.List? || n.Alt?)
    ensures Inlined(n.left) && Inlined(n.right) && Repeats(n.left) == 0
  {
    hide Layout, Repeats;
    InlinedSized(n.left);
  }
}
