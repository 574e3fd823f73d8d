/** The backtracking machine of match_at as a transition function (oniguruma/regexec.c). */
module RegExec {
  import opened RegInt
  import opened Wrappers
  import opened RegRef

  /** `p` of the code the bottom stack entry points at: one OP_FINISH outside the program. */
  const FINISH_CODE := -1

  const INVALID_STACK_INDEX := -1

  /** mem_end_stk: nothing, the index of an STK_MEM_END entry, or (OP_MEMORY_END) a position. */
  datatype MemEnd = Invalid | Index(i: nat) | Raw(s: nat)

  /** Stack entries. `Void` is an entry whose type was overwritten with STK_VOID. */
  datatype Entry =
    | AltEntry(pcode: int, pstr: nat)
    | PosNotEntry(pcode: int, pstr: nat)
    | PosEntry(pstr: nat)
    | StopBtEntry
    | NullCheckEntry(id: nat, pstr: nat)
    | MemStartEntry(num: nat, pstr: nat, start: int, end: MemEnd)
    | MemEndEntry(num: nat, pstr: nat, start: int)
    | Void

  /** mem_start_stk and mem_end_stk, indexed by group number. */
  datatype Memory = Memory(start: seq<int>, end: seq<MemEnd>)

  /** `NotModelled` stands for OP_REPEAT and its increments, which this machine does not run. */
  datatype MatchError = StackBug | UndefinedBytecode | UnexpectedBytecode | NotModelled

  datatype Result =
    | Mismatch
    | Match(end: nat, groups: seq<Cap>)
    | Error(e: MatchError)

  /** `Exec` is at an operation; `Backtrack` is in the middle of popping the stack. */
  datatype State =
    | Exec(p: int, s: nat, stk: seq<Entry>, mem: Memory)
    | Backtrack(stk: seq<Entry>, mem: Memory)
    | Halt(result: Result)

  /** The compiled pattern and the subject. */
  datatype Job = Job(code: seq<Byte>, stats: set<nat>, maxMem: nat, u: Subject)

  predicate ValidMem(m: Memory, num: nat) {
    num < |m.start| && num < |m.end|
  }

  /** What popping an entry does to the memory. */
  function Undo(e: Entry, m: Memory): Memory {
    match e
    case MemStartEntry(num, _, start, end) =>
      if ValidMem(m, num) then Memory(m.start[num := start], m.end[num := end]) else m
    case MemEndEntry(num, _, _) =>
      if ValidMem(m, num) then Memory(m.start, m.end[num := Invalid]) else m
    case _ => m
  }

  predicate Resumes(e: Entry) {
    e.AltEntry? || e.PosNotEntry?
  }

  /** One round of STACK_POP. */
  function Pop(stk: seq<Entry>, m: Memory): State {
    if stk == [] then Halt(Error(StackBug))
    else
      var e, rest := stk[|stk| - 1], stk[..|stk| - 1];
      if Resumes(e) then Exec(e.pcode, e.pstr, rest, m) else Backtrack(rest, Undo(e, m))
  }

  /** STACK_POP_TIL_POS_NOT and the jump to `fail` behind it. */
  function PopTilPosNot(stk: seq<Entry>, m: Memory): State {
    if stk == [] then Halt(Error(StackBug))
    else
      var e, rest := stk[|stk| - 1], stk[..|stk| - 1];
      if e.PosNotEntry? then Backtrack(rest, m) else PopTilPosNot(rest, Undo(e, m))
  }

  predicate Voided(e: Entry) {
    Resumes(e) || e.NullCheckEntry?
  }

  function VoidEntry(e: Entry): Entry {
    if Voided(e) then Void else e
  }

  /** STACK_POS_END: the entries above the innermost STK_POS that would resume or check are
      blanked, and that entry itself; gives the new stack and the position it had saved. */
  function PosEnd(stk: seq<Entry>): Option<(seq<Entry>, nat)> {
    if |stk| <= 1 then None
    else
      var e, rest := stk[|stk| - 1], stk[..|stk| - 1];
      if e.PosEntry? then Some((rest + [Void], e.pstr))
      else
        match PosEnd(rest)
        case Some(r) => Some((r.0 + [VoidEntry(e)], r.1))
        case None => None
  }

  /** STACK_STOP_BT_END. */
  function StopBtEnd(stk: seq<Entry>): Option<seq<Entry>> {
    if |stk| <= 1 then None
    else
      var e, rest := stk[|stk| - 1], stk[..|stk| - 1];
      if e.StopBtEntry? then Some(rest + [Void])
      else
        match StopBtEnd(rest)
        case Some(r) => Some(r + [VoidEntry(e)])
        case None => None
  }

  /** STACK_NULL_CHECK: where the innermost pass of the loop with this number began. */
  function NullCheckStartOf(stk: seq<Entry>, id: nat): Option<nat> {
    if stk == [] then None
    else
      var e := stk[|stk| - 1];
      if e.NullCheckEntry? && e.id == id then Some(e.pstr)
      else NullCheckStartOf(stk[..|stk| - 1], id)
  }

  /** OP_NULL_CHECK_END skips the jump or push that would go round the loop again. */
  function SkipLoop(code: seq<Byte>, p: nat): Option<nat> {
    match Fetch(code, p)
    case Fetched(Jump(_), next) => Some(next)
    case Fetched(Push(_), next) => Some(next)
    case _ => None
  }

  /** OP_ANYCHAR_STAR pushes an alternative at every position it passes. */
  function DotStarStep(j: Job, next: Option<Byte>, p: int, s: nat, stk: seq<Entry>, m: Memory): State
    decreases |j.u.text| - s
  {
    if s >= |j.u.text| then Exec(p, s, stk, m)
    else
      var stk' := if next.None? || next.value == j.u.text[s] then stk + [AltEntry(p, s)] else stk;
      if DotAt(j.u, s) then DotStarStep(j, next, p, s + 1, stk', m) else Backtrack(stk', m)
  }

  function MemoryStart(num: nat, s: nat, p: int, stk: seq<Entry>, m: Memory): State {
    if !ValidMem(m, num) then Halt(Error(StackBug))
    else
      Exec(p, s, stk + [MemStartEntry(num, s, m.start[num], m.end[num])],
           Memory(m.start[num := |stk|], m.end[num := Invalid]))
  }

  function MemoryEnd(num: nat, push: bool, s: nat, p: int, stk: seq<Entry>, m: Memory): State {
    if !ValidMem(m, num) then Halt(Error(StackBug))
    else if push then
      Exec(p, s, stk + [MemEndEntry(num, s, m.start[num])], Memory(m.start, m.end[num := Index(|stk|)]))
    else Exec(p, s, stk, Memory(m.start, m.end[num := Raw(s)]))
  }

  /** STACK_AT(i)->u.mem.pstr. */
  function MemPos(stk: seq<Entry>, i: int): Option<nat> {
    if 0 <= i < |stk| && (stk[i].MemStartEntry? || stk[i].MemEndEntry?) then Some(stk[i].pstr) else None
  }

  /** The text of a back-reference, read off the STK_MEM_END entry and the STK_MEM_START entry
      that it points at. */
  function BackrefText(j: Job, num: nat, stk: seq<Entry>, m: Memory): Option<seq<Byte>> {
    if num > j.maxMem || !ValidMem(m, num) || !m.end[num].Index? then None
    else
      var i := m.end[num].i;
      if !(i < |stk|) || !stk[i].MemEndEntry? then None
      else
        match MemPos(stk, stk[i].start)
        case Some(beg) => if beg <= stk[i].pstr <= |j.u.text| then Some(j.u.text[beg..stk[i].pstr]) else None
        case None => None
  }

  /** region->beg[i] and region->end[i] at OP_END. */
  function Region(j: Job, i: nat, stk: seq<Entry>, m: Memory): Cap {
    if !ValidMem(m, i) || m.end[i].Invalid? then NotMatched
    else
      var beg := MemPos(stk, m.start[i]);
      var end :=
        match m.end[i]
        case Index(k) => MemPos(stk, k)
        case Raw(s) => Some(s)
        case Invalid => None;
      if beg.Some? && end.Some? then Span(beg.value, end.value) else NotMatched
  }

  function Regions(j: Job, n: nat, stk: seq<Entry>, m: Memory): (r: seq<Cap>)
    ensures |r| == n
    ensures forall i :: 0 <= i < n ==> r[i] == Region(j, i, stk, m)
  {
    if n == 0 then [] else Regions(j, n - 1, stk, m) + [Region(j, n - 1, stk, m)]
  }

  function When(b: bool, st: State, stk: seq<Entry>, m: Memory): State {
    if b then st else Backtrack(stk, m)
  }

  /** OP_EXACT1 compares before it looks whether the text has ended; the longer ones look first. */
  predicate ExactAt(u: Subject, s: nat, str: seq<Byte>) {
    if |str| == 1 then ByteAt(u, s) == str[0] && s + 1 <= |u.text| else StringAt(u.text, s, str)
  }

  function Perform(j: Job, i: Instr, p: nat, s: nat, stk: seq<Entry>, m: Memory): State {
    var u := j.u;
    match i
    case End => Halt(Match(s, Regions(j, j.maxMem + 1, stk, m)))
    case Exact(str) => When(ExactAt(u, s, str), Exec(p, s + |str|, stk, m), stk, m)
    case CClass(bits) => When(ClassAt(u, s, bits, false), Exec(p, s + 1, stk, m), stk, m)
    case CClassNot(bits) => When(ClassAt(u, s, bits, true), Exec(p, s + 1, stk, m), stk, m)
    case AnyChar => When(DotAt(u, s), Exec(p, s + 1, stk, m), stk, m)
    case AnyCharStar => DotStarStep(j, None, p, s, stk, m)
    case AnyCharStarPeekNext(c) => DotStarStep(j, Some(c), p, s, stk, m)
    case BeginBuf => When(s == 0, Exec(p, s, stk, m), stk, m)
    case EndBuf => When(s == |u.text|, Exec(p, s, stk, m), stk, m)
    case BeginPosition => When(s == u.start, Exec(p, s, stk, m), stk, m)
    case Backref(num) =>
      (match BackrefText(j, num, stk, m)
       case Some(str) => When(StringAt(u.text, s, str), Exec(p, s + |str|, stk, m), stk, m)
       case None => Backtrack(stk, m))
    case MemoryStartPush(num) => MemoryStart(num, s, p, stk, m)
    case MemoryEndPush(num) => MemoryEnd(num, true, s, p, stk, m)
    case MemoryEnd(num) => MemoryEnd(num, false, s, p, stk, m)
    case Jump(addr) => Exec(p + addr, s, stk, m)
    case Push(addr) => Exec(p, s, stk + [AltEntry(p + addr, s)], m)
    case PushOrJumpExact1(addr, c) =>
      if ByteAt(u, s) == c && s + 1 <= |u.text| then Exec(p, s, stk + [AltEntry(p + addr, s)], m)
      else Exec(p + addr, s, stk, m)
    case PushIfPeekNext(addr, c) =>
      Exec(p, s, if ByteAt(u, s) == c then stk + [AltEntry(p + addr, s)] else stk, m)
    case RepeatOp(_, _, _, _, _) => Halt(Error(NotModelled))
    case RepeatInc(_, _) => Halt(Error(NotModelled))
    case NullCheckStart(id) => Exec(p, s, stk + [NullCheckEntry(id, s)], m)
    case NullCheckEnd(id) =>
      (match NullCheckStartOf(stk, id)
       case None => Halt(Error(StackBug))
       case Some(began) =>
         if began != s then Exec(p, s, stk, m)
         else
           match SkipLoop(j.code, p)
           case Some(next) => Exec(next, s, stk, m)
           case None => Halt(Error(UnexpectedBytecode)))
    case PushPos => Exec(p, s, stk + [PosEntry(s)], m)
    case PopPos =>
      (match PosEnd(stk)
       case Some(r) => Exec(p, r.1, r.0, m)
       case None => Halt(Error(StackBug)))
    case PushPosNot(addr) => Exec(p, s, stk + [PosNotEntry(p + addr, s)], m)
    case FailPos => PopTilPosNot(stk, m)
    case PushStopBt => Exec(p, s, stk + [StopBtEntry], m)
    case PopStopBt =>
      (match StopBtEnd(stk)
       case Some(stk') => Exec(p, s, stk', m)
       case None => Halt(Error(StackBug)))
  }

  /** One operation, or one round of popping. */
  function Step(j: Job, st: State): State {
    match st
    case Exec(p, s, stk, m) =>
      if p == FINISH_CODE then Halt(Mismatch)
      else
        (match Fetch(j.code, p)
         case Fetched(i, next) => Perform(j, i, next, s, stk, m)
         case Undefined => Halt(Error(UndefinedBytecode)))
    case Backtrack(stk, m) => Pop(stk, m)
    case Halt(_) => st
  }

  function Steps(j: Job, st: State, n: nat): State
    decreases n
  {
    if n == 0 then st else Steps(j, Step(j, st), n - 1)
  }

  /** An OP_MEMORY_END_PUSH is performed only while its group has no end yet, and an
      OP_MEMORY_END only for a group without memory status bit. */
  predicate Safe(j: Job, st: State) {
    st.Exec? ==>
      match Fetch(j.code, st.p)
      case Fetched(MemoryEndPush(k), _) => ValidMem(st.mem, k) ==> st.mem.end[k] == Invalid
      case Fetched(MemoryEnd(k), _) => k !in j.stats
      case _ => true
  }

  /** The machine comes from `a` to `b`, and every step on the way is safe. */
  ghost predicate Reaches(j: Job, a: State, b: State) {
    exists n: nat :: Steps(j, a, n) == b && SafeFor(j, a, n)
  }

  predicate SafeFor(j: Job, a: State, n: nat)
    decreases n
  {
    n == 0 || (Safe(j, a) && SafeFor(j, Step(j, a), n - 1))
  }

  function NoMemory(maxMem: nat): Memory {
    Memory(seq(maxMem + 1, _ => INVALID_STACK_INDEX), seq(maxMem + 1, _ => Invalid))
  }

  /** The state in which match_at enters its loop. */
  function Start(j: Job, s: nat): State {
    Exec(0, s, [AltEntry(FINISH_CODE, 0)], NoMemory(j.maxMem))
  }

  lemma {:induction false} StepsAdd(j: Job, st: State, a: nat, b: nat)
    ensures Steps(j, st, a + b) == Steps(j, Steps(j, st, a), b)
    ensures SafeFor(j, st, a + b) == (SafeFor(j, st, a) && SafeFor(j, Steps(j, st, a), b))
    decreases a
  {
    hide Step, Safe;
    if a > 0 {
      StepsAdd(j, Step(j, st), a - 1, b);
    }
  }

  lemma ReachesSelf(j: Job, st: State)
    ensures Reaches(j, st, st)
  {
    assert Steps(j, st, 0) == st && SafeFor(j, st, 0);
  }

  lemma ReachesStep(j: Job, st: State)
    requires Safe(j, st)
    ensures Reaches(j, st, Step(j, st))
  {
    hide Step, Safe;
    assert Steps(j, st, 1) == Steps(j, Step(j, st), 0);
    assert SafeFor(j, Step(j, st), 0);
    assert SafeFor(j, st, 1);
  }

  lemma ReachesTrans(j: Job, a: State, b: State, c: State)
    requires Reaches(j, a, b) && Reaches(j, b, c)
    ensures Reaches(j, a, c)
  {
    hide Step, Safe;
    var x: nat :| Steps(j, a, x) == b && SafeFor(j, a, x);
    var y: nat :| Steps(j, b, y) == c && SafeFor(j, b, y);
    StepsAdd(j, a, x, y);
  }
}
