/** match_at in its own form: one loop that moves the code pointer and the text pointer, grows
    and shrinks the stack, and overwrites the group tables. */
module RegMatchAt {
  import opened RegInt
  import opened RegTree
  import opened Wrappers
  import opened RegRef
  import opened RegExec
  import opened RegMatch
  import opened RegSetup
  import opened RegReading
  import opened RegPattern

  /** How an operation ends: by `break`, by `goto fail`, or by leaving match_at. */
  datatype Signal = Continue | Fail | Finish(r: Result)

  /** Where failing leads: at the topmost entry that resumes, with the undo records above it undone. */
  function Resumed(stk: seq<Entry>, m: Memory): State
    decreases |stk|
  {
    var st := Pop(stk, m);
    if stk == [] || Resumes(stk[|stk| - 1]) then st else Resumed(stk[..|stk| - 1], Undo(stk[|stk| - 1], m))
  }

  class Matcher {
    const j: Job
    var p: int
    var s: nat
    var stk: seq<Entry>
    const memStart: array<int>
    const memEnd: array<MemEnd>

    ghost predicate Valid()
      reads this, memStart, memEnd
    {
      memStart.Length == memEnd.Length == j.maxMem + 1
    }

    ghost function Mem(): Memory
      reads memStart, memEnd
    {
      Memory(memStart[..], memEnd[..])
    }

    ghost function StateOf(sig: Signal): State
      reads this, memStart, memEnd
    {
      match sig
      case Continue => Exec(p, s, stk, Mem())
      case Fail => Backtrack(stk, Mem())
      case Finish(r) => Halt(r)
    }

    constructor (j: Job, sstart: nat)
      ensures Valid() && fresh(memStart) && fresh(memEnd) && this.j == j
      ensures StateOf(Continue) == Start(j, sstart)
    {
      this.j := j;
      p, s, stk := 0, sstart, [AltEntry(FINISH_CODE, 0)];
      memStart := new int[j.maxMem + 1](_ => INVALID_STACK_INDEX);
      memEnd := new MemEnd[j.maxMem + 1](_ => Invalid);
      new;
      assert memStart[..] == NoMemory(j.maxMem).start;
      assert memEnd[..] == NoMemory(j.maxMem).end;
    }

    /** The comparison loop of OP_EXACTN and of STRING_CMP. */
    method Compare(str: seq<Byte>) returns (same: bool)
      ensures same == StringAt(j.u.text, s, str)
    {
      if s + |str| > |j.u.text| {
        return false;
      }
      var i := 0;
      while i < |str|
        invariant 0 <= i <= |str|
        invariant j.u.text[s..s + i] == str[..i]
      {
        if j.u.text[s + i] != str[i] {
          assert j.u.text[s..s + |str|][i] != str[i];
          return false;
        }
        i := i + 1;
      }
      assert str[..i] == str;
      return true;
    }

    method ExactOp(str: seq<Byte>, next: nat) returns (sig: Signal)
      modifies this
      ensures stk == old(stk)
      ensures StateOf(sig) == RegExec.When(ExactAt(j.u, old(s), str), Exec(next, old(s) + |str|, old(stk), old(Mem())), old(stk), old(Mem()))
    {
      var same;
      if |str| == 1 {
        same := ByteAt(j.u, s) == str[0] && s + 1 <= |j.u.text|;
      } else {
        same := Compare(str);
      }
      if !same {
        return Fail;
      }
      p, s := next, s + |str|;
      return Continue;
    }

    /** STACK_NULL_CHECK. */
    method NullCheck(id: nat) returns (began: Option<nat>)
      ensures began == NullCheckStartOf(stk, id)
    {
      var k := |stk|;
      assert stk[..k] == stk;
      while k > 0
        invariant 0 <= k <= |stk|
        invariant NullCheckStartOf(stk, id) == NullCheckStartOf(stk[..k], id)
      {
        k := k - 1;
        assert stk[..k + 1][..k] == stk[..k];
        if stk[k].NullCheckEntry? && stk[k].id == id {
          return Some(stk[k].pstr);
        }
      }
      return None;
    }

    method NullCheckEndOp(id: nat, next: nat) returns (sig: Signal)
      modifies this
      ensures StateOf(sig) == Perform(j, NullCheckEnd(id), next, old(s), old(stk), old(Mem()))
    {
      var began := NullCheck(id);
      if began.None? {
        return Finish(Error(StackBug));
      }
      p := next;
      if began.value == s {
        var skip := SkipLoop(j.code, next);
        if skip.None? {
          return Finish(Error(UnexpectedBytecode));
        }
        p := skip.value;
      }
      return Continue;
    }

    /** STACK_POS_END: blanks the stack in place, downwards to the innermost STK_POS. */
    method PosEndLoop() returns (at: Option<nat>)
      modifies this`stk
      ensures PosEnd(old(stk)) == if at.Some? then Some((stk, at.value)) else None
    {
      var k := |stk|;
      assert stk[..k] == stk;
      if PosEnd(stk).Some? {
        assert PosEnd(stk).value.0 + stk[k..] == PosEnd(stk).value.0;
      }
      while k > 1
        invariant k <= |stk| == |old(stk)| && stk[..k] == old(stk)[..k]
        invariant PosEnd(old(stk)) ==
                  match PosEnd(old(stk)[..k])
                  case Some(r) => Some((r.0 + stk[k..], r.1))
                  case None => None
      {
        k := k - 1;
        ghost var was, above := old(stk)[..k + 1], stk[k + 1..];
        assert was[|was| - 1] == stk[k] && was[..|was| - 1] == old(stk)[..k];
        if stk[k].PosEntry? {
          at := Some(stk[k].pstr);
          stk := stk[k := Void];
          assert stk == old(stk)[..k] + [Void] + above;
          return;
        }
        stk := stk[k := VoidEntry(stk[k])];
        assert stk[k..] == [stk[k]] + above;
        assert stk[..k] == old(stk)[..k];
        ghost var inner := PosEnd(old(stk)[..k]);
        if inner.Some? {
          assert inner.value.0 + stk[k..] == inner.value.0 + [stk[k]] + above;
        }
      }
      return None;
    }

    /** STACK_STOP_BT_END. */
    method StopBtEndLoop() returns (found: bool)
      modifies this`stk
      ensures StopBtEnd(old(stk)) == if found then Some(stk) else None
    {
      var k := |stk|;
      assert stk[..k] == stk;
      if StopBtEnd(stk).Some? {
        assert StopBtEnd(stk).value + stk[k..] == StopBtEnd(stk).value;
      }
      while k > 1
        invariant k <= |stk| == |old(stk)| && stk[..k] == old(stk)[..k]
        invariant StopBtEnd(old(stk)) ==
                  match StopBtEnd(old(stk)[..k])
                  case Some(r) => Some(r + stk[k..])
                  case None => None
      {
        k := k - 1;
        ghost var was, above := old(stk)[..k + 1], stk[k + 1..];
        assert was[|was| - 1] == stk[k] && was[..|was| - 1] == old(stk)[..k];
        if stk[k].StopBtEntry? {
          stk := stk[k := Void];
          assert stk == old(stk)[..k] + [Void] + above;
          return true;
        }
        stk := stk[k := VoidEntry(stk[k])];
        assert stk[k..] == [stk[k]] + above;
        assert stk[..k] == old(stk)[..k];
        ghost var inner := StopBtEnd(old(stk)[..k]);
        if inner.Some? {
          assert inner.value + stk[k..] == inner.value + [stk[k]] + above;
        }
      }
      return false;
    }

    /** What the pop loops do with an undo record. */
    method Restore(e: Entry)
      requires Valid()
      modifies memStart, memEnd
      ensures Mem() == Undo(e, old(Mem()))
    {
      match e
      case MemStartEntry(num, _, start, end) =>
        if num < memStart.Length {
          memStart[num] := start;
          memEnd[num] := end;
        }
      case MemEndEntry(num, _, _) =>
        if num < memEnd.Length {
          memEnd[num] := Invalid;
        }
      case _ =>
    }

    /** STACK_POP_TIL_POS_NOT. */
    method PopTilPosNotLoop() returns (sig: Signal)
      requires Valid()
      modifies this`stk, memStart, memEnd
      ensures StateOf(sig) == PopTilPosNot(old(stk), old(Mem()))
    {
      while stk != []
        invariant PopTilPosNot(stk, Mem()) == PopTilPosNot(old(stk), old(Mem()))
        decreases |stk|
      {
        var e := stk[|stk| - 1];
        stk := stk[..|stk| - 1];
        if e.PosNotEntry? {
          return Fail;
        }
        Restore(e);
      }
      return Finish(Error(StackBug));
    }

    /** OP_ANYCHAR_STAR and OP_ANYCHAR_STAR_PEEK_NEXT. */
    method DotStarLoop(peek: Option<Byte>, next: nat) returns (sig: Signal)
      modifies this
      ensures StateOf(sig) == DotStarStep(j, peek, next, old(s), old(stk), old(Mem()))
    {
      while s < |j.u.text|
        invariant DotStarStep(j, peek, next, s, stk, Mem()) == DotStarStep(j, peek, next, old(s), old(stk), old(Mem()))
        decreases |j.u.text| - s
      {
        if peek.None? || peek.value == j.u.text[s] {
          stk := stk + [AltEntry(next, s)];
        }
        if !DotAt(j.u, s) {
          return Fail;
        }
        s := s + 1;
      }
      p := next;
      return Continue;
    }

    method MemoryStartOp(num: nat, next: nat) returns (sig: Signal)
      requires Valid()
      modifies this, memStart, memEnd
      ensures StateOf(sig) == MemoryStart(num, old(s), next, old(stk), old(Mem()))
    {
      if num >= memStart.Length {
        return Finish(Error(StackBug));
      }
      var at := |stk|;
      stk := stk + [MemStartEntry(num, s, memStart[num], memEnd[num])];
      memStart[num] := at;
      memEnd[num] := Invalid;
      p := next;
      return Continue;
    }

    method MemoryEndOp(num: nat, push: bool, next: nat) returns (sig: Signal)
      requires Valid()
      modifies this, memEnd
      ensures StateOf(sig) == RegExec.MemoryEnd(num, push, old(s), next, old(stk), old(Mem()))
    {
      if num >= memEnd.Length {
        return Finish(Error(StackBug));
      }
      if push {
        memEnd[num] := Index(|stk|);
        stk := stk + [MemEndEntry(num, s, memStart[num])];
      } else {
        memEnd[num] := Raw(s);
      }
      p := next;
      return Continue;
    }

    method BackrefOp(num: nat, next: nat) returns (sig: Signal)
      requires Valid()
      modifies this
      ensures StateOf(sig) == Perform(j, Instr.Backref(num), next, old(s), old(stk), old(Mem()))
    {
      if num > j.maxMem || !memEnd[num].Index? {
        return Fail;
      }
      var i := memEnd[num].i;
      if i >= |stk| || !stk[i].MemEndEntry? {
        return Fail;
      }
      var beg := MemPos(stk, stk[i].start);
      if beg.None? || !(beg.value <= stk[i].pstr <= |j.u.text|) {
        return Fail;
      }
      var str := j.u.text[beg.value..stk[i].pstr];
      var same := Compare(str);
      if !same {
        return Fail;
      }
      p, s := next, s + |str|;
      return Continue;
    }

    /** Filling the region at OP_END. */
    method FillRegion() returns (groups: seq<Cap>)
      requires Valid()
      ensures groups == Regions(j, j.maxMem + 1, stk, Mem())
    {
      groups := [];
      var i := 0;
      while i <= j.maxMem
        invariant 0 <= i <= j.maxMem + 1 && groups == Regions(j, i, stk, Mem())
      {
        var cap := NotMatched;
        if !memEnd[i].Invalid? {
          var beg := MemPos(stk, memStart[i]);
          var end := if memEnd[i].Index? then MemPos(stk, memEnd[i].i) else Some(memEnd[i].s);
          if beg.Some? && end.Some? {
            cap := Span(beg.value, end.value);
          }
        }
        groups := groups + [cap];
        i := i + 1;
      }
    }

    /** Operations that only test the text. */
    method TestOp(i: Instr, next: nat) returns (sig: Signal)
      requires i.CClass? || i.CClassNot? || i.AnyChar? || i.BeginBuf? || i.EndBuf? || i.BeginPosition?
      modifies this
      ensures StateOf(sig) == Perform(j, i, next, old(s), old(stk), old(Mem()))
    {
      hide ClassAt, DotAt;
      p := next;
      match i {
        case CClass(bits) =>
          if !ClassAt(j.u, s, bits, false) { return Fail; }
          s := s + 1;
        case CClassNot(bits) =>
          if !ClassAt(j.u, s, bits, true) { return Fail; }
          s := s + 1;
        case AnyChar =>
          if !DotAt(j.u, s) { return Fail; }
          s := s + 1;
        case BeginBuf => if s != 0 { return Fail; }
        case EndBuf => if s != |j.u.text| { return Fail; }
        case BeginPosition => if s != j.u.start { return Fail; }
      }
      return Continue;
    }

    /** Operations that always push one entry. */
    method PushOp(i: Instr, next: nat)
      requires i.Push? || i.NullCheckStart? || i.PushPos? || i.PushPosNot? || i.PushStopBt?
      modifies this
      ensures StateOf(Continue) == Perform(j, i, next, old(s), old(stk), old(Mem()))
    {
      p := next;
      var e :=
        match i
        case Push(addr) => AltEntry(p + addr, s)
        case NullCheckStart(id) => NullCheckEntry(id, s)
        case PushPos => PosEntry(s)
        case PushPosNot(addr) => PosNotEntry(p + addr, s)
        case PushStopBt => StopBtEntry;
      stk := stk + [e];
    }

    method JumpOp(i: Instr, next: nat)
      requires i.Jump? || i.PushOrJumpExact1? || i.PushIfPeekNext?
      modifies this
      ensures StateOf(Continue) == Perform(j, i, next, old(s), old(stk), old(Mem()))
    {
      p := next;
      if i.Jump? {
        p := p + i.addr;
      } else if i.PushOrJumpExact1? {
        if ByteAt(j.u, s) == i.c && s + 1 <= |j.u.text| {
          stk := stk + [AltEntry(p + i.addr, s)];
        } else {
          p := p + i.addr;
        }
      } else if ByteAt(j.u, s) == i.c {
        stk := stk + [AltEntry(p + i.addr, s)];
      }
    }

    /** The switch of match_at: one operation. */
    method Operation() returns (sig: Signal)
      requires Valid() && p != FINISH_CODE
      modifies this, memStart, memEnd
      ensures StateOf(sig) == Step(j, old(StateOf(Continue)))
    {
      hide Fetch, Perform;
      if Fetch(j.code, p).Undefined? {
        return Finish(Error(UndefinedBytecode));
      }
      var i, next := Fetch(j.code, p).instr, Fetch(j.code, p).next;
      if i.CClass? || i.CClassNot? || i.AnyChar? || i.BeginBuf? || i.EndBuf? || i.BeginPosition? {
        sig := TestOp(i, next);
      } else if i.Push? || i.NullCheckStart? || i.PushPos? || i.PushPosNot? || i.PushStopBt? {
        PushOp(i, next);
        sig := Continue;
      } else if i.Jump? || i.PushOrJumpExact1? || i.PushIfPeekNext? {
        JumpOp(i, next);
        sig := Continue;
      } else {
        sig := OtherOp(i, next);
      }
    }

    method OtherOp(i: Instr, next: nat) returns (sig: Signal)
      requires Valid()
      requires i.End? || i.Exact? || i.AnyCharStar? || i.AnyCharStarPeekNext? || i.Backref? || i.MemoryStartPush? ||
               i.MemoryEndPush? || i.MemoryEnd? || i.NullCheckEnd? || i.PopPos? || i.FailPos? || i.PopStopBt? ||
               i.RepeatOp? || i.RepeatInc?
      modifies this, memStart, memEnd
      ensures StateOf(sig) == Perform(j, i, next, old(s), old(stk), old(Mem()))
    {
      hide ClassAt, DotAt, StringAt, BackrefText, Regions, DotStarStep, PopTilPosNot, NullCheckStartOf, SkipLoop, ByteAt, ExactAt;
      match i
      case End =>
        var groups := FillRegion();
        sig := Finish(Match(s, groups));
      case Exact(str) => sig := ExactOp(str, next);
      case AnyCharStar => sig := DotStarLoop(None, next);
      case AnyCharStarPeekNext(c) => sig := DotStarLoop(Some(c), next);
      case Backref(num) => sig := BackrefOp(num, next);
      case MemoryStartPush(num) => sig := MemoryStartOp(num, next);
      case MemoryEndPush(num) => sig := MemoryEndOp(num, true, next);
      case MemoryEnd(num) => sig := MemoryEndOp(num, false, next);
      case NullCheckEnd(id) => sig := NullCheckEndOp(id, next);
      case RepeatOp(_, _, _, _, _) => sig := Finish(Error(NotModelled));
      case RepeatInc(_, _) => sig := Finish(Error(NotModelled));
      case PopPos =>
        var at := PosEndLoop();
        if at.None? { return Finish(Error(StackBug)); }
        p, s := next, at.value;
        sig := Continue;
      case FailPos => sig := PopTilPosNotLoop();
      case PopStopBt =>
        var found := StopBtEndLoop();
        if !found { return Finish(Error(StackBug)); }
        p := next;
        sig := Continue;
    }

    /** STACK_POP and the jump to the alternative it finds. The run is known to halt with `goal`
        after `left` more steps, so the stack cannot run empty. */
    method StackPop(ghost goal: Result, ghost left: nat) returns (ghost left': nat)
      requires Valid() && !goal.Error? && Steps(j, StateOf(Fail), left) == Halt(goal)
      modifies this, memStart, memEnd
      ensures StateOf(Continue) == Resumed(old(stk), old(Mem()))
      ensures left' < left && Steps(j, StateOf(Continue), left') == Halt(goal)
    {
      left' := left;
      while true
        invariant Resumed(stk, Mem()) == Resumed(old(stk), old(Mem()))
        invariant left' <= left && Steps(j, StateOf(Fail), left') == Halt(goal)
        decreases left'
      {
        NotEmpty(j, stk, Mem(), left', goal);
        var e := stk[|stk| - 1];
        stk := stk[..|stk| - 1];
        left' := left' - 1;
        if Resumes(e) {
          p, s := e.pcode, e.pstr;
          return;
        }
        Restore(e);
      }
    }
  }

  lemma {:induction false} HaltStays(j: Job, r: Result, n: nat)
    ensures Steps(j, Halt(r), n) == Halt(r)
    decreases n
  {
    if n > 0 {
      HaltStays(j, r, n - 1);
    }
  }

  lemma NotEmpty(j: Job, stk: seq<Entry>, m: Memory, left: nat, goal: Result)
    requires !goal.Error? && Steps(j, Backtrack(stk, m), left) == Halt(goal)
    ensures stk != [] && left > 0 && Steps(j, Pop(stk, m), left - 1) == Halt(goal)
  {
    assert left > 0;
    if stk == [] {
      HaltStays(j, Error(StackBug), left - 1);
    }
  }

  lemma OneMore(j: Job, st: State, left: nat, goal: Result)
    requires !st.Halt? && Steps(j, st, left) == Halt(goal)
    ensures left > 0 && Steps(j, Step(j, st), left - 1) == Halt(goal)
  {
  }

  /** match_at terminates on every compiled pattern and every text, and returns the first outcome
      of the pattern at `sstart` with its groups, or REG_MISMATCH when there is none: in the reading
      of the compiled code always, and in that of the tree alone where the loops are harmless. */
  method MatchAt(j: Job, sstart: nat, ghost n: Node) returns (r: Result)
    requires Compiled(n, j) && sstart <= |j.u.text|
    ensures r == FirstOf(Outcomes(n, j.u, sstart, j.maxMem, ByCode))
    ensures Honest(n) && NextOf(n).None? && Harmless(n, j.u) ==> r == FirstOf(Outcomes(n, j.u, sstart, j.maxMem, ByTree))
  {
    hide Compiled, Outcomes, Step, Run, Honest, Harmless, NextOf;
    if Honest(n) && NextOf(n).None? && Harmless(n, j.u) { ReadingsAgree(n, j.u, sstart, j.maxMem); }
    var m := new Matcher(j, sstart);
    MachineMatches(n, j, sstart);
    ghost var goal := FirstOf(Outcomes(n, j.u, sstart, j.maxMem, ByCode));
    ghost var left: nat :| Steps(j, Start(j, sstart), left) == Halt(goal);
    while true
      invariant m.Valid() && m.j == j && fresh(m) && fresh(m.memStart) && fresh(m.memEnd)
      invariant Steps(j, m.StateOf(Continue), left) == Halt(goal)
      decreases left
    {
      OneMore(j, m.StateOf(Continue), left, goal);
      if m.p == FINISH_CODE {
        FinishStep(j, m.StateOf(Continue));
        HaltStays(j, Mismatch, left - 1);
        return Mismatch;
      }
      var sig := m.Operation();
      left := left - 1;
      match sig
      case Finish(result) =>
        HaltStays(j, result, left);
        return result;
      case Fail => left := m.StackPop(goal, left);
      case Continue =>
    }
  }

  lemma FinishStep(j: Job, st: State)
    requires st.Exec? && st.p == FINISH_CODE
    ensures Step(j, st) == Halt(Mismatch)
  {
  }
}
