/** Backtracking restores the captures. A run is watched together with the memory that each
    stack entry saw when it was pushed; where every group end is pushed (OP_MEMORY_END_PUSH),
    failing back to an alternative brings back exactly that memory. */
module RegRestore {
  import opened RegInt
  import opened RegTree
  import opened Wrappers
  import opened RegRef
  import opened RegExec
  import opened RegSim
  import opened RegMatch

  function StackOf(st: State): seq<Entry> {
    match st
    case Exec(_, _, stk, _) => stk
    case Backtrack(stk, _) => stk
    case Halt(_) => []
  }

  /** The memories the entries of the stack saw when they were pushed. */
  type Snapshots = seq<Memory>

  /** The snapshots after the step from `st` to `st'`: new entries saw the memory of `st`. */
  function Watch(st: State, st': State, snaps: Snapshots): Snapshots {
    var had, now := |snaps|, |StackOf(st')|;
    if st.Halt? || now < had then snaps[..if now < had then now else had]
    else snaps + seq(now - had, _ => st.mem)
  }

  /** `n` steps of the machine with the snapshots kept. */
  function Watched(j: Job, st: State, snaps: Snapshots, n: nat): (State, Snapshots)
    decreases n
  {
    if n == 0 then (st, snaps) else Watched(j, Step(j, st), Watch(st, Step(j, st), snaps), n - 1)
  }

  /** Popping everything from entry `k` upwards would bring back what entry `k` saw. */
  ghost predicate Restorable(stk: seq<Entry>, m: Memory, snaps: Snapshots) {
    |snaps| == |stk| && forall k :: 0 <= k < |stk| ==> Unwind(stk[k..], m) == snaps[k]
  }

  ghost predicate Tracked(j: Job, st: State, snaps: Snapshots) {
    match st
    case Exec(_, _, stk, m) => Restorable(stk, m, snaps) && |m.start| == |m.end| == j.maxMem + 1
    case Backtrack(stk, m) => Restorable(stk, m, snaps) && |m.start| == |m.end| == j.maxMem + 1
    case Halt(_) => true
  }

  /** MEM_STATS_ON_ALL. */
  ghost predicate AllPushed(j: Job) {
    forall k: nat :: k <= j.maxMem ==> k in j.stats
  }

  lemma RestorablePush(stk: seq<Entry>, m: Memory, snaps: Snapshots, e: Entry, m': Memory)
    requires Restorable(stk, m, snaps) && Undo(e, m') == m
    ensures Restorable(stk + [e], m', snaps + [m])
  {
    hide Undo;
    forall k | 0 <= k < |stk| + 1 ensures Unwind((stk + [e])[k..], m') == (snaps + [m])[k] {
      if k == |stk| {
        assert (stk + [e])[k..] == [e];
        UnwindOne(e, m');
      } else {
        assert (stk + [e])[k..] == stk[k..] + [e];
        UnwindConcat(stk[k..], [e], m');
        UnwindOne(e, m');
      }
    }
  }

  lemma RestorablePop(stk: seq<Entry>, m: Memory, snaps: Snapshots)
    requires Restorable(stk, m, snaps) && stk != []
    ensures Restorable(stk[..|stk| - 1], Undo(stk[|stk| - 1], m), snaps[..|stk| - 1])
    ensures Undo(stk[|stk| - 1], m) == snaps[|stk| - 1]
  {
    hide Undo;
    var e, rest := stk[|stk| - 1], stk[..|stk| - 1];
    assert stk[|stk| - 1..] == [e];
    UnwindOne(e, m);
    forall k | 0 <= k < |rest| ensures Unwind(rest[k..], Undo(e, m)) == snaps[k] {
      assert stk[k..] == rest[k..] + [e];
      UnwindConcat(rest[k..], [e], m);
      UnwindOne(e, m);
    }
  }

  lemma {:induction false} PopTilPosNotTracked(j: Job, stk: seq<Entry>, m: Memory, snaps: Snapshots)
    requires Restorable(stk, m, snaps) && |m.start| == |m.end| == j.maxMem + 1
    ensures var st' := PopTilPosNot(stk, m);
            st'.Halt? || (|StackOf(st')| < |stk| && Tracked(j, st', snaps[..|StackOf(st')|]))
    decreases |stk|
  {
    hide Restorable;
    if stk != [] {
      var rest := stk[..|stk| - 1];
      RestorablePop(stk, m, snaps);
      RestorableLength(stk, m, snaps);
      if !stk[|stk| - 1].PosNotEntry? {
        PopTilPosNotTracked(j, rest, Undo(stk[|stk| - 1], m), snaps[..|stk| - 1]);
        var st' := PopTilPosNot(stk, m);
        if !st'.Halt? {
          assert snaps[..|stk| - 1][..|StackOf(st')|] == snaps[..|StackOf(st')|];
        }
      }
    }
  }

  /** Blanked entries are no undo records. */
  ghost predicate Blanked(a: seq<Entry>, b: seq<Entry>) {
    |a| == |b| &&
    forall k :: 0 <= k < |a| ==> b[k] == a[k] || (b[k] == Void && !a[k].MemStartEntry? && !a[k].MemEndEntry?)
  }

  lemma {:induction false} UnwindBlanked(a: seq<Entry>, b: seq<Entry>, m: Memory)
    requires Blanked(a, b)
    ensures Unwind(a, m) == Unwind(b, m)
    decreases |a|
  {
    if a != [] {
      var n := |a| - 1;
      assert Undo(a[n], m) == Undo(b[n], m);
      UnwindBlanked(a[..n], b[..n], Undo(a[n], m));
    }
  }

  lemma RestorableBlanked(a: seq<Entry>, b: seq<Entry>, m: Memory, snaps: Snapshots)
    requires Blanked(a, b) && Restorable(a, m, snaps)
    ensures Restorable(b, m, snaps)
  {
    forall k | 0 <= k < |b| ensures Unwind(b[k..], m) == snaps[k] {
      UnwindBlanked(a[k..], b[k..], m);
    }
  }

  lemma {:induction false} PosEndBlanks(stk: seq<Entry>)
    ensures var r := PosEnd(stk); r.Some? ==> Blanked(stk, r.value.0)
    decreases |stk|
  {
    if |stk| > 1 && !stk[|stk| - 1].PosEntry? {
      PosEndBlanks(stk[..|stk| - 1]);
    }
  }

  lemma {:induction false} StopBtEndBlanks(stk: seq<Entry>)
    ensures var r := StopBtEnd(stk); r.Some? ==> Blanked(stk, r.value)
    decreases |stk|
  {
    if |stk| > 1 && !stk[|stk| - 1].StopBtEntry? {
      StopBtEndBlanks(stk[..|stk| - 1]);
    }
  }

  lemma {:induction false} DotStarTracked(j: Job, next: Option<Byte>, p: int, s: nat, stk: seq<Entry>, m: Memory, snaps: Snapshots)
    requires Restorable(stk, m, snaps) && |m.start| == |m.end| == j.maxMem + 1
    ensures var st' := DotStarStep(j, next, p, s, stk, m);
            !st'.Halt? && |StackOf(st')| >= |stk| && Tracked(j, st', snaps + seq(|StackOf(st')| - |stk|, _ => m))
    decreases |j.u.text| - s
  {
    hide Restorable, DotAt, Undo;
    var st' := DotStarStep(j, next, p, s, stk, m);
    if s >= |j.u.text| {
      assert snaps + seq(0, _ => m) == snaps;
    } else {
      var push := next.None? || next.value == j.u.text[s];
      var stk' := if push then stk + [AltEntry(p, s)] else stk;
      var snaps' := if push then snaps + [m] else snaps;
      if push {
        assert Undo(AltEntry(p, s), m) == m by { AltUndo(p, s, m); }
        RestorablePush(stk, m, snaps, AltEntry(p, s), m);
      }
      if DotAt(j.u, s) {
        DotStarTracked(j, next, p, s + 1, stk', m, snaps');
        var more := |StackOf(st')| - |stk'|;
        assert snaps' + seq(more, _ => m) == snaps + seq(|StackOf(st')| - |stk|, _ => m);
      } else {
        assert snaps' == snaps + seq(|StackOf(st')| - |stk|, _ => m);
      }
    }
  }

  lemma AltUndo(p: int, s: nat, m: Memory)
    ensures Undo(AltEntry(p, s), m) == m
  {
  }

  /** An operation that pushes one entry, or nothing. */
  lemma PushTracked(j: Job, p: int, s: nat, stk: seq<Entry>, m: Memory, snaps: Snapshots, p': int, s': nat, e: Entry, m': Memory)
    requires Restorable(stk, m, snaps) && Undo(e, m') == m && |m'.start| == |m'.end| == j.maxMem + 1
    ensures Tracked(j, Exec(p', s', stk + [e], m'), Watch(Exec(p, s, stk, m), Exec(p', s', stk + [e], m'), snaps))
  {
    hide Undo, Restorable;
    RestorablePush(stk, m, snaps, e, m');
    assert |snaps| == |stk| by { RestorableLength(stk, m, snaps); }
    assert snaps + seq(1, _ => m) == snaps + [m];
  }

  lemma RestorableLength(stk: seq<Entry>, m: Memory, snaps: Snapshots)
    requires Restorable(stk, m, snaps)
    ensures |snaps| == |stk|
  {
  }

  lemma KeepTracked(j: Job, p: int, s: nat, stk: seq<Entry>, m: Memory, snaps: Snapshots, stk': seq<Entry>)
    requires Restorable(stk, m, snaps) && Blanked(stk, stk') && |m.start| == |m.end| == j.maxMem + 1
    ensures forall p', s' :: Tracked(j, Exec(p', s', stk', m), Watch(Exec(p, s, stk, m), Exec(p', s', stk', m), snaps))
    ensures Tracked(j, Backtrack(stk', m), Watch(Exec(p, s, stk, m), Backtrack(stk', m), snaps))
  {
    RestorableBlanked(stk, stk', m, snaps);
    assert snaps + seq(0, _ => m) == snaps;
  }

  lemma MemoryTracked(j: Job, i: Instr, p: nat, s: nat, stk: seq<Entry>, m: Memory, snaps: Snapshots)
    requires i.MemoryStartPush? || (i.MemoryEndPush? && (ValidMem(m, i.num) ==> m.end[i.num] == Invalid))
    requires Restorable(stk, m, snaps) && |m.start| == |m.end| == j.maxMem + 1
    ensures var st' := Perform(j, i, p, s, stk, m); Tracked(j, st', Watch(Exec(p, s, stk, m), st', snaps))
  {
    hide Restorable;
    if ValidMem(m, i.num) {
      if i.MemoryStartPush? {
        var e := MemStartEntry(i.num, s, m.start[i.num], m.end[i.num]);
        var m' := Memory(m.start[i.num := |stk|], m.end[i.num := Invalid]);
        assert Undo(e, m') == m;
        PushTracked(j, p, s, stk, m, snaps, p, s, e, m');
      } else {
        var e := MemEndEntry(i.num, s, m.start[i.num]);
        var m' := Memory(m.start, m.end[i.num := Index(|stk|)]);
        assert Undo(e, m') == m;
        PushTracked(j, p, s, stk, m, snaps, p, s, e, m');
      }
    }
  }

  /** Operations that leave the stack and the memory alone, or push one entry without memory. */
  lemma PlainTracked(j: Job, i: Instr, p: nat, s: nat, stk: seq<Entry>, m: Memory, snaps: Snapshots)
    requires !i.MemoryStartPush? && !i.MemoryEndPush? && !i.MemoryEnd? && !i.AnyCharStar? && !i.AnyCharStarPeekNext?
    requires !i.FailPos? && !i.PopPos? && !i.PopStopBt?
    requires Restorable(stk, m, snaps) && |m.start| == |m.end| == j.maxMem + 1
    ensures var st' := Perform(j, i, p, s, stk, m); Tracked(j, st', Watch(Exec(p, s, stk, m), st', snaps))
  {
    hide Restorable, Tracked, Watch, BackrefText, NullCheckStartOf, SkipLoop, ExactAt, ClassAt, DotAt, Regions;
    var st' := Perform(j, i, p, s, stk, m);
    KeepTracked(j, p, s, stk, m, snaps, stk);
    match st'
    case Halt(_) => assert Tracked(j, st', Watch(Exec(p, s, stk, m), st', snaps)) by { HaltTracked(j, st', snaps); }
    case Backtrack(_, _) =>
    case Exec(p', s', stk', m') =>
      if stk' != stk {
        var e := stk'[|stk|];
        assert stk' == stk + [e] && m' == m;
        PushTracked(j, p, s, stk, m, snaps, p', s', e, m);
      }
  }

  lemma HaltTracked(j: Job, st: State, snaps: Snapshots)
    requires st.Halt?
    ensures forall any :: Tracked(j, st, any)
  {
  }

  lemma PerformTracked(j: Job, i: Instr, p: nat, s: nat, stk: seq<Entry>, m: Memory, snaps: Snapshots)
    requires Restorable(stk, m, snaps) && |m.start| == |m.end| == j.maxMem + 1 && AllPushed(j)
    requires i.MemoryEndPush? && ValidMem(m, i.num) ==> m.end[i.num] == Invalid
    requires i.MemoryEnd? ==> i.num !in j.stats
    ensures var st' := Perform(j, i, p, s, stk, m); Tracked(j, st', Watch(Exec(p, s, stk, m), st', snaps))
  {
    hide Restorable, Blanked, DotStarStep, PopTilPosNot, PosEnd, StopBtEnd, BackrefText, NullCheckStartOf, SkipLoop, Regions;
    RestorableLength(stk, m, snaps);
    match i
    case MemoryStartPush(_) => MemoryTracked(j, i, p, s, stk, m, snaps);
    case MemoryEndPush(_) => MemoryTracked(j, i, p, s, stk, m, snaps);
    case MemoryEnd(_) => assert !ValidMem(m, i.num);
    case AnyCharStar => DotStarTracked(j, None, p, s, stk, m, snaps);
    case AnyCharStarPeekNext(c) => DotStarTracked(j, Some(c), p, s, stk, m, snaps);
    case FailPos => PopTilPosNotTracked(j, stk, m, snaps);
    case PopPos =>
      PosEndBlanks(stk);
      if PosEnd(stk).Some? { KeepTracked(j, p, s, stk, m, snaps, PosEnd(stk).value.0); }
    case PopStopBt =>
      StopBtEndBlanks(stk);
      if StopBtEnd(stk).Some? { KeepTracked(j, p, s, stk, m, snaps, StopBtEnd(stk).value); }
    case _ => PlainTracked(j, i, p, s, stk, m, snaps);
  }

  lemma StepTracked(j: Job, st: State, snaps: Snapshots)
    requires AllPushed(j) && Safe(j, st) && Tracked(j, st, snaps)
    ensures Tracked(j, Step(j, st), Watch(st, Step(j, st), snaps))
  {
    hide Perform, Restorable, Undo, Fetch;
    match st
    case Exec(p, s, stk, m) =>
      if p != FINISH_CODE && Fetch(j.code, p).Fetched? {
        PerformTracked(j, Fetch(j.code, p).instr, Fetch(j.code, p).next, s, stk, m, snaps);
        var st' := Step(j, st);
        assert Watch(st, st', snaps) == Watch(Exec(Fetch(j.code, p).next, s, stk, m), st', snaps);
      }
    case Backtrack(stk, m) =>
      RestorableLength(stk, m, snaps);
      if stk != [] {
        RestorablePop(stk, m, snaps);
        UndoSizes(stk[|stk| - 1], m);
        ResumeUndo(stk[|stk| - 1], m);
      }
    case Halt(_) =>
  }

  lemma UndoSizes(e: Entry, m: Memory)
    ensures |Undo(e, m).start| == |m.start| && |Undo(e, m).end| == |m.end|
  {
  }

  lemma ResumeUndo(e: Entry, m: Memory)
    ensures Resumes(e) ==> Undo(e, m) == m
  {
  }

  lemma {:induction false} WatchedTracked(j: Job, st: State, snaps: Snapshots, n: nat)
    requires AllPushed(j) && SafeFor(j, st, n) && Tracked(j, st, snaps)
    ensures Tracked(j, Watched(j, st, snaps, n).0, Watched(j, st, snaps, n).1)
    decreases n
  {
    hide Tracked, Step, Safe, Watch;
    if n > 0 {
      StepTracked(j, st, snaps);
      WatchedTracked(j, Step(j, st), Watch(st, Step(j, st), snaps), n - 1);
    }
  }

  lemma {:induction false} SafePrefix(j: Job, st: State, a: nat, b: nat)
    requires SafeFor(j, st, b) && Steps(j, st, b).Halt?
    ensures SafeFor(j, st, a)
    decreases a
  {
    if a > 0 {
      if b == 0 {
        SafePrefix(j, st, a - 1, 0);
      } else {
        SafePrefix(j, Step(j, st), a - 1, b - 1);
      }
    }
  }

  /** Failing back to an alternative restores the memory that was there when it was pushed. */
  ghost predicate Restores(j: Job, st: State, snaps: Snapshots) {
    st.Backtrack? && st.stk != [] && Resumes(st.stk[|st.stk| - 1]) ==>
      var top := |st.stk| - 1;
      |snaps| == |st.stk| && Step(j, st) == Exec(st.stk[top].pcode, st.stk[top].pstr, st.stk[..top], snaps[top])
  }

  /** In every state that match_at reaches on a compiled pattern: when it fails back to an
      alternative, mem_start_stk and mem_end_stk are exactly what they were when that alternative
      was pushed. */
  lemma MemoryRestored(n: Node, j: Job, s: nat, k: nat)
    requires Compiled(n, j) && AllPushed(j) && s <= |j.u.text|
    ensures var (st, snaps) := Watched(j, Start(j, s), [NoMemory(j.maxMem)], k);
            Restores(j, st, snaps)
  {
    hide Compiled, Outcomes, Step, AllPushed;
    MachineMatches(n, j, s);
    var total: nat :| Steps(j, Start(j, s), total).Halt? && SafeFor(j, Start(j, s), total);
    SafePrefix(j, Start(j, s), k, total);
    StartTracked(j, s);
    WatchedTracked(j, Start(j, s), [NoMemory(j.maxMem)], k);
    var (st, snaps) := Watched(j, Start(j, s), [NoMemory(j.maxMem)], k);
    if st.Backtrack? && st.stk != [] && Resumes(st.stk[|st.stk| - 1]) {
      RestorablePop(st.stk, st.mem, snaps);
      ResumeUndo(st.stk[|st.stk| - 1], st.mem);
      RestorableLength(st.stk, st.mem, snaps);
      PopStep(j, st);
    }
  }

  lemma PopStep(j: Job, st: State)
    requires st.Backtrack?
    ensures Step(j, st) == Pop(st.stk, st.mem)
  {
  }

  lemma StartTracked(j: Job, s: nat)
    ensures Tracked(j, Start(j, s), [NoMemory(j.maxMem)])
  {
    var stk, m := [AltEntry(FINISH_CODE, 0)], NoMemory(j.maxMem);
    forall k | 0 <= k < |stk| ensures Unwind(stk[k..], m) == m {
      assert stk[k..] == [stk[0]];
      UnwindOne(stk[0], m);
    }
  }
}
