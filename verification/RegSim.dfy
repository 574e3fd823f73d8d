/** How a state of the machine hands out a list of outcomes: it reaches the exit of a piece of
    code with the first one, and when it is made to fail from there, with the next one, until it
    fails below the stack it started from. */
module RegSim {
  import opened RegInt
  import opened RegRef
  import opened RegExec

  /** A group that is still open and has no memory status bit may carry the end of an earlier
      attempt in mem_end_stk: nobody looks at it before it is closed again. `loose` are the
      groups of which this may be so. */
  ghost predicate MemEq(loose: set<nat>, a: Memory, b: Memory) {
    a.start == b.start && |a.end| == |b.end| &&
    forall i :: 0 <= i < |a.end| && i !in loose ==> a.end[i] == b.end[i]
  }

  predicate StartsAt(stk: seq<Entry>, i: int, beg: nat) {
    0 <= i < |stk| && stk[i].MemStartEntry? && stk[i].pstr == beg
  }

  predicate EndsAt(j: Job, num: nat, stk: seq<Entry>, start: int, end: MemEnd, pos: nat) {
    if num in j.stats then
      end.Index? && end.i < |stk| && stk[end.i].MemEndEntry? && stk[end.i].pstr == pos && stk[end.i].start == start
    else end == Raw(pos)
  }

  /** mem_start_stk and mem_end_stk of one group say what the reference matcher says. */
  predicate GroupOk(j: Job, loose: set<nat>, num: nat, stk: seq<Entry>, start: int, end: MemEnd, cap: Cap) {
    match cap
    case NotMatched => num !in loose && end == Invalid
    case Opened(beg) => StartsAt(stk, start, beg) && (num in loose || end == Invalid)
    case Span(beg, e) => num !in loose && StartsAt(stk, start, beg) && EndsAt(j, num, stk, start, end, e)
  }

  ghost predicate Agree(j: Job, loose: set<nat>, stk: seq<Entry>, m: Memory, caps: Caps) {
    loose !! j.stats && |m.start| == |m.end| == |caps| == j.maxMem + 1 &&
    forall i :: 0 <= i < |caps| ==> GroupOk(j, loose, i, stk, m.start[i], m.end[i], caps[i])
  }

  /** Entries a finished piece of code may leave behind; its null checks are numbered in [lo, hi). */
  predicate EntryOk(e: Entry, lo: nat, hi: nat) {
    match e
    case PosNotEntry(_, _) => false
    case PosEntry(_) => false
    case StopBtEntry => false
    case NullCheckEntry(id, _) => lo <= id < hi
    case _ => true
  }

  ghost predicate EntriesOk(es: seq<Entry>, lo: nat, hi: nat) {
    forall k :: 0 <= k < |es| ==> EntryOk(es[k], lo, hi)
  }

  /** The memory after popping all of `es`. */
  function Unwind(es: seq<Entry>, m: Memory): Memory {
    if es == [] then m else Unwind(es[..|es| - 1], Undo(es[|es| - 1], m))
  }

  /** Where a piece of code works: its exit, the stack and the memory it starts from, and the
      null-check numbers it may use. */
  datatype Frame = Frame(j: Job, exit: int, base: seq<Entry>, m: Memory, lo: nat, hi: nat, loose: set<nat>)

  /** `st` comes out at the exit with outcome `o`, with `es` on top of the base stack; popping
      them would bring the memory back to where it was. */
  ghost predicate Hands(f: Frame, st: State, o: Out, es: seq<Entry>, m: Memory) {
    Reaches(f.j, st, Exec(f.exit, o.s, f.base + es, m)) && EntriesOk(es, f.lo, f.hi) &&
    Agree(f.j, f.loose, f.base + es, m, o.caps) && MemEq(f.loose, f.m, Unwind(es, m))
  }

  ghost predicate GivesUp(f: Frame, st: State, m: Memory) {
    MemEq(f.loose, f.m, m) && Reaches(f.j, st, Backtrack(f.base, m))
  }

  ghost predicate Delivers(f: Frame, st: State, outs: seq<Out>)
    decreases |outs|
  {
    if outs == [] then exists m :: GivesUp(f, st, m)
    else
      exists es, m :: Hands(f, st, outs[0], es, m) &&
                      forall m' :: MemEq(f.loose, m, m') ==> Delivers(f, Backtrack(f.base + es, m'), outs[1..])
  }

  lemma MemEqTrans(loose: set<nat>, a: Memory, b: Memory, c: Memory)
    requires MemEq(loose, a, b) && MemEq(loose, b, c)
    ensures MemEq(loose, a, c)
  {
  }

  lemma AgreeMemEq(j: Job, loose: set<nat>, stk: seq<Entry>, m: Memory, m': Memory, caps: Caps)
    requires Agree(j, loose, stk, m, caps) && MemEq(loose, m, m')
    ensures Agree(j, loose, stk, m', caps)
  {
    forall i | 0 <= i < |caps| ensures GroupOk(j, loose, i, stk, m'.start[i], m'.end[i], caps[i]) {
      assert GroupOk(j, loose, i, stk, m.start[i], m.end[i], caps[i]);
    }
  }

  lemma AgreePush(j: Job, loose: set<nat>, stk: seq<Entry>, es: seq<Entry>, m: Memory, caps: Caps)
    requires Agree(j, loose, stk, m, caps)
    ensures Agree(j, loose, stk + es, m, caps)
  {
    forall i | 0 <= i < |caps| ensures GroupOk(j, loose, i, stk + es, m.start[i], m.end[i], caps[i]) {
      assert GroupOk(j, loose, i, stk, m.start[i], m.end[i], caps[i]);
    }
  }

  lemma UndoMemEq(loose: set<nat>, e: Entry, a: Memory, b: Memory)
    requires MemEq(loose, a, b)
    ensures MemEq(loose, Undo(e, a), Undo(e, b))
  {
  }

  lemma {:induction false} UnwindMemEq(loose: set<nat>, es: seq<Entry>, a: Memory, b: Memory)
    requires MemEq(loose, a, b)
    ensures MemEq(loose, Unwind(es, a), Unwind(es, b))
  {
    hide Undo, MemEq;
    if es != [] {
      UndoMemEq(loose, es[|es| - 1], a, b);
      UnwindMemEq(loose, es[..|es| - 1], Undo(es[|es| - 1], a), Undo(es[|es| - 1], b));
    }
  }

  lemma {:induction false} UnwindConcat(a: seq<Entry>, b: seq<Entry>, m: Memory)
    ensures Unwind(a + b, m) == Unwind(a, Unwind(b, m))
    decreases |b|
  {
    hide Undo;
    if b == [] {
      assert a + b == a;
    } else {
      var e := b[|b| - 1];
      assert (a + b)[..|a + b| - 1] == a + b[..|b| - 1];
      UnwindConcat(a, b[..|b| - 1], Undo(e, m));
    }
  }

  lemma UnwindOne(e: Entry, m: Memory)
    ensures Unwind([e], m) == Undo(e, m)
  {
    assert Unwind([e], m) == Unwind([], Undo(e, m));
  }

  /** Popping entries that do not resume anything. */
  lemma {:induction false} PopAll(j: Job, base: seq<Entry>, es: seq<Entry>, m: Memory)
    requires forall k :: 0 <= k < |es| ==> !Resumes(es[k])
    ensures Reaches(j, Backtrack(base + es, m), Backtrack(base, Unwind(es, m)))
    decreases |es|
  {
    hide Undo, Reaches;
    if es == [] {
      assert base + es == base;
      ReachesSelf(j, Backtrack(base, m));
    } else {
      var e, stk := es[|es| - 1], base + es;
      assert stk[|stk| - 1] == e && stk[..|stk| - 1] == base + es[..|es| - 1];
      ReachesStep(j, Backtrack(stk, m));
      PopAll(j, base, es[..|es| - 1], Undo(e, m));
      ReachesTrans(j, Backtrack(stk, m), Backtrack(base + es[..|es| - 1], Undo(e, m)), Backtrack(base, Unwind(es, m)));
    }
  }

  /** Popping an entry that resumes. */
  lemma PopResume(j: Job, base: seq<Entry>, e: Entry, m: Memory)
    requires Resumes(e)
    ensures Reaches(j, Backtrack(base + [e], m), Exec(e.pcode, e.pstr, base, m))
  {
    var stk := base + [e];
    assert stk[|stk| - 1] == e && stk[..|stk| - 1] == base;
    ReachesStep(j, Backtrack(stk, m));
  }

  lemma DeliverSome(f: Frame, st: State, outs: seq<Out>, es: seq<Entry>, m: Memory)
    requires outs != [] && Hands(f, st, outs[0], es, m)
    requires forall m' :: MemEq(f.loose, m, m') ==> Delivers(f, Backtrack(f.base + es, m'), outs[1..])
    ensures Delivers(f, st, outs)
  {
  }

  lemma DeliverNone(f: Frame, st: State, m: Memory)
    requires GivesUp(f, st, m)
    ensures Delivers(f, st, [])
  {
  }

  /** Failing straight away. */
  lemma DeliverFail(f: Frame, m: Memory)
    requires MemEq(f.loose, f.m, m)
    ensures Delivers(f, Backtrack(f.base, m), [])
  {
    ReachesSelf(f.j, Backtrack(f.base, m));
    DeliverNone(f, Backtrack(f.base, m), m);
  }

  /** Already being at the exit is one outcome. */
  lemma DeliverHere(f: Frame, o: Out, m: Memory)
    requires MemEq(f.loose, f.m, m) && Agree(f.j, f.loose, f.base, m, o.caps)
    ensures Delivers(f, Exec(f.exit, o.s, f.base, m), [o])
  {
    hide Reaches, MemEq, Agree;
    var st := Exec(f.exit, o.s, f.base, m);
    ReachesSelf(f.j, st);
    assert f.base + [] == f.base;
    assert Hands(f, st, o, [], m);
    forall m' | MemEq(f.loose, m, m') ensures Delivers(f, Backtrack(f.base + [], m'), [o][1..]) {
      MemEqTrans(f.loose, f.m, m, m');
      DeliverFail(f, m');
    }
    DeliverSome(f, st, [o], [], m);
  }

  lemma DeliverLater(f: Frame, st: State, st': State, outs: seq<Out>)
    requires Reaches(f.j, st, st') && Delivers(f, st', outs)
    ensures Delivers(f, st, outs)
  {
    hide Reaches, MemEq, Agree, EntriesOk;
    if outs == [] {
      var m :| GivesUp(f, st', m);
      ReachesTrans(f.j, st, st', Backtrack(f.base, m));
      DeliverNone(f, st, m);
    } else {
      var es, m :| Hands(f, st', outs[0], es, m) &&
                   forall m' :: MemEq(f.loose, m, m') ==> Delivers(f, Backtrack(f.base + es, m'), outs[1..]);
      ReachesTrans(f.j, st, st', Exec(f.exit, outs[0].s, f.base + es, m));
      assert Hands(f, st, outs[0], es, m);
      DeliverSome(f, st, outs, es, m);
    }
  }

  /** The same after one step. */
  lemma DeliverStep(f: Frame, st: State, outs: seq<Out>)
    requires Safe(f.j, st) && Delivers(f, Step(f.j, st), outs)
    ensures Delivers(f, st, outs)
  {
    ReachesStep(f.j, st);
    DeliverLater(f, st, Step(f.j, st), outs);
  }

  /** `f` on top of `es`. */
  function Above(f: Frame, es: seq<Entry>, m: Memory): Frame {
    f.(base := f.base + es, m := m)
  }

  /** Outcomes handed out on top of `es`, and then, once the machine fails into `es`, further
      ones: seen from below `es` it is the concatenation. */
  lemma {:induction false} DeliverConcat(f: Frame, es: seq<Entry>, m: Memory, st: State, a: seq<Out>, b: seq<Out>)
    requires Delivers(Above(f, es, m), st, a)
    requires EntriesOk(es, f.lo, f.hi) && MemEq(f.loose, f.m, Unwind(es, m))
    requires forall m' :: MemEq(f.loose, m, m') ==> Delivers(f, Backtrack(f.base + es, m'), b)
    ensures Delivers(f, st, a + b)
    decreases |a|
  {
    hide Reaches, MemEq, Agree, Unwind;
    var g := Above(f, es, m);
    if a == [] {
      assert a + b == b;
      var m1 :| GivesUp(g, st, m1);
      DeliverLater(f, st, Backtrack(f.base + es, m1), b);
    } else {
      var es1, m1 :| Hands(g, st, a[0], es1, m1) &&
                     forall m' :: MemEq(f.loose, m1, m') ==> Delivers(g, Backtrack(g.base + es1, m'), a[1..]);
      HandsBelow(f, es, m, st, a[0], es1, m1);
      assert (a + b)[1..] == a[1..] + b;
      forall m' | MemEq(f.loose, m1, m') ensures Delivers(f, Backtrack(f.base + (es + es1), m'), (a + b)[1..]) {
        assert f.base + (es + es1) == g.base + es1;
        DeliverConcat(f, es, m, Backtrack(g.base + es1, m'), a[1..], b);
      }
      DeliverSome(f, st, a + b, es + es1, m1);
    }
  }

  lemma HandsBelow(f: Frame, es: seq<Entry>, m: Memory, st: State, o: Out, es1: seq<Entry>, m1: Memory)
    requires Hands(Above(f, es, m), st, o, es1, m1)
    requires EntriesOk(es, f.lo, f.hi) && MemEq(f.loose, f.m, Unwind(es, m))
    ensures Hands(f, st, o, es + es1, m1)
  {
    hide Reaches, MemEq, Agree, Unwind, EntryOk;
    assert f.base + (es + es1) == Above(f, es, m).base + es1;
    UnwindConcat(es, es1, m1);
    UnwindMemEq(f.loose, es, m, Unwind(es1, m1));
    MemEqTrans(f.loose, f.m, Unwind(es, m), Unwind(es, Unwind(es1, m1)));
  }

  /** A jump at the exit moves the exit. */
  lemma {:induction false} DeliverJump(f: Frame, from: int, addr: int, st: State, outs: seq<Out>)
    requires Delivers(f.(exit := from), st, outs)
    requires addr <= f.exit && from >= 0 && Fetch(f.j.code, from) == Fetched(Jump(addr), f.exit - addr)
    ensures Delivers(f, st, outs)
    decreases |outs|
  {
    hide Reaches, MemEq, Agree, Unwind, Fetch, EntriesOk;
    var g := f.(exit := from);
    if outs == [] {
      var m :| GivesUp(g, st, m);
      assert GivesUp(f, st, m);
    } else {
      var es, m :| Hands(g, st, outs[0], es, m) &&
                   forall m' :: MemEq(g.loose, m, m') ==> Delivers(g, Backtrack(g.base + es, m'), outs[1..]);
      var at := Exec(from, outs[0].s, f.base + es, m);
      ReachesStep(f.j, at);
      ReachesTrans(f.j, st, at, Exec(f.exit, outs[0].s, f.base + es, m));
      assert Hands(f, st, outs[0], es, m);
      forall m' | MemEq(f.loose, m, m') ensures Delivers(f, Backtrack(f.base + es, m'), outs[1..]) {
        DeliverJump(f, from, addr, Backtrack(f.base + es, m'), outs[1..]);
      }
      DeliverSome(f, st, outs, es, m);
    }
  }
}
