/** What every outcome of the reference matcher has in common. */
module RegFacts {
  import opened RegInt
  import opened RegTree
  import opened Wrappers
  import opened RegRef

  /** The outcome does not lie before `s` or behind the text, and differs from `caps` at most in
      the groups `gs`. */
  ghost predicate OutOk(o: Out, u: Subject, s: nat, caps: Caps, gs: set<nat>) {
    s <= o.s <= |u.text| && |o.caps| == |caps| &&
    forall i :: 0 <= i < |caps| && i !in gs ==> o.caps[i] == caps[i]
  }

  ghost predicate AllOk(outs: seq<Out>, u: Subject, s: nat, caps: Caps, gs: set<nat>) {
    forall k :: 0 <= k < |outs| ==> OutOk(outs[k], u, s, caps, gs)
  }

  lemma AllOkConcat(a: seq<Out>, b: seq<Out>, u: Subject, s: nat, caps: Caps, gs: set<nat>)
    requires AllOk(a, u, s, caps, gs) && AllOk(b, u, s, caps, gs)
    ensures AllOk(a + b, u, s, caps, gs)
  {
  }

  /** Outcomes that continue an outcome `o` are outcomes of what came before `o`. */
  lemma AllOkLater(outs: seq<Out>, o: Out, u: Subject, s: nat, caps: Caps, gs: set<nat>)
    requires OutOk(o, u, s, caps, gs) && AllOk(outs, u, o.s, o.caps, gs)
    ensures AllOk(outs, u, s, caps, gs)
  {
    forall k | 0 <= k < |outs|
      ensures OutOk(outs[k], u, s, caps, gs)
    {
      assert OutOk(outs[k], u, o.s, o.caps, gs);
    }
  }

  lemma AllOkWider(outs: seq<Out>, u: Subject, s: nat, caps: Caps, gs: set<nat>, wider: set<nat>)
    requires AllOk(outs, u, s, caps, gs) && gs <= wider
    ensures AllOk(outs, u, s, caps, wider)
  {
    forall k | 0 <= k < |outs|
      ensures OutOk(outs[k], u, s, caps, wider)
    {
      assert OutOk(outs[k], u, s, caps, gs);
    }
  }

  lemma {:induction false} DotStarOk(next: Option<Byte>, u: Subject, s: nat, caps: Caps)
    requires s <= |u.text|
    ensures AllOk(RunDotStar(next, u, s, caps), u, s, caps, {})
    decreases |u.text| - s
  {
    if s < |u.text| && DotAt(u, s) {
      DotStarOk(next, u, s + 1, caps);
      AllOkLater(RunDotStar(next, u, s + 1, caps), Out(s + 1, caps), u, s, caps, {});
    }
  }

  lemma TailOk(outs: seq<Out>, u: Subject, s: nat, caps: Caps, gs: set<nat>)
    requires outs != [] && AllOk(outs, u, s, caps, gs)
    ensures AllOk(outs[1..], u, s, caps, gs)
  {
    forall i | 0 <= i < |outs[1..]| ensures OutOk(outs[1..][i], u, s, caps, gs) {
      assert outs[1..][i] == outs[i + 1];
    }
  }

  /** The least number of bytes a match of the tree takes: get_min_match_length without the 32-bit
      arithmetic, and with the shorter alternative where the source has 0. */
  function LeastLength(n: Node): nat {
    match n
    case Str(s) => |s|
    case CClass(_, _) => 1
    case AnyChar => 1
    case List(l, r) => LeastLength(l) + LeastLength(r)
    case Alt(l, r) => if r.Null? || LeastLength(l) <= LeastLength(r) then LeastLength(l) else LeastLength(r)
    case Quant(t, lower, _, _, _, _, _) => Times(LeastLength(t), lower)
    case Group(_, t) => LeastLength(t)
    case StopBacktrack(t) => LeastLength(t)
    case _ => 0
  }

  lemma {:induction false} LeastZero(x: nat, k: nat)
    ensures x == 0 || k == 0 ==> Times(x, k) == 0
    ensures x > 0 && k > 0 ==> Times(x, k) >= x
  {
    if k > 0 {
      LeastZero(x, k - 1);
    }
  }

  lemma ProductMonotone(a: nat, b: nat, m: nat)
    requires a <= b
    ensures a * m <= b * m
  {
  }

  lemma QuotientProduct(n: nat, m: nat)
    requires 0 < m
    ensures n - m < n / m * m <= n
  {
    assert n == m * (n / m) + n % m;
  }

  lemma SaturatedProduct(d: nat, m: Count)
    requires 0 < m
    ensures DistanceMultiply(d, m) > 0 ==> Times(d, m) > 0
    ensures DistanceMultiply(d, m) <= Times(d, m) || Times(d, m) >= 0x8000_0000
  {
    TimesIsProduct(d, m);
    LeastZero(d, m);
    var q := INFINITE_DISTANCE / m;
    QuotientProduct(INFINITE_DISTANCE, m);
    if d >= q {
      ProductMonotone(q, d, m);
    }
  }

  lemma {:induction false} TimesMonotone(a: nat, b: nat, k: nat)
    requires a <= b
    ensures Times(a, k) <= Times(b, k)
  {
    if k > 0 {
      TimesMonotone(a, b, k - 1);
    }
  }

  /** The machine arithmetic of get_min_match_length never turns a possible empty match into a
      positive minimum, and never overstates a minimum below 2 gigabytes. */
  lemma {:induction false} MinLengthSound(n: Node)
    ensures MinLength(n) > 0 ==> LeastLength(n) > 0
    ensures MinLength(n) <= LeastLength(n) || LeastLength(n) >= 0x8000_0000
  {
    hide Times, DistanceMultiply;
    match n
    case List(l, r) =>
      MinLengthSound(l);
      MinLengthSound(r);
      WrappedSum(MinLength(l), MinLength(r), LeastLength(l), LeastLength(r));
    case Quant(t, lower, _, _, _, _, _) =>
      MinLengthSound(t);
      if lower > 0 { ProductSound(MinLength(t), LeastLength(t), lower); }
    case Group(_, t) => MinLengthSound(t);
    case StopBacktrack(t) => MinLengthSound(t);
    case _ =>
  }

  lemma WrappedSum(a: nat, b: nat, x: nat, y: nat)
    requires (a > 0 ==> x > 0) && (a <= x || x >= 0x8000_0000) && (b > 0 ==> y > 0) && (b <= y || y >= 0x8000_0000)
    ensures var r := (a + b) % DISTANCE_LIMIT; (r > 0 ==> x + y > 0) && (r <= x + y || x + y >= 0x8000_0000)
  {
    assert (a + b) % DISTANCE_LIMIT <= a + b;
  }

  lemma ProductSound(a: nat, x: nat, m: Count)
    requires m > 0 && (a > 0 ==> x > 0) && (a <= x || x >= 0x8000_0000)
    ensures DistanceMultiply(a, m) > 0 ==> Times(x, m) > 0
    ensures DistanceMultiply(a, m) <= Times(x, m) || Times(x, m) >= 0x8000_0000
  {
    hide Times, DistanceMultiply;
    LeastZero(x, m);
    SaturatedProduct(a, m);
    LeastZero(a, m);
    if a <= x {
      TimesMonotone(a, x, m);
    }
  }

  /** The same, for one part of the byte code. */
  function PartLeast(p: Part): nat {
    match p
    case Whole(n) => LeastLength(n)
    case Copies(t, k) => Times(LeastLength(t), k)
    case _ => 0
  }

  /** Every outcome of a part lies inside the text and at least the part's least length behind
      `s`, and leaves the groups outside the part alone. */
  lemma {:induction false} RunLeast(p: Part, u: Subject, s: nat, caps: Caps, how: Reading)
    requires s <= |u.text|
    ensures AllOk(Run(p, u, s, caps, how), u, s + PartLeast(p), caps, Groups(PartNode(p)))
    decreases PartNode(p), if p.Whole? then 0 else 2,
              if p.Whole? then 1 else if p.Repeat? then 2 * (|u.text| - s) + 1 else PartCount(p), 0
  {
    hide RunLeaf, RunTree, Groups, RunDotStar, MayEnter, MayLeave;
    var gs := Groups(PartNode(p));
    match p
    case Whole(n) =>
      if IsLeaf(n) { LeafLeast(n, u, s, caps); } else { TreeLeast(n, u, s, caps, how); }
    case Copies(t, k) =>
      if k > 0 {
        RunLeast(Whole(t), u, s, caps, how);
        RunAllLeast(Copies(t, k - 1), u, s + LeastLength(t), caps, gs, Run(Whole(t), u, s, caps, how), how);
      }
    case Optional(t, k, greedy) =>
      if k > 0 {
        AnywhereLeast(t, u, s, caps, how);
        RunAllLeast(Optional(t, k - 1, greedy), u, s, caps, gs, Run(Whole(t), u, s, caps, how), how);
      }
    case Repeat(t, greedy, g) =>
      AnywhereLeast(t, u, s, caps, how);
      IterateLeast(t, greedy, g, u, s, s, caps, Run(Whole(t), u, s, caps, how), how);
    case DotStar(t, next) =>
      DotStarOk(next, u, s, caps);
      AllOkWider(RunDotStar(next, u, s, caps), u, s, caps, {}, gs);
  }

  lemma {:induction false} AnywhereLeast(t: Node, u: Subject, s: nat, caps: Caps, how: Reading)
    requires s <= |u.text|
    ensures AllOk(Run(Whole(t), u, s, caps, how), u, s, caps, Groups(t))
    decreases t, 0, 2, 0
  {
    hide Run, Groups;
    RunLeast(Whole(t), u, s, caps, how);
    AllOkEarlier(Run(Whole(t), u, s, caps, how), u, s, s + LeastLength(t), caps, Groups(t));
  }

  lemma AllOkEarlier(outs: seq<Out>, u: Subject, s: nat, later: nat, caps: Caps, gs: set<nat>)
    requires s <= later && AllOk(outs, u, later, caps, gs)
    ensures AllOk(outs, u, s, caps, gs)
  {
    forall k | 0 <= k < |outs| ensures OutOk(outs[k], u, s, caps, gs) {
      assert OutOk(outs[k], u, later, caps, gs);
    }
  }

  lemma LeafLeast(n: Node, u: Subject, s: nat, caps: Caps)
    requires s <= |u.text| && IsLeaf(n)
    ensures AllOk(RunLeaf(n, u, s, caps), u, s + LeastLength(n), caps, Groups(n))
  {
  }

  lemma {:induction false} TreeLeast(n: Node, u: Subject, s: nat, caps: Caps, how: Reading)
    requires s <= |u.text| && !IsLeaf(n)
    ensures AllOk(RunTree(n, u, s, caps, how), u, s + LeastLength(n), caps, Groups(n))
    decreases n, 0, 0, 1
  {
    hide Run, RunAll, Iterate, GuardIn, Layout, Times;
    match n
    case List(l, r) =>
      RunLeast(Whole(l), u, s, caps, how);
      AllOkWider(Run(Whole(l), u, s, caps, how), u, s + LeastLength(l), caps, Groups(l), Groups(n));
      RunAllLeast(Whole(r), u, s + LeastLength(l), caps, Groups(n), Run(Whole(l), u, s, caps, how), how);
    case Quant(_, _, _, _, _, _, _) => QuantLeast(n, u, s, caps, how);
    case Group(k, t) =>
      RunLeast(Whole(t), u, s, OpenGroup(caps, k, s), how);
      CloseAllLeast(Run(Whole(t), u, s, OpenGroup(caps, k, s), how), k, u, s, s + LeastLength(t), caps, Groups(t));
    case StopBacktrack(t) => RunLeast(Whole(t), u, s, caps, how);
    case Alt(l, r) =>
      RunLeast(Whole(l), u, s, caps, how);
      AllOkEarlier(Run(Whole(l), u, s, caps, how), u, s + LeastLength(n), s + LeastLength(l), caps, Groups(l));
      AllOkWider(Run(Whole(l), u, s, caps, how), u, s + LeastLength(n), caps, Groups(l), Groups(n));
      if !r.Null? {
        RunLeast(Whole(r), u, s, caps, how);
        AllOkEarlier(Run(Whole(r), u, s, caps, how), u, s + LeastLength(n), s + LeastLength(r), caps, Groups(r));
        AllOkWider(Run(Whole(r), u, s, caps, how), u, s + LeastLength(n), caps, Groups(r), Groups(n));
      }
    case PrecRead(t) =>
      RunLeast(Whole(t), u, s, caps, how);
      var outs := Run(Whole(t), u, s, caps, how);
      assert outs != [] ==> OutOk(outs[0], u, s + LeastLength(t), caps, Groups(t));
    case PrecReadNot(t) =>
  }

  lemma {:induction false} QuantLeast(q: Node, u: Subject, s: nat, caps: Caps, how: Reading)
    requires s <= |u.text| && q.Quant?
    ensures AllOk(RunTree(q, u, s, caps, how), u, s + LeastLength(q), caps, Groups(q))
    decreases q, 0, 0, 0
  {
    hide Run, RunAll, Iterate, GuardIn, Layout, Times;
    var t := q.target;
    var g := GuardIn(q, how);
    var outs := Run(Copies(t, q.lower), u, s, caps, how);
    RunLeast(Copies(t, q.lower), u, s, caps, how);
    if q.upper.Finite? {
      RunAllLeast(Optional(t, Spare(q.lower, q.upper.n), q.greedy), u, s + LeastLength(q), caps, Groups(t), outs, how);
    } else if how.ByCode? && Layout(q).Dots? {
      RunAllLeast(DotStar(t, q.nextHeadExact), u, s + LeastLength(q), caps, Groups(t), outs, how);
    } else if JumpsIn(q, how) {
      JumpInOnce(q);
      RunLeast(Whole(t), u, s, caps, how);
      IterateLeast(t, q.greedy, g, u, s, s + LeastLength(q), caps, Run(Whole(t), u, s, caps, how), how);
    } else {
      RunAllLeast(Repeat(t, q.greedy, g), u, s + LeastLength(q), caps, Groups(t), outs, how);
    }
  }

  lemma JumpInOnce(n: Node)
    requires n.Quant? && Layout(n) == Loop(true)
    ensures n.lower == 1 && Times(LeastLength(n.target), 1) == LeastLength(n.target)
  {
    assert Times(LeastLength(n.target), 1) == LeastLength(n.target) + Times(LeastLength(n.target), 0);
  }

  /** Outcomes at or behind `s` stay there when `p` continues them, and move on by its least length. */
  lemma {:induction false} RunAllLeast(p: Part, u: Subject, s: nat, caps: Caps, gs: set<nat>, outs: seq<Out>, how: Reading)
    requires Groups(PartNode(p)) <= gs && AllOk(outs, u, s, caps, gs)
    ensures AllOk(RunAll(p, u, outs, how), u, s + PartLeast(p), caps, gs)
    decreases PartNode(p), PartRank(p), PartCount(p), |outs|
  {
    hide Run, Groups, Iterate, PartLeast;
    if outs != [] {
      var o := outs[0];
      assert OutOk(o, u, s, caps, gs);
      var first := Run(p, u, o.s, o.caps, how);
      RunLeast(p, u, o.s, o.caps, how);
      AllOkWider(first, u, o.s + PartLeast(p), o.caps, Groups(PartNode(p)), gs);
      forall k | 0 <= k < |first| ensures OutOk(first[k], u, s + PartLeast(p), caps, gs) {
        assert OutOk(first[k], u, o.s + PartLeast(p), o.caps, gs);
      }
      TailOk(outs, u, s, caps, gs);
      RunAllLeast(p, u, s, caps, gs, outs[1..], how);
      AllOkConcat(first, RunAll(p, u, outs[1..], how), u, s + PartLeast(p), caps, gs);
    }
  }

  lemma {:induction false} IterateLeast(t: Node, greedy: bool, g: Guard, u: Subject, s0: nat, s: nat, caps: Caps, outs: seq<Out>, how: Reading)
    requires s0 <= |u.text| && AllOk(outs, u, s, caps, Groups(t))
    ensures AllOk(Iterate(t, greedy, g, u, s0, outs, how), u, s, caps, Groups(t))
    decreases t, 2, 2 * (|u.text| - s0), |outs|
  {
    hide Run, Groups, RunAll;
    if outs != [] {
      var o := outs[0];
      assert OutOk(o, u, s, caps, Groups(t));
      var first := if s0 < o.s <= |u.text| then Run(Repeat(t, greedy, g), u, o.s, o.caps, how) else [o];
      if s0 < o.s {
        RunLeast(Repeat(t, greedy, g), u, o.s, o.caps, how);
        AllOkLater(first, o, u, s, caps, Groups(t));
      }
      TailOk(outs, u, s, caps, Groups(t));
      IterateLeast(t, greedy, g, u, s0, s, caps, outs[1..], how);
      AllOkConcat(first, Iterate(t, greedy, g, u, s0, outs[1..], how), u, s, caps, Groups(t));
    }
  }

  lemma {:induction false} CloseAllLeast(outs: seq<Out>, k: nat, u: Subject, beg: nat, s: nat, caps: Caps, gs: set<nat>)
    requires AllOk(outs, u, s, OpenGroup(caps, k, beg), gs)
    ensures AllOk(CloseAll(outs, k, beg), u, s, caps, {k} + gs)
  {
    if outs != [] {
      assert OutOk(outs[0], u, s, OpenGroup(caps, k, beg), gs);
      TailOk(outs, u, s, OpenGroup(caps, k, beg), gs);
      CloseAllLeast(outs[1..], k, u, beg, s, caps, gs);
      var first := [Out(outs[0].s, CloseGroup(outs[0].caps, k, beg, outs[0].s))];
      assert AllOk(first, u, s, caps, {k} + gs);
      AllOkConcat(first, CloseAll(outs[1..], k, beg), u, s, caps, {k} + gs);
    }
  }

  /** get_min_match_length never exceeds the length of a match, in texts shorter than 2
      gigabytes; and where it is positive every match consumes something, in any text. */
  lemma MinLengthBound(n: Node, u: Subject, s: nat, caps: Caps, how: Reading, k: nat)
    requires s <= |u.text| && k < |Run(Whole(n), u, s, caps, how)|
    ensures var o := Run(Whole(n), u, s, caps, how)[k];
            (MinLength(n) > 0 ==> o.s > s) &&
            (|u.text| < 0x8000_0000 ==> s + MinLength(n) <= o.s)
  {
    hide Run, MinLength;
    MinLengthSound(n);
    RunLeast(Whole(n), u, s, caps, how);
    assert OutOk(Run(Whole(n), u, s, caps, how)[k], u, s + LeastLength(n), caps, Groups(n));
  }
}
