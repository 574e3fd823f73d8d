/** The meaning of a parse tree: a backtracking matcher written as a function. It gives every
    way in which the tree matches at a position, in the order of preference, each with the end
    position and what the groups have captured by then. */
module RegRef {
  import opened RegInt
  import opened RegTree
  import opened Wrappers

  const NEWLINE: Byte := 10

  /** The text searched in, the byte that stands behind it in memory, whether `.` matches a
      newline, and where match_at was started. */
  datatype Subject = Subject(text: seq<Byte>, terminator: Byte, multiline: bool, start: nat)

  /** One group: not matched, opened at a position, or matched from `beg` to `end`. */
  datatype Cap = NotMatched | Opened(beg: nat) | Span(beg: nat, end: nat)

  type Caps = seq<Cap>

  datatype Out = Out(s: nat, caps: Caps)

  /** What the byte code of a tree falls apart into: a whole tree, `k` mandatory copies, the
      loop of an unbounded quantifier, `k` optional copies, and the special loop of `.*`. */
  datatype Part =
    | Whole(n: Node)
    | Copies(t: Node, k: nat)
    | Optional(t: Node, k: nat, greedy: bool)
    | Repeat(t: Node, greedy: bool, g: Guard)
    | DotStar(t: Node, next: Option<Byte>)

  function PartNode(p: Part): Node {
    if p.Whole? then p.n else p.t
  }

  function PartRank(p: Part): nat {
    if p.Whole? then 1 else if p.Copies? || p.Optional? then 2 else 3
  }

  function PartCount(p: Part): nat {
    if p.Copies? || p.Optional? then p.k else 0
  }

  /** The byte the matcher reads at `s`; at the end of the text it is the terminator. */
  function ByteAt(u: Subject, s: nat): Byte {
    if s < |u.text| then u.text[s] else u.terminator
  }

  predicate IsNext(u: Subject, s: nat, c: Byte) {
    s < |u.text| && u.text[s] == c
  }

  predicate StringAt(text: seq<Byte>, s: nat, str: seq<Byte>) {
    s + |str| <= |text| && text[s..s + |str|] == str
  }

  predicate DotAt(u: Subject, s: nat) {
    s < |u.text| && (u.multiline || u.text[s] != NEWLINE)
  }

  predicate ClassAt(u: Subject, s: nat, bits: seq<Byte>, negated: bool) {
    s < |u.text| && |bits| == SIZE_BITSET && BitsetAt(bits, u.text[s]) != negated
  }

  predicate AnchorAt(u: Subject, s: nat, kind: AnchorType) {
    match kind
    case AtBufBegin => s == 0
    case AtBufEnd => s == |u.text|
    case AtBeginPosition => s == u.start
  }

  /** The text a back-reference stands for, when its group has matched. */
  function Referred(u: Subject, caps: Caps, k: nat): Option<seq<Byte>> {
    if k < |caps| && caps[k].Span? && caps[k].beg <= caps[k].end <= |u.text| then
      Some(u.text[caps[k].beg..caps[k].end])
    else None
  }

  function When(b: bool, o: Out): seq<Out> {
    if b then [o] else []
  }

  /** Trees without subtrees. */
  function RunLeaf(n: Node, u: Subject, s: nat, caps: Caps): seq<Out> {
    match n
    case Str(str) => When(StringAt(u.text, s, str), Out(s + |str|, caps))
    case CClass(bits, negated) => When(ClassAt(u, s, bits, negated), Out(s + 1, caps))
    case AnyChar => When(DotAt(u, s), Out(s + 1, caps))
    case Anchor(kind) => When(AnchorAt(u, s, kind), Out(s, caps))
    case Backref(k) =>
      (match Referred(u, caps, k)
       case Some(str) => When(StringAt(u.text, s, str), Out(s + |str|, caps))
       case None => [])
    case _ => [Out(s, caps)]
  }

  predicate IsLeaf(n: Node) {
    n.Null? || n.Empty? || n.Str? || n.CClass? || n.AnyChar? || n.Anchor? || n.Backref?
  }

  function OpenGroup(caps: Caps, k: nat, s: nat): Caps {
    if k < |caps| then caps[k := Opened(s)] else caps
  }

  function CloseGroup(caps: Caps, k: nat, beg: nat, end: nat): Caps {
    if k < |caps| then caps[k := Span(beg, end)] else caps
  }

  function CloseAll(outs: seq<Out>, k: nat, beg: nat): (r: seq<Out>)
    ensures |r| == |outs|
  {
    if outs == [] then []
    else [Out(outs[0].s, CloseGroup(outs[0].caps, k, beg, outs[0].s))] + CloseAll(outs[1..], k, beg)
  }

  /** `.*` as one operation. With a byte to peek at, the way out is offered only where that
      byte comes next, and always at the end of the text. */
  function RunDotStar(next: Option<Byte>, u: Subject, s: nat, caps: Caps): seq<Out>
    decreases |u.text| - s
  {
    if s >= |u.text| then [Out(s, caps)]
    else
      (if DotAt(u, s) then RunDotStar(next, u, s + 1, caps) else []) +
      When(next.None? || next.value == u.text[s], Out(s, caps))
  }

  /** Whether the loop guard lets the body be tried, and the loop be left. */
  predicate MayEnter(g: Guard, u: Subject, s: nat) {
    g.HeadIs? ==> IsNext(u, s, g.c)
  }

  predicate MayLeave(g: Guard, u: Subject, s: nat) {
    g.NextIs? ==> ByteAt(u, s) == g.c
  }

  /** How a quantifier is read. `ByTree` knows nothing of the compiler: the mandatory copies, and
      behind them the loop or the optional copies. `ByLayout` enters a loop in its middle where
      the compiler does, and `ByCode` also looks one byte ahead where the compiled code does. */
  datatype Reading = ByTree | ByLayout | ByCode

  /** The loop is entered in its middle: one pass through its body is the mandatory copy. */
  predicate JumpsIn(q: Node, how: Reading)
    requires q.Quant?
  {
    !how.ByTree? && Layout(q) == Loop(true)
  }

  /** What the tests in a quantifier look at. */
  function GuardIn(q: Node, how: Reading): Guard
    requires q.Quant?
  {
    if how.ByCode? && !Layout(q).Range? then GuardOf(q) else Always
  }

  function Run(p: Part, u: Subject, s: nat, caps: Caps, how: Reading): seq<Out>
    decreases PartNode(p), if p.Whole? then 0 else 2,
              if p.Whole? then 1 else if p.Repeat? then (if s <= |u.text| then 2 * (|u.text| - s) + 1 else 1) else PartCount(p), 0
  {
    match p
    case Whole(n) =>
      if IsLeaf(n) then RunLeaf(n, u, s, caps) else RunTree(n, u, s, caps, how)
    case Copies(t, k) =>
      if k == 0 then [Out(s, caps)]
      else RunAll(Copies(t, k - 1), u, Run(Whole(t), u, s, caps, how), how)
    case Optional(t, k, greedy) =>
      if k == 0 then [Out(s, caps)]
      else
        var more := RunAll(Optional(t, k - 1, greedy), u, Run(Whole(t), u, s, caps, how), how);
        if greedy then more + [Out(s, caps)] else [Out(s, caps)] + more
    case Repeat(t, greedy, g) =>
      var more := Iterate(t, greedy, g, u, s, Run(Whole(t), u, s, caps, how), how);
      if greedy then (if MayEnter(g, u, s) then more else []) + When(MayLeave(g, u, s), Out(s, caps))
      else [Out(s, caps)] + more
    case DotStar(_, next) => RunDotStar(next, u, s, caps)
  }

  function RunTree(n: Node, u: Subject, s: nat, caps: Caps, how: Reading): seq<Out>
    requires !IsLeaf(n)
    decreases n, 0, 0, 0
  {
    match n
    case List(l, r) => RunAll(Whole(r), u, Run(Whole(l), u, s, caps, how), how)
    case Alt(l, r) =>
      Run(Whole(l), u, s, caps, how) + (if r.Null? then [] else Run(Whole(r), u, s, caps, how))
    case Quant(t, lower, upper, greedy, _, _, next) =>
      var g := GuardIn(n, how);
      if upper.Finite? then
        RunAll(Optional(t, Spare(lower, upper.n), greedy), u, Run(Copies(t, lower), u, s, caps, how), how)
      else if how.ByCode? && Layout(n).Dots? then
        RunAll(DotStar(t, next), u, Run(Copies(t, lower), u, s, caps, how), how)
      else if JumpsIn(n, how) then
        Iterate(t, greedy, g, u, s, Run(Whole(t), u, s, caps, how), how)
      else RunAll(Repeat(t, greedy, g), u, Run(Copies(t, lower), u, s, caps, how), how)
    case Group(k, t) => CloseAll(Run(Whole(t), u, s, OpenGroup(caps, k, s), how), k, s)
    case PrecRead(t) =>
      var outs := Run(Whole(t), u, s, caps, how);
      if outs == [] then [] else [Out(s, outs[0].caps)]
    case PrecReadNot(t) => When(Run(Whole(t), u, s, caps, how) == [], Out(s, caps))
    case StopBacktrack(t) =>
      var outs := Run(Whole(t), u, s, caps, how);
      if outs == [] then [] else [outs[0]]
  }

  /** All continuations of a list of outcomes through `p`, in order. */
  function RunAll(p: Part, u: Subject, outs: seq<Out>, how: Reading): seq<Out>
    decreases PartNode(p), PartRank(p), PartCount(p), |outs|
  {
    if outs == [] then []
    else Run(p, u, outs[0].s, outs[0].caps, how) + RunAll(p, u, outs[1..], how)
  }

  /** What follows one pass through the loop body that began at `s0`: a pass that consumed
      nothing leaves the loop, any other one comes back to its head. */
  function Iterate(t: Node, greedy: bool, g: Guard, u: Subject, s0: nat, outs: seq<Out>, how: Reading): seq<Out>
    decreases t, 2, if s0 <= |u.text| then 2 * (|u.text| - s0) else 0, |outs|
  {
    if outs == [] then []
    else
      var o := outs[0];
      (if s0 < o.s <= |u.text| then Run(Repeat(t, greedy, g), u, o.s, o.caps, how) else [o]) +
      Iterate(t, greedy, g, u, s0, outs[1..], how)
  }

  /** The ways in which the whole pattern matches at `s`, no group having matched yet. */
  function Outcomes(n: Node, u: Subject, s: nat, maxMem: nat, how: Reading): seq<Out> {
    Run(Whole(n), u, s, seq(maxMem + 1, _ => NotMatched), how)
  }
}
