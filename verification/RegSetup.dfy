/** setup_tree and the operations that look one byte ahead (oniguruma/regcomp.c). Trees are
    values here: setup_tree gives the tree with its notes filled in. */
module RegSetup {
  import opened RegInt
  import opened RegTree
  import opened Wrappers
  import opened RegRef
  import opened RegFacts
  import opened RegCorrect

  /** get_head_exact_node: the byte every match of the tree must begin with, where one is known. */
  function HeadExact(n: Node): Option<Byte> {
    match n
    case Str(s) => if s == [] then None else Some(s[0])
    case List(l, _) => HeadExact(l)
    case Quant(t, lower, _, _, _, head, _) =>
      if lower == 0 then None else if head.Some? then head else HeadExact(t)
    case Group(_, t) => HeadExact(t)
    case StopBacktrack(t) => HeadExact(t)
    case PrecRead(t) => HeadExact(t)
    case _ => None
  }

  /** next_setup. */
  function NextSetup(n: Node, next: Node): Node {
    if n.Quant? && n.greedy && n.upper.Infinite? then n.(nextHeadExact := HeadExact(next)) else n
  }

  function RepeatString(s: seq<Byte>, k: nat): seq<Byte> {
    if k == 0 then [] else s + RepeatString(s, k - 1)
  }

  const EXPAND_STRING_MAX_LENGTH := 100

  /** A fixed repetition of a short string becomes one longer string. */
  predicate Expands(t: Node, lower: Count, upper: Upper) {
    t.Str? && upper == Finite(lower) && 1 < lower <= EXPAND_STRING_MAX_LENGTH &&
    |t.s| * lower <= EXPAND_STRING_MAX_LENGTH
  }

  /** setup_tree. */
  function Setup(n: Node): Node {
    match n
    case List(l, r) => List(if r.List? then NextSetup(Setup(l), r.left) else Setup(l), Setup(r))
    case Alt(l, r) => Alt(Setup(l), Setup(r))
    case Quant(t, lower, upper, greedy, _, _, _) =>
      var mayBeEmpty := (upper.Infinite? || upper.n > 1) && MinLength(t) == 0;
      var t' := Setup(t);
      if Expands(t', lower, upper) then Str(RepeatString(t'.s, lower))
      else Quant(t', lower, upper, greedy, mayBeEmpty, if greedy && !mayBeEmpty then HeadExact(t') else None, None)
    case Group(k, t) => Group(k, Setup(t))
    case PrecRead(t) => PrecRead(Setup(t))
    case PrecReadNot(t) => PrecReadNot(Setup(t))
    case StopBacktrack(t) => StopBacktrack(Setup(t))
    case _ => n
  }

  /** The memory status bits setup_tree turns on: groups that are referred to, and groups inside
      alternatives or negative lookahead. */
  function MemStats(n: Node, inAltOrNot: bool): set<nat> {
    match n
    case Backref(k) => {k}
    case List(l, r) => MemStats(l, inAltOrNot) + MemStats(r, inAltOrNot)
    case Alt(l, r) => MemStats(l, true) + MemStats(r, true)
    case Quant(t, _, _, _, _, _, _) => MemStats(t, inAltOrNot)
    case Group(k, t) => (if inAltOrNot then {k} else {}) + MemStats(t, inAltOrNot)
    case PrecRead(t) => MemStats(t, inAltOrNot)
    case PrecReadNot(t) => MemStats(t, true)
    case StopBacktrack(t) => MemStats(t, inAltOrNot)
    case _ => {}
  }

  /** A tree as the parser makes it: no notes yet, and group numbers in range that do not nest
      in themselves. */
  predicate Parsed(n: Node, maxMem: nat) {
    match n
    case List(l, r) => Parsed(l, maxMem) && Parsed(r, maxMem)
    case Alt(l, r) => Parsed(l, maxMem) && Parsed(r, maxMem)
    case Quant(t, _, _, _, checked, head, next) => !checked && head.None? && next.None? && Parsed(t, maxMem)
    case Group(k, t) => k <= maxMem && k !in Groups(t) && Parsed(t, maxMem)
    case PrecRead(t) => Parsed(t, maxMem)
    case PrecReadNot(t) => Parsed(t, maxMem)
    case StopBacktrack(t) => Parsed(t, maxMem)
    case _ => true
  }

  /** The note a quantifier carries about what follows it. */
  function NextOf(n: Node): Option<Byte> {
    if n.Quant? then n.nextHeadExact else None
  }

  /** The notes on the tree are true: a head note names the head of the body, a next note names
      the head of the next list element, and nothing but a list element has a next note. */
  predicate Honest(n: Node) {
    match n
    case List(l, r) =>
      Honest(l) && Honest(r) && NextOf(r).None? &&
      (NextOf(l).Some? ==> r.List? && HeadExact(r.left) == NextOf(l))
    case Alt(l, r) => Honest(l) && Honest(r) && NextOf(l).None? && NextOf(r).None?
    case Quant(t, _, _, _, _, head, _) => Honest(t) && NextOf(t).None? && (head.Some? ==> HeadExact(t) == head)
    case Group(_, t) => Honest(t) && NextOf(t).None?
    case PrecRead(t) => Honest(t) && NextOf(t).None?
    case PrecReadNot(t) => Honest(t) && NextOf(t).None?
    case StopBacktrack(t) => Honest(t) && NextOf(t).None?
    case _ => true
  }

  // ----- setup_tree -----

  lemma {:induction false} RepeatStringLength(s: seq<Byte>, k: nat)
    ensures |RepeatString(s, k)| == Times(|s|, k)
    ensures k > 0 && s != [] ==> RepeatString(s, k) != [] && RepeatString(s, k)[0] == s[0]
  {
    if k > 0 {
      RepeatStringLength(s, k - 1);
    }
  }

  lemma {:induction false} SetupKeeps(n: Node, maxMem: nat)
    requires Parsed(n, maxMem)
    ensures MinLength(Setup(n)) == MinLength(n) && HeadExact(Setup(n)) == HeadExact(n)
    ensures Groups(Setup(n)) == Groups(n) && NextOf(Setup(n)).None?
  {
    hide DistanceMultiply, MinLength, HeadExact, Groups, Setup, NextOf;
    if n.List? || n.Alt? {
      SetupKeeps(n.left, maxMem);
      SetupKeeps(n.right, maxMem);
      SetupKeepsPair(n);
    } else if n.Quant? {
      SetupKeeps(n.target, maxMem);
      SetupKeepsQuant(n);
    } else if n.Group? || n.PrecRead? || n.PrecReadNot? || n.StopBacktrack? {
      SetupKeeps(n.target, maxMem);
      SetupKeepsEffect(n);
    } else {
      SetupKeepsLeaf(n);
    }
  }

  /** Setting up a node keeps its least length, its head and its groups. */
  ghost predicate Kept(n: Node) {
    MinLength(Setup(n)) == MinLength(n) && HeadExact(Setup(n)) == HeadExact(n) && Groups(Setup(n)) == Groups(n)
  }

  lemma SetupKeepsLeaf(n: Node)
    requires IsLeaf(n)
    ensures Kept(n) && NextOf(Setup(n)).None?
  {
  }

  lemma SetupKeepsPair(n: Node)
    requires (n.List? || n.Alt?) && Kept(n.left) && Kept(n.right)
    ensures Kept(n) && NextOf(Setup(n)).None?
  {
    hide DistanceMultiply, Expands, Kept;
    if n.Alt? {
      SetupKeepsAlt(n);
    } else {
      SetupKeepsList(n);
    }
  }

  lemma SetupKeepsAlt(n: Node)
    requires n.Alt? && Kept(n.left) && Kept(n.right)
    ensures Kept(n) && NextOf(Setup(n)).None?
  {
    hide DistanceMultiply, Expands;
    assert Setup(n) == Alt(Setup(n.left), Setup(n.right));
  }

  lemma SetupKeepsList(n: Node)
    requires n.List? && Kept(n.left) && Kept(n.right)
    ensures Kept(n) && NextOf(Setup(n)).None?
  {
    hide DistanceMultiply, Expands, Setup, MinLength, HeadExact, Groups, NextSetup;
    var l := ListLeft(n);
    ListOf(n.left, n.right);
    ListOf(l, Setup(n.right));
  }

  /** The left part of a list cell after setup. */
  lemma ListLeft(n: Node) returns (l: Node)
    requires n.List?
    ensures Setup(n) == List(l, Setup(n.right))
    ensures MinLength(l) == MinLength(Setup(n.left)) && HeadExact(l) == HeadExact(Setup(n.left)) && Groups(l) == Groups(Setup(n.left))
  {
    hide MinLength, HeadExact, Groups, NextSetup;
    l := if n.right.List? then NextSetup(Setup(n.left), n.right.left) else Setup(n.left);
    if n.right.List? { NextSetupKeeps(Setup(n.left), n.right.left); }
  }

  lemma ListOf(l: Node, r: Node)
    ensures MinLength(List(l, r)) == (MinLength(l) + MinLength(r)) % DISTANCE_LIMIT
    ensures HeadExact(List(l, r)) == HeadExact(l) && Groups(List(l, r)) == Groups(l) + Groups(r)
  {
  }

  lemma NextSetupKeeps(n: Node, next: Node)
    ensures MinLength(NextSetup(n, next)) == MinLength(n) && HeadExact(NextSetup(n, next)) == HeadExact(n)
    ensures Groups(NextSetup(n, next)) == Groups(n)
  {
    hide DistanceMultiply;
  }

  lemma SetupKeepsEffect(n: Node)
    requires (n.Group? || n.PrecRead? || n.PrecReadNot? || n.StopBacktrack?) && Kept(n.target)
    ensures Kept(n) && NextOf(Setup(n)).None?
  {
    hide DistanceMultiply, Expands;
  }

  lemma SetupKeepsQuant(q: Node)
    requires q.Quant? && q.headExact.None? && q.nextHeadExact.None?
    requires MinLength(Setup(q.target)) == MinLength(q.target) && HeadExact(Setup(q.target)) == HeadExact(q.target)
    requires Groups(Setup(q.target)) == Groups(q.target)
    ensures MinLength(Setup(q)) == MinLength(q) && HeadExact(Setup(q)) == HeadExact(q)
    ensures Groups(Setup(q)) == Groups(q) && NextOf(Setup(q)).None?
  {
    hide DistanceMultiply, Times;
    var t' := Setup(q.target);
    if Expands(t', q.lower, q.upper) {
      RepeatStringLength(t'.s, q.lower);
      TimesIsProduct(|t'.s|, q.lower);
      SmallProduct(|t'.s|, q.lower);
      if t'.s == [] {
        TimesIsProduct(0, q.lower);
      }
    }
  }

  lemma SmallProduct(d: nat, m: nat)
    requires 0 < m <= 100 && d * m <= 100
    ensures DistanceMultiply(d, m) == d * m
  {
    ProductMonotone(1, m, d);
    assert INFINITE_DISTANCE / m > 100;
  }

  /** setup_tree leaves the tree as the compiler needs it: every loop whose body may match
      nothing is marked, and every group that is referred to has its memory status bit. */
  lemma {:induction false} SetupPrepares(n: Node, inAltOrNot: bool, stats: set<nat>, maxMem: nat)
    requires Parsed(n, maxMem) && MemStats(n, inAltOrNot) <= stats
    ensures Prepared(Setup(n), stats, maxMem)
  {
    hide MinLength, HeadExact, Groups;
    match n
    case List(l, r) => SetupPrepares(l, inAltOrNot, stats, maxMem); SetupPrepares(r, inAltOrNot, stats, maxMem);
    case Alt(l, r) => SetupPrepares(l, true, stats, maxMem); SetupPrepares(r, true, stats, maxMem);
    case Quant(t, lower, upper, _, _, _, _) => SetupPrepares(t, inAltOrNot, stats, maxMem); SetupKeeps(t, maxMem);
    case Group(k, t) => SetupPrepares(t, inAltOrNot, stats, maxMem); SetupKeeps(t, maxMem);
    case PrecRead(t) => SetupPrepares(t, inAltOrNot, stats, maxMem);
    case PrecReadNot(t) => SetupPrepares(t, true, stats, maxMem);
    case StopBacktrack(t) => SetupPrepares(t, inAltOrNot, stats, maxMem);
    case _ =>
  }

  lemma {:induction false} SetupHonest(n: Node, maxMem: nat)
    requires Parsed(n, maxMem)
    ensures Honest(Setup(n))
  {
    hide MinLength, Groups;
    SetupKeeps(n, maxMem);
    match n
    case List(l, r) =>
      SetupHonest(l, maxMem);
      SetupHonest(r, maxMem);
      SetupKeeps(l, maxMem);
      SetupKeeps(r, maxMem);
      if r.List? {
        SetupKeeps(r.left, maxMem);
        NextSetupKeepsHead(r, maxMem);
      }
    case Alt(l, r) => SetupHonest(l, maxMem); SetupHonest(r, maxMem); SetupKeeps(l, maxMem); SetupKeeps(r, maxMem);
    case Quant(t, _, _, _, _, _, _) => SetupHonest(t, maxMem); SetupKeeps(t, maxMem);
    case Group(_, t) => SetupHonest(t, maxMem); SetupKeeps(t, maxMem);
    case PrecRead(t) => SetupHonest(t, maxMem); SetupKeeps(t, maxMem);
    case PrecReadNot(t) => SetupHonest(t, maxMem); SetupKeeps(t, maxMem);
    case StopBacktrack(t) => SetupHonest(t, maxMem); SetupKeeps(t, maxMem);
    case _ =>
  }

  lemma NextSetupKeepsHead(r: Node, maxMem: nat)
    requires r.List? && Parsed(r, maxMem) && HeadExact(Setup(r.left)) == HeadExact(r.left)
    ensures Setup(r).List? && HeadExact(Setup(r).left) == HeadExact(r.left)
  {
    hide MinLength, Groups;
  }

  // ----- nodes that setup_tree frees -----

  /** A node of a tree: to the left part or the target at `true`, to the right part at `false`. */
  type Path = seq<bool>

  /** setup_tree of this tree frees the node there: the string below a quantifier that is expanded. */
  predicate Frees(n: Node, path: Path)
    decreases n
  {
    if path == [] then false
    else
      match n
      case List(l, r) => if path[0] then Frees(l, path[1..]) else Frees(r, path[1..])
      case Alt(l, r) => if path[0] then Frees(l, path[1..]) else Frees(r, path[1..])
      case Quant(t, lower, upper, _, _, _, _) =>
        path[0] && (Frees(t, path[1..]) || (path == [true] && Expands(Setup(t), lower, upper)))
      case Group(_, t) => path[0] && Frees(t, path[1..])
      case PrecRead(t) => path[0] && Frees(t, path[1..])
      case PrecReadNot(t) => path[0] && Frees(t, path[1..])
      case StopBacktrack(t) => path[0] && Frees(t, path[1..])
      case _ => false
  }

  /** The string node that get_head_exact_node gives for a tree without notes. */
  function HeadPath(n: Node): Option<Path> {
    match n
    case Str(s) => if s == [] then None else Some([])
    case List(l, _) => Below(HeadPath(l))
    case Quant(t, lower, _, _, _, _, _) => if lower == 0 then None else Below(HeadPath(t))
    case Group(_, t) => Below(HeadPath(t))
    case StopBacktrack(t) => Below(HeadPath(t))
    case PrecRead(t) => Below(HeadPath(t))
    case _ => None
  }

  function Below(p: Option<Path>): Option<Path> {
    match p
    case Some(path) => Some([true] + path)
    case None => None
  }

  function NodeAt(n: Node, path: Path): Option<Node>
    decreases path
  {
    if path == [] then Some(n)
    else if n.List? || n.Alt? then NodeAt(if path[0] then n.left else n.right, path[1..])
    else if path[0] && (n.Quant? || n.Group? || n.PrecRead? || n.PrecReadNot? || n.StopBacktrack?) then
      NodeAt(n.target, path[1..])
    else None
  }

  /** The head of the tree is a string directly below a quantifier that is expanded. */
  predicate HeadExpands(n: Node) {
    match n
    case List(l, _) => HeadExpands(l)
    case Quant(t, lower, upper, _, _, _, _) => lower > 0 && if t.Str? then Expands(t, lower, upper) else HeadExpands(t)
    case Group(_, t) => HeadExpands(t)
    case StopBacktrack(t) => HeadExpands(t)
    case PrecRead(t) => HeadExpands(t)
    case _ => false
  }

  /** The node a note of next_setup points to carries the byte that the model notes; and setting up the
      next element frees that node exactly when its head is a string below a quantifier that is
      expanded. */
  lemma {:induction false} NoteOutlivesNode(next: Node, maxMem: nat)
    requires Parsed(next, maxMem)
    ensures HeadPath(next).Some? <==> HeadExact(next).Some?
    ensures HeadPath(next).Some? ==>
              var path := HeadPath(next).value;
              NodeAt(next, path) == Some(Str(HeadString(next))) && HeadString(next) != [] &&
              HeadExact(next) == Some(HeadString(next)[0]) && (Frees(next, path) <==> HeadExpands(next))
  {
    hide Setup, MinLength, Groups, Expands;
    match next
    case List(l, _) => NoteOutlivesNode(l, maxMem); PathDown(l);
    case Quant(t, _, _, _, _, _, _) => NoteOutlivesNode(t, maxMem); PathDown(t); SetupString(t);
    case Group(_, t) => NoteOutlivesNode(t, maxMem); PathDown(t);
    case StopBacktrack(t) => NoteOutlivesNode(t, maxMem); PathDown(t);
    case PrecRead(t) => NoteOutlivesNode(t, maxMem); PathDown(t);
    case _ =>
  }

  /** The text of the node that the head of a tree comes from. */
  function HeadString(n: Node): seq<Byte> {
    match n
    case Str(s) => s
    case List(l, _) => HeadString(l)
    case Quant(t, _, _, _, _, _, _) => HeadString(t)
    case Group(_, t) => HeadString(t)
    case StopBacktrack(t) => HeadString(t)
    case PrecRead(t) => HeadString(t)
    case _ => []
  }

  lemma PathDown(n: Node)
    ensures HeadPath(n).Some? ==> ([true] + HeadPath(n).value)[1..] == HeadPath(n).value
    ensures HeadPath(n) == Some([]) ==> n.Str?
  {
  }

  lemma SetupString(n: Node)
    ensures n.Str? ==> Setup(n) == n
  {
  }

  // ----- heads -----

  lemma {:induction false} RunAllNonempty(p: Part, u: Subject, outs: seq<Out>, how: Reading)
    requires RunAll(p, u, outs, how) != []
    ensures outs != []
  {
  }

  lemma IterateNonempty(t: Node, greedy: bool, g: Guard, u: Subject, s0: nat, outs: seq<Out>, how: Reading)
    requires Iterate(t, greedy, g, u, s0, outs, how) != []
    ensures outs != []
  {
  }

  lemma {:induction false} CopiesNonempty(t: Node, k: nat, u: Subject, s: nat, caps: Caps, how: Reading)
    requires k > 0 && Run(Copies(t, k), u, s, caps, how) != []
    ensures Run(Whole(t), u, s, caps, how) != []
  {
    hide RunTree, RunLeaf, Iterate;
  }

  /** Where the head of a tree is known, the tree matches only in front of that byte. */
  lemma {:induction false} HeadsTrue(n: Node, u: Subject, s: nat, caps: Caps, how: Reading)
    requires Honest(n) && HeadExact(n).Some? && Run(Whole(n), u, s, caps, how) != []
    ensures IsNext(u, s, HeadExact(n).value)
  {
    hide RunAll, Iterate, Layout, GuardIn;
    match n
    case Str(str) => assert str == u.text[s..s + |str|];
    case List(l, r) =>
      assert RunTree(n, u, s, caps, how) == RunAll(Whole(r), u, Run(Whole(l), u, s, caps, how), how);
      RunAllNonempty(Whole(r), u, Run(Whole(l), u, s, caps, how), how);
      HeadsTrue(l, u, s, caps, how);
    case Quant(t, lower, upper, greedy, _, _, next) =>
      QuantNonempty(n, u, s, caps, how);
      HeadsTrue(t, u, s, caps, how);
    case Group(k, t) => HeadsTrue(t, u, s, OpenGroup(caps, k, s), how);
    case PrecRead(t) => HeadsTrue(t, u, s, caps, how);
    case StopBacktrack(t) => HeadsTrue(t, u, s, caps, how);
  }

  lemma QuantNonempty(q: Node, u: Subject, s: nat, caps: Caps, how: Reading)
    requires q.Quant? && q.lower > 0 && RunTree(q, u, s, caps, how) != []
    ensures Run(Whole(q.target), u, s, caps, how) != []
  {
    hide Run, RunAll, Iterate, Layout, GuardIn;
    var t := q.target;
    var outs := Run(Copies(t, q.lower), u, s, caps, how);
    var g := GuardIn(q, how);
    if q.upper.Finite? {
      RunAllNonempty(Optional(t, Spare(q.lower, q.upper.n), q.greedy), u, outs, how);
    } else if how.ByCode? && Layout(q).Dots? {
      RunAllNonempty(DotStar(t, q.nextHeadExact), u, outs, how);
    } else if JumpsIn(q, how) {
      IterateNonempty(t, q.greedy, g, u, s, Run(Whole(t), u, s, caps, how), how);
    } else {
      RunAllNonempty(Repeat(t, q.greedy, g), u, outs, how);
    }
    if outs != [] {
      CopiesNonempty(t, q.lower, u, s, caps, how);
    }
  }
}
