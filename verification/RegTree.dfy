/** The parse tree of a pattern, with the notes that setup_tree writes on its quantifiers
    (oniguruma/regint.h, oniguruma/regcomp.c). Only one-byte characters, no case folding. */
module RegTree {
  import opened RegInt
  import opened Wrappers

  /** A repeat count is a C int. */
  type Count = n: int | 0 <= n < 0x8000_0000

  datatype Upper = Infinite | Finite(n: Count)

  datatype AnchorType = AtBufBegin | AtBufEnd | AtBeginPosition

  /** `List` and `Alt` are cons cells as in the source; `Null` is the NULL that ends a chain. */
  datatype Node =
    | Null
    | Empty
    | Str(s: seq<Byte>)
    | CClass(bits: seq<Byte>, negated: bool)
    | AnyChar
    | Anchor(kind: AnchorType)
    | Backref(num: nat)
    | List(left: Node, right: Node)
    | Alt(left: Node, right: Node)
    | Quant(target: Node, lower: Count, upper: Upper, greedy: bool,
            targetEmpty: bool, headExact: Option<Byte>, nextHeadExact: Option<Byte>)
    | Group(num: nat, target: Node)
    | PrecRead(target: Node)
    | PrecReadNot(target: Node)
    | StopBacktrack(target: Node)

  /** BITSET_AT with one-byte rooms. */
  predicate BitsetAt(bits: seq<Byte>, c: Byte)
    requires |bits| == SIZE_BITSET
  {
    bits[c / 8] / Power2(c % 8) % 2 == 1
  }

  function Power2(n: nat): (p: nat)
    ensures p > 0
  {
    if n == 0 then 1 else 2 * Power2(n - 1)
  }

  const QUALIFIER_EXPAND_LIMIT_SIZE := 50

  /** The product `x * k` of the size computations, as the sum of `k` copies. */
  function Times(x: nat, k: nat): nat {
    if k == 0 then 0 else x + Times(x, k - 1)
  }

  lemma {:induction false} TimesIsProduct(x: nat, k: nat)
    ensures Times(x, k) == x * k
  {
    if k > 0 {
      TimesIsProduct(x, k - 1);
    }
  }

  /** How the compiler lays out a quantifier. `Loop(true)` jumps into the loop body instead of
      writing the one mandatory copy in front of it. `Range` is the OP_REPEAT layout. */
  datatype Form = Dots | Loop(jumpIn: bool) | Options | LazyOption | Range

  function FormOf(q: Node, tlen: nat): Form
    requires q.Quant?
  {
    if q.target.AnyChar? && q.greedy && q.upper.Infinite? then Dots
    else if q.upper.Infinite? && (q.lower <= 1 || Times(tlen, q.lower) <= QUALIFIER_EXPAND_LIMIT_SIZE) then
      Loop(q.lower == 1 && tlen > QUALIFIER_EXPAND_LIMIT_SIZE)
    else if q.upper.Finite? && q.greedy && Times(tlen + SIZE_OP_PUSH, q.upper.n) <= QUALIFIER_EXPAND_LIMIT_SIZE then
      Options
    else if !q.greedy && q.upper == Finite(1) && q.lower == 0 then LazyOption
    else Range
  }

  /** What the operation at the head of a greedy loop looks at before it tries the body:
      nothing, the byte every match of the body starts with, or the byte every match of what
      follows the loop starts with. */
  datatype Guard = Always | HeadIs(c: Byte) | NextIs(c: Byte)

  function GuardOf(q: Node): Guard
    requires q.Quant?
  {
    if q.headExact.Some? then HeadIs(q.headExact.value)
    else if q.nextHeadExact.Some? then NextIs(q.nextHeadExact.value)
    else Always
  }

  function PushSize(g: Guard): nat {
    match g
    case Always => SIZE_OP_PUSH
    case HeadIs(_) => SIZE_OP_PUSH_OR_JUMP_EXACT1
    case NextIs(_) => SIZE_OP_PUSH_IF_PEEK_NEXT
  }

  function BodyLength(tlen: nat, checked: bool): nat {
    tlen + (if checked then SIZE_OP_NULL_CHECK_START + SIZE_OP_NULL_CHECK_END else 0)
  }

  /** How many optional copies follow the mandatory ones. */
  function Spare(lower: nat, upper: nat): nat {
    if lower <= upper then upper - lower else 0
  }

  /** compile_length_tree and its helpers. */
  function CompileLength(n: Node): nat {
    match n
    case Null => 0
    case Empty => 0
    case Str(s) => if s == [] then 0 else SIZE_OPCODE + (if |s| > 5 then SIZE_LENGTH else 0) + |s|
    case CClass(_, _) => SIZE_OPCODE + SIZE_BITSET
    case AnyChar => SIZE_OPCODE
    case Anchor(_) => SIZE_OPCODE
    case Backref(k) => if 1 <= k <= 3 then SIZE_OPCODE else SIZE_OPCODE + SIZE_MEMNUM
    case List(l, r) => CompileLength(l) + CompileLength(r)
    case Alt(l, r) =>
      CompileLength(l) + CompileLength(r) + (if r.Null? then 0 else SIZE_OP_PUSH + SIZE_OP_JUMP)
    case Quant(t, lower, upper, greedy, checked, _, next) =>
      var tlen := CompileLength(t);
      var bodyLen := BodyLength(tlen, checked);
      (match FormOf(n, tlen)
       case Dots =>
         Times(tlen, lower) + (if next.Some? then SIZE_OP_ANYCHAR_STAR_PEEK_NEXT else SIZE_OP_ANYCHAR_STAR)
       case Loop(jumpIn) =>
         (if jumpIn then SIZE_OP_JUMP else Times(tlen, lower)) +
         (if greedy then PushSize(GuardOf(n)) + bodyLen + SIZE_OP_JUMP
          else SIZE_OP_JUMP + bodyLen + SIZE_OP_PUSH)
       case Options => Times(tlen, lower) + Times(tlen + SIZE_OP_PUSH, Spare(lower, upper.n))
       case LazyOption => SIZE_OP_PUSH + SIZE_OP_JUMP + tlen
       case Range => SIZE_OP_REPEAT_INC + SIZE_REPEATNUM * 2 + SIZE_MEMNUM + bodyLen + SIZE_OPCODE + SIZE_RELADDR)
    case Group(_, t) => SIZE_OP_MEMORY_START_PUSH + CompileLength(t) + SIZE_OP_MEMORY_END
    case PrecRead(t) => SIZE_OP_PUSH_POS + CompileLength(t) + SIZE_OP_POP_POS
    case PrecReadNot(t) => SIZE_OP_PUSH_POS_NOT + CompileLength(t) + SIZE_OP_FAIL_POS
    case StopBacktrack(t) => SIZE_OP_PUSH_STOP_BT + CompileLength(t) + SIZE_OP_POP_STOP_BT
  }

  /** How the compiler lays out this quantifier. */
  function Layout(q: Node): Form
    requires q.Quant?
  {
    FormOf(q, CompileLength(q.target))
  }

  /** The tree is one the parser makes: class bitsets of the right size, and bounds in order. */
  predicate Sized(n: Node) {
    match n
    case CClass(bits, _) => |bits| == SIZE_BITSET
    case List(l, r) => Sized(l) && Sized(r)
    case Alt(l, r) => Sized(l) && Sized(r)
    case Quant(t, lower, upper, _, _, _, _) => Sized(t) && (upper.Finite? ==> lower <= upper.n)
    case Group(_, t) => Sized(t)
    case PrecRead(t) => Sized(t)
    case PrecReadNot(t) => Sized(t)
    case StopBacktrack(t) => Sized(t)
    case _ => true
  }

  /** The tree stays inside what the machine of this model runs: no counted repeat that needs
      OP_REPEAT, class bitsets of the right size, and operands that fit their fields. */
  predicate Inlined(n: Node) {
    match n
    case Str(s) => |s| < 0x8000
    case CClass(bits, _) => |bits| == SIZE_BITSET
    case Backref(k) => 1 <= k < 0x8000
    case List(l, r) => Inlined(l) && Inlined(r)
    case Alt(l, r) => Inlined(l) && Inlined(r)
    case Quant(t, lower, upper, _, _, _, _) =>
      Inlined(t) && !Layout(n).Range? && (upper.Finite? ==> lower <= upper.n)
    case Group(k, t) => 1 <= k < 0x8000 && Inlined(t)
    case PrecRead(t) => Inlined(t)
    case PrecReadNot(t) => Inlined(t)
    case StopBacktrack(t) => Inlined(t)
    case _ => true
  }

  /** RegDistance is an unsigned int of 32 bits. */
  const DISTANCE_LIMIT := 0x1_0000_0000
  const INFINITE_DISTANCE := DISTANCE_LIMIT - 1

  function DistanceMultiply(d: nat, m: nat): nat
    requires m > 0
  {
    if d < INFINITE_DISTANCE / m then d * m else INFINITE_DISTANCE
  }

  /** get_min_match_length. The minimum over alternatives starts from 0 and so is always 0; the
      sum over a list wraps around. */
  function MinLength(n: Node): nat {
    match n
    case Str(s) => |s|
    case CClass(_, _) => 1
    case AnyChar => 1
    case List(l, r) => (MinLength(l) + MinLength(r)) % DISTANCE_LIMIT
    case Quant(t, lower, _, _, _, _, _) => if lower == 0 then 0 else DistanceMultiply(MinLength(t), lower)
    case Group(_, t) => MinLength(t)
    case StopBacktrack(t) => MinLength(t)
    case _ => 0
  }

  /** The group numbers that occur in a tree. */
  function Groups(n: Node): set<nat> {
    match n
    case List(l, r) => Groups(l) + Groups(r)
    case Alt(l, r) => Groups(l) + Groups(r)
    case Quant(t, _, _, _, _, _, _) => Groups(t)
    case Group(k, t) => {k} + Groups(t)
    case PrecRead(t) => Groups(t)
    case PrecReadNot(t) => Groups(t)
    case StopBacktrack(t) => Groups(t)
    case _ => {}
  }
}
