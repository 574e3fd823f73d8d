/** Every relative address in a compiled program leads to the start of an operation inside the
    program: the code of a tree is a list of operations, and no jump leaves the list or lands in the
    middle of one. */
module RegJumps {
  import opened RegInt
  import opened RegTree
  import opened Wrappers
  import opened RegComp
  import opened RegFacts

  /** The operations with a relative address. */
  predicate HasTarget(i: Instr) {
    i.Jump? || i.Push? || i.PushOrJumpExact1? || i.PushIfPeekNext? || i.PushPosNot? || i.RepeatOp?
  }

  function Bytes(i: Instr): seq<Byte> {
    if i == Exact([]) then [] else Encode(i)
  }

  function EncodeAll(instrs: seq<Instr>): seq<Byte> {
    if instrs == [] then [] else EncodeAll(instrs[..|instrs| - 1]) + Bytes(instrs[|instrs| - 1])
  }

  /** Where operation `k` of a list begins. */
  function Off(instrs: seq<Instr>, k: nat): nat
    requires k <= |instrs|
  {
    |EncodeAll(instrs[..k])|
  }

  /** The address of operation `k` leads to the start of operation `m`, or to the end of the list. */
  predicate LeadsTo(instrs: seq<Instr>, k: nat, m: nat)
    requires k < |instrs| && HasTarget(instrs[k])
  {
    m <= |instrs| && Off(instrs, m) == Off(instrs, k + 1) + instrs[k].addr
  }

  ghost predicate Lands(instrs: seq<Instr>, k: nat)
    requires k < |instrs|
  {
    HasTarget(instrs[k]) ==> exists m: nat :: LeadsTo(instrs, k, m)
  }

  ghost predicate JumpsOk(instrs: seq<Instr>) {
    forall k: nat :: k < |instrs| ==> Lands(instrs, k)
  }

  /** The operands other than addresses fit their fields, when numbers stay below these bounds. */
  predicate Fits(i: Instr, nulls: nat, reps: nat) {
    match i
    case Exact(s) => s != []
    case CClass(bits) => |bits| == SIZE_BITSET
    case CClassNot(bits) => |bits| == SIZE_BITSET
    case Backref(n) => FitsShort(n)
    case MemoryStartPush(n) => FitsShort(n)
    case MemoryEndPush(n) => FitsShort(n)
    case MemoryEnd(n) => FitsShort(n)
    case NullCheckStart(n) => n < nulls
    case NullCheckEnd(n) => n < nulls
    case RepeatOp(n, _, lower, upper, _) =>
      n < reps && -0x8000_0000 <= lower < 0x8000_0000 && -0x8000_0000 <= upper < 0x8000_0000
    case RepeatInc(n, _) => n < reps
    case _ => true
  }

  /** The bytes are those of a list of operations whose addresses stay inside the list. */
  ghost predicate Listed(instrs: seq<Instr>, bytes: seq<Byte>, nulls: nat, reps: nat) {
    EncodeAll(instrs) == bytes && JumpsOk(instrs) && forall k :: 0 <= k < |instrs| ==> Fits(instrs[k], nulls, reps)
  }

  /** Group numbers fit the two bytes they are stored in. */
  predicate Numbered(n: Node) {
    match n
    case Backref(k) => 1 <= k < 0x8000
    case List(l, r) => Numbered(l) && Numbered(r)
    case Alt(l, r) => Numbered(l) && Numbered(r)
    case Quant(t, _, _, _, _, _, _) => Numbered(t)
    case Group(k, t) => 1 <= k < 0x8000 && Numbered(t)
    case PrecRead(t) => Numbered(t)
    case PrecReadNot(t) => Numbered(t)
    case StopBacktrack(t) => Numbered(t)
    case _ => true
  }

  // ----- lists of operations -----

  lemma EncodeOne(i: Instr)
    ensures EncodeAll([i]) == Bytes(i)
  {
    hide Bytes;
    assert [i][..0] == [];
    assert EncodeAll([]) == [];
    assert [] + Bytes(i) == Bytes(i);
  }

  lemma {:induction false} EncodeConcat(a: seq<Instr>, b: seq<Instr>)
    ensures EncodeAll(a + b) == EncodeAll(a) + EncodeAll(b)
    decreases |b|
  {
    hide Bytes;
    if b == [] {
      assert a + b == a;
      assert EncodeAll(a) + [] == EncodeAll(a);
    } else {
      var front, last := b[..|b| - 1], b[|b| - 1];
      assert (a + b)[..|a + b| - 1] == a + front;
      EncodeConcat(a, front);
    }
  }

  /** A list keeps its addresses inside a longer one. */
  lemma StillLands(before: seq<Instr>, a: seq<Instr>, behind: seq<Instr>, k: nat)
    requires k < |a| && Lands(a, k)
    ensures Lands(before + a + behind, |before| + k)
  {
    hide EncodeAll;
    var whole := before + a + behind;
    assert whole[|before| + k] == a[k];
    if HasTarget(a[k]) {
      var m: nat :| LeadsTo(a, k, m);
      OffInside(before, a, behind, m);
      OffInside(before, a, behind, k + 1);
      assert LeadsTo(whole, |before| + k, |before| + m);
    }
  }

  lemma OffInside(before: seq<Instr>, a: seq<Instr>, behind: seq<Instr>, m: nat)
    requires m <= |a|
    ensures Off(before + a + behind, |before| + m) == |EncodeAll(before)| + Off(a, m)
  {
    hide EncodeAll;
    assert (before + a + behind)[..|before| + m] == before + a[..m];
    EncodeConcat(before, a[..m]);
  }

  lemma JumpsConcat(a: seq<Instr>, b: seq<Instr>)
    requires JumpsOk(a) && JumpsOk(b)
    ensures JumpsOk(a + b)
  {
    hide Lands;
    forall k: nat | k < |a + b| ensures Lands(a + b, k) {
      if k < |a| {
        assert [] + a + b == a + b;
        StillLands([], a, b, k);
      } else {
        assert a + b + [] == a + b;
        StillLands(a, b, [], k - |a|);
      }
    }
  }

  /** One operation in front of a list, and possibly one behind it. */
  lemma JumpsAround(x: Instr, a: seq<Instr>, ys: seq<Instr>)
    requires JumpsOk(a) && |ys| <= 1 && Lands([x] + a + ys, 0)
    requires ys != [] ==> Lands([x] + a + ys, |a| + 1)
    ensures JumpsOk([x] + a + ys)
  {
    hide Lands;
    var whole := [x] + a + ys;
    forall k: nat | k < |whole| ensures Lands(whole, k) {
      if 0 < k <= |a| {
        StillLands([x], a, ys, k - 1);
      }
    }
  }

  /** The places in such a list: behind the first operation, in front of the last, and the end. */
  lemma OffAround(x: Instr, a: seq<Instr>, ys: seq<Instr>)
    ensures var whole := [x] + a + ys;
            Off(whole, 0) == 0 && Off(whole, 1) == |Bytes(x)| && Off(whole, |a| + 1) == |Bytes(x)| + |EncodeAll(a)| &&
            Off(whole, |whole|) == |Bytes(x)| + |EncodeAll(a)| + |EncodeAll(ys)| &&
            EncodeAll(whole) == Bytes(x) + (EncodeAll(a) + EncodeAll(ys))
  {
    hide Bytes, EncodeAll;
    var whole := [x] + a + ys;
    EncodeNone();
    EncodeOne(x);
    EncodeConcat([x], a);
    EncodeConcat([x] + a, ys);
    assert whole[..1] == [x];
    assert whole[..|a| + 1] == [x] + a;
    assert whole[..|whole|] == whole;
    assert whole[..0] == [];
    assert Bytes(x) + EncodeAll(a) + EncodeAll(ys) == Bytes(x) + (EncodeAll(a) + EncodeAll(ys));
  }

  lemma ListedConcat(a: seq<Instr>, ab: seq<Byte>, b: seq<Instr>, bb: seq<Byte>, nulls: nat, reps: nat)
    requires Listed(a, ab, nulls, reps) && Listed(b, bb, nulls, reps)
    ensures Listed(a + b, ab + bb, nulls, reps)
  {
    hide JumpsOk, EncodeAll, Fits;
    EncodeConcat(a, b);
    JumpsConcat(a, b);
  }

  lemma ListedNone(nulls: nat, reps: nat)
    ensures Listed([], [], nulls, reps)
  {
  }

  /** One operation without an address. */
  lemma ListedOne(i: Instr, nulls: nat, reps: nat)
    requires Fits(i, nulls, reps) && !HasTarget(i)
    ensures Listed([i], Encode(i), nulls, reps)
  {
    EncodeOne(i);
  }

  lemma ListedWider(a: seq<Instr>, bytes: seq<Byte>, nulls: nat, reps: nat, nulls': nat, reps': nat)
    requires Listed(a, bytes, nulls, reps) && nulls <= nulls' && reps <= reps'
    ensures Listed(a, bytes, nulls', reps')
  {
    hide JumpsOk, EncodeAll;
  }

  /** An operation in front whose address leads to the start, behind itself, in front of the last
      operation or to the end; and one behind, likewise. */
  lemma ListedAround(x: Instr, a: seq<Instr>, bytes: seq<Byte>, y: Instr, nulls: nat, reps: nat)
    requires Listed(a, bytes, nulls, reps) && Fits(x, nulls, reps) && Fits(y, nulls, reps)
    requires HasTarget(x) ==> x.addr == |bytes| || x.addr == |bytes| + |Encode(y)|
    requires HasTarget(y) ==> y.addr == -(|Encode(x)| + |bytes| + |Encode(y)|) || y.addr == -(|bytes| + |Encode(y)|)
    ensures Listed([x] + a + [y], Encode(x) + (bytes + Encode(y)), nulls, reps)
  {
    hide JumpsOk, EncodeAll, Encode;
    var whole := [x] + a + [y];
    OffAround(x, a, [y]);
    EncodeOne(y);
    if HasTarget(x) {
      assert LeadsTo(whole, 0, if x.addr == |bytes| then |a| + 1 else |whole|);
    }
    if HasTarget(y) {
      assert LeadsTo(whole, |a| + 1, if y.addr == -(|bytes| + |Encode(y)|) then 1 else 0);
    }
    JumpsAround(x, a, [y]);
  }

  /** An operation in front whose address leads to the start of operation `m` of the list, or to its end. */
  lemma ListedBefore(x: Instr, a: seq<Instr>, bytes: seq<Byte>, m: nat, nulls: nat, reps: nat)
    requires Listed(a, bytes, nulls, reps) && Fits(x, nulls, reps)
    requires HasTarget(x) ==> m <= |a| && x.addr == Off(a, m)
    ensures Listed([x] + a, Encode(x) + bytes, nulls, reps)
  {
    hide JumpsOk, EncodeAll, Encode;
    var whole := [x] + a + [];
    assert whole == [x] + a;
    OffAround(x, a, []);
    EncodeNone();
    assert bytes + [] == bytes;
    if HasTarget(x) {
      OffInside([x], a, [], m);
      EncodeOne(x);
      assert LeadsTo(whole, 0, m + 1);
    }
    JumpsAround(x, a, []);
  }

  lemma EncodeNone()
    ensures EncodeAll([]) == []
  {
  }

  lemma EndOf(a: seq<Instr>, bytes: seq<Byte>)
    requires EncodeAll(a) == bytes
    ensures Off(a, |a|) == |bytes|
  {
    assert a[..|a|] == a;
  }

  lemma OffConcat(a: seq<Instr>, b: seq<Instr>, m: nat)
    requires m <= |b|
    ensures Off(a + b, |a| + m) == |EncodeAll(a)| + Off(b, m)
  {
    hide EncodeAll;
    assert a + b + [] == a + b;
    OffInside(a, b, [], m);
  }

  lemma OffFirst(x: Instr, a: seq<Instr>)
    ensures Off([x] + a, 1) == |Bytes(x)|
  {
    hide EncodeAll, Bytes;
    assert ([x] + a)[..1] == [x];
    EncodeOne(x);
  }

  // ----- trees -----

  lemma LeafListed(n: Node, stats: set<nat>, id: nat, rep: nat) returns (ops: seq<Instr>)
    requires Sized(n) && Numbered(n)
    requires n.Str? || n.CClass? || n.AnyChar? || n.Anchor? || n.Backref? || n.Null? || n.Empty?
    ensures Listed(ops, Code(n, stats, id, rep), id, rep)
  {
    hide Listed, Encode;
    ListedNone(id, rep);
    ops := [];
    match n
    case Str(s) =>
      if s != [] {
        ops := [Exact(s)];
        ListedOne(ops[0], id, rep);
      }
    case CClass(bits, negated) =>
      ops := [if negated then CClassNot(bits) else Instr.CClass(bits)];
      ListedOne(ops[0], id, rep);
    case AnyChar => ops := [Instr.AnyChar]; ListedOne(ops[0], id, rep);
    case Anchor(kind) => ops := [AnchorInstr(kind)]; ListedOne(ops[0], id, rep);
    case Backref(k) => ops := [Instr.Backref(k)]; ListedOne(ops[0], id, rep);
    case _ =>
  }

  lemma {:induction false} PairListed(n: Node, stats: set<nat>, id: nat, rep: nat) returns (ops: seq<Instr>)
    requires (n.List? || n.Alt?) && Sized(n) && Numbered(n)
    ensures Listed(ops, Code(n, stats, id, rep), id + NullChecks(n), rep + Repeats(n))
    decreases n, 0, 0
  {
    hide Listed, Encode, Code, NullChecks, Repeats, CompileLength, EncodeAll;
    var l, r := n.left, n.right;
    SizedPair(n);
    PairNumbers(n);
    var nulls, reps := id + NullChecks(n), rep + Repeats(n);
    var a := CodeListed(l, stats, id, rep);
    var b := CodeListed(r, stats, id + NullChecks(l), rep + Repeats(l));
    var ab, bb := Code(l, stats, id, rep), Code(r, stats, id + NullChecks(l), rep + Repeats(l));
    ListedWider(a, ab, id + NullChecks(l), rep + Repeats(l), nulls, reps);
    if n.List? {
      ListedConcat(a, ab, b, bb, nulls, reps);
      ListCode(n, stats, id, rep);
      ops := a + b;
    } else if r.Null? {
      LastAltCode(l, r, stats, id, rep);
      ops := a;
    } else {
      AltCode(l, r, stats, id, rep);
      LengthIsCodeSize(l, stats, id, rep);
      LengthIsCodeSize(r, stats, id + NullChecks(l), rep + Repeats(l));
      ops := AltListed(a, ab, b, bb, nulls, reps);
    }
  }

  lemma PairNumbers(n: Node)
    requires n.List? || n.Alt?
    ensures NullChecks(n) == NullChecks(n.left) + NullChecks(n.right)
    ensures Repeats(n) == Repeats(n.left) + Repeats(n.right)
    ensures Numbered(n) ==> Numbered(n.left) && Numbered(n.right)
  {
    hide Layout;
  }

  lemma AltListed(a: seq<Instr>, ab: seq<Byte>, b: seq<Instr>, bb: seq<Byte>, nulls: nat, reps: nat) returns (ops: seq<Instr>)
    requires Listed(a, ab, nulls, reps) && Listed(b, bb, nulls, reps)
    ensures Listed(ops, AltBytes(|ab|, |bb|, ab, bb), nulls, reps)
  {
    hide JumpsOk, EncodeAll, Encode;
    var push, jump := Push(|ab| + SIZE_OP_JUMP), Jump(|bb|);
    SizeOf(jump);
    EndOf(b, bb);
    ListedBefore(jump, b, bb, |b|, nulls, reps);
    var right := [jump] + b;
    ListedConcat(a, ab, right, Encode(jump) + bb, nulls, reps);
    OffConcat(a, right, 1);
    OffFirst(jump, b);
    ListedBefore(push, a + right, ab + (Encode(jump) + bb), |a| + 1, nulls, reps);
    ops := [push] + (a + right);
  }

  lemma {:induction false} EffectListed(n: Node, stats: set<nat>, id: nat, rep: nat) returns (ops: seq<Instr>)
    requires (n.Group? || n.PrecRead? || n.PrecReadNot? || n.StopBacktrack?) && Sized(n) && Numbered(n)
    ensures Listed(ops, Code(n, stats, id, rep), id + NullChecks(n), rep + Repeats(n))
    decreases n, 0, 0
  {
    hide Listed, Encode, Code, NullChecks, Repeats, CompileLength, EncodeAll, JumpsOk;
    var t := n.target;
    SizedTarget(n);
    var a := CodeListed(t, stats, id, rep);
    LengthIsCodeSize(t, stats, id, rep);
    EffectCode(n, stats, id, rep);
    SizeOf(Behind(n, stats));
    ListedAround(Before(n), a, Code(t, stats, id, rep), Behind(n, stats), id + NullChecks(n), rep + Repeats(n));
    ops := [Before(n)] + a + [Behind(n, stats)];
  }

  lemma {:induction false} CopiesListed(t: Node, k: nat, stats: set<nat>, id: nat, rep: nat) returns (ops: seq<Instr>)
    requires Sized(t) && Numbered(t)
    ensures Listed(ops, CopiesCode(t, k, stats, id, rep), id + Times(NullChecks(t), k), rep + Times(Repeats(t), k))
    decreases t, 1, k
  {
    hide Listed, Code, NullChecks, Repeats, EncodeAll;
    var nulls, reps := id + Times(NullChecks(t), k), rep + Times(Repeats(t), k);
    if k == 0 {
      ListedNone(nulls, reps);
      ops := [];
    } else {
      var a := CodeListed(t, stats, id, rep);
      var rest := CopiesListed(t, k - 1, stats, id + NullChecks(t), rep + Repeats(t));
      ListedWider(a, Code(t, stats, id, rep), id + NullChecks(t), rep + Repeats(t), nulls, reps);
      ListedConcat(a, Code(t, stats, id, rep), rest, CopiesCode(t, k - 1, stats, id + NullChecks(t), rep + Repeats(t)), nulls, reps);
      ops := a + rest;
    }
  }

  lemma {:induction false} OptionsListed(t: Node, k: nat, stats: set<nat>, id: nat, rep: nat) returns (ops: seq<Instr>)
    requires Sized(t) && Numbered(t)
    ensures Listed(ops, OptionsCode(t, k, stats, id, rep), id + Times(NullChecks(t), k), rep + Times(Repeats(t), k))
    decreases t, 1, k
  {
    hide Listed, Code, NullChecks, Repeats, EncodeAll, Encode, CompileLength;
    var nulls, reps := id + Times(NullChecks(t), k), rep + Times(Repeats(t), k);
    if k == 0 {
      ListedNone(nulls, reps);
      ops := [];
    } else {
      var code, more := Code(t, stats, id, rep), OptionsCode(t, k - 1, stats, id + NullChecks(t), rep + Repeats(t));
      var a := CodeListed(t, stats, id, rep);
      var rest := OptionsListed(t, k - 1, stats, id + NullChecks(t), rep + Repeats(t));
      ListedWider(a, code, id + NullChecks(t), rep + Repeats(t), nulls, reps);
      ListedConcat(a, code, rest, more, nulls, reps);
      LengthIsCodeSize(t, stats, id, rep);
      OptionsLength(t, k - 1, stats, id + NullChecks(t), rep + Repeats(t));
      ops := EndListed(Push(Times(CompileLength(t) + SIZE_OP_PUSH, k) - SIZE_OP_PUSH), a + rest, code + more, nulls, reps);
    }
  }

  /** An operation whose address leads to the end of what follows it. */
  lemma EndListed(x: Instr, a: seq<Instr>, bytes: seq<Byte>, nulls: nat, reps: nat) returns (ops: seq<Instr>)
    requires Listed(a, bytes, nulls, reps) && (x.Push? || x.Jump?) && x.addr == |bytes|
    ensures Listed(ops, Encode(x) + bytes, nulls, reps) && ops == [x] + a
  {
    hide JumpsOk, EncodeAll, Encode;
    EndOf(a, bytes);
    ListedBefore(x, a, bytes, |a|, nulls, reps);
    ops := [x] + a;
  }

  lemma {:induction false} BodyListed(t: Node, checked: bool, stats: set<nat>, id: nat, rep: nat) returns (ops: seq<Instr>)
    requires Sized(t) && Numbered(t)
    ensures Listed(ops, BodyCode(t, checked, stats, id, rep), id + NullChecks(t) + (if checked then 1 else 0), rep + Repeats(t))
    decreases t, 1, 0
  {
    hide Listed, Code, NullChecks, Repeats, EncodeAll, Encode;
    if checked {
      var a := CodeListed(t, stats, id + 1, rep);
      ListedAround(NullCheckStart(id), a, Code(t, stats, id + 1, rep), NullCheckEnd(id), id + 1 + NullChecks(t), rep + Repeats(t));
      ops := [NullCheckStart(id)] + a + [NullCheckEnd(id)];
    } else {
      ops := CodeListed(t, stats, id, rep);
    }
  }

  lemma {:induction false} LoopListed(q: Node, stats: set<nat>, id: nat, rep: nat) returns (ops: seq<Instr>)
    requires q.Quant? && Sized(q.target) && Numbered(q.target)
    ensures Listed(ops, LoopCode(q.target, q.greedy, q.targetEmpty, GuardOf(q), stats, id, rep),
                   id + NullChecks(q.target) + (if q.targetEmpty then 1 else 0), rep + Repeats(q.target))
    ensures ops != [] && Off(ops, 1) == if q.greedy then PushSize(GuardOf(q)) else SIZE_OP_JUMP
    decreases q.target, 2, 0
  {
    hide Listed, BodyCode, NullChecks, Repeats, EncodeAll, Encode, CompileLength;
    var t, g := q.target, GuardOf(q);
    var len := BodyLength(CompileLength(t), q.targetEmpty);
    var x := if q.greedy then PushInstr(g, len + SIZE_OP_JUMP) else Jump(len);
    var y := if q.greedy then Jump(-(len + SIZE_OP_JUMP + PushSize(g))) else Push(-(len + SIZE_OP_PUSH));
    var a := BodyListed(t, q.targetEmpty, stats, id, rep);
    BodyCodeLength(t, q.targetEmpty, stats, id, rep);
    SizeOf(x);
    SizeOf(y);
    ListedAround(x, a, BodyCode(t, q.targetEmpty, stats, id, rep), y,
                 id + NullChecks(t) + (if q.targetEmpty then 1 else 0), rep + Repeats(t));
    ops := [x] + a + [y];
    OffAround(x, a, [y]);
  }

  lemma {:induction false} RangeListed(q: Node, stats: set<nat>, id: nat, rep: nat) returns (ops: seq<Instr>)
    requires q.Quant? && Sized(q.target) && Numbered(q.target)
    ensures Listed(ops, RangeCode(q, stats, id, rep),
                   id + NullChecks(q.target) + (if q.targetEmpty then 1 else 0), rep + Repeats(q.target) + 1)
    decreases q.target, 2, 0
  {
    hide Listed, BodyCode, NullChecks, Repeats, EncodeAll, Encode, CompileLength;
    var t := q.target;
    var x, y := RepeatInstr(q, rep), RepeatInc(rep, q.greedy);
    var a := BodyListed(t, q.targetEmpty, stats, id, rep + 1);
    BodyCodeLength(t, q.targetEmpty, stats, id, rep + 1);
    SizeOf(y);
    ListedAround(x, a, BodyCode(t, q.targetEmpty, stats, id, rep + 1), y,
                 id + NullChecks(t) + (if q.targetEmpty then 1 else 0), rep + 1 + Repeats(t));
    ops := [x] + a + [y];
  }

  lemma {:induction false} LazyOptionListed(t: Node, stats: set<nat>, id: nat, rep: nat) returns (ops: seq<Instr>)
    requires Sized(t) && Numbered(t)
    ensures Listed(ops, Encode(Push(SIZE_OP_JUMP)) + (Encode(Jump(CompileLength(t))) + Code(t, stats, id, rep)),
                   id + NullChecks(t), rep + Repeats(t))
    decreases t, 1, 0
  {
    hide Listed, Code, NullChecks, Repeats, EncodeAll, Encode, CompileLength;
    var push, jump, code := Push(SIZE_OP_JUMP), Jump(CompileLength(t)), Code(t, stats, id, rep);
    var a := CodeListed(t, stats, id, rep);
    LengthIsCodeSize(t, stats, id, rep);
    var inner := EndListed(jump, a, code, id + NullChecks(t), rep + Repeats(t));
    SizeOf(jump);
    OffFirst(jump, a);
    ListedBefore(push, inner, Encode(jump) + code, 1, id + NullChecks(t), rep + Repeats(t));
    ops := [push] + inner;
  }

  lemma {:induction false} QuantListed(q: Node, stats: set<nat>, id: nat, rep: nat) returns (ops: seq<Instr>)
    requires q.Quant? && Sized(q) && Numbered(q)
    ensures Listed(ops, Code(q, stats, id, rep), id + NullChecks(q), rep + Repeats(q))
    decreases q.target, 3, 0
  {
    hide Listed, Code, NullChecks, Repeats, EncodeAll, Encode, CompileLength, LoopCode, CopiesCode, OptionsCode, RangeCode, FormOf, Times;
    var t := q.target;
    var after, repAfter := id + Times(NullChecks(t), q.lower), rep + Times(Repeats(t), q.lower);
    var nulls, reps := id + NullChecks(q), rep + Repeats(q);
    SizedTarget(q);
    QuantNulls(q);
    QuantRepeats(q);
    QuantIsCode(q, stats, id, rep);
    match Layout(q)
    case Range => ops := RangeListed(q, stats, id, rep);
    case LazyOption => ops := LazyOptionListed(t, stats, id, rep);
    case Loop(jumpIn) =>
      if jumpIn {
        var jump := Jump(if q.greedy then PushSize(GuardOf(q)) else SIZE_OP_JUMP);
        var loop := LoopListed(q, stats, id, rep);
        ListedBefore(jump, loop, LoopCode(t, q.greedy, q.targetEmpty, GuardOf(q), stats, id, rep), 1, nulls, reps);
        ops := [jump] + loop;
      } else {
        var loop := LoopListed(q, stats, after, repAfter);
        ops := BehindCopies(q, loop, LoopCode(t, q.greedy, q.targetEmpty, GuardOf(q), stats, after, repAfter), stats, id, rep);
      }
    case Options =>
      var options := OptionsListed(t, Spare(q.lower, q.upper.n), stats, after, repAfter);
      ops := BehindCopies(q, options, OptionsCode(t, Spare(q.lower, q.upper.n), stats, after, repAfter), stats, id, rep);
    case Dots =>
      var dots := AnyCharStarInstr(q.nextHeadExact);
      ListedOne(dots, nulls, reps);
      ops := BehindCopies(q, [dots], Encode(dots), stats, id, rep);
  }

  lemma {:induction false} BehindCopies(q: Node, rest: seq<Instr>, bytes: seq<Byte>, stats: set<nat>, id: nat, rep: nat) returns (ops: seq<Instr>)
    requires q.Quant? && Sized(q.target) && Numbered(q.target)
    requires Listed(rest, bytes, id + NullChecks(q), rep + Repeats(q))
    requires Times(NullChecks(q.target), q.lower) <= NullChecks(q) && Times(Repeats(q.target), q.lower) <= Repeats(q)
    ensures Listed(ops, CopiesCode(q.target, q.lower, stats, id, rep) + bytes, id + NullChecks(q), rep + Repeats(q))
    decreases q.target, 2, 0
  {
    hide Listed, Code, NullChecks, Repeats, EncodeAll, CopiesCode, Times;
    var t := q.target;
    var copies := CopiesListed(t, q.lower, stats, id, rep);
    var code := CopiesCode(t, q.lower, stats, id, rep);
    ListedWider(copies, code, id + Times(NullChecks(t), q.lower), rep + Times(Repeats(t), q.lower),
                id + NullChecks(q), rep + Repeats(q));
    ListedConcat(copies, code, rest, bytes, id + NullChecks(q), rep + Repeats(q));
    ops := copies + rest;
  }

  /** The code of a tree is a list of operations whose addresses stay inside the list. */
  lemma {:induction false} CodeListed(n: Node, stats: set<nat>, id: nat, rep: nat) returns (ops: seq<Instr>)
    requires Sized(n) && Numbered(n)
    ensures Listed(ops, Code(n, stats, id, rep), id + NullChecks(n), rep + Repeats(n))
    decreases n, 0, 1
  {
    hide Listed, Code, Sized, Numbered, CompileLength, Layout;
    if n.List? || n.Alt? {
      ops := PairListed(n, stats, id, rep);
    } else if n.Quant? {
      ops := QuantListed(n, stats, id, rep);
    } else if n.Group? || n.PrecRead? || n.PrecReadNot? || n.StopBacktrack? {
      ops := EffectListed(n, stats, id, rep);
    } else {
      ops := LeafListed(n, stats, id, rep);
    }
  }

  /** Numbers that are taken once for every copy of the body, and once more for the loop or repeat. */
  lemma NumbersByLayout(q: Node, k: nat)
    requires q.Quant? && k <= CompileLength(q.target)
    ensures match Layout(q)
            case Dots => Times(k, q.lower) <= CompileLength(q)
            case Loop(jumpIn) =>
              (if jumpIn then 0 else Times(k, q.lower)) + k + (if q.targetEmpty then 1 else 0) <= CompileLength(q)
            case Options =>
              q.upper.Finite? ==> Times(k, q.lower) + Times(k, Spare(q.lower, q.upper.n)) <= CompileLength(q)
            case LazyOption => k <= CompileLength(q)
            case Range => k + 1 <= CompileLength(q)
  {
    hide Times, GuardOf, Spare;
    var len := CompileLength(q.target);
    TimesMonotone(k, len, q.lower);
    if q.upper.Finite? { TimesMonotone(k, len + SIZE_OP_PUSH, Spare(q.lower, q.upper.n)); }
  }

  /** Every number costs code, so the numbers fit where the code does. */
  lemma {:induction false} NumbersBounded(n: Node)
    ensures NullChecks(n) <= CompileLength(n) && Repeats(n) <= CompileLength(n)
  {
    hide Times, FormOf, GuardOf, Spare;
    match n
    case List(l, r) => NumbersBounded(l); NumbersBounded(r);
    case Alt(l, r) => NumbersBounded(l); NumbersBounded(r);
    case Quant(t, lower, upper, _, _, _, _) =>
      NumbersBounded(t);
      QuantNulls(n);
      QuantRepeats(n);
      NumbersByLayout(n, NullChecks(t));
      NumbersByLayout(n, Repeats(t));
    case Group(_, t) => NumbersBounded(t);
    case PrecRead(t) => NumbersBounded(t);
    case PrecReadNot(t) => NumbersBounded(t);
    case StopBacktrack(t) => NumbersBounded(t);
    case _ =>
  }

  // ----- decoding -----

  /** Where the `k`-th operation begins, when the code is decoded one operation after the other. */
  function DecodedTo(code: seq<Byte>, k: nat): Option<nat> {
    if k == 0 then Some(0)
    else
      match DecodedTo(code, k - 1)
      case None => None
      case Some(pc) =>
        match Fetch(code, pc)
        case Fetched(_, next) => Some(next)
        case Undefined => None
  }

  ghost predicate Boundary(code: seq<Byte>, pc: int) {
    exists k: nat :: DecodedTo(code, k) == Some(pc)
  }

  lemma OffStep(ops: seq<Instr>, k: nat)
    requires k < |ops|
    ensures EncodeAll(ops[..k + 1]) == EncodeAll(ops[..k]) + Bytes(ops[k])
  {
    hide Bytes;
    assert ops[..k + 1] == ops[..k] + [ops[k]];
    EncodeConcat(ops[..k], [ops[k]]);
    EncodeOne(ops[k]);
  }

  lemma OpPlaced(ops: seq<Instr>, k: nat)
    requires k < |ops|
    ensures Placed(EncodeAll(ops), Off(ops, k), Bytes(ops[k])) && Off(ops, k + 1) == Off(ops, k) + |Bytes(ops[k])|
    ensures Off(ops, k + 1) <= |EncodeAll(ops)|
  {
    hide Bytes, EncodeAll;
    OffStep(ops, k);
    assert ops == ops[..k + 1] + ops[k + 1..];
    EncodeConcat(ops[..k + 1], ops[k + 1..]);
    var a, b, c := EncodeAll(ops[..k]), Bytes(ops[k]), EncodeAll(ops[k + 1..]);
    assert EncodeAll(ops) == (a + b) + c;
    assert ((a + b) + c)[|a|..|a| + |b|] == b;
  }

  lemma FetchOp(ops: seq<Instr>, k: nat)
    requires k < |ops| && Encodable(ops[k])
    ensures Fetch(EncodeAll(ops), Off(ops, k)) == Fetched(ops[k], Off(ops, k + 1))
  {
    hide EncodeAll, Fetch, Encode;
    OpPlaced(ops, k);
    FetchEncoded(EncodeAll(ops), Off(ops, k), ops[k]);
  }

  /** Decoding visits exactly the operations of the list. */
  lemma {:induction false} ListDecodes(ops: seq<Instr>, k: nat)
    requires k <= |ops| && forall i :: 0 <= i < |ops| ==> Encodable(ops[i])
    ensures DecodedTo(EncodeAll(ops), k) == Some(Off(ops, k))
  {
    hide Fetch, Encodable;
    if k == 0 {
      assert ops[..0] == [];
    } else {
      ListDecodes(ops, k - 1);
      FetchOp(ops, k - 1);
    }
  }

  lemma DecodingEnds(ops: seq<Instr>, k: nat)
    requires k > |ops| && forall i :: 0 <= i < |ops| ==> Encodable(ops[i])
    ensures DecodedTo(EncodeAll(ops), k).None?
  {
    hide EncodeAll, Encodable;
    if k > |ops| + 1 {
      DecodingEnds(ops, k - 1);
    } else {
      ListDecodes(ops, |ops|);
      EndOf(ops, EncodeAll(ops));
    }
  }

  lemma OffOrder(ops: seq<Instr>, k: nat)
    requires k <= |ops|
    ensures Off(ops, k) <= |EncodeAll(ops)|
  {
    hide EncodeAll;
    assert ops == ops[..k] + ops[k..];
    EncodeConcat(ops[..k], ops[k..]);
  }

  /** Addresses that stay inside a short program fit their two bytes. */
  lemma ShortEncodable(ops: seq<Instr>, k: nat, nulls: nat, reps: nat)
    requires k < |ops| && Lands(ops, k) && Fits(ops[k], nulls, reps)
    requires |EncodeAll(ops)| < 0x8000 && nulls <= 0x8000 && reps <= 0x8000
    ensures Encodable(ops[k])
  {
    hide EncodeAll, Encode;
    OpPlaced(ops, k);
    OffOrder(ops, k + 1);
    if HasTarget(ops[k]) {
      var m: nat :| LeadsTo(ops, k, m);
      OffOrder(ops, m);
    }
    if ops[k].Exact? { ExactShort(ops[k]); }
  }

  lemma ExactShort(i: Instr)
    requires i.Exact? && i.str != []
    ensures |Bytes(i)| >= |i.str|
  {
  }

  /** The operations of a compiled program, OP_END included. */
  lemma ProgramListed(n: Node, stats: set<nat>) returns (ops: seq<Instr>)
    requires Sized(n) && Numbered(n) && |Program(n, stats)| < 0x8000
    ensures EncodeAll(ops) == Program(n, stats) && JumpsOk(ops) && |ops| > 0 && ops[|ops| - 1] == End
    ensures forall k: nat, m: nat :: k < |ops| && HasTarget(ops[k]) && LeadsTo(ops, k, m) ==> Off(ops, m) < |Program(n, stats)|
    ensures forall k :: 0 <= k < |ops| ==> Encodable(ops[k])
  {
    hide Code, EncodeAll, Sized, Numbered, JumpsOk, Fits, NullChecks, Repeats, CompileLength, Encodable;
    var a := CodeListed(n, stats, 0, 0);
    ops := a + [End];
    EncodeOne(End);
    EncodeConcat(a, [End]);
    EndStands(NullChecks(n), Repeats(n));
    JumpsConcat(a, [End]);
    LengthIsCodeSize(n, stats, 0, 0);
    NumbersBounded(n);
    forall k: nat | k < |ops| ensures Encodable(ops[k]) {
      LandsAt(ops, k);
      assert ops[k] == if k < |a| then a[k] else End;
      ShortEncodable(ops, k, NullChecks(n), Repeats(n));
    }
    forall k: nat, m: nat | k < |ops| && HasTarget(ops[k]) && LeadsTo(ops, k, m) ensures Off(ops, m) < |Program(n, stats)| {
      assert ops == a + [End];
      InsideTree(a, k, m);
    }
  }

  lemma EndStands(nulls: nat, reps: nat)
    ensures JumpsOk([End]) && Fits(End, nulls, reps) && !HasTarget(End)
  {
  }

  lemma LandsAt(ops: seq<Instr>, k: nat)
    requires JumpsOk(ops) && k < |ops|
    ensures Lands(ops, k)
  {
  }

  /** No address leads behind OP_END. */
  lemma InsideTree(a: seq<Instr>, k: nat, m: nat)
    requires JumpsOk(a) && k < |a| + 1 && HasTarget((a + [End])[k]) && LeadsTo(a + [End], k, m)
    ensures Off(a + [End], m) < |EncodeAll(a + [End])|
  {
    hide EncodeAll, JumpsOk;
    LandsAt(a, k);
    var m': nat :| LeadsTo(a, k, m');
    OffOrder(a, m');
    EncodeOne(End);
    EncodeConcat(a, [End]);
    assert (a + [End])[..k + 1] == a[..k + 1];
  }

  /** In a compiled program short enough for two-byte addresses, decoding one operation after the other
      runs from the start to OP_END, and the address of every operation it comes by leads to the
      start of an operation inside the program. */
  lemma JumpsLand(n: Node, stats: set<nat>, k: nat, pc: nat)
    requires Sized(n) && Numbered(n) && |Program(n, stats)| < 0x8000
    requires DecodedTo(Program(n, stats), k) == Some(pc)
    ensures pc <= |Program(n, stats)| && (pc < |Program(n, stats)| ==> Fetch(Program(n, stats), pc).Fetched?)
    ensures pc < |Program(n, stats)| ==>
              var f := Fetch(Program(n, stats), pc);
              HasTarget(f.instr) ==>
                0 <= f.next + f.instr.addr < |Program(n, stats)| && Boundary(Program(n, stats), f.next + f.instr.addr)
  {
    hide Program, EncodeAll, Sized, Numbered, JumpsOk, Fetch, Encodable, DecodedTo;
    var ops := ProgramListed(n, stats);
    if k > |ops| {
      DecodingEnds(ops, k);
      assert false;
    }
    ListDecodes(ops, k);
    OffOrder(ops, k);
    if k == |ops| {
      EndOf(ops, EncodeAll(ops));
    } else {
      FetchOp(ops, k);
      if HasTarget(ops[k]) {
        LandsAt(ops, k);
        var m: nat :| LeadsTo(ops, k, m);
        ListDecodes(ops, m);
      }
    }
  }

  /** The start of the tree and OP_END behind it are such starts. */
  lemma ProgramBoundaries(n: Node, stats: set<nat>)
    requires Sized(n) && Numbered(n) && |Program(n, stats)| < 0x8000
    ensures Boundary(Program(n, stats), 0) && Boundary(Program(n, stats), CompileLength(n))
    ensures Boundary(Program(n, stats), |Program(n, stats)|)
  {
    hide Code, EncodeAll, Sized, Numbered, JumpsOk, Fetch, Encodable, CompileLength;
    var ops := ProgramListed(n, stats);
    LengthIsCodeSize(n, stats, 0, 0);
    ListDecodes(ops, 0);
    ListDecodes(ops, |ops| - 1);
    ListDecodes(ops, |ops|);
    EndOf(ops, EncodeAll(ops));
    OpPlaced(ops, |ops| - 1);
  }
}
