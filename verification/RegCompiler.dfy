/** The compiler in its own form: compile_tree and its helpers append to the growing byte
    buffer at the head of the regex structure (oniguruma/regcomp.c, oniguruma/regint.h). */
module RegCompiler {
  import opened RegInt
  import opened RegTree
  import opened RegComp

  class Regex {
    /** BBuf: the allocated bytes and how many of them are in use. */
    var p: array<Byte>
    var used: nat
    var numNullCheck: nat
    var numRepeat: nat
    const memStats: set<nat>

    ghost predicate Valid()
      reads this
    {
      used <= p.Length && 0 < p.Length
    }

    ghost function Bytes(): seq<Byte>
      requires Valid()
      reads this, p
    {
      p[..used]
    }

    constructor (size: nat, memStats: set<nat>)
      requires 0 < size
      ensures Valid() && fresh(p) && Bytes() == [] && numNullCheck == 0 && numRepeat == 0 && this.memStats == memStats
    {
      p := new Byte[size];
      used := 0;
      numNullCheck, numRepeat := 0, 0;
      this.memStats := memStats;
    }

    /** BBUF_EXPAND. */
    method Expand(low: nat)
      requires Valid()
      modifies this`p
      ensures Valid() && fresh(p) && low <= p.Length && Bytes() == old(Bytes())
    {
      var alloc := 2 * p.Length;
      while alloc < low
        invariant 2 * p.Length <= alloc
      {
        alloc := 2 * alloc;
      }
      var q := new Byte[alloc];
      forall i | 0 <= i < used {
        q[i] := p[i];
      }
      p := q;
      assert q[..used] == old(p[..used]);
    }

    /** BBUF_ADD. */
    method Add(bytes: seq<Byte>)
      requires Valid()
      modifies this`p, this`used, p
      ensures Valid() && (p == old(p) || fresh(p))
      ensures Bytes() == old(Bytes()) + bytes
    {
      ghost var before := Bytes();
      if p.Length < used + |bytes| {
        Expand(used + |bytes|);
      }
      forall i | 0 <= i < |bytes| {
        p[used + i] := bytes[i];
      }
      used := used + |bytes|;
      assert p[..used] == before + bytes;
    }

    /** add_opcode. */
    method AddOpcode(op: Byte)
      requires Valid()
      modifies this`p, this`used, p
      ensures Valid() && (p == old(p) || fresh(p))
      ensures Bytes() == old(Bytes()) + [op]
      ensures op == OP_PUSH_POS ==> Bytes() == old(Bytes()) + Encode(PushPos)
      ensures op == OP_POP_POS ==> Bytes() == old(Bytes()) + Encode(PopPos)
      ensures op == OP_FAIL_POS ==> Bytes() == old(Bytes()) + Encode(FailPos)
      ensures op == OP_PUSH_STOP_BT ==> Bytes() == old(Bytes()) + Encode(PushStopBt)
      ensures op == OP_POP_STOP_BT ==> Bytes() == old(Bytes()) + Encode(PopStopBt)
    {
      Add([op]);
    }

    /** add_opcode_rel_addr. */
    method AddOpcodeRelAddr(op: Byte, addr: int)
      requires Valid()
      modifies this`p, this`used, p
      ensures Valid() && (p == old(p) || fresh(p))
      ensures Bytes() == old(Bytes()) + ([op] + Short(addr))
      ensures op == OP_JUMP ==> Bytes() == old(Bytes()) + Encode(Jump(addr))
      ensures op == OP_PUSH ==> Bytes() == old(Bytes()) + Encode(Push(addr))
      ensures op == OP_PUSH_POS_NOT ==> Bytes() == old(Bytes()) + Encode(PushPosNot(addr))
    {
      Add([op]);
      Add(Short(addr));
      assert Bytes() == old(Bytes()) + ([op] + Short(addr));
    }

    /** add_opcode and add_mem_num; a number that does not fit a short is cut off. */
    method AddOpcodeMemNum(op: Byte, num: nat)
      requires Valid()
      modifies this`p, this`used, p
      ensures Valid() && (p == old(p) || fresh(p))
      ensures Bytes() == old(Bytes()) + ([op] + Short(num))
      ensures op == OP_NULL_CHECK_START ==> Bytes() == old(Bytes()) + Encode(NullCheckStart(num))
      ensures op == OP_NULL_CHECK_END ==> Bytes() == old(Bytes()) + Encode(NullCheckEnd(num))
      ensures op == OP_MEMORY_START_PUSH ==> Bytes() == old(Bytes()) + Encode(MemoryStartPush(num))
      ensures op == OP_MEMORY_END_PUSH ==> Bytes() == old(Bytes()) + Encode(MemoryEndPush(num))
      ensures op == OP_MEMORY_END ==> Bytes() == old(Bytes()) + Encode(MemoryEnd(num))
      ensures op == OP_REPEAT_INC ==> Bytes() == old(Bytes()) + Encode(RepeatInc(num, true))
      ensures op == OP_REPEAT_INC_NG ==> Bytes() == old(Bytes()) + Encode(RepeatInc(num, false))
    {
      AddOpcodeRelAddr(op, num);
    }

    /** add_compile_string. */
    method AddString(s: seq<Byte>)
      requires Valid() && s != []
      modifies this`p, this`used, p
      ensures Valid() && (p == old(p) || fresh(p))
      ensures Bytes() == old(Bytes()) + EncodeExact(s)
    {
      if |s| <= 5 {
        Add([OP_EXACT1 + |s| - 1]);
        Add(s);
        assert Bytes() == old(Bytes()) + ([OP_EXACT1 + |s| - 1] + s);
      } else {
        AddOpcodeRelAddr(OP_EXACTN, |s|);
        Add(s);
        assert Bytes() == old(Bytes()) + ([OP_EXACTN] + Short(|s|) + s);
      }
    }

    method CompileLeaf(n: Node)
      requires Valid() && Sized(n)
      requires n.Null? || n.Empty? || n.Str? || n.CClass? || n.AnyChar? || n.Anchor? || n.Backref?
      modifies this`p, this`used, p
      ensures Valid() && (p == old(p) || fresh(p))
      ensures Bytes() == old(Bytes()) + Code(n, memStats, numNullCheck, numRepeat)
    {
      hide EncodeExact;
      match n {
        case Null => assert old(Bytes()) + [] == Bytes();
        case Empty => assert old(Bytes()) + [] == Bytes();
        case Str(s) =>
          if s != [] {
            AddString(s);
          } else {
            assert old(Bytes()) + [] == Bytes();
          }
        case CClass(bits, negated) =>
          Add([if negated then OP_CCLASS_NOT else OP_CCLASS]);
          Add(bits);
          assert Bytes() == old(Bytes()) + ([if negated then OP_CCLASS_NOT else OP_CCLASS] + bits);
        case AnyChar => Add([OP_ANYCHAR]);
        case Anchor(kind) =>
          Add([match kind case AtBufBegin => OP_BEGIN_BUF case AtBufEnd => OP_END_BUF case AtBeginPosition => OP_BEGIN_POSITION]);
        case Backref(k) =>
          if 1 <= k <= 3 {
            Add([OP_BACKREF1 + k - 1]);
          } else {
            AddOpcodeMemNum(OP_BACKREFN, k);
          }
      }
    }

    /** compile_tree_n_times. */
    method CompileTimes(t: Node, k: nat)
      requires Valid() && Sized(t)
      modifies this, p
      ensures Valid() && (p == old(p) || fresh(p))
      ensures Bytes() == old(Bytes()) + CopiesCode(t, k, memStats, old(numNullCheck), old(numRepeat))
      ensures numNullCheck == old(numNullCheck) + Times(NullChecks(t), k)
      ensures numRepeat == old(numRepeat) + Times(Repeats(t), k)
      decreases t, 1, k
    {
      hide Code, NullChecks, Repeats, Sized;
      assert old(Bytes()) + [] == old(Bytes());
      var i := 0;
      while i < k
        invariant 0 <= i <= k && Valid() && (p == old(p) || fresh(p))
        invariant Bytes() + CopiesCode(t, k - i, memStats, numNullCheck, numRepeat) ==
                  old(Bytes()) + CopiesCode(t, k, memStats, old(numNullCheck), old(numRepeat))
        invariant numNullCheck + Times(NullChecks(t), k - i) == old(numNullCheck) + Times(NullChecks(t), k)
        invariant numRepeat + Times(Repeats(t), k - i) == old(numRepeat) + Times(Repeats(t), k)
      {
        ghost var b, id, rep := Bytes(), numNullCheck, numRepeat;
        CompileTree(t);
        i := i + 1;
        assert b + (Code(t, memStats, id, rep) + CopiesCode(t, k - i, memStats, numNullCheck, numRepeat)) ==
               Bytes() + CopiesCode(t, k - i, memStats, numNullCheck, numRepeat);
      }
      assert Bytes() + [] == Bytes();
    }

    /** The optional copies of a bounded quantifier. */
    method CompileOptions(t: Node, n: nat)
      requires Valid() && Sized(t)
      modifies this, p
      ensures Valid() && (p == old(p) || fresh(p))
      ensures Bytes() == old(Bytes()) + OptionsCode(t, n, memStats, old(numNullCheck), old(numRepeat))
      ensures numNullCheck == old(numNullCheck) + Times(NullChecks(t), n)
      ensures numRepeat == old(numRepeat) + Times(Repeats(t), n)
      decreases t, 1, n
    {
      hide Code, NullChecks, Repeats, Sized, CompileLength, Encode, Short;
      assert old(Bytes()) + [] == old(Bytes());
      var tlen := CompileLength(t);
      var i := 0;
      while i < n
        invariant 0 <= i <= n && Valid() && (p == old(p) || fresh(p))
        invariant Bytes() + OptionsCode(t, n - i, memStats, numNullCheck, numRepeat) ==
                  old(Bytes()) + OptionsCode(t, n, memStats, old(numNullCheck), old(numRepeat))
        invariant numNullCheck + Times(NullChecks(t), n - i) == old(numNullCheck) + Times(NullChecks(t), n)
        invariant numRepeat + Times(Repeats(t), n - i) == old(numRepeat) + Times(Repeats(t), n)
      {
        ghost var b, id, rep := Bytes(), numNullCheck, numRepeat;
        OptionAddress(tlen, n - i);
        var addr := (n - i) * tlen + (n - i - 1) * SIZE_OP_PUSH;
        AddOpcodeRelAddr(OP_PUSH, addr);
        CompileTree(t);
        i := i + 1;
        AppendThree(b, Encode(Push(addr)), Code(t, memStats, id, rep), OptionsCode(t, n - i, memStats, numNullCheck, numRepeat));
      }
      assert Bytes() + [] == Bytes();
    }

    /** compile_tree_empty_check. */
    method CompileChecked(t: Node, checked: bool)
      requires Valid() && Sized(t)
      modifies this, p
      ensures Valid() && (p == old(p) || fresh(p))
      ensures Bytes() == old(Bytes()) + BodyCode(t, checked, memStats, old(numNullCheck), old(numRepeat))
      ensures numNullCheck == old(numNullCheck) + NullChecks(t) + (if checked then 1 else 0)
      ensures numRepeat == old(numRepeat) + Repeats(t)
      decreases t, 1, 0
    {
      hide Code, NullChecks, Repeats, Sized, Encode, Short;
      var saved := numNullCheck;
      ghost var rep := numRepeat;
      if checked {
        AddOpcodeMemNum(OP_NULL_CHECK_START, numNullCheck);
        numNullCheck := numNullCheck + 1;
      }
      CompileTree(t);
      if checked {
        AddOpcodeMemNum(OP_NULL_CHECK_END, saved);
        assert Bytes() == old(Bytes()) + (Encode(NullCheckStart(saved)) + (Code(t, memStats, saved + 1, rep) + Encode(NullCheckEnd(saved))));
      }
    }

    /** The OP_PUSH variants at the head of a greedy loop. */
    method AddPush(g: Guard, addr: int)
      requires Valid()
      modifies this`p, this`used, p
      ensures Valid() && (p == old(p) || fresh(p))
      ensures Bytes() == old(Bytes()) + Encode(PushInstr(g, addr))
    {
      match g {
        case Always => AddOpcodeRelAddr(OP_PUSH, addr);
        case HeadIs(c) =>
          AddOpcodeRelAddr(OP_PUSH_OR_JUMP_EXACT1, addr);
          Add([c]);
          assert Bytes() == old(Bytes()) + ([OP_PUSH_OR_JUMP_EXACT1] + Short(addr) + [c]);
        case NextIs(c) =>
          AddOpcodeRelAddr(OP_PUSH_IF_PEEK_NEXT, addr);
          Add([c]);
          assert Bytes() == old(Bytes()) + ([OP_PUSH_IF_PEEK_NEXT] + Short(addr) + [c]);
      }
    }

    /** The loop of an unbounded quantifier. */
    method CompileLoop(q: Node)
      requires Valid() && q.Quant? && Sized(q.target)
      modifies this, p
      ensures Valid() && (p == old(p) || fresh(p))
      ensures Bytes() == old(Bytes()) + LoopCode(q.target, q.greedy, q.targetEmpty, GuardOf(q), memStats, old(numNullCheck), old(numRepeat))
      ensures numNullCheck == old(numNullCheck) + NullChecks(q.target) + (if q.targetEmpty then 1 else 0)
      ensures numRepeat == old(numRepeat) + Repeats(q.target)
      decreases q.target, 2, 0
    {
      hide BodyCode, NullChecks, Repeats, Sized, CompileLength, GuardOf, PushSize, Encode, Short;
      var g := GuardOf(q);
      var modTlen := BodyLength(CompileLength(q.target), q.targetEmpty);
      ghost var body := BodyCode(q.target, q.targetEmpty, memStats, numNullCheck, numRepeat);
      if q.greedy {
        AddPush(g, modTlen + SIZE_OP_JUMP);
        CompileLoopEnd(q.target, q.targetEmpty, OP_JUMP, -(modTlen + SIZE_OP_JUMP + PushSize(g)));
        AppendTwo(old(Bytes()), Encode(PushInstr(g, modTlen + SIZE_OP_JUMP)), body + Encode(Jump(-(modTlen + SIZE_OP_JUMP + PushSize(g)))));
      } else {
        AddOpcodeRelAddr(OP_JUMP, modTlen);
        CompileLoopEnd(q.target, q.targetEmpty, OP_PUSH, -(modTlen + SIZE_OP_PUSH));
        AppendTwo(old(Bytes()), Encode(Jump(modTlen)), body + Encode(Push(-(modTlen + SIZE_OP_PUSH))));
      }
    }

    /** The body of a loop and the operation that leads back. */
    method CompileLoopEnd(t: Node, checked: bool, opcode: Byte, addr: int)
      requires Valid() && Sized(t) && (opcode == OP_JUMP || opcode == OP_PUSH)
      modifies this, p
      ensures Valid() && (p == old(p) || fresh(p))
      ensures Bytes() == old(Bytes()) + (BodyCode(t, checked, memStats, old(numNullCheck), old(numRepeat)) + Encode(if opcode == OP_JUMP then Jump(addr) else Push(addr)))
      ensures numNullCheck == old(numNullCheck) + NullChecks(t) + (if checked then 1 else 0)
      ensures numRepeat == old(numRepeat) + Repeats(t)
      decreases t, 1, 1
    {
      hide BodyCode, NullChecks, Repeats, Sized, Encode, Short;
      ghost var body := BodyCode(t, checked, memStats, numNullCheck, numRepeat);
      CompileChecked(t, checked);
      AddOpcodeRelAddr(opcode, addr);
      AppendTwo(old(Bytes()), body, Encode(if opcode == OP_JUMP then Jump(addr) else Push(addr)));
    }

    /** The layout of `t??`. */
    method CompileLazyOption(q: Node)
      requires Valid() && q.Quant? && Sized(q) && Layout(q) == LazyOption
      modifies this, p
      ensures Valid() && (p == old(p) || fresh(p))
      ensures Bytes() == old(Bytes()) + QuantCode(q, memStats, old(numNullCheck), old(numRepeat))
      ensures numNullCheck == old(numNullCheck) + NullChecks(q)
      ensures numRepeat == old(numRepeat) + Repeats(q)
      decreases q.target, 2, 1
    {
      hide Code, CompileLength, Layout, Encode, Short, Sized, NullChecks, Repeats;
      QuantNulls(q);
      QuantRepeats(q);
      SizedTarget(q);
      ghost var id, rep := numNullCheck, numRepeat;
      AddOpcodeRelAddr(OP_PUSH, SIZE_OP_JUMP);
      AddOpcodeRelAddr(OP_JUMP, CompileLength(q.target));
      CompileTree(q.target);
      AppendThree(old(Bytes()), Encode(Push(SIZE_OP_JUMP)), Encode(Jump(CompileLength(q.target))), Code(q.target, memStats, id, rep));
    }

    /** add_repeat_num. */
    method AddRepeatNum(num: int)
      requires Valid()
      modifies this`p, this`used, p
      ensures Valid() && (p == old(p) || fresh(p))
      ensures Bytes() == old(Bytes()) + Word(num)
    {
      Add(Word(num));
    }

    /** The operation at the head of a counted repeat, with its number, address and bounds. */
    method AddRepeat(q: Node, targetLen: nat, num: nat)
      requires Valid() && q.Quant? && targetLen == BodyLength(CompileLength(q.target), q.targetEmpty)
      modifies this`p, this`used, p
      ensures Valid() && (p == old(p) || fresh(p))
      ensures Bytes() == old(Bytes()) + Encode(RepeatInstr(q, num))
    {
      hide CompileLength, Short, Word;
      var op := if q.greedy then OP_REPEAT else OP_REPEAT_NG;
      AddOpcodeMemNum(op, num);
      Add(Short(targetLen + SIZE_OP_REPEAT_INC));
      AddRepeatNum(q.lower);
      AddRepeatNum(UpperNum(q.upper));
      assert Bytes() == old(Bytes()) +
             ([op] + Short(num) + Short(targetLen + SIZE_OP_REPEAT_INC) + Word(q.lower) + Word(UpperNum(q.upper)));
    }

    /** compile_range_repeat_node. */
    method CompileRange(q: Node)
      requires Valid() && q.Quant? && Sized(q) && Layout(q).Range?
      modifies this, p
      ensures Valid() && (p == old(p) || fresh(p))
      ensures Bytes() == old(Bytes()) + QuantCode(q, memStats, old(numNullCheck), old(numRepeat))
      ensures numNullCheck == old(numNullCheck) + NullChecks(q)
      ensures numRepeat == old(numRepeat) + Repeats(q)
      decreases q.target, 2, 1
    {
      hide BodyCode, CompileLength, Layout, Encode, Short, Sized, NullChecks, Repeats;
      QuantNulls(q);
      QuantRepeats(q);
      SizedTarget(q);
      var saved := numRepeat;
      ghost var id := numNullCheck;
      AddRepeat(q, BodyLength(CompileLength(q.target), q.targetEmpty), numRepeat);
      numRepeat := numRepeat + 1;
      CompileChecked(q.target, q.targetEmpty);
      AddOpcodeMemNum(if q.greedy then OP_REPEAT_INC else OP_REPEAT_INC_NG, saved);
      AppendThree(old(Bytes()), Encode(RepeatInstr(q, saved)), BodyCode(q.target, q.targetEmpty, memStats, id, saved + 1),
                  Encode(RepeatInc(saved, q.greedy)));
    }

    /** compile_qualifier_node. */
    method CompileQualifier(q: Node)
      requires Valid() && q.Quant? && Sized(q)
      modifies this, p
      ensures Valid() && (p == old(p) || fresh(p))
      ensures Bytes() == old(Bytes()) + QuantCode(q, memStats, old(numNullCheck), old(numRepeat))
      ensures numNullCheck == old(numNullCheck) + NullChecks(q)
      ensures numRepeat == old(numRepeat) + Repeats(q)
      decreases q.target, 3, 0
    {
      hide LoopCode, CopiesCode, OptionsCode, Code, CompileLength, GuardOf, Layout, Times, Encode, Short, Sized, NullChecks, Repeats, PushSize,
           AnyCharStarInstr;
      QuantNulls(q);
      QuantRepeats(q);
      SizedTarget(q);
      var layout := Layout(q);
      if layout == LazyOption {
        CompileLazyOption(q);
        return;
      }
      if layout == Range {
        CompileRange(q);
        return;
      }
      if layout == Loop(true) {
        AddOpcodeRelAddr(OP_JUMP, if q.greedy then PushSize(GuardOf(q)) else SIZE_OP_JUMP);
      } else {
        CompileTimes(q.target, q.lower);
      }
      ghost var front, b1 := Bytes()[|old(Bytes())|..], Bytes();
      CompileRest(q);
      AppendTwo(old(Bytes()), front, Bytes()[|b1|..]);
    }

    /** What follows the mandatory copies of a quantifier. */
    method CompileRest(q: Node)
      requires Valid() && q.Quant? && Sized(q) && Layout(q) != LazyOption && !Layout(q).Range?
      modifies this, p
      ensures Valid() && (p == old(p) || fresh(p))
      ensures Bytes() == old(Bytes()) +
              (if Layout(q).Dots? then Encode(AnyCharStarInstr(q.nextHeadExact))
               else if Layout(q).Loop? then LoopCode(q.target, q.greedy, q.targetEmpty, GuardOf(q), memStats, old(numNullCheck), old(numRepeat))
               else OptionsCode(q.target, Spare(q.lower, q.upper.n), memStats, old(numNullCheck), old(numRepeat)))
      ensures numNullCheck == old(numNullCheck) +
              (if Layout(q).Dots? then 0
               else if Layout(q).Loop? then NullChecks(q.target) + (if q.targetEmpty then 1 else 0)
               else Times(NullChecks(q.target), Spare(q.lower, q.upper.n)))
      ensures numRepeat == old(numRepeat) +
              (if Layout(q).Dots? then 0
               else if Layout(q).Loop? then Repeats(q.target)
               else Times(Repeats(q.target), Spare(q.lower, q.upper.n)))
      decreases q.target, 2, 1
    {
      hide LoopCode, OptionsCode, CompileLength, GuardOf, Layout, Times, NullChecks, Repeats, Sized;
      QuantNulls(q);
      SizedTarget(q);
      match Layout(q) {
        case Dots =>
          if q.nextHeadExact.Some? {
            Add([OP_ANYCHAR_STAR_PEEK_NEXT, q.nextHeadExact.value]);
          } else {
            Add([OP_ANYCHAR_STAR]);
          }
        case Loop(_) => CompileLoop(q);
        case Options => CompileOptions(q.target, q.upper.n - q.lower);
      }
    }

    /** compile_effect_node up to the target. */
    method AddBefore(n: Node)
      requires Valid() && (n.Group? || n.PrecRead? || n.PrecReadNot? || n.StopBacktrack?)
      modifies this`p, this`used, p
      ensures Valid() && (p == old(p) || fresh(p))
      ensures Bytes() == old(Bytes()) + Encode(Before(n))
    {
      hide Encode, Short;
      match n {
        case Group(k, _) => AddOpcodeMemNum(OP_MEMORY_START_PUSH, k);
        case PrecRead(_) => AddOpcode(OP_PUSH_POS);
        case PrecReadNot(t) => AddOpcodeRelAddr(OP_PUSH_POS_NOT, CompileLength(t) + SIZE_OP_FAIL_POS);
        case StopBacktrack(_) => AddOpcode(OP_PUSH_STOP_BT);
      }
    }

    method AddBehind(n: Node)
      requires Valid() && (n.Group? || n.PrecRead? || n.PrecReadNot? || n.StopBacktrack?)
      modifies this`p, this`used, p
      ensures Valid() && (p == old(p) || fresh(p))
      ensures Bytes() == old(Bytes()) + Encode(Behind(n, memStats))
    {
      hide Encode, Short;
      match n {
        case Group(k, _) => AddOpcodeMemNum(if k in memStats then OP_MEMORY_END_PUSH else OP_MEMORY_END, k);
        case PrecRead(_) => AddOpcode(OP_POP_POS);
        case PrecReadNot(_) => AddOpcode(OP_FAIL_POS);
        case StopBacktrack(_) => AddOpcode(OP_POP_STOP_BT);
      }
    }

    /** compile_effect_node. */
    method CompileEffect(n: Node)
      requires Valid() && Sized(n) && (n.Group? || n.PrecRead? || n.PrecReadNot? || n.StopBacktrack?)
      modifies this, p
      ensures Valid() && (p == old(p) || fresh(p))
      ensures Bytes() == old(Bytes()) + Code(n, memStats, old(numNullCheck), old(numRepeat))
      ensures numNullCheck == old(numNullCheck) + NullChecks(n)
      ensures numRepeat == old(numRepeat) + Repeats(n)
      decreases n, 0, 0
    {
      hide Code, NullChecks, Repeats, Sized, Encode, Before, Behind;
      ghost var id, rep := numNullCheck, numRepeat;
      SizedTarget(n);
      AddBefore(n);
      CompileTree(n.target);
      AddBehind(n);
      EffectCode(n, memStats, id, rep);
      assert Bytes() == old(Bytes()) + (Encode(Before(n)) + (Code(n.target, memStats, id, rep) + Encode(Behind(n, memStats))));
    }

    /** The loop over the cells of a list. */
    method CompileList(n: Node)
      requires Valid() && Sized(n) && n.List?
      modifies this, p
      ensures Valid() && (p == old(p) || fresh(p))
      ensures Bytes() == old(Bytes()) + Code(n, memStats, old(numNullCheck), old(numRepeat))
      ensures numNullCheck == old(numNullCheck) + NullChecks(n)
      ensures numRepeat == old(numRepeat) + Repeats(n)
      decreases n, 0, 0
    {
      hide Code, NullChecks, Repeats, Sized;
      var x := n;
      while x.List?
        invariant Valid() && (p == old(p) || fresh(p)) && Sized(x) && (x == n || x < n)
        invariant Bytes() + Code(x, memStats, numNullCheck, numRepeat) == old(Bytes()) + Code(n, memStats, old(numNullCheck), old(numRepeat))
        invariant numNullCheck + NullChecks(x) == old(numNullCheck) + NullChecks(n)
        invariant numRepeat + Repeats(x) == old(numRepeat) + Repeats(n)
        decreases x
      {
        ghost var b, id, rep := Bytes(), numNullCheck, numRepeat;
        SizedPair(x);
        ListCode(x, memStats, id, rep);
        ListSize(x);
        CompileTree(x.left);
        assert b + (Code(x.left, memStats, id, rep) + Code(x.right, memStats, numNullCheck, numRepeat)) ==
               Bytes() + Code(x.right, memStats, numNullCheck, numRepeat);
        x := x.right;
      }
      CompileTree(x);
    }

    /** One alternative: every one but the last has an OP_PUSH before it and an OP_JUMP to the
        common end `pos` behind it. */
    method CompileAlternative(x: Node, pos: nat)
      requires Valid() && Sized(x) && x.Alt? && pos == used + CompileLength(x)
      modifies this, p
      ensures Valid() && (p == old(p) || fresh(p))
      ensures pos == used + CompileLength(x.right)
      ensures Bytes() + Code(x.right, memStats, numNullCheck, numRepeat) == old(Bytes()) + Code(x, memStats, old(numNullCheck), old(numRepeat))
      ensures numNullCheck + NullChecks(x.right) == old(numNullCheck) + NullChecks(x)
      ensures numRepeat + Repeats(x.right) == old(numRepeat) + Repeats(x)
      decreases x, 0, 0
    {
      hide Code, Sized, NullChecks, Repeats, CompileLength, Encode, Short;
      ghost var b, id, rep := Bytes(), numNullCheck, numRepeat;
      var l, r := x.left, x.right;
      var len := CompileLength(l);
      AltSize(l, r);
      SizedPair(x);
      AltChecks(l, r);
      LengthIsCodeSize(l, memStats, id, rep);
      if r.Null? {
        LastAltCode(l, r, memStats, id, rep);
        CompileTree(l);
        assert Bytes() + [] == Bytes();
      } else {
        AltCode(l, r, memStats, id, rep);
        SizeOf(Push(len + SIZE_OP_JUMP));
        SizeOf(Jump(CompileLength(r)));
        AddOpcodeRelAddr(OP_PUSH, len + SIZE_OP_JUMP);
        CompileTree(l);
        AddOpcodeRelAddr(OP_JUMP, pos - (used + SIZE_OP_JUMP));
        assert Bytes() == b + Encode(Push(len + SIZE_OP_JUMP)) + Code(l, memStats, id, rep) + Encode(Jump(CompileLength(r)));
        AppendFour(b, Encode(Push(len + SIZE_OP_JUMP)), Code(l, memStats, id, rep), Encode(Jump(CompileLength(r))),
                   Code(r, memStats, numNullCheck, numRepeat));
      }
    }

    /** The loop over the alternatives, with the position of their common end computed beforehand. */
    method CompileAlt(n: Node)
      requires Valid() && Sized(n) && n.Alt?
      modifies this, p
      ensures Valid() && (p == old(p) || fresh(p))
      ensures Bytes() == old(Bytes()) + Code(n, memStats, old(numNullCheck), old(numRepeat))
      ensures numNullCheck == old(numNullCheck) + NullChecks(n)
      ensures numRepeat == old(numRepeat) + Repeats(n)
      decreases n, 0, 1
    {
      hide Code, NullChecks, Repeats, CompileLength, Layout;
      var x := n;
      var pos := used + CompileLength(n);
      while x.Alt?
        invariant Valid() && (p == old(p) || fresh(p)) && Sized(x) && (x == n || x < n)
        invariant pos == used + CompileLength(x)
        invariant Bytes() + Code(x, memStats, numNullCheck, numRepeat) == old(Bytes()) + Code(n, memStats, old(numNullCheck), old(numRepeat))
        invariant numNullCheck + NullChecks(x) == old(numNullCheck) + NullChecks(n)
        invariant numRepeat + Repeats(x) == old(numRepeat) + Repeats(n)
        decreases x
      {
        CompileAlternative(x, pos);
        x := x.right;
      }
      CompileTree(x);
    }

    /** compile_tree appends exactly the code of the tree, and uses up its null-check numbers. */
    method CompileTree(n: Node)
      requires Valid() && Sized(n)
      modifies this, p
      ensures Valid() && (p == old(p) || fresh(p))
      ensures Bytes() == old(Bytes()) + Code(n, memStats, old(numNullCheck), old(numRepeat))
      ensures numNullCheck == old(numNullCheck) + NullChecks(n)
      ensures numRepeat == old(numRepeat) + Repeats(n)
      decreases n, 0, 2
    {
      hide Sized, CompileLength, QuantCode, Layout, Encode;
      if n.List? {
        CompileList(n);
      } else if n.Alt? {
        CompileAlt(n);
      } else if n.Quant? {
        CompileQualifier(n);
      } else if n.Group? || n.PrecRead? || n.PrecReadNot? || n.StopBacktrack? {
        CompileEffect(n);
      } else {
        CompileLeaf(n);
      }
    }

    /** regex_compile from compile_tree on: the tree, then OP_END. */
    method Compile(n: Node)
      requires Valid() && Sized(n) && Bytes() == [] && numNullCheck == 0 && numRepeat == 0
      modifies this, p
      ensures Valid() && Bytes() == Program(n, memStats)
    {
      hide Code;
      CompileTree(n);
      Add([OP_END]);
    }
  }

  lemma AppendTwo(a: seq<Byte>, b: seq<Byte>, c: seq<Byte>)
    ensures (a + b) + c == a + (b + c)
  {
  }

  lemma AppendThree(a: seq<Byte>, b: seq<Byte>, c: seq<Byte>, d: seq<Byte>)
    ensures ((a + b) + c) + d == a + (b + (c + d))
  {
  }

  lemma AppendFour(a: seq<Byte>, b: seq<Byte>, c: seq<Byte>, d: seq<Byte>, e: seq<Byte>)
    ensures (a + b + c + d) + e == a + (b + (c + (d + e)))
  {
  }

  /** The address the source computes for the `i`-th optional copy. */
  lemma OptionAddress(tlen: nat, k: nat)
    requires k > 0
    ensures k * tlen + (k - 1) * SIZE_OP_PUSH == Times(tlen + SIZE_OP_PUSH, k) - SIZE_OP_PUSH
  {
    TimesIsProduct(tlen + SIZE_OP_PUSH, k);
  }
}
