/** The byte code of the regular-expression engine: operation codes, operand sizes and the
    reading of one operation at a code position (oniguruma/regint.h).

    Operands wider than a byte are stored most significant byte first, as the portable build
    of regint.h does. */
module RegInt {

  type Byte = b: int | 0 <= b < 256

  const SIZE_OPCODE := 1
  const SIZE_RELADDR := 2
  const SIZE_LENGTH := 2
  const SIZE_MEMNUM := 2
  const SIZE_REPEATNUM := 4
  const SIZE_BITSET := 32

  const SIZE_OP_ANYCHAR_STAR := SIZE_OPCODE
  const SIZE_OP_ANYCHAR_STAR_PEEK_NEXT := SIZE_OPCODE + 1
  const SIZE_OP_JUMP := SIZE_OPCODE + SIZE_RELADDR
  const SIZE_OP_PUSH := SIZE_OPCODE + SIZE_RELADDR
  const SIZE_OP_PUSH_OR_JUMP_EXACT1 := SIZE_OPCODE + SIZE_RELADDR + 1
  const SIZE_OP_PUSH_IF_PEEK_NEXT := SIZE_OPCODE + SIZE_RELADDR + 1
  const SIZE_OP_PUSH_POS := SIZE_OPCODE
  const SIZE_OP_PUSH_POS_NOT := SIZE_OPCODE + SIZE_RELADDR
  const SIZE_OP_POP_POS := SIZE_OPCODE
  const SIZE_OP_FAIL_POS := SIZE_OPCODE
  const SIZE_OP_MEMORY_START_PUSH := SIZE_OPCODE + SIZE_MEMNUM
  const SIZE_OP_MEMORY_END := SIZE_OPCODE + SIZE_MEMNUM
  const SIZE_OP_PUSH_STOP_BT := SIZE_OPCODE
  const SIZE_OP_POP_STOP_BT := SIZE_OPCODE
  const SIZE_OP_NULL_CHECK_START := SIZE_OPCODE + SIZE_MEMNUM
  const SIZE_OP_NULL_CHECK_END := SIZE_OPCODE + SIZE_MEMNUM
  const SIZE_OP_REPEAT_INC := SIZE_OPCODE + SIZE_MEMNUM

  const OP_END: Byte := 1
  const OP_EXACT1: Byte := 2
  const OP_EXACT5: Byte := 6
  const OP_EXACTN: Byte := 7
  const OP_CCLASS: Byte := 16
  const OP_CCLASS_NOT: Byte := 19
  const OP_ANYCHAR: Byte := 22
  const OP_ANYCHAR_STAR: Byte := 23
  const OP_ANYCHAR_STAR_PEEK_NEXT: Byte := 24
  const OP_BEGIN_BUF: Byte := 33
  const OP_END_BUF: Byte := 34
  const OP_BEGIN_POSITION: Byte := 38
  const OP_BACKREF1: Byte := 39
  const OP_BACKREF3: Byte := 41
  const OP_BACKREFN: Byte := 42
  const OP_MEMORY_START_PUSH: Byte := 43
  const OP_MEMORY_END_PUSH: Byte := 44
  const OP_MEMORY_END: Byte := 45
  const OP_JUMP: Byte := 49
  const OP_PUSH: Byte := 50
  const OP_PUSH_OR_JUMP_EXACT1: Byte := 51
  const OP_PUSH_IF_PEEK_NEXT: Byte := 52
  const OP_REPEAT: Byte := 53
  const OP_REPEAT_NG: Byte := 54
  const OP_REPEAT_INC: Byte := 55
  const OP_REPEAT_INC_NG: Byte := 56
  const OP_NULL_CHECK_START: Byte := 57
  const OP_NULL_CHECK_END: Byte := 58
  const OP_PUSH_POS: Byte := 59
  const OP_POP_POS: Byte := 60
  const OP_PUSH_POS_NOT: Byte := 61
  const OP_FAIL_POS: Byte := 62
  const OP_PUSH_STOP_BT: Byte := 63
  const OP_POP_STOP_BT: Byte := 64

  /** One operation with its operands. */
  datatype Instr =
    | End
    | Exact(str: seq<Byte>)
    | CClass(bits: seq<Byte>)
    | CClassNot(bits: seq<Byte>)
    | AnyChar
    | AnyCharStar
    | AnyCharStarPeekNext(c: Byte)
    | BeginBuf
    | EndBuf
    | BeginPosition
    | Backref(num: nat)
    | MemoryStartPush(num: nat)
    | MemoryEndPush(num: nat)
    | MemoryEnd(num: nat)
    | Jump(addr: int)
    | Push(addr: int)
    | PushOrJumpExact1(addr: int, c: Byte)
    | PushIfPeekNext(addr: int, c: Byte)
    | RepeatOp(num: nat, addr: int, lower: int, upper: int, greedy: bool)
    | RepeatInc(num: nat, greedy: bool)
    | NullCheckStart(num: nat)
    | NullCheckEnd(num: nat)
    | PushPos
    | PopPos
    | PushPosNot(addr: int)
    | FailPos
    | PushStopBt
    | PopStopBt

  /** A C `short` stored by SERIALIZE_SHORT: an int outside the range of a short is cut off. */
  function Short(v: int): (r: seq<Byte>)
    ensures |r| == 2
  {
    [(v % 0x10000) / 0x100, v % 0x100]
  }

  function GetShort(hi: Byte, lo: Byte): int {
    var u := hi * 0x100 + lo;
    if u < 0x8000 then u else u - 0x10000
  }

  /** A C `int` of 32 bits stored by SERIALIZE_INT. */
  function Word(v: int): (r: seq<Byte>)
    ensures |r| == 4
  {
    Short(v / 0x10000) + Short(v)
  }

  function GetWord(a: Byte, b: Byte, c: Byte, d: Byte): int {
    GetShort(a, b) * 0x10000 + (c * 0x100 + d)
  }

  predicate FitsShort(v: int) {
    -0x8000 <= v < 0x8000
  }

  /** A stored short reads back as itself exactly when it is in range. */
  lemma ShortRoundTrip(v: int)
    ensures GetShort(Short(v)[0], Short(v)[1]) == v <==> FitsShort(v)
  {
    var w := v % 0x10000;
    assert v == 0x10000 * (v / 0x10000) + w;
    assert v == 0x100 * (0x100 * (v / 0x10000) + w / 0x100) + w % 0x100;
    assert v % 0x100 == w % 0x100;
    assert GetShort(Short(v)[0], Short(v)[1]) == if w < 0x8000 then w else w - 0x10000;
  }

  /** A stored int of 32 bits reads back as itself. */
  lemma WordRoundTrip(v: int)
    requires -0x8000_0000 <= v < 0x8000_0000
    ensures var w := Word(v); GetWord(w[0], w[1], w[2], w[3]) == v
  {
    hide GetShort;
    ShortRoundTrip(v / 0x10000);
    var w := v % 0x10000;
    assert v == 0x10000 * (v / 0x10000) + w;
    assert v == 0x100 * (0x100 * (v / 0x10000) + w / 0x100) + w % 0x100;
    assert v % 0x100 == w % 0x100;
    assert Word(v)[2] == w / 0x100 && Word(v)[3] == w % 0x100;
  }

  /** select_str_opcode for one-byte characters, with the length operand of OP_EXACTN. */
  function EncodeExact(s: seq<Byte>): seq<Byte>
    requires s != []
  {
    if |s| <= 5 then [OP_EXACT1 + |s| - 1] + s else [OP_EXACTN] + Short(|s|) + s
  }

  function Encode(i: Instr): seq<Byte>
    requires i.Exact? ==> i.str != []
  {
    match i
    case End => [OP_END]
    case Exact(s) => EncodeExact(s)
    case CClass(bits) => [OP_CCLASS] + bits
    case CClassNot(bits) => [OP_CCLASS_NOT] + bits
    case AnyChar => [OP_ANYCHAR]
    case AnyCharStar => [OP_ANYCHAR_STAR]
    case AnyCharStarPeekNext(c) => [OP_ANYCHAR_STAR_PEEK_NEXT, c]
    case BeginBuf => [OP_BEGIN_BUF]
    case EndBuf => [OP_END_BUF]
    case BeginPosition => [OP_BEGIN_POSITION]
    case Backref(n) => if 1 <= n <= 3 then [OP_BACKREF1 + n - 1] else [OP_BACKREFN] + Short(n)
    case MemoryStartPush(n) => [OP_MEMORY_START_PUSH] + Short(n)
    case MemoryEndPush(n) => [OP_MEMORY_END_PUSH] + Short(n)
    case MemoryEnd(n) => [OP_MEMORY_END] + Short(n)
    case Jump(a) => [OP_JUMP] + Short(a)
    case Push(a) => [OP_PUSH] + Short(a)
    case PushOrJumpExact1(a, c) => [OP_PUSH_OR_JUMP_EXACT1] + Short(a) + [c]
    case PushIfPeekNext(a, c) => [OP_PUSH_IF_PEEK_NEXT] + Short(a) + [c]
    case RepeatOp(n, a, lower, upper, greedy) =>
      [if greedy then OP_REPEAT else OP_REPEAT_NG] + Short(n) + Short(a) + Word(lower) + Word(upper)
    case RepeatInc(n, greedy) => [if greedy then OP_REPEAT_INC else OP_REPEAT_INC_NG] + Short(n)
    case NullCheckStart(n) => [OP_NULL_CHECK_START] + Short(n)
    case NullCheckEnd(n) => [OP_NULL_CHECK_END] + Short(n)
    case PushPos => [OP_PUSH_POS]
    case PopPos => [OP_POP_POS]
    case PushPosNot(a) => [OP_PUSH_POS_NOT] + Short(a)
    case FailPos => [OP_FAIL_POS]
    case PushStopBt => [OP_PUSH_STOP_BT]
    case PopStopBt => [OP_POP_STOP_BT]
  }

  /** The operands fit the fields that hold them. */
  predicate Encodable(i: Instr) {
    match i
    case Exact(s) => 0 < |s| < 0x8000
    case CClass(bits) => |bits| == SIZE_BITSET
    case CClassNot(bits) => |bits| == SIZE_BITSET
    case Backref(n) => FitsShort(n)
    case MemoryStartPush(n) => FitsShort(n)
    case MemoryEndPush(n) => FitsShort(n)
    case MemoryEnd(n) => FitsShort(n)
    case Jump(a) => FitsShort(a)
    case Push(a) => FitsShort(a)
    case PushOrJumpExact1(a, _) => FitsShort(a)
    case PushIfPeekNext(a, _) => FitsShort(a)
    case RepeatOp(n, a, lower, upper, _) =>
      FitsShort(n) && FitsShort(a) && -0x8000_0000 <= lower < 0x8000_0000 && -0x8000_0000 <= upper < 0x8000_0000
    case RepeatInc(n, _) => FitsShort(n)
    case NullCheckStart(n) => FitsShort(n)
    case NullCheckEnd(n) => FitsShort(n)
    case PushPosNot(a) => FitsShort(a)
    case _ => true
  }

  datatype Fetched = Fetched(instr: Instr, next: nat) | Undefined

  /** The string operand of an OP_EXACT operation. */
  function FetchExact(code: seq<Byte>, pc: nat, len: int): Fetched {
    if 0 < len && pc + len <= |code| then Fetched(Exact(code[pc..pc + len]), pc + len) else Undefined
  }

  function FetchBits(code: seq<Byte>, pc: nat, negated: bool): Fetched {
    if pc + SIZE_BITSET > |code| then Undefined
    else
      var bits := code[pc..pc + SIZE_BITSET];
      Fetched(if negated then CClassNot(bits) else CClass(bits), pc + SIZE_BITSET)
  }

  /** Operations whose only operand is a memory or null-check number. */
  function FetchNumbered(op: Byte, n: nat, next: nat): Fetched {
    if op == OP_BACKREFN then Fetched(Backref(n), next)
    else if op == OP_MEMORY_START_PUSH then Fetched(MemoryStartPush(n), next)
    else if op == OP_MEMORY_END_PUSH then Fetched(MemoryEndPush(n), next)
    else if op == OP_MEMORY_END then Fetched(MemoryEnd(n), next)
    else if op == OP_REPEAT_INC then Fetched(RepeatInc(n, true), next)
    else if op == OP_REPEAT_INC_NG then Fetched(RepeatInc(n, false), next)
    else if op == OP_NULL_CHECK_START then Fetched(NullCheckStart(n), next)
    else if op == OP_NULL_CHECK_END then Fetched(NullCheckEnd(n), next)
    else Undefined
  }

  /** Operations with a relative address, and possibly one byte after it. */
  function FetchAddressed(code: seq<Byte>, op: Byte, addr: int, next: nat): Fetched {
    if op == OP_JUMP then Fetched(Jump(addr), next)
    else if op == OP_PUSH then Fetched(Push(addr), next)
    else if op == OP_PUSH_POS_NOT then Fetched(PushPosNot(addr), next)
    else if next >= |code| then Undefined
    else if op == OP_PUSH_OR_JUMP_EXACT1 then Fetched(PushOrJumpExact1(addr, code[next]), next + 1)
    else if op == OP_PUSH_IF_PEEK_NEXT then Fetched(PushIfPeekNext(addr, code[next]), next + 1)
    else Undefined
  }

  /** Operations without operands. */
  function FetchPlain(op: Byte, next: nat): Fetched {
    if op == OP_END then Fetched(End, next)
    else if op == OP_ANYCHAR then Fetched(AnyChar, next)
    else if op == OP_ANYCHAR_STAR then Fetched(AnyCharStar, next)
    else if op == OP_BEGIN_BUF then Fetched(BeginBuf, next)
    else if op == OP_END_BUF then Fetched(EndBuf, next)
    else if op == OP_BEGIN_POSITION then Fetched(BeginPosition, next)
    else if OP_BACKREF1 <= op <= OP_BACKREF3 then Fetched(Backref(op - OP_BACKREF1 + 1), next)
    else if op == OP_PUSH_POS then Fetched(PushPos, next)
    else if op == OP_POP_POS then Fetched(PopPos, next)
    else if op == OP_FAIL_POS then Fetched(FailPos, next)
    else if op == OP_PUSH_STOP_BT then Fetched(PushStopBt, next)
    else if op == OP_POP_STOP_BT then Fetched(PopStopBt, next)
    else Undefined
  }

  predicate IsNumbered(op: Byte) {
    op == OP_BACKREFN || op == OP_MEMORY_START_PUSH || op == OP_MEMORY_END_PUSH || op == OP_MEMORY_END ||
    op == OP_REPEAT_INC || op == OP_REPEAT_INC_NG || op == OP_NULL_CHECK_START || op == OP_NULL_CHECK_END
  }

  predicate IsAddressed(op: Byte) {
    op == OP_JUMP || op == OP_PUSH || op == OP_PUSH_POS_NOT || op == OP_PUSH_OR_JUMP_EXACT1 ||
    op == OP_PUSH_IF_PEEK_NEXT
  }

  /** OP_REPEAT and OP_REPEAT_NG: a number, a relative address, and the two bounds. */
  function FetchRepeat(code: seq<Byte>, pc: nat, greedy: bool): Fetched {
    if pc + 12 > |code| then Undefined
    else
      var n := GetShort(code[pc], code[pc + 1]);
      if n < 0 then Undefined
      else
        Fetched(RepeatOp(n, GetShort(code[pc + 2], code[pc + 3]),
                       GetWord(code[pc + 4], code[pc + 5], code[pc + 6], code[pc + 7]),
                       GetWord(code[pc + 8], code[pc + 9], code[pc + 10], code[pc + 11]), greedy), pc + 12)
  }

  /** The operation at `pc` and the position after it, as the switch of match_at reads them. */
  function Fetch(code: seq<Byte>, pc: int): Fetched {
    if !(0 <= pc < |code|) then Undefined
    else
      var op := code[pc];
      if OP_EXACT1 <= op <= OP_EXACT5 then FetchExact(code, pc + 1, op - OP_EXACT1 + 1)
      else if op == OP_CCLASS || op == OP_CCLASS_NOT then FetchBits(code, pc + 1, op == OP_CCLASS_NOT)
      else if op == OP_REPEAT || op == OP_REPEAT_NG then FetchRepeat(code, pc + 1, op == OP_REPEAT)
      else if op == OP_ANYCHAR_STAR_PEEK_NEXT then
        if pc + 1 < |code| then Fetched(AnyCharStarPeekNext(code[pc + 1]), pc + 2) else Undefined
      else if op == OP_EXACTN || IsNumbered(op) || IsAddressed(op) then
        if pc + 2 >= |code| then Undefined
        else
          var v := GetShort(code[pc + 1], code[pc + 2]);
          if op == OP_EXACTN then FetchExact(code, pc + 3, v)
          else if IsAddressed(op) then FetchAddressed(code, op, v, pc + 3)
          else if v < 0 then Undefined
          else FetchNumbered(op, v, pc + 3)
      else FetchPlain(op, pc + 1)
  }

  /** `bytes` stand in the code at `pc`. */
  ghost predicate Placed(code: seq<Byte>, pc: int, bytes: seq<Byte>) {
    0 <= pc && pc + |bytes| <= |code| && code[pc..pc + |bytes|] == bytes
  }

  lemma PlacedSplit(code: seq<Byte>, pc: int, a: seq<Byte>, b: seq<Byte>)
    requires Placed(code, pc, a + b)
    ensures Placed(code, pc, a) && Placed(code, pc + |a|, b)
  {
    var all := code[pc..pc + |a + b|];
    assert code[pc..pc + |a|] == all[..|a|] == a;
    assert code[pc + |a|..pc + |a| + |b|] == all[|a|..] == b;
  }

  lemma PlacedFour(code: seq<Byte>, pc: int, a: seq<Byte>, b: seq<Byte>, c: seq<Byte>, d: seq<Byte>)
    requires Placed(code, pc, a + (b + (c + d)))
    ensures Placed(code, pc, a) && Placed(code, pc + |a|, b)
    ensures Placed(code, pc + |a| + |b|, c) && Placed(code, pc + |a| + |b| + |c|, d)
  {
    hide Placed;
    PlacedSplit(code, pc, a, b + (c + d));
    PlacedSplit(code, pc + |a|, b, c + d);
    PlacedSplit(code, pc + |a| + |b|, c, d);
  }

  lemma PlacedByte(code: seq<Byte>, pc: int, bytes: seq<Byte>, k: nat)
    requires Placed(code, pc, bytes) && k < |bytes|
    ensures code[pc + k] == bytes[k]
  {
    assert code[pc..pc + |bytes|][k] == code[pc + k];
  }

  lemma FetchExactEncoded(code: seq<Byte>, pc: int, s: seq<Byte>)
    requires 0 < |s| < 0x8000 && Placed(code, pc, EncodeExact(s))
    ensures Fetch(code, pc) == Fetched(Exact(s), pc + |EncodeExact(s)|)
  {
    hide FetchPlain, FetchNumbered, FetchAddressed, FetchBits, IsNumbered, IsAddressed, FetchRepeat;
    var e := EncodeExact(s);
    var h := |e| - |s|;
    assert e == e[..h] + s;
    PlacedSplit(code, pc, e[..h], s);
    PlacedByte(code, pc, e, 0);
    if |s| > 5 {
      PlacedByte(code, pc, e, 1);
      PlacedByte(code, pc, e, 2);
      ShortRoundTrip(|s|);
    }
  }

  lemma FetchBitsEncoded(code: seq<Byte>, pc: int, i: Instr)
    requires Encodable(i) && (i.CClass? || i.CClassNot?) && Placed(code, pc, Encode(i))
    ensures Fetch(code, pc) == Fetched(i, pc + |Encode(i)|)
  {
    hide FetchPlain, FetchNumbered, FetchAddressed, FetchExact, FetchRepeat;
    PlacedByte(code, pc, Encode(i), 0);
    PlacedSplit(code, pc, Encode(i)[..1], i.bits);
  }

  lemma FetchPlainEncoded(code: seq<Byte>, pc: int, i: Instr)
    requires Encodable(i) && |Encode(i)| == 1 && !i.Exact? && Placed(code, pc, Encode(i))
    ensures Fetch(code, pc) == Fetched(i, pc + 1)
  {
    hide FetchBits, FetchNumbered, FetchAddressed, FetchExact, FetchRepeat;
    PlacedByte(code, pc, Encode(i), 0);
  }

  lemma FetchRepeatEncoded(code: seq<Byte>, pc: int, i: Instr)
    requires Encodable(i) && i.RepeatOp? && Placed(code, pc, Encode(i))
    ensures Fetch(code, pc) == Fetched(i, pc + |Encode(i)|)
  {
    hide FetchPlain, FetchNumbered, FetchAddressed, FetchExact, FetchBits, Short, GetShort, GetWord, Word;
    var e := Encode(i);
    var op := [if i.greedy then OP_REPEAT else OP_REPEAT_NG];
    var n, a, lo, hi := Short(i.num), Short(i.addr), Word(i.lower), Word(i.upper);
    PlacedByte(code, pc, e, 0);
    assert e == op + (n + (a + (lo + hi)));
    PlacedSplit(code, pc, op, n + (a + (lo + hi)));
    PlacedFour(code, pc + 1, n, a, lo, hi);
    ShortPlaced(code, pc + 1, i.num);
    ShortPlaced(code, pc + 3, i.addr);
    WordPlaced(code, pc + 5, i.lower);
    WordPlaced(code, pc + 9, i.upper);
  }

  lemma ShortPlaced(code: seq<Byte>, pc: int, v: int)
    requires Placed(code, pc, Short(v)) && FitsShort(v)
    ensures GetShort(code[pc], code[pc + 1]) == v
  {
    hide GetShort;
    PlacedByte(code, pc, Short(v), 0);
    PlacedByte(code, pc, Short(v), 1);
    ShortRoundTrip(v);
  }

  lemma WordPlaced(code: seq<Byte>, pc: int, v: int)
    requires Placed(code, pc, Word(v)) && -0x8000_0000 <= v < 0x8000_0000
    ensures GetWord(code[pc], code[pc + 1], code[pc + 2], code[pc + 3]) == v
  {
    hide GetWord, Word;
    PlacedByte(code, pc, Word(v), 0);
    PlacedByte(code, pc, Word(v), 1);
    PlacedByte(code, pc, Word(v), 2);
    PlacedByte(code, pc, Word(v), 3);
    WordRoundTrip(v);
  }

  lemma FetchNumberedEncoded(code: seq<Byte>, pc: int, i: Instr)
    requires Encodable(i) && |Encode(i)| == 3 && !i.Exact? && IsNumbered(Encode(i)[0]) && Placed(code, pc, Encode(i))
    ensures Fetch(code, pc) == Fetched(i, pc + 3)
  {
    hide FetchBits, FetchPlain, FetchAddressed, FetchExact, FetchRepeat;
    PlacedByte(code, pc, Encode(i), 0);
    PlacedByte(code, pc, Encode(i), 1);
    PlacedByte(code, pc, Encode(i), 2);
    ShortRoundTrip(i.num);
  }

  lemma FetchAddressedEncoded(code: seq<Byte>, pc: int, i: Instr)
    requires i.Jump? || i.Push? || i.PushPosNot? || i.PushOrJumpExact1? || i.PushIfPeekNext?
    requires Encodable(i) && Placed(code, pc, Encode(i))
    ensures Fetch(code, pc) == Fetched(i, pc + |Encode(i)|)
  {
    hide FetchBits, FetchPlain, FetchNumbered, FetchExact, FetchRepeat;
    PlacedByte(code, pc, Encode(i), 0);
    PlacedByte(code, pc, Encode(i), 1);
    PlacedByte(code, pc, Encode(i), 2);
    ShortRoundTrip(i.addr);
    if i.PushOrJumpExact1? || i.PushIfPeekNext? {
      PlacedByte(code, pc, Encode(i), 3);
    }
  }

  /** What the compiler writes, the matcher reads: an encoded operation is fetched back whole,
      and the fetch ends where the encoding ends. */
  lemma FetchEncoded(code: seq<Byte>, pc: int, i: Instr)
    requires Encodable(i) && Placed(code, pc, Encode(i))
    ensures Fetch(code, pc) == Fetched(i, pc + |Encode(i)|)
  {
    hide FetchBits, FetchPlain, FetchNumbered, FetchAddressed, FetchExact, FetchRepeat, Fetch, Short, Word;
    match i
    case RepeatOp(_, _, _, _, _) => FetchRepeatEncoded(code, pc, i);
    case Exact(s) => FetchExactEncoded(code, pc, s);
    case CClass(_) => FetchBitsEncoded(code, pc, i);
    case CClassNot(_) => FetchBitsEncoded(code, pc, i);
    case AnyCharStarPeekNext(c) =>
      PlacedByte(code, pc, Encode(i), 0);
      PlacedByte(code, pc, Encode(i), 1);
      FetchPeekNext(code, pc);
    case Jump(_) => FetchAddressedEncoded(code, pc, i);
    case Push(_) => FetchAddressedEncoded(code, pc, i);
    case PushPosNot(_) => FetchAddressedEncoded(code, pc, i);
    case PushOrJumpExact1(_, _) => FetchAddressedEncoded(code, pc, i);
    case PushIfPeekNext(_, _) => FetchAddressedEncoded(code, pc, i);
    case _ =>
      if |Encode(i)| == 1 { FetchPlainEncoded(code, pc, i); } else { FetchNumberedEncoded(code, pc, i); }
  }

  lemma FetchPeekNext(code: seq<Byte>, pc: int)
    requires 0 <= pc && pc + 1 < |code| && code[pc] == OP_ANYCHAR_STAR_PEEK_NEXT
    ensures Fetch(code, pc) == Fetched(AnyCharStarPeekNext(code[pc + 1]), pc + 2)
  {
  }
}
