/** Character classes: the bitset that the parser fills bit by bit, and what it means for the matcher.
    The other leaves of a tree are tied to classes and to single bytes of the text
    (oniguruma/regint.h, oniguruma/regcomp.c, oniguruma/regexec.c). */
module RegClass {
  import opened RegInt
  import opened RegTree
  import opened RegRef
  import opened RegExec
  import opened RegMatch

  // ----- bits of a room -----

  lemma HalfBit(b: nat, k: nat)
    requires k > 0
    ensures b / Power2(k) == (b / 2) / Power2(k - 1)
  {
    var p := Power2(k - 1);
    var q, r := (b / 2) / p, (b / 2) % p;
    assert b / 2 == q * p + r;
    var low := 2 * r + b % 2;
    assert b == q * (2 * p) + low && low < 2 * p;
    QuotientIs(b, 2 * p, q, low);
  }

  lemma QuotientIs(b: nat, m: nat, q: nat, r: nat)
    requires r < m && b == q * m + r
    ensures b / m == q
  {
    var d := q - b / m;
    assert d * m == q * m - b / m * m;
    AtLeastOnce(d, m);
  }

  lemma AtLeastOnce(d: int, m: int)
    requires m >= 0
    ensures (d >= 1 ==> d * m >= m) && (d <= -1 ==> d * m <= -m)
  {
  }

  /** Adding a bit that is not set sets it and leaves the others as they are. */
  lemma {:induction false} BitAdded(b: nat, k: nat, c: nat)
    requires b / Power2(k) % 2 == 0
    ensures (b + Power2(k)) / Power2(c) % 2 == if k == c then 1 else b / Power2(c) % 2
  {
    if k > 0 {
      HalfBit(b, k);
      assert (b + Power2(k)) / 2 == b / 2 + Power2(k - 1);
    }
    if c > 0 {
      HalfBit(b, c);
      HalfBit(b + Power2(k), c);
      if k > 0 {
        BitAdded(b / 2, k - 1, c - 1);
      } else {
        assert (b + 1) / 2 == b / 2;
      }
    }
  }

  lemma {:induction false} BitFits(b: nat, k: nat, n: nat)
    requires k < n && b < Power2(n) && b / Power2(k) % 2 == 0
    ensures b + Power2(k) < Power2(n)
  {
    if k > 0 {
      HalfBit(b, k);
      BitFits(b / 2, k - 1, n - 1);
    }
  }

  // ----- bitsets -----

  type BitSet = bits: seq<Byte> | |bits| == SIZE_BITSET witness seq(SIZE_BITSET, _ => 0)

  /** BS_ROOM(bs,pos) |= BS_BIT(pos) */
  function RoomWith(room: Byte, k: nat): Byte
    requires k < 8
  {
    if room / Power2(k) % 2 == 1 then room
    else
      BitFits(room, k, 8);
      room + Power2(k)
  }

  function WithBit(bits: BitSet, pos: Byte): BitSet {
    bits[pos / 8 := RoomWith(bits[pos / 8], pos % 8)]
  }

  lemma WithBitAt(bits: BitSet, pos: Byte, c: Byte)
    ensures BitsetAt(WithBit(bits, pos), c) <==> c == pos || BitsetAt(bits, c)
  {
    if c / 8 == pos / 8 && !BitsetAt(bits, pos) {
      BitAdded(bits[pos / 8], pos % 8, c % 8);
    }
  }

  /** The bytes whose bits are set. */
  ghost function Members(bits: BitSet): set<Byte> {
    set c: Byte | BitsetAt(bits, c)
  }

  lemma WithBitMembers(bits: BitSet, pos: Byte)
    ensures Members(WithBit(bits, pos)) == Members(bits) + {pos}
  {
    forall c: Byte ensures c in Members(WithBit(bits, pos)) <==> c in Members(bits) + {pos} { WithBitAt(bits, pos, c); }
  }

  /** BITSET_CLEAR */
  function Cleared(): BitSet {
    seq(SIZE_BITSET, _ => 0)
  }

  lemma ClearedMembers()
    ensures Members(Cleared()) == {}
  {
    forall c: Byte ensures !BitsetAt(Cleared(), c) { NoBits(c % 8); }
  }

  /** The bitset of a class with these bytes. */
  function BitsetOf(cs: seq<Byte>): BitSet {
    if cs == [] then Cleared() else WithBit(BitsetOf(cs[..|cs| - 1]), cs[|cs| - 1])
  }

  lemma {:induction false} BitsetMembers(cs: seq<Byte>)
    ensures Members(BitsetOf(cs)) == set c | c in cs
  {
    if cs == [] {
      ClearedMembers();
    } else {
      var front, c := cs[..|cs| - 1], cs[|cs| - 1];
      assert cs == front + [c];
      BitsetMembers(front);
      WithBitMembers(BitsetOf(front), c);
    }
  }

  lemma {:induction false} NoBits(k: nat)
    ensures 0 / Power2(k) == 0
  {
  }

  /** The class node of the parser. */
  class ClassNode {
    const bits: array<Byte>
    var negated: bool

    function Tree(): Node
      requires bits.Length == SIZE_BITSET
      reads this, bits
    {
      Node.CClass(bits[..], negated)
    }

    /** The node matches the bytes it was given, or all others. */
    lemma Runs(u: Subject, s: nat, caps: Caps, how: Reading)
      requires bits.Length == SIZE_BITSET
      ensures Run(Whole(Tree()), u, s, caps, how) ==
              if s < |u.text| && (u.text[s] in Members(bits[..])) != negated then [Out(s + 1, caps)] else []
    {
      if s < |u.text| { assert BitsetAt(bits[..], u.text[s]) <==> u.text[s] in Members(bits[..]); }
    }

    /** BITSET_CLEAR: no byte is in the class. */
    constructor (negated: bool)
      ensures this.negated == negated && fresh(bits) && bits.Length == SIZE_BITSET && Members(bits[..]) == {}
    {
      this.negated := negated;
      bits := new Byte[SIZE_BITSET];
      new;
      var i := 0;
      while i < SIZE_BITSET
        invariant 0 <= i <= SIZE_BITSET && this.negated == negated
        invariant forall k :: 0 <= k < i ==> bits[k] == 0
      {
        bits[i] := 0;
        i := i + 1;
      }
      assert bits[..] == Cleared();
      ClearedMembers();
    }

    /** BITSET_SET_BIT: one more byte is in the class, and nothing else changes. */
    method SetBit(pos: Byte)
      requires bits.Length == SIZE_BITSET
      modifies bits
      ensures Members(bits[..]) == old(Members(bits[..])) + {pos}
    {
      WithBitMembers(bits[..], pos);
      ghost var was := bits[..];
      bits[pos / 8] := RoomWith(bits[pos / 8], pos % 8);
      assert bits[..] == WithBit(was, pos);
    }

    /** A range in a class: all bytes from the last one to `c`, or an error when they are the wrong way
        round. */
    method AddRange(lastVal: Byte, c: Byte) returns (ok: bool)
      requires bits.Length == SIZE_BITSET
      modifies bits
      ensures ok <==> lastVal <= c
      ensures forall x: Byte :: x in Members(bits[..]) <==> x in old(Members(bits[..])) || lastVal <= x <= c
    {
      if c < lastVal { return false; }
      var last: int := lastVal;
      while last <= c
        invariant lastVal <= last <= c + 1
        invariant forall x: Byte :: x in Members(bits[..]) <==> x in old(Members(bits[..])) || lastVal <= x < last
      {
        SetBit(last);
        last := last + 1;
      }
      return true;
    }
  }

  // ----- what a leaf matches -----

  /** A class of bytes matches one byte of the class, or one byte out of it when negated, and match_at
      reports that: with every reading of a tree. */
  lemma ClassAnswer(cs: seq<Byte>, negated: bool, u: Subject, s: nat, maxMem: nat, how: Reading)
    ensures FirstOf(Outcomes(Node.CClass(BitsetOf(cs), negated), u, s, maxMem, how)) ==
            if s < |u.text| && (u.text[s] in cs) != negated then Match(s + 1, seq(maxMem + 1, _ => NotMatched)) else Mismatch
  {
    hide BitsetOf;
    var caps := seq(maxMem + 1, _ => NotMatched);
    ClassRuns(cs, negated, u, s, caps, how);
    assert Closed(caps) == caps;
  }

  lemma ClassRuns(cs: seq<Byte>, negated: bool, u: Subject, s: nat, caps: Caps, how: Reading)
    ensures Run(Whole(Node.CClass(BitsetOf(cs), negated)), u, s, caps, how) ==
            if s < |u.text| && (u.text[s] in cs) != negated then [Out(s + 1, caps)] else []
  {
    hide BitsetOf;
    BitsetMembers(cs);
    if s < |u.text| {
      var c := u.text[s];
      assert c in Members(BitsetOf(cs)) <==> c in cs;
      assert BitsetAt(BitsetOf(cs), c) <==> c in Members(BitsetOf(cs));
    }
  }

  /** `.` is the class of all bytes but the newline, and with /m the class of all bytes. */
  lemma DotIsClass(cs: seq<Byte>, negated: bool, u: Subject, s: nat, caps: Caps, how: Reading)
    requires forall c: Byte :: (c in cs) != negated <==> u.multiline || c != 10
    ensures Run(Whole(Node.AnyChar), u, s, caps, how) == Run(Whole(Node.CClass(BitsetOf(cs), negated)), u, s, caps, how)
  {
    ClassRuns(cs, negated, u, s, caps, how);
  }

  /** A list of one-byte classes. */
  function Letters(str: seq<Byte>): Node {
    if str == [] then Null else List(Node.CClass(BitsetOf([str[0]]), false), Letters(str[1..]))
  }

  /** A string matches what its letters match one behind the other. */
  lemma {:induction false} StringIsLetters(str: seq<Byte>, u: Subject, s: nat, caps: Caps, how: Reading)
    requires s <= |u.text|
    ensures Run(Whole(Str(str)), u, s, caps, how) == Run(Whole(Letters(str)), u, s, caps, how)
  {
    hide Run, Letters, StringAt;
    StringRuns(str, u, s, caps, how);
    LettersRun(str, u, s, caps, how);
    if str != [] && IsNext(u, s, str[0]) {
      StringIsLetters(str[1..], u, s + 1, caps, how);
      StringRuns(str[1..], u, s + 1, caps, how);
      FrontOfString(u.text, s, str);
    }
  }

  lemma StringRuns(str: seq<Byte>, u: Subject, s: nat, caps: Caps, how: Reading)
    requires s <= |u.text|
    ensures Run(Whole(Str(str)), u, s, caps, how) == if StringAt(u.text, s, str) then [Out(s + |str|, caps)] else []
    ensures str == [] ==> StringAt(u.text, s, str)
    ensures str != [] && !IsNext(u, s, str[0]) ==> !StringAt(u.text, s, str)
  {
    if str != [] && s + |str| <= |u.text| { assert u.text[s..s + |str|][0] == u.text[s]; }
  }

  lemma LettersRun(str: seq<Byte>, u: Subject, s: nat, caps: Caps, how: Reading)
    ensures Run(Whole(Letters(str)), u, s, caps, how) ==
            if str == [] then [Out(s, caps)]
            else if IsNext(u, s, str[0]) then Run(Whole(Letters(str[1..])), u, s + 1, caps, how) else []
  {
    hide BitsetOf;
    if str != [] {
      var rest, o := Whole(Letters(str[1..])), Out(s + 1, caps);
      ClassRuns([str[0]], false, u, s, caps, how);
      FollowedBy(rest, u, o, how);
      assert Run(Whole(Letters(str)), u, s, caps, how) ==
             RunAll(rest, u, Run(Whole(Node.CClass(BitsetOf([str[0]]), false)), u, s, caps, how), how);
    }
  }

  lemma FollowedBy(p: Part, u: Subject, o: Out, how: Reading)
    ensures RunAll(p, u, [o], how) == Run(p, u, o.s, o.caps, how) && RunAll(p, u, [], how) == []
  {
    hide Run;
    assert [o][1..] == [];
    assert RunAll(p, u, [o][1..], how) == [];
  }

  lemma FrontOfString(text: seq<Byte>, s: nat, str: seq<Byte>)
    requires str != [] && s < |text| && text[s] == str[0]
    ensures StringAt(text, s, str) <==> StringAt(text, s + 1, str[1..])
  {
    if s + |str| <= |text| {
      assert text[s..s + |str|] == [text[s]] + text[s + 1..s + |str|];
      assert str == [str[0]] + str[1..];
    }
  }

  /** A back-reference matches a second copy of what its group has matched, byte by byte, and nothing
      when the group has not matched. */
  lemma BackrefRepeats(k: nat, u: Subject, s: nat, caps: Caps, how: Reading)
    requires k < |caps| && (caps[k].Span? ==> caps[k].beg <= caps[k].end <= |u.text|)
    ensures Run(Whole(Node.Backref(k)), u, s, caps, how) ==
            if caps[k].Span? && s + caps[k].end - caps[k].beg <= |u.text| &&
               (forall i :: caps[k].beg <= i < caps[k].end ==> u.text[i] == u.text[s + i - caps[k].beg])
            then [Out(s + caps[k].end - caps[k].beg, caps)] else []
  {
    if caps[k].Span? {
      var str := u.text[caps[k].beg..caps[k].end];
      if s + |str| <= |u.text| {
        var here := u.text[s..s + |str|];
        if here == str {
          forall i | caps[k].beg <= i < caps[k].end ensures u.text[i] == u.text[s + i - caps[k].beg] {
            assert here[i - caps[k].beg] == str[i - caps[k].beg];
          }
        }
      }
    }
  }

  // ----- anchors -----

  /** The outcomes that end at `e`. */
  function EndingAt(outs: seq<Out>, e: nat): seq<Out> {
    if outs == [] then []
    else (if outs[0].s == e then [outs[0]] else []) + EndingAt(outs[1..], e)
  }

  /** `\z` behind a tree leaves the outcomes that end with the text, in their order. */
  lemma EndAnchored(t: Node, u: Subject, s: nat, caps: Caps, how: Reading)
    ensures Run(Whole(List(t, Node.Anchor(AtBufEnd))), u, s, caps, how) == EndingAt(Run(Whole(t), u, s, caps, how), |u.text|)
  {
    hide EndingAt;
    ListRuns(t, Node.Anchor(AtBufEnd), u, s, caps, how);
    AnchorAll(u, Run(Whole(t), u, s, caps, how), how);
  }

  lemma {:induction false} AnchorAll(u: Subject, outs: seq<Out>, how: Reading)
    ensures RunAll(Whole(Node.Anchor(AtBufEnd)), u, outs, how) == EndingAt(outs, |u.text|)
  {
    if outs != [] { AnchorAll(u, outs[1..], how); }
  }

  /** `\A` in front of a tree lets it match at the beginning of the text only, and `\G` where match_at was
      started. */
  lemma StartAnchored(t: Node, u: Subject, s: nat, caps: Caps, how: Reading)
    ensures Run(Whole(List(Node.Anchor(AtBufBegin), t)), u, s, caps, how) == if s == 0 then Run(Whole(t), u, s, caps, how) else []
    ensures Run(Whole(List(Node.Anchor(AtBeginPosition), t)), u, s, caps, how) == if s == u.start then Run(Whole(t), u, s, caps, how) else []
  {
    hide Run;
    FollowedBy(Whole(t), u, Out(s, caps), how);
    ListRuns(Node.Anchor(AtBufBegin), t, u, s, caps, how);
    ListRuns(Node.Anchor(AtBeginPosition), t, u, s, caps, how);
    AnchorRuns(u, s, caps, how);
  }

  lemma ListRuns(l: Node, r: Node, u: Subject, s: nat, caps: Caps, how: Reading)
    ensures Run(Whole(List(l, r)), u, s, caps, how) == RunAll(Whole(r), u, Run(Whole(l), u, s, caps, how), how)
  {
  }

  lemma AnchorRuns(u: Subject, s: nat, caps: Caps, how: Reading)
    ensures Run(Whole(Node.Anchor(AtBufBegin)), u, s, caps, how) == if s == 0 then [Out(s, caps)] else []
    ensures Run(Whole(Node.Anchor(AtBeginPosition)), u, s, caps, how) == if s == u.start then [Out(s, caps)] else []
  {
  }
}
