/** get_min_match_length is exact: the length it gives is that of some match (oniguruma/regcomp.c). */
module RegLeast {
  import opened RegInt
  import opened RegTree
  import opened RegRef
  import opened RegFacts
  import opened RegLanguage

  /** Strings, classes with at least one byte, `.`, and what lists, alternatives, quantifiers and groups
      make of them. */
  ghost predicate Free(n: Node) {
    match n
    case Str(_) => true
    case CClass(bits, negated) => |bits| == SIZE_BITSET && exists c: Byte :: BitsetAt(bits, c) != negated
    case AnyChar => true
    case List(l, r) => Free(l) && Free(r)
    case Alt(l, r) => Free(l) && Free(r)
    case Quant(t, _, _, _, _, _, _) => Free(t)
    case Group(_, t) => Free(t)
    case _ => n.Null? || n.Empty?
  }

  /** The text has `w` at `i`. */
  predicate Has(u: Subject, i: nat, w: seq<Byte>) {
    i + |w| <= |u.text| && u.text[i..i + |w|] == w
  }

  /** The tree matches `w` wherever a text has it. */
  ghost predicate Accepts(n: Node, w: seq<Byte>) {
    forall u: Subject, i: nat :: Has(u, i, w) ==> Matches(n, u, i, i + |w|)
  }

  function Copies(w: seq<Byte>, k: nat): seq<Byte> {
    if k == 0 then [] else w + Copies(w, k - 1)
  }

  lemma {:induction false} CopiesLength(w: seq<Byte>, k: nat)
    ensures |Copies(w, k)| == Times(|w|, k)
  {
    if k > 0 { CopiesLength(w, k - 1); }
  }

  lemma HasBoth(u: Subject, i: nat, v: seq<Byte>, w: seq<Byte>)
    requires Has(u, i, v + w)
    ensures Has(u, i, v) && Has(u, i + |v|, w)
  {
    var here := u.text[i..i + |v + w|];
    assert here[..|v|] == v && here[|v|..] == w;
  }

  lemma {:induction false} AcceptsTimes(t: Node, w: seq<Byte>, k: nat, u: Subject, i: nat)
    requires Accepts(t, w) && Has(u, i, Copies(w, k))
    ensures MatchesTimes(t, u, k, i, i + |Copies(w, k)|)
  {
    hide Matches, Has;
    if k > 0 {
      HasBoth(u, i, w, Copies(w, k - 1));
      AcceptsTimes(t, w, k - 1, u, i + |w|);
      TimesFold(t, u, k - 1, i, i + |w|, i + |Copies(w, k)|);
    }
  }

  lemma AcceptsList(l: Node, r: Node, v: seq<Byte>, w: seq<Byte>)
    requires Accepts(l, v) && Accepts(r, w)
    ensures Accepts(List(l, r), v + w)
  {
    forall u: Subject, i: nat | Has(u, i, v + w) ensures Matches(List(l, r), u, i, i + |v + w|) {
      HasBoth(u, i, v, w);
      assert Matches(l, u, i, i + |v|) && Matches(r, u, i + |v|, i + |v| + |w|);
    }
  }

  lemma AcceptsQuant(q: Node, w: seq<Byte>)
    requires q.Quant? && Accepts(q.target, w)
    ensures Accepts(q, Copies(w, q.lower))
  {
    hide MatchesTimes, Has;
    forall u: Subject, i: nat | Has(u, i, Copies(w, q.lower)) ensures Matches(q, u, i, i + |Copies(w, q.lower)|) {
      AcceptsTimes(q.target, w, q.lower, u, i);
      assert MayRepeat(q.lower, q.upper, q.lower);
    }
  }

  lemma AcceptsByte(n: Node, c: Byte)
    requires match n case AnyChar => c != NEWLINE case CClass(bits, negated) => |bits| == SIZE_BITSET && BitsetAt(bits, c) != negated case _ => false
    ensures Accepts(n, [c])
  {
    forall u: Subject, i: nat | Has(u, i, [c]) ensures Matches(n, u, i, i + 1) {
      assert u.text[i..i + 1][0] == u.text[i];
    }
  }

  /** Some text of the least length is matched. */
  lemma {:induction false} LeastAttained(n: Node) returns (w: seq<Byte>)
    requires Free(n)
    ensures |w| == LeastLength(n) && Accepts(n, w)
  {
    hide Accepts;
    match n
    case Str(s) => w := s; AcceptsString(s);
    case CClass(bits, negated) =>
      var c: Byte :| BitsetAt(bits, c) != negated;
      AcceptsByte(n, c);
      w := [c];
    case AnyChar =>
      AcceptsByte(n, 0);
      w := [0];
    case List(l, r) =>
      var a := LeastAttained(l);
      var b := LeastAttained(r);
      AcceptsList(l, r, a, b);
      w := a + b;
    case Alt(l, r) =>
      var a := LeastAttained(l);
      var b := LeastAttained(r);
      w := if r.Null? || LeastLength(l) <= LeastLength(r) then a else b;
      AcceptsAlt(l, r, w);
    case Quant(t, lower, _, _, _, _, _) =>
      var a := LeastAttained(t);
      AcceptsQuant(n, a);
      CopiesLength(a, lower);
      w := Copies(a, lower);
    case Group(k, t) =>
      w := LeastAttained(t);
      AcceptsGroup(k, t, w);
    case _ =>
      w := [];
      AcceptsNothing(n);
  }

  lemma AcceptsString(s: seq<Byte>)
    ensures Accepts(Str(s), s)
  {
  }

  lemma AcceptsAlt(l: Node, r: Node, w: seq<Byte>)
    requires Accepts(l, w) || (!r.Null? && Accepts(r, w))
    ensures Accepts(Alt(l, r), w)
  {
  }

  lemma AcceptsGroup(k: nat, t: Node, w: seq<Byte>)
    requires Accepts(t, w)
    ensures Accepts(Group(k, t), w)
  {
  }

  lemma AcceptsNothing(n: Node)
    requires n.Null? || n.Empty?
    ensures Accepts(n, [])
  {
  }

  predicate NoAlt(n: Node) {
    match n
    case List(l, r) => NoAlt(l) && NoAlt(r)
    case Alt(_, _) => false
    case Quant(t, _, _, _, _, _, _) => NoAlt(t)
    case Group(_, t) => NoAlt(t)
    case StopBacktrack(t) => NoAlt(t)
    case _ => true
  }

  /** Without alternatives, whose minimum starts from 0, and below two gigabytes, no sum wraps around and
      no product saturates. */
  lemma {:induction false} MinIsLeast(n: Node)
    requires NoAlt(n) && LeastLength(n) < 0x8000_0000
    ensures MinLength(n) == LeastLength(n)
  {
    match n
    case List(l, r) =>
      MinIsLeast(l);
      MinIsLeast(r);
    case Quant(t, lower, _, _, _, _, _) =>
      if lower > 0 {
        LeastZero(LeastLength(t), lower);
        MinIsLeast(t);
        ProductExact(LeastLength(t), lower);
      }
    case Group(_, t) => MinIsLeast(t);
    case StopBacktrack(t) => MinIsLeast(t);
    case _ =>
  }

  lemma ProductExact(d: nat, m: Count)
    requires m > 0 && Times(d, m) < 0x8000_0000
    ensures DistanceMultiply(d, m) == Times(d, m)
  {
    TimesIsProduct(d, m);
    if d > 0 { AtLeastCopies(d, m); }
    RoomFor(d, m);
  }

  lemma AtLeastCopies(d: int, m: int)
    requires d >= 1 && m >= 0
    ensures d * m >= m
  {
  }

  lemma RoomFor(d: nat, m: Count)
    requires m > 0 && d * m < 0x8000_0000
    ensures d < INFINITE_DISTANCE / m
  {
    var q, r := INFINITE_DISTANCE / m, INFINITE_DISTANCE % m;
    assert q * m + r == INFINITE_DISTANCE;
    if q <= d { Larger(q, d, m); }
  }

  lemma Larger(q: int, d: int, m: int)
    requires q <= d && m >= 0
    ensures q * m <= d * m
  {
  }

  /** get_min_match_length is the length of the shortest match: MinLengthBound says that no match is shorter,
      and some text of that length is matched wherever it stands. */
  lemma MinLengthExact(n: Node) returns (w: seq<Byte>)
    requires Free(n) && NoAlt(n) && LeastLength(n) < 0x8000_0000
    ensures |w| == MinLength(n) && Accepts(n, w)
  {
    hide Accepts;
    w := LeastAttained(n);
    MinIsLeast(n);
  }
}
