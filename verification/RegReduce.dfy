/** reduce_nested_qualifier: two quantifiers on one body are made one, or two simpler ones
    (oniguruma/regcomp.c). The laws here are those of repetition over any body at all: what the body
    matches is an arbitrary relation between a start and an end. The order of preference is RegOrder's. */
module RegReduce {
  import opened RegTree
  import opened RegRef
  import opened RegLanguage
  import opened RegOrder

  /** `S` is what a match starts and ends in: a position, or a position with the captures. */
  type Relation<!S(!new)> = (S, S) -> bool

  // ----- laws of repetition -----

  /** `k` times the relation, one behind the other. */
  ghost predicate Repeats<S(!new)>(r: Relation<S>, k: nat, i: S, j: S) {
    if k == 0 then i == j else exists m: S :: r(i, m) && Repeats(r, k - 1, m, j)
  }

  /** What a quantifier on a body with this relation matches. */
  ghost predicate Iterated<S(!new)>(r: Relation<S>, q: Quantifier, i: S, j: S) {
    exists k: nat :: MayRepeat(q.lower, q.upper, k) && Repeats(r, k, i, j)
  }

  ghost function Over<S(!new)>(r: Relation<S>, q: Quantifier): Relation<S> {
    (i: S, j: S) => Iterated(r, q, i, j)
  }

  /** What a tower of quantifiers matches, the innermost one first. */
  ghost function Layers<S(!new)>(r: Relation<S>, qs: seq<Quantifier>): Relation<S>
    decreases |qs|
  {
    if qs == [] then r else Over(Layers(r, qs[..|qs| - 1]), qs[|qs| - 1])
  }

  lemma RepeatsFold<S(!new)>(r: Relation<S>, k: nat, i: S, m: S, j: S)
    requires r(i, m) && Repeats(r, k, m, j)
    ensures Repeats(r, k + 1, i, j)
  {
  }

  lemma RepeatsUnfold<S(!new)>(r: Relation<S>, k: nat, i: S, j: S) returns (m: S)
    requires k > 0 && Repeats(r, k, i, j)
    ensures r(i, m) && Repeats(r, k - 1, m, j)
  {
    m :| r(i, m) && Repeats(r, k - 1, m, j);
  }

  lemma {:induction false} RepeatsJoin<S(!new)>(r: Relation<S>, a: nat, b: nat, i: S, m: S, j: S)
    requires Repeats(r, a, i, m) && Repeats(r, b, m, j)
    ensures Repeats(r, a + b, i, j)
  {
    if a > 0 {
      var x := RepeatsUnfold(r, a, i, m);
      RepeatsJoin(r, a - 1, b, x, m, j);
      RepeatsFold(r, a + b - 1, i, x, j);
    }
  }

  lemma OneCopy<S(!new)>(r: Relation<S>, i: S, j: S)
    ensures Repeats(r, 1, i, j) <==> r(i, j)
  {
    if Repeats(r, 1, i, j) {
      var m := RepeatsUnfold(r, 1, i, j);
    }
    if r(i, j) {
      RepeatsFold(r, 0, i, j, j);
    }
  }

  lemma Copy<S(!new)>(r: Relation<S>, q: Quantifier, c: nat, i: S, j: S)
    requires MayRepeat(q.lower, q.upper, c) && Repeats(r, c, i, j)
    ensures Iterated(r, q, i, j)
  {
  }

  lemma Copied<S(!new)>(r: Relation<S>, q: Quantifier, i: S, j: S) returns (c: nat)
    requires Iterated(r, q, i, j)
    ensures MayRepeat(q.lower, q.upper, c) && Repeats(r, c, i, j)
  {
    c :| MayRepeat(q.lower, q.upper, c) && Repeats(r, c, i, j);
  }

  /** Every copy of the body is a match of the quantifier. */
  lemma {:induction false} Grouped<S(!new)>(r: Relation<S>, q: Quantifier, k: nat, i: S, j: S)
    requires Popular(q) && Repeats(r, k, i, j)
    ensures Repeats(Over(r, q), k, i, j)
  {
    hide Iterated;
    if k > 0 {
      var m := RepeatsUnfold(r, k, i, j);
      Grouped(r, q, k - 1, m, j);
      OneCopy(r, i, m);
      Copy(r, q, 1, i, m);
      RepeatsFold(Over(r, q), k - 1, i, m, j);
    }
  }

  /** Matches of the quantifier in a row are copies of the body in a row. */
  lemma {:induction false} Flattened<S(!new)>(r: Relation<S>, q: Quantifier, k: nat, i: S, j: S) returns (c: nat)
    requires Popular(q) && Repeats(Over(r, q), k, i, j)
    ensures Repeats(r, c, i, j)
    ensures (k > 0 && q.lower == 1 ==> c > 0) && (q.upper.Finite? ==> c <= k)
  {
    hide Iterated;
    if k == 0 {
      c := 0;
    } else {
      var m := RepeatsUnfold(Over(r, q), k, i, j);
      var x := Copied(r, q, i, m);
      var y := Flattened(r, q, k - 1, m, j);
      RepeatsJoin(r, x, y, i, m, j);
      c := x + y;
    }
  }

  /** The one quantifier that two nested ones amount to, as far as bounds go. */
  function Product(p: Quantifier, c: Quantifier): Quantifier {
    Quantifier(if p.lower == 0 || c.lower == 0 then 0 else 1,
               if p.upper.Finite? && c.upper.Finite? then Finite(1) else Infinite, p.greedy)
  }

  /** Two of these quantifiers on one body match what one of them matches, whatever the body matches. */
  lemma NestedIsOne<S(!new)>(r: Relation<S>, c: Quantifier, p: Quantifier, q: Quantifier, i: S, j: S)
    requires Popular(c) && Popular(p) && q.lower == Product(p, c).lower && q.upper == Product(p, c).upper
    ensures Iterated(Over(r, c), p, i, j) <==> Iterated(r, q, i, j)
  {
    hide Iterated, Repeats;
    if Iterated(Over(r, c), p, i, j) {
      var k := Copied(Over(r, c), p, i, j);
      var n := Flattened(r, c, k, i, j);
      Copy(r, q, n, i, j);
    }
    if Iterated(r, q, i, j) {
      var n := Copied(r, q, i, j);
      if n == 0 {
        NoCopies(r, c, p, i, j);
      } else if p.upper.Finite? {
        Copy(r, c, n, i, j);
        OneCopy(Over(r, c), i, j);
        Copy(Over(r, c), p, 1, i, j);
      } else {
        Grouped(r, c, n, i, j);
        Copy(Over(r, c), p, n, i, j);
      }
    }
  }

  lemma NoCopies<S(!new)>(r: Relation<S>, c: Quantifier, p: Quantifier, i: S, j: S)
    requires Popular(c) && Popular(p) && (p.lower == 0 || c.lower == 0) && Repeats(r, 0, i, j)
    ensures Iterated(Over(r, c), p, i, j)
  {
    hide Iterated;
    if p.lower == 0 {
      Copy(Over(r, c), p, 0, i, j);
    } else {
      Copy(r, c, 0, i, j);
      OneCopy(Over(r, c), i, j);
      Copy(Over(r, c), p, 1, i, j);
    }
  }

  /** Two towers match the same on every body. */
  ghost predicate SameMatches<S(!new)>(a: seq<Quantifier>, b: seq<Quantifier>) {
    forall r: Relation<S>, i: S, j: S :: Layers(r, a)(i, j) <==> Layers(r, b)(i, j)
  }

  lemma LayersOfOne<S(!new)>(r: Relation<S>, q: Quantifier)
    ensures Layers(r, [q]) == Over(r, q)
  {
    assert [q][..0] == [];
  }

  lemma LayersOfTwo<S(!new)>(r: Relation<S>, c: Quantifier, p: Quantifier)
    ensures Layers(r, [c, p]) == Over(Over(r, c), p)
  {
    hide Over;
    LayersOfOne(r, c);
    assert [c, p][..1] == [c];
  }

  /** For all 36 pairs the simplified quantifiers match what the nested pair matches. */
  lemma MatchesKept<S(!new)>(c: Quantifier, p: Quantifier)
    requires Popular(c) && Popular(p)
    ensures SameMatches<S>(Simplified(c, p), [c, p])
  {
    hide Iterated, Layers;
    var left := Simplified(c, p);
    forall r: Relation<S>, i: S, j: S ensures Layers(r, left)(i, j) <==> Layers(r, [c, p])(i, j) {
      LayersOfTwo(r, c, p);
      if |left| == 1 {
        LayersOfOne(r, left[0]);
        NestedIsOne(r, c, p, left[0], i, j);
      } else {
        LayersOfTwo(r, left[0], left[1]);
        NestedIsOne(r, c, p, Product(p, c), i, j);
        NestedIsOne(r, left[0], left[1], Product(p, c), i, j);
      }
    }
  }

  // ----- trees -----

  /** What a tree matches in a text. */
  ghost function Relates(n: Node, u: Subject): Relation<nat> {
    (i: nat, j: nat) => Matches(n, u, i, j)
  }

  lemma {:induction false} TimesIsRepeats(t: Node, u: Subject, k: nat, i: nat, j: nat)
    ensures MatchesTimes(t, u, k, i, j) <==> Repeats(Relates(t, u), k, i, j)
  {
    hide Matches;
    if k > 0 {
      if MatchesTimes(t, u, k, i, j) {
        var m := TimesUnfold(t, u, k, i, j);
        TimesIsRepeats(t, u, k - 1, m, j);
        RepeatsFold(Relates(t, u), k - 1, i, m, j);
      }
      if Repeats(Relates(t, u), k, i, j) {
        var m := RepeatsUnfold(Relates(t, u), k, i, j);
        TimesIsRepeats(t, u, k - 1, m, j);
        TimesFold(t, u, k - 1, i, m, j);
      }
    }
  }

  lemma {:induction false} RepeatsSame(r: Relation<nat>, r': Relation<nat>, k: nat, i: nat, j: nat)
    requires forall x: nat, y: nat :: r(x, y) <==> r'(x, y)
    requires Repeats(r, k, i, j)
    ensures Repeats(r', k, i, j)
  {
    if k > 0 {
      var m := RepeatsUnfold(r, k, i, j);
      RepeatsSame(r, r', k - 1, m, j);
      RepeatsFold(r', k - 1, i, m, j);
    }
  }

  lemma QuantifierMatches(q: Node, r: Relation<nat>, u: Subject, i: nat, j: nat)
    requires q.Quant? && forall x: nat, y: nat :: Relates(q.target, u)(x, y) <==> r(x, y)
    ensures Matches(q, u, i, j) <==> Iterated(r, Quantifier(q.lower, q.upper, q.greedy), i, j)
  {
    hide MatchesTimes, Repeats, Relates;
    forall k: nat ensures MatchesTimes(q.target, u, k, i, j) <==> Repeats(r, k, i, j) {
      TimesIsRepeats(q.target, u, k, i, j);
      if Repeats(Relates(q.target, u), k, i, j) { RepeatsSame(Relates(q.target, u), r, k, i, j); }
      if Repeats(r, k, i, j) { RepeatsSame(r, Relates(q.target, u), k, i, j); }
    }
  }

  lemma {:induction false} NestMatches(t: Node, qs: seq<Quantifier>, u: Subject, i: nat, j: nat)
    ensures Matches(Nest(t, qs), u, i, j) <==> Layers(Relates(t, u), qs)(i, j)
    decreases |qs|
  {
    hide Matches, Iterated;
    if qs != [] {
      var below := qs[..|qs| - 1];
      forall x: nat, y: nat ensures Matches(Nest(t, below), u, x, y) <==> Layers(Relates(t, u), below)(x, y) {
        NestMatches(t, below, u, x, y);
      }
      QuantifierMatches(Nest(t, qs), Layers(Relates(t, u), below), u, i, j);
    }
  }

  /** The laws for towers carry over to trees, each level with its own bounds and its own greed. */
  lemma SameTrees(t: Node, a: seq<Quantifier>, b: seq<Quantifier>, u: Subject, i: nat, j: nat)
    requires SameMatches<nat>(a, b)
    ensures Matches(Nest(t, a), u, i, j) <==> Matches(Nest(t, b), u, i, j)
  {
    hide Matches, Layers, Nest;
    NestMatches(t, a, u, i, j);
    NestMatches(t, b, u, i, j);
  }

  // ----- the nodes -----

  datatype Target = Plain(n: Node) | Nested(c: QualifierNode) | Nothing

  class QualifierNode {
    var target: Target
    var lower: Count
    var upper: Upper
    var greedy: bool

    constructor (target: Target, lower: Count, upper: Upper, greedy: bool)
      ensures this.target == target && this.lower == lower && this.upper == upper && this.greedy == greedy
    {
      this.target, this.lower, this.upper, this.greedy := target, lower, upper, greedy;
    }

    function Own(): Quantifier
      reads this
    {
      Quantifier(lower, upper, greedy)
    }

    /** popular_qualifier_num. */
    function PopularNum(): (r: int)
      reads this
      ensures r >= 0 <==> Popular(Own())
      ensures r < 6
    {
      if greedy then
        if lower == 0 then (if upper == Finite(1) then 0 else if upper.Infinite? then 1 else -1)
        else if lower == 1 && upper.Infinite? then 2 else -1
      else
        if lower == 0 then (if upper == Finite(1) then 3 else if upper.Infinite? then 4 else -1)
        else if lower == 1 && upper.Infinite? then 5 else -1
    }

    /** The tree under this node: a body, or one more quantifier on a body. */
    ghost predicate IsTree()
      reads this, if target.Nested? then {target.c} else {}
    {
      match target
      case Plain(_) => true
      case Nested(c) => c != this && c.target.Plain?
      case Nothing => false
    }

    ghost function Innermost(): Node
      requires IsTree()
      reads this, if target.Nested? then {target.c} else {}
    {
      if target.Plain? then target.n else target.c.target.n
    }

    /** The quantifiers from the inside to this node. */
    ghost function AllQuantifiers(): seq<Quantifier>
      requires IsTree()
      reads this, if target.Nested? then {target.c} else {}
    {
      if target.Plain? then [Own()] else [target.c.Own(), Own()]
    }
  }

  datatype Reduction = AsIs | Del | ToStar | ToLazyStar | ToLazyOption | PlusInLazyOption | LazyPlusInOption

  /** By child (row) and parent (column), in the order ? * + ?? *? +?. */
  const REDUCES: seq<seq<Reduction>> := [
    [Del,  ToStar,           ToStar, ToLazyOption,     ToLazyStar,       AsIs],
    [Del,  Del,              Del,    PlusInLazyOption, PlusInLazyOption, Del],
    [ToStar, ToStar,         Del,    AsIs,             PlusInLazyOption, Del],
    [Del,  ToLazyStar,       ToLazyStar, Del,          ToLazyStar,       ToLazyStar],
    [Del,  Del,              Del,    Del,              Del,              Del],
    [AsIs, LazyPlusInOption, Del,    ToLazyStar,       ToLazyStar,       Del]
  ]

  /** reduce_nested_qualifier: for every pair of popular quantifiers the node left behind stands on
      the same body, and matches what the nested pair matched, whatever the body matches. On bodies that
      always consume something it also keeps the order of preference, except for `+?` under `*` or `+`. */
  method ReduceNestedQualifier(p: QualifierNode, c: QualifierNode)
    requires p != c && c.target.Plain? && p.PopularNum() >= 0 && c.PopularNum() >= 0
    modifies p, c
    ensures p.IsTree() && p.Innermost() == old(c.Innermost())
    ensures SameMatches<Out>(p.AllQuantifiers(), [old(c.Own()), old(p.Own())])
    ensures SameMatches<nat>(p.AllQuantifiers(), [old(c.Own()), old(p.Own())])
    ensures forall q :: q in p.AllQuantifiers() ==> Popular(q)
    ensures SameOrder(p.AllQuantifiers(), [old(c.Own()), old(p.Own())]) <==> !Reorders(old(c.Own()), old(p.Own()))
  {
    hide SameMatches, SameOrder;
    ghost var cq, pq := c.Own(), p.Own();
    var num, cnum := p.PopularNum(), c.PopularNum();
    match REDUCES[cnum][num] {
      case Del =>
        p.target, p.lower, p.upper, p.greedy := c.target, c.lower, c.upper, c.greedy;
        c.target := Nothing;
      case ToStar =>
        p.target := c.target;
        p.lower, p.upper, p.greedy := 0, Infinite, true;
        c.target := Nothing;
      case ToLazyStar =>
        p.target := c.target;
        p.lower, p.upper, p.greedy := 0, Infinite, false;
        c.target := Nothing;
      case ToLazyOption =>
        p.target := c.target;
        p.lower, p.upper, p.greedy := 0, Finite(1), false;
        c.target := Nothing;
      case PlusInLazyOption =>
        p.target := Nested(c);
        p.lower, p.upper, p.greedy := 0, Finite(1), false;
        c.lower, c.upper, c.greedy := 1, Infinite, true;
      case LazyPlusInOption =>
        p.target := Nested(c);
        p.lower, p.upper, p.greedy := 0, Finite(1), true;
        c.lower, c.upper, c.greedy := 1, Infinite, false;
      case AsIs =>
        p.target := Nested(c);
    }
    assert p.AllQuantifiers() == Simplified(cq, pq);
    MatchesKept<Out>(cq, pq);
    MatchesKept<nat>(cq, pq);
    if Reorders(cq, pq) { OrderChanged(cq, pq); } else { OrderKept(cq, pq); }
  }
}
