/** Digits of multi-precision integers (ruby/bignum.c). The width of a digit is a parameter of
    the whole development: it is at least 16 bits, and nothing else is known of it. */
module BigBase {
  type Bits = n: int | 16 <= n witness 16

  const BITSPERDIG: Bits

  function Pow2(n: nat): (r: int)
    ensures r > 0
  {
    if n == 0 then 1 else 2 * Pow2(n - 1)
  }

  const BIGRAD: int := Pow2(BITSPERDIG)

  type Digit = d: int | 0 <= d < BIGRAD witness 0

  /** BIGDN: an arithmetic shift, so it rounds down for negative numbers too. */
  function BigDn(x: int): int {
    x / BIGRAD
  }

  /** BIGLO. */
  function BigLo(x: int): (r: Digit)
    ensures x == BigDn(x) * BIGRAD + r
  {
    LoIsDigit(x);
    x % BIGRAD
  }

  lemma LoIsDigit(x: int)
    ensures 0 <= x % BIGRAD < BIGRAD && x == x / BIGRAD * BIGRAD + x % BIGRAD
  {
  }

  lemma UniqueDivision(b: int, h: int, l: int, h': int, l': int)
    requires 0 <= l < b && 0 <= l' < b && h * b + l == h' * b + l'
    ensures h == h' && l == l'
  {
    if h < h' {
      MulStrict(h, h', b);
    } else if h' < h {
      MulStrict(h', h, b);
    }
  }

  /** A split into a low digit and the rest is the one that BigLo and BigDn make. */
  lemma SplitIs(x: int, hi: int, lo: int)
    requires 0 <= lo < BIGRAD && x == hi * BIGRAD + lo
    ensures BigDn(x) == hi && BigLo(x) == lo
  {
    hide BigDn, BigLo;
    UniqueDivision(BIGRAD, BigDn(x), BigLo(x), hi, lo);
  }

  /** BIGRAD to the power `n`. */
  function Pow(n: nat): (r: int)
    ensures r > 0
  {
    if n == 0 then 1 else PositiveTimes(BIGRAD, Pow(n - 1))
  }

  /** A product of positive numbers. */
  function PositiveTimes(a: int, b: int): (r: int)
    requires a > 0 && b > 0
    ensures r == a * b && r > 0
  {
    PositiveProduct(a, b);
    a * b
  }

  lemma PositiveProduct(a: int, b: int)
    requires a > 0 && b > 0
    ensures a * b > 0
  {
  }

  lemma PowStep(n: nat)
    ensures Pow(n + 1) == BIGRAD * Pow(n) && Pow(n + 1) == Pow(n) * BIGRAD
    ensures Pow(0) == 1 && Pow(1) == BIGRAD
  {
    assert Pow(1) == PositiveTimes(BIGRAD, Pow(0));
  }

  lemma {:induction false} PowAdd(a: nat, b: nat)
    ensures Pow(a + b) == Pow(a) * Pow(b)
  {
    hide Pow;
    PowStep(0);
    if a == 0 {
      assert Pow(0 + b) == 1 * Pow(b);
    } else {
      PowAdd(a - 1, b);
      PowStep(a - 1 + b);
      PowStep(a - 1);
      assert a - 1 + b + 1 == a + b;
      MulAssoc(BIGRAD, Pow(a - 1), Pow(b));
    }
  }

  lemma MulAssoc(a: int, b: int, c: int)
    ensures (a * b) * c == a * (b * c)
  {
  }

  /** The magnitude that little-endian digits stand for. */
  function Value(ds: seq<Digit>): int {
    if ds == [] then 0 else ds[0] + BIGRAD * Value(ds[1..])
  }

  lemma {:induction false} ValueBound(ds: seq<Digit>)
    ensures 0 <= Value(ds) < Pow(|ds|)
  {
    hide Pow;
    PowStep(0);
    if ds != [] {
      ValueBound(ds[1..]);
      PowStep(|ds| - 1);
      BoundSum(BIGRAD, Pow(|ds| - 1), Value(ds[1..]));
    }
  }

  lemma BoundSum(base: int, p: int, v: int)
    requires 0 <= v < p && base > 0
    ensures 0 <= base * v && base * v + base <= base * p
  {
    MulMonotone(v + 1, p, base);
    MulMonotone(0, v, base);
    assert base * (v + 1) == base * v + base;
  }

  lemma MulMonotone(a: int, b: int, c: int)
    requires a <= b && c >= 0
    ensures a * c <= b * c && c * a <= c * b
  {
  }

  lemma MulStrict(a: int, b: int, c: int)
    requires a < b && c > 0
    ensures a * c < b * c && c * a < c * b
    ensures a * c + c <= b * c
  {
    MulMonotone(a + 1, b, c);
    assert (a + 1) * c == a * c + c;
  }

  lemma Cancel(a: int, b: int, c: int)
    requires a * c < b * c && c > 0
    ensures a < b
  {
    if a >= b { MulMonotone(b, a, c); }
  }

  lemma {:induction false} ValueConcat(a: seq<Digit>, b: seq<Digit>)
    ensures Value(a + b) == Value(a) + Pow(|a|) * Value(b)
  {
    hide Pow;
    PowStep(0);
    if a == [] {
      assert a + b == b;
      assert Pow(0) * Value(b) == Value(b);
    } else {
      assert (a + b)[1..] == a[1..] + b;
      ValueConcat(a[1..], b);
      PowStep(|a| - 1);
      ConcatSum(BIGRAD, Pow(|a| - 1), Value(a[1..]), Value(b));
    }
  }

  lemma ConcatSum(base: int, p: int, v: int, w: int)
    ensures base * (v + p * w) == base * v + (base * p) * w
  {
    MulAssoc(base, p, w);
  }

  lemma ValueOne(d: Digit)
    ensures Value([d]) == d
  {
    assert [d][1..] == [];
    assert Value([d]) == d + BIGRAD * Value([]);
  }

  lemma ValueSnoc(ds: seq<Digit>, d: Digit)
    ensures Value(ds + [d]) == Value(ds) + Pow(|ds|) * d
  {
    hide Pow, Value;
    ValueConcat(ds, [d]);
    ValueOne(d);
  }

  lemma ValueEmpty()
    ensures Value([]) == 0
  {
  }

  lemma {:induction false} ValueZeros(ds: seq<Digit>)
    ensures (forall i :: 0 <= i < |ds| ==> ds[i] == 0) <==> Value(ds) == 0
  {
    hide Pow;
    if ds != [] {
      ValueZeros(ds[1..]);
      ValueBound(ds[1..]);
      var v := Value(ds[1..]);
      if v > 0 {
        MulMonotone(1, v, BIGRAD);
        assert exists i :: 0 <= i < |ds[1..]| && ds[1..][i] != 0;
        var i :| 0 <= i < |ds[1..]| && ds[1..][i] != 0;
        assert ds[i + 1] != 0;
      } else {
        assert forall i :: 0 < i < |ds| ==> ds[i] == ds[1..][i - 1];
      }
    }
  }

  /** The topmost digit says how large the number is. */
  lemma TopDigit(ds: seq<Digit>)
    requires ds != []
    ensures var t := ds[|ds| - 1];
            Value(ds) == Value(ds[..|ds| - 1]) + Pow(|ds| - 1) * t &&
            t * Pow(|ds| - 1) <= Value(ds) < (t + 1) * Pow(|ds| - 1)
  {
    hide Pow, Value;
    var low, t := ds[..|ds| - 1], ds[|ds| - 1];
    assert ds == low + [t];
    ValueSnoc(low, t);
    ValueBound(low);
    assert (t + 1) * Pow(|ds| - 1) == t * Pow(|ds| - 1) + Pow(|ds| - 1);
  }
}
