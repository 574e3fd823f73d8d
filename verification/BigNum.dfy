/** Multi-precision integers as objects: sign and magnitude (ruby/bignum.c). */
module BigNum {
  import opened BigBase
  import opened BigDivision

  class Bignum {
    var sign: bool
    var digits: array<Digit>
    var len: nat

    ghost predicate Valid()
      reads this
    {
      0 < len <= digits.Length
    }

    /** The leading digit is not zero, unless the number is a single digit. */
    ghost predicate Normal()
      requires Valid()
      reads this, digits
    {
      len > 1 ==> digits[len - 1] != 0
    }

    ghost function Mag(): (m: int)
      requires Valid()
      reads this, digits
      ensures m >= 0
    {
      ValueBound(digits[..len]);
      Value(digits[..len])
    }

    ghost function ToInt(): int
      requires Valid()
      reads this, digits
    {
      if sign then Mag() else -Mag()
    }

    /** bignew: digits are not initialised. */
    constructor (len: nat, sign: bool)
      requires len > 0
      ensures Valid() && this.len == len == digits.Length && this.sign == sign && fresh(digits)
    {
      this.sign, this.len := sign, len;
      digits := new Digit[len];
    }

    /** rb_uint2big for a value of one digit. */
    constructor Small(d: Digit)
      ensures Valid() && len == 1 && sign && fresh(digits) && digits[0] == d && Mag() == d
    {
      sign, len := true, 1;
      digits := new Digit[1];
      new;
      digits[0] := d;
      assert digits[..1] == [d];
      ValueOne(d);
    }

    /** rb_big_clone. */
    method Clone() returns (z: Bignum)
      requires Valid()
      ensures fresh(z) && z.Valid() && fresh(z.digits) && z.digits.Length == z.len == len && z.sign == sign
      ensures z.digits[..] == digits[..len]
    {
      z := new Bignum(len, sign);
      var i := 0;
      while i < len
        invariant 0 <= i <= len && z.len == z.digits.Length == len && z.sign == sign && fresh(z) && fresh(z.digits) && z.Valid()
        invariant z.digits[..i] == digits[..i]
        modifies z.digits
      {
        z.digits[i] := digits[i];
        i := i + 1;
      }
    }
  }

  // ----- shifts -----

  /** `n` digits shifted left by `dd` bits; what leaves them at the top is the result. */
  method ShiftLeft(src: array<Digit>, n: nat, dst: array<Digit>, dd: nat) returns (t2: int)
    requires src != dst && n <= src.Length && n <= dst.Length
    modifies dst
    ensures dst[n..] == old(dst[n..]) && 0 <= t2 < Pow2(dd)
    ensures Value(dst[..n]) + t2 * Pow(n) == Pow2(dd) * Value(src[..n])
  {
    hide Value, Pow, BigDn, BigLo, Pow2;
    var j := 0;
    t2 := 0;
    ValueEmpty();
    assert src[0..0] == [] && dst[0..0] == [];
    while j < n
      invariant 0 <= j <= n && 0 <= t2 < Pow2(dd)
      invariant dst[n..] == old(dst[n..])
      invariant Value(dst[0..0 + j]) + t2 * Pow(j) == Pow2(dd) * Value(src[0..0 + j])
    {
      ghost var mid, t0 := dst[..], t2;
      ShiftCarry(t2, src[j], Pow2(dd));
      t2 := t2 + src[j] * Pow2(dd);
      dst[j] := BigLo(t2);
      ShiftLeftStep(Value(mid[0..0 + j]), t0, Pow(j), Pow2(dd), Value(src[0..0 + j]), src[j], BigDn(t2), dst[j], BIGRAD);
      t2 := BigDn(t2);
      assert dst[0..0 + j] == mid[0..0 + j];
      SliceStep(dst[..], 0, j);
      SliceStep(src[..], 0, j);
      PowStep(j);
      j := j + 1;
    }
    assert dst[0..0 + n] == dst[..n] && src[0..0 + n] == src[..n];
  }

  lemma ShiftCarry(t2: int, s: Digit, p: int)
    requires 0 <= t2 < p
    ensures 0 <= BigDn(t2 + s * p) < p
  {
    hide BigDn, BigLo;
    var t := t2 + s * p;
    MulMonotone(s, BIGRAD - 1, p);
    MulMonotone(0, s, p);
    assert (BIGRAD - 1) * p == p * BIGRAD - p;
    assert BigDn(t) * BIGRAD + BigLo(t) == t;
    Cancel(BigDn(t), p, BIGRAD);
    Cancel(-1, BigDn(t), BIGRAD);
  }

  lemma ShiftLeftStep(v: int, t2: int, p: int, d: int, vs: int, s: int, hi: int, lo: int, b: int)
    requires v + t2 * p == d * vs && t2 + s * d == hi * b + lo
    ensures v + p * lo + hi * (b * p) == d * (vs + p * s)
  {
    assert hi * (b * p) == (hi * b) * p;
    assert (hi * b) * p == (t2 + s * d - lo) * p;
    assert (t2 + s * d - lo) * p == t2 * p + (s * d) * p - lo * p;
    assert d * (vs + p * s) == d * vs + (s * d) * p;
  }

  /** The low digit of a shifted pair of digits. */
  lemma ShiftedPair(a: int, m: int, w: int, d: int, b: int) returns (q: int, r: int)
    requires d > 0 && b > 0 && 0 <= m < d && 0 <= w < b
    ensures m * b + w == d * q + r && 0 <= q < b && 0 <= r < d
    ensures ((d * a + m) * b + w) / d % b == q
  {
    var u := m * b + w;
    MulMonotone(m, d - 1, b);
    MulMonotone(0, m, b);
    assert (d - 1) * b == d * b - b;
    q, r := u / d, u % d;
    QuotientIs(u, d);
    Cancel(q, b, d);
    assert u == d * q + r;
    PairQuotient(a, m, w, d, b, q, r);
    DivideIs(b * a + q, b, a, q);
  }

  lemma PairQuotient(a: int, m: int, w: int, d: int, b: int, q: int, r: int)
    requires d > 0 && m * b + w == d * q + r && 0 <= r < d
    ensures ((d * a + m) * b + w) / d == b * a + q
  {
    assert (d * a + m) * b == d * (b * a) + m * b;
    assert d * (b * a + q) == d * (b * a) + d * q;
    DivideIs((d * a + m) * b + w, d, b * a + q, r);
  }

  lemma WholeQuotient(x: int, m: int, w: int, d: int, b: int, q: int, r: int)
    requires d > 0 && m * b + w == d * q + r && 0 <= r < d
    ensures (w + b * (d * x + m)) / d == b * x + q
  {
    assert b * (d * x + m) == d * (b * x) + m * b;
    assert d * (b * x + q) == d * (b * x) + d * q;
    DivideIs(w + b * (d * x + m), d, b * x + q, r);
  }

  lemma SameRemainder(prev: int, above: int, d: int, e: int, b: int)
    requires d > 0 && b == d * e
    ensures prev + b * above == d * (prev / d + e * above) + prev % d
  {
    MulAssoc(d, e, above);
    assert d * (prev / d + e * above) == d * (prev / d) + d * (e * above);
    assert prev == d * (prev / d) + prev % d;
  }

  /** What one more digit above does to a shifted value. */
  lemma ShiftRightStep(prev: int, w: int, above: int, v: int, d: int, e: int, b: int)
    requires d > 0 && e > 0 && b == d * e && 0 <= w < b && v == prev + b * above
    ensures b > 0 && (prev * b + w) / d % b + b * (v / d) == (w + b * v) / d
  {
    PositiveProduct(d, e);
    var a, m := prev / d, prev % d;
    assert prev == d * a + m;
    var q, r := ShiftedPair(a, m, w, d, b);
    SameRemainder(prev, above, d, e, b);
    var x := a + e * above;
    DivideIs(v, d, x, m);
    WholeQuotient(x, m, w, d, b, q, r);
  }

  lemma DivideIs(x: int, d: int, q: int, r: int)
    requires d > 0 && x == d * q + r && 0 <= r < d
    ensures x / d == q && x % d == r
  {
    assert x == x / d * d + x % d;
    UniqueDivision(d, x / d, x % d, q, r);
  }

  lemma {:induction false} Pow2Add(a: nat, b: nat)
    ensures Pow2(a + b) == Pow2(a) * Pow2(b)
  {
    if a > 0 {
      Pow2Add(a - 1, b);
      MulAssoc(2, Pow2(a - 1), Pow2(b));
    }
  }

  /** `n` digits shifted right by `dd` bits, in place, from the top. */
  method ShiftRight(z: array<Digit>, n: nat, dd: nat)
    requires n <= z.Length && dd < BITSPERDIG
    modifies z
    ensures z[n..] == old(z[n..])
    ensures Value(z[..n]) == old(Value(z[..n])) / Pow2(dd)
  {
    hide Value, Pow, Pow2, BigLo, BigDn;
    ghost var was := z[..];
    var t2, i := 0, n;
    ValueEmpty();
    assert z[n..n] == [] && was[n..n] == [];
    ZeroDivided(Pow2(dd));
    while i > 0
      invariant 0 <= i <= n && z[n..] == was[n..] && z[..i] == was[..i]
      invariant t2 == if i == n then 0 else was[i] * BIGRAD
      invariant Value(z[i..n]) == Value(was[i..n]) / Pow2(dd)
    {
      ghost var mid := z[..];
      i := i - 1;
      assert z[i] == was[i];
      // `|` of a digit and a number without a low digit is `+`
      t2 := (t2 + z[i]) / Pow2(dd);
      var q := z[i];
      ShiftRightDigit(was, i, n, dd, t2);
      z[i] := t2 % BIGRAD;
      t2 := q * BIGRAD;
      assert z[i + 1..n] == mid[i + 1..n];
      ValueHead(z[..], i, n);
      ValueHead(was, i, n);
    }
    assert z[0..n] == z[..n] && was[0..n] == was[..n];
  }

  lemma ZeroDivided(d: int)
    requires d > 0
    ensures 0 / d == 0
  {
    DivideIs(0, d, 0, 0);
  }

  lemma ShiftRightDigit(was: seq<Digit>, i: nat, n: nat, dd: nat, t2: int)
    requires i < n <= |was| && dd < BITSPERDIG
    requires t2 == ((if i + 1 == n then 0 else was[i + 1] * BIGRAD) + was[i]) / Pow2(dd)
    ensures 0 <= t2 % BIGRAD < BIGRAD
    ensures t2 % BIGRAD + BIGRAD * (Value(was[i + 1..n]) / Pow2(dd)) == (was[i] + BIGRAD * Value(was[i + 1..n])) / Pow2(dd)
  {
    hide Value, Pow2;
    Pow2Add(dd, BITSPERDIG - dd);
    assert dd + (BITSPERDIG - dd) == BITSPERDIG;
    var v := Value(was[i + 1..n]);
    ValueBound(was[i + 1..n]);
    var e := Pow2(BITSPERDIG - dd);
    if i + 1 == n {
      assert was[i + 1..n] == [];
      ValueEmpty();
      ShiftRightStep(0, was[i], 0, v, Pow2(dd), e, BIGRAD);
    } else {
      ValueHead(was, i + 1, n);
      ValueBound(was[i + 2..n]);
      ShiftRightStep(was[i + 1], was[i], Value(was[i + 2..n]), v, Pow2(dd), e, BIGRAD);
    }
  }

  // ----- division by one digit -----

  /** `n` digits divided by one digit, or by another small number, in place, from the top. */
  method DivideByDigit(z: array<Digit>, n: nat, dd: int) returns (t2: int)
    requires n <= z.Length && dd > 0
    modifies z
    ensures z[n..] == old(z[n..]) && 0 <= t2 < dd
    ensures old(Value(z[..n])) == Value(z[..n]) * dd + t2
  {
    hide Value, Pow;
    ghost var was := z[..];
    t2 := 0;
    var i := n;
    ValueEmpty();
    assert z[n..n] == [] && was[n..n] == [];
    while i > 0
      invariant 0 <= i <= n && z[n..] == was[n..] && z[..i] == was[..i] && 0 <= t2 < dd
      invariant Value(was[i..n]) == Value(z[i..n]) * dd + t2
    {
      ghost var mid, t0 := z[..], t2;
      i := i - 1;
      assert z[i] == was[i];
      var t := t2 * BIGRAD + z[i];
      ShortStep(t2, was[i], dd, Value(mid[i + 1..n]), BIGRAD);
      z[i] := t / dd;
      t2 := t % dd;
      assert z[i + 1..n] == mid[i + 1..n];
      ValueHead(z[..], i, n);
      ValueHead(was, i, n);
    }
    assert z[0..n] == z[..n] && was[0..n] == was[..n];
  }

  lemma ShortStep(t2: int, w: int, d: int, q: int, b: int)
    requires 0 <= t2 < d && 0 <= w < b && d > 0
    ensures var t := t2 * b + w; 0 <= t / d < b && 0 <= t % d < d && w + b * (q * d + t2) == (t / d + b * q) * d + t % d
  {
    var t := t2 * b + w;
    MulMonotone(t2, d - 1, b);
    MulMonotone(0, t2, b);
    assert (d - 1) * b == b * d - b;
    QuotientIs(t, d);
    Cancel(t / d, b, d);
    ShortSum(t2, w, d, q, b, t / d, t % d) by { assert t == d * (t / d) + t % d; }
  }

  lemma ShortSum(t2: int, w: int, d: int, q: int, b: int, x: int, r: int)
    requires t2 * b + w == d * x + r
    ensures w + b * (q * d + t2) == (x + b * q) * d + r
  {
    assert (x + b * q) * d == x * d + b * (q * d);
    assert b * (q * d + t2) == b * (q * d) + t2 * b;
  }
}
