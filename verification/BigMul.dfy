/** rb_big_mul and rb_big_pow (ruby/bignum.c): schoolbook multiplication in one result array, and
    powers by repeated squaring. */
module BigMul {
  import opened BigBase
  import opened BigDivision
  import opened BigNum
  import BigBits

  lemma RowStep(v: int, n: int, p: int, v0: int, dd: int, vy: int, w: int, yj: int, hi: int, lo: int, b: int)
    requires v + n * p == v0 + dd * vy && w + n + dd * yj == hi * b + lo
    ensures v + p * lo + hi * (b * p) == v0 + p * w + dd * (vy + p * yj)
  {
    assert hi * (b * p) == (hi * b) * p;
    assert (hi * b) * p == (w + n + dd * yj - lo) * p;
    assert (w + n + dd * yj - lo) * p == w * p + n * p + (dd * yj) * p - lo * p;
    assert dd * (vy + p * yj) == dd * vy + (dd * yj) * p;
  }

  lemma RowCarry(w: Digit, n: int, dd: Digit, yj: Digit)
    requires 0 <= n < BIGRAD
    ensures 0 <= BigDn(w + n + dd * yj) < BIGRAD
    ensures w + n + dd * yj < BIGRAD * BIGRAD
  {
    hide BigDn, BigLo;
    MulMonotone(0, dd, yj);
    MulMonotone(dd, BIGRAD - 1, yj);
    MulMonotone(yj, BIGRAD - 1, BIGRAD - 1);
    assert (BIGRAD - 1) * (BIGRAD - 1) == BIGRAD * BIGRAD - 2 * BIGRAD + 1;
    var t := w + n + dd * yj;
    assert BigDn(t) * BIGRAD + BigLo(t) == t;
    Cancel(BigDn(t), BIGRAD, BIGRAD);
    Cancel(-1, BigDn(t), BIGRAD);
  }

  /** The inner loop: `dd` times the other factor is added from place `i` on. What is carried out
      of the row goes to the place above it, which is still zero. */
  method AddRow(z: array<Digit>, i: nat, dd: Digit, y: Bignum)
    requires y.Valid() && z != y.digits && i + y.len < z.Length && z[i + y.len] == 0
    modifies z
    ensures z[..i] == old(z[..i]) && z[i + y.len + 1..] == old(z[i + y.len + 1..])
    ensures Value(z[i..i + y.len + 1]) == old(Value(z[i..i + y.len])) + dd * y.Mag()
  {
    hide Value, Pow, BigDn, BigLo;
    ghost var was := z[..];
    var j, n := 0, 0;
    ValueEmpty();
    assert z[i..i + 0] == [] && y.digits[0..0] == [];
    while j < y.len
      invariant 0 <= j <= y.len && 0 <= n < BIGRAD
      invariant z[..i] == was[..i] && z[i + j..] == was[i + j..]
      invariant Value(z[i..i + j]) + n * Pow(j) == Value(was[i..i + j]) + dd * Value(y.digits[0..0 + j])
    {
      ghost var mid, n0 := z[..], n;
      assert z[i + j] == was[i + j];
      RowCarry(z[i + j], n, dd, y.digits[j]);
      var ee := n + dd * y.digits[j];
      n := z[i + j] + ee;
      if ee != 0 { z[i + j] := BigLo(n); } else { SplitIs(n, 0, z[i + j]); }
      RowStep(Value(mid[i..i + j]), n0, Pow(j), Value(was[i..i + j]), dd, Value(y.digits[0..0 + j]), was[i + j], y.digits[j],
              BigDn(n), z[i + j], BIGRAD);
      n := BigDn(n);
      assert z[i..i + j] == mid[i..i + j];
      SliceStep(z[..], i, j);
      SliceStep(was, i, j);
      SliceStep(y.digits[..], 0, j);
      PowStep(j);
      j := j + 1;
    }
    ghost var mid := z[..];
    assert z[i + j] == 0;
    if n != 0 { z[i + j] := n; }
    assert z[i..i + j] == mid[i..i + j];
    SliceStep(z[..], i, j);
    assert y.digits[0..0 + y.len] == y.digits[..y.len];
  }

  /** A row changes the whole number by its weight. */
  lemma RowWeight(was: seq<Digit>, now: seq<Digit>, i: nat, n: nat, row: int)
    requires i <= n < |was| == |now| && was[..i] == now[..i]
    requires Value(was) == Value(was[..n]) && Value(now) == Value(now[..n + 1])
    requires Value(now[i..n + 1]) == Value(was[i..n]) + row
    ensures Value(now) == Value(was) + Pow(i) * row
  {
    hide Value, Pow;
    SlicesAt(now, i, n + 1);
    SlicesAt(was, i, n);
    Weighted(Pow(i), Value(was[i..n]), row);
  }

  lemma Weighted(p: int, a: int, b: int)
    ensures p * (a + b) == p * a + p * b
  {
  }

  lemma RestZero(was: seq<Digit>, now: seq<Digit>, n: nat)
    requires n <= |was| == |now| && was[n..] == now[n..] && forall k :: n <= k < |was| ==> was[k] == 0
    ensures forall k :: n <= k < |now| ==> now[k] == 0
  {
    forall k | n <= k < |now| ensures now[k] == 0 {
      assert now[n..][k - n] == was[n..][k - n];
    }
  }

  lemma ZerosAbove(z: seq<Digit>, n: nat)
    requires n <= |z| && forall k :: n <= k < |z| ==> z[k] == 0
    ensures Value(z) == Value(z[..n])
  {
    hide Value, Pow;
    SlicesAt(z, n, |z|);
    assert z[..|z|] == z;
    ValueZeros(z[n..|z|]);
  }

  /** rb_big_mul, before bignorm: the product. */
  method BigMultiply(x: Bignum, y: Bignum) returns (z: Bignum)
    requires x.Valid() && y.Valid()
    ensures fresh(z) && z.Valid() && z.ToInt() == x.ToInt() * y.ToInt()
    ensures z.len == x.len + y.len + 1
  {
    hide Value, Pow;
    z := new Bignum(x.len + y.len + 1, x.sign == y.sign);
    var zds := z.digits;
    BigBits.ZeroLow(zds, zds.Length);
    assert zds[..zds.Length] == zds[..];
    ValueZeros(zds[..]);
    var i := 0;
    ValueEmpty();
    assert x.digits[0..0] == [];
    while i < x.len
      invariant 0 <= i <= x.len && z.digits == zds && z.len == zds.Length == x.len + y.len + 1 && z.sign == (x.sign == y.sign)
      invariant Value(zds[..]) == Value(x.digits[0..0 + i]) * y.Mag()
      invariant forall k :: i + y.len <= k < zds.Length ==> zds[k] == 0
      modifies zds
    {
      var dd := x.digits[i];
      SliceStep(x.digits[..], 0, i);
      Distributed(Value(x.digits[0..0 + i]), Pow(i), dd, y.Mag());
      if dd != 0 {
        ghost var was := zds[..];
        AddRow(zds, i, dd, y);
        ZerosAbove(was, i + y.len);
        RestZero(was, zds[..], i + y.len + 1);
        ZerosAbove(zds[..], i + y.len + 1);
        RowWeight(was, zds[..], i, i + y.len, dd * y.Mag());
      }
      i := i + 1;
    }
    assert x.digits[0..0 + x.len] == x.digits[..x.len];
    assert z.digits[..z.len] == zds[..];
    SignedProduct(x.sign, x.Mag(), y.sign, y.Mag());
  }

  lemma Distributed(a: int, p: int, d: int, y: int)
    ensures (a + p * d) * y == a * y + p * (d * y)
  {
    MulAssoc(p, d, y);
  }

  lemma SignedProduct(xs: bool, x: int, ys: bool, y: int)
    ensures (if xs == ys then x * y else -(x * y)) == (if xs then x else -x) * (if ys then y else -y)
  {
  }

  ghost function Power(b: int, e: nat): int {
    if e == 0 then 1 else b * Power(b, e - 1)
  }

  /** An even power is a power of the square. */
  lemma {:induction false} PowerHalves(b: int, h: nat)
    ensures Power(b, 2 * h) == Power(b * b, h)
  {
    if h > 0 {
      PowerHalves(b, h - 1);
      assert 2 * h - 1 - 1 == 2 * (h - 1);
      MulAssoc(b, b, Power(b, 2 * (h - 1)));
    }
  }

  /** rb_big_pow for an exponent that is not negative: squaring while the rest of the exponent is
      even, one factor when it is odd. */
  method BigPow(x: Bignum, y: nat) returns (z: Bignum)
    requires x.Valid()
    ensures z.Valid() && z.ToInt() == Power(x.ToInt(), y)
  {
    hide Value, Pow;
    if y == 0 {
      HalfIsHalf();
      z := new Bignum.Small(1);
      return;
    }
    var b, yy := x, y;
    z := x;
    while true
      invariant yy > 0 && z.Valid() && b.Valid()
      invariant z.ToInt() * Power(b.ToInt(), yy - 1) == Power(x.ToInt(), y)
      decreases yy
    {
      yy := yy - 1;
      if yy == 0 { break; }
      ghost var rest := yy;
      while yy % 2 == 0
        invariant 0 < yy <= rest && z.Valid() && b.Valid()
        invariant z.ToInt() * Power(b.ToInt(), yy) == Power(x.ToInt(), y)
        decreases yy
      {
        PowerHalves(b.ToInt(), yy / 2);
        yy := yy / 2;
        b := BigMultiply(b, b);
      }
      MulAssoc(z.ToInt(), b.ToInt(), Power(b.ToInt(), yy - 1));
      z := BigMultiply(z, b);
    }
  }
}
