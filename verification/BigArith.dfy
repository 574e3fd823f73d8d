/** bigdivrem, bigdivmod, bigadd, bigsub and rb_big_mul (ruby/bignum.c). */
module BigArith {
  import opened BigBase
  import opened BigDivision
  import opened BigNum

  // ----- bringing the divisor's leading digit to the upper half -----

  /** How far the divisor must be shifted so that its leading digit has its top bit set. */
  method LeadingShift(d: Digit) returns (dd: nat)
    requires d > 0
    ensures dd < BITSPERDIG && HALF <= d * Pow2(dd) < BIGRAD
  {
    hide Pow2;
    var q := d;
    dd := 0;
    assert Pow2(0) == 1 by { Pow2Zero(); }
    while q < HALF
      invariant q == d * Pow2(dd) && 0 < q < BIGRAD
      decreases HALF - q
    {
      HalfIsHalf();
      Pow2Step(dd);
      assert d * (2 * Pow2(dd)) == 2 * (d * Pow2(dd));
      q := q * 2;
      dd := dd + 1;
    }
    MulMonotone(1, d, Pow2(dd));
    Pow2Bound(dd, BITSPERDIG);
  }

  lemma Pow2Zero()
    ensures Pow2(0) == 1
  {
  }

  lemma Pow2Step(n: nat)
    ensures Pow2(n + 1) == 2 * Pow2(n)
  {
  }

  lemma {:induction false} Pow2Bound(a: nat, b: nat)
    requires Pow2(a) < Pow2(b)
    ensures a < b
  {
    if a >= b {
      Pow2Monotone(b, a);
    }
  }

  lemma {:induction false} Pow2Monotone(a: nat, b: nat)
    requires a <= b
    ensures Pow2(a) <= Pow2(b)
  {
    if a < b {
      Pow2Monotone(a, b - 1);
    }
  }

  /** The shifted divisor still has as many digits, and a leading digit in the upper half. */
  lemma ShiftedDivisor(y: seq<Digit>, ny: nat, s: seq<Digit>, t2: int, dd: nat)
    requires 0 < ny <= |y| && ny <= |s| && y[ny - 1] > 0 && dd < BITSPERDIG
    requires HALF <= y[ny - 1] * Pow2(dd) < BIGRAD
    requires 0 <= t2 && Value(s[..ny]) + t2 * Pow(ny) == Pow2(dd) * Value(y[..ny])
    ensures t2 == 0 && HALF <= s[ny - 1]
  {
    hide Value, Pow, Pow2;
    var d: int, top: int, newTop: int := Pow2(dd), y[ny - 1], s[ny - 1];
    TopDigit(y[..ny]);
    TopDigit(s[..ny]);
    ValueBound(s[..ny]);
    PowStep(ny - 1);
    ShiftFits(top, d, dd);
    // the divisor's value lies between its leading digit and the next one
    MulStrict(Value(y[..ny]), (top + 1) * Pow(ny - 1), d);
    MulAssoc(d, top + 1, Pow(ny - 1));
    MulMonotone(d * (top + 1), BIGRAD, Pow(ny - 1));
    assert t2 * Pow(ny) < 1 * Pow(ny);
    Cancel(t2, 1, Pow(ny));
    MulMonotone(top * Pow(ny - 1), Value(y[..ny]), d);
    MulAssoc(d, top, Pow(ny - 1));
    MulMonotone(HALF, d * top, Pow(ny - 1));
    Cancel(HALF, newTop + 1, Pow(ny - 1));
  }

  lemma ShiftFits(top: int, d: int, dd: nat)
    requires dd < BITSPERDIG && d == Pow2(dd) && top * d < BIGRAD
    ensures d * (top + 1) <= BIGRAD
  {
    hide Pow2;
    var e := Pow2(BITSPERDIG - dd);
    Pow2Add(dd, BITSPERDIG - dd);
    assert dd + (BITSPERDIG - dd) == BITSPERDIG;
    assert top * d < e * d;
    Cancel(top, e, d);
    MulMonotone(top + 1, e, d);
  }

  /** The shifted dividend is small enough for the first quotient digit. */
  lemma DividendReady(x: int, xs: int, nx: nat, y: seq<Digit>, ny: nat, dd: nat, top: nat)
    requires 0 < ny <= |y| && ny <= nx < top && HALF <= y[ny - 1] && dd < BITSPERDIG
    requires 0 <= x < Pow(nx) && xs == Pow2(dd) * x
    ensures xs < Value(y[..ny]) * Pow(top - ny)
  {
    hide Value, Pow, Pow2;
    MulStrict(x, Pow(nx), Pow2(dd));
    Pow2Monotone(dd, BITSPERDIG - 1);
    MulMonotone(Pow2(dd), HALF, Pow(nx));
    TopDigit(y[..ny]);
    MulMonotone(HALF, y[ny - 1], Pow(ny - 1));
    MulMonotone(HALF * Pow(ny - 1), Value(y[..ny]), Pow(top - ny));
    MulAssoc(HALF, Pow(ny - 1), Pow(top - ny));
    PowAdd(ny - 1, top - ny);
    PowMonotone(nx, top - 1);
    MulMonotone(Pow(nx), Pow(top - 1), HALF);
  }

  lemma {:induction false} PowMonotone(a: nat, b: nat)
    requires a <= b
    ensures Pow(a) <= Pow(b)
  {
    hide Pow;
    if a < b {
      PowMonotone(a, b - 1);
      PowStep(b - 1);
      MulMonotone(1, BIGRAD, Pow(b - 1));
    }
  }

  /** Taking the shift back. */
  lemma Unshifted(x: int, y: int, q: int, r: int, d: int)
    requires d > 0 && d * x == q * (d * y) + r && 0 <= r < d * y
    ensures r == d * (x - q * y) && r / d == x - q * y && 0 <= r / d < y
  {
    assert d * (x - q * y) == d * x - q * (d * y);
    DivideIs(r, d, x - q * y, 0);
    Cancel(x - q * y, y, d);
    Cancel(-1, x - q * y, d);
  }

  /** Quotient and remainder with their signs. */
  lemma Signed(xs: bool, x: int, ys: bool, y: int, q: int, r: int)
    requires x == q * y + r
    ensures (if xs then x else -x) ==
            (if xs == ys then q else -q) * (if ys then y else -y) + (if xs then r else -r)
  {
    assert (-q) * y == -(q * y);
    assert q * (-y) == -(q * y);
    assert (-q) * (-y) == q * y;
  }

  /** The parts of the magnitude division. */
  ghost predicate Divides(x: int, y: int, q: int, r: int) {
    x == q * y + r && 0 <= r < y
  }

  lemma ShorterIsSmaller(x: seq<Digit>, y: seq<Digit>)
    requires x != [] && y != [] && y[|y| - 1] > 0
    requires |x| < |y| || (|x| == |y| && x[|x| - 1] < y[|y| - 1])
    ensures Value(x) < Value(y)
  {
    hide Value, Pow;
    TopDigit(x);
    TopDigit(y);
    ValueBound(x);
    if |x| < |y| {
      PowMonotone(|x|, |y| - 1);
      MulMonotone(1, y[|y| - 1], Pow(|y| - 1));
    } else {
      MulMonotone(x[|x| - 1] + 1, y[|y| - 1], Pow(|y| - 1));
    }
  }

  /** The dividend, shifted into a fresh array that has one or two digits more. */
  method ShiftedDividend(x: Bignum, ny: nat, dd: nat) returns (z: array<Digit>)
    requires x.Valid() && dd < BITSPERDIG
    ensures fresh(z) && z.Length == if x.len == ny then x.len + 2 else x.len + 1
    ensures Value(z[..]) == Pow2(dd) * x.Mag()
  {
    hide Value, Pow, Pow2;
    var nx := x.len;
    z := new Digit[if nx == ny then nx + 2 else nx + 1];
    if nx == ny { z[nx + 1] := 0; }
    if dd != 0 {
      var t2 := ShiftLeft(x.digits, nx, z, dd);
      Pow2Monotone(dd, BITSPERDIG - 1);
      HalfIsHalf();
      z[nx] := t2;
    } else {
      z[nx] := 0;
      var j := nx;
      while j > 0
        invariant 0 <= j <= nx && z[j..nx] == x.digits[j..nx] && z[nx] == 0 && (nx == ny ==> z[nx + 1] == 0)
      {
        j := j - 1;
        z[j] := x.digits[j];
      }
      assert z[..nx] == x.digits[..nx];
      Pow2Zero();
      assert 0 * Pow(nx) == 0;
    }
    assert z[..nx + 1] == z[..nx] + [z[nx]];
    ValueSnoc(z[..nx], z[nx]);
    if nx == ny {
      assert z[..] == z[..nx + 1] + [z[nx + 1]];
      ValueSnoc(z[..nx + 1], z[nx + 1]);
    } else {
      assert z[..] == z[..nx + 1];
    }
  }

  /** The divisor, shifted when it must be. */
  method ShiftedDivisorArray(y: Bignum, dd: nat) returns (yds: array<Digit>)
    requires y.Valid() && y.digits[y.len - 1] > 0 && dd < BITSPERDIG && HALF <= y.digits[y.len - 1] * Pow2(dd) < BIGRAD
    ensures (yds == y.digits || fresh(yds)) && y.len <= yds.Length && HALF <= yds[y.len - 1]
    ensures Value(yds[..y.len]) == Pow2(dd) * y.Mag()
  {
    hide Value, Pow, Pow2;
    if dd != 0 {
      var yy := y.Clone();
      yds := yy.digits;
      var t2 := ShiftLeft(y.digits, y.len, yds, dd);
      ShiftedDivisor(y.digits[..], y.len, yds[..], t2, dd) by {
        assert yds[..][..y.len] == yds[..y.len];
        assert y.digits[..][..y.len] == y.digits[..y.len];
      }
      assert 0 * Pow(y.len) == 0;
    } else {
      yds := y.digits;
      Pow2Zero();
    }
  }

  /** rb_big_clone, of digits that fill their array. */
  method CloneDigits(z: array<Digit>, sign: bool) returns (c: Bignum)
    requires z.Length > 0
    ensures fresh(c) && fresh(c.digits) && c.Valid() && c.len == c.digits.Length == z.Length && c.sign == sign
    ensures c.digits[..] == z[..]
  {
    c := new Bignum(z.Length, sign);
    var i := 0;
    while i < z.Length
      invariant 0 <= i <= z.Length == c.digits.Length && c.digits[..i] == z[..i]
      modifies c.digits
    {
      c.digits[i] := z[i];
      i := i + 1;
    }
  }

  /** The quotient, moved down in a clone of `z`. */
  method MoveDown(z: array<Digit>, ny: nat, sign: bool) returns (d: Bignum)
    requires 0 < ny < z.Length
    ensures fresh(d) && fresh(d.digits) && d.Valid() && d.len == z.Length - ny && d.sign == sign && d.Mag() == Value(z[ny..])
  {
    hide Value;
    d := CloneDigits(z, sign);
    assert forall k :: 0 <= k < z.Length ==> d.digits[k] == d.digits[..][k] == z[..][k];
    var j := z.Length - ny;
    var i := 0;
    while i < j
      invariant 0 <= i <= j && forall k :: i <= k < z.Length ==> d.digits[k] == z[k]
      invariant forall k :: 0 <= k < i ==> d.digits[k] == z[ny + k]
      modifies d.digits
    {
      d.digits[i] := d.digits[i + ny];
      i := i + 1;
    }
    d.len := j;
    assert d.digits[..j] == z[ny..];
  }

  /** The remainder, with leading zeros dropped and the shift taken back. */
  method RemainderOf(z: array<Digit>, ny: nat, dd: nat, sign: bool) returns (m: Bignum)
    requires 0 < ny < z.Length && dd < BITSPERDIG
    ensures fresh(m) && fresh(m.digits) && m.Valid() && m.len <= ny && m.sign == sign
    ensures m.Mag() == Value(z[..ny]) / Pow2(dd) && (Value(z[..ny]) == 0 ==> m.len == 1)
  {
    hide Value, Pow, Pow2;
    m := CloneDigits(z, sign);
    var n := DropZeros(m.digits, ny);
    assert m.digits[..ny] == z[..ny];
    if dd != 0 {
      ShiftRight(m.digits, n, dd);
    } else {
      Pow2Zero();
      DivideIs(Value(z[..ny]), 1, Value(z[..ny]), 0);
    }
    m.len := n;
  }

  /** Leading zero digits are dropped, all but the last digit. */
  method DropZeros(z: array<Digit>, ny: nat) returns (n: nat)
    requires 0 < ny <= z.Length
    ensures 0 < n <= ny && Value(z[..n]) == Value(z[..ny]) && (Value(z[..ny]) == 0 ==> n == 1)
  {
    hide Value, Pow;
    n := ny - 1;
    while n != 0 && z[n] == 0
      invariant n < ny && Value(z[..n + 1]) == Value(z[..ny])
    {
      assert z[..n + 1] == z[..n] + [z[n]];
      ValueSnoc(z[..n], z[n]);
      n := n - 1;
    }
    if n != 0 {
      ValueZeros(z[..n + 1]);
      assert z[..n + 1][n] != 0;
    }
    n := n + 1;
  }

  /** The division proper, for a divisor of two digits or more that is not larger in length. */
  method LongDivision(x: Bignum, y: Bignum) returns (d: Bignum, m: Bignum)
    requires x.Valid() && y.Valid() && 1 < y.len <= x.len && y.digits[y.len - 1] > 0
    ensures fresh(d) && d.Valid() && fresh(m) && m.Valid() && fresh(d.digits) && fresh(m.digits)
    ensures d.sign == (x.sign == y.sign) && m.sign == x.sign && m.len <= y.len
    ensures Divides(x.Mag(), y.Mag(), d.Mag(), m.Mag())
    ensures m.Mag() == 0 ==> m.len == 1
  {
    hide Value, Pow, Pow2;
    var nx, ny := x.len, y.len;
    var dd := LeadingShift(y.digits[ny - 1]);
    var yds := ShiftedDivisorArray(y, dd);
    var z := ShiftedDividend(x, ny, dd);
    ghost var xv, yv := x.Mag(), y.Mag();
    ValueBound(x.digits[..nx]);
    assert z[..] == z[..z.Length];
    DividendReady(xv, Pow2(dd) * xv, nx, yds[..], ny, dd, z.Length) by { assert yds[..][..ny] == yds[..ny]; }
    DivideLoop(z, z.Length, yds, ny);
    assert z[ny..z.Length] == z[ny..];
    ValueBound(z[..ny]);
    Unshifted(xv, yv, Value(z[ny..]), Value(z[..ny]), Pow2(dd));
    d := MoveDown(z, ny, x.sign == y.sign);
    m := RemainderOf(z, ny, dd, x.sign);
    if m.Mag() == 0 {
      assert Pow2(dd) * (xv - Value(z[ny..]) * yv) == 0;
    }
  }

  /** Division by a divisor of one digit. */
  method ShortDivision(x: Bignum, y: Bignum) returns (d: Bignum, m: Bignum)
    requires x.Valid() && y.Valid() && y.len == 1 && y.digits[0] > 0
    ensures fresh(d) && d.Valid() && fresh(m) && m.Valid() && fresh(d.digits) && fresh(m.digits)
    ensures d.sign == (x.sign == y.sign) && m.sign == x.sign && m.len == 1
    ensures Divides(x.Mag(), y.Mag(), d.Mag(), m.Mag())
  {
    hide Value, Pow;
    d := x.Clone();
    assert d.digits[..x.len] == x.digits[..x.len];
    var t2 := DivideByDigit(d.digits, x.len, y.digits[0]);
    d.sign := x.sign == y.sign;
    m := new Bignum.Small(t2);
    m.sign := x.sign;
    assert y.digits[..1] == [y.digits[0]];
    ValueOne(y.digits[0]);
  }

  /** bigdivrem: truncated division. The remainder has the sign of the dividend; where the divisor
      is the larger number, it is the dividend itself. */
  method BigDivRem(x: Bignum, y: Bignum) returns (d: Bignum, m: Bignum)
    requires x.Valid() && y.Valid() && y.Normal() && y.digits[y.len - 1] > 0
    ensures fresh(d) && d.Valid() && m.Valid() && (m == x || fresh(m))
    ensures x.ToInt() == d.ToInt() * y.ToInt() + m.ToInt()
    ensures m.Mag() < y.Mag() && m.sign == x.sign && m.len <= y.len
    ensures d.sign == (x.sign == y.sign) || (d.Mag() == 0 && d.sign && d.len == 1)
    ensures x.Normal() && m.Mag() == 0 ==> m.len == 1
  {
    hide Value, Pow;
    var nx, ny := x.len, y.len;
    if nx < ny || (nx == ny && x.digits[nx - 1] < y.digits[ny - 1]) {
      d := new Bignum.Small(0);
      m := x;
      ShorterIsSmaller(x.digits[..nx], y.digits[..ny]);
      NormalZero(x);
      assert 0 * y.ToInt() == 0;
    } else if ny == 1 {
      d, m := ShortDivision(x, y);
      Signed(x.sign, x.Mag(), y.sign, y.Mag(), d.Mag(), m.Mag());
    } else {
      d, m := LongDivision(x, y);
      Signed(x.sign, x.Mag(), y.sign, y.Mag(), d.Mag(), m.Mag());
    }
  }

  lemma NormalZero(x: Bignum)
    requires x.Valid()
    ensures x.Normal() && x.Mag() == 0 ==> x.len == 1
  {
    hide Value;
    ValueZeros(x.digits[..x.len]);
    if x.len > 1 && x.Mag() == 0 {
      assert x.digits[..x.len][x.len - 1] == 0;
    }
  }

  // ----- addition and subtraction -----

  /** A longer number is not smaller; so it is between normalised numbers. */
  ghost predicate LongerIsLarger(x: Bignum, y: Bignum)
    requires x.Valid() && y.Valid()
    reads x, y, x.digits, y.digits
  {
    (x.len < y.len ==> x.Mag() <= y.Mag()) && (y.len < x.len ==> y.Mag() <= x.Mag())
  }

  lemma CompareAt(a: seq<Digit>, b: seq<Digit>, i: nat, n: nat)
    requires i < n <= |a| && n <= |b| && a[i] < b[i] && a[i + 1..n] == b[i + 1..n]
    ensures Value(a[..n]) < Value(b[..n])
  {
    hide Value, Pow;
    SlicesAt(a, i + 1, n);
    SlicesAt(b, i + 1, n);
    assert a[..i + 1] == a[..i] + [a[i]] && b[..i + 1] == b[..i] + [b[i]];
    ValueSnoc(a[..i], a[i]);
    ValueSnoc(b[..i], b[i]);
    ValueBound(a[..i]);
    ValueBound(b[..i]);
    MulMonotone(a[i] + 1, b[i], Pow(i));
  }

  /** Whether bigsub exchanges its arguments. */
  method Smaller(x: Bignum, y: Bignum) returns (swap: bool)
    requires x.Valid() && y.Valid() && LongerIsLarger(x, y)
    ensures if swap then x.Mag() <= y.Mag() && x.len <= y.len else y.Mag() <= x.Mag() && y.len <= x.len
    ensures x.len == y.len ==> (swap <==> x.Mag() < y.Mag())
  {
    hide Value, Pow;
    swap := x.len < y.len;
    if x.len == y.len {
      var i := x.len;
      while i > 0
        invariant 0 <= i <= x.len && x.digits[i..x.len] == y.digits[i..x.len] && !swap
      {
        i := i - 1;
        if x.digits[i] > y.digits[i] {
          CompareAt(y.digits[..], x.digits[..], i, x.len);
          WholeSlices(x);
          WholeSlices(y);
          return;
        }
        if x.digits[i] < y.digits[i] {
          swap := true;
          CompareAt(x.digits[..], y.digits[..], i, x.len);
          WholeSlices(x);
          WholeSlices(y);
          return;
        }
      }
      assert x.digits[..x.len] == y.digits[..x.len];
    }
  }

  lemma WholeSlices(x: Bignum)
    requires x.Valid()
    ensures x.digits[..][..x.len] == x.digits[..x.len]
  {
  }

  lemma Carried(v: int, v0: int, num: int, p: int, a: int, b: int, n: int, d: int, base: int)
    requires v + num * p == v0 && num + a + b == n * base + d
    ensures v + p * d + n * (base * p) == v0 + p * a + p * b
  {
    assert n * (base * p) == (n * base) * p;
    assert (n * base) * p == (num + a + b - d) * p;
    assert (num + a + b - d) * p == num * p + p * a + p * b - p * d;
  }

  lemma BorrowDigit(num: int, a: Digit, b: Digit)
    requires -1 <= num <= 0
    ensures -1 <= BigDn(num + a - b) <= 0
  {
    hide BigDn, BigLo;
    var s := num + a - b;
    assert BigDn(s) * BIGRAD + BigLo(s) == s;
    Cancel(BigDn(s), 1, BIGRAD);
    Cancel(-2, BigDn(s), BIGRAD);
  }

  /** bigsub: the difference of the magnitudes, with its sign. */
  method BigSub(x: Bignum, y: Bignum) returns (z: Bignum)
    requires x.Valid() && y.Valid() && LongerIsLarger(x, y)
    ensures fresh(z) && z.Valid() && z.ToInt() == x.Mag() - y.Mag()
    ensures z.len == if x.len < y.len then y.len else x.len
  {
    hide Value, Pow;
    var swap := Smaller(x, y);
    if swap {
      z := SubtractSmaller(y, x, false);
    } else {
      z := SubtractSmaller(x, y, true);
    }
  }

  /** The loops of bigsub, when `x` is not smaller than `y`. */
  method SubtractSmaller(x: Bignum, y: Bignum, sign: bool) returns (z: Bignum)
    requires x.Valid() && y.Valid() && y.Mag() <= x.Mag() && y.len <= x.len
    ensures fresh(z) && z.Valid() && z.sign == sign && z.len == x.len && z.Mag() == x.Mag() - y.Mag()
  {
    hide Value, Pow, BigDn, BigLo;
    z := new Bignum(x.len, sign);
    var i, num := 0, 0;
    ValueEmpty();
    assert z.digits[0..0] == [] && x.digits[0..0] == [] && y.digits[0..0] == [];
    while i < y.len
      invariant 0 <= i <= y.len && -1 <= num <= 0
      invariant Value(z.digits[0..0 + i]) + num * Pow(i) == Value(x.digits[0..0 + i]) - Value(y.digits[0..0 + i])
      modifies z.digits
    {
      ghost var mid, num0 := z.digits[..], num;
      ghost var minus: int := 0 - (y.digits[i] as int);
      BorrowDigit(num, x.digits[i], y.digits[i]);
      num := num + x.digits[i] - y.digits[i];
      z.digits[i] := BigLo(num);
      Carried(Value(mid[0..0 + i]), Value(x.digits[0..0 + i]) - Value(y.digits[0..0 + i]), num0, Pow(i), x.digits[i], minus, BigDn(num), z.digits[i], BIGRAD);
      num := BigDn(num);
      assert z.digits[0..0 + i] == mid[0..0 + i];
      SliceStep(z.digits[..], 0, i);
      SliceStep(x.digits[..], 0, i);
      SliceStep(y.digits[..], 0, i);
      PowStep(i);
      i := i + 1;
    }
    assert y.digits[0..0 + y.len] == y.digits[..y.len];
    FinishSubtract(x, z, i, num, y.Mag());
  }

  /** The borrow runs through the digits that the larger number has more. */
  method FinishSubtract(x: Bignum, z: Bignum, from: nat, borrow: int, ghost y: int)
    requires x.Valid() && z.Valid() && z.digits != x.digits && from <= x.len == z.len == z.digits.Length && -1 <= borrow <= 0
    requires 0 <= y <= x.Mag()
    requires Value(z.digits[0..0 + from]) + borrow * Pow(from) == Value(x.digits[0..0 + from]) - y
    modifies z.digits
    ensures z.Mag() == x.Mag() - y
  {
    hide Value, Pow, BigDn, BigLo;
    var i, num := from, borrow;
    while num != 0 && i < x.len
      invariant 0 <= i <= x.len && -1 <= num <= 0
      invariant Value(z.digits[0..0 + i]) + num * Pow(i) == Value(x.digits[0..0 + i]) - y
    {
      ghost var mid, num0 := z.digits[..], num;
      BorrowDigit(num, x.digits[i], 0);
      num := num + x.digits[i];
      z.digits[i] := BigLo(num);
      Carried(Value(mid[0..0 + i]), Value(x.digits[0..0 + i]) - y, num0, Pow(i), x.digits[i], 0, BigDn(num), z.digits[i], BIGRAD);
      num := BigDn(num);
      assert z.digits[0..0 + i] == mid[0..0 + i];
      SliceStep(z.digits[..], 0, i);
      SliceStep(x.digits[..], 0, i);
      PowStep(i);
      i := i + 1;
    }
    while i < x.len
      invariant 0 <= i <= x.len && (i < x.len ==> num == 0) && -1 <= num <= 0
      invariant Value(z.digits[0..0 + i]) + num * Pow(i) == Value(x.digits[0..0 + i]) - y
    {
      ghost var mid := z.digits[..];
      z.digits[i] := x.digits[i];
      assert z.digits[0..0 + i] == mid[0..0 + i];
      SliceStep(z.digits[..], 0, i);
      SliceStep(x.digits[..], 0, i);
      i := i + 1;
    }
    assert x.digits[0..0 + x.len] == x.digits[..x.len] && z.digits[0..0 + x.len] == z.digits[..x.len];
    ValueBound(z.digits[..x.len]);
    NoBorrowLeft(Value(z.digits[..x.len]), num, Pow(x.len), x.Mag() - y);
  }

  lemma NoBorrowLeft(v: int, num: int, p: int, d: int)
    requires 0 <= v < p && -1 <= num <= 0 && v + num * p == d && d >= 0
    ensures v == d
  {
  }

  lemma SumDigit(num: int, a: Digit, b: Digit)
    requires 0 <= num <= 1
    ensures 0 <= BigDn(num + a + b) <= 1
  {
    AddCarry(num, a, b);
  }

  /** The loops of bigadd on magnitudes, the shorter number first. */
  method AddMagnitudes(x: Bignum, y: Bignum, sign: bool) returns (z: Bignum)
    requires x.Valid() && y.Valid() && x.len <= y.len
    ensures fresh(z) && z.Valid() && z.sign == sign && z.len == y.len + 1 && z.Mag() == x.Mag() + y.Mag()
  {
    hide Value, Pow, BigDn, BigLo;
    z := new Bignum(y.len + 1, sign);
    var i, num := 0, 0;
    ValueEmpty();
    assert z.digits[0..0] == [] && x.digits[0..0] == [] && y.digits[0..0] == [];
    while i < x.len
      invariant 0 <= i <= x.len && 0 <= num <= 1
      invariant Value(z.digits[0..0 + i]) + num * Pow(i) == Value(x.digits[0..0 + i]) + Value(y.digits[0..0 + i])
      modifies z.digits
    {
      ghost var mid, num0 := z.digits[..], num;
      SumDigit(num, x.digits[i], y.digits[i]);
      num := num + x.digits[i] + y.digits[i];
      z.digits[i] := BigLo(num);
      Carried(Value(mid[0..0 + i]), Value(x.digits[0..0 + i]) + Value(y.digits[0..0 + i]), num0, Pow(i), x.digits[i], y.digits[i], BigDn(num), z.digits[i], BIGRAD);
      num := BigDn(num);
      assert z.digits[0..0 + i] == mid[0..0 + i];
      SliceStep(z.digits[..], 0, i);
      SliceStep(x.digits[..], 0, i);
      SliceStep(y.digits[..], 0, i);
      PowStep(i);
      i := i + 1;
    }
    assert x.digits[0..0 + x.len] == x.digits[..x.len];
    FinishAdd(y, z, i, num, x.Mag());
  }

  method FinishAdd(y: Bignum, z: Bignum, from: nat, carry: int, ghost x: int)
    requires y.Valid() && z.Valid() && z.digits != y.digits && from <= y.len && z.len == z.digits.Length == y.len + 1 && 0 <= carry <= 1
    requires Value(z.digits[0..0 + from]) + carry * Pow(from) == Value(y.digits[0..0 + from]) + x
    modifies z.digits
    ensures z.Mag() == x + y.Mag()
  {
    hide Value, Pow, BigDn, BigLo;
    var i, num := from, carry;
    while num != 0 && i < y.len
      invariant 0 <= i <= y.len && 0 <= num <= 1
      invariant Value(z.digits[0..0 + i]) + num * Pow(i) == Value(y.digits[0..0 + i]) + x
    {
      ghost var mid, num0 := z.digits[..], num;
      SumDigit(num, y.digits[i], 0);
      num := num + y.digits[i];
      z.digits[i] := BigLo(num);
      Carried(Value(mid[0..0 + i]), Value(y.digits[0..0 + i]) + x, num0, Pow(i), y.digits[i], 0, BigDn(num), z.digits[i], BIGRAD);
      num := BigDn(num);
      assert z.digits[0..0 + i] == mid[0..0 + i];
      SliceStep(z.digits[..], 0, i);
      SliceStep(y.digits[..], 0, i);
      PowStep(i);
      i := i + 1;
    }
    CopyRest(y, z, i, num, x);
  }

  method CopyRest(y: Bignum, z: Bignum, from: nat, num: int, ghost x: int)
    requires y.Valid() && z.Valid() && z.digits != y.digits && from <= y.len && z.len == z.digits.Length == y.len + 1 && 0 <= num <= 1
    requires from < y.len ==> num == 0
    requires Value(z.digits[0..0 + from]) + num * Pow(from) == Value(y.digits[0..0 + from]) + x
    modifies z.digits
    ensures z.Mag() == x + y.Mag()
  {
    hide Value, Pow;
    var i := from;
    HalfIsHalf();
    while i < y.len
      invariant 0 <= i <= y.len && (i < y.len ==> num == 0) && 0 <= num <= 1
      invariant Value(z.digits[0..0 + i]) + num * Pow(i) == Value(y.digits[0..0 + i]) + x
    {
      ghost var mid := z.digits[..];
      z.digits[i] := y.digits[i];
      assert z.digits[0..0 + i] == mid[0..0 + i];
      SliceStep(z.digits[..], 0, i);
      SliceStep(y.digits[..], 0, i);
      i := i + 1;
    }
    ghost var mid := z.digits[..];
    z.digits[i] := num;
    assert z.digits[0..0 + i] == mid[0..0 + i];
    SliceStep(z.digits[..], 0, i);
    assert y.digits[0..0 + y.len] == y.digits[..y.len] && z.digits[0..0 + i + 1] == z.digits[..z.len];
  }

  /** bigadd: x + y, or x - y when `sign` is false. */
  method BigAdd(x: Bignum, y: Bignum, sign: bool) returns (z: Bignum)
    requires x.Valid() && y.Valid()
    requires x.sign != (sign == y.sign) ==> LongerIsLarger(x, y)
    ensures fresh(z) && z.Valid() && z.ToInt() == x.ToInt() + (if sign then y.ToInt() else -y.ToInt())
  {
    hide Value, Pow;
    var sgn := sign == y.sign;
    if x.sign != sgn {
      if sgn { z := BigSub(y, x); } else { z := BigSub(x, y); }
    } else if x.len > y.len {
      z := AddMagnitudes(y, x, sgn);
    } else {
      z := AddMagnitudes(x, y, sgn);
    }
  }

  // ----- floor division -----

  /** Division that rounds down, for divisors of either sign. */
  function FloorDiv(x: int, y: int): int
    requires y != 0
  {
    if y > 0 then x / y else (-x) / (-y)
  }

  lemma FloorIs(x: int, y: int, q: int, m: int)
    requires y != 0 && x == q * y + m
    requires if y > 0 then 0 <= m < y else y < m <= 0
    ensures q == FloorDiv(x, y)
  {
    if y > 0 {
      DivideIs(x, y, q, m);
    } else {
      assert (-y) * q == -(q * y);
      DivideIs(-x, -y, q, -m);
    }
  }

  /** The step from truncation to rounding down: quotient less 1, remainder plus the divisor. */
  method RoundDown(q: Bignum, mod: Bignum, y: Bignum) returns (d: Bignum, m: Bignum)
    requires q.Valid() && mod.Valid() && y.Valid()
    requires mod.sign != y.sign && mod.Mag() < y.Mag() && mod.len <= y.len
    requires !q.sign || (q.Mag() == 0 && q.len == 1)
    ensures fresh(d) && d.Valid() && fresh(m) && m.Valid()
    ensures d.ToInt() == q.ToInt() - 1 && m.ToInt() == mod.ToInt() + y.ToInt()
  {
    hide Value, Pow;
    var one := new Bignum.Small(1);
    d := BigAdd(q, one, false);
    m := BigAdd(mod, y, true);
  }

  /** bigdivmod: floor division, whose remainder is zero or has the sign of the divisor. The
      correcting additions are safe although quotient and remainder may have leading zeros. */
  method BigDivMod(x: Bignum, y: Bignum) returns (d: Bignum, m: Bignum)
    requires x.Valid() && x.Normal() && y.Valid() && y.Normal() && y.digits[y.len - 1] > 0
    ensures d.Valid() && m.Valid() && y.ToInt() != 0
    ensures d.ToInt() == FloorDiv(x.ToInt(), y.ToInt())
    ensures x.ToInt() == d.ToInt() * y.ToInt() + m.ToInt()
    ensures if y.ToInt() > 0 then 0 <= m.ToInt() < y.ToInt() else y.ToInt() < m.ToInt() <= 0
  {
    hide Value, Pow, FloorDiv;
    var q, mod := BigDivRem(x, y);
    if x.sign != y.sign && !(mod.len == 1 && mod.digits[0] == 0) {
      NonzeroMod(mod);
      d, m := RoundDown(q, mod, y);
      assert (q.ToInt() - 1) * y.ToInt() == q.ToInt() * y.ToInt() - y.ToInt();
    } else {
      d, m := q, mod;
      ZeroMod(mod);
    }
    FloorIs(x.ToInt(), y.ToInt(), d.ToInt(), m.ToInt());
  }

  lemma NonzeroMod(m: Bignum)
    requires m.Valid() && (m.Mag() == 0 ==> m.len == 1) && !(m.len == 1 && m.digits[0] == 0)
    ensures m.Mag() > 0
  {
    LowDigitZero(m);
  }

  lemma LowDigitZero(m: Bignum)
    requires m.Valid()
    ensures m.Mag() == 0 ==> m.digits[0] == 0
  {
    hide Value;
    ValueZeros(m.digits[..m.len]);
    assert m.digits[..m.len][0] == m.digits[0];
  }

  lemma ZeroMod(m: Bignum)
    requires m.Valid()
    ensures m.len == 1 && m.digits[0] == 0 ==> m.Mag() == 0
  {
    if m.len == 1 {
      assert m.digits[..1] == [m.digits[0]];
      ValueOne(m.digits[0]);
    }
  }
}
