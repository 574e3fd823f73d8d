/** Long division of multi-precision integers (ruby/bignum.c): the loops of bigdivrem on arrays
    of digits. This is Algorithm D of section 4.3.1 of The Art of Computer Programming, with a
    trial digit taken from one digit of the divisor only. */
module BigDivision {
  import opened BigBase

  /** The upper half of the digits: the leading divisor digit is brought there. */
  const HALF: int := Pow2(BITSPERDIG - 1)

  // ----- the trial digit -----

  /** The window of the dividend is `wt * p + wl` with `wt` its two leading digits `hi` and `lo`;
      the divisor is `yt * p + yl` with one leading digit. */
  ghost predicate Scene(hi: int, lo: int, wl: int, yt: int, yl: int, p: int) {
    p > 0 && 0 <= hi < BIGRAD && 0 <= lo < BIGRAD && 0 <= wl < p && HALF <= yt < BIGRAD && 0 <= yl < p &&
    BIGRAD <= 2 * yt
  }

  ghost function Window(hi: int, lo: int, wl: int, p: int): int {
    (hi * BIGRAD + lo) * p + wl
  }

  function Trial(hi: Digit, lo: Digit, yt: Digit): int
    requires yt > 0
  {
    if hi == yt then BIGRAD - 1 else (hi * BIGRAD + lo) / yt
  }

  /** The leading digit of the window is not above that of the divisor. */
  lemma LeadingSmall(hi: int, lo: int, wl: int, yt: int, yl: int, p: int)
    requires Scene(hi, lo, wl, yt, yl, p)
    requires Window(hi, lo, wl, p) < BIGRAD * (yt * p + yl)
    ensures hi <= yt
  {
    var w := Window(hi, lo, wl, p);
    assert yt * p + yl < (yt + 1) * p by { assert (yt + 1) * p == yt * p + p; }
    MulStrict(yt * p + yl, (yt + 1) * p, BIGRAD);
    MulAssoc(BIGRAD, yt + 1, p);
    MulMonotone(hi * BIGRAD, hi * BIGRAD + lo, p);
    assert (hi * BIGRAD) * p < (BIGRAD * (yt + 1)) * p;
    Cancel(hi * BIGRAD, (yt + 1) * BIGRAD, p);
    Cancel(hi, yt + 1, BIGRAD);
  }

  lemma TrialIsDigit(hi: Digit, lo: Digit, yt: Digit)
    requires 0 < yt && hi <= yt
    ensures 0 <= Trial(hi, lo, yt) < BIGRAD
    ensures Trial(hi, lo, yt) * yt <= hi * BIGRAD + lo
    ensures hi < yt ==> hi * BIGRAD + lo < (Trial(hi, lo, yt) + 1) * yt
  {
    var q := Trial(hi, lo, yt);
    var wt := hi * BIGRAD + lo;
    if hi < yt {
      MulStrict(hi, yt, BIGRAD);
      MulMonotone(0, hi, BIGRAD);
      QuotientIs(wt, yt);
      assert q * yt <= wt < yt * BIGRAD;
      Cancel(q, BIGRAD, yt);
    } else {
      assert (BIGRAD - 1) * yt == BIGRAD * yt - yt;
    }
  }

  lemma QuotientIs(w: int, y: int)
    requires y > 0 && w >= 0
    ensures w / y * y <= w < (w / y + 1) * y && w / y >= 0
  {
    assert w == y * (w / y) + w % y;
    assert (w / y + 1) * y == w / y * y + y;
    if w / y < 0 {
      MulMonotone(w / y + 1, 0, y);
    }
  }

  /** The trial digit is never too small. */
  lemma TrialLargeEnough(hi: Digit, lo: Digit, wl: int, yt: Digit, yl: int, p: int, q: int)
    requires Scene(hi, lo, wl, yt, yl, p) && hi <= yt
    requires 0 <= q < BIGRAD && q * (yt * p + yl) <= Window(hi, lo, wl, p)
    ensures q <= Trial(hi, lo, yt)
  {
    hide Trial;
    TrialIsDigit(hi, lo, yt);
    var t := Trial(hi, lo, yt);
    var wt := hi * BIGRAD + lo;
    if hi == yt {
      assert t == BIGRAD - 1 by { TrialTop(hi, lo, yt); }
    } else {
      MulMonotone(yt * p, yt * p + yl, q);
      MulAssoc(q, yt, p);
      assert (wt + 1) * p == wt * p + p;
      assert (q * yt) * p < (wt + 1) * p;
      Cancel(q * yt, wt + 1, p);
      assert q * yt < (t + 1) * yt;
      Cancel(q, t + 1, yt);
    }
  }

  lemma TrialTop(hi: Digit, lo: Digit, yt: Digit)
    requires yt > 0 && hi == yt
    ensures Trial(hi, lo, yt) == BIGRAD - 1
  {
  }

  /** The trial digit is at most 2 too large. */
  lemma TrialSmallEnough(hi: Digit, lo: Digit, wl: int, yt: Digit, yl: int, p: int, q: int)
    requires Scene(hi, lo, wl, yt, yl, p) && hi <= yt
    requires 0 <= q < BIGRAD && Window(hi, lo, wl, p) < (q + 1) * (yt * p + yl)
    ensures Trial(hi, lo, yt) <= q + 2
  {
    hide Trial;
    TrialIsDigit(hi, lo, yt);
    var t := Trial(hi, lo, yt);
    var wt := hi * BIGRAD + lo;
    MulMonotone(t * yt, wt, p);
    BelowNext(yt, yl, p, q + 1);
    assert (t * yt) * p < ((q + 1) * (yt + 1)) * p;
    Cancel(t * yt, (q + 1) * (yt + 1), p);
    AtMostTwoMore(t, q, yt);
  }

  lemma BelowNext(yt: int, yl: int, p: int, n: int)
    requires yl < p && n > 0
    ensures n * (yt * p + yl) < (n * (yt + 1)) * p
  {
    assert (yt + 1) * p == yt * p + p;
    MulStrict(yt * p + yl, (yt + 1) * p, n);
    MulAssoc(n, yt + 1, p);
  }

  lemma AtMostTwoMore(t: int, q: int, yt: int)
    requires t * yt < (q + 1) * (yt + 1) && q + 1 <= 2 * yt && yt > 0
    ensures t <= q + 2
  {
    assert (q + 1) * (yt + 1) == (q + 1) * yt + q + 1;
    assert (q + 3) * yt == (q + 1) * yt + 2 * yt;
    Cancel(t, q + 3, yt);
  }

  /** Subtracting with the trial digit borrows at most one unit above the window. */
  lemma BorrowSmall(hi: Digit, lo: Digit, wl: int, yt: Digit, yl: int, p: int)
    requires Scene(hi, lo, wl, yt, yl, p) && hi <= yt
    ensures Window(hi, lo, wl, p) - Trial(hi, lo, yt) * (yt * p + yl) > -(BIGRAD * p)
  {
    hide Trial;
    TrialIsDigit(hi, lo, yt);
    var t := Trial(hi, lo, yt);
    var wt := hi * BIGRAD + lo;
    MulMonotone(t * yt, wt, p);
    BorrowBound(t, yt, yl, p, BIGRAD);
  }

  lemma BorrowBound(t: int, yt: int, yl: int, p: int, b: int)
    requires 0 <= yl < p && t <= b - 1 && b > 0
    ensures t * (yt * p + yl) < (t * yt) * p + b * p
  {
    MulAssoc(t, yt, p);
    assert t * (yt * p + yl) == t * (yt * p) + t * yl;
    MulMonotone(t, b - 1, yl);
    MulMonotone(yl, p, b - 1);
    assert (b - 1) * p == b * p - p;
  }

  // ----- the loops -----

  /** One more digit at the end of a slice. */
  lemma SliceStep(z: seq<Digit>, k: nat, i: nat)
    requires k + i < |z|
    ensures Value(z[k..k + i + 1]) == Value(z[k..k + i]) + Pow(i) * z[k + i]
  {
    hide Value, Pow;
    assert z[k..k + i + 1] == z[k..k + i] + [z[k + i]];
    ValueSnoc(z[k..k + i], z[k + i]);
  }

  lemma MultiplySubtractStep(v: int, v0: int, vy: int, q: int, num: int, t2: int, p: int, w: int, yi: int,
                             hi: int, lo: int, n: int, d: int, b: int)
    requires v + (num - t2) * p == v0 - q * vy
    requires t2 + yi * q == hi * b + lo && w + num - lo == n * b + d
    ensures v + p * d + (n - hi) * (b * p) == v0 + p * w - q * (vy + p * yi)
  {
    assert (n - hi) * (b * p) == (n * b) * p - (hi * b) * p;
    assert (n * b) * p == (w + num - lo - d) * p;
    assert (hi * b) * p == (t2 + yi * q - lo) * p;
    assert q * (vy + p * yi) == q * vy + (yi * q) * p;
    assert (w + num - lo - d) * p - (t2 + yi * q - lo) * p == (w + num - d - t2 - yi * q) * p;
    assert (w + num - d - t2 - yi * q) * p == w * p + (num - t2) * p - d * p - (yi * q) * p;
  }

  lemma CarriesSmall(t2: int, yi: Digit, q: Digit, num: int, w: Digit)
    requires 0 <= t2 < BIGRAD && -1 <= num <= 0
    ensures 0 <= BigDn(t2 + yi * q) < BIGRAD && t2 + yi * q < BIGRAD * BIGRAD
    ensures var s := w + num - BigLo(t2 + yi * q); -1 <= BigDn(s) <= 0
  {
    hide BigDn, BigLo;
    MulMonotone(0, yi, q);
    MulMonotone(yi, BIGRAD - 1, q);
    MulMonotone(q, BIGRAD - 1, BIGRAD - 1);
    assert (BIGRAD - 1) * (BIGRAD - 1) == BIGRAD * BIGRAD - 2 * BIGRAD + 1;
    var t := t2 + yi * q;
    assert BigDn(t) * BIGRAD + BigLo(t) == t;
    Cancel(BigDn(t), BIGRAD, BIGRAD);
    Cancel(-1, BigDn(t), BIGRAD);
    var s := w + num - BigLo(t);
    assert BigDn(s) * BIGRAD + BigLo(s) == s;
    Cancel(BigDn(s), 1, BIGRAD);
    Cancel(-2, BigDn(s), BIGRAD);
  }

  /** Multiply and subtract: the window loses `q` times the divisor, except for what must be
      borrowed from above it. Nothing overflows two digits on the way. */
  method MultiplySubtract(z: array<Digit>, k: nat, y: array<Digit>, ny: nat, q: Digit) returns (num: int)
    requires z != y && 0 < ny <= y.Length && k + ny < z.Length
    modifies z
    ensures z[..k] == old(z[..k]) && z[k + ny..] == old(z[k + ny..])
    ensures num * Pow(ny) + Value(z[k..k + ny]) == old(Value(z[k..k + ny + 1])) - q * Value(y[..ny])
  {
    hide Value, Pow, BigDn, BigLo;
    ghost var was := z[..];
    var i, t2 := 0, 0;
    num := 0;
    ValueEmpty();
    assert z[k..k + 0] == [] && was[k..k + 0] == [] && y[0..0] == [];
    while i < ny
      invariant 0 <= i <= ny && -1 <= num <= 0 && 0 <= t2 < BIGRAD
      invariant z[..k] == was[..k] && z[k + i..] == was[k + i..]
      invariant Value(z[k..k + i]) + (num - t2) * Pow(i) == Value(was[k..k + i]) - q * Value(y[0..0 + i])
    {
      ghost var mid, num0, t0 := z[..], num, t2;
      CarriesSmall(t2, y[i], q, num, z[k + i]);
      t2 := t2 + y[i] * q;
      var ee := num - BigLo(t2);
      num := z[k + i] + ee;
      if ee != 0 { z[k + i] := BigLo(num); } else { SplitIs(num, 0, z[k + i]); }
      MultiplySubtractStep(Value(mid[k..k + i]), Value(was[k..k + i]), Value(y[0..0 + i]), q, num0, t0, Pow(i), was[k + i], y[i],
                           BigDn(t2), BigLo(t2), BigDn(num), z[k + i], BIGRAD);
      num := BigDn(num);
      t2 := BigDn(t2);
      assert z[k..k + i] == mid[k..k + i];
      SliceStep(z[..], k, i);
      SliceStep(was, k, i);
      SliceStep(y[..], 0, i);
      PowStep(i);
      i := i + 1;
    }
    SliceStep(was, k, ny);
    assert z[k + ny] == was[k + ny];
    BorrowFromAbove(Value(z[k..k + ny]), num, t2, Pow(ny), Value(was[k..k + ny]) - q * Value(y[..ny]), z[k + ny]) by {
      assert y[0..0 + ny] == y[..ny];
    }
    num := num + z[k + ny] - t2;
  }

  lemma BorrowFromAbove(v: int, num: int, t2: int, p: int, rest: int, top: int)
    requires v + (num - t2) * p == rest
    ensures (num + top - t2) * p + v == rest + p * top
  {
  }

  lemma AddBackStep(v: int, v0: int, vy: int, num: int, p: int, w: int, yi: int, n: int, d: int, b: int)
    requires v + num * p == v0 + vy && w + num + yi == n * b + d
    ensures v + p * d + n * (b * p) == v0 + p * w + (vy + p * yi)
  {
    assert n * (b * p) == (n * b) * p;
    assert (n * b) * p == (w + num + yi - d) * p;
    assert (w + num + yi - d) * p == w * p + num * p + yi * p - d * p;
  }

  lemma AddCarry(num: int, w: Digit, yi: Digit)
    requires 0 <= num <= 1
    ensures 0 <= BigDn(w + num + yi) <= 1
  {
    hide BigDn, BigLo;
    var s := w + num + yi;
    assert BigDn(s) * BIGRAD + BigLo(s) == s;
    Cancel(BigDn(s), 2, BIGRAD);
    Cancel(-1, BigDn(s), BIGRAD);
  }

  /** Add back: the window gains the divisor; the result is the carry less the borrowed unit. */
  method AddBack(z: array<Digit>, k: nat, y: array<Digit>, ny: nat) returns (num: int)
    requires z != y && 0 < ny <= y.Length && k + ny < z.Length
    modifies z
    ensures z[..k] == old(z[..k]) && z[k + ny..] == old(z[k + ny..])
    ensures -1 <= num <= 0
    ensures num * Pow(ny) + Value(z[k..k + ny]) == old(Value(z[k..k + ny])) - Pow(ny) + Value(y[..ny])
  {
    hide Value, Pow, BigDn, BigLo;
    ghost var was := z[..];
    var i := 0;
    num := 0;
    ValueEmpty();
    assert z[k..k + 0] == [] && was[k..k + 0] == [] && y[0..0] == [];
    while i < ny
      invariant 0 <= i <= ny && 0 <= num <= 1
      invariant z[..k] == was[..k] && z[k + i..] == was[k + i..]
      invariant Value(z[k..k + i]) + num * Pow(i) == Value(was[k..k + i]) + Value(y[0..0 + i])
    {
      ghost var mid, num0 := z[..], num;
      AddCarry(num, z[k + i], y[i]);
      var ee := num + y[i];
      num := z[k + i] + ee;
      if ee != 0 { z[k + i] := BigLo(num); } else { SplitIs(num, 0, z[k + i]); }
      AddBackStep(Value(mid[k..k + i]), Value(was[k..k + i]), Value(y[0..0 + i]), num0, Pow(i), was[k + i], y[i], BigDn(num), z[k + i], BIGRAD);
      num := BigDn(num);
      assert z[k..k + i] == mid[k..k + i];
      SliceStep(z[..], k, i);
      SliceStep(was, k, i);
      SliceStep(y[..], 0, i);
      PowStep(i);
      i := i + 1;
    }
    assert y[0..0 + ny] == y[..ny];
    assert (num - 1) * Pow(ny) == num * Pow(ny) - Pow(ny);
    num := num - 1;
  }

  // ----- one quotient digit -----

  /** The window and the divisor, taken apart at their leading digits. */
  lemma SceneOf(z: seq<Digit>, k: nat, y: seq<Digit>, ny: nat)
    requires 0 < ny <= |y| && k + ny < |z| && HALF <= y[ny - 1]
    ensures Scene(z[k + ny], z[k + ny - 1], Value(z[k..k + ny - 1]), y[ny - 1], Value(y[..ny - 1]), Pow(ny - 1))
    ensures Value(z[k..k + ny + 1]) == Window(z[k + ny], z[k + ny - 1], Value(z[k..k + ny - 1]), Pow(ny - 1))
    ensures Value(z[k..k + ny + 1]) == Value(z[k..k + ny]) + Pow(ny) * z[k + ny]
    ensures Value(y[..ny]) == y[ny - 1] * Pow(ny - 1) + Value(y[..ny - 1])
    ensures Pow(ny) == BIGRAD * Pow(ny - 1)
  {
    hide Value, Pow;
    SliceStep(z, k, ny);
    SliceStep(z, k, ny - 1);
    assert y[0..0 + ny] == y[..ny] && y[0..0 + (ny - 1)] == y[..ny - 1];
    SliceStep(y, 0, ny - 1);
    PowStep(ny - 1);
    ValueBound(z[k..k + ny - 1]);
    ValueBound(y[..ny - 1]);
    HalfIsHalf();
    assert (z[k + ny] * BIGRAD + z[k + ny - 1]) * Pow(ny - 1) == z[k + ny] * (BIGRAD * Pow(ny - 1)) + z[k + ny - 1] * Pow(ny - 1) by {
      MulAssoc(z[k + ny], BIGRAD, Pow(ny - 1));
    }
  }

  lemma HalfIsHalf()
    ensures BIGRAD == 2 * HALF && HALF > 0
  {
  }

  /** What the selection of the trial digit guarantees about the true quotient digit `t`. */
  lemma Trials(z: seq<Digit>, k: nat, y: seq<Digit>, ny: nat) returns (t: int)
    requires 0 < ny <= |y| && k + ny < |z| && HALF <= y[ny - 1]
    requires Value(z[k..k + ny + 1]) < BIGRAD * Value(y[..ny])
    ensures y[ny - 1] > 0 && z[k + ny] <= y[ny - 1]
    ensures var w, v, q := Value(z[k..k + ny + 1]), Value(y[..ny]), Trial(z[k + ny], z[k + ny - 1], y[ny - 1]);
            0 <= t <= q <= t + 2 && q < BIGRAD && t * v <= w < (t + 1) * v && w - q * v > -Pow(ny) && 0 < v < Pow(ny) &&
            (q == 0 ==> z[k + ny] == 0)
  {
    hide Value, Pow, Trial;
    SceneOf(z, k, y, ny);
    HalfIsHalf();
    var hi, lo, wl, yt, yl, p := z[k + ny], z[k + ny - 1], Value(z[k..k + ny - 1]), y[ny - 1], Value(y[..ny - 1]), Pow(ny - 1);
    var w, v := Value(z[k..k + ny + 1]), Value(y[..ny]);
    LeadingSmall(hi, lo, wl, yt, yl, p);
    TrialIsDigit(hi, lo, yt);
    ValueBound(z[k..k + ny + 1]);
    ValueBound(y[..ny]);
    MulMonotone(1, yt, p);
    t := w / v;
    QuotientIs(w, v);
    Cancel(t, BIGRAD, v);
    TrialLargeEnough(hi, lo, wl, yt, yl, p, t);
    TrialSmallEnough(hi, lo, wl, yt, yl, p, t);
    BorrowSmall(hi, lo, wl, yt, yl, p);
    if Trial(hi, lo, yt) == 0 {
      ZeroTrial(hi, lo, yt);
    }
  }

  lemma ZeroTrial(hi: Digit, lo: Digit, yt: Digit)
    requires 0 < yt && hi <= yt && Trial(hi, lo, yt) == 0
    ensures hi == 0
  {
    TrialIsDigit(hi, lo, yt);
    if hi > 0 { MulMonotone(1, hi, BIGRAD); }
  }

  /** The borrow is 0 or -1, and -1 exactly when the digit is still too large. */
  lemma BorrowIs(num: int, p: int, v: int, w: int, q: int, y: int, t: int)
    requires 0 <= v < p && 0 < y < p && num * p + v == w - q * y && w - q * y > -p
    requires t <= q && t * y <= w < (t + 1) * y
    ensures -1 <= num <= 0 && (num == 0 <==> q == t) && (num == 0 ==> v < y)
  {
    MulMonotone(t, q, y);
    assert (t + 1) * y == t * y + y;
    Cancel(num, 1, p);
    Cancel(-2, num, p);
    if q > t { MulMonotone(t + 1, q, y); }
  }

  /** The loop around the add-back step. */
  method CorrectDigit(z: array<Digit>, k: nat, y: array<Digit>, ny: nat, trial: int, borrow: int, ghost w: int, ghost t: int)
    returns (q: int, ghost corrections: nat)
    requires z != y && 0 < ny <= y.Length && k + ny < z.Length
    requires 0 < Value(y[..ny]) < Pow(ny) && t * Value(y[..ny]) <= w < (t + 1) * Value(y[..ny]) && 0 <= t <= trial
    requires borrow * Pow(ny) + Value(z[k..k + ny]) == w - trial * Value(y[..ny]) && w - trial * Value(y[..ny]) > -Pow(ny)
    requires -1 <= borrow <= 0 && (borrow == 0 <==> trial == t) && (borrow == 0 ==> Value(z[k..k + ny]) < Value(y[..ny]))
    modifies z
    ensures z[..k] == old(z[..k]) && z[k + ny..] == old(z[k + ny..])
    ensures q == t && corrections == trial - t && Value(z[k..k + ny]) == w - q * Value(y[..ny]) < Value(y[..ny])
  {
    hide Value, Pow;
    ghost var was, v := z[..], Value(y[..ny]);
    var num := borrow;
    q, corrections := trial, 0;
    while num != 0
      invariant -1 <= num <= 0 && t <= q && q + corrections == trial
      invariant num * Pow(ny) + Value(z[k..k + ny]) == w - q * v
      invariant w - q * v > -Pow(ny)
      invariant num == 0 <==> q == t
      invariant num == 0 ==> Value(z[k..k + ny]) < v
      invariant z[..k] == was[..k] && z[k + ny..] == was[k + ny..]
      decreases q - t
    {
      ghost var before := Value(z[k..k + ny]);
      num := AddBack(z, k, y, ny);
      OneLess(w, q, v, before, Pow(ny), Value(z[k..k + ny]), num);
      q := q - 1;
      corrections := corrections + 1;
      ValueBound(z[k..k + ny]);
      OneLessBound(w, q, v, t, Pow(ny));
      BorrowIs(num, Pow(ny), Value(z[k..k + ny]), w, q, v, t);
    }
  }

  /** One round of the division loop. The trial digit is corrected at most twice, and the window
      is left with its remainder and the quotient digit above it. */
  method QuotientDigit(z: array<Digit>, j: nat, y: array<Digit>, ny: nat) returns (ghost corrections: nat)
    requires z != y && 0 < ny <= y.Length && ny <= j < z.Length && HALF <= y[ny - 1]
    requires Value(z[j - ny..j + 1]) < BIGRAD * Value(y[..ny])
    modifies z
    ensures z[..j - ny] == old(z[..j - ny]) && z[j + 1..] == old(z[j + 1..])
    ensures old(Value(z[j - ny..j + 1])) == z[j] * Value(y[..ny]) + Value(z[j - ny..j])
    ensures 0 <= Value(z[j - ny..j]) < Value(y[..ny])
    ensures corrections <= 2
  {
    hide Value, Pow, Trial, Scene, Window;
    ghost var was, k := z[..], j - ny;
    ghost var w, v := Value(z[j - ny..j + 1]), Value(y[..ny]);
    assert k + ny + 1 == j + 1;
    ghost var t := Trials(was, k, y[..], ny);
    SceneOf(was, k, y[..], ny);
    assert y[..][..ny] == y[..ny] && z[..][j - ny..j + 1] == z[j - ny..j + 1];
    var q: int := TrialDigit(z[j], z[j - 1], y[ny - 1]);
    corrections := 0;
    if q != 0 {
      var num := MultiplySubtract(z, j - ny, y, ny, q);
      ValueBound(z[k..j]);
      BorrowIs(num, Pow(ny), Value(z[k..j]), w, q, v, t);
      q, corrections := CorrectDigit(z, j - ny, y, ny, q, num, w, t);
    } else {
      ValueBound(z[k..j]);
    }
    ghost var rest := z[..];
    z[j] := q;
    assert z[k..j] == rest[k..j];
    ValueBound(z[k..j]);
  }

  lemma OneLess(w: int, q: int, v: int, before: int, p: int, after: int, num: int)
    requires -1 * p + before == w - q * v && num * p + after == before - p + v
    ensures num * p + after == w - (q - 1) * v
  {
    assert (q - 1) * v == q * v - v;
  }

  lemma OneLessBound(w: int, q: int, v: int, t: int, p: int)
    requires t <= q && w - (q + 1) * v > -p && v > 0
    ensures w - q * v > -p
  {
    assert (q + 1) * v == q * v + v;
  }

  method TrialDigit(hi: Digit, lo: Digit, yt: Digit) returns (q: Digit)
    requires yt > 0 && hi <= yt
    ensures q == Trial(hi, lo, yt)
  {
    TrialIsDigit(hi, lo, yt);
    if hi == yt {
      q := BIGRAD - 1;
    } else {
      q := (hi * BIGRAD + lo) / yt;
    }
  }

  // ----- the whole loop -----

  lemma SlicesAt(z: seq<Digit>, k: nat, n: nat)
    requires k <= n <= |z|
    ensures Value(z[..n]) == Value(z[..k]) + Pow(k) * Value(z[k..n])
  {
    hide Value, Pow;
    assert z[..n] == z[..k] + z[k..n];
    ValueConcat(z[..k], z[k..n]);
  }

  lemma WindowBelow(l: int, p: int, w: int, y: int, b: int)
    requires p > 0 && l >= 0 && l + p * w < y * (p * b)
    ensures w < b * y
  {
    assert y * (p * b) == (b * y) * p;
    Cancel(w, b * y, p);
  }

  lemma LoopStep(x: int, upper: int, y: int, p: int, b: int, l: int, w: int, q: int, r: int)
    requires x == upper * (y * (p * b)) + (l + p * w) && w == q * y + r && l < p && r < y
    requires p > 0
    ensures x == (q + b * upper) * (y * p) + (l + p * r) && l + p * r < y * p
  {
    assert upper * (y * (p * b)) == (b * upper) * (y * p);
    assert p * (q * y + r) == q * (y * p) + p * r;
    assert (q + b * upper) * (y * p) == q * (y * p) + (b * upper) * (y * p);
    MulMonotone(r + 1, y, p);
    assert (r + 1) * p == p * r + p;
  }

  /** The division loop: the digits from `ny` on become the quotient, those below the remainder. */
  method DivideLoop(z: array<Digit>, top: nat, y: array<Digit>, ny: nat)
    requires z != y && 0 < ny <= y.Length && ny < top <= z.Length && HALF <= y[ny - 1]
    requires Value(z[..top]) < Value(y[..ny]) * Pow(top - ny)
    modifies z
    ensures old(Value(z[..top])) == Value(z[ny..top]) * Value(y[..ny]) + Value(z[..ny])
    ensures Value(z[..ny]) < Value(y[..ny])
  {
    hide Value, Pow;
    ghost var x, v := Value(z[..top]), Value(y[..ny]);
    var j := top - 1;
    ValueEmpty();
    assert z[top..top] == [];
    assert 0 * (v * Pow(top - ny)) == 0;
    while j >= ny
      invariant ny - 1 <= j < top
      invariant x == Value(z[j + 1..top]) * (v * Pow(j + 1 - ny)) + Value(z[..j + 1])
      invariant Value(z[..j + 1]) < v * Pow(j + 1 - ny)
    {
      ghost var was, k := z[..], j - ny;
      DigitReady(was, k, j, v);
      assert was[k..j + 1] == z[j - ny..j + 1];
      ghost var corrections := QuotientDigit(z, j, y, ny);
      DigitDone(was, z[..], k, j, top, x, v);
      j := j - 1;
    }
    PowStep(0);
    assert v * Pow(0) == v;
  }

  lemma DigitReady(was: seq<Digit>, k: nat, j: nat, v: int)
    requires k <= j < |was| && Value(was[..j + 1]) < v * Pow(k + 1)
    ensures Value(was[k..j + 1]) < BIGRAD * v
  {
    hide Value, Pow;
    SlicesAt(was, k, j + 1);
    ValueBound(was[..k]);
    PowStep(k);
    WindowBelow(Value(was[..k]), Pow(k), Value(was[k..j + 1]), v, BIGRAD);
  }

  lemma DigitDone(was: seq<Digit>, now: seq<Digit>, k: nat, j: nat, top: nat, x: int, v: int)
    requires k < j < top <= |was| == |now| && was[..k] == now[..k] && was[j + 1..] == now[j + 1..]
    requires x == Value(was[j + 1..top]) * (v * Pow(k + 1)) + Value(was[..j + 1])
    requires Value(was[k..j + 1]) == now[j] * v + Value(now[k..j]) && Value(now[k..j]) < v
    ensures x == Value(now[j..top]) * (v * Pow(k)) + Value(now[..j]) && Value(now[..j]) < v * Pow(k)
  {
    hide Value, Pow;
    SlicesAt(was, k, j + 1);
    SlicesAt(now, k, j);
    ValueBound(was[..k]);
    PowStep(k);
    assert was[j + 1..top] == was[j + 1..][..top - (j + 1)];
    assert now[j + 1..top] == now[j + 1..][..top - (j + 1)];
    ValueHead(now, j, top);
    LoopStep(x, Value(was[j + 1..top]), v, Pow(k), BIGRAD, Value(was[..k]), Value(was[k..j + 1]), now[j], Value(now[k..j]));
  }

  lemma ValueHead(z: seq<Digit>, i: nat, n: nat)
    requires i < n <= |z|
    ensures Value(z[i..n]) == z[i] + BIGRAD * Value(z[i + 1..n])
  {
    assert z[i..n][1..] == z[i + 1..n];
  }
}
