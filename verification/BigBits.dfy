/** Bits of multi-precision integers (ruby/bignum.c): negative numbers are taken to two's
    complement and back, so that `&`, `|` and the shifts see infinitely many sign bits. */
module BigBits {
  import opened BigBase
  import opened BigDivision
  import opened BigNum
  import opened BigArith

  /** Bit `k` of an integer, in two's complement without end. */
  predicate Bit(n: int, k: nat) {
    n / Pow2(k) % 2 == 1
  }

  // ----- bits of digits -----

  function AndBits(a: nat, b: nat): nat {
    if a == 0 || b == 0 then 0 else (a % 2) * (b % 2) + 2 * AndBits(a / 2, b / 2)
  }

  function OrBits(a: nat, b: nat): nat
    decreases a + b
  {
    if a == 0 then b else if b == 0 then a
    else (if a % 2 == 1 || b % 2 == 1 then 1 else 0) + 2 * OrBits(a / 2, b / 2)
  }

  lemma BitStep(n: int, k: nat)
    ensures k > 0 ==> (Bit(n, k) <==> Bit(n / 2, k - 1))
    ensures Bit(n, 0) <==> n % 2 == 1
  {
    if k > 0 {
      HalfThenPow(n, k);
    } else {
      assert Pow2(0) == 1;
      DivideIs(n, 1, n, 0);
    }
  }

  lemma HalfThenPow(n: int, k: nat)
    requires k > 0
    ensures n / Pow2(k) == n / 2 / Pow2(k - 1)
  {
    Pow2Step(k - 1);
    TwoSteps(n, 2, Pow2(k - 1));
  }

  /** Rounding down twice is rounding down once. */
  lemma TwoSteps(n: int, a: int, b: int)
    requires a > 0 && b > 0
    ensures a * b > 0 && n / a / b == n / (a * b)
  {
    PositiveProduct(a, b);
    var q, r := n / a, n % a;
    assert n == a * q + r;
    var q', r' := q / b, q % b;
    assert q == b * q' + r';
    MulAssoc(a, b, q');
    assert n == (a * b) * q' + (a * r' + r) by {
      assert a * (b * q' + r') == a * (b * q') + a * r';
    }
    MulMonotone(r', b - 1, a);
    MulMonotone(0, r', a);
    assert a * (b - 1) == a * b - a;
    DivideIs(n, a * b, q', a * r' + r);
  }

  lemma {:induction false} BitOfZero(k: nat)
    ensures !Bit(0, k)
  {
    hide Pow2;
    DivideIs(0, Pow2(k), 0, 0);
  }

  lemma {:induction false} BitOfMinusOne(k: nat)
    ensures Bit(-1, k)
  {
    hide Pow2;
    DivideIs(-1, Pow2(k), -1, Pow2(k) - 1);
  }

  lemma {:induction false} AndBit(a: nat, b: nat, k: nat)
    ensures Bit(AndBits(a, b), k) <==> Bit(a, k) && Bit(b, k)
    decreases k
  {
    hide Bit;
    BitOfZero(k);
    if a != 0 && b != 0 {
      var r := AndBits(a, b);
      BitStep(r, k);
      BitStep(a, k);
      BitStep(b, k);
      AndHalves(a, b);
      if k > 0 { AndBit(a / 2, b / 2, k - 1); }
    }
  }

  lemma AndHalves(a: nat, b: nat)
    requires a != 0 && b != 0
    ensures AndBits(a, b) / 2 == AndBits(a / 2, b / 2)
    ensures AndBits(a, b) % 2 == 1 <==> a % 2 == 1 && b % 2 == 1
  {
    var h := AndBits(a / 2, b / 2);
    if a % 2 == 1 && b % 2 == 1 {
      assert (a % 2) * (b % 2) == 1;
      assert AndBits(a, b) == 1 + 2 * h;
    } else {
      assert (a % 2) * (b % 2) == 0;
      assert AndBits(a, b) == 2 * h;
    }
  }

  lemma {:induction false} OrBit(a: nat, b: nat, k: nat)
    ensures Bit(OrBits(a, b), k) <==> Bit(a, k) || Bit(b, k)
    decreases k
  {
    hide Bit;
    BitOfZero(k);
    if a != 0 && b != 0 {
      BitStep(OrBits(a, b), k);
      BitStep(a, k);
      BitStep(b, k);
      if k > 0 { OrBit(a / 2, b / 2, k - 1); }
    }
  }

  lemma {:induction false} AndSmall(a: nat, b: nat)
    ensures AndBits(a, b) <= a && AndBits(a, b) <= b
  {
    if a != 0 && b != 0 {
      AndSmall(a / 2, b / 2);
      AndHalves(a, b);
    }
  }

  lemma {:induction false} OrSmall(a: nat, b: nat, n: nat)
    requires a < Pow2(n) && b < Pow2(n)
    ensures OrBits(a, b) < Pow2(n) && OrBits(a, b) >= a && OrBits(a, b) >= b
    decreases n
  {
    if a != 0 && b != 0 {
      assert n > 0;
      OrSmall(a / 2, b / 2, n - 1);
    }
  }

  /** The machine operations on digits. */
  function AndDigit(a: Digit, b: Digit): (r: Digit)
    ensures r == AndBits(a, b)
  {
    AndSmall(a, b);
    AndBits(a, b)
  }

  function OrDigit(a: Digit, b: Digit): (r: Digit)
    ensures r == OrBits(a, b)
  {
    OrSmall(a, b, BITSPERDIG);
    OrBits(a, b)
  }

  function NotDigit(a: Digit): Digit {
    BIGRAD - 1 - a
  }

  // ----- bits of digit sequences -----

  /** The integer that digits stand for in two's complement with the given sign. */
  function Twos(ds: seq<Digit>, sign: bool): int {
    Value(ds) - (if sign then 0 else Pow(|ds|))
  }

  /** Digit `i` of that integer, sign digits included. */
  function DigitAt(ds: seq<Digit>, sign: bool, i: nat): Digit {
    if i < |ds| then ds[i] else if sign then 0 else BIGRAD - 1
  }

  lemma {:induction false} PowIsPow2(n: nat)
    ensures n * BITSPERDIG >= 0 && Pow(n) == Pow2(n * BITSPERDIG)
  {
    hide Pow, Pow2;
    PowStep(0);
    Pow2Zero();
    MulMonotone(0, n, BITSPERDIG);
    if n > 0 {
      PowIsPow2(n - 1);
      PowStep(n - 1);
      Pow2Add((n - 1) * BITSPERDIG, BITSPERDIG);
      assert (n - 1) * BITSPERDIG + BITSPERDIG == n * BITSPERDIG;
    }
  }

  /** The digits from `i` on, as an integer. */
  lemma TwosSplit(ds: seq<Digit>, sign: bool, i: nat)
    requires i <= |ds|
    ensures Twos(ds, sign) == Value(ds[..i]) + Pow(i) * Twos(ds[i..], sign)
    ensures Twos(ds, sign) / Pow(i) == Twos(ds[i..], sign)
  {
    hide Value, Pow;
    assert ds == ds[..i] + ds[i..];
    ValueConcat(ds[..i], ds[i..]);
    ValueBound(ds[..i]);
    PowAdd(i, |ds| - i);
    assert Pow(i) * (Value(ds[i..]) - Pow(|ds| - i)) == Pow(i) * Value(ds[i..]) - Pow(i) * Pow(|ds| - i);
    DivideIs(Twos(ds, sign), Pow(i), Twos(ds[i..], sign), Value(ds[..i]));
  }

  /** Bits below the digit width are those of the low digit. */
  lemma LowBits(d: Digit, rest: int, j: nat)
    requires j < BITSPERDIG
    ensures Bit(d + BIGRAD * rest, j) <==> Bit(d, j)
  {
    hide Pow2;
    var p, e := Pow2(j), Pow2(BITSPERDIG - j - 1);
    Pow2Add(j, BITSPERDIG - j);
    assert j + (BITSPERDIG - j) == BITSPERDIG;
    Pow2Step(BITSPERDIG - j - 1);
    assert BIGRAD == p * (2 * e);
    var q, r := d / p, d % p;
    assert d == p * q + r;
    var x := (2 * e) * rest;
    MulAssoc(p, 2 * e, rest);
    assert p * (q + x) == p * q + p * x;
    DivideIs(d + BIGRAD * rest, p, q + x, r);
    MulAssoc(2, e, rest);
    assert x == 2 * (e * rest);
    assert (q + x) % 2 == q % 2;
  }

  lemma ValueFirst(ds: seq<Digit>)
    requires ds != []
    ensures Value(ds) == ds[0] + BIGRAD * Value(ds[1..])
  {
  }

  lemma TwosHead(ds: seq<Digit>, sign: bool)
    requires ds != []
    ensures Twos(ds, sign) == ds[0] + BIGRAD * Twos(ds[1..], sign)
  {
    hide Value, Pow;
    ValueFirst(ds);
    PowStep(|ds| - 1);
    assert BIGRAD * (Value(ds[1..]) - Pow(|ds| - 1)) == BIGRAD * Value(ds[1..]) - BIGRAD * Pow(|ds| - 1);
  }

  lemma TwosEmpty(sign: bool)
    ensures Twos([], sign) == if sign then 0 else -1
  {
  }

  /** Bit `i * BITSPERDIG + j` is bit `j` of digit `i`. */
  lemma BitOfDigits(ds: seq<Digit>, sign: bool, i: nat, j: nat)
    requires j < BITSPERDIG
    ensures i * BITSPERDIG >= 0 && (Bit(Twos(ds, sign), i * BITSPERDIG + j) <==> Bit(DigitAt(ds, sign, i), j))
  {
    hide Value, Pow, Pow2, Bit, Twos;
    PowIsPow2(i);
    if i < |ds| {
      TwosSplit(ds, sign, i);
      SkipBits(Twos(ds, sign), i * BITSPERDIG, j);
      TwosHead(ds[i..], sign);
      LowBits(ds[i], Twos(ds[i..][1..], sign), j);
    } else {
      TwosRange(ds, sign, i);
      SkipBits(Twos(ds, sign), i * BITSPERDIG, j);
      BitOfZero(j);
      BitOfMinusOne(j);
      LowBits(BIGRAD - 1, -1, j);
    }
  }

  lemma TwosRange(ds: seq<Digit>, sign: bool, i: nat)
    requires i >= |ds|
    ensures Twos(ds, sign) / Pow(i) == if sign then 0 else -1
  {
    hide Value, Pow;
    ValueBound(ds);
    PowMonotone(|ds|, i);
    if sign {
      DivideIs(Twos(ds, sign), Pow(i), 0, Value(ds));
    } else {
      DivideIs(Twos(ds, sign), Pow(i), -1, Value(ds) - Pow(|ds|) + Pow(i));
    }
  }

  lemma SkipBits(n: int, a: nat, j: nat)
    ensures Bit(n, a + j) <==> Bit(n / Pow2(a), j)
  {
    hide Pow2;
    Pow2Add(a, j);
    TwoSteps(n, Pow2(a), Pow2(j));
  }

  /** What holds of all digits holds of all bits. */
  lemma BitIndex(k: nat) returns (i: nat, j: nat)
    ensures j < BITSPERDIG && k == i * BITSPERDIG + j
  {
    i, j := k / BITSPERDIG, k % BITSPERDIG;
    QuotientIs(k, BITSPERDIG);
    assert k == BITSPERDIG * (k / BITSPERDIG) + k % BITSPERDIG;
  }

  lemma AndOfDigits(x: seq<Digit>, xs: bool, y: seq<Digit>, ys: bool, z: seq<Digit>, zs: bool)
    requires forall i: nat :: DigitAt(z, zs, i) == AndBits(DigitAt(x, xs, i), DigitAt(y, ys, i))
    ensures forall k: nat :: Bit(Twos(z, zs), k) <==> Bit(Twos(x, xs), k) && Bit(Twos(y, ys), k)
  {
    hide Twos, Bit, DigitAt, AndBits;
    forall k: nat ensures Bit(Twos(z, zs), k) <==> Bit(Twos(x, xs), k) && Bit(Twos(y, ys), k) {
      var i, j := BitIndex(k);
      BitOfDigits(x, xs, i, j);
      BitOfDigits(y, ys, i, j);
      BitOfDigits(z, zs, i, j);
      AndBit(DigitAt(x, xs, i), DigitAt(y, ys, i), j);
    }
  }

  lemma OrOfDigits(x: seq<Digit>, xs: bool, y: seq<Digit>, ys: bool, z: seq<Digit>, zs: bool)
    requires forall i: nat :: DigitAt(z, zs, i) == OrBits(DigitAt(x, xs, i), DigitAt(y, ys, i))
    ensures forall k: nat :: Bit(Twos(z, zs), k) <==> Bit(Twos(x, xs), k) || Bit(Twos(y, ys), k)
  {
    hide Twos, Bit, DigitAt, OrBits;
    forall k: nat ensures Bit(Twos(z, zs), k) <==> Bit(Twos(x, xs), k) || Bit(Twos(y, ys), k) {
      var i, j := BitIndex(k);
      BitOfDigits(x, xs, i, j);
      BitOfDigits(y, ys, i, j);
      BitOfDigits(z, zs, i, j);
      OrBit(DigitAt(x, xs, i), DigitAt(y, ys, i), j);
    }
  }

  /** An integer is its bits. */
  lemma {:induction false} BitsDetermine(a: int, b: int)
    requires forall k: nat :: Bit(a, k) <==> Bit(b, k)
    ensures a == b
    decreases (if a < 0 then -a else a) + (if b < 0 then -b else b)
  {
    hide Bit;
    BitStep(a, 0);
    BitStep(b, 0);
    assert Bit(a, 0) <==> Bit(b, 0);
    if -1 <= a <= 0 && -1 <= b <= 0 {
    } else {
      forall k: nat ensures Bit(a / 2, k) <==> Bit(b / 2, k) {
        BitStep(a, k + 1);
        BitStep(b, k + 1);
        assert Bit(a, k + 1) <==> Bit(b, k + 1);
      }
      BitsDetermine(a / 2, b / 2);
    }
  }

  // ----- two's complement -----

  /** The loop that turns every digit into its complement. */
  method Invert(ds: array<Digit>, len: nat)
    requires len <= ds.Length
    modifies ds
    ensures ds[len..] == old(ds[len..]) && Value(ds[..len]) == Pow(len) - 1 - old(Value(ds[..len]))
  {
    hide Value, Pow;
    ghost var was := ds[..];
    var i := len;
    while i > 0
      invariant 0 <= i <= len && ds[..i] == was[..i] && ds[len..] == was[len..]
      invariant forall j :: i <= j < len ==> ds[j] == NotDigit(was[j])
    {
      i := i - 1;
      ds[i] := NotDigit(ds[i]);
    }
    Inverted(was[..len], ds[..len]);
  }

  lemma {:induction false} Inverted(a: seq<Digit>, b: seq<Digit>)
    requires |a| == |b| && forall j :: 0 <= j < |a| ==> b[j] == NotDigit(a[j])
    ensures Value(b) == Pow(|a|) - 1 - Value(a)
  {
    hide Pow;
    PowStep(0);
    if a != [] {
      Inverted(a[1..], b[1..]);
      PowStep(|a| - 1);
      InvertedSum(BIGRAD, Pow(|a| - 1), Value(a[1..]), Value(b[1..]));
    }
  }

  lemma InvertedSum(base: int, p: int, v: int, w: int)
    requires w == p - 1 - v
    ensures base * w == base * p - base - base * v
  {
  }

  /** The loop that adds one. */
  method AddOne(ds: array<Digit>, len: nat)
    requires 0 < len <= ds.Length && Value(ds[..len]) < Pow(len) - 1
    modifies ds
    ensures ds[len..] == old(ds[len..]) && Value(ds[..len]) == old(Value(ds[..len])) + 1
  {
    hide Value, Pow, BigDn, BigLo;
    ghost var was := ds[..];
    var i, num := 0, 1;
    ValueEmpty();
    PowStep(0);
    assert ds[0..0] == [];
    while i < len
      invariant 0 <= i <= len && 0 <= num <= 1 && ds[i..] == was[i..]
      invariant Value(ds[0..0 + i]) + num * Pow(i) == Value(was[0..0 + i]) + 1
    {
      ghost var mid, num0 := ds[..], num;
      AddCarry(num, ds[i], 0);
      num := num + ds[i];
      ds[i] := BigLo(num);
      Carried(Value(mid[0..0 + i]), Value(was[0..0 + i]) + 1, num0, Pow(i), was[i], 0, BigDn(num), ds[i], BIGRAD);
      num := BigDn(num);
      assert ds[0..0 + i] == mid[0..0 + i];
      SliceStep(ds[..], 0, i);
      SliceStep(was, 0, i);
      PowStep(i);
      i := i + 1;
    }
    assert ds[0..0 + len] == ds[..len] && was[0..0 + len] == was[..len];
    ValueBound(ds[..len]);
  }

  /** get2comp: a magnitude becomes the digits of its negative. With `carry`, a sign digit is
      added where the top bit would not tell that the number is negative. */
  method Get2Comp(x: Bignum, carry: bool)
    requires x.Valid() && x.Mag() > 0
    modifies x, x.digits
    ensures x.Valid() && x.sign == old(x.sign) && (x.digits == old(x.digits) || fresh(x.digits))
    ensures Twos(x.digits[..x.len], false) == -old(x.Mag())
    ensures carry ==> HALF <= x.digits[x.len - 1]
    ensures x.len == if carry && old(x.Mag()) > HALF * Pow(old(x.len) - 1) then old(x.len) + 1 else old(x.len)
    ensures !carry ==> x.Mag() == Pow(x.len) - old(x.Mag())
  {
    hide Value, Pow, Twos;
    ghost var m := x.Mag();
    ValueBound(x.digits[..x.len]);
    Invert(x.digits, x.len);
    AddOne(x.digits, x.len);
    TwosNegative(x.digits[..x.len], m);
    TopTells(x.digits[..x.len], m);
    if carry && x.digits[x.len - 1] < HALF {
      SignDigit(x.digits[..x.len]);
      AppendSignDigit(x);
      HalfIsHalf();
    }
  }

  /** The top bit of a complement is clear exactly for large magnitudes. */
  lemma TopTells(ds: seq<Digit>, m: int)
    requires ds != [] && Value(ds) == Pow(|ds|) - m
    ensures ds[|ds| - 1] < HALF <==> m > HALF * Pow(|ds| - 1)
  {
    hide Value, Pow;
    var t, p := ds[|ds| - 1], Pow(|ds| - 1);
    TopDigit(ds);
    PowStep(|ds| - 1);
    HalfIsHalf();
    assert (2 * HALF) * p == HALF * p + HALF * p;
    if t < HALF {
      MulMonotone(t + 1, HALF, p);
    } else {
      MulMonotone(HALF, t, p);
    }
  }

  /** The digits are reallocated with a sign digit at the end. */
  method AppendSignDigit(x: Bignum)
    requires x.Valid()
    modifies x
    ensures x.Valid() && x.sign == old(x.sign) && fresh(x.digits) && x.len == old(x.len) + 1
    ensures x.digits[..x.len] == old(x.digits[..x.len]) + [BIGRAD - 1] && x.digits[x.len - 1] == BIGRAD - 1
  {
    var ds := new Digit[x.len + 1];
    var i := 0;
    while i < x.len
      invariant 0 <= i <= x.len && ds[..i] == x.digits[..i]
      modifies ds
    {
      ds[i] := x.digits[i];
      i := i + 1;
    }
    ds[x.len] := BIGRAD - 1;
    assert ds[..x.len + 1] == x.digits[..x.len] + [BIGRAD - 1];
    x.digits, x.len := ds, x.len + 1;
  }

  lemma TwosNegative(ds: seq<Digit>, m: int)
    requires Value(ds) == Pow(|ds|) - m
    ensures Twos(ds, false) == -m
  {
  }

  /** One more sign digit leaves the number as it is. */
  lemma SignDigit(ds: seq<Digit>)
    ensures Twos(ds + [BIGRAD - 1], false) == Twos(ds, false)
  {
    hide Value, Pow;
    ValueSnoc(ds, BIGRAD - 1);
    PowStep(|ds|);
    assert Pow(|ds|) * (BIGRAD - 1) == Pow(|ds|) * BIGRAD - Pow(|ds|);
  }

  /** The two's complement digits of an operand, which is cloned when it is negative. */
  method Operand(x: Bignum) returns (c: Bignum)
    requires x.Valid() && (!x.sign ==> x.Mag() > 0)
    ensures c.Valid() && c.sign == x.sign && (c == x || (fresh(c) && fresh(c.digits)))
    ensures Twos(c.digits[..c.len], c.sign) == x.ToInt()
    ensures c.len == if !x.sign && x.Mag() > HALF * Pow(x.len - 1) then x.len + 1 else x.len
    ensures !c.sign ==> HALF <= c.digits[c.len - 1]
  {
    hide Value, Pow;
    c := x;
    if !x.sign {
      c := x.Clone();
      assert c.digits[..c.len] == x.digits[..x.len];
      Get2Comp(c, true);
    }
  }

  /** The result, back in sign and magnitude. */
  method Finished(z: Bignum)
    requires z.Valid() && z.digits.Length == z.len && (!z.sign ==> exists i :: 0 <= i < z.len && z.digits[i] != 0)
    modifies z, z.digits
    ensures z.Valid() && z.ToInt() == old(Twos(z.digits[..z.len], z.sign))
  {
    hide Value, Pow;
    ValueBound(z.digits[..z.len]);
    if !z.sign {
      ValueZeros(z.digits[..z.len]);
      Get2Comp(z, false);
    }
  }

  lemma {:induction false} AndOnes(d: nat, n: nat)
    requires d < Pow2(n)
    ensures AndBits(Pow2(n) - 1, d) == d
  {
    if d != 0 {
      AndOnes(d / 2, n - 1);
      assert (Pow2(n) - 1) / 2 == Pow2(n - 1) - 1;
      assert (Pow2(n) - 1) % 2 == 1;
      AndHalves(Pow2(n) - 1, d);
    }
  }

  lemma {:induction false} OrOnes(d: nat, n: nat)
    requires d < Pow2(n)
    ensures OrBits(Pow2(n) - 1, d) == Pow2(n) - 1
  {
    if d != 0 {
      OrOnes(d / 2, n - 1);
      assert (Pow2(n) - 1) / 2 == Pow2(n - 1) - 1;
    }
  }

  lemma TopBit(d: Digit)
    ensures Bit(d, BITSPERDIG - 1) <==> d >= HALF
  {
    hide Pow2;
    HalfIsHalf();
    if d >= HALF {
      DivideIs(d, HALF, 1, d - HALF);
    } else {
      DivideIs(d, HALF, 0, d);
    }
  }

  lemma AndTop(a: Digit, b: Digit)
    requires a >= HALF && b >= HALF
    ensures AndBits(a, b) != 0
  {
    hide Bit, AndBits;
    TopBit(a);
    TopBit(b);
    AndBit(a, b, BITSPERDIG - 1);
    BitOfZero(BITSPERDIG - 1);
  }

  lemma AndDigitsDone(s: seq<Digit>, ss: bool, l: seq<Digit>, ls: bool, z: seq<Digit>, zs: bool)
    requires |s| <= |l| == |z| && zs == (ss || ls)
    requires forall j :: 0 <= j < |s| ==> z[j] == AndBits(s[j], l[j])
    requires forall j :: |s| <= j < |l| ==> z[j] == if ss then 0 else l[j]
    ensures forall i: nat :: DigitAt(z, zs, i) == AndBits(DigitAt(s, ss, i), DigitAt(l, ls, i))
  {
    hide AndBits;
    forall j: nat ensures DigitAt(z, zs, j) == AndBits(DigitAt(s, ss, j), DigitAt(l, ls, j)) {
      var d := DigitAt(l, ls, j);
      AndOnes(d, BITSPERDIG);
      AndZero(d);
    }
  }

  /** The loops of rb_big_and, shorter operand first. */
  method AndLoops(s: Bignum, l: Bignum) returns (z: Bignum)
    requires s.Valid() && l.Valid() && s.len <= l.len
    requires (!s.sign ==> HALF <= s.digits[s.len - 1]) && (!l.sign ==> HALF <= l.digits[l.len - 1])
    ensures fresh(z) && fresh(z.digits) && z.Valid() && z.digits.Length == z.len && z.sign == (s.sign || l.sign)
    ensures !z.sign ==> exists i :: 0 <= i < z.len && z.digits[i] != 0
    ensures forall i: nat ::
              DigitAt(z.digits[..z.len], z.sign, i) == AndBits(DigitAt(s.digits[..s.len], s.sign, i), DigitAt(l.digits[..l.len], l.sign, i))
  {
    hide AndBits, DigitAt;
    z := new Bignum(l.len, s.sign || l.sign);
    var i := 0;
    while i < s.len
      invariant 0 <= i <= s.len && forall j :: 0 <= j < i ==> z.digits[j] == AndBits(s.digits[j], l.digits[j])
      modifies z.digits
    {
      z.digits[i] := AndDigit(s.digits[i], l.digits[i]);
      i := i + 1;
    }
    while i < l.len
      invariant s.len <= i <= l.len
      invariant forall j :: 0 <= j < s.len ==> z.digits[j] == AndBits(s.digits[j], l.digits[j])
      invariant forall j :: s.len <= j < i ==> z.digits[j] == if s.sign then 0 else l.digits[j]
      modifies z.digits
    {
      z.digits[i] := if s.sign then 0 else l.digits[i];
      i := i + 1;
    }
    AndDigitsDone(s.digits[..s.len], s.sign, l.digits[..l.len], l.sign, z.digits[..z.len], z.sign);
    if !z.sign {
      if s.len == l.len { AndTop(s.digits[s.len - 1], l.digits[l.len - 1]); }
      HalfIsHalf();
      assert z.digits[z.len - 1] != 0;
    }
  }

  lemma AndZero(d: nat)
    ensures AndBits(0, d) == 0 && OrBits(0, d) == d
  {
  }

  /** rb_big_and: bitwise `and` on integers of either sign. */
  method BigAnd(x: Bignum, y: Bignum) returns (z: Bignum)
    requires x.Valid() && y.Valid() && (!x.sign ==> x.Mag() > 0) && (!y.sign ==> y.Mag() > 0)
    ensures z.Valid() && fresh(z)
    ensures forall k: nat :: Bit(z.ToInt(), k) <==> Bit(x.ToInt(), k) && Bit(y.ToInt(), k)
  {
    hide Value, Pow, Bit, DigitAt, Twos, AndBits;
    ghost var xi, yi := x.ToInt(), y.ToInt();
    var y' := Operand(y);
    var x' := Operand(x);
    if x'.len > y'.len {
      z := AndLoops(y', x');
      AndOfDigits(y'.digits[..y'.len], y'.sign, x'.digits[..x'.len], x'.sign, z.digits[..z.len], z.sign);
    } else {
      z := AndLoops(x', y');
      AndOfDigits(x'.digits[..x'.len], x'.sign, y'.digits[..y'.len], y'.sign, z.digits[..z.len], z.sign);
    }
    Finished(z);
  }

  lemma OrDigitsDone(s: seq<Digit>, ss: bool, l: seq<Digit>, ls: bool, z: seq<Digit>, zs: bool)
    requires |s| <= |l| == |z| && zs == (ss && ls)
    requires forall j :: 0 <= j < |s| ==> z[j] == OrBits(s[j], l[j])
    requires forall j :: |s| <= j < |l| ==> z[j] == if ss then l[j] else BIGRAD - 1
    ensures forall i: nat :: DigitAt(z, zs, i) == OrBits(DigitAt(s, ss, i), DigitAt(l, ls, i))
  {
    hide OrBits;
    forall j: nat ensures DigitAt(z, zs, j) == OrBits(DigitAt(s, ss, j), DigitAt(l, ls, j)) {
      var d := DigitAt(l, ls, j);
      OrOnes(d, BITSPERDIG);
      AndZero(d);
    }
  }

  /** The loops of rb_big_or, shorter operand first. */
  method OrLoops(s: Bignum, l: Bignum) returns (z: Bignum)
    requires s.Valid() && l.Valid() && s.len <= l.len
    requires (!s.sign ==> HALF <= s.digits[s.len - 1]) && (!l.sign ==> HALF <= l.digits[l.len - 1])
    ensures fresh(z) && fresh(z.digits) && z.Valid() && z.digits.Length == z.len && z.sign == (s.sign && l.sign)
    ensures !z.sign ==> exists i :: 0 <= i < z.len && z.digits[i] != 0
    ensures forall i: nat ::
              DigitAt(z.digits[..z.len], z.sign, i) == OrBits(DigitAt(s.digits[..s.len], s.sign, i), DigitAt(l.digits[..l.len], l.sign, i))
  {
    hide OrBits, DigitAt;
    z := new Bignum(l.len, s.sign && l.sign);
    var i := 0;
    while i < s.len
      invariant 0 <= i <= s.len && forall j :: 0 <= j < i ==> z.digits[j] == OrBits(s.digits[j], l.digits[j])
      modifies z.digits
    {
      z.digits[i] := OrDigit(s.digits[i], l.digits[i]);
      i := i + 1;
    }
    while i < l.len
      invariant s.len <= i <= l.len
      invariant forall j :: 0 <= j < s.len ==> z.digits[j] == OrBits(s.digits[j], l.digits[j])
      invariant forall j :: s.len <= j < i ==> z.digits[j] == if s.sign then l.digits[j] else BIGRAD - 1
      modifies z.digits
    {
      z.digits[i] := if s.sign then l.digits[i] else BIGRAD - 1;
      i := i + 1;
    }
    OrDigitsDone(s.digits[..s.len], s.sign, l.digits[..l.len], l.sign, z.digits[..z.len], z.sign);
    if !z.sign {
      OrTop(s.digits[s.len - 1], l.digits[l.len - 1]);
      HalfIsHalf();
      assert z.digits[z.len - 1] != 0;
    }
  }

  lemma OrTop(a: Digit, b: Digit)
    ensures OrBits(a, b) >= a && OrBits(a, b) >= b
  {
    OrSmall(a, b, BITSPERDIG);
  }

  /** rb_big_or: bitwise `or` on integers of either sign. */
  method BigOr(x: Bignum, y: Bignum) returns (z: Bignum)
    requires x.Valid() && y.Valid() && (!x.sign ==> x.Mag() > 0) && (!y.sign ==> y.Mag() > 0)
    ensures z.Valid() && fresh(z)
    ensures forall k: nat :: Bit(z.ToInt(), k) <==> Bit(x.ToInt(), k) || Bit(y.ToInt(), k)
  {
    hide Value, Pow, Bit, DigitAt, Twos, OrBits;
    ghost var xi, yi := x.ToInt(), y.ToInt();
    var y' := Operand(y);
    var x' := Operand(x);
    if x'.len > y'.len {
      z := OrLoops(y', x');
      OrOfDigits(y'.digits[..y'.len], y'.sign, x'.digits[..x'.len], x'.sign, z.digits[..z.len], z.sign);
    } else {
      z := OrLoops(x', y');
      OrOfDigits(x'.digits[..x'.len], x'.sign, y'.digits[..y'.len], y'.sign, z.digits[..z.len], z.sign);
    }
    Finished(z);
  }

  // ----- shifts -----

  /** rb_big_lshift: multiplication by a power of two. */
  method BigLshift(x: Bignum, shift: nat) returns (z: Bignum)
    requires x.Valid()
    ensures fresh(z) && z.Valid() && z.sign == x.sign && z.ToInt() == x.ToInt() * Pow2(shift)
    ensures z.len == x.len + shift / BITSPERDIG + 1
  {
    hide Value, Pow, Pow2;
    var s1, s2 := ShiftParts(shift);
    z := new Bignum(x.len + s1 + 1, x.sign);
    ZeroLow(z.digits, s1);
    var num := LshiftLoop(x, z, s1, s2);
    ghost var d := z.digits[..];
    SmallPower(s2);
    z.digits[s1 + x.len] := num;
    LshiftDone(d, z.digits[..], s1, x.len, s2, num, x.Mag());
    assert z.digits[..] == z.digits[..z.len];
    assert (-x.Mag()) * Pow2(shift) == -(Pow2(shift) * x.Mag());
  }

  lemma SmallPower(n: nat)
    requires n < BITSPERDIG
    ensures Pow2(n) < BIGRAD
  {
    hide Pow2;
    Pow2Monotone(n, BITSPERDIG - 1);
    HalfIsHalf();
  }

  method ZeroLow(ds: array<Digit>, n: nat)
    requires n <= ds.Length
    modifies ds
    ensures Value(ds[..n]) == 0
  {
    hide Value, Pow;
    var i := 0;
    while i < n
      invariant 0 <= i <= n && forall j :: 0 <= j < i ==> ds[j] == 0
    {
      ds[i] := 0;
      i := i + 1;
    }
    ValueZeros(ds[..n]);
  }

  method ShiftParts(shift: nat) returns (s1: nat, s2: nat)
    ensures s1 == shift / BITSPERDIG && s2 < BITSPERDIG && shift == s1 * BITSPERDIG + s2
  {
    s1, s2 := shift / BITSPERDIG, shift % BITSPERDIG;
    QuotientIs(shift, BITSPERDIG);
    assert shift == BITSPERDIG * (shift / BITSPERDIG) + shift % BITSPERDIG;
  }

  lemma LshiftDone(d: seq<Digit>, z: seq<Digit>, s1: nat, n: nat, s2: nat, num: int, m: int)
    requires |d| == |z| == s1 + n + 1 && z[s1 + n] == num && z[..s1 + n] == d[..s1 + n]
    requires Value(d[..s1]) == 0 && Value(d[s1..s1 + n]) + num * Pow(n) == Pow2(s2) * m
    ensures s1 * BITSPERDIG >= 0 && Value(z) == Pow2(s1 * BITSPERDIG + s2) * m
  {
    hide Value, Pow, Pow2;
    assert z[..s1] == d[..s1] && z[s1..s1 + n] == d[s1..s1 + n];
    SliceStep(z, s1, n);
    SlicesAt(z, s1, |z|);
    assert z[..|z|] == z;
    PowIsPow2(s1);
    Pow2Add(s1 * BITSPERDIG, s2);
    MulAssoc(Pow2(s1 * BITSPERDIG), Pow2(s2), m);
  }

  /** The main loop of rb_big_lshift. */
  method LshiftLoop(x: Bignum, z: Bignum, s1: nat, s2: nat) returns (num: int)
    requires x.Valid() && z.Valid() && x.digits != z.digits && z.digits.Length == x.len + s1 + 1 && s2 < BITSPERDIG
    modifies z.digits
    ensures z.digits[..s1] == old(z.digits[..s1]) && 0 <= num < Pow2(s2)
    ensures Value(z.digits[s1..s1 + x.len]) + num * Pow(x.len) == Pow2(s2) * x.Mag()
  {
    hide Value, Pow, Pow2, BigDn, BigLo;
    var i := 0;
    num := 0;
    ValueEmpty();
    assert x.digits[0..0] == [] && z.digits[s1..s1 + 0] == [];
    while i < x.len
      invariant 0 <= i <= x.len && 0 <= num < Pow2(s2) && z.digits[..s1] == old(z.digits[..s1])
      invariant Value(z.digits[s1..s1 + i]) + num * Pow(i) == Pow2(s2) * Value(x.digits[0..0 + i])
    {
      ghost var mid, num0 := z.digits[..], num;
      ShiftCarry(num, x.digits[i], Pow2(s2));
      // the carry fits below the shifted digit, so `|` is `+`
      num := num + x.digits[i] * Pow2(s2);
      z.digits[s1 + i] := BigLo(num);
      ShiftLeftStep(Value(mid[s1..s1 + i]), num0, Pow(i), Pow2(s2), Value(x.digits[0..0 + i]), x.digits[i], BigDn(num), z.digits[s1 + i], BIGRAD);
      num := BigDn(num);
      assert z.digits[s1..s1 + i] == mid[s1..s1 + i];
      SliceStep(z.digits[..], s1, i);
      SliceStep(x.digits[..], 0, i);
      PowStep(i);
      i := i + 1;
    }
    assert x.digits[0..0 + x.len] == x.digits[..x.len];
  }

  /** The main loop of rb_big_rshift, from the top; above a negative number stand sign digits. */
  method RshiftLoop(x: Bignum, z: Bignum, s1: nat, s2: nat)
    requires x.Valid() && s1 < x.len && z.Valid() && z.digits != x.digits && z.len == z.digits.Length == x.len - s1 && s2 < BITSPERDIG
    modifies z.digits
    ensures Twos(z.digits[..], x.sign) == Twos(x.digits[s1..x.len], x.sign) / Pow2(s2)
  {
    hide Value, Pow, Pow2, Twos;
    var num := if x.sign then 0 else (BIGRAD - 1) * BIGRAD;
    var i, j := x.len, x.len - s1;
    TwosEmpty(x.sign);
    assert z.digits[j..] == [] && x.digits[i..x.len] == [];
    DivideIs(0, Pow2(s2), 0, 0);
    DivideIs(-1, Pow2(s2), -1, Pow2(s2) - 1);
    while j > 0
      invariant 0 <= j <= z.len && i == j + s1
      invariant num == (if i == x.len then (if x.sign then 0 else BIGRAD - 1) else x.digits[i]) * BIGRAD
      invariant Twos(z.digits[j..], x.sign) == Twos(x.digits[i..x.len], x.sign) / Pow2(s2)
    {
      ghost var mid := z.digits[..];
      i, j := i - 1, j - 1;
      num := (num + x.digits[i]) / Pow2(s2);
      RshiftDigit(x.digits[..x.len], x.sign, i, s2, num) by {
        assert x.digits[..x.len][i + 1..] == x.digits[i + 1..x.len];
        assert i + 1 < x.len ==> x.digits[..x.len][i + 1] == x.digits[i + 1];
        assert x.digits[..x.len][i] == x.digits[i];
      }
      z.digits[j] := num % BIGRAD;
      num := x.digits[i] * BIGRAD;
      assert z.digits[j + 1..] == mid[j + 1..];
      TwosFirst(z.digits[..], j, x.sign);
      TwosFirst(x.digits[..x.len], i, x.sign);
      assert z.digits[..][j..] == z.digits[j..] && z.digits[..][j + 1..] == z.digits[j + 1..];
      assert x.digits[..x.len][i..] == x.digits[i..x.len] && x.digits[..x.len][i + 1..] == x.digits[i + 1..x.len];
    }
    assert z.digits[0..] == z.digits[..];
  }

  lemma TwosFirst(ds: seq<Digit>, i: nat, sign: bool)
    requires i < |ds|
    ensures Twos(ds[i..], sign) == ds[i] + BIGRAD * Twos(ds[i + 1..], sign)
  {
    hide Twos;
    TwosHead(ds[i..], sign);
    assert ds[i..][1..] == ds[i + 1..];
  }

  lemma RshiftDigit(ds: seq<Digit>, sign: bool, i: nat, s2: nat, num: int)
    requires i < |ds| && s2 < BITSPERDIG
    requires num == ((if i + 1 == |ds| then (if sign then 0 else BIGRAD - 1) else ds[i + 1]) * BIGRAD + ds[i]) / Pow2(s2)
    ensures 0 <= num % BIGRAD < BIGRAD
    ensures num % BIGRAD + BIGRAD * (Twos(ds[i + 1..], sign) / Pow2(s2)) == (ds[i] + BIGRAD * Twos(ds[i + 1..], sign)) / Pow2(s2)
  {
    hide Value, Pow, Pow2, Twos;
    Pow2Add(s2, BITSPERDIG - s2);
    assert s2 + (BITSPERDIG - s2) == BITSPERDIG;
    var e := Pow2(BITSPERDIG - s2);
    if i + 1 == |ds| {
      TwosEmpty(sign);
      assert ds[i + 1..] == [];
      if sign {
        ShiftRightStep(0, ds[i], 0, 0, Pow2(s2), e, BIGRAD);
      } else {
        ShiftRightStep(BIGRAD - 1, ds[i], -1, -1, Pow2(s2), e, BIGRAD);
      }
    } else {
      TwosFirst(ds, i + 1, sign);
      ShiftRightStep(ds[i + 1], ds[i], Twos(ds[i + 2..], sign), Twos(ds[i + 1..], sign), Pow2(s2), e, BIGRAD);
    }
  }

  /** A number far below the shift leaves only its sign. */
  lemma ShiftedOut(x: Bignum, shift: nat)
    requires x.Valid() && (shift / BITSPERDIG > x.len || (shift / BITSPERDIG == x.len && x.sign)) && (!x.sign ==> x.Mag() > 0)
    ensures x.ToInt() / Pow2(shift) == if x.sign then 0 else -1
  {
    hide Value, Pow, Pow2;
    ValueBound(x.digits[..x.len]);
    PowIsPow2(x.len);
    MulMonotone(x.len, shift / BITSPERDIG, BITSPERDIG);
    QuotientIs(shift, BITSPERDIG);
    Pow2Monotone(x.len * BITSPERDIG, shift);
    if x.sign {
      DivideIs(x.Mag(), Pow2(shift), 0, x.Mag());
    } else {
      DivideIs(-x.Mag(), Pow2(shift), -1, Pow2(shift) - x.Mag());
    }
  }

  /** Digits whose top bit is set stay non-zero when they are shifted as a negative number. */
  lemma ShiftedNonzero(ds: seq<Digit>, z: seq<Digit>, s2: nat)
    requires |ds| == |z| > 0 && HALF <= ds[|ds| - 1] && s2 < BITSPERDIG
    requires Twos(z, false) == Twos(ds, false) / Pow2(s2)
    ensures exists i :: 0 <= i < |z| && z[i] != 0
  {
    hide Value, Pow, Pow2;
    TopDigit(ds);
    PowStep(|ds| - 1);
    MulMonotone(HALF, ds[|ds| - 1], Pow(|ds| - 1));
    HalfIsHalf();
    PositiveProduct(HALF, Pow(|ds| - 1));
    assert (2 * HALF) * Pow(|ds| - 1) == 2 * (HALF * Pow(|ds| - 1));
    FloorAtLeast(Twos(ds, false), Pow2(s2));
    ValueZeros(z);
  }

  lemma FloorAtLeast(n: int, d: int)
    requires d > 0
    ensures n < 0 ==> n / d >= n
  {
    if n < 0 {
      assert n == d * (n / d) + n % d;
      MulMonotone(1, d, -n);
      assert d * (n - 1) == -((-n) * d) - d;
      Cancel(n - 1, n / d, d);
    }
  }

  /** A negative number whose complement needs no sign digit has no digit left when the shift takes
      as many whole digits as it has; the source then complements a digit that is not there. */
  ghost predicate NothingLeft(x: Bignum, s1: nat)
    requires x.Valid()
    reads x, x.digits
  {
    s1 == x.len && !x.sign && x.Mag() <= HALF * Pow(x.len - 1)
  }

  /** rb_big_rshift: floor division by a power of two, wherever a digit is left to work on. */
  method BigRshift(x: Bignum, shift: nat) returns (z: Bignum)
    requires x.Valid() && (!x.sign ==> x.Mag() > 0) && !NothingLeft(x, shift / BITSPERDIG)
    ensures fresh(z) && z.Valid() && z.ToInt() == x.ToInt() / Pow2(shift)
  {
    hide Value, Pow, Pow2, Twos;
    var s1, s2 := ShiftParts(shift);
    if s1 > x.len {
      ShiftedOut(x, shift);
      z := OnlySign(x.sign);
    } else if s1 == x.len && x.sign {
      // no digits at all, which bignorm turns into 0
      ShiftedOut(x, shift);
      z := OnlySign(true);
    } else {
      z := ShiftWithin(x, s1, s2);
      PowIsPow2(s1);
      Pow2Add(s1 * BITSPERDIG, s2);
    }
  }

  /** Exactly where nothing is left, the complement has as many digits as the shift takes. */
  method DigitsLeft(x: Bignum, s1: nat) returns (j: int)
    requires x.Valid() && (!x.sign ==> x.Mag() > 0) && s1 <= x.len
    ensures j == 0 <==> NothingLeft(x, s1) || (s1 == x.len && x.sign)
  {
    hide Value, Pow, Twos;
    var c := Operand(x);
    j := c.len - s1;
  }

  /** 0 or -1. */
  method OnlySign(sign: bool) returns (z: Bignum)
    ensures fresh(z) && z.Valid() && z.ToInt() == if sign then 0 else -1
  {
    hide Value, Pow;
    HalfIsHalf();
    z := new Bignum.Small(if sign then 0 else 1);
    z.sign := sign;
  }

  method ShiftWithin(x: Bignum, s1: nat, s2: nat) returns (z: Bignum)
    requires x.Valid() && (!x.sign ==> x.Mag() > 0) && s1 <= x.len && s2 < BITSPERDIG
    requires s1 == x.len ==> !x.sign && !NothingLeft(x, s1)
    ensures fresh(z) && z.Valid() && z.ToInt() == x.ToInt() / (Pow(s1) * Pow2(s2))
  {
    hide Value, Pow, Pow2, Twos;
    var x' := Operand(x);
    z := new Bignum(x'.len - s1, x'.sign);
    RshiftLoop(x', z, s1, s2);
    ghost var ds := x'.digits[..x'.len];
    assert x'.digits[s1..x'.len] == ds[s1..];
    TwosSplit(ds, x'.sign, s1);
    TwoSteps(x.ToInt(), Pow(s1), Pow2(s2));
    assert z.digits[..z.len] == z.digits[..];
    if !z.sign {
      ShiftedNonzero(ds[s1..], z.digits[..], s2);
    }
    Finished(z);
  }

  /** Shifting left and then right by the same count gives the number back: after the shift to the
      left there is always a digit left to work on. */
  method ShiftThereAndBack(x: Bignum, shift: nat) returns (z: Bignum)
    requires x.Valid() && (!x.sign ==> x.Mag() > 0)
    ensures fresh(z) && z.Valid() && z.ToInt() == x.ToInt()
  {
    hide Value, Pow, Pow2;
    var y := BigLshift(x, shift);
    ShiftedBack(x.ToInt(), shift);
    z := BigRshift(y, shift);
  }

  lemma ShiftedBack(n: int, shift: nat)
    ensures n * Pow2(shift) / Pow2(shift) == n
    ensures n < 0 ==> n * Pow2(shift) < 0
  {
    hide Pow2;
    DivideIs(n * Pow2(shift), Pow2(shift), n, 0);
  }
}
