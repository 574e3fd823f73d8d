/** Numerals: rb_big2str and the parser behind rb_cstr_to_inum (ruby/bignum.c). */
module BigText {
  import opened BigBase
  import opened BigDivision
  import opened BigNum
  import opened BigArith
  import opened Wrappers
  import BigBits

  const HEXMAP: string := "0123456789abcdef"

  function HexDigit(d: int): char
    requires 0 <= d < 16
  {
    HEXMAP[d]
  }

  predicate Radix(base: int) {
    base == 2 || base == 8 || base == 10 || base == 16
  }

  function Exp(b: nat, n: nat): nat {
    if n == 0 then 1 else b * Exp(b, n - 1)
  }

  /** The digits of a positive number, most significant first; nothing for 0. */
  function Numeral(n: nat, base: int): string
    requires 2 <= base <= 16
    decreases n
  {
    if n == 0 then "" else Numeral(n / base, base) + [HexDigit(n % base)]
  }

  /** A number as it is written: a sign only when it is negative. */
  function Written(n: int, base: int): string
    requires 2 <= base <= 16
  {
    if n == 0 then "0" else if n > 0 then Numeral(n, base) else "-" + Numeral(-n, base)
  }

  // ----- room for the digits -----

  lemma {:induction false} ExpAdd(b: nat, m: nat, n: nat)
    ensures Exp(b, m + n) == Exp(b, m) * Exp(b, n)
  {
    if m > 0 {
      ExpAdd(b, m - 1, n);
      MulAssoc(b, Exp(b, m - 1), Exp(b, n));
    }
  }

  lemma {:induction false} ExpMul(b: nat, m: nat, n: nat)
    ensures m * n >= 0 && Exp(Exp(b, m), n) == Exp(b, m * n)
  {
    hide Exp;
    MulMonotone(0, m, n);
    if n > 0 {
      ExpMul(b, m, n - 1);
      assert m * n == m + m * (n - 1);
      ExpAdd(b, m, m * (n - 1));
      ExpStep(Exp(b, m), n);
    } else {
      ExpStep(b, 0);
      ExpStep(Exp(b, m), 0);
    }
  }

  lemma ExpStep(b: nat, n: nat)
    ensures n > 0 ==> Exp(b, n) == b * Exp(b, n - 1)
    ensures Exp(b, 0) == 1
  {
  }

  lemma {:induction false} ExpPositive(b: nat, n: nat)
    requires b > 0
    ensures Exp(b, n) > 0
  {
    if n > 0 {
      ExpPositive(b, n - 1);
      PositiveProduct(b, Exp(b, n - 1));
    }
  }

  lemma {:induction false} ExpMonotone(b: nat, m: nat, n: nat)
    requires b > 0 && m <= n
    ensures Exp(b, m) <= Exp(b, n)
  {
    hide Exp;
    ExpPositive(b, m);
    ExpPositive(b, n - m);
    ExpAdd(b, m, n - m);
    MulMonotone(1, Exp(b, n - m), Exp(b, m));
  }

  lemma {:induction false} ExpOrder(a: nat, b: nat, n: nat)
    requires a <= b
    ensures Exp(a, n) <= Exp(b, n)
  {
    if n > 0 {
      ExpOrder(a, b, n - 1);
      MulMonotone(a, b, Exp(a, n - 1));
      MulMonotone(Exp(a, n - 1), Exp(b, n - 1), b);
    }
  }

  lemma {:induction false} ExpStrict(a: nat, b: nat, n: nat)
    requires a < b && n > 0
    ensures Exp(a, n) < Exp(b, n)
  {
    hide Exp;
    ExpStep(a, n);
    ExpStep(b, n);
    ExpOrder(a, b, n - 1);
    ExpPositive(b, n - 1);
    MulMonotone(Exp(a, n - 1), Exp(b, n - 1), a);
    MulStrict(a, b, Exp(b, n - 1));
  }

  lemma {:induction false} Pow2IsExp(n: nat)
    ensures Pow2(n) == Exp(2, n)
  {
    if n > 0 { Pow2IsExp(n - 1); }
  }

  lemma SmallPowers()
    ensures Exp(2, 65) < Exp(5, 28) && Exp(2, 39) < Exp(5, 17)
  {
    hide Exp;
    SmallPowersOfTwo();
    SmallPowersOfFive();
  }

  lemma SmallPowersOfTwo()
    ensures Exp(2, 39) == 549755813888 && Exp(2, 65) == 36893488147419103232
  {
    assert Exp(2, 13) == 8192 by {
      assert Exp(2, 3) == 8;
      assert Exp(2, 6) == 64;
      assert Exp(2, 9) == 512;
      assert Exp(2, 12) == 4096;
    }
    hide Exp;
    ExpAdd(2, 13, 13);
    ExpAdd(2, 26, 13);
    ExpAdd(2, 39, 26);
  }

  lemma SmallPowersOfFive()
    ensures Exp(5, 17) == 762939453125 && Exp(5, 28) == 37252902984619140625
  {
    assert Exp(5, 3) == 125 by { assert Exp(5, 2) == 25; }
    assert Exp(5, 7) == 78125 by { assert Exp(5, 5) == 3125; assert Exp(5, 6) == 15625; }
    hide Exp;
    ExpAdd(5, 7, 7);
    ExpAdd(5, 14, 3);
    ExpAdd(5, 14, 14);
  }

  /** 2 to the 800 is below 10 to the 241, and by less than one bit. */
  lemma DecimalEstimate()
    ensures Exp(2, 800) < Exp(10, 241)
  {
    hide Exp;
    SmallPowers();
    ExpMul(2, 65, 8);
    ExpMul(5, 28, 8);
    ExpStrict(Exp(2, 65), Exp(5, 28), 8);
    ExpAdd(2, 520, 39);
    ExpAdd(5, 224, 17);
    ExpPositive(2, 39);
    ExpPositive(5, 224);
    MulStrict(Exp(2, 520), Exp(5, 224), Exp(2, 39));
    MulStrict(Exp(2, 39), Exp(5, 17), Exp(5, 224));
    ExpAdd(2, 559, 241);
    ExpPositive(2, 241);
    MulStrict(Exp(2, 559), Exp(5, 241), Exp(2, 241));
    ExpProduct(5, 2, 241);
  }

  lemma {:induction false} ExpProduct(a: nat, b: nat, n: nat)
    ensures Exp(a, n) * Exp(b, n) == Exp(a * b, n)
  {
    if n > 0 {
      ExpProduct(a, b, n - 1);
      var x, y := Exp(a, n - 1), Exp(b, n - 1);
      assert (a * x) * (b * y) == (a * b) * (x * y) by {
        MulAssoc(a, x, b * y);
        MulAssoc(x, b, y);
        MulAssoc(b, x, y);
        MulAssoc(a, b, x * y);
      }
    }
  }

  /** How many digits, less one, rb_big2str makes room for. */
  function Estimate(base: int, bits: nat): nat
    requires Radix(base)
  {
    if base == 10 then bits * 241 / 800 else if base == 16 then bits / 4 else bits
  }

  lemma DecimalRoom(bits: nat, e: nat)
    requires 241 * bits < 800 * e
    ensures Exp(2, bits) < Exp(10, e)
  {
    hide Exp;
    if Exp(10, e) <= Exp(2, bits) {
      ExpOrder(Exp(10, e), Exp(2, bits), 800);
      ExpMul(10, e, 800);
      ExpMul(2, bits, 800);
      ExpMonotone(10, 241 * bits + 1, 800 * e);
      ExpStep(10, 241 * bits + 1);
      ExpPositive(10, 241 * bits);
      DecimalEstimate();
      ExpMul(10, 241, bits);
      ExpMul(2, 800, bits);
      ExpOrder(Exp(2, 800), Exp(10, 241), bits);
    }
  }

  lemma BinaryRoom(base: int, w: nat, bits: nat, e: nat)
    requires base > 0 && Exp(2, w) == base && bits < w * e
    ensures Exp(2, bits) < Exp(base, e)
  {
    hide Exp;
    ExpMul(2, w, e);
    ExpMonotone(2, bits + 1, w * e);
    ExpStep(2, bits + 1);
    ExpPositive(2, bits);
  }

  lemma RadixPowers()
    ensures Exp(2, 1) == 2 && Exp(2, 3) == 8 && Exp(2, 4) == 16
    ensures Exp(2, 4) == 16 && Exp(8, 4) == 4096 && Exp(10, 4) == 10000 && Exp(16, 4) == 65536
  {
    assert Exp(2, 2) == 4;
    assert Exp(8, 2) == 64;
    assert Exp(10, 2) == 100;
    assert Exp(16, 2) == 256;
  }

  /** The estimate always leaves room for every digit. */
  lemma RoomForDigits(base: int, bits: nat)
    requires Radix(base)
    ensures Exp(2, bits) < Exp(base, Estimate(base, bits) + 1)
  {
    hide Exp;
    RadixPowers();
    var e := Estimate(base, bits) + 1;
    if base == 10 {
      DecimalRoom(bits, e);
    } else if base == 16 {
      BinaryRoom(base, 4, bits, e);
    } else if base == 8 {
      BinaryRoom(base, 3, bits, e);
    } else {
      BinaryRoom(base, 1, bits, e);
    }
  }

  // ----- writing -----

  lemma NumeralStep(n: nat, base: int)
    requires 2 <= base <= 16 && n > 0
    ensures 0 <= n / base < n && 0 <= n % base < base
    ensures Numeral(n, base) == Numeral(n / base, base) + [HexDigit(n % base)]
    ensures Numeral(0, base) == ""
  {
  }

  lemma {:induction false} NumeralHead(n: nat, base: int)
    requires 2 <= base <= 16 && n > 0
    ensures Numeral(n, base) != "" && Numeral(n, base)[0] != '0'
    decreases n
  {
    hide Numeral;
    NumeralStep(n, base);
    if n / base > 0 {
      NumeralHead(n / base, base);
    } else {
      assert n == base * (n / base) + n % base;
    }
  }

  /** What is still to be written: `v` above `k` places, and `num` in them. */
  function Remaining(v: nat, num: nat, base: nat, k: nat): nat {
    MulMonotone(0, v, Exp(base, k));
    v * Exp(base, k) + num
  }

  /** One digit less of it. */
  lemma GroupStep(v: nat, num: nat, base: int, k: nat)
    requires Radix(base) && k > 0 && num < Exp(base, k)
    ensures var m := Remaining(v, num, base, k);
            0 <= num / base < Exp(base, k - 1) && m / base == Remaining(v, num / base, base, k - 1) && m % base == num % base
  {
    hide Exp;
    ExpStep(base, k);
    var p := Exp(base, k - 1);
    var q, r := num / base, num % base;
    assert num == base * q + r;
    assert v * (base * p) == base * (v * p);
    assert base * (v * p + q) == base * (v * p) + base * q;
    DivideIs(v * (base * p) + num, base, v * p + q, r);
    Cancel(q, p, base);
    Cancel(-1, q, base);
  }

  lemma RemainingIs(v: nat, num: nat, base: int, k: nat)
    requires base > 0
    ensures Remaining(v, num, base, k) > 0 <==> v > 0 || num > 0
    ensures Remaining(v, num, base, 0) == v + num && (v == 0 ==> Remaining(v, num, base, k) == num) && Exp(base, 0) == 1
    ensures Remaining(v, num, base, k) == v * Exp(base, k) + num
  {
    hide Exp;
    ExpStep(base, 0);
    ExpPositive(base, k);
    if v > 0 { PositiveProduct(v, Exp(base, k)); }
  }

  lemma DigitsFit(x: nat, base: int, c: nat, room: nat)
    requires Radix(base) && x < Exp(base, room) && Exp(base, c) > 0 && x / Exp(base, c) > 0
    ensures c < room
  {
    hide Exp;
    QuotientIs(x, Exp(base, c));
    MulMonotone(1, x / Exp(base, c), Exp(base, c));
    if c >= room { ExpMonotone(base, room, c); }
  }

  lemma OneMoreDigit(x: nat, base: int, c: nat)
    requires Radix(base)
    ensures Exp(base, c) > 0 && Exp(base, c + 1) > 0 && x / Exp(base, c + 1) == x / Exp(base, c) / base
  {
    hide Exp;
    ExpPositive(base, c);
    ExpPositive(base, c + 1);
    ExpStep(base, c + 1);
    var p := Exp(base, c);
    assert p * base == base * p;
    var q, r := x / p, x % p;
    assert x == p * q + r;
    var q', r' := q / base, q % base;
    assert q == base * q' + r';
    assert p * (base * q' + r') == (p * base) * q' + p * r' by { MulAssoc(p, base, q'); }
    MulMonotone(r', base - 1, p);
    MulMonotone(0, r', p);
    assert p * (base - 1) == p * base - p;
    DivideIs(x, p * base, q', p * r' + r);
  }

  /** What has been written so far, and what is still to be written. */
  ghost predicate Progress(x: nat, base: int, m: nat, s: seq<char>, j: nat, room: nat)
    requires Radix(base)
  {
    |s| == room + 1 && 1 <= j <= |s| && x < Exp(base, room) &&
    Numeral(x, base) == Numeral(m, base) + s[j..] &&
    Exp(base, |s| - j) > 0 && m == x / Exp(base, |s| - j)
  }

  lemma MoveAcross(x: string, a: string, b: string, c: char, t: string)
    requires x == a + t && a == b + [c]
    ensures x == b + ([c] + t)
  {
  }

  lemma BufferStep(s: seq<char>, j: nat, c: char)
    requires 1 <= j <= |s|
    ensures s[j - 1 := c][j - 1..] == [c] + s[j..]
  {
  }

  lemma RadixRange(base: int)
    requires Radix(base)
    ensures 2 <= base <= 16
  {
  }

  lemma WriteDigit(x: nat, base: int, m: nat, s: seq<char>, j: nat, room: nat)
    requires Radix(base) && Progress(x, base, m, s, j, room) && m > 0
    ensures 0 <= m % base < 16 && j >= 2 && Progress(x, base, m / base, s[j - 1 := HexDigit(m % base)], j - 1, room)
  {
    hide Exp, Numeral, HexDigit, Radix;
    RadixRange(base);
    NumeralStep(m, base);
    var c, left := HexDigit(m % base), m / base;
    DigitsFit(x, base, |s| - j, room);
    OneMoreDigit(x, base, |s| - j);
    assert left == x / Exp(base, |s| - j + 1);
    BufferStep(s, j, c);
    MoveAcross(Numeral(x, base), Numeral(m, base), Numeral(left, base), c, s[j..]);
    ProgressIs(x, base, left, s[j - 1 := c], j - 1, room, |s| - j + 1);
  }

  lemma ProgressIs(x: nat, base: int, m: nat, s: seq<char>, j: nat, room: nat, c: nat)
    requires Radix(base) && |s| == room + 1 && 1 <= j <= |s| && x < Exp(base, room) && c == |s| - j
    requires Numeral(x, base) == Numeral(m, base) + s[j..]
    requires Exp(base, c) > 0 && m == x / Exp(base, c)
    ensures Progress(x, base, m, s, j, room)
  {
    hide Exp, Numeral;
  }

  /** The four digits of one group, or fewer when nothing is left above them. */
  method WriteGroup(s: array<char>, from: nat, group: nat, base: int, last: bool, ghost v: nat, ghost x: nat, ghost room: nat)
    returns (j: nat)
    requires Radix(base) && group < Exp(base, 4) && (last <==> v == 0) && (v > 0 || group > 0)
    requires Progress(x, base, Remaining(v, group, base, 4), s[..], from, room)
    modifies s
    ensures Progress(x, base, v, s[..], j, room) && s[0] == old(s[0])
  {
    hide Exp, Numeral, Progress, Remaining, HexDigit;
    var num, k := group, 4;
    j := from;
    ProgressRange(x, base, Remaining(v, group, base, 4), s[..], from, room);
    while k > 0
      invariant 0 <= k <= 4 && 0 <= num < Exp(base, k) && 1 <= j <= s.Length && s[0] == old(s[0])
      invariant v > 0 || num > 0 || k == 0
      invariant Progress(x, base, Remaining(v, num, base, k), s[..], j, room)
    {
      ghost var m := Remaining(v, num, base, k);
      RemainingIs(v, num, base, k);
      GroupStep(v, num, base, k);
      WriteDigit(x, base, m, s[..], j, room);
      ghost var was := s[..];
      j := j - 1;
      s[j] := HexDigit(num % base);
      assert s[..] == was[j := HexDigit(m % base)];
      num := num / base;
      k := k - 1;
      if last && num == 0 {
        RemainingIs(v, num, base, k);
        return;
      }
    }
    RemainingIs(v, num, base, 0);
  }

  lemma ProgressRange(x: nat, base: int, m: nat, s: seq<char>, j: nat, room: nat)
    requires Radix(base) && Progress(x, base, m, s, j, room)
    ensures |s| == room + 1 && 1 <= j <= |s|
  {
  }

  function GroupOf(base: int): int
    requires Radix(base)
  {
    if base == 10 then 10000 else if base == 16 then 0x10000 else if base == 8 then 4096 else 16
  }

  lemma GroupsAre(base: int)
    requires Radix(base)
    ensures GroupOf(base) == Exp(base, 4) && 16 <= GroupOf(base) <= BIGRAD
  {
    hide Exp;
    RadixPowers();
    Pow2Monotone(16, BITSPERDIG);
    assert Pow2(16) == 65536 by { assert Pow2(4) == 16; assert Pow2(8) == 256; assert Pow2(12) == 4096; }
  }

  /** Dividing by a group leaves at most one leading zero digit. */
  lemma OneDigitLess(n: int, n': int, i: nat, h: int, r: int, ds: seq<Digit>)
    requires 0 < h <= BIGRAD && n == n' * h + r && 0 <= r < h && |ds| == i > 0 && n' == Value(ds) && Pow(i - 1) <= n
    ensures ds[i - 1] == 0 ==> n' == Value(ds[..i - 1]) && (i == 1 ==> n' == 0) && (i > 1 ==> ds[i - 2] != 0)
    ensures ds[i - 1] != 0 || i > 1 ==> n' > 0
  {
    hide Value, Pow;
    TopDigit(ds);
    PositiveProduct(1, Pow(i - 1));
    if ds[i - 1] != 0 {
      MulMonotone(1, ds[i - 1], Pow(i - 1));
    }
    if i == 1 {
      assert ds[..0] == [];
      ValueEmpty();
    } else {
      PowStep(i - 2);
      PositiveProduct(1, Pow(i - 2));
      assert (n' + 1) * h == n' * h + h;
      MulMonotone(h, BIGRAD, Pow(i - 2));
      Cancel(Pow(i - 2), n' + 1, h);
      TopDigit(ds[..i - 1]);
      assert ds[..i - 1][i - 2] == ds[i - 2];
    }
  }

  /** rb_big2str: the numeral, with a sign when the number is negative. */
  method Big2Str(x: Bignum, base: int) returns (str: string)
    requires x.Valid() && x.Normal() && Radix(base)
    ensures str == Written(x.ToInt(), base)
  {
    hide Value, Pow, Exp, Numeral, Progress;
    if x.len == 1 && x.digits[0] == 0 {
      ZeroMod(x);
      return "0";
    }
    NotZero(x);
    var size := Estimate(base, BITSPERDIG * x.len) + 2;
    var s := new char[size];
    s[0] := if x.sign then '+' else '-';
    var j := WriteDigits(x, base, s);
    ghost var m := x.Mag();
    NumeralHead(m, base);
    ProgressDone(m, base, s[..], j, size - 1);
    // s[j] is no '0', so there is nothing to skip
    assert s[j..] == s[..][j..];
    str := if x.sign then s[j..] else [s[0]] + s[j..];
  }

  lemma NotZero(x: Bignum)
    requires x.Valid() && x.Normal() && !(x.len == 1 && x.digits[0] == 0)
    ensures x.Mag() > 0 && x.digits[x.len - 1] != 0 && Pow(x.len - 1) <= x.Mag()
  {
    hide Value, Pow;
    TopDigit(x.digits[..x.len]);
    MulMonotone(1, x.digits[x.len - 1], Pow(x.len - 1));
  }

  lemma ProgressDone(x: nat, base: int, s: seq<char>, j: nat, room: nat)
    requires Radix(base) && Progress(x, base, 0, s, j, room)
    ensures 1 <= j <= |s| && s[j..] == Numeral(x, base)
  {
    NumeralStep(1, base);
    assert Numeral(0, base) + s[j..] == s[j..];
  }

  lemma ProgressStarts(x: nat, base: int, s: seq<char>, room: nat)
    requires Radix(base) && |s| == room + 1 && x < Exp(base, room)
    ensures Progress(x, base, x, s, |s|, room)
  {
    hide Numeral;
    ExpStep(base, 0);
    DivideIs(x, 1, x, 0);
    assert s[|s|..] == [];
    assert Numeral(x, base) + [] == Numeral(x, base);
  }

  lemma NumberFits(x: Bignum, base: int)
    requires x.Valid() && Radix(base)
    ensures BITSPERDIG * x.len >= 0 && x.Mag() < Exp(base, Estimate(base, BITSPERDIG * x.len) + 1)
  {
    hide Value, Pow, Exp, Pow2;
    ValueBound(x.digits[..x.len]);
    BigBits.PowIsPow2(x.len);
    assert x.len * BITSPERDIG == BITSPERDIG * x.len;
    Pow2IsExp(BITSPERDIG * x.len);
    RoomForDigits(base, BITSPERDIG * x.len);
  }

  /** The main loop of rb_big2str: groups of four digits, from the least significant. */
  method WriteDigits(x: Bignum, base: int, s: array<char>) returns (j: nat)
    requires x.Valid() && Radix(base) && x.Mag() > 0 && x.digits[x.len - 1] != 0
    requires BITSPERDIG * x.len >= 0 && s.Length == Estimate(base, BITSPERDIG * x.len) + 2
    modifies s
    ensures Progress(x.Mag(), base, 0, s[..], j, s.Length - 1) && s[0] == old(s[0])
  {
    hide Value, Pow, Exp, Numeral, Progress, Estimate, Remaining, GroupOf;
    var t := x.Clone();
    var ds, i, hbase := t.digits, x.len, GroupOf(base);
    ghost var m, room := x.Mag(), s.Length - 1;
    assert ds[..i] == x.digits[..i];
    GroupsAre(base);
    NumberFits(x, base);
    j := s.Length;
    ProgressStarts(m, base, s[..], room);
    while i > 0
      invariant 0 <= i <= ds.Length && s[0] == old(s[0]) && m == x.Mag() && fresh(ds)
      invariant i > 0 ==> ds[i - 1] != 0
      invariant Value(ds[..i]) >= 0 && (i == 0 ==> Value(ds[..i]) == 0)
      invariant Progress(m, base, Value(ds[..i]), s[..], j, room)
      decreases Value(ds[..i])
    {
      ghost var n := Value(ds[..i]);
      AtLeastTop(ds[..i]);
      var num := DivideByDigit(ds, i, hbase);
      OneDigitLess(n, Value(ds[..i]), i, hbase, num, ds[..i]);
      ValueBound(ds[..i]);
      ghost var v := Value(ds[..i]);
      QuotientSmaller(n, v, hbase, num);
      RemainingIs(v, num, base, 4);
      if ds[i - 1] == 0 {
        assert ds[..i][..i - 1] == ds[..i - 1];
        i := i - 1;
      }
      j := WriteGroup(s, j, num, base, i == 0, v, m, room);
    }
  }

  lemma AtLeastTop(ds: seq<Digit>)
    requires ds != [] && ds[|ds| - 1] != 0
    ensures 0 < Pow(|ds| - 1) <= Value(ds)
  {
    hide Value, Pow;
    TopDigit(ds);
    MulMonotone(1, ds[|ds| - 1], Pow(|ds| - 1));
  }

  lemma QuotientSmaller(n: int, v: int, h: int, r: int)
    requires n == v * h + r && h >= 2 && v >= 0 && r >= 0 && n > 0
    ensures v < n
  {
    MulMonotone(2, h, v);
  }

  // ----- reading -----

  predicate IsSpace(c: char) {
    c == ' ' || c == '\t' || c == '\n' || c == '\r' || c as int == 11 || c as int == 12
  }

  /** The value of a digit of the base, or -1. */
  function DigitOf(c: char, base: int): (d: int)
    requires Radix(base)
    ensures -1 <= d < base
  {
    var v := if '0' <= c <= '9' then c as int - '0' as int
             else if 'a' <= c <= 'f' then c as int - 'a' as int + 10
             else if 'A' <= c <= 'F' then c as int - 'A' as int + 10 else base;
    if v < base then v else -1
  }

  /** Where reading stops: at the first character that is neither a digit nor an underscore. */
  function StopAt(str: string, base: int): (e: nat)
    requires Radix(base)
    ensures e <= |str|
  {
    if str == [] || (str[0] != '_' && DigitOf(str[0], base) < 0) then 0 else 1 + StopAt(str[1..], base)
  }

  /** A value with one more digit behind it. */
  function Appended(v: nat, base: nat, d: nat): nat {
    MulMonotone(0, v, base);
    v * base + d
  }

  /** The value of the digits up to there, underscores left out, behind a value `acc`. */
  function Parsed(str: string, base: int, acc: nat): nat
    requires Radix(base)
    decreases |str|
  {
    if str == [] then acc
    else if str[0] == '_' then Parsed(str[1..], base, acc)
    else if DigitOf(str[0], base) < 0 then acc
    else Parsed(str[1..], base, Appended(acc, base, DigitOf(str[0], base)))
  }

  predicate AllSpaces(str: string) {
    forall i :: 0 <= i < |str| ==> IsSpace(str[i])
  }

  /** What is refused when the whole string must be a number. */
  predicate Malformed(str: string, base: int)
    requires Radix(base)
  {
    var e := StopAt(str, base);
    (str != [] && str[0] == '_') || (e > 0 && str[e - 1] == '_') || !AllSpaces(str[e..]) ||
    exists k :: 0 <= k < e - 1 && str[k] == '_' && str[k + 1] == '_'
  }

  lemma DigitAbove(c: char, base: int)
    requires Radix(base)
    ensures c == '_' ==> DigitOf(c, base) == -1
  {
  }

  /** The bits of the number are enough for its digits. */
  function BitsPerChar(base: int): nat
    requires Radix(base)
  {
    if base == 2 then 1 else if base == 8 then 3 else 4
  }

  lemma {:induction false} StopStep(str: string, base: int, t: nat)
    requires Radix(base) && t <= StopAt(str, base)
    ensures StopAt(str, base) == t + StopAt(str[t..], base)
  {
    if t > 0 {
      StopStep(str[1..], base, t - 1);
      assert str[1..][t - 1..] == str[t..];
    } else {
      assert str[0..] == str;
    }
  }

  lemma MulAddStep(v: int, num: int, p: int, b: int, was: int, c: int, d: int, hi: int, lo: int, base: int)
    requires v + num * p == b * was + c && num + d * b == hi * base + lo
    ensures v + p * lo + hi * (base * p) == b * (was + p * d) + c
  {
    assert hi * (base * p) == (hi * base) * p;
    assert (hi * base) * p == (num + d * b - lo) * p;
    assert (num + d * b - lo) * p == num * p + (d * b) * p - lo * p;
    assert b * (was + p * d) == b * was + (d * b) * p;
  }

  /** The number is multiplied by the base and a digit is added, in place. The digits in use grow
      by one at most, and never beyond the array. */
  method MulAdd(z: array<Digit>, used: nat, base: int, c: nat) returns (blen: nat)
    requires 1 <= used <= z.Length && Radix(base) && c < base
    requires base * Value(z[..used]) + c < Pow(z.Length)
    requires forall k :: used <= k < z.Length ==> z[k] == 0
    modifies z
    ensures used <= blen <= z.Length && forall k :: blen <= k < z.Length ==> z[k] == 0
    ensures Value(z[..blen]) == base * old(Value(z[..used])) + c
  {
    hide Value, Pow, BigDn, BigLo;
    ghost var was := z[..];
    var i, num := 0, c;
    blen := used;
    ValueEmpty();
    PowStep(0);
    assert z[0..0] == [];
    assert was[..used] == z[..used];
    while true
      invariant 0 <= i <= blen && used <= blen <= z.Length && 0 <= num < base
      invariant z[i..] == was[i..]
      invariant Value(z[0..0 + i]) + num * Pow(i) == base * Value(was[0..0 + i]) + c
      decreases z.Length - blen, blen - i, num
    {
      if i < blen {
        ghost var mid, num0 := z[..], num;
        assert z[i] == was[i];
        ShiftCarry(num, z[i], base);
        num := num + z[i] * base;
        z[i] := BigLo(num);
        MulAddStep(Value(mid[0..0 + i]), num0, Pow(i), base, Value(was[0..0 + i]), c, was[i], BigDn(num), z[i], BIGRAD);
        num := BigDn(num);
        assert z[0..0 + i] == mid[0..0 + i];
        SliceStep(z[..], 0, i);
        SliceStep(was, 0, i);
        PowStep(i);
        i := i + 1;
      } else if num != 0 {
        StillZero(was, used, i);
        HasRoom(Value(z[0..0 + i]), num, i, z.Length, base * Value(was[..used]) + c) by { ValueBound(z[0..0 + i]); }
        blen := blen + 1;
      } else {
        break;
      }
    }
    StillZero(was, used, i);
    assert z[0..0 + blen] == z[..blen];
  }

  /** Zeros above the digits in use do not change the value. */
  lemma {:induction false} StillZero(z: seq<Digit>, used: nat, i: nat)
    requires used <= i <= |z| && forall k :: used <= k < |z| ==> z[k] == 0
    ensures Value(z[0..0 + i]) == Value(z[..used])
  {
    hide Value, Pow;
    if i == used {
      assert z[0..0 + i] == z[..used];
    } else {
      StillZero(z, used, i - 1);
      SliceStep(z, 0, i - 1);
    }
  }

  lemma HasRoom(v: int, num: int, i: nat, n: nat, total: int)
    requires v >= 0 && num >= 1 && v + num * Pow(i) == total && total < Pow(n)
    ensures i < n
  {
    hide Pow;
    MulMonotone(1, num, Pow(i));
    if i >= n { PowMonotone(n, i); }
  }

  /** A value read from `t` characters has no more bits than they can hold. */
  ghost predicate Fits(v: int, base: int, t: nat)
    requires Radix(base)
  {
    0 <= v < Exp(base, t)
  }

  lemma FitsStep(v: int, base: int, t: nat, d: int)
    requires Radix(base) && Fits(v, base, t) && 0 <= d < base
    ensures Fits(v, base, t + 1) && Fits(v * base + d, base, t + 1) && v * base + d >= 0
  {
    hide Exp;
    ExpStep(base, t + 1);
    MulMonotone(v + 1, Exp(base, t), base);
    MulMonotone(1, base, Exp(base, t));
    assert (v + 1) * base == v * base + base;
    MulMonotone(0, v, base);
  }

  lemma StillFits(v: int, base: int, t: nat)
    requires Radix(base) && Fits(v, base, t)
    ensures Fits(v, base, t + 1)
  {
    FitsStep(v, base, t, 0);
  }

  /** The digit array is large enough for every string of that length. */
  lemma ArrayFits(base: int, n: nat, len: nat, v: int, t: nat)
    requires Radix(base) && Fits(v, base, t) && t <= n && BitsPerChar(base) * n >= 0 && len == BitsPerChar(base) * n / BITSPERDIG + 1
    ensures v < Pow(len)
  {
    hide Exp, Pow, Pow2;
    RadixPowers();
    var w := BitsPerChar(base);
    ExpMonotone(base, t, n);
    ExpOrder(base, Exp(2, w), n);
    ExpMul(2, w, n);
    QuotientIs(w * n, BITSPERDIG);
    BigBits.PowIsPow2(len);
    Pow2IsExp(len * BITSPERDIG);
    ExpMonotone(2, w * n, len * BITSPERDIG);
  }

  /** The part of rb_cstr_to_inum behind `bigparse`. With `badcheck` the rest of the string must be
      a number and nothing else; without it, reading stops where the number does. */
  method BigParse(str: string, base: int, badcheck: bool, sign: bool) returns (r: Option<Bignum>)
    requires Radix(base)
    ensures r.None? <==> badcheck && Malformed(str, base)
    ensures r.Some? ==> fresh(r.value) && r.value.Valid() && r.value.sign == sign && r.value.Mag() == Parsed(str, base, 0)
  {
    hide Value, Pow, Parsed, StopAt, Fits, Exp, DigitOf, BitsPerChar;
    MulMonotone(0, |str|, BitsPerChar(base));
    var len := BitsPerChar(base) * |str| / BITSPERDIG + 1;
    QuotientIs(BitsPerChar(base) * |str|, BITSPERDIG);
    if badcheck && str != [] && str[0] == '_' {
      return None;
    }
    var z := new Bignum(len, sign);
    BigBits.ZeroLow(z.digits, len);
    assert z.digits[..len] == z.digits[..];
    ValueZeros(z.digits[..len]);
    var t, underscore := ReadDigits(str, base, badcheck, z.digits, len);
    if t == |str| + 1 {
      return None;
    }
    if badcheck {
      if t > 0 && str[t - 1] == '_' {
        return None;
      }
      var k := t;
      while k < |str| && IsSpace(str[k])
        invariant t <= k <= |str| && forall i :: t <= i < k ==> IsSpace(str[i])
      {
        k := k + 1;
      }
      if k < |str| {
        assert str[t..][k - t] == str[k];
        return None;
      }
      assert AllSpaces(str[t..]);
    }
    return Some(z);
  }

  ghost predicate DoubleUnderscore(str: string, e: nat) {
    exists k :: 0 <= k < e - 1 && k + 1 < |str| && str[k] == '_' && str[k + 1] == '_'
  }

  /** One digit is taken into the number. */
  method TakeDigit(z: array<Digit>, used: nat, base: int, d: nat, ghost n: nat, ghost t: nat, ghost v: nat) returns (blen: nat)
    requires Radix(base) && d < base && 1 <= used <= z.Length && t < n
    requires BitsPerChar(base) * n >= 0 && z.Length == BitsPerChar(base) * n / BITSPERDIG + 1
    requires Fits(v, base, t) && v == Value(z[..used]) && forall k :: used <= k < z.Length ==> z[k] == 0
    modifies z
    ensures used <= blen <= z.Length && forall k :: blen <= k < z.Length ==> z[k] == 0
    ensures Value(z[..blen]) == Appended(v, base, d) && Fits(Appended(v, base, d), base, t + 1)
  {
    hide Value, Pow, Fits, Exp, BitsPerChar;
    FitsStep(v, base, t, d);
    ArrayFits(base, n, z.Length, v * base + d, t + 1);
    blen := MulAdd(z, used, base, d);
  }

  /** The reading loop. It ends where the number does, or at two underscores in a row when they
      are not allowed. */
  method ReadDigits(str: string, base: int, badcheck: bool, z: array<Digit>, len: nat) returns (t: nat, nondigit: bool)
    requires Radix(base) && z.Length == len && BitsPerChar(base) * |str| >= 0 && len == BitsPerChar(base) * |str| / BITSPERDIG + 1
    requires forall k :: 0 <= k < len ==> z[k] == 0
    modifies z
    ensures t == |str| + 1 <==> badcheck && DoubleUnderscore(str, StopAt(str, base))
    ensures t <= |str| ==> t == StopAt(str, base) && Value(z[..len]) == Parsed(str, base, 0)
    ensures t <= |str| + 1
  {
    hide Value, Pow, Parsed, StopAt, Fits, Exp, DigitOf, BitsPerChar, DoubleUnderscore, NoDouble, Appended, Reading;
    RadixRange(base);
    hide Radix;
    var blen := 1;
    t, nondigit := 0, false;
    ghost var v: nat := 0;
    ValueZeros(z[..1]);
    NoDoubleStart(str);
    ReadingStart(str, base);
    while t < |str|
      invariant 0 <= t <= |str| && 1 <= blen <= len
      invariant Reading(str, base, t, v) && v == Value(z[..blen]) && forall k :: blen <= k < len ==> z[k] == 0
      invariant badcheck ==> (nondigit <==> t > 0 && str[t - 1] == '_') && NoDouble(str, t)
    {
      DigitAbove(str[t], base);
      ReadingStep(str, base, t, v);
      if badcheck { NoDoubleStep(str, t); }
      if str[t] == '_' {
        if badcheck {
          if nondigit {
            FoundDouble(str, base, t);
            t := |str| + 1;
            return;
          }
          nondigit := true;
        }
      } else {
        var d := DigitOf(str[t], base);
        if d < 0 { break; }
        nondigit := false;
        blen := TakeDigit(z, blen, base, d, |str|, t, v) by { ReadingFits(str, base, t, v); }
        v := Appended(v, base, d);
      }
      t := t + 1;
    }
    ReadingEnd(str, base, t, v);
    StillZero(z[..], blen, len);
    assert z[..][0..0 + len] == z[..len] && z[..][..blen] == z[..blen];
    if badcheck { DoubleIs(str, t); }
  }

  /** How far reading has come, and the value so far. */
  ghost predicate Reading(str: string, base: int, t: nat, v: nat)
    requires Radix(base)
  {
    t <= StopAt(str, base) && t <= |str| && Fits(v, base, t) && Parsed(str, base, 0) == Parsed(str[t..], base, v)
  }

  lemma ReadingStart(str: string, base: int)
    requires Radix(base)
    ensures Reading(str, base, 0, 0)
  {
    hide StopAt, Parsed, Exp;
    ExpStep(base, 0);
    FitsIs(base);
    assert str[0..] == str;
  }

  lemma ReadingFits(str: string, base: int, t: nat, v: nat)
    requires Radix(base) && Reading(str, base, t, v)
    ensures Fits(v, base, t)
  {
  }

  lemma ReadingStep(str: string, base: int, t: nat, v: nat)
    requires Radix(base) && t < |str| && Reading(str, base, t, v)
    ensures str[t] == '_' ==> t < StopAt(str, base) && Reading(str, base, t + 1, v)
    ensures str[t] != '_' && DigitOf(str[t], base) >= 0 ==> Reading(str, base, t + 1, Appended(v, base, DigitOf(str[t], base)))
  {
    hide StopAt, Parsed, Exp, Fits, DigitOf, Appended;
    StopStep(str, base, t);
    ReadStep(str, base, t, v);
    StillFits(v, base, t);
    var d := DigitOf(str[t], base);
    if d >= 0 {
      FitsStep(v, base, t, d);
      AppendedIs(v, base, d);
    }
  }

  lemma AppendedIs(v: nat, base: nat, d: nat)
    ensures Appended(v, base, d) == v * base + d
  {
  }

  lemma ReadingEnd(str: string, base: int, t: nat, v: nat)
    requires Radix(base) && Reading(str, base, t, v)
    requires t == |str| || (str[t] != '_' && DigitOf(str[t], base) < 0)
    ensures t == StopAt(str, base) && v == Parsed(str, base, 0)
  {
    hide StopAt, Parsed, Exp, Fits, DigitOf;
    ReadEnd(str, base, t, v);
  }

  lemma FitsIs(base: int)
    requires Radix(base)
    ensures Fits(0, base, 0) <==> 0 < Exp(base, 0)
  {
  }

  ghost predicate NoDouble(str: string, t: nat) {
    forall k :: 0 <= k < t - 1 && k + 1 < |str| ==> !(str[k] == '_' && str[k + 1] == '_')
  }

  lemma DoubleIs(str: string, t: nat)
    requires NoDouble(str, t)
    ensures !DoubleUnderscore(str, t)
  {
  }

  lemma FoundDouble(str: string, base: int, t: nat)
    requires Radix(base) && 0 < t < StopAt(str, base) && t < |str| && str[t - 1] == '_' && str[t] == '_'
    ensures DoubleUnderscore(str, StopAt(str, base))
  {
    hide StopAt;
    assert str[t - 1] == '_' && str[t - 1 + 1] == '_';
  }

  lemma NoDoubleStart(str: string)
    ensures NoDouble(str, 0)
  {
  }

  lemma NoDoubleStep(str: string, t: nat)
    requires NoDouble(str, t) && t < |str|
    ensures !(str[t] == '_' && t > 0 && str[t - 1] == '_') ==> NoDouble(str, t + 1)
  {
  }

  /** One character further. */
  lemma ReadStep(str: string, base: int, t: nat, v: nat)
    requires Radix(base) && t < |str| && StopAt(str, base) == t + StopAt(str[t..], base)
    ensures str[t] == '_' ==> t < StopAt(str, base) && Parsed(str[t..], base, v) == Parsed(str[t + 1..], base, v)
    ensures var d := DigitOf(str[t], base);
            (d >= 0 ==> t < StopAt(str, base) && Parsed(str[t..], base, v) == Parsed(str[t + 1..], base, Appended(v, base, d))) &&
            (d < 0 && str[t] != '_' ==> t == StopAt(str, base) && Parsed(str[t..], base, v) == v)
  {
    DigitAbove(str[t], base);
    assert str[t..][1..] == str[t + 1..];
  }

  lemma ReadEnd(str: string, base: int, t: nat, v: nat)
    requires Radix(base) && t <= StopAt(str, base)
    requires t == |str| || (str[t] != '_' && DigitOf(str[t], base) < 0)
    ensures t == StopAt(str, base) && Parsed(str[t..], base, v) == v
  {
    StopStep(str, base, t);
  }

  // ----- the front of the parser -----

  /** Leading spaces, and underscores when anything goes. */
  function SkipSpaces(str: string, badcheck: bool): string {
    if str != [] && (IsSpace(str[0]) || (!badcheck && str[0] == '_')) then SkipSpaces(str[1..], badcheck) else str
  }

  predicate PrefixLetter(c: char, base: int) {
    (base == 2 && (c == 'b' || c == 'B')) || (base == 8 && (c == 'o' || c == 'O')) ||
    (base == 10 && (c == 'd' || c == 'D')) || (base == 16 && (c == 'x' || c == 'X'))
  }

  /** 0b, 0o, 0d or 0x. */
  function SkipPrefix(str: string, base: int): string {
    if |str| >= 2 && str[0] == '0' && PrefixLetter(str[1], base) then str[2..] else str
  }

  /** All leading zeros but the last. */
  function SqueezeZeros(str: string): string {
    if |str| >= 2 && str[0] == '0' && str[1] == '0' then SqueezeZeros(str[1..]) else str
  }

  predicate IsSign(c: char) {
    c == '+' || c == '-'
  }

  // ----- texts that fit a machine word -----

  type Positive = n: int | 1 <= n witness 1

  /** DIGSPERLONG: how many digits a machine word holds. */
  const WORD_DIGITS: Positive

  /** The number of leading characters that are digits. */
  function DigitCount(str: string, base: int): (n: nat)
    requires Radix(base)
    ensures n <= |str|
  {
    if str == [] || DigitOf(str[0], base) < 0 then 0 else 1 + DigitCount(str[1..], base)
  }

  function SpaceCount(str: string): (n: nat)
    ensures n <= |str|
  {
    if str != [] && IsSpace(str[0]) then 1 + SpaceCount(str[1..]) else 0
  }

  /** Where strtoul finds the first digit: behind spaces, a sign, and for base 16 the prefix 0x. */
  function FirstDigit(str: string, base: int): (n: nat)
    requires Radix(base)
    ensures n <= |str|
  {
    var i := SpaceCount(str);
    var j := if i < |str| && IsSign(str[i]) then i + 1 else i;
    if base == 16 && j + 2 < |str| && str[j] == '0' && (str[j + 1] == 'x' || str[j + 1] == 'X') && DigitOf(str[j + 2], base) >= 0
    then j + 2 else j
  }

  /** strtoul as the C standard has it: the value as an unsigned machine word, and where reading ended. */
  function Strtoul(str: string, base: int): (r: (nat, nat))
    requires Radix(base)
    ensures r.0 < Pow(WORD_DIGITS) && r.1 <= |str|
  {
    hide Pow, Parsed;
    var j := FirstDigit(str, base);
    var n := DigitCount(str[j..], base);
    if n == 0 then (0, 0)
    else
      var v: nat := Parsed(str[j..j + n], base, 0);
      var word := if v < Pow(WORD_DIGITS) then v else Pow(WORD_DIGITS) - 1;
      var i := SpaceCount(str);
      (if str[i] == '-' && word > 0 then Pow(WORD_DIGITS) - word else word, j + n)
  }

  /** rb_uint2big. */
  method Uint2Big(val: nat) returns (z: Bignum)
    requires val < Pow(WORD_DIGITS)
    ensures fresh(z) && z.Valid() && z.sign && z.Mag() == val
  {
    hide Value, Pow, BigDn, BigLo;
    z := new Bignum(WORD_DIGITS, true);
    var ds, num, i := z.digits, val, 0;
    ValueEmpty();
    PowStep(0);
    assert ds[0..0] == [];
    while i < WORD_DIGITS
      invariant 0 <= i <= WORD_DIGITS == ds.Length && z.digits == ds && z.len == WORD_DIGITS && z.sign && num >= 0
      invariant Value(ds[0..0 + i]) + num * Pow(i) == val
      modifies ds
    {
      ghost var mid := ds[..];
      ds[i] := BigLo(num);
      WordStep(Value(mid[0..0 + i]), num, Pow(i), BigDn(num), ds[i]);
      num := BigDn(num);
      assert ds[0..0 + i] == mid[0..0 + i];
      SliceStep(ds[..], 0, i);
      PowStep(i);
      i := i + 1;
    }
    NothingLeftOver(Value(ds[0..0 + i]), num, i, val) by { ValueBound(ds[0..0 + i]); }
    assert ds[0..0 + i] == ds[..i];
    var n := DropZeros(ds, i);
    z.len := n;
  }

  lemma WordStep(v: int, num: int, p: int, hi: int, lo: int)
    requires num == hi * BIGRAD + lo
    ensures (v + p * lo) + hi * (BIGRAD * p) == v + num * p
    ensures num >= 0 && 0 <= lo < BIGRAD ==> hi >= 0
  {
    assert hi * (BIGRAD * p) == (hi * BIGRAD) * p;
    if num >= 0 && 0 <= lo < BIGRAD && hi < 0 {
      MulMonotone(hi, -1, BIGRAD);
    }
  }

  lemma NothingLeftOver(v: int, num: int, n: nat, val: int)
    requires v >= 0 && num >= 0 && v + num * Pow(n) == val && val < Pow(n)
    ensures num == 0 && v == val
  {
    hide Pow;
    if num > 0 { MulMonotone(1, num, Pow(n)); }
  }

  /** Texts of at most one machine word of bits. */
  predicate InWord(str: string, base: int)
    requires Radix(base)
  {
    BitsPerChar(base) * |str| <= WORD_DIGITS * BITSPERDIG
  }

  /** What the digits of a text stand for by the way through strtoul: nothing when they are refused. */
  function WordNumber(str: string, base: int, badcheck: bool): Option<nat>
    requires Radix(base)
  {
    var (val, end) := Strtoul(str, base);
    if badcheck && (end == 0 || !AllSpaces(str[end..])) then None else Some(val)
  }

  function ParsedNumber(str: string, base: int, badcheck: bool): Option<nat>
    requires Radix(base)
  {
    if badcheck && Malformed(str, base) then None else Some(Parsed(str, base, 0))
  }

  /** Short texts go through strtoul, unless it stops at an underscore. */
  function Number(str: string, base: int, badcheck: bool): Option<nat>
    requires Radix(base)
  {
    var end := Strtoul(str, base).1;
    if InWord(str, base) && !(end < |str| && str[end] == '_') then WordNumber(str, base, badcheck)
    else ParsedNumber(str, base, badcheck)
  }

  /** A base the caller may give: one of the four, 0 or -1 for the one the text names or else 10, or the
      negative of one of the four for the one the text names or else that one. */
  predicate BaseOk(base: int) {
    Radix(base) || base == 0 || base == -1 || Radix(-base)
  }

  /** The base a text without spaces and sign is read in. */
  function BaseOf(str: string, base: int): (b: int)
    requires BaseOk(base)
    ensures Radix(b)
  {
    if base > 0 then base
    else if str != [] && str[0] == '0' then
      if |str| == 1 then 8
      else
        match str[1]
        case 'x' => 16
        case 'X' => 16
        case 'b' => 2
        case 'B' => 2
        case 'o' => 8
        case 'O' => 8
        case 'd' => 10
        case 'D' => 10
        case _ => 8
    else if base < -1 then -base
    else 10
  }

  /** What the text stands for; nothing when it is refused. */
  function Inum(text: string, base: int, badcheck: bool): Option<int>
    requires BaseOk(base)
  {
    var str := SkipSpaces(text, badcheck);
    var negative := str != [] && str[0] == '-';
    var rest := if str != [] && IsSign(str[0]) then str[1..] else str;
    if rest != [] && IsSign(rest[0]) then (if badcheck then None else Some(0))
    else
      var b := BaseOf(rest, base);
      match Number(SqueezeZeros(SkipPrefix(rest, b)), b, badcheck)
      case None => None
      case Some(v) =>
        var n: int := v;
        Some(if negative then -n else n)
  }

  /** The way through strtoul. `again` asks for the other way. */
  method WordParse(str: string, base: int, badcheck: bool, sign: bool) returns (again: bool, r: Option<Bignum>)
    requires Radix(base)
    ensures var end := Strtoul(str, base).1; again <==> end < |str| && str[end] == '_'
    ensures !again ==>
              match WordNumber(str, base, badcheck)
              case None => r.None?
              case Some(v) => r.Some? && fresh(r.value) && r.value.Valid() && r.value.sign == sign && r.value.Mag() == v
  {
    hide Strtoul, Pow, Value;
    var (val, end) := Strtoul(str, base);
    if end < |str| && str[end] == '_' {
      return true, None;
    }
    again := false;
    if badcheck {
      if end == 0 {
        return false, None;
      }
      var k := end;
      while k < |str| && IsSpace(str[k])
        invariant end <= k <= |str| && forall i :: end <= i < k ==> IsSpace(str[i])
      {
        k := k + 1;
      }
      if k < |str| {
        assert str[end..][k - end] == str[k];
        return false, None;
      }
    }
    var z := Uint2Big(val);
    z.sign := sign;
    r := Some(z);
  }

  /** rb_cstr_to_inum. */
  method CstrToInum(text: string, base: int, badcheck: bool) returns (r: Option<Bignum>)
    requires BaseOk(base)
    ensures match Inum(text, base, badcheck)
            case None => r.None?
            case Some(n) => r.Some? && fresh(r.value) && r.value.Valid() && r.value.ToInt() == n
  {
    hide Value, Parsed, Malformed, Radix, Strtoul, WordNumber, BaseOf, BaseOk, InWord;
    var str := text;
    while str != [] && (IsSpace(str[0]) || (!badcheck && str[0] == '_'))
      invariant SkipSpaces(text, badcheck) == SkipSpaces(str, badcheck)
      decreases |str|
    {
      str := str[1..];
    }
    var sign := true;
    if str != [] && str[0] == '+' {
      str := str[1..];
    } else if str != [] && str[0] == '-' {
      str := str[1..];
      sign := false;
    }
    if str != [] && IsSign(str[0]) {
      if badcheck { return None; }
      var zero := new Bignum.Small(0);
      return Some(zero);
    }
    var b := BaseOf(str, base);
    if |str| >= 2 && str[0] == '0' && PrefixLetter(str[1], b) {
      str := str[2..];
    }
    ghost var front := str;
    while |str| >= 2 && str[0] == '0' && str[1] == '0'
      invariant SqueezeZeros(front) == SqueezeZeros(str)
      decreases |str|
    {
      str := str[1..];
    }
    if InWord(str, b) {
      var again;
      again, r := WordParse(str, b, badcheck, sign);
      if !again { return; }
    }
    r := BigParse(str, b, badcheck, sign);
  }

  // ----- there and back -----

  lemma HexDigitOf(d: int, base: int)
    requires Radix(base) && 0 <= d < base
    ensures DigitOf(HexDigit(d), base) == d && HexDigit(d) != '_' && !IsSpace(HexDigit(d)) && !IsSign(HexDigit(d))
    ensures d > 0 ==> HexDigit(d) != '0'
  {
  }

  /** Reading digits one after the other: the last one is appended. */
  lemma {:induction false} ParsedSnoc(str: string, base: int, acc: nat, c: char)
    requires Radix(base) && AllDigits(str, base) && DigitOf(c, base) >= 0
    ensures Parsed(str + [c], base, acc) == Appended(Parsed(str, base, acc), base, DigitOf(c, base))
    decreases |str|
  {
    hide DigitOf, Appended, Radix;
    DigitAbove(c, base);
    if str == [] {
      assert [c][1..] == [] && [] + [c] == [c];
      var d := DigitOf(c, base);
      assert Parsed([c][1..], base, Appended(acc, base, d)) == Appended(acc, base, d);
    } else {
      DigitAbove(str[0], base);
      assert (str + [c])[1..] == str[1..] + [c] && (str + [c])[0] == str[0];
      AllDigitsTail(str, base);
      ParsedSnoc(str[1..], base, Appended(acc, base, DigitOf(str[0], base)), c);
    }
  }

  predicate AllDigits(str: string, base: int)
    requires Radix(base)
  {
    forall i :: 0 <= i < |str| ==> DigitOf(str[i], base) >= 0
  }

  lemma AllDigitsTail(str: string, base: int)
    requires Radix(base) && AllDigits(str, base) && str != []
    ensures AllDigits(str[1..], base) && DigitOf(str[0], base) >= 0
  {
    hide DigitOf;
  }

  /** A numeral is read back as its number. */
  lemma {:induction false} NumeralParsed(n: nat, base: int)
    requires Radix(base)
    ensures AllDigits(Numeral(n, base), base) && Parsed(Numeral(n, base), base, 0) == n
    decreases n
  {
    hide Numeral, DigitOf, Parsed, Appended, HexDigit;
    NumeralStep(n + 1, base);
    if n == 0 {
      assert Parsed("", base, 0) == 0 by { ParsedNothing(base); }
    } else {
      NumeralStep(n, base);
      var q, d := n / base, n % base;
      NumeralParsed(q, base);
      HexDigitOf(d, base);
      ParsedSnoc(Numeral(q, base), base, 0, HexDigit(d));
      AppendedIs(q, base, d);
      assert n == base * q + d;
    }
  }

  lemma ParsedNothing(base: int)
    requires Radix(base)
    ensures Parsed("", base, 0) == 0
  {
  }

  lemma {:induction false} AllDigitsStop(str: string, base: int)
    requires Radix(base) && AllDigits(str, base)
    ensures StopAt(str, base) == |str|
  {
    hide DigitOf;
    if str != [] {
      AllDigitsTail(str, base);
      AllDigitsStop(str[1..], base);
    }
  }

  lemma DigitsWellFormed(str: string, base: int)
    requires Radix(base) && AllDigits(str, base)
    ensures !Malformed(str, base)
  {
    hide StopAt, DigitOf;
    AllDigitsStop(str, base);
    forall i | 0 <= i < |str| ensures str[i] != '_' {
      DigitAbove(str[i], base);
    }
    assert str[|str|..] == [];
  }

  /** Digits without a leading zero pass the front of the parser unchanged. */
  lemma FrontKeeps(str: string, base: int, badcheck: bool)
    requires Radix(base) && AllDigits(str, base) && str != [] && str[0] != '0'
    ensures SkipSpaces(str, badcheck) == str && !IsSign(str[0])
    ensures SqueezeZeros(SkipPrefix(str, base)) == str
    ensures SkipSpaces("-" + str, badcheck) == "-" + str
  {
    AllDigitsTail(str, base);
    DigitIsPlain(str[0], base);
  }

  lemma DigitIsPlain(c: char, base: int)
    requires Radix(base) && DigitOf(c, base) >= 0
    ensures !IsSpace(c) && !IsSign(c) && c != '_'
  {
  }

  lemma {:induction false} AllCounted(str: string, base: int)
    requires Radix(base) && AllDigits(str, base)
    ensures DigitCount(str, base) == |str|
  {
    hide DigitOf;
    if str != [] {
      AllDigitsTail(str, base);
      AllCounted(str[1..], base);
    }
  }

  /** Reading digits keeps the value within what the characters can hold. */
  lemma {:induction false} ParsedFits(str: string, base: int, acc: nat, t: nat)
    requires Radix(base) && Fits(acc, base, t)
    ensures Fits(Parsed(str, base, acc), base, t + |str|)
    decreases |str|
  {
    hide DigitOf, Fits, Exp, Appended, Radix;
    if str != [] {
      DigitAbove(str[0], base);
      var d := DigitOf(str[0], base);
      StillFits(acc, base, t);
      if str[0] == '_' {
        ParsedFits(str[1..], base, acc, t + 1);
      } else if d >= 0 {
        FitsStep(acc, base, t, d);
        AppendedIs(acc, base, d);
        ParsedFits(str[1..], base, Appended(acc, base, d), t + 1);
      } else {
        FitsLonger(acc, base, t, t + |str|);
      }
    }
  }

  lemma FitsLonger(v: int, base: int, t: nat, t': nat)
    requires Radix(base) && Fits(v, base, t) && t <= t'
    ensures Fits(v, base, t')
  {
    hide Exp;
    ExpMonotone(base, t, t');
  }

  /** strtoul does not overflow on a text that fits a machine word. */
  lemma WordFits(base: int, v: int, t: nat)
    requires Radix(base) && Fits(v, base, t) && BitsPerChar(base) * t <= WORD_DIGITS * BITSPERDIG
    ensures v < Pow(WORD_DIGITS)
  {
    hide Exp, Pow, Pow2;
    RadixPowers();
    var w := BitsPerChar(base);
    MulMonotone(0, t, w);
    ExpOrder(base, Exp(2, w), t);
    ExpMul(2, w, t);
    BigBits.PowIsPow2(WORD_DIGITS);
    Pow2IsExp(WORD_DIGITS * BITSPERDIG);
    ExpMonotone(2, w * t, WORD_DIGITS * BITSPERDIG);
  }

  /** On plain digits strtoul and the parser behind it agree. */
  lemma DigitsAgree(str: string, base: int, badcheck: bool)
    requires Radix(base) && AllDigits(str, base) && str != [] && (str[0] != '0' || |str| == 1)
    ensures Number(str, base, badcheck) == Some(Parsed(str, base, 0))
  {
    hide Parsed, Malformed, DigitOf, DigitCount, Pow, Fits, StopAt;
    DigitsWellFormed(str, base);
    if InWord(str, base) {
      AllDigitsTail(str, base);
      DigitIsPlain(str[0], base);
      NoFront(str, base);
      AllCounted(str, base);
      assert str[0..] == str && str[0..0 + |str|] == str && str[|str|..] == [];
      FitsNothing(base);
      ParsedFits(str, base, 0, 0);
      WordFits(base, Parsed(str, base, 0), |str|);
    }
  }

  lemma FitsNothing(base: int)
    requires Radix(base)
    ensures Fits(0, base, 0)
  {
  }

  lemma NoFront(str: string, base: int)
    requires Radix(base) && str != [] && !IsSpace(str[0]) && !IsSign(str[0]) && (str[0] != '0' || |str| == 1)
    ensures SpaceCount(str) == 0 && FirstDigit(str, base) == 0
  {
  }

  lemma ZeroReads(base: int, badcheck: bool)
    requires Radix(base)
    ensures Inum("0", base, badcheck) == Some(0)
  {
    hide Parsed, Malformed, SkipSpaces, SkipPrefix, SqueezeZeros, Number, DigitOf;
    ZeroFront(base, badcheck);
    ZeroDigits(base);
    DigitsAgree("0", base, badcheck);
  }

  lemma ZeroFront(base: int, badcheck: bool)
    ensures SkipSpaces("0", badcheck) == "0" && SkipPrefix("0", base) == "0" && SqueezeZeros("0") == "0"
  {
  }

  lemma ZeroDigits(base: int)
    requires Radix(base)
    ensures AllDigits("0", base) && Parsed("0", base, 0) == 0
  {
    hide Malformed;
    var str := "0";
    assert str[1..] == "";
    ParsedNothing(base);
    assert AllDigits(str, base);
    assert Parsed(str, base, 0) == Parsed(str[1..], base, Appended(0, base, 0));
  }

  /** Every integer is read back as it was written, in every base. */
  lemma WrittenIsRead(n: int, base: int, badcheck: bool)
    requires Radix(base)
    ensures Inum(Written(n, base), base, badcheck) == Some(n)
  {
    hide Numeral, Parsed, Malformed, DigitOf, SkipSpaces, SkipPrefix, SqueezeZeros, AllDigits, Number;
    if n == 0 {
      ZeroReads(base, badcheck);
    } else {
      var m := if n > 0 then n else -n;
      var str := Numeral(m, base);
      NumeralHead(m, base);
      NumeralParsed(m, base);
      DigitsAgree(str, base, badcheck);
      FrontKeeps(str, base, badcheck);
      if n < 0 {
        assert ("-" + str)[1..] == str && ("-" + str)[0] == '-';
      } else {
        assert !IsSign(str[0]);
      }
    }
  }

  /** rb_big2str followed by rb_cstr_to_inum gives the number back. */
  method ThereAndBack(x: Bignum, base: int, badcheck: bool) returns (z: Bignum)
    requires x.Valid() && x.Normal() && Radix(base)
    ensures z.Valid() && z.ToInt() == x.ToInt()
  {
    hide Inum, Written, Value;
    var text := Big2Str(x, base);
    WrittenIsRead(x.ToInt(), base, badcheck);
    var r := CstrToInum(text, base, badcheck);
    z := r.value;
  }
}
