/** What a text must look like for rb_cstr_to_inum to read it as a given number: spaces, a sign, a prefix
    that names the base, digits of either case with single underscores between them, and spaces again
    (ruby/bignum.c). */
module BigRead {
  import opened BigBase
  import opened BigText
  import opened Wrappers

  // ----- what the digits look like -----

  /** The character of a digit. */
  function Face(d: int): char
    requires 0 <= d < 16
  {
    if d < 10 then ('0' as int + d) as char else ('a' as int + d - 10) as char
  }

  lemma FaceIs(d: int)
    requires 0 <= d < 16
    ensures HexDigit(d) == Face(d)
  {
    var faces := ['0', '1', '2', '3', '4', '5', '6', '7', '8', '9', 'a', 'b', 'c', 'd', 'e', 'f'];
    assert HEXMAP == faces;
    assert faces[d] == Face(d);
  }

  /** Behind a numeral's place `i` stand `k` more: it shows the digit that counts for `base` to the `k`. */
  lemma {:induction false} NumeralPlaces(n: nat, base: int, i: nat)
    requires Radix(base) && i < |Numeral(n, base)|
    ensures var p := Exp(base, |Numeral(n, base)| - 1 - i); p > 0 && Numeral(n, base)[i] == Face(n / p % base)
    decreases n
  {
    hide Numeral, HexDigit, Face, Exp;
    NumeralStep(n + 1, base);
    NumeralStep(n, base);
    var s := Numeral(n / base, base);
    var k := |Numeral(n, base)| - 1 - i;
    ExpPositive(base, k);
    if k == 0 {
      ExpZero(base);
      FaceIs(n % base);
    } else {
      NumeralPlaces(n / base, base, i);
      ExpPositive(base, k - 1);
      ExpStep(base, k);
      DivideTwice(n, base, Exp(base, k - 1));
    }
  }

  lemma ExpZero(b: nat)
    ensures Exp(b, 0) == 1
  {
  }

  lemma DivideTwice(n: nat, a: int, b: int)
    requires a > 0 && b > 0
    ensures a * b > 0 && n / a / b == n / (a * b)
  {
    MulMonotone(1, a, b);
    var q := n / a;
    var x, r, r' := q / b, q % b, n % a;
    OneRemainder(n, a, b, q, x, r, r');
    RemainderFits(a, b, r, r');
    QuotientOf(n, a * b, x, a * r + r');
  }

  lemma OneRemainder(n: int, a: int, b: int, q: int, x: int, r: int, r': int)
    requires n == a * q + r' && q == b * x + r
    ensures n == (a * b) * x + (a * r + r')
  {
    assert a * (b * x + r) == a * (b * x) + a * r;
    assert a * (b * x) == (a * b) * x;
  }

  lemma RemainderFits(a: int, b: int, r: int, r': int)
    requires 0 <= r < b && 0 <= r' < a
    ensures 0 <= a * r + r' < a * b
  {
    MulMonotone(r, b - 1, a);
    MulMonotone(0, r, a);
    assert a * (b - 1) == a * b - a;
  }

  lemma QuotientOf(n: nat, m: int, q: int, r: int)
    requires 0 <= r < m && n == m * q + r
    ensures n / m == q
  {
    var d := q - n / m;
    assert m * d == m * q - m * (n / m);
    if d >= 1 { MulMonotone(1, d, m); }
    if d <= -1 { MulMonotone(d, -1, m); }
  }

  // ----- other spellings of the digits -----

  function Lower(c: char): char {
    if 'A' <= c <= 'F' then (c as int - 'A' as int + 'a' as int) as char else c
  }

  /** The digits without underscores, letters in lower case. */
  function Plain(str: string): string {
    if str == [] then []
    else if str[0] == '_' then Plain(str[1..])
    else [Lower(str[0])] + Plain(str[1..])
  }

  /** Underscores stand between digits only, and one at a time. */
  predicate Spaced(str: string) {
    str != [] && str[0] != '_' && str[|str| - 1] != '_' &&
    forall k :: 0 <= k < |str| - 1 ==> !(str[k] == '_' && str[k + 1] == '_')
  }

  lemma LowerDigit(c: char, base: int)
    requires Radix(base)
    ensures DigitOf(Lower(c), base) == DigitOf(c, base) && (Lower(c) == '_' <==> c == '_') && (Lower(c) == '0' <==> c == '0')
  {
  }

  /** Digits and underscores. */
  predicate Digits(str: string, base: int)
    requires Radix(base)
  {
    forall i :: 0 <= i < |str| ==> str[i] == '_' || DigitOf(str[i], base) >= 0
  }

  lemma {:induction false} PlainDigits(str: string, base: int)
    requires Radix(base) && AllDigits(Plain(str), base)
    ensures Digits(str, base)
  {
    hide DigitOf, Lower;
    if str != [] {
      LowerDigit(str[0], base);
      if str[0] != '_' { PlainTail(str, base); }
      PlainDigits(str[1..], base);
    }
  }

  lemma PlainTail(str: string, base: int)
    requires Radix(base) && str != [] && str[0] != '_' && AllDigits(Plain(str), base)
    ensures AllDigits(Plain(str[1..]), base) && DigitOf(Lower(str[0]), base) >= 0
  {
    hide DigitOf, Lower;
    AllDigitsTail(Plain(str), base);
  }

  lemma {:induction false} PlainParsed(str: string, base: int, acc: nat)
    requires Radix(base)
    ensures Parsed(str, base, acc) == Parsed(Plain(str), base, acc)
    decreases |str|
  {
    hide DigitOf, Lower, Appended;
    if str != [] {
      LowerDigit(str[0], base);
      if str[0] == '_' {
        PlainParsed(str[1..], base, acc);
      } else if DigitOf(str[0], base) >= 0 {
        assert Plain(str)[1..] == Plain(str[1..]);
        PlainParsed(str[1..], base, Appended(acc, base, DigitOf(str[0], base)));
      }
    }
  }

  // ----- reading them -----

  /** What stands behind the digits is not one more of them. */
  predicate Behind(tail: string, base: int)
    requires Radix(base)
  {
    tail == "" || (DigitOf(tail[0], base) < 0 && tail[0] != '_')
  }

  lemma {:induction false} StopsBehind(w: string, sp: string, base: int, acc: nat)
    requires Radix(base) && Digits(w, base) && Behind(sp, base)
    ensures StopAt(w + sp, base) == |w| && Parsed(w + sp, base, acc) == Parsed(w, base, acc)
    decreases |w|
  {
    hide DigitOf, Appended;
    if w == [] {
      assert w + sp == sp;
    } else {
      assert (w + sp)[1..] == w[1..] + sp;
      DigitAbove(w[0], base);
      StopsBehind(w[1..], sp, base, acc);
      if w[0] != '_' { StopsBehind(w[1..], sp, base, Appended(acc, base, DigitOf(w[0], base))); }
    }
  }

  lemma WellFormed(w: string, sp: string, base: int)
    requires Radix(base) && Digits(w, base) && Spaced(w) && Behind(sp, base)
    ensures Malformed(w + sp, base) <==> !AllSpaces(sp)
  {
    hide DigitOf, StopAt;
    StopsBehind(w, sp, base, 0);
    assert (w + sp)[|w|..] == sp;
    assert forall k :: 0 <= k < |w| ==> (w + sp)[k] == w[k];
  }

  /** strtoul goes as far as there are no underscores. */
  lemma {:induction false} CountsUpTo(w: string, sp: string, base: int)
    requires Radix(base) && Digits(w, base) && Behind(sp, base)
    ensures var k := DigitCount(w + sp, base); k <= |w| && AllDigits(w[..k], base) && (k < |w| ==> w[k] == '_')
    decreases |w|
  {
    hide DigitOf;
    if w == [] {
      assert w + sp == sp;
    } else {
      DigitAbove(w[0], base);
      assert (w + sp)[1..] == w[1..] + sp;
      if w[0] != '_' {
        CountsUpTo(w[1..], sp, base);
        var k := DigitCount(w[1..] + sp, base);
        assert w[..k + 1] == [w[0]] + w[1..][..k];
      }
    }
  }

  /** The digits begin right at the front. */
  lemma NothingInFront(w: string, sp: string, base: int)
    requires Radix(base) && Digits(w, base) && Spaced(w) && Behind(sp, base) && w != "0"
    ensures SpaceCount(w + sp) == 0 && FirstDigit(w + sp, base) == 0 && DigitCount(w + sp, base) > 0 && !IsSign((w + sp)[0])
  {
    var text := w + sp;
    assert text[0] == w[0];
    DigitIsPlain(w[0], base);
    if |text| > 1 { assert text[1] == if |w| > 1 then w[1] else sp[0]; }
  }

  /** Digits with single underscores between them are read as their value, unless `badcheck` refuses what
      stands behind them. */
  lemma DigitsRead(w: string, tail: string, base: int, badcheck: bool)
    requires Radix(base) && Digits(w, base) && Spaced(w) && Behind(tail, base) && w != "0"
    ensures Number(w + tail, base, badcheck) == if badcheck && !AllSpaces(tail) then None else Some(Parsed(w, base, 0))
  {
    hide Parsed, Malformed, DigitOf, DigitCount, SpaceCount, FirstDigit, Pow, Fits, StopAt, AllSpaces;
    var text := w + tail;
    WellFormed(w, tail, base);
    StopsBehind(w, tail, base, 0);
    if InWord(text, base) {
      NothingInFront(w, tail, base);
      CountsUpTo(w, tail, base);
      var k := DigitCount(text, base);
      assert text[0..] == text && text[0..0 + k] == w[..k];
      if k == |w| {
        assert w[..k] == w && text[k..] == tail;
        FitsNothing(base);
        ParsedFits(w, base, 0, 0);
        FitsLonger(Parsed(w, base, 0), base, |w|, |text|);
        WordFits(base, Parsed(w, base, 0), |text|);
      } else {
        assert text[k] == '_';
      }
    }
  }

  // ----- what stands in front of them -----

  function Signed(sign: string, n: nat): int {
    var m: int := n;
    if sign == "-" then -m else m
  }

  /** Called with `base`, a text with this prefix is read in base `b`. */
  predicate Names(prefix: string, base: int, b: int)
    requires BaseOk(base) && Radix(b)
  {
    (prefix == "" && b == if base > 0 then base else if base < -1 then -base else 10) ||
    (prefix == "0" && b == if base > 0 then base else 8) ||
    ((base <= 0 || base == b) &&
      ((b == 2 && (prefix == "0b" || prefix == "0B")) || (b == 8 && (prefix == "0o" || prefix == "0O")) ||
       (b == 10 && (prefix == "0d" || prefix == "0D")) || (b == 16 && (prefix == "0x" || prefix == "0X"))))
  }

  /** A bare zero is one of the digits. */
  function WithZero(prefix: string, str: string): string {
    if prefix == "0" then "0" + str else str
  }

  lemma {:induction false} LeadSkipped(lead: string, text: string, badcheck: bool)
    requires AllSpaces(lead) && text != [] && !IsSpace(text[0]) && text[0] != '_'
    ensures SkipSpaces(lead + text, badcheck) == text
  {
    if lead == [] {
      assert lead + text == text;
    } else {
      assert (lead + text)[1..] == lead[1..] + text;
      LeadSkipped(lead[1..], text, badcheck);
    }
  }

  lemma FirstIsDigit(str: string, base: int)
    requires Radix(base) && Digits(str, base) && Spaced(str) && Plain(str) != [] && Plain(str)[0] != '0'
    ensures DigitOf(str[0], base) >= 0 && str[0] != '0'
  {
    LowerDigit(str[0], base);
  }

  lemma NoLetter(c: char, base: int)
    requires Radix(base) && DigitOf(c, base) >= 0
    ensures !PrefixLetter(c, base) && !IsSpace(c) && !IsSign(c) && c != '_'
    ensures base == 8 ==> c != 'x' && c != 'X' && c != 'b' && c != 'B' && c != 'o' && c != 'O' && c != 'd' && c != 'D'
  {
  }

  /** The base is found, and the prefix taken off. */
  lemma FrontIs(prefix: string, text: string, base: int, b: int)
    requires BaseOk(base) && Radix(b) && Names(prefix, base, b) && text != [] && DigitOf(text[0], b) >= 0 && text[0] != '0'
    ensures var rest := prefix + text;
            !IsSpace(rest[0]) && rest[0] != '_' && !IsSign(rest[0]) && BaseOf(rest, base) == b &&
            SqueezeZeros(SkipPrefix(rest, b)) == WithZero(prefix, text)
  {
    hide DigitOf, SqueezeZeros;
    var rest := prefix + text;
    NoLetter(text[0], b);
    NoZeros(WithZero(prefix, text));
    if prefix == "" {
      assert rest == text;
    } else if prefix == "0" {
      assert rest[0] == '0' && rest[1] == text[0];
    } else {
      assert rest[0] == prefix[0] && rest[1] == prefix[1] && rest[2..] == text;
    }
  }

  lemma NoZeros(str: string)
    requires str != [] && (str[0] != '0' || (|str| > 1 && str[1] != '0'))
    ensures SqueezeZeros(str) == str
  {
  }

  lemma ZeroInFront(prefix: string, str: string, b: int, n: nat)
    requires Radix(b) && Digits(str, b) && Spaced(str) && Parsed(str, b, 0) == n
    ensures var w := WithZero(prefix, str); Digits(w, b) && Spaced(w) && Parsed(w, b, 0) == n
  {
    hide Parsed;
    var w := WithZero(prefix, str);
    if prefix == "0" {
      assert w[1..] == str && w[0] == '0';
      ZeroAdds(w, b);
    }
  }

  lemma ZeroAdds(w: string, b: int)
    requires Radix(b) && w != [] && w[0] == '0'
    ensures Parsed(w, b, 0) == Parsed(w[1..], b, 0)
  {
    AppendedIs(0, b, 0);
  }

  predicate Blank(str: string) {
    forall i :: 0 <= i < |str| ==> str[i] in [' ', '\t', '\n', '\r', 11 as char, 12 as char]
  }

  lemma BlankIsSpaces(str: string)
    ensures Blank(str) <==> AllSpaces(str)
  {
  }

  /** Every text of that form stands for its number. With `badcheck` nothing but spaces may follow; without
      it the rest is ignored. */
  lemma TextRead(lead: string, sign: string, prefix: string, str: string, trail: string, n: nat, base: int, b: int, badcheck: bool)
    requires BaseOk(base) && Radix(b) && Names(prefix, base, b) && Blank(lead) && Behind(trail, b)
    requires sign == "" || sign == "+" || sign == "-"
    requires n > 0 && Spaced(str) && Plain(str) == Numeral(n, b)
    ensures Inum(lead + (sign + (prefix + (str + trail))), base, badcheck) ==
            if badcheck && !Blank(trail) then None else Some(Signed(sign, n))
  {
    hide Numeral, Parsed, DigitOf, SkipSpaces, SkipPrefix, SqueezeZeros, Number, BaseOf, AllSpaces, Spaced, Digits, Plain, Names, BaseOk, Radix;
    BlankIsSpaces(lead);
    BlankIsSpaces(trail);
    NumeralHead(n, b) by { RadixRange(b); }
    NumeralParsed(n, b);
    PlainDigits(str, b);
    PlainParsed(str, b, 0);
    SpacedHead(str);
    FirstIsDigit(str, b);
    assert (str + trail)[0] == str[0];
    FrontIs(prefix, str + trail, base, b);
    ZeroInFront(prefix, str, b, n);
    NotZero(prefix, str);
    DigitsRead(WithZero(prefix, str), trail, b, badcheck);
    assert WithZero(prefix, str + trail) == WithZero(prefix, str) + trail;
    var rest := prefix + (str + trail);
    SignRead(lead, sign, rest, if badcheck && !Blank(trail) then None else Some(n), base, b, badcheck);
  }

  lemma NotZero(prefix: string, str: string)
    requires str != [] && str[0] != '0'
    ensures WithZero(prefix, str) != "0"
  {
    if prefix == "0" { assert |"0" + str| > 1; }
  }

  lemma SpacedHead(str: string)
    requires Spaced(str)
    ensures str != []
  {
  }

  lemma SignRead(lead: string, sign: string, rest: string, r: Option<nat>, base: int, b: int, badcheck: bool)
    requires BaseOk(base) && Radix(b) && AllSpaces(lead) && (sign == "" || sign == "+" || sign == "-")
    requires rest != [] && !IsSpace(rest[0]) && rest[0] != '_' && !IsSign(rest[0]) && BaseOf(rest, base) == b
    requires Number(SqueezeZeros(SkipPrefix(rest, b)), b, badcheck) == r
    ensures Inum(lead + (sign + rest), base, badcheck) == if r.None? then None else Some(Signed(sign, r.value))
  {
    hide SkipSpaces, SkipPrefix, SqueezeZeros, Number, BaseOf, AllSpaces, BaseOk, Radix;
    var text := sign + rest;
    if sign == "" {
      assert text == rest;
    } else {
      assert text[0] == sign[0] && text[1..] == rest;
    }
    LeadSkipped(lead, text, badcheck);
  }

  /** Every spelling counts: in particular the numerals that rb_big2str writes, behind any sign and any
      prefix that names their base. */
  lemma NumeralRead(sign: string, prefix: string, n: nat, base: int, b: int, badcheck: bool)
    requires BaseOk(base) && Radix(b) && Names(prefix, base, b) && (sign == "" || sign == "+" || sign == "-") && n > 0
    ensures Inum(sign + (prefix + Written(n, b)), base, badcheck) == Some(Signed(sign, n))
  {
    hide Numeral, Inum, Names, BaseOk, Radix;
    RadixRange(b);
    NumeralSpelled(n, b);
    var str := Numeral(n, b);
    TextRead("", sign, prefix, str, "", n, base, b, badcheck);
    assert str + "" == str && "" + (sign + (prefix + str)) == sign + (prefix + str);
  }

  lemma NumeralSpelled(n: nat, b: int)
    requires Radix(b) && n > 0
    ensures Spaced(Numeral(n, b)) && Plain(Numeral(n, b)) == Numeral(n, b)
  {
    hide Numeral, DigitOf, Plain;
    NumeralHead(n, b);
    var str := Numeral(n, b);
    forall i: nat | i < |str| ensures str[i] != '_' && Lower(str[i]) == str[i] {
      NumeralPlaces(n, b, i);
    }
    AlreadyPlain(str);
  }

  lemma {:induction false} AlreadyPlain(str: string)
    requires forall i: nat :: i < |str| ==> str[i] != '_' && Lower(str[i]) == str[i]
    ensures Plain(str) == str
  {
    hide Lower;
    if str != [] { AlreadyPlain(str[1..]); }
  }
}
