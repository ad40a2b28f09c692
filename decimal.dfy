/** Decimal text of integers, as Python's `str(n)` and `int(s)` produce and
    read it. The renderer prints leaves with `str`, and the grouping generator
    glues two numbers together with `int(str(a) + str(b))`. */
module Decimal {

  predicate IsDigit(c: char) {
    '0' <= c <= '9'
  }

  predicate IsDigits(s: string) {
    forall i :: 0 <= i < |s| ==> IsDigit(s[i])
  }

  function DigitChar(d: nat): (c: char)
    requires d < 10
    ensures IsDigit(c)
  {
    (d + '0' as int) as char
  }

  function DigitValue(c: char): (d: nat)
    requires IsDigit(c)
    ensures d < 10 && DigitChar(d) == c
  {
    c as int - '0' as int
  }

  /** `str(n)` for a non-negative integer: the shortest decimal numeral,
      which starts with '0' only when it is "0" itself. */
  function NatStr(n: nat): (s: string)
    ensures |s| >= 1
    ensures s[0] == '0' <==> n == 0
    ensures n < 10 <==> |s| == 1
    decreases n
  {
    if n < 10 then [DigitChar(n)] else NatStr(n / 10) + [DigitChar(n % 10)]
  }

  /** `str(n)` writes only digits. */
  lemma {:induction false} NatStrDigits(n: nat)
    ensures IsDigits(NatStr(n))
    decreases n
  {
    if n >= 10 {
      NatStrDigits(n / 10);
      var s := NatStr(n);
      forall i | 0 <= i < |s| ensures IsDigit(s[i]) {
        if i < |s| - 1 { assert s[i] == NatStr(n / 10)[i]; }
      }
    }
  }

  /** `int(s)` for a string of decimal digits. */
  function ParseNat(s: string): nat
    requires IsDigits(s)
  {
    if s == [] then 0 else ParseNat(s[..|s| - 1]) * 10 + DigitValue(s[|s| - 1])
  }

  /** `str(n)` for any integer. */
  function IntStr(n: int): (s: string)
    ensures |s| >= 1
  {
    if n < 0 then "-" + NatStr(-n) else NatStr(n)
  }

  /** The strings `int` accepts here: an optional minus sign, then digits. */
  predicate IsIntText(s: string) {
    if |s| > 0 && s[0] == '-' then IsDigits(s[1..]) else IsDigits(s)
  }

  /** `int(s)` for a signed decimal string. */
  function ParseInt(s: string): int
    requires IsIntText(s)
  {
    if |s| > 0 && s[0] == '-' then -(ParseNat(s[1..]) as int) else ParseNat(s)
  }

  /** `int(str(a) + str(b))`, the digit concatenation of the grouping
      generator (expression_finder.py:15). A negative `b` would put a minus
      sign in the middle of the text, which `int` rejects, so `b` is a nat. */
  function Concat(a: int, b: nat): (c: int)
    ensures a >= 0 ==> c >= 0
    ensures a < 0 ==> c <= 0
  {
    IntTextAppend(a, b);
    ParseInt(IntStr(a) + NatStr(b))
  }

  lemma IntTextAppend(a: int, b: nat)
    ensures IsIntText(IntStr(a) + NatStr(b))
    ensures a < 0 ==> (IntStr(a) + NatStr(b))[0] == '-' && (IntStr(a) + NatStr(b))[1..] == NatStr(-a) + NatStr(b)
    ensures a >= 0 ==> IntStr(a) + NatStr(b) == NatStr(a) + NatStr(b) && IsDigit((IntStr(a) + NatStr(b))[0])
  {
    var t := IntStr(a) + NatStr(b);
    NatStrDigits(b);
    if a < 0 {
      NatStrDigits(-a);
      var u := NatStr(-a) + NatStr(b);
      assert t == "-" + u && t[1..] == u;
      AppendDigits(NatStr(-a), NatStr(b));
    } else {
      NatStrDigits(a);
      assert t[0] == NatStr(a)[0];
      AppendDigits(NatStr(a), NatStr(b));
    }
  }

  lemma AppendDigits(x: string, y: string)
    requires IsDigits(x) && IsDigits(y)
    ensures IsDigits(x + y)
  {
    forall i | 0 <= i < |x + y| ensures IsDigit((x + y)[i]) {
      if i < |x| { assert (x + y)[i] == x[i]; } else { assert (x + y)[i] == y[i - |x|]; }
    }
  }

  /** The decimal texts of a sequence of integers, written one after another. */
  function Digits(s: seq<int>): string {
    if s == [] then "" else IntStr(s[0]) + Digits(s[1..])
  }

  /** Reading back what `str` wrote gives the number again. */
  lemma {:induction false} ParseNatStr(n: nat)
    ensures IsDigits(NatStr(n)) && ParseNat(NatStr(n)) == n
    decreases n
  {
    NatStrDigits(n);
    if n >= 10 {
      var s := NatStr(n);
      assert s[..|s| - 1] == NatStr(n / 10);
      ParseNatStr(n / 10);
    }
  }

  /** A numeral without a leading zero is exactly what `str` writes for its value. */
  lemma {:induction false} NatStrParse(s: string)
    requires IsDigits(s) && |s| >= 1 && (|s| == 1 || s[0] != '0')
    ensures NatStr(ParseNat(s)) == s
    decreases |s|
  {
    if |s| > 1 {
      var init := s[..|s| - 1];
      var last := DigitValue(s[|s| - 1]);
      NatStrParse(init);
      var p := ParseNat(init);
      assert NatStr(p)[0] == init[0] != '0';
      var n := ParseNat(s);
      assert n == p * 10 + last;
      assert n / 10 == p && n % 10 == last;
      assert s == init + [s[|s| - 1]];
    }
  }

  lemma ParseIntStr(n: int)
    ensures IsIntText(IntStr(n)) && ParseInt(IntStr(n)) == n
  {
    var s := IntStr(n);
    if n < 0 {
      assert s == "-" + NatStr(-n);
      assert s[0] == '-' && s[1..] == NatStr(-n);
      ParseNatStr(-n);
    } else {
      ParseNatStr(n);
      assert s == NatStr(n) && IsDigit(s[0]);
    }
  }

  /** `str` is injective. */
  lemma IntStrInjective(a: int, b: int)
    requires IntStr(a) == IntStr(b)
    ensures a == b
  {
    ParseIntStr(a);
    ParseIntStr(b);
  }

  /** Gluing a non-zero `a` in front of `b` keeps every digit:
      `str(int(str(a) + str(b))) == str(a) + str(b)`. */
  lemma ConcatText(a: int, b: nat)
    requires a != 0
    ensures IntStr(Concat(a, b)) == IntStr(a) + IntStr(b)
  {
    IntTextAppend(a, b);
    var s := IntStr(a) + NatStr(b);
    if a > 0 {
      var t := NatStr(a) + NatStr(b);
      assert t[0] == NatStr(a)[0];
      assert s == t;
      NatStrParse(t);
      assert Concat(a, b) == ParseNat(t);
    } else {
      var t := NatStr(-a) + NatStr(b);
      assert t[0] == NatStr(-a)[0];
      assert s[1..] == t;
      NatStrParse(t);
      var m := ParseNat(t);
      assert NatStr(m)[0] != '0';
      assert Concat(a, b) == -(m as int);
      assert IntStr(-(m as int)) == "-" + NatStr(m);
    }
  }

  /** With a non-zero head, the glued number determines the glued tail. */
  lemma ConcatInjective(a: int, b1: nat, b2: nat)
    requires a != 0 && Concat(a, b1) == Concat(a, b2)
    ensures b1 == b2
  {
    ConcatText(a, b1);
    ConcatText(a, b2);
    var h := IntStr(a);
    assert (h + IntStr(b1))[|h|..] == IntStr(b1);
    assert (h + IntStr(b2))[|h|..] == IntStr(b2);
    IntStrInjective(b1, b2);
  }

  /** With a non-zero head, gluing always changes the number: it gains digits. */
  lemma ConcatChangesHead(a: int, b: nat)
    requires a != 0
    ensures Concat(a, b) != a
    ensures |IntStr(Concat(a, b))| > |IntStr(a)|
  {
    ConcatText(a, b);
  }

  /** The glued number keeps the sign of the head, and a head of 0 is
      absorbed as a leading zero: `int("0" + str(b)) == b`. */
  lemma ConcatSign(a: int, b: nat)
    ensures a > 0 ==> Concat(a, b) > 0
    ensures a < 0 ==> Concat(a, b) < 0
    ensures a == 0 ==> Concat(a, b) == b
  {
    if a == 0 {
      NatStrDigits(b);
      assert IntStr(a) + NatStr(b) == "0" + NatStr(b);
      ParseNatLeadingZero(NatStr(b));
      ParseNatStr(b);
    } else {
      ConcatText(a, b);
      assert IntStr(0) == "0";
      if a < 0 {
        assert IntStr(Concat(a, b))[0] == IntStr(a)[0] == '-';
      }
    }
  }

  /** A leading zero does not change the value `int` reads. */
  lemma {:induction false} ParseNatLeadingZero(s: string)
    requires IsDigits(s)
    ensures IsDigits("0" + s) && ParseNat("0" + s) == ParseNat(s)
    decreases |s|
  {
    var t := "0" + s;
    assert forall i :: 0 < i < |t| ==> t[i] == s[i - 1];
    if s != [] {
      assert t[..|t| - 1] == "0" + s[..|s| - 1];
      assert t[|t| - 1] == s[|s| - 1];
      ParseNatLeadingZero(s[..|s| - 1]);
    } else {
      assert t[..|t| - 1] == [];
    }
  }

  lemma {:induction false} DigitsAppend(a: seq<int>, b: seq<int>)
    ensures Digits(a + b) == Digits(a) + Digits(b)
    decreases |a|
  {
    if a != [] {
      assert (a + b)[1..] == a[1..] + b;
      DigitsAppend(a[1..], b);
    } else {
      assert a + b == b;
    }
  }
}
