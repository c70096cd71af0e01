/** Numbers printed and read again, and what sym_validate_range
    (symbol.c:137-168) does to a value it already adjusted. */
module Ranges {
  import opened Tristates
  import opened NumText
  import opened Exprs
  import opened SymbolEquations
  import opened ConfText

  // ----- printing and reading a number -----

  /** A character strtoll takes for a digit of `base`, wherever it stands. */
  predicate PlainDigit(c: char, base: nat) {
    && DigitValue(c) < base && !IsSpace(c) && c != '-' && c != '+'
    && (base <= 10 ==> IsDigit(c))
  }

  lemma DigitCharValue(d: nat, base: nat)
    requires d < base <= 16
    ensures DigitValue(DigitChar(d)) == d && PlainDigit(DigitChar(d), base)
    ensures d != 0 ==> DigitChar(d) != '0'
  {
  }

  ghost predicate AllDigits(s: string, base: nat) {
    forall i :: 0 <= i < |s| ==> PlainDigit(s[i], base)
  }

  lemma {:induction false} DigitsRead(n: nat, base: nat)
    requires 2 <= base <= 16
    ensures AllDigits(Digits(n, base), base)
    ensures Magnitude(Digits(n, base), base) == n
    ensures n > 0 ==> Digits(n, base)[0] != '0'
    ensures n == 0 ==> |Digits(n, base)| == 1
    decreases n
  {
    hide DigitChar, DigitValue, PlainDigit, Magnitude;
    if n < base {
      DigitCharValue(n, base);
      MagnitudeOne(DigitChar(n), base);
    } else {
      var q, d := n / base, n % base;
      Divided(n, base);
      DigitsRead(q, base);
      DigitCharValue(d, base);
      OneDigitMore(Digits(q, base), DigitChar(d), base);
      assert Digits(n, base) == Digits(q, base) + [DigitChar(d)];
    }
  }

  lemma Divided(n: nat, base: nat)
    requires 2 <= base <= n
    ensures 0 < n / base < n && n % base < base && (n / base) * base + n % base == n
  {
  }

  lemma OneDigitMore(s: string, c: char, base: nat)
    requires |s| > 0 && s[0] != '0' && AllDigits(s, base) && PlainDigit(c, base)
    ensures AllDigits(s + [c], base) && (s + [c])[0] != '0'
    ensures Magnitude(s + [c], base) == Magnitude(s, base) * base + DigitValue(c)
  {
    hide DigitValue, PlainDigit;
    MagnitudeMore(s, c, base);
  }

  lemma MagnitudeOne(c: char, base: nat)
    ensures Magnitude([c], base) == DigitValue(c)
  {
    hide DigitValue;
    assert [c][..0] == [];
    assert Magnitude([], base) * base == 0;
  }

  lemma MagnitudeMore(s: string, c: char, base: nat)
    ensures Magnitude(s + [c], base) == Magnitude(s, base) * base + DigitValue(c)
  {
    hide DigitValue;
    assert (s + [c])[..|s|] == s;
  }

  /** A run of digits ends with the text. */
  lemma {:induction false} DigitsEndAll(s: string, i: nat, base: nat)
    requires i <= |s| && forall k :: i <= k < |s| ==> DigitValue(s[k]) < base
    ensures DigitsEnd(s, i, base) == |s|
    decreases |s| - i
  {
    if i < |s| {
      DigitsEndAll(s, i + 1, base);
    }
  }

  lemma ScanDigits(s: string)
    requires s != [] && AllDigits(s, 10)
    ensures ScanNumber(s, 10) == Scan(false, Magnitude(s, 10), |s|)
    ensures ScanNumber("-" + s, 10) == Scan(true, Magnitude(s, 10), |s| + 1)
  {
    hide Magnitude, DigitValue;
    DigitsEndAll(s, 0, 10);
    assert s[0..|s|] == s;
    var t := "-" + s;
    DigitsEndAll(t, 1, 10);
    assert t[1..|t|] == s;
  }

  lemma ScanHexDigits(s: string)
    requires s != [] && AllDigits(s, 16)
    ensures ScanNumber("0x" + s, 16) == Scan(false, Magnitude(s, 16), |s| + 2)
  {
    hide Magnitude, DigitsEnd, DigitValue;
    var t := "0x" + s;
    HexTail(s);
    assert t[2..|t|] == s;
    assert t[0] == '0' && t[1] == 'x' && t[2] == s[0];
    assert SkipSpaces(t, 0) == 0;
    assert HasHexPrefix(t, 0);
  }

  lemma HexTail(s: string)
    requires AllDigits(s, 16)
    ensures DigitsEnd("0x" + s, 2, 16) == |s| + 2
  {
    hide DigitValue;
    var t := "0x" + s;
    forall k | 2 <= k < |t|
      ensures DigitValue(t[k]) < 16
    {
      assert t[k] == s[k - 2];
    }
    DigitsEndAll(t, 2, 16);
  }

  /** strtoll reads back what printf("%lld") wrote. */
  lemma DecReadsBack(n: int)
    requires LLONG_MIN <= n <= LLONG_MAX
    ensures Strtoll(FormatDec(n), 10) == n
    ensures IsIntText(FormatDec(n))
  {
    hide Digits, ScanNumber, DigitValue;
    var m := if n < 0 then -n else n;
    DigitsRead(m, 10);
    ScanDigits(Digits(m, 10));
    DecText(m);
  }

  lemma DecText(m: nat)
    ensures IsIntText(Digits(m, 10))
    ensures m > 0 ==> IsIntText("-" + Digits(m, 10))
  {
    hide Digits;
    DigitsRead(m, 10);
    var d := Digits(m, 10);
    assert ("-" + d)[1..] == d;
  }

  /** The same for printf("0x%llx"), for a number that is not negative. */
  lemma HexReadsBack(n: int)
    requires 0 <= n <= LLONG_MAX
    ensures Strtoll(FormatHex(n), 16) == n
    ensures IsHexText(FormatHex(n))
  {
    hide Digits, ScanNumber, PlainDigit, IsHexText;
    assert n % ULLONG_MOD == n;
    DigitsRead(n, 16);
    ScanHexDigits(Digits(n, 16));
    HexText(Digits(n, 16));
  }

  lemma HexText(s: string)
    requires s != [] && AllDigits(s, 16)
    ensures IsHexText("0x" + s)
  {
    hide DigitValue;
    var t := "0x" + s;
    assert t[0] == '0' && t[1] == 'x' && t[2..] == s;
    forall i | 0 <= i < |s|
      ensures IsXDigit(s[i])
    {
      assert PlainDigit(s[i], 16);
    }
  }

  // ----- adjusting twice -----

  predicate IsLongLong(n: int) {
    LLONG_MIN <= n <= LLONG_MAX
  }

  /** What strtoll makes of a printed bound: a negative hexadecimal one is
      printed as its two's complement, which is out of strtoll's reach. */
  function RereadNum(y: SymType, n: int): int {
    if y == Hex && n < 0 then LLONG_MAX else n
  }

  lemma FormatReadsBack(y: SymType, n: int)
    requires (y == Int || y == Hex) && IsLongLong(n)
    ensures Strtoll(FormatNum(y, n), BaseOf(y, 0)) == RereadNum(y, n) && StringValid(y, FormatNum(y, n))
  {
    hide FormatDec, FormatHex, Strtoll, IsIntText, IsHexText;
    if y == Int {
      DecReadsBack(n);
    } else if n >= 0 {
      HexReadsBack(n);
    } else {
      NegativeHexReads(n);
    }
  }

  lemma NegativeHexReads(n: int)
    requires LLONG_MIN <= n < 0
    ensures Strtoll(FormatHex(n), 16) == LLONG_MAX && IsHexText(FormatHex(n))
  {
    hide Digits, ScanNumber, PlainDigit, IsHexText;
    var m := n % ULLONG_MOD;
    assert m == n + ULLONG_MOD;
    DigitsRead(m, 16);
    ScanHexDigits(Digits(m, 16));
    HexText(Digits(m, 16));
  }

  lemma FormatInjective(y: SymType, a: int, b: int)
    requires (y == Int || y == Hex) && IsLongLong(a) && IsLongLong(b)
    ensures FormatNum(y, a) == FormatNum(y, b) ==> a == b
  {
    hide Digits, FormatDec, Strtoll, IsIntText;
    if y == Int {
      DecReadsBack(a);
      DecReadsBack(b);
    } else if FormatHex(a) == FormatHex(b) {
      var m, n := a % ULLONG_MOD, b % ULLONG_MOD;
      assert ("0x" + Digits(m, 16))[2..] == Digits(m, 16);
      assert ("0x" + Digits(n, 16))[2..] == Digits(n, 16);
      DigitsRead(m, 16);
      DigitsRead(n, 16);
    }
  }

  /** A text that a second adjustment leaves as the first one made it. */
  predicate Settles(y: SymType, str: string, lo: int, hi: int) {
    var n := Strtoll(str, BaseOf(y, 0));
    if y == Hex && n < lo < 0 then hi == LLONG_MAX || hi == lo
    else lo <= hi || (y == Hex && lo <= n && hi < 0)
  }

  /** Moving a value into its range a second time changes nothing if and only
      if the value settles: without negative hexadecimal bounds, if and only if
      the range is not empty. */
  lemma ClampTwice(y: SymType, str: string, lo: int, hi: int)
    requires (y == Int || y == Hex) && IsLongLong(lo) && IsLongLong(hi)
    ensures Clamp(y, Clamp(y, str, lo, hi), lo, hi) == Clamp(y, str, lo, hi) <==> Settles(y, str, lo, hi)
    ensures y == Int || (lo >= 0 && hi >= 0) ==> (Settles(y, str, lo, hi) <==> lo <= hi)
    ensures lo <= hi && (y == Int || lo >= 0) ==> lo <= Strtoll(Clamp(y, str, lo, hi), BaseOf(y, 0)) <= hi
  {
    hide FormatNum, Strtoll, StringValid;
    FormatReadsBack(y, lo);
    FormatReadsBack(y, hi);
    FormatInjective(y, lo, hi);
  }

  /** A text that is adjusted becomes valid, and one that is not stays what it was. */
  lemma ClampValid(y: SymType, str: string, lo: int, hi: int)
    requires (y == Int || y == Hex) && IsLongLong(lo) && IsLongLong(hi)
    ensures StringValid(y, Clamp(y, str, lo, hi)) || (Clamp(y, str, lo, hi) == str && Settles(y, str, lo, hi))
    ensures StringValid(y, str) ==> StringValid(y, Clamp(y, str, lo, hi))
  {
    hide FormatNum, Strtoll, StringValid;
    FormatReadsBack(y, lo);
    FormatReadsBack(y, hi);
  }

  /** strtoll never leaves its type. */
  lemma StrtollRange(str: string, base: nat)
    ensures IsLongLong(Strtoll(str, base))
  {
    hide ScanNumber;
  }

  /** The smallest failing case at work: -2 in the hexadecimal range from -1 to
      10 becomes -1, which reads as too large a number and becomes 10. */
  lemma NegativeHexBound()
    ensures Clamp(Hex, "-2", -1, 10) == FormatHex(-1)
    ensures Clamp(Hex, Clamp(Hex, "-2", -1, 10), -1, 10) == FormatHex(10) != FormatHex(-1)
  {
    hide FormatHex, Strtoll, IsHexText;
    ScanMinusTwo();
    FormatReadsBack(Hex, -1);
    FormatInjective(Hex, 10, -1);
  }

  lemma ScanMinusTwo()
    ensures Strtoll("-2", 16) == -2
  {
    var s := "-2";
    DigitsEndAll(s, 1, 16);
    assert s[1..2] == "2";
    assert Magnitude("2", 16) == Magnitude([], 16) * 16 + 2;
  }
}
