/** What a comparison means (expr.c:891-1005): numbers are compared as numbers, and
    texts by the first character they differ in. */
module Comparing {
  import opened Tristates
  import opened NumText
  import opened Exprs
  import opened Ranges

  // ----- how numbers are printed -----

  /** Numbers are printed with the highest digit first, negative ones behind a minus, ... */
  lemma DecimalDigits(n: nat, d: nat)
    requires d < 10
    ensures FormatDec(d) == ["0123456789"[d]]
    ensures n > 0 ==> FormatDec(10 * n + d) == FormatDec(n) + ["0123456789"[d]]
    ensures n > 0 ==> FormatDec(0 - n) == "-" + FormatDec(n)
  {
    assert (10 * n + d) / 10 == n && (10 * n + d) % 10 == d;
    assert "0123456789abcdef"[d] == "0123456789"[d];
  }

  /** ... and hexadecimal ones behind "0x", ... */
  lemma HexDigits(n: nat, d: nat)
    requires d < 16
    ensures FormatHex(d) == "0x" + ["0123456789abcdef"[d]]
    ensures 0 < n < 0x1000_0000_0000_0000 ==> FormatHex(16 * n + d) == FormatHex(n) + ["0123456789abcdef"[d]]
  {
    hide Digits, DigitChar;
    Complement(d);
    DigitsStep(1, d);
    if 0 < n < 0x1000_0000_0000_0000 {
      Complement(16 * n + d);
      Complement(n);
      DigitsStep(n, d);
      assert "0x" + (Digits(n, 16) + [DigitChar(d)]) == "0x" + Digits(n, 16) + [DigitChar(d)];
    }
  }

  lemma DigitsStep(n: nat, d: nat)
    requires n > 0 && d < 16
    ensures Digits(16 * n + d, 16) == Digits(n, 16) + [DigitChar(d)]
    ensures Digits(d, 16) == [DigitChar(d)] && DigitChar(d) == "0123456789abcdef"[d]
  {
    assert (16 * n + d) / 16 == n && (16 * n + d) % 16 == d;
  }

  /** ... negative ones as their two's complement. */
  lemma NegativeHexDigits(n: int)
    requires -0x8000_0000_0000_0000 <= n < 0
    ensures FormatHex(n) == FormatHex(n + 0x1_0000_0000_0000_0000)
  {
    Complement(n);
    Complement(n + 0x1_0000_0000_0000_0000);
  }

  // ----- numbers -----

  /** The string of s is the number n as its type prints it; symbols without a number
      type, constants among them, may spell it either way. */
  predicate Spells(w: World, s: Sym, n: int) {
    var str := Val(w.v, s).str;
    match Typ(w.t, s)
    case Int => str == FormatDec(n) && IsLongLong(n)
    case Hex => str == FormatHex(n) && 0 <= n < ULLONG_MOD
    case Unknown => IsLongLong(n) && (str == FormatDec(n) || (n >= 0 && str == FormatHex(n)))
    case Str => IsLongLong(n) && (str == FormatDec(n) || (n >= 0 && str == FormatHex(n)))
    case _ => false
  }

  /** The end of a run of digits that is the whole text. */
  lemma ScanDigitsOctal(s: string)
    requires s != [] && AllDigits(s, 10) && (s[0] != '0' || |s| == 1)
    ensures ScanNumber(s, 0) == Scan(false, Magnitude(s, 10), |s|)
  {
    hide Magnitude, DigitValue;
    if |s| == 1 && s[0] == '0' {
      assert s == "0";
      OnlyZero();
    } else {
      DigitsEndAll(s, 0, 10);
      assert s[0..|s|] == s;
      assert !HasHexPrefix(s, 0);
    }
  }

  lemma OnlyZero()
    ensures ScanNumber("0", 0) == Scan(false, 0, 1) && Magnitude("0", 10) == 0
  {
    DigitsEndAll("0", 0, 8);
    assert "0"[0..1] == "0";
    MagnitudeOne('0', 8);
    MagnitudeOne('0', 10);
  }

  lemma ScanMinusOctal(s: string)
    requires s != [] && AllDigits(s, 10) && s[0] != '0'
    ensures ScanNumber("-" + s, 0) == Scan(true, Magnitude(s, 10), |s| + 1)
  {
    hide Magnitude, DigitValue;
    var t := "-" + s;
    DigitsEndAll(t, 1, 10);
    assert t[1..|t|] == s;
  }

  lemma ScanHexOctal(s: string)
    requires s != [] && AllDigits(s, 16)
    ensures ScanNumber("0x" + s, 0) == Scan(false, Magnitude(s, 16), |s| + 2)
  {
    hide Magnitude, DigitsEnd, DigitValue;
    var t := "0x" + s;
    HexTail(s);
    assert t[2..|t|] == s;
    assert t[0] == '0' && t[1] == 'x' && t[2] == s[0];
    assert SkipSpaces(t, 0) == 0;
    assert HasHexPrefix(t, 0);
  }

  /** The number printed in decimal is scanned to its end, in either base. */
  lemma DecScanned(n: int, base: nat)
    requires base == 10 || base == 0
    ensures var s := FormatDec(n); var r := ScanNumber(s, base);
      s != [] && r.tail == |s| && r.Num() == n && IsXDigit(s[|s| - 1])
  {
    hide Digits, ScanNumber, DigitValue;
    var m := if n < 0 then -n else n;
    DigitsRead(m, 10);
    var d := Digits(m, 10);
    assert PlainDigit(d[|d| - 1], 10);
    if base == 10 {
      ScanDigits(d);
    } else if n < 0 {
      ScanMinusOctal(d);
    } else {
      ScanDigitsOctal(d);
    }
    if n < 0 {
      assert FormatDec(n) == "-" + d;
    }
  }

  /** The same in hexadecimal. */
  lemma HexScanned(n: int, base: nat)
    requires (base == 16 || base == 0) && 0 <= n < ULLONG_MOD
    ensures var s := FormatHex(n); var r := ScanNumber(s, base);
      s != [] && r.tail == |s| && r.Num() == n && r.magnitude == n && IsXDigit(s[|s| - 1])
  {
    hide Digits, ScanNumber, DigitValue;
    DigitsRead(n, 16);
    var d := Digits(n, 16);
    assert PlainDigit(d[|d| - 1], 16);
    if base == 16 {
      ScanHexDigits(d);
    } else {
      ScanHexOctal(d);
    }
    assert FormatHex(n) == "0x" + d;
  }

  lemma SpelledOperand(w: World, s: Sym, n: int)
    requires Spells(w, s, n)
    ensures ParseOperand(StringOf(w, s), Typ(w.t, s)) == if Typ(w.t, s) == Hex then Unsigned(n) else Signed(n)
  {
    hide ScanNumber, FormatDec, FormatHex, DigitValue;
    var y, str := Typ(w.t, s), StringOf(w, s);
    if str == FormatDec(n) && y != Hex {
      DecScanned(n, if y == Int then 10 else 0);
    } else {
      HexScanned(n, if y == Hex then 16 else 0);
    }
  }

  /** All six relations of a number a to a number b. */
  predicate ComparesAs(w: World, l: Sym, r: Sym, a: int, b: int) {
    && Eval(w, Comp(Equal, l, r)) == OfBool(a == b) && Eval(w, Comp(Unequal, l, r)) == OfBool(a != b)
    && Eval(w, Comp(Lth, l, r)) == OfBool(a < b) && Eval(w, Comp(Leq, l, r)) == OfBool(a <= b)
    && Eval(w, Comp(Gth, l, r)) == OfBool(a > b) && Eval(w, Comp(Geq, l, r)) == OfBool(a >= b)
  }

  /** Two numbers compare as what they spell; next to a hexadecimal one a negative
      number counts as its two's complement. */
  lemma NumbersCompare(w: World, l: Sym, r: Sym, a: int, b: int)
    requires Spells(w, l, a) && Spells(w, r, b) && !(Typ(w.t, l) == Str && Typ(w.t, r) == Str)
    ensures Typ(w.t, l) != Hex && Typ(w.t, r) != Hex ==> ComparesAs(w, l, r, a, b)
    ensures a >= 0 && b >= 0 ==> ComparesAs(w, l, r, a, b)
    ensures Typ(w.t, l) == Hex || Typ(w.t, r) == Hex ==>
      ComparesAs(w, l, r, if a < 0 then a + ULLONG_MOD else a, if b < 0 then b + ULLONG_MOD else b)
  {
    hide ParseOperand, StringOf, FormatDec, FormatHex;
    SpelledOperand(w, l, a);
    SpelledOperand(w, r, b);
    Complement(a);
    Complement(b);
  }

  lemma Complement(n: int)
    requires -ULLONG_MOD <= n < ULLONG_MOD
    ensures n % ULLONG_MOD == if n < 0 then n + ULLONG_MOD else n
  {
  }

  // ----- texts -----

  /** a comes before b: at the first character they differ in, or because it ends
      there. */
  predicate TextBefore(a: string, b: string) {
    exists k: nat :: k <= |a| && k < |b| && a[..k] == b[..k] && (k == |a| || a[k] < b[k])
  }

  lemma {:induction false} CompareTextMeans(a: string, b: string)
    ensures CompareText(a, b) < 0 <==> TextBefore(a, b)
    ensures CompareText(a, b) > 0 <==> TextBefore(b, a)
    ensures CompareText(a, b) == 0 <==> a == b
  {
    CompareTextZero(a, b);
    CompareTextLess(a, b);
    CompareTextLess(b, a);
    CompareTextTurns(a, b);
  }

  lemma {:induction false} CompareTextTurns(a: string, b: string)
    ensures CompareText(a, b) > 0 <==> CompareText(b, a) < 0
  {
    if a != [] && b != [] && a[0] == b[0] {
      CompareTextTurns(a[1..], b[1..]);
    }
  }

  lemma {:induction false} CompareTextLess(a: string, b: string)
    ensures CompareText(a, b) < 0 <==> TextBefore(a, b)
  {
    if b == [] {
    } else if a == [] {
      assert a[..0] == b[..0];
    } else if a[0] != b[0] {
      if a[0] < b[0] {
        assert a[..0] == b[..0];
      }
      FirstDiffers(a, b);
    } else {
      CompareTextLess(a[1..], b[1..]);
      TextBeforeStep(a, b);
    }
  }

  lemma FirstDiffers(a: string, b: string)
    requires a != [] && b != [] && a[0] != b[0]
    ensures TextBefore(a, b) ==> a[0] < b[0]
  {
    forall k: nat | 0 < k <= |a| && k <= |b|
      ensures a[..k] != b[..k]
    {
      assert a[..k][0] != b[..k][0];
    }
  }

  lemma TextBeforeStep(a: string, b: string)
    requires a != [] && b != [] && a[0] == b[0]
    ensures TextBefore(a, b) <==> TextBefore(a[1..], b[1..])
  {
    var x, y := a[1..], b[1..];
    if k: nat :| k <= |x| && k < |y| && x[..k] == y[..k] && (k == |x| || x[k] < y[k]) {
      assert a[..k + 1] == [a[0]] + x[..k] && b[..k + 1] == [b[0]] + y[..k];
      assert k + 1 <= |a| && k + 1 < |b| && a[..k + 1] == b[..k + 1] && (k + 1 == |a| || a[k + 1] < b[k + 1]);
    }
    if k: nat :| k <= |a| && k < |b| && a[..k] == b[..k] && (k == |a| || a[k] < b[k]) {
      assert k > 0;
      assert x[..k - 1] == a[..k][1..] && y[..k - 1] == b[..k][1..];
    }
  }

  /** A text no number can be read from to its end: empty, not ending in a hexadecimal
      digit, or not beginning like a number. */
  predicate NoNumber(str: string) {
    || str == [] || !IsXDigit(str[|str| - 1])
    || (!IsSpace(str[0]) && str[0] != '-' && str[0] != '+' && !IsXDigit(str[0]))
  }

  /** s is read as text. */
  ghost predicate ReadAsText(w: World, s: Sym) {
    || IsLogical(Typ(w.t, s))
    || (Typ(w.t, s) != Other && NoNumber(StringOf(w, s)))
    || (Typ(w.t, s) == Int && exists n :: StringOf(w, s) == FormatDec(n) && !IsLongLong(n))
  }

  lemma TextOperand(w: World, s: Sym)
    requires ReadAsText(w, s)
    ensures ParseOperand(StringOf(w, s), Typ(w.t, s)) == Text
  {
    hide FormatDec, StringOf;
    if !IsLogical(Typ(w.t, s)) && !NoNumber(StringOf(w, s)) {
      hide ScanNumber;
      var n :| StringOf(w, s) == FormatDec(n) && !IsLongLong(n);
      DecScanned(n, 10);
    }
  }

  /** Two strings compare as texts, and so does anything with what is read as text: by
      the first character they differ in. */
  lemma TextsCompare(w: World, l: Sym, r: Sym)
    requires (Typ(w.t, l) == Str && Typ(w.t, r) == Str) || ReadAsText(w, l) || ReadAsText(w, r)
    ensures var a, b := StringOf(w, l), StringOf(w, r);
      && Eval(w, Comp(Equal, l, r)) == OfBool(a == b) && Eval(w, Comp(Unequal, l, r)) == OfBool(a != b)
      && Eval(w, Comp(Lth, l, r)) == OfBool(TextBefore(a, b)) && Eval(w, Comp(Gth, l, r)) == OfBool(TextBefore(b, a))
      && Eval(w, Comp(Leq, l, r)) == OfBool(!TextBefore(b, a)) && Eval(w, Comp(Geq, l, r)) == OfBool(!TextBefore(a, b))
  {
    hide ParseOperand, StringOf, CompareText, TextBefore, ReadAsText;
    if ReadAsText(w, l) {
      TextOperand(w, l);
    }
    if ReadAsText(w, r) {
      TextOperand(w, r);
    }
    CompareTextMeans(StringOf(w, l), StringOf(w, r));
  }

  /** Symbols of no printable type are told apart by their strings and never ordered, unless
      the other one is read as text. */
  lemma OthersCompare(w: World, l: Sym, r: Sym)
    requires Typ(w.t, l) == Other && (Typ(w.t, r) == Other || exists n :: Spells(w, r, n))
    ensures var a, b := StringOf(w, l), StringOf(w, r);
      && Eval(w, Comp(Equal, l, r)) == OfBool(a == b) && Eval(w, Comp(Unequal, l, r)) == OfBool(a != b)
    ensures forall rel :: IsOrdering(rel) ==> Eval(w, Comp(rel, l, r)) == NO
  {
    hide StringOf, CompareText, FormatDec, FormatHex, ScanNumber;
    CompareTextZero(StringOf(w, l), StringOf(w, r));
    if Typ(w.t, r) != Other {
      var n :| Spells(w, r, n);
      SpelledOperand(w, r, n);
    }
  }

  /** A boolean or tristate symbol tested for y, m or n; m reads as n while modules are
      off. */
  lemma LogicalCompare(w: World, s: Sym, c: Sym)
    requires IsLogical(Typ(w.t, s)) && !IsLogical(Typ(w.t, c))
    ensures var off := TriOf(w, w.modules) == NO;
      var x := Eval(w, Comp(Equal, s, c));
      && (Val(w.v, c).str == "y" ==> x == OfBool(TriOf(w, s) == YES))
      && (Val(w.v, c).str == "m" ==> x == OfBool(TriOf(w, s) == MOD && !off))
      && (Val(w.v, c).str == "n" ==> x == OfBool(TriOf(w, s) == NO || (TriOf(w, s) == MOD && off)))
    ensures Eval(w, Comp(Unequal, s, c)) == TriNot(Eval(w, Comp(Equal, s, c)))
  {
    LogicalEquality(w, s, c);
  }

  // ----- numbers read by strtoll -----

  /** Digits above nine are letters, small or capital. */
  lemma DigitValues(d: nat)
    requires d < 16
    ensures DigitValue("0123456789abcdef"[d]) == d && DigitValue("0123456789ABCDEF"[d]) == d
  {
  }

  /** Without a base given, a leading zero means octal. */
  lemma OctalRead(d: string)
    requires d != [] && forall i :: 0 <= i < |d| ==> '0' <= d[i] <= '7'
    ensures ScanNumber("0" + d, 0) == Scan(false, Magnitude("0" + d, 8), |d| + 1)
  {
    hide Magnitude, DigitValue, DigitsEnd;
    var s := "0" + d;
    OctalDigits(d);
    assert s[1] == d[0] && s[0..|s|] == s;
    assert SkipSpaces(s, 0) == 0 && !HasHexPrefix(s, 0);
  }

  lemma OctalDigits(d: string)
    requires d != [] && forall i :: 0 <= i < |d| ==> '0' <= d[i] <= '7'
    ensures DigitsEnd("0" + d, 0, 8) == |d| + 1
  {
    var s := "0" + d;
    forall i | 0 <= i < |s|
      ensures DigitValue(s[i]) < 8
    {
      assert i > 0 ==> s[i] == d[i - 1];
    }
    DigitsEndAll(s, 0, 8);
  }

  /** The number a run of digits spells: each digit counts `base` times what the next does. */
  lemma MagnitudeMeans(s: string, c: char, base: nat)
    ensures Magnitude("", base) == 0 && Magnitude(s + [c], base) == base * Magnitude(s, base) + DigitValue(c)
  {
    hide DigitValue;
    MagnitudeMore(s, c, base);
  }

  lemma {:induction false} SkipSpacesTo(s: string, i: nat, k: nat)
    requires i <= k <= |s| && (forall j :: i <= j < k ==> IsSpace(s[j])) && (k < |s| ==> !IsSpace(s[k]))
    ensures SkipSpaces(s, i) == k
    decreases k - i
  {
    if i < k {
      SkipSpacesTo(s, i + 1, k);
    }
  }

  lemma {:induction false} DigitsEndTo(s: string, i: nat, k: nat, base: nat)
    requires i <= k <= |s| && (forall j :: i <= j < k ==> DigitValue(s[j]) < base)
    requires k < |s| ==> DigitValue(s[k]) >= base
    ensures DigitsEnd(s, i, base) == k
    decreases k - i
  {
    if i < k {
      DigitsEndTo(s, i + 1, k, base);
    }
  }

  lemma Concatenated(pad: string, sign: string, d: string, rest: string)
    requires d != [] && AllDigits(d, 10) && |sign| <= 1
    ensures var s := pad + sign + d + rest;
      && |pad| < |s| && s[|pad|] == (if sign == "" then d[0] else sign[0])
      && forall i :: 0 <= i < |pad| ==> s[i] == pad[i]
    ensures d[0] != '-' && d[0] != '+' && !IsSpace(d[0])
  {
    hide DigitValue;
    assert PlainDigit(d[0], 10);
  }

  /** A run of digits somewhere in a text. */
  lemma DigitsWithin(before: string, d: string, rest: string)
    requires d != [] && AllDigits(d, 10) && (rest == [] || !IsDigit(rest[0]))
    ensures var s := before + d + rest;
      DigitsEnd(s, |before|, 10) == |before| + |d| && s[|before|..|before| + |d|] == d
  {
    hide DigitValue;
    var s := before + d + rest;
    forall j | |before| <= j < |before| + |d|
      ensures DigitValue(s[j]) < 10
    {
      assert s[j] == d[j - |before|];
      assert PlainDigit(d[j - |before|], 10);
    }
    if rest != [] {
      assert s[|before| + |d|] == rest[0];
      NoDigit(rest[0]);
    }
    DigitsEndTo(s, |before|, |before| + |d|, 10);
  }

  lemma NoDigit(c: char)
    requires !IsDigit(c)
    ensures DigitValue(c) >= 10
  {
  }

  lemma ScanFrom(s: string, i: nat, j: nat, k: nat)
    requires i < |s| && SkipSpaces(s, 0) == i && j == (if s[i] == '-' then i + 1 else i) && s[i] != '+'
    requires j < k <= |s| && DigitsEnd(s, j, 10) == k
    ensures ScanNumber(s, 10) == Scan(s[i] == '-', Magnitude(s[j..k], 10), k)
  {
    hide Magnitude, DigitValue, DigitsEnd, SkipSpaces;
  }

  lemma ScanWithin(pad: string, d: string, rest: string, minus: bool)
    requires forall i :: 0 <= i < |pad| ==> IsSpace(pad[i])
    requires d != [] && AllDigits(d, 10) && (rest == [] || !IsDigit(rest[0]))
    ensures var sign := if minus then "-" else "";
      ScanNumber(pad + sign + d + rest, 10) == Scan(minus, Magnitude(d, 10), |pad| + |sign| + |d|)
  {
    hide Magnitude, DigitValue, DigitsEnd, ScanNumber, SkipSpaces, AllDigits, PlainDigit, IsDigit;
    var sign := if minus then "-" else "";
    var s := pad + sign + d + rest;
    Concatenated(pad, sign, d, rest);
    SkipSpacesTo(s, 0, |pad|);
    DigitsWithin(pad + sign, d, rest);
    ScanFrom(s, |pad|, |pad| + |sign|, |pad| + |sign| + |d|);
  }

  /** strtoll skips white space, reads digits up to the first character that is none, and
      stays within its type. */
  lemma StrtollMeans(pad: string, n: int, rest: string)
    requires forall i :: 0 <= i < |pad| ==> pad[i] == ' ' || '\t' <= pad[i] <= '\r'
    requires rest == [] || !('0' <= rest[0] <= '9')
    ensures Strtoll(pad + FormatDec(n) + rest, 10) ==
            if n < -0x8000_0000_0000_0000 then -0x8000_0000_0000_0000
            else if n > 0x7fff_ffff_ffff_ffff then 0x7fff_ffff_ffff_ffff
            else n
  {
    hide ScanNumber, Digits;
    var m := if n < 0 then -n else n;
    DigitsRead(m, 10);
    var d := Digits(m, 10);
    ScanWithin(pad, d, rest, n < 0);
    if n < 0 {
      assert pad + ("-" + d) == pad + "-" + d;
    } else {
      assert pad + d == pad + "" + d;
    }
  }
}
