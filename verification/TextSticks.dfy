/** Setting the value of a string, int or hex symbol (symbol.c:608-697): what is
    accepted is what the next evaluation computes. */
module TextValues {
  import opened Tristates
  import opened NumText
  import opened Exprs
  import opened SymbolEquations
  import opened Layering
  import opened Solutions
  import opened Choices
  import opened UserValues
  import opened ConfText
  import opened Ranges
  import opened Saving
  import opened ValueRules

  predicate HasPrefix(s: string) {
    |s| >= 2 && s[0] == '0' && (s[1] == 'x' || s[1] == 'X')
  }

  /** sym_string_within_range. */
  predicate StringWithinRange(tab: Table, v: Values, s: Sym, text: string) {
    var y := Typ(tab.t, s);
    StringValid(y, text) &&
    (y == Int || y == Hex ==>
      var rs := Def(tab, s).ranges;
      var k := FirstRange(tab, v, rs, 0);
      var base := BaseOf(y, 0);
      k < |rs| ==> RangeVal(tab, v, rs[k].lo, base) <= Strtoll(text, base) <= RangeVal(tab, v, rs[k].hi, base))
  }

  /** The text sym_set_string_value keeps: a hex number gets its "0x". */
  function Kept(y: SymType, text: string): string {
    if y == Hex && !HasPrefix(text) then "0x" + text else text
  }

  /** The user's values after sym_set_string_value accepted `text` for s. */
  function AcceptString(tab: Table, u: Users, s: Sym, text: string): Users {
    Users(u.has + {s}, Put(u.val, s, Val(u.val, s).(str := Kept(Typ(tab.t, s), text))))
  }

  lemma PlainHex(text: string)
    requires IsHexText(text) && !HasPrefix(text)
    ensures AllDigits(text, 16) && text != []
  {
    forall i | 0 <= i < |text|
      ensures PlainDigit(text[i], 16)
    {
      assert IsXDigit(text[i]);
    }
  }

  /** The prefix changes neither the number nor its validity. */
  lemma PrefixNeutral(text: string)
    requires IsHexText(text) && !HasPrefix(text)
    ensures Strtoll("0x" + text, 16) == Strtoll(text, 16) && IsHexText("0x" + text)
  {
    hide DigitValue, PlainDigit, Magnitude;
    PlainHex(text);
    ScanHexDigits(text);
    ScanPlainHex(text);
    HexText(text);
  }

  lemma ScanPlainHex(s: string)
    requires s != [] && AllDigits(s, 16) && !HasPrefix(s)
    ensures ScanNumber(s, 16) == Scan(false, Magnitude(s, 16), |s|)
  {
    hide Magnitude, DigitValue;
    assert PlainDigit(s[0], 16);
    forall k | 0 <= k < |s|
      ensures DigitValue(s[k]) < 16
    {
      assert PlainDigit(s[k], 16);
    }
    DigitsEndAll(s, 0, 16);
    assert s[0..|s|] == s;
  }

  lemma KeptWithinRange(tab: Table, v: Values, s: Sym, text: string)
    requires IsTextual(Typ(tab.t, s)) && StringWithinRange(tab, v, s, text)
    ensures StringWithinRange(tab, v, s, Kept(Typ(tab.t, s), text))
  {
    hide Strtoll, FirstRange, IsIntText, IsHexText;
    if Typ(tab.t, s) == Hex && !HasPrefix(text) {
      PrefixNeutral(text);
    }
  }

  /** A text within range is not moved. */
  lemma WithinRangeStays(tab: Table, v: Values, s: Sym, text: string)
    requires IsTextual(Typ(tab.t, s)) && StringWithinRange(tab, v, s, text)
    ensures Validated(tab, v, s, text) == text
  {
    hide Strtoll, FirstRange, StringValid;
  }

  /** An accepted text sticks: if the symbol is visible, the next evaluation
      computes exactly the text that was kept. */
  lemma AcceptedTextSticks(tab: Table, rank: Rank, u: Users, v: Values, v': Values, s: Sym, text: string)
    requires Layered(tab, rank) && PicksMember(tab, u) && s < |tab.t| && IsTextual(Typ(tab.t, s)) && |u.val| == |tab.t|
    requires IsSolution(tab, u, v) && IsSolution(tab, AcceptString(tab, u, s, text), v')
    requires StringWithinRange(tab, v, s, text) && Shown(tab, v, s)
    ensures v'[s].str == Kept(Typ(tab.t, s), text)
  {
    hide SameUser, PicksMember, Visibility, RevTri, Layered, StringWithinRange, Validated, IsSolution;
    KeptWithinRange(tab, v, s, text);
    WithinRangeStays(tab, v, s, Kept(Typ(tab.t, s), text));
    NextText(tab, rank, u, v, v', s, text);
  }

  // ----- what is refused -----

  /** A valid hexadecimal text is not negative, with or without its prefix. */
  lemma KeptReads(y: SymType, text: string)
    requires (y == Int || y == Hex) && StringValid(y, text)
    ensures Strtoll(Kept(y, text), BaseOf(y, 0)) == Strtoll(text, BaseOf(y, 0))
    ensures y == Hex ==> Strtoll(text, 16) >= 0
  {
    hide Magnitude, DigitValue, Strtoll;
    if y == Hex {
      HexNotNegative(text);
      if !HasPrefix(text) {
        PrefixNeutral(text);
      }
    }
  }

  lemma HexNotNegative(text: string)
    requires IsHexText(text)
    ensures Strtoll(text, 16) >= 0
  {
    hide Magnitude, DigitsEnd;
    if !HasPrefix(text) {
      PlainHex(text);
      assert PlainDigit(text[0], 16);
    }
    assert SkipSpaces(text, 0) == 0;
  }

  /** A bound is shown in place of a number outside the range; it is spelled like the number
      only if the bound is negative and hexadecimal. */
  lemma OutsideMoves(y: SymType, text: string, lo: int, hi: int)
    requires (y == Int || y == Hex) && StringValid(y, text) && IsLongLong(lo) && IsLongLong(hi)
    ensures var n := Strtoll(text, BaseOf(y, 0));
      Clamp(y, Kept(y, text), lo, hi) == Kept(y, text) <==>
        lo <= n <= hi || (y == Hex && lo <= n && hi < 0 && Kept(y, text) == FormatHex(hi))
  {
    hide Strtoll, StringValid, FormatDec, FormatHex, Kept;
    KeptReads(y, text);
    FormatReadsBack(y, lo);
    FormatReadsBack(y, hi);
  }

  /** The range that applies to s ends below zero, s is hexadecimal, and `text` spells that
      end in two's complement. */
  ghost predicate SpellsNegativeEnd(tab: Table, v: Values, s: Sym, text: string) {
    Typ(tab.t, s) == Hex &&
    exists i: nat :: AppliesRange(tab, v, s, i) &&
      var r := Def(tab, s).ranges[i];
      && RangeVal(tab, v, r.lo, 16) <= Strtoll(text, 16)
      && RangeVal(tab, v, r.hi, 16) < 0
      && Kept(Hex, text) == FormatHex(RangeVal(tab, v, r.hi, 16))
  }

  /** s is hexadecimal and the range that applies to it ends below zero. */
  ghost predicate EndsBelowZero(tab: Table, v: Values, s: Sym) {
    Typ(tab.t, s) == Hex &&
    exists i: nat :: AppliesRange(tab, v, s, i) && RangeVal(tab, v, Def(tab, s).ranges[i].hi, 16) < 0
  }

  /** A valid text keeps its place if and only if it is within range, or spells a negative
      end of a hexadecimal range. */
  lemma StaysExactly(tab: Table, v: Values, s: Sym, text: string)
    requires IsTextual(Typ(tab.t, s)) && StringValid(Typ(tab.t, s), text)
    ensures var kept := Kept(Typ(tab.t, s), text);
      Validated(tab, v, s, kept) == kept <==>
        StringWithinRange(tab, v, s, text) || SpellsNegativeEnd(tab, v, s, text)
  {
    hide Strtoll, FirstRange, StringValid, Clamp, Kept, AppliesRange, FormatHex;
    var y, rs := Typ(tab.t, s), Def(tab, s).ranges;
    var k := FirstRange(tab, v, rs, 0);
    AppliesFirst(tab, v, s);
    if y != Str && k < |rs| {
      var lo, hi := RangeVal(tab, v, rs[k].lo, BaseOf(y, 0)), RangeVal(tab, v, rs[k].hi, BaseOf(y, 0));
      StrtollRange(Val(v, rs[k].lo).str, BaseOf(Typ(tab.t, rs[k].lo), BaseOf(y, 0)));
      StrtollRange(Val(v, rs[k].hi).str, BaseOf(Typ(tab.t, rs[k].hi), BaseOf(y, 0)));
      OutsideMoves(y, text, lo, hi);
    }
  }

  /** A valid text of a visible symbol is what the next evaluation computes if and only if it
      is within range, or spells a negative end of a hexadecimal range. */
  lemma AcceptedTextExactly(tab: Table, rank: Rank, u: Users, v: Values, v': Values, s: Sym, text: string)
    requires Layered(tab, rank) && PicksMember(tab, u) && s < |tab.t| && IsTextual(Typ(tab.t, s)) && |u.val| == |tab.t|
    requires IsSolution(tab, u, v) && IsSolution(tab, AcceptString(tab, u, s, text), v')
    requires StringValid(Typ(tab.t, s), text) && Shown(tab, v, s)
    ensures s < |v'|
    ensures v'[s].str == Kept(Typ(tab.t, s), text) <==>
      StringWithinRange(tab, v, s, text) || SpellsNegativeEnd(tab, v, s, text)
    ensures !EndsBelowZero(tab, v, s) ==>
      (v'[s].str == Kept(Typ(tab.t, s), text) <==> StringWithinRange(tab, v, s, text))
  {
    hide SameUser, PicksMember, Visibility, RevTri, Layered, SameBelow, StringWithinRange, Validated, DefaultStr,
         Compute, IsSolution, AppliesRange, StringValid, RangeVal, Strtoll;
    StaysExactly(tab, v, s, text);
    NextText(tab, rank, u, v, v', s, text);
  }

  /** Such a text at work: all sixteen digits f, in the hexadecimal range from -2 to -1, read
      as too large a number and are refused, but moved into the range they are what they were. */
  lemma NegativeEndShown()
    ensures var text := FormatHex(-1);
      && StringValid(Hex, text) && !(-2 <= Strtoll(text, 16) <= -1)
      && Kept(Hex, text) == text && Clamp(Hex, Kept(Hex, text), -2, -1) == Kept(Hex, text)
  {
    hide Strtoll, IsHexText, Digits;
    FormatReadsBack(Hex, -1);
    OutsideMoves(Hex, FormatHex(-1), -2, -1);
  }

  /** The next evaluation shows the stored text, moved into the range as it is now. */
  lemma NextText(tab: Table, rank: Rank, u: Users, v: Values, v': Values, s: Sym, text: string)
    requires Layered(tab, rank) && PicksMember(tab, u) && s < |tab.t| && IsTextual(Typ(tab.t, s)) && |u.val| == |tab.t|
    requires IsSolution(tab, u, v) && IsSolution(tab, AcceptString(tab, u, s, text), v') && Shown(tab, v, s)
    ensures s < |v'| && v'[s].str == Validated(tab, v, s, Kept(Typ(tab.t, s), text))
  {
    hide SameUser, PicksMember, Visibility, RevTri, Layered, SameBelow, Validated, DefaultStr, Compute, IsSolution;
    var u' := AcceptString(tab, u, s, text);
    forall x: Sym | rank(x) < rank(s)
      ensures SameUser(u, u', x)
    {
      AcceptStringElsewhere(tab, u, s, text, x);
    }
    SettingKeepsInputs(tab, rank, u, u', v, v', s);
    VisibleBoolean(tab, v, v', s);
    RangesOfLayered(tab, rank, s);
    ValidatedCongruent(tab, rank, v, v', s, Kept(Typ(tab.t, s), text));
    SolutionSurvives(tab, u', v', s) by { SolutionLength(tab, u', v'); }
    TextValue(tab, u', v', s);
    SolutionLength(tab, u', v');
  }

  lemma AcceptStringElsewhere(tab: Table, u: Users, s: Sym, text: string, x: Sym)
    requires x != s
    ensures SameUser(u, AcceptString(tab, u, s, text), x)
  {
  }

  /** Unless it is a tristate, the visibility of a symbol does not depend on
      modules. */
  lemma VisibleBoolean(tab: Table, v: Values, v': Values, s: Sym)
    requires IsTextual(Typ(tab.t, s))
    requires Visibility(tab, ModulesIn(tab, v'), v', s) == Visibility(tab, ModulesIn(tab, v), v, s)
    ensures Vis(tab, v', s) == Vis(tab, v, s) && (Shown(tab, v, s) <==> Vis(tab, v, s) != NO)
  {
  }

  lemma RangesOfLayered(tab: Table, rank: Rank, s: Sym)
    requires Layered(tab, rank) && s < |tab.t| && IsTyped(Typ(tab.t, s))
    ensures RangesBelow(tab, rank, s)
  {
    assert SymbolLayered(tab, rank, s);
  }
}
