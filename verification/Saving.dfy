/** What becomes of a symbol's value when the user's values are replaced by
    those a saved configuration would restore (symbol.c:327-485, 706-771,
    confdata.c:668-739). */
module Saving {
  import opened Tristates
  import opened NumText
  import opened Exprs
  import opened SymbolEquations
  import opened ConfText
  import opened Ranges

  const NO_USERS: Users := Users({}, [])

  function Vis(tab: Table, v: Values, s: Sym): Tri {
    Visibility(tab, Val(v, tab.modules).tri, v, s)
  }

  function Rev(tab: Table, v: Values, s: Sym): Tri {
    RevTri(tab, Val(v, tab.modules).tri, v, s)
  }

  /** The user u gives s the value it has in v. */
  predicate Offers(tab: Table, u: Users, v: Values, s: Sym) {
    && s in u.has
    && (if IsLogical(Typ(tab.t, s)) then Val(u.val, s).tri == Val(v, s).tri else Val(u.val, s).str == Val(v, s).str)
  }

  /** s computes, for the user u, to what it is in v. */
  predicate Survives(tab: Table, u: Users, v: Values, s: Sym) {
    Compute(tab, u, Val(v, tab.modules).tri, v, s) == Val(v, s)
  }

  /** A symbol that is neither a choice nor a value of one. */
  predicate Plain(tab: Table, s: Sym) {
    !Def(tab, s).isChoice && Def(tab, s).choiceOf.None?
  }

  lemma ChoiceFreeAt(tab: Table, s: Sym)
    requires ChoiceFree(tab)
    ensures Plain(tab, s)
  {
  }

  // ----- the default of a symbol -----

  /** sym_get_string_default, for a symbol that is not a choice value. */
  function StringDefault(tab: Table, v: Values, s: Sym): string {
    var y := Typ(tab.t, s);
    var x := TriOr(DefaultTri(tab, v, s), Rev(tab, v, s));
    if IsLogical(y) then
      Spell(if x == MOD && (Val(v, tab.modules).tri == NO || y == Boolean) then YES else x)
    else if IsTextual(y) then DefaultStr(tab, v, s)
    else ""
  }

  /** sym_get_string_default agrees with evaluation without a user value, up to
      the range. */
  lemma StringDefaultAgrees(tab: Table, v: Values, s: Sym)
    requires Plain(tab, s) && IsTyped(Typ(tab.t, s))
    ensures var x := Compute(tab, NO_USERS, Val(v, tab.modules).tri, v, s);
      (if IsLogical(Typ(tab.t, s)) then Spell(x.tri) else x.str) == Validated(tab, v, s, StringDefault(tab, v, s))
  {
    hide Visibility, RevTri, DefaultTri, DefaultStr, Clamp, FirstRange;
  }

  // ----- one symbol at a time -----

  /** What cannot be seen does not depend on the user. */
  lemma InvisibleSurvives(tab: Table, u: Users, u': Users, v: Values, s: Sym)
    requires Plain(tab, s) && (IsTyped(Typ(tab.t, s)) ==> Vis(tab, v, s) == NO)
    requires Survives(tab, u, v, s)
    ensures Survives(tab, u', v, s)
  {
    hide Visibility, RevTri, DefaultTri, DefaultStr, Validated;
  }

  /** Without a user value a symbol computes to its default. */
  lemma UnsetSurvives(tab: Table, u: Users, v: Values, s: Sym)
    requires Plain(tab, s) && s !in u.has
    ensures Survives(tab, u, v, s) <==> Survives(tab, NO_USERS, v, s)
  {
    hide Visibility, RevTri, DefaultTri, DefaultStr, Validated;
  }

  /** A visible boolean or tristate symbol set to its own value keeps it if and
      only if the value exceeds neither the visibility nor the selects. */
  lemma OfferedTriSurvives(tab: Table, u: Users, u': Users, v: Values, s: Sym)
    requires Plain(tab, s) && IsLogical(Typ(tab.t, s)) && Vis(tab, v, s) != NO
    requires Survives(tab, u, v, s) && Offers(tab, u', v, s)
    ensures Survives(tab, u', v, s) <==> Val(v, s).tri <= TriOr(Vis(tab, v, s), Rev(tab, v, s))
  {
    hide PromptsTri, RevTri, DefaultTri;
  }

  /** The text a textual symbol starts from. */
  function BaseStr(tab: Table, u: Users, v: Values, s: Sym): string {
    if Vis(tab, v, s) != NO && s in u.has then Val(u.val, s).str else DefaultStr(tab, v, s)
  }

  /** The active range of s, if any, settles the text s starts from. */
  predicate RangeSettles(tab: Table, u: Users, v: Values, s: Sym) {
    SettlesIn(tab, v, s, BaseStr(tab, u, v, s))
  }

  predicate SettlesIn(tab: Table, v: Values, s: Sym, str: string) {
    var y := Typ(tab.t, s);
    var rs := Def(tab, s).ranges;
    var k := FirstRange(tab, v, rs, 0);
    y in {Int, Hex} && k < |rs| ==>
      Settles(y, str, RangeVal(tab, v, rs[k].lo, BaseOf(y, 0)), RangeVal(tab, v, rs[k].hi, BaseOf(y, 0)))
  }

  /** The active range of s, if any, is not empty, and if s is hexadecimal has no
      negative bound. */
  predicate RangeOpen(tab: Table, v: Values, s: Sym) {
    var y := Typ(tab.t, s);
    var rs := Def(tab, s).ranges;
    var k := FirstRange(tab, v, rs, 0);
    y in {Int, Hex} && k < |rs| ==>
      var lo, hi := RangeVal(tab, v, rs[k].lo, BaseOf(y, 0)), RangeVal(tab, v, rs[k].hi, BaseOf(y, 0));
      lo <= hi && (y == Hex ==> lo >= 0)
  }

  lemma OpenSettles(tab: Table, u: Users, v: Values, s: Sym)
    requires RangeOpen(tab, v, s)
    ensures RangeSettles(tab, u, v, s)
  {
    hide FirstRange, RangeVal, BaseStr, Strtoll;
  }

  lemma ValidatedTwice(tab: Table, v: Values, s: Sym, str: string)
    ensures Validated(tab, v, s, Validated(tab, v, s, str)) == Validated(tab, v, s, str) <==> SettlesIn(tab, v, s, str)
    ensures Typ(tab.t, s) in {Int, Hex} ==>
      || StringValid(Typ(tab.t, s), Validated(tab, v, s, str))
      || (!StringValid(Typ(tab.t, s), str) && Validated(tab, v, s, str) == str && SettlesIn(tab, v, s, str))
  {
    hide Clamp, FirstRange, Strtoll, StringValid, Settles;
    var y := Typ(tab.t, s);
    var rs := Def(tab, s).ranges;
    var k := FirstRange(tab, v, rs, 0);
    if (y == Int || y == Hex) && k < |rs| {
      var lo, hi := RangeVal(tab, v, rs[k].lo, BaseOf(y, 0)), RangeVal(tab, v, rs[k].hi, BaseOf(y, 0));
      StrtollRange(Val(v, rs[k].lo).str, BaseOf(Typ(tab.t, rs[k].lo), BaseOf(y, 0)));
      StrtollRange(Val(v, rs[k].hi).str, BaseOf(Typ(tab.t, rs[k].hi), BaseOf(y, 0)));
      ClampTwice(y, str, lo, hi);
      ClampValid(y, str, lo, hi);
    }
  }

  lemma TextValue(tab: Table, u: Users, v: Values, s: Sym)
    requires IsTextual(Typ(tab.t, s))
    ensures Survives(tab, u, v, s) <==> Val(v, s) == Value(NO, Validated(tab, v, s, BaseStr(tab, u, v, s)), None)
  {
    hide Visibility, DefaultStr, Validated;
  }

  /** A visible string, int or hex symbol set to its own value keeps it if and
      only if its range settles what it was adjusted from. */
  lemma OfferedTextSurvives(tab: Table, u: Users, u': Users, v: Values, s: Sym)
    requires IsTextual(Typ(tab.t, s)) && Vis(tab, v, s) != NO
    requires Survives(tab, u, v, s) && Offers(tab, u', v, s)
    ensures Survives(tab, u', v, s) <==> RangeSettles(tab, u, v, s)
  {
    hide Visibility, DefaultStr, Validated, SettlesIn, Survives;
    TextValue(tab, u, v, s);
    TextValue(tab, u', v, s);
    ValidatedTwice(tab, v, s, BaseStr(tab, u, v, s));
  }

  /** A value whose text would be refused was not the user's: it survives unset. */
  lemma InvalidTextSurvives(tab: Table, u: Users, u': Users, v: Values, s: Sym)
    requires Typ(tab.t, s) in {Int, Hex}
    requires s in u.has ==> StringValid(Typ(tab.t, s), Val(u.val, s).str)
    requires Survives(tab, u, v, s) && s !in u'.has && !StringValid(Typ(tab.t, s), Val(v, s).str)
    ensures Survives(tab, u', v, s) && RangeSettles(tab, u, v, s)
  {
    hide Visibility, DefaultStr, Validated, SettlesIn, Survives, StringValid;
    TextValue(tab, u, v, s);
    TextValue(tab, u', v, s);
    ValidatedTwice(tab, v, s, BaseStr(tab, u, v, s));
  }

  /** A boolean or tristate symbol the user sets to n is what the selects say. */
  lemma BlankedSurvives(tab: Table, u: Users, u': Users, v: Values, s: Sym)
    requires Plain(tab, s) && IsLogical(Typ(tab.t, s)) && Vis(tab, v, s) != NO
    requires Survives(tab, u, v, s) && s in u'.has && Val(u'.val, s).tri == NO
    ensures Survives(tab, u', v, s) <==> Val(v, s).tri == Rev(tab, v, s)
  {
    hide PromptsTri, DefaultTri, Eval;
  }

  // ----- whole configurations -----

  /** A value the reader accepts back. */
  predicate Storable(tab: Table, v: Values, s: Sym) {
    IsLogical(Typ(tab.t, s)) || StringValid(Typ(tab.t, s), Val(v, s).str)
  }

  predicate RestoredAt(tab: Table, v: Values, printed: set<Sym>, blanked: set<Sym>, u: Users, s: Sym) {
    if s in blanked then IsLogical(Typ(tab.t, s)) && s in u.has && Val(u.val, s).tri == NO
    else if s in printed && Storable(tab, v, s) then Offers(tab, u, v, s)
    else s !in u.has
  }

  /** Numbers the user entered are numbers, as every way of setting one checks. */
  ghost predicate UsersValid(tab: Table, u: Users) {
    forall s: Sym :: s in u.has && Typ(tab.t, s) in {Int, Hex} ==> StringValid(Typ(tab.t, s), Val(u.val, s).str)
  }

  /** s is what it would be if the user had never set it. */
  predicate HasDefault(tab: Table, v: Values, s: Sym) {
    StringOf(W(tab, v), s) == Validated(tab, v, s, StringDefault(tab, v, s))
  }

  /** Environment symbols, where visible, are what they would be without a user. */
  ghost predicate AutoDefaults(tab: Table, v: Values) {
    forall s: Sym :: s < |tab.t| && Def(tab, s).auto && Plain(tab, s) && Vis(tab, v, s) != NO ==> HasDefault(tab, v, s)
  }

  /** The value of s, if visible, is within reach of what a full save leaves of
      it: an environment symbol has no line, a symbol in `blanked` reads n in the
      end, and any other one has a line of its own. */
  predicate FullKeeps(tab: Table, u: Users, v: Values, blanked: set<Sym>, s: Sym) {
    IsTyped(Typ(tab.t, s)) && Vis(tab, v, s) != NO ==>
      if s in blanked then Val(v, s).tri == Rev(tab, v, s)
      else if Def(tab, s).auto then HasDefault(tab, v, s)
      else if IsLogical(Typ(tab.t, s)) then Val(v, s).tri <= TriOr(Vis(tab, v, s), Rev(tab, v, s))
      else RangeSettles(tab, u, v, s)
  }

  lemma FullSurvives(tab: Table, u: Users, u': Users, v: Values, printed: set<Sym>, blanked: set<Sym>, s: Sym)
    requires Plain(tab, s) && UsersValid(tab, u)
    requires Survives(tab, u, v, s) && RestoredAt(tab, v, printed, blanked, u', s)
    requires IsTyped(Typ(tab.t, s)) && (Vis(tab, v, s) != NO ==> (s in printed <==> !Def(tab, s).auto))
    ensures Survives(tab, u', v, s) <==> FullKeeps(tab, u, v, blanked, s)
  {
    hide Vis, Rev, Survives, RangeSettles, StringValid, Plain, HasDefault;
    if Vis(tab, v, s) == NO {
      InvisibleSurvives(tab, u, u', v, s);
    } else if s in blanked {
      BlankedSurvives(tab, u, u', v, s);
    } else if Def(tab, s).auto {
      UnsetKeeps(tab, u, u', v, s);
    } else {
      LineSurvives(tab, u, u', v, printed, blanked, s);
    }
  }

  /** A visible symbol with a line of its own. */
  lemma LineSurvives(tab: Table, u: Users, u': Users, v: Values, printed: set<Sym>, blanked: set<Sym>, s: Sym)
    requires Plain(tab, s) && UsersValid(tab, u) && IsTyped(Typ(tab.t, s)) && Vis(tab, v, s) != NO
    requires Survives(tab, u, v, s) && RestoredAt(tab, v, printed, blanked, u', s) && s in printed && s !in blanked
    ensures Survives(tab, u', v, s) <==>
      if IsLogical(Typ(tab.t, s)) then Val(v, s).tri <= TriOr(Vis(tab, v, s), Rev(tab, v, s))
      else RangeSettles(tab, u, v, s)
  {
    hide Vis, Rev, Survives, RangeSettles, StringValid, Plain;
    if IsLogical(Typ(tab.t, s)) {
      OfferedTriSurvives(tab, u, u', v, s);
    } else if Storable(tab, v, s) {
      OfferedTextSurvives(tab, u, u', v, s);
    } else {
      AnyStringIfString(tab, v, s);
      InvalidTextSurvives(tab, u, u', v, s);
    }
  }

  lemma AnyStringIfString(tab: Table, v: Values, s: Sym)
    requires IsTextual(Typ(tab.t, s)) && !StringValid(Typ(tab.t, s), Val(v, s).str)
    ensures Typ(tab.t, s) in {Int, Hex}
  {
  }

  lemma SolutionSurvives(tab: Table, u: Users, v: Values, s: Sym)
    requires IsSolution(tab, u, v) && s < |tab.t|
    ensures Survives(tab, u, v, s)
  {
    hide Compute;
  }

  lemma UntypedSurvives(tab: Table, u: Users, u': Users, v: Values, blanked: set<Sym>, s: Sym)
    requires !IsTyped(Typ(tab.t, s)) && Survives(tab, u, v, s)
    ensures Survives(tab, u', v, s) && FullKeeps(tab, u, v, blanked, s) && MinimalKeeps(tab, u, v, s)
  {
  }

  lemma SolutionIfSurvives(tab: Table, u: Users, v: Values)
    requires |v| == |tab.t|
    ensures IsSolution(tab, u, v) <==> forall s: Sym :: s < |tab.t| ==> Survives(tab, u, v, s)
  {
    hide Compute;
    forall s: Sym | s < |tab.t|
      ensures Survives(tab, u, v, s) <==> v[s] == Compute(tab, u, Val(v, tab.modules).tri, v, s)
    {
    }
  }

  // ----- minimal configurations -----

  /** A written symbol a minimal save still leaves out: it cannot be changed
      (sym_is_changable), or has its default anyway. */
  predicate MinimalPrints(tab: Table, v: Values, s: Sym) {
    Vis(tab, v, s) > Rev(tab, v, s) && StringOf(W(tab, v), s) != StringDefault(tab, v, s)
  }

  /** A visible symbol that cannot be changed, or comes from the environment, has
      its default; any other's range settles what the value was adjusted from. */
  predicate MinimalKeeps(tab: Table, u: Users, v: Values, s: Sym) {
    IsTyped(Typ(tab.t, s)) && Vis(tab, v, s) != NO ==>
      if Def(tab, s).auto || Vis(tab, v, s) <= Rev(tab, v, s) then HasDefault(tab, v, s) else RangeSettles(tab, u, v, s)
  }

  lemma SpelledValue(tab: Table, u: Users, v: Values, s: Sym)
    requires !Def(tab, s).isChoice && IsLogical(Typ(tab.t, s)) && Survives(tab, u, v, s)
    ensures StringOf(W(tab, v), s) == Spell(Val(v, s).tri)
    ensures Val(v, s).str == "n" && Val(v, s).pick == None
  {
    hide Visibility, RevTri, BaseTri;
  }

  /** Unset, a symbol keeps its value if and only if that is its default. */
  lemma UnsetKeeps(tab: Table, u: Users, u': Users, v: Values, s: Sym)
    requires Plain(tab, s) && IsTyped(Typ(tab.t, s))
    requires Survives(tab, u, v, s) && s !in u'.has
    ensures Survives(tab, u', v, s) <==> HasDefault(tab, v, s)
  {
    hide Visibility, TriValue, StrValue, StringDefault, Validated;
    UnsetSurvives(tab, u', v, s);
    StringDefaultAgrees(tab, v, s);
    if IsLogical(Typ(tab.t, s)) {
      SpelledValue(tab, u, v, s);
    }
  }

  /** A minimal save prints nothing it could do without: of the symbols that can be changed, a
      boolean, tristate or string symbol, and a number no range applies to, is printed if and
      only if it would lose its value unset. */
  lemma MinimalNeeds(tab: Table, u: Users, u': Users, v: Values, s: Sym)
    requires Plain(tab, s) && IsTyped(Typ(tab.t, s)) && Vis(tab, v, s) > Rev(tab, v, s)
    requires Survives(tab, u, v, s) && s !in u'.has
    ensures Typ(tab.t, s) in {Boolean, Tristate, Str} ==> (MinimalPrints(tab, v, s) <==> !Survives(tab, u', v, s))
    ensures Typ(tab.t, s) in {Int, Hex} && NoRangeApplies(tab, v, s) ==>
      (MinimalPrints(tab, v, s) <==> !Survives(tab, u', v, s))
  {
    hide Vis, Rev, Survives, StringDefault, FirstRange;
    UnsetKeeps(tab, u, u', v, s);
  }

  predicate NoRangeApplies(tab: Table, v: Values, s: Sym) {
    FirstRange(tab, v, Def(tab, s).ranges, 0) == |Def(tab, s).ranges|
  }

  /** A user's value never exceeds the visibility, unless a select raises it. */
  lemma UserTriFits(tab: Table, u: Users, v: Values, s: Sym)
    requires Plain(tab, s) && IsLogical(Typ(tab.t, s)) && Survives(tab, u, v, s)
    requires Vis(tab, v, s) != NO && s in u.has
    ensures Val(v, s).tri <= TriOr(Vis(tab, v, s), Rev(tab, v, s))
  {
    hide PromptsTri, RevTri, DefaultTri;
  }

  /** A value that is the default before its adjustment is it afterwards too if and
      only if the range settles what it was adjusted from. */
  lemma DefaultKept(tab: Table, u: Users, v: Values, s: Sym)
    requires IsTyped(Typ(tab.t, s)) && Survives(tab, u, v, s)
    requires StringOf(W(tab, v), s) == StringDefault(tab, v, s)
    ensures HasDefault(tab, v, s) <==> RangeSettles(tab, u, v, s)
  {
    hide StringDefault, SettlesIn, Survives, Validated;
    ValidatedTwice(tab, v, s, BaseStr(tab, u, v, s));
    if IsTextual(Typ(tab.t, s)) {
      TextValue(tab, u, v, s);
    } else {
      LogicalValidated(tab, v, s, StringDefault(tab, v, s));
      LogicalSettles(tab, u, v, s);
    }
  }

  lemma LogicalSettles(tab: Table, u: Users, v: Values, s: Sym)
    requires IsLogical(Typ(tab.t, s))
    ensures RangeSettles(tab, u, v, s)
  {
  }

  lemma MinimalSurvives(tab: Table, u: Users, u': Users, v: Values, printed: set<Sym>, s: Sym)
    requires Plain(tab, s) && UsersValid(tab, u)
    requires Survives(tab, u, v, s) && RestoredAt(tab, v, printed, {}, u', s)
    requires IsTyped(Typ(tab.t, s))
    requires Vis(tab, v, s) != NO ==> (s in printed <==> !Def(tab, s).auto && MinimalPrints(tab, v, s))
    ensures Survives(tab, u', v, s) <==> MinimalKeeps(tab, u, v, s)
  {
    hide Vis, Rev, Survives, RangeSettles, StringValid, Plain, StringDefault, HasDefault, StringOf;
    if Vis(tab, v, s) == NO {
      InvisibleSurvives(tab, u, u', v, s);
    } else if s !in printed {
      UnsetKeeps(tab, u, u', v, s);
      if Vis(tab, v, s) > Rev(tab, v, s) && !Def(tab, s).auto {
        DefaultKept(tab, u, v, s);
      }
    } else {
      PrintedSurvives(tab, u, u', v, printed, s);
    }
  }

  lemma PrintedSurvives(tab: Table, u: Users, u': Users, v: Values, printed: set<Sym>, s: Sym)
    requires Plain(tab, s) && UsersValid(tab, u)
    requires Survives(tab, u, v, s) && RestoredAt(tab, v, printed, {}, u', s)
    requires IsTyped(Typ(tab.t, s)) && Vis(tab, v, s) != NO && s in printed && MinimalPrints(tab, v, s)
    ensures Survives(tab, u', v, s) <==> RangeSettles(tab, u, v, s)
  {
    hide Vis, Rev, Survives, RangeSettles, StringValid, Plain, StringDefault, HasDefault, StringOf;
    LineSurvives(tab, u, u', v, printed, {}, s);
    if IsLogical(Typ(tab.t, s)) {
      LogicalSettles(tab, u, v, s);
      if s in u.has {
        UserTriFits(tab, u, v, s);
      } else {
        UnsetKeeps(tab, u, u, v, s);
        DefaultValidated(tab, v, s);
      }
    }
  }

  lemma DefaultValidated(tab: Table, v: Values, s: Sym)
    requires IsLogical(Typ(tab.t, s)) && HasDefault(tab, v, s)
    ensures StringOf(W(tab, v), s) == StringDefault(tab, v, s)
  {
    hide StringOf, StringDefault;
  }

  lemma LogicalValidated(tab: Table, v: Values, s: Sym, str: string)
    requires IsLogical(Typ(tab.t, s))
    ensures Validated(tab, v, s, str) == str
  {
  }

  /** A boolean symbol that cannot be changed is y, as is its default. */
  lemma BooleanKeeps(tab: Table, u: Users, v: Values, s: Sym)
    requires Plain(tab, s) && Typ(tab.t, s) == Boolean && Survives(tab, u, v, s) && !Def(tab, s).auto
    ensures MinimalKeeps(tab, u, v, s)
  {
    hide PromptsTri, Eval, DefaultTri;
  }
}
