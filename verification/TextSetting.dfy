/** sym_set_string_value over the evaluator (symbol.c:608-697): what it accepts,
    and when what it accepts is what the next evaluation shows. */
module TextSetting {
  import opened Tristates
  import opened NumText
  import opened Exprs
  import opened SymbolEquations
  import opened Layering
  import opened Solutions
  import opened Choices
  import opened ConfText
  import opened Saving
  import opened TextValues
  import opened UserValues
  import opened Evaluation
  import opened SaveExamples

  /** A string, int or hex symbol evaluated for the users' values of the goal,
      between two calls of the evaluator. */
  ghost predicate Asking(ev: Evaluator, g: Goal, s: Sym)
    reads ev
  {
    && ev.Wf() && ev.Idle() && ev.Exact(g) && GoalOk(ev.tab, g) && ev.tab.modules in ev.valid
    && ChoiceFree(ev.tab) && s < |ev.tab.t| && IsTextual(Typ(ev.tab.t, s)) && s in ev.valid
  }

  lemma AskingParts(ev: Evaluator, g: Goal, s: Sym)
    requires Asking(ev, g, s)
    ensures ev.Wf() && ev.Idle() && ev.Context(Some(g), g.rank(s), None) && ChoiceFree(ev.tab)
    ensures s < |ev.tab.t| && IsTextual(Typ(ev.tab.t, s)) && s in ev.valid && ev.tab.modules in ev.valid
    ensures RangesBelow(ev.tab, g.rank, s)
  {
    hide ev.Exact, WellFormed, ChoiceFree, IsSolution, PicksMember;
    assert SymbolLayered(ev.tab, g.rank, s);
  }

  lemma AskingAgain(ev: Evaluator, g: Goal, s: Sym, a: Snapshot)
    requires ev.Wf() && ev.Idle() && ev.Context(Some(g), g.rank(s), None) && ChoiceFree(ev.tab)
    requires s < |ev.tab.t| && IsTextual(Typ(ev.tab.t, s)) && s in a.valid && ev.tab.modules in a.valid
    requires Keeps(ev.tab, g, a, ev.Now(), {})
    ensures Asking(ev, g, s)
  {
    hide ev.Exact, WellFormed, ChoiceFree, GoalOk, Written, IsShielded;
  }

  /** expr_calc_value on the condition of a range of s. */
  method AskCondition(ev: Evaluator, e: Option<Expr>, s: Sym, ghost g: Goal) returns (x: Tri)
    requires Asking(ev, g, s) && BelowOpt(ev.tab, g.rank, g.rank(s), None, e)
    modifies ev
    ensures Asking(ev, g, s) && x == EvalOpt(W(ev.tab, g.sol), e)
  {
    hide GoalOk, ev.Exact, ev.Context, Keeps, WellFormed, Asking, ChoiceFree, Eval, RangesBelow;
    AskingParts(ev, g, s);
    ghost var before := ev.Now();
    x := ev.CalcOpt(e, Some(g), g.rank(s), None);
    AskingAgain(ev, g, s, before);
  }

  /** sym_get_range_val. */
  method AskBound(ev: Evaluator, b: Sym, s: Sym, ghost g: Goal) returns (n: int)
    requires Asking(ev, g, s) && g.rank(b) < g.rank(s)
    modifies ev
    ensures Asking(ev, g, s) && n == RangeVal(ev.tab, g.sol, b, BaseOf(Typ(ev.tab.t, s), 0))
  {
    hide GoalOk, ev.Exact, ev.Context, Keeps, WellFormed, Asking, ChoiceFree, RangesBelow, Strtoll;
    AskingParts(ev, g, s);
    ghost var before := ev.Now();
    ev.CalcRead(b, Some(g), g.rank(s), None);
    ev.ReadsGoal(g, g.rank(s), None, b);
    AskingAgain(ev, g, s, before);
    n := Strtoll(Val(ev.curr, b).str, BaseOf(Typ(ev.tab.t, b), BaseOf(Typ(ev.tab.t, s), 0)));
  }

  /** sym_get_range_prop. */
  method AskRange(ev: Evaluator, s: Sym, ghost g: Goal) returns (i: nat)
    requires Asking(ev, g, s)
    modifies ev
    ensures Asking(ev, g, s) && i <= |Def(ev.tab, s).ranges| && i == FirstRange(ev.tab, g.sol, Def(ev.tab, s).ranges, 0)
  {
    hide GoalOk, ev.Exact, Asking, WellFormed, ChoiceFree, EvalOpt, BelowOpt;
    AskingParts(ev, g, s);
    var rs := Def(ev.tab, s).ranges;
    i := 0;
    while i < |rs|
      invariant i <= |rs| && Asking(ev, g, s)
      invariant FirstRange(ev.tab, g.sol, rs, 0) == FirstRange(ev.tab, g.sol, rs, i)
    {
      var x := AskCondition(ev, rs[i].cond, s, g);
      if x != NO {
        return;
      }
      i := i + 1;
    }
  }

  /** sym_string_within_range. */
  method WithinRangeNow(ev: Evaluator, s: Sym, text: string, ghost g: Goal) returns (ok: bool)
    requires Asking(ev, g, s)
    modifies ev
    ensures Asking(ev, g, s) && ok == StringWithinRange(ev.tab, g.sol, s, text)
  {
    hide GoalOk, ev.Exact, Asking, WellFormed, ChoiceFree, StringValid, Strtoll, FirstRange, RangeVal, BelowOpt;
    AskingParts(ev, g, s);
    var y := Typ(ev.tab.t, s);
    if !StringValid(y, text) {
      return false;
    }
    if y == Str {
      return true;
    }
    var i := AskRange(ev, s, g);
    if i == |Def(ev.tab, s).ranges| {
      return true;
    }
    var n := Strtoll(text, BaseOf(y, 0));
    var lo := AskBound(ev, Def(ev.tab, s).ranges[i].lo, s, g);
    if n < lo {
      return false;
    }
    var hi := AskBound(ev, Def(ev.tab, s).ranges[i].hi, s, g);
    return n <= hi;
  }

  /** Whether sym_set_string_value takes the text for a new one: `unset` tells
      that no text was stored before, `was` the one that was. A hexadecimal text
      without "0x" always is. */
  predicate IsNewText(y: SymType, unset: bool, was: string, text: string) {
    unset || was != text || (y == Hex && !HasPrefix(text))
  }

  lemma UsersOfGoal(ev: Evaluator, g: Goal, s: Sym)
    requires Asking(ev, g, s)
    ensures Users(ev.hasUser, ev.user) == g.u && |ev.user| == |ev.tab.t|
  {
    hide ev.Finished, GoalOk, WellFormed, Visibility, RevTri;
    forall x: Sym
      ensures x in ev.hasUser <==> x in g.u.has
    {
      ChoiceFreeAt(ev.tab, x);
    }
    assert ev.hasUser == g.u.has;
  }

  /** Storing an accepted text. */
  method StoreText(ev: Evaluator, s: Sym, text: string, ghost g: Goal)
    requires Asking(ev, g, s)
    modifies ev`user, ev`hasUser
    ensures ev.Ready(g.rank) && Users(ev.hasUser, ev.user) == TextValues.AcceptString(ev.tab, g.u, s, text)
  {
    hide GoalOk, ev.Exact, WellFormed, Plausible, Layered, Kept;
    UsersOfGoal(ev, g, s);
    LayeredGoal(ev.tab, g);
    ev.hasUser := ev.hasUser + {s};
    ev.user := ev.user[s := ev.user[s].(str := Kept(Typ(ev.tab.t, s), text))];
    ChoiceFreePicksAny(ev.tab, Users(ev.hasUser, ev.user));
  }

  lemma LayeredGoal(tab: Table, g: Goal)
    requires GoalOk(tab, g)
    ensures Layered(tab, g.rank)
  {
    hide Layered, IsSolution, PicksMember;
  }

  lemma ChoiceFreePicksAny(tab: Table, u: Users)
    requires ChoiceFree(tab)
    ensures PicksMember(tab, u)
  {
  }

  /** Setting the flag alone, for a text that is stored already. */
  method FlagText(ev: Evaluator, s: Sym, ghost g: Goal)
    requires Asking(ev, g, s)
    modifies ev`hasUser
    ensures ev.Wf() && ev.Idle() && ev.hasUser == g.u.has + {s} && ev.user == g.u.val && ev.curr == old(ev.curr)
  {
    hide GoalOk, ev.Exact, WellFormed, Plausible;
    UsersOfGoal(ev, g, s);
    ev.hasUser := ev.hasUser + {s};
  }

  /** sym_set_string_value: it accepts exactly the texts within range; a new one
      is stored and invalidates everything, one that is stored already only
      counts as set from now on. */
  method SetStringValue(ev: Evaluator, s: Sym, text: string, unset: bool, ghost g: Goal) returns (ok: bool)
    requires Asking(ev, g, s) && (unset ==> ev.user[s].str == "")
    modifies ev
    ensures ev.Wf() && ev.Idle()
    ensures ok <==> StringWithinRange(ev.tab, g.sol, s, text)
    ensures var next := Solved(ev.tab, g.rank, TextValues.AcceptString(ev.tab, g.u, s, text));
      StringValid(Typ(ev.tab.t, s), text) && Vis(ev.tab, g.sol, s) != NO && !EndsBelowZero(ev.tab, g.sol, s) ==>
        (ok <==> next[s].str == Kept(Typ(ev.tab.t, s), text))
    ensures !ok ==> Asking(ev, g, s)
    ensures ok && IsNewText(Typ(ev.tab.t, s), unset, Val(g.u.val, s).str, text) ==>
      var u := TextValues.AcceptString(ev.tab, g.u, s, text);
      var g' := Goal(g.rank, u, Solved(ev.tab, g.rank, u));
      ev.Exact(g') && GoalOk(ev.tab, g') && ev.tab.modules in ev.valid
    ensures ok && !IsNewText(Typ(ev.tab.t, s), unset, Val(g.u.val, s).str, text) ==>
      ev.hasUser == g.u.has + {s} && ev.user == g.u.val && s in ev.valid && s < |ev.curr| && ev.curr[s] == Val(g.sol, s)
  {
    hide GoalOk, ev.Exact, Asking, WellFormed, ChoiceFree, StringWithinRange, Solved, TextValues.AcceptString,
         HasPrefix, Layered, PicksMember, ev.Finished, EndsBelowZero, StringValid, Kept, Vis;
    AcceptsWhatShows(ev, g, s, text);
    ok := WithinRangeNow(ev, s, text, g);
    if !ok {
      AskingParts(ev, g, s);
      return;
    }
    AskingParts(ev, g, s);
    UsersOfGoal(ev, g, s);
    FinishedText(ev, g, s);
    var was := ev.user[s].str;
    if IsNewText(Typ(ev.tab.t, s), unset, was, text) {
      StoreText(ev, s, text, g);
      ev.ClearAllValid(g.rank);
    } else {
      FlagText(ev, s, g);
    }
  }

  /** A valid text of a visible symbol is within range if and only if the next evaluation would
      show it, unless a hexadecimal range ends below zero. */
  lemma AcceptsWhatShows(ev: Evaluator, g: Goal, s: Sym, text: string)
    requires Asking(ev, g, s)
    ensures s < |Solved(ev.tab, g.rank, TextValues.AcceptString(ev.tab, g.u, s, text))|
    ensures var next := Solved(ev.tab, g.rank, TextValues.AcceptString(ev.tab, g.u, s, text));
      StringValid(Typ(ev.tab.t, s), text) && Vis(ev.tab, g.sol, s) != NO && !EndsBelowZero(ev.tab, g.sol, s) ==>
        (StringWithinRange(ev.tab, g.sol, s, text) <==> next[s].str == Kept(Typ(ev.tab.t, s), text))
  {
    hide ev.Exact, WellFormed, ChoiceFree, StringWithinRange, Solved, TextValues.AcceptString, HasPrefix, Layered,
         PicksMember, IsSolution, EndsBelowZero, SpellsNegativeEnd, StringValid, Kept, Visibility, Plausible;
    var u := TextValues.AcceptString(ev.tab, g.u, s, text);
    UsersOfGoal(ev, g, s);
    ChoiceFreePicksAny(ev.tab, u);
    SolvedIsSolution(ev.tab, g.rank, u);
    ShownIfVisible(ev.tab, g.sol, s);
    if StringValid(Typ(ev.tab.t, s), text) && Vis(ev.tab, g.sol, s) != NO {
      AcceptedTextExactly(ev.tab, g.rank, g.u, g.sol, Solved(ev.tab, g.rank, u), s, text);
    }
  }

  lemma FinishedText(ev: Evaluator, g: Goal, s: Sym)
    requires Asking(ev, g, s)
    ensures s < |ev.curr| && ev.curr[s] == Val(g.sol, s)
  {
    hide GoalOk, WellFormed, ChoiceFree, Visibility, RevTri;
    assert ev.Finished(g, s);
  }

  /** An accepted text of a visible symbol is what the next evaluation shows if
      and only if it is new, or the symbol already counted as set by the user, or
      it happens to be the present value. */
  method SetTextAndCalc(ev: Evaluator, s: Sym, text: string, unset: bool, ghost g: Goal) returns (ok: bool)
    requires Asking(ev, g, s) && (unset ==> ev.user[s].str == "")
    modifies ev
    ensures ev.Wf() && s < |ev.curr|
    ensures ok <==> StringWithinRange(ev.tab, g.sol, s, text)
    ensures var y := Typ(ev.tab.t, s);
      ok && Vis(ev.tab, g.sol, s) != NO ==>
        (ev.curr[s].str == Kept(y, text) <==>
         s in g.u.has || IsNewText(y, unset, Val(g.u.val, s).str, text) || Val(g.sol, s).str == Kept(y, text))
  {
    hide GoalOk, ev.Exact, WellFormed, ChoiceFree, StringWithinRange, Solved, TextValues.AcceptString, HasPrefix,
         Layered, ev.Finished, IsSolution, Vis, Kept, Keeps, IsNewText;
    ghost var u := TextValues.AcceptString(ev.tab, g.u, s, text);
    ghost var isNew := IsNewText(Typ(ev.tab.t, s), unset, Val(g.u.val, s).str, text);
    UsersOfGoal(ev, g, s);
    ok := SetStringValue(ev, s, text, unset, g);
    if ok {
      ghost var g' := Goal(g.rank, u, Solved(ev.tab, g.rank, u));
      ev.CalcValue(s, if isNew then Some(g') else None);
      if isNew {
        NewShows(ev, g, g', s, text);
      } else {
        StoredShows(ev.tab, g, s, unset, text);
      }
    }
  }

  lemma NewShows(ev: Evaluator, g: Goal, g': Goal, s: Sym, text: string)
    requires ev.Wf() && ev.Idle() && ev.Exact(g') && s in ev.valid && s < |ev.tab.t| && IsTextual(Typ(ev.tab.t, s))
    requires ChoiceFree(ev.tab) && GoalOk(ev.tab, g) && GoalOk(ev.tab, g') && g'.rank == g.rank
    requires |g.u.val| == |ev.tab.t|
    requires g'.u == TextValues.AcceptString(ev.tab, g.u, s, text) && StringWithinRange(ev.tab, g.sol, s, text)
    ensures s < |ev.curr|
    ensures Vis(ev.tab, g.sol, s) != NO ==> ev.curr[s].str == Kept(Typ(ev.tab.t, s), text)
  {
    hide WellFormed, ChoiceFree, StringWithinRange, TextValues.AcceptString, Layered, IsSolution, Kept, Visibility,
         RevTri, PicksMember;
    if Vis(ev.tab, g.sol, s) != NO {
      ShownIfVisible(ev.tab, g.sol, s);
      AcceptedTextSticks(ev.tab, g.rank, g.u, g.sol, g'.sol, s, text);
    }
    assert ev.Finished(g', s);
  }

  lemma ShownIfVisible(tab: Table, v: Values, s: Sym)
    requires IsTextual(Typ(tab.t, s))
    ensures Shown(tab, v, s) <==> Vis(tab, v, s) != NO
  {
  }

  /** A text that was stored already, of a symbol whose value is computed. */
  lemma StoredShows(tab: Table, g: Goal, s: Sym, unset: bool, text: string)
    requires GoalOk(tab, g) && s < |tab.t| && IsTextual(Typ(tab.t, s)) && StringWithinRange(tab, g.sol, s, text)
    requires !IsNewText(Typ(tab.t, s), unset, Val(g.u.val, s).str, text)
    ensures Kept(Typ(tab.t, s), text) == text
    ensures Vis(tab, g.sol, s) != NO && s in g.u.has ==> Val(g.sol, s).str == text
  {
    hide Layered, PicksMember, StringWithinRange, Validated, Vis, DefaultStr, HasPrefix, Survives, Compute;
    WithinRangeStays(tab, g.sol, s, text);
    SolutionSurvives(tab, g.u, g.sol, s);
    TextValue(tab, g.u, g.sol, s);
  }

  /** The other case: A has a prompt and no default, and the user's text "x" was
      kept when the flag was dropped while A was invisible. Entering "x" again is
      accepted, and A stays empty. */
  lemma StoredTextNotShown()
    ensures var tab, u, v := OneSymbol(Str, SHOWN, NO_SYM),
        Users({}, OneValue(Value(NO, "x", None))), OneValue(Value(NO, "", None));
      && IsSolution(tab, u, v) && Vis(tab, v, A) != NO && StringWithinRange(tab, v, A, "x")
      && !(A in u.has || IsNewText(Str, false, Val(u.val, A).str, "x") || Val(v, A).str == Kept(Str, "x"))
  {
    hide IsSolution;
    var tab, u, v := OneSymbol(Str, SHOWN, NO_SYM),
        Users({}, OneValue(Value(NO, "x", None))), OneValue(Value(NO, "", None));
    assert PromptsTri(tab, v, A, 0) == NO;
    assert PromptsTri(tab, v, A, 1) == YES;
    OneSymbolSolved(Str, SHOWN, NO_SYM, u, Value(NO, "", None));
  }
}
