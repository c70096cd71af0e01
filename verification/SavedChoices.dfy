/** What becomes of choices and their values when the user's values are replaced by
    those a saved configuration would restore: a choice has no line of its own and
    learns of its values from their lines (confdata.c:383-402). */
module SavedChoices {
  import opened Tristates
  import opened Exprs
  import opened SymbolEquations
  import opened Layering
  import opened Solutions
  import opened Choices
  import opened Saving

  // ----- choices as the menus build them -----

  /** The condition holds at most as far as c does. */
  predicate Under(e: Expr, c: Sym) {
    match e
    case Symbol(s) => s == c
    case Junct(op, l, r) => op == Conj && (Under(l, c) || Under(r, c))
    case _ => false
  }

  /** Every prompt of a value is under its choice, and a value has no defaults. */
  ghost predicate ValueBuilt(tab: Table, x: Sym, c: Sym) {
    && IsTyped(Typ(tab.t, x)) && Def(tab, x).defaults == []
    && forall i :: 0 <= i < |Def(tab, x).prompts| ==>
         Def(tab, x).prompts[i].Some? && Under(Def(tab, x).prompts[i].value, c)
  }

  ghost predicate ChoicesBuilt(tab: Table) {
    && (forall x: Sym :: x < |tab.t| && Def(tab, x).choiceOf.Some? ==> ValueBuilt(tab, x, Def(tab, x).choiceOf.value))
    && (forall c: Sym :: c < |tab.t| && Def(tab, c).isChoice ==> IsTyped(Typ(tab.t, c)) && Name(tab.t, c) == "")
  }

  lemma {:induction false} UnderBounds(tab: Table, v: Values, e: Expr, c: Sym)
    requires Under(e, c)
    ensures Eval(W(tab, v), e) <= Val(v, c).tri
  {
    if e.Junct? {
      if Under(e.left, c) {
        UnderBounds(tab, v, e.left, c);
      } else {
        UnderBounds(tab, v, e.right, c);
      }
    }
  }

  lemma {:induction false} PromptsUnder(tab: Table, v: Values, x: Sym, c: Sym, n: nat)
    requires ValueBuilt(tab, x, c) && n <= |Def(tab, x).prompts| && Val(v, c).tri == NO
    ensures PromptsTri(tab, v, x, n) == NO
  {
    hide Under;
    if n > 0 {
      PromptsUnder(tab, v, x, c, n - 1);
      UnderBounds(tab, v, Def(tab, x).prompts[n - 1].value, c);
    }
  }

  /** The values of a choice worth n are invisible. */
  lemma HiddenWithChoice(tab: Table, v: Values, x: Sym, c: Sym)
    requires ValueBuilt(tab, x, c) && Val(v, c).tri == NO
    ensures Vis(tab, v, x) == NO
  {
    hide PromptsTri, ValueBuilt;
    PromptsUnder(tab, v, x, c, |Def(tab, x).prompts|);
  }

  /** A solved table with choices. */
  ghost predicate Configured(tab: Table, rank: Rank, u: Users, v: Values) {
    Layered(tab, rank) && PicksMember(tab, u) && IsSolution(tab, u, v) && ChoicesBuilt(tab)
  }

  lemma Membership(tab: Table, rank: Rank, x: Sym, c: Sym)
    requires Layered(tab, rank) && ChoicesBuilt(tab) && x < |tab.t| && Def(tab, x).choiceOf == Some(c)
    ensures c < |tab.t| && Def(tab, c).isChoice && Def(tab, c).choiceOf.None? && x in Def(tab, c).values
    ensures IsLogical(Typ(tab.t, x)) && IsLogical(Typ(tab.t, c)) && !Def(tab, x).isChoice && ValueBuilt(tab, x, c)
  {
    assert ValueBuilt(tab, x, c);
    assert SymbolLayered(tab, rank, x);
    assert SymbolLayered(tab, rank, c);
  }

  /** What a value of a choice computes to: y where it is the pick, if visible as y; at
      most m, if visible as m; n, if it is not visible. */
  lemma ValueOfMember(tab: Table, u: Users, v: Values, x: Sym)
    requires Def(tab, x).choiceOf.Some? && IsLogical(Typ(tab.t, x)) && !Def(tab, x).isChoice
    requires Def(tab, x).defaults == []
    ensures Survives(tab, u, v, x) <==> Val(v, x) == Value(MemberTri(tab, u, v, x), "n", None)
  {
    hide PromptsTri;
    assert DefaultTri(tab, v, x) == NO;
  }

  function MemberTri(tab: Table, u: Users, v: Values, x: Sym): Tri
    requires Def(tab, x).choiceOf.Some?
  {
    if Vis(tab, v, x) == NO then NO
    else if Vis(tab, v, x) == MOD then (if x in u.has then TriAnd(Val(u.val, x).tri, MOD) else NO)
    else OfBool(Val(v, Def(tab, x).choiceOf.value).pick == Some(x))
  }

  // ----- what the lines of its values tell a choice -----

  /** x is a printed value of choice c. */
  predicate Told(tab: Table, printed: set<Sym>, c: Sym, x: Sym) {
    x in printed && Def(tab, x).choiceOf == Some(c)
  }

  ghost predicate ToldOf(tab: Table, v: Values, printed: set<Sym>, c: Sym, val: Tri) {
    exists x: Sym :: Told(tab, printed, c, x) && Val(v, x).tri == val
  }

  /** The highest value printed. */
  ghost function Joint(tab: Table, v: Values, printed: set<Sym>, c: Sym): Tri {
    if ToldOf(tab, v, printed, c, YES) then YES else if ToldOf(tab, v, printed, c, MOD) then MOD else NO
  }

  /** The choice has the highest value printed and picks one printed as y; it counts as
      set unless both y and m were. */
  ghost predicate ChoiceRestored(tab: Table, v: Values, printed: set<Sym>, u: Users, c: Sym) {
    var x := Val(u.val, c);
    && x.tri == Joint(tab, v, printed, c)
    && (if x.pick.Some? then Told(tab, printed, c, x.pick.value) && Val(v, x.pick.value).tri == YES
        else !ToldOf(tab, v, printed, c, YES))
    && (c in u.has || (ToldOf(tab, v, printed, c, YES) && ToldOf(tab, v, printed, c, MOD)))
  }

  /** A choice worth m has a value worth m, or selects that say m; one worth n has no
      selects that say m. */
  ghost predicate ChoiceKeeps(tab: Table, v: Values, c: Sym) {
    && (Val(v, c).tri == MOD ==>
          Rev(tab, v, c) == MOD || exists x: Sym :: x in Def(tab, c).values && Val(v, x).tri == MOD)
    && (Val(v, c).tri == NO ==> Rev(tab, v, c) != MOD)
  }

  // ----- a choice worth y -----

  lemma TriValueOfChoice(tab: Table, u: Users, v: Values, c: Sym)
    requires Def(tab, c).isChoice && Def(tab, c).choiceOf.None? && IsLogical(Typ(tab.t, c))
    ensures var mv := Val(v, tab.modules).tri;
      var base := if Vis(tab, v, c) != NO && c in u.has then TriAnd(Val(u.val, c).tri, Vis(tab, v, c)) else NO;
      var x := TriOr(base, Rev(tab, v, c));
      TriValue(tab, u, mv, v, c) == if x == MOD && TypeNow(tab, mv, c, Vis(tab, v, c)) == Boolean then YES else x
  {
    hide Visibility, RevTri;
  }

  lemma ComputeOfChoice(tab: Table, u: Users, v: Values, c: Sym)
    requires Def(tab, c).isChoice && IsLogical(Typ(tab.t, c))
    ensures var mv := Val(v, tab.modules).tri;
      var x := TriValue(tab, u, mv, v, c);
      Compute(tab, u, mv, v, c) ==
      if x == YES then
        var p := Pick(tab, u, mv, v, c);
        Value(if p.None? then NO else YES, "n", p)
      else Value(x, "n", None)
  {
    hide TriValue, Pick;
  }

  /** The type of the choice as it is now does not depend on the user. */
  lemma RevOfBoolean(tab: Table, v: Values, c: Sym)
    requires TypeNow(tab, Val(v, tab.modules).tri, c, Vis(tab, v, c)) == Boolean
    ensures Rev(tab, v, c) != MOD
  {
    hide Visibility, Eval;
  }

  /** The lines of all values of the choice c that are not n were printed and read. */
  ghost predicate HasLearnt(tab: Table, rank: Rank, u: Users, v: Values, printed: set<Sym>, u': Users, c: Sym) {
    && Configured(tab, rank, u, v) && c < |tab.t| && Def(tab, c).isChoice
    && ChoiceRestored(tab, v, printed, u', c)
    && forall x: Sym :: Def(tab, x).choiceOf == Some(c) && Val(v, x).tri != NO ==> x in printed
  }

  lemma ChoiceShape(tab: Table, rank: Rank, u: Users, v: Values, c: Sym)
    requires Configured(tab, rank, u, v) && c < |tab.t| && Def(tab, c).isChoice
    ensures IsLogical(Typ(tab.t, c)) && Def(tab, c).choiceOf.None? && |v| == |tab.t|
    ensures forall x :: x in Def(tab, c).values ==> x < |tab.t| && Def(tab, x).choiceOf == Some(c)
    ensures Survives(tab, u, v, c)
  {
    assert SymbolLayered(tab, rank, c);
    SolutionSurvives(tab, u, v, c);
    assert ChoiceBelow(tab, rank, c);
  }

  /** The value of a printed member, for the solution. */
  lemma ToldValue(tab: Table, rank: Rank, u: Users, v: Values, c: Sym, x: Sym)
    requires Configured(tab, rank, u, v) && Def(tab, x).choiceOf == Some(c)
    ensures x < |tab.t| && x in Def(tab, c).values && Val(v, x).tri == MemberTri(tab, u, v, x)
    ensures Def(tab, c).isChoice && c < |tab.t|
    ensures Val(v, c).tri == NO ==> Val(v, x).tri == NO
  {
    hide Vis, IsSolution, PicksMember, ValueBuilt, Survives;
    InTable(tab, rank, x);
    Membership(tab, rank, x, c);
    NoDefaults(tab, x, c);
    SolutionSurvives(tab, u, v, x);
    ValueOfMember(tab, u, v, x);
    if Val(v, c).tri == NO {
      HiddenWithChoice(tab, v, x, c);
    }
  }

  lemma NoDefaults(tab: Table, x: Sym, c: Sym)
    requires ValueBuilt(tab, x, c)
    ensures Def(tab, x).defaults == []
  {
  }

  lemma InTable(tab: Table, rank: Rank, x: Sym)
    requires Layered(tab, rank) && Def(tab, x).choiceOf.Some?
    ensures x < |tab.t|
  {
  }

  /** The pick of a choice worth y, the only one of its values that is y. */
  lemma OpenPick(tab: Table, rank: Rank, u: Users, v: Values, c: Sym) returns (p: Sym)
    requires Configured(tab, rank, u, v) && c < |tab.t| && Def(tab, c).isChoice && Val(v, c).tri == YES
    ensures p < |tab.t| && p in Def(tab, c).values && Def(tab, p).choiceOf == Some(c) && Vis(tab, v, p) != NO
    ensures forall x: Sym :: Def(tab, x).choiceOf == Some(c) ==> Val(v, x).tri == if x == p then YES else NO
    ensures Val(v, c) == Value(YES, "n", Some(p)) && TriValue(tab, u, Val(v, tab.modules).tri, v, c) == YES
    ensures ValueVisible(tab, Val(v, tab.modules).tri, v, c, p)
  {
    hide IsSolution, PicksMember, Layered, Survives, Pick, TriValue, ValueVisible, Visibility, ValueBuilt;
    ChoiceShape(tab, rank, u, v, c);
    assert OpenChoice(tab, rank, u, v, c);
    forall x | x in Def(tab, c).values
      ensures Def(tab, x).defaults == []
    {
      NoDefaults(tab, x, c);
    }
    OpenChoiceValue(tab, rank, u, v, c);
    p := ChoiceExclusive(tab, rank, u, v, c);
    MemberShown(tab, rank, u, v, c, p);
    forall x: Sym | Def(tab, x).choiceOf == Some(c)
      ensures x in Def(tab, c).values
    {
      ToldValue(tab, rank, u, v, c, x);
    }
  }

  lemma OpenTold(tab: Table, v: Values, printed: set<Sym>, u': Users, c: Sym, p: Sym)
    requires ChoiceRestored(tab, v, printed, u', c) && Told(tab, printed, c, p) && Val(v, p).tri == YES
    requires forall x: Sym :: Def(tab, x).choiceOf == Some(c) ==> Val(v, x).tri == if x == p then YES else NO
    ensures Val(u'.val, c).tri == YES && Val(u'.val, c).pick == Some(p) && c in u'.has
  {
    assert ToldOf(tab, v, printed, c, YES);
  }

  lemma OpenSurvives(tab: Table, rank: Rank, u: Users, v: Values, printed: set<Sym>, u': Users, c: Sym)
    requires HasLearnt(tab, rank, u, v, printed, u', c) && Val(v, c).tri == YES
    ensures Survives(tab, u', v, c)
  {
    hide Vis, Rev, IsSolution, PicksMember, Layered, Survives, TriValue, ChoicesBuilt, Shown, ValueVisible,
         DefaultPick, FirstVisible, TypeNow, ChoiceRestored;
    ChoiceShape(tab, rank, u, v, c);
    var p := OpenPick(tab, rank, u, v, c);
    assert Told(tab, printed, c, p);
    OpenTold(tab, v, printed, u', c, p);
    TriValueOfChoice(tab, u, v, c);
    TriValueOfChoice(tab, u', v, c);
    ComputeOfChoice(tab, u', v, c);
    SurvivesAs(tab, u', v, c);
  }

  lemma SurvivesAs(tab: Table, u: Users, v: Values, c: Sym)
    ensures Survives(tab, u, v, c) <==> Compute(tab, u, Val(v, tab.modules).tri, v, c) == Val(v, c)
  {
  }

  // ----- a choice worth m or n -----

  /** No value of such a choice is y, and of one worth n none is m. */
  lemma ClosedValues(tab: Table, rank: Rank, u: Users, v: Values, c: Sym)
    requires Configured(tab, rank, u, v) && c < |tab.t| && Def(tab, c).isChoice && Val(v, c).tri != YES
    ensures Val(v, c).pick == None && Val(v, c).str == "n"
    ensures forall x: Sym :: Def(tab, x).choiceOf == Some(c) ==> Val(v, x).tri <= Val(v, c).tri
    ensures forall x: Sym :: Def(tab, x).choiceOf == Some(c) ==> x < |tab.t| && x in Def(tab, c).values
    ensures forall x: Sym :: Def(tab, x).choiceOf == Some(c) && Val(v, x).tri != NO ==> Vis(tab, v, x) != NO
  {
    hide IsSolution, PicksMember, Layered, Pick, TriValue, Vis, ValueBuilt;
    ChoiceShape(tab, rank, u, v, c);
    ComputeOfChoice(tab, u, v, c);
    SurvivesAs(tab, u, v, c);
    forall x: Sym | Def(tab, x).choiceOf == Some(c)
      ensures Val(v, x).tri <= Val(v, c).tri && x < |tab.t| && x in Def(tab, c).values
      ensures Val(v, x).tri != NO ==> Vis(tab, v, x) != NO
    {
      ToldValue(tab, rank, u, v, c, x);
    }
  }

  /** What the lines of its values leave of a choice not worth y. */
  lemma ClosedTold(tab: Table, rank: Rank, u: Users, v: Values, printed: set<Sym>, u': Users, c: Sym)
    requires HasLearnt(tab, rank, u, v, printed, u', c) && Val(v, c).tri != YES
    ensures Val(u'.val, c).pick == None && c in u'.has
    ensures Val(u'.val, c).tri == if exists x: Sym :: x in Def(tab, c).values && Val(v, x).tri == MOD then MOD else NO
  {
    hide IsSolution, PicksMember, Layered, Vis, ValueBuilt;
    ClosedValues(tab, rank, u, v, c);
    ChoiceShape(tab, rank, u, v, c);
    assert !ToldOf(tab, v, printed, c, YES);
    if x: Sym :| x in Def(tab, c).values && Val(v, x).tri == MOD {
      assert Told(tab, printed, c, x);
    }
  }

  lemma HalfSurvives(tab: Table, rank: Rank, u: Users, v: Values, printed: set<Sym>, u': Users, c: Sym)
    requires HasLearnt(tab, rank, u, v, printed, u', c) && Val(v, c).tri == MOD
    ensures Survives(tab, u', v, c) <==> ChoiceKeeps(tab, v, c)
  {
    hide Vis, Rev, IsSolution, PicksMember, Layered, TriValue, ChoicesBuilt, Pick, TypeNow, ChoiceRestored;
    ChoiceShape(tab, rank, u, v, c);
    ClosedTold(tab, rank, u, v, printed, u', c);
    ClosedValues(tab, rank, u, v, c);
    TriValueOfChoice(tab, u, v, c);
    TriValueOfChoice(tab, u', v, c);
    ComputeOfChoice(tab, u, v, c);
    ComputeOfChoice(tab, u', v, c);
    SurvivesAs(tab, u, v, c);
    SurvivesAs(tab, u', v, c);
  }

  lemma OffSurvives(tab: Table, rank: Rank, u: Users, v: Values, printed: set<Sym>, u': Users, c: Sym)
    requires HasLearnt(tab, rank, u, v, printed, u', c) && Val(v, c).tri == NO
    ensures Survives(tab, u', v, c) <==> ChoiceKeeps(tab, v, c)
  {
    hide Vis, Rev, IsSolution, PicksMember, Layered, TriValue, ChoicesBuilt, TypeNow, ChoiceRestored, ValueVisible,
         DefaultPick, FirstVisible;
    ChoiceShape(tab, rank, u, v, c);
    ClosedTold(tab, rank, u, v, printed, u', c);
    ClosedValues(tab, rank, u, v, c);
    TriValueOfChoice(tab, u, v, c);
    TriValueOfChoice(tab, u', v, c);
    ComputeOfChoice(tab, u, v, c);
    ComputeOfChoice(tab, u', v, c);
    if TypeNow(tab, Val(v, tab.modules).tri, c, Vis(tab, v, c)) == Boolean {
      RevOfBoolean(tab, v, c);
    }
    SurvivesAs(tab, u, v, c);
    SurvivesAs(tab, u', v, c);
  }

  /** A choice that has learnt of its values keeps its value if and only if the lines of
      its values lead back to it. */
  lemma ChoiceSurvives(tab: Table, rank: Rank, u: Users, v: Values, printed: set<Sym>, u': Users, c: Sym)
    requires HasLearnt(tab, rank, u, v, printed, u', c)
    ensures Survives(tab, u', v, c) <==> ChoiceKeeps(tab, v, c)
  {
    hide HasLearnt, Survives, ChoiceKeeps;
    if Val(v, c).tri == YES {
      OpenSurvives(tab, rank, u, v, printed, u', c);
      OpenKeeps(tab, v, c);
    } else if Val(v, c).tri == MOD {
      HalfSurvives(tab, rank, u, v, printed, u', c);
    } else {
      OffSurvives(tab, rank, u, v, printed, u', c);
    }
  }

  lemma OpenKeeps(tab: Table, v: Values, c: Sym)
    requires Val(v, c).tri == YES
    ensures ChoiceKeeps(tab, v, c)
  {
  }

  // ----- the values of a choice -----

  /** A value visible as m is n, or no text overwrites its line. */
  predicate ValueKeeps(tab: Table, v: Values, blanked: set<Sym>, x: Sym) {
    Vis(tab, v, x) == MOD && x in blanked ==> Val(v, x).tri == NO
  }

  lemma ValueSurvives(tab: Table, rank: Rank, u: Users, u': Users, v: Values, printed: set<Sym>, blanked: set<Sym>,
                      x: Sym)
    requires Configured(tab, rank, u, v) && x < |tab.t| && Def(tab, x).choiceOf.Some?
    requires RestoredAt(tab, v, printed, blanked, u', x) && (Vis(tab, v, x) != NO ==> x in printed)
    ensures Survives(tab, u', v, x) <==> ValueKeeps(tab, v, blanked, x)
  {
    hide Vis, IsSolution, PicksMember, ValueBuilt, Survives;
    var c := Def(tab, x).choiceOf.value;
    Membership(tab, rank, x, c);
    NoDefaults(tab, x, c);
    SolutionSurvives(tab, u, v, x);
    ValueOfMember(tab, u, v, x);
    ValueOfMember(tab, u', v, x);
  }

  // ----- one more line -----

  /** What reading relies on: choices and their values name each other, choices have no
      name, and y, m and n are neither. */
  ghost predicate Tellable(tab: Table) {
    && |tab.t| > 2 && !IsTyped(Typ(tab.t, YES_SYM)) && !IsTyped(Typ(tab.t, MOD_SYM)) && !IsTyped(Typ(tab.t, NO_SYM))
    && (forall c: Sym :: c < |tab.t| && Def(tab, c).isChoice ==> IsTyped(Typ(tab.t, c)) && Name(tab.t, c) == "")
    && (forall x: Sym :: x < |tab.t| && Def(tab, x).choiceOf.Some? ==>
            ValueOfChoice(tab, x, Def(tab, x).choiceOf.value))
  }

  predicate ValueOfChoice(tab: Table, x: Sym, c: Sym) {
    && c < |tab.t| && Def(tab, c).isChoice && Def(tab, c).choiceOf.None?
    && IsLogical(Typ(tab.t, x)) && !Def(tab, x).isChoice
  }

  lemma LayeredTellable(tab: Table, rank: Rank)
    requires Layered(tab, rank) && ChoicesBuilt(tab)
    ensures Tellable(tab)
  {
    hide SymbolLayered, ValueBuilt;
    forall x: Sym | x < |tab.t| && Def(tab, x).choiceOf.Some?
      ensures ValueOfChoice(tab, x, Def(tab, x).choiceOf.value)
    {
      Membership(tab, rank, x, Def(tab, x).choiceOf.value);
    }
  }

  // ----- whole configurations -----

  ghost predicate RestoredOne(tab: Table, v: Values, printed: set<Sym>, blanked: set<Sym>, u: Users, s: Sym) {
    if Def(tab, s).isChoice then ChoiceRestored(tab, v, printed, u, s) else RestoredAt(tab, v, printed, blanked, u, s)
  }

  /** The user's values are n for the symbols in `blanked`, hold what else was printed,
      choices what the lines of their values told them, and nothing more. */
  ghost predicate RestoredAll(tab: Table, v: Values, printed: set<Sym>, blanked: set<Sym>, u: Users) {
    forall s: Sym :: s < |tab.t| && IsTyped(Typ(tab.t, s)) ==> RestoredOne(tab, v, printed, blanked, u, s)
  }

  /** The value of s is within reach of what a full save leaves of it. */
  ghost predicate SavedKeeps(tab: Table, u: Users, v: Values, blanked: set<Sym>, s: Sym) {
    if !IsTyped(Typ(tab.t, s)) then true
    else if Def(tab, s).isChoice then ChoiceKeeps(tab, v, s)
    else if Def(tab, s).choiceOf.Some? then ValueKeeps(tab, v, blanked, s)
    else FullKeeps(tab, u, v, blanked, s)
  }

  /** Whatever is visible has a line, but for environment symbols and choices. */
  ghost predicate VisibleHaveLines(tab: Table, v: Values, printed: set<Sym>) {
    forall s: Sym :: s < |tab.t| && IsTyped(Typ(tab.t, s)) && Vis(tab, v, s) != NO && !Def(tab, s).isChoice ==>
      (s in printed <==> Def(tab, s).choiceOf.Some? || !Def(tab, s).auto)
  }

  lemma SavedSurvives(tab: Table, rank: Rank, u: Users, u': Users, v: Values, printed: set<Sym>, blanked: set<Sym>,
                      s: Sym)
    requires Configured(tab, rank, u, v) && UsersValid(tab, u) && VisibleHaveLines(tab, v, printed)
    requires s < |tab.t| && IsTyped(Typ(tab.t, s)) && RestoredOne(tab, v, printed, blanked, u', s)
    ensures Survives(tab, u', v, s) <==> SavedKeeps(tab, u, v, blanked, s)
  {
    hide Vis, IsSolution, PicksMember, Layered, Survives, UsersValid, ChoiceKeeps, ValueKeeps, FullKeeps,
         ChoiceRestored,
         RestoredAt, ValueBuilt;
    SolutionSurvives(tab, u, v, s);
    if Def(tab, s).isChoice {
      ValuesHaveLines(tab, rank, u, v, printed, s);
      assert HasLearnt(tab, rank, u, v, printed, u', s);
      ChoiceSurvives(tab, rank, u, v, printed, u', s);
    } else if Def(tab, s).choiceOf.Some? {
      ValueSurvives(tab, rank, u, u', v, printed, blanked, s);
    } else {
      FullSurvives(tab, u, u', v, printed, blanked, s);
    }
  }

  lemma ValuesHaveLines(tab: Table, rank: Rank, u: Users, v: Values, printed: set<Sym>, c: Sym)
    requires Configured(tab, rank, u, v) && VisibleHaveLines(tab, v, printed)
    ensures forall x: Sym :: Def(tab, x).choiceOf == Some(c) && Val(v, x).tri != NO ==> x in printed
  {
    hide Vis, ValueBuilt, Layered, IsSolution, PicksMember;
    forall x: Sym | Def(tab, x).choiceOf == Some(c) && Val(v, x).tri != NO
      ensures x in printed
    {
      ToldValue(tab, rank, u, v, c, x);
      Membership(tab, rank, x, c);
    }
  }

  /** The users' values restored from a full save lead to the same configuration if and
      only if every value is within reach of what the save leaves of it. */
  lemma FullExact(tab: Table, rank: Rank, u: Users, u': Users, v: Values, printed: set<Sym>, blanked: set<Sym>)
    requires Configured(tab, rank, u, v) && UsersValid(tab, u) && VisibleHaveLines(tab, v, printed)
    requires RestoredAll(tab, v, printed, blanked, u')
    ensures IsSolution(tab, u', v) <==> forall s: Sym :: s < |tab.t| ==> SavedKeeps(tab, u, v, blanked, s)
  {
    hide SavedKeeps, Configured, Compute, RestoredOne, VisibleHaveLines, UsersValid;
    ConfiguredParts(tab, rank, u, v);
    forall s: Sym | s < |tab.t|
      ensures Survives(tab, u', v, s) <==> SavedKeeps(tab, u, v, blanked, s)
    {
      SolutionSurvives(tab, u, v, s);
      if IsTyped(Typ(tab.t, s)) {
        SavedSurvives(tab, rank, u, u', v, printed, blanked, s);
      } else {
        UntypedKept(tab, u, u', v, blanked, s);
      }
    }
    SolutionIfSurvives(tab, u', v);
  }

  lemma ConfiguredParts(tab: Table, rank: Rank, u: Users, v: Values)
    requires Configured(tab, rank, u, v)
    ensures Layered(tab, rank) && PicksMember(tab, u) && IsSolution(tab, u, v) && ChoicesBuilt(tab)
  {
  }

  lemma UntypedKept(tab: Table, u: Users, u': Users, v: Values, blanked: set<Sym>, s: Sym)
    requires !IsTyped(Typ(tab.t, s)) && Survives(tab, u, v, s)
    ensures Survives(tab, u', v, s) && SavedKeeps(tab, u, v, blanked, s)
  {
    UntypedSurvives(tab, u, u', v, blanked, s);
  }

  /** The users' values restored are ones a solution can be computed for. */
  lemma RestoredPicks(tab: Table, rank: Rank, v: Values, printed: set<Sym>, blanked: set<Sym>, u: Users)
    requires Layered(tab, rank) && ChoicesBuilt(tab) && RestoredAll(tab, v, printed, blanked, u) && |u.val| == |tab.t|
    ensures PicksMember(tab, u)
  {
    hide Layered, ValueBuilt, Joint, RestoredAt;
    forall c: Sym | Def(tab, c).isChoice && Val(u.val, c).pick.Some?
      ensures Val(u.val, c).pick.value in Def(tab, c).values
    {
      assert c < |tab.t| && RestoredOne(tab, v, printed, blanked, u, c);
      var x := Val(u.val, c).pick.value;
      InTable(tab, rank, x);
      Membership(tab, rank, x, c);
    }
  }

  /** A boolean choice is always within reach. */
  lemma BooleanChoiceKeeps(tab: Table, u: Users, v: Values, c: Sym)
    requires Typ(tab.t, c) == Boolean && Survives(tab, u, v, c)
    ensures ChoiceKeeps(tab, v, c)
  {
    hide Visibility, Eval, Pick, BaseTri;
  }

  // ----- minimal configurations -----

  /** sym_choice_default. */
  function ChoiceDefault(tab: Table, v: Values, c: Sym): Option<Sym> {
    var mv := Val(v, tab.modules).tri;
    if DefaultPick(tab, mv, v, c, 0).Some? then DefaultPick(tab, mv, v, c, 0) else FirstVisible(tab, mv, v, c, 0)
  }

  /** A boolean value worth y that its choice picks anyway is left out of a minimal save,
      unless the choice is optional. */
  predicate Skipped(tab: Table, v: Values, optional: set<Sym>, x: Sym) {
    && Def(tab, x).choiceOf.Some? && Def(tab, x).choiceOf.value !in optional
    && ChoiceDefault(tab, v, Def(tab, x).choiceOf.value) == Some(x)
    && Typ(tab.t, x) == Boolean && Val(v, x).tri == YES
  }

  /** Such a value, in a choice worth y: the first default that applies to a visible value is
      for it, or none does and it is the first visible one. */
  lemma SkippedRule(tab: Table, rank: Rank, u: Users, v: Values, optional: set<Sym>, c: Sym, x: Sym)
    requires OpenChoice(tab, rank, u, v, c) && Def(tab, x).choiceOf == Some(c)
    ensures Skipped(tab, v, optional, x) <==>
      && c !in optional && Typ(tab.t, x) == Boolean && Val(v, x).tri == YES
      && ((exists j: nat :: FirstOffer(tab, v, c, 0, j, Some(x))) ||
          (NoOffer(tab, v, c, 0) && exists j: nat :: FirstShown(tab, v, c, 0, j, Some(x))))
  {
    hide OpenChoice, ValueVisible, Shown, DefaultOffers, DefaultPick, FirstVisible;
    DefaultPickFirst(tab, rank, u, v, c, 0);
    FirstVisibleFirst(tab, rank, u, v, c, 0);
    OneOffer(tab, v, c, x);
    var p := DefaultPick(tab, Val(v, tab.modules).tri, v, c, 0);
    if p.Some? {
      var j: nat :| FirstOffer(tab, v, c, 0, j, p);
      assert !NoOffer(tab, v, c, 0);
    } else {
      NoneShown(tab, rank, u, v, c);
    }
  }

  /** The first one to offer, and the first one visible, are unique. */
  lemma OneOffer(tab: Table, v: Values, c: Sym, x: Sym)
    ensures forall j: nat, j': nat, p, p' ::
      FirstOffer(tab, v, c, 0, j, p) && FirstOffer(tab, v, c, 0, j', p') ==> p == p'
    ensures forall j: nat, j': nat, p, p' ::
      FirstShown(tab, v, c, 0, j, p) && FirstShown(tab, v, c, 0, j', p') ==> p == p'
    ensures forall j: nat, p :: FirstOffer(tab, v, c, 0, j, p) ==> !NoOffer(tab, v, c, 0)
  {
    hide Shown, DefaultOffers;
  }

  lemma NoneShown(tab: Table, rank: Rank, u: Users, v: Values, c: Sym)
    requires OpenChoice(tab, rank, u, v, c)
    ensures FirstVisible(tab, Val(v, tab.modules).tri, v, c, 0).None? ==>
      forall j: nat, p :: !FirstShown(tab, v, c, 0, j, p)
  {
    hide OpenChoice, Shown, ValueVisible;
    forall j: nat, p | FirstShown(tab, v, c, 0, j, p)
      ensures FirstVisible(tab, Val(v, tab.modules).tri, v, c, 0).Some?
    {
      VisibleFound(tab, rank, u, v, c, 0, j);
    }
  }

  lemma {:induction false} VisibleFound(tab: Table, rank: Rank, u: Users, v: Values, c: Sym, i: nat, j: nat)
    requires OpenChoice(tab, rank, u, v, c) && i <= j < |Def(tab, c).values| && Shown(tab, v, Def(tab, c).values[j])
    ensures FirstVisible(tab, Val(v, tab.modules).tri, v, c, i).Some?
    decreases j - i
  {
    hide OpenChoice, Shown, ValueVisible;
    MemberShown(tab, rank, u, v, c, Def(tab, c).values[j]);
    if i < j {
      VisibleFound(tab, rank, u, v, c, i + 1, j);
    }
  }

  /** What a minimal save prints. */
  predicate MinimalHasLine(tab: Table, v: Values, optional: set<Sym>, s: Sym) {
    && !Def(tab, s).isChoice && MinimalPrints(tab, v, s)
    && (if Def(tab, s).choiceOf.Some? then !Skipped(tab, v, optional, s) else !Def(tab, s).auto)
  }

  ghost predicate MinimalHaveLines(tab: Table, v: Values, optional: set<Sym>, printed: set<Sym>) {
    forall s: Sym :: s < |tab.t| && IsTyped(Typ(tab.t, s)) && Vis(tab, v, s) != NO && !Def(tab, s).isChoice ==>
      (s in printed <==> MinimalHasLine(tab, v, optional, s))
  }

  /** A choice worth y whose pick was left out is selected as y. */
  ghost predicate PickKeeps(tab: Table, v: Values, optional: set<Sym>, c: Sym) {
    Val(v, c).tri == YES && Val(v, c).pick.Some? && Skipped(tab, v, optional, Val(v, c).pick.value) ==>
      Rev(tab, v, c) == YES
  }

  ghost predicate MinimalSavedKeeps(tab: Table, u: Users, v: Values, optional: set<Sym>, s: Sym) {
    if !IsTyped(Typ(tab.t, s)) then true
    else if Def(tab, s).isChoice then ChoiceKeeps(tab, v, s) && PickKeeps(tab, v, optional, s)
    else if Def(tab, s).choiceOf.Some? then true
    else MinimalKeeps(tab, u, v, s)
  }

  /** A value of a choice is printed unless it is n or left out. */
  lemma ValueLine(tab: Table, rank: Rank, u: Users, v: Values, optional: set<Sym>, x: Sym, c: Sym)
    requires Configured(tab, rank, u, v) && Def(tab, x).choiceOf == Some(c)
    ensures x < |tab.t| && IsTyped(Typ(tab.t, x)) && !Def(tab, x).isChoice
    ensures Val(v, x).tri != NO ==> Vis(tab, v, x) != NO
    ensures Vis(tab, v, x) != NO ==>
      (MinimalHasLine(tab, v, optional, x) <==> Val(v, x).tri != NO && !Skipped(tab, v, optional, x))
  {
    hide Vis, IsSolution, PicksMember, Layered, ValueBuilt, Skipped, Survives;
    ToldValue(tab, rank, u, v, c, x);
    Membership(tab, rank, x, c);
    NoDefaults(tab, x, c);
    SolutionSurvives(tab, u, v, x);
    SpelledValue(tab, u, v, x);
    NoDefaultString(tab, v, x);
  }

  lemma NoDefaultString(tab: Table, v: Values, x: Sym)
    requires Def(tab, x).choiceOf.Some? && IsLogical(Typ(tab.t, x)) && Def(tab, x).defaults == []
    ensures StringDefault(tab, v, x) == "n" && Rev(tab, v, x) == NO
  {
    assert DefaultTri(tab, v, x) == NO;
  }

  /** The pick of a choice worth y was left out. */
  lemma SkippedSurvives(tab: Table, rank: Rank, u: Users, v: Values, printed: set<Sym>, u': Users, c: Sym, p: Sym,
                        optional: set<Sym>)
    requires Configured(tab, rank, u, v) && c < |tab.t| && Def(tab, c).isChoice
    requires ChoiceRestored(tab, v, printed, u', c)
    requires Val(v, c) == Value(YES, "n", Some(p)) && Skipped(tab, v, optional, p) && p !in printed
    ensures Survives(tab, u', v, c) <==> Rev(tab, v, c) == YES
  {
    hide Vis, Rev, IsSolution, PicksMember, Layered, Survives, TriValue, ChoicesBuilt, Shown, ValueVisible, DefaultPick,
         FirstVisible, TypeNow, ValueBuilt;
    ChoiceShape(tab, rank, u, v, c);
    var p' := OpenPick(tab, rank, u, v, c);
    assert !ToldOf(tab, v, printed, c, YES) && !ToldOf(tab, v, printed, c, MOD);
    TriValueOfChoice(tab, u', v, c);
    ComputeOfChoice(tab, u', v, c);
    if TypeNow(tab, Val(v, tab.modules).tri, c, Vis(tab, v, c)) == Boolean {
      RevOfBoolean(tab, v, c);
    }
    SurvivesAs(tab, u', v, c);
  }

  lemma MinimalChoiceSurvives(tab: Table, rank: Rank, u: Users, u': Users, v: Values, printed: set<Sym>,
                              optional: set<Sym>,
                              c: Sym)
    requires Configured(tab, rank, u, v) && MinimalHaveLines(tab, v, optional, printed)
    requires c < |tab.t| && Def(tab, c).isChoice && ChoiceRestored(tab, v, printed, u', c)
    ensures Survives(tab, u', v, c) <==> ChoiceKeeps(tab, v, c) && PickKeeps(tab, v, optional, c)
  {
    hide Vis, Rev, IsSolution, PicksMember, Layered, Survives, ChoicesBuilt, ChoiceKeeps, Skipped, MinimalHasLine,
         ChoiceRestored;
    forall x: Sym | Def(tab, x).choiceOf == Some(c)
      ensures x in printed <== Val(v, x).tri != NO && !Skipped(tab, v, optional, x)
      ensures x !in printed <== Skipped(tab, v, optional, x) && Vis(tab, v, x) != NO
    {
      ValueLine(tab, rank, u, v, optional, x, c);
    }
    if Val(v, c).tri == YES {
      var p := OpenPick(tab, rank, u, v, c);
      if Skipped(tab, v, optional, p) {
        SkippedSurvives(tab, rank, u, v, printed, u', c, p, optional);
        OpenKeeps(tab, v, c);
      } else {
        assert HasLearnt(tab, rank, u, v, printed, u', c);
        ChoiceSurvives(tab, rank, u, v, printed, u', c);
      }
    } else {
      ClosedValues(tab, rank, u, v, c);
      NoneSkipped(tab, v, optional, c);
      assert HasLearnt(tab, rank, u, v, printed, u', c);
      ChoiceSurvives(tab, rank, u, v, printed, u', c);
    }
  }

  lemma NoneSkipped(tab: Table, v: Values, optional: set<Sym>, c: Sym)
    requires Val(v, c).tri != YES
    requires forall x: Sym :: Def(tab, x).choiceOf == Some(c) ==> Val(v, x).tri <= Val(v, c).tri
    ensures forall x: Sym :: Def(tab, x).choiceOf == Some(c) ==> !Skipped(tab, v, optional, x)
  {
    hide ChoiceDefault;
  }

  /** A value of a choice always keeps its value. */
  lemma MinimalValueSurvives(tab: Table, rank: Rank, u: Users, u': Users, v: Values, printed: set<Sym>,
                             optional: set<Sym>,
                             x: Sym)
    requires Configured(tab, rank, u, v) && MinimalHaveLines(tab, v, optional, printed)
    requires Def(tab, x).choiceOf.Some? && RestoredAt(tab, v, printed, {}, u', x)
    ensures Survives(tab, u', v, x)
  {
    hide Vis, IsSolution, PicksMember, ValueBuilt, Survives, Layered, MinimalHasLine, ChoiceDefault;
    var c := Def(tab, x).choiceOf.value;
    ValueLine(tab, rank, u, v, optional, x, c);
    Membership(tab, rank, x, c);
    NoDefaults(tab, x, c);
    SolutionSurvives(tab, u, v, x);
    ValueOfMember(tab, u, v, x);
    ValueOfMember(tab, u', v, x);
  }

  lemma MinimalSavedSurvives(tab: Table, rank: Rank, u: Users, u': Users, v: Values, printed: set<Sym>,
                             optional: set<Sym>,
                             s: Sym)
    requires Configured(tab, rank, u, v) && UsersValid(tab, u) && MinimalHaveLines(tab, v, optional, printed)
    requires s < |tab.t| && IsTyped(Typ(tab.t, s)) && RestoredOne(tab, v, printed, {}, u', s)
    ensures Survives(tab, u', v, s) <==> MinimalSavedKeeps(tab, u, v, optional, s)
  {
    hide Vis, IsSolution, PicksMember, Layered, Survives, UsersValid, ChoiceKeeps, PickKeeps, MinimalKeeps,
         ChoiceRestored,
         RestoredAt, ChoicesBuilt, MinimalPrints;
    SolutionSurvives(tab, u, v, s);
    if Def(tab, s).isChoice {
      MinimalChoiceSurvives(tab, rank, u, u', v, printed, optional, s);
    } else if Def(tab, s).choiceOf.Some? {
      MinimalValueSurvives(tab, rank, u, u', v, printed, optional, s);
    } else {
      MinimalSurvives(tab, u, u', v, printed, s);
    }
  }

  /** The users' values restored from a minimal save lead to the same configuration if
      and only if every visible symbol that cannot be changed or comes from the
      environment has its default, the ranges of the others settle, and choices are
      within reach of the lines of their values. */
  lemma MinimalExact(tab: Table, rank: Rank, u: Users, u': Users, v: Values, printed: set<Sym>, optional: set<Sym>)
    requires Configured(tab, rank, u, v) && UsersValid(tab, u) && MinimalHaveLines(tab, v, optional, printed)
    requires RestoredAll(tab, v, printed, {}, u')
    ensures IsSolution(tab, u', v) <==> forall s: Sym :: s < |tab.t| ==> MinimalSavedKeeps(tab, u, v, optional, s)
  {
    hide MinimalSavedKeeps, Configured, Compute, RestoredOne, MinimalHaveLines, UsersValid;
    ConfiguredParts(tab, rank, u, v);
    forall s: Sym | s < |tab.t|
      ensures Survives(tab, u', v, s) <==> MinimalSavedKeeps(tab, u, v, optional, s)
    {
      SolutionSurvives(tab, u, v, s);
      if IsTyped(Typ(tab.t, s)) {
        MinimalSavedSurvives(tab, rank, u, u', v, printed, optional, s);
      } else {
        UntypedKept(tab, u, u', v, {}, s);
        UntypedMinimal(tab, u, v, optional, s);
      }
    }
    SolutionIfSurvives(tab, u', v);
  }

  lemma UntypedMinimal(tab: Table, u: Users, v: Values, optional: set<Sym>, s: Sym)
    requires !IsTyped(Typ(tab.t, s))
    ensures MinimalSavedKeeps(tab, u, v, optional, s)
  {
  }

  /** A boolean choice that is optional, or selected wherever it is visible, as the menus
      build one that is not, is always within reach. */
  lemma BooleanPickKeeps(tab: Table, rank: Rank, u: Users, v: Values, optional: set<Sym>, c: Sym)
    requires Configured(tab, rank, u, v) && c < |tab.t| && Def(tab, c).isChoice && Typ(tab.t, c) == Boolean
    requires Vis(tab, v, c) != NO && c !in optional ==> Rev(tab, v, c) != NO
    ensures PickKeeps(tab, v, optional, c)
  {
    hide Layered, IsSolution, PicksMember, ChoicesBuilt, Survives, Pick, TriValue, ChoiceDefault, ValueVisible, Vis,
         Rev;
    ChoiceShape(tab, rank, u, v, c);
    if Val(v, c).tri == YES {
      var p := OpenPick(tab, rank, u, v, c);
      TriValueOfChoice(tab, u, v, c);
      RevNotMod(tab, v, c);
    }
  }

  lemma RevNotMod(tab: Table, v: Values, c: Sym)
    requires Typ(tab.t, c) == Boolean
    ensures Rev(tab, v, c) != MOD
  {
    hide Visibility, Eval;
  }
}
