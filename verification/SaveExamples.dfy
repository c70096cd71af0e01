/** Small tables on which a save and a load lose a value: the conditions of the
    round-trip theorems are needed. */
module SaveExamples {
  import opened Tristates
  import opened Exprs
  import opened NumText
  import opened SymbolEquations
  import opened Layering
  import opened Solutions
  import opened ConfText
  import opened Saving
  import opened SavedChoices
  import opened Configurations

  const A: Sym := 3

  const UNSET_A: string := "CONFIG_A is not set"

  const EMPTY: SymDef := SymDef([], [], [], None, None, false, [], None, false, [])

  /** y, m, n and one symbol more. */
  function OneSymbol(y: SymType, d: SymDef, modules: Sym): Table {
    Table([SymInfo("n", Unknown, true), SymInfo("m", Unknown, true), SymInfo("y", Unknown, true),
           SymInfo("A", y, false)],
          [EMPTY, EMPTY, EMPTY, d], modules)
  }

  function OneValue(x: Value): Values {
    [Value(NO, "n", None), Value(MOD, "m", None), Value(YES, "y", None), x]
  }

  /** An int symbol with a prompt that something selects: it counts as not
      changeable, so a minimal save leaves out the number the user entered. */
  const SELECTED: SymDef := SymDef([None], [], [], None, Some(Symbol(YES_SYM)), false, [], None, false, [])

  /** A tristate symbol with "default y" and a prompt under m. */
  const HALF_SHOWN: SymDef :=
    SymDef([Some(Symbol(MOD_SYM))], [Default(None, Symbol(YES_SYM))], [], None, None, false, [], None, false, [])

  /** A symbol with a prompt. */
  const SHOWN: SymDef := SymDef([None], [], [], None, None, false, [], None, false, [])

  function SameRank(): Rank {
    (s: Sym) => if s == A then 1 else 0
  }

  lemma OneSymbolLayered(y: SymType, d: SymDef, modules: Sym)
    requires d == SELECTED || d == HALF_SHOWN || d == SHOWN
    requires IsTyped(y) && modules < 3
    ensures Layered(OneSymbol(y, d, modules), SameRank())
    ensures ChoiceFree(OneSymbol(y, d, modules))
  {
    var tab := OneSymbol(y, d, modules);
    assert WellFormed(tab.t);
    forall s: Sym | s < |tab.t| && IsTyped(Typ(tab.t, s))
      ensures SymbolLayered(tab, SameRank(), s)
    {
      assert s == A;
    }
  }

  lemma OneSymbolSolved(y: SymType, d: SymDef, modules: Sym, u: Users, x: Value)
    requires IsTyped(y) && modules < 3
    requires Compute(OneSymbol(y, d, modules), u, Val(OneValue(x), modules).tri, OneValue(x), A) == x
    ensures IsSolution(OneSymbol(y, d, modules), u, OneValue(x))
  {
    hide TriValue, StrValue, Pick;
    var tab, v := OneSymbol(y, d, modules), OneValue(x);
    forall s: Sym | s < |v|
      ensures v[s] == Compute(tab, u, Val(v, tab.modules).tri, v, s)
    {
      if s != A {
        assert !IsTyped(Typ(tab.t, s));
      }
    }
  }

  /** There are no choices here. */
  lemma OneSymbolKeeps(y: SymType, d: SymDef, modules: Sym, u: Users, v: Values, blanked: set<Sym>)
    requires d == SELECTED || d == HALF_SHOWN || d == SHOWN
    ensures var tab := OneSymbol(y, d, modules);
      FullKeeps(tab, u, v, blanked, A) <==> SavedKeeps(tab, u, v, blanked, A)
  {
    hide Vis, Rev, HasDefault, RangeSettles;
  }

  lemma OneSymbolConfigured(y: SymType, d: SymDef, modules: Sym, u: Users, v: Values)
    requires d == SELECTED || d == HALF_SHOWN || d == SHOWN
    requires IsTyped(y) && modules < 3 && IsSolution(OneSymbol(y, d, modules), u, v)
    ensures Configured(OneSymbol(y, d, modules), SameRank(), u, v)
  {
    hide IsSolution, Layered;
    OneSymbolLayered(y, d, modules);
    var tab := OneSymbol(y, d, modules);
    forall s: Sym
      ensures !Def(tab, s).isChoice && Def(tab, s).choiceOf.None?
    {
    }
  }

  lemma OneSymbolClean(y: SymType, d: SymDef, modules: Sym, x: Value)
    requires CleanValue(y, StringOf(W(OneSymbol(y, d, modules), OneValue(x)), A))
    requires IsTyped(y)
    ensures Clean(OneSymbol(y, d, modules), OneValue(x), [Item(A)])
    ensures Clean(OneSymbol(y, d, modules), OneValue(x), [Item(A), Title(UNSET_A, true)])
  {
    hide StringOf, CleanValue;
    var tab := OneSymbol(y, d, modules);
    forall s: Sym | s < |tab.t| && IsTyped(Typ(tab.t, s))
      ensures Printable(tab, OneValue(x), s)
    {
      assert s == A;
      FindA(tab.t, y);
    }
  }

  lemma FindA(t: Symbols, y: SymType)
    requires t == OneSymbol(y, EMPTY, 0).t
    ensures Find(t, "A") == Some(A) && CleanName("A")
  {
    assert FindFrom(t, "A", 3) == Some(A);
    assert FindFrom(t, "A", 2) == Some(A);
    assert FindFrom(t, "A", 1) == Some(A);
  }

  /** A minimal save loses the number entered for an int symbol that is selected. */
  lemma SelectedNumberLost() returns (tab: Table, u: Users, v: Values)
    ensures Saveable(tab, SameRank(), u, v, [Item(A)])
    ensures Solved(tab, SameRank(), ReadFrom(tab, MinimalText(tab, v, [Item(A)], {}))) != v
  {
    hide Saveable, Solved, ReadFrom, MinimalText, MinimalKeeps;
    tab, u, v := OneSymbol(Int, SELECTED, NO_SYM), SelectedUser(), SelectedUser().val;
    SelectedSaveable();
    MinimalRoundTrip(tab, SameRank(), u, v, [Item(A)], {});
    SelectedNotKept();
    assert !MinimalSavedKeeps(tab, u, v, {}, A);
  }

  function SelectedUser(): Users {
    Users({A}, OneValue(Value(NO, "5", None)))
  }

  lemma SelectedNotKept()
    ensures !MinimalKeeps(OneSymbol(Int, SELECTED, NO_SYM), SelectedUser(), SelectedUser().val, A)
  {
    hide Visibility, RevTri;
    SelectedValue();
  }

  lemma SelectedSaveable()
    ensures var u := SelectedUser();
      Saveable(OneSymbol(Int, SELECTED, NO_SYM), SameRank(), u, u.val, [Item(A)])
  {
    hide Layered, ChoiceFree, Clean, IsSolution, Configured, StringValid;
    var tab, u := OneSymbol(Int, SELECTED, NO_SYM), SelectedUser();
    OneSymbolLayered(Int, SELECTED, NO_SYM);
    SelectedValue();
    OneSymbolSolved(Int, SELECTED, NO_SYM, u, Value(NO, "5", None));
    OneSymbolConfigured(Int, SELECTED, NO_SYM, u, u.val);
    OneSymbolClean(Int, SELECTED, NO_SYM, Value(NO, "5", None));
    FiveIsValid();
    assert Items([Item(A)]) == {A} + Items([]);
  }

  lemma FiveIsValid()
    ensures StringValid(Int, "5")
  {
    assert IsDigit("5"[0]);
  }

  lemma SelectedValue()
    ensures var tab := OneSymbol(Int, SELECTED, NO_SYM);
      var v := OneValue(Value(NO, "5", None));
      && Compute(tab, Users({A}, v), NO, v, A) == Value(NO, "5", None)
      && Visibility(tab, NO, v, A) == YES && RevTri(tab, NO, v, A) == YES
  {
    var tab := OneSymbol(Int, SELECTED, NO_SYM);
    var v := OneValue(Value(NO, "5", None));
    assert PromptsTri(tab, v, A, 0) == NO;
    assert PromptsTri(tab, v, A, 1) == YES;
  }

  /** A full save turns the default y of a symbol shown only as m into m. */
  lemma DefaultAboveVisibilityLost() returns (tab: Table, u: Users, v: Values)
    ensures Saveable(tab, SameRank(), u, v, [Item(A)])
    ensures Solved(tab, SameRank(), ReadFrom(tab, FullText(tab, v, "", [Item(A)], FullSet(tab, v)))) != v
  {
    hide Saveable, Solved, ReadFrom, FullText, FullBlanked, FullKeeps, FullSet;
    tab, u, v := OneSymbol(Tristate, HALF_SHOWN, YES_SYM), NO_USERS, OneValue(Value(YES, "n", None));
    HalfShownSaveable();
    AllPrinted(tab, v);
    FullRoundTrip(tab, SameRank(), u, v, "", [Item(A)], FullSet(tab, v));
    HalfShownNotKept(u, FullBlanked(tab, "", [Item(A)], FullSet(tab, v)));
    OneSymbolKeeps(Tristate, HALF_SHOWN, YES_SYM, u, v, FullBlanked(tab, "", [Item(A)], FullSet(tab, v)));
  }

  lemma HalfShownNotKept(u: Users, blanked: set<Sym>)
    ensures !FullKeeps(OneSymbol(Tristate, HALF_SHOWN, YES_SYM), u, OneValue(Value(YES, "n", None)), blanked, A)
  {
    hide Visibility, RevTri;
    HalfShownValue();
  }

  lemma HalfShownText()
    ensures var tab, v := OneSymbol(Tristate, HALF_SHOWN, YES_SYM), OneValue(Value(YES, "n", None));
      CleanValue(Tristate, StringOf(W(tab, v), A))
  {
  }

  lemma HalfShownSaveable()
    ensures Saveable(OneSymbol(Tristate, HALF_SHOWN, YES_SYM), SameRank(), NO_USERS,
                     OneValue(Value(YES, "n", None)), [Item(A)])
  {
    hide Layered, ChoiceFree, Clean, IsSolution, Configured, StringOf, CleanValue, Compute, Visibility, RevTri;
    OneSymbolLayered(Tristate, HALF_SHOWN, YES_SYM);
    HalfShownValue();
    HalfShownText();
    OneSymbolSolved(Tristate, HALF_SHOWN, YES_SYM, NO_USERS, Value(YES, "n", None));
    OneSymbolConfigured(Tristate, HALF_SHOWN, YES_SYM, NO_USERS, OneValue(Value(YES, "n", None)));
    OneSymbolClean(Tristate, HALF_SHOWN, YES_SYM, Value(YES, "n", None));
    assert Items([Item(A)]) == {A} + Items([]);
  }

  lemma HalfShownValue()
    ensures var tab := OneSymbol(Tristate, HALF_SHOWN, YES_SYM);
      var v := OneValue(Value(YES, "n", None));
      && Compute(tab, NO_USERS, YES, v, A) == Value(YES, "n", None)
      && Visibility(tab, YES, v, A) == MOD && RevTri(tab, YES, v, A) == NO
  {
    var tab := OneSymbol(Tristate, HALF_SHOWN, YES_SYM);
    var v := OneValue(Value(YES, "n", None));
    assert PromptsTri(tab, v, A, 0) == NO;
    assert PromptsTri(tab, v, A, 1) == MOD;
    assert FirstDefault(tab, v, Def(tab, A).defaults, 0) == 0;
  }

  /** A menu titled "CONFIG_A is not set" behind the line of A=y turns A off. */
  lemma TitledSymbolLost() returns (tab: Table, u: Users, v: Values)
    ensures Saveable(tab, SameRank(), u, v, [Item(A), Title(UNSET_A, true)])
    ensures var text := FullText(tab, v, "", [Item(A), Title(UNSET_A, true)], FullSet(tab, v));
      Solved(tab, SameRank(), ReadFrom(tab, text)) != v
  {
    hide Saveable, Solved, ReadFrom, FullText, FullBlanked, FullKeeps, FullSet;
    var entries := [Item(A), Title(UNSET_A, true)];
    tab, u, v := OneSymbol(Boolean, SHOWN, NO_SYM), TitledUser(), TitledUser().val;
    TitledSaveable();
    AllPrinted(tab, v);
    FullRoundTrip(tab, SameRank(), u, v, "", entries, FullSet(tab, v));
    TitledBlanked(FullSet(tab, v));
    OneSymbolKeeps(Boolean, SHOWN, NO_SYM, u, v, {A});
    TitledNotKept();
  }

  function TitledUser(): Users {
    Users({A}, OneValue(Value(YES, "n", None)))
  }

  lemma TitledBlanked(all: set<Sym>)
    ensures FullBlanked(OneSymbol(Boolean, SHOWN, NO_SYM), "", [Item(A), Title(UNSET_A, true)], all) == {A}
  {
    hide ParseLine, Find;
    var tab := OneSymbol(Boolean, SHOWN, NO_SYM);
    EmptyRoot(tab);
    var none: set<Sym> := {};
    assert none - {A} == {};
    assert [Item(A), Title(UNSET_A, true)][1..] == [Title(UNSET_A, true)];
    TitleBlanks(all);
    TitleBlanks(all - {A});
  }

  lemma TitleBlanks(todo: set<Sym>)
    ensures Blanked(OneSymbol(Boolean, SHOWN, NO_SYM), [Title(UNSET_A, true)], todo, true, {}) == {A}
  {
    hide ParseLine, Find;
    var tab := OneSymbol(Boolean, SHOWN, NO_SYM);
    assert "# " + UNSET_A + "\n" == "# " + PREFIX + "A" + " " + NOT_SET + "\n";
    FindA(tab.t, Boolean);
    ParseUnset("A");
    assert UnsetBy(tab, UNSET_A) == {A} == {} + {A};
    assert [Title(UNSET_A, true)][1..] == [];
  }

  lemma TitledNotKept()
    ensures !FullKeeps(OneSymbol(Boolean, SHOWN, NO_SYM), TitledUser(), TitledUser().val, {A}, A)
  {
    hide Visibility, RevTri;
    TitledValue();
  }

  lemma TitledValue()
    ensures var tab, u := OneSymbol(Boolean, SHOWN, NO_SYM), TitledUser();
      && Compute(tab, u, NO, u.val, A) == Value(YES, "n", None)
      && Visibility(tab, NO, u.val, A) == YES && RevTri(tab, NO, u.val, A) == NO
  {
    var tab, v := OneSymbol(Boolean, SHOWN, NO_SYM), TitledUser().val;
    assert PromptsTri(tab, v, A, 0) == NO;
    assert PromptsTri(tab, v, A, 1) == YES;
  }

  lemma TitledText()
    ensures CleanValue(Boolean, StringOf(W(OneSymbol(Boolean, SHOWN, NO_SYM), TitledUser().val), A))
  {
  }

  lemma TitledSaveable()
    ensures var u := TitledUser();
      Saveable(OneSymbol(Boolean, SHOWN, NO_SYM), SameRank(), u, u.val, [Item(A), Title(UNSET_A, true)])
  {
    hide Layered, ChoiceFree, Clean, IsSolution, Configured, StringOf, CleanValue, Compute, Visibility, RevTri;
    OneSymbolLayered(Boolean, SHOWN, NO_SYM);
    TitledValue();
    TitledText();
    OneSymbolSolved(Boolean, SHOWN, NO_SYM, TitledUser(), Value(YES, "n", None));
    OneSymbolConfigured(Boolean, SHOWN, NO_SYM, TitledUser(), TitledUser().val);
    OneSymbolClean(Boolean, SHOWN, NO_SYM, Value(YES, "n", None));
    assert Items([Item(A), Title(UNSET_A, true)]) == {A} + Items([Title(UNSET_A, true)]);
  }

  // ----- a choice -----

  const CHOICE: Sym := 3
  const MEMBER: Sym := 4

  /** A tristate choice nothing selects, that is, an optional one, with one value. */
  const OPTIONAL: SymDef := SymDef([None], [], [], None, None, true, [MEMBER], None, true, [])
  const CHOSEN: SymDef := SymDef([Some(Symbol(CHOICE))], [], [], None, None, false, [], Some(CHOICE), false, [])

  function ChoiceTable(): Table {
    Table([SymInfo("n", Unknown, true), SymInfo("m", Unknown, true), SymInfo("y", Unknown, true),
           SymInfo("", Tristate, false), SymInfo("A", Tristate, false)],
          [EMPTY, EMPTY, EMPTY, OPTIONAL, CHOSEN], YES_SYM)
  }

  /** The user set the choice to m, and its value to nothing. */
  function ChoiceUser(): Users {
    Users({CHOICE}, ChoiceValues())
  }

  function ChoiceValues(): Values {
    [Value(NO, "n", None), Value(MOD, "m", None), Value(YES, "y", None), Value(MOD, "n", None), Value(NO, "n", None)]
  }

  function ChoiceRank(): Rank {
    (s: Sym) => if s == MEMBER then 2 else if s == CHOICE then 1 else 0
  }

  lemma ChoiceLayered()
    ensures SymbolLayered(ChoiceTable(), ChoiceRank(), CHOICE)
  {
  }

  lemma MemberLayered()
    ensures SymbolLayered(ChoiceTable(), ChoiceRank(), MEMBER)
  {
  }

  lemma ChoiceTableLayered()
    ensures Layered(ChoiceTable(), ChoiceRank())
  {
    hide SymbolLayered;
    ChoiceLayered();
    MemberLayered();
    ChoiceNames();
    forall s: Sym | s < |ChoiceTable().t| && IsTyped(Typ(ChoiceTable().t, s))
      ensures SymbolLayered(ChoiceTable(), ChoiceRank(), s)
    {
      assert s == CHOICE || s == MEMBER;
    }
  }

  lemma ChoiceNames()
    ensures WellFormed(ChoiceTable().t)
  {
  }

  lemma ChoiceTableBuilt()
    ensures ChoicesBuilt(ChoiceTable())
  {
    var tab := ChoiceTable();
    forall s: Sym | s < |tab.t|
      ensures Def(tab, s).choiceOf.Some? ==> s == MEMBER
      ensures Def(tab, s).isChoice ==> s == CHOICE
    {
    }
  }

  lemma ChoiceTableSolved()
    ensures IsSolution(ChoiceTable(), ChoiceUser(), ChoiceValues())
  {
    hide Pick;
    var tab, u, v := ChoiceTable(), ChoiceUser(), ChoiceValues();
    ChoiceTableSeen();
    forall s: Sym | s < |v|
      ensures v[s] == Compute(tab, u, Val(v, tab.modules).tri, v, s)
    {
      assert s == CHOICE || s == MEMBER || !IsTyped(Typ(tab.t, s));
    }
  }

  lemma ChoiceTableSeen()
    ensures Vis(ChoiceTable(), ChoiceValues(), CHOICE) == YES && Vis(ChoiceTable(), ChoiceValues(), MEMBER) == MOD
    ensures Rev(ChoiceTable(), ChoiceValues(), CHOICE) == NO
  {
    var tab, v := ChoiceTable(), ChoiceValues();
    assert PromptsTri(tab, v, CHOICE, 0) == NO && PromptsTri(tab, v, MEMBER, 0) == NO;
    assert PromptsTri(tab, v, CHOICE, 1) == YES && PromptsTri(tab, v, MEMBER, 1) == MOD;
  }

  lemma ChoiceTableClean()
    ensures Clean(ChoiceTable(), ChoiceValues(), [Item(MEMBER)])
  {
    var tab := ChoiceTable();
    assert FindFrom(tab.t, "A", 4) == Some(MEMBER);
    assert FindFrom(tab.t, "A", 3) == Some(MEMBER);
    assert FindFrom(tab.t, "A", 2) == Some(MEMBER);
    assert FindFrom(tab.t, "A", 1) == Some(MEMBER);
    assert CleanName("A");
    forall s: Sym | s < |tab.t| && IsTyped(Typ(tab.t, s)) && !Def(tab, s).isChoice
      ensures Printable(tab, ChoiceValues(), s)
    {
      assert s == MEMBER;
    }
  }

  /** An optional choice worth m none of whose values is set comes back as n: it has no
      line, and no line of a value tells it. */
  lemma OptionalChoiceLost()
    ensures Saveable(ChoiceTable(), ChoiceRank(), ChoiceUser(), ChoiceValues(), [Item(MEMBER)])
    ensures var tab, v := ChoiceTable(), ChoiceValues();
      Solved(tab, ChoiceRank(), ReadFrom(tab, FullText(tab, v, "", [Item(MEMBER)], FullSet(tab, v)))) != v
  {
    hide Solved, ReadFrom, FullText, FullBlanked, FullSet, Layered, ChoicesBuilt, IsSolution, Clean, Vis, Rev;
    var tab, u, v := ChoiceTable(), ChoiceUser(), ChoiceValues();
    ChoiceTableLayered();
    ChoiceTableBuilt();
    ChoiceTableSolved();
    ChoiceTableSeen();
    ChoiceTableClean();
    assert Items([Item(MEMBER)]) == {MEMBER} + Items([]);
    AllPrinted(tab, v);
    FullRoundTrip(tab, ChoiceRank(), u, v, "", [Item(MEMBER)], FullSet(tab, v));
    assert !ChoiceKeeps(tab, v, CHOICE);
    assert !SavedKeeps(tab, u, v, FullBlanked(tab, "", [Item(MEMBER)], FullSet(tab, v)), CHOICE);
  }
}
