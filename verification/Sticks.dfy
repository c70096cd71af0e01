/** What setting a value does to the next evaluation (symbol.c:496-573). */
module UserValues {
  import opened Tristates
  import opened Exprs
  import opened SymbolEquations
  import opened Layering
  import opened Solutions
  import opened Choices

  /** sym_tristate_within_range, on a solved table. */
  predicate WithinRange(tab: Table, v: Values, s: Sym, val: Tri) {
    var mv := ModulesIn(tab, v);
    var vis, rev := Visibility(tab, mv, v, s), RevTri(tab, mv, v, s);
    var y := TypeNow(tab, mv, s, vis);
    && vis != NO && IsLogical(y) && !(y == Boolean && val == MOD) && vis > rev
    && if Def(tab, s).choiceOf.Some? && vis == YES then val == YES else rev <= val <= vis
  }

  /** The user's values after sym_set_tristate_value accepted `val` for s. */
  function Accept(tab: Table, u: Users, s: Sym, val: Tri): Users {
    Users(u.has + {s}, Put(u.val, s, Val(u.val, s).(tri := val)))
  }

  lemma AcceptElsewhere(tab: Table, u: Users, s: Sym, val: Tri, x: Sym)
    requires x != s
    ensures SameUser(u, Accept(tab, u, s, val), x)
  {
  }

  lemma AcceptPicksMember(tab: Table, u: Users, s: Sym, val: Tri)
    requires PicksMember(tab, u)
    ensures PicksMember(tab, Accept(tab, u, s, val))
  {
    var u' := Accept(tab, u, s, val);
    forall c: Sym | Def(tab, c).isChoice && Val(u'.val, c).pick.Some?
      ensures Val(u'.val, c).pick.value in Def(tab, c).values
    {
      assert Val(u'.val, c).pick == Val(u.val, c).pick;
    }
  }

  /** What the symbol's own equations read is not affected by its value. */
  lemma SettingKeepsInputs(tab: Table, rank: Rank, u: Users, u': Users, v: Values, v': Values, s: Sym)
    requires Layered(tab, rank) && PicksMember(tab, u) && s < |tab.t| && IsTyped(Typ(tab.t, s))
    requires IsSolution(tab, u, v) && IsSolution(tab, u', v')
    requires forall x: Sym :: rank(x) < rank(s) ==> SameUser(u, u', x)
    ensures SameBelow(tab, rank, rank(s), None, v, v')
    ensures Visibility(tab, ModulesIn(tab, v'), v', s) == Visibility(tab, ModulesIn(tab, v), v, s)
    ensures RevTri(tab, ModulesIn(tab, v'), v', s) == RevTri(tab, ModulesIn(tab, v), v, s)
    ensures Typ(tab.t, s) == Tristate ==> ModulesIn(tab, v') == ModulesIn(tab, v)
  {
    hide SameUser, PicksMember, Visibility, RevTri, IsSolution;
    SolutionsAgree(tab, rank, u, u', v, v', rank(s));
    ModulesKnown(tab, rank, v, v', s);
    OwnVisibilityCongruent(tab, rank, ModulesIn(tab, v), ModulesIn(tab, v'), v, v', s);
    RevTriCongruent(tab, rank, ModulesIn(tab, v), ModulesIn(tab, v'), v, v', s);
  }

  /** An accepted value sticks: for a symbol that is not a choice value, the next
      evaluation computes exactly it, between the selects and the visibility. A
      choice set to y sticks if and only if it has something to pick. */
  lemma AcceptedSticks(tab: Table, rank: Rank, u: Users, v: Values, v': Values, s: Sym, val: Tri)
    requires Layered(tab, rank) && PicksMember(tab, u) && s < |tab.t| && IsLogical(Typ(tab.t, s))
    requires |u.val| == |tab.t| && Def(tab, s).choiceOf.None?
    requires IsSolution(tab, u, v) && IsSolution(tab, Accept(tab, u, s, val), v')
    requires WithinRange(tab, v, s, val)
    ensures TriValue(tab, Accept(tab, u, s, val), ModulesIn(tab, v'), v', s) == val
    ensures RevTri(tab, ModulesIn(tab, v'), v', s) <= val <= Visibility(tab, ModulesIn(tab, v'), v', s)
    ensures !(Def(tab, s).isChoice && val == YES) ==> v'[s].tri == val
    ensures Def(tab, s).isChoice && val == YES ==>
      (v'[s].tri == YES <==> Pick(tab, Accept(tab, u, s, val), ModulesIn(tab, v'), v', s).Some?)
  {
    hide SameUser, PicksMember, Visibility, RevTri, Pick, Layered, SameBelow;
    var u' := Accept(tab, u, s, val);
    forall x: Sym | rank(x) < rank(s)
      ensures SameUser(u, u', x)
    {
      AcceptElsewhere(tab, u, s, val, x);
    }
    SettingKeepsInputs(tab, rank, u, u', v, v', s);
    assert v'[s] == Compute(tab, u', ModulesIn(tab, v'), v', s);
  }

  /** What evaluation makes of a stored value, between selects and visibility. */
  lemma StoredValue(tab: Table, u: Users, mv: Tri, v: Values, s: Sym)
    requires s in u.has && IsLogical(Typ(tab.t, s))
    requires Def(tab, s).choiceOf.None? || Visibility(tab, mv, v, s) != YES
    ensures var x, vis, rev := Val(u.val, s).tri, Visibility(tab, mv, v, s), RevTri(tab, mv, v, s);
      vis > rev ==>
        (TriValue(tab, u, mv, v, s) == x <==>
         rev <= x <= vis && !(x == MOD && TypeNow(tab, mv, s, vis) == Boolean))
  {
    hide PromptsTri, Eval;
  }

  /** A value is accepted if and only if the symbol's visibility exceeds its selects and the
      value is what the next evaluation would compute, for every symbol but a value of a
      choice that is y. A choice that would stay y is accepted as y. */
  lemma AcceptedExactly(tab: Table, rank: Rank, u: Users, v: Values, v': Values, s: Sym, val: Tri)
    requires Layered(tab, rank) && PicksMember(tab, u) && s < |tab.t| && IsLogical(Typ(tab.t, s))
    requires |u.val| == |tab.t|
    requires Def(tab, s).choiceOf.None? || (!Def(tab, s).isChoice && Visibility(tab, ModulesIn(tab, v), v, s) != YES)
    requires IsSolution(tab, u, v) && IsSolution(tab, Accept(tab, u, s, val), v')
    ensures var mv := ModulesIn(tab, v);
      var open := Visibility(tab, mv, v, s) > RevTri(tab, mv, v, s);
      && (!Def(tab, s).isChoice ==> (WithinRange(tab, v, s, val) <==> open && v'[s].tri == val))
      && (Def(tab, s).isChoice ==> (open && v'[s].tri == val ==> WithinRange(tab, v, s, val)))
  {
    hide SameUser, PicksMember, Visibility, RevTri, Pick, Layered, SameBelow, TriValue;
    var u' := Accept(tab, u, s, val);
    forall x: Sym | rank(x) < rank(s)
      ensures SameUser(u, u', x)
    {
      AcceptElsewhere(tab, u, s, val, x);
    }
    SettingKeepsInputs(tab, rank, u, u', v, v', s);
    StoredValue(tab, u', ModulesIn(tab, v'), v', s);
    assert v'[s] == Compute(tab, u', ModulesIn(tab, v'), v', s);
    if Def(tab, s).isChoice && val == NO &&
       Visibility(tab, ModulesIn(tab, v), v, s) > RevTri(tab, ModulesIn(tab, v), v, s) {
      StoredNo(tab, u', ModulesIn(tab, v'), v', s);
    }
  }

  /** A choice set to n does not come out as y when its visibility exceeds its selects. */
  lemma StoredNo(tab: Table, u: Users, mv: Tri, v: Values, s: Sym)
    requires s in u.has && IsLogical(Typ(tab.t, s)) && Def(tab, s).choiceOf.None? && Val(u.val, s).tri == NO
    requires Visibility(tab, mv, v, s) > RevTri(tab, mv, v, s)
    ensures TriValue(tab, u, mv, v, s) != YES
  {
    hide PromptsTri, Eval;
  }

  /** A value of a choice: y is accepted where it is fully visible, n and m where it is
      visible as a module, and nothing where it is invisible. */
  lemma MemberAccepts(tab: Table, v: Values, s: Sym, val: Tri)
    requires Def(tab, s).choiceOf.Some? && IsLogical(Typ(tab.t, s))
    ensures var vis := Visibility(tab, ModulesIn(tab, v), v, s);
      WithinRange(tab, v, s, val) <==> (vis == YES && val == YES) || (vis == MOD && val != YES)
  {
    hide PromptsTri;
  }

  /** Nothing ranked below the symbol notices. */
  lemma AcceptedIsLocal(tab: Table, rank: Rank, u: Users, v: Values, v': Values, s: Sym, val: Tri, x: Sym)
    requires Layered(tab, rank) && PicksMember(tab, u)
    requires IsSolution(tab, u, v) && IsSolution(tab, Accept(tab, u, s, val), v')
    requires rank(x) <= rank(s) && x != s
    ensures Val(v', x) == Val(v, x)
  {
    hide SameUser, PicksMember, Layered, Compute;
    var u' := Accept(tab, u, s, val);
    forall y: Sym | rank(y) < rank(s)
      ensures SameUser(u, u', y)
    {
      AcceptElsewhere(tab, u, s, val, y);
    }
    SolutionsAgree(tab, rank, u, u', v, v', rank(s));
    if x < |tab.t| && rank(x) == rank(s) {
      AcceptElsewhere(tab, u, s, val, x);
      SolutionsAgreeAt(tab, rank, u, u', v, v', x);
    }
  }

  // ----- picking a value of a choice -----

  /** The user's values after sym_set_tristate_value accepted y for the choice
      value x; `shown` are the siblings that were visible. */
  function AcceptPick(u: Users, c: Sym, x: Sym, shown: set<Sym>): Users {
    var val := Put(u.val, c, Val(u.val, c).(pick := Some(x)));
    Users(u.has + {x} + {c} + shown, Put(val, x, Val(val, x).(tri := YES)))
  }

  lemma AcceptPickMembers(tab: Table, u: Users, c: Sym, x: Sym, shown: set<Sym>)
    requires PicksMember(tab, u) && x in Def(tab, c).values && x != c
    ensures PicksMember(tab, AcceptPick(u, c, x, shown))
  {
    var u' := AcceptPick(u, c, x, shown);
    forall d: Sym | Def(tab, d).isChoice && Val(u'.val, d).pick.Some?
      ensures Val(u'.val, d).pick.value in Def(tab, d).values
    {
      assert d != c ==> Val(u'.val, d).pick == Val(u.val, d).pick;
    }
  }

  lemma AcceptPickBelow(tab: Table, rank: Rank, u: Users, c: Sym, x: Sym, shown: set<Sym>, y: Sym)
    requires Layered(tab, rank) && c < |tab.t| && IsTyped(Typ(tab.t, c))
    requires x in Def(tab, c).values && shown <= set m | m in Def(tab, c).values
    requires rank(y) < rank(c)
    ensures SameUser(u, AcceptPick(u, c, x, shown), y)
  {
    MembersAbove(tab, rank, c);
  }

  lemma MembersAbove(tab: Table, rank: Rank, c: Sym)
    requires Layered(tab, rank) && c < |tab.t| && IsTyped(Typ(tab.t, c))
    ensures forall m :: m in Def(tab, c).values ==> rank(m) > rank(c)
  {
    assert SymbolLayered(tab, rank, c);
    forall m | m in Def(tab, c).values
      ensures rank(m) > rank(c)
    {
      assert SymbolLayered(tab, rank, m);
    }
  }

  /** The choice stays y when one of its values is picked. */
  lemma PickedChoiceStays(tab: Table, u: Users, u': Users, mv: Tri, v: Values, v': Values, c: Sym)
    requires Def(tab, c).isChoice && Def(tab, c).choiceOf.None?
    requires TriValue(tab, u, mv, v, c) == YES
    requires c in u'.has && Val(u'.val, c).tri == Val(u.val, c).tri
    requires Visibility(tab, mv, v', c) == Visibility(tab, mv, v, c)
    requires RevTri(tab, mv, v', c) == RevTri(tab, mv, v, c)
    ensures TriValue(tab, u', mv, v', c) == YES
  {
    hide Visibility;
  }

  lemma TriValueModulesFree(tab: Table, rank: Rank, u: Users, mv: Tri, mv': Tri, v: Values, c: Sym)
    requires Layered(tab, rank) && c < |tab.t| && IsTyped(Typ(tab.t, c)) && IsSolution(tab, u, v)
    requires mv == mv' || ModulesFree(tab, c)
    ensures TriValue(tab, u, mv, v, c) == TriValue(tab, u, mv', v, c)
    ensures Visibility(tab, mv, v, c) == Visibility(tab, mv', v, c)
    ensures RevTri(tab, mv, v, c) == RevTri(tab, mv', v, c)
  {
    hide TriValue, Visibility, RevTri, Compute;
    forall y: Sym
      ensures ReadsSame(tab, v, v, y)
    {
      SolutionReadsItself(tab, u, v, y);
    }
    assert SameBelow(tab, rank, rank(c), None, v, v);
    TriValueCongruent(tab, rank, u, mv, mv', v, v, c);
    OwnVisibilityCongruent(tab, rank, mv, mv', v, v, c);
    RevTriCongruent(tab, rank, mv, mv', v, v, c);
  }

  /** Setting a visible value of a choice worth y makes it the winner. */
  lemma AcceptedPickSticks(tab: Table, rank: Rank, u: Users, v: Values, v': Values, c: Sym, x: Sym, shown: set<Sym>)
    requires OpenChoice(tab, rank, u, v, c) && |u.val| == |tab.t|
    requires x in Def(tab, c).values && Shown(tab, v, x) && shown <= set m | m in Def(tab, c).values
    requires IsSolution(tab, AcceptPick(u, c, x, shown), v')
    ensures OpenChoice(tab, rank, AcceptPick(u, c, x, shown), v', c)
    ensures v'[c].pick == Some(x)
  {
    hide Visibility, RevTri, TriValue, ValueVisible, SameUser, Compute, IsSolution, Shown, Layered, PicksMember, Pick;
    var u' := AcceptPick(u, c, x, shown);
    var mv, mv' := ModulesIn(tab, v), ModulesIn(tab, v');
    OpenChoiceParts(tab, rank, u, v, c);
    OpenChoiceValue(tab, rank, u, v, c);
    MemberShown(tab, rank, u, v, c, x);
    forall y: Sym | rank(y) < rank(c)
      ensures SameUser(u, u', y)
    {
      AcceptPickBelow(tab, rank, u, c, x, shown, y);
    }
    SettingKeepsInputs(tab, rank, u, u', v, v', c);
    ModulesKnown(tab, rank, v, v', c);
    TriValueModulesFree(tab, rank, u, mv, mv', v, c);
    ChoiceRoot(tab, rank, c, x);
    SolutionLength(tab, u, v);
    SolutionLength(tab, u', v');
    AcceptPickMembers(tab, u, c, x, shown);
    PickedChoiceStays(tab, u, u', mv', v, v', c);
    ValueVisibleCongruent(tab, rank, mv, mv', v, v', c, x);
    PickMine(tab, u', mv', v', c, x);
    ComputePicked(tab, u', v', c);
  }

  lemma SolutionLength(tab: Table, u: Users, v: Values)
    requires IsSolution(tab, u, v)
    ensures |v| == |tab.t|
  {
    hide Compute;
  }

  lemma ChoiceRoot(tab: Table, rank: Rank, c: Sym, x: Sym)
    requires Layered(tab, rank) && c < |tab.t| && IsTyped(Typ(tab.t, c)) && x in Def(tab, c).values
    ensures Def(tab, c).choiceOf.None? && x != c && x < |tab.t|
  {
    assert SymbolLayered(tab, rank, c) && SymbolLayered(tab, rank, x);
  }

  lemma PickMine(tab: Table, u: Users, mv: Tri, v: Values, c: Sym, x: Sym)
    requires Val(u.val, c).pick == Some(x) && ValueVisible(tab, mv, v, c, x)
    ensures Pick(tab, u, mv, v, c) == Some(x)
  {
    hide ValueVisible;
  }

  lemma ComputePicked(tab: Table, u: Users, v: Values, c: Sym)
    requires IsSolution(tab, u, v) && c < |v| && IsLogical(Typ(tab.t, c)) && Def(tab, c).isChoice
    requires TriValue(tab, u, ModulesIn(tab, v), v, c) == YES
    ensures v[c].pick == Pick(tab, u, ModulesIn(tab, v), v, c)
    ensures v[c].pick.Some? ==> v[c].tri == YES
  {
    hide TriValue, Pick;
    assert v[c] == Compute(tab, u, ModulesIn(tab, v), v, c);
  }
}
