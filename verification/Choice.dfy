/** Choice groups in a solved table (symbol.c:227-239, 269-325, 376-378): a
    choice worth y has exactly one value worth y. */
module Choices {
  import opened Tristates
  import opened Exprs
  import opened SymbolEquations
  import opened Layering
  import opened Solutions

  function ModulesIn(tab: Table, v: Values): Tri {
    Val(v, tab.modules).tri
  }

  /** x is visible in the solved table. */
  predicate Shown(tab: Table, v: Values, x: Sym) {
    Visibility(tab, ModulesIn(tab, v), v, x) != NO
  }

  /** A solved choice worth y. */
  ghost predicate OpenChoice(tab: Table, rank: Rank, u: Users, v: Values, c: Sym) {
    && Layered(tab, rank) && PicksMember(tab, u) && IsSolution(tab, u, v)
    && c < |v| && IsTyped(Typ(tab.t, c)) && Def(tab, c).isChoice && v[c].tri == YES
  }

  lemma OpenChoiceValue(tab: Table, rank: Rank, u: Users, v: Values, c: Sym)
    requires OpenChoice(tab, rank, u, v, c)
    ensures IsLogical(Typ(tab.t, c)) && v[c].str == "n"
    ensures v[c].pick == Pick(tab, u, ModulesIn(tab, v), v, c) && v[c].pick.Some?
    ensures TriValue(tab, u, ModulesIn(tab, v), v, c) == YES
  {
    hide Pick, TriValue;
    assert SymbolLayered(tab, rank, c);
    assert v[c] == Compute(tab, u, ModulesIn(tab, v), v, c);
  }

  lemma SolutionReadsItself(tab: Table, u: Users, v: Values, x: Sym)
    requires IsSolution(tab, u, v)
    ensures x < |v| ==> ReadsSame(tab, v, v, x)
  {
    hide Compute;
    if x < |v| && Typ(tab.t, x) == Boolean {
      BooleanNeverMod(tab, u, ModulesIn(tab, v), v, x);
    }
  }

  /** While a choice is y, looking at its members beforehand or afterwards is
      the same. */
  lemma MemberShown(tab: Table, rank: Rank, u: Users, v: Values, c: Sym, x: Sym)
    requires OpenChoice(tab, rank, u, v, c) && x in Def(tab, c).values
    ensures x < |v| && Def(tab, x).choiceOf == Some(c) && IsLogical(Typ(tab.t, x))
    ensures ValueVisible(tab, ModulesIn(tab, v), v, c, x) == Shown(tab, v, x)
  {
    hide Compute, PicksMember;
    OpenChoiceValue(tab, rank, u, v, c);
    assert SymbolLayered(tab, rank, c) && SymbolLayered(tab, rank, x);
    var v' := Put(v, c, TENTATIVE);
    forall y: Sym | rank(y) < rank(c)
      ensures Val(v', y) == Val(v, y) && ReadsSame(tab, v', v, y)
    {
      SolutionReadsItself(tab, u, v, y);
    }
    assert SameBelow(tab, rank, rank(c), Some(c), v', v);
    VisibilityCongruent(tab, rank, rank(c), Some(c), ModulesIn(tab, v), ModulesIn(tab, v), v', v, x);
  }

  /** Prompts of a tristate value worth m do not show while the choice is y. */
  lemma {:induction false} PromptsSharp(tab: Table, v: Values, c: Sym, x: Sym, n: nat)
    requires Def(tab, x).choiceOf == Some(c) && Val(v, c).tri == YES
    requires Typ(tab.t, x) == Tristate && n <= |Def(tab, x).prompts|
    ensures PromptsTri(tab, v, x, n) != MOD
  {
    hide EvalOpt;
    if n > 0 {
      PromptsSharp(tab, v, c, x, n - 1);
    }
  }

  lemma MemberVisibilitySharp(tab: Table, mv: Tri, v: Values, c: Sym, x: Sym)
    requires Def(tab, x).choiceOf == Some(c) && Val(v, c).tri == YES
    ensures Visibility(tab, mv, v, x) != MOD
  {
    hide PromptsTri;
    if Typ(tab.t, x) == Tristate {
      PromptsSharp(tab, v, c, x, |Def(tab, x).prompts|);
    }
  }

  /** A member without defaults is y exactly when the choice picked it. */
  lemma MemberValue(tab: Table, rank: Rank, u: Users, v: Values, c: Sym, x: Sym)
    requires OpenChoice(tab, rank, u, v, c) && x in Def(tab, c).values
    requires Def(tab, x).defaults == []
    ensures x < |v| && v[x].tri == OfBool(Shown(tab, v, x) && v[c].pick == Some(x))
  {
    hide Visibility, Pick, PicksMember, StrValue;
    MemberShown(tab, rank, u, v, c, x);
    MemberVisibilitySharp(tab, ModulesIn(tab, v), v, c, x);
    assert SymbolLayered(tab, rank, x);
    assert v[x] == Compute(tab, u, ModulesIn(tab, v), v, x);
    assert DefaultTri(tab, v, x) == NO;
  }

  lemma {:induction false} DefaultPickMember(tab: Table, rank: Rank, mv: Tri, v: Values, c: Sym, i: nat)
    requires Layered(tab, rank) && c < |tab.t| && IsTyped(Typ(tab.t, c)) && Def(tab, c).isChoice
    requires i <= |Def(tab, c).defaults|
    ensures var p := DefaultPick(tab, mv, v, c, i);
      p.Some? ==> p.value in Def(tab, c).values && ValueVisible(tab, mv, v, c, p.value)
    decreases |Def(tab, c).defaults| - i
  {
    hide ValueVisible, EvalOpt;
    if i < |Def(tab, c).defaults| {
      assert SymbolLayered(tab, rank, c);
      DefaultPickMember(tab, rank, mv, v, c, i + 1);
    }
  }

  /** Whatever a choice picks is one of its values and visible. */
  lemma PickMember(tab: Table, rank: Rank, u: Users, mv: Tri, v: Values, c: Sym)
    requires Layered(tab, rank) && PicksMember(tab, u)
    requires c < |tab.t| && IsTyped(Typ(tab.t, c)) && Def(tab, c).isChoice
    ensures var p := Pick(tab, u, mv, v, c);
      p.Some? ==> p.value in Def(tab, c).values && ValueVisible(tab, mv, v, c, p.value)
  {
    hide ValueVisible;
    DefaultPickMember(tab, rank, mv, v, c, 0);
  }

  /** Exclusivity: in a choice worth y whose values carry no defaults, exactly
      one value is y and the others are n. */
  lemma ChoiceExclusive(tab: Table, rank: Rank, u: Users, v: Values, c: Sym) returns (p: Sym)
    requires OpenChoice(tab, rank, u, v, c)
    requires forall x :: x in Def(tab, c).values ==> Def(tab, x).defaults == []
    ensures p in Def(tab, c).values && v[c].pick == Some(p) && Shown(tab, v, p)
    ensures forall x :: x in Def(tab, c).values ==> x < |v| && v[x].tri == if x == p then YES else NO
  {
    hide OpenChoice, Pick, Shown, ValueVisible, Def;
    OpenChoiceParts(tab, rank, u, v, c);
    OpenChoiceValue(tab, rank, u, v, c);
    p := v[c].pick.value;
    PickMember(tab, rank, u, ModulesIn(tab, v), v, c);
    MemberShown(tab, rank, u, v, c, p);
    forall x | x in Def(tab, c).values
      ensures x < |v| && v[x].tri == if x == p then YES else NO
    {
      MemberValue(tab, rank, u, v, c, x);
    }
  }

  lemma OpenChoiceParts(tab: Table, rank: Rank, u: Users, v: Values, c: Sym)
    requires OpenChoice(tab, rank, u, v, c)
    ensures Layered(tab, rank) && PicksMember(tab, u) && IsSolution(tab, u, v)
    ensures c < |tab.t| && IsTyped(Typ(tab.t, c)) && Def(tab, c).isChoice
  {
  }

  /** A default of the choice that applies to a visible value. */
  predicate DefaultOffers(tab: Table, v: Values, c: Sym, i: nat)
    requires i < |Def(tab, c).defaults|
  {
    var d := Def(tab, c).defaults[i];
    EvalOpt(W(tab, v), d.cond) != NO && SymbolOf(d.value).Some? && Shown(tab, v, SymbolOf(d.value).value)
  }

  /** Default j is the first from i on to offer a visible value, and offers p. */
  ghost predicate FirstOffer(tab: Table, v: Values, c: Sym, i: nat, j: nat, p: Option<Sym>) {
    && i <= j < |Def(tab, c).defaults| && DefaultOffers(tab, v, c, j)
    && p == SymbolOf(Def(tab, c).defaults[j].value)
    && forall j' :: i <= j' < j ==> !DefaultOffers(tab, v, c, j')
  }

  ghost predicate NoOffer(tab: Table, v: Values, c: Sym, i: nat) {
    forall j :: i <= j < |Def(tab, c).defaults| ==> !DefaultOffers(tab, v, c, j)
  }

  /** Value j is the first visible one from i on, and is p. */
  ghost predicate FirstShown(tab: Table, v: Values, c: Sym, i: nat, j: nat, p: Option<Sym>) {
    && i <= j < |Def(tab, c).values| && Shown(tab, v, Def(tab, c).values[j])
    && p == Some(Def(tab, c).values[j])
    && forall j' :: i <= j' < j ==> !Shown(tab, v, Def(tab, c).values[j'])
  }

  lemma DefaultOffered(tab: Table, rank: Rank, u: Users, v: Values, c: Sym, i: nat)
    requires OpenChoice(tab, rank, u, v, c) && i < |Def(tab, c).defaults|
    ensures SymbolOf(Def(tab, c).defaults[i].value).Some?
    ensures EvalOpt(W(tab, Put(v, c, TENTATIVE)), Def(tab, c).defaults[i].cond) ==
            EvalOpt(W(tab, v), Def(tab, c).defaults[i].cond)
    ensures var x := SymbolOf(Def(tab, c).defaults[i].value).value;
      x in Def(tab, c).values && ValueVisible(tab, ModulesIn(tab, v), v, c, x) == Shown(tab, v, x)
  {
    hide Compute, ValueVisible, Shown, PicksMember, EvalOpt;
    assert SymbolLayered(tab, rank, c);
    MemberShown(tab, rank, u, v, c, Def(tab, c).defaults[i].value.sym);
    var v' := Put(v, c, TENTATIVE);
    forall y: Sym | rank(y) < rank(c)
      ensures Val(v', y) == Val(v, y) && ReadsSame(tab, v', v, y)
    {
      SolutionReadsItself(tab, u, v, y);
    }
    assert SameBelow(tab, rank, rank(c), None, v', v);
    EvalOptCongruent(tab, rank, rank(c), None, v', v, Def(tab, c).defaults[i].cond);
  }

  lemma {:induction false} DefaultPickFirst(tab: Table, rank: Rank, u: Users, v: Values, c: Sym, i: nat)
    requires OpenChoice(tab, rank, u, v, c) && i <= |Def(tab, c).defaults|
    ensures var p := DefaultPick(tab, ModulesIn(tab, v), v, c, i);
      if p.None? then NoOffer(tab, v, c, i) else exists j: nat :: FirstOffer(tab, v, c, i, j, p)
    decreases |Def(tab, c).defaults| - i
  {
    hide OpenChoice, ValueVisible, Shown, EvalOpt;
    if i < |Def(tab, c).defaults| {
      DefaultOffered(tab, rank, u, v, c, i);
      DefaultPickFirst(tab, rank, u, v, c, i + 1);
      var p := DefaultPick(tab, ModulesIn(tab, v), v, c, i);
      if DefaultOffers(tab, v, c, i) {
        assert FirstOffer(tab, v, c, i, i, p);
      } else if p.Some? {
        var j: nat :| FirstOffer(tab, v, c, i + 1, j, p);
        assert FirstOffer(tab, v, c, i, j, p);
      }
    }
  }

  lemma {:induction false} FirstVisibleFirst(tab: Table, rank: Rank, u: Users, v: Values, c: Sym, i: nat)
    requires OpenChoice(tab, rank, u, v, c) && i <= |Def(tab, c).values|
    ensures var p := FirstVisible(tab, ModulesIn(tab, v), v, c, i);
      p.Some? ==> exists j: nat :: FirstShown(tab, v, c, i, j, p)
    decreases |Def(tab, c).values| - i
  {
    hide OpenChoice, ValueVisible, Shown;
    if i < |Def(tab, c).values| {
      MemberShown(tab, rank, u, v, c, Def(tab, c).values[i]);
      FirstVisibleFirst(tab, rank, u, v, c, i + 1);
      var p := FirstVisible(tab, ModulesIn(tab, v), v, c, i);
      if Shown(tab, v, Def(tab, c).values[i]) {
        assert FirstShown(tab, v, c, i, i, p);
      } else if p.Some? {
        var j: nat :| FirstShown(tab, v, c, i + 1, j, p);
        assert FirstShown(tab, v, c, i, j, p);
      }
    }
  }

  predicate PickShown(tab: Table, u: Users, v: Values, c: Sym) {
    Val(u.val, c).pick.Some? && Shown(tab, v, Val(u.val, c).pick.value)
  }

  /** Who wins: the user's pick if it is visible, else the first default that
      applies to a visible value, else the first visible value. */
  lemma ChoiceWinner(tab: Table, rank: Rank, u: Users, v: Values, c: Sym)
    requires OpenChoice(tab, rank, u, v, c)
    ensures var p := Val(v, c).pick;
      && p.Some?
      && (PickShown(tab, u, v, c) ==> p == Val(u.val, c).pick)
      && (!PickShown(tab, u, v, c) && !NoOffer(tab, v, c, 0) ==> exists j: nat :: FirstOffer(tab, v, c, 0, j, p))
      && (!PickShown(tab, u, v, c) && NoOffer(tab, v, c, 0) ==> exists j: nat :: FirstShown(tab, v, c, 0, j, p))
  {
    hide OpenChoice, ValueVisible, Shown, DefaultOffers, DefaultPick, FirstVisible;
    OpenChoiceParts(tab, rank, u, v, c);
    OpenChoiceValue(tab, rank, u, v, c);
    var mine := Val(u.val, c).pick;
    if mine.Some? {
      MemberShown(tab, rank, u, v, c, mine.value);
    }
    DefaultPickFirst(tab, rank, u, v, c, 0);
    FirstVisibleFirst(tab, rank, u, v, c, 0);
    var p := DefaultPick(tab, ModulesIn(tab, v), v, c, 0);
    if p.Some? {
      var j: nat :| FirstOffer(tab, v, c, 0, j, p);
      assert !NoOffer(tab, v, c, 0);
    }
  }
}
