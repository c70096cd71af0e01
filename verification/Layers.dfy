/** Acyclic symbol tables: a ranking that every definition respects, and what
    follows from it. The equations of an acyclic table have exactly one solution. */
module Layering {
  import opened Tristates
  import opened NumText
  import opened Exprs
  import opened SymbolEquations

  type Rank = Sym -> nat

  /** `e` reads only symbols ranked below k, or the symbol c. Comparing a
      tristate symbol also reads the modules symbol. */
  predicate Below(tab: Table, rank: Rank, k: nat, c: Option<Sym>, e: Expr) {
    match e
    case Symbol(s) => rank(s) < k || c == Some(s)
    case Not(a) => Below(tab, rank, k, c, a)
    case Comp(_, l, r) => OperandBelow(tab, rank, k, c, l) && OperandBelow(tab, rank, k, c, r)
    case Junct(_, l, r) => Below(tab, rank, k, c, l) && Below(tab, rank, k, c, r)
  }

  predicate OperandBelow(tab: Table, rank: Rank, k: nat, c: Option<Sym>, s: Sym) {
    c == Some(s) || (rank(s) < k && (Typ(tab.t, s) == Tristate ==> rank(tab.modules) < k))
  }

  predicate BelowOpt(tab: Table, rank: Rank, k: nat, c: Option<Sym>, e: Option<Expr>) {
    e.Some? ==> Below(tab, rank, k, c, e.value)
  }

  ghost predicate PromptsBelow(tab: Table, rank: Rank, k: nat, c: Option<Sym>, s: Sym) {
    forall i :: 0 <= i < |Def(tab, s).prompts| ==> BelowOpt(tab, rank, k, c, Def(tab, s).prompts[i])
  }

  ghost predicate DefaultsBelow(tab: Table, rank: Rank, s: Sym) {
    forall i :: 0 <= i < |Def(tab, s).defaults| ==>
      var p := Def(tab, s).defaults[i];
      BelowOpt(tab, rank, rank(s), None, p.cond) &&
      if Def(tab, s).isChoice then p.value.Symbol? && p.value.sym in Def(tab, s).values
      else Below(tab, rank, rank(s), None, p.value)
  }

  ghost predicate RangesBelow(tab: Table, rank: Rank, s: Sym) {
    forall i :: 0 <= i < |Def(tab, s).ranges| ==>
      var p := Def(tab, s).ranges[i];
      BelowOpt(tab, rank, rank(s), None, p.cond) && rank(p.lo) < rank(s) && rank(p.hi) < rank(s)
  }

  predicate Mentions(e: Expr, s: Sym) {
    match e
    case Symbol(x) => x == s
    case Not(a) => Mentions(a, s)
    case Comp(_, l, r) => l == s || r == s
    case Junct(_, l, r) => Mentions(l, s) || Mentions(r, s)
  }

  /** There is a prompt, and each is under a condition on c. */
  ghost predicate PromptsMention(tab: Table, s: Sym, c: Sym) {
    && |Def(tab, s).prompts| > 0
    && forall i :: 0 <= i < |Def(tab, s).prompts| ==>
         Def(tab, s).prompts[i].Some? && Mentions(Def(tab, s).prompts[i].value, c)
  }

  /** A choice comes before its values, and the prompts of the values read the
      choice and what comes before it. */
  ghost predicate ChoiceBelow(tab: Table, rank: Rank, s: Sym) {
    && (forall x :: x in Def(tab, s).values ==>
         x < |tab.t| && Def(tab, x).choiceOf == Some(s) && IsLogical(Typ(tab.t, x)))
    && (Def(tab, s).choiceOf.Some? ==>
         var c := Def(tab, s).choiceOf.value;
         && c < |tab.t| && IsLogical(Typ(tab.t, c)) && Def(tab, c).isChoice && Def(tab, c).choiceOf.None?
         && s in Def(tab, c).values
         && !Def(tab, s).isChoice && rank(c) < rank(s)
         && PromptsMention(tab, s, c)
         && PromptsBelow(tab, rank, rank(c), Some(c), s))
  }

  /** The value does not depend on whether modules are enabled. */
  ghost predicate ModulesFree(tab: Table, s: Sym) {
    && Typ(tab.t, s) != Tristate
    && (Def(tab, s).isChoice ==> forall x :: x in Def(tab, s).values ==> Typ(tab.t, x) != Tristate)
  }

  ghost predicate SymbolLayered(tab: Table, rank: Rank, s: Sym) {
    && (Def(tab, s).choiceOf.None? ==> PromptsBelow(tab, rank, rank(s), None, s))
    && BelowOpt(tab, rank, rank(s), None, Def(tab, s).dirDep)
    && BelowOpt(tab, rank, rank(s), None, Def(tab, s).revDep)
    && DefaultsBelow(tab, rank, s)
    && RangesBelow(tab, rank, s)
    && ChoiceBelow(tab, rank, s)
    && (!ModulesFree(tab, s) ==> rank(tab.modules) < rank(s))
    && (Def(tab, s).isChoice ==> IsLogical(Typ(tab.t, s)))
  }

  /** The table is acyclic, as `rank` shows, and what decides whether modules
      are enabled does not itself depend on it. */
  ghost predicate Layered(tab: Table, rank: Rank) {
    && |tab.d| == |tab.t| && tab.modules < |tab.t| && WellFormed(tab.t)
    && forall s: Sym :: s < |tab.t| && IsTyped(Typ(tab.t, s)) ==> SymbolLayered(tab, rank, s)
  }

  // ----- equal inputs give equal values -----

  predicate ReadsSame(tab: Table, v: Values, v': Values, x: Sym) {
    && Val(v, x).tri == Val(v', x).tri && Val(v, x).str == Val(v', x).str
    && (Typ(tab.t, x) == Boolean ==> Val(v, x).tri != MOD)
  }

  /** v and v' agree below rank k, and on c as far as conditions can see. */
  ghost predicate SameBelow(tab: Table, rank: Rank, k: nat, c: Option<Sym>, v: Values, v': Values) {
    && (forall x: Sym :: rank(x) < k ==> Val(v, x) == Val(v', x) && ReadsSame(tab, v, v', x))
    && (c.Some? ==> ReadsSame(tab, v, v', c.value) && Val(v, c.value).tri != MOD)
  }

  lemma StringOfCongruent(tab: Table, rank: Rank, k: nat, c: Option<Sym>, v: Values, v': Values, s: Sym)
    requires OperandBelow(tab, rank, k, c, s) && SameBelow(tab, rank, k, c, v, v')
    ensures StringOf(W(tab, v), s) == StringOf(W(tab, v'), s)
  {
    assert ReadsSame(tab, v, v', s);
  }

  lemma EvalCompCongruent(w: World, w': World, rel: Rel, l: Sym, r: Sym)
    requires w.t == w'.t
    requires StringOf(w, l) == StringOf(w', l) && StringOf(w, r) == StringOf(w', r)
    ensures EvalComp(w, rel, l, r) == EvalComp(w', rel, l, r)
  {
    hide StringOf, ParseOperand;
    assert OperandOf(w, l, r, l) == OperandOf(w', l, r, l);
    assert OperandOf(w, l, r, r) == OperandOf(w', l, r, r);
  }

  lemma {:induction false} EvalCongruent(tab: Table, rank: Rank, k: nat, c: Option<Sym>, v: Values, v': Values, e: Expr)
    requires Below(tab, rank, k, c, e) && SameBelow(tab, rank, k, c, v, v')
    ensures Eval(W(tab, v), e) == Eval(W(tab, v'), e)
  {
    hide EvalComp;
    match e
    case Symbol(s) =>
    case Not(a) => EvalCongruent(tab, rank, k, c, v, v', a);
    case Comp(rel, l, r) =>
      StringOfCongruent(tab, rank, k, c, v, v', l);
      StringOfCongruent(tab, rank, k, c, v, v', r);
      EvalCompCongruent(W(tab, v), W(tab, v'), rel, l, r);
    case Junct(_, l, r) =>
      EvalCongruent(tab, rank, k, c, v, v', l);
      EvalCongruent(tab, rank, k, c, v, v', r);
  }

  lemma EvalOptCongruent(tab: Table, rank: Rank, k: nat, c: Option<Sym>, v: Values, v': Values, e: Option<Expr>)
    requires BelowOpt(tab, rank, k, c, e) && SameBelow(tab, rank, k, c, v, v')
    ensures EvalOpt(W(tab, v), e) == EvalOpt(W(tab, v'), e)
  {
    if e.Some? {
      EvalCongruent(tab, rank, k, c, v, v', e.value);
    }
  }

  /** The prompts of s, whose choice (if any) reads the same in v and v'. */
  lemma {:induction false} PromptsCongruent(tab: Table, rank: Rank, k: nat, c: Option<Sym>, v: Values, v': Values,
                                            s: Sym, n: nat)
    requires n <= |Def(tab, s).prompts|
    requires PromptsBelow(tab, rank, k, c, s) && SameBelow(tab, rank, k, c, v, v')
    requires Def(tab, s).choiceOf.Some? ==>
      Val(v, Def(tab, s).choiceOf.value).tri == Val(v', Def(tab, s).choiceOf.value).tri
    ensures PromptsTri(tab, v, s, n) == PromptsTri(tab, v', s, n)
  {
    hide SameBelow, Eval;
    if n > 0 {
      PromptsCongruent(tab, rank, k, c, v, v', s, n - 1);
      EvalOptCongruent(tab, rank, k, c, v, v', Def(tab, s).prompts[n - 1]);
    }
  }

  lemma VisibilityCongruent(tab: Table, rank: Rank, k: nat, c: Option<Sym>, mv: Tri, mv': Tri, v: Values, v': Values,
                            s: Sym)
    requires PromptsBelow(tab, rank, k, c, s) && SameBelow(tab, rank, k, c, v, v')
    requires Def(tab, s).choiceOf.Some? ==>
      Val(v, Def(tab, s).choiceOf.value).tri == Val(v', Def(tab, s).choiceOf.value).tri
    requires Typ(tab.t, s) == Tristate ==> mv == mv'
    ensures Visibility(tab, mv, v, s) == Visibility(tab, mv', v', s)
  {
    PromptsCongruent(tab, rank, k, c, v, v', s, |Def(tab, s).prompts|);
  }

  /** Visibility at the symbol's own rank. */
  lemma OwnVisibilityCongruent(tab: Table, rank: Rank, mv: Tri, mv': Tri, v: Values, v': Values, s: Sym)
    requires Layered(tab, rank) && s < |tab.t| && IsTyped(Typ(tab.t, s))
    requires SameBelow(tab, rank, rank(s), None, v, v')
    requires ModulesFree(tab, s) || mv == mv'
    ensures Visibility(tab, mv, v, s) == Visibility(tab, mv', v', s)
  {
    if Def(tab, s).choiceOf.Some? {
      var c := Def(tab, s).choiceOf.value;
      assert SymbolLayered(tab, rank, c);
      PromptsRaise(tab, rank, c, s);
      VisibilityCongruent(tab, rank, rank(s), None, mv, mv', v, v', s);
    } else {
      VisibilityCongruent(tab, rank, rank(s), None, mv, mv', v, v', s);
    }
  }

  lemma {:induction false} BelowRaise(tab: Table, rank: Rank, c: Sym, k: nat, e: Expr)
    requires Below(tab, rank, rank(c), Some(c), e) && rank(c) < k
    requires Typ(tab.t, c) == Tristate ==> rank(tab.modules) < k
    ensures Below(tab, rank, k, None, e)
  {
    match e
    case Symbol(_) =>
    case Not(a) => BelowRaise(tab, rank, c, k, a);
    case Comp(_, _, _) =>
    case Junct(_, l, r) =>
      BelowRaise(tab, rank, c, k, l);
      BelowRaise(tab, rank, c, k, r);
  }

  lemma PromptsRaise(tab: Table, rank: Rank, c: Sym, s: Sym)
    requires PromptsBelow(tab, rank, rank(c), Some(c), s) && rank(c) < rank(s)
    requires Typ(tab.t, c) == Tristate ==> rank(tab.modules) < rank(s)
    ensures PromptsBelow(tab, rank, rank(s), None, s)
  {
    forall i | 0 <= i < |Def(tab, s).prompts|
      ensures BelowOpt(tab, rank, rank(s), None, Def(tab, s).prompts[i])
    {
      if Def(tab, s).prompts[i].Some? {
        BelowRaise(tab, rank, c, rank(s), Def(tab, s).prompts[i].value);
      }
    }
  }

  lemma {:induction false} FirstDefaultCongruent(tab: Table, rank: Rank, v: Values, v': Values, s: Sym, i: nat)
    requires DefaultsBelow(tab, rank, s) && SameBelow(tab, rank, rank(s), None, v, v')
    requires i <= |Def(tab, s).defaults|
    ensures FirstDefault(tab, v, Def(tab, s).defaults, i) == FirstDefault(tab, v', Def(tab, s).defaults, i)
    decreases |Def(tab, s).defaults| - i
  {
    hide SameBelow, Eval;
    if i < |Def(tab, s).defaults| {
      EvalOptCongruent(tab, rank, rank(s), None, v, v', Def(tab, s).defaults[i].cond);
      FirstDefaultCongruent(tab, rank, v, v', s, i + 1);
    }
  }

  lemma DefaultCongruent(tab: Table, rank: Rank, v: Values, v': Values, s: Sym)
    requires DefaultsBelow(tab, rank, s) && SameBelow(tab, rank, rank(s), None, v, v')
    requires !Def(tab, s).isChoice
    ensures DefaultTri(tab, v, s) == DefaultTri(tab, v', s)
    ensures DefaultStr(tab, v, s) == DefaultStr(tab, v', s)
  {
    hide Eval;
    var ds := Def(tab, s).defaults;
    FirstDefaultCongruent(tab, rank, v, v', s, 0);
    var k := FirstDefault(tab, v, ds, 0);
    if k < |ds| {
      EvalOptCongruent(tab, rank, rank(s), None, v, v', ds[k].cond);
      EvalCongruent(tab, rank, rank(s), None, v, v', ds[k].value);
    }
  }

  lemma {:induction false} FirstRangeCongruent(tab: Table, rank: Rank, v: Values, v': Values, s: Sym, i: nat)
    requires RangesBelow(tab, rank, s) && SameBelow(tab, rank, rank(s), None, v, v')
    requires i <= |Def(tab, s).ranges|
    ensures FirstRange(tab, v, Def(tab, s).ranges, i) == FirstRange(tab, v', Def(tab, s).ranges, i)
    decreases |Def(tab, s).ranges| - i
  {
    hide SameBelow, Eval;
    if i < |Def(tab, s).ranges| {
      EvalOptCongruent(tab, rank, rank(s), None, v, v', Def(tab, s).ranges[i].cond);
      FirstRangeCongruent(tab, rank, v, v', s, i + 1);
    }
  }

  lemma ValidatedCongruent(tab: Table, rank: Rank, v: Values, v': Values, s: Sym, str: string)
    requires RangesBelow(tab, rank, s) && SameBelow(tab, rank, rank(s), None, v, v')
    ensures Validated(tab, v, s, str) == Validated(tab, v', s, str)
  {
    hide Clamp, Strtoll;
    FirstRangeCongruent(tab, rank, v, v', s, 0);
    var k := FirstRange(tab, v, Def(tab, s).ranges, 0);
    if k < |Def(tab, s).ranges| {
      var p := Def(tab, s).ranges[k];
      assert Val(v, p.lo) == Val(v', p.lo) && Val(v, p.hi) == Val(v', p.hi);
    }
  }

  lemma RevTriCongruent(tab: Table, rank: Rank, mv: Tri, mv': Tri, v: Values, v': Values, s: Sym)
    requires Layered(tab, rank) && s < |tab.t| && IsTyped(Typ(tab.t, s))
    requires SameBelow(tab, rank, rank(s), None, v, v')
    requires ModulesFree(tab, s) || mv == mv'
    ensures RevTri(tab, mv, v, s) == RevTri(tab, mv', v', s)
  {
    hide SameBelow, Visibility, Eval;
    if Def(tab, s).choiceOf.None? && Def(tab, s).revDep.Some? {
      EvalCongruent(tab, rank, rank(s), None, v, v', Def(tab, s).revDep.value);
      OwnVisibilityCongruent(tab, rank, mv, mv', v, v', s);
    }
  }

  lemma TriValueCongruent(tab: Table, rank: Rank, u: Users, mv: Tri, mv': Tri, v: Values, v': Values, s: Sym)
    requires Layered(tab, rank) && s < |tab.t| && IsTyped(Typ(tab.t, s))
    requires SameBelow(tab, rank, rank(s), None, v, v')
    requires ModulesFree(tab, s) || mv == mv'
    ensures TriValue(tab, u, mv, v, s) == TriValue(tab, u, mv', v', s)
  {
    hide DefaultTri, RevTri, Visibility;
    OwnVisibilityCongruent(tab, rank, mv, mv', v, v', s);
    RevTriCongruent(tab, rank, mv, mv', v, v', s);
    if !Def(tab, s).isChoice {
      DefaultCongruent(tab, rank, v, v', s);
    }
  }

  lemma StrValueCongruent(tab: Table, rank: Rank, u: Users, mv: Tri, mv': Tri, v: Values, v': Values, s: Sym)
    requires Layered(tab, rank) && s < |tab.t| && IsTextual(Typ(tab.t, s))
    requires SameBelow(tab, rank, rank(s), None, v, v')
    requires ModulesFree(tab, s) || mv == mv'
    ensures StrValue(tab, u, mv, v, s) == StrValue(tab, u, mv', v', s)
  {
    hide DefaultStr, Visibility, Validated;
    OwnVisibilityCongruent(tab, rank, mv, mv', v, v', s);
    DefaultCongruent(tab, rank, v, v', s);
    ValidatedCongruent(tab, rank, v, v', s,
      if Visibility(tab, mv, v, s) != NO && s in u.has then Val(u.val, s).str else DefaultStr(tab, v, s));
  }

  // ----- choices -----

  lemma TentativeSame(tab: Table, rank: Rank, v: Values, v': Values, c: Sym)
    requires |v| == |v'| && c < |v|
    requires SameBelow(tab, rank, rank(c), None, v, v')
    ensures SameBelow(tab, rank, rank(c), Some(c), Put(v, c, TENTATIVE), Put(v', c, TENTATIVE))
  {
    var t, t' := Put(v, c, TENTATIVE), Put(v', c, TENTATIVE);
    forall x: Sym | rank(x) < rank(c)
      ensures Val(t, x) == Val(t', x) && ReadsSame(tab, t, t', x)
    {
      assert Val(v, x) == Val(v', x) && ReadsSame(tab, v, v', x);
    }
  }

  lemma ValueVisibleCongruent(tab: Table, rank: Rank, mv: Tri, mv': Tri, v: Values, v': Values, c: Sym, x: Sym)
    requires Layered(tab, rank) && |v| == |v'| == |tab.t| && c < |v| && IsTyped(Typ(tab.t, c))
    requires SameBelow(tab, rank, rank(c), None, v, v')
    requires Def(tab, c).isChoice && x in Def(tab, c).values
    requires ModulesFree(tab, c) || mv == mv'
    ensures ValueVisible(tab, mv, v, c, x) == ValueVisible(tab, mv', v', c, x)
  {
    assert SymbolLayered(tab, rank, c) && SymbolLayered(tab, rank, x);
    TentativeSame(tab, rank, v, v', c);
    VisibilityCongruent(tab, rank, rank(c), Some(c), mv, mv', Put(v, c, TENTATIVE), Put(v', c, TENTATIVE), x);
  }

  lemma {:induction false} FirstVisibleCongruent(tab: Table, rank: Rank, mv: Tri, mv': Tri, v: Values, v': Values,
                                                 c: Sym, i: nat)
    requires Layered(tab, rank) && |v| == |v'| == |tab.t| && c < |v| && IsTyped(Typ(tab.t, c))
    requires SameBelow(tab, rank, rank(c), None, v, v')
    requires Def(tab, c).isChoice && i <= |Def(tab, c).values|
    requires ModulesFree(tab, c) || mv == mv'
    ensures FirstVisible(tab, mv, v, c, i) == FirstVisible(tab, mv', v', c, i)
    decreases |Def(tab, c).values| - i
  {
    hide SameBelow, ValueVisible, Layered;
    if i < |Def(tab, c).values| {
      ValueVisibleCongruent(tab, rank, mv, mv', v, v', c, Def(tab, c).values[i]);
      FirstVisibleCongruent(tab, rank, mv, mv', v, v', c, i + 1);
    }
  }

  lemma {:induction false} DefaultPickCongruent(tab: Table, rank: Rank, mv: Tri, mv': Tri, v: Values, v': Values,
                                                c: Sym, i: nat)
    requires Layered(tab, rank) && |v| == |v'| == |tab.t| && c < |v| && IsTyped(Typ(tab.t, c))
    requires SameBelow(tab, rank, rank(c), None, v, v')
    requires Def(tab, c).isChoice && i <= |Def(tab, c).defaults|
    requires ModulesFree(tab, c) || mv == mv'
    ensures DefaultPick(tab, mv, v, c, i) == DefaultPick(tab, mv', v', c, i)
    decreases |Def(tab, c).defaults| - i
  {
    hide SameBelow, ValueVisible, Eval, Put;
    var ds := Def(tab, c).defaults;
    if i < |ds| {
      assert SymbolLayered(tab, rank, c);
      TentativeSame(tab, rank, v, v', c);
      BelowOptWeaken(tab, rank, rank(c), c, ds[i].cond);
      EvalOptCongruent(tab, rank, rank(c), Some(c), Put(v, c, TENTATIVE), Put(v', c, TENTATIVE), ds[i].cond);
      ValueVisibleCongruent(tab, rank, mv, mv', v, v', c, ds[i].value.sym);
      DefaultPickCongruent(tab, rank, mv, mv', v, v', c, i + 1);
    }
  }

  lemma {:induction false} BelowWeaken(tab: Table, rank: Rank, k: nat, c: Sym, e: Expr)
    requires Below(tab, rank, k, None, e)
    ensures Below(tab, rank, k, Some(c), e)
  {
    match e
    case Symbol(_) =>
    case Not(a) => BelowWeaken(tab, rank, k, c, a);
    case Comp(_, _, _) =>
    case Junct(_, l, r) =>
      BelowWeaken(tab, rank, k, c, l);
      BelowWeaken(tab, rank, k, c, r);
  }

  lemma BelowOptWeaken(tab: Table, rank: Rank, k: nat, c: Sym, e: Option<Expr>)
    requires BelowOpt(tab, rank, k, None, e)
    ensures BelowOpt(tab, rank, k, Some(c), e)
  {
    if e.Some? {
      BelowWeaken(tab, rank, k, c, e.value);
    }
  }

  /** A user's pick, if any, is a member of the choice. */
  ghost predicate PicksMember(tab: Table, u: Users) {
    forall c: Sym :: Def(tab, c).isChoice && Val(u.val, c).pick.Some? ==>
      Val(u.val, c).pick.value in Def(tab, c).values
  }

  lemma PickCongruent(tab: Table, rank: Rank, u: Users, mv: Tri, mv': Tri, v: Values, v': Values, c: Sym)
    requires Layered(tab, rank) && |v| == |v'| == |tab.t| && c < |v| && IsTyped(Typ(tab.t, c))
    requires SameBelow(tab, rank, rank(c), None, v, v')
    requires Def(tab, c).isChoice && PicksMember(tab, u)
    requires ModulesFree(tab, c) || mv == mv'
    ensures Pick(tab, u, mv, v, c) == Pick(tab, u, mv', v', c)
  {
    hide SameBelow, ValueVisible, Layered;
    if Val(u.val, c).pick.Some? {
      ValueVisibleCongruent(tab, rank, mv, mv', v, v', c, Val(u.val, c).pick.value);
    }
    DefaultPickCongruent(tab, rank, mv, mv', v, v', c, 0);
    FirstVisibleCongruent(tab, rank, mv, mv', v, v', c, 0);
  }

  /** What a symbol computes to depends only on the symbols ranked below it. */
  lemma ComputeCongruent(tab: Table, rank: Rank, u: Users, mv: Tri, mv': Tri, v: Values, v': Values, s: Sym)
    requires Layered(tab, rank) && PicksMember(tab, u) && |v| == |v'| == |tab.t| && s < |v|
    requires SameBelow(tab, rank, rank(s), None, v, v')
    requires ModulesFree(tab, s) || mv == mv' || !IsTyped(Typ(tab.t, s))
    ensures Compute(tab, u, mv, v, s) == Compute(tab, u, mv', v', s)
  {
    hide SameBelow, Layered, TriValue, StrValue, Pick;
    if IsLogical(Typ(tab.t, s)) {
      TriValueCongruent(tab, rank, u, mv, mv', v, v', s);
      if Def(tab, s).isChoice {
        PickCongruent(tab, rank, u, mv, mv', v, v', s);
      }
    } else if IsTextual(Typ(tab.t, s)) {
      StrValueCongruent(tab, rank, u, mv, mv', v, v', s);
    }
  }
}
