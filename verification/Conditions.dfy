/** The conditions menu_finalize derives (menu.c:326-361): dependencies handed
    down to the children, and the test that makes a menu the child of the one
    before it. */
module MenuConditions {
  import opened Tristates
  import opened Exprs
  import opened Cancellation
  import opened Joins
  import opened Spines
  import opened Completeness
  import opened Duplicates
  import opened Transformation
  import opened Layering

  // ----- handing a condition down -----

  /** expr_alloc_and. */
  function AllocAnd(a: Option<Expr>, b: Option<Expr>): Option<Expr> {
    if a.None? then b else if b.None? then a else Some(And(a.value, b.value))
  }

  predicate ComparableOpt(w: World, e: Option<Expr>) {
    e.Some? ==> Comparable(w, e.value)
  }

  predicate NormalOpt(e: Option<Expr>) {
    e.Some? ==> NegationNormal(e.value)
  }

  /** `whole` is worth the lower of a and b, wherever comparisons make sense. */
  ghost predicate IsBoth(t: Symbols, whole: Option<Expr>, a: Option<Expr>, b: Option<Expr>) {
    forall w: World :: w.t == t && Consistent(w) && ComparableOpt(w, b) ==>
      EvalOpt(w, whole) == TriAnd(EvalOpt(w, a), EvalOpt(w, b))
  }

  /** `whole` is n exactly where a or b is, and never above both. */
  ghost predicate IsBothForBool(t: Symbols, whole: Option<Expr>, a: Option<Expr>, b: Option<Expr>) {
    forall w: World :: w.t == t && Consistent(w) && ComparableOpt(w, b) ==>
      && (EvalOpt(w, whole) == NO <==> EvalOpt(w, a) == NO || EvalOpt(w, b) == NO)
      && EvalOpt(w, whole) <= TriAnd(EvalOpt(w, a), EvalOpt(w, b))
  }

  lemma NormalIsNegationNormal(t: Symbols, e: Expr)
    requires Normal(t, e)
    ensures NegationNormal(e)
  {
  }

  /** No tristate symbol is compared with n for being different. */
  ghost predicate WeakOpt(t: Symbols, r: Option<Expr>) {
    r.Some? ==> forall s: Sym :: Typ(t, s) == Tristate ==> !Contains(r.value, Comp(Unequal, s, NO_SYM))
  }

  lemma NothingWeak(t: Symbols)
    ensures WeakOpt(t, None)
  {
  }

  lemma TransBoolWeak(t: Symbols, e: Expr)
    ensures WeakOpt(t, Some(TransBool(t, e)))
  {
    hide TransBool, Contains;
    forall s: Sym | Typ(t, s) == Tristate
      ensures !Contains(TransBool(t, e), Comp(Unequal, s, NO_SYM))
    {
      if Contains(TransBool(t, e), Comp(Unequal, s, NO_SYM)) {
        TransBoolRemoves(t, e, Comp(Unequal, s, NO_SYM));
        assert false;
      }
    }
  }

  /** Nothing is left to join. */
  ghost predicate ReducedOpt(t: Symbols, r: Option<Expr>) {
    r.Some? ==> Reduced(t, r.value)
  }

  /** A condition joined to a copy of an inherited one, and simplified. */
  method Inherit(t: Symbols, a: Option<Expr>, b: Option<Expr>) returns (r: Option<Expr>)
    requires WellFormed(t)
    ensures IsBoth(t, r, a, b) && ReducedOpt(t, r)
    ensures NormalOpt(a) ==> NormalOpt(r)
  {
    hide Normal, Comparable, Consistent, WellFormed, Reduced;
    var b' := b;
    if b.Some? {
      b' := Some(Transform(t, b.value));
      TransformNormal(t, b.value);
      NormalIsNegationNormal(t, b'.value);
    }
    r := AllocAnd(a, b');
    ghost var both := r;
    if r.Some? {
      var o := new Optimiser();
      var e := o.EliminateDups(t, r.value);
      r := Some(e);
    }
    forall w: World | w.t == t && Consistent(w) && ComparableOpt(w, b)
      ensures EvalOpt(w, r) == TriAnd(EvalOpt(w, a), EvalOpt(w, b))
    {
      if b.Some? {
        TransformSound(w, b.value);
      }
      assert EvalOpt(w, r) == EvalOpt(w, both);
    }
  }

  /** The condition of one property of a child: weakened when the symbol is not
      a tristate. */
  method InheritCond(t: Symbols, a: Option<Expr>, b: Option<Expr>, weaken: bool) returns (r: Option<Expr>)
    requires WellFormed(t)
    ensures !weaken ==> IsBoth(t, r, a, b) && ReducedOpt(t, r)
    ensures weaken ==> WeakOpt(t, r)
    ensures NormalOpt(a) ==> IsBothForBool(t, r, a, b) && NormalOpt(r)
  {
    hide Comparable, Consistent, WellFormed, WeakOpt, ReducedOpt, TransBool;
    NothingWeak(t);
    r := Inherit(t, a, b);
    if weaken && r.Some? {
      var was := r;
      r := Some(TransBool(t, was.value));
      TransBoolWeak(t, was.value);
      if NormalOpt(a) {
        TransBoolNormal(t, was.value);
        forall w: World | w.t == t && Consistent(w) && ComparableOpt(w, b)
          ensures EvalOpt(w, r) == NO <==> EvalOpt(w, a) == NO || EvalOpt(w, b) == NO
          ensures EvalOpt(w, r) <= TriAnd(EvalOpt(w, a), EvalOpt(w, b))
        {
          TransBoolSound(w, was.value);
          assert EvalOpt(w, was) == TriAnd(EvalOpt(w, a), EvalOpt(w, b));
        }
      }
    }
  }

  /** A menu's dependency and property conditions, before (d, cs) and after
      (d', cs') its parent handed `from` down to it. */
  ghost predicate Inherited(t: Symbols, weaken: bool, from: Option<Expr>, d: Option<Expr>, cs: seq<Option<Expr>>,
                            d': Option<Expr>, cs': seq<Option<Expr>>) {
    && |cs'| == |cs|
    && IsBoth(t, d', from, d) && ReducedOpt(t, d') && (NormalOpt(from) ==> NormalOpt(d'))
    && forall i :: 0 <= i < |cs| ==>
         && (if weaken then WeakOpt(t, cs'[i]) else IsBoth(t, cs'[i], d', cs[i]) && ReducedOpt(t, cs'[i]))
         && (NormalOpt(from) ==> IsBothForBool(t, cs'[i], d', cs[i]) && NormalOpt(cs'[i]))
  }

  lemma {:induction false} TransBoolNormal(t: Symbols, e: Expr)
    requires NegationNormal(e)
    ensures NegationNormal(TransBool(t, e))
  {
    if e.Junct? {
      TransBoolNormal(t, e.left);
      TransBoolNormal(t, e.right);
    }
  }

  /** The conditions outside s are untouched. */
  ghost predicate CondsKept(d: seq<Option<Expr>>, c: seq<seq<Option<Expr>>>, d': seq<Option<Expr>>,
                            c': seq<seq<Option<Expr>>>,
                            s: set<nat>) {
    && |d'| == |d| && |c'| == |c|
    && (forall x :: 0 <= x < |d| && x !in s ==> d'[x] == d[x])
    && (forall x :: 0 <= x < |c| && x !in s ==> c'[x] == c[x])
  }

  lemma CondsKeptTwice(d: seq<Option<Expr>>, c: seq<seq<Option<Expr>>>, d1: seq<Option<Expr>>,
                       c1: seq<seq<Option<Expr>>>,
                       d2: seq<Option<Expr>>, c2: seq<seq<Option<Expr>>>, s: set<nat>, s1: set<nat>, s2: set<nat>)
    requires CondsKept(d, c, d1, c1, s1) && CondsKept(d1, c1, d2, c2, s2) && s1 <= s && s2 <= s
    ensures CondsKept(d, c, d2, c2, s)
  {
  }

  // ----- does one menu follow from another? -----

  /** expr_depends_symbol. */
  predicate DependsOn(e: Expr, s: Sym) {
    match e
    case Symbol(x) => x == s
    case Comp(rel, l, r) =>
      l == s && ((rel == Equal && (r == YES_SYM || r == MOD_SYM)) || (rel == Unequal && r == NO_SYM))
    case Junct(op, l, r) => op == Conj && (DependsOn(l, s) || DependsOn(r, s))
    case Not(_) => false
  }

  /** Among the operands of a conjunction one asks for s to be set. */
  predicate AsksFor(row: seq<Expr>, s: Sym) {
    || Symbol(s) in row || Comp(Equal, s, YES_SYM) in row || Comp(Equal, s, MOD_SYM) in row
    || Comp(Unequal, s, NO_SYM) in row
  }

  /** A condition depends on a symbol if and only if it is one of the four tests for it, or
      a conjunction with such an operand, however nested. */
  lemma {:induction false} DependsExactly(e: Expr, s: Sym)
    ensures DependsOn(e, s) <==> AsksFor(Operands(Conj, e), s)
  {
    if IsJunct(e, Conj) {
      DependsExactly(e.left, s);
      DependsExactly(e.right, s);
    }
  }

  /** x is the symbol s or a comparison of it. */
  predicate IsAbout(x: Expr, s: Sym) {
    x == Symbol(s) || (x.Comp? && (x.lhs == s || x.rhs == s))
  }

  /** A condition mentions a symbol if and only if it is somewhere in it, alone or compared. */
  lemma {:induction false} MentionsExactly(e: Expr, s: Sym)
    ensures Mentions(e, s) <==> exists x :: Contains(e, x) && IsAbout(x, s)
  {
    if Mentions(e, s) {
      var x := MentionedPart(e, s);
    }
    forall x | Contains(e, x) && IsAbout(x, s)
      ensures Mentions(e, s)
    {
      PartMentioned(e, x, s);
    }
  }

  lemma {:induction false} MentionedPart(e: Expr, s: Sym) returns (x: Expr)
    requires Mentions(e, s)
    ensures Contains(e, x) && IsAbout(x, s)
  {
    match e
    case Not(a) => x := MentionedPart(a, s);
    case Junct(_, l, r) =>
      if Mentions(l, s) {
        x := MentionedPart(l, s);
      } else {
        x := MentionedPart(r, s);
      }
    case _ => x := e;
  }

  lemma {:induction false} PartMentioned(e: Expr, x: Expr, s: Sym)
    requires Contains(e, x) && IsAbout(x, s)
    ensures Mentions(e, s)
  {
    match e
    case Not(a) => PartMentioned(a, x, s);
    case Junct(_, l, r) =>
      if Contains(l, x) {
        PartMentioned(l, x, s);
      } else {
        PartMentioned(r, x, s);
      }
    case _ =>
  }

  lemma {:induction false} AskedIsMentioned(e: Expr, s: Sym)
    ensures AsksFor(Operands(Conj, e), s) ==> Mentions(e, s)
  {
    if IsJunct(e, Conj) {
      AskedIsMentioned(e.left, s);
      AskedIsMentioned(e.right, s);
    }
  }

  /** A condition that depends on a symbol is n whenever the symbol is. */
  lemma {:induction false} DependsSound(w: World, e: Expr, s: Sym)
    requires Consistent(w) && IsLogical(Typ(w.t, s)) && DependsOn(e, s)
    ensures Eval(w, e) != NO ==> TriOf(w, s) != NO
  {
    hide EvalComp, Consistent;
    match e
    case Symbol(_) =>
    case Comp(rel, l, r) =>
      TestConstant(w, l, r);
      assert TriOf(w, NO_SYM) == NO && TriOf(w, MOD_SYM) == MOD && TriOf(w, YES_SYM) == YES by { ConstantsOf(w); }
    case Junct(_, l, r) =>
      if DependsOn(l, s) {
        DependsSound(w, l, s);
      } else {
        DependsSound(w, r, s);
      }
    case Not(_) =>
  }

  lemma ConstantsOf(w: World)
    requires Consistent(w)
    ensures ConstantsHold(w)
  {
  }

  /** Lifting puts a comparison under a negation exactly where it was. */
  lemma {:induction false} TransCompareComparable(w: World, e: Expr, unequal: bool, neg: bool)
    requires ComparableUnder(w, e, neg != !unequal)
    ensures ComparableUnder(w, TransCompare(e, unequal, NO_SYM), neg)
  {
    hide Incomparable;
    match e
    case Symbol(_) =>
    case Not(a) => TransCompareComparable(w, a, !unequal, neg);
    case Comp(_, _, _) =>
    case Junct(_, l, r) =>
      TransCompareComparable(w, l, false, neg != unequal);
      TransCompareComparable(w, r, false, neg != unequal);
  }

  predicate PossibleOpt(w: World, e: Option<Expr>) {
    e.Some? ==> Possible(w, e.value)
  }

  /** `lifted` is y where e is possible and n elsewhere. */
  ghost predicate LiftOf(t: Symbols, lifted: Expr, e: Option<Expr>) {
    forall w: World :: w.t == t && Consistent(w) && ComparableOpt(w, e) ==>
      Eval(w, lifted) == OfBool(PossibleOpt(w, e))
  }

  /** The condition e compared with n, before it is simplified. */
  function Lifted(t: Symbols, e: Option<Expr>): Expr {
    Transform(t, TransCompareOpt(e, true, NO_SYM))
  }

  /** `r` is e compared with n and simplified: it has the same value everywhere,
      is no larger, has negations only above symbols, and nothing to join; it is the
      lifted condition itself if that has nothing to join. */
  ghost predicate IsLifted(t: Symbols, r: Expr, e: Option<Expr>) {
    && Equivalent(t, Lifted(t, e), r) && Size(r) <= Size(Lifted(t, e)) && NegationNormal(r) && NoJoin(t, r)
    && (NoJoin(t, Lifted(t, e)) ==> r == Lifted(t, e))
  }

  /** The comparison with n of a condition, simplified. */
  method Lift(t: Symbols, e: Option<Expr>) returns (r: Expr)
    requires WellFormed(t)
    ensures LiftOf(t, r, e) && IsLifted(t, r, e)
  {
    hide Comparable, Consistent, WellFormed, Possible, TransCompare, Normal, NegationNormal, NoJoin;
    var lifted := TransCompareOpt(e, true, NO_SYM);
    var o := new Optimiser();
    r := o.EliminateDups(t, Transform(t, lifted));
    TransformNormal(t, lifted);
    NormalIsNegationNormal(t, Transform(t, lifted));
    forall w: World | w.t == t && Consistent(w) && ComparableOpt(w, e)
      ensures Eval(w, r) == OfBool(PossibleOpt(w, e))
    {
      LiftedValue(w, e);
      TransformSound(w, lifted);
    }
  }

  lemma LiftedValue(w: World, e: Option<Expr>)
    requires Consistent(w) && ComparableOpt(w, e)
    ensures var lifted := TransCompareOpt(e, true, NO_SYM);
      Comparable(w, lifted) && Eval(w, lifted) == OfBool(PossibleOpt(w, e))
  {
    hide Consistent, Possible, TransCompare;
    if e.Some? {
      TransCompareComparable(w, e.value, true, false);
      TransCompareIsPossible(w, e.value, true);
    } else {
      ConstantsOf(w);
      assert ComparableUnder(w, Symbol(NO_SYM), true);
    }
  }

  /** Wherever e may show, `base` may too. */
  ghost predicate Implies(t: Symbols, e: Expr, base: Option<Expr>) {
    forall w: World :: w.t == t && Consistent(w) && Comparable(w, e) && ComparableOpt(w, base) ==>
      Possible(w, e) ==> PossibleOpt(w, base)
  }

  /** The condition e passed the test for going under symbol s with prompt
      condition `base`. */
  ghost predicate IsAdopted(t: Symbols, e: Option<Expr>, s: Sym, base: Option<Expr>) {
    e.Some? && Mentions(e.value, s) && (AsksFor(Operands(Conj, e.value), s) || Implies(t, e.value, base))
  }

  /** The test of menu_finalize on a following menu with condition e, once it is
      lifted to `dep` and the prompt condition of the symbol s to `lifted`. */
  predicate Passes(e: Option<Expr>, s: Sym, dep: Expr, lifted: Expr) {
    e.Some? && Mentions(e.value, s) && (DependsOn(e.value, s) || EliminateEq(dep, lifted).1 == Symbol(YES_SYM))
  }

  /** The condition e failed the test for going under symbol s: no operand asks for s, and
      if it mentions s, the prompt condition has an operand, once both are lifted, that it
      has not. */
  ghost predicate IsRejected(t: Symbols, e: Option<Expr>, s: Sym, base: Option<Expr>) {
    e.Some? ==>
      && !AsksFor(Operands(Conj, e.value), s)
      && (Mentions(e.value, s) ==>
           exists dep, lifted :: IsLifted(t, dep, e) && IsLifted(t, lifted, base) && !Covers(dep, lifted) &&
             EliminateEq(dep, lifted).1 != Symbol(YES_SYM))
  }

  /** A following menu with condition e goes under the menu of symbol s, whose
      prompt condition was lifted to `lifted`, exactly when it passes the test. */
  method Follows(t: Symbols, e: Option<Expr>, s: Sym, lifted: Expr, ghost base: Option<Expr>)
    returns (ok: bool, ghost dep: Expr)
    requires WellFormed(t) && LiftOf(t, lifted, base) && IsLifted(t, lifted, base)
    ensures ok <==> Passes(e, s, dep, lifted)
    ensures e.Some? && Mentions(e.value, s) && !DependsOn(e.value, s) ==> IsLifted(t, dep, e)
    ensures e.Some? && AsksFor(Operands(Conj, e.value), s) ==> ok
    ensures e.Some? && Mentions(e.value, s) && Covers(dep, lifted) ==> ok
    ensures ok ==> IsAdopted(t, e, s, base)
    ensures !ok ==> IsRejected(t, e, s, base)
  {
    hide Consistent, WellFormed, Possible, Comparable, EliminateEq, LiftOf, IsLifted, Covers, AsksFor, DependsOn;
    dep := lifted;
    if e.None? {
      return false, dep;
    }
    DependsExactly(e.value, s);
    AskedIsMentioned(e.value, s);
    if !Mentions(e.value, s) {
      return false, dep;
    }
    if DependsOn(e.value, s) {
      return true, dep;
    }
    var lift := Lift(t, e);
    dep := lift;
    ok := EliminateEq(lift, lifted).1 == Symbol(YES_SYM);
    CoveredPasses(t, lift, lifted, base);
    if ok {
      LiftedImplies(t, e.value, base, lift, lifted);
    }
  }

  /** A following menu under all the conditions of the prompt passes. */
  lemma CoveredPasses(t: Symbols, dep: Expr, lifted: Expr, base: Option<Expr>)
    requires IsLifted(t, lifted, base)
    ensures Covers(dep, lifted) ==> EliminateEq(dep, lifted).1 == Symbol(YES_SYM)
  {
    hide EliminateEq, NoJoin, Equivalent, Lifted, PairwiseUnequal, Covers;
    UnjoinedUnequal(t, Conj, lifted);
    if Covers(dep, lifted) {
      CoveredLeavesYes(dep, lifted);
    }
  }

  lemma LiftedImplies(t: Symbols, e: Expr, base: Option<Expr>, dep: Expr, lifted: Expr)
    requires LiftOf(t, dep, Some(e)) && LiftOf(t, lifted, base) && EliminateEq(dep, lifted).1 == Symbol(YES_SYM)
    ensures Implies(t, e, base)
  {
    hide Consistent, Possible, Comparable, EliminateEq;
    forall w: World | w.t == t && Consistent(w) && Comparable(w, e) && ComparableOpt(w, base)
      ensures Possible(w, e) ==> PossibleOpt(w, base)
    {
      ConstantsOf(w);
      EliminateEqImplies(w, dep, lifted);
      assert Eval(w, dep) == OfBool(PossibleOpt(w, Some(e)));
      assert Eval(w, lifted) == OfBool(PossibleOpt(w, base));
    }
  }

  /** What absorption means on the screen: where an absorbed menu is visible,
      the symbol it went under is set or its prompt is visible. */
  lemma AbsorbedHides(w: World, e: Expr, s: Sym, base: Option<Expr>)
    requires Consistent(w) && IsLogical(Typ(w.t, s)) && Comparable(w, e) && ComparableOpt(w, base)
    requires AsksFor(Operands(Conj, e), s) || Implies(w.t, e, base)
    requires NoModNegated(w, e) && LeavesTell(w, e)
    requires base.Some? ==> NoModNegated(w, base.value) && LeavesTell(w, base.value)
    ensures Eval(w, e) != NO ==> TriOf(w, s) != NO || EvalOpt(w, base) != NO
  {
    hide Consistent, Possible, Comparable, Eval, DependsOn, AsksFor;
    DependsExactly(e, s);
    PossibleIsNotNo(w, e);
    if base.Some? {
      PossibleIsNotNo(w, base.value);
    }
    if DependsOn(e, s) {
      DependsSound(w, e, s);
    }
  }
}
