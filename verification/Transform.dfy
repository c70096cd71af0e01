/** Rewriting passes over whole conditions: negation push-down
    (expr.c:594-749), the boolean weakening (expr.c:332-356) and the lifting of
    a condition to a comparison (expr.c:808-871). */
module Transformation {
  import opened Tristates
  import opened Exprs

  function Negated(rel: Rel): Rel {
    match rel
    case Equal => Unequal
    case Unequal => Equal
    case Leq => Gth
    case Geq => Lth
    case Lth => Geq
    case Gth => Leq
  }

  function Dual(op: Junction): Junction {
    if op == Conj then Disj else Conj
  }

  /** Bounds the work of expr_transform: De Morgan output weighs less than its
      input, and a comparison weighs as much as a negated symbol. */
  function Weight(e: Expr): nat
    ensures Weight(e) >= 1
  {
    match e
    case Symbol(_) => 1
    case Comp(_, _, _) => 2
    case Not(a) => 2 * Weight(a)
    case Junct(_, l, r) => 1 + Weight(l) + Weight(r)
  }

  /** De Morgan: !(x op y). */
  function Distribute(op: Junction, x: Expr, y: Expr): (e: Expr)
    ensures Weight(e) < 2 * Weight(Junct(op, x, y))
  {
    var e := Junct(Dual(op), Not(x), Not(y));
    assert Weight(e) == 1 + Weight(Not(x)) + Weight(Not(y));
    e
  }

  /** A boolean symbol is tested against y, m or n. */
  predicate IsBooleanTest(t: Symbols, rel: Rel, l: Sym, r: Sym) {
    !IsOrdering(rel) && Typ(t, l) == Boolean && IsYmn(r)
  }

  function TransformComp(t: Symbols, rel: Rel, l: Sym, r: Sym): (e: Expr)
    ensures Weight(e) <= 2
  {
    if !IsBooleanTest(t, rel, l, r) then Comp(rel, l, r)
    else if r == MOD_SYM then Symbol(if rel == Equal then NO_SYM else YES_SYM)
    else if (r == YES_SYM) == (rel == Equal) then Symbol(l)
    else Not(Symbol(l))
  }

  /** expr_transform. */
  function Transform(t: Symbols, e: Expr): (r: Expr)
    ensures Weight(r) <= Weight(e)
    decreases Weight(e)
  {
    match e
    case Symbol(_) => e
    case Comp(rel, l, r) => TransformComp(t, rel, l, r)
    case Junct(op, l, r) => Junct(op, Transform(t, l), Transform(t, r))
    case Not(a) =>
      match Transform(t, a)
      case Not(x) => Transform(t, x)
      case Comp(rel, l, r) => Comp(Negated(rel), l, r)
      case Junct(op, x, y) => Transform(t, Distribute(op, x, y))
      case Symbol(s) =>
        if s == YES_SYM then Symbol(NO_SYM)
        else if s == NO_SYM then Symbol(YES_SYM)
        else if s == MOD_SYM then Symbol(MOD_SYM)
        else Not(Symbol(s))
  }

  /** Negation only directly above a symbol other than y, m and n, and no
      boolean symbol compared with y, m or n. */
  predicate Normal(t: Symbols, e: Expr) {
    match e
    case Symbol(_) => true
    case Not(a) => a.Symbol? && !IsYmn(a.sym)
    case Comp(rel, l, r) => !IsBooleanTest(t, rel, l, r)
    case Junct(_, l, r) => Normal(t, l) && Normal(t, r)
  }

  /** Every ordering under an odd number of negations, `neg` included, has
      operands that can be put in order. */
  predicate ComparableUnder(w: World, e: Expr, neg: bool) {
    match e
    case Symbol(_) => true
    case Not(a) => ComparableUnder(w, a, !neg)
    case Comp(rel, l, r) => neg && IsOrdering(rel) ==> !Incomparable(w, l, r)
    case Junct(_, l, r) => ComparableUnder(w, l, neg) && ComparableUnder(w, r, neg)
  }

  predicate Comparable(w: World, e: Expr) {
    ComparableUnder(w, e, false)
  }

  /** The value of e, or if `neg` of its negation, when a negation is taken to
      turn the comparisons below it around. */
  function EvalPushed(w: World, e: Expr, neg: bool): Tri {
    match e
    case Symbol(s) => if neg then TriNot(TriOf(w, s)) else TriOf(w, s)
    case Not(a) => EvalPushed(w, a, !neg)
    case Comp(rel, l, r) => EvalComp(w, if neg then Negated(rel) else rel, l, r)
    case Junct(op, l, r) => Apply(if neg then Dual(op) else op, EvalPushed(w, l, neg), EvalPushed(w, r, neg))
  }

  lemma BooleanTestSound(w: World, rel: Rel, l: Sym, r: Sym)
    requires Consistent(w)
    requires IsBooleanTest(w.t, rel, l, r)
    ensures Eval(w, TransformComp(w.t, rel, l, r)) == EvalComp(w, rel, l, r)
  {
    hide EvalComp;
    LogicalEquality(w, l, r);
    assert IsConst(w.t, r);
    assert StringOf(w, r) == Name(w.t, r) == Spell(TriOf(w, r));
  }

  lemma NegatedComparison(w: World, rel: Rel, l: Sym, r: Sym)
    ensures EvalComp(w, Negated(rel), l, r) == TriNot(EvalComp(w, rel, l, r)) <==>
      (IsOrdering(rel) ==> !Incomparable(w, l, r))
  {
    hide Incomparable, Order;
  }

  lemma DeMorgan(op: Junction, a: Tri, b: Tri)
    ensures Apply(Dual(op), TriNot(a), TriNot(b)) == TriNot(Apply(op, a, b))
  {
  }

  lemma TestPushed(w: World, rel: Rel, l: Sym, r: Sym, neg: bool)
    requires Consistent(w) && IsBooleanTest(w.t, rel, l, r)
    ensures EvalPushed(w, TransformComp(w.t, rel, l, r), neg) == EvalPushed(w, Comp(rel, l, r), neg)
  {
    hide EvalComp, Consistent;
    BooleanTestSound(w, rel, l, r);
    NegatedComparison(w, rel, l, r);
    var e := TransformComp(w.t, rel, l, r);
    assert e.Symbol? || (e.Not? && e.arg.Symbol?);
  }

  /** expr_transform keeps what pushing the negations down gives. */
  lemma {:induction false} TransformPushed(w: World, e: Expr, neg: bool)
    requires Consistent(w)
    ensures EvalPushed(w, Transform(w.t, e), neg) == EvalPushed(w, e, neg)
    decreases Weight(e)
  {
    hide Consistent, EvalComp, TransformComp;
    match e
    case Symbol(_) =>
    case Comp(rel, l, r) =>
      if IsBooleanTest(w.t, rel, l, r) {
        TestPushed(w, rel, l, r, neg);
      } else {
        assert TransformComp(w.t, rel, l, r) == e by { NoTest(w.t, rel, l, r); }
      }
    case Junct(op, l, r) =>
      TransformPushed(w, l, neg);
      TransformPushed(w, r, neg);
    case Not(a) =>
      TransformPushed(w, a, !neg);
      match Transform(w.t, a)
      case Not(x) => TransformPushed(w, x, neg);
      case Comp(_, _, _) =>
      case Junct(op, x, y) => TransformPushed(w, Distribute(op, x, y), neg);
      case Symbol(s) => ConstantSymbols(w);
  }

  lemma NoTest(t: Symbols, rel: Rel, l: Sym, r: Sym)
    requires !IsBooleanTest(t, rel, l, r)
    ensures TransformComp(t, rel, l, r) == Comp(rel, l, r)
  {
  }

  lemma ConstantSymbols(w: World)
    requires Consistent(w)
    ensures ConstantsHold(w)
  {
  }

  /** In normal form there is nothing left to push. */
  lemma {:induction false} NormalPushed(w: World, e: Expr)
    requires Normal(w.t, e)
    ensures EvalPushed(w, e, false) == Eval(w, e)
  {
    hide EvalComp;
    if e.Junct? {
      NormalPushed(w, e.left);
      NormalPushed(w, e.right);
    }
  }

  /** What expr_transform computes, for every condition and every consistent
      valuation. */
  lemma TransformMeans(w: World, e: Expr)
    requires Consistent(w)
    ensures Eval(w, Transform(w.t, e)) == EvalPushed(w, e, false)
  {
    hide EvalComp, Transform;
    TransformNormal(w.t, e);
    TransformPushed(w, e, false);
    NormalPushed(w, Transform(w.t, e));
  }

  /** Pushing negations down changes nothing where what is turned around can be
      ordered. */
  lemma {:induction false} PushedSound(w: World, e: Expr, neg: bool)
    requires ComparableUnder(w, e, neg)
    ensures EvalPushed(w, e, neg) == if neg then TriNot(Eval(w, e)) else Eval(w, e)
  {
    hide EvalComp, Incomparable;
    match e
    case Symbol(_) =>
    case Not(a) => PushedSound(w, a, !neg);
    case Comp(rel, l, r) => NegatedComparison(w, rel, l, r);
    case Junct(op, l, r) =>
      PushedSound(w, l, neg);
      PushedSound(w, r, neg);
      DeMorgan(op, Eval(w, l), Eval(w, r));
  }

  /** expr_transform keeps the value under every consistent valuation that can
      order what stands under an odd number of negations. */
  lemma TransformSound(w: World, e: Expr)
    requires Consistent(w) && Comparable(w, e)
    ensures Eval(w, Transform(w.t, e)) == Eval(w, e)
  {
    hide Consistent, EvalPushed, ComparableUnder;
    TransformMeans(w, e);
    PushedSound(w, e, false);
  }

  /** expr_transform ends in normal form. */
  lemma {:induction false} TransformNormal(t: Symbols, e: Expr)
    requires WellFormed(t)
    ensures Normal(t, Transform(t, e))
    decreases Weight(e)
  {
    match e
    case Symbol(_) =>
    case Comp(_, _, _) =>
    case Junct(op, l, r) =>
      TransformNormal(t, l);
      TransformNormal(t, r);
    case Not(a) =>
      TransformNormal(t, a);
      match Transform(t, a)
      case Not(x) => TransformNormal(t, x);
      case Comp(_, _, _) =>
      case Junct(op, x, y) => TransformNormal(t, Distribute(op, x, y));
      case Symbol(_) =>
  }

  /** What expr_transform leaves nowhere in a condition: a negation above anything but a
      symbol other than y, m and n, and a boolean symbol tested for y, m or n. */
  predicate Removable(t: Symbols, x: Expr) {
    || (x.Not? && !(x.arg.Symbol? && !IsYmn(x.arg.sym)))
    || (x.Comp? && (x.rel == Equal || x.rel == Unequal) && Typ(t, x.lhs) == Boolean && IsYmn(x.rhs))
  }

  lemma {:induction false} NormalContains(t: Symbols, e: Expr, x: Expr)
    requires Normal(t, e) && Contains(e, x)
    ensures !Removable(t, x)
  {
    if e != x && e.Junct? {
      if Contains(e.left, x) {
        NormalContains(t, e.left, x);
      } else {
        NormalContains(t, e.right, x);
      }
    }
  }

  lemma TransformRemoves(t: Symbols, e: Expr, x: Expr)
    requires WellFormed(t) && Contains(Transform(t, e), x)
    ensures !Removable(t, x)
  {
    hide Transform, WellFormed;
    TransformNormal(t, e);
    NormalContains(t, Transform(t, e), x);
  }

  /** Normal forms are exactly what expr_transform leaves alone. */
  lemma {:induction false} TransformFixpoint(t: Symbols, e: Expr)
    requires WellFormed(t)
    ensures Transform(t, e) == e <==> Normal(t, e)
    decreases Weight(e)
  {
    if Normal(t, e) {
      if e.Junct? {
        TransformFixpoint(t, e.left);
        TransformFixpoint(t, e.right);
      }
    } else {
      TransformNormal(t, e);
    }
  }

  /** A negated ordering of operands that cannot be ordered changes value:
      both the comparison and its opposite read n. */
  lemma NegatedOrderingExact(w: World, rel: Rel, l: Sym, r: Sym)
    requires IsOrdering(rel)
    ensures Eval(w, Transform(w.t, Not(Comp(rel, l, r)))) == Eval(w, Not(Comp(rel, l, r))) <==>
      !Incomparable(w, l, r)
  {
    NegatedComparison(w, rel, l, r);
    assert Transform(w.t, Comp(rel, l, r)) == Comp(rel, l, r);
  }

  /** Two symbols of no printable type cannot be ordered. */
  function UnorderedWorld(): World {
    World([SymInfo("n", Unknown, true), SymInfo("m", Unknown, true), SymInfo("y", Unknown, true),
           SymInfo("A", Other, false), SymInfo("B", Other, false)],
          [Value(NO, "n", None), Value(MOD, "m", None), Value(YES, "y", None), Value(NO, "A", None),
           Value(NO, "B", None)],
          NO_SYM)
  }

  lemma UnorderedConsistent()
    ensures Consistent(UnorderedWorld())
  {
    var w := UnorderedWorld();
    assert WellFormed(w.t);
  }

  lemma NegatedOrderingResult(t: Symbols, rel: Rel, l: Sym, r: Sym)
    requires IsOrdering(rel)
    ensures Transform(t, Not(Comp(rel, l, r))) == Comp(Negated(rel), l, r)
  {
    assert Transform(t, Comp(rel, l, r)) == Comp(rel, l, r);
  }

  /** Such operands exist: !(A < B) is y, and what it is turned into is n. */
  lemma NegatedOrderingLost()
    ensures var w, e := UnorderedWorld(), Not(Comp(Lth, 3, 4));
      Consistent(w) && Eval(w, e) == YES && Eval(w, Transform(w.t, e)) == NO
  {
    hide Transform, WellFormed;
    var w := UnorderedWorld();
    UnorderedConsistent();
    assert Incomparable(w, 3, 4);
    NegatedOrderingResult(w.t, Lth, 3, 4);
  }

  // ----- boolean weakening -----

  /** expr_trans_bool. */
  function TransBool(t: Symbols, e: Expr): Expr {
    match e
    case Symbol(_) => e
    case Not(a) => Not(TransBool(t, a))
    case Comp(rel, l, r) =>
      if rel == Unequal && Typ(t, l) == Tristate && r == NO_SYM then Symbol(l) else e
    case Junct(op, l, r) => Junct(op, TransBool(t, l), TransBool(t, r))
  }

  /** Nothing in the result compares a tristate symbol with n for being different, ... */
  lemma {:induction false} TransBoolRemoves(t: Symbols, e: Expr, x: Expr)
    requires Contains(TransBool(t, e), x)
    ensures !(x.Comp? && x.rel == Unequal && Typ(t, x.lhs) == Tristate && x.rhs == NO_SYM)
  {
    match e
    case Not(a) =>
      if Contains(TransBool(t, a), x) {
        TransBoolRemoves(t, a, x);
      }
    case Junct(_, l, r) =>
      if Contains(TransBool(t, l), x) {
        TransBoolRemoves(t, l, x);
      } else if Contains(TransBool(t, r), x) {
        TransBoolRemoves(t, r, x);
      }
    case _ =>
  }

  /** ... and a condition without such a comparison stays as it is. */
  lemma {:induction false} TransBoolFixpoint(t: Symbols, e: Expr)
    requires forall s: Sym :: Typ(t, s) == Tristate ==> !Contains(e, Comp(Unequal, s, NO_SYM))
    ensures TransBool(t, e) == e
  {
    match e
    case Not(a) =>
      assert forall s: Sym :: Contains(a, Comp(Unequal, s, NO_SYM)) ==> Contains(e, Comp(Unequal, s, NO_SYM));
      TransBoolFixpoint(t, a);
    case Junct(_, l, r) =>
      assert forall s: Sym :: Contains(l, Comp(Unequal, s, NO_SYM)) ==> Contains(e, Comp(Unequal, s, NO_SYM));
      assert forall s: Sym :: Contains(r, Comp(Unequal, s, NO_SYM)) ==> Contains(e, Comp(Unequal, s, NO_SYM));
      TransBoolFixpoint(t, l);
      TransBoolFixpoint(t, r);
    case Comp(rel, l, _) => assert Contains(e, e);
    case Symbol(_) =>
  }

  lemma LiftedTest(w: World, s: Sym)
    requires Consistent(w)
    requires IsLogical(Typ(w.t, s)) || IsYmn(s)
    ensures EvalComp(w, Unequal, s, NO_SYM) == OfBool(TriOf(w, s) != NO)
    ensures EvalComp(w, Equal, s, NO_SYM) == OfBool(TriOf(w, s) == NO)
  {
    assert IsConst(w.t, NO_SYM) && IsConst(w.t, MOD_SYM) && IsConst(w.t, YES_SYM);
    assert StringOf(w, NO_SYM) == "n" && StringOf(w, MOD_SYM) == "m" && StringOf(w, YES_SYM) == "y";
    CompareTextZero(StringOf(w, s), "n");
    if !IsLogical(Typ(w.t, s)) {
      TextOperands();
    }
  }

  /** The letters y, m and n are not numbers. */
  lemma TextOperands()
    ensures ParseOperand("y", Unknown) == Text
    ensures ParseOperand("m", Unknown) == Text
    ensures ParseOperand("n", Unknown) == Text
  {
  }

  /** On negation-normal input expr_trans_bool never changes whether the value
      is n, and never raises it. */
  lemma {:induction false} TransBoolSound(w: World, e: Expr)
    requires Consistent(w)
    requires NegationNormal(e)
    ensures (Eval(w, TransBool(w.t, e)) == NO) == (Eval(w, e) == NO)
    ensures Eval(w, TransBool(w.t, e)) <= Eval(w, e)
  {
    hide Consistent, EvalComp;
    match e
    case Symbol(_) =>
    case Not(_) =>
    case Comp(rel, l, r) =>
      if rel == Unequal && Typ(w.t, l) == Tristate && r == NO_SYM {
        LiftedTest(w, l);
      }
    case Junct(_, l, r) =>
      TransBoolSound(w, l);
      TransBoolSound(w, r);
  }

  // ----- lifting to a comparison with n -----

  /** expr_trans_compare(e, unequal ? != : =, c) for c one of y, m, n. */
  function TransCompare(e: Expr, unequal: bool, c: Sym): Expr {
    match e
    case Symbol(s) => Comp(if unequal then Unequal else Equal, s, c)
    case Not(a) => TransCompare(a, !unequal, c)
    case Comp(_, _, _) =>
      if c == MOD_SYM then Symbol(if unequal then YES_SYM else NO_SYM)
      else if (c == YES_SYM) != unequal then e
      else Not(e)
    case Junct(op, l, r) =>
      var l', r' := TransCompare(l, false, c), TransCompare(r, false, c);
      var both := if c == YES_SYM then Junct(op, l', r')
                  else if c == NO_SYM then Junct(Dual(op), l', r')
                  else e;
      if unequal then Not(both) else both
  }

  /** The same for a condition that may be missing. */
  function TransCompareOpt(e: Option<Expr>, unequal: bool, c: Sym): Expr {
    if e.Some? then TransCompare(e.value, unequal, c)
    else if unequal then Not(Symbol(c))
    else Symbol(c)
  }

  /** Two-valued evaluation: every leaf whose string is not "n" counts as true. */
  predicate Possible(w: World, e: Expr) {
    match e
    case Symbol(s) => StringOf(w, s) != "n"
    case Not(a) => !Possible(w, a)
    case Comp(rel, l, r) => EvalComp(w, rel, l, r) != NO
    case Junct(op, l, r) =>
      if op == Conj then Possible(w, l) && Possible(w, r) else Possible(w, l) || Possible(w, r)
  }

  /** Every symbol used as a condition reads "n" exactly when it is n. */
  predicate LeavesTell(w: World, e: Expr) {
    match e
    case Symbol(s) => StringOf(w, s) == "n" <==> TriOf(w, s) == NO
    case Not(a) => LeavesTell(w, a)
    case Comp(_, _, _) => true
    case Junct(_, l, r) => LeavesTell(w, l) && LeavesTell(w, r)
  }

  /** Every symbol used as a condition is boolean, tristate, or y, m, n. */
  predicate LogicalLeaves(t: Symbols, e: Expr) {
    match e
    case Symbol(s) => IsLogical(Typ(t, s)) || IsYmn(s)
    case Not(a) => LogicalLeaves(t, a)
    case Comp(_, _, _) => true
    case Junct(_, l, r) => LogicalLeaves(t, l) && LogicalLeaves(t, r)
  }

  lemma {:induction false} LogicalLeavesTell(w: World, e: Expr)
    requires Consistent(w) && LogicalLeaves(w.t, e)
    ensures LeavesTell(w, e)
  {
    match e
    case Symbol(s) =>
      if !IsLogical(Typ(w.t, s)) {
        assert IsConst(w.t, NO_SYM) && IsConst(w.t, MOD_SYM) && IsConst(w.t, YES_SYM);
        assert StringOf(w, s) == Name(w.t, s);
      }
    case Not(a) => LogicalLeavesTell(w, a);
    case Comp(_, _, _) =>
    case Junct(_, l, r) =>
      LogicalLeavesTell(w, l);
      LogicalLeavesTell(w, r);
  }

  /** No negation has an operand worth m. */
  predicate NoModNegated(w: World, e: Expr) {
    match e
    case Not(a) => Eval(w, a) != MOD && NoModNegated(w, a)
    case Junct(_, l, r) => NoModNegated(w, l) && NoModNegated(w, r)
    case _ => true
  }

  /** What the lifted condition computes, for every condition. */
  lemma {:induction false} TransCompareIsPossible(w: World, e: Expr, unequal: bool)
    requires Consistent(w)
    ensures Eval(w, TransCompare(e, unequal, NO_SYM)) == OfBool(Possible(w, e) == unequal)
  {
    hide Consistent, EvalComp, StringOf;
    match e
    case Symbol(s) => SpellingTest(w, s);
    case Not(a) => TransCompareIsPossible(w, a, !unequal);
    case Comp(rel, l, r) => ComparisonsAreSharp(w, rel, l, r);
    case Junct(op, l, r) =>
      TransCompareIsPossible(w, l, false);
      TransCompareIsPossible(w, r, false);
  }

  lemma ComparisonsAreSharp(w: World, rel: Rel, l: Sym, r: Sym)
    ensures EvalComp(w, rel, l, r) != MOD
  {
    hide Incomparable, Order;
  }

  /** Comparing any symbol with n compares its string with "n". */
  lemma SpellingTest(w: World, s: Sym)
    requires Consistent(w)
    ensures EvalComp(w, Unequal, s, NO_SYM) == OfBool(StringOf(w, s) != "n")
    ensures EvalComp(w, Equal, s, NO_SYM) == OfBool(StringOf(w, s) == "n")
  {
    hide StringOf, Name, ParseOperand;
    NoIsText(w);
    CompareTextZero(StringOf(w, s), StringOf(w, NO_SYM));
  }

  lemma NoIsText(w: World)
    requires Consistent(w)
    ensures StringOf(w, NO_SYM) == "n" && Typ(w.t, NO_SYM) == Unknown && ParseOperand("n", Unknown) == Text
  {
    TextOperands();
    assert IsConst(w.t, NO_SYM);
  }

  /** Two-valued evaluation: every leaf whose string is "y" counts as true. */
  predicate Certain(w: World, e: Expr) {
    match e
    case Symbol(s) => StringOf(w, s) == "y"
    case Not(a) => !Certain(w, a)
    case Comp(rel, l, r) => EvalComp(w, rel, l, r) != NO
    case Junct(op, l, r) =>
      if op == Conj then Certain(w, l) && Certain(w, r) else Certain(w, l) || Certain(w, r)
  }

  lemma YesTest(w: World, s: Sym)
    requires Consistent(w)
    ensures EvalComp(w, Unequal, s, YES_SYM) == OfBool(StringOf(w, s) != "y")
    ensures EvalComp(w, Equal, s, YES_SYM) == OfBool(StringOf(w, s) == "y")
  {
    hide StringOf, Name, ParseOperand;
    YesIsText(w);
    CompareTextZero(StringOf(w, s), StringOf(w, YES_SYM));
  }

  lemma YesIsText(w: World)
    requires Consistent(w)
    ensures StringOf(w, YES_SYM) == "y" && Typ(w.t, YES_SYM) == Unknown && ParseOperand("y", Unknown) == Text
  {
    TextOperands();
    assert IsConst(w.t, YES_SYM);
  }

  /** The same for a comparison with y. */
  lemma {:induction false} TransCompareIsCertain(w: World, e: Expr, unequal: bool)
    requires Consistent(w)
    ensures Eval(w, TransCompare(e, unequal, YES_SYM)) == OfBool(Certain(w, e) != unequal)
  {
    hide Consistent, EvalComp, StringOf;
    match e
    case Symbol(s) => YesTest(w, s);
    case Not(a) => TransCompareIsCertain(w, a, !unequal);
    case Comp(rel, l, r) => ComparisonsAreSharp(w, rel, l, r);
    case Junct(op, l, r) =>
      TransCompareIsCertain(w, l, false);
      TransCompareIsCertain(w, r, false);
  }

  /** Compared with m, a comparison is never it, a symbol is asked, and a conjunction or
      disjunction stays what it was, worth y or m where it ought to be worth y or n. */
  lemma TransCompareModule(w: World, e: Expr, unequal: bool)
    ensures e.Symbol? ==> TransCompare(e, unequal, MOD_SYM) == Comp(if unequal then Unequal else Equal, e.sym, MOD_SYM)
    ensures e.Comp? && ConstantsHold(w) ==> Eval(w, TransCompare(e, unequal, MOD_SYM)) == OfBool(unequal)
    ensures e.Not? ==> TransCompare(e, unequal, MOD_SYM) == TransCompare(e.arg, !unequal, MOD_SYM)
    ensures e.Junct? ==>
      Eval(w, TransCompare(e, unequal, MOD_SYM)) == if unequal then TriNot(Eval(w, e)) else Eval(w, e)
  {
  }

  lemma {:induction false} PossibleIsNotNo(w: World, e: Expr)
    requires NoModNegated(w, e) && LeavesTell(w, e)
    ensures Possible(w, e) == (Eval(w, e) != NO)
  {
    hide EvalComp;
    match e
    case Not(a) => PossibleIsNotNo(w, a);
    case Junct(_, l, r) =>
      PossibleIsNotNo(w, l);
      PossibleIsNotNo(w, r);
    case _ =>
  }

  /** expr_trans_compare(e, !=, n) is y exactly where e is not n, and n
      elsewhere, as long as no negation has an operand worth m. */
  lemma TransCompareLifts(w: World, e: Expr)
    requires Consistent(w)
    requires LeavesTell(w, e) && NoModNegated(w, e)
    ensures Eval(w, TransCompare(e, true, NO_SYM)) == OfBool(Eval(w, e) != NO)
  {
    TransCompareIsPossible(w, e, true);
    PossibleIsNotNo(w, e);
  }

  /** The guards are needed: a lifted symbol is right if and only if its string
      tells, ... */
  lemma LeafLiftExact(w: World, s: Sym)
    requires Consistent(w)
    ensures Eval(w, TransCompare(Symbol(s), true, NO_SYM)) == OfBool(TriOf(w, s) != NO) <==> LeavesTell(w, Symbol(s))
  {
    hide Consistent;
    SpellingTest(w, s);
  }

  /** ... and over a faithful operand, the lifted negation is right if and only
      if the operand is not m. */
  lemma NegationLiftExact(w: World, a: Expr)
    requires Consistent(w)
    requires LeavesTell(w, a) && NoModNegated(w, a)
    ensures Eval(w, TransCompare(Not(a), true, NO_SYM)) == OfBool(Eval(w, Not(a)) != NO) <==>
      Eval(w, a) != MOD
  {
    hide Consistent;
    TransCompareIsPossible(w, Not(a), true);
    PossibleIsNotNo(w, a);
  }
}
