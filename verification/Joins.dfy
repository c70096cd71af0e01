/** Joining two operands of one conjunction or disjunction into a single
    simpler condition (expr.c:358-517). */
module Joins {
  import opened Tristates
  import opened Exprs
  import opened Cancellation

  /** The symbol the first operand tests; its negation may cover a comparison. */
  function FirstSubject(e: Expr): Option<Sym> {
    if e.Symbol? then Some(e.sym)
    else if e.Comp? && !IsOrdering(e.rel) then Some(e.lhs)
    else if e.Not? && e.arg.Symbol? then Some(e.arg.sym)
    else if e.Not? && e.arg.Comp? && !IsOrdering(e.arg.rel) then Some(e.arg.lhs)
    else None
  }

  /** The symbol the second operand tests; its negation may only cover a symbol. */
  function SecondSubject(e: Expr): Option<Sym> {
    if e.Symbol? then Some(e.sym)
    else if e.Comp? && !IsOrdering(e.rel) then Some(e.lhs)
    else if e.Not? && e.arg.Symbol? then Some(e.arg.sym)
    else None
  }

  predicate Tests(e: Expr, rel: Rel, rhs: Sym) {
    e.Comp? && e.rel == rel && e.rhs == rhs
  }

  predicate TestPair(e1: Expr, e2: Expr, rel: Rel, a: Sym, b: Sym) {
    (Tests(e1, rel, a) && Tests(e2, rel, b)) || (Tests(e1, rel, b) && Tests(e2, rel, a))
  }

  predicate SymbolAnd(e1: Expr, e2: Expr, rel: Rel, rhs: Sym) {
    (e1.Symbol? && Tests(e2, rel, rhs)) || (e2.Symbol? && Tests(e1, rel, rhs))
  }

  /** expr_join_or, for operands that are not equal. */
  function MergeOr(t: Symbols, e1: Expr, e2: Expr): Option<Expr> {
    if FirstSubject(e1).None? || FirstSubject(e1) != SecondSubject(e2) then None
    else
      var s := FirstSubject(e1).value;
      if Typ(t, s) == Tristate then
        // a=y || a=m, a=y || a=n, a=m || a=n: all but the third value
        if TestPair(e1, e2, Equal, YES_SYM, MOD_SYM) then Some(Comp(Unequal, s, NO_SYM))
        else if TestPair(e1, e2, Equal, YES_SYM, NO_SYM) then Some(Comp(Unequal, s, MOD_SYM))
        else if TestPair(e1, e2, Equal, MOD_SYM, NO_SYM) then Some(Comp(Unequal, s, YES_SYM))
        else None
      else if Typ(t, s) == Boolean &&
              ((e1.Not? && e1.arg.Symbol? && e2.Symbol?) || (e2.Not? && e2.arg.Symbol? && e1.Symbol?)) then
        Some(Symbol(YES_SYM))
      else None
  }

  /** (a='b') && (a!='c') for constants b and c. */
  function EqualAndUnequal(s: Sym, b: Sym, c: Sym): Expr {
    if b != c then Comp(Equal, s, b) else Symbol(NO_SYM)
  }

  /** expr_join_and, for operands that are not equal. */
  function MergeAnd(t: Symbols, e1: Expr, e2: Expr): Option<Expr> {
    if FirstSubject(e1).None? || FirstSubject(e1) != SecondSubject(e2) then None
    else if !IsLogical(Typ(t, FirstSubject(e1).value)) then None
    else
      var s := FirstSubject(e1).value;
      if SymbolAnd(e1, e2, Equal, YES_SYM) then Some(Comp(Equal, s, YES_SYM))
      else if SymbolAnd(e1, e2, Unequal, NO_SYM) then Some(Symbol(s))
      else if SymbolAnd(e1, e2, Unequal, MOD_SYM) then Some(Comp(Equal, s, YES_SYM))
      else if Typ(t, s) == Boolean then None
      else if e1.Comp? && e1.rel == Equal && e2.Comp? && e2.rel == Unequal
              && IsConst(t, e2.rhs) && IsConst(t, e1.rhs) then
        Some(EqualAndUnequal(s, e1.rhs, e2.rhs))
      else if e1.Comp? && e1.rel == Unequal && e2.Comp? && e2.rel == Equal
              && IsConst(t, e1.rhs) && IsConst(t, e2.rhs) then
        Some(EqualAndUnequal(s, e2.rhs, e1.rhs))
      else if TestPair(e1, e2, Unequal, YES_SYM, NO_SYM) then Some(Comp(Equal, s, MOD_SYM))
      else if TestPair(e1, e2, Unequal, YES_SYM, MOD_SYM) then Some(Comp(Equal, s, NO_SYM))
      else if TestPair(e1, e2, Unequal, MOD_SYM, NO_SYM) then Some(Comp(Equal, s, YES_SYM))
      else None
  }

  /** expr_join_or and expr_join_and. */
  function Join(t: Symbols, op: Junction, e1: Expr, e2: Expr): Option<Expr> {
    if ExprEq(e1, e2) then Some(e1)
    else if op == Conj then MergeAnd(t, e1, e2)
    else MergeOr(t, e1, e2)
  }

  /** Testing a boolean or tristate symbol against y, m or n reads its value. */
  lemma TestConstant(w: World, s: Sym, c: Sym)
    requires Consistent(w)
    requires IsLogical(Typ(w.t, s))
    requires c == NO_SYM || c == MOD_SYM || c == YES_SYM
    ensures EvalComp(w, Equal, s, c) == OfBool(TriOf(w, s) == TriOf(w, c))
    ensures EvalComp(w, Unequal, s, c) == OfBool(TriOf(w, s) != TriOf(w, c))
  {
    LogicalEquality(w, s, c);
    assert IsConst(w.t, c);
    assert StringOf(w, c) == Name(w.t, c) == Spell(TriOf(w, c));
  }

  /** The value of a test of one symbol whose value is `x`, given how its
      comparisons come out. */
  function TestValue(x: Tri, cmp: (Rel, Sym) -> Tri, e: Expr): Tri {
    match e
    case Symbol(_) => x
    case Comp(rel, _, c) => cmp(rel, c)
    case Not(a) => TriNot(if a.Symbol? then x else if a.Comp? then cmp(a.rel, a.rhs) else NO)
    case Junct(_, _, _) => NO
  }

  ghost predicate ReadsConstants(x: Tri, cmp: (Rel, Sym) -> Tri) {
    forall c: Sym :: c == NO_SYM || c == MOD_SYM || c == YES_SYM ==>
      cmp(Equal, c) == OfBool(x == c) && cmp(Unequal, c) == OfBool(x != c)
  }

  lemma MergeOrTable(t: Symbols, x: Tri, cmp: (Rel, Sym) -> Tri, e1: Expr, e2: Expr)
    requires ReadsConstants(x, cmp)
    requires FirstSubject(e1).Some? && Typ(t, FirstSubject(e1).value) == Boolean ==> x != MOD
    requires MergeOr(t, e1, e2).Some?
    ensures var e := MergeOr(t, e1, e2).value;
      (if e == Symbol(YES_SYM) then YES else TestValue(x, cmp, e)) ==
      TriOr(TestValue(x, cmp, e1), TestValue(x, cmp, e2))
  {
  }

  /** Both operands compare with constants, one for and one against. */
  predicate ConstantPair(t: Symbols, e1: Expr, e2: Expr) {
    e1.Comp? && e2.Comp? && IsConst(t, e1.rhs) && IsConst(t, e2.rhs) &&
    ((e1.rel == Equal && e2.rel == Unequal) || (e1.rel == Unequal && e2.rel == Equal))
  }

  lemma MergeAndTable(t: Symbols, x: Tri, cmp: (Rel, Sym) -> Tri, e1: Expr, e2: Expr)
    requires ReadsConstants(x, cmp)
    requires MergeAnd(t, e1, e2).Some? && !ConstantPair(t, e1, e2)
    ensures TestValue(x, cmp, MergeAnd(t, e1, e2).value) ==
      TriAnd(TestValue(x, cmp, e1), TestValue(x, cmp, e2))
  {
  }

  /** The comparisons of one symbol, as a function of the other operand. */
  function Comparisons(w: World, s: Sym): (Rel, Sym) -> Tri {
    (rel, c) => EvalComp(w, rel, s, c)
  }

  lemma SubjectReadsConstants(w: World, s: Sym)
    requires Consistent(w)
    requires IsLogical(Typ(w.t, s))
    ensures ReadsConstants(TriOf(w, s), Comparisons(w, s))
    ensures Typ(w.t, s) == Boolean ==> TriOf(w, s) != MOD
    ensures s > YES_SYM
  {
    TestConstant(w, s, NO_SYM);
    TestConstant(w, s, MOD_SYM);
    TestConstant(w, s, YES_SYM);
  }

  lemma TestValueIsEval(w: World, s: Sym, e: Expr)
    requires FirstSubject(e) == Some(s) || SecondSubject(e) == Some(s)
    ensures Eval(w, e) == TestValue(TriOf(w, s), Comparisons(w, s), e)
  {
  }

  lemma MergeOrSound(w: World, e1: Expr, e2: Expr)
    requires Consistent(w)
    requires MergeOr(w.t, e1, e2).Some?
    ensures Eval(w, MergeOr(w.t, e1, e2).value) == TriOr(Eval(w, e1), Eval(w, e2))
  {
    var s := FirstSubject(e1).value;
    var e := MergeOr(w.t, e1, e2).value;
    SubjectReadsConstants(w, s);
    MergeOrTable(w.t, TriOf(w, s), Comparisons(w, s), e1, e2);
    TestValueIsEval(w, s, e1);
    TestValueIsEval(w, s, e2);
    if e != Symbol(YES_SYM) {
      TestValueIsEval(w, s, e);
    }
  }

  lemma EqualAndUnequalSound(w: World, s: Sym, b: Sym, c: Sym)
    requires Consistent(w)
    requires IsLogical(Typ(w.t, s)) && IsConst(w.t, b) && IsConst(w.t, c)
    ensures Eval(w, EqualAndUnequal(s, b, c)) == TriAnd(EvalComp(w, Equal, s, b), EvalComp(w, Unequal, s, c))
  {
    LogicalEquality(w, s, b);
    LogicalEquality(w, s, c);
  }

  lemma MergeAndConstantsShape(t: Symbols, e1: Expr, e2: Expr)
    requires WellFormed(t)
    requires MergeAnd(t, e1, e2).Some? && ConstantPair(t, e1, e2)
    ensures MergeAnd(t, e1, e2).value ==
      if e1.rel == Equal then EqualAndUnequal(e1.lhs, e1.rhs, e2.rhs) else EqualAndUnequal(e1.lhs, e2.rhs, e1.rhs)
    ensures e1.lhs == e2.lhs && IsLogical(Typ(t, e1.lhs))
  {
  }

  lemma MergeAndConstants(w: World, e1: Expr, e2: Expr)
    requires Consistent(w)
    requires MergeAnd(w.t, e1, e2).Some? && ConstantPair(w.t, e1, e2)
    ensures Eval(w, MergeAnd(w.t, e1, e2).value) == TriAnd(Eval(w, e1), Eval(w, e2))
  {
    MergeAndConstantsShape(w.t, e1, e2);
    if e1.rel == Equal {
      EqualAndUnequalSound(w, e1.lhs, e1.rhs, e2.rhs);
    } else {
      EqualAndUnequalSound(w, e1.lhs, e2.rhs, e1.rhs);
    }
  }

  /** Both operands and their merge test the same symbol. */
  lemma MergeAndSubjects(t: Symbols, e1: Expr, e2: Expr)
    requires MergeAnd(t, e1, e2).Some?
    ensures FirstSubject(e1).Some? && IsLogical(Typ(t, FirstSubject(e1).value))
    ensures SecondSubject(e2) == FirstSubject(e1)
    ensures !ConstantPair(t, e1, e2) ==> FirstSubject(MergeAnd(t, e1, e2).value) == FirstSubject(e1)
  {
  }

  lemma MergeAndSound(w: World, e1: Expr, e2: Expr)
    requires Consistent(w)
    requires MergeAnd(w.t, e1, e2).Some?
    ensures Eval(w, MergeAnd(w.t, e1, e2).value) == TriAnd(Eval(w, e1), Eval(w, e2))
  {
    hide *;
    var e := MergeAnd(w.t, e1, e2).value;
    MergeAndSubjects(w.t, e1, e2);
    if ConstantPair(w.t, e1, e2) {
      MergeAndConstants(w, e1, e2);
    } else {
      var s := FirstSubject(e1).value;
      SubjectReadsConstants(w, s);
      MergeAndTable(w.t, TriOf(w, s), Comparisons(w, s), e1, e2);
      TestValueIsEval(w, s, e1);
      TestValueIsEval(w, s, e2);
      TestValueIsEval(w, s, e);
    }
  }

  /** A join stands for both operands under every consistent valuation. */
  lemma JoinSound(w: World, op: Junction, e1: Expr, e2: Expr)
    requires Consistent(w)
    requires Join(w.t, op, e1, e2).Some?
    ensures Eval(w, Join(w.t, op, e1, e2).value) == Apply(op, Eval(w, e1), Eval(w, e2))
  {
    if ExprEq(e1, e2) {
      ExprEqSound(w, e1, e2);
    } else if op == Conj {
      MergeAndSound(w, e1, e2);
    } else {
      MergeOrSound(w, e1, e2);
    }
  }

  /** A join is a copy of the first operand or a single leaf. */
  lemma JoinSmall(t: Symbols, op: Junction, e1: Expr, e2: Expr)
    requires Join(t, op, e1, e2).Some?
    ensures var e := Join(t, op, e1, e2).value; e == e1 || e.Symbol? || e.Comp?
  {
  }
}
