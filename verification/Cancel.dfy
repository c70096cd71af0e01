/** Structural simplification: y/n elimination, the cancellation of common
    operands, and the equality test built on it (expr.c:141-330). */
module Cancellation {
  import opened Tristates
  import opened Exprs

  // ----- y/n elimination -----

  /** expr_eliminate_yn, after the operands have been simplified. */
  function DropConstants(op: Junction, l: Expr, r: Expr): Expr {
    if l == Symbol(AbsorbingSym(op)) then l
    else if l == Symbol(NeutralSym(op)) then r
    else if r == Symbol(AbsorbingSym(op)) then r
    else if r == Symbol(NeutralSym(op)) then l
    else Junct(op, l, r)
  }

  function EliminateYn(e: Expr): Expr {
    match e
    case Junct(op, l, r) => DropConstants(op, EliminateYn(l), EliminateYn(r))
    case _ => e
  }

  predicate IsYn(e: Expr) {
    e == Symbol(YES_SYM) || e == Symbol(NO_SYM)
  }

  /** No operand of a conjunction or disjunction is y or n. */
  predicate YnFree(e: Expr) {
    match e
    case Junct(_, l, r) => !IsYn(l) && !IsYn(r) && YnFree(l) && YnFree(r)
    case _ => true
  }

  /** Some conjunction has an operand y, or some disjunction an operand n. */
  predicate HasNeutral(e: Expr) {
    match e
    case Junct(op, l, r) => l == Neutral(op) || r == Neutral(op) || HasNeutral(l) || HasNeutral(r)
    case _ => false
  }

  lemma {:induction false} EliminateYnSound(w: World, e: Expr)
    requires ConstantsHold(w)
    ensures Eval(w, EliminateYn(e)) == Eval(w, e)
  {
    match e
    case Junct(op, l, r) =>
      EliminateYnSound(w, l);
      EliminateYnSound(w, r);
    case _ =>
  }

  /** The result is free of y and n operands, no larger, and smaller as soon
      as a neutral operand was there to drop. */
  lemma {:induction false} EliminateYnShrinks(e: Expr)
    ensures YnFree(EliminateYn(e))
    ensures Size(EliminateYn(e)) <= Size(e)
    ensures HasNeutral(e) ==> Size(EliminateYn(e)) < Size(e)
  {
    match e
    case Junct(op, l, r) =>
      EliminateYnShrinks(l);
      EliminateYnShrinks(r);
    case _ =>
  }

  lemma {:induction false} EliminateYnFixpoint(e: Expr)
    requires YnFree(e)
    ensures EliminateYn(e) == e
  {
    match e
    case Junct(op, l, r) =>
      EliminateYnFixpoint(l);
      EliminateYnFixpoint(r);
    case _ =>
  }

  // ----- cancellation -----

  /** Two expressions after cancellation. `common` collects what was removed
      from both sides, and `count` is the growth of trans_count. */
  datatype Pair = Pair(e1: Expr, e2: Expr, common: Expr, count: nat)

  /** __expr_eliminate_eq: strip from both sides the `op` operands they share. */
  function CancelOperands(op: Junction, e1: Expr, e2: Expr): (r: Pair)
    ensures Size(r.e1) <= Size(e1) && Size(r.e2) <= Size(e2)
    ensures r.count == 0 ==> r.e1 == e1 && r.e2 == e2
    ensures IsJunct(e1, op) ==> IsJunct(r.e1, op)
    decreases Size(e1) + Size(e2), if IsJunct(e1, op) || IsJunct(e2, op) then 0 else 3
  {
    if IsJunct(e1, op) then
      var a := CancelOperands(op, e1.left, e2);
      var b := CancelOperands(op, e1.right, a.e2);
      Pair(Junct(op, a.e1, b.e1), b.e2, Junct(op, a.common, b.common), a.count + b.count)
    else if IsJunct(e2, op) then
      var a := CancelOperands(op, e1, e2.left);
      var b := CancelOperands(op, a.e1, e2.right);
      Pair(b.e1, Junct(op, a.e2, b.e2), Junct(op, a.common, b.common), a.count + b.count)
    else if e1 == e2 && IsYn(e1) then Pair(e1, e2, Neutral(op), 0)
    else if !ExprEq(e1, e2) then Pair(e1, e2, Neutral(op), 0)
    else Pair(Neutral(op), Neutral(op), e1, 1)
  }

  /** expr_eliminate_eq before its final y/n elimination: at most two passes,
      the second for the other junction. */
  function CancelBoth(e1: Expr, e2: Expr): (r: (Pair, Pair))
    ensures Size(r.1.e1) <= Size(e1) && Size(r.1.e2) <= Size(e2)
    decreases Size(e1) + Size(e2), 1
  {
    var p := if e1.Junct? then CancelOperands(e1.op, e1, e2) else Pair(e1, e2, e1, 0);
    var q := if p.e2.Junct? && !IsJunct(p.e1, p.e2.op) then CancelOperands(p.e2.op, p.e1, p.e2)
             else Pair(p.e1, p.e2, p.e1, 0);
    (p, q)
  }

  /** expr_eq, which cancels copies and asks whether one symbol is left. */
  predicate ExprEq(e1: Expr, e2: Expr)
    decreases Size(e1) + Size(e2), 2
  {
    match e1
    case Symbol(_) => e1 == e2
    case Comp(_, _, _) => e1 == e2
    case Not(a) => e2.Not? && ExprEq(a, e2.arg)
    case Junct(op, _, _) =>
      IsJunct(e2, op) &&
      var r := CancelBoth(e1, e2).1;
      var x1, x2 := EliminateYn(r.e1), EliminateYn(r.e2);
      x1.Symbol? && x1 == x2
  }

  /** expr_eliminate_eq. */
  function EliminateEq(e1: Expr, e2: Expr): (Expr, Expr) {
    var r := CancelBoth(e1, e2).1;
    (EliminateYn(r.e1), EliminateYn(r.e2))
  }

  /** Two rounds of removal from one side: the removed parts join. */
  lemma Rejoin(op: Junction, c: Tri, d: Tri, x: Tri, y: Tri, z: Tri)
    ensures Apply(op, Apply(op, c, x), Apply(op, d, y)) == Apply(op, Apply(op, c, d), Apply(op, x, y))
    ensures Apply(op, c, Apply(op, d, z)) == Apply(op, Apply(op, c, d), z)
  {
    ApplyExchange(op, c, x, d, y);
    ApplyAssociative(op, c, d, z);
  }

  lemma NeutralJoins(w: World, op: Junction, x: Tri)
    requires ConstantsHold(w)
    ensures Apply(op, Eval(w, Neutral(op)), x) == x && Apply(op, x, Eval(w, Neutral(op))) == x
  {
  }

  /** Joining back what was removed restores both sides, under every valuation. */
  lemma {:induction false} CancelOperandsSound(w: World, op: Junction, e1: Expr, e2: Expr)
    requires ConstantsHold(w)
    ensures var r := CancelOperands(op, e1, e2);
      && Eval(w, e1) == Apply(op, Eval(w, r.common), Eval(w, r.e1))
      && Eval(w, e2) == Apply(op, Eval(w, r.common), Eval(w, r.e2))
    decreases Size(e1) + Size(e2), if IsJunct(e1, op) || IsJunct(e2, op) then 0 else 3
  {
    hide ExprEq, CancelBoth, EliminateYn, EvalComp, Apply;
    NeutralJoins(w, op, Eval(w, e1));
    NeutralJoins(w, op, Eval(w, e2));
    if IsJunct(e1, op) {
      var a := CancelOperands(op, e1.left, e2);
      var b := CancelOperands(op, e1.right, a.e2);
      CancelOperandsSound(w, op, e1.left, e2);
      CancelOperandsSound(w, op, e1.right, a.e2);
      Rejoin(op, Eval(w, a.common), Eval(w, b.common), Eval(w, a.e1), Eval(w, b.e1), Eval(w, b.e2));
    } else if IsJunct(e2, op) {
      var a := CancelOperands(op, e1, e2.left);
      var b := CancelOperands(op, a.e1, e2.right);
      CancelOperandsSound(w, op, e1, e2.left);
      CancelOperandsSound(w, op, a.e1, e2.right);
      Rejoin(op, Eval(w, a.common), Eval(w, b.common), Eval(w, a.e2), Eval(w, b.e2), Eval(w, b.e1));
    } else if ExprEq(e1, e2) {
      ExprEqSound(w, e1, e2);
    }
  }

  /** expr_eq = 1 means equal values everywhere. */
  lemma {:induction false} ExprEqSound(w: World, e1: Expr, e2: Expr)
    requires ConstantsHold(w)
    requires ExprEq(e1, e2)
    ensures Eval(w, e1) == Eval(w, e2)
    decreases Size(e1) + Size(e2), 2
  {
    match e1
    case Not(a) => ExprEqSound(w, a, e2.arg);
    case Junct(op, _, _) =>
      var r := CancelBoth(e1, e2);
      CancelBothSound(w, e1, e2);
      EliminateYnSound(w, r.1.e1);
      EliminateYnSound(w, r.1.e2);
    case _ =>
  }

  /** How one side is rebuilt from what two passes left of it and removed from it. */
  function Restore(w: World, e1: Expr, e2: Expr, r: (Pair, Pair), rest: Expr): Tri {
    var inner := if r.0.e2.Junct? && !IsJunct(r.0.e1, r.0.e2.op)
                 then Apply(r.0.e2.op, Eval(w, r.1.common), Eval(w, rest)) else Eval(w, rest);
    if e1.Junct? then Apply(e1.op, Eval(w, r.0.common), inner) else inner
  }

  lemma {:induction false} CancelBothSound(w: World, e1: Expr, e2: Expr)
    requires ConstantsHold(w)
    ensures var r := CancelBoth(e1, e2);
      && Eval(w, e1) == Restore(w, e1, e2, r, r.1.e1)
      && Eval(w, e2) == Restore(w, e1, e2, r, r.1.e2)
    decreases Size(e1) + Size(e2), 1
  {
    if e1.Junct? {
      CancelOperandsSound(w, e1.op, e1, e2);
    }
    var p := CancelBoth(e1, e2).0;
    if p.e2.Junct? && !IsJunct(p.e1, p.e2.op) {
      CancelOperandsSound(w, p.e2.op, p.e1, p.e2);
    }
  }

  /** expr_eliminate_eq leaves both sides equal to their originals once the
      common part it removed is joined back. */
  lemma EliminateEqSound(w: World, e1: Expr, e2: Expr)
    requires ConstantsHold(w)
    ensures var r := CancelBoth(e1, e2);
      && Eval(w, e1) == Restore(w, e1, e2, r, EliminateEq(e1, e2).0)
      && Eval(w, e2) == Restore(w, e1, e2, r, EliminateEq(e1, e2).1)
  {
    var r := CancelBoth(e1, e2).1;
    CancelBothSound(w, e1, e2);
    EliminateYnSound(w, r.e1);
    EliminateYnSound(w, r.e2);
  }

  /** The implication test: when nothing but y is left of the second side, the
      first is at most the second, under every valuation. */
  lemma EliminateEqImplies(w: World, e1: Expr, e2: Expr)
    requires ConstantsHold(w)
    requires EliminateEq(e1, e2).1 == Symbol(YES_SYM)
    ensures Eval(w, e1) <= Eval(w, e2)
  {
    EliminateEqSound(w, e1, e2);
    RestoreMonotone(w, e1, e2, CancelBoth(e1, e2), EliminateEq(e1, e2).0, EliminateEq(e1, e2).1);
  }

  lemma RestoreMonotone(w: World, e1: Expr, e2: Expr, r: (Pair, Pair), x: Expr, y: Expr)
    requires Eval(w, x) <= Eval(w, y)
    ensures Restore(w, e1, e2, r, x) <= Restore(w, e1, e2, r, y)
  {
  }

  /** What is left is in y/n-free form and no larger than the originals. */
  lemma EliminateEqShrinks(e1: Expr, e2: Expr)
    ensures YnFree(EliminateEq(e1, e2).0) && Size(EliminateEq(e1, e2).0) <= Size(e1)
    ensures YnFree(EliminateEq(e1, e2).1) && Size(EliminateEq(e1, e2).1) <= Size(e2)
  {
    EliminateYnShrinks(CancelBoth(e1, e2).1.e1);
    EliminateYnShrinks(CancelBoth(e1, e2).1.e2);
  }
}
