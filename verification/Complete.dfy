/** What simplification must find: equal conditions compare equal, cancellation leaves
    nothing both sides share, and after duplicate elimination no operand is there twice
    and no pair of tests that joins is left (expr.c:156-330, 361-592). */
module Completeness {
  import opened Tristates
  import opened Exprs
  import opened Cancellation
  import opened Joins
  import opened Spines

  // ----- a condition compared with itself -----

  /** What cancelling a condition against itself leaves: its y and n operands, and
      neutral ones for the others. */
  function Emptied(op: Junction, e: Expr): Expr {
    if IsJunct(e, op) then Junct(op, Emptied(op, e.left), Emptied(op, e.right))
    else if IsYn(e) then e
    else Neutral(op)
  }

  ghost predicate OnlyYn(op: Junction, e: Expr) {
    if IsJunct(e, op) then OnlyYn(op, e.left) && OnlyYn(op, e.right) else IsYn(e)
  }

  lemma {:induction false} EmptiedOnlyYn(op: Junction, e: Expr)
    ensures OnlyYn(op, Emptied(op, e))
  {
    if IsJunct(e, op) {
      EmptiedOnlyYn(op, e.left);
      EmptiedOnlyYn(op, e.right);
    }
  }

  lemma {:induction false} OnlyYnIsYn(op: Junction, e: Expr)
    requires OnlyYn(op, e)
    ensures IsYn(EliminateYn(e))
  {
    if IsJunct(e, op) {
      OnlyYnIsYn(op, e.left);
      OnlyYnIsYn(op, e.right);
    }
  }

  /** Neither side loses anything to y and n operands. */
  lemma {:induction false} NothingCancels(op: Junction, e1: Expr, e2: Expr)
    requires OnlyYn(op, e1) || OnlyYn(op, e2)
    ensures CancelOperands(op, e1, e2).e1 == e1 && CancelOperands(op, e1, e2).e2 == e2
    decreases Size(e1) + Size(e2)
  {
    hide CancelBoth, EliminateYn;
    if IsJunct(e1, op) {
      NothingCancels(op, e1.left, e2);
      NothingCancels(op, e1.right, e2);
    } else if IsJunct(e2, op) {
      NothingCancels(op, e1, e2.left);
      NothingCancels(op, e1, e2.right);
    } else if ExprEq(e1, e2) {
      EqualYn(e1, e2);
    }
  }

  lemma EqualYn(e1: Expr, e2: Expr)
    requires ExprEq(e1, e2) && (IsYn(e1) || IsYn(e2))
    ensures e1 == e2
  {
    hide CancelBoth, EliminateYn;
  }

  /** One side's operands meet the left part of a junction first and then the right. */
  lemma {:induction false} CancelsInTurn(op: Junction, e: Expr, l: Expr, r: Expr)
    ensures var a := CancelOperands(op, e, l);
      var b := CancelOperands(op, a.e1, r);
      var c := CancelOperands(op, e, Junct(op, l, r));
      c.e1 == b.e1 && c.e2 == Junct(op, a.e2, b.e2)
    decreases Size(e)
  {
    hide CancelBoth, EliminateYn, ExprEq;
    if IsJunct(e, op) {
      CancelsInTurn(op, e.left, l, r);
      var a := CancelOperands(op, e.left, l);
      var b := CancelOperands(op, a.e1, r);
      CancelsInTurn(op, e.right, a.e2, b.e2);
    }
  }

  lemma {:induction false} CancelsItself(op: Junction, e: Expr)
    ensures CancelOperands(op, e, e).e1 == Emptied(op, e) && CancelOperands(op, e, e).e2 == Emptied(op, e)
    decreases Size(e), if IsJunct(e, op) then 0 else 3
  {
    hide CancelBoth, EliminateYn, ExprEq;
    if IsJunct(e, op) {
      var l, r := e.left, e.right;
      CancelsItself(op, l);
      CancelsItself(op, r);
      EmptiedOnlyYn(op, l);
      CancelsInTurn(op, l, l, r);
      NothingCancels(op, Emptied(op, l), r);
      CancelsInTurn(op, r, Emptied(op, l), r);
      NothingCancels(op, r, Emptied(op, l));
      CancelsApart(op, l, r, e);
    } else if !IsYn(e) {
      EqualItself(e);
    }
  }

  lemma CancelsApart(op: Junction, l: Expr, r: Expr, e: Expr)
    requires e == Junct(op, l, r)
    ensures var a := CancelOperands(op, l, e);
      var b := CancelOperands(op, r, a.e2);
      CancelOperands(op, e, e).e1 == Junct(op, a.e1, b.e1) && CancelOperands(op, e, e).e2 == b.e2
  {
    hide CancelBoth, EliminateYn, ExprEq;
  }

  /** Every condition compares equal to itself. */
  lemma {:induction false} EqualItself(e: Expr)
    ensures ExprEq(e, e)
    decreases Size(e), 2
  {
    match e
    case Not(a) => EqualItself(a);
    case Junct(op, _, _) =>
      CancelsItself(op, e);
      EmptiedOnlyYn(op, e);
      OnlyYnIsYn(op, Emptied(op, e));
      BothEmptied(op, e);
    case _ =>
  }

  lemma BothEmptied(op: Junction, e: Expr)
    requires IsJunct(e, op)
    requires CancelOperands(op, e, e).e1 == Emptied(op, e) && CancelOperands(op, e, e).e2 == Emptied(op, e)
    ensures CancelBoth(e, e).1.e1 == Emptied(op, e) && CancelBoth(e, e).1.e2 == Emptied(op, e)
  {
    hide CancelOperands, EliminateYn, ExprEq;
  }

  /** A condition cancelled against itself leaves a constant on both sides, the same. */
  lemma NothingLeftOfEqual(e: Expr)
    requires e.Junct?
    ensures var r := EliminateEq(e, e); IsYn(r.0) && r.1 == r.0
  {
    CancelsItself(e.op, e);
    EmptiedOnlyYn(e.op, e);
    OnlyYnIsYn(e.op, Emptied(e.op, e));
    BothEmptied(e.op, e);
  }

  // ----- cancellation misses nothing -----

  /** x is an operand of e. */
  predicate Has(op: Junction, e: Expr, x: Expr) {
    if IsJunct(e, op) then Has(op, e.left, x) || Has(op, e.right, x) else x == e
  }

  lemma {:induction false} HasIsOperand(op: Junction, e: Expr, x: Expr)
    ensures Has(op, e, x) <==> x in Operands(op, e)
  {
    if IsJunct(e, op) {
      HasIsOperand(op, e.left, x);
      HasIsOperand(op, e.right, x);
    }
  }

  lemma CancelsLeft(op: Junction, e1: Expr, e2: Expr)
    requires IsJunct(e1, op)
    ensures var a := CancelOperands(op, e1.left, e2);
      var b := CancelOperands(op, e1.right, a.e2);
      CancelOperands(op, e1, e2).e1 == Junct(op, a.e1, b.e1) && CancelOperands(op, e1, e2).e2 == b.e2
  {
    hide CancelBoth, EliminateYn, ExprEq;
  }

  lemma CancelsRight(op: Junction, e1: Expr, e2: Expr)
    requires !IsJunct(e1, op) && IsJunct(e2, op)
    ensures var a := CancelOperands(op, e1, e2.left);
      var b := CancelOperands(op, a.e1, e2.right);
      CancelOperands(op, e1, e2).e1 == b.e1 && CancelOperands(op, e1, e2).e2 == Junct(op, a.e2, b.e2)
  {
    hide CancelBoth, EliminateYn, ExprEq;
  }

  /** Two single operands: both become neutral if they are equal and not y or n. */
  lemma CancelsLeaf(op: Junction, e1: Expr, e2: Expr)
    requires !IsJunct(e1, op) && !IsJunct(e2, op)
    ensures var r := CancelOperands(op, e1, e2);
      if ExprEq(e1, e2) && !IsYn(e1) then r.e1 == Neutral(op) && r.e2 == Neutral(op) else r.e1 == e1 && r.e2 == e2
  {
    hide CancelBoth, EliminateYn;
  }

  lemma JunctParts(op: Junction, e: Expr, x: Expr)
    requires IsJunct(e, op)
    ensures e.Junct? && e == Junct(op, e.left, e.right)
    ensures Has(op, e, x) <==> Has(op, e.left, x) || Has(op, e.right, x)
    ensures Size(e.left) < Size(e) && Size(e.right) < Size(e)
  {
  }

  lemma LeafParts(op: Junction, e: Expr, x: Expr)
    requires !IsJunct(e, op)
    ensures Has(op, e, x) <==> x == e
  {
  }

  /** Cancellation keeps an operand or makes it neutral. */
  lemma {:induction false} KeptOrNeutral(op: Junction, e1: Expr, e2: Expr, x: Expr)
    ensures var r := CancelOperands(op, e1, e2);
      && (Has(op, r.e1, x) ==> Has(op, e1, x) || x == Neutral(op))
      && (Has(op, r.e2, x) ==> Has(op, e2, x) || x == Neutral(op))
    decreases Size(e1) + Size(e2)
  {
    hide *;
    var r := CancelOperands(op, e1, e2);
    NeutralIsLeaf(op);
    if IsJunct(e1, op) {
      JunctParts(op, e1, x);
      CancelsLeft(op, e1, e2);
      KeptOrNeutral(op, e1.left, e2, x);
      KeptOrNeutral(op, e1.right, CancelOperands(op, e1.left, e2).e2, x);
      JunctParts(op, r.e1, x);
    } else if IsJunct(e2, op) {
      JunctParts(op, e2, x);
      CancelsRight(op, e1, e2);
      KeptOrNeutral(op, e1, e2.left, x);
      KeptOrNeutral(op, CancelOperands(op, e1, e2.left).e1, e2.right, x);
      JunctParts(op, r.e2, x);
    } else {
      CancelsLeaf(op, e1, e2);
      LeafParts(op, Neutral(op), x);
    }
  }

  lemma NeutralIsLeaf(op: Junction)
    ensures !IsJunct(Neutral(op), op) && IsYn(Neutral(op))
  {
  }

  /** Afterwards no operand of one side equals an operand of the other, y and n apart. */
  lemma {:induction false} NothingShared(op: Junction, e1: Expr, e2: Expr, x: Expr, y: Expr)
    ensures var r := CancelOperands(op, e1, e2);
      Has(op, r.e1, x) && Has(op, r.e2, y) && ExprEq(x, y) ==> IsYn(x)
    decreases Size(e1) + Size(e2), 1
  {
    hide *;
    var r := CancelOperands(op, e1, e2);
    if IsJunct(e1, op) {
      JunctParts(op, e1, x);
      CancelsLeft(op, e1, e2);
      var a := CancelOperands(op, e1.left, e2);
      NothingShared(op, e1.left, e2, x, y);
      NothingShared(op, e1.right, a.e2, x, y);
      KeptOrNeutral(op, e1.right, a.e2, y);
      NeutralNotShared(op, x);
      JunctParts(op, r.e1, x);
    } else if IsJunct(e2, op) {
      NothingSharedRight(op, e1, e2, x, y);
    } else {
      CancelsLeaf(op, e1, e2);
      NeutralIsLeaf(op);
      LeafParts(op, r.e1, x);
      LeafParts(op, r.e2, y);
    }
  }

  lemma {:induction false} NothingSharedRight(op: Junction, e1: Expr, e2: Expr, x: Expr, y: Expr)
    requires !IsJunct(e1, op) && IsJunct(e2, op)
    ensures var r := CancelOperands(op, e1, e2);
      Has(op, r.e1, x) && Has(op, r.e2, y) && ExprEq(x, y) ==> IsYn(x)
    decreases Size(e1) + Size(e2), 0
  {
    hide *;
    JunctParts(op, e2, y);
    CancelsRight(op, e1, e2);
    var a := CancelOperands(op, e1, e2.left);
    NothingShared(op, e1, e2.left, x, y);
    NothingShared(op, a.e1, e2.right, x, y);
    KeptOrNeutral(op, a.e1, e2.right, x);
    NeutralIsLeaf(op);
    JunctParts(op, CancelOperands(op, e1, e2).e2, y);
  }

  lemma NeutralNotShared(op: Junction, x: Expr)
    ensures ExprEq(x, Neutral(op)) ==> IsYn(x)
  {
  }

  /** An operand that decides everything is never cancelled. */
  lemma {:induction false} AbsorbingKept(op: Junction, e1: Expr, e2: Expr)
    ensures var r, x := CancelOperands(op, e1, e2), Symbol(AbsorbingSym(op));
      (Has(op, e1, x) <==> Has(op, r.e1, x)) && (Has(op, e2, x) <==> Has(op, r.e2, x))
    decreases Size(e1) + Size(e2)
  {
    hide CancelOperands, CancelBoth, ExprEq, EliminateYn, Has, Size, Operands;
    var r, x := CancelOperands(op, e1, e2), Symbol(AbsorbingSym(op));
    if IsJunct(e1, op) {
      JunctParts(op, e1, x);
      CancelsLeft(op, e1, e2);
      AbsorbingKept(op, e1.left, e2);
      AbsorbingKept(op, e1.right, CancelOperands(op, e1.left, e2).e2);
      JunctParts(op, r.e1, x);
    } else if IsJunct(e2, op) {
      JunctParts(op, e2, x);
      CancelsRight(op, e1, e2);
      AbsorbingKept(op, e1, e2.left);
      AbsorbingKept(op, CancelOperands(op, e1, e2.left).e1, e2.right);
      JunctParts(op, r.e2, x);
    } else {
      CancelsLeaf(op, e1, e2);
      EqualYnOpt(e1, e2);
      LeafParts(op, e1, x);
      LeafParts(op, e2, x);
      LeafParts(op, Neutral(op), x);
    }
  }

  /** The same for the row of operands: n in a conjunction and y in a disjunction stay. */
  lemma AbsorbingStays(op: Junction, e1: Expr, e2: Expr)
    ensures var r, x := CancelOperands(op, e1, e2), Symbol(if op == Conj then NO_SYM else YES_SYM);
      && (x in Operands(op, e1) <==> x in Operands(op, r.e1))
      && (x in Operands(op, e2) <==> x in Operands(op, r.e2))
  {
    hide CancelOperands, Has;
    var r, x := CancelOperands(op, e1, e2), Symbol(AbsorbingSym(op));
    AbsorbingKept(op, e1, e2);
    HasIsOperand(op, e1, x);
    HasIsOperand(op, e2, x);
    HasIsOperand(op, r.e1, x);
    HasIsOperand(op, r.e2, x);
  }

  /** A single operand is kept, with everything opposite it, or becomes neutral. */
  lemma {:induction false} SingleLeft(op: Junction, e1: Expr, e2: Expr)
    requires !IsJunct(e1, op)
    ensures var r := CancelOperands(op, e1, e2);
      (r.e1 == e1 && r.e2 == e2) ||
      (r.e1 == Neutral(op) && exists y :: Has(op, e2, y) && ExprEq(e1, y) && !IsYn(y))
    decreases Size(e2)
  {
    hide *;
    NeutralIsLeaf(op);
    if IsJunct(e2, op) {
      JunctParts(op, e2, e2);
      CancelsRight(op, e1, e2);
      SingleLeft(op, e1, e2.left);
      SingleLeft(op, CancelOperands(op, e1, e2.left).e1, e2.right);
      HasEither(op, e2);
      NeutralCancelsNone(op, e2.right);
    } else {
      CancelsLeaf(op, e1, e2);
      LeafParts(op, e2, e2);
      EqualYnOpt(e1, e2);
    }
  }

  lemma HasEither(op: Junction, e: Expr)
    requires IsJunct(e, op)
    ensures e.Junct? && forall x :: Has(op, e.left, x) || Has(op, e.right, x) ==> Has(op, e, x)
  {
  }

  lemma NeutralCancelsNone(op: Junction, e2: Expr)
    ensures CancelOperands(op, Neutral(op), e2).e1 == Neutral(op) && CancelOperands(op, Neutral(op), e2).e2 == e2
  {
    hide CancelOperands;
    NothingCancels(op, Neutral(op), e2);
  }

  lemma EqualYnOpt(e1: Expr, e2: Expr)
    ensures ExprEq(e1, e2) ==> (IsYn(e1) <==> IsYn(e2))
  {
    if ExprEq(e1, e2) && (IsYn(e1) || IsYn(e2)) {
      EqualYn(e1, e2);
    }
  }

  lemma {:induction false} SingleRight(op: Junction, e1: Expr, e2: Expr)
    requires !IsJunct(e2, op)
    ensures var r := CancelOperands(op, e1, e2);
      (r.e1 == e1 && r.e2 == e2) || r.e2 == Neutral(op)
    decreases Size(e1)
  {
    hide *;
    NeutralIsLeaf(op);
    if IsJunct(e1, op) {
      JunctParts(op, e1, e1);
      CancelsLeft(op, e1, e2);
      SingleRight(op, e1.left, e2);
      SingleRight(op, e1.right, CancelOperands(op, e1.left, e2).e2);
    } else {
      CancelsLeaf(op, e1, e2);
    }
  }

  /** expr_eliminate_eq before its final y/n elimination: where one of the conditions is a
      conjunction or disjunction, the two no longer share an operand of that kind. */
  lemma NothingSharedByBoth(e1: Expr, e2: Expr, op: Junction, x: Expr)
    requires IsJunct(e1, op) || IsJunct(e2, op)
    ensures var r := CancelBoth(e1, e2).1;
      x in Operands(op, r.e1) && x in Operands(op, r.e2) ==> IsYn(x)
  {
    hide *;
    var p, q := CancelBoth(e1, e2).0, CancelBoth(e1, e2).1;
    EqualItself(x);
    HasIsOperand(op, q.e1, x);
    HasIsOperand(op, q.e2, x);
    NeutralIsLeaf(Conj);
    NeutralIsLeaf(Disj);
    if IsJunct(e1, op) {
      FirstPass(e1, e2, op);
      NothingShared(op, e1, e2, x, x);
      SecondPassKeeps(e1, e2, op, x);
    } else {
      OnlySecondPass(e1, e2, op, x);
    }
  }

  lemma FirstPass(e1: Expr, e2: Expr, op: Junction)
    requires IsJunct(e1, op)
    ensures var p := CancelBoth(e1, e2).0; p == CancelOperands(op, e1, e2) && IsJunct(p.e1, op)
  {
    hide CancelOperands;
  }

  /** The pass for the other kind takes the first condition as a single operand. */
  lemma SecondPassKeeps(e1: Expr, e2: Expr, op: Junction, x: Expr)
    requires IsJunct(e1, op)
    ensures var p, q := CancelBoth(e1, e2).0, CancelBoth(e1, e2).1;
      (q.e1 == p.e1 && q.e2 == p.e2) || (Has(op, q.e1, x) ==> IsYn(x))
  {
    hide CancelOperands, ExprEq, EliminateYn, Has;
    var p := CancelBoth(e1, e2).0;
    FirstPass(e1, e2, op);
    if p.e2.Junct? && p.e2.op != op {
      SingleLeft(p.e2.op, p.e1, p.e2);
      LeafParts(op, Neutral(p.e2.op), x);
    }
  }

  /** The pass for the second condition's kind, where the first is of another. */
  lemma OnlySecondPass(e1: Expr, e2: Expr, op: Junction, x: Expr)
    requires !IsJunct(e1, op) && IsJunct(e2, op)
    ensures var q := CancelBoth(e1, e2).1; Has(op, q.e1, x) && Has(op, q.e2, x) ==> IsYn(x)
  {
    hide CancelOperands, ExprEq, EliminateYn, Has;
    var p := CancelBoth(e1, e2).0;
    EqualItself(x);
    if e1.Junct? {
      FirstPass(e1, e2, e1.op);
      SingleRight(e1.op, e1, e2);
    }
    if p.e2 == e2 {
      NothingShared(op, p.e1, e2, x, x);
    } else {
      LeafParts(op, p.e2, x);
    }
  }

  // ----- a condition whose operands all occur in another -----

  /** No two operands are equal, y and n apart. */
  ghost predicate NoneTwice(op: Junction, e: Expr) {
    IsJunct(e, op) ==>
      && NoneTwice(op, e.left) && NoneTwice(op, e.right)
      && forall x, y :: Has(op, e.left, x) && Has(op, e.right, y) && !IsYn(x) && !IsYn(y) ==>
           !ExprEq(x, y) && !ExprEq(y, x)
  }

  lemma {:induction false} NoneTwiceKept(op: Junction, e1: Expr, e2: Expr)
    requires NoneTwice(op, e2)
    ensures NoneTwice(op, CancelOperands(op, e1, e2).e2)
    decreases Size(e1) + Size(e2)
  {
    hide CancelOperands, ExprEq, EliminateYn, CancelBoth, Has, Operands, Size;
    NeutralIsLeaf(op);
    if IsJunct(e1, op) {
      JunctParts(op, e1, e1);
      CancelsLeft(op, e1, e2);
      NoneTwiceKept(op, e1.left, e2);
      NoneTwiceKept(op, e1.right, CancelOperands(op, e1.left, e2).e2);
    } else if IsJunct(e2, op) {
      JunctParts(op, e2, e2);
      CancelsRight(op, e1, e2);
      var a := CancelOperands(op, e1, e2.left);
      var b := CancelOperands(op, a.e1, e2.right);
      NoneTwiceKept(op, e1, e2.left);
      NoneTwiceKept(op, a.e1, e2.right);
      forall x, y | Has(op, a.e2, x) && Has(op, b.e2, y) && !IsYn(x) && !IsYn(y)
        ensures !ExprEq(x, y) && !ExprEq(y, x)
      {
        KeptOrNeutral(op, e1, e2.left, x);
        KeptOrNeutral(op, a.e1, e2.right, y);
      }
    } else {
      CancelsLeaf(op, e1, e2);
    }
  }

  /** An operand is gone from the second condition once the first has met it. */
  lemma {:induction false} OperandGone(op: Junction, x: Expr, e2: Expr)
    requires NoneTwice(op, e2) && !IsJunct(x, op) && !IsYn(x)
    ensures !Has(op, CancelOperands(op, x, e2).e2, x)
    decreases Size(e2)
  {
    hide CancelOperands, ExprEq, EliminateYn, CancelBoth, Has, Operands, Size;
    NeutralIsLeaf(op);
    var r := CancelOperands(op, x, e2);
    if IsJunct(e2, op) {
      JunctParts(op, e2, x);
      CancelsRight(op, x, e2);
      OperandGone(op, x, e2.left);
      SingleLeft(op, x, e2.left);
      if CancelOperands(op, x, e2.left).e1 == x {
        OperandGone(op, x, e2.right);
      } else {
        NeutralCancelsNone(op, e2.right);
      }
      JunctParts(op, r.e2, x);
    } else {
      EqualItself(x);
      CancelsLeaf(op, x, e2);
      LeafParts(op, r.e2, x);
    }
  }

  lemma {:induction false} OperandsGone(op: Junction, e1: Expr, e2: Expr, x: Expr)
    requires NoneTwice(op, e2) && Has(op, e1, x) && !IsYn(x)
    ensures !Has(op, CancelOperands(op, e1, e2).e2, x)
    decreases e1
  {
    hide CancelOperands, ExprEq, EliminateYn, CancelBoth, NoneTwice, Operands, Size;
    NeutralIsLeaf(op);
    if IsJunct(e1, op) {
      CancelsLeft(op, e1, e2);
      var a := CancelOperands(op, e1.left, e2);
      if Has(op, e1.left, x) {
        OperandsGone(op, e1.left, e2, x);
        KeptOrNeutral(op, e1.right, a.e2, x);
      } else {
        NoneTwiceKept(op, e1.left, e2);
        OperandsGone(op, e1.right, a.e2, x);
      }
    } else {
      OperandGone(op, x, e2);
    }
  }

  /** No operand of e compares equal to another one. */
  ghost predicate PairwiseUnequal(op: Junction, e: Expr) {
    var s := Operands(op, e);
    forall a, b :: 0 <= a < |s| && 0 <= b < |s| && a != b ==> !ExprEq(s[a], s[b])
  }

  lemma UnequalParts(op: Junction, e: Expr)
    requires IsJunct(e, op) && PairwiseUnequal(op, e)
    ensures e.Junct? && e.left < e && e.right < e
    ensures PairwiseUnequal(op, e.left) && PairwiseUnequal(op, e.right)
    ensures forall x, y :: x in Operands(op, e.left) && y in Operands(op, e.right) ==> !ExprEq(x, y) && !ExprEq(y, x)
  {
    hide ExprEq, Width, SpineOf;
    var l, r := Operands(op, e.left), Operands(op, e.right);
    assert Operands(op, e) == l + r;
    assert forall a :: 0 <= a < |l| ==> (l + r)[a] == l[a];
    assert forall b :: 0 <= b < |r| ==> (l + r)[|l| + b] == r[b];
  }

  lemma {:induction false} UnequalNoneTwice(op: Junction, e: Expr)
    requires PairwiseUnequal(op, e)
    ensures NoneTwice(op, e)
    decreases e
  {
    hide ExprEq, Has, PairwiseUnequal, Operands;
    if IsJunct(e, op) {
      UnequalParts(op, e);
      UnequalNoneTwice(op, e.left);
      UnequalNoneTwice(op, e.right);
      forall x, y | Has(op, e.left, x) && Has(op, e.right, y)
        ensures !ExprEq(x, y) && !ExprEq(y, x)
      {
        HasIsOperand(op, e.left, x);
        HasIsOperand(op, e.right, y);
      }
    }
  }

  lemma {:induction false} OnlyYes(e: Expr)
    requires forall x :: Has(Conj, e, x) ==> x == Symbol(YES_SYM)
    ensures EliminateYn(e) == Symbol(YES_SYM)
  {
    if IsJunct(e, Conj) {
      assert forall x :: Has(Conj, e.left, x) ==> Has(Conj, e, x);
      assert forall x :: Has(Conj, e.right, x) ==> Has(Conj, e, x);
      OnlyYes(e.left);
      OnlyYes(e.right);
    } else {
      assert Has(Conj, e, e);
    }
  }

  /** Every operand of e2, none of them n, occurs in the conjunction e1. */
  ghost predicate Covers(e1: Expr, e2: Expr) {
    && IsJunct(e1, Conj)
    && forall x :: x in Operands(Conj, e2) ==> x in Operands(Conj, e1) && x != Symbol(NO_SYM)
  }

  /** Nothing but y is left of a condition all of whose operands occur in the other. */
  lemma CoveredLeavesYes(e1: Expr, e2: Expr)
    requires Covers(e1, e2) && PairwiseUnequal(Conj, e2)
    ensures EliminateEq(e1, e2).1 == Symbol(YES_SYM)
  {
    hide CancelOperands, ExprEq, CancelBoth, Has, Operands, PairwiseUnequal, EliminateYn;
    UnequalNoneTwice(Conj, e2);
    var p, q := CancelBoth(e1, e2).0, CancelBoth(e1, e2).1;
    FirstPass(e1, e2, Conj);
    forall x | Has(Conj, p.e2, x)
      ensures x == Symbol(YES_SYM)
    {
      KeptOrNeutral(Conj, e1, e2, x);
      if x != Neutral(Conj) {
        HasIsOperand(Conj, e2, x);
        HasIsOperand(Conj, e1, x);
        if !IsYn(x) {
          OperandsGone(Conj, e1, e2, x);
        }
      }
    }
    OnlyYes(p.e2);
    CoveredOnePass(e1, e2);
  }

  lemma CoveredOnePass(e1: Expr, e2: Expr)
    requires IsJunct(e1, Conj)
    requires forall x :: Has(Conj, CancelBoth(e1, e2).0.e2, x) ==> x == Symbol(YES_SYM)
    ensures CancelBoth(e1, e2).1.e2 == CancelBoth(e1, e2).0.e2
  {
    hide CancelOperands, ExprEq, Has, EliminateYn;
    var p := CancelBoth(e1, e2).0;
    FirstPass(e1, e2, Conj);
    if p.e2.Junct? && p.e2.op != Conj {
      LeafParts(Conj, p.e2, p.e2);
      assert false;
    }
  }

  // ----- duplicate elimination -----

  /** No two tests of a disjunction can be put as one: two values of a tristate symbol, or a
      boolean symbol and its negation. */
  ghost predicate OrReduced(t: Symbols, row: seq<Expr>) {
    && (forall s: Sym, c: Sym, d: Sym :: Typ(t, s) == Tristate && IsYmn(c) && IsYmn(d) && c != d ==>
         !(Comp(Equal, s, c) in row && Comp(Equal, s, d) in row))
    && (forall s: Sym :: Typ(t, s) == Boolean ==> !(Symbol(s) in row && Not(Symbol(s)) in row))
  }

  /** The same for a conjunction: a symbol that a comparison makes superfluous or the other
      way round, what a tristate symbol is and is not, or two values it is not. */
  ghost predicate AndReduced(t: Symbols, row: seq<Expr>) {
    && (forall s: Sym :: IsLogical(Typ(t, s)) && Symbol(s) in row ==>
         && Comp(Equal, s, YES_SYM) !in row
         && Comp(Unequal, s, NO_SYM) !in row
         && Comp(Unequal, s, MOD_SYM) !in row)
    && (forall s: Sym, b: Sym, c: Sym :: Typ(t, s) == Tristate && IsConst(t, b) && IsConst(t, c) ==>
         !(Comp(Equal, s, b) in row && Comp(Unequal, s, c) in row))
    && (forall s: Sym, c: Sym, d: Sym :: Typ(t, s) == Tristate && IsYmn(c) && IsYmn(d) && c != d ==>
         !(Comp(Unequal, s, c) in row && Comp(Unequal, s, d) in row))
  }

  /** No operand stands twice, and no pair of tests is left that can be put as one, in a
      condition or in a conjunction or disjunction that is an operand of it. */
  ghost predicate Reduced(t: Symbols, e: Expr)
    decreases Size(e)
  {
    e.Junct? ==>
      var row := Operands(e.op, e);
      && (forall a, b :: 0 <= a < b < |row| ==> row[a] != row[b])
      && (e.op == Disj ==> OrReduced(t, row))
      && (e.op == Conj ==> AndReduced(t, row))
      && (forall a :: 0 <= a < |row| ==> Reduced(t, row[a]))
  }

  /** The row of operands of a condition a pass leaves alone. */
  ghost predicate NoPairJoins(t: Symbols, op: Junction, row: seq<Expr>) {
    forall a, b :: 0 <= a < |row| && 0 <= b < |row| && a != b ==> Join(t, op, row[a], row[b]).None?
  }

  lemma OrRowReduced(t: Symbols, row: seq<Expr>)
    requires NoPairJoins(t, Disj, row)
    ensures OrReduced(t, row)
  {
    hide ExprEq;
    forall x, y | x in row && y in row && x != y
      ensures MergeOr(t, x, y).None?
    {
      PairUnjoined(t, Disj, row, x, y);
    }
  }

  lemma PairUnjoined(t: Symbols, op: Junction, row: seq<Expr>, x: Expr, y: Expr)
    requires NoPairJoins(t, op, row) && x in row && y in row && x != y
    ensures if op == Conj then MergeAnd(t, x, y).None? else MergeOr(t, x, y).None?
  {
    hide ExprEq, MergeAnd, MergeOr;
    var a :| 0 <= a < |row| && row[a] == x;
    var b :| 0 <= b < |row| && row[b] == y;
    assert Join(t, op, row[a], row[b]).None?;
  }

  lemma AndRowReduced(t: Symbols, row: seq<Expr>)
    requires NoPairJoins(t, Conj, row)
    ensures AndReduced(t, row)
  {
    hide ExprEq;
    forall x, y | x in row && y in row && x != y
      ensures MergeAnd(t, x, y).None?
    {
      PairUnjoined(t, Conj, row, x, y);
    }
  }

  lemma RowDistinct(t: Symbols, op: Junction, row: seq<Expr>)
    requires NoPairJoins(t, op, row)
    ensures forall a, b :: 0 <= a < b < |row| ==> row[a] != row[b]
    ensures forall a, b :: 0 <= a < |row| && 0 <= b < |row| && a != b ==> !ExprEq(row[a], row[b])
  {
    hide ExprEq, MergeAnd, MergeOr;
    forall a, b | 0 <= a < b < |row|
      ensures row[a] != row[b]
    {
      assert Join(t, op, row[a], row[b]).None?;
      EqualItself(row[a]);
    }
    assert forall a, b :: 0 <= a < |row| && 0 <= b < |row| && a != b ==> Join(t, op, row[a], row[b]).None?;
  }

  /** A condition a pass finds nothing to join in is reduced. */
  lemma {:induction false} UnjoinedReduced(t: Symbols, e: Expr)
    requires NoJoin(t, e)
    ensures Reduced(t, e)
    ensures e.Junct? ==> PairwiseUnequal(e.op, e)
    decreases Size(e)
  {
    hide Join, OrReduced, AndReduced, ExprEq;
    if e.Junct? {
      var row := Operands(e.op, e);
      JunctWidth(e);
      forall a, b | 0 <= a < |row| && 0 <= b < |row| && a != b
        ensures Join(t, e.op, row[a], row[b]).None? && (row[a].Junct? ==> NoJoin(t, row[a]))
      {
        assert PairSettled(t, e.op, row[a], row[b]);
      }
      RowDistinct(t, e.op, row);
      if e.op == Conj {
        AndRowReduced(t, row);
      } else {
        OrRowReduced(t, row);
      }
      forall a | 0 <= a < |row|
        ensures Reduced(t, row[a])
      {
        var b := if a == 0 then 1 else 0;
        assert PairSettled(t, e.op, row[a], row[b]);
        if row[a].Junct? {
          UnjoinedReduced(t, row[a]);
        }
      }
    }
  }

  lemma JunctWidth(e: Expr)
    requires e.Junct?
    ensures |Operands(e.op, e)| >= 2
  {
  }

  lemma UnjoinedUnequal(t: Symbols, op: Junction, e: Expr)
    requires NoJoin(t, e)
    ensures PairwiseUnequal(op, e)
  {
    hide NoJoin, ExprEq;
    if IsJunct(e, op) {
      UnjoinedReduced(t, e);
    }
  }
}
