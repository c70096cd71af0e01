/** The expression passes as the engine runs them: on nodes linked by pointers,
    rewritten and freed in place (expr.c:65-356, 594-749). Every pass is proved
    to leave the tree the value-level pass computes, to touch nothing else, and
    to free each node it drops exactly once, the negations apart that expr_free
    returns from without freeing them (expr.c:114-116); how many those are is
    proved too. */
module ExprHeap {
  import opened Exprs
  import opened Cancellation
  import opened Transformation

  type Ptr = nat

  /** struct expr, or memory given back to the allocator. */
  datatype Cell =
    | Free
    | SymCell(s: Sym)
    | NotCell(arg: Ptr)
    | CompCell(rel: Rel, l: Sym, r: Sym)
    | JunctCell(op: Junction, left: Ptr, right: Ptr)

  /** An expression together with the addresses of its nodes. */
  datatype Tree =
    | TSym(id: Ptr, s: Sym)
    | TNot(id: Ptr, arg: Tree)
    | TComp(id: Ptr, rel: Rel, l: Sym, r: Sym)
    | TJunct(id: Ptr, op: Junction, left: Tree, right: Tree)

  function ExprOf(t: Tree): Expr {
    match t
    case TSym(_, s) => Symbol(s)
    case TNot(_, a) => Not(ExprOf(a))
    case TComp(_, rel, l, r) => Comp(rel, l, r)
    case TJunct(_, op, l, r) => Junct(op, ExprOf(l), ExprOf(r))
  }

  ghost function Ids(t: Tree): set<Ptr> {
    match t
    case TSym(id, _) => {id}
    case TNot(id, a) => {id} + Ids(a)
    case TComp(id, _, _, _) => {id}
    case TJunct(id, _, l, r) => {id} + Ids(l) + Ids(r)
  }

  function CellOf(t: Tree): Cell {
    match t
    case TSym(_, s) => SymCell(s)
    case TNot(_, a) => NotCell(a.id)
    case TComp(_, rel, l, r) => CompCell(rel, l, r)
    case TJunct(_, op, l, r) => JunctCell(op, l.id, r.id)
  }

  /** The nodes of t are in memory as t says, no node is shared. */
  ghost predicate Rep(c: seq<Cell>, t: Tree) {
    && t.id < |c| && c[t.id] == CellOf(t)
    && match t
       case TNot(id, a) => Rep(c, a) && id !in Ids(a)
       case TJunct(id, _, l, r) => Rep(c, l) && Rep(c, r) && id !in Ids(l) && id !in Ids(r) && Ids(l) !! Ids(r)
       case _ => true
  }

  lemma {:induction false} RepFrame(c: seq<Cell>, c': seq<Cell>, t: Tree)
    requires Rep(c, t) && |c| <= |c'| && forall x :: x in Ids(t) && x < |c| ==> c'[x] == c[x]
    ensures Rep(c', t)
  {
    match t
    case TNot(_, a) => RepFrame(c, c', a);
    case TJunct(_, _, l, r) =>
      RepFrame(c, c', l);
      RepFrame(c, c', r);
    case _ =>
  }

  lemma {:induction false} RepInside(c: seq<Cell>, t: Tree)
    requires Rep(c, t)
    ensures forall x :: x in Ids(t) ==> x < |c|
    ensures t.id in Ids(t)
  {
    match t
    case TNot(_, a) => RepInside(c, a);
    case TJunct(_, _, l, r) =>
      RepInside(c, l);
      RepInside(c, r);
    case _ =>
  }

  // ----- ownership -----

  /** From c to c', code that owned the nodes in a came to own those in b: nothing
      outside a changed, and of what was owned or allocated and is not in b,
      the negations in k are leaked and everything else has been freed. */
  ghost predicate Moves(c: seq<Cell>, c': seq<Cell>, a: set<Ptr>, b: set<Ptr>, k: set<Ptr>) {
    && |c| <= |c'|
    && (forall x :: x in a ==> x < |c|)
    && (forall x :: x in b ==> x < |c'| && (x in a || x >= |c|))
    && (forall x :: x in k ==> x < |c'| && (x in a || x >= |c|) && x !in b && c'[x].NotCell?)
    && (forall x :: 0 <= x < |c| && x !in a ==> c'[x] == c[x])
    && (forall x :: 0 <= x < |c'| && (x in a || x >= |c|) && x !in b && x !in k ==> c'[x] == Free)
  }

  lemma MovesThen(c0: seq<Cell>, c1: seq<Cell>, c2: seq<Cell>, a: set<Ptr>, b: set<Ptr>, d: set<Ptr>, k1: set<Ptr>,
                  k2: set<Ptr>)
    requires Moves(c0, c1, a, b, k1) && Moves(c1, c2, b, d, k2)
    ensures Moves(c0, c2, a, d, k1 + k2) && Sums(k1, k2)
  {
  }

  /** The union of what two steps leaked. */
  predicate Sums(k1: set<Ptr>, k2: set<Ptr>) {
    && k1 !! k2 && |k1 + k2| == |k1| + |k2|
    && (k1 == {} ==> k1 + k2 == k2)
    && (k2 == {} ==> k1 + k2 == k1)
  }

  lemma SumSize(k1: set<Ptr>, k2: set<Ptr>)
    requires Sums(k1, k2)
    ensures |k1 + k2| == |k1| + |k2|
  {
  }

  /** Owning more does not hurt. */
  lemma MovesBeside(c: seq<Cell>, c': seq<Cell>, a: set<Ptr>, b: set<Ptr>, r: set<Ptr>, k: set<Ptr>)
    requires Moves(c, c', a, b, k) && a !! r && forall x :: x in r ==> x < |c|
    ensures Moves(c, c', a + r, b + r, k) && b !! r
  {
  }

  /** Two pieces, one after the other. */
  lemma MovesBoth(c0: seq<Cell>, c1: seq<Cell>, c2: seq<Cell>, a: set<Ptr>, a': set<Ptr>, b: set<Ptr>, b': set<Ptr>,
                  k1: set<Ptr>, k2: set<Ptr>)
    requires Moves(c0, c1, a, a', k1) && Moves(c1, c2, b, b', k2) && a !! b && forall x :: x in b ==> x < |c0|
    ensures Moves(c0, c2, a + b, a' + b', k1 + k2) && a' !! b' && a' !! b && Sums(k1, k2)
  {
    hide Sums;
    MovesBeside(c0, c1, a, a', b, k1);
    MovesBeside(c1, c2, b, b', a', k2);
    assert a' + b == b + a' && b' + a' == a' + b';
    MovesThen(c0, c1, c2, a + b, a' + b, a' + b', k1, k2);
  }

  lemma NoneLeft(a: set<Ptr>, b: set<Ptr>)
    requires forall x :: x in a <==> x in b
    ensures a == b
    ensures forall s: set<Ptr> :: {} + s == s
  {
  }

  lemma RepBeside(c: seq<Cell>, c': seq<Cell>, a: set<Ptr>, b: set<Ptr>, t: Tree, k: set<Ptr>)
    requires Moves(c, c', a, b, k) && Rep(c, t) && Ids(t) !! a
    ensures Rep(c', t)
  {
    RepInside(c, t);
    RepFrame(c, c', t);
  }

  // ----- the negations expr_free leaks -----

  /** The nodes of the negations in t. */
  ghost function Negations(t: Tree): set<Ptr> {
    match t
    case TNot(id, a) => {id} + Negations(a)
    case TJunct(_, _, l, r) => Negations(l) + Negations(r)
    case _ => {}
  }

  function Nots(e: Expr): nat {
    match e
    case Not(a) => 1 + Nots(a)
    case Junct(_, l, r) => Nots(l) + Nots(r)
    case _ => 0
  }

  lemma {:induction false} NegationsCount(c: seq<Cell>, t: Tree)
    requires Rep(c, t)
    ensures Negations(t) <= Ids(t) && |Negations(t)| == Nots(ExprOf(t))
  {
    match t
    case TNot(id, a) =>
      NegationsCount(c, a);
    case TJunct(_, _, l, r) =>
      NegationsCount(c, l);
      NegationsCount(c, r);
      assert Sums(Negations(l), Negations(r));
    case _ =>
  }

  /** The negations in the copies that expr_eq makes and then frees, over all
      comparisons of one cancellation. */
  function CancelCopies(op: Junction, e1: Expr, e2: Expr): nat
    decreases Size(e1) + Size(e2), if IsJunct(e1, op) || IsJunct(e2, op) then 0 else 4
  {
    if IsJunct(e1, op) then
      CancelCopies(op, e1.left, e2) + CancelCopies(op, e1.right, CancelOperands(op, e1.left, e2).e2)
    else if IsJunct(e2, op) then
      CancelCopies(op, e1, e2.left) + CancelCopies(op, CancelOperands(op, e1, e2.left).e1, e2.right)
    else if e1 == e2 && IsYn(e1) then 0
    else EqCopies(e1, e2)
  }

  function FirstCopies(e1: Expr, e2: Expr): nat
    decreases Size(e1) + Size(e2), 1
  {
    if e1.Junct? then CancelCopies(e1.op, e1, e2) else 0
  }

  function SecondCopies(e1: Expr, e2: Expr): nat
    decreases Size(e1) + Size(e2), 1
  {
    if e2.Junct? && !IsJunct(e1, e2.op) then CancelCopies(e2.op, e1, e2) else 0
  }

  /** The same for expr_eliminate_eq. */
  function BothCopies(e1: Expr, e2: Expr): nat
    decreases Size(e1) + Size(e2), 2
  {
    var p := CancelBoth(e1, e2).0;
    FirstCopies(e1, e2) + SecondCopies(p.e1, p.e2)
  }

  /** The same for expr_eq. */
  function EqCopies(e1: Expr, e2: Expr): nat
    decreases Size(e1) + Size(e2), 3
  {
    match e1
    case Not(a) => if e2.Not? then EqCopies(a, e2.arg) else 0
    case Junct(op, _, _) => if IsJunct(e2, op) then Nots(e1) + Nots(e2) + BothCopies(e1, e2) else 0
    case _ => 0
  }

  /** A tree whose nodes expr_free all frees is one without a negation. */
  lemma FreedWhole(c: seq<Cell>, t: Tree)
    requires Rep(c, t)
    ensures Negations(t) == {} <==> Nots(ExprOf(t)) == 0
  {
    hide Rep, Nots, Negations;
    NegationsCount(c, t);
  }

  /** Cancellation never adds a negation. */
  lemma {:induction false} CancelNots(op: Junction, e1: Expr, e2: Expr)
    ensures var r := CancelOperands(op, e1, e2); Nots(r.e1) <= Nots(e1) && Nots(r.e2) <= Nots(e2)
    decreases Size(e1) + Size(e2)
  {
    hide ExprEq;
    if IsJunct(e1, op) {
      CancelNots(op, e1.left, e2);
      CancelNots(op, e1.right, CancelOperands(op, e1.left, e2).e2);
    } else if IsJunct(e2, op) {
      CancelNots(op, e1, e2.left);
      CancelNots(op, CancelOperands(op, e1, e2.left).e1, e2.right);
    }
  }

  /** Without negations there is none to copy. */
  lemma {:induction false} CancelPlain(op: Junction, e1: Expr, e2: Expr)
    requires Nots(e1) == 0 && Nots(e2) == 0
    ensures CancelCopies(op, e1, e2) == 0
    decreases Size(e1) + Size(e2), if IsJunct(e1, op) || IsJunct(e2, op) then 0 else 4
  {
    hide ExprEq, EqCopies, CancelOperands;
    if IsJunct(e1, op) {
      CancelNots(op, e1.left, e2);
      CancelPlain(op, e1.left, e2);
      CancelPlain(op, e1.right, CancelOperands(op, e1.left, e2).e2);
    } else if IsJunct(e2, op) {
      CancelNots(op, e1, e2.left);
      CancelPlain(op, e1, e2.left);
      CancelPlain(op, CancelOperands(op, e1, e2.left).e1, e2.right);
    } else {
      EqPlain(e1, e2);
    }
  }

  lemma {:induction false} EqPlain(e1: Expr, e2: Expr)
    requires Nots(e1) == 0 && Nots(e2) == 0
    ensures EqCopies(e1, e2) == 0
    decreases Size(e1) + Size(e2), 3
  {
    hide CancelCopies, CancelOperands;
    if e1.Junct? && IsJunct(e2, e1.op) {
      var p := CancelBoth(e1, e2).0;
      CancelPlain(e1.op, e1, e2);
      CancelNots(e1.op, e1, e2);
      if p.e2.Junct? && !IsJunct(p.e1, p.e2.op) {
        CancelPlain(p.e2.op, p.e1, p.e2);
      }
      assert BothCopies(e1, e2) == FirstCopies(e1, e2) + SecondCopies(p.e1, p.e2);
    }
  }

  /** What expr_eq copies of e1 and e2 holds no negation. */
  predicate CopiesPlain(e1: Expr, e2: Expr) {
    match e1
    case Not(a) => e2.Not? ==> CopiesPlain(a, e2.arg)
    case Junct(op, _, _) => IsJunct(e2, op) ==> Nots(e1) == 0 && Nots(e2) == 0
    case _ => true
  }

  /** expr_eq leaks nothing if and only if what it copies holds no negation. */
  lemma {:induction false} ComparisonLeaks(e1: Expr, e2: Expr)
    ensures EqCopies(e1, e2) == 0 <==> CopiesPlain(e1, e2)
    decreases e1
  {
    hide BothCopies, Nots;
    match e1
    case Not(a) =>
      if e2.Not? {
        ComparisonLeaks(a, e2.arg);
      }
    case Junct(op, _, _) =>
      if IsJunct(e2, op) && Nots(e1) == 0 && Nots(e2) == 0 {
        EqPlain(e1, e2);
      }
    case _ =>
  }

  /** Of the operands compared in turn, those expr_eq copies and those found equal,
      which are dropped, hold no negation. */
  predicate DropsPlain(op: Junction, e1: Expr, e2: Expr)
    decreases Size(e1) + Size(e2)
  {
    if IsJunct(e1, op) then
      DropsPlain(op, e1.left, e2) && DropsPlain(op, e1.right, CancelOperands(op, e1.left, e2).e2)
    else if IsJunct(e2, op) then
      DropsPlain(op, e1, e2.left) && DropsPlain(op, CancelOperands(op, e1, e2.left).e1, e2.right)
    else
      (e1 == e2 && IsYn(e1)) || (CopiesPlain(e1, e2) && (ExprEq(e1, e2) ==> Nots(e1) == 0 && Nots(e2) == 0))
  }

  /** No copy holds a negation, and none is lost. */
  predicate KeepsNots(op: Junction, e1: Expr, e2: Expr) {
    var r := CancelOperands(op, e1, e2);
    CancelCopies(op, e1, e2) == 0 && Nots(r.e1) == Nots(e1) && Nots(r.e2) == Nots(e2)
  }

  lemma KeepsLeft(op: Junction, e1: Expr, e2: Expr)
    requires IsJunct(e1, op)
    ensures KeepsNots(op, e1, e2) <==>
            KeepsNots(op, e1.left, e2) && KeepsNots(op, e1.right, CancelOperands(op, e1.left, e2).e2)
  {
    hide ExprEq, EqCopies;
    CancelNots(op, e1.left, e2);
    CancelNots(op, e1.right, CancelOperands(op, e1.left, e2).e2);
  }

  lemma KeepsRight(op: Junction, e1: Expr, e2: Expr)
    requires !IsJunct(e1, op) && IsJunct(e2, op)
    ensures KeepsNots(op, e1, e2) <==>
            KeepsNots(op, e1, e2.left) && KeepsNots(op, CancelOperands(op, e1, e2.left).e1, e2.right)
  {
    hide ExprEq, EqCopies;
    CancelNots(op, e1, e2.left);
    CancelNots(op, CancelOperands(op, e1, e2.left).e1, e2.right);
  }

  lemma KeepsOne(op: Junction, e1: Expr, e2: Expr)
    requires !IsJunct(e1, op) && !IsJunct(e2, op)
    ensures KeepsNots(op, e1, e2) <==> DropsPlain(op, e1, e2)
  {
    hide ExprEq, EqCopies, CopiesPlain;
    ComparisonLeaks(e1, e2);
  }

  lemma {:induction false} DropsNothing(op: Junction, e1: Expr, e2: Expr)
    ensures DropsPlain(op, e1, e2) <==> KeepsNots(op, e1, e2)
    decreases Size(e1) + Size(e2)
  {
    hide ExprEq, EqCopies, CopiesPlain, KeepsNots, CancelOperands;
    if IsJunct(e1, op) {
      KeepsLeft(op, e1, e2);
      DropsNothing(op, e1.left, e2);
      DropsNothing(op, e1.right, CancelOperands(op, e1.left, e2).e2);
    } else if IsJunct(e2, op) {
      KeepsRight(op, e1, e2);
      DropsNothing(op, e1, e2.left);
      DropsNothing(op, CancelOperands(op, e1, e2.left).e1, e2.right);
    } else {
      KeepsOne(op, e1, e2);
    }
  }

  /** Cancellation leaks nothing if and only if no operand it drops or copies to
      compare holds a negation. */
  lemma CancellationLeaks(op: Junction, e1: Expr, e2: Expr, k: set<Ptr>)
    requires var r := CancelOperands(op, e1, e2); Leaked(e1, e2, CancelCopies(op, e1, e2), r.e1, r.e2, k)
    ensures k == {} <==> DropsPlain(op, e1, e2)
  {
    hide CancelCopies, CancelOperands, Nots, DropsPlain;
    CancelNots(op, e1, e2);
    DropsNothing(op, e1, e2);
  }

  /** Comparing !A && B with itself leaks the negations of both copies. */
  lemma ComparedNegationLeaks(a: Sym, b: Sym)
    ensures var e := And(Not(Symbol(a)), Symbol(b)); EqCopies(e, e) >= 2
  {
    hide BothCopies;
    var e := And(Not(Symbol(a)), Symbol(b));
    assert Nots(e) == Nots(Not(Symbol(a))) + Nots(Symbol(b));
  }

  /** All negations of e1 and e2, and those of the copies made, are in u1 and u2
      or leaked. */
  predicate Leaked(e1: Expr, e2: Expr, copies: nat, u1: Expr, u2: Expr, k: set<Ptr>) {
    Nots(e1) + Nots(e2) + copies == Nots(u1) + Nots(u2) + |k|
  }

  /** The memory, and the global trans_count. */
  class Store {
    var cells: seq<Cell>
    var transCount: nat

    constructor ()
      ensures cells == [] && transCount == 0
    {
      cells := [];
      transCount := 0;
    }

    /** free. */
    method Release(p: Ptr)
      requires p < |cells| && cells[p] != Free
      modifies this`cells
      ensures cells == old(cells)[p := Free] && Moves(old(cells), cells, {p}, {}, {})
    {
      cells := cells[p := Free];
    }

    method Write(p: Ptr, x: Cell)
      requires p < |cells| && cells[p] != Free
      modifies this`cells
      ensures cells == old(cells)[p := x] && Moves(old(cells), cells, {p}, {p}, {})
    {
      cells := cells[p := x];
    }

    /** malloc. */
    method New(x: Cell) returns (p: Ptr)
      modifies this`cells
      ensures p == |old(cells)| && cells == old(cells) + [x] && Moves(old(cells), cells, {}, {p}, {})
    {
      p := |cells|;
      cells := cells + [x];
    }

    /** expr_free: of the tree, exactly the negations stay allocated. */
    method FreeTree(p: Ptr, ghost t: Tree)
      requires Rep(cells, t) && t.id == p
      modifies this`cells
      ensures Moves(old(cells), cells, Ids(t), {}, Negations(t))
      decreases t
    {
      ghost var c := cells;
      CellAt(c, t);
      match cells[p]
      case SymCell(_) =>
        Release(p);
      case CompCell(_, _, _) =>
        Release(p);
      case NotCell(a) =>
        NotParts(c, t);
        hide Moves, Rep;
        FreeTree(a, t.arg);
        NegationLeaked(c, cells, t);
      case JunctCell(_, l, r) =>
        RepParts(c, t);
        hide Moves, Rep, Ids;
        FreeTree(l, t.left);
        ghost var c1 := cells;
        RepBeside(c, c1, Ids(t.left), {}, t.right, Negations(t.left));
        FreeTree(r, t.right);
        ghost var c2 := cells;
        BothFreed(c, c1, c2, t);
        Release(p);
        JunctionFreed(c, c2, cells, t);
    }

    /** *e = *tmp; free(tmp): node p takes over the tree q. */
    method TakeOver(p: Ptr, r: Ptr, ghost q: Tree) returns (ghost q': Tree)
      requires Rep(cells, q) && q.id == r && p !in Ids(q) && p < |cells| && cells[p] != Free
      modifies this`cells
      ensures Rep(cells, q') && q' == q.(id := p) && Moves(old(cells), cells, {p} + Ids(q), Ids(q'), {})
    {
      ghost var c := cells;
      RepInside(c, q);
      Write(p, cells[r]);
      Release(r);
      q' := q.(id := p);
      TakenOver(c, cells, p, q);
    }

    /** The part of expr_eliminate_yn after the operands. */
    method DropConstant(p: Ptr, ghost n: Tree) returns (ghost t': Tree, ghost k: set<Ptr>)
      requires Rep(cells, n) && n.TJunct? && n.id == p
      modifies this`cells
      ensures Rep(cells, t') && t'.id == p && Moves(old(cells), cells, Ids(n), Ids(t'), k)
      ensures ExprOf(t') == DropConstants(n.op, ExprOf(n.left), ExprOf(n.right))
      ensures Nots(ExprOf(n)) == Nots(ExprOf(t')) + |k|
    {
      CellAt(cells, n);
      RepParts(cells, n);
      CellAt(cells, n.left);
      CellAt(cells, n.right);
      CellKind(n.left);
      CellKind(n.right);
      var op, pl, pr := cells[p].op, cells[p].left, cells[p].right;
      hide Moves, Rep, Ids, Negations, ExprOf, CellOf, Nots;
      k := {};
      if cells[pl].SymCell? && cells[pl].s == AbsorbingSym(op) {
        t', k := Collapse(p, AbsorbingSym(op), n);
      } else if cells[pl].SymCell? && cells[pl].s == NeutralSym(op) {
        t' := KeepRight(p, pl, pr, n);
      } else if cells[pr].SymCell? && cells[pr].s == AbsorbingSym(op) {
        t', k := Collapse(p, AbsorbingSym(op), n);
      } else if cells[pr].SymCell? && cells[pr].s == NeutralSym(op) {
        t' := KeepLeft(p, pl, pr, n);
      } else {
        t' := n;
        MovesNothing(cells, n);
      }
    }

    /** Both operands go, the node becomes a symbol. */
    method Collapse(p: Ptr, s: Sym, ghost n: Tree) returns (ghost t': Tree, ghost k: set<Ptr>)
      requires Rep(cells, n) && n.TJunct? && n.id == p
      modifies this`cells
      ensures Rep(cells, t') && t' == TSym(p, s) && Moves(old(cells), cells, Ids(n), Ids(t'), k)
      ensures k == Negations(n) && ExprOf(t') == Symbol(s) && Nots(ExprOf(n)) == Nots(ExprOf(t')) + |k|
    {
      NegationsSize(cells, n);
      ghost var c := cells;
      CellAt(c, n);
      RepParts(c, n);
      var pl, pr := cells[p].left, cells[p].right;
      hide Moves, Rep, Ids;
      FreeTree(pl, n.left);
      ghost var c1 := cells;
      RepBeside(c, c1, Ids(n.left), {}, n.right, Negations(n.left));
      FreeTree(pr, n.right);
      ghost var c2 := cells;
      BothFreed(c, c1, c2, n);
      Write(p, SymCell(s));
      t', k := TSym(p, s), Negations(n);
      Collapsed(c, c2, cells, n, t');
    }

    /** The left operand, one symbol, goes, and the node becomes the right one. */
    method KeepRight(p: Ptr, pl: Ptr, pr: Ptr, ghost n: Tree) returns (ghost t': Tree)
      requires Rep(cells, n) && n.TJunct? && n.id == p && n.left.TSym? && n.left.id == pl && n.right.id == pr
      modifies this`cells
      ensures Rep(cells, t') && t'.id == p && t' == n.right.(id := p) && Moves(old(cells), cells, Ids(n), Ids(t'), {})
      ensures ExprOf(t') == ExprOf(n.right) && Nots(ExprOf(n)) == Nots(ExprOf(t'))
    {
      ghost var c := cells;
      OperandsApart(c, n);
      RepParts(c, n);
      JunctIds(n);
      LeafOperand(c, n.left, n.right, p);
      hide Moves, Rep, Ids, Sums, ExprOf, Nots;
      Release(pl);
      ghost var c1 := cells;
      RepBeside(c, c1, {pl}, {}, n.right, {});
      t' := TakeOver(p, pr, n.right);
      MovesBoth(c, c1, cells, {pl}, {}, {p} + Ids(n.right), Ids(t'), {}, {});
      NoneLeft({pl} + ({p} + Ids(n.right)), Ids(n));
      OneLess(n);
    }

    method KeepLeft(p: Ptr, pl: Ptr, pr: Ptr, ghost n: Tree) returns (ghost t': Tree)
      requires Rep(cells, n) && n.TJunct? && n.id == p && n.right.TSym? && n.right.id == pr && n.left.id == pl
      modifies this`cells
      ensures Rep(cells, t') && t'.id == p && t' == n.left.(id := p) && Moves(old(cells), cells, Ids(n), Ids(t'), {})
      ensures ExprOf(t') == ExprOf(n.left) && Nots(ExprOf(n)) == Nots(ExprOf(t'))
    {
      ghost var c := cells;
      OperandsApart(c, n);
      RepParts(c, n);
      JunctIds(n);
      LeafOperand(c, n.right, n.left, p);
      hide Moves, Rep, Ids, Sums, ExprOf, Nots;
      Release(pr);
      ghost var c1 := cells;
      RepBeside(c, c1, {pr}, {}, n.left, {});
      t' := TakeOver(p, pl, n.left);
      MovesBoth(c, c1, cells, {pr}, {}, {p} + Ids(n.left), Ids(t'), {}, {});
      NoneLeft({pr} + ({p} + Ids(n.left)), Ids(n));
      OneLess(n);
    }

    /** expr_eliminate_yn. As many negations are leaked as the result has less
        than the tree had. */
    method EliminateYnInPlace(p: Ptr, ghost t: Tree) returns (ghost t': Tree, ghost k: set<Ptr>)
      requires Rep(cells, t) && t.id == p
      modifies this`cells
      ensures Rep(cells, t') && t'.id == p && Moves(old(cells), cells, Ids(t), Ids(t'), k)
      ensures ExprOf(t') == EliminateYn(ExprOf(t))
      ensures Nots(ExprOf(t)) == Nots(ExprOf(t')) + |k|
      decreases t
    {
      if cells[p].JunctCell? {
        ghost var c := cells;
        RepParts(c, t);
        var l, r := cells[p].left, cells[p].right;
        hide *;
        ghost var l', k1 := EliminateYnInPlace(l, t.left);
        ghost var c1 := cells;
        RepBeside(c, c1, Ids(t.left), Ids(l'), t.right, k1);
        ghost var r', k2 := EliminateYnInPlace(r, t.right);
        ghost var c2 := cells;
        SamePointers(c, c1, c2, t, l', r', k1, k2);
        Rebuilt(c, c1, c2, c2, t, l', r', k1, k2);
        ghost var k3;
        t', k3 := DropConstant(p, TJunct(p, t.op, l', r'));
        MovesThen(c, c2, cells, Ids(t), Ids(TJunct(p, t.op, l', r')), Ids(t'), k1 + k2, k3);
        k := k1 + k2 + k3;
        YnCounted(t, TJunct(p, t.op, l', r'), t', k1, k2, k3);
      } else {
        t', k := t, {};
        MovesNothing(cells, t);
      }
    }

    /** expr_trans_bool. */
    method TransBoolInPlace(syms: Symbols, p: Ptr, ghost t: Tree) returns (ghost t': Tree)
      requires Rep(cells, t) && t.id == p
      modifies this`cells
      ensures Rep(cells, t') && t'.id == p && Moves(old(cells), cells, Ids(t), Ids(t'), {})
      ensures ExprOf(t') == TransBool(syms, ExprOf(t))
      decreases t
    {
      hide Moves, Ids;
      ghost var c := cells;
      CellAt(c, t);
      match cells[p]
      case JunctCell(_, l, r) =>
        RepParts(c, t);
        ghost var l' := TransBoolInPlace(syms, l, t.left);
        ghost var c1 := cells;
        RepBeside(c, c1, Ids(t.left), Ids(l'), t.right, {});
        ghost var r' := TransBoolInPlace(syms, r, t.right);
        SamePointers(c, c1, cells, t, l', r', {}, {});
        Rebuilt(c, c1, cells, cells, t, l', r', {}, {});
        t' := TJunct(p, t.op, l', r');
      case NotCell(a) =>
        NotParts(c, t);
        ghost var a' := TransBoolInPlace(syms, a, t.arg);
        SamePointer(c, cells, t, a');
        RebuiltNot(c, cells, cells, t, a');
        t' := TNot(p, a');
      case CompCell(rel, l, r) =>
        if rel == Unequal && Typ(syms, l) == Tristate && r == NO_SYM {
          Write(p, SymCell(l));
          t' := TSym(p, l);
          OneCell(c, cells, t, t');
        } else {
          t' := t;
          MovesNothing(c, t);
        }
      case SymCell(_) =>
        t' := t;
        MovesNothing(c, t);
    }

    /** The comparison cases of expr_transform. */
    method TransformComparison(syms: Symbols, p: Ptr, ghost t: Tree) returns (ghost t': Tree)
      requires Rep(cells, t) && t.TComp? && t.id == p
      modifies this`cells
      ensures Rep(cells, t') && t'.id == p && Moves(old(cells), cells, Ids(t), Ids(t'), {})
      ensures ExprOf(t') == TransformComp(syms, t.rel, t.l, t.r)
    {
      ghost var c := cells;
      assert cells[p] == CompCell(t.rel, t.l, t.r);
      var rel, l, r := cells[p].rel, cells[p].l, cells[p].r;
      if !IsBooleanTest(syms, rel, l, r) {
        t' := t;
        MovesNothing(c, t);
      } else if r == MOD_SYM {
        var forced := if rel == Equal then NO_SYM else YES_SYM;
        Write(p, SymCell(forced));
        t' := TSym(p, forced);
      } else if (r == YES_SYM) == (rel == Equal) {
        Write(p, SymCell(l));
        t' := TSym(p, l);
      } else {
        var q := New(SymCell(l));
        Write(p, NotCell(q));
        t' := TNot(p, TSym(q, l));
      }
    }

    /** The negation of a comparison or of a symbol whose own node q remains, or
        nothing of the above: e is the negation, q its operand. */
    method TransformNegatedLeaf(ghost syms: Symbols, p: Ptr, q: Ptr, ghost t: Tree) returns (p': Ptr, ghost t': Tree)
      requires Rep(cells, t) && t.TNot? && t.id == p && t.arg.id == q && (t.arg.TComp? || t.arg.TSym?)
      modifies this`cells
      ensures Rep(cells, t') && t'.id == p' && Moves(old(cells), cells, Ids(t), Ids(t'), {})
      ensures t.arg.TComp? ==> ExprOf(t') == Comp(Negated(t.arg.rel), t.arg.l, t.arg.r)
      ensures t.arg.TSym? ==> ExprOf(t') == TransformedNegation(syms, Symbol(t.arg.s))
    {
      assert cells[q] == CellOf(t.arg);
      if cells[q].CompCell? {
        Release(p);
        Write(q, CompCell(Negated(cells[q].rel), cells[q].l, cells[q].r));
        return q, TComp(q, Negated(t.arg.rel), t.arg.l, t.arg.r);
      }
      var s := cells[q].s;
      if !IsYmn(s) {
        MovesNothing(cells, t);
        return p, t;
      }
      var s' := if s == YES_SYM then NO_SYM else if s == MOD_SYM then MOD_SYM else YES_SYM;
      Release(p);
      Write(q, SymCell(s'));
      return q, TSym(q, s');
    }

    /** De Morgan: the negation becomes the junction and the junction a negation,
        with one node more for the other. */
    method DeMorganInPlace(p: Ptr, q: Ptr, ghost t: Tree) returns (ghost t': Tree)
      requires Rep(cells, t) && t.TNot? && t.id == p && t.arg.id == q && t.arg.TJunct?
      modifies this`cells
      ensures Rep(cells, t') && t'.id == p && Moves(old(cells), cells, Ids(t), Ids(t'), {})
      ensures ExprOf(t') == Distribute(t.arg.op, ExprOf(t.arg.left), ExprOf(t.arg.right))
    {
      ghost var c, x, y := cells, t.arg.left, t.arg.right;
      RepInside(c, t);
      assert cells[q] == JunctCell(t.arg.op, x.id, y.id);
      var op, px, py := cells[q].op, cells[q].left, cells[q].right;
      var n := New(NotCell(py));
      cells := cells[p := JunctCell(Dual(op), q, n)][q := NotCell(px)];
      t' := TJunct(p, Dual(op), TNot(q, x), TNot(n, y));
      Distributed(c, cells, t, n);
    }

    /** expr_transform. */
    method TransformInPlace(syms: Symbols, p: Ptr, ghost t: Tree) returns (p': Ptr, ghost t': Tree)
      requires Rep(cells, t) && t.id == p
      modifies this`cells
      ensures Rep(cells, t') && t'.id == p' && Moves(old(cells), cells, Ids(t), Ids(t'), {})
      ensures ExprOf(t') == Transform(syms, ExprOf(t))
      decreases Weight(ExprOf(t)), 1
    {
      hide Moves, Rep, Ids, TransformComp;
      ghost var c := cells;
      CellAt(c, t);
      match cells[p]
      case SymCell(_) =>
        MovesNothing(c, t);
        return p, t;
      case CompCell(_, _, _) =>
        t' := TransformComparison(syms, p, t);
        return p, t';
      case JunctCell(op, l, r) =>
        RepParts(c, t);
        var l': Ptr;
        ghost var lt: Tree;
        l', lt := TransformInPlace(syms, l, t.left);
        ghost var c1 := cells;
        RepBeside(c, c1, Ids(t.left), Ids(lt), t.right, {});
        var r': Ptr;
        ghost var rt: Tree;
        r', rt := TransformInPlace(syms, r, t.right);
        ghost var c2 := cells;
        StillThere(c, c1, c2, t, lt, rt);
        Write(p, JunctCell(op, l', r'));
        Rebuilt(c, c1, c2, cells, t, lt, rt, {}, {});
        return p, TJunct(p, op, lt, rt);
      case NotCell(a) =>
        NotParts(c, t);
        var a': Ptr;
        ghost var at: Tree;
        a', at := TransformInPlace(syms, a, t.arg);
        ghost var c1 := cells;
        NotStillThere(c, c1, t, at);
        Write(p, NotCell(a'));
        RebuiltNot(c, c1, cells, t, at);
        ghost var c2 := cells;
        p', t' := TransformNegation(syms, p, TNot(p, at));
        MovesThen(c, c2, cells, Ids(t), Ids(TNot(p, at)), Ids(t'), {}, {});
    }

    /** The negation cases of expr_transform, the operand being transformed. */
    method TransformNegation(syms: Symbols, p: Ptr, ghost t: Tree) returns (p': Ptr, ghost t': Tree)
      requires Rep(cells, t) && t.id == p && t.TNot?
      modifies this`cells
      ensures Rep(cells, t') && t'.id == p' && Moves(old(cells), cells, Ids(t), Ids(t'), {})
      ensures ExprOf(t') == TransformedNegation(syms, ExprOf(t.arg))
      decreases Weight(ExprOf(t)), 0
    {
      ghost var c := cells;
      NotParts(c, t);
      var q := cells[p].arg;
      CellAt(c, t.arg);
      match cells[q]
      case NotCell(b) =>
        NotParts(c, t.arg);
        DoubleNegation(c, t);
        hide Moves, Rep, Ids;
        Release(q);
        Release(p);
        Peeled(c, cells, t);
        ghost var c1 := cells;
        assert ExprOf(t) == Not(Not(ExprOf(t.arg.arg)));
        assert Weight(ExprOf(t)) == 2 * Weight(Not(ExprOf(t.arg.arg)));
        p', t' := TransformInPlace(syms, b, t.arg.arg);
        MovesThen(c, c1, cells, Ids(t), Ids(t.arg.arg), Ids(t'), {}, {});
      case JunctCell(_, _, _) =>
        hide Moves, Rep, Ids;
        ghost var d := DeMorganInPlace(p, q, t);
        ghost var c1 := cells;
        assert ExprOf(t) == Not(Junct(t.arg.op, ExprOf(t.arg.left), ExprOf(t.arg.right)));
        p', t' := TransformInPlace(syms, p, d);
        MovesThen(c, c1, cells, Ids(t), Ids(d), Ids(t'), {}, {});
      case CompCell(_, _, _) =>
        p', t' := TransformNegatedLeaf(syms, p, q, t);
      case SymCell(_) =>
        p', t' := TransformNegatedLeaf(syms, p, q, t);
    }

    /** expr_copy. */
    method CopyTree(p: Ptr, ghost t: Tree) returns (q: Ptr, ghost t': Tree)
      requires Rep(cells, t) && t.id == p
      modifies this`cells
      ensures Rep(cells, t') && t'.id == q && ExprOf(t') == ExprOf(t) && Moves(old(cells), cells, {}, Ids(t'), {})
      decreases t
    {
      ghost var c := cells;
      CellAt(c, t);
      match cells[p]
      case SymCell(s) =>
        q := New(SymCell(s));
        t' := TSym(q, s);
      case CompCell(rel, l, r) =>
        q := New(CompCell(rel, l, r));
        t' := TComp(q, rel, l, r);
      case NotCell(a) =>
        NotParts(c, t);
        hide Moves, Rep, Ids;
        var a': Ptr;
        ghost var at: Tree;
        a', at := CopyTree(a, t.arg);
        ghost var c1 := cells;
        q := New(NotCell(a'));
        t' := TNot(q, at);
        CopiedNot(c, c1, cells, at, q);
      case JunctCell(op, l, r) =>
        RepParts(c, t);
        hide Moves, Rep, Ids;
        var l', r': Ptr;
        ghost var lt, rt: Tree;
        l', lt := CopyTree(l, t.left);
        ghost var c1 := cells;
        RepBeside(c, c1, {}, Ids(lt), t.right, {});
        r', rt := CopyTree(r, t.right);
        ghost var c2 := cells;
        q := New(JunctCell(op, l', r'));
        t' := TJunct(q, op, lt, rt);
        CopiedJunct(c, c1, c2, cells, op, lt, rt, q);
    }

    /** __expr_eliminate_eq: what the two sides share becomes neutral in both. */
    method CancelInPlace(op: Junction, p1: Ptr, p2: Ptr, ghost t1: Tree, ghost t2: Tree)
      returns (q1: Ptr, q2: Ptr, ghost u1: Tree, ghost u2: Tree, ghost k: set<Ptr>)
      requires Two(cells, t1, t2) && t1.id == p1 && t2.id == p2
      modifies this
      ensures Two(cells, u1, u2) && u1.id == q1 && u2.id == q2
      ensures Moves(old(cells), cells, Ids(t1) + Ids(t2), Ids(u1) + Ids(u2), k)
      ensures Cancelled(op, t1, t2, u1, u2, transCount - old(transCount))
      ensures Leaked(ExprOf(t1), ExprOf(t2), CancelCopies(op, ExprOf(t1), ExprOf(t2)), ExprOf(u1), ExprOf(u2), k)
      decreases Size(ExprOf(t1)) + Size(ExprOf(t2)),
        if IsJunct(ExprOf(t1), op) || IsJunct(ExprOf(t2), op) then 0 else 3, 1
    {
      TwoCells(cells, t1, t2);
      if cells[p1].JunctCell? && cells[p1].op == op {
        q1, q2, u1, u2, k := CancelFirst(op, p1, p2, t1, t2);
      } else if cells[p2].JunctCell? && cells[p2].op == op {
        q1, q2, u1, u2, k := CancelSecond(op, p1, p2, t1, t2);
      } else {
        q1, q2, u1, u2, k := CancelLeaves(op, p1, p2, t1, t2);
      }
    }

    /** The case of a junction on the first side. */
    method CancelFirst(op: Junction, p1: Ptr, p2: Ptr, ghost t1: Tree, ghost t2: Tree)
      returns (q1: Ptr, q2: Ptr, ghost u1: Tree, ghost u2: Tree, ghost k: set<Ptr>)
      requires Two(cells, t1, t2) && t1.id == p1 && t2.id == p2 && t1.TJunct? && t1.op == op
      modifies this
      ensures Two(cells, u1, u2) && u1.id == q1 && u2.id == q2
      ensures Moves(old(cells), cells, Ids(t1) + Ids(t2), Ids(u1) + Ids(u2), k)
      ensures Cancelled(op, t1, t2, u1, u2, transCount - old(transCount))
      ensures Leaked(ExprOf(t1), ExprOf(t2), CancelCopies(op, ExprOf(t1), ExprOf(t2)), ExprOf(u1), ExprOf(u2), k)
      decreases Size(ExprOf(t1)) + Size(ExprOf(t2)), 0, 0
    {
      hide *;
      ghost var c, n0: int := cells, transCount;
      TwoCells(c, t1, t2);
      FirstOperands(c, t1, t2);
      JunctSize(t1);
      var l, r := cells[p1].left, cells[p1].right;
      var l', m, r': Ptr;
      ghost var lt, mt, rt: Tree;
      ghost var k1, k2: set<Ptr>;
      l', m, lt, mt, k1 := CancelInPlace(op, l, p2, t1.left, t2);
      ghost var c1, n1: int := cells, transCount;
      CancelledSize(op, t1.left, t2, lt, mt, n1 - n0);
      AfterFirst(c, c1, t1, t2, lt, mt, k1);
      r', q2, rt, u2, k2 := CancelInPlace(op, r, m, t1.right, mt);
      ghost var c2 := cells;
      Untouched(c1, c2, Ids(t1.right) + Ids(mt), Ids(rt) + Ids(u2), p1, k2);
      Write(p1, JunctCell(op, l', r'));
      Assembled(c, c1, c2, cells, t1, t2, lt, mt, rt, u2, k1, k2);
      q1, u1, k := p1, TJunct(p1, op, lt, rt), k1 + k2;
      CancelledParts(op, t1.left, t2, lt, mt, n1 - n0);
      JunctExpr(t1);
      JunctExpr(u1);
      LeakedFirst(op, ExprOf(t1), ExprOf(t2), ExprOf(lt), ExprOf(mt), ExprOf(rt), ExprOf(u2), k1, k2);
      CancelledFirst(op, t1, t2, lt, mt, rt, u2, n1 - n0, transCount - n1);
    }

    /** The case of a junction on the second side. */
    method CancelSecond(op: Junction, p1: Ptr, p2: Ptr, ghost t1: Tree, ghost t2: Tree)
      returns (q1: Ptr, q2: Ptr, ghost u1: Tree, ghost u2: Tree, ghost k: set<Ptr>)
      requires Two(cells, t1, t2) && t1.id == p1 && t2.id == p2 && t2.TJunct? && t2.op == op && !IsJunct(ExprOf(t1), op)
      modifies this
      ensures Two(cells, u1, u2) && u1.id == q1 && u2.id == q2
      ensures Moves(old(cells), cells, Ids(t1) + Ids(t2), Ids(u1) + Ids(u2), k)
      ensures Cancelled(op, t1, t2, u1, u2, transCount - old(transCount))
      ensures Leaked(ExprOf(t1), ExprOf(t2), CancelCopies(op, ExprOf(t1), ExprOf(t2)), ExprOf(u1), ExprOf(u2), k)
      decreases Size(ExprOf(t1)) + Size(ExprOf(t2)), 0, 0
    {
      hide *;
      ghost var c, n0: int := cells, transCount;
      TwoCells(c, t1, t2);
      TwoSwap(c, t1, t2);
      FirstOperands(c, t2, t1);
      JunctSize(t2);
      var l, r := cells[p2].left, cells[p2].right;
      var l', m, r': Ptr;
      ghost var lt, mt, rt: Tree;
      ghost var k1, k2: set<Ptr>;
      TwoSwap(c, t2.left, t1);
      m, l', mt, lt, k1 := CancelInPlace(op, p1, l, t1, t2.left);
      ghost var c1, n1: int := cells, transCount;
      CancelledSize(op, t1, t2.left, mt, lt, n1 - n0);
      SidesSwap(c, c1, Ids(t1), Ids(t2.left), Ids(mt), Ids(lt), k1);
      TwoSwap(c1, mt, lt);
      AfterFirst(c, c1, t2, t1, lt, mt, k1);
      TwoSwap(c1, t2.right, mt);
      q1, r', u1, rt, k2 := CancelInPlace(op, m, r, mt, t2.right);
      ghost var c2 := cells;
      SidesSwap(c1, c2, Ids(mt), Ids(t2.right), Ids(u1), Ids(rt), k2);
      TwoSwap(c2, u1, rt);
      Untouched(c1, c2, Ids(t2.right) + Ids(mt), Ids(rt) + Ids(u1), p2, k2);
      Write(p2, JunctCell(op, l', r'));
      Assembled(c, c1, c2, cells, t2, t1, lt, mt, rt, u1, k1, k2);
      q2, u2, k := p2, TJunct(p2, op, lt, rt), k1 + k2;
      CancelledSecond(op, t1, t2, mt, lt, u1, rt, n1 - n0, transCount - n1);
      CancelledParts(op, t1, t2.left, mt, lt, n1 - n0);
      JunctExpr(t2);
      JunctExpr(u2);
      LeakedSecond(op, ExprOf(t1), ExprOf(t2), ExprOf(mt), ExprOf(lt), ExprOf(u1), ExprOf(rt), k1, k2);
      SidesSwap(c, cells, Ids(t2), Ids(t1), Ids(u2), Ids(u1), k);
      TwoSwap(cells, u2, u1);
    }

    /** Two operands: equal ones are replaced by the neutral symbol. */
    method CancelLeaves(op: Junction, p1: Ptr, p2: Ptr, ghost t1: Tree, ghost t2: Tree)
      returns (q1: Ptr, q2: Ptr, ghost u1: Tree, ghost u2: Tree, ghost k: set<Ptr>)
      requires Two(cells, t1, t2) && t1.id == p1 && t2.id == p2
      requires !IsJunct(ExprOf(t1), op) && !IsJunct(ExprOf(t2), op)
      modifies this
      ensures Two(cells, u1, u2) && u1.id == q1 && u2.id == q2
      ensures Moves(old(cells), cells, Ids(t1) + Ids(t2), Ids(u1) + Ids(u2), k)
      ensures Cancelled(op, t1, t2, u1, u2, transCount - old(transCount))
      ensures Leaked(ExprOf(t1), ExprOf(t2), CancelCopies(op, ExprOf(t1), ExprOf(t2)), ExprOf(u1), ExprOf(u2), k)
      decreases Size(ExprOf(t1)) + Size(ExprOf(t2)), 3, 0
    {
      ghost var c := cells;
      hide *;
      TwoCells(c, t1, t2);
      var sameYn := cells[p1].SymCell? && cells[p2] == cells[p1] && (cells[p1].s == YES_SYM || cells[p1].s == NO_SYM);
      SameYn(t1, t2);
      CancelledLeaves(op, t1, t2);
      if sameYn {
        TwoStay(c, c, t1, t2, {});
        LeavesLeak(op, t1, t2, {});
        return p1, p2, t1, t2, {};
      }
      var equal: bool;
      ghost var k1: set<Ptr>;
      equal, k1 := EqInPlace(p1, p2, t1, t2);
      ghost var c1 := cells;
      TwoStay(c, c1, t1, t2, k1);
      LeavesLeak(op, t1, t2, k1);
      if !equal {
        return p1, p2, t1, t2, k1;
      }
      transCount := transCount + 1;
      TwoParts(c1, t1, t2);
      FreeTree(p1, t1);
      ghost var c2 := cells;
      RepBeside(c1, c2, Ids(t1), {}, t2, Negations(t1));
      FreeTree(p2, t2);
      ghost var c3 := cells;
      q1 := New(SymCell(NeutralSym(op)));
      ghost var c4 := cells;
      q2 := New(SymCell(NeutralSym(op)));
      u1, u2 := TSym(q1, NeutralSym(op)), TSym(q2, NeutralSym(op));
      SymCells(u1, u2);
      k := k1 + (Negations(t1) + Negations(t2));
      Replaced(c, c1, c2, c3, c4, cells, t1, t2, u1, u2, k1);
      ReplacedLeak(op, c1, t1, t2, u1, u2, k1);
    }

    /** expr_eq, which works on copies, frees them but for their negations, and
        restores the counter. */
    method EqInPlace(p1: Ptr, p2: Ptr, ghost t1: Tree, ghost t2: Tree) returns (equal: bool, ghost k: set<Ptr>)
      requires Two(cells, t1, t2) && t1.id == p1 && t2.id == p2
      modifies this
      ensures equal == ExprEq(ExprOf(t1), ExprOf(t2))
      ensures Moves(old(cells), cells, {}, {}, k) && transCount == old(transCount)
      ensures |k| == EqCopies(ExprOf(t1), ExprOf(t2))
      decreases Size(ExprOf(t1)) + Size(ExprOf(t2)), 2, 0
    {
      ghost var c := cells;
      TwoCells(c, t1, t2);
      NothingMoves(c);
      k := {};
      if cells[p1].NotCell? && cells[p2].NotCell? {
        TwoNots(c, t1, t2);
        equal, k := EqInPlace(cells[p1].arg, cells[p2].arg, t1.arg, t2.arg);
      } else if cells[p1].JunctCell? && cells[p2].JunctCell? && cells[p1].op == cells[p2].op {
        equal, k := EqByCancelling(p1, p2, t1, t2);
      } else {
        equal := (cells[p1].SymCell? || cells[p1].CompCell?) && cells[p1] == cells[p2];
      }
    }

    /** The case of two junctions of one kind. */
    method EqByCancelling(p1: Ptr, p2: Ptr, ghost t1: Tree, ghost t2: Tree) returns (equal: bool, ghost k: set<Ptr>)
      requires Two(cells, t1, t2) && t1.id == p1 && t2.id == p2
      requires ExprOf(t1).Junct? && ExprOf(t2).Junct? && ExprOf(t1).op == ExprOf(t2).op
      modifies this
      ensures equal == ExprEq(ExprOf(t1), ExprOf(t2))
      ensures Moves(old(cells), cells, {}, {}, k) && transCount == old(transCount)
      ensures |k| == EqCopies(ExprOf(t1), ExprOf(t2))
      decreases Size(ExprOf(t1)) + Size(ExprOf(t2)), 1, 3
    {
      hide *;
      ghost var c := cells;
      TwoParts(c, t1, t2);
      var e1, e2: Ptr;
      ghost var s1, s2, x1, x2: Tree;
      ghost var k1: set<Ptr>;
      e1, s1 := CopyTree(p1, t1);
      ghost var c1 := cells;
      RepBeside(c, c1, {}, Ids(s1), t2, {});
      e2, s2 := CopyTree(p2, t2);
      ghost var c2 := cells;
      TwoCopies(c, c1, c2, s1, s2);
      var oldCount := transCount;
      e1, e2, x1, x2, k1 := EliminateEqInPlace(e1, e2, s1, s2);
      ghost var c3 := cells;
      TwoCells(c3, x1, x2);
      JunctsEqual(t1, t2, x1, x2);
      equal := cells[e1].SymCell? && cells[e1] == cells[e2];
      TwoParts(c3, x1, x2);
      FreeTree(e1, x1);
      ghost var c4 := cells;
      RepBeside(c3, c4, Ids(x1), {}, x2, Negations(x1));
      FreeTree(e2, x2);
      k := k1 + (Negations(x1) + Negations(x2));
      CopiesGone(c, c2, c3, c4, cells, s1, s2, x1, x2, k1);
      SameJunct(t1, t2);
      CopiesLeak(c3, ExprOf(t1), ExprOf(t2), x1, x2, k1);
      transCount := oldCount;
    }

    /** The first pass of expr_eliminate_eq. */
    method FirstPass(p1: Ptr, p2: Ptr, ghost t1: Tree, ghost t2: Tree)
      returns (q1: Ptr, q2: Ptr, ghost u1: Tree, ghost u2: Tree, ghost k: set<Ptr>)
      requires Two(cells, t1, t2) && t1.id == p1 && t2.id == p2
      modifies this
      ensures Two(cells, u1, u2) && u1.id == q1 && u2.id == q2
      ensures Moves(old(cells), cells, Ids(t1) + Ids(t2), Ids(u1) + Ids(u2), k)
      ensures var r := CancelBoth(ExprOf(t1), ExprOf(t2)).0; ExprOf(u1) == r.e1 && ExprOf(u2) == r.e2
      ensures Leaked(ExprOf(t1), ExprOf(t2), FirstCopies(ExprOf(t1), ExprOf(t2)), ExprOf(u1), ExprOf(u2), k)
      decreases Size(ExprOf(t1)) + Size(ExprOf(t2)), 1, 0
    {
      ghost var c := cells;
      TwoCells(c, t1, t2);
      hide Moves, Rep, Ids, Two, CancelOperands, CancelCopies, Nots;
      CellKind(t1);
      if cells[p1].JunctCell? {
        q1, q2, u1, u2, k := CancelInPlace(cells[p1].op, p1, p2, t1, t2);
      } else {
        q1, q2, u1, u2, k := p1, p2, t1, t2, {};
        TwoStay(c, c, t1, t2, {});
      }
    }

    /** The second pass, for a second junction of the other kind. */
    method SecondPass(p1: Ptr, p2: Ptr, ghost t1: Tree, ghost t2: Tree)
      returns (q1: Ptr, q2: Ptr, ghost u1: Tree, ghost u2: Tree, ghost k: set<Ptr>)
      requires Two(cells, t1, t2) && t1.id == p1 && t2.id == p2
      modifies this
      ensures Two(cells, u1, u2) && u1.id == q1 && u2.id == q2
      ensures Moves(old(cells), cells, Ids(t1) + Ids(t2), Ids(u1) + Ids(u2), k)
      ensures var r := CancelOther(ExprOf(t1), ExprOf(t2)); ExprOf(u1) == r.e1 && ExprOf(u2) == r.e2
      ensures Leaked(ExprOf(t1), ExprOf(t2), SecondCopies(ExprOf(t1), ExprOf(t2)), ExprOf(u1), ExprOf(u2), k)
      decreases Size(ExprOf(t1)) + Size(ExprOf(t2)), 1, 0
    {
      ghost var c := cells;
      TwoCells(c, t1, t2);
      hide Moves, Rep, Ids, Two, CancelOperands, CancelCopies, Nots;
      CellKind(t1);
      CellKind(t2);
      if cells[p2].JunctCell? && !(cells[p1].JunctCell? && cells[p1].op == cells[p2].op) {
        q1, q2, u1, u2, k := CancelInPlace(cells[p2].op, p1, p2, t1, t2);
      } else {
        q1, q2, u1, u2, k := p1, p2, t1, t2, {};
        TwoStay(c, c, t1, t2, {});
      }
    }

    /** The two passes of expr_eliminate_eq. */
    method CancelPasses(p1: Ptr, p2: Ptr, ghost t1: Tree, ghost t2: Tree)
      returns (q1: Ptr, q2: Ptr, ghost u1: Tree, ghost u2: Tree, ghost k: set<Ptr>)
      requires Two(cells, t1, t2) && t1.id == p1 && t2.id == p2
      modifies this
      ensures Two(cells, u1, u2) && u1.id == q1 && u2.id == q2
      ensures Moves(old(cells), cells, Ids(t1) + Ids(t2), Ids(u1) + Ids(u2), k)
      ensures var r := CancelBoth(ExprOf(t1), ExprOf(t2)).1; ExprOf(u1) == r.e1 && ExprOf(u2) == r.e2
      ensures Leaked(ExprOf(t1), ExprOf(t2), BothCopies(ExprOf(t1), ExprOf(t2)), ExprOf(u1), ExprOf(u2), k)
      decreases Size(ExprOf(t1)) + Size(ExprOf(t2)), 1, 1
    {
      ghost var c := cells;
      hide *;
      ghost var s1, s2, k1, k2;
      q1, q2, s1, s2, k1 := FirstPass(p1, p2, t1, t2);
      ghost var c1 := cells;
      PassesSize(ExprOf(t1), ExprOf(t2));
      q1, q2, u1, u2, k2 := SecondPass(q1, q2, s1, s2);
      MovesThen(c, c1, cells, Ids(t1) + Ids(t2), Ids(s1) + Ids(s2), Ids(u1) + Ids(u2), k1, k2);
      k := k1 + k2;
      LeakedPasses(ExprOf(t1), ExprOf(t2), ExprOf(s1), ExprOf(s2), ExprOf(u1), ExprOf(u2), k1, k2);
    }

    /** expr_eliminate_eq. */
    method EliminateEqInPlace(p1: Ptr, p2: Ptr, ghost t1: Tree, ghost t2: Tree)
      returns (q1: Ptr, q2: Ptr, ghost u1: Tree, ghost u2: Tree, ghost k: set<Ptr>)
      requires Two(cells, t1, t2) && t1.id == p1 && t2.id == p2
      modifies this
      ensures Two(cells, u1, u2) && u1.id == q1 && u2.id == q2
      ensures Moves(old(cells), cells, Ids(t1) + Ids(t2), Ids(u1) + Ids(u2), k)
      ensures (ExprOf(u1), ExprOf(u2)) == EliminateEq(ExprOf(t1), ExprOf(t2))
      ensures Leaked(ExprOf(t1), ExprOf(t2), BothCopies(ExprOf(t1), ExprOf(t2)), ExprOf(u1), ExprOf(u2), k)
      decreases Size(ExprOf(t1)) + Size(ExprOf(t2)), 1, 2
    {
      ghost var c := cells;
      hide Moves, Rep, Ids, Two, EliminateYn, CancelBoth, BothCopies, Sums, Nots;
      ghost var x1, x2, k1, k2, k3;
      q1, q2, x1, x2, k1 := CancelPasses(p1, p2, t1, t2);
      ghost var c2 := cells;
      TwoParts(c2, x1, x2);
      u1, k2 := EliminateYnInPlace(q1, x1);
      ghost var c3 := cells;
      RepBeside(c2, c3, Ids(x1), Ids(u1), x2, k2);
      u2, k3 := EliminateYnInPlace(q2, x2);
      BothSimplified(c2, c3, cells, x1, x2, u1, u2, k2, k3);
      MovesThen(c, c2, cells, Ids(t1) + Ids(t2), Ids(x1) + Ids(x2), Ids(u1) + Ids(u2), k1, k2 + k3);
      k := k1 + (k2 + k3);
      SizesAdd(k1, k2, k3);
    }
  }

  // ----- two trees at a time -----

  /** Two trees that share no node. */
  ghost predicate Two(c: seq<Cell>, t1: Tree, t2: Tree) {
    Rep(c, t1) && Rep(c, t2) && Ids(t1) !! Ids(t2)
  }

  /** u1 and u2 are what cancellation leaves, n the growth of trans_count. */
  ghost predicate Cancelled(op: Junction, t1: Tree, t2: Tree, u1: Tree, u2: Tree, n: int) {
    var r := CancelOperands(op, ExprOf(t1), ExprOf(t2));
    ExprOf(u1) == r.e1 && ExprOf(u2) == r.e2 && n == r.count
  }

  lemma TwoCells(c: seq<Cell>, t1: Tree, t2: Tree)
    requires Two(c, t1, t2)
    ensures t1.id < |c| && t2.id < |c| && c[t1.id] == CellOf(t1) && c[t2.id] == CellOf(t2)
  {
  }

  lemma TwoParts(c: seq<Cell>, t1: Tree, t2: Tree)
    requires Two(c, t1, t2)
    ensures Rep(c, t1) && Rep(c, t2) && Ids(t1) !! Ids(t2) && Ids(t2) !! Ids(t1)
  {
  }

  lemma TwoSwap(c: seq<Cell>, t1: Tree, t2: Tree)
    requires Two(c, t1, t2)
    ensures Two(c, t2, t1)
  {
  }

  lemma SidesSwap(c: seq<Cell>, c': seq<Cell>, a: set<Ptr>, b: set<Ptr>, a': set<Ptr>, b': set<Ptr>, k: set<Ptr>)
    requires Moves(c, c', a + b, a' + b', k)
    ensures Moves(c, c', b + a, b' + a', k)
  {
    assert a + b == b + a && a' + b' == b' + a';
  }

  lemma NothingMoves(c: seq<Cell>)
    ensures Moves(c, c, {}, {}, {})
  {
  }

  /** Trees owned by others stay. */
  lemma TwoStay(c: seq<Cell>, c': seq<Cell>, t1: Tree, t2: Tree, k: set<Ptr>)
    requires Two(c, t1, t2) && ((c' == c && k == {}) || Moves(c, c', {}, {}, k))
    ensures Two(c', t1, t2) && Moves(c, c', Ids(t1) + Ids(t2), Ids(t1) + Ids(t2), k)
  {
    RepInside(c, t1);
    RepInside(c, t2);
    RepFrame(c, c', t1);
    RepFrame(c, c', t2);
  }

  lemma FirstOperands(c: seq<Cell>, t1: Tree, t2: Tree)
    requires Two(c, t1, t2) && t1.TJunct?
    ensures Two(c, t1.left, t2)
  {
  }

  /** After the left operand of t1 was cancelled against t2. */
  lemma AfterFirst(c: seq<Cell>, c1: seq<Cell>, t1: Tree, t2: Tree, l: Tree, m: Tree, k: set<Ptr>)
    requires Two(c, t1, t2) && t1.TJunct? && Two(c1, l, m)
    requires Moves(c, c1, Ids(t1.left) + Ids(t2), Ids(l) + Ids(m), k)
    ensures Two(c1, t1.right, m) && Ids(l) !! Ids(t1.right) && t1.id !in Ids(l) && t1.id !in Ids(t1.right) + Ids(m)
    ensures t1.id < |c1| && c1[t1.id] == CellOf(t1)
  {
    RepInside(c, t1);
    RepInside(c, t1.right);
    RepFrame(c, c1, t1.right);
  }

  lemma Untouched(c: seq<Cell>, c': seq<Cell>, a: set<Ptr>, b: set<Ptr>, p: Ptr, k: set<Ptr>)
    requires Moves(c, c', a, b, k) && p !in a && p < |c|
    ensures p < |c'| && c'[p] == c[p]
  {
  }

  /** Cancelling the left operand of t1 and then the right one. */
  lemma CancelledFirst(op: Junction, t1: Tree, t2: Tree, l: Tree, m: Tree, r: Tree, u: Tree, n1: int, n2: int)
    requires t1.TJunct? && t1.op == op && Cancelled(op, t1.left, t2, l, m, n1) && Cancelled(op, t1.right, m, r, u, n2)
    ensures Cancelled(op, t1, t2, TJunct(t1.id, op, l, r), u, n1 + n2)
  {
    hide ExprEq;
  }

  lemma CancelledSecond(op: Junction, t1: Tree, t2: Tree, m: Tree, l: Tree, u: Tree, r: Tree, n1: int, n2: int)
    requires t2.TJunct? && t2.op == op && !IsJunct(ExprOf(t1), op)
    requires Cancelled(op, t1, t2.left, m, l, n1) && Cancelled(op, m, t2.right, u, r, n2)
    ensures Cancelled(op, t1, t2, u, TJunct(t2.id, op, l, r), n1 + n2)
  {
    hide ExprEq;
  }

  lemma CancelledLeaves(op: Junction, t1: Tree, t2: Tree)
    requires !IsJunct(ExprOf(t1), op) && !IsJunct(ExprOf(t2), op)
    ensures !ExprEq(ExprOf(t1), ExprOf(t2)) || (ExprOf(t1) == ExprOf(t2) && IsYn(ExprOf(t1))) ==>
      Cancelled(op, t1, t2, t1, t2, 0)
    ensures ExprEq(ExprOf(t1), ExprOf(t2)) && !(ExprOf(t1) == ExprOf(t2) && IsYn(ExprOf(t1))) ==>
      forall p, q :: Cancelled(op, t1, t2, TSym(p, NeutralSym(op)), TSym(q, NeutralSym(op)), 1)
  {
    hide ExprEq;
  }

  /** Cancellation never grows a side. */
  lemma CancelledSize(op: Junction, t1: Tree, t2: Tree, u1: Tree, u2: Tree, n: int)
    requires Cancelled(op, t1, t2, u1, u2, n)
    ensures Size(ExprOf(u1)) <= Size(ExprOf(t1)) && Size(ExprOf(u2)) <= Size(ExprOf(t2)) && n >= 0
  {
    hide ExprEq;
  }

  lemma JunctSize(t: Tree)
    requires t.TJunct?
    ensures Size(ExprOf(t)) == 1 + Size(ExprOf(t.left)) + Size(ExprOf(t.right))
    ensures IsJunct(ExprOf(t), t.op) && CellOf(t) == JunctCell(t.op, t.left.id, t.right.id)
  {
  }

  /** Looking at two cells for the same y or n. */
  lemma SameYn(t1: Tree, t2: Tree)
    ensures ExprOf(t1) == ExprOf(t2) && IsYn(ExprOf(t1)) <==>
      CellOf(t1).SymCell? && CellOf(t2) == CellOf(t1) && (CellOf(t1).s == YES_SYM || CellOf(t1).s == NO_SYM)
  {
  }

  lemma JunctsEqual(t1: Tree, t2: Tree, x1: Tree, x2: Tree)
    requires ExprOf(t1).Junct? && ExprOf(t2).Junct? && ExprOf(t1).op == ExprOf(t2).op
    requires (ExprOf(x1), ExprOf(x2)) == EliminateEq(ExprOf(t1), ExprOf(t2))
    ensures ExprEq(ExprOf(t1), ExprOf(t2)) <==> CellOf(x1).SymCell? && CellOf(x1) == CellOf(x2)
  {
    hide CancelBoth;
  }

  lemma SymCells(t1: Tree, t2: Tree)
    requires t1.TSym? && t2.TSym?
    ensures CellOf(t1) == SymCell(t1.s) && CellOf(t2) == SymCell(t2.s)
  {
  }

  lemma CellKind(t: Tree)
    ensures CellOf(t).JunctCell? <==> ExprOf(t).Junct?
    ensures t.TJunct? <==> ExprOf(t).Junct?
    ensures CellOf(t).JunctCell? ==> CellOf(t).op == ExprOf(t).op
    ensures CellOf(t).SymCell? <==> ExprOf(t).Symbol?
    ensures CellOf(t).SymCell? ==> CellOf(t).s == ExprOf(t).sym
  {
  }

  /** Both operands of t1 were cancelled against t2, and its cell points at what
      is left of them. */
  lemma Assembled(c: seq<Cell>, c1: seq<Cell>, c2: seq<Cell>, c3: seq<Cell>, t1: Tree, t2: Tree, l: Tree, m: Tree,
                  r: Tree, u: Tree,
                  k1: set<Ptr>, k2: set<Ptr>)
    requires Two(c, t1, t2) && t1.TJunct? && Two(c1, l, m) && Two(c2, r, u)
    requires Moves(c, c1, Ids(t1.left) + Ids(t2), Ids(l) + Ids(m), k1)
    requires Moves(c1, c2, Ids(t1.right) + Ids(m), Ids(r) + Ids(u), k2)
    requires t1.id < |c2| && c3 == c2[t1.id := JunctCell(t1.op, l.id, r.id)]
    ensures var n := TJunct(t1.id, t1.op, l, r);
      Two(c3, n, u) && Moves(c, c3, Ids(t1) + Ids(t2), Ids(n) + Ids(u), k1 + k2) && Sums(k1, k2)
  {
    hide Moves, Rep, Ids, Two, Sums;
    var id, n := t1.id, TJunct(t1.id, t1.op, l, r);
    AfterFirst(c, c1, t1, t2, l, m, k1);
    TwoInside(c, t1, t2);
    TwoInside(c1, l, m);
    TwoInside(c1, t1.right, m);
    TwoInside(c2, r, u);
    RightApart(c, t1, t2);
    MovesBeside(c, c1, Ids(t1.left) + Ids(t2), Ids(l) + Ids(m), Ids(t1.right) + {id}, k1);
    MovesBeside(c1, c2, Ids(t1.right) + Ids(m), Ids(r) + Ids(u), Ids(l) + {id}, k2);
    WriteMoves(c2, c3, id);
    MovesBeside(c2, c3, {id}, {id}, Ids(r) + Ids(u) + Ids(l), {});
    AssembledSets(t1, Ids(t1), Ids(t2), l, Ids(m), r, Ids(u), n);
    MovesThen(c, c1, c2, Ids(t1) + Ids(t2), Ids(l) + Ids(m) + (Ids(t1.right) + {id}),
              Ids(r) + Ids(u) + (Ids(l) + {id}), k1, k2);
    MovesThen(c, c2, c3, Ids(t1) + Ids(t2), Ids(r) + Ids(u) + (Ids(l) + {id}), Ids(n) + Ids(u), k1 + k2, {});
    NothingMore(k1 + k2);
    RepBeside(c1, c2, Ids(t1.right) + Ids(m), Ids(r) + Ids(u), l, k2) by { TwoParts(c1, l, m); }
    TwoParts(c2, r, u);
    RepBeside(c2, c3, {id}, {id}, l, {});
    RepBeside(c2, c3, {id}, {id}, r, {});
    RepBeside(c2, c3, {id}, {id}, u, {});
    JunctRep(c3, n);
    TwoOf(c3, n, u);
  }

  lemma NothingMore(k: set<Ptr>)
    ensures k + {} == k
  {
  }

  lemma WriteMoves(c: seq<Cell>, c': seq<Cell>, p: Ptr)
    requires p < |c| && p < |c'| && c' == c[p := c'[p]]
    ensures Moves(c, c', {p}, {p}, {})
  {
  }

  lemma JunctRep(c: seq<Cell>, n: Tree)
    requires n.TJunct? && n.id < |c| && c[n.id] == CellOf(n) && Rep(c, n.left) && Rep(c, n.right)
    requires n.id !in Ids(n.left) && n.id !in Ids(n.right) && Ids(n.left) !! Ids(n.right)
    ensures Rep(c, n) && Ids(n) == {n.id} + Ids(n.left) + Ids(n.right)
  {
  }

  lemma TwoOf(c: seq<Cell>, t1: Tree, t2: Tree)
    requires Rep(c, t1) && Rep(c, t2) && Ids(t1) !! Ids(t2)
    ensures Two(c, t1, t2)
  {
  }

  lemma AssembledSets(t1: Tree, a: set<Ptr>, t2: set<Ptr>, l: Tree, m: set<Ptr>, r: Tree, u: set<Ptr>, n: Tree)
    requires t1.TJunct? && n == TJunct(t1.id, t1.op, l, r) && a == Ids(t1)
    ensures var id, al, ar, nl, nr := t1.id, Ids(t1.left), Ids(t1.right), Ids(l), Ids(r);
      && al + t2 + (ar + {id}) == a + t2
      && ar + m + (nl + {id}) == nl + m + (ar + {id})
      && {id} + (nr + u + nl) == nr + u + (nl + {id}) == Ids(n) + u
  {
    JunctIds(t1);
    JunctIds(n);
    hide Ids;
    Regroup({t1.id}, Ids(t1.left), Ids(t1.right), t2);
    Regroup({t1.id}, Ids(l), Ids(t1.right), m);
    Regroup({t1.id}, Ids(l), Ids(r), u);
  }

  lemma JunctIds(t: Tree)
    requires t.TJunct?
    ensures Ids(t) == {t.id} + Ids(t.left) + Ids(t.right)
  {
  }

  lemma Regroup(i: set<Ptr>, a: set<Ptr>, b: set<Ptr>, d: set<Ptr>)
    ensures a + d + (b + i) == i + a + b + d == b + d + (a + i)
    ensures i + (b + d + a) == b + d + (a + i)
  {
  }

  lemma RightApart(c: seq<Cell>, t1: Tree, t2: Tree)
    requires Two(c, t1, t2) && t1.TJunct?
    ensures Ids(t1.left) + Ids(t2) !! Ids(t1.right) + {t1.id}
    ensures forall x :: x in Ids(t1.right) + {t1.id} ==> x < |c|
  {
    RepInside(c, t1);
  }

  /** Two equal operands gave way to two fresh symbols. */
  lemma Replaced(c: seq<Cell>, c1: seq<Cell>, c2: seq<Cell>, c3: seq<Cell>, c4: seq<Cell>, c5: seq<Cell>,
                 t1: Tree, t2: Tree, u1: Tree, u2: Tree, k: set<Ptr>)
    requires Two(c1, t1, t2) && Moves(c, c1, Ids(t1) + Ids(t2), Ids(t1) + Ids(t2), k)
    requires Moves(c1, c2, Ids(t1), {}, Negations(t1)) && Moves(c2, c3, Ids(t2), {}, Negations(t2))
    requires u1.TSym? && u1.id == |c3| && c4 == c3 + [CellOf(u1)] && u2.TSym? && u2.id == |c4|
    requires c5 == c4 + [CellOf(u2)]
    ensures Two(c5, u1, u2) && Sums(k, Negations(t1) + Negations(t2)) && Sums(Negations(t1), Negations(t2))
    ensures Moves(c, c5, Ids(t1) + Ids(t2), Ids(u1) + Ids(u2), k + (Negations(t1) + Negations(t2)))
  {
    hide Sums, Negations;
    RepInside(c1, t1);
    RepInside(c1, t2);
    MovesBoth(c1, c2, c3, Ids(t1), {}, Ids(t2), {}, Negations(t1), Negations(t2));
    NoneLeft({}, {});
    MovesThen(c, c1, c3, Ids(t1) + Ids(t2), Ids(t1) + Ids(t2), {} + {}, k, Negations(t1) + Negations(t2));
    TwoFresh(c, c3, c4, c5, Ids(t1) + Ids(t2), k + (Negations(t1) + Negations(t2)), u1, u2);
  }

  lemma TwoFresh(c: seq<Cell>, c3: seq<Cell>, c4: seq<Cell>, c5: seq<Cell>, a: set<Ptr>, k: set<Ptr>, u1: Tree,
                 u2: Tree)
    requires Moves(c, c3, a, {}, k)
    requires u1.TSym? && u1.id == |c3| && c4 == c3 + [CellOf(u1)] && u2.TSym? && u2.id == |c4|
    requires c5 == c4 + [CellOf(u2)]
    ensures Two(c5, u1, u2) && Moves(c, c5, a, Ids(u1) + Ids(u2), k)
  {
  }

  // ----- counting what is leaked -----

  /** The operands of t were simplified and then t itself. */
  lemma YnCounted(t: Tree, n: Tree, t': Tree, k1: set<Ptr>, k2: set<Ptr>, k3: set<Ptr>)
    requires t.TJunct? && n.TJunct? && n.op == t.op && n.id == t.id
    requires Nots(ExprOf(t.left)) == Nots(ExprOf(n.left)) + |k1|
    requires Nots(ExprOf(t.right)) == Nots(ExprOf(n.right)) + |k2|
    requires Nots(ExprOf(n)) == Nots(ExprOf(t')) + |k3| && Sums(k1, k2) && Sums(k1 + k2, k3)
    requires ExprOf(n.left) == EliminateYn(ExprOf(t.left)) && ExprOf(n.right) == EliminateYn(ExprOf(t.right))
    requires ExprOf(t') == DropConstants(n.op, ExprOf(n.left), ExprOf(n.right))
    ensures Nots(ExprOf(t)) == Nots(ExprOf(t')) + |k1 + k2 + k3|
    ensures ExprOf(t') == EliminateYn(ExprOf(t))
  {
    hide Sums, DropConstants;
    SumSize(k1, k2);
    SumSize(k1 + k2, k3);
  }

  lemma LeafOperand(c: seq<Cell>, leaf: Tree, s: Tree, p: Ptr)
    requires leaf.TSym? && Rep(c, leaf)
    ensures Ids(leaf) == {leaf.id} && leaf.id < |c| && c[leaf.id] != Free
    ensures ExprOf(s.(id := p)) == ExprOf(s)
  {
  }

  lemma OneLess(n: Tree)
    requires n.TJunct?
    ensures n.left.TSym? ==> Nots(ExprOf(n)) == Nots(ExprOf(n.right))
    ensures n.right.TSym? ==> Nots(ExprOf(n)) == Nots(ExprOf(n.left))
  {
  }

  lemma NegationLeaked(c: seq<Cell>, c': seq<Cell>, t: Tree)
    requires Rep(c, t) && t.TNot? && Moves(c, c', Ids(t.arg), {}, Negations(t.arg))
    ensures Moves(c, c', Ids(t), {}, Negations(t))
  {
    RepInside(c, t);
  }

  lemma BothFreed(c: seq<Cell>, c1: seq<Cell>, c2: seq<Cell>, t: Tree)
    requires Rep(c, t) && t.TJunct?
    requires Moves(c, c1, Ids(t.left), {}, Negations(t.left)) && Moves(c1, c2, Ids(t.right), {}, Negations(t.right))
    ensures Moves(c, c2, Ids(t.left) + Ids(t.right), {}, Negations(t)) && t.id < |c2| && c2[t.id] == CellOf(t)
  {
    hide Sums;
    RepInside(c, t);
    MovesBoth(c, c1, c2, Ids(t.left), {}, Ids(t.right), {}, Negations(t.left), Negations(t.right));
    NoneLeft({}, {});
  }

  lemma JunctionFreed(c: seq<Cell>, c2: seq<Cell>, c3: seq<Cell>, t: Tree)
    requires Rep(c, t) && t.TJunct? && Moves(c, c2, Ids(t.left) + Ids(t.right), {}, Negations(t))
    requires t.id < |c2| && c3 == c2[t.id := Free]
    ensures Moves(c, c3, Ids(t), {}, Negations(t))
  {
    RepInside(c, t);
  }

  lemma Collapsed(c: seq<Cell>, c2: seq<Cell>, c3: seq<Cell>, t: Tree, t': Tree)
    requires Rep(c, t) && t.TJunct? && Moves(c, c2, Ids(t.left) + Ids(t.right), {}, Negations(t))
    requires t'.TSym? && t'.id == t.id && t.id < |c2| && c3 == c2[t.id := CellOf(t')]
    ensures Rep(c3, t') && Moves(c, c3, Ids(t), Ids(t'), Negations(t))
  {
    RepInside(c, t);
  }

  lemma LeakedFirst(op: Junction, e1: Expr, e2: Expr, l: Expr, m: Expr, r: Expr, u: Expr, k1: set<Ptr>, k2: set<Ptr>)
    requires IsJunct(e1, op) && m == CancelOperands(op, e1.left, e2).e2
    requires Leaked(e1.left, e2, CancelCopies(op, e1.left, e2), l, m, k1)
    requires Leaked(e1.right, m, CancelCopies(op, e1.right, m), r, u, k2) && Sums(k1, k2)
    ensures Leaked(e1, e2, CancelCopies(op, e1, e2), Junct(op, l, r), u, k1 + k2)
  {
    hide CancelOperands, EqCopies, Sums;
    SumSize(k1, k2);
  }

  lemma LeakedSecond(op: Junction, e1: Expr, e2: Expr, m: Expr, l: Expr, u: Expr, r: Expr, k1: set<Ptr>, k2: set<Ptr>)
    requires IsJunct(e2, op) && !IsJunct(e1, op) && m == CancelOperands(op, e1, e2.left).e1
    requires Leaked(e1, e2.left, CancelCopies(op, e1, e2.left), m, l, k1)
    requires Leaked(m, e2.right, CancelCopies(op, m, e2.right), u, r, k2) && Sums(k1, k2)
    ensures Leaked(e1, e2, CancelCopies(op, e1, e2), u, Junct(op, l, r), k1 + k2)
  {
    hide CancelOperands, EqCopies, Sums;
    SumSize(k1, k2);
  }

  lemma CancelledParts(op: Junction, t1: Tree, t2: Tree, u1: Tree, u2: Tree, n: int)
    requires Cancelled(op, t1, t2, u1, u2, n)
    ensures ExprOf(u1) == CancelOperands(op, ExprOf(t1), ExprOf(t2)).e1
    ensures ExprOf(u2) == CancelOperands(op, ExprOf(t1), ExprOf(t2)).e2
  {
  }

  lemma JunctExpr(t: Tree)
    requires t.TJunct?
    ensures ExprOf(t) == Junct(t.op, ExprOf(t.left), ExprOf(t.right)) && IsJunct(ExprOf(t), t.op)
  {
  }

  function CancelOther(e1: Expr, e2: Expr): Pair {
    if e2.Junct? && !IsJunct(e1, e2.op) then CancelOperands(e2.op, e1, e2) else Pair(e1, e2, e1, 0)
  }

  lemma PassesSize(e1: Expr, e2: Expr)
    ensures var r := CancelBoth(e1, e2);
      Size(r.0.e1) <= Size(e1) && Size(r.0.e2) <= Size(e2) && r.1 == CancelOther(r.0.e1, r.0.e2)
  {
    hide CancelCopies, ExprEq;
  }

  lemma LeakedPasses(e1: Expr, e2: Expr, s1: Expr, s2: Expr, u1: Expr, u2: Expr, k1: set<Ptr>, k2: set<Ptr>)
    requires s1 == CancelBoth(e1, e2).0.e1 && s2 == CancelBoth(e1, e2).0.e2 && Sums(k1, k2)
    requires Leaked(e1, e2, FirstCopies(e1, e2), s1, s2, k1) && Leaked(s1, s2, SecondCopies(s1, s2), u1, u2, k2)
    ensures Leaked(e1, e2, BothCopies(e1, e2), u1, u2, k1 + k2)
  {
    hide CancelBoth, FirstCopies, SecondCopies, Sums;
    SumSize(k1, k2);
  }

  /** Two operands that stay. */
  lemma LeavesLeak(op: Junction, t1: Tree, t2: Tree, k: set<Ptr>)
    requires !IsJunct(ExprOf(t1), op) && !IsJunct(ExprOf(t2), op)
    requires |k| == if ExprOf(t1) == ExprOf(t2) && IsYn(ExprOf(t1)) then 0 else EqCopies(ExprOf(t1), ExprOf(t2))
    ensures Leaked(ExprOf(t1), ExprOf(t2), CancelCopies(op, ExprOf(t1), ExprOf(t2)), ExprOf(t1), ExprOf(t2), k)
  {
    hide EqCopies;
  }

  lemma ReplacedLeak(op: Junction, c: seq<Cell>, t1: Tree, t2: Tree, u1: Tree, u2: Tree, k: set<Ptr>)
    requires Two(c, t1, t2) && u1.TSym? && u2.TSym?
    requires Leaked(ExprOf(t1), ExprOf(t2), CancelCopies(op, ExprOf(t1), ExprOf(t2)), ExprOf(t1), ExprOf(t2), k)
    requires Sums(k, Negations(t1) + Negations(t2)) && Sums(Negations(t1), Negations(t2))
    ensures Leaked(ExprOf(t1), ExprOf(t2), CancelCopies(op, ExprOf(t1), ExprOf(t2)), ExprOf(u1), ExprOf(u2),
                   k + (Negations(t1) + Negations(t2)))
  {
    hide CancelCopies, Negations, Rep, Ids, Sums;
    SumSize(Negations(t1), Negations(t2));
    SumSize(k, Negations(t1) + Negations(t2));
    NegationsSize(c, t1);
    NegationsSize(c, t2);
  }

  lemma NegationsSize(c: seq<Cell>, t: Tree)
    requires Rep(c, t)
    ensures |Negations(t)| == Nots(ExprOf(t))
  {
    hide Rep;
    NegationsCount(c, t);
  }

  lemma SameJunct(t1: Tree, t2: Tree)
    requires ExprOf(t1).Junct? && ExprOf(t2).Junct? && ExprOf(t1).op == ExprOf(t2).op
    ensures IsJunct(ExprOf(t2), ExprOf(t1).op)
  {
  }

  lemma SizesAdd(k: set<Ptr>, a: set<Ptr>, b: set<Ptr>)
    requires Sums(a, b) && Sums(k, a + b)
    ensures |k + (a + b)| == |k| + |a| + |b|
  {
  }

  /** All negations of the two copies are leaked, and those of the copies made of
      their parts. */
  lemma CopiesLeak(c: seq<Cell>, e1: Expr, e2: Expr, x1: Tree, x2: Tree, k: set<Ptr>)
    requires Two(c, x1, x2) && e1.Junct? && IsJunct(e2, e1.op)
    requires Leaked(e1, e2, BothCopies(e1, e2), ExprOf(x1), ExprOf(x2), k)
    requires Sums(k, Negations(x1) + Negations(x2)) && Sums(Negations(x1), Negations(x2))
    ensures |k + (Negations(x1) + Negations(x2))| == EqCopies(e1, e2)
  {
    hide *;
    TwoParts(c, x1, x2);
    NegationsSize(c, x1);
    NegationsSize(c, x2);
    SizesAdd(k, Negations(x1), Negations(x2));
    CopiesSum(e1, e2, ExprOf(x1), ExprOf(x2), k);
  }

  lemma CopiesSum(e1: Expr, e2: Expr, x1: Expr, x2: Expr, k: set<Ptr>)
    requires e1.Junct? && IsJunct(e2, e1.op) && Leaked(e1, e2, BothCopies(e1, e2), x1, x2, k)
    ensures |k| + Nots(x1) + Nots(x2) == EqCopies(e1, e2)
  {
    hide BothCopies, Nots;
  }

  lemma TwoNots(c: seq<Cell>, t1: Tree, t2: Tree)
    requires Two(c, t1, t2) && c[t1.id].NotCell? && c[t2.id].NotCell?
    ensures t1.TNot? && t2.TNot? && Two(c, t1.arg, t2.arg)
  {
  }

  lemma TwoCopies(c: seq<Cell>, c1: seq<Cell>, c2: seq<Cell>, s1: Tree, s2: Tree)
    requires Moves(c, c1, {}, Ids(s1), {}) && Rep(c1, s1) && Moves(c1, c2, {}, Ids(s2), {}) && Rep(c2, s2)
    ensures Two(c2, s1, s2) && Moves(c, c2, {}, Ids(s1) + Ids(s2), {})
  {
    RepInside(c1, s1);
    RepFrame(c1, c2, s1);
  }

  lemma CopiesGone(c: seq<Cell>, c2: seq<Cell>, c3: seq<Cell>, c4: seq<Cell>, c5: seq<Cell>, s1: Tree, s2: Tree,
                   x1: Tree, x2: Tree,
                   k: set<Ptr>)
    requires Moves(c, c2, {}, Ids(s1) + Ids(s2), {}) && Moves(c2, c3, Ids(s1) + Ids(s2), Ids(x1) + Ids(x2), k)
    requires Two(c3, x1, x2) && Moves(c3, c4, Ids(x1), {}, Negations(x1)) && Moves(c4, c5, Ids(x2), {}, Negations(x2))
    ensures Moves(c, c5, {}, {}, k + (Negations(x1) + Negations(x2)))
    ensures Sums(k, Negations(x1) + Negations(x2)) && Sums(Negations(x1), Negations(x2))
  {
    hide Moves, Negations, Ids;
    TwoInside(c3, x1, x2);
    MovesThen(c, c2, c3, {}, Ids(s1) + Ids(s2), Ids(x1) + Ids(x2), {}, k);
    MovesBoth(c3, c4, c5, Ids(x1), {}, Ids(x2), {}, Negations(x1), Negations(x2));
    NoneLeft({}, {});
    MovesThen(c, c3, c5, {}, Ids(x1) + Ids(x2), {} + {}, k, Negations(x1) + Negations(x2));
  }

  lemma TwoInside(c: seq<Cell>, t1: Tree, t2: Tree)
    requires Two(c, t1, t2)
    ensures Ids(t1) !! Ids(t2) && forall x :: x in Ids(t1) + Ids(t2) ==> x < |c|
  {
    RepInside(c, t1);
    RepInside(c, t2);
  }

  lemma BothSimplified(c2: seq<Cell>, c3: seq<Cell>, c4: seq<Cell>, x1: Tree, x2: Tree, u1: Tree, u2: Tree,
                       k1: set<Ptr>, k2: set<Ptr>)
    requires Two(c2, x1, x2) && Moves(c2, c3, Ids(x1), Ids(u1), k1) && Rep(c3, u1)
    requires Moves(c3, c4, Ids(x2), Ids(u2), k2) && Rep(c4, u2)
    ensures Two(c4, u1, u2) && Moves(c2, c4, Ids(x1) + Ids(x2), Ids(u1) + Ids(u2), k1 + k2) && Sums(k1, k2)
  {
    hide Sums;
    RepInside(c2, x2);
    MovesBoth(c2, c3, c4, Ids(x1), Ids(u1), Ids(x2), Ids(u2), k1, k2);
    RepFrame(c3, c4, u1);
  }

  lemma CopiedNot(c: seq<Cell>, c1: seq<Cell>, c2: seq<Cell>, a: Tree, q: Ptr)
    requires Moves(c, c1, {}, Ids(a), {}) && Rep(c1, a) && q == |c1| && c2 == c1 + [NotCell(a.id)]
    ensures Rep(c2, TNot(q, a)) && Moves(c, c2, {}, Ids(TNot(q, a)), {})
  {
    RepInside(c1, a);
    RepFrame(c1, c2, a);
  }

  lemma CopiedJunct(c: seq<Cell>, c1: seq<Cell>, c2: seq<Cell>, c3: seq<Cell>, op: Junction, l: Tree, r: Tree, q: Ptr)
    requires Moves(c, c1, {}, Ids(l), {}) && Rep(c1, l) && Moves(c1, c2, {}, Ids(r), {}) && Rep(c2, r)
    requires q == |c2| && c3 == c2 + [JunctCell(op, l.id, r.id)]
    ensures Rep(c3, TJunct(q, op, l, r)) && Moves(c, c3, {}, Ids(TJunct(q, op, l, r)), {})
  {
    RepInside(c1, l);
    RepInside(c2, r);
    RepFrame(c1, c2, l);
    RepFrame(c2, c3, l);
    RepFrame(c2, c3, r);
  }

  /** What expr_transform makes of a negation whose operand is transformed. */
  function TransformedNegation(syms: Symbols, a: Expr): Expr {
    match a
    case Not(x) => Transform(syms, x)
    case Comp(rel, l, r) => Comp(Negated(rel), l, r)
    case Junct(op, x, y) => Transform(syms, Distribute(op, x, y))
    case Symbol(s) =>
      if s == YES_SYM then Symbol(NO_SYM)
      else if s == NO_SYM then Symbol(YES_SYM)
      else if s == MOD_SYM then Symbol(MOD_SYM)
      else Not(Symbol(s))
  }

  lemma NotParts(c: seq<Cell>, t: Tree)
    requires Rep(c, t) && c[t.id].NotCell?
    ensures t.TNot? && c[t.id] == NotCell(t.arg.id) && Rep(c, t.arg) && t.id !in Ids(t.arg)
  {
  }

  lemma CellAt(c: seq<Cell>, t: Tree)
    requires Rep(c, t)
    ensures t.id < |c| && c[t.id] == CellOf(t)
  {
  }

  lemma DoubleNegation(c: seq<Cell>, t: Tree)
    requires Rep(c, t) && t.TNot? && t.arg.TNot?
    ensures t.id < |c| && t.arg.id < |c| && t.id != t.arg.id && c[t.id] != Free && c[t.arg.id] != Free
  {
  }

  /** !!a: both negations are gone. */
  lemma Peeled(c: seq<Cell>, c': seq<Cell>, t: Tree)
    requires Rep(c, t) && t.TNot? && t.arg.TNot? && t.arg.id < |c| && t.id < |c|
    requires c' == c[t.arg.id := Free][t.id := Free]
    ensures Rep(c', t.arg.arg) && Moves(c, c', Ids(t), Ids(t.arg.arg), {})
  {
    RepInside(c, t);
    RepInside(c, t.arg.arg);
    RepFrame(c, c', t.arg.arg);
  }

  lemma Distributed(c: seq<Cell>, c': seq<Cell>, t: Tree, n: Ptr)
    requires Rep(c, t) && t.TNot? && t.arg.TJunct? && n == |c| && t.id < |c| && t.arg.id < |c|
    requires var x, y := t.arg.left, t.arg.right;
      c' == (c + [NotCell(y.id)])[t.id := JunctCell(Dual(t.arg.op), t.arg.id, n)][t.arg.id := NotCell(x.id)]
    ensures var t' := TJunct(t.id, Dual(t.arg.op), TNot(t.arg.id, t.arg.left), TNot(n, t.arg.right));
      Rep(c', t') && Moves(c, c', Ids(t), Ids(t'), {})
  {
    RepInside(c, t);
    RepInside(c, t.arg.left);
    RepInside(c, t.arg.right);
    RepFrame(c, c', t.arg.left);
    RepFrame(c, c', t.arg.right);
  }

  lemma StillThere(c: seq<Cell>, c1: seq<Cell>, c2: seq<Cell>, t: Tree, l: Tree, r: Tree)
    requires Rep(c, t) && t.TJunct?
    requires Moves(c, c1, Ids(t.left), Ids(l), {}) && Moves(c1, c2, Ids(t.right), Ids(r), {})
    ensures t.id < |c2| && c2[t.id] == CellOf(t)
  {
  }

  lemma NotStillThere(c: seq<Cell>, c1: seq<Cell>, t: Tree, a: Tree)
    requires Rep(c, t) && t.TNot? && Moves(c, c1, Ids(t.arg), Ids(a), {})
    ensures t.id < |c1| && c1[t.id] == CellOf(t)
  {
  }

  lemma SamePointer(c: seq<Cell>, c1: seq<Cell>, t: Tree, a: Tree)
    requires Rep(c, t) && t.TNot? && a.id == t.arg.id && Moves(c, c1, Ids(t.arg), Ids(a), {})
    ensures t.id < |c1| && c1 == c1[t.id := NotCell(a.id)]
  {
  }

  /** The same as Rebuilt for a negation. */
  lemma RebuiltNot(c: seq<Cell>, c1: seq<Cell>, c2: seq<Cell>, t: Tree, a: Tree)
    requires Rep(c, t) && t.TNot?
    requires Moves(c, c1, Ids(t.arg), Ids(a), {}) && Rep(c1, a)
    requires t.id < |c1| && c2 == c1[t.id := NotCell(a.id)]
    ensures Rep(c2, TNot(t.id, a)) && Moves(c, c2, Ids(t), Ids(TNot(t.id, a)), {})
  {
    RepInside(c, t);
    RepInside(c1, a);
    RepFrame(c1, c2, a);
  }

  lemma SamePointers(c: seq<Cell>, c1: seq<Cell>, c2: seq<Cell>, t: Tree, l: Tree, r: Tree, k1: set<Ptr>, k2: set<Ptr>)
    requires Rep(c, t) && t.TJunct? && l.id == t.left.id && r.id == t.right.id
    requires Moves(c, c1, Ids(t.left), Ids(l), k1) && Moves(c1, c2, Ids(t.right), Ids(r), k2)
    ensures t.id < |c2| && c2 == c2[t.id := JunctCell(t.op, l.id, r.id)]
  {
  }

  lemma MovesNothing(c: seq<Cell>, t: Tree)
    requires Rep(c, t)
    ensures Moves(c, c, Ids(t), Ids(t), {})
  {
    RepInside(c, t);
  }

  lemma OneCell(c: seq<Cell>, c': seq<Cell>, t: Tree, t': Tree)
    requires t'.TSym? && t.TComp? && t.id == t'.id && t.id < |c'| && c'[t.id] == CellOf(t')
    requires Moves(c, c', {t.id}, {t.id}, {})
    ensures Rep(c', t') && Moves(c, c', Ids(t), Ids(t'), {})
  {
  }

  lemma RepParts(c: seq<Cell>, t: Tree)
    requires Rep(c, t) && c[t.id].JunctCell?
    ensures t.TJunct? && c[t.id] == JunctCell(t.op, t.left.id, t.right.id)
    ensures Rep(c, t.left) && Rep(c, t.right) && Ids(t.left) !! Ids(t.right) && Ids(t.right) !! Ids(t.left)
  {
  }

  lemma TakenOver(c: seq<Cell>, c': seq<Cell>, p: Ptr, q: Tree)
    requires Rep(c, q) && p !in Ids(q) && p < |c| && q.id < |c| && c' == c[p := c[q.id]][q.id := Free]
    ensures Rep(c', q.(id := p)) && Moves(c, c', {p} + Ids(q), Ids(q.(id := p)), {})
  {
    RepInside(c, q);
    match q
    case TNot(_, a) =>
      RepInside(c, a);
      RepFrame(c, c', a);
    case TJunct(_, _, l, r) =>
      RepInside(c, l);
      RepInside(c, r);
      RepFrame(c, c', l);
      RepFrame(c, c', r);
    case _ =>
  }

  /** A junction whose operands were rewritten one after the other, and whose own
      cell then points at the results. */
  lemma Rebuilt(c: seq<Cell>, c1: seq<Cell>, c2: seq<Cell>, c3: seq<Cell>, t: Tree, l: Tree, r: Tree,
                k1: set<Ptr>, k2: set<Ptr>)
    requires Rep(c, t) && t.TJunct?
    requires Moves(c, c1, Ids(t.left), Ids(l), k1) && Rep(c1, l)
    requires Moves(c1, c2, Ids(t.right), Ids(r), k2) && Rep(c2, r)
    requires t.id < |c2| && c3 == c2[t.id := JunctCell(t.op, l.id, r.id)]
    ensures Rep(c3, TJunct(t.id, t.op, l, r))
    ensures Moves(c, c3, Ids(t), Ids(TJunct(t.id, t.op, l, r)), k1 + k2) && Sums(k1, k2)
  {
    hide Moves, Rep, Ids, Sums;
    var id, n := t.id, TJunct(t.id, t.op, l, r);
    OperandsApart(c, t);
    MovesBoth(c, c1, c2, Ids(t.left), Ids(l), Ids(t.right), Ids(r), k1, k2);
    MovesBeside(c, c2, Ids(t.left) + Ids(t.right), Ids(l) + Ids(r), {id}, k1 + k2);
    BoundsAfter(c, c2, Ids(t.left) + Ids(t.right), Ids(l) + Ids(r), k1 + k2);
    WriteMoves(c2, c3, id);
    MovesBeside(c2, c3, {id}, {id}, Ids(l) + Ids(r), {});
    JunctIds(t);
    JunctIds(n);
    Permuted({id}, Ids(t.left), Ids(t.right));
    Permuted({id}, Ids(l), Ids(r));
    MovesThen(c, c2, c3, Ids(t), Ids(n), Ids(n), k1 + k2, {});
    NothingMore(k1 + k2);
    RepBeside(c1, c2, Ids(t.right), Ids(r), l, k2);
    RepBeside(c2, c3, {id}, {id}, l, {});
    RepBeside(c2, c3, {id}, {id}, r, {});
    JunctRep(c3, n);
  }

  lemma Permuted(i: set<Ptr>, a: set<Ptr>, b: set<Ptr>)
    ensures i + (a + b) == i + a + b == a + b + i
  {
  }

  lemma OperandsApart(c: seq<Cell>, t: Tree)
    requires Rep(c, t) && t.TJunct?
    ensures Ids(t.left) !! Ids(t.right) && Ids(t.left) + Ids(t.right) !! {t.id} && t.id < |c|
    ensures forall x :: x in Ids(t.left) + Ids(t.right) ==> x < |c|
  {
    RepInside(c, t);
  }

  lemma BoundsAfter(c: seq<Cell>, c': seq<Cell>, a: set<Ptr>, b: set<Ptr>, k: set<Ptr>)
    requires Moves(c, c', a, b, k)
    ensures |c| <= |c'| && forall x :: x in b ==> x < |c'|
  {
  }
}
