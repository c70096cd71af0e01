/** The operands of a nested conjunction or disjunction as a row of slots hung
    on an unchanging spine. A slot is what the engine addresses with a
    `struct expr **`. */
module Spines {
  import opened Tristates
  import opened Exprs
  import opened Cancellation
  import opened Joins

  datatype Spine = Slot | Fork(left: Spine, right: Spine)

  function Width(s: Spine): nat
    ensures Width(s) >= 1
  {
    if s.Slot? then 1 else Width(s.left) + Width(s.right)
  }

  function Nodes(s: Spine): nat {
    if s.Slot? then 0 else 1 + Nodes(s.left) + Nodes(s.right)
  }

  function SpineOf(op: Junction, e: Expr): Spine {
    if IsJunct(e, op) then Fork(SpineOf(op, e.left), SpineOf(op, e.right)) else Slot
  }

  /** The maximal subexpressions that are not themselves `op` nodes. */
  function Operands(op: Junction, e: Expr): (s: seq<Expr>)
    ensures |s| == Width(SpineOf(op, e))
    ensures forall k :: 0 <= k < |s| ==> !IsJunct(s[k], op) && Size(s[k]) <= Size(e)
    ensures IsJunct(e, op) ==> forall k :: 0 <= k < |s| ==> Size(s[k]) < Size(e)
  {
    if IsJunct(e, op) then Operands(op, e.left) + Operands(op, e.right) else [e]
  }

  function Plug(op: Junction, sp: Spine, s: seq<Expr>): Expr
    requires |s| == Width(sp)
  {
    if sp.Slot? then s[0]
    else Junct(op, Plug(op, sp.left, s[..Width(sp.left)]), Plug(op, sp.right, s[Width(sp.left)..]))
  }

  function TotalSize(s: seq<Expr>): nat {
    if s == [] then 0 else Size(s[0]) + TotalSize(s[1..])
  }

  function Fold(w: World, op: Junction, s: seq<Expr>): Tri {
    if s == [] then NeutralTri(op) else Apply(op, Eval(w, s[0]), Fold(w, op, s[1..]))
  }

  /** No two operands join, here or below: what a pass of
      expr_eliminate_dups1 leaves alone. */
  ghost predicate NoJoin(t: Symbols, e: Expr)
    decreases Size(e), 0
  {
    e.Junct? ==>
      var s := Operands(e.op, e);
      forall a, b :: 0 <= a < |s| && 0 <= b < |s| && a != b ==> PairSettled(t, e.op, s[a], s[b])
  }

  /** The first operand neither joins with the second nor changes itself. */
  ghost predicate PairSettled(t: Symbols, op: Junction, x: Expr, y: Expr)
    decreases Size(x), 1
  {
    Join(t, op, x, y).None? && (x.Junct? ==> NoJoin(t, x))
  }

  /** No slot in [i1, i2) joins with another slot in [j1, j2). */
  ghost predicate Settled(t: Symbols, op: Junction, s: seq<Expr>, i1: nat, i2: nat, j1: nat, j2: nat)
    requires i2 <= |s| && j2 <= |s|
  {
    forall a, b :: i1 <= a < i2 && j1 <= b < j2 && a != b ==> PairSettled(t, op, s[a], s[b])
  }

  /** Every slot holds an operand, not another `op` node. */
  ghost predicate OperandRow(op: Junction, s: seq<Expr>) {
    forall k :: 0 <= k < |s| ==> !IsJunct(s[k], op)
  }

  /** A neutral leaf waits to be dropped. */
  ghost predicate Reducible(op: Junction, s: seq<Expr>) {
    exists k :: 0 <= k < |s| && (s[k] == Neutral(op) || HasNeutral(s[k]))
  }

  lemma {:induction false} PlugOperands(op: Junction, e: Expr)
    ensures Plug(op, SpineOf(op, e), Operands(op, e)) == e
  {
    if IsJunct(e, op) {
      PlugOperands(op, e.left);
      PlugOperands(op, e.right);
      var s := Operands(op, e);
      var n := Width(SpineOf(op, e.left));
      assert s[..n] == Operands(op, e.left) && s[n..] == Operands(op, e.right);
    }
  }

  lemma {:induction false} TotalSizeSplit(a: seq<Expr>, b: seq<Expr>)
    ensures TotalSize(a + b) == TotalSize(a) + TotalSize(b)
  {
    if a == [] {
      assert a + b == b;
    } else {
      TotalSizeSplit(a[1..], b);
      assert (a + b)[1..] == a[1..] + b;
    }
  }

  lemma {:induction false} PlugSize(op: Junction, sp: Spine, s: seq<Expr>)
    requires |s| == Width(sp)
    ensures Size(Plug(op, sp, s)) == Nodes(sp) + TotalSize(s)
  {
    if sp.Fork? {
      var n := Width(sp.left);
      PlugSize(op, sp.left, s[..n]);
      PlugSize(op, sp.right, s[n..]);
      assert s == s[..n] + s[n..];
      TotalSizeSplit(s[..n], s[n..]);
    }
  }

  lemma {:induction false} TotalSizeUpdate(s: seq<Expr>, i: nat, e: Expr)
    requires i < |s|
    ensures TotalSize(s[i := e]) + Size(s[i]) == TotalSize(s) + Size(e)
  {
    if i > 0 {
      TotalSizeUpdate(s[1..], i - 1, e);
      assert s[i := e][1..] == s[1..][i - 1 := e];
    } else {
      assert s[i := e][1..] == s[1..];
    }
  }

  lemma {:induction false} TotalSizeMember(s: seq<Expr>, i: nat)
    requires i < |s|
    ensures Size(s[i]) <= TotalSize(s)
  {
    if i > 0 {
      TotalSizeMember(s[1..], i - 1);
    }
  }

  lemma PlugIsJunct(op: Junction, sp: Spine, s: seq<Expr>)
    requires |s| == Width(sp) && sp.Fork?
    ensures IsJunct(Plug(op, sp, s), op)
  {
  }

  lemma ApplyNeutral(op: Junction, a: Tri)
    ensures Apply(op, NeutralTri(op), a) == a && Apply(op, a, NeutralTri(op)) == a
  {
  }

  lemma {:induction false} FoldSplit(w: World, op: Junction, a: seq<Expr>, b: seq<Expr>)
    ensures Fold(w, op, a + b) == Apply(op, Fold(w, op, a), Fold(w, op, b))
  {
    if a == [] {
      assert a + b == b;
      ApplyNeutral(op, Fold(w, op, b));
    } else {
      FoldSplit(w, op, a[1..], b);
      assert (a + b)[1..] == a[1..] + b;
      ApplyAssociative(op, Eval(w, a[0]), Fold(w, op, a[1..]), Fold(w, op, b));
    }
  }

  lemma {:induction false} PlugFold(w: World, op: Junction, sp: Spine, s: seq<Expr>)
    requires |s| == Width(sp)
    ensures Eval(w, Plug(op, sp, s)) == Fold(w, op, s)
  {
    if sp.Fork? {
      var n := Width(sp.left);
      PlugFold(w, op, sp.left, s[..n]);
      PlugFold(w, op, sp.right, s[n..]);
      assert s == s[..n] + s[n..];
      FoldSplit(w, op, s[..n], s[n..]);
    } else {
      assert s[1..] == [];
      ApplyNeutral(op, Eval(w, s[0]));
    }
  }

  /** One operand can be taken out of the fold, leaving the neutral symbol. */
  lemma {:induction false} FoldExtract(w: World, op: Junction, s: seq<Expr>, i: nat)
    requires ConstantsHold(w)
    requires i < |s|
    ensures Fold(w, op, s) == Apply(op, Eval(w, s[i]), Fold(w, op, s[i := Neutral(op)]))
  {
    var s' := s[i := Neutral(op)];
    assert Eval(w, Neutral(op)) == NeutralTri(op);
    if i == 0 {
      assert s'[1..] == s[1..];
      ApplyNeutral(op, Fold(w, op, s[1..]));
    } else {
      FoldExtract(w, op, s[1..], i - 1);
      assert s'[1..] == s[1..][i - 1 := Neutral(op)];
      ApplySwap(op, Eval(w, s[0]), Eval(w, s[i]), Fold(w, op, s'[1..]));
    }
  }

  lemma ApplySwap(op: Junction, a: Tri, b: Tri, c: Tri)
    ensures Apply(op, a, Apply(op, b, c)) == Apply(op, b, Apply(op, a, c))
  {
  }

  /** Replacing an operand by one of equal value keeps the fold. */
  lemma FoldReplace(w: World, op: Junction, s: seq<Expr>, i: nat, e: Expr)
    requires ConstantsHold(w)
    requires i < |s| && Eval(w, e) == Eval(w, s[i])
    ensures Fold(w, op, s[i := e]) == Fold(w, op, s)
  {
    FoldExtract(w, op, s, i);
    FoldExtract(w, op, s[i := e], i);
    assert s[i := e][i := Neutral(op)] == s[i := Neutral(op)];
  }

  /** Joining two operands into one keeps the fold. */
  lemma FoldJoin(w: World, op: Junction, s: seq<Expr>, i: nat, j: nat, e: Expr)
    requires ConstantsHold(w)
    requires i < |s| && j < |s| && i != j
    requires Eval(w, e) == Apply(op, Eval(w, s[i]), Eval(w, s[j]))
    ensures Fold(w, op, s[i := Neutral(op)][j := e]) == Fold(w, op, s)
  {
    var n := Neutral(op);
    FoldExtract(w, op, s, i);
    FoldExtract(w, op, s[i := n], j);
    FoldExtract(w, op, s[i := n][j := e], j);
    assert s[i := n][j := e][j := n] == s[i := n][j := n];
    ApplyAssociative(op, Eval(w, s[i]), Eval(w, s[j]), Fold(w, op, s[i := n][j := n]));
  }

  /** A neutral slot is a neutral operand of the rebuilt expression. */
  lemma {:induction false} ReducibleHasNeutral(op: Junction, sp: Spine, s: seq<Expr>)
    requires |s| == Width(sp) && Reducible(op, s)
    ensures sp.Fork? ==> HasNeutral(Plug(op, sp, s))
    ensures sp.Slot? ==> s[0] == Neutral(op) || HasNeutral(s[0])
  {
    if sp.Fork? {
      var n := Width(sp.left);
      var k :| 0 <= k < |s| && (s[k] == Neutral(op) || HasNeutral(s[k]));
      if k < n {
        assert s[..n][k] == s[k];
        ReducibleHasNeutral(op, sp.left, s[..n]);
      } else {
        assert s[n..][k - n] == s[k];
        ReducibleHasNeutral(op, sp.right, s[n..]);
      }
    }
  }

  /** Every slot has its negations directly above symbols. */
  ghost predicate AllNormal(s: seq<Expr>) {
    forall k :: 0 <= k < |s| ==> NegationNormal(s[k])
  }

  lemma {:induction false} PlugNormal(op: Junction, sp: Spine, s: seq<Expr>)
    requires |s| == Width(sp)
    ensures NegationNormal(Plug(op, sp, s)) <==> AllNormal(s)
  {
    if sp.Fork? {
      var n := Width(sp.left);
      PlugNormal(op, sp.left, s[..n]);
      PlugNormal(op, sp.right, s[n..]);
      if AllNormal(s[..n]) && AllNormal(s[n..]) {
        forall k | 0 <= k < |s|
          ensures NegationNormal(s[k])
        {
          assert s[k] == if k < n then s[..n][k] else s[n..][k - n];
        }
      }
    }
  }

  lemma {:induction false} EliminateYnNormal(e: Expr)
    requires NegationNormal(e)
    ensures NegationNormal(EliminateYn(e))
  {
    if e.Junct? {
      EliminateYnNormal(e.left);
      EliminateYnNormal(e.right);
    }
  }
}
