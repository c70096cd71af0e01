/** Duplicate elimination (expr.c:519-592): a pass compares every operand with
    every other operand of the same conjunction or disjunction and joins them in
    place, and passes repeat until none changes anything. */
module Duplicates {
  import opened Tristates
  import opened Exprs
  import opened Cancellation
  import opened Joins
  import opened Spines
  import opened Completeness

  /** Equal values under every consistent valuation of the symbols `t`. */
  ghost predicate Equivalent(t: Symbols, e: Expr, e': Expr) {
    forall w: World :: w.t == t && Consistent(w) ==> Eval(w, e) == Eval(w, e')
  }

  ghost predicate SameFold(t: Symbols, op: Junction, s: seq<Expr>, s': seq<Expr>) {
    forall w: World :: w.t == t && Consistent(w) ==> Fold(w, op, s) == Fold(w, op, s')
  }

  lemma SameFoldReplace(t: Symbols, op: Junction, s: seq<Expr>, i: nat, e: Expr)
    requires i < |s| && Equivalent(t, s[i], e)
    ensures SameFold(t, op, s, s[i := e])
  {
    forall w: World | w.t == t && Consistent(w)
      ensures Fold(w, op, s) == Fold(w, op, s[i := e])
    {
      FoldReplace(w, op, s, i, e);
    }
  }

  lemma SameFoldJoin(t: Symbols, op: Junction, s: seq<Expr>, i: nat, j: nat)
    requires i < |s| && j < |s| && i != j && Join(t, op, s[i], s[j]).Some?
    ensures SameFold(t, op, s, s[i := Neutral(op)][j := Join(t, op, s[i], s[j]).value])
  {
    var e := Join(t, op, s[i], s[j]).value;
    forall w: World | w.t == t && Consistent(w)
      ensures Fold(w, op, s) == Fold(w, op, s[i := Neutral(op)][j := e])
    {
      JoinSound(w, op, s[i], s[j]);
      FoldJoin(w, op, s, i, j, e);
    }
  }

  lemma EquivalentPlug(t: Symbols, op: Junction, sp: Spine, s: seq<Expr>, s': seq<Expr>)
    requires |s| == |s'| == Width(sp) && SameFold(t, op, s, s')
    ensures Equivalent(t, Plug(op, sp, s), Plug(op, sp, s'))
  {
    forall w: World | w.t == t && Consistent(w)
      ensures Eval(w, Plug(op, sp, s)) == Eval(w, Plug(op, sp, s'))
    {
      PlugFold(w, op, sp, s);
      PlugFold(w, op, sp, s');
    }
  }

  lemma EquivalentYn(t: Symbols, e: Expr)
    ensures Equivalent(t, e, EliminateYn(e))
  {
    forall w: World | w.t == t && Consistent(w)
      ensures Eval(w, e) == Eval(w, EliminateYn(e))
    {
      EliminateYnSound(w, e);
    }
  }

  /** Joining slot j with slot i: i becomes neutral, sizes do not grow. */
  lemma JoinedSize(t: Symbols, op: Junction, s: seq<Expr>, i: nat, j: nat)
    requires i < |s| && j < |s| && i != j && Join(t, op, s[i], s[j]).Some?
    ensures TotalSize(s[i := Neutral(op)][j := Join(t, op, s[i], s[j]).value]) <= TotalSize(s)
  {
    var e := Join(t, op, s[i], s[j]).value;
    JoinSmall(t, op, s[i], s[j]);
    TotalSizeUpdate(s, i, Neutral(op));
    TotalSizeUpdate(s[i := Neutral(op)], j, e);
  }

  /** What a pass starts from: the operands of a conjunction or disjunction. */
  lemma OperandsOfJunct(t: Symbols, op: Junction, e: Expr)
    requires IsJunct(e, op)
    ensures var sp, s := SpineOf(op, e), Operands(op, e);
      && sp.Fork? && |s| == Width(sp) && OperandRow(op, s)
      && Plug(op, sp, s) == e
      && Size(e) == Nodes(sp) + TotalSize(s) && Nodes(sp) > 0
      && (NoJoin(t, e) <==> Settled(t, op, s, 0, Width(sp), 0, Width(sp)))
      && (NegationNormal(e) <==> AllNormal(s))
  {
    PlugOperands(op, e);
    PlugNormal(op, SpineOf(op, e), Operands(op, e));
    PlugSize(op, SpineOf(op, e), Operands(op, e));
  }

  lemma SettledOne(t: Symbols, op: Junction, s: seq<Expr>, i: nat, j: nat)
    requires i < |s| && j < |s|
    ensures Settled(t, op, s, i, i + 1, j, j + 1) <==> i == j || PairSettled(t, op, s[i], s[j])
    ensures PairSettled(t, op, s[i], s[j]) <==>
      Join(t, op, s[i], s[j]).None? && (s[i].Junct? ==> NoJoin(t, s[i]))
  {
    hide Join, NoJoin;
    if i != j && Settled(t, op, s, i, i + 1, j, j + 1) {
      assert PairSettled(t, op, s[i], s[j]);
    }
  }

  lemma SettledSplit(t: Symbols, op: Junction, s: seq<Expr>, i1: nat, i: nat, i2: nat, j1: nat, j: nat, j2: nat)
    requires i1 <= i <= i2 <= |s| && j1 <= j <= j2 <= |s|
    ensures Settled(t, op, s, i1, i2, j1, j2) <==>
      Settled(t, op, s, i1, i, j1, j2) && Settled(t, op, s, i, i2, j1, j2)
    ensures Settled(t, op, s, i1, i2, j1, j2) <==>
      Settled(t, op, s, i1, i2, j1, j) && Settled(t, op, s, i1, i2, j, j2)
  {
  }

  lemma SameFoldItself(t: Symbols, op: Junction, s: seq<Expr>)
    ensures SameFold(t, op, s, s)
  {
  }

  lemma SameFoldTransitive(t: Symbols, op: Junction, s: seq<Expr>, s': seq<Expr>, s'': seq<Expr>)
    requires SameFold(t, op, s, s') && SameFold(t, op, s', s'')
    ensures SameFold(t, op, s, s'')
  {
    forall w: World | w.t == t && Consistent(w)
      ensures Fold(w, op, s) == Fold(w, op, s'')
    {
      assert Fold(w, op, s) == Fold(w, op, s');
    }
  }

  lemma ReducibleAt(op: Junction, s: seq<Expr>, i: nat)
    requires i < |s| && (s[i] == Neutral(op) || HasNeutral(s[i]))
    ensures Reducible(op, s)
  {
  }

  /** Joining slot i into slot j keeps everything a pass relies on. */
  lemma JoinedRow(t: Symbols, op: Junction, s: seq<Expr>, i: nat, j: nat)
    requires i < |s| && j < |s| && i != j && OperandRow(op, s) && Join(t, op, s[i], s[j]).Some?
    ensures var s' := s[i := Neutral(op)][j := Join(t, op, s[i], s[j]).value];
      && OperandRow(op, s') && TotalSize(s') <= TotalSize(s) && SameFold(t, op, s, s')
      && (AllNormal(s) ==> AllNormal(s')) && Reducible(op, s')
  {
    hide Join, SameFold, TotalSize;
    JoinSmall(t, op, s[i], s[j]);
    JoinedSize(t, op, s, i, j);
    SameFoldJoin(t, op, s, i, j);
    assert s[i := Neutral(op)][j := Join(t, op, s[i], s[j]).value][i] == Neutral(op);
  }

  /** Holds the global trans_count. */
  class Optimiser {
    var transCount: nat

    constructor ()
      ensures transCount == 0
    {
      transCount := 0;
    }

    /** The nested pass of expr_eliminate_dups1 on the operand in slot i. */
    method DupsInside(t: Symbols, op: Junction, i: nat, slots: array<Expr>, ghost bound: nat)
      requires i < slots.Length
      requires OperandRow(op, slots[..])
      requires TotalSize(slots[..]) < bound
      modifies this, slots
      ensures OperandRow(op, slots[..])
      ensures TotalSize(slots[..]) <= old(TotalSize(slots[..]))
      ensures SameFold(t, op, old(slots[..]), slots[..])
      ensures AllNormal(old(slots[..])) ==> AllNormal(slots[..])
      ensures transCount >= old(transCount)
      ensures transCount == old(transCount) <==> (old(slots[i]).Junct? ==> NoJoin(t, old(slots[i])))
      ensures transCount == old(transCount) ==> slots[..] == old(slots[..])
      ensures transCount > old(transCount) ==> HasNeutral(slots[i])
      decreases bound, Slot, Slot, 0
    {
      ghost var s0 := slots[..];
      TotalSizeMember(s0, i);
      if slots[i].Junct? {
        var e := DupsSelf(t, slots[i].op, slots[i]);
        slots[i] := e;
        assert slots[..] == s0[i := e];
        TotalSizeUpdate(s0, i, e);
        SameFoldReplace(t, op, s0, i, e);
      }
    }

    /** expr_eliminate_dups1 at two leaves. */
    method JoinSlots(t: Symbols, op: Junction, i: nat, j: nat, slots: array<Expr>, ghost bound: nat)
      requires i < slots.Length && j < slots.Length
      requires OperandRow(op, slots[..])
      requires TotalSize(slots[..]) < bound
      modifies this, slots
      ensures OperandRow(op, slots[..])
      ensures TotalSize(slots[..]) <= old(TotalSize(slots[..]))
      ensures SameFold(t, op, old(slots[..]), slots[..])
      ensures AllNormal(old(slots[..])) ==> AllNormal(slots[..])
      ensures transCount >= old(transCount)
      ensures transCount == old(transCount) <==> Settled(t, op, old(slots[..]), i, i + 1, j, j + 1)
      ensures transCount == old(transCount) ==> slots[..] == old(slots[..])
      ensures transCount > old(transCount) ==> Reducible(op, slots[..])
      decreases bound, Slot, Slot, 1
    {
      hide Join, NoJoin, PairSettled, Settled, SameFold, TotalSize, Reducible, OperandRow, AllNormal;
      SettledOne(t, op, slots[..], i, j);
      if i == j {
        SameFoldItself(t, op, slots[..]);
        return;
      }
      DupsInside(t, op, i, slots, bound);
      ghost var s1 := slots[..];
      if transCount > old(transCount) {
        ReducibleAt(op, s1, i);
      }
      var r := Join(t, op, slots[i], slots[j]);
      if r.Some? {
        JoinedRow(t, op, s1, i, j);
        slots[i], slots[j] := Neutral(op), r.value;
        transCount := transCount + 1;
        assert slots[..] == s1[i := Neutral(op)][j := r.value];
        SameFoldTransitive(t, op, old(slots[..]), s1, slots[..]);
      }
    }

    /** expr_eliminate_dups1(type, &e1, &e2): every leaf under `s1` against
        every leaf under `s2`, both spines of the same root. */
    method Dups1(t: Symbols, op: Junction, s1: Spine, i: nat, s2: Spine, j: nat, slots: array<Expr>, ghost bound: nat)
      requires i + Width(s1) <= slots.Length && j + Width(s2) <= slots.Length
      requires OperandRow(op, slots[..])
      requires TotalSize(slots[..]) < bound
      modifies this, slots
      ensures OperandRow(op, slots[..])
      ensures TotalSize(slots[..]) <= old(TotalSize(slots[..]))
      ensures SameFold(t, op, old(slots[..]), slots[..])
      ensures AllNormal(old(slots[..])) ==> AllNormal(slots[..])
      ensures transCount >= old(transCount)
      ensures transCount == old(transCount) <==> Settled(t, op, old(slots[..]), i, i + Width(s1), j, j + Width(s2))
      ensures transCount == old(transCount) ==> slots[..] == old(slots[..])
      ensures transCount > old(transCount) ==> Reducible(op, slots[..])
      decreases bound, s1, s2, 2
    {
      hide Settled, SameFold, Reducible;
      if s1.Fork? {
        SettledSplit(t, op, slots[..], i, i + Width(s1.left), i + Width(s1), j, j, j + Width(s2));
        Dups1(t, op, s1.left, i, s2, j, slots, bound);
        ghost var mid := slots[..];
        Dups1(t, op, s1.right, i + Width(s1.left), s2, j, slots, bound);
        SameFoldTransitive(t, op, old(slots[..]), mid, slots[..]);
      } else if s2.Fork? {
        SettledSplit(t, op, slots[..], i, i, i + Width(s1), j, j + Width(s2.left), j + Width(s2));
        Dups1(t, op, s1, i, s2.left, j, slots, bound);
        ghost var mid := slots[..];
        Dups1(t, op, s1, i, s2.right, j + Width(s2.left), slots, bound);
        SameFoldTransitive(t, op, old(slots[..]), mid, slots[..]);
      } else {
        JoinSlots(t, op, i, j, slots, bound);
      }
    }

    /** expr_eliminate_dups1(e->type, &e, &e): one pass over one expression. */
    method DupsSelf(t: Symbols, op: Junction, e: Expr) returns (e': Expr)
      requires IsJunct(e, op)
      modifies this
      ensures IsJunct(e', op) && Size(e') <= Size(e)
      ensures Equivalent(t, e, e')
      ensures NegationNormal(e) ==> NegationNormal(e')
      ensures transCount >= old(transCount)
      ensures transCount == old(transCount) <==> NoJoin(t, e)
      ensures transCount == old(transCount) ==> e' == e
      ensures transCount > old(transCount) ==> HasNeutral(e')
      decreases Size(e)
    {
      hide *;
      var sp, s := SpineOf(op, e), Operands(op, e);
      OperandsOfJunct(t, op, e);
      var slots := new Expr[|s|](k requires 0 <= k < |s| => s[k]);
      assert slots[..] == s;
      Dups1(t, op, sp, 0, sp, 0, slots, Size(e));
      e' := Plug(op, sp, slots[..]);
      PlugIsJunct(op, sp, slots[..]);
      PlugSize(op, sp, slots[..]);
      PlugNormal(op, sp, slots[..]);
      EquivalentPlug(t, op, sp, s, slots[..]);
      if transCount > old(transCount) {
        ReducibleHasNeutral(op, sp, slots[..]);
      }
    }

    /** expr_eliminate_dups. */
    method EliminateDups(t: Symbols, e: Expr) returns (r: Expr)
      modifies this
      ensures Equivalent(t, e, r)
      ensures NegationNormal(e) ==> NegationNormal(r)
      ensures Reduced(t, r)
      ensures NoJoin(t, r) && Size(r) <= Size(e)
      ensures NoJoin(t, e) ==> r == e
      ensures transCount == old(transCount)
    {
      hide Reduced, PairwiseUnequal;
      var oldCount := transCount;
      r := e;
      while true
        invariant Equivalent(t, e, r)
        invariant NegationNormal(e) ==> NegationNormal(r)
        invariant Size(r) <= Size(e)
        invariant NoJoin(t, e) ==> r == e
        decreases Size(r)
      {
        transCount := 0;
        if r.Junct? {
          r := DupsSelf(t, r.op, r);
        }
        if transCount == 0 {
          break;
        }
        EliminateYnShrinks(r);
        EquivalentYn(t, r);
        if NegationNormal(r) {
          EliminateYnNormal(r);
        }
        r := EliminateYn(r);
      }
      transCount := oldCount;
      UnjoinedReduced(t, r);
    }

    /** Running expr_eliminate_dups on its own result changes nothing. */
    method EliminateDupsTwice(t: Symbols, e: Expr) returns (once: Expr, twice: Expr)
      modifies this
      ensures twice == once && Equivalent(t, e, once)
    {
      once := EliminateDups(t, e);
      twice := EliminateDups(t, once);
    }
  }
}
