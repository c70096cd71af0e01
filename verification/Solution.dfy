/** The from-scratch evaluation of an acyclic table, level by level, and its
    uniqueness. */
module Solutions {
  import opened Tristates
  import opened Exprs
  import opened SymbolEquations
  import opened Layering

  /** The values of all symbols ranked below k; the rest are placeholders. */
  ghost function Solve(tab: Table, rank: Rank, u: Users, k: nat): (v: Values)
    ensures |v| == |tab.t|
  {
    if k == 0 then seq(|tab.t|, s => Value(NO, "", None))
    else
      var v := Solve(tab, rank, u, k - 1);
      seq(|tab.t|, s requires 0 <= s < |tab.t| =>
        if rank(s) == k - 1 then Compute(tab, u, Val(v, tab.modules).tri, v, s) else v[s])
  }

  ghost function Height(rank: Rank, n: nat): (k: nat)
    ensures forall s: Sym :: s < n ==> rank(s) < k
  {
    if n == 0 then 0
    else
      var k := Height(rank, n - 1);
      if rank(n - 1) < k then k else rank(n - 1) + 1
  }

  /** The recursive specification of evaluation. */
  ghost function Solved(tab: Table, rank: Rank, u: Users): (v: Values)
    ensures |v| == |tab.t|
  {
    Solve(tab, rank, u, Height(rank, |tab.t|))
  }

  lemma {:induction false} SolveStable(tab: Table, rank: Rank, u: Users, j: nat, k: nat, s: Sym)
    requires s < |tab.t| && rank(s) < j <= k
    ensures Solve(tab, rank, u, k)[s] == Solve(tab, rank, u, j)[s]
    decreases k
  {
    hide Compute;
    if j < k {
      SolveStable(tab, rank, u, j, k - 1, s);
    }
  }

  /** A boolean symbol never computes to m. */
  lemma BooleanNeverMod(tab: Table, u: Users, mv: Tri, v: Values, s: Sym)
    requires Typ(tab.t, s) == Boolean
    ensures Compute(tab, u, mv, v, s).tri != MOD
  {
    hide Visibility, RevTri, BaseTri, Pick;
  }

  lemma SolveStep(tab: Table, rank: Rank, u: Users, s: Sym)
    requires s < |tab.t|
    ensures var v := Solve(tab, rank, u, rank(s));
      Solve(tab, rank, u, rank(s) + 1)[s] == Compute(tab, u, Val(v, tab.modules).tri, v, s)
  {
    hide Compute;
  }

  /** Below the k-th level, the k-th approximation reads the same as any later one. */
  lemma SolveSameBelow(tab: Table, rank: Rank, u: Users, k: nat, n: nat)
    requires k <= n
    ensures SameBelow(tab, rank, k, None, Solve(tab, rank, u, k), Solve(tab, rank, u, n))
  {
    hide Solve, ReadsSame;
    forall x: Sym | rank(x) < k
      ensures Val(Solve(tab, rank, u, k), x) == Val(Solve(tab, rank, u, n), x)
      ensures ReadsSame(tab, Solve(tab, rank, u, k), Solve(tab, rank, u, n), x)
    {
      SolveSameAt(tab, rank, u, k, n, x);
    }
  }

  lemma SolveSameAt(tab: Table, rank: Rank, u: Users, k: nat, n: nat, x: Sym)
    requires rank(x) < k <= n
    ensures var v, v' := Solve(tab, rank, u, k), Solve(tab, rank, u, n);
      Val(v, x) == Val(v', x) && ReadsSame(tab, v, v', x)
  {
    hide Compute, Solve;
    if x < |tab.t| {
      SolveStable(tab, rank, u, k, n, x);
      SolveStable(tab, rank, u, rank(x) + 1, k, x);
      SolveStep(tab, rank, u, x);
      if Typ(tab.t, x) == Boolean {
        var b := Solve(tab, rank, u, rank(x));
        BooleanNeverMod(tab, u, Val(b, tab.modules).tri, b, x);
      }
    }
  }

  /** The equations of an acyclic table have a solution: the level-by-level one. */
  lemma SolvedIsSolution(tab: Table, rank: Rank, u: Users)
    requires Layered(tab, rank) && PicksMember(tab, u)
    ensures IsSolution(tab, u, Solved(tab, rank, u))
  {
    var n := Height(rank, |tab.t|);
    var v := Solve(tab, rank, u, n);
    forall s: Sym | s < |v|
      ensures v[s] == Compute(tab, u, Val(v, tab.modules).tri, v, s)
    {
      SolvedAt(tab, rank, u, n, s);
    }
  }

  lemma SolvedAt(tab: Table, rank: Rank, u: Users, n: nat, s: Sym)
    requires Layered(tab, rank) && PicksMember(tab, u)
    requires s < |tab.t| && rank(s) < n
    ensures var v := Solve(tab, rank, u, n);
      v[s] == Compute(tab, u, Val(v, tab.modules).tri, v, s)
  {
    hide Compute, PicksMember, Layered, SameBelow, ModulesFree;
    var k := rank(s);
    var b, v := Solve(tab, rank, u, k), Solve(tab, rank, u, n);
    SolveStable(tab, rank, u, k + 1, n, s);
    SolveStep(tab, rank, u, s);
    SolveSameBelow(tab, rank, u, k, n);
    ModulesKnown(tab, rank, b, v, s);
    ComputeCongruent(tab, rank, u, Val(b, tab.modules).tri, Val(v, tab.modules).tri, b, v, s);
  }

  lemma ModulesKnown(tab: Table, rank: Rank, v: Values, v': Values, s: Sym)
    requires Layered(tab, rank) && s < |tab.t|
    requires SameBelow(tab, rank, rank(s), None, v, v')
    ensures Val(v, tab.modules).tri == Val(v', tab.modules).tri || ModulesFree(tab, s) || !IsTyped(Typ(tab.t, s))
  {
    if IsTyped(Typ(tab.t, s)) && !ModulesFree(tab, s) {
      assert SymbolLayered(tab, rank, s);
    }
  }

  /** Two users agree on a symbol. */
  predicate SameUser(u: Users, u': Users, s: Sym) {
    (s in u.has <==> s in u'.has) && Val(u.val, s) == Val(u'.val, s)
  }

  lemma ComputeSameUser(tab: Table, u: Users, u': Users, mv: Tri, v: Values, s: Sym)
    requires SameUser(u, u', s)
    ensures Compute(tab, u, mv, v, s) == Compute(tab, u', mv, v, s)
  {
    hide Visibility, RevTri, DefaultTri, DefaultStr, Validated, DefaultPick, FirstVisible, ValueVisible;
  }

  /** Solutions for two users agree on every symbol ranked below k when the
      users do. */
  lemma {:induction false} SolutionsAgree(tab: Table, rank: Rank, u: Users, u': Users, v: Values, v': Values, k: nat)
    requires Layered(tab, rank) && PicksMember(tab, u)
    requires IsSolution(tab, u, v) && IsSolution(tab, u', v')
    requires forall x: Sym :: x < |tab.t| && rank(x) < k ==> SameUser(u, u', x)
    ensures SameBelow(tab, rank, k, None, v, v')
  {
    hide Compute, SameUser, PicksMember, Layered;
    if k > 0 {
      SolutionsAgree(tab, rank, u, u', v, v', k - 1);
      forall x: Sym | rank(x) < k
        ensures Val(v, x) == Val(v', x) && ReadsSame(tab, v, v', x)
      {
        if x < |tab.t| {
          if rank(x) == k - 1 {
            SolutionsAgreeAt(tab, rank, u, u', v, v', x);
          }
          if Typ(tab.t, x) == Boolean {
            BooleanNeverMod(tab, u, Val(v, tab.modules).tri, v, x);
          }
        }
      }
    }
  }

  lemma SolutionsAgreeAt(tab: Table, rank: Rank, u: Users, u': Users, v: Values, v': Values, s: Sym)
    requires Layered(tab, rank) && PicksMember(tab, u)
    requires IsSolution(tab, u, v) && IsSolution(tab, u', v')
    requires s < |tab.t| && SameUser(u, u', s)
    requires SameBelow(tab, rank, rank(s), None, v, v')
    ensures v[s] == v'[s]
  {
    hide Compute, SameUser, PicksMember, Layered, SameBelow, ModulesFree;
    var mv, mv' := Val(v, tab.modules).tri, Val(v', tab.modules).tri;
    ModulesKnown(tab, rank, v, v', s);
    ComputeSameUser(tab, u, u', mv', v', s);
    ComputeCongruent(tab, rank, u, mv, mv', v, v', s);
    assert v[s] == Compute(tab, u, mv, v, s);
    assert v'[s] == Compute(tab, u', mv', v', s);
  }

  /** An acyclic table has one solution, whatever ranking shows it acyclic. */
  lemma SolutionUnique(tab: Table, rank: Rank, u: Users, v: Values, v': Values)
    requires Layered(tab, rank) && PicksMember(tab, u)
    requires IsSolution(tab, u, v) && IsSolution(tab, u, v')
    ensures v == v'
  {
    hide Compute, Layered, PicksMember;
    SolutionsAgree(tab, rank, u, u, v, v', Height(rank, |tab.t|));
    forall s: Sym | s < |v|
      ensures v[s] == v'[s]
    {
      assert Val(v, s) == Val(v', s);
    }
  }
}
