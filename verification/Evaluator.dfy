/** The demand-driven evaluator (symbol.c:72-485, expr.c:910-985): a symbol is
    computed once, marked valid, and read from then on. */
module Evaluation {
  import opened Tristates
  import opened NumText
  import opened Exprs
  import opened SymbolEquations
  import opened Layering
  import opened Solutions
  import opened Choices
  import opened UserValues

  /** What an acyclic table is to be evaluated to. */
  datatype Goal = Goal(rank: Rank, u: Users, sol: Values)

  function ModulesOf(tab: Table, g: Goal): Tri {
    Val(g.sol, tab.modules).tri
  }

  /** The valuation conditions are read in: the solution, except that the choice
      being computed is tentatively y. */
  function View(g: Goal, c: Option<Sym>): Values {
    if c.Some? then Put(g.sol, c.value, TENTATIVE) else g.sol
  }

  ghost predicate GoalOk(tab: Table, g: Goal) {
    Layered(tab, g.rank) && PicksMember(tab, g.u) && IsSolution(tab, g.u, g.sol)
  }

  /** What every value of symbol s satisfies, on any table. */
  predicate Plausible(t: Symbols, s: Sym, x: Value) {
    && (Typ(t, s) == Boolean ==> x.tri != MOD)
    && (!IsTyped(Typ(t, s)) ==> x.tri == Constant(t, s).tri)
  }

  ghost function Ids(n: nat): (r: set<Sym>)
    ensures forall s: Sym :: s in r <==> s < n
  {
    if n == 0 then {} else Ids(n - 1) + {n - 1}
  }

  /** The state of an evaluator, for comparing two moments. */
  datatype Snapshot = Snapshot(
    curr: Values, visible: seq<Tri>, revTri: seq<Tri>,
    valid: set<Sym>, write: set<Sym>, hasUser: set<Sym>, needSet: set<Sym>,
    busy: set<Sym>, modulesVal: Tri)

  /** From a to b, NEED_SET_CHOICE_VALUES flags were cleared or every valid
      symbol stayed valid, and the symbols under evaluation, those in `own`
      apart, were left to their frames. */
  ghost predicate Advances(tab: Table, a: Snapshot, b: Snapshot, own: set<Sym>) {
    && b.needSet <= a.needSet
    && (b.needSet == a.needSet ==> a.valid <= b.valid)
    && b.busy == a.busy
    && (forall s: Sym :: s in b.busy && s !in own ==>
         Val(b.curr, s) == Val(a.curr, s) && (s in b.hasUser <==> s in a.hasUser))
    && (tab.modules in b.busy && tab.modules !in own ==> b.modulesVal == a.modulesVal)
  }

  /** The visibility of s is not some other symbol's business: s is under
      evaluation with its choice done, or its choice is under evaluation. */
  predicate IsShielded(tab: Table, s: Sym, busy: set<Sym>, done: set<Sym>) {
    var c := Def(tab, s).choiceOf;
    (s in busy && (c.None? || c.value in done)) || (c.Some? && c.value in busy)
  }

  /** The WRITE flag of s is set by its own evaluation alone. */
  predicate OwnsWrite(tab: Table, s: Sym) {
    IsTyped(Typ(tab.t, s)) && Def(tab, s).choiceOf.None?
  }

  /** From a to b, shielded visibilities stayed, and the WRITE flag of everything
      but choice values changed once, when the symbol was computed. */
  ghost predicate Keeps(tab: Table, g: Goal, a: Snapshot, b: Snapshot, except: set<Sym>) {
    && a.valid <= b.valid && a.busy == b.busy
    && |a.visible| == |b.visible| == |a.revTri| == |b.revTri| == |tab.t|
    && (forall s: Sym :: s < |tab.t| && s !in except && IsShielded(tab, s, a.busy, a.valid - a.busy) ==>
         b.visible[s] == a.visible[s] && b.revTri[s] == a.revTri[s])
    && (forall s: Sym :: s < |tab.t| && s !in except && OwnsWrite(tab, s) ==>
         (s in b.write <==> if s in b.valid && s !in a.valid then Written(tab, ModulesOf(tab, g), g.sol, s)
                            else s in a.write))
  }

  lemma AdvancesTwice(tab: Table, a: Snapshot, b: Snapshot, c: Snapshot, own: set<Sym>)
    requires Advances(tab, a, b, own) && Advances(tab, b, c, own)
    ensures Advances(tab, a, c, own)
  {
  }

  lemma AdvancesNothing(tab: Table, a: Snapshot)
    ensures Advances(tab, a, a, {})
  {
  }

  lemma KeepsTwice(tab: Table, g: Goal, a: Snapshot, b: Snapshot, c: Snapshot, except: set<Sym>)
    requires Keeps(tab, g, a, b, except) && Keeps(tab, g, b, c, except)
    ensures Keeps(tab, g, a, c, except)
  {
    hide Written;
    forall s: Sym | s < |tab.t| && s !in except && IsShielded(tab, s, a.busy, a.valid - a.busy)
      ensures c.visible[s] == a.visible[s] && c.revTri[s] == a.revTri[s]
    {
      assert IsShielded(tab, s, b.busy, b.valid - b.busy);
    }
  }

  lemma KeptTwice(tab: Table, g: Option<Goal>, a: Snapshot, b: Snapshot, c: Snapshot, except: set<Sym>)
    requires g.Some? ==> Keeps(tab, g.value, a, b, except) && Keeps(tab, g.value, b, c, except)
    ensures g.Some? ==> Keeps(tab, g.value, a, c, except)
  {
    hide Keeps;
    if g.Some? {
      KeepsTwice(tab, g.value, a, b, c, except);
    }
  }

  lemma KeptValid(tab: Table, g: Option<Goal>, a: Snapshot, b: Snapshot, except: set<Sym>)
    requires g.Some? ==> Keeps(tab, g.value, a, b, except)
    ensures g.Some? ==> a.valid <= b.valid
  {
    hide Written;
  }

  lemma KeptMore(tab: Table, g: Option<Goal>, a: Snapshot, b: Snapshot, except: set<Sym>, more: set<Sym>)
    requires g.Some? ==> Keeps(tab, g.value, a, b, except)
    requires except <= more
    ensures g.Some? ==> Keeps(tab, g.value, a, b, more)
  {
    hide Written;
  }

  lemma KeptUntyped(tab: Table, g: Option<Goal>, a: Snapshot, b: Snapshot, s: Sym)
    requires |a.visible| == |a.revTri| == |tab.t| && !OwnsWrite(tab, s)
    requires b == a.(curr := b.curr, valid := a.valid + {s})
    ensures g.Some? ==> Keeps(tab, g.value, a, b, {})
  {
    hide Written;
  }

  lemma KeptNothing(tab: Table, g: Option<Goal>, a: Snapshot)
    requires |a.visible| == |a.revTri| == |tab.t|
    ensures g.Some? ==> Keeps(tab, g.value, a, a, {})
  {
    hide Written;
  }

  ghost predicate NoneShielded(tab: Table, s: set<Sym>, busy: set<Sym>, done: set<Sym>) {
    forall x :: x in s ==> !IsShielded(tab, x, busy, done)
  }

  /** What a whole evaluation of s looks like from outside: n0 before it begins,
      n1 and n2 around its work, n3 after it ended. */
  lemma FrameAdvances(tab: Table, n0: Snapshot, n1: Snapshot, n2: Snapshot, n3: Snapshot, s: Sym)
    requires s !in n0.busy && n0.busy <= n0.valid
    requires n1 == n0.(valid := n0.valid + {s}, busy := n0.busy + {s})
    requires Advances(tab, n1, n2, {s}) && n3 == n2.(busy := n2.busy - {s})
    ensures Advances(tab, n0, n3, {}) && (n3.needSet == n0.needSet ==> s in n3.valid)
  {
  }

  lemma FrameKeeps(tab: Table, g: Option<Goal>, n0: Snapshot, n1: Snapshot, n2: Snapshot, n3: Snapshot, s: Sym,
                   members: set<Sym>)
    requires s !in n0.busy && |n0.visible| == |n0.revTri| == |tab.t|
    requires n1 == n0.(valid := n0.valid + {s}, busy := n0.busy + {s}) && n3 == n2.(busy := n2.busy - {s})
    requires g.Some? ==> Keeps(tab, g.value, n1, n2, {s} + members)
    requires g.Some? ==> s !in n0.valid && NoneShielded(tab, {s} + members, n0.busy, n0.valid - n0.busy)
    requires g.Some? ==> forall x :: x in members ==> !OwnsWrite(tab, x)
    requires g.Some? && OwnsWrite(tab, s) ==> (s in n2.write <==> Written(tab, ModulesOf(tab, g.value), g.value.sol, s))
    ensures g.Some? ==> Keeps(tab, g.value, n0, n3, {})
  {
    hide Written, OwnsWrite;
    if g.Some? {
      forall x: Sym | x < |tab.t| && IsShielded(tab, x, n0.busy, n0.valid - n0.busy)
        ensures n3.visible[x] == n0.visible[x] && n3.revTri[x] == n0.revTri[x]
      {
        assert IsShielded(tab, x, n1.busy, n1.valid - n1.busy);
      }
    }
  }

  /** The work on s from inside: its WRITE flag may be cleared, its visibility is
      computed, then its value. */
  lemma WorkFrames(tab: Table, g: Option<Goal>, n0: Snapshot, n1: Snapshot, n2: Snapshot, n3: Snapshot, s: Sym,
                   members: set<Sym>)
    requires n1 == n0 || n1 == n0.(write := n0.write - {s})
    requires |n0.visible| == |n0.revTri| == |tab.t|
    requires Advances(tab, n1, n2, {}) && Advances(tab, n2, n3, {s})
    requires g.Some? ==> Keeps(tab, g.value, n1, n2, {s}) && Keeps(tab, g.value, n2, n3, {s} + members)
    ensures Advances(tab, n0, n3, {s})
    ensures g.Some? ==> Keeps(tab, g.value, n0, n3, {s} + members)
  {
    hide Written, Keeps;
    if g.Some? {
      KeptUnmark(tab, g.value, n0, n1, s, members);
      KeptMore(tab, g, n1, n2, {s}, {s} + members);
      KeepsTwice(tab, g.value, n0, n1, n2, {s} + members);
      KeepsTwice(tab, g.value, n0, n2, n3, {s} + members);
    }
  }

  lemma KeptUnmark(tab: Table, g: Goal, a: Snapshot, b: Snapshot, s: Sym, members: set<Sym>)
    requires |a.visible| == |a.revTri| == |tab.t| && (b == a || b == a.(write := a.write - {s}))
    ensures Keeps(tab, g, a, b, {s} + members)
  {
    hide Written;
  }

  lemma StepFacts(tab: Table, a: Snapshot, b: Snapshot, own: set<Sym>)
    requires Advances(tab, a, b, own)
    ensures b.needSet <= a.needSet && (b.needSet == a.needSet ==> a.valid <= b.valid)
    ensures tab.modules in b.busy && tab.modules !in own ==> b.modulesVal == a.modulesVal
    ensures b.busy == a.busy
  {
  }

  /** Changing the selects of one symbol that is excepted anyway. */
  lemma KeptButRev(tab: Table, g: Option<Goal>, a: Snapshot, b: Snapshot, c: Snapshot, s: Sym, x: Tri)
    requires g.Some? ==> Keeps(tab, g.value, a, b, {s})
    requires s < |b.revTri| && c == b.(revTri := b.revTri[s := x])
    ensures g.Some? ==> Keeps(tab, g.value, a, c, {s})
  {
    hide Written, OwnsWrite, IsShielded;
  }

  class Evaluator {
    const tab: Table
    // the fields of struct symbol, indexed by symbol
    var curr: Values
    var visible: seq<Tri>
    var dirTri: seq<Tri>
    var revTri: seq<Tri>
    var user: Values
    // the flags VALID, WRITE, DEF_USER and NEED_SET_CHOICE_VALUES
    var valid: set<Sym>
    var write: set<Sym>
    var hasUser: set<Sym>
    var needSet: set<Sym>
    // the global modules_val
    var modulesVal: Tri
    // the symbols whose evaluation has begun and not ended
    ghost var busy: set<Sym>

    ghost predicate Wf()
      reads this
    {
      && |tab.d| == |tab.t| && tab.modules < |tab.t|
      && |curr| == |tab.t| && |visible| == |tab.t| && |dirTri| == |tab.t| && |revTri| == |tab.t| && |user| == |tab.t|
      && busy <= valid
      && WellFormed(tab.t) && MOD_SYM in valid && YES_SYM in valid
      && curr[NO_SYM] == Constant(tab.t, NO_SYM) && curr[MOD_SYM] == Constant(tab.t, MOD_SYM)
      && curr[YES_SYM] == Constant(tab.t, YES_SYM)
      && (forall s: Sym :: s < |tab.t| ==> Plausible(tab.t, s, curr[s]))
      && (forall s: Sym :: s < |tab.t| && Def(tab, s).choiceOf.Some? ==> revTri[s] == NO)
      && (tab.modules in busy || modulesVal == curr[tab.modules].tri)
    }

    /** The symbols still to be computed. */
    ghost function Rest(): set<Sym>
      reads this
    {
      Ids(|tab.t|) - valid
    }

    ghost function Now(): Snapshot
      reads this
    {
      Snapshot(curr, visible, revTri, valid, write, hasUser, needSet, busy, modulesVal)
    }

    /** What any evaluation step does on any table. */
    twostate predicate Advanced()
      reads this
    {
      Wf() && Advances(tab, old(Now()), Now(), {})
    }

    /** Every finished symbol agrees with the goal. */
    ghost predicate Finished(g: Goal, s: Sym)
      reads this
      requires Wf() && |g.sol| == |tab.t| && s < |tab.t|
    {
      && curr[s] == g.sol[s]
      && (IsTyped(Typ(tab.t, s)) ==>
           && visible[s] == Visibility(tab, ModulesOf(tab, g), g.sol, s)
           && revTri[s] == RevTri(tab, ModulesOf(tab, g), g.sol, s)
           && (Def(tab, s).choiceOf.Some? ==> Def(tab, s).choiceOf.value in valid - busy))
    }

    ghost predicate Exact(g: Goal)
      reads this
    {
      && Wf() && |g.sol| == |tab.t|
      && needSet == {}
      && user == g.u.val
      && (forall s: Sym :: s < |tab.t| && s in valid && s !in busy ==> Finished(g, s))
      && (forall s: Sym :: (s in hasUser <==> s in g.u.has) || (Def(tab, s).isChoice && s in valid))
    }

    /** Conditions on symbols ranked below k, or on the choice c under
        evaluation, may be computed exactly. */
    ghost predicate Context(g: Option<Goal>, k: nat, c: Option<Sym>)
      reads this
    {
      g.Some? ==>
        && GoalOk(tab, g.value) && Exact(g.value)
        && (forall b: Sym :: b in busy ==> g.value.rank(b) >= k)
        && (tab.modules in valid - busy || k <= g.value.rank(tab.modules) + 1)
        && (c.Some? ==> c.value < |tab.t| && c.value in busy && curr[c.value] == TENTATIVE)
    }

    /** The same for one symbol. */
    ghost predicate Callable(g: Option<Goal>, s: Sym)
      reads this
    {
      g.Some? ==>
        && GoalOk(tab, g.value) && Exact(g.value)
        && (s < |tab.t| && s !in valid ==>
             && (forall b: Sym :: b in busy ==> g.value.rank(b) > g.value.rank(s))
             && (tab.modules in valid - busy || g.value.rank(s) <= g.value.rank(tab.modules)))
    }

    ghost predicate Shielded(b: Sym, done: set<Sym>)
      reads this
    {
      IsShielded(tab, b, busy, done)
    }

    /** What a step of exact evaluation leaves to other frames, `except` apart. */
    twostate predicate Kept(g: Option<Goal>, except: set<Sym>)
      reads this
    {
      g.Some? ==> Keeps(tab, g.value, old(Now()), Now(), except)
    }

    predicate WriteOwned(b: Sym) {
      OwnsWrite(tab, b)
    }

    /** A symbol ranked below the context's bound reads as in the goal once valid. */
    lemma ReadsGoal(g: Goal, k: nat, c: Option<Sym>, s: Sym)
      requires Wf() && Context(Some(g), k, c)
      requires s < |tab.t| ==> s in valid
      requires g.rank(s) < k || c == Some(s)
      ensures Val(curr, s) == Val(View(g, c), s)
    {
      if s < |tab.t| && c != Some(s) {
        assert Finished(g, s);
      }
    }

    lemma StringReadsGoal(g: Goal, k: nat, c: Option<Sym>, s: Sym)
      requires Wf() && Context(Some(g), k, c)
      requires s < |tab.t| ==> s in valid
      requires OperandBelow(tab, g.rank, k, c, s)
      requires IsLogical(Typ(tab.t, s)) && Val(curr, s).tri == MOD ==> tab.modules in valid
      ensures StringOf(W(tab, curr), s) == StringOf(W(tab, View(g, c)), s)
    {
      hide WellFormed, GoalOk, Finished;
      ReadsGoal(g, k, c, s);
      if IsLogical(Typ(tab.t, s)) && Val(curr, s).tri == MOD {
        assert Plausible(tab.t, s, curr[s]);
        ReadsGoal(g, k, c, tab.modules);
      }
    }

    /** Only a tristate symbol ranked above the modules symbol can be m. */
    lemma ModulesReadable(g: Option<Goal>, k: nat, c: Option<Sym>, s: Sym)
      requires Wf() && Context(g, k, c)
      requires IsLogical(Typ(tab.t, s)) && Val(curr, s).tri == MOD
      requires g.Some? ==> OperandBelow(tab, g.value.rank, k, c, s)
      ensures g.Some? ==> g.value.rank(tab.modules) < k
    {
      assert Plausible(tab.t, s, curr[s]);
    }

    // ----- expressions -----

    /** sym_get_string_value, for its effect: reading m asks for the modules symbol. */
    method TouchString(s: Sym, ghost g: Option<Goal>, ghost k: nat, ghost c: Option<Sym>)
      requires Wf() && Context(g, k, c)
      requires g.Some? ==> OperandBelow(tab, g.value.rank, k, c, s) && (s < |tab.t| ==> s in valid)
      modifies this
      ensures Advanced() && Context(g, k, c) && Kept(g, {})
      ensures g.Some? && IsLogical(Typ(tab.t, s)) && Val(curr, s).tri == MOD ==> tab.modules in valid
      decreases needSet, Rest(), 2, 0
    {
      if IsLogical(Typ(tab.t, s)) && Val(curr, s).tri == MOD {
        ModulesReadable(g, k, c, s);
        ghost var x := Val(curr, s);
        if g.Some? {
          ReadsGoal(g.value, k, c, s);
        }
        CalcRead(tab.modules, g, k, c);
        if g.Some? {
          ReadsGoal(g.value, k, c, s);
        }
      }
    }

    lemma ContextCallable(g: Option<Goal>, k: nat, c: Option<Sym>, s: Sym)
      requires Wf() && Context(g, k, c)
      requires g.Some? ==> g.value.rank(s) < k || c == Some(s)
      ensures Callable(g, s)
      ensures g.Some? ==> needSet == {}
    {
    }

    lemma CallableExact(g: Option<Goal>, s: Sym)
      requires Wf() && Callable(g, s)
      ensures g.Some? ==> Exact(g.value) && needSet == {}
    {
    }

    /** sym_calc_value, as a condition asks for it. */
    method CalcRead(s: Sym, ghost g: Option<Goal>, ghost k: nat, ghost c: Option<Sym>)
      requires Wf() && Context(g, k, c)
      requires g.Some? ==> g.value.rank(s) < k || c == Some(s)
      modifies this
      ensures Advanced() && Context(g, k, c) && Kept(g, {})
      ensures g.Some? && s < |tab.t| ==> s in valid
      decreases needSet, Rest(), 1, 0
    {
      hide WellFormed, Callable, Exact, GoalOk, SymbolLayered, Keeps, IsSolution, PicksMember;
      ContextCallable(g, k, c, s);
      CalcValue(s, g);
      CallableExact(g, s);
      if g.Some? && c.Some? {
        assert Val(curr, c.value) == old(Val(curr, c.value));
      }
    }

    /** The two operands of a comparison and their strings. */
    method CalcOperands(l: Sym, r: Sym, ghost g: Option<Goal>, ghost k: nat, ghost c: Option<Sym>)
      requires Wf() && Context(g, k, c)
      requires g.Some? ==> OperandBelow(tab, g.value.rank, k, c, l) && OperandBelow(tab, g.value.rank, k, c, r)
      modifies this
      ensures Advanced() && Context(g, k, c) && Kept(g, {})
      ensures g.Some? ==> forall s: Sym :: (s == l || s == r) && s < |tab.t| ==> s in valid
      ensures g.Some? ==> StringOf(W(tab, curr), l) == StringOf(W(tab, View(g.value, c)), l)
      ensures g.Some? ==> StringOf(W(tab, curr), r) == StringOf(W(tab, View(g.value, c)), r)
      decreases needSet, Rest(), 4, 0
    {
      hide WellFormed, Context, Callable, Exact, StringOf, View, Plausible, Advances, Keeps, Wf;
      ghost var n0 := Now();
      CalcRead(l, g, k, c);
      ghost var n1 := Now();
      StepFacts(tab, n0, n1, {});
      CalcRead(r, g, k, c);
      ghost var n2 := Now();
      KeptValid(tab, g, n1, n2, {});
      KeptTwice(tab, g, n0, n1, n2, {});
      AdvancesTwice(tab, n0, n1, n2, {});
      StepFacts(tab, n0, n2, {});
      TouchStrings(l, r, g, k, c);
      KeptValid(tab, g, n2, Now(), {});
      KeptTwice(tab, g, n0, n2, Now(), {});
      AdvancesTwice(tab, n0, n2, Now(), {});
    }

    method TouchStrings(l: Sym, r: Sym, ghost g: Option<Goal>, ghost k: nat, ghost c: Option<Sym>)
      requires Wf() && Context(g, k, c)
      requires g.Some? ==> OperandBelow(tab, g.value.rank, k, c, l) && OperandBelow(tab, g.value.rank, k, c, r)
      requires g.Some? ==> forall s: Sym :: (s == l || s == r) && s < |tab.t| ==> s in valid
      modifies this
      ensures Advanced() && Context(g, k, c) && Kept(g, {})
      ensures g.Some? ==> StringOf(W(tab, curr), l) == StringOf(W(tab, View(g.value, c)), l)
      ensures g.Some? ==> StringOf(W(tab, curr), r) == StringOf(W(tab, View(g.value, c)), r)
      decreases needSet, Rest(), 3, 0
    {
      hide WellFormed, Context, Callable, Exact, StringOf, View, Layered, Keeps;
      TouchString(l, g, k, c);
      ghost var middle := Now();
      KeptValid(tab, g, old(Now()), middle, {});
      if g.Some? {
        ReadsGoal(g.value, k, c, l);
      }
      TouchString(r, g, k, c);
      KeptTwice(tab, g, old(Now()), middle, Now(), {});
      KeptValid(tab, g, middle, Now(), {});
      if g.Some? {
        ReadsGoal(g.value, k, c, l);
        StringReadsGoal(g.value, k, c, l);
        StringReadsGoal(g.value, k, c, r);
      }
    }

    /** The comparison cases of expr_calc_value. */
    method CalcComp(rel: Rel, l: Sym, r: Sym, ghost g: Option<Goal>, ghost k: nat,
                    ghost c: Option<Sym>) returns (x: Tri)
      requires Wf() && Context(g, k, c)
      requires g.Some? ==> Below(tab, g.value.rank, k, c, Comp(rel, l, r))
      modifies this
      ensures Advanced() && Context(g, k, c) && Kept(g, {})
      ensures g.Some? ==> x == EvalComp(W(tab, View(g.value, c)), rel, l, r)
      ensures g.Some? ==> forall s: Sym :: (s == l || s == r) && s < |tab.t| ==> s in valid
      decreases needSet, Rest(), 5, 0
    {
      hide WellFormed, Context, Callable, Exact, EvalComp, StringOf, View, Keeps;
      CalcOperands(l, r, g, k, c);
      x := EvalComp(W(tab, curr), rel, l, r);
      if g.Some? {
        EvalCompCongruent(W(tab, curr), W(tab, View(g.value, c)), rel, l, r);
      }
    }

    method CalcSymbol(s: Sym, ghost g: Option<Goal>, ghost k: nat, ghost c: Option<Sym>) returns (x: Tri)
      requires Wf() && Context(g, k, c)
      requires g.Some? ==> g.value.rank(s) < k || c == Some(s)
      modifies this
      ensures Advanced() && Context(g, k, c) && Kept(g, {})
      ensures g.Some? ==> x == TriOf(W(tab, View(g.value, c)), s)
      ensures g.Some? && s < |tab.t| ==> s in valid
      decreases needSet, Rest(), 2, 0
    {
      hide WellFormed, Context, Exact, Keeps, View, SymbolLayered, IsSolution;
      CalcRead(s, g, k, c);
      x := Val(curr, s).tri;
      if g.Some? {
        ReadsGoal(g.value, k, c, s);
      }
    }

    method CalcJunct(op: Junction, l: Expr, r: Expr, ghost g: Option<Goal>, ghost k: nat,
                     ghost c: Option<Sym>) returns (x: Tri)
      requires Wf() && Context(g, k, c)
      requires g.Some? ==> Below(tab, g.value.rank, k, c, l) && Below(tab, g.value.rank, k, c, r)
      modifies this
      ensures Advanced() && Context(g, k, c) && Kept(g, {})
      ensures g.Some? ==> x == Apply(op, Eval(W(tab, View(g.value, c)), l), Eval(W(tab, View(g.value, c)), r))
      ensures g.Some? ==> forall s: Sym :: (Mentions(l, s) || Mentions(r, s)) && s < |tab.t| ==> s in valid
      decreases needSet, Rest(), 6, Size(l) + Size(r)
    {
      hide WellFormed, Context, Exact, Keeps, View, Eval, Below, Apply;
      var y := CalcExpr(l, g, k, c);
      ghost var middle := Now();
      var z := CalcExpr(r, g, k, c);
      KeptTwice(tab, g, old(Now()), middle, Now(), {});
      KeptValid(tab, g, middle, Now(), {});
      x := Apply(op, y, z);
    }

    /** expr_calc_value. */
    method CalcExpr(e: Expr, ghost g: Option<Goal>, ghost k: nat, ghost c: Option<Sym>) returns (x: Tri)
      requires Wf() && Context(g, k, c)
      requires g.Some? ==> Below(tab, g.value.rank, k, c, e)
      modifies this
      ensures Advanced() && Context(g, k, c) && Kept(g, {})
      ensures g.Some? ==> x == Eval(W(tab, View(g.value, c)), e)
      ensures g.Some? ==> forall s: Sym :: Mentions(e, s) && s < |tab.t| ==> s in valid
      decreases needSet, Rest(), 6, Size(e)
    {
      hide WellFormed, Context, Exact, Keeps, View, EvalComp, TriOf;
      match e
      case Symbol(s) =>
        x := CalcSymbol(s, g, k, c);
      case Not(a) =>
        x := CalcExpr(a, g, k, c);
        x := TriNot(x);
      case Comp(rel, l, r) =>
        x := CalcComp(rel, l, r, g, k, c);
      case Junct(op, l, r) =>
        x := CalcJunct(op, l, r, g, k, c);
    }

    method CalcOpt(e: Option<Expr>, ghost g: Option<Goal>, ghost k: nat, ghost c: Option<Sym>) returns (x: Tri)
      requires Wf() && Context(g, k, c)
      requires g.Some? ==> BelowOpt(tab, g.value.rank, k, c, e)
      modifies this
      ensures Advanced() && Context(g, k, c) && Kept(g, {})
      ensures g.Some? ==> x == EvalOpt(W(tab, View(g.value, c)), e)
      ensures g.Some? && e.Some? ==> forall s: Sym :: Mentions(e.value, s) && s < |tab.t| ==> s in valid
      decreases needSet, Rest(), 7, 0
    {
      if e.None? {
        x := YES;
      } else {
        x := CalcExpr(e.value, g, k, c);
      }
    }

    // ----- visibility -----

    /** One prompt of sym_calc_visibility. */
    method CalcPrompt(s: Sym, i: nat, ghost g: Option<Goal>, ghost k: nat, ghost c: Option<Sym>) returns (x: Tri)
      requires Wf() && Context(g, k, c)
      requires i < |Def(tab, s).prompts|
      requires g.Some? ==> s < |tab.t| && PromptsReadable(g.value, k, c, s)
      modifies this
      ensures Advanced() && Context(g, k, c) && Kept(g, {})
      ensures g.Some? ==> x == PromptTri(tab, View(g.value, c), s, Def(tab, s).prompts[i])
      ensures g.Some? && Def(tab, s).choiceOf.Some? ==> Def(tab, s).choiceOf.value in valid
      decreases needSet, Rest(), 8, 0
    {
      hide WellFormed, Context, Exact, GoalOk, Kept, Eval, View, SymbolLayered, Keeps, IsSolution;
      x := CalcOpt(Def(tab, s).prompts[i], g, k, c);
      var choice := Def(tab, s).choiceOf;
      if choice.Some? {
        if g.Some? {
          ReadsGoal(g.value, k, c, choice.value);
        }
        if Typ(tab.t, s) == Tristate && x == MOD && Val(curr, choice.value).tri == YES {
          x := NO;
        }
      }
    }

    /** The prompts of s can be read in this context, and if s is a choice value
        they ask for its choice. */
    ghost predicate PromptsReadable(g: Goal, k: nat, c: Option<Sym>, s: Sym) {
      && PromptsBelow(tab, g.rank, k, c, s)
      && (Def(tab, s).choiceOf.Some? ==>
           var o := Def(tab, s).choiceOf.value;
           o < |tab.t| && PromptsMention(tab, s, o) && (g.rank(o) < k || c == Some(o)))
    }

    method CalcPrompts(s: Sym, ghost g: Option<Goal>, ghost k: nat, ghost c: Option<Sym>) returns (x: Tri)
      requires Wf() && Context(g, k, c)
      requires g.Some? ==> s < |tab.t| && PromptsReadable(g.value, k, c, s)
      modifies this
      ensures Advanced() && Context(g, k, c) && Kept(g, {})
      ensures g.Some? ==> x == PromptsTri(tab, View(g.value, c), s, |Def(tab, s).prompts|)
      ensures g.Some? && Def(tab, s).choiceOf.Some? ==> Def(tab, s).choiceOf.value in valid
      decreases needSet, Rest(), 9, 0
    {
      hide WellFormed, Context, Exact, GoalOk, PromptTri, View, Plausible, Written;
      x := NO;
      var i := 0;
      while i < |Def(tab, s).prompts|
        invariant i <= |Def(tab, s).prompts|
        invariant Advanced() && Context(g, k, c) && Kept(g, {})
        invariant g.Some? ==> x == PromptsTri(tab, View(g.value, c), s, i)
        invariant g.Some? && i > 0 && Def(tab, s).choiceOf.Some? ==> Def(tab, s).choiceOf.value in valid
      {
        var y := CalcPrompt(s, i, g, k, c);
        x := TriOr(x, y);
        i := i + 1;
      }
    }

    /** modules_val is up to date for s, or s does not read it. */
    ghost predicate ModulesSeen(s: Sym)
      reads this
    {
      tab.modules in valid - busy || Typ(tab.t, s) != Tristate
    }

    lemma ModulesValue(g: Goal, k: nat, c: Option<Sym>, s: Sym)
      requires Wf() && Context(Some(g), k, c) && ModulesSeen(s)
      ensures Typ(tab.t, s) == Tristate ==> modulesVal == ModulesOf(tab, g)
    {
      if tab.modules in valid - busy {
        assert Finished(g, tab.modules);
      }
    }

    /** sym_calc_visibility up to the visibility itself. */
    method CalcShown(s: Sym, ghost g: Option<Goal>, ghost k: nat, ghost c: Option<Sym>)
      requires Wf() && Context(g, k, c) && s < |tab.t|
      requires g.Some? ==> PromptsReadable(g.value, k, c, s) && ModulesSeen(s)
      requires g.Some? ==> s in busy || (Def(tab, s).choiceOf.Some? && Def(tab, s).choiceOf.value in busy)
      modifies this
      ensures Advanced() && Context(g, k, c) && Kept(g, {s})
      ensures g.Some? ==> visible[s] == Visibility(tab, ModulesOf(tab, g.value), View(g.value, c), s)
      ensures g.Some? && Def(tab, s).choiceOf.Some? ==> Def(tab, s).choiceOf.value in valid
      ensures g.Some? && s in old(valid) && WriteOwned(s) ==> (s in write <==> s in old(write))
      decreases needSet, Rest(), 10, 0
    {
      hide WellFormed, PromptsReadable, GoalOk, View, Exact, Context, Visibility, PromptsTri, Plausible, IsShielded,
           PicksMember;
      var x := CalcPrompts(s, g, k, c);
      if g.Some? {
        ModulesValue(g.value, k, c, s);
        VisibilityOfPrompts(g.value, c, s, modulesVal);
      }
      SetShown(s, PromoteVisible(tab, modulesVal, s, x), g, k, c);
    }

    lemma VisibilityOfPrompts(g: Goal, c: Option<Sym>, s: Sym, mv: Tri)
      requires Typ(tab.t, s) == Tristate ==> mv == ModulesOf(tab, g)
      ensures Visibility(tab, ModulesOf(tab, g), View(g, c), s) ==
        PromoteVisible(tab, mv, s, PromptsTri(tab, View(g, c), s, |Def(tab, s).prompts|))
    {
    }

    method SetShown(s: Sym, x: Tri, ghost g: Option<Goal>, ghost k: nat, ghost c: Option<Sym>)
      requires Wf() && Context(g, k, c) && s < |tab.t|
      requires g.Some? ==> s in busy || (Def(tab, s).choiceOf.Some? && Def(tab, s).choiceOf.value in busy)
      modifies this`visible
      ensures Wf() && Context(g, k, c)
      ensures visible == old(visible)[s := x]
    {
      hide WellFormed, GoalOk, View, Visibility, RevTri, Plausible;
      visible := visible[s := x];
    }

    /** What sym_calc_visibility leaves behind for a symbol under evaluation. */
    ghost predicate Looked(g: Option<Goal>, s: Sym)
      reads this
    {
      && Wf() && s < |tab.t| && s in busy
      && (g.Some? ==>
           && IsTyped(Typ(tab.t, s))
           && visible[s] == Visibility(tab, ModulesOf(tab, g.value), g.value.sol, s)
           && revTri[s] == RevTri(tab, ModulesOf(tab, g.value), g.value.sol, s)
           && (s in hasUser <==> s in g.value.u.has)
           && (Def(tab, s).choiceOf.Some? ==> Def(tab, s).choiceOf.value in valid - busy)
           && ModulesSeen(s))
    }

    /** Evaluation of other symbols does not disturb it. */
    ghost predicate Own(g: Option<Goal>, s: Sym)
      reads this
    {
      Wf() && Context(g, if g.Some? then g.value.rank(s) else 0, None) && s < |tab.t| && s in busy
      && (g.Some? ==>
           && IsTyped(Typ(tab.t, s)) && SymbolLayered(tab, g.value.rank, s) && ModulesSeen(s)
           && (tab.modules in valid - busy || g.value.rank(s) <= g.value.rank(tab.modules)))
    }

    /** The dir_dep part of sym_calc_visibility. */
    method CalcDirDep(s: Sym, ghost g: Option<Goal>)
      requires Own(g, s)
      modifies this
      ensures Advanced() && Own(g, s) && Kept(g, {})
      decreases needSet, Rest(), 10, 0
    {
      hide WellFormed, Exact, GoalOk, SymbolLayered, Plausible, Written;
      LayeredParts(g, s);
      var x := YES;
      if Def(tab, s).dirDep.Some? {
        x := CalcExpr(Def(tab, s).dirDep.value, g, if g.Some? then g.value.rank(s) else 0, None);
      }
      SetDir(s, if x == MOD then YES else x, g);
    }

    method SetDir(s: Sym, x: Tri, ghost g: Option<Goal>)
      requires Own(g, s)
      modifies this`dirTri
      ensures Own(g, s)
    {
      hide WellFormed, GoalOk, SymbolLayered, Visibility, RevTri, Plausible;
      dirTri := dirTri[s := x];
    }

    method SetRev(s: Sym, x: Tri, ghost g: Option<Goal>)
      requires Own(g, s) && Def(tab, s).choiceOf.None?
      modifies this`revTri
      ensures Own(g, s)
      ensures revTri == old(revTri)[s := x]
    {
      hide WellFormed, GoalOk, SymbolLayered, Visibility, RevTri, Plausible;
      revTri := revTri[s := x];
    }

    lemma ModulesValueOwn(g: Goal, s: Sym)
      requires Own(Some(g), s)
      ensures Typ(tab.t, s) == Tristate ==> modulesVal == ModulesOf(tab, g)
    {
      ModulesValue(g, g.rank(s), None, s);
    }

    /** The value of the selects on s. */
    method CalcRevExpr(s: Sym, ghost g: Option<Goal>) returns (x: Tri)
      requires Own(g, s) && Def(tab, s).choiceOf.None?
      requires g.Some? ==> visible[s] == Visibility(tab, ModulesOf(tab, g.value), g.value.sol, s)
      modifies this
      ensures Advanced() && Own(g, s) && Kept(g, {})
      ensures g.Some? ==> visible[s] == old(visible[s]) && (s in write <==> s in old(write))
      ensures g.Some? ==> x == RevTri(tab, ModulesOf(tab, g.value), g.value.sol, s)
      decreases needSet, Rest(), 9, 0
    {
      hide WellFormed, Exact, GoalOk, SymbolLayered, Visibility, Plausible;
      LayeredParts(g, s);
      x := NO;
      if Def(tab, s).revDep.Some? {
        x := CalcExpr(Def(tab, s).revDep.value, g, if g.Some? then g.value.rank(s) else 0, None);
      }
      if g.Some? {
        ModulesValueOwn(g.value, s);
      }
      if x == MOD && TypeNow(tab, modulesVal, s, visible[s]) == Boolean {
        x := YES;
      }
    }

    /** The rev_dep part of sym_calc_visibility. */
    method CalcRevDep(s: Sym, ghost g: Option<Goal>)
      requires Own(g, s) && Def(tab, s).choiceOf.None?
      requires g.Some? ==> visible[s] == Visibility(tab, ModulesOf(tab, g.value), g.value.sol, s)
      modifies this
      ensures Advanced() && Own(g, s) && Kept(g, {s})
      ensures g.Some? ==> visible[s] == old(visible[s])
      ensures g.Some? ==> revTri[s] == RevTri(tab, ModulesOf(tab, g.value), g.value.sol, s)
      ensures g.Some? ==> (s in write <==> s in old(write))
      decreases needSet, Rest(), 10, 0
    {
      hide WellFormed, Exact, GoalOk, SymbolLayered, Visibility, Plausible, Eval;
      OwnWf(g, s);
      var x := CalcRevExpr(s, g);
      OwnWf(g, s);
      hide Keeps;
      ghost var middle := Now();
      KeptMore(tab, g, old(Now()), middle, {}, {s});
      SetRev(s, x, g);
      KeptButRev(tab, g, old(Now()), middle, Now(), s, x);
    }

    /** sym_calc_visibility, for the symbol being evaluated. */
    method CalcVisibility(s: Sym, ghost g: Option<Goal>)
      requires Own(g, s)
      requires g.Some? ==> (s in hasUser <==> s in g.value.u.has)
      modifies this
      ensures Advanced() && Own(g, s) && Kept(g, {s}) && Looked(g, s)
      ensures g.Some? && WriteOwned(s) ==> (s in write <==> s in old(write))
      decreases needSet, Rest(), 12, 0
    {
      hide WellFormed, Exact, GoalOk, SymbolLayered, Visibility;
      if g.Some? {
        OwnPromptsReadable(g.value, s);
      }
      CalcShown(s, g, if g.Some? then g.value.rank(s) else 0, None);
      if Def(tab, s).choiceOf.Some? {
        if g.Some? {
          ChoiceDone(g.value, s);
        }
        return;
      }
      CalcDeps(s, g);
    }

    /** The dir_dep and rev_dep parts of sym_calc_visibility. */
    method CalcDeps(s: Sym, ghost g: Option<Goal>)
      requires Own(g, s) && Def(tab, s).choiceOf.None?
      requires g.Some? ==> visible[s] == Visibility(tab, ModulesOf(tab, g.value), g.value.sol, s)
      requires g.Some? ==> (s in hasUser <==> s in g.value.u.has)
      modifies this
      ensures Advanced() && Own(g, s) && Kept(g, {s}) && Looked(g, s)
      ensures g.Some? ==> (s in write <==> s in old(write))
      decreases needSet, Rest(), 11, 0
    {
      hide WellFormed, Exact, GoalOk, SymbolLayered, Visibility, RevTri, Context, Written, Plausible;
      OwnWf(g, s);
      CalcDirDep(s, g);
      OwnWf(g, s);
      CalcRevDep(s, g);
    }

    /** The choice of a value under evaluation is finished once it is valid. */
    lemma ChoiceDone(g: Goal, s: Sym)
      requires Own(Some(g), s) && Def(tab, s).choiceOf.Some?
      requires Def(tab, s).choiceOf.value in valid
      ensures Def(tab, s).choiceOf.value !in busy
      ensures revTri[s] == RevTri(tab, ModulesOf(tab, g), g.sol, s)
    {
      hide WellFormed, Exact, GoalOk;
    }

    lemma OwnPromptsReadable(g: Goal, s: Sym)
      requires Own(Some(g), s)
      ensures PromptsReadable(g, g.rank(s), None, s)
    {
      if Def(tab, s).choiceOf.Some? {
        var c := Def(tab, s).choiceOf.value;
        assert SymbolLayered(tab, g.rank, c);
        PromptsRaise(tab, g.rank, c, s);
      }
    }

    lemma LayeredParts(g: Option<Goal>, s: Sym)
      requires Own(g, s)
      ensures g.Some? ==>
        && BelowOpt(tab, g.value.rank, g.value.rank(s), None, Def(tab, s).dirDep)
        && BelowOpt(tab, g.value.rank, g.value.rank(s), None, Def(tab, s).revDep)
        && DefaultsBelow(tab, g.value.rank, s) && RangesBelow(tab, g.value.rank, s)
    {
    }

    lemma LookedWf(g: Option<Goal>, s: Sym)
      requires Looked(g, s)
      ensures Wf() && s < |tab.t| && s in busy && (g.Some? ==> IsTyped(Typ(tab.t, s)))
    {
    }

    lemma OwnWf(g: Option<Goal>, s: Sym)
      requires Own(g, s)
      ensures Wf() && s < |tab.t| && s in busy
    {
    }

    // ----- values -----

    /** A condition of the symbol under evaluation. */
    method OwnOpt(s: Sym, e: Option<Expr>, ghost g: Option<Goal>) returns (x: Tri)
      requires Own(g, s) && Looked(g, s)
      requires g.Some? ==> BelowOpt(tab, g.value.rank, g.value.rank(s), None, e)
      modifies this
      ensures Advanced() && Own(g, s) && Looked(g, s) && Kept(g, {})
      ensures g.Some? ==> x == EvalOpt(W(tab, g.value.sol), e)
      ensures g.Some? && WriteOwned(s) ==> (s in write <==> s in old(write))
      decreases needSet, Rest(), 8, 0
    {
      hide WellFormed, Exact, GoalOk, SymbolLayered, Visibility, RevTri, Eval, BelowOpt, IsSolution;
      x := CalcOpt(e, g, if g.Some? then g.value.rank(s) else 0, None);
    }

    /** A symbol the symbol under evaluation depends on. */
    method OwnRead(s: Sym, x: Sym, ghost g: Option<Goal>)
      requires Own(g, s) && Looked(g, s)
      requires g.Some? ==> g.value.rank(x) < g.value.rank(s)
      modifies this
      ensures Advanced() && Own(g, s) && Looked(g, s) && Kept(g, {})
      ensures g.Some? ==> Val(curr, x) == Val(g.value.sol, x)
      ensures g.Some? && WriteOwned(s) ==> (s in write <==> s in old(write))
      decreases needSet, Rest(), 8, 0
    {
      hide WellFormed, Exact, GoalOk, SymbolLayered, Visibility, RevTri, IsSolution, Written;
      CalcRead(x, g, if g.Some? then g.value.rank(s) else 0, None);
      if g.Some? {
        ReadsGoal(g.value, g.value.rank(s), None, x);
      }
    }

    /** sym_get_default_prop: the first default that applies and its condition. */
    method FindDefault(s: Sym, ghost g: Option<Goal>) returns (i: nat, cond: Tri)
      requires Own(g, s) && Looked(g, s)
      modifies this
      ensures Advanced() && Own(g, s) && Looked(g, s) && Kept(g, {})
      ensures i <= |Def(tab, s).defaults|
      ensures g.Some? ==> i == FirstDefault(tab, g.value.sol, Def(tab, s).defaults, 0)
      ensures g.Some? && i < |Def(tab, s).defaults| ==>
        cond == EvalOpt(W(tab, g.value.sol), Def(tab, s).defaults[i].cond)
      ensures g.Some? && WriteOwned(s) ==> (s in write <==> s in old(write))
      decreases needSet, Rest(), 9, 0
    {
      hide WellFormed, Exact, GoalOk, Own, Looked, Keeps, EvalOpt, BelowOpt, Plausible, SymbolLayered;
      LayeredParts(g, s);
      LookedWf(g, s);
      KeptNothing(tab, g, Now());
      i, cond := 0, NO;
      while i < |Def(tab, s).defaults|
        invariant i <= |Def(tab, s).defaults|
        invariant Advanced() && Own(g, s) && Looked(g, s) && Kept(g, {})
        invariant g.Some? && WriteOwned(s) ==> (s in write <==> s in old(write))
        invariant g.Some? ==>
          FirstDefault(tab, g.value.sol, Def(tab, s).defaults, 0) ==
          FirstDefault(tab, g.value.sol, Def(tab, s).defaults, i)
      {
        ghost var before := Now();
        cond := OwnOpt(s, Def(tab, s).defaults[i].cond, g);
        KeptTwice(tab, g, old(Now()), before, Now(), {});
        if cond != NO {
          return;
        }
        i := i + 1;
      }
    }

    method Mark(s: Sym, ghost g: Option<Goal>)
      requires Own(g, s) && Looked(g, s)
      modifies this`write
      ensures Own(g, s) && Looked(g, s) && write == old(write) + {s}
      ensures Advanced() && Kept(g, {s})
    {
      hide WellFormed, GoalOk, SymbolLayered, Visibility, RevTri, Written, Plausible;
      write := write + {s};
    }

    /** The WRITE flag of s so far: set exactly when evaluation sets it. */
    ghost predicate MarkedExactly(g: Option<Goal>, s: Sym)
      reads this
    {
      g.Some? && WriteOwned(s) ==>
        (s in write <==> Marked(tab, ModulesOf(tab, g.value), g.value.sol, s))
    }

    /** The value of default i, once found. */
    method OwnDefault(s: Sym, i: nat, ghost g: Option<Goal>) returns (x: Tri)
      requires Own(g, s) && Looked(g, s) && !Def(tab, s).isChoice && i < |Def(tab, s).defaults|
      modifies this
      ensures Advanced() && Own(g, s) && Looked(g, s) && Kept(g, {})
      ensures g.Some? ==> x == Eval(W(tab, g.value.sol), Def(tab, s).defaults[i].value)
      ensures g.Some? && WriteOwned(s) ==> (s in write <==> s in old(write))
      decreases needSet, Rest(), 9, 0
    {
      hide WellFormed, Exact, GoalOk, Own, Looked, Keeps, SymbolLayered, IsSolution, PicksMember;
      LayeredParts(g, s);
      x := OwnOpt(s, Some(Def(tab, s).defaults[i].value), g);
    }

    /** The default of a boolean or tristate symbol. */
    method CalcDefaultTri(s: Sym, ghost g: Option<Goal>) returns (x: Tri)
      requires Own(g, s) && Looked(g, s) && !Def(tab, s).isChoice
      modifies this
      ensures Advanced() && Own(g, s) && Looked(g, s) && Kept(g, {s})
      ensures g.Some? ==> x == DefaultTri(tab, g.value.sol, s)
      ensures g.Some? && WriteOwned(s) ==>
        (s in write <==>
         s in old(write) || FirstDefault(tab, g.value.sol, Def(tab, s).defaults, 0) < |Def(tab, s).defaults|)
      decreases needSet, Rest(), 10, 0
    {
      hide WellFormed, Exact, GoalOk, Own, Looked, Keeps, Eval, FirstDefault;
      OwnWf(g, s);
      var i, cond := FindDefault(s, g);
      KeptMore(tab, g, old(Now()), Now(), {}, {s});
      x := NO;
      if i < |Def(tab, s).defaults| {
        ghost var found := Now();
        Mark(s, g);
        OwnWf(g, s);
        ghost var marked := Now();
        var y := OwnDefault(s, i, g);
        KeptMore(tab, g, marked, Now(), {}, {s});
        KeptTwice(tab, g, old(Now()), found, marked, {s});
        KeptTwice(tab, g, old(Now()), marked, Now(), {s});
        x := TriAnd(y, cond);
      }
    }

    /** The boolean and tristate case of sym_calc_value, up to the selects. */
    method CalcBase(s: Sym, ghost g: Option<Goal>) returns (x: Tri)
      requires Own(g, s) && Looked(g, s) && IsLogical(Typ(tab.t, s))
      requires g.Some? && WriteOwned(s) ==> s !in write
      modifies this
      ensures Advanced() && Own(g, s) && Looked(g, s) && Kept(g, {s})
      ensures g.Some? ==> x == BaseTri(tab, g.value.u, g.value.sol, s, visible[s])
      ensures MarkedExactly(g, s)
      decreases needSet, Rest(), 11, 0
    {
      hide WellFormed, Exact, GoalOk, SymbolLayered, Visibility, RevTri, DefaultTri, FirstDefault, Plausible,
           Finished, Keeps, Own;
      OwnWf(g, s);
      UserNow(g, s);
      x := NO;
      if visible[s] != NO {
        if s in hasUser {
          Mark(s, g);
          x := TriAnd(user[s].tri, visible[s]);
          return;
        }
      }
      if visible[s] != NO || revTri[s] != NO {
        Mark(s, g);
      } else {
        KeptNothing(tab, g, Now());
        KeptMore(tab, g, Now(), Now(), {}, {s});
      }
      ghost var marked := Now();
      OwnWf(g, s);
      if !Def(tab, s).isChoice {
        x := CalcDefaultTri(s, g);
        KeptTwice(tab, g, old(Now()), marked, Now(), {s});
      }
    }

    lemma UserNow(g: Option<Goal>, s: Sym)
      requires Own(g, s)
      ensures g.Some? ==> user == g.value.u.val && s < |user|
    {
      hide WellFormed, GoalOk, SymbolLayered, Visibility, RevTri;
    }

    /** The boolean and tristate case of sym_calc_value. */
    method CalcTristate(s: Sym, ghost g: Option<Goal>) returns (x: Tri)
      requires Own(g, s) && Looked(g, s) && IsLogical(Typ(tab.t, s))
      requires g.Some? && WriteOwned(s) ==> s !in write
      modifies this
      ensures Advanced() && Own(g, s) && Looked(g, s) && Kept(g, {s})
      ensures Typ(tab.t, s) == Boolean ==> x != MOD
      ensures g.Some? ==> x == TriValue(tab, g.value.u, ModulesOf(tab, g.value), g.value.sol, s)
      ensures MarkedExactly(g, s)
      decreases needSet, Rest(), 12, 0
    {
      hide WellFormed, GoalOk, SymbolLayered, Visibility, RevTri, BaseTri, Marked, Layered, Exact, IsSolution;
      var c := Def(tab, s).choiceOf;
      if c.Some? && visible[s] == YES {
        if g.Some? {
          ChoiceFinished(g.value, s);
        }
        x := OfBool(Val(curr, c.value).pick == Some(s));
      } else {
        x := CalcBase(s, g);
        x := TriOr(x, revTri[s]);
      }
      if g.Some? {
        ModulesValueOwn(g.value, s);
      }
      if x == MOD && TypeNow(tab, modulesVal, s, visible[s]) == Boolean {
        x := YES;
      }
    }

    lemma ChoiceFinished(g: Goal, s: Sym)
      requires Own(Some(g), s) && Looked(Some(g), s) && Def(tab, s).choiceOf.Some?
      ensures Val(curr, Def(tab, s).choiceOf.value) == Val(g.sol, Def(tab, s).choiceOf.value)
    {
      assert Finished(g, Def(tab, s).choiceOf.value);
    }

    function UserOrDefault(g: Goal, s: Sym): string {
      if Visibility(tab, ModulesOf(tab, g), g.sol, s) != NO && s in g.u.has then Val(g.u.val, s).str
      else DefaultStr(tab, g.sol, s)
    }

    /** The string, int and hex case of sym_calc_value. */
    method CalcText(s: Sym, ghost g: Option<Goal>) returns (x: string)
      requires Own(g, s) && Looked(g, s) && IsTextual(Typ(tab.t, s))
      requires g.Some? && WriteOwned(s) ==> s !in write
      requires g.Some? ==> !Def(tab, s).isChoice
      modifies this
      ensures Advanced() && Own(g, s) && Looked(g, s) && Kept(g, {s})
      ensures g.Some? ==> x == UserOrDefault(g.value, s)
      ensures MarkedExactly(g, s)
      decreases needSet, Rest(), 11, 0
    {
      hide WellFormed, GoalOk, SymbolLayered, Visibility, RevTri, DefaultStr, FirstDefault, Plausible;
      if visible[s] != NO {
        Mark(s, g);
        if s in hasUser {
          x := user[s].str;
          return;
        }
      }
      x := CalcDefaultStr(s, g);
    }

    method CalcDefaultStr(s: Sym, ghost g: Option<Goal>) returns (x: string)
      requires Own(g, s) && Looked(g, s)
      requires g.Some? ==> !Def(tab, s).isChoice
      modifies this
      ensures Advanced() && Own(g, s) && Looked(g, s) && Kept(g, {s})
      ensures g.Some? ==> x == DefaultStr(tab, g.value.sol, s)
      ensures g.Some? && WriteOwned(s) ==>
        var ds := Def(tab, s).defaults;
        var k := FirstDefault(tab, g.value.sol, ds, 0);
        (s in write <==> s in old(write) || (k < |ds| && SymbolOf(ds[k].value).Some?))
      decreases needSet, Rest(), 10, 0
    {
      hide WellFormed, Exact, GoalOk, Own, Looked, Keeps, Eval, FirstDefault;
      OwnWf(g, s);
      var i, _ := FindDefault(s, g);
      KeptMore(tab, g, old(Now()), Now(), {}, {s});
      x := "";
      if i < |Def(tab, s).defaults| {
        var ds := SymbolOf(Def(tab, s).defaults[i].value);
        if ds.Some? {
          ghost var found := Now();
          Mark(s, g);
          OwnWf(g, s);
          LayeredParts(g, s);
          ghost var marked := Now();
          OwnRead(s, ds.value, g);
          KeptMore(tab, g, marked, Now(), {}, {s});
          KeptTwice(tab, g, old(Now()), found, marked, {s});
          KeptTwice(tab, g, old(Now()), marked, Now(), {s});
          x := Val(curr, ds.value).str;
        }
      }
    }

    /** sym_get_range_val. */
    method CalcRangeVal(s: Sym, b: Sym, base: nat, ghost g: Option<Goal>) returns (n: int)
      requires Own(g, s) && Looked(g, s)
      requires g.Some? ==> g.value.rank(b) < g.value.rank(s)
      modifies this
      ensures Advanced() && Own(g, s) && Looked(g, s) && Kept(g, {})
      ensures g.Some? ==> n == RangeVal(tab, g.value.sol, b, base)
      decreases needSet, Rest(), 9, 0
    {
      hide WellFormed, Exact, GoalOk, Own, Looked, Keeps, Strtoll;
      OwnRead(s, b, g);
      n := Strtoll(Val(curr, b).str, BaseOf(Typ(tab.t, b), base));
    }

    /** sym_get_range_prop. */
    method FindRange(s: Sym, ghost g: Option<Goal>) returns (i: nat)
      requires Own(g, s) && Looked(g, s)
      modifies this
      ensures Advanced() && Own(g, s) && Looked(g, s) && Kept(g, {})
      ensures i <= |Def(tab, s).ranges|
      ensures g.Some? ==> i == FirstRange(tab, g.value.sol, Def(tab, s).ranges, 0)
      decreases needSet, Rest(), 9, 0
    {
      hide WellFormed, Exact, GoalOk, Own, Looked, Keeps, EvalOpt, BelowOpt;
      LayeredParts(g, s);
      LookedWf(g, s);
      KeptNothing(tab, g, Now());
      i := 0;
      while i < |Def(tab, s).ranges|
        invariant i <= |Def(tab, s).ranges|
        invariant Advanced() && Own(g, s) && Looked(g, s) && Kept(g, {})
        invariant g.Some? ==>
          FirstRange(tab, g.value.sol, Def(tab, s).ranges, 0) == FirstRange(tab, g.value.sol, Def(tab, s).ranges, i)
      {
        ghost var before := Now();
        var cond := OwnOpt(s, Def(tab, s).ranges[i].cond, g);
        KeptTwice(tab, g, old(Now()), before, Now(), {});
        if cond != NO {
          return;
        }
        i := i + 1;
      }
    }

    /** sym_validate_range: the text moved into the active range. */
    method ValidateRange(s: Sym, str: string, ghost g: Option<Goal>) returns (x: string)
      requires Own(g, s) && Looked(g, s)
      modifies this
      ensures Advanced() && Own(g, s) && Looked(g, s) && Kept(g, {})
      ensures g.Some? ==> x == Validated(tab, g.value.sol, s, str)
      decreases needSet, Rest(), 10, 0
    {
      hide WellFormed, Exact, GoalOk, Own, Looked, Keeps, Strtoll, FormatNum, FirstRange, RangeVal, Plausible,
           SymbolLayered, Advances;
      ghost var n0 := Now();
      AdvancesNothing(tab, n0);
      x := str;
      LookedWf(g, s);
      KeptNothing(tab, g, Now());
      var y := Typ(tab.t, s);
      if y != Int && y != Hex {
        return;
      }
      LayeredParts(g, s);
      var i := FindRange(s, g);
      if i == |Def(tab, s).ranges| {
        return;
      }
      ghost var found := Now();
      StepFacts(tab, n0, found, {});
      var n := Strtoll(str, BaseOf(y, 0));
      var m := CalcRangeVal(s, Def(tab, s).ranges[i].lo, BaseOf(y, 0), g);
      ghost var low := Now();
      KeptTwice(tab, g, n0, found, low, {});
      AdvancesTwice(tab, n0, found, low, {});
      if n >= m {
        StepFacts(tab, n0, low, {});
        m := CalcRangeVal(s, Def(tab, s).ranges[i].hi, BaseOf(y, 0), g);
        KeptTwice(tab, g, n0, low, Now(), {});
        AdvancesTwice(tab, n0, low, Now(), {});
        if n <= m {
          return;
        }
      }
      x := FormatNum(y, m);
    }

    // ----- choices -----

    /** sym_calc_visibility beyond the prompts, for a member that is no choice
        value; the menus never build such a table. */
    method CalcSelects(x: Sym)
      requires Wf() && x < |tab.t| && Def(tab, x).choiceOf.None?
      modifies this
      ensures Advanced()
      decreases needSet, Rest(), 8, 0
    {
      hide WellFormed, GoalOk, Exact, Keeps, Plausible, Eval, PromptsTri, Below;
      var d := YES;
      if Def(tab, x).dirDep.Some? {
        d := CalcExpr(Def(tab, x).dirDep.value, None, 0, None);
      }
      dirTri := dirTri[x := if d == MOD then YES else d];
      var r := NO;
      if Def(tab, x).revDep.Some? {
        r := CalcExpr(Def(tab, x).revDep.value, None, 0, None);
      }
      revTri := revTri[x := if r == MOD && TypeNow(tab, modulesVal, x, visible[x]) == Boolean then YES else r];
    }

    /** A choice whose members are being looked at. */
    ghost predicate Choosing(g: Option<Goal>, s: Sym)
      reads this
    {
      Own(g, s) && Looked(g, s) && Def(tab, s).isChoice && IsLogical(Typ(tab.t, s)) && curr[s] == TENTATIVE
    }

    lemma MemberReadable(g: Goal, s: Sym, x: Sym)
      requires Choosing(Some(g), s) && x in Def(tab, s).values
      ensures x < |tab.t| && Def(tab, x).choiceOf == Some(s)
      ensures PromptsReadable(g, g.rank(s), Some(s), x) && ModulesSeen(x)
      ensures Context(Some(g), g.rank(s), Some(s))
    {
      assert SymbolLayered(tab, g.rank, x);
    }

    /** The visibility of one member, in view of the choice being y. */
    ghost predicate MemberSeen(g: Option<Goal>, s: Sym, x: Sym)
      reads this
      requires Wf()
    {
      g.Some? && x < |tab.t| ==>
        visible[x] == Visibility(tab, ModulesOf(tab, g.value), View(g.value, Some(s)), x)
    }

    method LookAtMember(s: Sym, x: Sym, ghost g: Option<Goal>)
      requires Choosing(g, s) && x in Def(tab, s).values && x < |tab.t|
      modifies this
      ensures Advanced() && Choosing(g, s) && Kept(g, {x})
      ensures MemberSeen(g, s, x)
      decreases needSet, Rest(), 11, 0
    {
      hide WellFormed, Exact, GoalOk, SymbolLayered, Visibility, RevTri, PromptsReadable, Plausible, IsSolution;
      if g.Some? {
        MemberReadable(g.value, s, x);
      }
      CalcShown(x, g, if g.Some? then g.value.rank(s) else 0, if g.Some? then Some(s) else None);
      if Def(tab, x).choiceOf.None? {
        CalcSelects(x);
      }
    }

    ghost function Members(s: Sym): set<Sym> {
      set x | x in Def(tab, s).values
    }

    /** The first n members of the choice have been looked at. */
    ghost predicate MembersSeen(g: Option<Goal>, s: Sym, n: nat)
      reads this
      requires Wf() && n <= |Def(tab, s).values|
    {
      forall j :: 0 <= j < n ==> MemberSeen(g, s, Def(tab, s).values[j])
    }

    /** A member seen once stays seen while the choice is under evaluation. */
    lemma MembersStaySeen(g: Option<Goal>, s: Sym, n: nat, before: seq<Tri>, x: Sym)
      requires Choosing(g, s) && n <= |Def(tab, s).values| && |before| == |tab.t|
      requires MemberSeen(g, s, x)
      requires g.Some? ==> forall y: Sym :: y < |tab.t| && y != x && Def(tab, y).choiceOf == Some(s) ==>
        visible[y] == before[y]
      requires g.Some? ==> forall j :: 0 <= j < n && Def(tab, s).values[j] < |tab.t| ==>
        before[Def(tab, s).values[j]] ==
          Visibility(tab, ModulesOf(tab, g.value), View(g.value, Some(s)), Def(tab, s).values[j])
      ensures MembersSeen(g, s, n)
    {
      hide WellFormed, Visibility, View, Exact, GoalOk, SymbolLayered, Layered, IsSolution;
      if g.Some? {
        forall j | 0 <= j < n
          ensures MemberSeen(g, s, Def(tab, s).values[j])
        {
          MemberReadable(g.value, s, Def(tab, s).values[j]);
        }
      }
    }

    method LookAtNext(s: Sym, j: nat, ghost g: Option<Goal>)
      requires Choosing(g, s) && j < |Def(tab, s).values| && MembersSeen(g, s, j)
      modifies this
      ensures Advanced() && Choosing(g, s) && Kept(g, Members(s))
      ensures MembersSeen(g, s, j + 1)
      decreases needSet, Rest(), 12, 0
    {
      hide WellFormed, Exact, GoalOk, SymbolLayered, Visibility, RevTri, View, Choosing, Plausible, Written, Layered,
           IsSolution, PicksMember, OwnsWrite;
      ChoosingWf(g, s);
      var x := Def(tab, s).values[j];
      if x < |tab.t| {
        ghost var before := visible;
        LookAtMember(s, x, g);
        MembersStaySeen(g, s, j, before, x);
      }
    }

    /** The first loop of sym_calc_choice. The result tells whether the choice and
        all its visible members carry a user value. */
    method LookAtMembers(s: Sym, ghost g: Option<Goal>) returns (keep: bool)
      requires Choosing(g, s)
      modifies this
      ensures Advanced() && Choosing(g, s) && Kept(g, Members(s))
      ensures MembersSeen(g, s, |Def(tab, s).values|)
      decreases needSet, Rest(), 13, 0
    {
      hide WellFormed, Exact, GoalOk, SymbolLayered, Visibility, RevTri, View, Choosing, MembersSeen, Plausible,
           Layered, Finished, IsSolution, PicksMember, Written;
      keep := s in hasUser;
      var j := 0;
      ChoosingWf(g, s);
      NoMembersSeen(g, s);
      while j < |Def(tab, s).values|
        invariant j <= |Def(tab, s).values|
        invariant Wf() && Advanced() && Choosing(g, s) && Kept(g, Members(s))
        invariant MembersSeen(g, s, j)
      {
        LookAtNext(s, j, g);
        var x := Def(tab, s).values[j];
        if x < |tab.t| && visible[x] != NO {
          keep := keep && x in hasUser;
        }
        j := j + 1;
      }
    }

    lemma NoMembersSeen(g: Option<Goal>, s: Sym)
      requires Wf()
      ensures MembersSeen(g, s, 0)
    {
    }

    lemma ChoosingWf(g: Option<Goal>, s: Sym)
      requires Choosing(g, s)
      ensures Wf() && s < |tab.t| && s in busy
    {
    }

    /** All members have been looked at. */
    ghost predicate Surveyed(g: Option<Goal>, s: Sym)
      reads this
    {
      Choosing(g, s) && MembersSeen(g, s, |Def(tab, s).values|)
    }

    lemma SurveyedValue(g: Goal, s: Sym, x: Sym)
      requires Surveyed(Some(g), s) && x in Def(tab, s).values
      ensures x < |tab.t|
      ensures visible[x] != NO <==> ValueVisible(tab, ModulesOf(tab, g), g.sol, s, x)
    {
      hide WellFormed, Visibility, SymbolLayered, IsSolution;
      MemberReadable(g, s, x);
      var j :| 0 <= j < |Def(tab, s).values| && Def(tab, s).values[j] == x;
      assert MemberSeen(Some(g), s, Def(tab, s).values[j]);
    }

    lemma ChoiceDefaultReadable(g: Goal, s: Sym, i: nat)
      requires Choosing(Some(g), s) && i < |Def(tab, s).defaults|
      ensures Context(Some(g), g.rank(s), Some(s))
      ensures BelowOpt(tab, g.rank, g.rank(s), Some(s), Def(tab, s).defaults[i].cond)
      ensures Def(tab, s).defaults[i].value.Symbol? && Def(tab, s).defaults[i].value.sym in Def(tab, s).values
    {
      BelowOptWeaken(tab, g.rank, g.rank(s), s, Def(tab, s).defaults[i].cond);
    }

    /** The condition of one default of a choice. */
    method CalcChoiceDefault(s: Sym, i: nat, ghost g: Option<Goal>) returns (x: Tri)
      requires Surveyed(g, s) && i < |Def(tab, s).defaults|
      modifies this
      ensures Advanced() && Surveyed(g, s) && Kept(g, {})
      ensures g.Some? ==> x == EvalOpt(W(tab, Put(g.value.sol, s, TENTATIVE)), Def(tab, s).defaults[i].cond)
      decreases needSet, Rest(), 8, 0
    {
      hide WellFormed, Exact, GoalOk, SymbolLayered, Visibility, RevTri, EvalOpt, Put, Layered;
      if g.Some? {
        ChoiceDefaultReadable(g.value, s, i);
      }
      x := CalcOpt(Def(tab, s).defaults[i].cond, g, if g.Some? then g.value.rank(s) else 0,
                   if g.Some? then Some(s) else None);
      if g.Some? {
        MembersReadable(g.value, s);
      }
    }

    lemma MembersReadable(g: Goal, s: Sym)
      requires Choosing(Some(g), s)
      ensures forall x :: x in Def(tab, s).values ==> x < |tab.t| && Def(tab, x).choiceOf == Some(s)
    {
      forall x | x in Def(tab, s).values
        ensures x < |tab.t| && Def(tab, x).choiceOf == Some(s)
      {
        MemberReadable(g, s, x);
      }
    }

    /** sym_choice_default: the first default that applies to a visible symbol. */
    method FindVisibleDefault(s: Sym, ghost g: Option<Goal>) returns (r: Option<Sym>)
      requires Surveyed(g, s)
      modifies this
      ensures Advanced() && Surveyed(g, s) && Kept(g, {})
      ensures g.Some? ==> r == DefaultPick(tab, ModulesOf(tab, g.value), g.value.sol, s, 0)
      decreases needSet, Rest(), 9, 0
    {
      hide WellFormed, Keeps, Exact, GoalOk, Own, Looked, EvalOpt, ValueVisible, MembersSeen, Choosing, Plausible,
           SymbolLayered, Layered;
      SurveyedChoosing(g, s);
      ChoosingWf(g, s);
      var i := 0;
      KeptNothing(tab, g, Now());
      while i < |Def(tab, s).defaults|
        invariant i <= |Def(tab, s).defaults|
        invariant Advanced() && Surveyed(g, s) && Kept(g, {})
        invariant g.Some? ==>
          DefaultPick(tab, ModulesOf(tab, g.value), g.value.sol, s, 0) ==
          DefaultPick(tab, ModulesOf(tab, g.value), g.value.sol, s, i)
      {
        ghost var before := Now();
        var cond := CalcChoiceDefault(s, i, g);
        KeptTwice(tab, g, old(Now()), before, Now(), {});
        var ds := SymbolOf(Def(tab, s).defaults[i].value);
        if g.Some? {
          ChoiceDefaultReadable(g.value, s, i);
          SurveyedValue(g.value, s, ds.value);
        }
        if cond != NO && ds.Some? && ds.value < |tab.t| && visible[ds.value] != NO {
          return ds;
        }
        i := i + 1;
      }
      r := None;
    }

    /** sym_choice_default: otherwise the first visible value. */
    method FindVisibleValue(s: Sym, ghost g: Option<Goal>) returns (r: Option<Sym>)
      requires Surveyed(g, s)
      ensures g.Some? ==> r == FirstVisible(tab, ModulesOf(tab, g.value), g.value.sol, s, 0)
    {
      hide WellFormed, Exact, GoalOk, Own, Looked, ValueVisible, MembersSeen, Choosing, SymbolLayered, IsSolution;
      ChoosingWf(g, s);
      var j := 0;
      while j < |Def(tab, s).values|
        invariant j <= |Def(tab, s).values|
        invariant g.Some? ==>
          FirstVisible(tab, ModulesOf(tab, g.value), g.value.sol, s, 0) ==
          FirstVisible(tab, ModulesOf(tab, g.value), g.value.sol, s, j)
      {
        var x := Def(tab, s).values[j];
        if g.Some? {
          SurveyedValue(g.value, s, x);
        }
        if x < |tab.t| && visible[x] != NO {
          return Some(x);
        }
        j := j + 1;
      }
      r := None;
    }

    /** sym_calc_choice: the symbol the choice picks, and whether the choice keeps
        its SYMBOL_DEF_USER flag. */
    method CalcChoice(s: Sym, ghost g: Option<Goal>) returns (pick: Option<Sym>, keep: bool)
      requires Choosing(g, s)
      modifies this
      ensures Advanced() && Choosing(g, s) && Kept(g, Members(s))
      ensures g.Some? ==> pick == Pick(tab, g.value.u, ModulesOf(tab, g.value), g.value.sol, s)
      decreases needSet, Rest(), 14, 0
    {
      hide WellFormed, Exact, GoalOk, Own, Looked, ValueVisible, MembersSeen, Choosing, DefaultPick, FirstVisible,
           SymbolLayered, Layered, PicksMember, Keeps, Advances;
      ghost var n0 := Now();
      ChoosingWf(g, s);
      keep := LookAtMembers(s, g);
      ghost var n1 := Now();
      StepFacts(tab, n0, n1, {});
      ChoosingWf(g, s);
      pick := user[s].pick;
      if g.Some? {
        UserPick(g.value, s);
      }
      if pick.Some? && pick.value < |tab.t| && visible[pick.value] != NO {
        return;
      }
      pick := FindVisibleDefault(s, g);
      ghost var n2 := Now();
      KeptMore(tab, g, n1, n2, {}, Members(s));
      KeptTwice(tab, g, n0, n1, n2, Members(s));
      AdvancesTwice(tab, n0, n1, n2, {});
      if pick.None? {
        pick := FindVisibleValue(s, g);
      }
    }

    lemma UserPick(g: Goal, s: Sym)
      requires Surveyed(Some(g), s)
      ensures user[s].pick == Val(g.u.val, s).pick
      ensures user[s].pick.Some? ==>
        var x := user[s].pick.value;
        x < |tab.t| && (visible[x] != NO <==> ValueVisible(tab, ModulesOf(tab, g), g.sol, s, x))
    {
      hide WellFormed, ValueVisible, MembersSeen, Surveyed, SymbolLayered, IsSolution;
      assert Choosing(Some(g), s) by { SurveyedChoosing(Some(g), s); }
      if user[s].pick.Some? {
        SurveyedValue(g, s, user[s].pick.value);
      }
    }

    lemma SurveyedChoosing(g: Option<Goal>, s: Sym)
      requires Surveyed(g, s)
      ensures Choosing(g, s)
    {
    }

    // ----- one symbol -----

    /** Advanced, for the frame that evaluates s. */
    twostate predicate AdvancedOwn(s: Sym)
      reads this
    {
      && Wf() && Advances(tab, old(Now()), Now(), {s})
      && (tab.modules in busy ==> modulesVal == old(modulesVal))
    }

    method SetCurr(s: Sym, x: Value, ghost g: Option<Goal>)
      requires Own(g, s) && Looked(g, s) && IsTyped(Typ(tab.t, s)) && Plausible(tab.t, s, x)
      modifies this`curr
      ensures Own(g, s) && Looked(g, s) && curr == old(curr)[s := x]
    {
      hide GoalOk, SymbolLayered, Visibility, RevTri;
      curr := curr[s := x];
    }

    /** sym_calc_value for a boolean or tristate symbol, up to its choice. */
    method WorkLogical(s: Sym, ghost g: Option<Goal>)
      requires Own(g, s) && Looked(g, s) && IsLogical(Typ(tab.t, s))
      requires g.Some? && WriteOwned(s) ==> s !in write
      modifies this
      ensures AdvancedOwn(s) && Own(g, s) && Looked(g, s) && Kept(g, {s})
      ensures MarkedExactly(g, s)
      ensures curr[s].str == "n" && curr[s].pick == None
      ensures g.Some? ==> curr[s].tri == TriValue(tab, g.value.u, ModulesOf(tab, g.value), g.value.sol, s)
      decreases needSet, Rest(), 15, 0
    {
      hide WellFormed, Exact, GoalOk, Own, Looked, TriValue, Marked, IsShielded;
      LookedWf(g, s);
      SetCurr(s, Value(NO, "n", None), g);
      var x := CalcTristate(s, g);
      LookedWf(g, s);
      SetCurr(s, Value(x, "n", None), g);
      LookedWf(g, s);
    }

    /** sym_calc_value for a string, int or hex symbol, up to its range. */
    method WorkText(s: Sym, ghost g: Option<Goal>)
      requires Own(g, s) && Looked(g, s) && IsTextual(Typ(tab.t, s))
      requires g.Some? && WriteOwned(s) ==> s !in write
      modifies this
      ensures AdvancedOwn(s) && Own(g, s) && Looked(g, s) && Kept(g, {s})
      ensures MarkedExactly(g, s)
      ensures curr[s].tri == NO && curr[s].pick == None
      ensures g.Some? ==> curr[s].str == UserOrDefault(g.value, s)
      decreases needSet, Rest(), 15, 0
    {
      hide WellFormed, Exact, GoalOk, Own, Looked, Marked, StrValue, UserOrDefault, Validated, Written;
      LookedWf(g, s);
      SetCurr(s, Value(NO, "", None), g);
      if g.Some? {
        TextualPlain(g.value, s);
      }
      var x := CalcText(s, g);
      LookedWf(g, s);
      SetCurr(s, Value(NO, x, None), g);
      LookedWf(g, s);
    }

    /** The call of sym_validate_range. */
    method WorkRange(s: Sym, ghost g: Option<Goal>)
      requires Own(g, s) && Looked(g, s) && IsTextual(Typ(tab.t, s))
      requires curr[s].tri == NO && curr[s].pick == None
      modifies this
      ensures AdvancedOwn(s) && Own(g, s) && Looked(g, s) && Kept(g, {})
      ensures curr[s].tri == NO && curr[s].pick == None
      ensures g.Some? ==> curr[s].str == Validated(tab, g.value.sol, s, old(curr[s].str))
      decreases needSet, Rest(), 15, 0
    {
      hide WellFormed, Exact, GoalOk, Own, Looked, Validated, IsShielded;
      LookedWf(g, s);
      var y := ValidateRange(s, curr[s].str, g);
      LookedWf(g, s);
      SetCurr(s, Value(NO, y, None), g);
      LookedWf(g, s);
    }

    method WorkTextual(s: Sym, ghost g: Option<Goal>)
      requires Own(g, s) && Looked(g, s) && IsTextual(Typ(tab.t, s))
      requires g.Some? && WriteOwned(s) ==> s !in write
      modifies this
      ensures AdvancedOwn(s) && Own(g, s) && Looked(g, s) && Kept(g, {s})
      ensures MarkedExactly(g, s)
      ensures g.Some? ==>
        curr[s] == Value(NO, StrValue(tab, g.value.u, ModulesOf(tab, g.value), g.value.sol, s), None)
      decreases needSet, Rest(), 16, 0
    {
      hide WellFormed, Exact, GoalOk, Own, Looked, Marked, StrValue, UserOrDefault, Validated, Plausible;
      LookedWf(g, s);
      WorkText(s, g);
      LookedWf(g, s);
      WorkRange(s, g);
      LookedWf(g, s);
      if g.Some? {
        TextualPlain(g.value, s);
      }
    }

    lemma TextualPlain(g: Goal, s: Sym)
      requires Own(Some(g), s) && IsTextual(Typ(tab.t, s))
      ensures !Def(tab, s).isChoice
      ensures StrValue(tab, g.u, ModulesOf(tab, g), g.sol, s) == Validated(tab, g.sol, s, UserOrDefault(g, s))
    {
      hide WellFormed, Visibility, Validated, DefaultStr, Plausible, Layered, GoalOk, Exact;
    }

    /** Everything about s is as the goal has it. */
    ghost predicate Settled(g: Option<Goal>, s: Sym)
      reads this
    {
      && Own(g, s)
      && (g.Some? ==>
           && |g.value.sol| == |tab.t|
           && visible[s] == Visibility(tab, ModulesOf(tab, g.value), g.value.sol, s)
           && revTri[s] == RevTri(tab, ModulesOf(tab, g.value), g.value.sol, s)
           && (Def(tab, s).choiceOf.Some? ==> Def(tab, s).choiceOf.value in valid - busy)
           && curr[s] == g.value.sol[s])
    }

    lemma SettledByCompute(g: Goal, s: Sym)
      requires Own(Some(g), s) && Looked(Some(g), s)
      requires curr[s] == Compute(tab, g.u, ModulesOf(tab, g), g.sol, s)
      ensures Settled(Some(g), s)
    {
      hide WellFormed, Compute, Visibility, RevTri, SymbolLayered, Plausible, Layered, Exact, PicksMember;
    }

    /** Writing back what sym_calc_choice found. */
    method SetChoice(s: Sym, x: Value, keep: bool, ghost g: Option<Goal>)
      requires Own(g, s) && Looked(g, s) && IsTyped(Typ(tab.t, s)) && Def(tab, s).isChoice && Plausible(tab.t, s, x)
      requires g.Some? ==> x == Compute(tab, g.value.u, ModulesOf(tab, g.value), g.value.sol, s)
      modifies this`curr, this`hasUser
      ensures Settled(g, s)
      ensures curr == old(curr)[s := x]
      ensures hasUser == old(hasUser) || hasUser == old(hasUser) - {s}
    {
      hide Compute, Visibility, RevTri, SymbolLayered, GoalOk;
      if g.Some? {
        SolutionAt(g.value, s);
      }
      curr := curr[s := x];
      if !keep {
        hasUser := hasUser - {s};
      }
    }

    lemma SolutionAt(g: Goal, s: Sym)
      requires Own(Some(g), s)
      ensures |g.sol| == |tab.t| && g.sol[s] == Compute(tab, g.u, ModulesOf(tab, g), g.sol, s)
    {
      hide WellFormed, Compute, SymbolLayered, Finished, PicksMember;
    }

    /** sym_calc_value, for a choice worth y. */
    method WorkChoice(s: Sym, ghost g: Option<Goal>)
      requires Choosing(g, s)
      requires g.Some? ==> TriValue(tab, g.value.u, ModulesOf(tab, g.value), g.value.sol, s) == YES
      modifies this
      ensures AdvancedOwn(s) && Settled(g, s) && Kept(g, {s} + Members(s))
      ensures g.Some? && WriteOwned(s) ==> (s in write <==> s in old(write))
      decreases needSet, Rest(), 16, 0
    {
      hide WellFormed, Exact, GoalOk, Own, Looked, Choosing, TriValue, Pick, Settled, PicksMember, Layered, Compute,
           IsShielded, Written;
      ChoosingWf(g, s);
      var pick, keep := CalcChoice(s, g);
      var x := Value(if pick.None? then NO else YES, "n", pick);
      ChoosingParts(g, s);
      if g.Some? {
        NotItsOwnMember(g.value, s);
        ComputeChoice(g.value, s);
      }
      SetChoice(s, x, keep, g);
      SettledWf(g, s);
    }

    lemma ComputeChoice(g: Goal, s: Sym)
      requires IsLogical(Typ(tab.t, s)) && Def(tab, s).isChoice
      requires TriValue(tab, g.u, ModulesOf(tab, g), g.sol, s) == YES
      ensures var p := Pick(tab, g.u, ModulesOf(tab, g), g.sol, s);
        Compute(tab, g.u, ModulesOf(tab, g), g.sol, s) == Value(if p.None? then NO else YES, "n", p)
    {
      hide WellFormed, TriValue, Pick, Visibility;
    }

    lemma ComputePlain(g: Goal, s: Sym, x: Value)
      requires IsTyped(Typ(tab.t, s))
      requires IsLogical(Typ(tab.t, s)) ==>
        x == Value(TriValue(tab, g.u, ModulesOf(tab, g), g.sol, s), "n", None)
        && !(Def(tab, s).isChoice && x.tri == YES)
      requires IsTextual(Typ(tab.t, s)) ==> x == Value(NO, StrValue(tab, g.u, ModulesOf(tab, g), g.sol, s), None)
      ensures Compute(tab, g.u, ModulesOf(tab, g), g.sol, s) == x
    {
      hide WellFormed, TriValue, StrValue, Visibility;
    }

    lemma ChoosingParts(g: Option<Goal>, s: Sym)
      requires Choosing(g, s)
      ensures Own(g, s) && Looked(g, s) && Def(tab, s).isChoice && IsLogical(Typ(tab.t, s))
    {
    }

    lemma SettledWf(g: Option<Goal>, s: Sym)
      requires Settled(g, s)
      ensures Wf()
    {
    }

    lemma NotItsOwnMember(g: Goal, s: Sym)
      requires Choosing(Some(g), s)
      ensures s !in Members(s)
    {
      hide WellFormed, Visibility, RevTri, View, SymbolLayered, IsSolution;
      if s in Members(s) {
        MemberReadable(g, s, s);
      }
    }

    method Unmark(s: Sym, ghost g: Option<Goal>)
      requires Own(g, s)
      modifies this`write
      ensures Own(g, s) && write == old(write) - {s}
    {
      hide WellFormed, GoalOk, SymbolLayered, Visibility, RevTri, Plausible;
      write := write - {s};
    }

    /** sym_calc_value for a boolean or tristate symbol, its choice included. */
    method WorkLogicalOrChoice(s: Sym, ghost g: Option<Goal>)
      requires Own(g, s) && Looked(g, s) && IsLogical(Typ(tab.t, s))
      requires g.Some? && WriteOwned(s) ==> s !in write
      modifies this
      ensures AdvancedOwn(s) && Settled(g, s) && Kept(g, {s} + Members(s))
      ensures MarkedExactly(g, s)
      decreases needSet, Rest(), 17, 0
    {
      hide WellFormed, Exact, GoalOk, Own, Looked, TriValue, Marked, Settled, Compute, Choosing, SymbolLayered;
      LookedWf(g, s);
      WorkLogical(s, g);
      LookedWf(g, s);
      if Def(tab, s).isChoice && curr[s].tri == YES {
        ChoosingNow(g, s);
        WorkChoice(s, g);
      } else {
        if g.Some? {
          ComputePlain(g.value, s, curr[s]);
          SettledByCompute(g.value, s);
        } else {
          SettledTrivially(s);
        }
      }
    }

    lemma ChoosingNow(g: Option<Goal>, s: Sym)
      requires Own(g, s) && Looked(g, s) && IsLogical(Typ(tab.t, s)) && Def(tab, s).isChoice
      requires curr[s] == TENTATIVE
      ensures Choosing(g, s)
    {
    }

    method WorkValue(s: Sym, ghost g: Option<Goal>)
      requires Own(g, s) && Looked(g, s) && IsTyped(Typ(tab.t, s))
      requires g.Some? && WriteOwned(s) ==> s !in write
      modifies this
      ensures AdvancedOwn(s) && Settled(g, s) && Kept(g, {s} + Members(s))
      ensures MarkedExactly(g, s)
      decreases needSet, Rest(), 18, 0
    {
      hide WellFormed, Exact, GoalOk, Own, Looked, StrValue, Marked, Settled, Compute;
      if IsLogical(Typ(tab.t, s)) {
        WorkLogicalOrChoice(s, g);
      } else {
        LookedWf(g, s);
        WorkTextual(s, g);
        if g.Some? {
          ComputePlain(g.value, s, curr[s]);
          SettledByCompute(g.value, s);
        } else {
          SettledTrivially(s);
        }
      }
    }

    /** The part of sym_calc_value between setting VALID and noticing the change. */
    method Work(s: Sym, ghost g: Option<Goal>)
      requires Own(g, s) && IsTyped(Typ(tab.t, s))
      requires g.Some? ==> (s in hasUser <==> s in g.value.u.has)
      modifies this
      ensures AdvancedOwn(s) && Settled(g, s) && Kept(g, {s} + Members(s))
      ensures MarkedExactly(g, s)
      decreases needSet, Rest(), 19, 0
    {
      hide WellFormed, Exact, GoalOk, Own, Looked, Marked, Settled, SymbolLayered, Wf, Advances, Keeps;
      ghost var n0 := Now();
      OwnSizes(g, s);
      if Def(tab, s).choiceOf.None? {
        Unmark(s, g);
      }
      ghost var n1 := Now();
      CalcVisibility(s, g);
      ghost var n2 := Now();
      StepFacts(tab, n1, n2, {});
      WorkValue(s, g);
      SettledWf(g, s);
      StepFacts(tab, n2, Now(), {s});
      WorkFrames(tab, g, n0, n1, n2, Now(), s, Members(s));
    }

    lemma OwnSizes(g: Option<Goal>, s: Sym)
      requires Own(g, s)
      ensures Wf() && s < |tab.t| && s in busy && |visible| == |revTri| == |tab.t|
    {
      hide WellFormed;
    }

    lemma SettledTrivially(s: Sym)
      requires Own(None, s)
      ensures Settled(None, s)
    {
    }

    /** VALID is set before anything is computed, so a cycle finds the default. */
    method Begin(s: Sym, ghost g: Option<Goal>)
      requires Wf() && Callable(g, s) && s < |tab.t| && IsTyped(Typ(tab.t, s)) && s !in busy
      requires g.Some? ==> s !in valid
      modifies this`valid, this`busy
      ensures valid == old(valid) + {s} && busy == old(busy) + {s}
      ensures Own(g, s)
      ensures g.Some? ==> (s in hasUser <==> s in g.value.u.has)
    {
      hide WellFormed, Visibility, RevTri, Plausible, IsSolution, PicksMember, Layered;
      BeginLayered(s, g);
      valid := valid + {s};
      busy := busy + {s};
    }

    lemma BeginLayered(s: Sym, g: Option<Goal>)
      requires Wf() && Callable(g, s) && s < |tab.t| && IsTyped(Typ(tab.t, s))
      ensures g.Some? ==> SymbolLayered(tab, g.value.rank, s)
    {
      hide WellFormed, Visibility, RevTri, Finished, Plausible, IsSolution, PicksMember, SymbolLayered;
    }

    /** The update of modules_val. */
    method NoteChange(s: Sym, was: Value, ghost g: Option<Goal>)
      requires Settled(g, s)
      requires s == tab.modules ==> modulesVal == was.tri
      modifies this`modulesVal
      ensures Settled(g, s)
      ensures if s == tab.modules then modulesVal == curr[s].tri else modulesVal == old(modulesVal)
    {
      hide WellFormed, Visibility, RevTri, GoalOk, SymbolLayered;
      if curr[s] != was && s == tab.modules {
        modulesVal := curr[s].tri;
      }
    }

    /** The last WRITE flags: visible members of a written choice get one, and
        environment symbols lose theirs. */
    method FinishMarks(s: Sym, ghost g: Option<Goal>)
      requires Settled(g, s) && MarkedExactly(g, s)
      modifies this`write
      ensures Settled(g, s)
      ensures g.Some? ==> forall b: Sym :: b < |tab.t| && WriteOwned(b) && b != s ==> (b in write <==> b in old(write))
      ensures g.Some? && WriteOwned(s) ==> (s in write <==> Written(tab, ModulesOf(tab, g.value), g.value.sol, s))
    {
      hide WellFormed, Visibility, RevTri, Marked, GoalOk, SymbolLayered, Plausible;
      MarkMembers(s, g);
      if Def(tab, s).auto {
        write := write - {s};
      }
    }

    method End(s: Sym, ghost g: Option<Goal>)
      requires Settled(g, s)
      requires s == tab.modules ==> modulesVal == curr[s].tri
      modifies this`busy
      ensures Wf() && busy == old(busy) - {s}
      ensures g.Some? ==> Exact(g.value) && GoalOk(tab, g.value)
    {
      hide WellFormed, Visibility, RevTri, GoalOk, SymbolLayered;
      busy := busy - {s};
    }

    method MarkMembers(s: Sym, ghost g: Option<Goal>)
      requires Wf() && s < |tab.t|
      requires g.Some? ==> IsTyped(Typ(tab.t, s)) && SymbolLayered(tab, g.value.rank, s)
      modifies this`write
      ensures g.Some? ==> forall b: Sym :: WriteOwned(b) ==> (b in write <==> b in old(write))
    {
      if Def(tab, s).isChoice && s in write {
        write := write + set x | x in Def(tab, s).values && x < |tab.t| && visible[x] != NO;
      }
    }

    /** No frame other than the one about to begin looks at the visibilities it
        will compute. */
    lemma NotShielded(g: Goal, s: Sym)
      requires Wf() && Callable(Some(g), s) && s < |tab.t| && IsTyped(Typ(tab.t, s)) && s !in valid
      ensures !Shielded(s, valid - busy)
      ensures forall x :: x in Members(s) ==> !Shielded(x, valid - busy) && !WriteOwned(x)
    {
      hide WellFormed, Visibility, RevTri, Exact, IsSolution, PicksMember;
      assert SymbolLayered(tab, g.rank, s);
      forall x | x in Members(s)
        ensures !Shielded(x, valid - busy) && !WriteOwned(x)
      {
      }
    }

    /** Advanced, when the frame that evaluates s is about to end. */
    twostate predicate AdvancedEnd(s: Sym)
      reads this
      requires s < |curr|
    {
      && Wf() && Advances(tab, old(Now()), Now(), {s})
      && (s == tab.modules ==> modulesVal == curr[s].tri)
    }

    method WorkAll(s: Sym, was: Value, ghost g: Option<Goal>)
      requires Own(g, s) && IsTyped(Typ(tab.t, s))
      requires g.Some? ==> (s in hasUser <==> s in g.value.u.has)
      requires s == tab.modules ==> modulesVal == was.tri
      modifies this
      ensures Wf() && s < |tab.t| && AdvancedEnd(s) && Settled(g, s) && Kept(g, {s} + Members(s))
      ensures g.Some? && WriteOwned(s) ==> (s in write <==> Written(tab, ModulesOf(tab, g.value), g.value.sol, s))
      decreases needSet, Rest(), 20, 0
    {
      hide WellFormed, Exact, GoalOk, Own, Settled, Marked, Written, Plausible, PicksMember;
      OwnWf(g, s);
      Work(s, g);
      NoteChange(s, was, g);
      SettledWf(g, s);
      FinishMarks(s, g);
      SettledWf(g, s);
    }

    method CalcTyped(s: Sym, ghost g: Option<Goal>)
      requires Wf() && Callable(g, s) && s < |tab.t| && IsTyped(Typ(tab.t, s)) && s !in busy
      requires g.Some? ==> s !in valid
      modifies this
      ensures Advanced() && Kept(g, {}) && (needSet == old(needSet) ==> s in valid)
      ensures g.Some? ==> Exact(g.value) && GoalOk(tab, g.value)
      decreases needSet, Rest() - {s}, 21, 0
    {
      hide WellFormed, Exact, GoalOk, Own, Callable, Settled, Written, Visibility, RevTri, Plausible, SymbolLayered,
           Layered, Finished, Keeps, Advances, IsShielded, Wf;
      ghost var n0 := Now();
      TypedStart(g, s);
      var was := curr[s];
      Begin(s, g);
      OwnWf(g, s);
      ghost var n1 := Now();
      WorkAll(s, was, g);
      ghost var n2 := Now();
      SettledWf(g, s);
      End(s, g);
      FrameAdvances(tab, n0, n1, n2, Now(), s);
      FrameKeeps(tab, g, n0, n1, n2, Now(), s, Members(s));
    }

    lemma TypedStart(g: Option<Goal>, s: Sym)
      requires Wf() && Callable(g, s) && s < |tab.t| && IsTyped(Typ(tab.t, s)) && s !in busy
      requires g.Some? ==> s !in valid
      ensures s < |curr| && (s == tab.modules ==> modulesVal == curr[s].tri)
      ensures busy <= valid && |visible| == |revTri| == |tab.t|
      ensures g.Some? ==> s !in valid && NoneShielded(tab, {s} + Members(s), busy, valid - busy)
      ensures g.Some? ==> forall x :: x in Members(s) ==> !OwnsWrite(tab, x)
    {
      hide WellFormed, Exact, GoalOk, Visibility, RevTri, Plausible, Layered, IsShielded;
      if g.Some? {
        NotShielded(g.value, s);
      }
    }

    /** The early return of sym_calc_value for an untyped symbol: its name. */
    method CalcUntyped(s: Sym, ghost g: Option<Goal>)
      requires Wf() && Callable(g, s) && s < |tab.t| && !IsTyped(Typ(tab.t, s))
      requires s !in busy && s != MOD_SYM && s != YES_SYM
      modifies this`curr, this`valid
      ensures Advanced() && Kept(g, {}) && s in valid
      ensures g.Some? ==> Exact(g.value) && GoalOk(tab, g.value)
    {
      hide Visibility, RevTri, GoalOk, IsShielded, Written, Keeps;
      UntypedGoal(g, s);
      ghost var n0 := Now();
      valid := valid + {s};
      curr := curr[s := Value(NO, Name(tab.t, s), None)];
      KeptUntyped(tab, g, n0, Now(), s);
    }

    lemma UntypedGoal(g: Option<Goal>, s: Sym)
      requires Wf() && Callable(g, s) && s < |tab.t| && !IsTyped(Typ(tab.t, s)) && s != MOD_SYM && s != YES_SYM
      ensures Constant(tab.t, s) == Value(NO, Name(tab.t, s), None)
      ensures g.Some? ==>
        GoalOk(tab, g.value) && Exact(g.value) && s < |g.value.sol| && g.value.sol[s] == Constant(tab.t, s)
    {
      hide Visibility, RevTri, Layered, PicksMember, TriValue, StrValue, Pick, Finished, Plausible;
    }

    /** The users' values with n for the symbols in s. */
    ghost function Unset(v: Values, s: set<Sym>): Values {
      seq(|v|, x requires 0 <= x < |v| => if x in s then v[x].(tri := NO) else v[x])
    }

    lemma UnsetMeans(v: Values, s: set<Sym>, x: Sym)
      requires x < |v|
      ensures |Unset(v, s)| == |v| && Unset(v, s)[x] == if x in s then Value(NO, v[x].str, v[x].pick) else v[x]
    {
    }

    /** Its loop over the values. */
    method UnsetMembers(c: Sym)
      requires Wf() && c < |tab.t|
      modifies this`user
      ensures Wf() && |user| == |old(user)| && user == Unset(old(user), Members(c) - hasUser)
    {
      hide WellFormed, Plausible, Constant;
      var j := 0;
      while j < |Def(tab, c).values|
        invariant j <= |Def(tab, c).values| && |user| == |tab.t|
        invariant forall x: Sym :: x < |user| ==>
          user[x] == if x in Def(tab, c).values[..j] && x !in hasUser then old(user)[x].(tri := NO) else old(user)[x]
        modifies this`user
      {
        var x := Def(tab, c).values[j];
        if x < |tab.t| && x !in hasUser {
          user := user[x := user[x].(tri := NO)];
        }
        j := j + 1;
      }
    }

    /** set_all_choice_values, which only conf_set_all_new_symbols prepares for:
        the values of the choice nobody set become n. */
    method SetAllChoiceValues(c: Sym)
      requires Wf() && c < |tab.t| && c !in busy && c in needSet && c != MOD_SYM && c != YES_SYM
      modifies this`user, this`hasUser, this`valid, this`needSet
      ensures Wf() && needSet == old(needSet) - {c}
      ensures valid == old(valid) - {c}
      ensures hasUser == old(hasUser) + {c}
      ensures user == Unset(old(user), Members(c) - old(hasUser))
    {
      hide WellFormed, Plausible, Constant, Unset;
      UnsetMembers(c);
      hasUser := hasUser + {c};
      valid := valid - {c};
      needSet := needSet - {c};
    }

    /** sym_calc_value. */
    method CalcValue(s: Sym, ghost g: Option<Goal>)
      requires Wf() && Callable(g, s)
      modifies this
      ensures Advanced() && Callable(g, s) && Kept(g, {})
      ensures g.Some? && s < |tab.t| ==> s in valid
      ensures s in old(valid) ==> unchanged(this)
      decreases needSet, Rest(), 0, 0
    {
      hide WellFormed, Exact, GoalOk, Keeps, Advances, Callable, Wf;
      ghost var n0 := Now();
      CalcStart(g, s);
      if s >= |tab.t| || s in valid {
        return;
      }
      var c := Def(tab, s).choiceOf;
      if c.Some? && s in needSet {
        CalcChoiceFirst(s, c.value);
        ghost var n1 := Now();
        CallableAgain(None, s);
        CalcFresh(s, None);
        AdvancesTwice(tab, n0, n1, Now(), {});
      } else {
        CalcFresh(s, g);
      }
      CallableAgain(g, s);
    }

    lemma CalcStart(g: Option<Goal>, s: Sym)
      requires Wf() && Callable(g, s)
      ensures Advances(tab, Now(), Now(), {}) && (g.Some? ==> Keeps(tab, g.value, Now(), Now(), {}))
      ensures g.Some? ==> needSet == {}
      ensures s < |tab.t| && s !in valid ==> s !in busy && s != MOD_SYM && s != YES_SYM && s in Rest()
    {
      hide WellFormed, Exact, GoalOk, Keeps, Unset;
      CallableExact(g, s);
      KeptNothing(tab, g, Now());
    }

    lemma CallableAgain(g: Option<Goal>, s: Sym)
      requires g.Some? ==> Exact(g.value) && GoalOk(tab, g.value) && (s < |tab.t| ==> s in valid)
      ensures Callable(g, s)
    {
      hide WellFormed, Exact, GoalOk;
    }

    /** The choice of a member that waits for its choice's values to be set. */
    method CalcChoiceFirst(s: Sym, c: Sym)
      requires Wf() && s in needSet && s in Rest() && s < |tab.t| && s !in busy && s != MOD_SYM && s != YES_SYM
      modifies this
      ensures Advanced() && needSet < old(needSet) && s !in busy
      decreases needSet, Rest() - {s}, 0, 0
    {
      hide WellFormed, Exact, GoalOk, Keeps;
      needSet := needSet - {s};
      CalcValue(c, None);
    }

    /** The evaluation proper. */
    method CalcFresh(s: Sym, ghost g: Option<Goal>)
      requires Wf() && Callable(g, s) && s < |tab.t| && s !in busy && s != MOD_SYM && s != YES_SYM
      requires g.Some? ==> s !in valid
      modifies this
      ensures Advanced() && Kept(g, {})
      ensures g.Some? ==> Exact(g.value) && GoalOk(tab, g.value) && s in valid
      decreases needSet, Rest() - {s}, 22, 0
    {
      hide WellFormed, Exact, GoalOk, Keeps, Unset;
      CallableExact(g, s);
      if IsTyped(Typ(tab.t, s)) {
        CalcTyped(s, g);
      } else {
        CalcUntyped(s, g);
      }
      if s in needSet {
        SetAllChoiceValues(s);
      }
    }

    // ----- sessions -----

    /** A table as the parser leaves it, nothing evaluated and no user values. */
    constructor (table: Table)
      requires WellFormed(table.t) && |table.d| == |table.t|
      requires table.modules < |table.t| && table.modules != MOD_SYM && table.modules != YES_SYM
      ensures tab == table && Wf() && Idle()
      ensures valid == {NO_SYM, MOD_SYM, YES_SYM} && hasUser == {}
      ensures forall s: Sym :: s < |tab.t| ==> user[s] == Value(NO, "", None)
    {
      tab := table;
      var n := |table.t|;
      curr := seq(n, s requires 0 <= s < n =>
        if IsTyped(Typ(table.t, s)) then Value(NO, "", None) else Constant(table.t, s));
      visible, dirTri, revTri := seq(n, _ => NO), seq(n, _ => NO), seq(n, _ => NO);
      user := seq(n, _ => Value(NO, "", None));
      valid, write, hasUser, needSet, busy := {NO_SYM, MOD_SYM, YES_SYM}, {}, {}, {}, {};
      modulesVal := NO;
    }

    /** Between two calls of the evaluator. */
    ghost predicate Idle()
      reads this
    {
      busy == {} && needSet == {}
    }

    /** What an evaluation from scratch would give. */
    ghost function Target(rank: Rank): Goal
      reads this
    {
      Goal(rank, Users(hasUser, user), Solved(tab, rank, Users(hasUser, user)))
    }

    ghost predicate Ready(rank: Rank)
      reads this
    {
      Wf() && Idle() && Layered(tab, rank) && PicksMember(tab, Users(hasUser, user))
    }

    lemma TargetOk(rank: Rank)
      requires Ready(rank)
      ensures GoalOk(tab, Target(rank))
    {
      SolvedIsSolution(tab, rank, Users(hasUser, user));
    }

    method DropValid(ghost rank: Rank)
      requires Ready(rank)
      modifies this`valid
      ensures Ready(rank) && Exact(Target(rank)) && GoalOk(tab, Target(rank))
      ensures valid == {NO_SYM, MOD_SYM, YES_SYM}
    {
      hide Layered, PicksMember, Visibility, RevTri, Solved, TriValue, StrValue, Pick, Plausible;
      TargetOk(rank);
      valid := {NO_SYM, MOD_SYM, YES_SYM};
    }

    /** sym_clear_all_valid. */
    method ClearAllValid(ghost rank: Rank)
      requires Ready(rank)
      modifies this
      ensures Wf() && Idle() && Exact(old(Target(rank))) && GoalOk(tab, old(Target(rank)))
      ensures tab.modules in valid && WritesExact(old(Target(rank)))
    {
      hide Layered, PicksMember, Visibility, RevTri, Solved, Finished, IsSolution, Written, Plausible;
      ghost var g := Target(rank);
      DropValid(rank);
      CalcValue(tab.modules, Some(g));
    }

    /** Evaluation has left the WRITE flags as it should. */
    ghost predicate WritesExact(g: Goal)
      reads this
    {
      forall s: Sym :: s in valid && s < |tab.t| && OwnsWrite(tab, s) ==>
        (s in write <==> Written(tab, ModulesOf(tab, g), g.sol, s))
    }

    /** Memoised evaluation is exact: after sym_clear_all_valid, any sequence of
        calls of sym_calc_value leaves every valid symbol with the value, the
        visibility and the selects that evaluation from scratch gives it. */
    method Recalculate(order: seq<Sym>, ghost rank: Rank)
      requires Ready(rank)
      modifies this
      ensures Wf() && Idle()
      ensures forall i :: 0 <= i < |order| && order[i] < |tab.t| ==> order[i] in valid
      ensures var u := Users(old(hasUser), old(user));
        forall s: Sym :: s < |tab.t| && s in valid ==> Finished(Goal(rank, u, Solved(tab, rank, u)), s)
    {
      hide Layered, PicksMember, Visibility, RevTri, Solved, Finished, IsSolution, Keeps, Plausible, WellFormed,
           GoalOk, Written;
      ghost var g := Target(rank);
      ClearAllValid(rank);
      var i := 0;
      while i < |order|
        invariant 0 <= i <= |order|
        invariant Wf() && Idle() && Exact(g) && GoalOk(tab, g) && tab.modules in valid
        invariant forall j :: 0 <= j < i && order[j] < |tab.t| ==> order[j] in valid
      {
        CalcValue(order[i], Some(g));
        i := i + 1;
      }
    }

    /** sym_tristate_within_range: what is within range of the configuration
        evaluated last. */
    method TristateWithinRange(s: Sym, val: Tri, ghost rank: Rank) returns (ok: bool)
      requires Current(rank, s)
      ensures ok <==> WithinRange(tab, Target(rank).sol, s, val)
    {
      hide Layered, PicksMember, Solved, WellFormed, Visibility, RevTri, Exact;
      CurrentRange(rank, s, val);
      var y := TypeNow(tab, modulesVal, s, visible[s]);
      if visible[s] == NO {
        return false;
      }
      if y != Boolean && y != Tristate {
        return false;
      }
      if y == Boolean && val == MOD {
        return false;
      }
      if visible[s] <= revTri[s] {
        return false;
      }
      if Def(tab, s).choiceOf.Some? && visible[s] == YES {
        return val == YES;
      }
      return revTri[s] <= val <= visible[s];
    }

    /** The part of sym_set_tristate_value for choice values: the choice takes
        the value as its pick, and it and all visible siblings count as set. */
    method PickForChoice(s: Sym)
      requires Wf() && Idle() && s < |tab.t|
      modifies this`user, this`hasUser
      ensures Wf() && Idle()
      ensures hasUser >= old(hasUser)
      ensures Def(tab, s).choiceOf.None? ==> user == old(user) && hasUser == old(hasUser)
      ensures Def(tab, s).choiceOf.Some? ==>
        var c := Def(tab, s).choiceOf.value;
        && (c < |tab.t| ==> user == old(user)[c := old(user)[c].(pick := Some(s))])
        && hasUser == old(hasUser) + {c} + set x | x in Def(tab, c).values && x < |tab.t| && visible[x] != NO
    {
      if Def(tab, s).choiceOf.None? {
        return;
      }
      var c := Def(tab, s).choiceOf.value;
      if c < |tab.t| {
        user := user[c := user[c].(pick := Some(s))];
      }
      hasUser := hasUser + {c} + set x | x in Def(tab, c).values && x < |tab.t| && visible[x] != NO;
    }

    /** The state in which a value may be set: the symbol has been evaluated for
        the current user values. */
    ghost predicate Current(rank: Rank, s: Sym)
      reads this
    {
      Ready(rank) && Exact(Target(rank)) && tab.modules in valid
      && s < |tab.t| && s in valid && IsLogical(Typ(tab.t, s))
    }

    lemma CurrentRange(rank: Rank, s: Sym, val: Tri)
      requires Current(rank, s)
      ensures modulesVal == ModulesOf(tab, Target(rank))
      ensures visible[s] == Visibility(tab, modulesVal, Target(rank).sol, s)
      ensures revTri[s] == RevTri(tab, modulesVal, Target(rank).sol, s)
      ensures curr[s] == Target(rank).sol[s]
    {
      hide Visibility, RevTri, Layered, PicksMember, Solved, WellFormed;
      assert Finished(Target(rank), s);
      assert Finished(Target(rank), tab.modules);
    }

    /** Within range is what the next evaluation would compute. */
    lemma AcceptsWhatSticks(rank: Rank, s: Sym, val: Tri)
      requires Current(rank, s)
      requires Def(tab, s).choiceOf.None? || (!Def(tab, s).isChoice && visible[s] != YES)
      ensures s < |visible| && s < |revTri|
      ensures var next := Solved(tab, rank, Accept(tab, Users(hasUser, user), s, val));
        && (!Def(tab, s).isChoice ==>
             (WithinRange(tab, Target(rank).sol, s, val) <==> visible[s] > revTri[s] && next[s].tri == val))
        && (Def(tab, s).isChoice ==>
             (visible[s] > revTri[s] && next[s].tri == val ==> WithinRange(tab, Target(rank).sol, s, val)))
    {
      hide Visibility, RevTri, Layered, PicksMember, Solved, WellFormed, Finished, IsSolution, Accept, Exact, Written,
           WithinRange;
      CurrentRange(rank, s, val);
      TargetOk(rank);
      CurrentParts(rank, s);
      var u := Users(hasUser, user);
      AcceptPicksMember(tab, u, s, val);
      SolvedIsSolution(tab, rank, Accept(tab, u, s, val));
      AcceptedExactly(tab, rank, u, Target(rank).sol, Solved(tab, rank, Accept(tab, u, s, val)), s, val);
    }

    lemma CurrentParts(rank: Rank, s: Sym)
      requires Current(rank, s)
      ensures Layered(tab, rank) && PicksMember(tab, Users(hasUser, user)) && |user| == |tab.t|
      ensures s < |tab.t| && IsLogical(Typ(tab.t, s)) && s < |visible| && s < |revTri|
    {
      hide Exact, Layered, PicksMember;
    }

    /** Storing an accepted value. */
    method StoreUser(s: Sym, val: Tri, ghost rank: Rank)
      requires Ready(rank) && s < |tab.t|
      modifies this`user, this`hasUser
      ensures Ready(rank)
      ensures Users(hasUser, user) == Accept(tab, Users(old(hasUser), old(user)), s, val)
    {
      hide Layered, PicksMember, WellFormed, Plausible;
      AcceptPicksMember(tab, Users(hasUser, user), s, val);
      hasUser := hasUser + {s};
      user := user[s := user[s].(tri := val)];
    }

    /** sym_set_tristate_value, for a symbol that is not a choice value: it
        accepts exactly the present value and the values within range, and
        invalidates everything on a change. */
    method SetTristateValue(s: Sym, val: Tri, ghost rank: Rank) returns (ok: bool)
      requires Current(rank, s) && Def(tab, s).choiceOf.None?
      modifies this
      ensures Wf() && Idle()
      ensures ok <==> old(curr[s].tri) == val || WithinRange(tab, old(Target(rank)).sol, s, val)
      ensures var next := Solved(tab, rank, Accept(tab, Users(old(hasUser), old(user)), s, val));
        if Def(tab, s).isChoice
        then old(curr[s].tri) == val || (old(visible[s]) > old(revTri[s]) && next[s].tri == val) ==> ok
        else ok <==> old(curr[s].tri) == val || (old(visible[s]) > old(revTri[s]) && next[s].tri == val)
      ensures !ok ==> unchanged(this)
      ensures ok && old(curr[s].tri) == val ==>
        Users(hasUser, user) == Accept(tab, Users(old(hasUser), old(user)), s, val)
        && valid == old(valid) && curr == old(curr)
      ensures ok && old(curr[s].tri) != val ==>
        var u := Accept(tab, Users(old(hasUser), old(user)), s, val);
        var g := Goal(rank, u, Solved(tab, rank, u));
        Exact(g) && GoalOk(tab, g) && tab.modules in valid
    {
      hide Visibility, RevTri, Layered, PicksMember, Solved, WellFormed, Finished, IsSolution, Accept, Exact, Written;
      CurrentRange(rank, s, val);
      AcceptsWhatSticks(rank, s, val);
      var was := curr[s].tri;
      if was != val {
        ok := TristateWithinRange(s, val, rank);
        if !ok {
          return;
        }
      }
      ok := true;
      StoreUser(s, val, rank);
      if was != val {
        ClearAllValid(rank);
      }
    }

    /** An accepted change is what the next evaluation computes, unless a choice
        is set to y and finds nothing to pick. */
    method SetAndCalc(s: Sym, val: Tri, ghost rank: Rank) returns (ok: bool)
      requires Current(rank, s) && Def(tab, s).choiceOf.None?
      requires curr[s].tri != val
      modifies this
      ensures Wf()
      ensures ok <==> WithinRange(tab, old(Target(rank)).sol, s, val)
      ensures ok && !(Def(tab, s).isChoice && val == YES) ==>
        s in valid && curr[s].tri == val && revTri[s] <= val <= visible[s]
    {
      hide Visibility, RevTri, Layered, PicksMember, Solved, WellFormed, IsSolution, TriValue, Pick, Keeps;
      ghost var u := Users(hasUser, user);
      ghost var v := Target(rank).sol;
      TargetOk(rank);
      ok := SetTristateValue(s, val, rank);
      if ok {
        ghost var u' := Accept(tab, u, s, val);
        ghost var g := Goal(rank, u', Solved(tab, rank, u'));
        CalcValue(s, Some(g));
        AcceptedSticks(tab, rank, u, v, g.sol, s, val);
        assert Finished(g, s);
      }
    }

    lemma ChoiceOfCurrent(rank: Rank, s: Sym)
      requires Current(rank, s) && Def(tab, s).choiceOf.Some?
      ensures var c := Def(tab, s).choiceOf.value;
        c < |tab.t| && c != s && IsTyped(Typ(tab.t, c)) && Def(tab, c).isChoice && s in Def(tab, c).values
    {
      hide Visibility, RevTri, Exact, PicksMember, WellFormed;
      assert SymbolLayered(tab, rank, s);
    }

    /** The values of choice c that are visible. */
    ghost function ShownMembers(c: Sym, vis: seq<Tri>): (r: set<Sym>)
      ensures r <= Members(c)
    {
      set x | x in Def(tab, c).values && x < |vis| && vis[x] != NO
    }

    /** What an accepted value of a member of choice c leaves the user: y is its pick. */
    function AcceptMember(u: Users, c: Sym, s: Sym, val: Tri, shown: set<Sym>): Users {
      if val == YES then AcceptPick(u, c, s, shown) else Accept(tab, u, s, val)
    }

    /** sym_set_tristate_value for a choice value: y makes it the pick, even where it
        is y already; only a change invalidates. */
    method SetChoiceValue(s: Sym, val: Tri, ghost rank: Rank) returns (ok: bool, ghost shown: set<Sym>)
      requires Current(rank, s) && Def(tab, s).choiceOf.Some?
      modifies this
      ensures Wf() && Idle()
      ensures ok <==>
        old(curr[s].tri) == val || (old(visible[s]) == YES && val == YES) || (old(visible[s]) == MOD && val != YES)
      ensures old(visible[s]) != YES ==>
        var next := Solved(tab, rank, Accept(tab, Users(old(hasUser), old(user)), s, val));
        ok <==> old(curr[s].tri) == val || (old(visible[s]) > old(revTri[s]) && next[s].tri == val)
      ensures !ok ==> unchanged(this)
      ensures ok && val == YES ==> shown == ShownMembers(Def(tab, s).choiceOf.value, old(visible))
      ensures ok && old(curr[s].tri) == val ==>
        var u := AcceptMember(Users(old(hasUser), old(user)), Def(tab, s).choiceOf.value, s, val, shown);
        Users(hasUser, user) == u && valid == old(valid) && curr == old(curr)
      ensures ok && old(curr[s].tri) != val ==>
        var u := AcceptMember(Users(old(hasUser), old(user)), Def(tab, s).choiceOf.value, s, val, shown);
        var g := Goal(rank, u, Solved(tab, rank, u));
        Exact(g) && GoalOk(tab, g) && tab.modules in valid
    {
      hide Visibility, RevTri, Layered, PicksMember, Solved, WellFormed, Finished, IsSolution, Exact, Def, Written,
           AcceptPick, Accept, WithinRange;
      CurrentRange(rank, s, val);
      MemberRange(rank, s, val);
      if visible[s] != YES {
        NotAChoice(rank, s);
        AcceptsWhatSticks(rank, s, val);
      }
      shown := {};
      var was := curr[s].tri;
      if was != val {
        ok := TristateWithinRange(s, val, rank);
        if !ok {
          return;
        }
      }
      ok := true;
      if val == YES {
        shown := StorePick(s, rank);
      } else {
        StoreUser(s, val, rank);
      }
      if was != val {
        ClearAllValid(rank);
      }
    }

    lemma MemberRange(rank: Rank, s: Sym, val: Tri)
      requires Current(rank, s) && Def(tab, s).choiceOf.Some?
      ensures s < |visible| && s < |curr|
      ensures WithinRange(tab, Target(rank).sol, s, val) <==>
        (visible[s] == YES && val == YES) || (visible[s] == MOD && val != YES)
    {
      hide Visibility, RevTri, Layered, PicksMember, Solved, WellFormed, Exact, WithinRange;
      CurrentRange(rank, s, val);
      MemberAccepts(tab, Target(rank).sol, s, val);
    }

    lemma NotAChoice(rank: Rank, s: Sym)
      requires Current(rank, s) && Def(tab, s).choiceOf.Some?
      ensures !Def(tab, s).isChoice
    {
      hide Visibility, RevTri, Exact, PicksMember, WellFormed;
      assert SymbolLayered(tab, rank, s);
    }

    /** Storing an accepted pick. */
    method StorePick(s: Sym, ghost rank: Rank) returns (ghost shown: set<Sym>)
      requires Current(rank, s) && Def(tab, s).choiceOf.Some?
      modifies this`user, this`hasUser
      ensures Ready(rank) && shown == ShownMembers(Def(tab, s).choiceOf.value, visible)
      ensures Users(hasUser, user) ==
        AcceptPick(Users(old(hasUser), old(user)), Def(tab, s).choiceOf.value, s, shown)
    {
      hide *;
      var c := Def(tab, s).choiceOf.value;
      ChoiceOfCurrent(rank, s);
      ghost var u := Users(hasUser, user);
      PickReady(rank, s);
      shown := MarkPicked(s, c);
      AcceptPickMembers(tab, u, c, s, shown);
      ReadyAgain(rank);
    }

    /** The assignments of an accepted pick. */
    method MarkPicked(s: Sym, c: Sym) returns (ghost shown: set<Sym>)
      requires Wf() && Idle() && s < |tab.t| && c < |tab.t| && s != c && Def(tab, s).choiceOf == Some(c)
      modifies this`user, this`hasUser
      ensures Wf() && Idle() && shown == ShownMembers(c, visible) && shown <= set m | m in Def(tab, c).values
      ensures Users(hasUser, user) == AcceptPick(Users(old(hasUser), old(user)), c, s, shown)
    {
      hide WellFormed, Plausible;
      shown := set x | x in Def(tab, c).values && x < |tab.t| && visible[x] != NO;
      hasUser := hasUser + {s};
      PickForChoice(s);
      user := user[s := user[s].(tri := YES)];
      assert hasUser == old(hasUser) + {s} + {c} + shown;
    }

    lemma PickReady(rank: Rank, s: Sym)
      requires Current(rank, s) && Def(tab, s).choiceOf.Some?
      ensures Wf() && Idle() && s < |tab.t| && PicksMember(tab, Users(hasUser, user)) && Layered(tab, rank)
    {
      hide Layered, PicksMember, Exact;
    }

    lemma ReadyAgain(rank: Rank)
      requires Wf() && Idle() && Layered(tab, rank) && PicksMember(tab, Users(hasUser, user))
      ensures Ready(rank)
    {
      hide Layered, PicksMember;
    }
  }
}
