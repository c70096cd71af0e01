/** What a table needs beyond a search for recursive dependencies without a report
    to be one that evaluation is exact on, in both directions. */
module Acyclicity {
  import opened Tristates
  import opened Exprs
  import opened SymbolEquations
  import opened Layering
  import opened Dependencies

  /** A table without choices. */
  ghost predicate WithoutChoices(tab: Table) {
    ChoiceFree(tab) && |tab.d| == |tab.t| && tab.modules < |tab.t| && WellFormed(tab.t)
  }

  /** Conditions of properties without a text mention nothing that the direct
      dependency does not mention, as the menus build them, and only typed symbols
      have properties. */
  ghost predicate Built(tab: Table) {
    && WithoutChoices(tab)
    && (forall s: Sym, e: Expr, x: Sym :: s < |tab.t| && e in CondExprs(Def(tab, s).conds) && Mentions(e, x) ==>
          MentionsOpt(Def(tab, s).dirDep, x))
    && (forall s: Sym :: s < |tab.t| && !IsTyped(Typ(tab.t, s)) ==> Bare(Def(tab, s)))
  }

  predicate MentionsOpt(e: Option<Expr>, x: Sym) {
    e.Some? && Mentions(e.value, x)
  }

  /** Nothing in the definition refers to another symbol. */
  predicate Bare(d: SymDef) {
    CheckedExprs(d) == [] && d.ranges == [] && d.dirDep.None?
  }

  /** x bounds a range of s, or is mentioned by its direct dependency as a whole:
      neither is looked into by the check. */
  ghost predicate Unseen(tab: Table, s: Sym, x: Sym) {
    s < |tab.t| && x < |tab.t| && (Bound(tab, s, x) || MentionsOpt(Def(tab, s).dirDep, x))
  }

  ghost predicate Bound(tab: Table, s: Sym, x: Sym) {
    exists p :: p in Def(tab, s).ranges && (p.lo == x || p.hi == x)
  }

  ghost predicate UnseenRanked(tab: Table, rank: Rank) {
    forall s: Sym, x: Sym :: Unseen(tab, s, x) ==> rank(x) < rank(s)
  }

  /** m holds the modules symbol and everything it depends on, none of it
      tristate. */
  ghost predicate ModulesCone(tab: Table, m: set<Sym>) {
    && tab.modules in m
    && (forall s: Sym, x: Sym :: s in m && (Edge(tab, s, x) || Unseen(tab, s, x)) ==> x in m)
    && (forall s: Sym :: s in m ==> s < |tab.t| && Typ(tab.t, s) != Tristate)
  }

  /** An upper bound of the ranks of a table. */
  ghost function Top(rank: Rank, n: nat): (k: nat)
    ensures forall s: Sym :: s < n ==> rank(s) < k
  {
    if n == 0 then 0 else
      var k := Top(rank, n - 1);
      if rank(n - 1) < k then k else rank(n - 1) + 1
  }

  function ConeRank(rank: Rank, m: set<Sym>, n: nat, top: nat, s: Sym): nat {
    if s >= n then 0 else if s in m then rank(s) + 1 else rank(s) + 1 + top
  }

  /** The cone of the modules symbol first, then everything else. */
  ghost function ConeFirst(tab: Table, rank: Rank, m: set<Sym>): Rank {
    var top := Top(rank, |tab.t|);
    s => ConeRank(rank, m, |tab.t|, top, s)
  }

  /** s comes after x, and if x is tristate after the modules symbol. */
  ghost predicate After(tab: Table, r: Rank, s: Sym, x: Sym) {
    r(x) < r(s) && (Typ(tab.t, x) == Tristate ==> r(tab.modules) < r(s))
  }

  lemma ConeRespects(tab: Table, rank: Rank, m: set<Sym>, s: Sym, x: Sym)
    requires Ranked(tab, rank) && UnseenRanked(tab, rank) && ModulesCone(tab, m) && s < |tab.t|
    requires x < |tab.t| ==> Edge(tab, s, x) || Unseen(tab, s, x)
    ensures After(tab, ConeFirst(tab, rank, m), s, x)
  {
    hide Edge, Unseen;
  }

  lemma TristateAfterModules(tab: Table, rank: Rank, m: set<Sym>, s: Sym)
    requires ModulesCone(tab, m) && s < |tab.t| && Typ(tab.t, s) == Tristate
    ensures ConeFirst(tab, rank, m)(tab.modules) < ConeFirst(tab, rank, m)(s)
  {
    hide Edge, Unseen;
  }

  lemma {:induction false} MentionsBelow(tab: Table, r: Rank, s: Sym, e: Expr)
    requires forall x: Sym :: Mentions(e, x) ==> After(tab, r, s, x)
    ensures Below(tab, r, r(s), None, e)
  {
    match e
    case Symbol(x) => assert Mentions(e, x);
    case Not(a) => MentionsBelow(tab, r, s, a);
    case Comp(_, x, y) => assert Mentions(e, x) && Mentions(e, y);
    case Junct(_, x, y) =>
      MentionsBelow(tab, r, s, x);
      MentionsBelow(tab, r, s, y);
  }

  lemma {:induction false} CondListed(ps: seq<Option<Expr>>, i: nat)
    requires i < |ps| && ps[i].Some?
    ensures ps[i].value in CondExprs(ps)
  {
    if i > 0 {
      CondListed(ps[1..], i - 1);
    }
  }

  lemma {:induction false} DefaultListed(ds: seq<Default>, i: nat)
    requires i < |ds|
    ensures ds[i].value in DefaultExprs(ds)
    ensures ds[i].cond.Some? ==> ds[i].cond.value in DefaultExprs(ds)
  {
    if i > 0 {
      DefaultListed(ds[1..], i - 1);
    }
  }

  lemma {:induction false} RangeListed(rs: seq<Range>, i: nat)
    requires i < |rs| && rs[i].cond.Some?
    ensures rs[i].cond.value in RangeExprs(rs)
  {
    if i > 0 {
      RangeListed(rs[1..], i - 1);
    }
  }

  /** A ranking fit for evaluation, from one fit for the check. */
  ghost predicate Rankable(tab: Table, rank: Rank, m: set<Sym>) {
    WithoutChoices(tab) && Ranked(tab, rank) && UnseenRanked(tab, rank) && ModulesCone(tab, m)
  }

  lemma ExprBelow(tab: Table, rank: Rank, m: set<Sym>, s: Sym, e: Expr)
    requires Rankable(tab, rank, m) && s < |tab.t|
    requires forall x: Sym :: x < |tab.t| && Mentions(e, x) ==> Edge(tab, s, x) || Unseen(tab, s, x)
    ensures var r := ConeFirst(tab, rank, m); Below(tab, r, r(s), None, e)
  {
    hide WithoutChoices, Ranked, UnseenRanked, ModulesCone, Edge, Unseen, ConeFirst, After;
    forall x: Sym | Mentions(e, x)
      ensures After(tab, ConeFirst(tab, rank, m), s, x)
    {
      ConeRespects(tab, rank, m, s, x);
    }
    MentionsBelow(tab, ConeFirst(tab, rank, m), s, e);
  }

  lemma ListedBelow(tab: Table, rank: Rank, m: set<Sym>, s: Sym, e: Expr)
    requires Rankable(tab, rank, m) && s < |tab.t| && e in CheckedExprs(Def(tab, s))
    ensures var r := ConeFirst(tab, rank, m); Below(tab, r, r(s), None, e)
  {
    hide Rankable, CheckedExprs, ConeFirst;
    ExprBelow(tab, rank, m, s, e);
  }

  lemma PromptsFollow(tab: Table, rank: Rank, m: set<Sym>, s: Sym)
    requires Rankable(tab, rank, m) && s < |tab.t|
    ensures var r := ConeFirst(tab, rank, m); PromptsBelow(tab, r, r(s), None, s)
  {
    hide Rankable, Below, ConeFirst, CondExprs, DefaultExprs, RangeExprs;
    var d, r := Def(tab, s), ConeFirst(tab, rank, m);
    forall i | 0 <= i < |d.prompts|
      ensures BelowOpt(tab, r, r(s), None, d.prompts[i])
    {
      if d.prompts[i].Some? {
        CondListed(d.prompts, i);
        ListedBelow(tab, rank, m, s, d.prompts[i].value);
      }
    }
  }

  lemma DefaultsFollow(tab: Table, rank: Rank, m: set<Sym>, s: Sym)
    requires Rankable(tab, rank, m) && s < |tab.t|
    ensures DefaultsBelow(tab, ConeFirst(tab, rank, m), s)
  {
    ChoiceFreeTable(tab, rank, m, s);
    hide Rankable, Below, ConeFirst, CondExprs, DefaultExprs, RangeExprs;
    var d, r := Def(tab, s), ConeFirst(tab, rank, m);
    forall i | 0 <= i < |d.defaults|
      ensures BelowOpt(tab, r, r(s), None, d.defaults[i].cond) && Below(tab, r, r(s), None, d.defaults[i].value)
    {
      DefaultListed(d.defaults, i);
      ListedBelow(tab, rank, m, s, d.defaults[i].value);
      if d.defaults[i].cond.Some? {
        ListedBelow(tab, rank, m, s, d.defaults[i].cond.value);
      }
    }
  }

  lemma RangesFollow(tab: Table, rank: Rank, m: set<Sym>, s: Sym)
    requires Rankable(tab, rank, m) && s < |tab.t|
    ensures RangesBelow(tab, ConeFirst(tab, rank, m), s)
  {
    hide Below, ConeFirst, CondExprs, DefaultExprs, RangeExprs, WithoutChoices, Ranked, UnseenRanked, ModulesCone,
         After;
    var d, r := Def(tab, s), ConeFirst(tab, rank, m);
    forall i | 0 <= i < |d.ranges|
      ensures BelowOpt(tab, r, r(s), None, d.ranges[i].cond) && r(d.ranges[i].lo) < r(s) && r(d.ranges[i].hi) < r(s)
    {
      var p := d.ranges[i];
      if p.cond.Some? {
        RangeListed(d.ranges, i);
        ListedBelow(tab, rank, m, s, p.cond.value);
      }
      ConeRespects(tab, rank, m, s, p.lo);
      ConeRespects(tab, rank, m, s, p.hi);
      AfterRank(tab, r, s, p.lo);
      AfterRank(tab, r, s, p.hi);
    }
  }

  lemma AfterRank(tab: Table, r: Rank, s: Sym, x: Sym)
    requires After(tab, r, s, x)
    ensures r(x) < r(s)
  {
  }

  lemma ChoiceFreeTable(tab: Table, rank: Rank, m: set<Sym>, s: Sym)
    requires Rankable(tab, rank, m)
    ensures !Def(tab, s).isChoice && Def(tab, s).choiceOf.None? && Def(tab, s).values == []
  {
    hide Ranked, UnseenRanked, ModulesCone, Edge;
  }

  lemma DirectBelow(tab: Table, rank: Rank, m: set<Sym>, s: Sym)
    requires Rankable(tab, rank, m) && s < |tab.t| && Def(tab, s).dirDep.Some?
    ensures var r := ConeFirst(tab, rank, m); Below(tab, r, r(s), None, Def(tab, s).dirDep.value)
  {
    hide Rankable, Below, ConeFirst, Edge;
    ExprBelow(tab, rank, m, s, Def(tab, s).dirDep.value);
  }

  lemma RankableLayered(tab: Table, rank: Rank, m: set<Sym>, s: Sym)
    requires Rankable(tab, rank, m) && s < |tab.t|
    ensures SymbolLayered(tab, ConeFirst(tab, rank, m), s)
  {
    var d := Def(tab, s);
    if Typ(tab.t, s) == Tristate {
      TristateAfterModules(tab, rank, m, s);
    }
    if d.dirDep.Some? {
      DirectBelow(tab, rank, m, s);
    }
    hide Rankable, Below, ConeFirst, CondExprs, DefaultExprs, RangeExprs, PromptsBelow, DefaultsBelow, RangesBelow;
    ChoiceFreeTable(tab, rank, m, s);
    PromptsFollow(tab, rank, m, s);
    DefaultsFollow(tab, rank, m, s);
    RangesFollow(tab, rank, m, s);
    if d.revDep.Some? {
      ListedBelow(tab, rank, m, s, d.revDep.value);
    }
  }

  /** On a table built by menus, passing the check is enough for evaluation to be
      exact, as long as range bounds come before what they bound and nothing the
      modules symbol depends on is tristate. */
  lemma RankedIsLayered(tab: Table, rank: Rank, m: set<Sym>)
    requires WithoutChoices(tab) && Ranked(tab, rank) && UnseenRanked(tab, rank) && ModulesCone(tab, m)
    ensures Layered(tab, ConeFirst(tab, rank, m))
  {
    hide Ranked, SymbolLayered, UnseenRanked, ModulesCone, ConeFirst;
    forall s: Sym | s < |tab.t|
      ensures SymbolLayered(tab, ConeFirst(tab, rank, m), s)
    {
      RankableLayered(tab, rank, m, s);
    }
  }

  // ----- leaves -----

  ghost predicate IsLeaf(tab: Table, s: Sym) {
    forall x: Sym :: !Edge(tab, s, x) && !Unseen(tab, s, x)
  }

  /** Range bounds are constants, or symbols that depend on nothing, and the direct
      dependency mentions only such symbols beside what the check looks into. */
  ghost predicate LeavesUnseen(tab: Table) {
    forall s: Sym, x: Sym :: Unseen(tab, s, x) && !Edge(tab, s, x) ==> IsLeaf(tab, x)
  }

  ghost function LeavesFirst(tab: Table, rank: Rank): Rank {
    s => if IsLeaf(tab, s) then 0 else rank(s) + 1
  }

  lemma LeavesRanked(tab: Table, rank: Rank)
    requires Ranked(tab, rank) && LeavesUnseen(tab)
    ensures Ranked(tab, LeavesFirst(tab, rank)) && UnseenRanked(tab, LeavesFirst(tab, rank))
  {
    hide Edge, Unseen;
    forall s: Sym, x: Sym | Edge(tab, s, x)
      ensures LeavesFirst(tab, rank)(x) < LeavesFirst(tab, rank)(s)
    {
      assert !IsLeaf(tab, s);
    }
    forall s: Sym, x: Sym | Unseen(tab, s, x)
      ensures LeavesFirst(tab, rank)(x) < LeavesFirst(tab, rank)(s)
    {
      assert !IsLeaf(tab, s);
    }
  }

  /** What a sweep without a report guarantees the evaluator. */
  lemma SweptIsLayered(tab: Table, rank: Rank, m: set<Sym>)
    requires WithoutChoices(tab) && Ranked(tab, rank) && LeavesUnseen(tab) && ModulesCone(tab, m)
    ensures Layered(tab, ConeFirst(tab, LeavesFirst(tab, rank), m))
  {
    hide Ranked, UnseenRanked, ModulesCone, ConeFirst, WithoutChoices, Layered, LeavesFirst;
    LeavesRanked(tab, rank);
    RankedIsLayered(tab, LeavesFirst(tab, rank), m);
  }

  // ----- and back -----

  lemma {:induction false} BelowMentions(tab: Table, rank: Rank, k: nat, e: Expr, x: Sym)
    requires Below(tab, rank, k, None, e) && Mentions(e, x)
    ensures rank(x) < k
  {
    match e
    case Not(a) => BelowMentions(tab, rank, k, a, x);
    case Junct(_, a, b) =>
      if Mentions(a, x) {
        BelowMentions(tab, rank, k, a, x);
      } else {
        BelowMentions(tab, rank, k, b, x);
      }
    case _ =>
  }

  lemma {:induction false} CondFrom(ps: seq<Option<Expr>>, e: Expr) returns (i: nat)
    requires e in CondExprs(ps)
    ensures i < |ps| && ps[i] == Some(e)
  {
    if ps[0] == Some(e) {
      i := 0;
    } else {
      i := CondFrom(ps[1..], e);
      i := i + 1;
    }
  }

  lemma {:induction false} DefaultFrom(ds: seq<Default>, e: Expr) returns (i: nat)
    requires e in DefaultExprs(ds)
    ensures i < |ds| && (ds[i].value == e || ds[i].cond == Some(e))
  {
    if ds[0].value == e || ds[0].cond == Some(e) {
      i := 0;
    } else {
      i := DefaultFrom(ds[1..], e);
      i := i + 1;
    }
  }

  lemma {:induction false} RangeFrom(rs: seq<Range>, e: Expr) returns (i: nat)
    requires e in RangeExprs(rs)
    ensures i < |rs| && rs[i].cond == Some(e)
  {
    if rs[0].cond == Some(e) {
      i := 0;
    } else {
      i := RangeFrom(rs[1..], e);
      i := i + 1;
    }
  }

  lemma CheckedBelow(tab: Table, rank: Rank, s: Sym, e: Expr)
    requires SymbolLayered(tab, rank, s) && Def(tab, s).choiceOf.None? && !Def(tab, s).isChoice
    requires e in CheckedExprs(Def(tab, s)) && e !in CondExprs(Def(tab, s).conds)
    ensures Below(tab, rank, rank(s), None, e)
  {
    hide Below, ChoiceBelow, CondExprs, DefaultExprs, RangeExprs;
    var d := Def(tab, s);
    if e in CondExprs(d.prompts) {
      var i := CondFrom(d.prompts, e);
      assert BelowOpt(tab, rank, rank(s), None, d.prompts[i]);
    } else if e in DefaultExprs(d.defaults) {
      var i := DefaultFrom(d.defaults, e);
      assert BelowOpt(tab, rank, rank(s), None, d.defaults[i].cond);
    } else if e in RangeExprs(d.ranges) {
      var i := RangeFrom(d.ranges, e);
      assert BelowOpt(tab, rank, rank(s), None, d.ranges[i].cond);
    }
  }

  lemma EdgeLayered(tab: Table, rank: Rank, s: Sym, x: Sym)
    requires Built(tab) && Layered(tab, rank) && (Edge(tab, s, x) || Unseen(tab, s, x))
    ensures rank(x) < rank(s)
  {
    hide SymbolLayered, CheckedExprs, CondExprs;
    assert IsTyped(Typ(tab.t, s));
    assert SymbolLayered(tab, rank, s);
    assert !Def(tab, s).isChoice && Def(tab, s).choiceOf.None?;
    if Unseen(tab, s, x) {
      UnseenLayered(tab, rank, s, x);
    } else {
      var e :| e in CheckedExprs(Def(tab, s)) && Mentions(e, x);
      if e !in CondExprs(Def(tab, s).conds) {
        CheckedBelow(tab, rank, s, e);
        BelowMentions(tab, rank, rank(s), e, x);
      }
    }
  }

  lemma UnseenLayered(tab: Table, rank: Rank, s: Sym, x: Sym)
    requires SymbolLayered(tab, rank, s) && Unseen(tab, s, x)
    ensures rank(x) < rank(s)
  {
    hide Below, ChoiceBelow, PromptsBelow, DefaultsBelow;
    if MentionsOpt(Def(tab, s).dirDep, x) {
      BelowMentions(tab, rank, rank(s), Def(tab, s).dirDep.value, x);
    }
  }

  lemma ModulesBefore(tab: Table, rank: Rank, s: Sym)
    requires SymbolLayered(tab, rank, s) && Typ(tab.t, s) == Tristate
    ensures rank(tab.modules) < rank(s)
  {
    hide Below, ChoiceBelow, PromptsBelow, DefaultsBelow, RangesBelow;
  }

  /** The symbols no ranking puts behind the modules symbol. */
  ghost function ConeOf(tab: Table, rank: Rank): set<Sym> {
    set s: Sym | s < |tab.t| && rank(s) <= rank(tab.modules)
  }

  /** The conditions are needed: a table fit for evaluation is acyclic in the
      sense of the check, its range bounds come before what they bound, and
      nothing the modules symbol depends on is tristate. */
  lemma LayeredIsRanked(tab: Table, rank: Rank)
    requires Built(tab) && Layered(tab, rank)
    ensures Ranked(tab, rank) && UnseenRanked(tab, rank) && ModulesCone(tab, ConeOf(tab, rank))
  {
    hide Built, Layered, SymbolLayered;
    forall s: Sym, x: Sym | Edge(tab, s, x) || Unseen(tab, s, x)
      ensures rank(x) < rank(s)
    {
      EdgeLayered(tab, rank, s, x);
    }
    forall s: Sym | s in ConeOf(tab, rank)
      ensures Typ(tab.t, s) != Tristate
    {
      NoTristateInCone(tab, rank, s);
    }
    ModulesInTable(tab, rank);
  }

  lemma NoTristateInCone(tab: Table, rank: Rank, s: Sym)
    requires Layered(tab, rank) && s in ConeOf(tab, rank)
    ensures Typ(tab.t, s) != Tristate
  {
    hide SymbolLayered;
    if Typ(tab.t, s) == Tristate {
      assert SymbolLayered(tab, rank, s);
      ModulesBefore(tab, rank, s);
    }
  }

  lemma ModulesInTable(tab: Table, rank: Rank)
    requires Layered(tab, rank)
    ensures tab.modules < |tab.t|
  {
    hide SymbolLayered;
  }
}
