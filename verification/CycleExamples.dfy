/** Small tables that tell the notions of a cycle apart, and what a sweep makes of
    them. */
module CycleExamples {
  import opened Tristates
  import opened Exprs
  import opened SymbolEquations
  import opened Layering
  import opened Dependencies
  import opened Acyclicity
  import opened Recursion

  const NOTHING: SymDef := SymDef([], [], [], None, None, false, [], None, false, [])

  /** y, m, n and the symbols given, all of one type. */
  function Small(y: SymType, ds: seq<SymDef>): (tab: Table)
    ensures |tab.t| == |tab.d| == 3 + |ds|
    ensures forall s: Sym :: Def(tab, s) == if 3 <= s < 3 + |ds| then ds[s - 3] else NOTHING
  {
    Table([SymInfo("n", Unknown, true), SymInfo("m", Unknown, true), SymInfo("y", Unknown, true)]
          + seq(|ds|, i => SymInfo("A", y, false)),
          [NOTHING, NOTHING, NOTHING] + ds, NO_SYM)
  }

  /** A symbol with one prompt under e. */
  function Prompted(e: Expr): SymDef {
    NOTHING.(prompts := [Some(e)])
  }

  function ChoiceWith(xs: seq<Sym>): SymDef {
    NOTHING.(prompts := [None], isChoice := true, values := xs)
  }

  function ValueOf(c: Sym, e: Expr): SymDef {
    Prompted(And(Symbol(c), e)).(choiceOf := Some(c))
  }

  predicate IsSimple(d: SymDef) {
    d.revDep.None? && d.defaults == [] && d.ranges == [] && |d.conds| <= 1 && |d.prompts| <= 1
  }

  lemma OneCond(ps: seq<Option<Expr>>)
    requires |ps| <= 1
    ensures CondExprs(ps) == if ps == [] || ps[0].None? then [] else [ps[0].value]
  {
    assert |ps| == 1 ==> ps[1..] == [];
  }

  /** The dependencies of a simple symbol. */
  predicate Refers(d: SymDef, x: Sym) {
    || (d.conds != [] && MentionsOpt(d.conds[0], x))
    || (d.prompts != [] && MentionsOpt(d.prompts[0], x))
  }

  lemma OneMentioned(a: Sym, x: Sym)
    ensures Mentions(Symbol(a), x) <==> x == a
  {
  }

  lemma BothMentioned(a: Sym, b: Sym, x: Sym)
    ensures Mentions(And(Symbol(a), Symbol(b)), x) <==> x == a || x == b
  {
    OneMentioned(a, x);
    OneMentioned(b, x);
  }

  lemma SimpleEdges(tab: Table, s: Sym, x: Sym)
    requires IsSimple(Def(tab, s))
    ensures Edge(tab, s, x) <==> s < |tab.t| && x < |tab.t| && Refers(Def(tab, s), x)
  {
    hide Mentions;
    var d := Def(tab, s);
    OneCond(d.conds);
    OneCond(d.prompts);
    assert CheckedExprs(d) == CondExprs(d.conds) + CondExprs(d.prompts);
    if d.conds != [] && MentionsOpt(d.conds[0], x) {
      assert d.conds[0].value in CheckedExprs(d);
    }
    if d.prompts != [] && MentionsOpt(d.prompts[0], x) {
      assert d.prompts[0].value in CheckedExprs(d);
    }
  }

  // ----- a recursion through a choice that is not reported -----

  /** A choice, its value that depends on a symbol, and that symbol, which depends on
      the choice. */
  function RoundTable(): Table {
    Small(Boolean, [ChoiceWith([4]), ValueOf(3, Symbol(5)), Prompted(Symbol(3))])
  }

  function RoundDef(s: Sym): SymDef {
    if s == 3 then ChoiceWith([4]) else if s == 4 then ValueOf(3, Symbol(5))
    else if s == 5 then Prompted(Symbol(3)) else NOTHING
  }

  predicate RoundEdge(s: Sym, x: Sym) {
    (s == 4 && (x == 3 || x == 5)) || (s == 5 && x == 3)
  }

  lemma RoundDefs()
    ensures |RoundTable().t| == 6
    ensures forall s: Sym :: Def(RoundTable(), s) == RoundDef(s)
  {
  }

  lemma RoundEdges()
    ensures forall s: Sym, x: Sym :: Edge(RoundTable(), s, x) <==> RoundEdge(s, x)
  {
    hide Edge, RoundTable, Mentions;
    RoundDefs();
    forall s: Sym, x: Sym
      ensures Edge(RoundTable(), s, x) <==> RoundEdge(s, x)
    {
      SimpleEdges(RoundTable(), s, x);
      BothMentioned(3, 5, x);
      OneMentioned(3, x);
    }
  }

  lemma RoundGroups()
    ensures Grouped(RoundTable())
    ensures forall s: Sym :: Head(RoundTable(), s) == if s == 4 then 3 else s
  {
    hide RoundTable;
    RoundDefs();
  }

  lemma RoundOrder()
    requires forall s: Sym, x: Sym :: Edge(RoundTable(), s, x) <==> RoundEdge(s, x)
    ensures FinishOrder(RoundTable(), [0, 1, 2, 3, 5, 4])
    ensures forall s: Sym :: s < |RoundTable().t| ==> s in [0, 1, 2, 3, 5, 4]
  {
    hide Edge, RoundTable;
    RoundDefs();
    var done: seq<Sym> := [0, 1, 2, 3, 5, 4];
    assert done[..5] == [0, 1, 2, 3, 5] && done[..4] == [0, 1, 2, 3];
    forall i, x | 0 <= i < |done| && Needs(RoundTable(), done[i], x)
      ensures x in done[..i]
    {
    }
  }

  /** The choice leads back to itself by way of its value only. */
  lemma RoundFree(w: set<Sym>)
    ensures !Caught(RoundTable(), w, 3)
  {
    hide Edge, RoundTable, Reach;
    RoundEdges();
    RoundGroups();
    RoundDefs();
    var tab := RoundTable();
    assert Deps(tab, 3) - w == {};
    ReachLeast(tab, w, {}, {});
    assert Reach(tab, w, Deps(tab, 3) - w) == {};
  }

  /** Whenever the search comes to X, the choice has been begun. */
  lemma RoundLater(w: set<Sym>)
    requires MetAfter(RoundTable(), w, 5)
    ensures !Caught(RoundTable(), w, 5)
  {
    hide Edge, RoundTable, Reach;
    RoundEdges();
    RoundGroups();
    RoundDefs();
    var tab := RoundTable();
    assert 4 in w && 3 in w by {
      assert Def(tab, 4).choiceOf == Some(3);
    }
    assert Group(tab, 5) == {5};
    assert ClosedOff(tab, w, {5});
    ReachLeast(tab, w, {5}, {5});
  }

  lemma RoundUncaught(w: set<Sym>, t: Sym)
    requires MetAfter(RoundTable(), w, t)
    ensures !Caught(RoundTable(), w, t)
  {
    RoundEdges();
    RoundGroups();
    if t == 3 {
      RoundFree(w);
    } else if t == 5 {
      RoundLater(w);
    } else {
      hide *;
      NothingComes(RoundTable(), w, t);
    }
  }

  lemma NothingComes(tab: Table, w: set<Sym>, t: Sym)
    requires forall s: Sym, v: Sym :: Edge(tab, s, v) ==> Head(tab, v) != t
    ensures !Caught(tab, w, t)
  {
    hide Edge, Head;
  }

  lemma RoundGroupCycle()
    ensures HasGroupCycle(RoundTable())
  {
    hide Edge, RoundTable;
    var tab := RoundTable();
    RoundEdges();
    RoundGroups();
    RoundDefs();
    assert Edge(tab, 4, 5) && Edge(tab, 5, 3);
    assert GroupEdge(tab, 3, 5) && GroupEdge(tab, 5, 3);
    assert IsGroupCycle(tab, [3, 5]);
  }

  /** With its choice numbered before X, this recursion is a cycle of groups, and no
      search reports it. */
  lemma RoundIsSilent()
    ensures Grouped(RoundTable()) && HasGroupCycle(RoundTable())
    ensures !HasNeedCycle(RoundTable()) && !MayReport(RoundTable())
  {
    hide Edge, RoundTable, Reach, Caught, HasGroupCycle, HasNeedCycle, FinishOrder, Grouped;
    var tab := RoundTable();
    RoundEdges();
    RoundGroups();
    RoundOrder();
    OrderedIsAcyclic(tab, [0, 1, 2, 3, 5, 4]);
    RoundGroupCycle();
    forall w: set<Sym>, t: Sym | MetAfter(tab, w, t)
      ensures !Caught(tab, w, t)
    {
      RoundUncaught(w, t);
    }
  }

  /** Run on that table, the search says nothing. */
  method CheckRound() returns (reports: nat)
    ensures reports == 0
  {
    RoundIsSilent();
    var errors;
    reports, errors := CheckTable(RoundTable());
  }

  // ----- a report without a cycle -----

  /** The same recursion with X numbered first. */
  function EarlyTable(): Table {
    Small(Boolean, [Prompted(Symbol(4)), ChoiceWith([5]), ValueOf(4, Symbol(3))])
  }

  function EarlyDef(s: Sym): SymDef {
    if s == 3 then Prompted(Symbol(4)) else if s == 4 then ChoiceWith([5])
    else if s == 5 then ValueOf(4, Symbol(3)) else NOTHING
  }

  predicate EarlyEdge(s: Sym, x: Sym) {
    (s == 3 && x == 4) || (s == 5 && (x == 4 || x == 3))
  }

  lemma EarlyDefs()
    ensures |EarlyTable().t| == 6
    ensures forall s: Sym :: Def(EarlyTable(), s) == EarlyDef(s)
  {
  }

  lemma EarlyEdges()
    ensures forall s: Sym, x: Sym :: Edge(EarlyTable(), s, x) <==> EarlyEdge(s, x)
  {
    hide Edge, EarlyTable, Mentions;
    EarlyDefs();
    forall s: Sym, x: Sym
      ensures Edge(EarlyTable(), s, x) <==> EarlyEdge(s, x)
    {
      SimpleEdges(EarlyTable(), s, x);
      BothMentioned(4, 3, x);
      OneMentioned(4, x);
    }
  }

  lemma EarlyGroups()
    ensures Grouped(EarlyTable())
    ensures forall s: Sym :: Head(EarlyTable(), s) == if s == 5 then 4 else s
  {
    hide EarlyTable;
    EarlyDefs();
  }

  lemma EarlyOrder()
    ensures !HasNeedCycle(EarlyTable()) && !HasCycle(EarlyTable())
  {
    hide Edge, EarlyTable, HasNeedCycle, HasCycle;
    EarlyEdges();
    EarlyDefs();
    var done: seq<Sym> := [0, 1, 2, 4, 3, 5];
    assert done[..5] == [0, 1, 2, 4, 3] && done[..4] == [0, 1, 2, 4];
    forall i, x | 0 <= i < |done| && Needs(EarlyTable(), done[i], x)
      ensures x in done[..i]
    {
    }
    OrderedIsAcyclic(EarlyTable(), done);
  }

  /** The sweep begins X, which leads to its choice, and so to the value that depends
      on X: that is reported, though nothing needs itself. */
  lemma EarlyIsCaught()
    ensures Grouped(EarlyTable()) && !HasNeedCycle(EarlyTable()) && !HasCycle(EarlyTable())
    ensures BegunBy(EarlyTable(), 3) && Caught(EarlyTable(), {}, 3) && Head(EarlyTable(), 3) == 3
  {
    hide Edge, EarlyTable, Reach, HasNeedCycle, HasCycle, Grouped;
    var tab := EarlyTable();
    EarlyEdges();
    EarlyDefs();
    EarlyGroups();
    EarlyOrder();
    assert ClosedOff(tab, {}, Ids(3));
    ReachLeast(tab, {}, Ids(3), Ids(3));
    ReachClosed(tab, {}, Group(tab, 3));
    assert 3 in Group(tab, 3);
    assert Edge(tab, 3, 4) && Brings(tab, 3, 4) && Brings(tab, 4, 5);
    assert Edge(tab, 5, 3) && ComesTo(tab, {}, 3, 5, 3);
  }

  method CheckEarly() returns (reports: nat)
    ensures reports > 0 && !HasCycle(EarlyTable())
  {
    EarlyIsCaught();
    var errors;
    reports, errors := CheckTable(EarlyTable());
  }

  // ----- a value that depends on another value of its choice -----

  function SiblingTable(): Table {
    Small(Boolean, [ChoiceWith([4, 5]), ValueOf(3, Symbol(5)), ValueOf(3, Symbol(YES_SYM))])
  }

  function SiblingDef(s: Sym): SymDef {
    if s == 3 then ChoiceWith([4, 5]) else if s == 4 then ValueOf(3, Symbol(5))
    else if s == 5 then ValueOf(3, Symbol(YES_SYM)) else NOTHING
  }

  predicate SiblingEdge(s: Sym, x: Sym) {
    (s == 4 && (x == 3 || x == 5)) || (s == 5 && (x == 3 || x == 2))
  }

  lemma SiblingDefs()
    ensures |SiblingTable().t| == 6
    ensures forall s: Sym :: Def(SiblingTable(), s) == SiblingDef(s)
  {
  }

  lemma SiblingEdges()
    ensures forall s: Sym, x: Sym :: Edge(SiblingTable(), s, x) <==> SiblingEdge(s, x)
  {
    hide Edge, SiblingTable, Mentions;
    SiblingDefs();
    forall s: Sym, x: Sym
      ensures Edge(SiblingTable(), s, x) <==> SiblingEdge(s, x)
    {
      SimpleEdges(SiblingTable(), s, x);
      BothMentioned(3, 5, x);
      BothMentioned(3, YES_SYM, x);
    }
  }

  lemma SiblingGroups()
    ensures Grouped(SiblingTable())
  {
    hide SiblingTable;
    SiblingDefs();
  }

  lemma SiblingsAcyclic()
    ensures !HasCycle(SiblingTable())
  {
    hide Edge, SiblingTable, HasCycle;
    SiblingEdges();
    RankedIsAcyclic(SiblingTable(), (s: Sym) => if s == 4 then 2 else if s == 5 then 1 else 0);
  }

  /** The values of a choice are looked into together, so that one that depends on
      another is reported, though no symbol depends on itself. */
  lemma SiblingsNeedThemselves()
    ensures Grouped(SiblingTable()) && HasNeedCycle(SiblingTable()) && !HasCycle(SiblingTable())
  {
    SiblingGroups();
    SiblingsAcyclic();
    hide Edge, SiblingTable, HasCycle, Grouped;
    var tab := SiblingTable();
    SiblingDefs();
    SiblingEdges();
    assert Edge(tab, 4, 5) && Def(tab, 4).choiceOf == Some(3) && Def(tab, 5).choiceOf == Some(3);
    assert Needs(tab, 5, 5);
    assert IsNeedCycle(tab, [5]);
  }

  method CheckSiblings() returns (reports: nat)
    ensures reports > 0 && !HasCycle(SiblingTable())
  {
    SiblingsNeedThemselves();
    var errors;
    reports, errors := CheckTable(SiblingTable());
  }

  // ----- what conditions without a text add, and what ranges do not -----

  /** A, which depends on B and has neither a prompt nor a default, and B, which
      depends on A. */
  function CondTable(conds: seq<Option<Expr>>): Table {
    Small(Boolean, [NOTHING.(conds := conds), Prompted(Symbol(3))])
  }

  /** The condition of a menu entry without a text closes a cycle. */
  lemma CondCloses()
    ensures ChoiceFree(CondTable([Some(Symbol(4))])) && HasCycle(CondTable([Some(Symbol(4))]))
    ensures !HasCycle(CondTable([]))
  {
    hide Edge, HasCycle;
    var tab := CondTable([Some(Symbol(4))]);
    SimpleEdges(tab, 3, 4);
    SimpleEdges(tab, 4, 3);
    assert Edge(tab, 3, 4) && Edge(tab, 4, 3);
    CycleOfTwo(tab, 3, 4);
    CondNeeded();
  }

  lemma CycleOfTwo(tab: Table, a: Sym, b: Sym)
    requires Edge(tab, a, b) && Edge(tab, b, a)
    ensures HasCycle(tab)
  {
    hide Edge;
    assert IsCycle(tab, [a, b]);
  }

  lemma CondNeeded()
    ensures !HasCycle(CondTable([]))
  {
    hide Edge, HasCycle, Mentions;
    var tab := CondTable([]);
    var rank := (s: Sym) => if s == 4 then 1 else 0;
    forall s: Sym, x: Sym | Edge(tab, s, x)
      ensures rank(x) < rank(s)
    {
      SimpleEdges(tab, s, x);
      OneMentioned(3, x);
    }
    RankedIsAcyclic(tab, rank);
  }

  /** An int symbol whose range it bounds itself. */
  function BoundTable(): Table {
    Small(Int, [NOTHING.(prompts := [None], ranges := [Range(None, 3, 3)])])
  }

  /** The search has nothing to say about it, and no ranking makes it fit for
      evaluation. */
  lemma BoundUnseen(rank: Rank)
    ensures Ranked(BoundTable(), rank) && ChoiceFree(BoundTable())
    ensures !Layered(BoundTable(), rank)
  {
    hide SymbolLayered, Mentions;
    var tab := BoundTable();
    OneCond([None]);
    assert Typ(tab.t, 3) == Int;
    BoundSelf(tab, rank);
  }

  lemma BoundSelf(tab: Table, rank: Rank)
    requires tab == BoundTable()
    ensures !SymbolLayered(tab, rank, 3)
  {
    hide PromptsBelow, DefaultsBelow, ChoiceBelow;
    assert Def(tab, 3).ranges[0] == Range(None, 3, 3);
  }
}
