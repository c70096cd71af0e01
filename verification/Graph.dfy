/** The graph that the search for recursive dependencies walks (symbol.c:1172-1306):
    what it looks into, choices and their values taken as one, the order in which it
    finishes symbols, and what it comes back to. */
module Dependencies {
  import opened Tristates
  import opened Exprs
  import opened SymbolEquations
  import opened Layering

  // ----- what the search looks into -----

  function OptList(e: Option<Expr>): seq<Expr> {
    if e.Some? then [e.value] else []
  }

  function CondExprs(ps: seq<Option<Expr>>): seq<Expr> {
    if ps == [] then [] else OptList(ps[0]) + CondExprs(ps[1..])
  }

  function DefaultExprs(ds: seq<Default>): seq<Expr> {
    if ds == [] then [] else OptList(ds[0].cond) + [ds[0].value] + DefaultExprs(ds[1..])
  }

  function RangeExprs(rs: seq<Range>): seq<Expr> {
    if rs == [] then [] else OptList(rs[0].cond) + RangeExprs(rs[1..])
  }

  function DefaultConds(ds: seq<Default>): seq<Expr> {
    if ds == [] then [] else OptList(ds[0].cond) + DefaultConds(ds[1..])
  }

  /** What sym_check_sym_deps looks into: the reverse dependencies, the condition of
      every property, with or without a text, and the values of defaults, those of a
      choice apart; not the bounds of ranges. */
  function CheckedExprs(d: SymDef): seq<Expr> {
    OptList(d.revDep) + CondExprs(d.conds) + CondExprs(d.prompts)
    + (if d.isChoice then DefaultConds(d.defaults) else DefaultExprs(d.defaults)) + RangeExprs(d.ranges)
  }

  lemma {:induction false} CondsChecked(ps: seq<Option<Expr>>, e: Expr)
    ensures e in CondExprs(ps) <==> Some(e) in ps
  {
    if ps != [] {
      CondsChecked(ps[1..], e);
      assert Some(e) in ps <==> ps[0] == Some(e) || Some(e) in ps[1..];
    }
  }

  lemma {:induction false} DefaultsChecked(ds: seq<Default>, e: Expr)
    ensures e in DefaultExprs(ds) <==> exists d :: d in ds && (d.cond == Some(e) || d.value == e)
    ensures e in DefaultConds(ds) <==> exists d :: d in ds && d.cond == Some(e)
  {
    if ds != [] {
      DefaultsChecked(ds[1..], e);
      assert forall d :: d in ds <==> d == ds[0] || d in ds[1..];
    }
  }

  lemma {:induction false} RangesChecked(rs: seq<Range>, e: Expr)
    ensures e in RangeExprs(rs) <==> exists r :: r in rs && r.cond == Some(e)
  {
    if rs != [] {
      RangesChecked(rs[1..], e);
      assert forall r :: r in rs <==> r == rs[0] || r in rs[1..];
    }
  }

  /** A condition is looked into if and only if it is the reverse dependency, the condition
      of some property, or the value of a default; of a choice the values of defaults are
      not, and the bounds of a range never are. */
  lemma CheckedExactly(d: SymDef, e: Expr)
    ensures e in CheckedExprs(d) <==>
      || d.revDep == Some(e) || Some(e) in d.conds || Some(e) in d.prompts
      || (exists x :: x in d.defaults && (x.cond == Some(e) || (!d.isChoice && x.value == e)))
      || (exists r :: r in d.ranges && r.cond == Some(e))
  {
    CondsChecked(d.conds, e);
    CondsChecked(d.prompts, e);
    DefaultsChecked(d.defaults, e);
    RangesChecked(d.ranges, e);
    hide CondExprs, DefaultExprs, DefaultConds, RangeExprs;
  }

  ghost predicate Edge(tab: Table, s: Sym, x: Sym) {
    s < |tab.t| && x < |tab.t| && exists e :: e in CheckedExprs(Def(tab, s)) && Mentions(e, x)
  }

  ghost predicate IsPath(tab: Table, c: seq<Sym>) {
    forall i :: 0 <= i < |c| - 1 ==> Edge(tab, c[i], c[i + 1])
  }

  ghost predicate IsCycle(tab: Table, c: seq<Sym>) {
    |c| > 0 && IsPath(tab, c) && Edge(tab, c[|c| - 1], c[0])
  }

  ghost predicate HasCycle(tab: Table) {
    exists c :: IsCycle(tab, c)
  }

  // ----- choices and their values -----

  /** Choices and their values name each other. */
  ghost predicate Grouped(tab: Table) {
    && (forall s: Sym, c: Sym :: s < |tab.t| && Def(tab, s).choiceOf == Some(c) ==>
          && !Def(tab, s).isChoice && c < |tab.t| && Def(tab, c).isChoice && Def(tab, c).choiceOf.None?
          && s in Def(tab, c).values)
    && (forall c: Sym, x: Sym :: c < |tab.t| && Def(tab, c).isChoice && x in Def(tab, c).values ==>
          x < |tab.t| && Def(tab, x).choiceOf == Some(c))
  }

  /** The choice of a choice value, any other symbol itself. */
  function Head(tab: Table, s: Sym): Sym {
    if Def(tab, s).choiceOf.Some? then Def(tab, s).choiceOf.value else s
  }

  /** A symbol depends on x; a choice value needs its choice and whatever one of the
      values of that choice depends on, too. */
  ghost predicate Needs(tab: Table, s: Sym, x: Sym) {
    || Edge(tab, s, x)
    || (s < |tab.t| && x < |tab.t| && Def(tab, s).choiceOf == Some(x))
    || (Def(tab, s).choiceOf.Some? && exists y :: Def(tab, y).choiceOf == Def(tab, s).choiceOf && Edge(tab, y, x))
  }

  ghost predicate IsNeedPath(tab: Table, c: seq<Sym>) {
    forall i :: 0 <= i < |c| - 1 ==> Needs(tab, c[i], c[i + 1])
  }

  ghost predicate IsNeedCycle(tab: Table, c: seq<Sym>) {
    |c| > 0 && IsNeedPath(tab, c) && Needs(tab, c[|c| - 1], c[0])
  }

  ghost predicate HasNeedCycle(tab: Table) {
    exists c :: IsNeedCycle(tab, c)
  }

  lemma CycleNeeds(tab: Table)
    requires HasCycle(tab)
    ensures HasNeedCycle(tab)
  {
    var c :| IsCycle(tab, c);
    forall i | 0 <= i < |c| - 1
      ensures Needs(tab, c[i], c[i + 1])
    {
      assert Edge(tab, c[i], c[i + 1]);
    }
    assert IsNeedCycle(tab, c);
  }

  // ----- finishing orders -----

  /** Every symbol comes after everything it needs. */
  ghost predicate FinishOrder(tab: Table, done: seq<Sym>) {
    forall i, x :: 0 <= i < |done| && Needs(tab, done[i], x) ==> x in done[..i]
  }

  ghost function Position(done: seq<Sym>, s: Sym): (i: nat)
    requires s in done
    ensures i < |done| && done[i] == s && s !in done[..i]
  {
    if done[0] == s then 0 else 1 + Position(done[1..], s)
  }

  lemma {:induction false} PositionBound(done: seq<Sym>, x: Sym, i: nat)
    requires i <= |done| && x in done[..i]
    ensures x in done && Position(done, x) < i
  {
    if done[0] != x {
      assert done[..i][1..] == done[1..][..i - 1];
      assert done[..i] == [done[0]] + done[..i][1..];
      PositionBound(done[1..], x, i - 1);
    }
  }

  lemma NeedDescends(tab: Table, done: seq<Sym>, s: Sym, x: Sym)
    requires FinishOrder(tab, done) && s in done && Needs(tab, s, x)
    ensures x in done && Position(done, x) < Position(done, s)
  {
    hide Needs;
    var i := Position(done, s);
    assert Needs(tab, done[i], x);
    PositionBound(done, x, i);
  }

  lemma {:induction false} PathDescends(tab: Table, done: seq<Sym>, c: seq<Sym>, n: nat)
    requires FinishOrder(tab, done) && IsNeedPath(tab, c) && n < |c|
    requires c[0] in done
    ensures c[n] in done && Position(done, c[n]) + n <= Position(done, c[0])
  {
    hide Needs, FinishOrder;
    if n > 0 {
      PathDescends(tab, done, c, n - 1);
      assert Needs(tab, c[n - 1], c[n]);
      NeedDescends(tab, done, c[n - 1], c[n]);
    }
  }

  /** A finishing order that covers the table rules cycles out. */
  lemma OrderedIsAcyclic(tab: Table, done: seq<Sym>)
    requires FinishOrder(tab, done)
    requires forall s: Sym :: s < |tab.t| ==> s in done
    ensures !HasNeedCycle(tab) && !HasCycle(tab)
  {
    if HasCycle(tab) {
      CycleNeeds(tab);
    }
    if HasNeedCycle(tab) {
      hide Needs, FinishOrder;
      var c :| IsNeedCycle(tab, c);
      NeededInTable(tab, c[|c| - 1], c[0]);
      PathDescends(tab, done, c, |c| - 1);
      NeedDescends(tab, done, c[|c| - 1], c[0]);
      assert false;
    }
  }

  lemma NeededInTable(tab: Table, s: Sym, x: Sym)
    requires Needs(tab, s, x)
    ensures x < |tab.t|
  {
  }

  /** A ranking that every dependency respects. */
  ghost predicate Ranked(tab: Table, rank: Rank) {
    forall s: Sym, x: Sym :: Edge(tab, s, x) ==> rank(x) < rank(s)
  }

  lemma {:induction false} PathRanked(tab: Table, rank: Rank, c: seq<Sym>, n: nat)
    requires Ranked(tab, rank) && IsPath(tab, c) && n < |c|
    ensures rank(c[n]) + n <= rank(c[0])
  {
    hide Edge;
    if n > 0 {
      PathRanked(tab, rank, c, n - 1);
      assert Edge(tab, c[n - 1], c[n]);
    }
  }

  lemma RankedIsAcyclic(tab: Table, rank: Rank)
    requires Ranked(tab, rank)
    ensures !HasCycle(tab)
  {
    hide Edge;
    if HasCycle(tab) {
      var c :| IsCycle(tab, c);
      PathRanked(tab, rank, c, |c| - 1);
    }
  }

  lemma OrderRanks(tab: Table, done: seq<Sym>) returns (rank: Rank)
    requires FinishOrder(tab, done)
    requires forall s: Sym :: s < |tab.t| ==> s in done
    ensures Ranked(tab, rank)
  {
    rank := s => if s in done then Position(done, s) else 0;
    forall s: Sym, x: Sym | Edge(tab, s, x)
      ensures rank(x) < rank(s)
    {
      NeedDescends(tab, done, s, x);
    }
  }

  // ----- reachability, choices and their values as one -----

  ghost function Ids(n: nat): (r: set<Sym>)
    ensures forall s: Sym :: s in r <==> s < n
  {
    if n == 0 then {} else Ids(n - 1) + {n - 1}
  }

  /** A choice with its values, any other symbol alone. */
  ghost function Group(tab: Table, t: Sym): set<Sym> {
    set x | x in Ids(|tab.t|) && Head(tab, x) == t
  }

  /** The symbols s depends on. */
  ghost function Deps(tab: Table, s: Sym): set<Sym> {
    set x | x in Ids(|tab.t|) && Edge(tab, s, x)
  }

  /** Looking into s may lead to looking into x: s depends on it, or both belong to
      one group. */
  ghost predicate Brings(tab: Table, s: Sym, x: Sym) {
    Edge(tab, s, x) || (s < |tab.t| && x < |tab.t| && Head(tab, s) == Head(tab, x))
  }

  ghost predicate ClosedOff(tab: Table, w: set<Sym>, b: set<Sym>) {
    forall s: Sym, x: Sym :: s in b && Brings(tab, s, x) ==> x in b || x in w
  }

  ghost predicate Encloses(tab: Table, w: set<Sym>, a: set<Sym>, b: set<Sym>) {
    a <= b && ClosedOff(tab, w, b)
  }

  /** What looking into the symbols in a leads to, as long as nothing in w is looked
      into again: the least set around a that is closed but for w. */
  ghost function Reach(tab: Table, w: set<Sym>, a: set<Sym>): set<Sym> {
    set x | x in Ids(|tab.t|) && forall b: set<Sym> :: Encloses(tab, w, a, b) ==> x in b
  }

  lemma ReachLeast(tab: Table, w: set<Sym>, a: set<Sym>, b: set<Sym>)
    requires Encloses(tab, w, a, b)
    ensures Reach(tab, w, a) <= b
  {
    hide ClosedOff;
  }

  lemma ReachClosed(tab: Table, w: set<Sym>, a: set<Sym>)
    ensures forall s: Sym :: s in a && s < |tab.t| ==> s in Reach(tab, w, a)
    ensures ClosedOff(tab, w, Reach(tab, w, a))
  {
    hide Head;
    forall s: Sym, x: Sym | s in Reach(tab, w, a) && Brings(tab, s, x) && x !in w
      ensures x in Reach(tab, w, a)
    {
      forall b: set<Sym> | Encloses(tab, w, a, b)
        ensures x in b
      {
        assert s in b;
      }
    }
  }

  /** More to start from leads further. */
  lemma ReachGrows(tab: Table, w: set<Sym>, a: set<Sym>, a': set<Sym>)
    requires forall s: Sym :: s in a && s < |tab.t| ==> s in Reach(tab, w, a')
    requires a <= Ids(|tab.t|)
    ensures Reach(tab, w, a) <= Reach(tab, w, a')
  {
    hide ClosedOff, Brings;
    ReachClosed(tab, w, a');
    assert a <= Reach(tab, w, a');
    ReachLeast(tab, w, a, Reach(tab, w, a'));
  }

  // ----- coming back -----

  /** With the symbols in w looked into before, the search of the group t comes back
      to a symbol it has flagged CHECK: to a value, or to t itself by way of what t
      itself depends on, as the flag of a choice is cleared before its values are
      looked into. */
  ghost predicate Caught(tab: Table, w: set<Sym>, t: Sym) {
    exists s: Sym, v: Sym :: Edge(tab, s, v) && Head(tab, v) == t && ComesTo(tab, w, t, s, v)
  }

  ghost predicate ComesTo(tab: Table, w: set<Sym>, t: Sym, s: Sym, v: Sym) {
    if Def(tab, v).isChoice then s == t || s in Reach(tab, w, Deps(tab, t) - w)
    else s in Reach(tab, w, Group(tab, t))
  }

  /** The search may begin the group t when the symbols in w have been looked into:
      all symbols of lower number have, or something that depends on the group. */
  ghost predicate MetAfter(tab: Table, w: set<Sym>, t: Sym) {
    && t < |tab.t| && t !in w && Head(tab, t) == t && WholeGroups(tab, w)
    && ((exists f: Sym :: f < |tab.t| && Head(tab, f) == t && Ids(f) <= w)
        || (exists s: Sym, x: Sym :: s in w && Edge(tab, s, x) && Head(tab, x) == t))
  }

  ghost predicate WholeGroups(tab: Table, c: set<Sym>) {
    forall s: Sym :: s < |tab.t| && Def(tab, s).choiceOf.Some? ==> (s in c <==> Def(tab, s).choiceOf.value in c)
  }

  /** Some group is caught, in whatever way the search may have come to it. */
  ghost predicate MayReport(tab: Table) {
    exists w: set<Sym>, t: Sym :: MetAfter(tab, w, t) && Caught(tab, w, t)
  }

  /** Nothing of lower number than f leads to the group of f, so that the sweep
      begins it with f. */
  ghost predicate BegunBy(tab: Table, f: Sym) {
    f < |tab.t| && Head(tab, f) !in Reach(tab, {}, Ids(f))
  }

  lemma HeadInTable(tab: Table, s: Sym)
    requires Grouped(tab) && s < |tab.t|
    ensures Head(tab, s) < |tab.t| && Head(tab, Head(tab, s)) == Head(tab, s)
  {
  }

  /** Whether the sweep begins a group or comes to it after symbols that do not lead
      to it makes no difference. */
  lemma CaughtAtOnce(tab: Table, w: set<Sym>, f: Sym)
    requires Grouped(tab) && BegunBy(tab, f) && w <= Reach(tab, {}, Ids(f)) && Caught(tab, {}, Head(tab, f))
    ensures Caught(tab, w, Head(tab, f))
  {
    hide Reach, ClosedOff, Brings, Edge, Deps, Group;
    var t, before := Head(tab, f), Reach(tab, {}, Ids(f));
    var s: Sym, v: Sym :| Edge(tab, s, v) && Head(tab, v) == t && ComesTo(tab, {}, t, s, v);
    ReachClosed(tab, {}, Ids(f));
    LeadsBack(tab, before, s, v);
    GroupsInTable(tab, t);
    ReachPast(tab, w, before, Group(tab, t), Group(tab, t));
    ReachPast(tab, w, before, Deps(tab, t) - {}, Deps(tab, t) - w);
    assert ComesTo(tab, w, t, s, v);
  }

  lemma GroupsInTable(tab: Table, t: Sym)
    ensures forall x :: x in Group(tab, t) || x in Deps(tab, t) ==> x < |tab.t|
  {
  }

  lemma LeadsBack(tab: Table, b: set<Sym>, s: Sym, v: Sym)
    requires Grouped(tab) && ClosedOff(tab, {}, b) && Edge(tab, s, v) && Head(tab, v) !in b
    ensures s !in b
  {
    hide Edge;
    EdgeInTable(tab, s, v);
    HeadInTable(tab, v);
    assert Brings(tab, s, v);
    assert Brings(tab, v, Head(tab, v));
  }

  lemma EdgeInTable(tab: Table, s: Sym, x: Sym)
    requires Edge(tab, s, x)
    ensures s < |tab.t| && x < |tab.t|
  {
  }

  lemma ReachPast(tab: Table, w: set<Sym>, before: set<Sym>, a: set<Sym>, a': set<Sym>)
    requires w <= before && ClosedOff(tab, {}, before)
    requires forall x :: x in a ==> x < |tab.t| && (x in a' || x in before)
    ensures Reach(tab, {}, a) <= Reach(tab, w, a') + before
  {
    hide Brings;
    ReachClosed(tab, w, a');
    assert Encloses(tab, {}, a, Reach(tab, w, a') + before);
    ReachLeast(tab, {}, a, Reach(tab, w, a') + before);
  }

  // ----- cycles of groups -----

  /** One group depends on another, or on itself other than through a value that
      depends on its own choice. */
  ghost predicate GroupEdge(tab: Table, a: Sym, b: Sym) {
    exists s: Sym, x: Sym ::
      Edge(tab, s, x) && Head(tab, s) == a && Head(tab, x) == b && Def(tab, s).choiceOf != Some(x)
  }

  ghost predicate IsGroupPath(tab: Table, c: seq<Sym>) {
    forall i :: 0 <= i < |c| - 1 ==> GroupEdge(tab, c[i], c[i + 1])
  }

  ghost predicate IsGroupCycle(tab: Table, c: seq<Sym>) {
    |c| > 0 && IsGroupPath(tab, c) && GroupEdge(tab, c[|c| - 1], c[0])
  }

  ghost predicate HasGroupCycle(tab: Table) {
    exists c :: IsGroupCycle(tab, c)
  }

  /** Without choices nothing is grouped. */
  lemma NoGroups(tab: Table)
    requires ChoiceFree(tab)
    ensures Grouped(tab) && (HasGroupCycle(tab) <==> HasCycle(tab))
  {
    hide Edge;
    forall a: Sym, b: Sym
      ensures GroupEdge(tab, a, b) <==> Edge(tab, a, b)
    {
      if Edge(tab, a, b) {
        assert Head(tab, a) == a && Head(tab, b) == b && Def(tab, a).choiceOf != Some(b);
      }
    }
    forall c: seq<Sym>
      ensures IsGroupCycle(tab, c) <==> IsCycle(tab, c)
    {
    }
  }

  /** A dependency path of groups from a to b, of one step at least. */
  ghost predicate LeadsTo(tab: Table, a: Sym, b: Sym) {
    exists c :: IsGroupPath(tab, c) && |c| > 1 && c[0] == a && c[|c| - 1] == b
  }

  lemma LeadsOne(tab: Table, a: Sym, b: Sym)
    requires GroupEdge(tab, a, b)
    ensures LeadsTo(tab, a, b)
  {
    hide GroupEdge;
    assert IsGroupPath(tab, [a, b]);
  }

  lemma LeadsOn(tab: Table, a: Sym, b: Sym, d: Sym)
    requires LeadsTo(tab, a, b) && GroupEdge(tab, b, d)
    ensures LeadsTo(tab, a, d)
  {
    hide GroupEdge;
    var c :| IsGroupPath(tab, c) && |c| > 1 && c[0] == a && c[|c| - 1] == b;
    assert IsGroupPath(tab, c + [d]);
  }

  lemma LeadsAround(tab: Table, a: Sym)
    requires LeadsTo(tab, a, a)
    ensures HasGroupCycle(tab)
  {
    hide GroupEdge;
    var c :| IsGroupPath(tab, c) && |c| > 1 && c[0] == a && c[|c| - 1] == a;
    assert GroupEdge(tab, c[|c| - 2], c[|c| - 1]);
    assert IsGroupCycle(tab, c[..|c| - 1]);
  }

  /** The symbols whose groups t leads to. */
  ghost function Led(tab: Table, t: Sym): set<Sym> {
    set x | x in Ids(|tab.t|) && LeadsTo(tab, t, Head(tab, x))
  }

  lemma LedStep(tab: Table, t: Sym, s: Sym, x: Sym)
    requires Edge(tab, s, x) && (s in Led(tab, t) || Head(tab, s) == t)
    ensures x in Led(tab, t) || (Def(tab, s).choiceOf == Some(x) && Head(tab, x) == Head(tab, s) == x) || !Grouped(tab)
  {
    hide LeadsTo;
    if Grouped(tab) && Def(tab, s).choiceOf != Some(x) {
      EdgeInTable(tab, s, x);
      assert GroupEdge(tab, Head(tab, s), Head(tab, x));
      hide Edge, GroupEdge;
      if s in Led(tab, t) {
        LeadsOn(tab, t, Head(tab, s), Head(tab, x));
      } else {
        LeadsOne(tab, t, Head(tab, x));
      }
    }
  }

  lemma BringsLed(tab: Table, t: Sym, s: Sym, x: Sym)
    requires Grouped(tab) && Brings(tab, s, x)
    ensures s in Led(tab, t) ==> x in Led(tab, t)
    ensures Head(tab, s) == t ==> x in Group(tab, t) + Led(tab, t)
  {
    hide LeadsTo, Edge, Grouped;
    if Edge(tab, s, x) && (s in Led(tab, t) || Head(tab, s) == t) {
      LedStep(tab, t, s, x);
      EdgeInTable(tab, s, x);
    }
  }

  /** Whatever a group reaches lies in a group it leads to, or in the group. */
  lemma ReachedIsLed(tab: Table, w: set<Sym>, t: Sym)
    requires Grouped(tab)
    ensures Reach(tab, w, Group(tab, t)) <= Group(tab, t) + Led(tab, t)
  {
    hide Brings, Led, Grouped, Reach;
    var b := Group(tab, t) + Led(tab, t);
    forall s: Sym, x: Sym | s in b && Brings(tab, s, x)
      ensures x in b
    {
      BringsLed(tab, t, s, x);
    }
    ReachLeast(tab, w, Group(tab, t), b);
  }

  lemma OwnReachedIsLed(tab: Table, w: set<Sym>, t: Sym)
    requires Grouped(tab) && Head(tab, t) == t
    ensures Reach(tab, w, Deps(tab, t) - w) <= Led(tab, t)
  {
    hide Brings, Grouped, Reach, LeadsTo, Edge;
    forall x: Sym | x in Deps(tab, t)
      ensures x in Led(tab, t)
    {
      HeadDepends(tab, t, x);
    }
    forall s: Sym, x: Sym | s in Led(tab, t) && Brings(tab, s, x)
      ensures x in Led(tab, t)
    {
      BringsLed(tab, t, s, x);
    }
    ReachLeast(tab, w, Deps(tab, t) - w, Led(tab, t));
  }

  lemma HeadDepends(tab: Table, t: Sym, x: Sym)
    requires Grouped(tab) && Head(tab, t) == t && Edge(tab, t, x)
    ensures LeadsTo(tab, t, Head(tab, x))
  {
    EdgeInTable(tab, t, x);
    assert GroupEdge(tab, t, Head(tab, x));
    LeadsOne(tab, t, Head(tab, x));
  }

  /** A report takes a cycle of groups. */
  lemma ReportsAreGroupCycles(tab: Table)
    requires Grouped(tab) && MayReport(tab)
    ensures HasGroupCycle(tab)
  {
    hide Brings, Reach, LeadsTo, Edge, HasGroupCycle, Deps;
    var w: set<Sym>, t: Sym :| MetAfter(tab, w, t) && Caught(tab, w, t);
    var s: Sym, v: Sym :| Edge(tab, s, v) && Head(tab, v) == t && ComesTo(tab, w, t, s, v);
    ReachedIsLed(tab, w, t);
    OwnReachedIsLed(tab, w, t);
    ComesAround(tab, t, s, v);
  }

  lemma ComesAround(tab: Table, t: Sym, s: Sym, v: Sym)
    requires Grouped(tab) && Edge(tab, s, v) && Head(tab, v) == t && Head(tab, t) == t
    requires if Def(tab, v).isChoice then s == t || s in Led(tab, t) else s in Group(tab, t) + Led(tab, t)
    ensures HasGroupCycle(tab)
  {
    hide LeadsTo, HasGroupCycle, Edge;
    LedStep(tab, t, s, v);
    EdgeInTable(tab, s, v);
    if v in Led(tab, t) || s in Led(tab, t) {
      LeadsAround(tab, t);
    }
  }
}
