/** Detection of recursive dependencies (symbol.c:1053-1306): a depth-first
    search that marks symbols CHECK while they are on the search path and CHECKED
    for good, choices together with their values. */
module Recursion {
  import opened Tristates
  import opened Exprs
  import opened SymbolEquations
  import opened Layering
  import opened Dependencies

  // ----- the groups under check -----

  /** Where the search of the group t starts: a choice still flagged CHECK has its own
      dependencies looked into, not those of its values. */
  ghost function Begun(tab: Table, w: set<Sym>, t: Sym, check: set<Sym>): set<Sym> {
    if Def(tab, t).isChoice && t in check then Deps(tab, t) - w else Group(tab, t)
  }

  /** The group at position i was begun when w had been looked into, and has led to
      all groups behind it. */
  ghost predicate Stage(tab: Table, path: seq<Sym>, i: nat, w: set<Sym>, check: set<Sym>)
    requires i < |path|
  {
    && MetAfter(tab, w, path[i])
    && forall j :: i < j < |path| ==> Group(tab, path[j]) <= Reach(tab, w, Begun(tab, w, path[i], check))
  }

  ghost predicate Trail(tab: Table, path: seq<Sym>, since: seq<set<Sym>>, check: set<Sym>, checked: set<Sym>) {
    && |since| == |path|
    && forall i :: 0 <= i < |path| ==>
         Stage(tab, path, i, since[i], check) && path[i] in checked && since[i] <= checked
  }

  /** Without reports, whatever is CHECKED is flagged CHECK or finished, after
      everything it needs. */
  ghost predicate Settled(tab: Table, done: seq<Sym>, check: set<Sym>, checked: set<Sym>) {
    && FinishOrder(tab, done)
    && (forall s :: s in checked ==> s in check || s in done)
    && (forall s :: s in done ==> s in checked && s !in check)
  }

  lemma BegunGrows(tab: Table, w: set<Sym>, t: Sym, check: set<Sym>, less: set<Sym>)
    requires less <= check && t < |tab.t| && Head(tab, t) == t
    ensures Reach(tab, w, Begun(tab, w, t, check)) <= Reach(tab, w, Begun(tab, w, t, less))
    ensures Reach(tab, w, Begun(tab, w, t, check)) <= Reach(tab, w, Group(tab, t))
  {
    hide Reach, ClosedOff, Brings, Edge;
    ReachClosed(tab, w, Group(tab, t));
    GroupsInTable(tab, t);
    forall x | x in Deps(tab, t) - w
      ensures x in Reach(tab, w, Group(tab, t))
    {
      DependsBrings(tab, t, x);
      ClosedStep(tab, w, Reach(tab, w, Group(tab, t)), t, x);
    }
    ReachGrows(tab, w, Deps(tab, t) - w, Group(tab, t));
  }

  lemma DependsBrings(tab: Table, s: Sym, x: Sym)
    requires x in Deps(tab, s)
    ensures Brings(tab, s, x)
  {
  }

  lemma ClosedStep(tab: Table, w: set<Sym>, b: set<Sym>, s: Sym, x: Sym)
    requires ClosedOff(tab, w, b) && s in b && Brings(tab, s, x) && x !in w
    ensures x in b
  {
    hide Brings;
  }

  /** Flags are cleared and more is CHECKED. */
  lemma TrailKeeps(tab: Table, path: seq<Sym>, since: seq<set<Sym>>, check: set<Sym>, checked: set<Sym>,
                   check': set<Sym>,
                   checked': set<Sym>)
    requires Trail(tab, path, since, check, checked) && check' <= check && checked <= checked'
    ensures Trail(tab, path, since, check', checked')
  {
    hide Reach, Group, Begun;
    forall i | 0 <= i < |path|
      ensures Stage(tab, path, i, since[i], check')
    {
      assert Stage(tab, path, i, since[i], check);
      BegunGrows(tab, since[i], path[i], check, check');
    }
  }

  lemma TrailPop(tab: Table, path: seq<Sym>, since: seq<set<Sym>>, check: set<Sym>, checked: set<Sym>)
    requires Trail(tab, path, since, check, checked) && path != []
    ensures Trail(tab, path[..|path| - 1], since[..|path| - 1], check, checked)
  {
    hide Reach, Group, Begun, MetAfter;
    var n := |path| - 1;
    forall i | 0 <= i < n
      ensures Stage(tab, path[..n], i, since[..n][i], check)
    {
      assert Stage(tab, path, i, since[i], check);
    }
  }

  /** s is what the search looks into: a member of the last group of the path, a value
      only once the flag of its choice is cleared. */
  ghost predicate Current(tab: Table, path: seq<Sym>, check: set<Sym>, s: Sym) {
    && path != [] && s < |tab.t| && Head(tab, s) == path[|path| - 1]
    && (Def(tab, s).choiceOf.Some? ==> Head(tab, s) !in check)
  }

  /** Every group of the path has led to what is looked into now. */
  lemma Reached(tab: Table, path: seq<Sym>, since: seq<set<Sym>>, check: set<Sym>, checked: set<Sym>, i: nat, s: Sym)
    requires Trail(tab, path, since, check, checked) && Current(tab, path, check, s) && i < |path|
    ensures || s in Reach(tab, since[i], Begun(tab, since[i], path[i], check))
            || (i == |path| - 1 && path[i] == s && Begun(tab, since[i], s, check) == Deps(tab, s) - since[i])
  {
    hide Reach, MetAfter, Edge;
    assert Stage(tab, path, i, since[i], check);
    assert s in Group(tab, path[|path| - 1]);
    ReachClosed(tab, since[i], Begun(tab, since[i], path[i], check));
  }

  /** A group that was not CHECKED is entered. */
  lemma TrailPush(tab: Table, path: seq<Sym>, since: seq<set<Sym>>, check: set<Sym>, checked: set<Sym>, s: Sym, y: Sym,
                  u: Sym)
    requires Trail(tab, path, since, check, checked) && Grouped(tab) && WholeGroups(tab, checked)
    requires u < |tab.t| && u !in checked && Head(tab, u) == u
    requires if path == [] then MetAfter(tab, checked, u)
             else Current(tab, path, check, s) && Edge(tab, s, y) && Head(tab, y) == u
    ensures MetAfter(tab, checked, u)
    ensures Trail(tab, path + [u], since + [checked], check + Group(tab, u), checked + Group(tab, u))
  {
    hide Reach, Edge, Group, Begun, Stage;
    if path != [] {
      assert s in checked by { WholeMember(tab, checked, s, path[|path| - 1]); }
    }
    forall i | 0 <= i < |path|
      ensures Stage(tab, path + [u], i, since[i], check + Group(tab, u))
    {
      StagePush(tab, path, since, check, checked, i, s, y, u);
    }
    StageTop(tab, path, check, checked, u);
  }

  lemma StageTop(tab: Table, path: seq<Sym>, check: set<Sym>, checked: set<Sym>, u: Sym)
    requires MetAfter(tab, checked, u)
    ensures Stage(tab, path + [u], |path|, checked, check + Group(tab, u)) && u in Group(tab, u)
  {
    hide Reach, Begun;
  }

  lemma WholeMember(tab: Table, c: set<Sym>, s: Sym, t: Sym)
    requires WholeGroups(tab, c) && s < |tab.t| && Head(tab, s) == t
    ensures s in c <==> t in c
  {
  }

  lemma StagePush(tab: Table, path: seq<Sym>, since: seq<set<Sym>>, check: set<Sym>, checked: set<Sym>, i: nat, s: Sym,
                  y: Sym, u: Sym)
    requires Trail(tab, path, since, check, checked) && Grouped(tab) && WholeGroups(tab, checked)
    requires u < |tab.t| && u !in checked && Head(tab, u) == u && i < |path|
    requires Current(tab, path, check, s) && Edge(tab, s, y) && Head(tab, y) == u
    ensures Stage(tab, path + [u], i, since[i], check + Group(tab, u))
  {
    hide Reach, Edge, Deps;
    var w, t := since[i], path[i];
    assert Stage(tab, path, i, w, check);
    assert Begun(tab, w, t, check + Group(tab, u)) == Begun(tab, w, t, check);
    LedFurther(tab, path, since, check, checked, i, s, y, u);
  }

  lemma LedFurther(tab: Table, path: seq<Sym>, since: seq<set<Sym>>, check: set<Sym>, checked: set<Sym>, i: nat, s: Sym,
                   y: Sym, u: Sym)
    requires Trail(tab, path, since, check, checked) && Grouped(tab) && WholeGroups(tab, checked)
    requires u < |tab.t| && u !in checked && Head(tab, u) == u && i < |path|
    requires Current(tab, path, check, s) && Edge(tab, s, y) && Head(tab, y) == u
    ensures Group(tab, u) <= Reach(tab, since[i], Begun(tab, since[i], path[i], check))
  {
    hide Reach, Edge, Stage, Current, Grouped;
    var w, a := since[i], Begun(tab, since[i], path[i], check);
    Reached(tab, path, since, check, checked, i, s);
    ReachClosed(tab, w, a);
    EdgeInTable(tab, s, y);
    WholeMember(tab, checked, y, u);
    assert y in Reach(tab, w, a) by {
      if s in Reach(tab, w, a) {
        assert Brings(tab, s, y);
      } else {
        assert y in Deps(tab, s) - w;
      }
    }
    forall x | x in Group(tab, u)
      ensures x in Reach(tab, w, a)
    {
      WholeMember(tab, checked, x, u);
      assert Brings(tab, y, x);
    }
  }

  /** The search comes to a symbol flagged CHECK. */
  lemma ReportIsCaught(tab: Table, path: seq<Sym>, since: seq<set<Sym>>, check: set<Sym>, checked: set<Sym>, s: Sym,
                       x: Sym)
    requires Trail(tab, path, since, check, checked) && Grouped(tab) && Current(tab, path, check, s) && Edge(tab, s, x)
    requires x in check && Head(tab, x) in path
    ensures MayReport(tab)
  {
    hide Reach, Edge, Current, Group;
    var i :| 0 <= i < |path| && path[i] == Head(tab, x);
    var w, t := since[i], path[i];
    assert Stage(tab, path, i, w, check);
    EdgeInTable(tab, s, x);
    Reached(tab, path, since, check, checked, i, s);
    if !Def(tab, x).isChoice {
      BegunGrows(tab, w, t, check, check);
      if i == |path| - 1 {
        CurrentInGroup(tab, path, check, w, s, t);
      }
    } else {
      assert x == t;
    }
    assert ComesTo(tab, w, t, s, x);
    assert Caught(tab, w, t);
  }

  lemma CurrentInGroup(tab: Table, path: seq<Sym>, check: set<Sym>, w: set<Sym>, s: Sym, t: Sym)
    requires Current(tab, path, check, s) && path[|path| - 1] == t
    ensures s in Reach(tab, w, Group(tab, t))
  {
    hide Reach, ClosedOff;
    ReachClosed(tab, w, Group(tab, t));
  }

  // ----- the end of a check without a report -----

  lemma OrderPush(tab: Table, done: seq<Sym>, s: Sym)
    requires FinishOrder(tab, done) && forall x: Sym :: Needs(tab, s, x) ==> x in done
    ensures FinishOrder(tab, done + [s])
  {
    hide Needs;
    forall i, x | 0 <= i < |done + [s]| && Needs(tab, (done + [s])[i], x)
      ensures x in (done + [s])[..i]
    {
      if i < |done| {
        assert (done + [s])[..i] == done[..i];
      } else {
        assert (done + [s])[..i] == done;
      }
    }
  }

  lemma {:induction false} OrderPushAll(tab: Table, done: seq<Sym>, more: seq<Sym>)
    requires FinishOrder(tab, done) && forall s: Sym, x: Sym :: s in more && Needs(tab, s, x) ==> x in done
    ensures FinishOrder(tab, done + more)
    decreases |more|
  {
    hide Needs, FinishOrder;
    if more == [] {
      assert done + more == done;
    } else {
      OrderPush(tab, done, more[0]);
      OrderPushAll(tab, done + [more[0]], more[1..]);
      assert done + [more[0]] + more[1..] == done + more;
    }
  }

  /** All that the symbols in s depend on has been looked into, and is not under
      check. */
  ghost predicate LookedInto(tab: Table, s: set<Sym>, check: set<Sym>, checked: set<Sym>) {
    forall y: Sym, x: Sym :: y in s && Edge(tab, y, x) ==> x in checked && x !in check
  }

  /** A symbol without a choice is finished. */
  lemma FinishOne(tab: Table, done: seq<Sym>, check: set<Sym>, checked: set<Sym>, s: Sym)
    requires Settled(tab, done, check, checked) && LookedInto(tab, {s}, check, checked)
    requires Def(tab, s).choiceOf.None? && s in checked
    ensures Settled(tab, done + [s], check - {s}, checked)
  {
    hide Edge, FinishOrder;
    OrderPush(tab, done, s);
  }

  function Members(xs: seq<Sym>): set<Sym> {
    set x | x in xs
  }

  /** All values of a choice are finished. */
  lemma FinishValues(tab: Table, done: seq<Sym>, check: set<Sym>, checked: set<Sym>, c: Sym, values: seq<Sym>)
    requires Settled(tab, done, check, checked) && c in checked && c !in check
    requires forall x: Sym :: x in values <==> x < |tab.t| && Def(tab, x).choiceOf == Some(c)
    requires forall x :: x in values ==> x in checked
    requires LookedInto(tab, Members(values), check, checked)
    ensures Settled(tab, done + values, check - Members(values), checked)
  {
    hide FinishOrder, Edge;
    forall s: Sym, x: Sym | s in values && Needs(tab, s, x)
      ensures x in done
    {
      ValueNeeds(tab, s, x, c);
    }
    OrderPushAll(tab, done, values);
  }

  lemma ValueNeeds(tab: Table, s: Sym, x: Sym, c: Sym)
    requires Needs(tab, s, x) && Def(tab, s).choiceOf == Some(c)
    ensures x == c || exists y: Sym :: y < |tab.t| && Def(tab, y).choiceOf == Some(c) && Edge(tab, y, x)
  {
    if !Edge(tab, s, x) && x != c {
      var y :| Def(tab, y).choiceOf == Def(tab, s).choiceOf && Edge(tab, y, x);
      EdgeInTable(tab, y, x);
    } else if Edge(tab, s, x) {
      EdgeInTable(tab, s, x);
    }
  }

  /** What t itself depends on does not come back to its group, with w looked into
      before. */
  ghost predicate OwnFree(tab: Table, w: set<Sym>, t: Sym) {
    forall s: Sym, v: Sym :: Edge(tab, s, v) && v in Group(tab, t) ==> s != t && s !in Reach(tab, w, Deps(tab, t) - w)
  }

  lemma OwnEnds(tab: Table, w: set<Sym>, t: Sym, done: seq<Sym>, check: set<Sym>, checked: set<Sym>)
    requires Settled(tab, done, check, checked) && WholeGroups(tab, checked) && LookedInto(tab, {t}, check, checked)
    requires Group(tab, t) <= check <= w + Group(tab, t)
    ensures OwnFree(tab, w, t)
  {
    hide Reach, Edge, Grouped, FinishOrder;
    var b := set s | s in done;
    forall s: Sym, x: Sym | s in b && Brings(tab, s, x)
      ensures x in b || x in w
    {
      DoneBrings(tab, done, check, checked, s, x);
    }
    ReachLeast(tab, w, Deps(tab, t) - w, b);
    forall s: Sym, v: Sym | Edge(tab, s, v) && v in Group(tab, t)
      ensures s != t && s !in Reach(tab, w, Deps(tab, t) - w)
    {
      if s in done {
        DoneDepends(tab, done, s, v);
      }
    }
  }

  /** Looking into a finished symbol leads to finished symbols, and to members of its
      group. */
  lemma DoneBrings(tab: Table, done: seq<Sym>, check: set<Sym>, checked: set<Sym>, s: Sym, x: Sym)
    requires Settled(tab, done, check, checked) && WholeGroups(tab, checked) && s in done && Brings(tab, s, x)
    ensures x in done || (x in check && Head(tab, x) == Head(tab, s) && s !in check && s < |tab.t|)
  {
    if Edge(tab, s, x) {
      DoneDepends(tab, done, s, x);
    } else {
      hide Edge, FinishOrder;
      WholeMember(tab, checked, s, Head(tab, s));
      WholeMember(tab, checked, x, Head(tab, s));
    }
  }

  lemma DoneDepends(tab: Table, done: seq<Sym>, s: Sym, x: Sym)
    requires FinishOrder(tab, done) && s in done && Edge(tab, s, x)
    ensures x in done
  {
    hide Edge;
    NeedDescends(tab, done, s, x);
  }

  /** Nothing the group leads to comes back to a member that is still flagged. */
  lemma GroupEnds(tab: Table, w: set<Sym>, t: Sym, done: seq<Sym>, check: set<Sym>, checked: set<Sym>)
    requires Settled(tab, done, check, checked) && WholeGroups(tab, checked)
    requires LookedInto(tab, Group(tab, t), check, checked) && check <= w + Group(tab, t)
    ensures forall s: Sym, v: Sym :: Edge(tab, s, v) && v in check && v in Group(tab, t) ==>
      s !in Reach(tab, w, Group(tab, t))
  {
    hide Reach, Edge, Grouped, FinishOrder;
    var b := (set s | s in done) + Group(tab, t);
    forall s: Sym, x: Sym | s in b && Brings(tab, s, x)
      ensures x in b || x in w
    {
      if s in done {
        DoneBrings(tab, done, check, checked, s, x);
      }
    }
    ReachLeast(tab, w, Group(tab, t), b);
    forall s: Sym, v: Sym | Edge(tab, s, v) && v in check && v in Group(tab, t)
      ensures s !in Reach(tab, w, Group(tab, t))
    {
      if s in done {
        DoneDepends(tab, done, s, v);
      }
    }
  }

  /** A group that was looked into without a report is not caught. */
  lemma Uncaught(tab: Table, w: set<Sym>, t: Sym, done: seq<Sym>, check: set<Sym>, checked: set<Sym>)
    requires Settled(tab, done, check, checked) && WholeGroups(tab, checked) && Grouped(tab)
    requires LookedInto(tab, Group(tab, t), check, checked) && check <= w + Group(tab, t)
    requires if Def(tab, t).isChoice then OwnFree(tab, w, t) && Group(tab, t) - {t} <= check else Group(tab, t) <= check
    ensures !Caught(tab, w, t)
  {
    hide Reach, Edge, FinishOrder, Settled, WholeGroups, LookedInto;
    GroupEnds(tab, w, t, done, check, checked);
    forall s: Sym, v: Sym | Edge(tab, s, v) && Head(tab, v) == t
      ensures !ComesTo(tab, w, t, s, v)
    {
      EdgeInTable(tab, s, v);
      assert v in Group(tab, t);
    }
  }

  // ----- the search -----

  ghost function ReachOf(tab: Table, s: Sym): set<Sym> {
    Reach(tab, {}, {s})
  }

  lemma ReachStep(tab: Table, s: Sym, x: Sym)
    requires s < |tab.t| && x < |tab.t| && Brings(tab, s, x)
    ensures s in ReachOf(tab, s) && ReachOf(tab, x) <= ReachOf(tab, s)
  {
    hide Reach, Brings;
    ReachClosed(tab, {}, {s});
    ClosedStep(tab, {}, ReachOf(tab, s), s, x);
    ReachGrows(tab, {}, {x}, {s});
  }

  lemma ReachNowhere(tab: Table, x: Sym)
    requires x >= |tab.t|
    ensures ReachOf(tab, x) == {}
  {
    ReachLeast(tab, {}, {x}, {x});
  }

  lemma ReachGroup(tab: Table, s: Sym)
    requires s < |tab.t| && Head(tab, s) == s
    ensures Group(tab, s) <= ReachOf(tab, s)
  {
    hide Reach, Edge;
    ReachClosed(tab, {}, {s});
    forall x | x in Group(tab, s)
      ensures x in ReachOf(tab, s)
    {
      assert Brings(tab, s, x);
      ClosedStep(tab, {}, ReachOf(tab, s), s, x);
    }
  }

  /** The members of a group, from the lists of the table. */
  lemma GroupOf(tab: Table, s: Sym)
    requires Grouped(tab) && s < |tab.t| && Def(tab, s).choiceOf.None?
    ensures Group(tab, s) == {s} + Members(if Def(tab, s).isChoice then Def(tab, s).values else [])
    ensures Def(tab, s).isChoice ==>
      && s !in Members(Def(tab, s).values)
      && forall x: Sym :: x in Def(tab, s).values <==> x < |tab.t| && Def(tab, x).choiceOf == Some(s)
  {
    var values := if Def(tab, s).isChoice then Def(tab, s).values else [];
    forall x: Sym
      ensures x in Group(tab, s) <==> x == s || x in values
    {
      if x in values {
        assert Def(tab, x).choiceOf == Some(s);
      } else if x < |tab.t| && Head(tab, x) == s {
        assert x == s || Def(tab, x).choiceOf == Some(s);
      }
    }
  }

  lemma NewGroup(tab: Table, checked: set<Sym>, s: Sym)
    requires Grouped(tab) && WholeGroups(tab, checked) && s < |tab.t| && Def(tab, s).choiceOf.None? && s !in checked
    ensures WholeGroups(tab, checked + Group(tab, s)) && Group(tab, s) !! checked
  {
    forall x | x in Group(tab, s)
      ensures x !in checked
    {
      WholeMember(tab, checked, x, s);
    }
  }

  class Checker {
    const tab: Table
    // the flags SYMBOL_CHECK and SYMBOL_CHECKED
    var check: set<Sym>
    var checked: set<Sym>
    // check_top and the entries below it
    var stack: seq<Sym>
    // calls of sym_check_print_recursive
    var reports: nat
    // the groups under check, what was CHECKED when each was entered, and the
    // symbols whose check has ended, in that order
    ghost var path: seq<Sym>
    ghost var since: seq<set<Sym>>
    ghost var done: seq<Sym>

    constructor (table: Table)
      requires Grouped(table)
      ensures tab == table && Consistent() && check == {} && checked == {} && stack == [] && reports == 0 && path == []
    {
      tab := table;
      check, checked, stack, reports, path, since, done := {}, {}, [], 0, [], [], [];
    }

    /** The groups under check have led to each other; groups are CHECKED as one; a
        report means that a group is caught; without reports, whatever is CHECKED is
        flagged CHECK or finished after everything it needs. */
    ghost predicate Consistent()
      reads `check, `checked, `reports, `path, `since, `done
    {
      && Grouped(tab) && WholeGroups(tab, checked) && check <= checked
      && Trail(tab, path, since, check, checked)
      && (forall s :: s in check ==> Head(tab, s) in path)
      && (reports > 0 ==> MayReport(tab))
      && (reports == 0 ==> Settled(tab, done, check, checked))
    }

    ghost function Unchecked(): set<Sym>
      reads this
    {
      Ids(|tab.t|) - checked
    }

    /** What every part of the search preserves. */
    twostate predicate Searched()
      reads this
    {
      && Consistent()
      && check == old(check) && stack == old(stack) && path == old(path) && since == old(since)
      && old(checked) <= checked && reports >= old(reports)
    }

    /** Every group under check has an entry on the stack. */
    ghost predicate Stacked()
      reads `path, `stack
    {
      forall u :: u in path ==> u in stack
    }

    ghost predicate TurnsTo(s: Sym, y: Sym, x: Sym)
      reads `check, `checked, `path
    {
      Current(tab, path, check, s) && Edge(tab, s, y) && (y == x || (x !in checked && Head(tab, y) == x))
    }

    /** The search may turn to x from where it is: what is looked into depends on x, or
        on a value of the choice x. */
    ghost predicate MayTurnTo(x: Sym)
      reads `check, `checked, `path
    {
      x < |tab.t| && (x in checked ==> x in check) ==>
        if path == [] then MetAfter(tab, checked, Head(tab, x)) else exists s, y :: TurnsTo(s, y, x)
    }

    /** sym_check_deps. */
    method CheckDeps(s: Sym) returns (r: Option<Sym>)
      requires Consistent() && MayTurnTo(s) && Stacked()
      modifies this
      ensures Searched() && checked <= old(checked) + ReachOf(tab, s)
      ensures r.Some? ==> r.value in check
      ensures s < |tab.t| ==> s in checked
      ensures reports == 0 ==> r.None? && (s < |tab.t| ==> s !in check)
      ensures reports == 0 && s < |tab.t| && s !in old(checked) ==> !Caught(tab, old(checked), Head(tab, s))
      decreases Unchecked(), if s < |tab.t| && Def(tab, s).choiceOf.Some? then 2 else 1, 0
    {
      hide Edge, Reach, Caught, Trail, Settled, MayReport, MetAfter, Current;
      if s >= |tab.t| {
        return None;
      }
      if s in check {
        Report(s);
        return Some(s);
      }
      if s in checked {
        return None;
      }
      if Def(tab, s).choiceOf.Some? {
        // the check of a choice value starts with its choice
        var c := Def(tab, s).choiceOf.value;
        TurnToChoice(s, c);
        Push(s);
        r := CheckDeps(c);
        Pop();
      } else if Def(tab, s).isChoice {
        r := CheckChoiceDeps(s);
      } else {
        r := CheckPlain(s);
      }
      if r == Some(s) {
        r := None;
      }
    }

    lemma TurnToChoice(s: Sym, c: Sym)
      requires Consistent() && MayTurnTo(s) && s < |tab.t| && s !in checked && Def(tab, s).choiceOf == Some(c)
      ensures c < |tab.t| && c !in checked && MayTurnTo(c) && Head(tab, c) == c && Def(tab, c).choiceOf.None?
      ensures ReachOf(tab, c) <= ReachOf(tab, s)
    {
      hide Edge, Reach, Trail, Settled, MayReport, MetAfter, Current;
      ReachStep(tab, s, c);
      if path != [] {
        var p, y :| TurnsTo(p, y, s);
        EdgeInTable(tab, p, y);
        assert TurnsTo(p, y, c);
      }
    }

    /** sym_check_print_recursive: the entry of s, or that of its choice, is looked for
        on the stack, and always found. */
    method Report(s: Sym)
      requires Consistent() && s in check && MayTurnTo(s) && Stacked()
      requires s < |tab.t|
      modifies this`reports
      ensures Searched() && reports == old(reports) + 1
    {
      hide Edge, Reach, Trail, Settled, MayReport, MetAfter, Current, Grouped, WholeGroups;
      var last := if Def(tab, s).choiceOf.Some? then Def(tab, s).choiceOf.value else s;
      assert last in path;
      if last in stack {
        ghost var p, y :| TurnsTo(p, y, s);
        ReportIsCaught(tab, path, since, check, checked, p, s);
        reports := reports + 1;
      }
    }

    /** The default branch of sym_check_deps. */
    method CheckPlain(s: Sym) returns (r: Option<Sym>)
      requires Consistent() && MayTurnTo(s) && Stacked() && s < |tab.t| && s !in checked
      requires Def(tab, s).choiceOf.None? && !Def(tab, s).isChoice
      modifies this
      ensures Searched() && checked <= old(checked) + ReachOf(tab, s) && s in checked
      ensures reports == 0 ==> r.None? && !Caught(tab, old(checked), s)
      ensures r.Some? ==> r.value in check || r.value == s
      decreases Unchecked() - {s}, 8, 0
    {
      hide Edge, Reach, Caught, Trail, Settled, MayReport, MetAfter, Current, Group, Consistent, MayTurnTo;
      ghost var w, flagged := checked, check;
      Enter(s, []);
      r := CheckSymDeps(s);
      PlainEnds(w, flagged, s);
      Leave([s]);
      assert path == old(path) && since == old(since);
    }

    lemma PlainEnds(w: set<Sym>, flagged: set<Sym>, s: Sym)
      requires Consistent() && path != [] && path[|path| - 1] == s && s < |tab.t|
      requires Def(tab, s).choiceOf.None? && !Def(tab, s).isChoice
      requires flagged <= w && s !in w && check == flagged + Group(tab, s)
      requires forall x :: x in flagged ==> Head(tab, x) in path[..|path| - 1]
      requires reports == 0 ==> LookedInto(tab, {s}, check, checked)
      ensures CanLeave([s]) && check - Members([s]) == flagged
      ensures reports == 0 ==> !Caught(tab, w, s)
    {
      hide Edge, Reach, Caught, Trail, Settled, MayReport, MetAfter, Current, LookedInto;
      GroupOf(tab, s);
      assert Group(tab, s) == Members([s]) == {s};
      if reports == 0 {
        FinishOne(tab, done, check, checked, s);
        Uncaught(tab, w, s, done, check, checked);
      }
    }

    /** dep_stack_insert. */
    method Push(s: Sym)
      requires Consistent()
      modifies this`stack
      ensures Consistent() && stack == old(stack) + [s]
    {
      hide Edge, Reach, Trail, Settled, MayReport, Grouped, WholeGroups;
      stack := stack + [s];
    }

    /** dep_stack_remove. */
    method Pop()
      requires Consistent() && stack != []
      modifies this`stack
      ensures Consistent() && stack == old(stack)[..|old(stack)| - 1]
    {
      hide Edge, Reach, Trail, Settled, MayReport, Grouped, WholeGroups;
      stack := stack[..|stack| - 1];
    }

    /** Flagging a symbol, or a choice with its values. */
    method Enter(s: Sym, values: seq<Sym>)
      requires Consistent() && MayTurnTo(s) && s < |tab.t| && s !in checked && Def(tab, s).choiceOf.None?
      requires values == if Def(tab, s).isChoice then Def(tab, s).values else []
      modifies this`check, this`checked, this`path, this`since
      ensures Consistent() && path == old(path) + [s] && since == old(since) + [old(checked)]
      ensures check == old(check) + Group(tab, s) && checked == old(checked) + Group(tab, s)
      ensures s !in old(checked) && Group(tab, s) !! old(checked) && Group(tab, s) <= ReachOf(tab, s) && s in checked
      ensures old(check) <= old(checked) && forall x :: x in old(check) ==> Head(tab, x) in old(path)
      ensures Current(tab, path, check, s)
    {
      hide Edge, Reach, Trail, Settled, MayReport, Grouped, WholeGroups, Group;
      GroupOf(tab, s);
      NewGroup(tab, checked, s);
      ReachGroup(tab, s);
      EnterTrail(s);
      assert Group(tab, s) == {s} + Members(values);
      assert check + {s} + Members(values) == check + Group(tab, s);
      assert checked + {s} + Members(values) == checked + Group(tab, s);
      check := check + {s} + Members(values);
      checked := checked + {s} + Members(values);
      since := since + [old(checked)];
      path := path + [s];
    }

    lemma EnterTrail(s: Sym)
      requires Consistent() && MayTurnTo(s) && s < |tab.t| && s !in checked && Def(tab, s).choiceOf.None?
      ensures Trail(tab, path + [s], since + [checked], check + Group(tab, s), checked + Group(tab, s))
      ensures reports == 0 ==> Settled(tab, done, check + Group(tab, s), checked + Group(tab, s))
      ensures forall x :: x in Group(tab, s) ==> Head(tab, x) == s
    {
      hide Edge, Reach, Trail, MayReport, Grouped, WholeGroups, MetAfter, Current, FinishOrder;
      NewGroup(tab, checked, s);
      if path == [] {
        TrailPush(tab, path, since, check, checked, s, s, s);
      } else {
        var p, y :| TurnsTo(p, y, s);
        TrailPush(tab, path, since, check, checked, p, y, s);
      }
    }

    /** The last group can be finished with the symbols in values. */
    ghost predicate CanLeave(values: seq<Sym>)
      reads `check, `checked, `reports, `path, `done
    {
      && path != []
      && (reports == 0 ==> Settled(tab, done + values, check - Members(values), checked))
      && forall x :: x in check - Members(values) ==> Head(tab, x) in path[..|path| - 1]
    }

    /** Clearing the flags in the end. */
    method Leave(values: seq<Sym>)
      requires Consistent() && CanLeave(values)
      modifies this`check, this`path, this`since, this`done
      ensures Consistent() && check == old(check) - Members(values) && done == old(done) + values
      ensures path == old(path)[..|old(path)| - 1]
      ensures old(since) != [] && since == old(since)[..|old(since)| - 1]
    {
      hide Edge, Reach, Settled, MayReport, Grouped, WholeGroups, Stage;
      TrailPop(tab, path, since, check, checked);
      TrailKeeps(tab, path[..|path| - 1], since[..|path| - 1], check, checked, check - Members(values), checked);
      check := check - Members(values);
      done := done + values;
      since := since[..|path| - 1];
      path := path[..|path| - 1];
    }

    /** sym_check_choice_deps: the choice first, then its values, which stay
        flagged CHECK until all of them have been looked into. */
    method CheckChoiceDeps(c: Sym) returns (r: Option<Sym>)
      requires Consistent() && MayTurnTo(c) && Stacked() && c < |tab.t| && c !in checked
      requires Def(tab, c).choiceOf.None? && Def(tab, c).isChoice
      modifies this
      ensures Searched() && checked <= old(checked) + ReachOf(tab, c) && c in checked
      ensures reports == 0 ==> r.None? && !Caught(tab, old(checked), c)
      ensures r.Some? ==> r.value in check || r.value == c
      decreases Unchecked() - {c}, 8, 0
    {
      hide Edge, Reach, Caught, Trail, Settled, MayReport, MetAfter, Group, Consistent, MayTurnTo, LookedInto, OwnFree,
           CanLeave;
      ghost var w, flagged := checked, check;
      var values := Def(tab, c).values;
      Push(c);
      Enter(c, values);
      r := CheckGroup(c, values, w);
      ChoiceEnds(w, flagged, c);
      Leave(values);
      assert path == old(path) && since == old(since);
      if r.Some? && Def(tab, r.value).choiceOf == Some(c) {
        r := Some(c);
      }
      Pop();
    }

    lemma ChoiceEnds(w: set<Sym>, flagged: set<Sym>, c: Sym)
      requires Consistent() && path != [] && path[|path| - 1] == c && c < |tab.t| && c in checked
      requires Def(tab, c).choiceOf.None? && Def(tab, c).isChoice
      requires flagged <= w && Group(tab, c) !! w && check == flagged + Group(tab, c) - {c}
      requires forall x :: x in flagged ==> Head(tab, x) in path[..|path| - 1]
      requires reports == 0 ==> LookedInto(tab, Group(tab, c), check, checked) && OwnFree(tab, w, c)
      ensures CanLeave(Def(tab, c).values) && check - Members(Def(tab, c).values) == flagged
      ensures forall x :: x in check ==> x in flagged || Def(tab, x).choiceOf == Some(c)
      ensures reports == 0 ==> !Caught(tab, w, c)
    {
      hide Edge, Reach, Caught, Trail, Settled, MayReport, OwnFree;
      GroupOf(tab, c);
      if reports == 0 {
        FinishValues(tab, done, check, checked, c, Def(tab, c).values);
        Uncaught(tab, w, c, done, check, checked);
      }
    }

    /** The choice c, then its values. */
    method CheckGroup(c: Sym, values: seq<Sym>, ghost w: set<Sym>) returns (r: Option<Sym>)
      requires Consistent() && c < |tab.t| && Def(tab, c).choiceOf.None? && path != [] && path[|path| - 1] == c
      requires Def(tab, c).isChoice && values == Def(tab, c).values && c in check
      requires Group(tab, c) <= check <= w + Group(tab, c) && Stacked()
      modifies this
      ensures Consistent() && check == old(check) - {c} && stack == old(stack) && path == old(path)
      ensures since == old(since) && old(checked) <= checked && reports >= old(reports)
      ensures checked <= old(checked) + ReachOf(tab, c)
      ensures reports == 0 ==> r.None? && LookedInto(tab, Group(tab, c), check, checked) && OwnFree(tab, w, c)
      ensures r.Some? ==> r.value in check || r.value == c
      decreases Unchecked(), 7, 0
    {
      hide Edge, Reach, Caught, Trail, Settled, MayReport, MetAfter, Group, Consistent, LookedInto, OwnFree;
      r := CheckSymDeps(c);
      OwnCheckEnds(c, w);
      ghost var mid := checked;
      ClearCheck(c);
      if r.None? {
        ValuesCurrent(c, values);
        r := CheckValues(c, values);
        AllLookedInto(c, values, mid);
      }
    }

    lemma OwnCheckEnds(c: Sym, w: set<Sym>)
      requires Consistent() && c < |tab.t| && Def(tab, c).choiceOf.None? && c in check
      requires Group(tab, c) <= check <= w + Group(tab, c)
      requires reports == 0 ==> LookedInto(tab, {c}, check, checked)
      ensures reports == 0 ==> Settled(tab, done + [c], check - {c}, checked) && OwnFree(tab, w, c)
      ensures reports == 0 ==> LookedInto(tab, {c}, check - {c}, checked)
    {
      hide Edge, Reach, Trail, Settled, MayReport, Group, OwnFree;
      if reports == 0 {
        OwnEnds(tab, w, c, done, check, checked);
        FinishOne(tab, done, check, checked, c);
      }
    }

    lemma AllLookedInto(c: Sym, values: seq<Sym>, mid: set<Sym>)
      requires Consistent() && c < |tab.t| && Def(tab, c).choiceOf.None? && Def(tab, c).isChoice
      requires values == Def(tab, c).values && mid <= checked
      requires reports == 0 ==> LookedInto(tab, {c}, check, mid) && LookedInto(tab, Members(values), check, checked)
      ensures reports == 0 ==> LookedInto(tab, Group(tab, c), check, checked)
    {
      hide Edge, Group, Members, Trail, Settled, MayReport, WholeGroups, Grouped;
      GroupOf(tab, c);
    }

    /** CHECK of the choice itself is cleared before its values are looked into. */
    method ClearCheck(c: Sym)
      requires Consistent() && (reports == 0 ==> Settled(tab, done + [c], check - {c}, checked))
      modifies this`check, this`done
      ensures Consistent() && check == old(check) - {c}
    {
      hide Edge, Reach, Settled, MayReport, Grouped, WholeGroups, Trail;
      TrailKeeps(tab, path, since, check, checked, check - {c}, checked);
      check := check - {c};
      done := done + [c];
    }

    lemma ValuesCurrent(c: Sym, values: seq<Sym>)
      requires Consistent() && path != [] && path[|path| - 1] == c && c < |tab.t| && c !in check
      requires Def(tab, c).isChoice && values == Def(tab, c).values
      ensures forall x :: x in values ==> Current(tab, path, check, x)
    {
      hide Trail, Settled, MayReport, WholeGroups;
      forall x: Sym | x in values
        ensures Current(tab, path, check, x)
      {
        assert Def(tab, x).choiceOf == Some(c);
      }
    }

    /** The values of a choice, until one closes a cycle. */
    method CheckValues(c: Sym, xs: seq<Sym>) returns (r: Option<Sym>)
      requires Consistent() && c < |tab.t| && path != [] && path[|path| - 1] == c && Head(tab, c) == c
      requires Stacked() && forall x :: x in xs ==> Current(tab, path, check, x)
      modifies this
      ensures Searched() && checked <= old(checked) + ReachOf(tab, c)
      ensures reports == 0 ==> r.None? && LookedInto(tab, Members(xs), check, checked)
      ensures r.Some? ==> r.value in check
      decreases Unchecked(), 6, |xs|
    {
      hide Edge, Reach, Trail, Settled, MayReport, Grouped, WholeGroups;
      r := None;
      if xs == [] {
        return;
      }
      ValueReach(c, xs[0]);
      r := CheckSymDeps(xs[0]);
      if r.Some? {
        return;
      }
      r := CheckValues(c, xs[1..]);
      assert xs == [xs[0]] + xs[1..];
    }

    lemma ValueReach(c: Sym, x: Sym)
      requires Current(tab, path, check, x) && path[|path| - 1] == c && c < |tab.t| && Head(tab, c) == c
      ensures ReachOf(tab, x) <= ReachOf(tab, c)
    {
      hide Reach, Edge;
      ReachStep(tab, c, x);
    }

    /** sym_check_sym_deps. */
    method CheckSymDeps(s: Sym) returns (r: Option<Sym>)
      requires Consistent() && Current(tab, path, check, s)
      requires forall u :: u in path ==> u in stack || u == s
      modifies this
      ensures Searched() && checked <= old(checked) + ReachOf(tab, s)
      ensures reports == 0 ==> r.None? && LookedInto(tab, {s}, check, checked)
      ensures r.Some? ==> r.value in check
      decreases Unchecked(), 5, 0
    {
      hide Reach, Trail, Settled, MayReport, Grouped, WholeGroups, CheckedExprs, Current;
      Push(s);
      r := CheckAll(s, CheckedExprs(Def(tab, s)));
      Pop();
    }

    /** The conditions of s, until one closes a cycle. */
    method CheckAll(s: Sym, es: seq<Expr>) returns (r: Option<Sym>)
      requires Consistent() && Current(tab, path, check, s)
      requires Stacked() && forall e :: e in es ==> e in CheckedExprs(Def(tab, s))
      modifies this
      ensures r.Some? ==> r.value in check
      ensures Searched() && checked <= old(checked) + ReachOf(tab, s)
      ensures reports == 0 ==>
        r.None? && forall e, x: Sym :: e in es && Mentions(e, x) && x < |tab.t| ==> x in checked && x !in check
      decreases Unchecked(), 4, |es|
    {
      hide Edge, Reach, Trail, Settled, MayReport, Grouped, WholeGroups, CheckedExprs, Current;
      r := None;
      if es == [] {
        return;
      }
      r := CheckExpr(s, es[0], es[0]);
      if r.Some? {
        return;
      }
      r := CheckAll(s, es[1..]);
      assert es == [es[0]] + es[1..];
    }

    lemma TurnTo(s: Sym, whole: Expr, x: Sym)
      requires Current(tab, path, check, s) && whole in CheckedExprs(Def(tab, s)) && Mentions(whole, x)
      ensures MayTurnTo(x) && ReachOf(tab, x) <= ReachOf(tab, s)
    {
      hide CheckedExprs, Mentions, Reach;
      if x < |tab.t| {
        assert Edge(tab, s, x);
        assert TurnsTo(s, x, x);
        ReachStep(tab, s, x);
      } else {
        ReachNowhere(tab, x);
      }
    }

    /** sym_check_expr_deps, on a part `e` of the condition `whole`. */
    method CheckExpr(s: Sym, e: Expr, ghost whole: Expr) returns (r: Option<Sym>)
      requires Consistent() && Current(tab, path, check, s)
      requires whole in CheckedExprs(Def(tab, s)) && forall x :: Mentions(e, x) ==> Mentions(whole, x)
      requires Stacked()
      modifies this
      ensures r.Some? ==> r.value in check
      ensures Searched() && checked <= old(checked) + ReachOf(tab, s)
      ensures reports == 0 ==>
        r.None? && forall x: Sym :: Mentions(e, x) && x < |tab.t| ==> x in checked && x !in check
      decreases Unchecked(), 3, Size(e)
    {
      hide Edge, Reach, Trail, Settled, MayReport, Grouped, WholeGroups, CheckedExprs, Current, Caught, MayTurnTo;
      match e
      case Symbol(x) =>
        TurnTo(s, whole, x);
        r := CheckDeps(x);
      case Not(a) =>
        r := CheckExpr(s, a, whole);
      case Comp(_, x, y) =>
        TurnTo(s, whole, x);
        r := CheckDeps(x);
        if r.None? {
          TurnTo(s, whole, y);
          r := CheckDeps(y);
        }
      case Junct(_, x, y) =>
        r := CheckExpr(s, x, whole);
        if r.None? {
          r := CheckExpr(s, y, whole);
        }
    }

    /** The sweep over all symbols. It reports whenever something needs itself, or the
        group it begins with a symbol is caught; a report means that some group is
        caught, which takes a cycle of groups. Without choices it reports if and only
        if there is a cycle. No CHECK flag and an empty stack are left behind, and no
        report ever counts as an error. */
    method Sweep() returns (errors: int)
      requires Consistent() && check == {} && checked == {} && stack == [] && reports == 0 && path == []
      modifies this
      ensures HasNeedCycle(tab) || HasCycle(tab) ==> reports > 0
      ensures forall f: Sym :: BegunBy(tab, f) && Caught(tab, {}, Head(tab, f)) ==> reports > 0
      ensures reports > 0 ==> MayReport(tab) && HasGroupCycle(tab)
      ensures ChoiceFree(tab) ==> (reports > 0 <==> HasCycle(tab))
      ensures check == {} && stack == [] && errors == 0
      ensures reports == 0 ==> exists rank :: Ranked(tab, rank)
    {
      hide Edge, Reach, Trail, Settled, Caught, HasGroupCycle, HasCycle, HasNeedCycle, ChoiceFree, WholeGroups,
           MayReport,
           MayTurnTo;
      errors := 0;
      var s := 0;
      while s < |tab.t|
        invariant 0 <= s <= |tab.t|
        invariant Consistent() && check == {} && stack == [] && path == [] && errors == 0
        invariant Ids(s) <= checked <= Reach(tab, {}, Ids(s))
        invariant reports == 0 ==> forall f: Sym :: f < s && BegunBy(tab, f) ==> !Caught(tab, {}, Head(tab, f))
      {
        ghost var w := checked;
        TurnToNext(s);
        var r := CheckDeps(s);
        if r.Some? {
          errors := errors + 1;
        }
        SweptOne(s, w);
        s := s + 1;
      }
      SweepEnds();
    }

    lemma TurnToNext(s: Sym)
      requires Consistent() && s < |tab.t| && check == {} && path == [] && Ids(s) <= checked
      ensures MayTurnTo(s)
    {
      hide Edge, Reach, Trail, Settled, MayReport;
      HeadInTable(tab, s);
    }

    lemma SweptOne(s: Sym, w: set<Sym>)
      requires Grouped(tab) && s < |tab.t| && w <= Reach(tab, {}, Ids(s)) && checked <= w + ReachOf(tab, s)
      requires WholeGroups(tab, w)
      requires reports == 0 && s !in w ==> !Caught(tab, w, Head(tab, s))
      ensures checked <= Reach(tab, {}, Ids(s + 1))
      ensures reports == 0 && BegunBy(tab, s) ==> !Caught(tab, {}, Head(tab, s))
    {
      hide Edge, Reach, Caught, ClosedOff;
      ReachClosed(tab, {}, Ids(s + 1));
      ReachGrows(tab, {}, Ids(s), Ids(s + 1));
      ReachGrows(tab, {}, {s}, Ids(s + 1));
      if BegunBy(tab, s) && Caught(tab, {}, Head(tab, s)) {
        CaughtAtOnce(tab, w, s);
        WholeMember(tab, w, s, Head(tab, s));
      }
    }

    lemma SweepEnds()
      requires Consistent() && check == {} && Ids(|tab.t|) <= checked
      ensures HasNeedCycle(tab) || HasCycle(tab) ==> reports > 0
      ensures reports > 0 ==> HasGroupCycle(tab)
      ensures ChoiceFree(tab) ==> (reports > 0 <==> HasCycle(tab))
      ensures reports == 0 ==> exists rank :: Ranked(tab, rank)
    {
      hide Edge, Reach, Trail, HasGroupCycle, HasCycle, HasNeedCycle, ChoiceFree, WholeGroups, MayReport, FinishOrder,
           Ranked;
      if reports == 0 {
        OrderedIsAcyclic(tab, done);
        var rank := OrderRanks(tab, done);
      } else {
        ReportsAreGroupCycles(tab);
      }
      if ChoiceFree(tab) {
        NoGroups(tab);
      }
    }
  }

  /** The check of a whole table, as after parsing. */
  method CheckTable(tab: Table) returns (reports: nat, errors: int)
    requires Grouped(tab)
    ensures HasNeedCycle(tab) || HasCycle(tab) ==> reports > 0
    ensures forall f: Sym :: BegunBy(tab, f) && Caught(tab, {}, Head(tab, f)) ==> reports > 0
    ensures reports > 0 ==> MayReport(tab) && HasGroupCycle(tab)
    ensures ChoiceFree(tab) ==> (reports > 0 <==> HasCycle(tab))
    ensures errors == 0
  {
    var checker := new Checker(tab);
    errors := checker.Sweep();
    reports := checker.reports;
  }
}
