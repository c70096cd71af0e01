/** Menu restructuring (menu.c:300-424) and the walk over the finished menus
    (confdata.c:790-823). */
module Menus {
  import opened Tristates
  import opened Exprs
  import opened Spines
  import opened Forests
  import opened MenuConditions
  import opened Layering

  class MenuTree {
    const t: Symbols
    const sym: seq<Option<Sym>>
    // the symbols of choices, and the menus whose prompt has a text
    const choices: set<Sym>
    const titled: set<Node>
    // the conditions of the properties belonging to a menu; one may be its prompt's
    const promptAt: seq<Option<nat>>
    var next: seq<Option<Node>>
    var list: seq<Option<Node>>
    var parent: seq<Option<Node>>
    var dep: seq<Option<Expr>>
    var conds: seq<seq<Option<Expr>>>

    ghost function L(): Links
      reads this`next, this`list, this`parent
    {
      Links(next, list, parent)
    }

    ghost predicate Shaped()
      reads this
    {
      && WellFormed(t)
      && |next| == |list| == |parent| == |dep| == |conds| == |sym| == |promptAt|
      && forall m :: 0 <= m < |promptAt| && promptAt[m].Some? ==> promptAt[m].value < |conds[m]|
    }

    /** menu->prompt->visible.expr, or nothing. */
    function PromptCond(m: Node): Option<Expr>
      reads this
      requires Shaped() && m < |sym|
    {
      if promptAt[m].Some? then conds[m][promptAt[m].value] else None
    }

    /** The condition a menu is tested by. */
    function TestCond(m: Node): Option<Expr>
      reads this
      requires Shaped() && m < |sym|
    {
      if promptAt[m].Some? then PromptCond(m) else dep[m]
    }

    /** What a menu hands down to its children. */
    function ParentDep(m: Node): Option<Expr>
      reads this
      requires Shaped() && m < |sym|
    {
      if sym[m].Some? && sym[m].value in choices then Some(Symbol(sym[m].value))
      else TestCond(m)
    }

    predicate Weakened(m: Node)
      requires m < |sym|
    {
      sym[m].Some? && Typ(t, sym[m].value) != Tristate
    }

    // ----- handing dependencies down -----

    method InheritAll(from: Option<Expr>, m: Node)
      requires Shaped() && m < |sym|
      modifies this`dep, this`conds
      ensures Shaped() && Inherited(t, Weakened(m), from, old(dep[m]), old(conds[m]), dep[m], conds[m])
      ensures forall x :: 0 <= x < |sym| && x != m ==> dep[x] == old(dep[x]) && conds[x] == old(conds[x])
    {
      hide IsBoth, IsBothForBool, NormalOpt, WeakOpt, ReducedOpt, WellFormed;
      var d := Inherit(t, from, dep[m]);
      dep := dep[m := d];
      var cs := [];
      while |cs| < |conds[m]|
        invariant |cs| <= |conds[m]|
        invariant forall i :: 0 <= i < |cs| ==>
          && (if Weakened(m) then WeakOpt(t, cs[i]) else IsBoth(t, cs[i], d, conds[m][i]) && ReducedOpt(t, cs[i]))
          && (NormalOpt(d) ==> IsBothForBool(t, cs[i], d, conds[m][i]) && NormalOpt(cs[i]))
        modifies {}
      {
        var c := InheritCond(t, d, conds[m][|cs|], Weakened(m));
        cs := cs + [c];
      }
      conds := conds[m := cs];
    }

    /** The menus in s inherited from p: under a choice the choice itself, else the condition
        of the prompt, else the dependency of the menu. */
    ghost predicate HandsDown(p: Node, d: seq<Option<Expr>>, c: seq<seq<Option<Expr>>>, d': seq<Option<Expr>>,
                              c': seq<seq<Option<Expr>>>, s: set<Node>) {
      && p < |sym| && |sym| == |promptAt| == |d'| == |c'|
      && (sym[p].Some? && sym[p].value in choices ==> AllInherited(Some(Symbol(sym[p].value)), d, c, d', c', s))
      && (!(sym[p].Some? && sym[p].value in choices) && promptAt[p].None? ==> AllInherited(d'[p], d, c, d', c', s))
      && (!(sym[p].Some? && sym[p].value in choices) && promptAt[p].Some? ==>
           promptAt[p].value < |c'[p]| && AllInherited(c'[p][promptAt[p].value], d, c, d', c', s))
    }

    /** The propagation loop: every child of p inherits what p hands down. */
    method Propagate(p: Node, ghost kids: Forest)
      requires Shaped() && p < |sym| && p !in Ids(kids) && Distinct(kids)
      requires Rep(L(), list[p], kids, Some(p), None)
      modifies this`dep, this`conds
      ensures Shaped()
      ensures HandsDown(p, old(dep), old(conds), dep, conds, Top(kids))
      ensures CondsKept(old(dep), old(conds), dep, conds, Top(kids))
    {
      hide WellFormed, Inherited, HandsDown, Weakened, Rep, Ids, Top, Distinct, Append;
      NotTop(p, kids);
      var from := ParentDep(p);
      ghost var d, c := dep, conds;
      var menu := list[p];
      ghost var a, b := Nil, kids;
      while menu.Some?
        invariant Shaped()
        invariant Rep(L(), menu, b, Some(p), None) && Distinct(b) && Top(a) + Top(b) == Top(kids) && Top(a) !! Ids(b)
        invariant forall m :: m in Top(a) ==>
          m < |sym| && Inherited(t, Weakened(m), from, old(dep[m]), old(conds[m]), dep[m], conds[m])
        invariant forall x :: 0 <= x < |sym| && x !in Top(a) ==> dep[x] == old(dep[x]) && conds[x] == old(conds[x])
        decreases b
      {
        var m := menu.value;
        NextKid(L(), menu, a, b, p);
        InheritAll(from, m);
        a := Append(a, Cons(m, Nil, Nil));
        b := b.rest;
        menu := next[m];
      }
      KidsDone(L(), b, p);
      HandedDown(p, from, d, c, dep, conds, Top(kids));
    }

    lemma NextKid(l: Links, menu: Option<Node>, a: Forest, b: Forest, p: Node)
      requires Rep(l, menu, b, Some(p), None) && Distinct(b) && menu.Some? && Top(a) !! Ids(b)
      ensures b.Cons? && menu == Some(b.id) && b.id < |l.next| && Rep(l, l.next[b.id], b.rest, Some(p), None)
      ensures Distinct(b.rest) && Top(b) == {b.id} + Top(b.rest) && b.id !in Top(a)
      ensures Top(Append(a, Cons(b.id, Nil, Nil))) == Top(a) + {b.id}
      ensures Top(a) + {b.id} !! Ids(b.rest)
    {
      TopAppend(a, Cons(b.id, Nil, Nil));
    }

    lemma KidsDone(l: Links, b: Forest, p: Node)
      requires Rep(l, None, b, Some(p), None)
      ensures b == Nil && Top(b) == {}
    {
    }

    lemma NotTop(p: Node, k: Forest)
      requires p !in Ids(k)
      ensures p !in Top(k) && Top(Nil) == {}
    {
      TopIn(k);
    }

    lemma HandedDown(p: Node, from: Option<Expr>, d: seq<Option<Expr>>, c: seq<seq<Option<Expr>>>,
                     d': seq<Option<Expr>>, c': seq<seq<Option<Expr>>>, s: set<Node>)
      requires p < |sym| && |sym| == |promptAt| == |d| == |c| && (promptAt[p].Some? ==> promptAt[p].value < |c[p]|)
      requires from == if sym[p].Some? && sym[p].value in choices then Some(Symbol(sym[p].value))
                       else if promptAt[p].Some? then c[p][promptAt[p].value] else d[p]
      requires |d'| == |c'| == |sym| && d'[p] == d[p] && c'[p] == c[p]
      requires forall m :: m in s ==> m < |sym| && Inherited(t, Weakened(m), from, d[m], c[m], d'[m], c'[m])
      ensures HandsDown(p, d, c, d', c', s)
    {
      hide Inherited;
      assert AllInherited(from, d, c, d', c', s);
    }
  
    // ----- restructuring -----

    /** Menu m passes the test for going under p, with dependencies d and
        property conditions c. */
    ghost predicate Adopted(d: seq<Option<Expr>>, c: seq<seq<Option<Expr>>>, m: Node, p: Node) {
      && |d| == |c| == |sym| == |promptAt| && m < |sym| && p < |sym|
      && (forall x :: 0 <= x < |promptAt| && promptAt[x].Some? ==> promptAt[x].value < |c[x]|)
      && var base := if promptAt[p].Some? then c[p][promptAt[p].value] else None;
         var e := if promptAt[m].Some? then c[m][promptAt[m].value] else d[m];
         sym[p].Some? && IsAdopted(t, e, sym[p].value, base)
    }

    lemma AdoptedNow(m: Node, p: Node)
      requires Shaped() && m < |sym| && p < |sym| && sym[p].Some?
      requires IsAdopted(t, TestCond(m), sym[p].value, PromptCond(p))
      ensures Adopted(dep, conds, m, p)
    {
      hide WellFormed, IsAdopted;
    }

    /** Everything in s passes the test for going under p. */
    ghost predicate AllAdopted(d: seq<Option<Expr>>, c: seq<seq<Option<Expr>>>, s: set<Node>, p: Node) {
      forall m :: m in s ==> Adopted(d, c, m, p)
    }

    /** Conditions that did not change keep passing the test. */
    lemma StillAdopted(d: seq<Option<Expr>>, c: seq<seq<Option<Expr>>>, d': seq<Option<Expr>>,
                       c': seq<seq<Option<Expr>>>,
                       s: set<Node>, s': set<Node>, tested: set<Node>, p: Node)
      requires CondsKept(d, c, d', c', s) && s <= s' && tested !! s && p !in s
      requires AllAdopted(d, c, tested, p)
      requires |d'| == |c'| == |promptAt| && forall x :: 0 <= x < |promptAt| && promptAt[x].Some? ==>
        promptAt[x].value < |c'[x]|
      ensures AllAdopted(d', c', tested, p) && CondsKept(d, c, d', c', s')
    {
      hide IsAdopted;
      forall m | m in tested
        ensures Adopted(d', c', m, p)
      {
        assert Adopted(d, c, m, p);
      }
    }

    lemma ShapedConds()
      requires Shaped()
      ensures |dep| == |conds| == |promptAt|
      ensures forall x :: 0 <= x < |promptAt| && promptAt[x].Some? ==> promptAt[x].value < |conds[x]|
    {
    }

    method SetParent(m: Node, x: Option<Node>)
      requires Shaped() && m < |sym|
      modifies this`parent
      ensures Shaped() && m < |old(L()).parent| && L() == old(L()).(parent := old(L()).parent[m := x])
    {
      parent := parent[m := x];
    }

    // ----- the whole forest -----

    /** The conditions of the nodes in s are the same. */
    ghost predicate SameConds(d: seq<Option<Expr>>, c: seq<seq<Option<Expr>>>, d': seq<Option<Expr>>,
                              c': seq<seq<Option<Expr>>>, s: set<Node>) {
      && |d'| == |d| && |c'| == |c|
      && (forall x :: x in s && x < |d| ==> d'[x] == d[x])
      && (forall x :: x in s && x < |c| ==> c'[x] == c[x])
    }

    /** Every menu of f, at any depth, handed down to its children what it has in the end;
        the siblings h have not had their turn. */
    ghost predicate Derived(d0: seq<Option<Expr>>, c0: seq<seq<Option<Expr>>>, d: seq<Option<Expr>>,
                            c: seq<seq<Option<Expr>>>, f: Forest, h: Forest) {
      f != h && f.Cons? ==>
        && (f.kids.Cons? ==> HandsDown(f.id, d0, c0, d, c, Top(f.kids)))
        && Derived(d0, c0, d, c, f.kids, Nil) && Derived(d0, c0, d, c, f.rest, h)
    }

    /** The siblings that follow the first menu of f and ask for its symbol without a gap are
        below it in g. */
    ghost predicate RunBelow(d: seq<Option<Expr>>, c: seq<seq<Option<Expr>>>, f: Forest, g: Forest) {
      f.Cons? &&
      var row := Siblings(f.rest);
      forall k :: 0 <= k < |row| && (forall i :: 0 <= i <= k ==> Asks(d, c, row[i], f.id)) ==> IsUnder(g, f.id, row[k])
    }

    /** A menu of a symbol, with a text and without children of its own. */
    ghost predicate Taking(f: Forest) {
      f.Cons? && f.kids == Nil && f.id < |sym| && sym[f.id].Some? && f.id in titled
    }

    /** Every such menu of f, at any depth, took the run of menus that ask for its symbol; the
        siblings h have not had their turn. */
    ghost predicate Taken(d: seq<Option<Expr>>, c: seq<seq<Option<Expr>>>, f: Forest, h: Forest, g: Forest)
      decreases f
    {
      f != h && f.Cons? ==>
        (Taking(f) ==> RunBelow(d, c, f, g)) && Taken(d, c, f.kids, Nil, g) && Taken(d, c, f.rest, h, g)
    }

    /** From conditions (d0, c0) to (d, c), the forest f became g, but for the siblings h. */
    ghost predicate Restructured(d0: seq<Option<Expr>>, c0: seq<seq<Option<Expr>>>, d: seq<Option<Expr>>,
                                 c: seq<seq<Option<Expr>>>, f: Forest, h: Forest, g: Forest) {
      && CondsKept(d0, c0, d, c, Ids(f) - Top(f) - Ids(h))
      && Derived(d0, c0, d, c, f, h) && Taken(d, c, f, h, g) && StaysUnder(f, g, titled)
    }

    lemma HandsDownSame(p: Node, d0: seq<Option<Expr>>, c0: seq<seq<Option<Expr>>>, d: seq<Option<Expr>>,
                        c: seq<seq<Option<Expr>>>, d1: seq<Option<Expr>>, c1: seq<seq<Option<Expr>>>,
                        d2: seq<Option<Expr>>, c2: seq<seq<Option<Expr>>>, s: set<Node>)
      requires HandsDown(p, d0, c0, d, c, s) && SameConds(d0, c0, d1, c1, s) && SameConds(d, c, d2, c2, s + {p})
      ensures HandsDown(p, d1, c1, d2, c2, s)
    {
      hide Inherited;
      assert p in s + {p};
      assert forall x :: x in s ==> x in s + {p};
    }

    lemma {:induction false} DerivedSame(d0: seq<Option<Expr>>, c0: seq<seq<Option<Expr>>>, d: seq<Option<Expr>>,
                        c: seq<seq<Option<Expr>>>, d1: seq<Option<Expr>>, c1: seq<seq<Option<Expr>>>,
                        d2: seq<Option<Expr>>, c2: seq<seq<Option<Expr>>>, f: Forest, h: Forest)
      requires Distinct(f) && Derived(d0, c0, d, c, f, h)
      requires SameConds(d0, c0, d1, c1, Ids(f) - Top(f)) && SameConds(d, c, d2, c2, Ids(f))
      ensures Derived(d1, c1, d2, c2, f, h)
      decreases f
    {
      hide HandsDown;
      if f != h && f.Cons? {
        TopIn(f.kids);
        TopIn(f.rest);
        assert Ids(f.kids) <= Ids(f) - Top(f) && Ids(f.rest) - Top(f.rest) <= Ids(f) - Top(f);
        assert Ids(f.kids) <= Ids(f) && Ids(f.rest) <= Ids(f) && Top(f.kids) + {f.id} <= Ids(f);
        DerivedSame(d0, c0, d, c, d1, c1, d2, c2, f.kids, Nil);
        DerivedSame(d0, c0, d, c, d1, c1, d2, c2, f.rest, h);
        if f.kids.Cons? {
          HandsDownSame(f.id, d0, c0, d, c, d1, c1, d2, c2, Top(f.kids));
        }
      }
    }

    lemma AsksSame(d: seq<Option<Expr>>, c: seq<seq<Option<Expr>>>, d': seq<Option<Expr>>,
                   c': seq<seq<Option<Expr>>>, m: Node, p: Node)
      requires |d'| == |d| && |c'| == |c| && (m < |d| ==> d'[m] == d[m]) && (m < |c| ==> c'[m] == c[m])
      ensures Asks(d, c, m, p) == Asks(d', c', m, p)
    {
      hide AsksFor, Operands;
    }

    lemma {:induction false} TakenSame(d: seq<Option<Expr>>, c: seq<seq<Option<Expr>>>, d': seq<Option<Expr>>,
                                       c': seq<seq<Option<Expr>>>, f: Forest, h: Forest, g: Forest, g': Forest)
      requires Taken(d, c, f, h, g) && SameConds(d, c, d', c', Ids(f)) && StaysUnder(g, g', titled)
      ensures Taken(d', c', f, h, g')
      decreases f
    {
      hide RunBelow, StaysUnder;
      if f != h && f.Cons? {
        TakenSame(d, c, d', c', f.kids, Nil, g, g');
        TakenSame(d, c, d', c', f.rest, h, g, g');
        if Taking(f) {
          TopIn(f);
          RunBelowTops(d, c, d', c', f, g, g');
        }
      }
    }

    /** One step of a loop along the siblings f: the first ones became a, and b is what is left
        of them; then b became g, but for h. */
    lemma RestructuredThen(d0: seq<Option<Expr>>, c0: seq<seq<Option<Expr>>>, d1: seq<Option<Expr>>,
                           c1: seq<seq<Option<Expr>>>, d2: seq<Option<Expr>>, c2: seq<seq<Option<Expr>>>,
                           f: Forest, a: Forest, b: Forest, g: Forest, h: Forest)
      requires Distinct(f) && IsSuffix(b, f) && IsSuffix(h, b)
      requires Restructured(d0, c0, d1, c1, f, b, Append(a, b)) && Restructured(d1, c1, d2, c2, b, h, g)
      ensures Restructured(d0, c0, d2, c2, f, h, Append(a, g))
    {
      hide Derived, Taken, StaysUnder, Append, Distinct, Ids, Top, IsSuffix;
      SuffixInner(b, f);
      SuffixInner(h, b);
      assert SameConds(d0, c0, d1, c1, Ids(b));
      assert SameConds(d1, c1, d2, c2, Ids(f) - Ids(b));
      StaysEnd(f, a, b, g, titled);
      StaysSecond(a, b, g);
      DerivedThen(d0, c0, d1, c1, d2, c2, f, b, h);
      TakenThen(d1, c1, d2, c2, f, b, h, Append(a, b), g, Append(a, g));
    }

    lemma StaysSecond(a: Forest, b: Forest, g: Forest)
      ensures StaysUnder(g, Append(a, g), titled)
    {
      hide IsUnder, Append;
      forall m, x | IsUnder(g, m, x)
        ensures IsUnder(Append(a, g), m, x)
      {
        BelowAppend(a, g, m, x);
      }
    }

    lemma {:induction false} DerivedThen(d0: seq<Option<Expr>>, c0: seq<seq<Option<Expr>>>, d1: seq<Option<Expr>>,
                           c1: seq<seq<Option<Expr>>>, d2: seq<Option<Expr>>, c2: seq<seq<Option<Expr>>>,
                           f: Forest, b: Forest, h: Forest)
      requires Distinct(f) && IsSuffix(b, f) && IsSuffix(h, b)
      requires Derived(d0, c0, d1, c1, f, b) && Derived(d1, c1, d2, c2, b, h)
      requires SameConds(d0, c0, d1, c1, Ids(b)) && SameConds(d1, c1, d2, c2, Ids(f) - Ids(b))
      ensures Derived(d0, c0, d2, c2, f, h)
      decreases f
    {
      hide HandsDown, Top, Ids, Distinct;
      if f == b {
        DerivedSame(d1, c1, d2, c2, d0, c0, d2, c2, b, h);
      } else {
        NotWhole(f, b, h);
        DerivedThen(d0, c0, d1, c1, d2, c2, f.rest, b, h);
        DerivedSame(d0, c0, d1, c1, d0, c0, d2, c2, f.kids, Nil);
        if f.kids.Cons? {
          HandsDownSame(f.id, d0, c0, d1, c1, d0, c0, d2, c2, Top(f.kids));
        }
      }
    }

    /** A proper suffix of siblings is shorter. */
    lemma NotWhole(f: Forest, b: Forest, h: Forest)
      requires f.Cons? && Distinct(f) && IsSuffix(b, f.rest) && IsSuffix(h, b)
      ensures h != f && f.id !in Ids(b) && Distinct(f.kids) && Distinct(f.rest)
      ensures Ids(f.kids) <= Ids(f) - Ids(b) && Ids(f.rest) - Ids(b) <= Ids(f) - Ids(b)
      ensures Top(f.kids) + {f.id} <= Ids(f) - Ids(b)
    {
      SuffixInner(b, f.rest);
      SuffixInner(h, b);
      TopIn(f.kids);
    }

    lemma {:induction false} TakenThen(d1: seq<Option<Expr>>, c1: seq<seq<Option<Expr>>>, d2: seq<Option<Expr>>,
                         c2: seq<seq<Option<Expr>>>, f: Forest, b: Forest, h: Forest, g1: Forest, g: Forest, g2: Forest)
      requires Distinct(f) && IsSuffix(b, f) && IsSuffix(h, b)
      requires Taken(d1, c1, f, b, g1) && Taken(d2, c2, b, h, g)
      requires StaysUnder(g1, g2, titled) && StaysUnder(g, g2, titled)
      requires SameConds(d1, c1, d2, c2, Ids(f) - Ids(b)) && SameConds(d1, c1, d2, c2, Top(f))
      ensures Taken(d2, c2, f, h, g2)
      decreases f
    {
      hide RunBelow, StaysUnder;
      StaysItself(g2, titled);
      if f == b {
        TakenSame(d2, c2, d2, c2, b, h, g, g2);
      } else {
        SuffixInner(b, f.rest);
        NotWhole(f, b, h);
        TakenThen(d1, c1, d2, c2, f.rest, b, h, g1, g, g2);
        TakenSame(d1, c1, d2, c2, f.kids, Nil, g1, g2);
        if Taking(f) {
          RunBelowTops(d1, c1, d2, c2, f, g1, g2);
        }
      }
    }

    /** Only the conditions of siblings matter. */
    lemma RunBelowTops(d: seq<Option<Expr>>, c: seq<seq<Option<Expr>>>, d': seq<Option<Expr>>,
                       c': seq<seq<Option<Expr>>>, f: Forest, g: Forest, g': Forest)
      requires RunBelow(d, c, f, g) && SameConds(d, c, d', c', Top(f)) && f.id in titled && StaysUnder(g, g', titled)
      ensures RunBelow(d', c', f, g')
    {
      hide Asks, IsUnder;
      var row := Siblings(f.rest);
      SiblingsTop(f.rest);
      forall i | 0 <= i < |row|
        ensures Asks(d, c, row[i], f.id) == Asks(d', c', row[i], f.id)
      {
        assert row[i] in Top(f);
        AsksSame(d, c, d', c', row[i], f.id);
      }
    }

    /** Finalizing the next sibling m of p and taking it as a child. */
    method Adopt(p: Node, m: Node, ghost f: Forest, ghost a: Forest, ghost b: Forest, ghost up: Option<Node>,
                 ghost last: Option<Node>) returns (ghost g: Forest)
      requires Shaped() && LeafFirst(p, f) && Absorbing(L(), p, f, a, b, up, Some(m), last) && KidsTitled(a, titled)
      modifies this`next, this`list, this`parent, this`dep, this`conds
      ensures Shaped() && m < |next| && g.Cons? && |Pre(g.rest)| < |Pre(b)|
      ensures Absorbing(L(), p, f, Append(a, Cons(m, g.kids, Nil)), g.rest, up, next[m], Some(m))
      ensures KidsTitled(Append(a, Cons(m, g.kids, Nil)), titled)
      ensures Top(Append(a, Cons(m, g.kids, Nil))) == Top(a) + {m}
      ensures SameOutside(old(L()), L(), Ids(f)) && IsSuffix(g.rest, b)
      ensures Restructured(old(dep), old(conds), dep, conds, b, g.rest, g) && g.id == m
      decreases |Pre(b)|, 3
    {
      hide *;
      ghost var l := L();
      AbsorbingHead(l, p, f, a, b, up, m, last);
      WholeHere(m, b, up);
      g := Finalize(m, b, up);
      ghost var l1 := L();
      SetParent(m, Some(p));
      AbsorbingNext(l, l1, L(), p, f, a, b, g, up, m, last, titled);
      LinksNow();
      ReshapedParts(l, l1, m, b, g, up);
    }

    lemma ReshapedParts(l: Links, l1: Links, m: Node, b: Forest, g: Forest, up: Option<Node>)
      requires Reshaped(l, l1, m, b, g, up, titled)
      ensures b.Cons? && g.Cons? && g.id == m && IsSuffix(g.rest, b) && Pre(g) == Pre(b)
    {
      hide Rep, Pre, AllTitled, SameOutside;
    }

    lemma RestructuredConds(d0: seq<Option<Expr>>, c0: seq<seq<Option<Expr>>>, d: seq<Option<Expr>>,
                            c: seq<seq<Option<Expr>>>, f: Forest, h: Forest, g: Forest)
      requires Restructured(d0, c0, d, c, f, h, g)
      ensures CondsKept(d0, c0, d, c, Ids(f) - Top(f)) && CondsKept(d0, c0, d, c, Ids(f) - Top(f) - Ids(h))
    {
      hide Derived, Taken, StaysUnder, Ids, Top;
    }

    /** The same, for a sibling that passed the test. */
    method AdoptTested(p: Node, m: Node, ghost f: Forest, ghost a: Forest, ghost b: Forest, ghost up: Option<Node>,
                       ghost last: Option<Node>) returns (ghost g: Forest)
      requires Shaped() && LeafFirst(p, f) && Absorbing(L(), p, f, a, b, up, Some(m), last) && KidsTitled(a, titled)
      requires AllAdopted(dep, conds, Top(a) + {m}, p)
      modifies this`next, this`list, this`parent, this`dep, this`conds
      ensures Shaped() && m < |next| && g.Cons? && |Pre(g.rest)| < |Pre(b)|
      ensures Absorbing(L(), p, f, Append(a, Cons(m, g.kids, Nil)), g.rest, up, next[m], Some(m))
      ensures KidsTitled(Append(a, Cons(m, g.kids, Nil)), titled)
      ensures AllAdopted(dep, conds, Top(Append(a, Cons(m, g.kids, Nil))), p)
      ensures SameOutside(old(L()), L(), Ids(f)) && CondsKept(old(dep), old(conds), dep, conds, Ids(f) - Top(f))
      ensures Restructured(old(dep), old(conds), dep, conds, b, g.rest, g) && IsSuffix(g.rest, b) && g.id == m
      decreases |Pre(b)|, 4
    {
      hide *;
      ghost var l := L();
      AbsorbingHead(l, p, f, a, b, up, m, last);
      TopIn(a);
      g := Adopt(p, m, f, a, b, up, last);
      ShapedConds();
      RestructuredConds(old(dep), old(conds), dep, conds, b, g.rest, g);
      StillAdopted(old(dep), old(conds), dep, conds, Ids(b) - Top(b), Ids(f) - Top(f), Top(a) + {m}, p);
    }

    /** The splice at the end of absorption. */
    method Splice(p: Node, last: Node)
      requires Shaped() && p < |sym| && last < |sym|
      modifies this`next, this`list
      ensures Shaped()
      ensures p < |old(L()).next| && p < |old(L()).list| && last < |old(L()).next|
      ensures L() == old(L()).(list := old(L()).list[p := old(L()).next[p]],
                               next := old(L()).next[p := old(L()).next[last]][last := None])
    {
      list := list[p := next[p]];
      next := next[p := next[last]];
      next := next[last := None];
    }

    /** The condition menu m is tested by has an operand asking for the symbol of p. */
    ghost predicate Asks(d: seq<Option<Expr>>, c: seq<seq<Option<Expr>>>, m: Node, p: Node) {
      && |d| == |c| == |sym| == |promptAt| && m < |sym| && p < |sym|
      && (promptAt[m].Some? ==> promptAt[m].value < |c[m]|)
      && var e := if promptAt[m].Some? then c[m][promptAt[m].value] else d[m];
         sym[p].Some? && e.Some? && AsksFor(Operands(Conj, e.value), sym[p].value)
    }

    /** Of the siblings that follow p in f, the leading ones whose conditions ask for its
        symbol are under p in f'. */
    ghost predicate RunUnder(d: seq<Option<Expr>>, c: seq<seq<Option<Expr>>>, f: Forest, f': Forest, p: Node) {
      f.Cons? && f'.Cons? &&
      var row := Siblings(f.rest);
      forall k :: 0 <= k < |row| && (forall i :: 0 <= i <= k ==> Asks(d, c, row[i], p)) ==>
        row[k] in Ids(f'.kids)
    }

    lemma RunTaken(d: seq<Option<Expr>>, c: seq<seq<Option<Expr>>>, d': seq<Option<Expr>>, c': seq<seq<Option<Expr>>>,
                   f: Forest, f': Forest, p: Node)
      requires LeafFirst(p, f) && f'.Cons? && f'.id == p && Pre(f') == Pre(f) && IsSuffix(f'.rest, f.rest)
      requires CondsKept(d, c, d', c', Ids(f) - Top(f)) && FirstLeftOut(d', c', f'.rest, p)
      ensures RunUnder(d, c, f, f', p)
    {
      hide IsRejected, AsksFor, Operands, Pre, IsSuffix;
      var row := Siblings(f.rest);
      SiblingsTop(f.rest);
      TopIn(f.rest);
      SamePre(f', f);
      forall k | 0 <= k < |row| && forall i :: 0 <= i <= k ==> Asks(d, c, row[i], p)
        ensures row[k] in Ids(f'.kids)
      {
        SiblingLost(f'.rest, f.rest, k);
        if f'.rest.Cons? && f'.rest.id in row[..k + 1] {
          var i :| 0 <= i <= k && row[i] == f'.rest.id;
          LeftOutAsksNot(d, c, d', c', Ids(f) - Top(f), row[i], p);
        }
      }
    }

    lemma LeftOutAsksNot(d: seq<Option<Expr>>, c: seq<seq<Option<Expr>>>, d': seq<Option<Expr>>,
                         c': seq<seq<Option<Expr>>>, s: set<Node>, m: Node, p: Node)
      requires CondsKept(d, c, d', c', s) && m !in s && Rejected(d', c', m, p)
      ensures !Asks(d, c, m, p)
    {
      hide AsksFor, Operands, IsLifted;
    }

    /** The part of menu_finalize for a menu of a symbol without children: the
        following menus that depend on it become its children. */
    method Absorb(p: Node, ghost f: Forest, ghost up: Option<Node>) returns (ghost f': Forest)
      requires Shaped() && LeafFirst(p, f) && Whole(L(), p, f, up) && p < |sym| && sym[p].Some?
      modifies this`next, this`list, this`parent, this`dep, this`conds
      ensures Shaped() && f'.Cons? && Regrown(old(L()), L(), p, f, f', up, titled)
      ensures Restructured(old(dep), old(conds), dep, conds, f, f'.rest, f')
      ensures AllAdopted(dep, conds, Top(f'.kids), p) && FirstLeftOut(dep, conds, f'.rest, p)
      ensures RunUnder(old(dep), old(conds), f, f', p)
      decreases |Pre(f)|, 1
    {
      hide *;
      AbsorbStart(p, f, up);
      ghost var base := PromptCond(p);
      var lifted := Lift(t, PromptCond(p));
      var last: Option<Node> := None;
      var menu := next[p];
      ghost var a, b := Nil, f.rest;
      while menu.Some?
        invariant Shaped() && f.Cons? && PromptCond(p) == base
        invariant SameOutside(old(L()), L(), Ids(f)) && CondsKept(old(dep), old(conds), dep, conds, Ids(f) - Top(f))
        invariant Absorbing(L(), p, f, a, b, up, menu, last) && KidsTitled(a, titled)
        invariant AllAdopted(dep, conds, Top(a), p)
        invariant Restructured(old(dep), old(conds), dep, conds, f.rest, b, Append(a, b))
        decreases |Pre(b)|
      {
        var m := menu.value;
        AbsorbHere(p, m, f, a, b, up, last);
        var ok: bool;
        ghost var dep1: Expr;
        ok, dep1 := Follows(t, TestCond(m), sym[p].value, lifted, base);
        if !ok {
          break;
        }
        AdoptedToo(Top(a), m, p);
        ghost var d, c := dep, conds;
        ghost var l := L();
        ghost var g := AdoptTested(p, m, f, a, b, up, last);
        AbsorbFrame(p, f, base, old(dep), old(conds), d, c, old(L()), l);
        AbsorbedNext(old(dep), old(conds), d, c, dep, conds, p, f, a, b, g, m);
        a, b := Append(a, Cons(m, g.kids, Nil)), g.rest;
        last := Some(m);
        menu := next[m];
      }
      f' := Cons(p, a, b);
      LeftOutHere(p, f, a, b, up, menu, last);
      ghost var l := L();
      LastHere(p, f, a, b, up, menu, last);
      if last.Some? {
        Splice(p, last.value);
        AbsorbedSome(old(L()), l, L(), p, f, a, b, up, menu, last.value, titled);
      } else {
        AbsorbedNothing(old(L()), l, p, f, a, b, up, menu, titled);
      }
      RunTakenHere(old(L()), p, f, f', up, old(dep), old(conds));
      RunTakenHere(old(L()), p, f, f', up, dep, conds) by { KeptAsIs(Ids(f) - Top(f)); }
      AbsorbedSuffix(old(L()), p, f, f', up);
      AbsorbedWhole(old(dep), old(conds), dep, conds, p, f, a, b);
    }

    lemma KeptAsIs(s: set<Node>)
      ensures CondsKept(dep, conds, dep, conds, s)
    {
    }

    lemma AbsorbedSuffix(l: Links, p: Node, f: Forest, f': Forest, up: Option<Node>)
      requires Regrown(l, L(), p, f, f', up, titled)
      ensures f.Cons? && f'.Cons? && IsSuffix(f'.rest, f.rest)
    {
      hide Rep, Pre, KidsTitled, SameOutside;
    }

    /** One more sibling of p was finalized. */
    lemma AbsorbedNext(d0: seq<Option<Expr>>, c0: seq<seq<Option<Expr>>>, d1: seq<Option<Expr>>,
                       c1: seq<seq<Option<Expr>>>, d2: seq<Option<Expr>>, c2: seq<seq<Option<Expr>>>,
                       p: Node, f: Forest, a: Forest, b: Forest, g: Forest, m: Node)
      requires f.Cons? && Distinct(f.rest) && IsSuffix(b, f.rest) && g.Cons? && g.id == m && IsSuffix(g.rest, b)
      requires Restructured(d0, c0, d1, c1, f.rest, b, Append(a, b)) && Restructured(d1, c1, d2, c2, b, g.rest, g)
      ensures Restructured(d0, c0, d2, c2, f.rest, g.rest, Append(Append(a, Cons(m, g.kids, Nil)), g.rest))
    {
      hide Restructured, Distinct, IsSuffix;
      RestructuredThen(d0, c0, d1, c1, d2, c2, f.rest, a, b, g, g.rest);
      MovedOver(a, g);
    }

    lemma MovedOver(a: Forest, g: Forest)
      requires g.Cons?
      ensures Append(Append(a, Cons(g.id, g.kids, Nil)), g.rest) == Append(a, g)
    {
      AppendAssoc(a, Cons(g.id, g.kids, Nil), g.rest);
    }

    lemma RestructuredStart(d: seq<Option<Expr>>, c: seq<seq<Option<Expr>>>, f: Forest)
      ensures Restructured(d, c, d, c, f, f, f) && Append(Nil, f) == f
    {
    }

    /** p and its siblings, once absorption is over. */
    lemma AbsorbedWhole(d0: seq<Option<Expr>>, c0: seq<seq<Option<Expr>>>, d: seq<Option<Expr>>,
                        c: seq<seq<Option<Expr>>>, p: Node, f: Forest, a: Forest, b: Forest)
      requires LeafFirst(p, f) && IsSuffix(b, f.rest) && RunUnder(d, c, f, Cons(p, a, b), p)
      requires Restructured(d0, c0, d, c, f.rest, b, Append(a, b))
      ensures Restructured(d0, c0, d, c, f, b, Cons(p, a, b))
    {
      hide HandsDown, StaysUnder, Append, Asks;
      StaysAbsorbed(p, f.rest, a, b, titled);
      assert f == Cons(p, Nil, f.rest);
      NotWhole(f, b, b);
      TakenSame(d, c, d, c, f.rest, b, Append(a, b), Cons(p, a, b));
      assert Taken(d, c, Nil, Nil, Cons(p, a, b)) && Derived(d0, c0, d, c, Nil, Nil);
      assert Ids(f.rest) - Top(f.rest) - Ids(b) <= Ids(f) - Top(f) - Ids(b);
    }

    lemma RunTakenHere(l: Links, p: Node, f: Forest, f': Forest, up: Option<Node>, d: seq<Option<Expr>>,
                       c: seq<seq<Option<Expr>>>)
      requires LeafFirst(p, f) && Regrown(l, L(), p, f, f', up, titled)
      requires CondsKept(d, c, dep, conds, Ids(f) - Top(f)) && f'.Cons? && FirstLeftOut(dep, conds, f'.rest, p)
      ensures RunUnder(d, c, f, f', p)
    {
      hide FirstLeftOut, RunUnder, CondsKept, Rep;
      RunTaken(d, c, dep, conds, f, f', p);
    }

    /** The first menu that was not taken, if any, failed the test. */
    ghost predicate FirstLeftOut(d: seq<Option<Expr>>, c: seq<seq<Option<Expr>>>, rest: Forest, p: Node) {
      rest.Cons? ==> Rejected(d, c, rest.id, p)
    }

    /** Menu m fails it. */
    ghost predicate Rejected(d: seq<Option<Expr>>, c: seq<seq<Option<Expr>>>, m: Node, p: Node) {
      && |d| == |c| == |sym| == |promptAt| && m < |sym| && p < |sym|
      && (forall x :: 0 <= x < |promptAt| && promptAt[x].Some? ==> promptAt[x].value < |c[x]|)
      && var base := if promptAt[p].Some? then c[p][promptAt[p].value] else None;
         var e := if promptAt[m].Some? then c[m][promptAt[m].value] else d[m];
         sym[p].Some? && IsRejected(t, e, sym[p].value, base)
    }

    lemma LeftOutHere(p: Node, f: Forest, a: Forest, b: Forest, up: Option<Node>, menu: Option<Node>,
                      last: Option<Node>)
      requires Shaped() && LeafFirst(p, f) && Absorbing(L(), p, f, a, b, up, menu, last) && p < |sym| && sym[p].Some?
      requires menu.Some? ==> menu.value < |sym| && IsRejected(t, TestCond(menu.value), sym[p].value, PromptCond(p))
      ensures FirstLeftOut(dep, conds, b, p)
    {
      hide WellFormed, IsRejected, LeafFirst;
    }

    lemma AbsorbStart(p: Node, f: Forest, up: Option<Node>)
      requires Shaped() && LeafFirst(p, f) && Whole(L(), p, f, up) && p < |sym|
      ensures WellFormed(t) && f.Cons? && p < |next| && KidsTitled(Nil, titled)
      ensures AllAdopted(dep, conds, Top(Nil), p) && Absorbing(L(), p, f, Nil, f.rest, up, next[p], None)
      ensures SameOutside(L(), L(), Ids(f)) && CondsKept(dep, conds, dep, conds, Ids(f) - Top(f))
      ensures Restructured(dep, conds, dep, conds, f.rest, f.rest, Append(Nil, f.rest)) && Distinct(f.rest)
    {
      hide Rep, WellFormed;
      WholeAbsorbing(L(), p, f, up);
      RestructuredStart(dep, conds, f.rest);
    }

    lemma LastHere(p: Node, f: Forest, a: Forest, b: Forest, up: Option<Node>, menu: Option<Node>, last: Option<Node>)
      requires Shaped() && LeafFirst(p, f) && Absorbing(L(), p, f, a, b, up, menu, last)
      ensures last.Some? ==> last.value < |sym| && last.value < |L().next|
    {
      hide WellFormed, Absorbing, Rep;
      AbsorbingLast(L(), p, f, a, b, up, menu, last);
    }

    lemma AbsorbHere(p: Node, m: Node, f: Forest, a: Forest, b: Forest, up: Option<Node>, last: Option<Node>)
      requires Shaped() && LeafFirst(p, f) && Absorbing(L(), p, f, a, b, up, Some(m), last) && p < |sym|
      ensures WellFormed(t) && m < |sym| && IsSuffix(b, f.rest)
      ensures p < |conds| && p < |promptAt| && (promptAt[p].Some? ==> promptAt[p].value < |conds[p]|)
      ensures PromptCond(p) == if promptAt[p].Some? then conds[p][promptAt[p].value] else None
    {
      hide WellFormed, Absorbing, Rep;
      AbsorbingHead(L(), p, f, a, b, up, m, last);
      AbsorbingParts(L(), p, f, a, b, up, Some(m), last);
    }

    lemma AdoptedToo(s: set<Node>, m: Node, p: Node)
      requires Shaped() && m < |sym| && p < |sym| && sym[p].Some? && AllAdopted(dep, conds, s, p)
      requires IsAdopted(t, TestCond(m), sym[p].value, PromptCond(p))
      ensures AllAdopted(dep, conds, s + {m}, p)
    {
      hide Shaped, TestCond, PromptCond, Adopted, IsAdopted;
      AdoptedNow(m, p);
    }

    /** One round of absorption after another. */
    lemma AbsorbFrame(p: Node, f: Forest, base: Option<Expr>, d0: seq<Option<Expr>>, c0: seq<seq<Option<Expr>>>,
                      d: seq<Option<Expr>>, c: seq<seq<Option<Expr>>>, l0: Links, l: Links)
      requires Shaped() && LeafFirst(p, f) && p < |sym| && p < |promptAt| && p < |c|
      requires CondsKept(d0, c0, d, c, Ids(f) - Top(f)) && CondsKept(d, c, dep, conds, Ids(f) - Top(f))
      requires SameOutside(l0, l, Ids(f)) && SameOutside(l, L(), Ids(f))
      requires promptAt[p].Some? ==> promptAt[p].value < |c[p]|
      requires base == if promptAt[p].Some? then c[p][promptAt[p].value] else None
      ensures PromptCond(p) == base
      ensures CondsKept(d0, c0, dep, conds, Ids(f) - Top(f)) && SameOutside(l0, L(), Ids(f))
    {
      hide WellFormed, Distinct, SameOutside;
      SameOutsideTwice(l0, l, L(), Ids(f), Ids(f));
    }

    /** Finalizing every child of p. */
    method FinalizeChildren(p: Node, ghost f: Forest, ghost up: Option<Node>) returns (ghost f': Forest)
      requires Shaped() && f.Cons? && Whole(L(), p, f, up) && p < |sym|
      modifies this`next, this`list, this`parent, this`dep, this`conds
      ensures Shaped() && f'.Cons? && Regrown(old(L()), L(), p, f, f', up, titled)
      ensures CondsKept(old(dep), old(conds), dep, conds, Ids(f.kids) - Top(f.kids))
      ensures Restructured(old(dep), old(conds), dep, conds, f.kids, Nil, f'.kids)
      ensures f' == Cons(p, f'.kids, f.rest) && Ids(f'.kids) == Ids(f.kids)
      decreases |Pre(f)|, 1
    {
      hide *;
      ghost var l0, k := L(), f.kids;
      ChildrenStart(p, f, up);
      var menu := list[p];
      ghost var start := menu;
      ghost var a, b := Nil, k;
      while menu.Some?
        invariant Shaped()
        invariant Passing(L(), start, k, a, b, Some(p), menu) && KidsTitled(a, titled) && IsSuffix(b, k)
        invariant SameOutside(l0, L(), Ids(k)) && CondsKept(old(dep), old(conds), dep, conds, Ids(k) - Top(k))
        invariant Restructured(old(dep), old(conds), dep, conds, k, b, Append(a, b))
        decreases |Pre(b)|
      {
        var m := menu.value;
        ghost var l, d, c := L(), dep, conds;
        PassingHead(l, start, k, a, b, Some(p), m);
        WholeHere(m, b, Some(p));
        ghost var g := Finalize(m, b, Some(p));
        PassingNext(l0, l, L(), start, k, a, b, g, p, m, titled);
        RestructuredConds(d, c, dep, conds, b, g.rest, g);
        ReshapedParts(l, L(), m, b, g, Some(p));
        PassedNext(old(dep), old(conds), d, c, dep, conds, k, a, b, g);
        CondsKeptTwice(old(dep), old(conds), d, c, dep, conds, Ids(k) - Top(k), Ids(k) - Top(k), Ids(b) - Top(b));
        LinksNow();
        a, b := Append(a, Cons(m, g.kids, Nil)), g.rest;
        menu := next[m];
      }
      f' := Cons(p, a, f.rest);
      PassedEnd(L(), start, k, a, b, p);
      ChildrenFinalized(l0, L(), p, f, a, b, up, titled);
    }

    lemma PassedNext(d0: seq<Option<Expr>>, c0: seq<seq<Option<Expr>>>, d1: seq<Option<Expr>>,
                     c1: seq<seq<Option<Expr>>>, d2: seq<Option<Expr>>, c2: seq<seq<Option<Expr>>>,
                     k: Forest, a: Forest, b: Forest, g: Forest)
      requires Distinct(k) && IsSuffix(b, k) && g.Cons? && IsSuffix(g.rest, b)
      requires Restructured(d0, c0, d1, c1, k, b, Append(a, b)) && Restructured(d1, c1, d2, c2, b, g.rest, g)
      ensures Restructured(d0, c0, d2, c2, k, g.rest, Append(Append(a, Cons(g.id, g.kids, Nil)), g.rest))
    {
      hide Restructured, Distinct, IsSuffix;
      RestructuredThen(d0, c0, d1, c1, d2, c2, k, a, b, g, g.rest);
      MovedOver(a, g);
    }

    lemma PassedEnd(l: Links, start: Option<Node>, k: Forest, a: Forest, b: Forest, p: Node)
      requires Passing(l, start, k, a, b, Some(p), None)
      ensures b == Nil && Append(a, b) == a && Ids(a) == Ids(k)
    {
      hide Rep, Pre, Distinct;
      PassingParts(l, start, k, a, b, Some(p), None);
      SamePre(a, k);
    }

    lemma ChildrenStart(p: Node, f: Forest, up: Option<Node>)
      requires Shaped() && Whole(L(), p, f, up) && p < |sym|
      ensures f.Cons? && p < |list| && p < |L().list| && list[p] == L().list[p]
      ensures Passing(L(), list[p], f.kids, Nil, f.kids, Some(p), list[p])
      ensures Restructured(dep, conds, dep, conds, f.kids, f.kids, Append(Nil, f.kids))
      ensures StaysUnder(f.kids, Append(Nil, f.kids), titled) && Distinct(f.kids)
      ensures KidsTitled(Nil, titled) && AllTitled(Nil, titled) && IsSuffix(f.kids, f.kids)
      ensures SameOutside(L(), L(), Ids(f.kids)) && |Pre(f.kids)| < |Pre(f)|
      ensures CondsKept(dep, conds, dep, conds, Ids(f.kids) - Top(f.kids))
    {
      hide Rep, Pre, WellFormed;
      WholeParts(L(), p, f, up);
      PassingStart(L(), list[p], f.kids, Some(p));
      SameOutsideItself(L(), Ids(f.kids));
      RestructuredStart(dep, conds, f.kids);
    }

    /** The inner loop of hoisting: the children k of m get m's parent. */
    method HandOver(m: Node, p: Node, ghost k: Forest) returns (last: Node)
      requires Shaped() && m < |sym| && k.Cons? && Distinct(k) && m !in Ids(k)
      requires Rep(L(), list[m], k, Some(m), None)
      modifies this`parent
      ensures Shaped() && L().next == old(L().next) && L().list == old(L().list)
      ensures Rep(L(), list[m], k, Some(p), None)
      ensures last == Last(k) && last < |sym| && SameOutside(old(L()), L(), Ids(k))
    {
      hide Rep, WellFormed, Distinct, Ids, SameOutside;
      ghost var l0 := L();
      HandOverStart(m, k);
      last := list[m].value;
      ghost var c, d := Nil, k;
      while true
        invariant Shaped() && last < |sym| && L().next == l0.next && L().list == l0.list
        invariant HandingOver(l0, L(), list[m], k, c, d, p, m, last)
        decreases d
      {
        ghost var l := L();
        SetParent(last, Some(p));
        HandOverNext(l0, l, L(), list[m], k, c, d, p, m, last);
        if next[last].None? {
          break;
        }
        c, d := Append(c, Cons(last, d.kids, Nil)), d.rest;
        last := next[last].value;
      }
    }

    lemma HandOverStart(m: Node, k: Forest)
      requires Shaped() && m < |sym| && k.Cons? && Distinct(k) && Rep(L(), list[m], k, Some(m), None)
      ensures list[m] == Some(k.id) && k.id < |sym|
      ensures forall p: Node :: HandingOver(L(), L(), list[m], k, Nil, k, p, m, k.id)
    {
      hide WellFormed, Distinct;
      SameOutsideItself(L(), Ids(k));
    }

    /** The hoisting loop: children of p without a text give their own children
        to p. */
    method Hoist(p: Node, ghost f: Forest, ghost up: Option<Node>) returns (ghost f': Forest)
      requires Shaped() && f.Cons? && Whole(L(), p, f, up) && p < |sym| && KidsTitled(f.kids, titled)
      modifies this`next, this`list, this`parent
      ensures Shaped() && f'.Cons? && f'.rest == f.rest && Reshaped(old(L()), L(), p, f, f', up, titled)
      ensures StaysUnder(f, f', titled)
    {
      hide *;
      ghost var l0, k := L(), f.kids;
      ChildrenStart(p, f, up);
      var menu := list[p];
      ghost var start := menu;
      ghost var a, b := Nil, k;
      while menu.Some?
        invariant Shaped()
        invariant Passing(L(), start, k, a, b, Some(p), menu) && AllTitled(a, titled) && KidsTitled(b, titled)
        invariant SameOutside(l0, L(), Ids(k)) && StaysUnder(k, Append(a, b), titled)
        decreases |Pre(b)|
      {
        var m := menu.value;
        ghost var l := L();
        ghost var g := HoistOne(p, m, start, k, a, b);
        HoistNext(l0, l, L(), start, k, a, b, g, p, m, titled);
        StaysEnd(k, a, b, g, titled);
        MovedOver(a, g);
        LinksNow();
        a, b := Append(a, Cons(m, g.kids, Nil)), g.rest;
        menu := next[m];
      }
      f' := Cons(p, a, f.rest);
      PassedEnd(L(), start, k, a, b, p);
      StaysChildren(p, k, a, f.rest, titled);
      WholeCons(l0, p, f, up);
      ChildrenHoisted(l0, L(), p, f, a, b, up, titled);
    }

    /** One child of p. */
    method HoistOne(p: Node, m: Node, ghost start: Option<Node>, ghost k: Forest, ghost a: Forest, ghost b: Forest)
      returns (ghost g: Forest)
      requires Shaped() && Passing(L(), start, k, a, b, Some(p), Some(m)) && KidsTitled(b, titled)
      modifies this`next, this`list, this`parent
      ensures Shaped() && g.Cons? && HoistedTo(old(L()), L(), m, b, g, p, titled)
      ensures g.id == m && StaysUnder(b, g, titled)
    {
      hide *;
      ghost var l := L();
      PassingHead(l, start, k, a, b, Some(p), m);
      WholeHere(m, b, Some(p));
      WholeParts(l, m, b, Some(p));
      LinksNow();
      g := b;
      if list[m].Some? && m !in titled {
        var last := HandOver(m, p, b.kids);
        ghost var l1 := L();
        LastNotParent(m, b.kids);
        Release(m, last);
        g := Cons(m, Nil, Append(b.kids, b.rest));
        HoistRound(l, l1, L(), m, b, p, titled);
        StaysReleased(m, b.kids, b.rest, titled);
        HoistedHead(l, L(), m, b, p, titled);
      } else {
        KeptHead(l, m, b, p, titled, list[m]);
        StaysItself(b, titled);
      }
    }

    /** The splice that puts the children of m behind m. */
    method Release(m: Node, last: Node)
      requires Shaped() && m < |sym| && last < |sym| && last != m
      modifies this`next, this`list
      ensures Shaped() && m < |old(L()).next| && m < |old(L()).list| && last < |old(L()).next|
      ensures L() == old(L()).(next := old(L()).next[last := old(L()).next[m]][m := old(L()).list[m]],
                               list := old(L()).list[m := None])
    {
      next := next[last := next[m]];
      next := next[m := list[m]];
      list := list[m := None];
    }

    lemma HoistedHead(l: Links, l': Links, m: Node, b: Forest, p: Node, T: set<Node>)
      requires b.Cons?
      requires Rep(l', Some(m), Cons(m, Nil, Append(b.kids, b.rest)), Some(p), None)
      requires Pre(Cons(m, Nil, Append(b.kids, b.rest))) == Pre(b)
      requires KidsTitled(Append(b.kids, b.rest), T) && SameOutside(l, l', Ids(b))
      ensures HoistedTo(l, l', m, b, Cons(m, Nil, Append(b.kids, b.rest)), p, T)
    {
      hide Rep, Pre, SameOutside;
    }

    lemma KeptHead(l: Links, m: Node, b: Forest, p: Node, T: set<Node>, first: Option<Node>)
      requires b.Cons? && b.id == m && KidsTitled(b, T) && first == Head(b.kids, None) && (first.None? || m in T)
      requires Rep(l, Some(m), b, Some(p), None) && l.Valid(|l.next|)
      ensures HoistedTo(l, l, m, b, b, p, T)
    {
      hide Rep, Pre;
      SameOutsideItself(l, Ids(b));
    }

    lemma LastNotParent(m: Node, k: Forest)
      requires k.Cons? && m !in Ids(k)
      ensures Last(k) != m
    {
      LastIn(k);
    }

    /** menu_finalize: the menus keep their order, parent pointers name the menu
        whose child list holds the node, and below p only menus with a text have
        children. */
    method Finalize(p: Node, ghost f: Forest, ghost up: Option<Node>) returns (ghost f': Forest)
      requires Shaped() && f.Cons? && Whole(L(), p, f, up) && p < |sym|
      modifies this`next, this`list, this`parent, this`dep, this`conds
      ensures Shaped() && f'.Cons? && Reshaped(old(L()), L(), p, f, f', up, titled)
      ensures Restructured(old(dep), old(conds), dep, conds, f, f'.rest, f')
      ensures old(list[p]).None? && sym[p].Some? ==> RunUnder(old(dep), old(conds), f, f', p)
      decreases |Pre(f)|, 2
    {
      hide *;
      ghost var l := L();
      GrowStart(p, f, up);
      ghost var d, c, leaf := dep, conds, list[p].None?;
      ghost var f1 := Grow(p, f, up);
      ghost var l1 := L();
      WholeDistinct(l, p, f, up);
      RegrownWhole(l, l1, p, f, f1, up, titled);
      f' := Hoist(p, f1, up);
      RegrownThenHoisted(l, l1, L(), p, f, f1, f', up, titled);
      HoistedWhole(d, c, dep, conds, f, f1, f');
      if leaf && sym[p].Some? {
        RunHoisted(d, c, l1, L(), f, f1, f', up, p);
      }
    }

    lemma HoistedWhole(d0: seq<Option<Expr>>, c0: seq<seq<Option<Expr>>>, d: seq<Option<Expr>>,
                       c: seq<seq<Option<Expr>>>, f: Forest, f1: Forest, f2: Forest)
      requires f1.Cons? && f2.Cons? && f2.rest == f1.rest && StaysUnder(f1, f2, titled)
      requires Restructured(d0, c0, d, c, f, f1.rest, f1)
      ensures Restructured(d0, c0, d, c, f, f2.rest, f2)
    {
      hide Derived, StaysUnder;
      StaysTwice(f, f1, f2, titled);
      TakenSame(d, c, d, c, f, f1.rest, f1, f2);
    }

    /** Hoisting does not take a menu out from under p. */
    lemma RunHoisted(d: seq<Option<Expr>>, c: seq<seq<Option<Expr>>>, l1: Links, l2: Links, f: Forest, f1: Forest,
                     f2: Forest, up: Option<Node>, p: Node)
      requires RunUnder(d, c, f, f1, p) && f1.Cons?
      requires Reshaped(l1, l2, p, f1, f2, up, titled) && f2.rest == f1.rest
      ensures RunUnder(d, c, f, f2, p)
    {
      hide Asks, Rep, AllTitled, Ids;
      assert Pre(f1) == [f1.id] + Pre(f1.kids) + Pre(f1.rest) && Pre(f2) == [p] + Pre(f2.kids) + Pre(f1.rest);
      assert Pre(f1.kids) == Pre(f1)[1..|Pre(f1)| - |Pre(f1.rest)|];
      assert Pre(f2.kids) == Pre(f2)[1..|Pre(f2)| - |Pre(f1.rest)|];
      SamePre(f1.kids, f2.kids);
    }

    /** The first half of menu_finalize. */
    method Grow(p: Node, ghost f: Forest, ghost up: Option<Node>) returns (ghost f': Forest)
      requires Shaped() && f.Cons? && Whole(L(), p, f, up) && p < |sym|
      modifies this`next, this`list, this`parent, this`dep, this`conds
      ensures Shaped() && f'.Cons? && Regrown(old(L()), L(), p, f, f', up, titled)
      ensures Restructured(old(dep), old(conds), dep, conds, f, f'.rest, f')
      ensures old(list[p]).Some? ==> HandsDown(p, old(dep), old(conds), dep, conds, Top(f.kids))
      ensures old(list[p]).None? && sym[p].Some? ==>
        AllAdopted(dep, conds, Top(f'.kids), p) && FirstLeftOut(dep, conds, f'.rest, p)
      ensures old(list[p]).None? && sym[p].Some? ==> RunUnder(old(dep), old(conds), f, f', p)
      decreases |Pre(f)|, 2, 0
    {
      hide *;
      ghost var d0, c0 := dep, conds;
      GrowStart(p, f, up);
      if list[p].Some? {
        Propagate(p, f.kids);
        ghost var d1, c1 := dep, conds;
        f' := FinalizeChildren(p, f, up);
        ShapedConds();
        GrownWhole(d0, c0, d1, c1, dep, conds, p, f, f'.kids);
      } else if sym[p].Some? {
        f' := Absorb(p, f, up);
      } else {
        f' := f;
        NothingRegrown(L(), p, f, up, titled);
        LeafStays(dep, conds, f);
      }
    }

    lemma LeafStays(d: seq<Option<Expr>>, c: seq<seq<Option<Expr>>>, f: Forest)
      requires f.Cons? && f.kids == Nil && f.id < |sym| && sym[f.id].None?
      ensures Restructured(d, c, d, c, f, f.rest, f)
    {
      hide HandsDown, RunBelow;
      StaysItself(f, titled);
      assert Taken(d, c, Nil, Nil, f) && Derived(d, c, d, c, Nil, Nil);
      assert Taken(d, c, f.rest, f.rest, f) && Derived(d, c, d, c, f.rest, f.rest);
    }

    /** p handed its condition down, and then its children f.kids were finalized and became a. */
    lemma GrownWhole(d0: seq<Option<Expr>>, c0: seq<seq<Option<Expr>>>, d1: seq<Option<Expr>>,
                     c1: seq<seq<Option<Expr>>>, d2: seq<Option<Expr>>, c2: seq<seq<Option<Expr>>>,
                     p: Node, f: Forest, a: Forest)
      requires f.Cons? && f.id == p && Distinct(f) && f.kids.Cons? && Ids(a) == Ids(f.kids)
      requires HandsDown(p, d0, c0, d1, c1, Top(f.kids)) && CondsKept(d0, c0, d1, c1, Top(f.kids))
      requires Restructured(d1, c1, d2, c2, f.kids, Nil, a)
      ensures Restructured(d0, c0, d2, c2, f, f.rest, Cons(p, a, f.rest))
      ensures HandsDown(p, d0, c0, d2, c2, Top(f.kids))
    {
      hide HandsDown, StaysUnder, RunBelow, Ids, Top, Distinct;
      var k, g := f.kids, Cons(p, a, f.rest);
      GrownConds(d0, c0, d1, c1, d2, c2, p, f);
      StaysChildren(p, k, a, f.rest, titled);
      HandsDownSame(p, d0, c0, d1, c1, d0, c0, d2, c2, Top(k));
      DerivedSame(d1, c1, d2, c2, d0, c0, d2, c2, k, Nil);
      TakenSame(d2, c2, d2, c2, k, Nil, a, g);
      NotWhole(f, f.rest, f.rest);
      assert Taken(d2, c2, f.rest, f.rest, g) && Derived(d0, c0, d2, c2, f.rest, f.rest);
    }

    lemma GrowStart(p: Node, f: Forest, up: Option<Node>)
      requires Shaped() && f.Cons? && Whole(L(), p, f, up) && p < |sym|
      ensures f.id == p && Distinct(f)
      ensures p < |list| && p !in Ids(f.kids) && Distinct(f.kids) && Rep(L(), list[p], f.kids, Some(p), None)
      ensures list[p].None? ==> LeafFirst(p, f) && f.kids == Nil
      ensures list[p].Some? ==> f.kids.Cons?
      ensures CondsKept(dep, conds, dep, conds, Ids(f) - Top(f))
    {
      hide WellFormed, Rep, Pre;
      WholeParts(L(), p, f, up);
    }

    /** Every menu in s inherited `from`. */
    ghost predicate AllInherited(from: Option<Expr>, d: seq<Option<Expr>>, c: seq<seq<Option<Expr>>>,
                                 d': seq<Option<Expr>>, c': seq<seq<Option<Expr>>>, s: set<Node>) {
      && |d| == |c| == |d'| == |c'| == |sym|
      && forall m :: m in s ==>
           && m < |sym|
           && Inherited(t, sym[m].Some? && Typ(t, sym[m].value) != Tristate, from, d[m], c[m], d'[m], c'[m])
    }

    lemma GrownConds(d0: seq<Option<Expr>>, c0: seq<seq<Option<Expr>>>, d1: seq<Option<Expr>>,
                     c1: seq<seq<Option<Expr>>>, d2: seq<Option<Expr>>, c2: seq<seq<Option<Expr>>>,
                     p: Node, f: Forest)
      requires f.Cons? && f.id == p && Distinct(f) && CondsKept(d0, c0, d1, c1, Top(f.kids))
      requires CondsKept(d1, c1, d2, c2, Ids(f.kids) - Top(f.kids) - Ids(Nil))
      ensures Distinct(f.kids) && IsSuffix(f.rest, f.rest) && f == Cons(p, f.kids, f.rest)
      ensures SameConds(d0, c0, d0, c0, Top(f.kids)) && SameConds(d1, c1, d2, c2, Top(f.kids) + {p})
      ensures SameConds(d1, c1, d0, c0, Ids(f.kids) - Top(f.kids)) && SameConds(d2, c2, d2, c2, Ids(f.kids))
      ensures CondsKept(d0, c0, d2, c2, Ids(f) - Top(f) - Ids(f.rest))
    {
      hide IsSuffix;
      TopIn(f.kids);
      TopIn(f.rest);
      assert IsSuffix(f.rest, f.rest) by { SuffixItself(f.rest); }
      assert Ids(f.kids) <= Ids(f) - Top(f) - Ids(f.rest);
    }

    lemma SuffixItself(f: Forest)
      ensures IsSuffix(f, f)
    {
    }

    lemma WholeDistinct(l: Links, p: Node, f: Forest, up: Option<Node>)
      requires Whole(l, p, f, up)
      ensures Distinct(f)
    {
    }

    lemma WholeCons(l: Links, p: Node, f: Forest, up: Option<Node>)
      requires Whole(l, p, f, up)
      ensures f.Cons? && f == Cons(p, f.kids, f.rest)
    {
      hide Rep;
    }

    lemma WholeHere(m: Node, b: Forest, up: Option<Node>)
      requires Shaped() && Whole(L(), m, b, up)
      ensures m < |sym| && m < |list| && b.Cons? && b.id == m && Rep(L(), Some(m), b, up, None)
    {
    }

    lemma LinksNow()
      ensures L() == Links(next, list, parent)
    {
    }
  
    // ----- the walk -----

    /** One step of the walk in conf_write: to the first child, else to the next
        sibling, else up until there is one. */
    method Advance(root: Node, m: Node, ghost f: Forest, ghost up: Option<Node>, ghost tr: Trail)
      returns (m': Option<Node>, ghost f': Forest, ghost up': Option<Node>, ghost tr': Trail)
      requires Shaped() && Stands(L(), root, m, f, up, tr)
      ensures m' == First((Pre(f) + Rest(tr))[1..])
      ensures Pre(f) + Rest(tr) == [m] + if m'.Some? then Pre(f') + Rest(tr') else []
      ensures m'.Some? ==> Stands(L(), root, m'.value, f', up', tr')
    {
      hide Rep, Pre, WellFormed, Stands, OnTrail;
      StandsParts(L(), root, m, f, up, tr);
      if list[m].Some? {
        HeadThenRest(m, Pre(f.kids), Pre(f.rest) + Rest(tr));
        m', f', up', tr' := list[m], f.kids, Some(m), Under(f.rest, tr);
      } else {
        NoKids(m, f.kids, Pre(f.rest) + Rest(tr));
        if next[m].Some? {
          m', f', up', tr' := next[m], f.rest, up, tr;
        } else {
          NoRest(f.rest, Rest(tr));
          m', f', up', tr' := ClimbFrom(root, parent[m], tr);
        }
      }
      StandsFirst(root, m, m', f', up', tr');
    }

    function First(s: seq<Node>): Option<Node> {
      if s == [] then None else Some(s[0])
    }

    /** A walk standing at m' has m' before it, next after m. */
    lemma StandsFirst(root: Node, m: Node, m': Option<Node>, f: Forest, up: Option<Node>, tr: Trail)
      requires m'.Some? ==> Stands(L(), root, m'.value, f, up, tr)
      ensures m' == First(([m] + if m'.Some? then Pre(f) + Rest(tr) else [])[1..])
    {
      if m'.Some? {
        assert ([m] + (Pre(f) + Rest(tr)))[1..] == Pre(f) + Rest(tr);
      }
    }

    lemma HeadThenRest(m: Node, a: seq<Node>, b: seq<Node>)
      ensures [m] + a + b == [m] + (a + b)
    {
    }

    lemma NoKids(m: Node, kids: Forest, b: seq<Node>)
      requires kids == Nil
      ensures [m] + Pre(kids) + b == [m] + b
    {
    }

    lemma NoRest(rest: Forest, b: seq<Node>)
      requires rest == Nil
      ensures Pre(rest) + b == b
    {
    }

    /** The climbing loop. */
    method ClimbFrom(root: Node, start: Option<Node>, ghost tr: Trail)
      returns (m': Option<Node>, ghost f': Forest, ghost up': Option<Node>, ghost tr': Trail)
      requires Shaped() && OnTrail(L(), root, start, tr)
      ensures Rest(tr) == if m'.Some? then Pre(f') + Rest(tr') else []
      ensures m'.Some? ==> Stands(L(), root, m'.value, f', up', tr')
    {
      hide Rep, Pre, WellFormed, Stands, OnTrail, Rest;
      TrailUp(L(), root, start, tr);
      var menu := start;
      ghost var left := tr;
      while menu.Some?
        invariant menu.Some? ==> OnTrail(L(), root, menu, left) && Rest(left) == Rest(tr)
        invariant menu.None? ==> Rest(tr) == []
        decreases left, menu.Some?
      {
        TrailUp(L(), root, menu, left);
        var x := menu.value;
        if next[x].Some? {
          return next[x], left.rest, parent[x], left.above;
        }
        if parent[x].Some? {
          left := left.above;
        }
        menu := parent[x];
      }
      return None, Nil, None, Done;
    }

    /** The loop of conf_write visits every node below the root exactly once, in
        preorder, and ends. */
    method Walk(root: Node, ghost f: Forest) returns (visited: seq<Node>)
      requires Shaped() && root < |sym| && next[root] == None && parent[root] == None
      requires Rep(L(), list[root], f, Some(root), None)
      ensures visited == Pre(f)
    {
      hide Rep, Pre, WellFormed, Stands, Rest;
      visited := [];
      var menu := list[root];
      ghost var g, up, tr := f, Some(root), Done;
      WalkStart(root, f);
      while menu.Some?
        invariant menu.Some? ==> Stands(L(), root, menu.value, g, up, tr)
        invariant Pre(f) == visited + if menu.Some? then Pre(g) + Rest(tr) else []
        decreases if menu.Some? then 1 + |Pre(g) + Rest(tr)| else 0
      {
        ghost var before := visited;
        ghost var left := Pre(g) + Rest(tr);
        visited := visited + [menu.value];
        menu, g, up, tr := Advance(root, menu.value, g, up, tr);
        Associates(before, [visited[|visited| - 1]], if menu.Some? then Pre(g) + Rest(tr) else []);
      }
      assert visited + [] == visited;
    }

    lemma WalkStart(root: Node, f: Forest)
      requires Shaped() && root < |sym| && next[root] == None && parent[root] == None
      requires Rep(L(), list[root], f, Some(root), None)
      ensures root < |list| && list[root] == Head(f, None)
      ensures f.Cons? ==> Stands(L(), root, f.id, f, Some(root), Done)
      ensures Pre(f) == [] + if f.Cons? then Pre(f) + Rest(Done) else []
    {
      hide WellFormed, Stands;
      RepHead(L(), list[root], f, Some(root), None);
      if f.Cons? {
        StandsAtFirst(L(), root, f);
      }
    }

    /** Restructuring does not change what the walk comes by. */
    method FinalizeAndWalk(root: Node, ghost f: Forest) returns (visited: seq<Node>, ghost f': Forest)
      requires Shaped() && root < |sym| && f.Cons? && f.rest == Nil && Whole(L(), root, f, None)
      modifies this`next, this`list, this`parent, this`dep, this`conds
      ensures visited == Pre(f.kids) && NoRepeats(visited)
      ensures Shaped() && f'.Cons? && Rep(L(), Some(root), f', None, None) && AllTitled(f'.kids, titled)
      ensures Derived(old(dep), old(conds), dep, conds, f, Nil)
      ensures Taken(dep, conds, f, Nil, f') && StaysUnder(f, f', titled)
    {
      hide *;
      ghost var l := L();
      f' := Finalize(root, f, None);
      RestructuredRoot(old(dep), old(conds), f, f') by { ReshapedRest(l, root, f, f'); }
      FinalizedRoot(l, root, f, f');
      visited := Walk(root, f'.kids);
    }

    lemma ReshapedRest(l: Links, root: Node, f: Forest, f': Forest)
      requires Reshaped(l, L(), root, f, f', None, titled) && f.Cons? && f.rest == Nil
      ensures f'.Cons? && f'.rest == Nil
    {
      hide Rep, Pre, AllTitled, SameOutside;
    }

    lemma RestructuredRoot(d0: seq<Option<Expr>>, c0: seq<seq<Option<Expr>>>, f: Forest, f': Forest)
      requires f'.Cons? && f'.rest == Nil && Restructured(d0, c0, dep, conds, f, f'.rest, f')
      ensures Derived(d0, c0, dep, conds, f, Nil) && Taken(dep, conds, f, Nil, f') && StaysUnder(f, f', titled)
    {
      hide Derived, Taken, StaysUnder;
    }

    lemma FinalizedRoot(l: Links, root: Node, f: Forest, f': Forest)
      requires Shaped() && root < |sym| && f.Cons? && f.rest == Nil && Whole(l, root, f, None)
      requires Reshaped(l, L(), root, f, f', None, titled)
      ensures f'.Cons? && root < |next| && next[root] == None && parent[root] == None
      ensures Rep(L(), list[root], f'.kids, Some(root), None) && Rep(L(), Some(root), f', None, None)
      ensures Pre(f'.kids) == Pre(f.kids) && NoRepeats(Pre(f.kids)) && AllTitled(f'.kids, titled)
    {
      hide WellFormed, Rep, NoRepeats, AllTitled;
      RepLinks(L(), Some(root), f', None, None);
      RepHead(L(), next[root], f'.rest, None, None);
      WholeDistinct(l, root, f, None);
      DistinctIsNoRepeats(f.kids);
      SameKids(root, f, f');
    }

    lemma SameKids(root: Node, f: Forest, f': Forest)
      requires f.Cons? && f'.Cons? && f.id == f'.id == root && f.rest == f'.rest == Nil && Pre(f) == Pre(f')
      ensures Pre(f'.kids) == Pre(f.kids)
    {
      assert Pre(f) == [root] + Pre(f.kids) && Pre(f') == [root] + Pre(f'.kids);
      assert Pre(f)[1..] == Pre(f.kids) && Pre(f')[1..] == Pre(f'.kids);
    }
  }
}
