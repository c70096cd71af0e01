/** The menu tree as its links represent it: `list` points to the first child,
    `next` to the next sibling, `parent` upwards (expr.h:167-180). */
module Forests {
  import opened Tristates

  type Node = nat

  /** The three link fields of every menu, indexed by node. */
  datatype Links = Links(next: seq<Option<Node>>, list: seq<Option<Node>>, parent: seq<Option<Node>>) {
    predicate Valid(n: nat) {
      |next| == n && |list| == n && |parent| == n
    }
  }

  /** A node with its children and its following siblings. */
  datatype Forest = Nil | Cons(id: Node, kids: Forest, rest: Forest)

  /** The preorder sequence. */
  function Pre(f: Forest): (s: seq<Node>)
    ensures f.Cons? ==> |s| == 1 + |Pre(f.kids)| + |Pre(f.rest)|
  {
    match f
    case Nil => []
    case Cons(id, kids, rest) => [id] + Pre(kids) + Pre(rest)
  }

  ghost function Ids(f: Forest): set<Node> {
    match f
    case Nil => {}
    case Cons(id, kids, rest) => {id} + Ids(kids) + Ids(rest)
  }

  /** No node occurs twice. */
  ghost predicate Distinct(f: Forest) {
    match f
    case Nil => true
    case Cons(id, kids, rest) =>
      id !in Ids(kids) && id !in Ids(rest) && Ids(kids) !! Ids(rest) && Distinct(kids) && Distinct(rest)
  }

  function Append(f: Forest, g: Forest): (r: Forest)
    ensures g == Nil ==> r == f
  {
    match f
    case Nil => g
    case Cons(id, kids, rest) => Cons(id, kids, Append(rest, g))
  }

  function Head(f: Forest, end: Option<Node>): Option<Node> {
    if f.Cons? then Some(f.id) else end
  }

  /** The links from p on, along siblings up to `end`, are the forest f under
      `up`: every parent pointer names the node whose child list holds it. */
  ghost predicate Rep(l: Links, p: Option<Node>, f: Forest, up: Option<Node>, end: Option<Node>)
    decreases f
  {
    match f
    case Nil => p == end
    case Cons(id, kids, rest) =>
      && p == Some(id) && id < |l.next| && l.Valid(|l.next|) && l.parent[id] == up
      && Rep(l, l.list[id], kids, Some(id), None)
      && Rep(l, l.next[id], rest, up, end)
  }

  /** The links of the nodes in s are the same. */
  ghost predicate SameAt(l: Links, l': Links, s: set<Node>) {
    && |l.next| == |l'.next| && l.Valid(|l.next|) && l'.Valid(|l.next|)
    && forall x :: x in s && x < |l.next| ==>
         l.next[x] == l'.next[x] && l.list[x] == l'.list[x] && l.parent[x] == l'.parent[x]
  }

  /** The links of the nodes outside s are the same. */
  ghost predicate SameOutside(l: Links, l': Links, s: set<Node>) {
    && |l.next| == |l'.next| && l.Valid(|l.next|) && l'.Valid(|l.next|)
    && forall x :: x !in s && 0 <= x < |l.next| ==>
         l.next[x] == l'.next[x] && l.list[x] == l'.list[x] && l.parent[x] == l'.parent[x]
  }

  lemma SameOutsideTwice(a: Links, b: Links, c: Links, s: set<Node>, s': set<Node>)
    requires SameOutside(a, b, s) && SameOutside(b, c, s') && s' <= s
    ensures SameOutside(a, c, s)
  {
  }

  lemma OutsideMore(a: Links, b: Links, s: set<Node>, s': set<Node>)
    requires SameOutside(a, b, s) && s <= s'
    ensures SameOutside(a, b, s')
  {
  }

  lemma SameOutsideItself(l: Links, s: set<Node>)
    requires l.Valid(|l.next|)
    ensures SameOutside(l, l, s)
  {
  }

  lemma OutsideAt(a: Links, b: Links, s: set<Node>, s': set<Node>)
    requires SameOutside(a, b, s) && s !! s'
    ensures SameAt(a, b, s')
  {
  }

  /** What a forest represents depends on its own nodes' links only. */
  lemma {:induction false} RepFrame(l: Links, l': Links, p: Option<Node>, f: Forest, up: Option<Node>,
                                    end: Option<Node>)
    requires Rep(l, p, f, up, end) && SameAt(l, l', Ids(f))
    ensures Rep(l', p, f, up, end)
    decreases f
  {
    if f.Cons? {
      RepFrame(l, l', l.list[f.id], f.kids, Some(f.id), None);
      RepFrame(l, l', l.next[f.id], f.rest, up, end);
    }
  }

  lemma {:induction false} RepAppend(l: Links, p: Option<Node>, f: Forest, g: Forest, up: Option<Node>,
                                     end: Option<Node>)
    ensures Rep(l, p, Append(f, g), up, end) <==>
      Rep(l, p, f, up, Head(g, end)) && Rep(l, Head(g, end), g, up, end)
    decreases f
  {
    if f.Nil? {
      if g.Cons? && Rep(l, p, g, up, end) {
        assert p == Some(g.id);
      }
    } else if f.id < |l.next| && l.Valid(|l.next|) {
      RepAppend(l, l.next[f.id], f.rest, g, up, end);
    }
  }

  lemma Associates(a: seq<Node>, b: seq<Node>, c: seq<Node>)
    ensures a + (b + c) == a + b + c
  {
  }

  lemma {:induction false} AppendPre(f: Forest, g: Forest)
    ensures Pre(Append(f, g)) == Pre(f) + Pre(g)
  {
    if f.Cons? {
      AppendPre(f.rest, g);
      Associates([f.id] + Pre(f.kids), Pre(f.rest), Pre(g));
    } else {
      assert [] + Pre(g) == Pre(g);
    }
  }

  lemma {:induction false} AppendIds(f: Forest, g: Forest)
    ensures Ids(Append(f, g)) == Ids(f) + Ids(g)
  {
    if f.Cons? {
      AppendIds(f.rest, g);
    }
  }

  lemma {:induction false} AppendDistinct(f: Forest, g: Forest)
    ensures Distinct(Append(f, g)) <==> Distinct(f) && Distinct(g) && Ids(f) !! Ids(g)
  {
    if f.Cons? {
      AppendDistinct(f.rest, g);
      AppendIds(f.rest, g);
    }
  }

  lemma {:induction false} AppendAssoc(f: Forest, g: Forest, h: Forest)
    ensures Append(Append(f, g), h) == Append(f, Append(g, h))
  {
    if f.Cons? {
      AppendAssoc(f.rest, g, h);
    }
  }

  /** The nodes of a forest are the elements of its preorder sequence. */
  lemma {:induction false} IdsOfPre(f: Forest)
    ensures forall x :: x in Ids(f) <==> x in Pre(f)
  {
    if f.Cons? {
      IdsOfPre(f.kids);
      IdsOfPre(f.rest);
    }
  }

  ghost predicate NoRepeats(s: seq<Node>) {
    forall i, j :: 0 <= i < j < |s| ==> s[i] != s[j]
  }

  lemma NoRepeatsConcat(a: seq<Node>, b: seq<Node>)
    ensures NoRepeats(a + b) <==> NoRepeats(a) && NoRepeats(b) && forall x :: x in a ==> x !in b
  {
    if NoRepeats(a) && NoRepeats(b) && forall x :: x in a ==> x !in b {
      forall i, j | 0 <= i < j < |a + b|
        ensures (a + b)[i] != (a + b)[j]
      {
        assert i < |a| ==> (a + b)[i] in a;
        assert j >= |a| ==> (a + b)[j] == b[j - |a|];
      }
    }
    if NoRepeats(a + b) {
      forall i, j | 0 <= i < j < |a|
        ensures a[i] != a[j]
      {
        assert (a + b)[i] == a[i] && (a + b)[j] == a[j];
      }
      forall i, j | 0 <= i < j < |b|
        ensures b[i] != b[j]
      {
        assert (a + b)[|a| + i] == b[i] && (a + b)[|a| + j] == b[j];
      }
      forall x | x in a
        ensures x !in b
      {
        var i :| 0 <= i < |a| && a[i] == x;
        forall j | 0 <= j < |b|
          ensures b[j] != x
        {
          assert (a + b)[i] == x && (a + b)[|a| + j] == b[j];
        }
      }
    }
  }

  /** Distinct forests are those whose preorder sequence has no repeats: the
      order alone decides. */
  lemma {:induction false} DistinctIsNoRepeats(f: Forest)
    ensures Distinct(f) <==> NoRepeats(Pre(f))
  {
    if f.Cons? {
      DistinctIsNoRepeats(f.kids);
      DistinctIsNoRepeats(f.rest);
      IdsOfPre(f.kids);
      IdsOfPre(f.rest);
      NoRepeatsConcat([f.id], Pre(f.kids));
      NoRepeatsConcat([f.id] + Pre(f.kids), Pre(f.rest));
    }
  }

  /** A forest with the same preorder sequence has the same nodes, once each. */
  lemma SamePre(f: Forest, g: Forest)
    requires Pre(f) == Pre(g)
    ensures Ids(f) == Ids(g) && (Distinct(f) <==> Distinct(g))
  {
    IdsOfPre(f);
    IdsOfPre(g);
    DistinctIsNoRepeats(f);
    DistinctIsNoRepeats(g);
    assert forall x :: x in Ids(f) <==> x in Ids(g);
  }

  // ----- suffixes and tops -----

  /** The top-level nodes. */
  ghost function Top(f: Forest): set<Node> {
    match f
    case Nil => {}
    case Cons(id, _, rest) => {id} + Top(rest)
  }

  /** The top-level nodes in order. */
  function Siblings(f: Forest): seq<Node> {
    match f
    case Nil => []
    case Cons(id, _, rest) => [id] + Siblings(rest)
  }

  /** g is what is left of f after some leading siblings. */
  ghost predicate IsSuffix(g: Forest, f: Forest) {
    g == f || (f.Cons? && IsSuffix(g, f.rest))
  }

  lemma {:induction false} SuffixTransitive(h: Forest, g: Forest, f: Forest)
    requires IsSuffix(h, g) && IsSuffix(g, f)
    ensures IsSuffix(h, f)
  {
    if g != f {
      SuffixTransitive(h, g, f.rest);
    }
  }

  lemma {:induction false} SiblingsTop(f: Forest)
    ensures forall x :: x in Siblings(f) <==> x in Top(f)
  {
    if f.Cons? {
      SiblingsTop(f.rest);
    }
  }

  /** Leading siblings that the suffix g lost are not in it. */
  lemma {:induction false} SiblingLost(g: Forest, f: Forest, k: nat)
    requires IsSuffix(g, f) && Distinct(f) && k < |Siblings(f)|
    ensures g.Nil? || g.id in Siblings(f)[..k + 1] || Siblings(f)[k] !in Ids(g)
    ensures g.Nil? ==> Siblings(f)[k] !in Ids(g)
  {
    if g != f {
      if k > 0 {
        SiblingLost(g, f.rest, k - 1);
        assert Siblings(f)[k] == Siblings(f.rest)[k - 1];
        assert Siblings(f)[..k + 1] == [f.id] + Siblings(f.rest)[..k];
      } else {
        SuffixInner(g, f.rest);
      }
    } else {
      assert Siblings(f)[..k + 1][0] == f.id;
    }
  }

  lemma {:induction false} TopIn(f: Forest)
    ensures Top(f) <= Ids(f)
  {
    if f.Cons? {
      TopIn(f.rest);
    }
  }

  lemma {:induction false} TopAppend(f: Forest, g: Forest)
    ensures Top(Append(f, g)) == Top(f) + Top(g)
  {
    if f.Cons? {
      TopAppend(f.rest, g);
    }
  }

  /** Nodes below the top of a suffix are below the top of the whole. */
  lemma {:induction false} SuffixInner(g: Forest, f: Forest)
    requires IsSuffix(g, f) && Distinct(f)
    ensures Ids(g) <= Ids(f) && Top(g) <= Top(f) && Distinct(g)
    ensures Ids(g) - Top(g) <= Ids(f) - Top(f)
  {
    if g != f {
      SuffixInner(g, f.rest);
    }
  }

  /** Only nodes in T have children. */
  ghost predicate AllTitled(f: Forest, T: set<Node>) {
    f.Cons? ==> (f.kids.Cons? ==> f.id in T) && AllTitled(f.kids, T) && AllTitled(f.rest, T)
  }

  /** Below the top level, only nodes in T have children. */
  ghost predicate KidsTitled(f: Forest, T: set<Node>) {
    f.Cons? ==> AllTitled(f.kids, T) && KidsTitled(f.rest, T)
  }

  lemma {:induction false} TitledAppend(f: Forest, g: Forest, T: set<Node>)
    ensures AllTitled(Append(f, g), T) <==> AllTitled(f, T) && AllTitled(g, T)
    ensures KidsTitled(Append(f, g), T) <==> KidsTitled(f, T) && KidsTitled(g, T)
  {
    if f.Cons? {
      TitledAppend(f.rest, g, T);
    }
  }

  lemma {:induction false} TitledKids(f: Forest, T: set<Node>)
    requires AllTitled(f, T)
    ensures KidsTitled(f, T)
  {
    if f.Cons? {
      TitledKids(f.rest, T);
    }
  }

  // ----- what is below what -----

  /** x is somewhere below m. */
  ghost predicate IsUnder(f: Forest, m: Node, x: Node) {
    f.Cons? && ((f.id == m && x in Ids(f.kids)) || IsUnder(f.kids, m, x) || IsUnder(f.rest, m, x))
  }

  /** What is below a node of T in f is below it in g. */
  ghost predicate StaysUnder(f: Forest, g: Forest, T: set<Node>) {
    forall m, x :: m in T && IsUnder(f, m, x) ==> IsUnder(g, m, x)
  }

  lemma StaysItself(f: Forest, T: set<Node>)
    ensures StaysUnder(f, f, T)
  {
  }

  lemma StaysTwice(f: Forest, g: Forest, h: Forest, T: set<Node>)
    requires StaysUnder(f, g, T) && StaysUnder(g, h, T)
    ensures StaysUnder(f, h, T)
  {
    hide IsUnder;
  }

  lemma {:induction false} BelowAppend(f: Forest, g: Forest, m: Node, x: Node)
    ensures IsUnder(Append(f, g), m, x) <==> IsUnder(f, m, x) || IsUnder(g, m, x)
  {
    if f.Cons? {
      BelowAppend(f.rest, g, m, x);
    }
  }

  /** The end b of a row became g. */
  lemma StaysEnd(f: Forest, a: Forest, b: Forest, g: Forest, T: set<Node>)
    requires StaysUnder(f, Append(a, b), T) && StaysUnder(b, g, T)
    ensures StaysUnder(f, Append(a, g), T) && StaysUnder(Append(a, b), Append(a, g), T)
  {
    hide IsUnder, Append;
    forall m, x | m in T && IsUnder(Append(a, b), m, x)
      ensures IsUnder(Append(a, g), m, x)
    {
      BelowAppend(a, b, m, x);
      BelowAppend(a, g, m, x);
    }
  }

  /** The siblings behind a leaf p became a, its children, and b. */
  lemma StaysAbsorbed(p: Node, r: Forest, a: Forest, b: Forest, T: set<Node>)
    requires StaysUnder(r, Append(a, b), T)
    ensures StaysUnder(Cons(p, Nil, r), Cons(p, a, b), T) && StaysUnder(Append(a, b), Cons(p, a, b), T)
  {
    hide Append;
    forall m, x | m in T && IsUnder(Append(a, b), m, x)
      ensures IsUnder(Cons(p, a, b), m, x)
    {
      BelowAppend(a, b, m, x);
    }
    forall m, x | m in T && IsUnder(Cons(p, Nil, r), m, x)
      ensures IsUnder(Cons(p, a, b), m, x)
    {
      assert !IsUnder(Nil, m, x) && Ids(Nil) == {};
      assert IsUnder(Append(a, b), m, x);
    }
  }

  /** The children k of p became a, with the same nodes. */
  lemma StaysChildren(p: Node, k: Forest, a: Forest, r: Forest, T: set<Node>)
    requires StaysUnder(k, a, T) && Ids(a) == Ids(k)
    ensures StaysUnder(Cons(p, k, r), Cons(p, a, r), T) && StaysUnder(a, Cons(p, a, r), T)
  {
  }

  /** A node outside T gave its children to its parent. */
  lemma StaysReleased(m: Node, k: Forest, r: Forest, T: set<Node>)
    requires m !in T
    ensures StaysUnder(Cons(m, k, r), Cons(m, Nil, Append(k, r)), T)
  {
    hide Append;
    forall n, x | n in T && IsUnder(Cons(m, k, r), n, x)
      ensures IsUnder(Cons(m, Nil, Append(k, r)), n, x)
    {
      BelowAppend(k, r, n, x);
    }
  }

  // ----- surgery -----

  /** The last top-level node. */
  function Last(f: Forest): Node
    requires f.Cons?
  {
    if f.rest.Nil? then f.id else Last(f.rest)
  }

  lemma {:induction false} LastIn(f: Forest)
    requires f.Cons?
    ensures Last(f) in Ids(f)
  {
    if f.rest.Cons? {
      LastIn(f.rest);
    }
  }

  lemma {:induction false} LastAppend(f: Forest, g: Forest)
    requires g.Cons?
    ensures Append(f, g).Cons? && Last(Append(f, g)) == Last(g)
  {
    if f.Cons? {
      LastAppend(f.rest, g);
    }
  }

  lemma {:induction false} LastLinks(l: Links, p: Option<Node>, f: Forest, up: Option<Node>, end: Option<Node>)
    requires f.Cons? && Rep(l, p, f, up, end)
    ensures Last(f) < |l.next| && l.next[Last(f)] == end
    decreases f
  {
    if f.rest.Cons? {
      LastLinks(l, l.next[f.id], f.rest, up, end);
    }
  }

  /** Pointing the last sibling elsewhere moves the end of the segment. */
  lemma {:induction false} Relink(l: Links, l': Links, p: Option<Node>, f: Forest, up: Option<Node>,
                                  end: Option<Node>, end': Option<Node>)
    requires f.Cons? && Rep(l, p, f, up, end) && Distinct(f) && Last(f) < |l.next|
    requires SameAt(l, l', Ids(f) - {Last(f)})
    requires l'.list[Last(f)] == l.list[Last(f)] && l'.parent[Last(f)] == l.parent[Last(f)] && l'.next[Last(f)] == end'
    ensures Rep(l', p, f, up, end')
    decreases f
  {
    if f.rest.Nil? {
      RepFrame(l, l', l.list[f.id], f.kids, Some(f.id), None);
    } else {
      LastIn(f.rest);
      RepFrame(l, l', l.list[f.id], f.kids, Some(f.id), None);
      Relink(l, l', l.next[f.id], f.rest, up, end, end');
    }
  }

  // ----- steps of menu_finalize -----

  /** The next sibling m is moved behind the segment a, under p. */
  lemma AbsorbStep(l: Links, l1: Links, l2: Links, np: Option<Node>, p: Node, a: Forest, b: Forest, g: Forest,
                   up: Option<Node>)
    requires g.Cons? && b.Cons? && Ids(b) == Ids(g) && Distinct(g) && Ids(a) !! Ids(b)
    requires Rep(l, np, a, Some(p), Some(g.id)) && SameOutside(l, l1, Ids(b))
    requires Rep(l1, Some(g.id), g, up, None)
    requires l2 == l1.(parent := l1.parent[g.id := Some(p)])
    ensures Rep(l2, np, Append(a, Cons(g.id, g.kids, Nil)), Some(p), l2.next[g.id])
    ensures Rep(l2, l2.next[g.id], g.rest, up, None)
    ensures SameOutside(l, l2, Ids(b))
  {
    var m := g.id;
    RepFrame(l, l2, np, a, Some(p), Some(m));
    RepFrame(l1, l2, l1.list[m], g.kids, Some(m), None);
    RepFrame(l1, l2, l1.next[m], g.rest, up, None);
    RepAppend(l2, np, a, Cons(m, g.kids, Nil), Some(p), l2.next[m]);
  }

  /** The absorbed siblings a become the children of p. */
  lemma AbsorbFinish(l: Links, l': Links, p: Node, a: Forest, b: Forest, up: Option<Node>)
    requires a.Cons? && Distinct(Cons(p, a, b)) && p < |l.next| && l.Valid(|l.next|) && l.parent[p] == up
    requires Last(a) < |l.next|
    requires Rep(l, l.next[p], a, Some(p), Head(b, None)) && Rep(l, Head(b, None), b, up, None)
    requires l' == l.(list := l.list[p := l.next[p]], next := l.next[p := l.next[Last(a)]][Last(a) := None])
    ensures Rep(l', Some(p), Cons(p, a, b), up, None)
  {
    LastIn(a);
    LastLinks(l, l.next[p], a, Some(p), Head(b, None));
    Relink(l, l', l.next[p], a, Some(p), Head(b, None), None);
    RepFrame(l, l', Head(b, None), b, up, None);
  }

  /** The child m of p is done and the next one follows. */
  lemma ChildStep(l: Links, l': Links, start: Option<Node>, a: Forest, b: Forest, g: Forest, up: Option<Node>)
    requires g.Cons? && Ids(b) == Ids(g) && Distinct(g) && Ids(a) !! Ids(b)
    requires Rep(l, start, a, up, Some(g.id)) && SameOutside(l, l', Ids(b))
    requires Rep(l', Some(g.id), g, up, None)
    ensures Rep(l', start, Append(a, Cons(g.id, g.kids, Nil)), up, l'.next[g.id])
    ensures Rep(l', l'.next[g.id], g.rest, up, None)
  {
    RepFrame(l, l', start, a, up, Some(g.id));
    RepAppend(l', start, a, Cons(g.id, g.kids, Nil), up, l'.next[g.id]);
  }

  /** The children c of a hidden menu m become its next siblings. */
  lemma HoistStep(l: Links, l': Links, m: Node, c: Forest, r: Forest, up: Option<Node>)
    requires c.Cons? && Distinct(Cons(m, c, r)) && m < |l.next| && l.Valid(|l.next|) && l.parent[m] == up
    requires Last(c) < |l.next|
    requires Rep(l, l.list[m], c, up, None) && Rep(l, l.next[m], r, up, None)
    requires l' == l.(next := l.next[Last(c) := l.next[m]][m := l.list[m]], list := l.list[m := None])
    ensures Rep(l', Some(m), Cons(m, Nil, Append(c, r)), up, None)
  {
    LastIn(c);
    Relink(l, l', l.list[m], c, up, None, l.next[m]);
    RepFrame(l, l', l.next[m], r, up, None);
    RepHead(l, l.next[m], r, up, None);
    RepAppend(l', l.list[m], c, r, up, None);
  }

  lemma RepHead(l: Links, p: Option<Node>, f: Forest, up: Option<Node>, end: Option<Node>)
    requires Rep(l, p, f, up, end)
    ensures p == Head(f, end)
  {
  }

  /** A leaf and its following siblings. */
  ghost predicate LeafFirst(p: Node, f: Forest) {
    f.Cons? && f.id == p && f.kids == Nil && Distinct(f)
  }

  /** Between two rounds of absorption: of the siblings after p, those in a are
      p's already, though still linked as siblings, and those in b are not. */
  ghost predicate Absorbing(l: Links, p: Node, f: Forest, a: Forest, b: Forest, up: Option<Node>,
                            menu: Option<Node>, last: Option<Node>)
    requires f.Cons?
  {
    && p < |l.next| && l.Valid(|l.next|) && l.parent[p] == up && l.list[p] == None
    && Rep(l, l.next[p], a, Some(p), menu) && Rep(l, menu, b, up, None)
    && Pre(Append(a, b)) == Pre(f.rest) && IsSuffix(b, f.rest)
    && last == (if a.Nil? then None else Some(Last(a)))
  }

  lemma AbsorbingStart(l: Links, p: Node, f: Forest, up: Option<Node>)
    requires LeafFirst(p, f) && Rep(l, Some(p), f, up, None)
    ensures Absorbing(l, p, f, Nil, f.rest, up, l.next[p], None)
  {
  }

  /** The children a and the siblings b of p hold what the siblings of p held. */
  lemma AdoptionParts(p: Node, f: Forest, a: Forest, b: Forest)
    requires LeafFirst(p, f) && Pre(Append(a, b)) == Pre(f.rest)
    ensures Pre(Cons(p, a, b)) == Pre(f) && Distinct(Cons(p, a, b))
    ensures Ids(a) + Ids(b) == Ids(f.rest) && |Pre(b)| < |Pre(f)|
  {
    hide Distinct, NoRepeats;
    AppendPre(a, b);
    AppendIds(a, b);
    SamePre(Append(a, b), f.rest);
    Associates([p], Pre(a), Pre(b));
    assert [p] + [] == [p];
    SamePre(Cons(p, a, b), f);
  }

  lemma AbsorbingParts(l: Links, p: Node, f: Forest, a: Forest, b: Forest, up: Option<Node>, menu: Option<Node>,
                       last: Option<Node>)
    requires LeafFirst(p, f) && Absorbing(l, p, f, a, b, up, menu, last)
    ensures Distinct(Cons(p, a, b)) && Pre(Cons(p, a, b)) == Pre(f) && Ids(a) + Ids(b) == Ids(f.rest)
    ensures menu == Head(b, None) && |Pre(b)| < |Pre(f)| && IsSuffix(b, f.rest) && Distinct(b)
    ensures Ids(b) - Top(b) <= Ids(f) - Top(f)
    ensures a.Cons? ==> last == Some(Last(a)) && Last(a) < |l.next|
    ensures a.Nil? ==> last == None && Rep(l, Some(p), Cons(p, a, b), up, None)
  {
    hide Pre, Ids, Distinct;
    AdoptionParts(p, f, a, b);
    SuffixInner(b, f) by { assert IsSuffix(b, f.rest); }
    RepHead(l, menu, b, up, None);
    RepHead(l, l.next[p], a, Some(p), menu);
    if a.Cons? {
      LastLinks(l, l.next[p], a, Some(p), menu);
    }
  }

  /** Moving the head of a forest to the end of another. */
  lemma MoveHead(a: Forest, b: Forest, g: Forest)
    requires g.Cons? && Pre(g) == Pre(b)
    ensures Pre(Append(Append(a, Cons(g.id, g.kids, Nil)), g.rest)) == Pre(Append(a, b))
  {
    hide Pre;
    AppendAssoc(a, Cons(g.id, g.kids, Nil), g.rest);
    AppendPre(a, g);
    AppendPre(a, b);
  }

  lemma AbsorbingStep(l: Links, l1: Links, l2: Links, p: Node, f: Forest, a: Forest, b: Forest, g: Forest,
                      up: Option<Node>,
                      m: Node, last: Option<Node>)
    requires LeafFirst(p, f) && Absorbing(l, p, f, a, b, up, Some(m), last)
    requires g.Cons? && g.id == m && Pre(g) == Pre(b) && Rep(l1, Some(m), g, up, None)
    requires b.Cons? && IsSuffix(g.rest, b.rest)
    requires SameOutside(l, l1, Ids(b)) && l2 == l1.(parent := l1.parent[m := Some(p)])
    ensures Absorbing(l2, p, f, Append(a, Cons(m, g.kids, Nil)), g.rest, up, l2.next[m], Some(m))
    ensures SameOutside(l, l2, Ids(f.rest))
  {
    hide Rep, SameAt, Pre, IsSuffix, Distinct, Ids, Last;
    AbsorbingParts(l, p, f, a, b, up, Some(m), last);
    DistinctApart(p, a, b);
    HeadIn(b);
    SamePre(g, b);
    AbsorbStep(l, l1, l2, l.next[p], p, a, b, g, up);
    MoveHead(a, b, g);
    LastAppend(a, Cons(m, g.kids, Nil));
    LastOne(m, g.kids);
    RestSuffix(g.rest, b);
    SuffixTransitive(g.rest, b, f.rest);
  }

  lemma LeafIds(p: Node, f: Forest)
    requires LeafFirst(p, f)
    ensures Ids(f) == {p} + Ids(f.rest)
  {
  }

  lemma DistinctApart(p: Node, a: Forest, b: Forest)
    requires Distinct(Cons(p, a, b))
    ensures p !in Ids(a) && p !in Ids(b) && Ids(a) !! Ids(b)
  {
  }

  lemma HeadIn(f: Forest)
    requires f.Cons?
    ensures f.id in Ids(f)
  {
  }

  lemma LastOne(m: Node, kids: Forest)
    ensures Last(Cons(m, kids, Nil)) == m
  {
  }

  lemma RestSuffix(h: Forest, f: Forest)
    requires f.Cons? && IsSuffix(h, f.rest)
    ensures IsSuffix(h, f)
  {
  }

  lemma AbsorbingEnd(l: Links, l': Links, p: Node, f: Forest, a: Forest, b: Forest, up: Option<Node>,
                     menu: Option<Node>, last: Node)
    requires LeafFirst(p, f) && Absorbing(l, p, f, a, b, up, menu, Some(last)) && last < |l.next|
    requires l' == l.(list := l.list[p := l.next[p]], next := l.next[p := l.next[last]][last := None])
    ensures Rep(l', Some(p), Cons(p, a, b), up, None)
    ensures SameOutside(l, l', Ids(f))
  {
    hide Rep, SameAt, Pre, IsSuffix, Distinct, Ids, Last;
    AbsorbingParts(l, p, f, a, b, up, menu, Some(last));
    LastIn(a);
    LeafIds(p, f);
    AbsorbFinish(l, l', p, a, b, up);
  }

  // ----- passes over a child list -----

  /** A pass over children: a is behind, b is ahead. */
  ghost predicate Passing(l: Links, start: Option<Node>, k: Forest, a: Forest, b: Forest, up: Option<Node>,
                          menu: Option<Node>) {
    && Rep(l, start, a, up, menu) && Rep(l, menu, b, up, None)
    && Pre(Append(a, b)) == Pre(k) && Distinct(k)
  }

  lemma PassingStart(l: Links, start: Option<Node>, k: Forest, up: Option<Node>)
    requires Rep(l, start, k, up, None) && Distinct(k)
    ensures Passing(l, start, k, Nil, k, up, start)
  {
  }

  lemma PassingParts(l: Links, start: Option<Node>, k: Forest, a: Forest, b: Forest, up: Option<Node>,
                     menu: Option<Node>)
    requires Passing(l, start, k, a, b, up, menu)
    ensures menu == Head(b, None) && Distinct(a) && Distinct(b) && Ids(a) !! Ids(b) && Ids(a) + Ids(b) == Ids(k)
    ensures |Pre(b)| <= |Pre(k)|
    ensures b.Nil? ==> Rep(l, start, a, up, None) && Pre(a) == Pre(k)
  {
    hide Ids, NoRepeats;
    RepHead(l, menu, b, up, None);
    AppendPre(a, b);
    AppendIds(a, b);
    AppendDistinct(a, b);
    SamePre(Append(a, b), k);
  }

  /** The head of what is ahead has been dealt with, and its order kept. */
  lemma PassingStep(l: Links, l': Links, start: Option<Node>, k: Forest, a: Forest, b: Forest, g: Forest,
                    up: Option<Node>, m: Node)
    requires Passing(l, start, k, a, b, up, Some(m))
    requires g.Cons? && g.id == m && Pre(g) == Pre(b) && Rep(l', Some(m), g, up, None)
    requires SameOutside(l, l', Ids(b))
    ensures m < |l'.next| && l'.Valid(|l'.next|)
    ensures Passing(l', start, k, Append(a, Cons(m, g.kids, Nil)), g.rest, up, l'.next[m])
    ensures SameOutside(l, l', Ids(k)) && |Pre(g.rest)| < |Pre(b)|
  {
    hide SameAt, Ids, Distinct;
    PassingParts(l, start, k, a, b, up, Some(m));
    SamePre(g, b);
    ChildStep(l, l', start, a, b, g, up);
    MoveHead(a, b, g);
  }

  /** Handing the children c of m, one by one, to m's own parent. */
  lemma HandOverStep(l: Links, l': Links, start: Option<Node>, c: Forest, d: Forest, up: Option<Node>, m: Node)
    requires d.Cons? && Rep(l, start, c, up, Some(d.id)) && Rep(l, Some(d.id), d, Some(m), None)
    requires Distinct(d) && Ids(c) !! Ids(d) && d.id < |l.parent|
    requires l' == l.(parent := l.parent[d.id := up])
    ensures Rep(l', start, Append(c, Cons(d.id, d.kids, Nil)), up, l'.next[d.id])
    ensures Rep(l', l'.next[d.id], d.rest, Some(m), None)
  {
    RepFrame(l, l', start, c, up, Some(d.id));
    RepFrame(l, l', l.list[d.id], d.kids, Some(d.id), None);
    RepFrame(l, l', l.next[d.id], d.rest, Some(m), None);
    RepAppend(l', start, c, Cons(d.id, d.kids, Nil), up, l'.next[d.id]);
  }

  // ----- what finalizing one menu does to the links -----

  /** p and its following siblings, whole. */
  ghost predicate Whole(l: Links, p: Node, f: Forest, up: Option<Node>) {
    f.Cons? && f.id == p && p < |l.next| && Rep(l, Some(p), f, up, None) && Distinct(f)
  }

  /** From l to l', the forest f under `up` became g: the same order, the menus
      after p untouched except that some leading ones went under p, and below p
      only menus in T have children. */
  ghost predicate Reshaped(l: Links, l': Links, p: Node, f: Forest, g: Forest, up: Option<Node>, T: set<Node>) {
    && f.Cons? && g.Cons? && g.id == p && Pre(g) == Pre(f) && Rep(l', Some(p), g, up, None)
    && IsSuffix(g.rest, f.rest) && AllTitled(g.kids, T)
    && SameOutside(l, l', Ids(f))
  }

  lemma AbsorbingHead(l: Links, p: Node, f: Forest, a: Forest, b: Forest, up: Option<Node>, m: Node, last: Option<Node>)
    requires LeafFirst(p, f) && Absorbing(l, p, f, a, b, up, Some(m), last)
    ensures Whole(l, m, b, up) && |Pre(b)| < |Pre(f)| && Ids(b) - Top(b) <= Ids(f) - Top(f)
    ensures p !in Ids(b) && m in Top(b) && Ids(a) !! Ids(b) && Ids(b) <= Ids(f)
  {
    hide Pre, SameAt, IsSuffix;
    AbsorbingParts(l, p, f, a, b, up, Some(m), last);
  }

  lemma AbsorbingNext(l: Links, l1: Links, l2: Links, p: Node, f: Forest, a: Forest, b: Forest, g: Forest,
                      up: Option<Node>,
                      m: Node, last: Option<Node>, T: set<Node>)
    requires LeafFirst(p, f) && Absorbing(l, p, f, a, b, up, Some(m), last) && KidsTitled(a, T)
    requires b.Cons? && Reshaped(l, l1, m, b, g, up, T) && m < |l1.parent|
    requires l2 == l1.(parent := l1.parent[m := Some(p)])
    ensures l2.Valid(|l2.next|) && m < |l2.next|
    ensures Absorbing(l2, p, f, Append(a, Cons(m, g.kids, Nil)), g.rest, up, l2.next[m], Some(m))
    ensures SameOutside(l, l2, Ids(f)) && |Pre(g.rest)| < |Pre(b)|
    ensures KidsTitled(Append(a, Cons(m, g.kids, Nil)), T)
    ensures Top(Append(a, Cons(m, g.kids, Nil))) == Top(a) + {m}
  {
    hide Rep, SameAt, Absorbing, IsSuffix, Distinct, AllTitled;
    AbsorbingStep(l, l1, l2, p, f, a, b, g, up, m, last);
    TitledAppend(a, Cons(m, g.kids, Nil), T);
    TopAppend(a, Cons(m, g.kids, Nil));
    OutsideMore(l, l2, Ids(f.rest), Ids(f));
    RepLinks(l1, Some(m), g, up, None);
  }

  lemma RepLinks(l: Links, p: Option<Node>, f: Forest, up: Option<Node>, end: Option<Node>)
    requires f.Cons? && Rep(l, p, f, up, end)
    ensures p == Some(f.id) && f.id < |l.next| && l.Valid(|l.next|)
    ensures l.parent[f.id] == up
    ensures Rep(l, l.list[f.id], f.kids, Some(f.id), None) && Rep(l, l.next[f.id], f.rest, up, end)
  {
  }

  /** The same before the last step: the children of p may still be hidden
      menus with children of their own. */
  ghost predicate Regrown(l: Links, l': Links, p: Node, f: Forest, g: Forest, up: Option<Node>, T: set<Node>) {
    && f.Cons? && g.Cons? && g.id == p && Pre(g) == Pre(f) && Rep(l', Some(p), g, up, None)
    && IsSuffix(g.rest, f.rest) && KidsTitled(g.kids, T)
    && SameOutside(l, l', Ids(f))
  }

  lemma WholeAbsorbing(l: Links, p: Node, f: Forest, up: Option<Node>)
    requires LeafFirst(p, f) && Whole(l, p, f, up)
    ensures Absorbing(l, p, f, Nil, f.rest, up, l.next[p], None)
    ensures l.Valid(|l.next|) && SameOutside(l, l, Ids(f))
  {
    hide Rep;
    AbsorbingStart(l, p, f, up);
    RepLinks(l, Some(p), f, up, None);
  }

  /** Absorption ended without taking anything. */
  lemma AbsorbedNothing(l0: Links, l: Links, p: Node, f: Forest, a: Forest, b: Forest, up: Option<Node>,
                        menu: Option<Node>, T: set<Node>)
    requires LeafFirst(p, f) && Absorbing(l, p, f, a, b, up, menu, None) && SameOutside(l0, l, Ids(f))
    requires KidsTitled(a, T)
    ensures Regrown(l0, l, p, f, Cons(p, a, b), up, T)
  {
    hide Rep, Pre;
    AbsorbingParts(l, p, f, a, b, up, menu, None);
  }

  lemma AbsorbedSome(l0: Links, l: Links, l': Links, p: Node, f: Forest, a: Forest, b: Forest, up: Option<Node>,
                     menu: Option<Node>,
                     last: Node, T: set<Node>)
    requires LeafFirst(p, f) && Absorbing(l, p, f, a, b, up, menu, Some(last)) && SameOutside(l0, l, Ids(f))
    requires KidsTitled(a, T)
    requires last < |l.next|
    requires l' == l.(list := l.list[p := l.next[p]], next := l.next[p := l.next[last]][last := None])
    ensures Regrown(l0, l', p, f, Cons(p, a, b), up, T)
  {
    hide Rep, Pre, SameOutside;
    AbsorbingParts(l, p, f, a, b, up, menu, Some(last));
    AbsorbingEnd(l, l', p, f, a, b, up, menu, last);
    SameOutsideTwice(l0, l, l', Ids(f), Ids(f));
  }

  lemma AbsorbingLast(l: Links, p: Node, f: Forest, a: Forest, b: Forest, up: Option<Node>, menu: Option<Node>,
                      last: Option<Node>)
    requires LeafFirst(p, f) && Absorbing(l, p, f, a, b, up, menu, last)
    ensures last.Some? ==> last.value < |l.next|
    ensures p < |l.next| && l.Valid(|l.next|)
  {
    hide Rep, Pre;
    AbsorbingParts(l, p, f, a, b, up, menu, last);
  }

  // ----- the children of one menu -----

  lemma WholeParts(l: Links, p: Node, f: Forest, up: Option<Node>)
    requires Whole(l, p, f, up)
    ensures f.Cons? && f.id == p && p < |l.next| && l.Valid(|l.next|) && l.parent[p] == up
    ensures Rep(l, l.list[p], f.kids, Some(p), None) && Rep(l, l.next[p], f.rest, up, None)
    ensures Distinct(f.kids) && Distinct(f.rest) && p !in Ids(f.kids) && p !in Ids(f.rest) && Ids(f.kids) !! Ids(f.rest)
    ensures Ids(f.kids) <= Ids(f) && |Pre(f.kids)| < |Pre(f)|
    ensures l.list[p] == Head(f.kids, None)
  {
    RepHead(l, l.list[p], f.kids, Some(p), None);
  }

  lemma PassingHead(l: Links, start: Option<Node>, k: Forest, a: Forest, b: Forest, up: Option<Node>, m: Node)
    requires Passing(l, start, k, a, b, up, Some(m))
    ensures Whole(l, m, b, up) && |Pre(b)| <= |Pre(k)| && Ids(b) <= Ids(k)
  {
    hide Pre, Distinct;
    PassingParts(l, start, k, a, b, up, Some(m));
    RepLinks(l, Some(m), b, up, None);
  }

  /** One more child has been finalized. */
  lemma PassingNext(l0: Links, l: Links, l': Links, start: Option<Node>, k: Forest, a: Forest, b: Forest, g: Forest,
                    p: Node, m: Node, T: set<Node>)
    requires Passing(l, start, k, a, b, Some(p), Some(m)) && KidsTitled(a, T) && IsSuffix(b, k)
    requires b.Cons? && Reshaped(l, l', m, b, g, Some(p), T) && SameOutside(l0, l, Ids(k))
    ensures m < |l'.next| && l'.Valid(|l'.next|)
    ensures Passing(l', start, k, Append(a, Cons(m, g.kids, Nil)), g.rest, Some(p), l'.next[m])
    ensures KidsTitled(Append(a, Cons(m, g.kids, Nil)), T) && IsSuffix(g.rest, k)
    ensures SameOutside(l0, l', Ids(k)) && |Pre(g.rest)| < |Pre(b)|
    ensures Distinct(k) && Ids(b) - Top(b) <= Ids(k) - Top(k)
  {
    PassingDistinct(l, start, k, a, b, Some(p), Some(m));
    SuffixInner(b, k);
    hide Passing, Rep, AllTitled, Pre, SameOutside, Distinct;
    PassingStep(l, l', start, k, a, b, g, Some(p), m);
    TitledAppend(a, Cons(m, g.kids, Nil), T);
    SuffixTransitive(g.rest, b, k) by { assert IsSuffix(g.rest, b); }
    SameOutsideTwice(l0, l, l', Ids(k), Ids(k));
  }

  lemma PassingDistinct(l: Links, start: Option<Node>, k: Forest, a: Forest, b: Forest, up: Option<Node>,
                        menu: Option<Node>)
    requires Passing(l, start, k, a, b, up, menu)
    ensures Distinct(k)
  {
  }

  /** All children of p have been dealt with; nothing else changed. */
  lemma PassedAll(l0: Links, l: Links, p: Node, f: Forest, a: Forest, b: Forest, up: Option<Node>)
    requires Whole(l0, p, f, up) && SameOutside(l0, l, Ids(f.kids))
    requires p < |l0.list| && Passing(l, l0.list[p], f.kids, a, b, Some(p), None)
    ensures Rep(l, Some(p), Cons(p, a, f.rest), up, None) && Pre(Cons(p, a, f.rest)) == Pre(f)
    ensures SameOutside(l0, l, Ids(f)) && Distinct(Cons(p, a, f.rest)) && Ids(a) == Ids(f.kids)
  {
    WholeParts(l0, p, f, up);
    PassingParts(l, l0.list[p], f.kids, a, b, Some(p), None);
    OutsideAt(l0, l, Ids(f.kids), Ids(f.rest));
    RepFrame(l0, l, l0.next[p], f.rest, up, None);
    SamePre(a, f.kids);
  }

  lemma ChildrenFinalized(l0: Links, l: Links, p: Node, f: Forest, a: Forest, b: Forest, up: Option<Node>, T: set<Node>)
    requires Whole(l0, p, f, up) && SameOutside(l0, l, Ids(f.kids)) && KidsTitled(a, T)
    requires p < |l0.list| && Passing(l, l0.list[p], f.kids, a, b, Some(p), None)
    ensures Regrown(l0, l, p, f, Cons(p, a, f.rest), up, T)
  {
    hide Rep, Pre, SameOutside, Passing;
    PassedAll(l0, l, p, f, a, b, up);
  }

  lemma ChildrenHoisted(l0: Links, l: Links, p: Node, f: Forest, a: Forest, b: Forest, up: Option<Node>, T: set<Node>)
    requires Whole(l0, p, f, up) && SameOutside(l0, l, Ids(f.kids)) && AllTitled(a, T)
    requires p < |l0.list| && Passing(l, l0.list[p], f.kids, a, b, Some(p), None)
    ensures Reshaped(l0, l, p, f, Cons(p, a, f.rest), up, T)
  {
    hide Rep, Pre, SameOutside, Passing, AllTitled;
    PassedAll(l0, l, p, f, a, b, up);
  }

  /** The two halves of menu_finalize together. */
  lemma RegrownThenHoisted(l0: Links, l1: Links, l2: Links, p: Node, f: Forest, f1: Forest, f2: Forest,
                           up: Option<Node>, T: set<Node>)
    requires Regrown(l0, l1, p, f, f1, up, T) && Reshaped(l1, l2, p, f1, f2, up, T) && f2.rest == f1.rest
    ensures Reshaped(l0, l2, p, f, f2, up, T)
  {
    hide Rep, Pre, SameOutside, AllTitled;
    SamePre(f1, f);
    SameOutsideTwice(l0, l1, l2, Ids(f), Ids(f1));
  }

  lemma RegrownWhole(l0: Links, l1: Links, p: Node, f: Forest, f1: Forest, up: Option<Node>, T: set<Node>)
    requires Regrown(l0, l1, p, f, f1, up, T) && Distinct(f)
    ensures Whole(l1, p, f1, up) && KidsTitled(f1.kids, T)
  {
    hide Pre, SameOutside, AllTitled;
    SamePre(f1, f);
    RepLinks(l1, Some(p), f1, up, None);
  }

  lemma NothingRegrown(l: Links, p: Node, f: Forest, up: Option<Node>, T: set<Node>)
    requires Whole(l, p, f, up) && f.kids == Nil
    ensures Regrown(l, l, p, f, f, up, T)
  {
    WholeParts(l, p, f, up);
  }

  /** A hidden menu gives its children to its parent. */
  lemma HoistRound(l: Links, l1: Links, l2: Links, m: Node, b: Forest, p: Node, T: set<Node>)
    requires Whole(l, m, b, Some(p)) && b.kids.Cons? && KidsTitled(b, T)
    requires l1.next == l.next && l1.list == l.list && SameOutside(l, l1, Ids(b.kids))
    requires m < |l.list| && Rep(l1, l.list[m], b.kids, Some(p), None) && Last(b.kids) < |l1.next|
    requires l2 == l1.(next := l1.next[Last(b.kids) := l1.next[m]][m := l1.list[m]], list := l1.list[m := None])
    ensures Rep(l2, Some(m), Cons(m, Nil, Append(b.kids, b.rest)), Some(p), None)
    ensures Pre(Cons(m, Nil, Append(b.kids, b.rest))) == Pre(b)
    ensures KidsTitled(Append(b.kids, b.rest), T) && SameOutside(l, l2, Ids(b))
  {
    WholeParts(l, m, b, Some(p));
    HoistParts(m, b);
    SameOutsideBoth(l, l1, l2, m, b);
    hide Rep, AllTitled, SameAt, SameOutside, Distinct, KidsTitled;
    OutsideAt(l, l1, Ids(b.kids), Ids(b.rest));
    RepFrame(l, l1, l.next[m], b.rest, Some(p), None);
    LastIn(b.kids);
    HoistStep(l1, l2, m, b.kids, b.rest, Some(p));
    AppendPre(b.kids, b.rest);
    HoistedPre(m, Pre(b.kids), Pre(b.rest));
    TitledAppend(b.kids, b.rest, T);
    TitledKids(b.kids, T);
  }

  lemma HoistParts(m: Node, b: Forest)
    requires b.Cons? && b.id == m && Distinct(b)
    ensures Distinct(Cons(m, b.kids, b.rest)) && Ids(b.kids) !! Ids(b.rest)
    ensures Pre(b) == [m] + Pre(b.kids) + Pre(b.rest)
    ensures Pre(Cons(m, Nil, Append(b.kids, b.rest))) == [m] + [] + Pre(Append(b.kids, b.rest))
  {
  }

  lemma SameOutsideBoth(l: Links, l1: Links, l2: Links, m: Node, b: Forest)
    requires b.Cons? && b.id == m && b.kids.Cons? && m < |l.list| && l.Valid(|l.next|) && m !in Ids(b.kids)
    requires l1.next == l.next && l1.list == l.list && SameOutside(l, l1, Ids(b.kids)) && Last(b.kids) < |l1.next|
    requires l2 == l1.(next := l1.next[Last(b.kids) := l1.next[m]][m := l1.list[m]], list := l1.list[m := None])
    ensures SameOutside(l, l2, Ids(b)) && l1.Valid(|l1.next|) && l1.parent[m] == l.parent[m]
  {
    LastIn(b.kids);
  }

  lemma HoistedPre(m: Node, a: seq<Node>, b: seq<Node>)
    ensures [m] + [] + (a + b) == [m] + a + b
  {
  }

  /** Handing the children k of m to p: those in c are handed over. */
  ghost predicate HandingOver(l0: Links, l: Links, start: Option<Node>, k: Forest, c: Forest, d: Forest, p: Node,
                              m: Node, last: Node) {
    && d.Cons? && d.id == last && Append(c, d) == k && Distinct(k)
    && Rep(l, start, c, Some(p), Some(last)) && Rep(l, Some(last), d, Some(m), None)
    && SameOutside(l0, l, Ids(k))
  }

  lemma HandOverNext(l0: Links, l: Links, l': Links, start: Option<Node>, k: Forest, c: Forest, d: Forest, p: Node,
                     m: Node, last: Node)
    requires HandingOver(l0, l, start, k, c, d, p, m, last) && last < |l.parent|
    requires l' == l.(parent := l.parent[last := Some(p)])
    ensures last < |l'.next| && l'.Valid(|l'.next|) && SameOutside(l0, l', Ids(k))
    ensures l'.next[last].None? ==> Rep(l', start, k, Some(p), None) && last == Last(k)
    ensures l'.next[last].Some? ==> d.rest.Cons? && l'.next[last].value < |l'.next|
    ensures l'.next[last].Some? ==>
      HandingOver(l0, l', start, k, Append(c, Cons(last, d.kids, Nil)), d.rest, p, m, l'.next[last].value)
  {
    RepLinks(l, Some(last), d, Some(m), None);
    HandOverRound(l0, l, l', start, k, c, d, p, m, last);
    hide Rep, Distinct, Ids, SameAt;
    RepHead(l', l'.next[last], d.rest, Some(m), None);
    var one := Cons(last, d.kids, Nil);
    AppendAssoc(c, one, d.rest);
    LastAppend(c, one);
    if d.rest.Cons? {
      RepLinks(l', l'.next[last], d.rest, Some(m), None);
    }
  }

  lemma HandOverRound(l0: Links, l: Links, l': Links, start: Option<Node>, k: Forest, c: Forest, d: Forest, p: Node,
                      m: Node, last: Node)
    requires HandingOver(l0, l, start, k, c, d, p, m, last) && last < |l.next| && l.Valid(|l.next|)
    requires l' == l.(parent := l.parent[last := Some(p)])
    ensures Rep(l', start, Append(c, Cons(last, d.kids, Nil)), Some(p), l'.next[last])
    ensures Rep(l', l'.next[last], d.rest, Some(m), None) && SameOutside(l0, l', Ids(k))
  {
    hide Rep, Pre;
    AppendIds(c, d);
    AppendDistinct(c, d);
    HandOverStep(l, l', start, c, d, Some(p), m);
  }

  /** What hoisting does at one child m of p. */
  ghost predicate HoistedTo(l: Links, l': Links, m: Node, b: Forest, g: Forest, p: Node, T: set<Node>) {
    && g.Cons? && g.id == m && Pre(g) == Pre(b) && Rep(l', Some(m), g, Some(p), None)
    && (g.kids.Cons? ==> m in T) && AllTitled(g.kids, T) && KidsTitled(g.rest, T)
    && SameOutside(l, l', Ids(b))
  }

  lemma HoistNext(l0: Links, l: Links, l': Links, start: Option<Node>, k: Forest, a: Forest, b: Forest, g: Forest,
                  p: Node, m: Node, T: set<Node>)
    requires Passing(l, start, k, a, b, Some(p), Some(m)) && AllTitled(a, T) && SameOutside(l0, l, Ids(k))
    requires HoistedTo(l, l', m, b, g, p, T)
    ensures m < |l'.next| && l'.Valid(|l'.next|)
    ensures Passing(l', start, k, Append(a, Cons(m, g.kids, Nil)), g.rest, Some(p), l'.next[m])
    ensures AllTitled(Append(a, Cons(m, g.kids, Nil)), T) && KidsTitled(g.rest, T)
    ensures SameOutside(l0, l', Ids(k)) && |Pre(g.rest)| < |Pre(b)|
  {
    hide Passing, Rep, Pre, SameOutside, Distinct, KidsTitled;
    PassingStep(l, l', start, k, a, b, g, Some(p), m);
    TitledAppend(a, Cons(m, g.kids, Nil), T);
    SameOutsideTwice(l0, l, l', Ids(k), Ids(k));
  }

  // ----- walking without a stack -----

  /** What a walk has still to come back to: siblings, level by level. */
  datatype Trail = Done | Under(rest: Forest, above: Trail)

  function Rest(tr: Trail): seq<Node> {
    match tr
    case Done => []
    case Under(rest, above) => Pre(rest) + Rest(above)
  }

  /** The parent pointers from `up` lead to the root, past the siblings the
      trail holds. */
  ghost predicate OnTrail(l: Links, root: Node, up: Option<Node>, tr: Trail)
    decreases tr
  {
    && up.Some? && up.value < |l.next| && l.Valid(|l.next|)
    && match tr
       case Done => up == Some(root) && l.next[root] == None && l.parent[root] == None
       case Under(rest, above) =>
         && Rep(l, l.next[up.value], rest, l.parent[up.value], None)
         && OnTrail(l, root, l.parent[up.value], above)
  }

  /** A walk stands at node m, with f the tree and siblings of m. */
  ghost predicate Stands(l: Links, root: Node, m: Node, f: Forest, up: Option<Node>, tr: Trail) {
    f.Cons? && f.id == m && Rep(l, Some(m), f, up, None) && OnTrail(l, root, up, tr)
  }

  lemma StandsParts(l: Links, root: Node, m: Node, f: Forest, up: Option<Node>, tr: Trail)
    requires Stands(l, root, m, f, up, tr)
    ensures f.Cons? && m < |l.next| && l.Valid(|l.next|) && l.parent[m] == up && OnTrail(l, root, up, tr)
    ensures l.list[m] == Head(f.kids, None) && l.next[m] == Head(f.rest, None)
    ensures f.kids.Cons? ==> Stands(l, root, f.kids.id, f.kids, Some(m), Under(f.rest, tr))
    ensures f.rest.Cons? ==> Stands(l, root, f.rest.id, f.rest, up, tr)
    ensures Pre(f) + Rest(tr) == [m] + Pre(f.kids) + (Pre(f.rest) + Rest(tr))
  {
    RepHead(l, l.list[m], f.kids, Some(m), None);
    RepHead(l, l.next[m], f.rest, up, None);
    Associates([m] + Pre(f.kids), Pre(f.rest), Rest(tr));
  }

  /** One level up. */
  lemma TrailUp(l: Links, root: Node, up: Option<Node>, tr: Trail)
    requires OnTrail(l, root, up, tr)
    ensures up.Some? && up.value < |l.next| && l.Valid(|l.next|)
    ensures l.next[up.value].Some? ==> tr.Under? && tr.rest.Cons? && l.next[up.value] == Some(tr.rest.id)
    ensures l.next[up.value].Some? ==> Stands(l, root, tr.rest.id, tr.rest, l.parent[up.value], tr.above)
    ensures l.next[up.value].Some? ==> Rest(tr) == Pre(tr.rest) + Rest(tr.above)
    ensures l.next[up.value].None? && l.parent[up.value].Some? ==>
      tr.Under? && Rest(tr) == Rest(tr.above) && OnTrail(l, root, l.parent[up.value], tr.above)
    ensures l.next[up.value].None? && l.parent[up.value].None? ==> Rest(tr) == []
  {
    if tr.Under? {
      RepHead(l, l.next[up.value], tr.rest, l.parent[up.value], None);
      if tr.rest.Nil? {
        assert Rest(tr) == [] + Rest(tr.above);
      }
    }
  }

  /** The first child of the root. */
  lemma StandsAtFirst(l: Links, root: Node, f: Forest)
    requires root < |l.next| && l.Valid(|l.next|) && l.next[root] == None && l.parent[root] == None
    requires f.Cons? && Rep(l, l.list[root], f, Some(root), None)
    ensures Stands(l, root, f.id, f, Some(root), Done)
  {
  }
}
