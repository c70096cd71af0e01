/** The rules a value follows, read off the properties of a symbol one by one
    (symbol.c:114-168, 190-239, 327-485): which prompt shows it, which default and which
    range apply, what the user and the selects have to say, and when it is written. */
module ValueRules {
  import opened Tristates
  import opened NumText
  import opened Exprs
  import opened SymbolEquations
  import opened Layering
  import opened Solutions
  import opened Choices
  import opened Ranges
  import opened Saving

  // ----- visibility and selects -----

  /** Some prompt is worth x. */
  ghost predicate PromptWorth(tab: Table, v: Values, s: Sym, n: nat, x: Tri)
    requires n <= |Def(tab, s).prompts|
  {
    exists i :: 0 <= i < n && EvalOpt(W(tab, v), Def(tab, s).prompts[i]) == x
  }

  /** s is a tristate value of a choice worth y. */
  predicate Sharp(tab: Table, v: Values, s: Sym) {
    Def(tab, s).choiceOf.Some? && Typ(tab.t, s) == Tristate && Val(v, Def(tab, s).choiceOf.value).tri == YES
  }

  lemma {:induction false} PromptsRule(tab: Table, v: Values, s: Sym, n: nat)
    requires n <= |Def(tab, s).prompts|
    ensures PromptsTri(tab, v, s, n) ==
      if PromptWorth(tab, v, s, n, YES) then YES
      else if PromptWorth(tab, v, s, n, MOD) && !Sharp(tab, v, s) then MOD
      else NO
  {
    hide EvalOpt;
    if n > 0 {
      PromptsRule(tab, v, s, n - 1);
      var x := EvalOpt(W(tab, v), Def(tab, s).prompts[n - 1]);
      assert PromptWorth(tab, v, s, n, x);
      assert PromptWorth(tab, v, s, n - 1, YES) ==> PromptWorth(tab, v, s, n, YES);
      assert PromptWorth(tab, v, s, n - 1, MOD) ==> PromptWorth(tab, v, s, n, MOD);
    }
  }

  /** A symbol is as visible as its most visible prompt; m counts as y unless the symbol is
      a tristate and modules are on, and does not count for a tristate value of a choice
      worth y. */
  lemma VisibilityRule(tab: Table, v: Values, s: Sym)
    ensures var n := |Def(tab, s).prompts|;
      && (PromptWorth(tab, v, s, n, YES) ==> Vis(tab, v, s) == YES)
      && (!PromptWorth(tab, v, s, n, YES) && PromptWorth(tab, v, s, n, MOD) && !Sharp(tab, v, s) ==>
           Vis(tab, v, s) == if Typ(tab.t, s) == Tristate && Val(v, tab.modules).tri != NO then MOD else YES)
      && (!PromptWorth(tab, v, s, n, YES) && (PromptWorth(tab, v, s, n, MOD) ==> Sharp(tab, v, s)) ==>
           Vis(tab, v, s) == NO)
  {
    hide PromptWorth, Sharp, PromptsTri;
    PromptsRule(tab, v, s, |Def(tab, s).prompts|);
  }

  /** m becomes y for a boolean symbol, and while modules are off. */
  function Rounded(tab: Table, v: Values, s: Sym, x: Tri): Tri {
    if x == MOD && (Typ(tab.t, s) == Boolean || (Typ(tab.t, s) == Tristate && Val(v, tab.modules).tri == NO))
    then YES else x
  }

  /** The selects on a symbol are what the collected condition is worth, and nothing for a
      value of a choice. */
  lemma SelectRule(tab: Table, v: Values, s: Sym)
    ensures Def(tab, s).choiceOf.Some? || Def(tab, s).revDep.None? ==> Rev(tab, v, s) == NO
    ensures Def(tab, s).choiceOf.None? && Def(tab, s).revDep.Some? ==>
      Rev(tab, v, s) == Rounded(tab, v, s, Eval(W(tab, v), Def(tab, s).revDep.value))
  {
    hide Visibility, Eval;
  }

  // ----- which default and which range -----

  /** Default i applies: its condition is not n, and that of every earlier one is. */
  ghost predicate AppliesDefault(tab: Table, v: Values, s: Sym, i: nat) {
    var ds := Def(tab, s).defaults;
    && i < |ds| && EvalOpt(W(tab, v), ds[i].cond) != NO
    && forall j :: 0 <= j < i ==> EvalOpt(W(tab, v), ds[j].cond) == NO
  }

  ghost predicate NoDefault(tab: Table, v: Values, s: Sym) {
    forall j :: 0 <= j < |Def(tab, s).defaults| ==> EvalOpt(W(tab, v), Def(tab, s).defaults[j].cond) == NO
  }

  ghost predicate AppliesRange(tab: Table, v: Values, s: Sym, i: nat) {
    var rs := Def(tab, s).ranges;
    && i < |rs| && EvalOpt(W(tab, v), rs[i].cond) != NO
    && forall j :: 0 <= j < i ==> EvalOpt(W(tab, v), rs[j].cond) == NO
  }

  ghost predicate NoRange(tab: Table, v: Values, s: Sym) {
    forall j :: 0 <= j < |Def(tab, s).ranges| ==> EvalOpt(W(tab, v), Def(tab, s).ranges[j].cond) == NO
  }

  lemma {:induction false} FirstDefaultAt(tab: Table, v: Values, ds: seq<Default>, i: nat, k: nat)
    requires i <= k <= |ds| && forall j :: i <= j < k ==> EvalOpt(W(tab, v), ds[j].cond) == NO
    requires k < |ds| ==> EvalOpt(W(tab, v), ds[k].cond) != NO
    ensures FirstDefault(tab, v, ds, i) == k
    decreases k - i
  {
    hide EvalOpt;
    if i < k {
      FirstDefaultAt(tab, v, ds, i + 1, k);
    }
  }

  lemma {:induction false} FirstRangeAt(tab: Table, v: Values, rs: seq<Range>, i: nat, k: nat)
    requires i <= k <= |rs| && forall j :: i <= j < k ==> EvalOpt(W(tab, v), rs[j].cond) == NO
    requires k < |rs| ==> EvalOpt(W(tab, v), rs[k].cond) != NO
    ensures FirstRange(tab, v, rs, i) == k
    decreases k - i
  {
    hide EvalOpt;
    if i < k {
      FirstRangeAt(tab, v, rs, i + 1, k);
    }
  }

  lemma {:induction false} FirstRangeFinds(tab: Table, v: Values, rs: seq<Range>, i: nat)
    requires i <= |rs|
    ensures var k := FirstRange(tab, v, rs, i);
      && (forall j :: i <= j < k ==> EvalOpt(W(tab, v), rs[j].cond) == NO)
      && (k < |rs| ==> EvalOpt(W(tab, v), rs[k].cond) != NO)
    decreases |rs| - i
  {
    hide EvalOpt;
    if i < |rs| && EvalOpt(W(tab, v), rs[i].cond) == NO {
      FirstRangeFinds(tab, v, rs, i + 1);
    }
  }

  /** The range found is the one that applies. */
  lemma AppliesFirst(tab: Table, v: Values, s: Sym)
    ensures var rs := Def(tab, s).ranges;
      var k := FirstRange(tab, v, rs, 0);
      && (k < |rs| ==> AppliesRange(tab, v, s, k))
      && forall i: nat :: AppliesRange(tab, v, s, i) ==> i == k
  {
    hide EvalOpt, FirstRange;
    var rs := Def(tab, s).ranges;
    FirstRangeFinds(tab, v, rs, 0);
    forall i: nat | AppliesRange(tab, v, s, i)
      ensures i == FirstRange(tab, v, rs, 0)
    {
      FirstRangeAt(tab, v, rs, 0, i);
    }
  }

  // ----- boolean and tristate symbols -----

  /** A symbol, or a value of a choice, that does not get its value from the choice. */
  predicate Own(tab: Table, v: Values, s: Sym) {
    !Def(tab, s).isChoice && (Def(tab, s).choiceOf.None? || Vis(tab, v, s) != YES)
  }

  /** The user's value counts. */
  predicate UserCounts(tab: Table, u: Users, v: Values, s: Sym) {
    Vis(tab, v, s) != NO && s in u.has
  }

  /** In every solution a visible boolean or tristate symbol the user set is worth what the
      user said, up to its visibility, raised by the selects; ... */
  lemma UserRule(tab: Table, u: Users, v: Values, s: Sym)
    requires IsSolution(tab, u, v) && s < |tab.t| && IsLogical(Typ(tab.t, s)) && Own(tab, v, s)
    requires UserCounts(tab, u, v, s)
    ensures v[s] ==
      Value(Rounded(tab, v, s, TriOr(TriAnd(Val(u.val, s).tri, Vis(tab, v, s)), Rev(tab, v, s))), "n", None)
  {
    hide Visibility, RevTri;
    assert v[s] == Compute(tab, u, Val(v, tab.modules).tri, v, s);
  }

  /** ... any other is worth the lower of the default that applies and its condition, raised
      by the selects; ... */
  lemma DefaultRule(tab: Table, u: Users, v: Values, s: Sym, i: nat)
    requires IsSolution(tab, u, v) && s < |tab.t| && IsLogical(Typ(tab.t, s)) && Own(tab, v, s)
    requires !UserCounts(tab, u, v, s) && AppliesDefault(tab, v, s, i)
    ensures var d := Def(tab, s).defaults[i];
      var x := TriAnd(Eval(W(tab, v), d.value), EvalOpt(W(tab, v), d.cond));
      v[s] == Value(Rounded(tab, v, s, TriOr(x, Rev(tab, v, s))), "n", None)
  {
    hide Visibility, RevTri, FirstDefault, EvalOpt, Eval;
    FirstDefaultAt(tab, v, Def(tab, s).defaults, 0, i);
    assert v[s] == Compute(tab, u, Val(v, tab.modules).tri, v, s);
  }

  /** ... and without one it is what the selects say. */
  lemma NoDefaultRule(tab: Table, u: Users, v: Values, s: Sym)
    requires IsSolution(tab, u, v) && s < |tab.t| && IsLogical(Typ(tab.t, s)) && Own(tab, v, s)
    requires !UserCounts(tab, u, v, s) && NoDefault(tab, v, s)
    ensures v[s] == Value(Rounded(tab, v, s, Rev(tab, v, s)), "n", None)
  {
    hide Visibility, RevTri, FirstDefault, EvalOpt, Eval;
    FirstDefaultAt(tab, v, Def(tab, s).defaults, 0, |Def(tab, s).defaults|);
    assert v[s] == Compute(tab, u, Val(v, tab.modules).tri, v, s);
  }

  /** A value of a choice whose visibility is y is y if the choice picks it, and n if not. */
  lemma PickedRule(tab: Table, u: Users, v: Values, s: Sym)
    requires IsSolution(tab, u, v) && s < |tab.t| && IsLogical(Typ(tab.t, s)) && !Def(tab, s).isChoice
    requires Def(tab, s).choiceOf.Some? && Vis(tab, v, s) == YES
    ensures v[s] == Value(OfBool(Val(v, Def(tab, s).choiceOf.value).pick == Some(s)), "n", None)
  {
    hide Visibility, RevTri, BaseTri;
    assert v[s] == Compute(tab, u, Val(v, tab.modules).tri, v, s);
  }

  // ----- strings and numbers -----

  /** What is left of a text once the range that applies, if any, has moved it. */
  ghost predicate MovedTo(tab: Table, v: Values, s: Sym, str: string, res: string) {
    && (Typ(tab.t, s) == Str || NoRange(tab, v, s) ==> res == str)
    && (forall i: nat :: AppliesRange(tab, v, s, i) && Typ(tab.t, s) == Int ==>
         MovedBetween(Strtoll(str, 10), str, RangeVal(tab, v, Def(tab, s).ranges[i].lo, 10),
                      RangeVal(tab, v, Def(tab, s).ranges[i].hi, 10), Int, res))
    && (forall i: nat :: AppliesRange(tab, v, s, i) && Typ(tab.t, s) == Hex ==>
         MovedBetween(Strtoll(str, 16), str, RangeVal(tab, v, Def(tab, s).ranges[i].lo, 16),
                      RangeVal(tab, v, Def(tab, s).ranges[i].hi, 16), Hex, res))
  }

  /** A number n, spelled str, moved between two bounds: it keeps its spelling if it is
      inside, and is the bound it is beyond, printed, if it is not. */
  predicate MovedBetween(n: int, str: string, lo: int, hi: int, y: SymType, res: string) {
    && (lo <= n <= hi ==> res == str)
    && (n < lo ==> res == if y == Int then FormatDec(lo) else FormatHex(lo))
    && (lo <= n && hi < n ==> res == if y == Int then FormatDec(hi) else FormatHex(hi))
  }

  lemma RangeRule(tab: Table, v: Values, s: Sym, str: string)
    requires IsTextual(Typ(tab.t, s))
    ensures MovedTo(tab, v, s, str, Validated(tab, v, s, str))
  {
    hide FirstRange, EvalOpt, Strtoll, FormatDec, FormatHex, RangeVal;
    var rs := Def(tab, s).ranges;
    if NoRange(tab, v, s) {
      FirstRangeAt(tab, v, rs, 0, |rs|);
    }
    forall i: nat | AppliesRange(tab, v, s, i)
      ensures FirstRange(tab, v, rs, 0) == i
    {
      FirstRangeAt(tab, v, rs, 0, i);
    }
  }

  /** A bound is the number its own type says it spells, or if it has none, the type of the
      symbol it bounds. */
  lemma BoundRule(tab: Table, v: Values, b: Sym, base: nat, n: int)
    requires base == 10 || base == 16
    requires IsLongLong(n)
    ensures (Typ(tab.t, b) == Int || (Typ(tab.t, b) != Hex && base == 10)) && Val(v, b).str == FormatDec(n) ==>
      RangeVal(tab, v, b, base) == n
    ensures (Typ(tab.t, b) == Hex || (Typ(tab.t, b) != Int && base == 16)) && n >= 0 ==>
      Val(v, b).str == FormatHex(n) ==> RangeVal(tab, v, b, base) == n
  {
    hide FormatDec, FormatHex, Strtoll;
    DecReadsBack(n);
    if n >= 0 {
      HexReadsBack(n);
    }
  }

  /** In every solution a visible string, int or hex symbol the user set has the user's
      text, moved into its range; ... */
  lemma UserTextRule(tab: Table, u: Users, v: Values, s: Sym)
    requires IsSolution(tab, u, v) && s < |tab.t| && IsTextual(Typ(tab.t, s)) && UserCounts(tab, u, v, s)
    ensures v[s].tri == NO && v[s].pick == None && MovedTo(tab, v, s, Val(u.val, s).str, v[s].str)
  {
    hide Visibility, Validated, MovedTo, DefaultStr;
    RangeRule(tab, v, s, Val(u.val, s).str);
    assert v[s] == Compute(tab, u, Val(v, tab.modules).tri, v, s);
  }

  /** ... any other has the string of the symbol the default that applies names, ... */
  lemma DefaultTextRule(tab: Table, u: Users, v: Values, s: Sym, i: nat)
    requires IsSolution(tab, u, v) && s < |tab.t| && IsTextual(Typ(tab.t, s)) && !UserCounts(tab, u, v, s)
    requires AppliesDefault(tab, v, s, i)
    ensures var d := Def(tab, s).defaults[i].value;
      && v[s].tri == NO && v[s].pick == None
      && MovedTo(tab, v, s, if d.Symbol? then Val(v, d.sym).str else "", v[s].str)
  {
    hide Visibility, Validated, MovedTo, FirstDefault, EvalOpt;
    FirstDefaultAt(tab, v, Def(tab, s).defaults, 0, i);
    RangeRule(tab, v, s, DefaultStr(tab, v, s));
    assert v[s] == Compute(tab, u, Val(v, tab.modules).tri, v, s);
  }

  /** ... and without one it is empty, moved into the range. */
  lemma NoDefaultTextRule(tab: Table, u: Users, v: Values, s: Sym)
    requires IsSolution(tab, u, v) && s < |tab.t| && IsTextual(Typ(tab.t, s)) && !UserCounts(tab, u, v, s)
    requires NoDefault(tab, v, s)
    ensures v[s].tri == NO && v[s].pick == None && MovedTo(tab, v, s, "", v[s].str)
  {
    hide Visibility, Validated, MovedTo, FirstDefault, EvalOpt;
    FirstDefaultAt(tab, v, Def(tab, s).defaults, 0, |Def(tab, s).defaults|);
    RangeRule(tab, v, s, "");
    assert v[s] == Compute(tab, u, Val(v, tab.modules).tri, v, s);
  }

  // ----- choices -----

  /** What a choice is worth before it looks for something to pick. */
  function ChoiceStart(tab: Table, u: Users, v: Values, c: Sym): Tri {
    var x := if UserCounts(tab, u, v, c) then TriAnd(Val(u.val, c).tri, Vis(tab, v, c)) else NO;
    Rounded(tab, v, c, TriOr(x, Rev(tab, v, c)))
  }

  /** A choice knows no defaults for its own value. It picks something only as y, and as y
      it is n if none of its values would be visible. */
  lemma ChoiceRule(tab: Table, rank: Rank, u: Users, v: Values, c: Sym)
    requires Layered(tab, rank) && PicksMember(tab, u) && IsSolution(tab, u, v)
    requires c < |tab.t| && IsLogical(Typ(tab.t, c)) && Def(tab, c).isChoice && Def(tab, c).choiceOf.None?
    ensures ChoiceStart(tab, u, v, c) != YES ==> v[c] == Value(ChoiceStart(tab, u, v, c), "n", None)
    ensures ChoiceStart(tab, u, v, c) == YES ==>
      && v[c].str == "n" && v[c].tri == OfBool(v[c].pick.Some?)
      && (v[c].pick.Some? <==>
           exists x :: x in Def(tab, c).values && ValueVisible(tab, Val(v, tab.modules).tri, v, c, x))
  {
    hide Visibility, RevTri, Pick, ValueVisible, Layered, PicksMember;
    assert v[c] == Compute(tab, u, Val(v, tab.modules).tri, v, c);
    PickMember(tab, rank, u, Val(v, tab.modules).tri, v, c);
    PickFinds(tab, u, Val(v, tab.modules).tri, v, c);
  }

  lemma PickFinds(tab: Table, u: Users, mv: Tri, v: Values, c: Sym)
    ensures Pick(tab, u, mv, v, c).None? ==>
      forall x :: x in Def(tab, c).values ==> !ValueVisible(tab, mv, v, c, x)
  {
    hide ValueVisible, DefaultPick, FirstVisible;
    if Pick(tab, u, mv, v, c).None? {
      NoneVisible(tab, mv, v, c, 0);
    }
  }

  lemma {:induction false} NoneVisible(tab: Table, mv: Tri, v: Values, c: Sym, i: nat)
    requires i <= |Def(tab, c).values| && FirstVisible(tab, mv, v, c, i).None?
    ensures forall j :: i <= j < |Def(tab, c).values| ==> !ValueVisible(tab, mv, v, c, Def(tab, c).values[j])
    decreases |Def(tab, c).values| - i
  {
    hide ValueVisible;
    if i < |Def(tab, c).values| {
      NoneVisible(tab, mv, v, c, i + 1);
    }
  }

  // ----- what is written -----

  /** A symbol is marked for writing if and only if it does not come from the environment
      and is visible, selected, or has a default that applies; for a text the default must
      name a symbol. */
  lemma WrittenRule(tab: Table, v: Values, s: Sym)
    ensures Written(tab, Val(v, tab.modules).tri, v, s) <==>
      && !Def(tab, s).auto
      && (|| Vis(tab, v, s) != NO
          || (IsLogical(Typ(tab.t, s)) && Rev(tab, v, s) != NO)
          || (!Def(tab, s).isChoice &&
              exists i: nat :: AppliesDefault(tab, v, s, i) &&
                (IsLogical(Typ(tab.t, s)) || Def(tab, s).defaults[i].value.Symbol?)))
  {
    hide Visibility, RevTri, EvalOpt, FirstDefault;
    var ds := Def(tab, s).defaults;
    var k := FirstDefault(tab, v, ds, 0);
    FirstDefaultFinds(tab, v, ds, 0);
    forall i: nat | AppliesDefault(tab, v, s, i)
      ensures i == k
    {
      FirstDefaultAt(tab, v, ds, 0, i);
    }
    assert k < |ds| ==> AppliesDefault(tab, v, s, k);
  }

  lemma {:induction false} FirstDefaultFinds(tab: Table, v: Values, ds: seq<Default>, i: nat)
    requires i <= |ds|
    ensures var k := FirstDefault(tab, v, ds, i);
      && (forall j :: i <= j < k ==> EvalOpt(W(tab, v), ds[j].cond) == NO)
      && (k < |ds| ==> EvalOpt(W(tab, v), ds[k].cond) != NO)
    decreases |ds| - i
  {
    hide EvalOpt;
    if i < |ds| && EvalOpt(W(tab, v), ds[i].cond) == NO {
      FirstDefaultFinds(tab, v, ds, i + 1);
    }
  }

  /** An untyped symbol has its name for a string; only y and m have a value. */
  lemma ConstantRule(tab: Table, u: Users, v: Values, s: Sym)
    requires IsSolution(tab, u, v) && s < |tab.t| && !IsTyped(Typ(tab.t, s))
    ensures v[s].str == tab.t[s].name && v[s].pick == None
    ensures v[s].tri == if s == 2 then YES else if s == 1 then MOD else NO
  {
    assert v[s] == Compute(tab, u, Val(v, tab.modules).tri, v, s);
  }
}
