/** What the value of a symbol ought to be: the equations that visibility,
    selects, defaults, ranges and choices impose (symbol.c:72-485), read as a
    function of the values of the other symbols. */
module SymbolEquations {
  import opened Tristates
  import opened NumText
  import opened Exprs

  /** A P_DEFAULT property: the value and the condition it is under. */
  datatype Default = Default(cond: Option<Expr>, value: Expr)

  /** A P_RANGE property. */
  datatype Range = Range(cond: Option<Expr>, lo: Sym, hi: Sym)

  /** The properties of a symbol. `prompts` holds the visibility condition of
      every property with a text, `conds` that of every P_SYMBOL property, which
      a symbol gets with each menu entry, `values` the members of a choice. */
  datatype SymDef = SymDef(
    prompts: seq<Option<Expr>>,
    defaults: seq<Default>,
    ranges: seq<Range>,
    dirDep: Option<Expr>,
    revDep: Option<Expr>,
    isChoice: bool,
    values: seq<Sym>,
    choiceOf: Option<Sym>,
    auto: bool,
    conds: seq<Option<Expr>>)

  datatype Table = Table(t: Symbols, d: seq<SymDef>, modules: Sym)

  /** The user's values: def[S_DEF_USER] and the symbols whose SYMBOL_DEF_USER
      flag is set. */
  datatype Users = Users(has: set<Sym>, val: Values)

  function Def(tab: Table, s: Sym): SymDef {
    if s < |tab.d| then tab.d[s] else SymDef([], [], [], None, None, false, [], None, false, [])
  }

  function W(tab: Table, v: Values): World {
    World(tab.t, v, tab.modules)
  }

  predicate IsTextual(y: SymType) {
    y == Int || y == Hex || y == Str
  }

  /** Symbols the evaluator computes; the others keep their name as value. */
  predicate IsTyped(y: SymType) {
    IsLogical(y) || IsTextual(y)
  }

  /** prop_get_symbol of a default. */
  function SymbolOf(e: Expr): Option<Sym> {
    if e.Symbol? then Some(e.sym) else None
  }

  // ----- visibility and selects -----

  /** The visibility of one prompt. A tristate choice value with a prompt worth
      m is invisible while its choice is y. */
  function PromptTri(tab: Table, v: Values, s: Sym, p: Option<Expr>): Tri {
    var x := EvalOpt(W(tab, v), p);
    var c := Def(tab, s).choiceOf;
    if c.Some? && Typ(tab.t, s) == Tristate && x == MOD && Val(v, c.value).tri == YES then NO else x
  }

  function PromptsTri(tab: Table, v: Values, s: Sym, n: nat): Tri
    requires n <= |Def(tab, s).prompts|
  {
    if n == 0 then NO
    else TriOr(PromptsTri(tab, v, s, n - 1), PromptTri(tab, v, s, Def(tab, s).prompts[n - 1]))
  }

  function PromoteVisible(tab: Table, mv: Tri, s: Sym, x: Tri): Tri {
    if x == MOD && (Typ(tab.t, s) != Tristate || mv == NO) then YES else x
  }

  function Visibility(tab: Table, mv: Tri, v: Values, s: Sym): Tri {
    PromoteVisible(tab, mv, s, PromptsTri(tab, v, s, |Def(tab, s).prompts|))
  }

  /** sym_get_type. */
  function TypeNow(tab: Table, mv: Tri, s: Sym, vis: Tri): SymType {
    if Typ(tab.t, s) == Tristate && ((Def(tab, s).choiceOf.Some? && vis == YES) || mv == NO)
    then Boolean else Typ(tab.t, s)
  }

  /** The selects on a symbol; a choice value has none computed. */
  function RevTri(tab: Table, mv: Tri, v: Values, s: Sym): Tri {
    if Def(tab, s).choiceOf.Some? || Def(tab, s).revDep.None? then NO
    else
      var x := Eval(W(tab, v), Def(tab, s).revDep.value);
      if x == MOD && TypeNow(tab, mv, s, Visibility(tab, mv, v, s)) == Boolean then YES else x
  }

  // ----- defaults -----

  /** The first default from index i whose condition is not n. */
  function FirstDefault(tab: Table, v: Values, ds: seq<Default>, i: nat): (k: nat)
    requires i <= |ds|
    ensures i <= k <= |ds|
    decreases |ds| - i
  {
    if i < |ds| && EvalOpt(W(tab, v), ds[i].cond) == NO then FirstDefault(tab, v, ds, i + 1) else i
  }

  function DefaultTri(tab: Table, v: Values, s: Sym): Tri {
    var ds := Def(tab, s).defaults;
    var k := FirstDefault(tab, v, ds, 0);
    if k == |ds| then NO
    else TriAnd(Eval(W(tab, v), ds[k].value), EvalOpt(W(tab, v), ds[k].cond))
  }

  function DefaultStr(tab: Table, v: Values, s: Sym): string {
    var ds := Def(tab, s).defaults;
    var k := FirstDefault(tab, v, ds, 0);
    if k == |ds| || SymbolOf(ds[k].value).None? then ""
    else Val(v, SymbolOf(ds[k].value).value).str
  }

  // ----- ranges -----

  function FirstRange(tab: Table, v: Values, rs: seq<Range>, i: nat): (k: nat)
    requires i <= |rs|
    ensures i <= k <= |rs|
    decreases |rs| - i
  {
    if i < |rs| && EvalOpt(W(tab, v), rs[i].cond) == NO then FirstRange(tab, v, rs, i + 1) else i
  }

  function BaseOf(y: SymType, base: nat): nat {
    if y == Int then 10 else if y == Hex then 16 else base
  }

  /** sym_get_range_val. */
  function RangeVal(tab: Table, v: Values, s: Sym, base: nat): int {
    Strtoll(Val(v, s).str, BaseOf(Typ(tab.t, s), base))
  }

  function FormatNum(y: SymType, n: int): string {
    if y == Int then FormatDec(n) else FormatHex(n)
  }

  /** A number text moved into [lo, hi]; a text already inside keeps its spelling. */
  function Clamp(y: SymType, str: string, lo: int, hi: int): string {
    var n := Strtoll(str, BaseOf(y, 0));
    if n < lo then FormatNum(y, lo) else if n > hi then FormatNum(y, hi) else str
  }

  /** sym_validate_range. */
  function Validated(tab: Table, v: Values, s: Sym, str: string): string {
    var y := Typ(tab.t, s);
    var rs := Def(tab, s).ranges;
    var k := FirstRange(tab, v, rs, 0);
    if (y != Int && y != Hex) || k == |rs| then str
    else Clamp(y, str, RangeVal(tab, v, rs[k].lo, BaseOf(y, 0)), RangeVal(tab, v, rs[k].hi, BaseOf(y, 0)))
  }

  // ----- values -----

  /** What a boolean or tristate symbol is before selects raise it. */
  function BaseTri(tab: Table, u: Users, v: Values, s: Sym, vis: Tri): Tri {
    if vis != NO && s in u.has then TriAnd(Val(u.val, s).tri, vis)
    else if Def(tab, s).isChoice then NO
    else DefaultTri(tab, v, s)
  }

  function TriValue(tab: Table, u: Users, mv: Tri, v: Values, s: Sym): Tri {
    var vis := Visibility(tab, mv, v, s);
    var c := Def(tab, s).choiceOf;
    var x := if c.Some? && vis == YES then OfBool(Val(v, c.value).pick == Some(s))
             else TriOr(BaseTri(tab, u, v, s, vis), RevTri(tab, mv, v, s));
    if x == MOD && TypeNow(tab, mv, s, vis) == Boolean then YES else x
  }

  function StrValue(tab: Table, u: Users, mv: Tri, v: Values, s: Sym): string {
    Validated(tab, v, s,
      if Visibility(tab, mv, v, s) != NO && s in u.has then Val(u.val, s).str else DefaultStr(tab, v, s))
  }

  // ----- choices -----

  /** The value of a choice while its members are being looked at. */
  const TENTATIVE: Value := Value(YES, "n", None)

  function Put(v: Values, s: Sym, x: Value): Values {
    if s < |v| then v[s := x] else v
  }

  predicate ValueVisible(tab: Table, mv: Tri, v: Values, c: Sym, x: Sym) {
    Visibility(tab, mv, Put(v, c, TENTATIVE), x) != NO
  }

  /** sym_choice_default: a visible default whose condition holds... */
  function DefaultPick(tab: Table, mv: Tri, v: Values, c: Sym, i: nat): Option<Sym>
    requires i <= |Def(tab, c).defaults|
    decreases |Def(tab, c).defaults| - i
  {
    var ds := Def(tab, c).defaults;
    if i == |ds| then None
    else if EvalOpt(W(tab, Put(v, c, TENTATIVE)), ds[i].cond) != NO && SymbolOf(ds[i].value).Some? &&
            ValueVisible(tab, mv, v, c, SymbolOf(ds[i].value).value) then SymbolOf(ds[i].value)
    else DefaultPick(tab, mv, v, c, i + 1)
  }

  /** ... or else the first visible value. */
  function FirstVisible(tab: Table, mv: Tri, v: Values, c: Sym, i: nat): (r: Option<Sym>)
    requires i <= |Def(tab, c).values|
    ensures r.Some? ==> r.value in Def(tab, c).values && ValueVisible(tab, mv, v, c, r.value)
    decreases |Def(tab, c).values| - i
  {
    var xs := Def(tab, c).values;
    if i == |xs| then None
    else if ValueVisible(tab, mv, v, c, xs[i]) then Some(xs[i])
    else FirstVisible(tab, mv, v, c, i + 1)
  }

  /** sym_calc_choice. */
  function Pick(tab: Table, u: Users, mv: Tri, v: Values, c: Sym): Option<Sym> {
    var mine := Val(u.val, c).pick;
    if mine.Some? && ValueVisible(tab, mv, v, c, mine.value) then mine
    else if DefaultPick(tab, mv, v, c, 0).Some? then DefaultPick(tab, mv, v, c, 0)
    else FirstVisible(tab, mv, v, c, 0)
  }

  /** sym_calc_value. */
  function Compute(tab: Table, u: Users, mv: Tri, v: Values, s: Sym): Value {
    var y := Typ(tab.t, s);
    if IsLogical(y) then
      var x := TriValue(tab, u, mv, v, s);
      if Def(tab, s).isChoice && x == YES then
        var p := Pick(tab, u, mv, v, s);
        Value(if p.None? then NO else YES, "n", p)
      else Value(x, "n", None)
    else if IsTextual(y) then Value(NO, StrValue(tab, u, mv, v, s), None)
    else Constant(tab.t, s)
  }

  /** The value of an untyped symbol: its name, except that y and m keep their
      value. */
  function Constant(t: Symbols, s: Sym): Value {
    Value(if s == YES_SYM then YES else if s == MOD_SYM then MOD else NO, Name(t, s), None)
  }

  /** When evaluation sets SYMBOL_WRITE, for a symbol that is not a choice value. */
  predicate Marked(tab: Table, mv: Tri, v: Values, s: Sym) {
    var ds := Def(tab, s).defaults;
    var k := FirstDefault(tab, v, ds, 0);
    var y := Typ(tab.t, s);
    || Visibility(tab, mv, v, s) != NO
    || (IsLogical(y) && RevTri(tab, mv, v, s) != NO)
    || (!Def(tab, s).isChoice && k < |ds| && (IsLogical(y) || SymbolOf(ds[k].value).Some?))
  }

  /** SYMBOL_WRITE after evaluation; a symbol set from the environment loses it. */
  predicate Written(tab: Table, mv: Tri, v: Values, s: Sym) {
    Marked(tab, mv, v, s) && !Def(tab, s).auto
  }

  // ----- solutions -----

  ghost predicate ChoiceFree(tab: Table) {
    forall s: Sym :: !Def(tab, s).isChoice && Def(tab, s).choiceOf.None? && Def(tab, s).values == []
  }

  /** A valuation in which every symbol has the value its definition asks for. */
  ghost predicate IsSolution(tab: Table, u: Users, v: Values) {
    && |v| == |tab.t|
    && forall s: Sym :: s < |v| ==> v[s] == Compute(tab, u, Val(v, tab.modules).tri, v, s)
  }
}
