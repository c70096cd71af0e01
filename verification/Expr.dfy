/** Dependency expressions, symbol tables as the optimiser sees them, and the
    meaning of an expression under a valuation of the symbols. */
module Exprs {
  import opened Tristates
  import opened NumText

  type Sym = nat

  /** symbol_no, symbol_mod and symbol_yes. */
  const NO_SYM: Sym := 0
  const MOD_SYM: Sym := 1
  const YES_SYM: Sym := 2

  datatype SymType = Unknown | Boolean | Tristate | Int | Hex | Str | Other

  /** The part of a symbol that never changes once the menus are built. */
  datatype SymInfo = SymInfo(name: string, typ: SymType, isConst: bool)

  type Symbols = seq<SymInfo>

  datatype Rel = Equal | Unequal | Lth | Leq | Gth | Geq

  datatype Junction = Conj | Disj

  datatype Expr =
    | Symbol(sym: Sym)
    | Not(arg: Expr)
    | Comp(rel: Rel, lhs: Sym, rhs: Sym)
    | Junct(op: Junction, left: Expr, right: Expr)

  function And(l: Expr, r: Expr): Expr { Junct(Conj, l, r) }

  predicate IsYmn(s: Sym) {
    s == YES_SYM || s == MOD_SYM || s == NO_SYM
  }

  /** x is e or stands somewhere inside it. */
  predicate Contains(e: Expr, x: Expr) {
    e == x ||
    match e
    case Not(a) => Contains(a, x)
    case Junct(_, l, r) => Contains(l, x) || Contains(r, x)
    case _ => false
  }

  function Typ(t: Symbols, s: Sym): SymType {
    if s < |t| then t[s].typ else Unknown
  }

  function Name(t: Symbols, s: Sym): string {
    if s < |t| then t[s].name else ""
  }

  predicate IsConst(t: Symbols, s: Sym) {
    s < |t| && t[s].isConst
  }

  predicate IsLogical(y: SymType) {
    y == Boolean || y == Tristate
  }

  /** y, m and n come first; constants are untyped and interned by name (sym_lookup). */
  ghost predicate WellFormed(t: Symbols) {
    && |t| > 2
    && t[NO_SYM] == SymInfo("n", Unknown, true)
    && t[MOD_SYM] == SymInfo("m", Unknown, true)
    && t[YES_SYM] == SymInfo("y", Unknown, true)
    && (forall s :: 0 <= s < |t| && t[s].isConst ==> t[s].typ == Unknown)
    && (forall s, s' :: 0 <= s < s' < |t| && t[s].isConst && t[s'].isConst ==> t[s].name != t[s'].name)
  }

  /** struct symbol_value. `pick` is the symbol a choice points at, if any;
      `str` is the string of a symbol that is neither boolean nor tristate. */
  datatype Value = Value(tri: Tri, str: string, pick: Option<Sym>)

  type Values = seq<Value>

  function Val(v: Values, s: Sym): Value {
    if s < |v| then v[s] else Value(NO, "", None)
  }

  /** A valuation together with the symbol that switches modules on. */
  datatype World = World(t: Symbols, v: Values, modules: Sym)

  function TriOf(w: World, s: Sym): Tri {
    Val(w.v, s).tri
  }

  /** sym_get_string_value: a tristate m reads as n while modules are off. */
  function StringOf(w: World, s: Sym): string {
    if IsLogical(Typ(w.t, s)) then
      if TriOf(w, s) == MOD && TriOf(w, w.modules) == NO then "n" else Spell(TriOf(w, s))
    else
      Val(w.v, s).str
  }

  /** expr_parse_string: how a comparison reads one operand. */
  datatype Operand = Text | Signed(n: int) | Unsigned(u: int) | Invalid

  function ParseOperand(s: string, y: SymType): Operand {
    if IsLogical(y) then Text
    else if y == Other then Invalid
    else
      var base := if y == Int then 10 else if y == Hex then 16 else 0;
      var r := ScanNumber(s, base);
      var n := r.Num();
      if r.tail == 0 || r.tail < |s| || !IsXDigit(s[|s| - 1]) then Text
      else if y == Hex then
        if r.magnitude >= ULLONG_MOD then Text else Unsigned(n % ULLONG_MOD)
      else
        if n < LLONG_MIN || n > LLONG_MAX then Text else Signed(n)
  }

  function OperandBits(o: Operand): int
    requires o.Signed? || o.Unsigned?
  {
    if o.Signed? then o.n % ULLONG_MOD else o.u
  }

  /** strcmp, reduced to its sign. */
  function CompareText(a: string, b: string): int {
    if a == [] then (if b == [] then 0 else -1)
    else if b == [] then 1
    else if a[0] != b[0] then (if a[0] < b[0] then -1 else 1)
    else CompareText(a[1..], b[1..])
  }

  function CompareInts(a: int, b: int): int {
    if a < b then -1 else if a > b then 1 else 0
  }

  /** The operands cannot be put in order, only told apart. */
  predicate Incomparable(w: World, l: Sym, r: Sym) {
    var k1 := OperandOf(w, l, r, l);
    var k2 := OperandOf(w, l, r, r);
    !k1.Text? && !k2.Text? && (k1.Invalid? || k2.Invalid?)
  }

  /** Two string symbols are compared as text without parsing either. */
  function OperandOf(w: World, l: Sym, r: Sym, s: Sym): Operand {
    if Typ(w.t, l) == Str && Typ(w.t, r) == Str then Text
    else ParseOperand(StringOf(w, s), Typ(w.t, s))
  }

  function Order(w: World, l: Sym, r: Sym): int {
    var k1 := OperandOf(w, l, r, l);
    var k2 := OperandOf(w, l, r, r);
    if k1.Text? || k2.Text? || k1.Invalid? || k2.Invalid? then CompareText(StringOf(w, l), StringOf(w, r))
    else if k1.Unsigned? || k2.Unsigned? then CompareInts(OperandBits(k1), OperandBits(k2))
    else CompareInts(k1.n, k2.n)
  }

  predicate IsOrdering(rel: Rel) {
    rel != Equal && rel != Unequal
  }

  predicate Holds(rel: Rel, res: int) {
    match rel
    case Equal => res == 0
    case Unequal => res != 0
    case Lth => res < 0
    case Leq => res <= 0
    case Gth => res > 0
    case Geq => res >= 0
  }

  function EvalComp(w: World, rel: Rel, l: Sym, r: Sym): Tri {
    if IsOrdering(rel) && Incomparable(w, l, r) then NO
    else OfBool(Holds(rel, Order(w, l, r)))
  }

  function Apply(op: Junction, a: Tri, b: Tri): Tri {
    match op
    case Conj => TriAnd(a, b)
    case Disj => TriOr(a, b)
  }

  /** expr_calc_value. */
  function Eval(w: World, e: Expr): Tri {
    match e
    case Symbol(s) => TriOf(w, s)
    case Not(a) => TriNot(Eval(w, a))
    case Comp(rel, l, r) => EvalComp(w, rel, l, r)
    case Junct(op, l, r) => Apply(op, Eval(w, l), Eval(w, r))
  }

  /** A missing expression is y. */
  function EvalOpt(w: World, e: Option<Expr>): Tri {
    if e.None? then YES else Eval(w, e.value)
  }

  lemma ApplyExchange(op: Junction, a: Tri, b: Tri, c: Tri, d: Tri)
    ensures Apply(op, Apply(op, a, b), Apply(op, c, d)) == Apply(op, Apply(op, a, c), Apply(op, b, d))
  {
  }

  lemma ApplyAssociative(op: Junction, a: Tri, b: Tri, c: Tri)
    ensures Apply(op, Apply(op, a, b), c) == Apply(op, a, Apply(op, b, c))
  {
  }

  /** The constants mean what they spell. */
  ghost predicate ConstantsHold(w: World) {
    TriOf(w, NO_SYM) == NO && TriOf(w, MOD_SYM) == MOD && TriOf(w, YES_SYM) == YES
  }

  /** A valuation the evaluator can reach: a boolean symbol is never m, a
      boolean or tristate symbol's string spells its value, and an untyped
      constant's string is its name. */
  ghost predicate Consistent(w: World) {
    && WellFormed(w.t)
    && ConstantsHold(w)
    && (forall s: Sym :: Typ(w.t, s) == Boolean ==> TriOf(w, s) != MOD)
    && (forall s: Sym :: IsLogical(Typ(w.t, s)) ==> StringOf(w, s) == Spell(TriOf(w, s)))
    && (forall s: Sym :: IsConst(w.t, s) ==> StringOf(w, s) == Name(w.t, s))
  }

  function Size(e: Expr): nat
    ensures Size(e) >= 1
  {
    match e
    case Symbol(_) => 1
    case Not(a) => 1 + Size(a)
    case Comp(_, _, _) => 1
    case Junct(_, l, r) => 1 + Size(l) + Size(r)
  }

  predicate IsJunct(e: Expr, op: Junction) {
    e.Junct? && e.op == op
  }

  /** Negation only directly above a symbol. */
  predicate NegationNormal(e: Expr) {
    match e
    case Not(a) => a.Symbol?
    case Junct(_, l, r) => NegationNormal(l) && NegationNormal(r)
    case _ => true
  }

  /** The symbol that changes nothing under `op`: n for OR, y for AND. */
  function NeutralSym(op: Junction): Sym {
    if op == Conj then YES_SYM else NO_SYM
  }

  /** The symbol that decides `op` on its own: y for OR, n for AND. */
  function AbsorbingSym(op: Junction): Sym {
    if op == Conj then NO_SYM else YES_SYM
  }

  function Neutral(op: Junction): Expr {
    Symbol(NeutralSym(op))
  }

  function NeutralTri(op: Junction): Tri {
    if op == Conj then YES else NO
  }

  lemma {:induction false} CompareTextZero(a: string, b: string)
    ensures CompareText(a, b) == 0 <==> a == b
  {
    if a != [] && b != [] && a[0] == b[0] {
      CompareTextZero(a[1..], b[1..]);
      assert a == [a[0]] + a[1..] && b == [b[0]] + b[1..];
    }
  }

  /** Testing a boolean or tristate symbol for equality compares spellings. */
  lemma LogicalEquality(w: World, s: Sym, c: Sym)
    requires IsLogical(Typ(w.t, s))
    ensures EvalComp(w, Equal, s, c) == OfBool(StringOf(w, s) == StringOf(w, c))
    ensures EvalComp(w, Unequal, s, c) == OfBool(StringOf(w, s) != StringOf(w, c))
  {
    CompareTextZero(StringOf(w, s), StringOf(w, c));
  }
}
