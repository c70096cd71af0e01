/** Splitting the configuration into one file per symbol (confdata.c:857-1000):
    a file is touched when the symbol's line in auto.conf changes. */
module AutoConf {
  import opened Tristates
  import opened Exprs
  import opened SymbolEquations
  import opened Layering
  import opened Solutions
  import opened ConfText
  import opened Quoting
  import opened Saving
  import opened Configurations
  import opened Evaluation
  import opened ConfigFiles
  import Fixdep

  // ----- which files are touched -----

  /** The decision of conf_split_config for a symbol with value x (in a valuation
      v), WRITE flag `w`, and the values `a` read from the last auto.conf. */
  predicate Touched(tab: Table, v: Values, w: bool, a: Users, s: Sym) {
    var y := Typ(tab.t, s);
    if Def(tab, s).auto || Name(tab.t, s) == "" then false
    else if w then
      if s in a.has then
        if IsLogical(y) then Val(v, s).tri != Val(a.val, s).tri
        else if IsTextual(y) then StringOf(W(tab, v), s) != Val(a.val, s).str
        else true
      else
        !IsLogical(y) || Val(v, s).tri != NO
    else
      s in a.has
  }

  /** The line of a symbol in auto.conf: none for n, nor for what is not written. */
  function AutoLine(tab: Table, v: Values, write: set<Sym>, s: Sym): string {
    if s in write && Name(tab.t, s) != "" then
      WriteSymbol(Typ(tab.t, s), Name(tab.t, s), StringOf(W(tab, v), s), true)
    else ""
  }

  /** auto.conf, symbol by symbol in some order. */
  function AutoLines(tab: Table, v: Values, write: set<Sym>, order: seq<Sym>): seq<string> {
    if order == [] then []
    else
      (if AutoLine(tab, v, write, order[0]) != "" then [AutoLine(tab, v, write, order[0])] else []) +
      AutoLines(tab, v, write, order[1..])
  }

  /** What is declared in Kconfig has a type; choices count as automatic. */
  ghost predicate Declared(tab: Table) {
    && (forall s: Sym :: Def(tab, s).isChoice ==> Def(tab, s).auto)
    && (forall s: Sym, c: Sym :: Def(tab, s).choiceOf == Some(c) ==> Def(tab, c).isChoice)
  }

  /** A symbol with a file of its own. */
  predicate HasFile(tab: Table, s: Sym) {
    s < |tab.t| && IsTyped(Typ(tab.t, s)) && !Def(tab, s).auto && Name(tab.t, s) != ""
  }

  /** A valuation of the symbols with files whose lines keep their shape. */
  ghost predicate CleanAt(tab: Table, v: Values, s: Sym) {
    && Printable(tab, v, s)
    && StringOf(W(tab, v), s) == if IsLogical(Typ(tab.t, s)) then Spell(Val(v, s).tri) else Val(v, s).str
  }

  // ----- a written auto.conf reads back -----

  /** What reading back leaves for symbol s once its line, if any, was read. */
  predicate AutoRestored(tab: Table, v: Values, write: set<Sym>, u: Users, s: Sym) {
    if AutoLine(tab, v, write, s) != "" && Storable(tab, v, s) then Offers(tab, u, v, s) else s !in u.has
  }

  lemma AutoLineShape(tab: Table, v: Values, write: set<Sym>, s: Sym)
    requires HasFile(tab, s) && CleanAt(tab, v, s)
    ensures AutoLine(tab, v, write, s) == "" <==> s !in write || (IsLogical(Typ(tab.t, s)) && Val(v, s).tri == NO)
    ensures AutoLine(tab, v, write, s) != "" ==>
      AutoLine(tab, v, write, s) == SymbolLine(tab, v, s)
      && !(IsLogical(Typ(tab.t, s)) && StringOf(W(tab, v), s) == "n")
  {
    hide StringOf, Escape, Find;
  }

  /** Reading the line of a symbol with a file stores its value; no other symbol
      with a file is affected. */
  lemma AutoLineReadsBack(tab: Table, v: Values, write: set<Sym>, u: Users, s: Sym)
    requires Declared(tab) && HasFile(tab, s) && CleanAt(tab, v, s) && |u.val| == |tab.t| && s !in u.has
    requires AutoLine(tab, v, write, s) != ""
    ensures var u' := ReadLine(tab, u, AutoLine(tab, v, write, s));
      && IsLine(AutoLine(tab, v, write, s)) && |u'.val| == |u.val|
      && AutoRestored(tab, v, write, u', s)
      && forall x: Sym :: x != s && HasFile(tab, x) ==> (x in u'.has <==> x in u.has) && Val(u'.val, x) == Val(u.val, x)
  {
    hide IsLine, StringOf, CleanValue, CleanName, Find, AcceptText, StringValid;
    AutoLineShape(tab, v, write, s);
    var y, name, value := Typ(tab.t, s), Name(tab.t, s), StringOf(W(tab, v), s);
    AssignmentReadsBack(y, name, value);
    var x := ConfText.Reread(y, value);
    var line := ParseLine(AutoLine(tab, v, write, s));
    assert SymbolLine(tab, v, s) == WriteSymbol(y, name, value, false);
    assert StoredBy(tab, line, s) == x;
    StoreRestores(tab, v, u, s);
    var u1 := Store(u, s, x);
    assert ReadLine(tab, u, AutoLine(tab, v, write, s)) == if x.Rejected? then u else NoteChoice(tab, u1, s);
    NoteChoiceElsewhere(tab, u1, s);
  }

  /** Only the choice itself notices its values. */
  lemma NoteChoiceElsewhere(tab: Table, u: Users, s: Sym)
    requires Declared(tab)
    ensures |NoteChoice(tab, u, s).val| == |u.val|
    ensures forall x: Sym :: HasFile(tab, x) ==>
      (x in NoteChoice(tab, u, s).has <==> x in u.has) && Val(NoteChoice(tab, u, s).val, x) == Val(u.val, x)
  {
    var c := Def(tab, s).choiceOf;
    if c.Some? {
      assert Def(tab, c.value).isChoice;
    }
  }

  /** Lines are printed only for what is written, which automatic symbols never are. */
  ghost predicate WritesOwn(tab: Table, write: set<Sym>) {
    forall s :: s in write ==> !Def(tab, s).auto
  }

  lemma NoFileNoLine(tab: Table, v: Values, write: set<Sym>, s: Sym)
    requires WritesOwn(tab, write) && !HasFile(tab, s)
    ensures AutoLine(tab, v, write, s) == ""
  {
  }

  ghost predicate Distinct(order: seq<Sym>) {
    forall i, j :: 0 <= i < j < |order| ==> order[i] != order[j]
  }

  /** The symbols in `done` have been read back, the others not. */
  ghost predicate AutoReading(tab: Table, v: Values, write: set<Sym>, done: set<Sym>, u: Users) {
    && |u.val| == |tab.t|
    && forall x: Sym :: HasFile(tab, x) ==> if x in done then AutoRestored(tab, v, write, u, x) else x !in u.has
  }

  lemma AutoReadingStep(tab: Table, v: Values, write: set<Sym>, done: set<Sym>, u: Users, s: Sym)
    requires Declared(tab) && WritesOwn(tab, write) && s !in done && (HasFile(tab, s) ==> CleanAt(tab, v, s))
    requires AutoReading(tab, v, write, done, u)
    ensures AutoLine(tab, v, write, s) != "" ==> IsLine(AutoLine(tab, v, write, s))
    ensures AutoReading(tab, v, write, done + {s},
                        if AutoLine(tab, v, write, s) != "" then ReadLine(tab, u, AutoLine(tab, v, write, s)) else u)
  {
    hide AutoLine, Declared, CleanAt, Storable, ReadLine, IsLine, HasFile;
    if AutoLine(tab, v, write, s) != "" {
      if !HasFile(tab, s) {
        NoFileNoLine(tab, v, write, s);
      } else {
        AutoLineReadsBack(tab, v, write, u, s);
      }
    }
  }

  lemma {:induction false} AutoReadsBack(tab: Table, v: Values, write: set<Sym>, order: seq<Sym>, done: set<Sym>,
                                         u: Users)
    requires Declared(tab) && WritesOwn(tab, write) && forall s: Sym :: HasFile(tab, s) ==> CleanAt(tab, v, s)
    requires Distinct(order) && (forall s :: s in order ==> s !in done) && AutoReading(tab, v, write, done, u)
    ensures var lines := AutoLines(tab, v, write, order);
      && (forall i :: 0 <= i < |lines| ==> IsLine(lines[i]))
      && AutoReading(tab, v, write, done + (set s | s in order), ReadLines(tab, u, lines))
    decreases |order|
  {
    hide AutoLine, Declared, CleanAt, WritesOwn, AutoReading, ReadLine, IsLine, HasFile;
    if order == [] {
      assert done + (set s | s in order) == done;
    } else {
      var s := order[0];
      AutoReadingStep(tab, v, write, done, u, s);
      var line := AutoLine(tab, v, write, s);
      var u' := if line != "" then ReadLine(tab, u, line) else u;
      AutoReadsBack(tab, v, write, order[1..], done + {s}, u');
      assert done + {s} + (set x | x in order[1..]) == done + (set x | x in order);
      var rest := AutoLines(tab, v, write, order[1..]);
      if line != "" {
        ReadLinesStep(tab, u, line, rest);
      } else {
        assert [] + rest == rest;
      }
    }
  }

  /** auto.conf as conf_write_autoconf leaves it. */
  ghost function AutoText(tab: Table, v: Values, write: set<Sym>, title: string, order: seq<Sym>): string {
    Concat(Heading(title) + AutoLines(tab, v, write, order))
  }

  /** The symbols of the table, in the order of the hash chains. */
  ghost predicate Lists(tab: Table, order: seq<Sym>) {
    Distinct(order) && forall s: Sym :: HasFile(tab, s) ==> s in order
  }

  lemma AutoTextReadsBack(tab: Table, v: Values, write: set<Sym>, title: string, order: seq<Sym>)
    requires Declared(tab) && WritesOwn(tab, write) && |tab.d| == |tab.t| && Lists(tab, order) && InertTitle(title)
    requires forall s: Sym :: HasFile(tab, s) ==> CleanAt(tab, v, s)
    ensures forall s: Sym :: HasFile(tab, s) ==>
      AutoRestored(tab, v, write, ReadFrom(tab, AutoText(tab, v, write, title, order)), s)
  {
    hide AutoLine, Declared, CleanAt, WritesOwn, ReadLine, IsLine, InertTitle, AutoRestored, Concat, Heading, Lines;
    var lines := AutoLines(tab, v, write, order);
    FreshFiles(tab, v, write);
    AutoReadsBack(tab, v, write, order, {}, Fresh(tab));
    TitleInert(title);
    InertSkipped(tab, Fresh(tab), Heading(title));
    ReadLinesAppend(tab, Fresh(tab), Heading(title), lines);
    HeadingLines(title) by { InertOneLine(title); }
    AreLines(Heading(title), lines);
    LinesOfConcat(Heading(title) + lines);
  }

  lemma FreshFiles(tab: Table, v: Values, write: set<Sym>)
    requires Declared(tab) && |tab.d| == |tab.t|
    ensures AutoReading(tab, v, write, {}, Fresh(tab))
  {
    forall x: Sym | HasFile(tab, x)
      ensures x !in Fresh(tab).has
    {
      assert Def(tab, x).isChoice ==> Def(tab, x).auto;
    }
  }

  // ----- no missed and no spurious touch -----

  /** Lines with equal names are equal when the values are. */
  lemma LinesTell(y: SymType, name: string, a: string, b: string)
    requires IsTyped(y) && !(IsLogical(y) && a != [] && a[0] == 'n') && !(IsLogical(y) && b != [] && b[0] == 'n')
    requires WriteSymbol(y, name, a, true) == WriteSymbol(y, name, b, true)
    ensures a == b
  {
    hide Escape;
    var x, z := if y == Str then Escape(a) else a, if y == Str then Escape(b) else b;
    assert WriteSymbol(y, name, a, true) == PREFIX + name + "=" + x + "\n";
    assert WriteSymbol(y, name, b, true) == PREFIX + name + "=" + z + "\n";
    SameTail(PREFIX + name + "=", x, z);
    if y == Str {
      EscapeInjective(a, b);
    }
  }

  lemma SameTail(p: string, x: string, z: string)
    requires p + x + "\n" == p + z + "\n"
    ensures x == z
  {
    var s := p + x + "\n";
    assert |x| == |z|;
    assert s[|p|..|s| - 1] == x && s[|p|..|s| - 1] == z;
  }

  /** With the symbol's line read from an auto.conf written for (v, write), its
      file is touched for (v', write') exactly when its line changed; if the
      value before was an int or hex that is not a number, the file is touched
      exactly when the symbol is written now, whatever the lines. */
  lemma TouchExact(tab: Table, v: Values, write: set<Sym>, v': Values, write': set<Sym>, a: Users, s: Sym)
    requires HasFile(tab, s) && CleanAt(tab, v, s) && CleanAt(tab, v', s) && AutoRestored(tab, v, write, a, s)
    ensures Touched(tab, v', s in write', a, s) <==>
      if s in write && !Storable(tab, v, s) then s in write'
      else AutoLine(tab, v', write', s) != AutoLine(tab, v, write, s)
  {
    hide Printable, WriteSymbol, StringOf, StringValid;
    AutoLineShape(tab, v, write, s);
    AutoLineShape(tab, v', write', s);
    var y, name := Typ(tab.t, s), Name(tab.t, s);
    var x, x' := StringOf(W(tab, v), s), StringOf(W(tab, v'), s);
    if AutoLine(tab, v, write, s) != "" && AutoLine(tab, v', write', s) == AutoLine(tab, v, write, s) {
      SpelledN(tab, v, s);
      SpelledN(tab, v', s);
      LinesTell(y, name, x, x');
    }
  }

  lemma SpelledN(tab: Table, v: Values, s: Sym)
    requires CleanAt(tab, v, s)
    ensures IsLogical(Typ(tab.t, s)) ==>
      (StringOf(W(tab, v), s) != [] && StringOf(W(tab, v), s)[0] == 'n' <==> Val(v, s).tri == NO)
  {
    hide StringOf, Printable;
  }

  /** From one written auto.conf to the next configuration, the files touched are
      those of the symbols whose line changed, as long as all int and hex values
      are numbers. */
  lemma SplitExact(tab: Table, v: Values, write: set<Sym>, v': Values, write': set<Sym>, title: string,
                   order: seq<Sym>, s: Sym)
    requires Declared(tab) && WritesOwn(tab, write) && |tab.d| == |tab.t| && Lists(tab, order) && InertTitle(title)
    requires forall x: Sym :: HasFile(tab, x) ==> CleanAt(tab, v, x)
    requires HasFile(tab, s) && CleanAt(tab, v', s)
    ensures var a := ReadFrom(tab, AutoText(tab, v, write, title, order));
      Touched(tab, v', s in write', a, s) <==>
      if s in write && !Storable(tab, v, s) then s in write'
      else AutoLine(tab, v', write', s) != AutoLine(tab, v, write, s)
  {
    hide AutoLine, Declared, CleanAt, WritesOwn, InertTitle, AutoRestored, Touched, Storable, HasFile, ReadFrom;
    AutoTextReadsBack(tab, v, write, title, order);
    TouchExact(tab, v, write, v', write', ReadFrom(tab, AutoText(tab, v, write, title, order)), s);
  }

  /** An int symbol without a value is touched every time, though its line stays
      the same. */
  lemma EmptyNumberTouched(tab: Table, v: Values, write: set<Sym>, a: Users, s: Sym)
    requires HasFile(tab, s) && Typ(tab.t, s) == Int && Val(v, s).str == "" && s in write
    requires AutoRestored(tab, v, write, a, s)
    ensures Touched(tab, v, s in write, a, s)
  {
  }

  // ----- the loop -----

  /** The path conf_split_config forms, in the directory include/config. */
  method SplitPath(name: string) returns (path: string)
    ensures path == Fixdep.PathOf(name) + ".h"
    ensures Fixdep.WildcardLine(name) == "    $(wildcard include/config/" + path + ") \\\n"
  {
    var d := "";
    var i := 0;
    while i < |name|
      invariant i == |d| <= |name|
      invariant forall k :: 0 <= k < i ==> d[k] == Fixdep.PathChar(name[k])
    {
      var c := Fixdep.ToLower(name[i]);
      d := d + [if c == '_' then '/' else c];
      i := i + 1;
    }
    assert d == Fixdep.PathOf(name);
    path := d + ".h";
    SamePath(d);
  }

  lemma SamePath(d: string)
    ensures "    $(wildcard include/config/" + d + ".h) \\\n" ==
            "    $(wildcard include/config/" + (d + ".h") + ") \\\n"
  {
    assert ".h) \\\n" == ".h" + ") \\\n";
    assert "    $(wildcard include/config/" + d + (".h" + ") \\\n") ==
           "    $(wildcard include/config/" + (d + ".h") + ") \\\n";
  }

  /** The paths touched, for the symbols from i on. */
  function TouchedPaths(tab: Table, v: Values, write: set<Sym>, a: Users, i: nat): seq<string>
    requires i <= |tab.t|
    decreases |tab.t| - i
  {
    if i == |tab.t| then []
    else
      (if IsTyped(Typ(tab.t, i)) && Touched(tab, v, i in write, a, i)
       then [Fixdep.PathOf(Name(tab.t, i)) + ".h"] else []) +
      TouchedPaths(tab, v, write, a, i + 1)
  }

  /** The paths touched are those of the symbols the decision falls on, and no path but
      theirs. */
  lemma {:induction false} TouchedExactly(tab: Table, v: Values, write: set<Sym>, a: Users, i: nat, path: string)
    requires i <= |tab.t|
    ensures path in TouchedPaths(tab, v, write, a, i) <==>
      exists s: Sym :: i <= s < |tab.t| && IsTyped(Typ(tab.t, s)) && Touched(tab, v, s in write, a, s) &&
        path == Fixdep.PathOf(tab.t[s].name) + ".h"
    decreases |tab.t| - i
  {
    hide Touched, IsTyped;
    if i < |tab.t| {
      TouchedExactly(tab, v, write, a, i + 1, path);
      assert Name(tab.t, i) == tab.t[i].name;
    }
  }

  /** conf_split_config, for the symbols Kconfig declares. */
  method SplitConfig(ev: Evaluator, oldText: string, ghost rank: Rank) returns (touched: seq<string>)
    requires ev.Ready(rank) && ChoiceFree(ev.tab)
    modifies ev
    ensures var v := old(ev.Target(rank)).sol;
      touched == TouchedPaths(ev.tab, v, FullSet(ev.tab, v), ReadFrom(ev.tab, oldText), 0)
  {
    hide *;
    ghost var g := ev.Target(rank);
    ghost var write := FullSet(ev.tab, g.sol);
    ghost var whole := TouchedPaths(ev.tab, g.sol, write, ReadFrom(ev.tab, oldText), 0);
    // conf_read_simple(name, S_DEF_AUTO): the same reading, into the other slot
    var a := ReadFrom(ev.tab, oldText);
    assert Savable(ev, false, rank) by { SavableFresh(ev, rank); }
    StartPrinting(ev, false, rank);
    touched := [];
    NothingTouched(whole);
    var s := 0;
    while s < |ev.tab.t|
      invariant s <= |ev.tab.t| && Printing(ev, g, write)
      invariant touched + TouchedPaths(ev.tab, g.sol, write, a, s) == whole
    {
      CalcPrinting(ev, s, g, write);
      TouchedStep(ev, g, write, a, s, touched);
      if IsTyped(Typ(ev.tab.t, s)) && Touched(ev.tab, ev.curr, s in ev.write, a, s) {
        var path := SplitPath(Name(ev.tab.t, s));
        touched := touched + [path];
      }
      s := s + 1;
    }
    AllTouched(ev.tab, g.sol, write, a, touched);
  }

  lemma SavableFresh(ev: Evaluator, rank: Rank)
    requires ev.Ready(rank) && ChoiceFree(ev.tab)
    ensures Savable(ev, false, rank)
  {
    hide ev.Ready, ChoiceFree;
  }

  lemma NothingTouched(whole: seq<string>)
    ensures [] + whole == whole
  {
  }

  lemma TouchedStep(ev: Evaluator, g: Goal, write: set<Sym>, a: Users, s: Sym, touched: seq<string>)
    requires Printing(ev, g, write) && s < |ev.tab.t| && s in ev.valid
    ensures var rest := TouchedPaths(ev.tab, g.sol, write, a, s + 1);
      var now := IsTyped(Typ(ev.tab.t, s)) && Touched(ev.tab, ev.curr, s in ev.write, a, s);
      touched + TouchedPaths(ev.tab, g.sol, write, a, s) ==
        (if now then touched + [Fixdep.PathOf(Name(ev.tab.t, s)) + ".h"] else touched) + rest
  {
    hide Printing, Visibility, RevTri, StringOf, WriteSymbol;
    StringPrinted(ev, g, write, s);
    FlagOf(ev, g, write, s);
    PrintingValue(ev, g, write, s);
    var rest := TouchedPaths(ev.tab, g.sol, write, a, s + 1);
    var p := Fixdep.PathOf(Name(ev.tab.t, s)) + ".h";
    assert touched + ([p] + rest) == touched + [p] + rest;
    assert touched + ([] + rest) == touched + rest;
  }

  lemma PrintingValue(ev: Evaluator, g: Goal, todo: set<Sym>, s: Sym)
    requires Printing(ev, g, todo) && s < |ev.tab.t| && s in ev.valid
    ensures Val(ev.curr, s) == Val(g.sol, s)
  {
    hide Visibility, RevTri, WellFormed, Flagged, GoalOk, ev.Exact;
    FinishedValue(ev, g, s);
  }

  lemma AllTouched(tab: Table, v: Values, write: set<Sym>, a: Users, touched: seq<string>)
    ensures touched + TouchedPaths(tab, v, write, a, |tab.t|) == touched
  {
  }
}
