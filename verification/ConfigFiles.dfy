/** Reading and writing configuration files over the evaluator: the loops of
    conf_read_simple (confdata.c:290-404), conf_write (confdata.c:785-823) and
    conf_write_defconfig (confdata.c:668-739). */
module ConfigFiles {
  import opened Tristates
  import opened Exprs
  import opened SymbolEquations
  import opened Layering
  import opened Solutions
  import opened ConfText
  import opened Quoting
  import opened Saving
  import opened SavedChoices
  import opened Configurations
  import opened Evaluation
  import opened Forests
  import opened Menus

  // ----- reading -----

  /** compat_getline: the line at offset p and the offset after it. */
  method GetLine(text: string, p: nat) returns (next: nat)
    requires p < |text|
    ensures p < next <= |text|
    ensures Lines(text[p..]) == [text[p..next]] + Lines(text[next..])
  {
    hide Lines;
    var i := p;
    while i < |text| && text[i] != '\n'
      invariant p <= i <= |text|
      invariant forall k :: p <= k < i ==> text[k] != '\n'
    {
      i := i + 1;
    }
    next := if i < |text| then i + 1 else i;
    LineFrom(text, p, i);
  }

  lemma LineFrom(text: string, p: nat, i: nat)
    requires p <= i <= |text| && p < |text| && (forall k :: p <= k < i ==> text[k] != '\n')
    requires i < |text| ==> text[i] == '\n'
    ensures var next := if i < |text| then i + 1 else i;
      Lines(text[p..]) == [text[p..next]] + Lines(text[next..])
  {
    hide Lines;
    var next := if i < |text| then i + 1 else i;
    LineAt(text[p..], i - p);
    assert text[p..][..next - p] == text[p..next];
    assert text[p..][next - p..] == text[next..];
  }

  lemma LineAt(s: string, k: nat)
    requires s != [] && k <= |s| && (forall j :: 0 <= j < k ==> s[j] != '\n') && (k < |s| ==> s[k] == '\n')
    ensures var e := if k < |s| then k + 1 else k;
      Lines(s) == [s[..e]] + Lines(s[e..])
  {
    hide IndexOf;
    if k < |s| {
      IndexOfFound(s, '\n', 0, k);
    } else {
      assert IndexOf(s, '\n', 0) == |s|;
      assert s[..k] == s && s[k..] == [];
    }
  }

  /** sym_find over the symbol chain. */
  method FindSymbol(t: Symbols, name: string) returns (r: Option<Sym>)
    ensures r == Find(t, name)
  {
    if name == "y" || name == "m" || name == "n" {
      return Find(t, name);
    }
    var i := 0;
    while i < |t|
      invariant i <= |t| && FindFrom(t, name, i) == FindFrom(t, name, 0)
    {
      if t[i].name != "" && t[i].name == name && !t[i].isConst {
        return Some(i);
      }
      i := i + 1;
    }
    return None;
  }

  /** conf_set_sym_val, which unescapes a string in place. */
  method TakeText(y: SymType, text: string) returns (x: Stored)
    ensures x == AcceptText(y, text)
  {
    if (y == Str || y == Other) && text != [] && text[0] == '"' {
      var n := |text| - 1;
      var buf := new char[n](i requires 0 <= i < n => text[i + 1]);
      assert buf[..n] == text[1..];
      var ok, m := UnescapeInPlace(buf, n);
      // no text is valid for the type a symbol has before it is declared
      x := if ok && y == Str then StoredText(buf[..m]) else Rejected;
    } else {
      x := AcceptText(y, text);
    }
  }

  /** The flags and values conf_read_simple resets first. */
  method ResetUser(ev: Evaluator)
    requires ev.Wf() && ev.Idle()
    modifies ev`user, ev`hasUser, ev`valid
    ensures ev.Wf() && ev.Idle() && ev.valid == {NO_SYM, MOD_SYM, YES_SYM}
    ensures Users(ev.hasUser, ev.user) == Fresh(ev.tab)
  {
    ev.valid := {NO_SYM, MOD_SYM, YES_SYM};
    ev.hasUser := set c: Sym | c < |ev.tab.d| && ev.tab.d[c].isChoice;
    ev.user := seq(|ev.tab.t|, _ => Value(NO, "", None));
  }

  /** Storing a value for a symbol found by name. */
  method StoreValue(ev: Evaluator, s: Sym, x: Stored)
    requires ev.Wf() && s < |ev.tab.t|
    modifies ev`user, ev`hasUser
    ensures ev.Wf()
    ensures Users(ev.hasUser, ev.user) == Store(Users(old(ev.hasUser), old(ev.user)), s, x)
  {
    match x
    case StoredTri(t) =>
      ev.user := ev.user[s := ev.user[s].(tri := t)];
      ev.hasUser := ev.hasUser + {s};
    case StoredText(str) =>
      ev.user := ev.user[s := ev.user[s].(str := str)];
      ev.hasUser := ev.hasUser + {s};
    case Rejected =>
    case Untouched =>
  }

  /** The setsym part of conf_read_simple, case by case. */
  method TellChoice(ev: Evaluator, s: Sym)
    requires ev.Wf() && s < |ev.tab.t|
    requires forall c :: Def(ev.tab, s).choiceOf == Some(c) ==> c < |ev.tab.t|
    modifies ev`user, ev`hasUser
    ensures ev.Wf()
    ensures Users(ev.hasUser, ev.user) == NoteChoice(ev.tab, Users(old(ev.hasUser), old(ev.user)), s)
  {
    if Def(ev.tab, s).choiceOf.None? {
      return;
    }
    var c := Def(ev.tab, s).choiceOf.value;
    var x, was := ev.user[s].tri, ev.user[c];
    if x == MOD && was.tri == YES {
      ev.hasUser := ev.hasUser - {c};
    }
    if x == YES {
      ev.user := ev.user[c := ev.user[c].(pick := Some(s))];
    }
    ev.user := ev.user[c := ev.user[c].(tri := TriOr(was.tri, x))];
  }

  /** A table whose choice values belong to symbols of the table. */
  ghost predicate ChoicesInTable(tab: Table) {
    forall s: Sym, c: Sym :: Def(tab, s).choiceOf == Some(c) ==> c < |tab.t|
  }

  /** One line of the file. */
  method ReadOneLine(ev: Evaluator, line: string)
    requires ev.Wf() && ChoicesInTable(ev.tab)
    modifies ev`user, ev`hasUser
    ensures ev.Wf()
    ensures Users(ev.hasUser, ev.user) == ReadLine(ev.tab, Users(old(ev.hasUser), old(ev.user)), line)
  {
    hide ParseLine, AcceptText, Store, NoteChoice;
    var l := ParseLine(line);
    if l.Ignored? {
      return;
    }
    var found := FindSymbol(ev.tab.t, l.name);
    if found.None? {
      return;
    }
    var s := found.value;
    FoundInTable(ev.tab.t, l.name);
    var x := Untouched;
    if l.Assigned? {
      x := TakeText(Typ(ev.tab.t, s), l.text);
      if x.Rejected? {
        return;
      }
    } else if IsLogical(Typ(ev.tab.t, s)) {
      x := StoredTri(NO);
    }
    StoreValue(ev, s, x);
    TellChoice(ev, s);
  }

  lemma FoundInTable(t: Symbols, name: string)
    requires |t| > 2 && Find(t, name).Some?
    ensures Find(t, name).value < |t|
  {
  }

  /** conf_read_simple. */
  method ReadSimple(ev: Evaluator, text: string)
    requires ev.Wf() && ev.Idle() && ChoicesInTable(ev.tab)
    modifies ev`user, ev`hasUser, ev`valid
    ensures ev.Wf() && ev.Idle() && ev.valid == {NO_SYM, MOD_SYM, YES_SYM}
    ensures Users(ev.hasUser, ev.user) == ReadFrom(ev.tab, text)
  {
    hide ReadLine, Fresh, Lines;
    ResetUser(ev);
    var p := 0;
    assert text[0..] == text;
    while p < |text|
      invariant p <= |text|
      invariant ev.Wf() && ev.Idle() && ev.valid == {NO_SYM, MOD_SYM, YES_SYM}
      invariant ReadLines(ev.tab, Users(ev.hasUser, ev.user), Lines(text[p..])) == ReadFrom(ev.tab, text)
    {
      var next := GetLine(text, p);
      ReadLinesStep(ev.tab, Users(ev.hasUser, ev.user), text[p..next], Lines(text[next..]));
      ReadOneLine(ev, text[p..next]);
      p := next;
    }
    NoLines(text[p..]);
  }

  lemma ReadLinesStep(tab: Table, u: Users, line: string, rest: seq<string>)
    ensures ReadLines(tab, u, [line] + rest) == ReadLines(tab, ReadLine(tab, u, line), rest)
  {
    hide ReadLine;
    assert ([line] + rest)[1..] == rest;
  }

  lemma NoLines(text: string)
    requires text == []
    ensures Lines(text) == []
  {
  }

  // ----- writing -----

  /** The evaluator between two calls, all it holds agreeing with g, and the
      WRITE flag set exactly for the symbols still to be printed. */
  ghost predicate Printing(ev: Evaluator, g: Goal, todo: set<Sym>)
    reads ev
  {
    && ev.Wf() && ev.Idle() && ev.Exact(g) && GoalOk(ev.tab, g) && ev.tab.modules in ev.valid
    && Flagged(ev.tab, g, ev.valid, ev.write, todo)
  }

  /** A valid symbol has the WRITE flag if and only if it is still to be printed;
      one not yet evaluated will get it if and only if it is. */
  ghost predicate Flagged(tab: Table, g: Goal, valid: set<Sym>, write: set<Sym>, todo: set<Sym>) {
    forall s: Sym :: s < |tab.t| && IsTyped(Typ(tab.t, s)) ==>
      if s in valid then s in write <==> s in todo
      else s in todo <==> Written(tab, ModulesOf(tab, g), g.sol, s)
  }

  lemma FlaggedAfter(tab: Table, g: Goal, a: Snapshot, b: Snapshot, todo: set<Sym>)
    requires ChoiceFree(tab) && Keeps(tab, g, a, b, {}) && Flagged(tab, g, a.valid, a.write, todo)
    ensures Flagged(tab, g, b.valid, b.write, todo)
  {
    hide Written, IsShielded;
    forall s: Sym | s < |tab.t| && IsTyped(Typ(tab.t, s))
      ensures if s in b.valid then s in b.write <==> s in todo
              else s in todo <==> Written(tab, ModulesOf(tab, g), g.sol, s)
    {
      ChoiceFreeAt(tab, s);
      assert OwnsWrite(tab, s);
    }
  }

  /** sym_calc_value while printing. */
  method CalcPrinting(ev: Evaluator, s: Sym, ghost g: Goal, ghost todo: set<Sym>)
    requires Printing(ev, g, todo) && ChoiceFree(ev.tab) && s < |ev.tab.t|
    modifies ev
    ensures Printing(ev, g, todo) && s in ev.valid
  {
    hide Flagged, GoalOk, ev.Exact, Keeps, ChoiceFree, WellFormed;
    ghost var before := ev.Now();
    ev.CalcValue(s, Some(g));
    FlaggedAfter(ev.tab, g, before, ev.Now(), todo);
  }

  lemma FinishedValue(ev: Evaluator, g: Goal, s: Sym)
    requires ev.Wf() && ev.Idle() && ev.Exact(g) && s < |ev.tab.t| && s in ev.valid
    ensures |g.sol| == |ev.curr| == |ev.tab.t| && ev.tab.modules < |ev.tab.t| && ev.Finished(g, s)
  {
    hide Visibility, RevTri, WellFormed;
  }

  /** What the evaluator prints for an evaluated symbol. */
  lemma StringPrinted(ev: Evaluator, g: Goal, todo: set<Sym>, s: Sym)
    requires Printing(ev, g, todo) && s < |ev.tab.t| && s in ev.valid
    ensures StringOf(W(ev.tab, ev.curr), s) == StringOf(W(ev.tab, g.sol), s)
    ensures SymbolLine(ev.tab, ev.curr, s) == SymbolLine(ev.tab, g.sol, s)
  {
    hide Visibility, RevTri, WellFormed, Flagged, GoalOk, ev.Exact, WriteSymbol;
    FinishedValue(ev, g, s);
    FinishedValue(ev, g, ev.tab.modules);
  }

  method ClearWrite(ev: Evaluator, s: Sym, ghost g: Goal, ghost todo: set<Sym>)
    requires Printing(ev, g, todo) && s in ev.valid
    modifies ev`write
    ensures Printing(ev, g, todo - {s})
    ensures ev.curr == old(ev.curr)
  {
    hide Visibility, RevTri, WellFormed, GoalOk, Written;
    ev.write := ev.write - {s};
  }

  /** One symbol of conf_write. */
  method PrintItem(ev: Evaluator, s: Sym, ghost g: Goal, ghost todo: set<Sym>) returns (text: string)
    requires Printing(ev, g, todo) && ChoiceFree(ev.tab) && s < |ev.tab.t|
    modifies ev
    ensures Printing(ev, g, todo - {s})
    ensures text == if s in todo && IsTyped(Typ(ev.tab.t, s)) then SymbolLine(ev.tab, g.sol, s) else ""
  {
    hide Printing, ChoiceFree, SymbolLine, WellFormed;
    CalcPrinting(ev, s, g, todo);
    FlagOf(ev, g, todo, s);
    if s !in ev.write {
      Unflagged(ev, g, todo, s);
      return "";
    }
    ClearWrite(ev, s, g, todo);
    StringPrinted(ev, g, todo - {s}, s);
    text := SymbolLine(ev.tab, ev.curr, s);
    UntypedLine(ev.tab, ev.curr, s);
  }

  lemma UntypedLine(tab: Table, v: Values, s: Sym)
    ensures !IsTyped(Typ(tab.t, s)) ==> SymbolLine(tab, v, s) == ""
  {
  }

  lemma Unflagged(ev: Evaluator, g: Goal, todo: set<Sym>, s: Sym)
    requires Printing(ev, g, todo) && s < |ev.tab.t| && s in ev.valid && s !in ev.write
    ensures Printing(ev, g, todo - {s})
  {
    hide ev.Exact, GoalOk, WellFormed, Written;
  }

  lemma FlagOf(ev: Evaluator, g: Goal, todo: set<Sym>, s: Sym)
    requires Printing(ev, g, todo) && s < |ev.tab.t| && s in ev.valid
    ensures IsTyped(Typ(ev.tab.t, s)) ==> (s in ev.write <==> s in todo)
  {
    hide ev.Exact, GoalOk, WellFormed, Written;
  }

  /** The entries name symbols of the table. */
  ghost predicate EntriesIn(tab: Table, entry: seq<Entry>) {
    forall i :: 0 <= i < |entry| && entry[i].Item? ==> entry[i].sym < |tab.t|
  }

  /** The lines of one entry. */
  function EntryPart(tab: Table, v: Values, e: Entry, todo: set<Sym>, titles: bool): seq<string> {
    match e
    case Title(text, shown) => if titles && shown then TitleLines(text) else []
    case Item(s) => if s in todo && IsTyped(Typ(tab.t, s)) then [SymbolLine(tab, v, s)] else []
  }

  lemma EntryLinesStep(tab: Table, v: Values, e: Entry, rest: seq<Entry>, todo: set<Sym>, titles: bool)
    ensures EntryLines(tab, v, [e] + rest, todo, titles) ==
      EntryPart(tab, v, e, todo, titles) + EntryLines(tab, v, rest, todo - Items([e]), titles)
  {
    hide SymbolLine, TitleLines;
    assert ([e] + rest)[1..] == rest;
    assert Items([e]) == if e.Item? then {e.sym} else {} by { assert Items([e][1..]) == {}; }
    if e.Title? {
      assert todo - Items([e]) == todo;
    } else if e.sym !in todo {
      assert todo - {e.sym} == todo;
    } else if !IsTyped(Typ(tab.t, e.sym)) {
      UntypedTodo(tab, v, rest, todo, e.sym, titles);
    }
  }

  /** A symbol without a printable type is never printed. */
  lemma {:induction false} UntypedTodo(tab: Table, v: Values, entries: seq<Entry>, todo: set<Sym>, s: Sym, titles: bool)
    requires !IsTyped(Typ(tab.t, s))
    ensures EntryLines(tab, v, entries, todo, titles) == EntryLines(tab, v, entries, todo - {s}, titles)
  {
    hide SymbolLine, TitleLines;
    if entries != [] {
      if entries[0].Item? && entries[0].sym in todo && IsTyped(Typ(tab.t, entries[0].sym)) {
        UntypedTodo(tab, v, entries[1..], todo - {entries[0].sym}, s, titles);
        assert todo - {entries[0].sym} - {s} == todo - {s} - {entries[0].sym};
      } else {
        UntypedTodo(tab, v, entries[1..], todo, s, titles);
      }
    }
  }

  lemma {:induction false} ConcatAppend(a: seq<string>, b: seq<string>)
    ensures Concat(a + b) == Concat(a) + Concat(b)
  {
    if a == [] {
      assert a + b == b;
    } else {
      ConcatAppend(a[1..], b);
      assert (a + b)[1..] == a[1..] + b;
      assert a[0] + (Concat(a[1..]) + Concat(b)) == a[0] + Concat(a[1..]) + Concat(b);
    }
  }

  lemma ConcatOne(line: string)
    ensures Concat([line]) == line && Concat([]) == ""
  {
    assert [line][1..] == [];
    assert line + "" == line;
  }

  lemma TitleText(text: string)
    ensures Concat(TitleLines(text)) == "\n#\n# " + text + "\n#\n"
  {
    var a, b, c, d := "\n", "#\n", "# " + text + "\n", "#\n";
    assert TitleLines(text) == [a] + ([b] + ([c] + [d]));
    ConcatAppend([c], [d]);
    ConcatAppend([b], [c] + [d]);
    ConcatAppend([a], [b] + ([c] + [d]));
    ConcatOne(a);
    ConcatOne(b);
    ConcatOne(c);
    ConcatOne(d);
  }

  /** One menu of conf_write. */
  method PrintEntry(ev: Evaluator, e: Entry, ghost g: Goal, ghost todo: set<Sym>) returns (text: string)
    requires Printing(ev, g, todo) && ChoiceFree(ev.tab) && (e.Item? ==> e.sym < |ev.tab.t|)
    modifies ev
    ensures Printing(ev, g, todo - Items([e]))
    ensures text == Concat(EntryPart(ev.tab, g.sol, e, todo, true))
  {
    hide Printing, ChoiceFree, SymbolLine, TitleLines, Concat;
    assert Items([e]) == if e.Item? then {e.sym} else {} by { assert Items([e][1..]) == {}; }
    match e
    case Title(title, shown) =>
      assert todo - Items([e]) == todo;
      text := if shown then "\n#\n# " + title + "\n#\n" else "";
      TitleText(title);
      ConcatOne("");
    case Item(s) =>
      text := PrintItem(ev, s, g, todo);
      ConcatOne(SymbolLine(ev.tab, g.sol, s));
  }

  // ----- the loop over the menus -----

  /** What the walk over the nodes comes by. */
  function EntriesOf(entry: seq<Entry>, nodes: seq<Node>): seq<Entry> {
    if nodes == [] then []
    else (if nodes[0] < |entry| then [entry[nodes[0]]] else []) + EntriesOf(entry, nodes[1..])
  }

  lemma EntriesOfStep(entry: seq<Entry>, m: Node, rest: seq<Node>)
    requires m < |entry|
    ensures EntriesOf(entry, [m] + rest) == [entry[m]] + EntriesOf(entry, rest)
  {
    assert ([m] + rest)[1..] == rest;
  }

  /** The evaluator as conf_write finds it: unsaved changes leave the evaluated
      symbols alone. */
  ghost predicate Savable(ev: Evaluator, changed: bool, rank: Rank)
    reads ev
  {
    && ev.Ready(rank) && ChoiceFree(ev.tab)
    && (changed ==> ev.Exact(ev.Target(rank)) && ev.WritesExact(ev.Target(rank)) && ev.tab.modules in ev.valid)
  }

  /** sym_clear_all_valid, if nothing is unsaved. */
  method StartPrinting(ev: Evaluator, changed: bool, ghost rank: Rank)
    requires Savable(ev, changed, rank)
    modifies ev
    ensures Printing(ev, old(ev.Target(rank)), FullSet(ev.tab, old(ev.Target(rank)).sol)) && ChoiceFree(ev.tab)
  {
    hide Layered, PicksMember, WellFormed, Written, IsSolution, Solved, ev.Exact, Visibility, RevTri;
    ghost var g := ev.Target(rank);
    if changed {
      ev.TargetOk(rank);
    } else {
      ev.ClearAllValid(rank);
    }
    FlagsAtStart(ev, g);
  }

  lemma FlagsAtStart(ev: Evaluator, g: Goal)
    requires ChoiceFree(ev.tab) && ev.WritesExact(g)
    ensures Flagged(ev.tab, g, ev.valid, ev.write, FullSet(ev.tab, g.sol))
  {
    hide Written;
    forall s: Sym
      ensures Def(ev.tab, s).choiceOf.None?
    {
      ChoiceFreeAt(ev.tab, s);
    }
  }

  /** The nodes still ahead of the walk. */
  ghost function Ahead(menu: Option<Node>, f: Forest, tr: Trail): seq<Node> {
    if menu.Some? then Pre(f) + Rest(tr) else []
  }

  lemma OneEntryPrinted(tab: Table, v: Values, entry: seq<Entry>, m: Node, rest: seq<Node>, todo: set<Sym>,
                        before: string,
                        text: string, whole: string, titles: bool)
    requires m < |entry|
    requires before + Concat(EntryLines(tab, v, EntriesOf(entry, [m] + rest), todo, titles)) == whole
    requires text == Concat(EntryPart(tab, v, entry[m], todo, titles))
    ensures before + text + Concat(EntryLines(tab, v, EntriesOf(entry, rest), todo - Items([entry[m]]), titles)) ==
            whole
  {
    hide EntryLines, EntryPart, Concat, EntriesOf;
    EntriesOfStep(entry, m, rest);
    var tail := EntryLines(tab, v, EntriesOf(entry, rest), todo - Items([entry[m]]), titles);
    EntryLinesStep(tab, v, entry[m], EntriesOf(entry, rest), todo, titles);
    ConcatAppend(EntryPart(tab, v, entry[m], todo, titles), tail);
    assert before + (text + Concat(tail)) == before + text + Concat(tail);
  }

  /** conf_write: the heading, and the entries of all menus in preorder. `entry`
      gives the entry of each menu. */
  method WriteConf(ev: Evaluator, menus: MenuTree, top: Node, ghost f: Forest, entry: seq<Entry>, title: string,
                   changed: bool, ghost rank: Rank) returns (text: string)
    requires Savable(ev, changed, rank) && EntriesIn(ev.tab, entry)
    requires menus.Shaped() && |entry| == |menus.sym| && top < |menus.sym|
    requires menus.next[top] == None && menus.parent[top] == None
    requires Rep(menus.L(), menus.list[top], f, Some(top), None)
    modifies ev
    ensures var v := old(ev.Target(rank)).sol;
      text == FullText(ev.tab, v, title, EntriesOf(entry, Pre(f)), FullSet(ev.tab, v))
    ensures ev.Wf() && ev.Idle() && ev.Exact(old(ev.Target(rank)))
  {
    hide *;
    ghost var g := ev.Target(rank);
    ghost var todo := FullSet(ev.tab, g.sol);
    ghost var whole := FullText(ev.tab, g.sol, title, EntriesOf(entry, Pre(f)), todo);
    StartPrinting(ev, changed, rank);
    text := Concat(Heading(title));
    FullTextParts(ev.tab, g.sol, title, EntriesOf(entry, Pre(f)), todo);
    menus.WalkStart(top, f);
    var menu := menus.list[top];
    ghost var h, up, tr := f, Some(top), Done;
    StartAhead(menu, f);
    while menu.Some?
      invariant Printing(ev, g, todo)
      invariant menu.Some? ==> Stands(menus.L(), top, menu.value, h, up, tr)
      invariant text + Concat(EntryLines(ev.tab, g.sol, EntriesOf(entry, Ahead(menu, h, tr)), todo, true)) == whole
      decreases |Ahead(menu, h, tr)|
    {
      var m := menu.value;
      InTree(menus, top, m, h, up, tr, entry, ev.tab);
      var part := PrintEntry(ev, entry[m], g, todo);
      ghost var h0, tr0 := h, tr;
      menu, h, up, tr := menus.Advance(top, m, h, up, tr);
      AheadStep(m, h0, tr0, menu, h, tr);
      OneEntryPrinted(ev.tab, g.sol, entry, m, Ahead(menu, h, tr), todo, text, part, whole, true);
      text := text + part;
      todo := todo - Items([entry[m]]);
    }
    NothingAhead(ev.tab, g.sol, entry, todo, text, true);
    PrintingExact(ev, g, todo);
  }

  lemma FullTextParts(tab: Table, v: Values, title: string, entries: seq<Entry>, todo: set<Sym>)
    ensures Concat(Heading(title)) + Concat(EntryLines(tab, v, entries, todo, true)) ==
            FullText(tab, v, title, entries, todo)
  {
    hide EntryLines, Concat, Heading;
    ConcatAppend(Heading(title), EntryLines(tab, v, entries, todo, true));
  }

  lemma StartAhead(menu: Option<Node>, f: Forest)
    requires menu == Head(f, None)
    ensures Ahead(menu, f, Done) == Pre(f)
    ensures menu.Some? ==> f.Cons? && menu == Some(f.id)
  {
    assert Pre(f) + [] == Pre(f);
  }

  lemma AheadStep(m: Node, h: Forest, tr: Trail, menu': Option<Node>, h': Forest, tr': Trail)
    requires Pre(h) + Rest(tr) == [m] + if menu'.Some? then Pre(h') + Rest(tr') else []
    ensures Ahead(Some(m), h, tr) == [m] + Ahead(menu', h', tr')
    ensures |Ahead(menu', h', tr')| < |Ahead(Some(m), h, tr)|
  {
  }

  lemma InTree(menus: MenuTree, top: Node, m: Node, f: Forest, up: Option<Node>, tr: Trail, entry: seq<Entry>,
               tab: Table)
    requires menus.Shaped() && Stands(menus.L(), top, m, f, up, tr) && |entry| == |menus.sym| && EntriesIn(tab, entry)
    ensures m < |entry| && (entry[m].Item? ==> entry[m].sym < |tab.t|)
  {
    hide WellFormed, Rep;
    StandsParts(menus.L(), top, m, f, up, tr);
  }

  lemma NothingAhead(tab: Table, v: Values, entry: seq<Entry>, todo: set<Sym>, text: string, titles: bool)
    ensures forall h, tr ::
      text + Concat(EntryLines(tab, v, EntriesOf(entry, Ahead(None, h, tr)), todo, titles)) == text
  {
    assert text + "" == text;
  }

  lemma PrintingExact(ev: Evaluator, g: Goal, todo: set<Sym>)
    requires Printing(ev, g, todo)
    ensures ev.Wf() && ev.Idle() && ev.Exact(g)
  {
    hide ev.Exact, GoalOk, WellFormed;
  }

  // ----- minimal configurations -----

  /** A state in which conditions of evaluated symbols can be read again. */
  ghost predicate Rereading(ev: Evaluator, g: Goal, todo: set<Sym>, s: Sym)
    reads ev
  {
    && Printing(ev, g, todo) && ChoiceFree(ev.tab) && s < |ev.tab.t| && IsTyped(Typ(ev.tab.t, s)) && s in ev.valid
    && ev.Context(Some(g), g.rank(s), None)
  }

  lemma RereadingStart(ev: Evaluator, g: Goal, todo: set<Sym>, s: Sym)
    requires Printing(ev, g, todo) && ChoiceFree(ev.tab) && s < |ev.tab.t| && IsTyped(Typ(ev.tab.t, s)) && s in ev.valid
    ensures Rereading(ev, g, todo, s)
  {
    hide Flagged, GoalOk, ev.Exact, WellFormed, ChoiceFree;
  }

  lemma RereadingAfter(ev: Evaluator, g: Goal, todo: set<Sym>, s: Sym, a: Snapshot)
    requires ev.Wf() && ev.Idle() && ev.Context(Some(g), g.rank(s), None)
    requires ChoiceFree(ev.tab) && s < |ev.tab.t| && IsTyped(Typ(ev.tab.t, s)) && s in a.valid
    requires ev.tab.modules in a.valid
    requires Keeps(ev.tab, g, a, ev.Now(), {}) && Flagged(ev.tab, g, a.valid, a.write, todo)
    ensures Rereading(ev, g, todo, s)
  {
    FlaggedAfter(ev.tab, g, a, ev.Now(), todo);
    hide Flagged, GoalOk, ev.Exact, WellFormed, Written, IsShielded;
  }

  lemma RereadingParts(ev: Evaluator, g: Goal, todo: set<Sym>, s: Sym)
    requires Rereading(ev, g, todo, s)
    ensures ev.Wf() && ev.Idle() && ev.Context(Some(g), g.rank(s), None) && Printing(ev, g, todo)
    ensures ChoiceFree(ev.tab) && s < |ev.tab.t| && IsTyped(Typ(ev.tab.t, s)) && s in ev.valid
    ensures ev.tab.modules in ev.valid
    ensures Flagged(ev.tab, g, ev.valid, ev.write, todo)
    ensures DefaultsBelow(ev.tab, g.rank, s) && !Def(ev.tab, s).isChoice
  {
    hide Flagged, ev.Exact, WellFormed, ev.Context;
    assert SymbolLayered(ev.tab, g.rank, s);
  }

  /** expr_calc_value on a condition of s. */
  method Reread(ev: Evaluator, e: Option<Expr>, s: Sym, ghost g: Goal, ghost todo: set<Sym>) returns (x: Tri)
    requires Rereading(ev, g, todo, s) && BelowOpt(ev.tab, g.rank, g.rank(s), None, e)
    modifies ev
    ensures Rereading(ev, g, todo, s)
    ensures x == EvalOpt(W(ev.tab, g.sol), e)
  {
    hide Flagged, GoalOk, ev.Exact, ev.Context, Keeps, WellFormed, Rereading, Printing, ChoiceFree, Eval, DefaultsBelow;
    RereadingParts(ev, g, todo, s);
    ghost var before := ev.Now();
    x := ev.CalcOpt(e, Some(g), g.rank(s), None);
    RereadingAfter(ev, g, todo, s, before);
  }

  /** sym_get_default_prop again. */
  method FindDefault(ev: Evaluator, s: Sym, ghost g: Goal, ghost todo: set<Sym>) returns (i: nat, cond: Tri)
    requires Rereading(ev, g, todo, s)
    modifies ev
    ensures Rereading(ev, g, todo, s)
    ensures i <= |Def(ev.tab, s).defaults| && i == FirstDefault(ev.tab, g.sol, Def(ev.tab, s).defaults, 0)
    ensures i < |Def(ev.tab, s).defaults| ==> cond == EvalOpt(W(ev.tab, g.sol), Def(ev.tab, s).defaults[i].cond)
  {
    hide Flagged, GoalOk, ev.Exact, ev.Context, Keeps, WellFormed, Rereading, Printing, ChoiceFree, EvalOpt, Below;
    RereadingParts(ev, g, todo, s);
    var ds := Def(ev.tab, s).defaults;
    i, cond := 0, NO;
    while i < |ds|
      invariant i <= |ds| && Rereading(ev, g, todo, s)
      invariant FirstDefault(ev.tab, g.sol, ds, 0) == FirstDefault(ev.tab, g.sol, ds, i)
    {
      cond := Reread(ev, ds[i].cond, s, g, todo);
      if cond != NO {
        return;
      }
      i := i + 1;
    }
  }

  /** sym_get_string_default, once the symbol is evaluated. */
  method GetStringDefault(ev: Evaluator, s: Sym, ghost g: Goal, ghost todo: set<Sym>) returns (str: string)
    requires Rereading(ev, g, todo, s)
    modifies ev
    ensures Rereading(ev, g, todo, s) && str == StringDefault(ev.tab, g.sol, s)
  {
    hide Flagged, GoalOk, ev.Exact, ev.Context, Keeps, WellFormed, Rereading, Printing, ChoiceFree, Eval,
         FirstDefault, RevTri;
    var y := Typ(ev.tab.t, s);
    var ds := Def(ev.tab, s).defaults;
    var i, cond := FindDefault(ev, s, g, todo);
    RereadingParts(ev, g, todo, s);
    if IsLogical(y) {
      var val := NO;
      if i < |ds| {
        val := Reread(ev, Some(ds[i].value), s, g, todo);
        val := TriAnd(val, cond);
      }
      RevAndModules(ev, g, todo, s);
      val := TriOr(val, ev.revTri[s]);
      if val == MOD && ev.curr[ev.tab.modules].tri == NO {
        val := YES;
      }
      if y == Boolean && val == MOD {
        val := YES;
      }
      str := Spell(val);
    } else {
      str := "";
      if i < |ds| && SymbolOf(ds[i].value).Some? {
        str := ReadString(ev, SymbolOf(ds[i].value).value, s, g, todo);
      }
    }
  }

  lemma RevAndModules(ev: Evaluator, g: Goal, todo: set<Sym>, s: Sym)
    requires Rereading(ev, g, todo, s)
    ensures s < |ev.revTri| && ev.revTri[s] == Rev(ev.tab, g.sol, s)
    ensures s < |ev.visible| && ev.visible[s] == Vis(ev.tab, g.sol, s)
    ensures ev.tab.modules < |ev.curr| && ev.curr[ev.tab.modules].tri == Val(g.sol, ev.tab.modules).tri
  {
    hide Visibility, RevTri, WellFormed, GoalOk, ev.Exact, Flagged, ChoiceFree, ev.Context;
    FinishedValue(ev, g, s);
    FinishedValue(ev, g, ev.tab.modules);
  }

  /** The string of a default symbol, evaluated on demand. */
  method ReadString(ev: Evaluator, d: Sym, s: Sym, ghost g: Goal, ghost todo: set<Sym>) returns (str: string)
    requires Rereading(ev, g, todo, s) && g.rank(d) < g.rank(s)
    modifies ev
    ensures Rereading(ev, g, todo, s) && str == Val(g.sol, d).str
  {
    hide Flagged, GoalOk, ev.Exact, Keeps, WellFormed, Rereading, Printing, ChoiceFree, DefaultsBelow, ev.Context;
    RereadingParts(ev, g, todo, s);
    ghost var before := ev.Now();
    ev.CalcRead(d, Some(g), g.rank(s), None);
    ev.ReadsGoal(g, g.rank(s), None, d);
    RereadingAfter(ev, g, todo, s, before);
    str := Val(ev.curr, d).str;
  }

  ghost function MinimalOf(tab: Table, v: Values, todo: set<Sym>): set<Sym> {
    set s | s in todo && MinimalPrints(tab, v, s)
  }

  /** One symbol of conf_write_defconfig. */
  method PrintMinimal(ev: Evaluator, s: Sym, ghost g: Goal, ghost todo: set<Sym>) returns (text: string)
    requires Printing(ev, g, todo) && ChoiceFree(ev.tab) && s < |ev.tab.t|
    modifies ev
    ensures Printing(ev, g, todo - {s})
    ensures text == if s in todo && MinimalPrints(ev.tab, g.sol, s) && IsTyped(Typ(ev.tab.t, s))
                    then SymbolLine(ev.tab, g.sol, s) else ""
  {
    hide Printing, ChoiceFree, SymbolLine, WellFormed, Rereading, StringDefault, StringOf, Vis, Rev;
    CalcPrinting(ev, s, g, todo);
    FlagOf(ev, g, todo, s);
    if s !in ev.write {
      Unflagged(ev, g, todo, s);
      return "";
    }
    ClearWrite(ev, s, g, todo);
    if !IsTyped(Typ(ev.tab.t, s)) {
      return "";
    }
    ghost var left := todo - {s};
    RereadingStart(ev, g, left, s);
    RevAndModules(ev, g, left, s);
    // sym_is_changable
    if ev.visible[s] <= ev.revTri[s] {
      return "";
    }
    var byDefault := GetStringDefault(ev, s, g, left);
    RereadingParts(ev, g, left, s);
    StringPrinted(ev, g, left, s);
    if StringOf(W(ev.tab, ev.curr), s) == byDefault {
      return "";
    }
    text := SymbolLine(ev.tab, ev.curr, s);
  }

  /** One menu of conf_write_defconfig, which prints no texts. */
  method PrintMinimalEntry(ev: Evaluator, e: Entry, ghost g: Goal, ghost todo: set<Sym>) returns (text: string)
    requires Printing(ev, g, todo) && ChoiceFree(ev.tab) && (e.Item? ==> e.sym < |ev.tab.t|)
    modifies ev
    ensures Printing(ev, g, todo - Items([e]))
    ensures text == Concat(EntryPart(ev.tab, g.sol, e, MinimalOf(ev.tab, g.sol, todo), false))
    ensures MinimalOf(ev.tab, g.sol, todo - Items([e])) == MinimalOf(ev.tab, g.sol, todo) - Items([e])
  {
    hide Printing, ChoiceFree, SymbolLine, Concat, MinimalPrints;
    assert Items([e]) == if e.Item? then {e.sym} else {} by { assert Items([e][1..]) == {}; }
    ConcatOne("");
    match e
    case Title(_, _) =>
      assert todo - Items([e]) == todo;
      text := "";
    case Item(s) =>
      text := PrintMinimal(ev, s, g, todo);
      ConcatOne(SymbolLine(ev.tab, g.sol, s));
  }

  /** conf_write_defconfig. */
  method WriteDefconfig(ev: Evaluator, menus: MenuTree, top: Node, ghost f: Forest, entry: seq<Entry>, ghost rank: Rank)
    returns (text: string)
    requires Savable(ev, false, rank) && EntriesIn(ev.tab, entry)
    requires menus.Shaped() && |entry| == |menus.sym| && top < |menus.sym|
    requires menus.next[top] == None && menus.parent[top] == None
    requires Rep(menus.L(), menus.list[top], f, Some(top), None)
    modifies ev
    ensures text == MinimalText(ev.tab, old(ev.Target(rank)).sol, EntriesOf(entry, Pre(f)), {})
    ensures ev.Wf() && ev.Idle() && ev.Exact(old(ev.Target(rank)))
  {
    hide *;
    ghost var g := ev.Target(rank);
    ghost var todo := FullSet(ev.tab, g.sol);
    ghost var whole := MinimalText(ev.tab, g.sol, EntriesOf(entry, Pre(f)), {});
    StartPrinting(ev, false, rank);
    text := "";
    MinimalTextStart(ev.tab, g.sol, EntriesOf(entry, Pre(f)));
    menus.WalkStart(top, f);
    var menu := menus.list[top];
    ghost var h, up, tr := f, Some(top), Done;
    StartAhead(menu, f);
    while menu.Some?
      invariant Printing(ev, g, todo)
      invariant menu.Some? ==> Stands(menus.L(), top, menu.value, h, up, tr)
      invariant var rest := EntriesOf(entry, Ahead(menu, h, tr));
        text + Concat(EntryLines(ev.tab, g.sol, rest, MinimalOf(ev.tab, g.sol, todo), false)) == whole
      decreases |Ahead(menu, h, tr)|
    {
      var m := menu.value;
      InTree(menus, top, m, h, up, tr, entry, ev.tab);
      ghost var before := MinimalOf(ev.tab, g.sol, todo);
      var part := PrintMinimalEntry(ev, entry[m], g, todo);
      ghost var h0, tr0 := h, tr;
      menu, h, up, tr := menus.Advance(top, m, h, up, tr);
      AheadStep(m, h0, tr0, menu, h, tr);
      OneEntryPrinted(ev.tab, g.sol, entry, m, Ahead(menu, h, tr), before, text, part, whole, false);
      text := text + part;
      todo := todo - Items([entry[m]]);
    }
    NothingAhead(ev.tab, g.sol, entry, MinimalOf(ev.tab, g.sol, todo), text, false);
    PrintingExact(ev, g, todo);
  }

  lemma MinimalTextStart(tab: Table, v: Values, entries: seq<Entry>)
    requires ChoiceFree(tab)
    ensures "" + Concat(EntryLines(tab, v, entries, MinimalOf(tab, v, FullSet(tab, v)), false)) ==
            MinimalText(tab, v, entries, {})
  {
    hide EntryLines, Concat, FullSet, MinimalPrints, ChoiceFree;
    forall s: Sym
      ensures !Skipped(tab, v, {}, s)
    {
      ChoiceFreeAt(tab, s);
    }
    assert MinimalOf(tab, v, FullSet(tab, v)) == MinimalSet(tab, v, {});
    var t := Concat(EntryLines(tab, v, entries, MinimalOf(tab, v, FullSet(tab, v)), false));
    assert "" + t == t;
  }

  // ----- save, load and evaluate -----

  /** Every symbol, in the order of the table. */
  function AllSymbols(n: nat): (order: seq<Sym>)
    ensures |order| == n && forall s :: 0 <= s < n ==> order[s] == s
  {
    seq(n, i requires 0 <= i < n => i)
  }

  /** Reading a text back and evaluating everything. */
  method LoadAndCalc(ev: Evaluator, text: string, ghost rank: Rank)
    requires ev.Wf() && ev.Idle() && Layered(ev.tab, rank) && ChoicesBuilt(ev.tab)
    modifies ev
    ensures ev.Wf() && |Solved(ev.tab, rank, ReadFrom(ev.tab, text))| == |ev.tab.t|
    ensures forall s: Sym :: s < |ev.tab.t| ==>
      s in ev.valid && ev.curr[s] == Solved(ev.tab, rank, ReadFrom(ev.tab, text))[s]
  {
    hide Layered, WellFormed, ReadFrom, Solved, Visibility, RevTri, ChoicesBuilt, PicksMember, ChoicesInTable;
    ReadPicks(ev.tab, rank, text);
    ReadSimple(ev, text);
    var order := AllSymbols(|ev.tab.t|);
    ev.Recalculate(order, rank);
    forall s: Sym | s < |ev.tab.t|
      ensures s in ev.valid
    {
      assert order[s] == s;
    }
  }

  /** Reading any text leaves choices with picks among their values. */
  lemma ReadPicks(tab: Table, rank: Rank, text: string)
    requires Layered(tab, rank) && ChoicesBuilt(tab)
    ensures PicksMember(tab, ReadFrom(tab, text)) && ChoicesInTable(tab)
  {
    hide Layered, ChoicesBuilt, ReadLines, Lines;
    forall s: Sym, c: Sym | Def(tab, s).choiceOf == Some(c)
      ensures s in Def(tab, c).values && c < |tab.t|
    {
      InTable(tab, rank, s);
      Membership(tab, rank, s, c);
    }
    ReadLinesPick(tab, Fresh(tab), Lines(text));
  }

  lemma {:induction false} ReadLinesPick(tab: Table, u: Users, lines: seq<string>)
    requires PicksMember(tab, u) && forall s: Sym, c: Sym :: Def(tab, s).choiceOf == Some(c) ==> s in Def(tab, c).values
    ensures PicksMember(tab, ReadLines(tab, u, lines))
    decreases |lines|
  {
    hide ReadLine, PicksMember;
    if lines != [] {
      ReadLinePicks(tab, u, lines[0]);
      ReadLinesPick(tab, ReadLine(tab, u, lines[0]), lines[1..]);
    }
  }

  lemma ReadLinePicks(tab: Table, u: Users, line: string)
    requires PicksMember(tab, u) && forall s: Sym, c: Sym :: Def(tab, s).choiceOf == Some(c) ==> s in Def(tab, c).values
    ensures PicksMember(tab, ReadLine(tab, u, line))
  {
    hide ParseLine, AcceptText, Find;
  }

  lemma SaveableParts(tab: Table, rank: Rank, u: Users, v: Values, entries: seq<Entry>)
    requires Saveable(tab, rank, u, v, entries)
    ensures Layered(tab, rank) && ChoicesBuilt(tab)
  {
  }

  /** conf_write, conf_read_simple and evaluation, one after the other, give
      every symbol the value it had, if every visible value is within reach of
      what the save leaves of it. */
  method SaveAndLoad(ev: Evaluator, menus: MenuTree, top: Node, ghost f: Forest, entry: seq<Entry>, title: string,
                     changed: bool, ghost rank: Rank)
    requires Savable(ev, changed, rank) && EntriesIn(ev.tab, entry)
    requires menus.Shaped() && |entry| == |menus.sym| && top < |menus.sym|
    requires menus.next[top] == None && menus.parent[top] == None
    requires Rep(menus.L(), menus.list[top], f, Some(top), None)
    requires Saveable(ev.tab, rank, Users(ev.hasUser, ev.user), ev.Target(rank).sol, EntriesOf(entry, Pre(f)))
    requires '\n' !in title
    requires var v := ev.Target(rank).sol;
      forall s: Sym :: s < |ev.tab.t| ==>
        SavedKeeps(ev.tab, Users(ev.hasUser, ev.user), v,
                   FullBlanked(ev.tab, title, EntriesOf(entry, Pre(f)), FullSet(ev.tab, v)), s)
    modifies ev
    ensures ev.Wf() && |old(ev.Target(rank)).sol| == |ev.tab.t|
    ensures forall s: Sym :: s < |ev.tab.t| ==> s in ev.valid && ev.curr[s] == old(ev.Target(rank)).sol[s]
  {
    hide *;
    ghost var v := ev.Target(rank).sol;
    SavableParts(ev, changed, rank);
    AllPrinted(ev.tab, v);
    FullRoundTrip(ev.tab, rank, Users(ev.hasUser, ev.user), v, title, EntriesOf(entry, Pre(f)), FullSet(ev.tab, v));
    SaveableParts(ev.tab, rank, Users(ev.hasUser, ev.user), v, EntriesOf(entry, Pre(f)));
    var text := WriteConf(ev, menus, top, f, entry, title, changed, rank);
    LoadAndCalc(ev, text, rank);
  }

  lemma SavableParts(ev: Evaluator, changed: bool, rank: Rank)
    requires Savable(ev, changed, rank)
    ensures ChoiceFree(ev.tab) && Layered(ev.tab, rank)
  {
    hide Layered, ChoiceFree;
  }
}
