/** Configuration files as texts: what conf_read_simple makes of one
    (confdata.c:290-404), what conf_write and conf_write_defconfig put into one
    (confdata.c:668-823), and what a save and a load do together. */
module Configurations {
  import opened Tristates
  import opened Exprs
  import opened SymbolEquations
  import opened Layering
  import opened Solutions
  import opened ConfText
  import opened Quoting
  import opened Saving
  import opened SavedChoices

  // ----- reading -----

  function FindFrom(t: Symbols, name: string, i: nat): (r: Option<Sym>)
    requires i <= |t|
    ensures r.Some? ==> i <= r.value < |t| && t[r.value].name == name != "" && !t[r.value].isConst
    decreases |t| - i
  {
    if i == |t| then None
    else if t[i].name != "" && t[i].name == name && !t[i].isConst then Some(i)
    else FindFrom(t, name, i + 1)
  }

  /** sym_find; a symbol without a name has the empty one here. */
  function Find(t: Symbols, name: string): Option<Sym> {
    if name == "y" then Some(YES_SYM)
    else if name == "m" then Some(MOD_SYM)
    else if name == "n" then Some(NO_SYM)
    else FindFrom(t, name, 0)
  }

  function Store(u: Users, s: Sym, x: Stored): Users {
    match x
    case StoredTri(t) => Users(u.has + {s}, Put(u.val, s, Val(u.val, s).(tri := t)))
    case StoredText(str) => Users(u.has + {s}, Put(u.val, s, Val(u.val, s).(str := str)))
    case _ => u
  }

  /** The setsym part: a choice learns of its values. */
  function NoteChoice(tab: Table, u: Users, s: Sym): Users {
    var c := Def(tab, s).choiceOf;
    if c.None? then u
    else
      var x, was := Val(u.val, s).tri, Val(u.val, c.value);
      Users(if x == MOD && was.tri == YES then u.has - {c.value} else u.has,
            Put(u.val, c.value, Value(TriOr(was.tri, x), was.str, if x == YES then Some(s) else was.pick)))
  }

  /** What a parsed line stores for the symbol it names. */
  function StoredBy(tab: Table, line: Line, s: Sym): Stored {
    if line.Assigned? then AcceptText(Typ(tab.t, s), line.text)
    else if line.Unset? && IsLogical(Typ(tab.t, s)) then StoredTri(NO)
    else Untouched
  }

  /** One line of conf_read_simple. */
  function ReadParsed(tab: Table, u: Users, line: Line): Users {
    if line.Ignored? || Find(tab.t, line.name).None? then u
    else
      var s := Find(tab.t, line.name).value;
      var x := StoredBy(tab, line, s);
      if x.Rejected? then u else NoteChoice(tab, Store(u, s, x), s)
  }

  function ReadLine(tab: Table, u: Users, line: string): Users {
    ReadParsed(tab, u, ParseLine(line))
  }

  function ReadLines(tab: Table, u: Users, lines: seq<string>): Users
    decreases |lines|
  {
    if lines == [] then u else ReadLines(tab, ReadLine(tab, u, lines[0]), lines[1..])
  }

  /** The lines of a text, line ends included. */
  function Lines(text: string): seq<string>
  {
    if text == [] then []
    else
      var k := IndexOf(text, '\n', 0);
      if k == |text| then [text] else [text[..k + 1]] + Lines(text[k + 1..])
  }

  /** The values before the first line: choices count as set, nothing else. */
  function Fresh(tab: Table): (u: Users)
    ensures |u.val| == |tab.t|
  {
    Users(set c: Sym | c < |tab.d| && tab.d[c].isChoice, seq(|tab.t|, _ => Value(NO, "", None)))
  }

  /** conf_read_simple. */
  function ReadFrom(tab: Table, text: string): Users {
    ReadLines(tab, Fresh(tab), Lines(text))
  }

  // ----- writing -----

  /** What the walk over the menus comes by: a text on its own, possibly
      hidden, or a symbol. */
  datatype Entry = Title(text: string, shown: bool) | Item(sym: Sym)

  /** The line conf_write_symbol prints. */
  function SymbolLine(tab: Table, v: Values, s: Sym): string {
    WriteSymbol(Typ(tab.t, s), Name(tab.t, s), StringOf(W(tab, v), s), false)
  }

  function TitleLines(text: string): seq<string> {
    ["\n", "#\n", "# " + text + "\n", "#\n"]
  }

  /** The lines for the entries; `todo` holds the symbols still to be printed,
      and `titles` tells whether texts are printed too. */
  function EntryLines(tab: Table, v: Values, entries: seq<Entry>, todo: set<Sym>, titles: bool): seq<string> {
    if entries == [] then []
    else
      match entries[0]
      case Title(text, shown) =>
        (if titles && shown then TitleLines(text) else []) + EntryLines(tab, v, entries[1..], todo, titles)
      case Item(s) =>
        if s in todo && IsTyped(Typ(tab.t, s)) then
          [SymbolLine(tab, v, s)] + EntryLines(tab, v, entries[1..], todo - {s}, titles)
        else EntryLines(tab, v, entries[1..], todo, titles)
  }

  const BANNER: string := "Automatically generated file; DO NOT EDIT."

  /** kconfig_print_comment, for a text of one line. */
  function CommentLine(text: string): string {
    if text == "" then "#\n" else "# " + text + "\n"
  }

  /** conf_write_heading, for a root menu text that fits its buffer. */
  function Heading(root: string): seq<string> {
    ["#\n", "# " + BANNER + "\n", CommentLine(root), "#\n"]
  }

  function Concat(lines: seq<string>): string {
    if lines == [] then "" else lines[0] + Concat(lines[1..])
  }

  /** Evaluation marks a symbol for writing; a choice has no line, and marks its visible
      values. */
  predicate MarkedNow(tab: Table, v: Values, s: Sym) {
    var mv := Val(v, tab.modules).tri;
    if Def(tab, s).isChoice then false
    else if Def(tab, s).choiceOf.Some? then Vis(tab, v, s) != NO && Marked(tab, mv, v, Def(tab, s).choiceOf.value)
    else Written(tab, mv, v, s)
  }

  /** The symbols conf_write prints. */
  ghost function FullSet(tab: Table, v: Values): set<Sym> {
    set s: Sym | s < |tab.t| && IsTyped(Typ(tab.t, s)) && MarkedNow(tab, v, s)
  }

  /** Evaluation never takes the mark of a choice value away: values that are no longer
      visible may be printed, too. */
  ghost predicate PrintsAll(tab: Table, v: Values, todo: set<Sym>) {
    && FullSet(tab, v) <= todo
    && forall s :: s in todo - FullSet(tab, v) ==>
         s < |tab.t| && IsTyped(Typ(tab.t, s)) && !Def(tab, s).isChoice && Def(tab, s).choiceOf.Some?
  }

  /** The symbols conf_write_defconfig prints. */
  ghost function MinimalSet(tab: Table, v: Values, optional: set<Sym>): set<Sym> {
    set s: Sym | s in FullSet(tab, v) && MinimalPrints(tab, v, s) && !Skipped(tab, v, optional, s)
  }

  ghost function FullText(tab: Table, v: Values, root: string, entries: seq<Entry>, todo: set<Sym>): string {
    Concat(Heading(root) + EntryLines(tab, v, entries, todo, true))
  }

  ghost function MinimalText(tab: Table, v: Values, entries: seq<Entry>, optional: set<Sym>): string {
    Concat(EntryLines(tab, v, entries, MinimalSet(tab, v, optional), false))
  }

  // ----- lines and texts -----

  lemma LinesStep(line: string, rest: string)
    requires IsLine(line)
    ensures Lines(line + rest) == [line] + Lines(rest)
  {
    var text := line + rest;
    var k := |line| - 1;
    forall j | 0 <= j < k
      ensures text[j] != '\n'
    {
      assert line[..|line| - 1][j] == text[j];
    }
    IndexOfFound(text, '\n', 0, k);
    assert text[..k + 1] == line && text[k + 1..] == rest;
  }

  /** Complete lines written one after the other are the lines read. */
  lemma {:induction false} LinesOfConcat(lines: seq<string>)
    requires forall i :: 0 <= i < |lines| ==> IsLine(lines[i])
    ensures Lines(Concat(lines)) == lines
  {
    hide IsLine;
    if lines != [] {
      LinesOfConcat(lines[1..]);
      LinesStep(lines[0], Concat(lines[1..]));
    }
  }

  lemma {:induction false} ReadLinesAppend(tab: Table, u: Users, a: seq<string>, b: seq<string>)
    ensures ReadLines(tab, u, a + b) == ReadLines(tab, ReadLines(tab, u, a), b)
    decreases |a|
  {
    hide ReadLine;
    if a == [] {
      assert a + b == b;
    } else {
      assert (a + b)[0] == a[0] && (a + b)[1..] == a[1..] + b;
      ReadLinesAppend(tab, ReadLine(tab, u, a[0]), a[1..], b);
    }
  }

  // ----- the line of a symbol read back -----

  /** A symbol whose line keeps its shape and finds its way back. */
  ghost predicate Printable(tab: Table, v: Values, s: Sym) {
    && CleanName(Name(tab.t, s)) && Find(tab.t, Name(tab.t, s)) == Some(s)
    && CleanValue(Typ(tab.t, s), StringOf(W(tab, v), s))
  }

  /** Reading the line of a symbol stores its value, or nothing if the text is not one
      the symbol accepts, and tells the choice of a choice value. */
  lemma SymbolLineReadsBack(tab: Table, u: Users, v: Values, s: Sym)
    requires IsTyped(Typ(tab.t, s)) && Printable(tab, v, s)
    requires Def(tab, s).choiceOf.Some? ==> IsLogical(Typ(tab.t, s))
    ensures IsLine(SymbolLine(tab, v, s))
    ensures ReadLine(tab, u, SymbolLine(tab, v, s)) ==
            NoteChoice(tab, Store(u, s, Reread(Typ(tab.t, s), StringOf(W(tab, v), s))), s)
  {
    hide ParseLine, AcceptText, CleanName, CleanValue, Find, IsLine, StringOf, StringValid;
    var y, name, value := Typ(tab.t, s), Name(tab.t, s), StringOf(W(tab, v), s);
    if IsLogical(y) && value == "n" {
      ParseUnset(name);
      CleanLine(name, "");
      assert SymbolLine(tab, v, s) == "# " + PREFIX + name + " " + NOT_SET + "\n";
    } else {
      AssignmentReadsBack(y, name, value);
    }
  }

  /** The symbol a text printed as a comment reads as: "CONFIG_X is not set". */
  function UnsetBy(tab: Table, text: string): (r: set<Sym>)
    ensures forall s :: s in r ==> IsLogical(Typ(tab.t, s))
  {
    var line := ParseLine("# " + text + "\n");
    if line.Unset? && Find(tab.t, line.name).Some? && IsLogical(Typ(tab.t, Find(tab.t, line.name).value))
    then {Find(tab.t, line.name).value} else {}
  }

  /** The symbols whose last line is such a text; `blanked` holds those so far. */
  function Blanked(tab: Table, entries: seq<Entry>, todo: set<Sym>, titles: bool, blanked: set<Sym>): set<Sym> {
    if entries == [] then blanked
    else
      match entries[0]
      case Title(text, shown) =>
        Blanked(tab, entries[1..], todo, titles, if titles && shown then blanked + UnsetBy(tab, text) else blanked)
      case Item(s) =>
        if s in todo && IsTyped(Typ(tab.t, s)) then Blanked(tab, entries[1..], todo - {s}, titles, blanked - {s})
        else Blanked(tab, entries[1..], todo, titles, blanked)
  }

  /** The symbols that a full save leaves at n whatever their value. */
  ghost function FullBlanked(tab: Table, root: string, entries: seq<Entry>, todo: set<Sym>): set<Sym> {
    Blanked(tab, entries, todo, true, UnsetBy(tab, root))
  }

  /** A title the reader skips. */
  predicate InertTitle(text: string) {
    '\n' !in text && ParseLine("# " + text + "\n").Ignored?
  }

  ghost predicate InertTitles(entries: seq<Entry>) {
    forall i :: 0 <= i < |entries| && entries[i].Title? && entries[i].shown ==> InertTitle(entries[i].text)
  }

  lemma InertBlanksNothing(tab: Table, text: string)
    requires InertTitle(text)
    ensures UnsetBy(tab, text) == {}
  {
    hide ParseLine;
  }

  /** Titles the reader skips overwrite nothing. */
  lemma {:induction false} NothingBlanked(tab: Table, entries: seq<Entry>, todo: set<Sym>, titles: bool)
    requires InertTitles(entries)
    ensures Blanked(tab, entries, todo, titles, {}) == {}
  {
    hide UnsetBy, InertTitle;
    if entries != [] {
      var rest := entries[1..];
      match entries[0]
      case Title(text, shown) =>
        if shown {
          InertBlanksNothing(tab, text);
        }
        assert {} + UnsetBy(tab, text) == UnsetBy(tab, text);
        NothingBlanked(tab, rest, todo, titles);
      case Item(s) =>
        var none: set<Sym> := {};
        assert none - {s} == {};
        NothingBlanked(tab, rest, todo - {s}, titles);
        NothingBlanked(tab, rest, todo, titles);
    }
  }

  /** Everything printed keeps its shape. */
  ghost predicate Clean(tab: Table, v: Values, entries: seq<Entry>) {
    && (forall s: Sym :: s < |tab.t| && IsTyped(Typ(tab.t, s)) && !Def(tab, s).isChoice ==> Printable(tab, v, s))
    && (forall i :: 0 <= i < |entries| && entries[i].Title? && entries[i].shown ==> '\n' !in entries[i].text)
  }

  predicate IsInert(line: string) {
    IsLine(line) && ParseLine(line).Ignored?
  }

  ghost predicate AreInert(lines: seq<string>) {
    forall i :: 0 <= i < |lines| ==> IsInert(lines[i])
  }

  lemma TitleInert(text: string)
    requires InertTitle(text)
    ensures AreInert(TitleLines(text)) && AreInert(Heading(text))
  {
    hide IsInert, InertTitle;
    assert IsInert("# " + text + "\n") by { TitleLineInert(text); }
    EmptyInert();
    BannerInert();
    assert IsInert(CommentLine(text));
  }

  lemma TitleLineInert(text: string)
    requires InertTitle(text)
    ensures IsInert("# " + text + "\n")
  {
    hide ParseLine;
    LineOf("# " + text);
  }

  lemma EmptyInert()
    ensures IsInert("\n") && IsInert("#\n")
  {
  }

  /** A text that does not begin like a symbol is skipped. */
  lemma OtherTitle(text: string)
    requires '\n' !in text && (text == [] || text[0] != 'C')
    ensures InertTitle(text)
  {
    var line := "# " + text + "\n";
    assert line[2..] == text + "\n";
    assert line[2..][0] != PREFIX[0];
  }

  lemma BannerInert()
    ensures IsInert("# " + BANNER + "\n")
  {
    hide ParseLine, IsInert;
    OtherTitle(BANNER);
    TitleLineInert(BANNER);
  }

  lemma {:induction false} InertSkipped(tab: Table, u: Users, lines: seq<string>)
    requires AreInert(lines)
    ensures ReadLines(tab, u, lines) == u
  {
    hide ParseLine, IsLine;
    if lines != [] {
      assert IsInert(lines[0]);
      InertSkipped(tab, u, lines[1..]);
    }
  }

  // ----- choices learn of their values -----

  /** The line of a value tells its choice. */
  lemma ChoiceLearns(tab: Table, v: Values, printed: set<Sym>, u: Users, s: Sym, c: Sym)
    requires ChoiceRestored(tab, v, printed, u, c) && Def(tab, s).choiceOf == Some(c) && c < |u.val|
    requires Val(u.val, s).tri == Val(v, s).tri
    ensures ChoiceRestored(tab, v, printed + {s}, NoteChoice(tab, u, s), c)
  {
    assert Told(tab, printed + {s}, c, s);
    forall val: Tri
      ensures ToldOf(tab, v, printed + {s}, c, val) <==> ToldOf(tab, v, printed, c, val) || Val(v, s).tri == val
    {
      ToldOneMore(tab, v, printed, s, c, val);
    }
  }

  lemma ToldOneMore(tab: Table, v: Values, printed: set<Sym>, s: Sym, c: Sym, val: Tri)
    ensures ToldOf(tab, v, printed + {s}, c, val) <==>
            ToldOf(tab, v, printed, c, val) || (Def(tab, s).choiceOf == Some(c) && Val(v, s).tri == val)
  {
    if ToldOf(tab, v, printed, c, val) {
      var x: Sym :| Told(tab, printed, c, x) && Val(v, x).tri == val;
      assert Told(tab, printed + {s}, c, x);
    }
    if Def(tab, s).choiceOf == Some(c) && Val(v, s).tri == val {
      assert Told(tab, printed + {s}, c, s);
    }
    if ToldOf(tab, v, printed + {s}, c, val) {
      var x: Sym :| Told(tab, printed + {s}, c, x) && Val(v, x).tri == val;
      assert x == s || Told(tab, printed, c, x);
    }
  }

  /** Other lines tell it nothing. */
  lemma ChoiceHears(tab: Table, v: Values, printed: set<Sym>, u: Users, u': Users, s: Sym, c: Sym)
    requires ChoiceRestored(tab, v, printed, u, c) && Def(tab, s).choiceOf != Some(c)
    requires (c in u.has <==> c in u'.has) && Val(u.val, c) == Val(u'.val, c)
    ensures ChoiceRestored(tab, v, printed + {s}, u', c)
  {
    ToldOneMore(tab, v, printed, s, c, YES);
    ToldOneMore(tab, v, printed, s, c, MOD);
    var p := Val(u.val, c).pick;
    assert p.Some? ==> Told(tab, printed + {s}, c, p.value);
  }

  lemma ChoiceSame(tab: Table, v: Values, printed: set<Sym>, u: Users, u': Users, c: Sym)
    requires ChoiceRestored(tab, v, printed, u, c)
    requires (c in u.has <==> c in u'.has) && Val(u.val, c) == Val(u'.val, c)
    ensures ChoiceRestored(tab, v, printed, u', c)
  {
  }

  /** Only the choice of s notices. */
  lemma NoticedBy(tab: Table, u: Users, s: Sym, x: Sym)
    requires Def(tab, s).choiceOf != Some(x)
    ensures var u' := NoteChoice(tab, u, s);
      |u'.val| == |u.val| && (x in u'.has <==> x in u.has) && Val(u'.val, x) == Val(u.val, x)
  {
  }

  lemma NoteLength(tab: Table, u: Users, s: Sym)
    ensures |NoteChoice(tab, u, s).val| == |u.val|
  {
  }

  /** A choice does not notice a value set to n. */
  lemma NotNoticed(tab: Table, u: Users, s: Sym, x: Sym)
    requires Val(u.val, s).tri == NO
    ensures var u' := NoteChoice(tab, u, s);
      |u'.val| == |u.val| && (x in u'.has <==> x in u.has) && Val(u'.val, x) == Val(u.val, x)
  {
  }

  // ----- all lines of a save read back -----

  /** The symbols among the entries. */
  function Items(entries: seq<Entry>): set<Sym> {
    if entries == [] then {}
    else (if entries[0].Item? then {entries[0].sym} else {}) + Items(entries[1..])
  }

  lemma StoreRestores(tab: Table, v: Values, u: Users, s: Sym)
    requires s < |u.val| && IsTyped(Typ(tab.t, s)) && CleanValue(Typ(tab.t, s), StringOf(W(tab, v), s))
    requires StringOf(W(tab, v), s) == if IsLogical(Typ(tab.t, s)) then Spell(Val(v, s).tri) else Val(v, s).str
    requires s !in u.has || IsLogical(Typ(tab.t, s))
    ensures var u' := Store(u, s, Reread(Typ(tab.t, s), StringOf(W(tab, v), s)));
      && |u'.val| == |u.val|
      && (if Storable(tab, v, s) then Offers(tab, u', v, s) else s !in u'.has)
      && forall x: Sym :: x != s ==> (x in u'.has <==> x in u.has) && Val(u'.val, x) == Val(u.val, x)
  {
    hide StringValid, StringOf, CleanValue;
  }

  /** What is on the way to being restored: `printed` and `blanked` so far,
      nothing of `todo`. */
  ghost predicate Restoring(tab: Table, v: Values, printed: set<Sym>, blanked: set<Sym>, u: Users) {
    |u.val| == |tab.t| && RestoredAll(tab, v, printed, blanked, u)
  }

  lemma OffersSame(tab: Table, u: Users, u': Users, v: Values, s: Sym)
    requires (s in u.has <==> s in u'.has) && Val(u.val, s) == Val(u'.val, s)
    ensures Offers(tab, u, v, s) <==> Offers(tab, u', v, s)
  {
  }

  /** u1 is u after the line of s was stored. */
  ghost predicate StoredAt(tab: Table, v: Values, u: Users, u1: Users, s: Sym) {
    && |u1.val| == |u.val|
    && (if Storable(tab, v, s) then Offers(tab, u1, v, s) else s !in u1.has)
    && forall x: Sym :: x != s ==> (x in u1.has <==> x in u.has) && Val(u1.val, x) == Val(u.val, x)
  }

  lemma LineRestoresOne(tab: Table, v: Values, printed: set<Sym>, blanked: set<Sym>, u: Users, u1: Users, s: Sym,
                        x: Sym)
    requires Tellable(tab) && s < |tab.t| == |u.val| && s !in printed && !Def(tab, s).isChoice && x < |tab.t|
    requires StoredAt(tab, v, u, u1, s) && RestoredOne(tab, v, printed, blanked, u, x)
    ensures RestoredOne(tab, v, printed + {s}, blanked - {s}, NoteChoice(tab, u1, s), x)
  {
    hide Storable, Offers, ChoiceRestored, NoteChoice;
    var u' := NoteChoice(tab, u1, s);
    assert Def(tab, s).choiceOf.Some? ==> ValueOfChoice(tab, s, Def(tab, s).choiceOf.value);
    if Def(tab, s).choiceOf != Some(x) {
      NoticedBy(tab, u1, s, x);
      if Def(tab, x).isChoice {
        ChoiceHears(tab, v, printed, u, u', s, x);
      } else {
        OffersSame(tab, u1, u', v, x);
        if x != s {
          OffersSame(tab, u, u', v, x);
        }
      }
    } else {
      ChoiceSame(tab, v, printed, u, u1, x);
      ToldExactly(tab, v, u1, s);
      ChoiceLearns(tab, v, printed, u1, s, x);
    }
  }

  lemma ToldExactly(tab: Table, v: Values, u: Users, s: Sym)
    requires IsLogical(Typ(tab.t, s)) && (if Storable(tab, v, s) then Offers(tab, u, v, s) else s !in u.has)
    ensures Val(u.val, s).tri == Val(v, s).tri
  {
  }

  /** The line of a symbol is read. */
  lemma LineKeepsRestoring(tab: Table, v: Values, printed: set<Sym>, blanked: set<Sym>, u: Users, s: Sym)
    requires Restoring(tab, v, printed, blanked, u) && Tellable(tab)
    requires s < |tab.t| && s !in printed && IsTyped(Typ(tab.t, s)) && !Def(tab, s).isChoice
    requires CleanValue(Typ(tab.t, s), StringOf(W(tab, v), s))
    requires StringOf(W(tab, v), s) == if IsLogical(Typ(tab.t, s)) then Spell(Val(v, s).tri) else Val(v, s).str
    ensures Restoring(tab, v, printed + {s}, blanked - {s},
                      NoteChoice(tab, Store(u, s, Reread(Typ(tab.t, s), StringOf(W(tab, v), s))), s))
  {
    hide CleanValue, StringOf, Storable, Store, Reread, ChoiceRestored, NoteChoice, Tellable;
    assert RestoredOne(tab, v, printed, blanked, u, s);
    StoreRestores(tab, v, u, s);
    var u1 := Store(u, s, Reread(Typ(tab.t, s), StringOf(W(tab, v), s)));
    var u' := NoteChoice(tab, u1, s);
    NoteLength(tab, u1, s);
    forall x: Sym | x < |tab.t| && IsTyped(Typ(tab.t, x))
      ensures RestoredOne(tab, v, printed + {s}, blanked - {s}, u', x)
    {
      assert RestoredOne(tab, v, printed, blanked, u, x);
      LineRestoresOne(tab, v, printed, blanked, u, u1, s, x);
    }
  }

  /** A comment that reads as a symbol sets it to n. */
  lemma TitleKeepsRestoring(tab: Table, v: Values, printed: set<Sym>, blanked: set<Sym>, u: Users, text: string)
    requires Tellable(tab) && Restoring(tab, v, printed, blanked, u)
    ensures Restoring(tab, v, printed, blanked + UnsetBy(tab, text), ReadLine(tab, u, "# " + text + "\n"))
  {
    hide ParseLine, Find, Storable, Offers, ChoiceRestored, Tellable, NoteChoice;
    var line := "# " + text + "\n";
    CommentsAreUnset(line);
    if ParseLine(line).Unset? && Find(tab.t, ParseLine(line).name).Some? {
      var s := Find(tab.t, ParseLine(line).name).value;
      FoundIsNoChoice(tab, ParseLine(line).name);
      if IsLogical(Typ(tab.t, s)) {
        var u1 := Store(u, s, StoredTri(NO));
        forall x: Sym | x < |tab.t| && IsTyped(Typ(tab.t, x))
          ensures RestoredOne(tab, v, printed, blanked + UnsetBy(tab, text), NoteChoice(tab, u1, s), x)
        {
          assert RestoredOne(tab, v, printed, blanked, u, x);
          BlankRestoresOne(tab, v, printed, blanked, u, s, x);
        }
        NoteLength(tab, u1, s);
      } else {
        NothingNoticed(tab, u, s);
        assert blanked + UnsetBy(tab, text) == blanked;
      }
    } else {
      assert blanked + UnsetBy(tab, text) == blanked;
    }
  }

  /** What a name is found to stand for is no choice. */
  lemma FoundIsNoChoice(tab: Table, name: string)
    requires Tellable(tab) && Find(tab.t, name).Some?
    ensures var s := Find(tab.t, name).value;
      s < |tab.t| && (IsTyped(Typ(tab.t, s)) ==> !Def(tab, s).isChoice)
  {
  }

  lemma NothingNoticed(tab: Table, u: Users, s: Sym)
    requires Tellable(tab) && s < |tab.t| && !IsLogical(Typ(tab.t, s))
    ensures NoteChoice(tab, u, s) == u
  {
    assert Def(tab, s).choiceOf.Some? ==> ValueOfChoice(tab, s, Def(tab, s).choiceOf.value);
  }

  lemma BlankRestoresOne(tab: Table, v: Values, printed: set<Sym>, blanked: set<Sym>, u: Users, s: Sym, x: Sym)
    requires Tellable(tab) && s < |tab.t| == |u.val| && !Def(tab, s).isChoice && IsLogical(Typ(tab.t, s)) && x < |tab.t|
    requires RestoredOne(tab, v, printed, blanked, u, x)
    ensures RestoredOne(tab, v, printed, blanked + {s}, NoteChoice(tab, Store(u, s, StoredTri(NO)), s), x)
  {
    hide Storable, Offers, ChoiceRestored, NoteChoice, Tellable;
    var u1 := Store(u, s, StoredTri(NO));
    var u' := NoteChoice(tab, u1, s);
    NotNoticed(tab, u1, s, x);
    if Def(tab, x).isChoice {
      ChoiceSame(tab, v, printed, u, u', x);
    } else if x != s {
      OffersSame(tab, u, u', v, x);
    }
  }

  lemma CommentsAreUnset(line: string)
    requires line != [] && line[0] == '#'
    ensures !ParseLine(line).Assigned?
  {
  }

  /** The lines of a title. */
  lemma TitleReadsBack(tab: Table, v: Values, printed: set<Sym>, blanked: set<Sym>, u: Users, text: string)
    requires Tellable(tab) && Restoring(tab, v, printed, blanked, u) && '\n' !in text
    ensures Restoring(tab, v, printed, blanked + UnsetBy(tab, text), ReadLines(tab, u, TitleLines(text)))
    ensures forall i :: 0 <= i < |TitleLines(text)| ==> IsLine(TitleLines(text)[i])
  {
    hide Restoring, UnsetBy, ReadLine, IsInert, Tellable;
    var line := "# " + text + "\n";
    EmptyInert();
    LineOf("# " + text);
    LinesAround(tab, u, ["\n", "#\n"], line, ["#\n"]);
    assert TitleLines(text) == ["\n", "#\n"] + ([line] + ["#\n"]);
    TitleKeepsRestoring(tab, v, printed, blanked, u, text);
    InertLines(TitleLines(text), 2);
  }

  /** Lines the reader skips around one it does not. */
  lemma LinesAround(tab: Table, u: Users, before: seq<string>, line: string, after: seq<string>)
    requires AreInert(before) && AreInert(after)
    ensures ReadLines(tab, u, before + ([line] + after)) == ReadLine(tab, u, line)
  {
    hide ReadLine, IsInert;
    ReadLinesAppend(tab, u, before, [line] + after);
    InertSkipped(tab, u, before);
    ReadLinesAppend(tab, u, [line], after);
    assert [line][1..] == [];
    InertSkipped(tab, ReadLine(tab, u, line), after);
  }

  lemma InertLines(lines: seq<string>, k: nat)
    requires forall i :: 0 <= i < |lines| && i != k ==> IsInert(lines[i])
    requires k < |lines| && IsLine(lines[k])
    ensures forall i :: 0 <= i < |lines| ==> IsLine(lines[i])
  {
    hide ParseLine, IsLine;
    forall i | 0 <= i < |lines|
      ensures IsLine(lines[i])
    {
      assert i != k ==> IsInert(lines[i]);
    }
  }

  /** The lines of the heading. */
  lemma HeadingReadsBack(tab: Table, v: Values, u: Users, root: string)
    requires Tellable(tab) && Restoring(tab, v, {}, {}, u) && '\n' !in root
    ensures Restoring(tab, v, {}, UnsetBy(tab, root), ReadLines(tab, u, Heading(root)))
    ensures forall i :: 0 <= i < |Heading(root)| ==> IsLine(Heading(root)[i])
  {
    hide Restoring, UnsetBy, ReadLine, IsInert, Tellable;
    var banner, line := "# " + BANNER + "\n", CommentLine(root);
    EmptyInert();
    BannerInert();
    LineOf("# " + root);
    assert Heading(root) == ["#\n", banner] + ([line] + ["#\n"]);
    if root == "" {
      EmptyRoot(tab);
      InertSkipped(tab, u, Heading(root));
    } else {
      LinesAround(tab, u, ["#\n", banner], line, ["#\n"]);
      TitleKeepsRestoring(tab, v, {}, {}, u, root);
      assert {} + UnsetBy(tab, root) == UnsetBy(tab, root);
    }
    assert root == "" ==> IsInert(line);
    HeadingLines(root);
  }

  lemma HeadingLines(root: string)
    requires '\n' !in root
    ensures forall i :: 0 <= i < |Heading(root)| ==> IsLine(Heading(root)[i])
  {
    LineOf("# " + root);
    LineOf("# " + BANNER);
  }

  lemma EmptyRoot(tab: Table)
    ensures UnsetBy(tab, "") == {}
  {
    OtherTitle("");
    InertBlanksNothing(tab, "");
  }

  /** Every boolean and tristate value is what its spelling says. */
  ghost predicate Spelled(tab: Table, v: Values) {
    forall s: Sym :: s < |tab.t| && IsTyped(Typ(tab.t, s)) && !Def(tab, s).isChoice ==>
      StringOf(W(tab, v), s) == if IsLogical(Typ(tab.t, s)) then Spell(Val(v, s).tri) else Val(v, s).str
  }

  lemma {:induction false} EntriesReadBack(tab: Table, v: Values, entries: seq<Entry>, todo: set<Sym>, titles: bool,
                                           printed: set<Sym>, blanked: set<Sym>, u: Users)
    requires Tellable(tab) && Clean(tab, v, entries) && Spelled(tab, v)
    requires Restoring(tab, v, printed, blanked, u) && todo !! printed
    requires forall s :: s in todo ==> s < |tab.t| && IsTyped(Typ(tab.t, s)) && !Def(tab, s).isChoice
    ensures var lines := EntryLines(tab, v, entries, todo, titles);
      && (forall i :: 0 <= i < |lines| ==> IsLine(lines[i]))
      && Restoring(tab, v, printed + (todo * Items(entries)), Blanked(tab, entries, todo, titles, blanked),
                   ReadLines(tab, u, lines))
  {
    hide ReadLine, IsLine, Restoring, Printable, SymbolLine, Store, Reread, CleanValue, Tellable, StringOf, UnsetBy,
         TitleLines;
    if entries == [] {
      assert printed + (todo * Items(entries)) == printed;
    } else {
      var rest := entries[1..];
      assert Clean(tab, v, rest);
      match entries[0]
      case Title(text, shown) =>
        assert Items(entries) == Items(rest);
        if titles && shown {
          TitleReadsBack(tab, v, printed, blanked, u, text);
          EntriesReadBack(tab, v, rest, todo, titles, printed, blanked + UnsetBy(tab, text),
                          ReadLines(tab, u, TitleLines(text)));
          ReadLinesAppend(tab, u, TitleLines(text), EntryLines(tab, v, rest, todo, titles));
        } else {
          EntriesReadBack(tab, v, rest, todo, titles, printed, blanked, u);
          assert [] + EntryLines(tab, v, rest, todo, titles) == EntryLines(tab, v, rest, todo, titles);
        }
      case Item(s) =>
        if s in todo {
          ItemReadsBack(tab, v, u, printed, blanked, s);
          var u' := ReadLine(tab, u, SymbolLine(tab, v, s));
          EntriesReadBack(tab, v, rest, todo - {s}, titles, printed + {s}, blanked - {s}, u');
          assert printed + {s} + ((todo - {s}) * Items(rest)) == printed + (todo * Items(entries));
        } else {
          EntriesReadBack(tab, v, rest, todo, titles, printed, blanked, u);
          assert todo * Items(entries) == todo * Items(rest);
        }
    }
  }

  lemma ItemReadsBack(tab: Table, v: Values, u: Users, printed: set<Sym>, blanked: set<Sym>, s: Sym)
    requires Tellable(tab) && Restoring(tab, v, printed, blanked, u) && Spelled(tab, v)
    requires s < |tab.t| && s !in printed && IsTyped(Typ(tab.t, s)) && !Def(tab, s).isChoice && Printable(tab, v, s)
    ensures IsLine(SymbolLine(tab, v, s))
    ensures Restoring(tab, v, printed + {s}, blanked - {s}, ReadLine(tab, u, SymbolLine(tab, v, s)))
  {
    hide ReadLine, IsLine, Restoring, SymbolLine, Store, Reread, CleanValue, StringOf, NoteChoice;
    assert Def(tab, s).choiceOf.Some? ==> ValueOfChoice(tab, s, Def(tab, s).choiceOf.value);
    SymbolLineReadsBack(tab, u, v, s);
    LineKeepsRestoring(tab, v, printed, blanked, u, s);
  }

  // ----- saving and loading -----

  /** A solved configuration whose every symbol with a prompt has a menu entry and
      whose texts keep their shape in a file. */
  ghost predicate Saveable(tab: Table, rank: Rank, u: Users, v: Values, entries: seq<Entry>) {
    && Configured(tab, rank, u, v) && UsersValid(tab, u)
    && Clean(tab, v, entries)
    && forall s: Sym :: s < |tab.t| && IsTyped(Typ(tab.t, s)) && Def(tab, s).prompts != [] && !Def(tab, s).isChoice ==>
         s in Items(entries)
  }

  lemma SolutionSpelled(tab: Table, u: Users, v: Values)
    requires IsSolution(tab, u, v)
    ensures Spelled(tab, v)
  {
    hide Compute, StringOf, Survives;
    forall s: Sym | s < |tab.t| && IsTyped(Typ(tab.t, s)) && !Def(tab, s).isChoice
      ensures StringOf(W(tab, v), s) == if IsLogical(Typ(tab.t, s)) then Spell(Val(v, s).tri) else Val(v, s).str
    {
      if IsLogical(Typ(tab.t, s)) {
        SolutionSurvives(tab, u, v, s);
        SpelledValue(tab, u, v, s);
      } else {
        TextualString(tab, v, s);
      }
    }
  }

  lemma TextualString(tab: Table, v: Values, s: Sym)
    requires IsTextual(Typ(tab.t, s))
    ensures StringOf(W(tab, v), s) == Val(v, s).str
  {
  }

  /** What is visible is listed, and written unless it is a choice or comes from the
      environment. */
  lemma VisiblePrinted(tab: Table, rank: Rank, u: Users, v: Values, entries: seq<Entry>, s: Sym)
    requires Saveable(tab, rank, u, v, entries) && s < |tab.t| && IsTyped(Typ(tab.t, s)) && !Def(tab, s).isChoice
    requires Vis(tab, v, s) != NO
    ensures s in Items(entries) && (s in FullSet(tab, v) <==> Def(tab, s).choiceOf.Some? || !Def(tab, s).auto)
  {
    hide Layered, Compute, IsSolution, Clean, UsersValid, PromptTri, ChoicesBuilt, PicksMember, Marked, Written;
    if Def(tab, s).choiceOf.Some? {
      ShownIsMarked(tab, rank, u, v, s, Def(tab, s).choiceOf.value);
    } else {
      VisibleMarked(tab, v, s);
    }
  }

  lemma VisibleMarked(tab: Table, v: Values, s: Sym)
    requires Vis(tab, v, s) != NO
    ensures Marked(tab, Val(v, tab.modules).tri, v, s)
    ensures Written(tab, Val(v, tab.modules).tri, v, s) <==> !Def(tab, s).auto
  {
    hide Visibility, RevTri, FirstDefault;
  }

  /** The choice of a visible value is marked. */
  lemma ShownIsMarked(tab: Table, rank: Rank, u: Users, v: Values, x: Sym, c: Sym)
    requires Configured(tab, rank, u, v) && x < |tab.t| && Def(tab, x).choiceOf == Some(c) && Vis(tab, v, x) != NO
    ensures Marked(tab, Val(v, tab.modules).tri, v, c)
  {
    hide Layered, IsSolution, ChoicesBuilt, PicksMember, Vis, Rev, ValueBuilt, Marked, Compute, TriValue, Survives,
         Pick;
    assert Layered(tab, rank) && ChoicesBuilt(tab);
    Membership(tab, rank, x, c);
    if Val(v, c).tri == NO {
      HiddenWithChoice(tab, v, x, c);
    }
    ChoiceShape(tab, rank, u, v, c);
    SurvivesAs(tab, u, v, c);
    ComputeOfChoice(tab, u, v, c);
    TriValueOfChoice(tab, u, v, c);
    NotMarked(tab, v, c);
  }

  lemma NotMarked(tab: Table, v: Values, c: Sym)
    requires IsLogical(Typ(tab.t, c))
    ensures Marked(tab, Val(v, tab.modules).tri, v, c) || (Vis(tab, v, c) == NO && Rev(tab, v, c) == NO)
  {
    hide Visibility, RevTri, FirstDefault;
  }

  lemma FreshRestored(tab: Table, v: Values)
    requires Tellable(tab) && |tab.d| == |tab.t|
    ensures Restoring(tab, v, {}, {}, Fresh(tab))
  {
    forall s: Sym | s < |tab.t| && IsTyped(Typ(tab.t, s))
      ensures RestoredOne(tab, v, {}, {}, Fresh(tab), s)
    {
      if Def(tab, s).isChoice {
        assert forall x: Sym :: !Told(tab, {}, s, x);
      }
    }
  }

  /** What conf_read_simple makes of the lines of a save: what was printed, but n for
      the symbols whose last line was a text that reads so, and for choices what the
      lines of their values told them. */
  lemma SavedReadsBack(tab: Table, rank: Rank, u: Users, v: Values, entries: seq<Entry>, head: seq<string>,
                       blanked: set<Sym>, todo: set<Sym>, titles: bool)
    requires Saveable(tab, rank, u, v, entries)
    requires forall s :: s in todo ==> s < |tab.t| && IsTyped(Typ(tab.t, s)) && !Def(tab, s).isChoice
    requires forall i :: 0 <= i < |head| ==> IsLine(head[i])
    requires Restoring(tab, v, {}, blanked, ReadLines(tab, Fresh(tab), head))
    ensures Restoring(tab, v, todo * Items(entries), Blanked(tab, entries, todo, titles, blanked),
                      ReadFrom(tab, Concat(head + EntryLines(tab, v, entries, todo, titles))))
  {
    hide Layered, Clean, UsersValid, IsSolution, ChoicesBuilt, PicksMember, Written, IsLine, ReadLine, ParseLine,
         RestoredAll,
         Spelled, Items, Printable, Blanked, Tellable;
    var lines := EntryLines(tab, v, entries, todo, titles);
    SolutionSpelled(tab, u, v);
    LayeredTellable(tab, rank);
    EntriesReadBack(tab, v, entries, todo, titles, {}, blanked, ReadLines(tab, Fresh(tab), head));
    assert {} + (todo * Items(entries)) == todo * Items(entries);
    ReadLinesAppend(tab, Fresh(tab), head, lines);
    AreLines(head, lines);
    LinesOfConcat(head + lines);
  }

  lemma LayeredLengths(tab: Table, rank: Rank)
    requires Layered(tab, rank)
    ensures |tab.d| == |tab.t|
  {
  }

  lemma AreLines(head: seq<string>, lines: seq<string>)
    requires forall i :: 0 <= i < |head| ==> IsLine(head[i])
    requires forall i :: 0 <= i < |lines| ==> IsLine(lines[i])
    ensures forall i :: 0 <= i < |head + lines| ==> IsLine((head + lines)[i])
  {
    hide IsLine;
  }

  /** A solution is what evaluation from scratch gives. */
  lemma SolutionIsSolved(tab: Table, rank: Rank, u: Users, v: Values)
    requires Layered(tab, rank) && PicksMember(tab, u) && |v| == |tab.t|
    ensures IsSolution(tab, u, v) <==> Solved(tab, rank, u) == v
  {
    hide Layered, IsSolution, Solved, PicksMember;
    SolvedIsSolution(tab, rank, u);
    if IsSolution(tab, u, v) {
      SolutionUnique(tab, rank, u, v, Solved(tab, rank, u));
    }
  }

  lemma AllPrinted(tab: Table, v: Values)
    ensures PrintsAll(tab, v, FullSet(tab, v))
  {
    hide FullSet;
  }

  /** The symbols a save prints are typed and no choices. */
  lemma PrintsSymbols(tab: Table, v: Values, todo: set<Sym>)
    requires PrintsAll(tab, v, todo)
    ensures forall s :: s in todo ==> s < |tab.t| && IsTyped(Typ(tab.t, s)) && !Def(tab, s).isChoice
  {
    hide Vis, Marked, Written;
    forall s | s in todo
      ensures s < |tab.t| && IsTyped(Typ(tab.t, s)) && !Def(tab, s).isChoice
    {
      assert s in FullSet(tab, v) || s in todo - FullSet(tab, v);
    }
  }

  lemma LinesOfVisible(tab: Table, rank: Rank, u: Users, v: Values, entries: seq<Entry>, todo: set<Sym>)
    requires Saveable(tab, rank, u, v, entries) && PrintsAll(tab, v, todo)
    ensures VisibleHaveLines(tab, v, todo * Items(entries))
  {
    hide Saveable, FullSet, Vis, Items;
    forall s: Sym | s < |tab.t| && IsTyped(Typ(tab.t, s)) && Vis(tab, v, s) != NO && !Def(tab, s).isChoice
      ensures s in todo * Items(entries) <==> Def(tab, s).choiceOf.Some? || !Def(tab, s).auto
    {
      VisiblePrinted(tab, rank, u, v, entries, s);
    }
  }

  /** Saving with conf_write and loading with conf_read_simple gives the same
      configuration if and only if every value is within reach of what the save leaves
      of it: no visible boolean or tristate value exceeds what its prompt and the
      selects allow, ranges settle, environment symbols have their defaults, symbols a
      later text overwrites are what the selects say, and a choice worth m has a value
      worth m or selects that say so. */
  lemma FullRoundTrip(tab: Table, rank: Rank, u: Users, v: Values, root: string, entries: seq<Entry>, todo: set<Sym>)
    requires Saveable(tab, rank, u, v, entries) && PrintsAll(tab, v, todo) && '\n' !in root
    ensures Solved(tab, rank, ReadFrom(tab, FullText(tab, v, root, entries, todo))) == v <==>
      forall s: Sym :: s < |tab.t| ==> SavedKeeps(tab, u, v, FullBlanked(tab, root, entries, todo), s)
  {
    hide Layered, Clean, UsersValid, IsSolution, ChoicesBuilt, PicksMember, RestoredAll, Items, UnsetBy, Blanked,
         SavedKeeps,
         ReadFrom, ReadLines, Solved, FullSet, Concat, EntryLines, Heading, IsLine, Fresh, Tellable, VisibleHaveLines,
         PrintsAll;
    LayeredTellable(tab, rank);
    FreshRestored(tab, v) by { LayeredLengths(tab, rank); }
    HeadingReadsBack(tab, v, Fresh(tab), root);
    PrintsSymbols(tab, v, todo);
    SavedReadsBack(tab, rank, u, v, entries, Heading(root), UnsetBy(tab, root), todo, true);
    LinesOfVisible(tab, rank, u, v, entries, todo);
    var u' := ReadFrom(tab, FullText(tab, v, root, entries, todo));
    FullExact(tab, rank, u, u', v, todo * Items(entries), FullBlanked(tab, root, entries, todo));
    RestoredPicks(tab, rank, v, todo * Items(entries), FullBlanked(tab, root, entries, todo), u');
    SolutionIsSolved(tab, rank, u', v) by { SolutionSize(tab, u, v); }
  }

  lemma SolutionSize(tab: Table, u: Users, v: Values)
    requires IsSolution(tab, u, v)
    ensures |v| == |tab.t|
  {
    hide Compute;
  }

  /** For booleans, choices of booleans, strings, and numbers with non-empty ranges the
      round trip is lossless, if no text reads as a symbol. */
  lemma BooleanRoundTrip(tab: Table, rank: Rank, u: Users, v: Values, root: string, entries: seq<Entry>, todo: set<Sym>)
    requires Saveable(tab, rank, u, v, entries) && PrintsAll(tab, v, todo)
    requires InertTitle(root) && InertTitles(entries) && AutoDefaults(tab, v)
    requires forall s: Sym :: s < |tab.t| ==> Typ(tab.t, s) != Tristate && RangeOpen(tab, v, s)
    ensures Solved(tab, rank, ReadFrom(tab, FullText(tab, v, root, entries, todo))) == v
  {
    hide Layered, Clean, UsersValid, IsSolution, ChoicesBuilt, PicksMember, InertTitle, InertTitles, UnsetBy, Blanked,
         AutoDefaults, ReadFrom, Solved, FullText, RangeOpen, RangeSettles, PrintsAll, SavedKeeps;
    assert '\n' !in root by { InertOneLine(root); }
    FullRoundTrip(tab, rank, u, v, root, entries, todo);
    InertBlanksNothing(tab, root);
    NothingBlanked(tab, entries, todo, true);
    forall s: Sym | s < |tab.t|
      ensures SavedKeeps(tab, u, v, {}, s)
    {
      assert RangeOpen(tab, v, s) && Typ(tab.t, s) != Tristate;
      BooleanSavedKeeps(tab, rank, u, v, s);
    }
  }

  lemma BooleanSavedKeeps(tab: Table, rank: Rank, u: Users, v: Values, s: Sym)
    requires Configured(tab, rank, u, v) && AutoDefaults(tab, v) && s < |tab.t|
    requires Typ(tab.t, s) != Tristate && RangeOpen(tab, v, s)
    ensures SavedKeeps(tab, u, v, {}, s)
  {
    hide Layered, IsSolution, ChoicesBuilt, PicksMember, RangeOpen, ChoiceKeeps, FullKeeps, Vis, Survives, HasDefault;
    if Def(tab, s).isChoice && IsTyped(Typ(tab.t, s)) {
      ChoiceShape(tab, rank, u, v, s);
      BooleanChoiceKeeps(tab, u, v, s);
    } else if Plain(tab, s) {
      BooleanFullKeeps(tab, u, v, s);
    }
  }

  lemma InertOneLine(text: string)
    requires InertTitle(text)
    ensures '\n' !in text
  {
    hide ParseLine;
  }

  lemma BooleanFullKeeps(tab: Table, u: Users, v: Values, s: Sym)
    requires Typ(tab.t, s) != Tristate && RangeOpen(tab, v, s)
    requires Def(tab, s).auto && Vis(tab, v, s) != NO ==> HasDefault(tab, v, s)
    ensures FullKeeps(tab, u, v, {}, s)
  {
    hide RangeOpen, RangeSettles, RevTri, PromptsTri, HasDefault;
    OpenSettles(tab, u, v, s);
  }

  lemma MinimalLinesOfVisible(tab: Table, rank: Rank, u: Users, v: Values, entries: seq<Entry>, optional: set<Sym>)
    requires Saveable(tab, rank, u, v, entries)
    ensures MinimalHaveLines(tab, v, optional, MinimalSet(tab, v, optional) * Items(entries))
  {
    hide Saveable, FullSet, Vis, Items, MinimalPrints, ChoiceDefault;
    forall s: Sym | s < |tab.t| && IsTyped(Typ(tab.t, s)) && Vis(tab, v, s) != NO && !Def(tab, s).isChoice
      ensures s in MinimalSet(tab, v, optional) * Items(entries) <==> MinimalHasLine(tab, v, optional, s)
    {
      VisiblePrinted(tab, rank, u, v, entries, s);
    }
  }

  /** Saving with conf_write_defconfig and loading gives the same configuration if and
      only if every visible symbol that cannot be changed or comes from the environment
      has its default, the ranges of the others settle, a choice worth m has a value
      worth m or selects that say so, and one whose pick was left out is selected. */
  lemma MinimalRoundTrip(tab: Table, rank: Rank, u: Users, v: Values, entries: seq<Entry>, optional: set<Sym>)
    requires Saveable(tab, rank, u, v, entries)
    ensures Solved(tab, rank, ReadFrom(tab, MinimalText(tab, v, entries, optional))) == v <==>
      forall s: Sym :: s < |tab.t| ==> MinimalSavedKeeps(tab, u, v, optional, s)
  {
    hide Layered, Clean, UsersValid, IsSolution, PicksMember, ChoicesBuilt, Items, UnsetBy, Blanked, MinimalSavedKeeps,
         ReadFrom, Solved, FullSet, Concat, EntryLines, MinimalPrints, IsLine, Fresh, Tellable, RestoredAll, Skipped,
         MinimalHaveLines;
    var todo := MinimalSet(tab, v, optional);
    var lines := EntryLines(tab, v, entries, todo, false);
    assert [] + lines == lines;
    LayeredTellable(tab, rank);
    FreshRestored(tab, v) by { LayeredLengths(tab, rank); }
    AllPrinted(tab, v);
    PrintsSymbols(tab, v, FullSet(tab, v));
    SavedReadsBack(tab, rank, u, v, entries, [], {}, todo, false);
    UntitledBlanksNothing(tab, entries, todo);
    var u' := ReadFrom(tab, MinimalText(tab, v, entries, optional));
    MinimalLinesOfVisible(tab, rank, u, v, entries, optional);
    MinimalExact(tab, rank, u, u', v, todo * Items(entries), optional);
    RestoredPicks(tab, rank, v, todo * Items(entries), {}, u');
    SolutionIsSolved(tab, rank, u', v) by { SolutionSize(tab, u, v); }
  }

  /** A minimal save prints no texts. */
  lemma {:induction false} UntitledBlanksNothing(tab: Table, entries: seq<Entry>, todo: set<Sym>)
    ensures Blanked(tab, entries, todo, false, {}) == {}
  {
    hide UnsetBy;
    if entries != [] {
      if entries[0].Item? {
        var none: set<Sym> := {};
        assert none - {entries[0].sym} == {};
        UntitledBlanksNothing(tab, entries[1..], todo - {entries[0].sym});
      }
      UntitledBlanksNothing(tab, entries[1..], todo);
    }
  }

  /** For booleans and their choices, and for strings and numbers nothing selects, a
      minimal save is lossless. */
  lemma MinimalLossless(tab: Table, rank: Rank, u: Users, v: Values, entries: seq<Entry>, optional: set<Sym>)
    requires Saveable(tab, rank, u, v, entries) && AutoDefaults(tab, v)
    requires forall s: Sym :: s < |tab.t| ==> Typ(tab.t, s) != Tristate && RangeOpen(tab, v, s)
    requires forall s: Sym :: IsTextual(Typ(tab.t, s)) ==> Def(tab, s).revDep.None?
    requires forall c: Sym :: Def(tab, c).isChoice && Vis(tab, v, c) != NO && c !in optional ==> Rev(tab, v, c) != NO
    ensures Solved(tab, rank, ReadFrom(tab, MinimalText(tab, v, entries, optional))) == v
  {
    hide Layered, Clean, UsersValid, IsSolution, ChoicesBuilt, PicksMember, ReadFrom, Solved, MinimalText, RangeOpen,
         AutoDefaults, Vis, Rev, MinimalSavedKeeps;
    MinimalRoundTrip(tab, rank, u, v, entries, optional);
    forall s: Sym | s < |tab.t|
      ensures MinimalSavedKeeps(tab, u, v, optional, s)
    {
      assert Typ(tab.t, s) != Tristate && RangeOpen(tab, v, s);
      BooleanMinimalKeeps(tab, rank, u, v, optional, s);
    }
  }

  lemma BooleanMinimalKeeps(tab: Table, rank: Rank, u: Users, v: Values, optional: set<Sym>, s: Sym)
    requires Configured(tab, rank, u, v) && AutoDefaults(tab, v) && s < |tab.t|
    requires Typ(tab.t, s) != Tristate && RangeOpen(tab, v, s)
    requires IsTextual(Typ(tab.t, s)) ==> Def(tab, s).revDep.None?
    requires Def(tab, s).isChoice && Vis(tab, v, s) != NO && s !in optional ==> Rev(tab, v, s) != NO
    ensures MinimalSavedKeeps(tab, u, v, optional, s)
  {
    hide Layered, IsSolution, ChoicesBuilt, PicksMember, RangeOpen, ChoiceKeeps, PickKeeps, Survives,
         Visibility,
         HasDefault, RangeSettles;
    SolutionSurvives(tab, u, v, s);
    if Def(tab, s).isChoice && IsTyped(Typ(tab.t, s)) {
      ChoiceShape(tab, rank, u, v, s);
      BooleanChoiceKeeps(tab, u, v, s);
      BooleanPickKeeps(tab, rank, u, v, optional, s);
    } else {
      OpenSettles(tab, u, v, s);
      if Typ(tab.t, s) == Boolean && !Def(tab, s).auto && Def(tab, s).choiceOf.None? && !Def(tab, s).isChoice {
        BooleanKeeps(tab, u, v, s);
      }
    }
  }

  // ----- what reading guarantees of any text -----

  /** Reading any text leaves numbers in the user's values that are numbers. */
  lemma {:induction false} ReadLinesValid(tab: Table, u: Users, lines: seq<string>)
    requires UsersValid(tab, u) && |u.val| == |tab.t| && forall c: Sym :: Def(tab, c).isChoice ==>
      IsLogical(Typ(tab.t, c))
    ensures UsersValid(tab, ReadLines(tab, u, lines)) && |ReadLines(tab, u, lines).val| == |tab.t|
    decreases |lines|
  {
    hide ReadLine, UsersValid;
    if lines != [] {
      ReadLineValid(tab, u, lines[0]);
      ReadLinesValid(tab, ReadLine(tab, u, lines[0]), lines[1..]);
    }
  }

  lemma ReadLineValid(tab: Table, u: Users, line: string)
    requires UsersValid(tab, u) && |u.val| == |tab.t|
    ensures UsersValid(tab, ReadLine(tab, u, line)) && |ReadLine(tab, u, line).val| == |tab.t|
  {
    hide ParseLine, StringValid, Unescape, Find;
  }

  lemma ReadFromValid(tab: Table, text: string)
    requires |tab.d| == |tab.t| && forall c: Sym :: Def(tab, c).isChoice ==> IsLogical(Typ(tab.t, c))
    ensures UsersValid(tab, ReadFrom(tab, text))
  {
    hide StringValid, Lines, ReadLines;
    ReadLinesValid(tab, Fresh(tab), Lines(text));
  }
}
