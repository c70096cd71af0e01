/** What a configuration file says, line by line (confdata.c:138-204, 314-401, 488-508,
    610-629, 760-823): the exact lines written, exactly which lines say something to the
    reader, and what each of them does to the users' values. */
module LineRules {
  import opened Tristates
  import opened NumText
  import opened Exprs
  import opened SymbolEquations
  import opened ConfText
  import opened Quoting
  import opened Ranges
  import opened Saving
  import opened Configurations

  // ----- what is written -----

  /** Each character of a quoted string stands for itself, behind a backslash if it is a
      quote or a backslash, ... */
  lemma EscapesOne(c: char)
    ensures EscapeBody([c]) == if c == '"' || c == '\\' then ['\\', c] else [c]
  {
    assert [c][1..] == [];
    assert EscapeBody([c][1..]) == [];
  }

  /** ... and they follow one another. */
  lemma {:induction false} EscapesEach(a: string, b: string)
    ensures EscapeBody(a + b) == EscapeBody(a) + EscapeBody(b)
  {
    hide NeedsEscape;
    if a == [] {
      assert a + b == b;
    } else {
      EscapesEach(a[1..], b);
      assert (a + b)[0] == a[0] && (a + b)[1..] == a[1..] + b;
      var p := if NeedsEscape(a[0]) then ['\\', a[0]] else [a[0]];
      assert p + (EscapeBody(a[1..]) + EscapeBody(b)) == p + EscapeBody(a[1..]) + EscapeBody(b);
    }
  }

  /** The line of a symbol, by its type. */
  lemma LineWritten(name: string, x: string)
    ensures forall y, skip :: IsLogical(y) && x != "" && x[0] != 'n' ==>
      WriteSymbol(y, name, x, skip) == "CONFIG_" + name + "=" + x + "\n"
    ensures forall y, skip :: y == Int || y == Hex ==>
      WriteSymbol(y, name, x, skip) == "CONFIG_" + name + "=" + x + "\n"
    ensures forall y :: IsLogical(y) ==> WriteSymbol(y, name, "n", false) == "# CONFIG_" + name + " is not set\n"
    ensures forall y :: IsLogical(y) ==> WriteSymbol(y, name, "n", true) == ""
    ensures forall y, skip :: y == Other || y == Unknown ==> WriteSymbol(y, name, x, skip) == ""
    ensures forall skip :: WriteSymbol(Str, name, x, skip) == "CONFIG_" + name + "=\"" + EscapeBody(x) + "\"\n"
  {
    hide EscapeBody;
    assert "# " + PREFIX + name + " " + NOT_SET + "\n" == "# CONFIG_" + name + " is not set\n" by { Joined(name); }
    assert PREFIX + name + "=" + Escape(x) + "\n" == "CONFIG_" + name + "=\"" + EscapeBody(x) + "\"\n" by {
      Quoted(PREFIX + name, EscapeBody(x));
    }
  }

  lemma Joined(name: string)
    ensures "# " + "CONFIG_" + name + " " + "is not set" + "\n" == "# CONFIG_" + name + " is not set\n"
  {
    assert "# " + "CONFIG_" == "# CONFIG_";
    assert " is not set\n" == " " + "is not set" + "\n";
    var a := "# CONFIG_" + name;
    assert a + " " + "is not set" + "\n" == a + (" " + "is not set" + "\n");
  }

  lemma Quoted(a: string, body: string)
    ensures a + "=" + (['"'] + body + ['"']) + "\n" == a + "=\"" + body + "\"\n"
  {
    assert "=\"" == "=" + ['"'] && "\"\n" == ['"'] + "\n";
  }

  /** The lines in front of a file and in front of a menu. */
  lemma CommentsWritten(text: string)
    ensures Concat(TitleLines(text)) == "\n#\n# " + text + "\n#\n"
    ensures Concat(Heading(text)) ==
      "#\n" + ("# " + "Automatically generated file; DO NOT EDIT." + "\n") +
      (if text == "" then "#\n" else "# " + text + "\n") + "#\n"
  {
    Concat4("\n", "#\n", "# " + text + "\n", "#\n");
    assert "\n" + "#\n" == "\n#\n" && "\n#\n" + "# " == "\n#\n# ";
    assert "\n" + "#\n" + ("# " + text + "\n") + "#\n" == "\n#\n# " + text + "\n#\n" by {
      assert "\n" + "#\n" == "\n#\n";
    }
    Concat4("#\n", "# " + BANNER + "\n", CommentLine(text), "#\n");
  }

  lemma Concat4(a: string, b: string, c: string, d: string)
    ensures Concat([a, b, c, d]) == a + b + c + d
  {
    assert [a, b, c, d][1..] == [b, c, d] && [b, c, d][1..] == [c, d] && [c, d][1..] == [d] && [d][1..] == [];
    assert Concat([]) == "" && Concat([d]) == d && Concat([c, d]) == c + d && Concat([b, c, d]) == b + (c + d);
    assert a + (b + (c + d)) == a + b + c + d;
  }

  /** The lines of one more entry: a shown title has four lines where titles are printed, and
      a symbol to be printed has its line the first time it comes by. */
  lemma {:induction false} EntryLinesMore(tab: Table, v: Values, entries: seq<Entry>, e: Entry, todo: set<Sym>,
                                          titles: bool)
    ensures EntryLines(tab, v, [], todo, titles) == []
    ensures EntryLines(tab, v, entries + [e], todo, titles) == EntryLines(tab, v, entries, todo, titles) +
      match e
      case Title(text, shown) =>
        if titles && shown then ["\n", "#\n", "# " + text + "\n", "#\n"] else []
      case Item(s) =>
        if s in todo && IsTyped(Typ(tab.t, s)) && Item(s) !in entries
        then [WriteSymbol(Typ(tab.t, s), Name(tab.t, s), StringOf(W(tab, v), s), false)] else []
    decreases entries
  {
    hide WriteSymbol, StringOf, IsTyped;
    if entries == [] {
      assert [e][1..] == [];
      assert EntryLines(tab, v, [], todo, titles) == [];
    } else {
      var all, rest := entries + [e], entries[1..];
      assert all[0] == entries[0] && all[1..] == rest + [e];
      assert forall a: seq<string>, b, c :: a + (b + c) == a + b + c;
      match entries[0]
      case Title(_, _) => EntryLinesMore(tab, v, rest, e, todo, titles);
      case Item(s) =>
        EntryLinesMore(tab, v, rest, e, todo - {s}, titles);
        EntryLinesMore(tab, v, rest, e, todo, titles);
    }
  }

  // ----- which lines say something -----

  /** No newline, and then one or the end. */
  lemma LineEnds(a: string, b: string)
    requires '\n' !in a
    ensures StripEol(a) == a
    ensures StripEol(a + "\n" + b) == if a != "" && a[|a| - 1] == '\r' then a[..|a| - 1] else a
  {
    NoIndex(a, '\n', 0);
    assert a[..|a|] == a;
    var s := a + "\n" + b;
    IndexOfFound(s, '\n', 0, |a|);
    assert s[..|a|] == a;
    if a != "" {
      assert s[..|a| - 1] == a[..|a| - 1];
    }
  }

  lemma {:induction false} NoIndex(s: string, c: char, i: nat)
    requires i <= |s| && forall j :: i <= j < |s| ==> s[j] != c
    ensures IndexOf(s, c, i) == |s|
    decreases |s| - i
  {
    if i < |s| {
      NoIndex(s, c, i + 1);
    }
  }

  /** The line assigns what stands behind its first '=' to the name in front of it. */
  ghost predicate Assigns(line: string, name: string, tail: string) {
    '=' !in name && line == "CONFIG_" + name + "=" + tail
  }

  /** The line says that the name in front of the first space is not set; the character
      between the '#' and the name may be any. */
  ghost predicate Unsets(line: string, name: string, c: char, rest: string) {
    ' ' !in name && line == ['#', c] + "CONFIG_" + name + " is not set" + rest
  }

  lemma AssignsParses(line: string, name: string, tail: string)
    requires Assigns(line, name, tail)
    ensures ParseLine(line) == Assigned(name, StripEol(tail))
  {
    hide StripEol;
    var body := name + ("=" + tail);
    assert line == PREFIX + body;
    assert line[|PREFIX|..] == body;
    IndexOfFound(body, '=', 0, |name|);
    assert body[..|name|] == name && body[|name| + 1..] == tail;
  }

  lemma UnsetsParses(line: string, name: string, c: char, rest: string)
    requires Unsets(line, name, c, rest)
    ensures ParseLine(line) == Unset(name)
  {
    var body := name + (" " + ("is not set" + rest));
    assert " is not set" == " " + "is not set";
    assert line == ['#', c] + (PREFIX + body);
    assert line[2..] == PREFIX + body;
    assert line[2 + |PREFIX|..] == body;
    IndexOfFound(body, ' ', 0, |name|);
    assert body[..|name|] == name && body[|name| + 1..] == NOT_SET + rest;
  }

  lemma AssignedShape(line: string)
    requires ParseLine(line).Assigned?
    ensures exists tail :: Assigns(line, ParseLine(line).name, tail) && ParseLine(line).text == StripEol(tail)
  {
    hide StripEol;
    var body := line[|PREFIX|..];
    var j := IndexOf(body, '=', 0);
    assert line == PREFIX + body;
    assert body == body[..j] + "=" + body[j + 1..];
    assert PREFIX + (body[..j] + "=" + body[j + 1..]) == PREFIX + body[..j] + "=" + body[j + 1..];
    assert Assigns(line, body[..j], body[j + 1..]);
  }

  lemma UnsetShape(line: string)
    requires ParseLine(line).Unset?
    ensures exists c, rest :: Unsets(line, ParseLine(line).name, c, rest)
  {
    var body := line[2 + |PREFIX|..];
    var j := IndexOf(body, ' ', 0);
    var rest := body[j + 1..][|NOT_SET|..];
    assert line == line[..2] + PREFIX + body by { assert line[2..] == PREFIX + body; }
    assert line[..2] == ['#', line[1]];
    assert body[j + 1..] == NOT_SET + rest;
    assert body == body[..j] + " " + (NOT_SET + rest);
    assert line == ['#', line[1]] + "CONFIG_" + (body[..j] + " " + (NOT_SET + rest));
    UnsetPieces(['#', line[1]] + "CONFIG_", body[..j], rest);
    assert Unsets(line, body[..j], line[1], rest);
  }

  lemma UnsetPieces(a: string, name: string, rest: string)
    ensures a + (name + " " + ("is not set" + rest)) == a + name + " is not set" + rest
  {
    assert " is not set" == " " + "is not set";
  }

  /** A line is taken for an assignment or for "is not set" if and only if it has the shape,
      and any other line is passed over. */
  lemma ParsesExactly(line: string)
    ensures forall name, text :: ParseLine(line) == Assigned(name, text) <==>
      exists tail :: Assigns(line, name, tail) && text == StripEol(tail)
    ensures forall name :: ParseLine(line) == Unset(name) <==> exists c, rest :: Unsets(line, name, c, rest)
  {
    hide StripEol, ParseLine, Assigns, Unsets;
    if ParseLine(line).Assigned? {
      AssignedShape(line);
    }
    if ParseLine(line).Unset? {
      UnsetShape(line);
    }
    forall name, tail | Assigns(line, name, tail)
      ensures ParseLine(line) == Assigned(name, StripEol(tail))
    {
      AssignsParses(line, name, tail);
    }
    forall name, c, rest | Unsets(line, name, c, rest)
      ensures ParseLine(line) == Unset(name)
    {
      UnsetsParses(line, name, c, rest);
    }
  }

  lemma LinesUnfold(text: string)
    requires IndexOf(text, '\n', 0) < |text|
    ensures var k := IndexOf(text, '\n', 0); Lines(text) == [text[..k + 1]] + Lines(text[k + 1..])
  {
    hide IndexOf;
  }

  lemma LineTo(text: string, k: nat)
    requires k < |text| && text[k] == '\n' && forall j :: 0 <= j < k ==> text[j] != '\n'
    ensures IsLine(text[..k + 1])
  {
    var line := text[..k + 1];
    assert line[..|line| - 1] == text[..k];
  }

  lemma ConcatMore(first: string, rest: seq<string>)
    ensures Concat([first] + rest) == first + Concat(rest)
  {
    assert ([first] + rest)[1..] == rest;
  }

  /** Lines that end with the one newline they have, but for the last, which may have none. */
  predicate AreLines(lines: seq<string>) {
    && (forall i :: 0 <= i < |lines| - 1 ==> IsLine(lines[i]))
    && (lines != [] ==>
         lines[|lines| - 1] != "" && (IsLine(lines[|lines| - 1]) || '\n' !in lines[|lines| - 1]))
  }

  lemma AreLinesMore(first: string, rest: seq<string>)
    requires IsLine(first) && AreLines(rest)
    ensures AreLines([first] + rest)
  {
    hide IsLine;
    var lines := [first] + rest;
    assert first != "" by { LineNotEmpty(first); }
    assert forall i :: 0 < i < |lines| ==> lines[i] == rest[i - 1];
  }

  lemma LineNotEmpty(line: string)
    requires IsLine(line)
    ensures line != ""
  {
  }

  /** A text is cut into lines without losing anything. */
  lemma {:induction false} LinesCover(text: string)
    ensures Concat(Lines(text)) == text && AreLines(Lines(text))
    decreases |text|
  {
    hide AreLines, IsLine, Lines, Concat, IndexOf;
    if text == [] {
      NoLines();
    } else {
      var k := IndexOf(text, '\n', 0);
      if k == |text| {
        OneLine(text);
      } else {
        LinesUnfold(text);
        LineTo(text, k);
        assert text == text[..k + 1] + text[k + 1..];
        LinesCover(text[k + 1..]);
        ConcatMore(text[..k + 1], Lines(text[k + 1..]));
        AreLinesMore(text[..k + 1], Lines(text[k + 1..]));
      }
    }
  }

  lemma NoLines()
    ensures Lines("") == [] && AreLines([]) && Concat([]) == ""
  {
  }

  lemma OneLine(text: string)
    requires text != "" && IndexOf(text, '\n', 0) == |text|
    ensures Lines(text) == [text] && AreLines([text]) && Concat([text]) == text
  {
    assert Concat([text]) == text + Concat([text][1..]);
  }

  // ----- what a text is worth -----

  /** The texts a boolean or tristate symbol takes: only the first letter counts. */
  lemma LettersTaken(y: SymType, s: string)
    requires IsLogical(y)
    ensures AcceptText(y, s) ==
      if s == "" then Rejected
      else if s[0] == 'y' then StoredTri(YES)
      else if s[0] == 'm' && y == Tristate then StoredTri(MOD)
      else if s[0] == 'n' then StoredTri(NO)
      else Rejected
  {
  }

  /** A string is taken between its quotes, and what follows the closing one does not count;
      without an opening quote nothing happens, and without a closing one it is refused. */
  lemma StringsTaken(x: string, rest: string)
    ensures AcceptText(Str, "\"" + EscapeBody(x) + "\"" + rest) == StoredText(x)
    ensures AcceptText(Str, "\"" + EscapeBody(x)) == Rejected
    ensures rest == "" || rest[0] != '"' ==> AcceptText(Str, rest) == Untouched
  {
    hide Unescape, EscapeBody;
    UnescapeEscape(x, rest);
    var s := "\"" + EscapeBody(x) + "\"" + rest;
    assert s[1..] == EscapeBody(x) + ['"'] + rest;
    NeverCloses(x);
    assert ("\"" + EscapeBody(x))[1..] == EscapeBody(x);
  }

  lemma {:induction false} NeverCloses(x: string)
    ensures Unescape(EscapeBody(x)) == None
  {
    if x != [] {
      NeverCloses(x[1..]);
      var t, rest := EscapeBody(x), EscapeBody(x[1..]);
      if NeedsEscape(x[0]) {
        assert t == ['\\', x[0]] + rest;
        assert t[2..] == rest;
      } else {
        assert t == [x[0]] + rest;
        assert t[1..] == rest;
      }
    }
  }

  /** A valid decimal number is one that prints as it is written; "-0" is the one exception. */
  lemma DecimalsTaken(s: string)
    ensures AcceptText(Int, s) == if s == "-0" || (exists n :: s == FormatDec(n)) then StoredText(s) else Rejected
  {
    hide FormatDec;
    assert "-0"[1..] == "0" && IsIntText("-0");
    if IsIntText(s) {
      IntTextPrints(s);
    }
    forall n | s == FormatDec(n)
      ensures IsIntText(s)
    {
      PrintsIntText(n);
    }
  }

  lemma PrintsIntText(n: int)
    ensures IsIntText(FormatDec(n))
  {
    hide Digits;
    DecText(if n < 0 then -n else n);
    assert ['-'] == "-";
  }

  lemma {:induction false} DigitsOfMagnitude(d: string)
    requires IsDecimal(d)
    ensures Digits(Magnitude(d, 10), 10) == d
    ensures d[0] != '0' ==> Magnitude(d, 10) > 0
  {
    hide IsDigit, DigitValue, DigitChar;
    var k := |d| - 1;
    LastDigit(d[k]);
    if k == 0 {
      assert d == [d[0]] && Magnitude(d[..0], 10) == 0;
    } else {
      var q, x := Magnitude(d[..k], 10), DigitValue(d[k]);
      DigitsOfMagnitude(d[..k]);
      assert Magnitude(d, 10) == q * 10 + x && (q * 10 + x) / 10 == q && (q * 10 + x) % 10 == x;
      assert d == d[..k] + [d[k]];
    }
  }

  lemma LastDigit(c: char)
    requires IsDigit(c)
    ensures DigitValue(c) < 10 && DigitChar(DigitValue(c)) == c && (DigitValue(c) == 0 ==> c == '0')
  {
  }

  lemma IntTextPrints(s: string)
    requires IsIntText(s)
    ensures s == "-0" || exists n :: s == FormatDec(n)
  {
    hide Digits, Magnitude;
    var d := if s != [] && s[0] == '-' then s[1..] else s;
    DigitsOfMagnitude(d);
    var m: int := Magnitude(d, 10);
    if s[0] == '-' {
      assert s == ['-'] + d;
      if m > 0 {
        assert s == FormatDec(-m);
      } else {
        assert s == "-0";
      }
    } else {
      assert s == FormatDec(m);
    }
  }

  /** A valid hexadecimal number is one strtoll reads to its end without a sign or a space. */
  lemma HexesTaken(s: string)
    ensures AcceptText(Hex, s) ==
      if s != "" && !IsSpace(s[0]) && s[0] != '-' && s[0] != '+' && ScanNumber(s, 16).tail == |s|
      then StoredText(s) else Rejected
  {
    HexTextScans(s);
  }

  /** A symbol of no printable type takes an unquoted text as it is and refuses a quoted one;
      one without a type takes nothing. */
  lemma OthersTaken(s: string)
    ensures AcceptText(Other, s) == if s != "" && s[0] == '"' then Rejected else StoredText(s)
    ensures AcceptText(Unknown, s) == Untouched
  {
  }

  lemma HexTextScans(s: string)
    ensures IsHexText(s) <==> s != "" && !IsSpace(s[0]) && s[0] != '-' && s[0] != '+' && ScanNumber(s, 16).tail == |s|
  {
    hide Magnitude, DigitValue;
    HexDigitsPlain();
    if s != "" && !IsSpace(s[0]) && s[0] != '-' && s[0] != '+' {
      assert SkipSpaces(s, 0) == 0;
      var k := if HasHexPrefix(s, 0) then 2 else 0;
      assert ScanNumber(s, 16).tail == if DigitsEnd(s, k, 16) == k then 0 else DigitsEnd(s, k, 16);
      if IsHexText(s) {
        HexPart(s, k);
        DigitsEndAll(s, k, 16);
      }
      if ScanNumber(s, 16).tail == |s| {
        HexRead(s, k);
      }
    } else if IsHexText(s) {
      HexStart(s);
    }
  }

  lemma HexDigitsPlain()
    ensures forall c: char :: IsXDigit(c) ==> !IsSpace(c) && c != '-' && c != '+'
    ensures forall c: char :: IsXDigit(c) <==> DigitValue(c) < 16
    ensures !IsXDigit('x') && !IsXDigit('X') && IsXDigit('0')
  {
  }

  lemma HexStart(s: string)
    requires IsHexText(s)
    ensures s != "" && (s[0] == '0' || IsXDigit(s[0]))
  {
    if !(|s| >= 2 && s[0] == '0' && (s[1] == 'x' || s[1] == 'X')) {
      assert IsXDigit(s[0]);
    }
  }

  lemma HexPart(s: string, k: nat)
    requires IsHexText(s) && k == (if HasHexPrefix(s, 0) then 2 else 0)
    ensures k < |s| && forall i :: k <= i < |s| ==> DigitValue(s[i]) < 16
  {
    if |s| >= 2 && s[0] == '0' && (s[1] == 'x' || s[1] == 'X') {
      var d := s[2..];
      assert IsXDigit(d[0]);
      forall i | 2 <= i < |s|
        ensures DigitValue(s[i]) < 16
      {
        assert IsXDigit(d[i - 2]);
      }
    } else {
      forall i | 0 <= i < |s|
        ensures DigitValue(s[i]) < 16
      {
        assert IsXDigit(s[i]);
      }
    }
  }

  lemma HexRead(s: string, k: nat)
    requires s != "" && k == (if HasHexPrefix(s, 0) then 2 else 0)
    requires DigitsEnd(s, k, 16) == |s| && k < |s|
    ensures IsHexText(s)
  {
    hide DigitValue, DigitsEnd;
    forall i | k <= i < |s|
      ensures IsXDigit(s[i])
    {
    }
    if k == 0 && |s| >= 2 {
      HexDigitsPlain();
      assert IsXDigit(s[1]);
    }
  }

  // ----- what a line does -----

  /** The symbol a name stands for: the constants y, m and n, else the first symbol of that
      name that is not constant. */
  lemma FoundExactly(t: Symbols, name: string, s: Sym)
    ensures name != "y" && name != "m" && name != "n" && name != "" ==>
      (Find(t, name) == Some(s) <==>
        s < |t| && t[s].name == name && !t[s].isConst &&
        forall j :: 0 <= j < s ==> t[j].name != name || t[j].isConst)
    ensures Find(t, "y") == Some(2) && Find(t, "m") == Some(1) && Find(t, "n") == Some(0) && Find(t, "") == None
  {
    hide FindFrom;
    FindFromFirst(t, name, 0);
    FindFromFirst(t, "", 0);
  }

  lemma {:induction false} FindFromFirst(t: Symbols, name: string, i: nat)
    requires i <= |t|
    ensures var r := FindFrom(t, name, i);
      if r.Some? then forall j :: i <= j < r.value ==> t[j].name != name || t[j].isConst
      else name == "" || forall j :: i <= j < |t| ==> t[j].name != name || t[j].isConst
    decreases |t| - i
  {
    if i < |t| {
      FindFromFirst(t, name, i + 1);
    }
  }

  /** A line whose name is not found, or whose text the symbol refuses, does nothing. */
  lemma NothingRead(tab: Table, u: Users, line: string)
    ensures ParseLine(line).Ignored? ==> ReadLine(tab, u, line) == u
    ensures !ParseLine(line).Ignored? && Find(tab.t, ParseLine(line).name).None? ==> ReadLine(tab, u, line) == u
    ensures !ParseLine(line).Ignored? && Find(tab.t, ParseLine(line).name).Some? && ParseLine(line).Assigned? &&
            AcceptText(Typ(tab.t, Find(tab.t, ParseLine(line).name).value), ParseLine(line).text) == Rejected ==>
      ReadLine(tab, u, line) == u
  {
    hide ParseLine, Find, AcceptText;
  }

  /** The line sets s to x. */
  predicate Sets(tab: Table, line: string, s: Sym, x: Stored) {
    var l := ParseLine(line);
    && !l.Ignored? && Find(tab.t, l.name) == Some(s)
    && (l.Assigned? ==> x == AcceptText(Typ(tab.t, s), l.text))
    && (l.Unset? ==> x == if IsLogical(Typ(tab.t, s)) then StoredTri(NO) else Untouched)
  }

  /** A line that sets a symbol makes it count as set, with the value; a choice learns of its
      values: it becomes at least as high, picks a value set to y, and no longer counts as
      set when one is set to m while it is y. No other symbol is affected. */
  lemma LineRead(tab: Table, u: Users, line: string, s: Sym, x: Stored)
    requires Sets(tab, line, s, x) && !x.Rejected? && s < |u.val| && Def(tab, s).choiceOf != Some(s)
    ensures var u', c := ReadLine(tab, u, line), Def(tab, s).choiceOf;
      var was, now := u.val[s], Val(u'.val, s);
      && |u'.val| == |u.val|
      && (s in u'.has <==> s in u.has || x.StoredTri? || x.StoredText?)
      && now.pick == was.pick && now.tri == (if x.StoredTri? then x.tri else was.tri)
      && now.str == (if x.StoredText? then x.str else was.str)
      && (c.Some? && c.value < |u.val| ==>
           var before, after := u.val[c.value], u'.val[c.value];
           && after.tri == TriOr(before.tri, now.tri) && after.str == before.str
           && after.pick == (if now.tri == YES then Some(s) else before.pick)
           && (c.value in u'.has <==> c.value in u.has && !(now.tri == MOD && before.tri == YES)))
      && forall z: Sym :: z != s && Some(z) != c ==> (z in u'.has <==> z in u.has) && Val(u'.val, z) == Val(u.val, z)
  {
    hide ParseLine, Find, AcceptText;
  }
}
