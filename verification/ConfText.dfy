/** The lines of a configuration file: how one is printed
    (confdata.c:488-508, 610-629) and how it is taken apart again
    (confdata.c:314-382), and the texts a symbol accepts (symbol.c:565-603). */
module ConfText {
  import opened Tristates
  import opened NumText
  import opened Exprs
  import opened Quoting
  import opened SymbolEquations

  const PREFIX: string := "CONFIG_"
  const NOT_SET: string := "is not set"

  // ----- taking a line apart -----

  /** strchr: the offset of the first `c` from i on, |s| if there is none. */
  function IndexOf(s: string, c: char, i: nat): (j: nat)
    requires i <= |s|
    ensures i <= j <= |s|
    ensures forall k :: i <= k < j ==> s[k] != c
    ensures j < |s| ==> s[j] == c
    decreases |s| - i
  {
    if i < |s| && s[i] != c then IndexOf(s, c, i + 1) else i
  }

  datatype Line = Ignored | Unset(name: string) | Assigned(name: string, text: string)

  /** A line "# CONFIG_NAME is not set". */
  function ParseComment(line: string): Line {
    if |line| < 2 || !(PREFIX <= line[2..]) then Ignored
    else
      var body := line[2 + |PREFIX|..];
      var j := IndexOf(body, ' ', 0);
      if j < |body| && NOT_SET <= body[j + 1..] then Unset(body[..j]) else Ignored
  }

  /** The text before the line end, without a carriage return. */
  function StripEol(s: string): string {
    var k := IndexOf(s, '\n', 0);
    if 0 < k < |s| && s[k - 1] == '\r' then s[..k - 1] else s[..k]
  }

  /** A line "CONFIG_NAME=text". */
  function ParseAssignment(line: string): Line {
    if !(PREFIX <= line) then Ignored
    else
      var body := line[|PREFIX|..];
      var j := IndexOf(body, '=', 0);
      if j < |body| then Assigned(body[..j], StripEol(body[j + 1..])) else Ignored
  }

  function ParseLine(line: string): Line {
    if line != [] && line[0] == '#' then ParseComment(line) else ParseAssignment(line)
  }

  // ----- what a symbol accepts -----

  /** Digits without a leading zero. */
  predicate IsDecimal(d: string) {
    d != [] && (forall i :: 0 <= i < |d| ==> IsDigit(d[i])) && (d[0] == '0' ==> |d| == 1)
  }

  predicate IsIntText(s: string) {
    IsDecimal(if s != [] && s[0] == '-' then s[1..] else s)
  }

  predicate IsHexText(s: string) {
    var d := if |s| >= 2 && s[0] == '0' && (s[1] == 'x' || s[1] == 'X') then s[2..] else s;
    d != [] && forall i :: 0 <= i < |d| ==> IsXDigit(d[i])
  }

  /** sym_string_valid, for the types that keep a string. */
  predicate StringValid(y: SymType, s: string) {
    match y
    case Str => true
    case Int => IsIntText(s)
    case Hex => IsHexText(s)
    case _ => false
  }

  /** What conf_set_sym_val does with a text. */
  datatype Stored = Rejected | Untouched | StoredTri(tri: Tri) | StoredText(str: string)

  function AcceptString(s: string): Stored {
    if s == [] || s[0] != '"' then Untouched
    else
      var x := Unescape(s[1..]);
      if x.None? then Rejected else StoredText(x.value)
  }

  function AcceptLetter(y: SymType, s: string): Stored {
    if s == [] then Rejected
    else if s[0] == 'm' && y == Tristate then StoredTri(MOD)
    else if s[0] == 'y' then StoredTri(YES)
    else if s[0] == 'n' then StoredTri(NO)
    else Rejected
  }

  function AcceptText(y: SymType, s: string): Stored {
    match y
    case Boolean => AcceptLetter(y, s)
    case Tristate => AcceptLetter(y, s)
    case Str => AcceptString(s)
    case Int => if StringValid(y, s) then StoredText(s) else Rejected
    case Hex => if StringValid(y, s) then StoredText(s) else Rejected
    case Other => if s == [] || s[0] != '"' then StoredText(s) else Rejected
    case Unknown => Untouched
  }

  // ----- printing a line -----

  /** kconfig_print_symbol; `skipUnset` is its non-null argument. */
  function PrintSymbol(y: SymType, name: string, value: string, skipUnset: bool): string {
    if IsLogical(y) && value != [] && value[0] == 'n' then
      if skipUnset then "" else "# " + PREFIX + name + " " + NOT_SET + "\n"
    else
      PREFIX + name + "=" + value + "\n"
  }

  /** conf_write_symbol: strings are quoted, symbols of no printable type skipped. */
  function WriteSymbol(y: SymType, name: string, value: string, skipUnset: bool): string {
    if y == Other || y == Unknown then ""
    else PrintSymbol(y, name, if y == Str then Escape(value) else value, skipUnset)
  }

  // ----- a printed line reads back -----

  /** A name the reader can find its end of. */
  predicate CleanName(name: string) {
    ' ' !in name && '=' !in name && '\n' !in name
  }

  lemma {:induction false} IndexOfFound(s: string, c: char, i: nat, k: nat)
    requires i <= k < |s| && s[k] == c && forall j :: i <= j < k ==> s[j] != c
    ensures IndexOf(s, c, i) == k
    decreases k - i
  {
    if i < k {
      IndexOfFound(s, c, i + 1, k);
    }
  }

  lemma StripsEol(s: string)
    requires '\n' !in s
    ensures StripEol(s + "\n") == StripCr(s)
  {
    IndexOfFound(s + "\n", '\n', 0, |s|);
  }

  lemma CommentBody(body: string)
    ensures var line := "# " + (PREFIX + body);
      PREFIX <= line[2..] && line[2 + |PREFIX|..] == body
  {
    var line := "# " + (PREFIX + body);
    assert line[2..] == PREFIX + body;
  }

  lemma ParseUnset(name: string)
    requires CleanName(name)
    ensures ParseLine("# " + PREFIX + name + " " + NOT_SET + "\n") == Unset(name)
  {
    hide StripEol, ParseAssignment, IndexOf;
    var body := name + (" " + (NOT_SET + "\n"));
    assert "# " + PREFIX + name + " " + NOT_SET + "\n" == "# " + (PREFIX + body);
    CommentBody(body);
    IndexOfFound(body, ' ', 0, |name|);
    assert body[|name| + 1..] == NOT_SET + "\n";
    assert body[..|name|] == name;
  }

  lemma ParseAssigned(name: string, value: string)
    requires CleanName(name) && '\n' !in value
    ensures ParseLine(PREFIX + name + "=" + value + "\n") ==
      Assigned(name, StripCr(value))
  {
    hide StripEol, ParseComment, IndexOf, StripCr;
    var line := PREFIX + name + "=" + value + "\n";
    var body := name + ("=" + (value + "\n"));
    assert line == PREFIX + body;
    assert line[|PREFIX|..] == body;
    IndexOfFound(body, '=', 0, |name|);
    assert body[|name| + 1..] == value + "\n";
    assert body[..|name|] == name;
    StripsEol(value);
  }

  /** A complete line: one line end, at its end. */
  predicate IsLine(line: string) {
    line != [] && line[|line| - 1] == '\n' && '\n' !in line[..|line| - 1]
  }

  /** A value whose line keeps its shape. Quotes protect a trailing carriage
      return, so only numbers must not end in one. */
  predicate CleanValue(y: SymType, value: string) {
    && '\n' !in value
    && (y == Int || y == Hex ==> value == [] || value[|value| - 1] != '\r')
    && (IsLogical(y) ==> value == "y" || value == "n" || (value == "m" && y == Tristate))
  }

  /** What reading the line of a symbol stores. */
  function Reread(y: SymType, value: string): Stored {
    if IsLogical(y) then StoredTri(if value == "y" then YES else if value == "m" then MOD else NO)
    else if StringValid(y, value) then StoredText(value)
    else Rejected
  }

  lemma EscapedText(value: string)
    ensures AcceptString(Escape(value)) == StoredText(value)
  {
    UnescapeEscape(value, []);
    assert Escape(value)[1..] == EscapeBody(value) + ['"'] + [];
  }

  function StripCr(s: string): string {
    if s != [] && s[|s| - 1] == '\r' then s[..|s| - 1] else s
  }

  function PrintedText(y: SymType, value: string): string {
    if y == Str then Escape(value) else value
  }

  /** What is left of the printed text is accepted as the value. */
  lemma AcceptedBack(y: SymType, value: string)
    requires IsTyped(y) && CleanValue(y, value) && !(IsLogical(y) && value == "n")
    ensures AcceptText(y, StripCr(PrintedText(y, value))) == Reread(y, value)
    ensures '\n' !in PrintedText(y, value)
  {
    hide Unescape, IsIntText, IsHexText;
    if y == Str {
      EscapeBodyKeeps(value, '\n');
      EscapedText(value);
    }
  }

  /** The line printed for a symbol, when it is not "is not set". */
  lemma AssignmentReadsBack(y: SymType, name: string, value: string)
    requires IsTyped(y) && CleanName(name) && CleanValue(y, value)
    requires !(IsLogical(y) && value == "n")
    ensures var line := WriteSymbol(y, name, value, false);
      IsLine(line) && ParseLine(line).Assigned? && ParseLine(line).name == name &&
      AcceptText(y, ParseLine(line).text) == Reread(y, value)
  {
    hide ParseLine, StringValid, Unescape, CleanName, IsLine, AcceptText, Reread, Escape;
    var text := PrintedText(y, value);
    AcceptedBack(y, value);
    ParseAssigned(name, text);
    CleanLine(name, text);
    assert WriteSymbol(y, name, value, false) == PREFIX + name + "=" + text + "\n";
  }

  lemma CleanLine(name: string, text: string)
    requires CleanName(name) && '\n' !in text
    ensures IsLine(PREFIX + name + "=" + text + "\n")
    ensures IsLine("# " + PREFIX + name + " " + NOT_SET + "\n")
  {
    LineOf(PREFIX + name + "=" + text);
    LineOf("# " + PREFIX + name + " " + NOT_SET);
  }

  lemma LineOf(body: string)
    requires '\n' !in body
    ensures IsLine(body + "\n")
  {
    assert (body + "\n")[..|body + "\n"| - 1] == body;
  }
}
