/** The dependency scanner (fixdep.c:129-276): it finds the configuration
    symbols a file mentions, a word at a time, and prints each once. */
module Fixdep {
  import opened Tristates

  // ----- the path of a symbol -----

  function ToLower(c: char): char {
    if 'A' <= c <= 'Z' then ((c as int - 'A' as int) + 'a' as int) as char else c
  }

  function PathChar(c: char): char {
    if c == '_' then '/' else ToLower(c)
  }

  /** The path under include/config that stands for a symbol, without ".h". */
  function PathOf(name: string): (path: string)
    ensures |path| == |name|
    ensures forall i :: 0 <= i < |name| ==> path[i] == PathChar(name[i])
  {
    seq(|name|, i requires 0 <= i < |name| => PathChar(name[i]))
  }

  /** In a path an underscore is a slash, a capital letter small, and anything else what it
      was. */
  lemma PathMeans(name: string, i: nat)
    requires i < |name|
    ensures var c, d := name[i], PathOf(name)[i];
      && (c == '_' ==> d == '/')
      && ('A' <= c <= 'Z' ==> 'a' <= d <= 'z' && d as int - 'a' as int == c as int - 'A' as int)
      && (c != '_' && !('A' <= c <= 'Z') ==> d == c)
  {
  }

  /** The line print_config prints. */
  function WildcardLine(name: string): string {
    "    $(wildcard include/config/" + PathOf(name) + ".h) \\\n"
  }

  /** print_config. */
  method PrintConfig(m: string) returns (line: string)
    ensures line == WildcardLine(m) == "    $(wildcard include/config/" + PathOf(m) + ".h) \\\n"
  {
    var path := "";
    var i := 0;
    while i < |m|
      invariant i == |path| <= |m|
      invariant forall k :: 0 <= k < i ==> path[k] == PathChar(m[k])
    {
      var c := m[i];
      if c == '_' {
        c := '/';
      } else {
        c := ToLower(c);
      }
      path := path + [c];
      i := i + 1;
    }
    assert path == PathOf(m);
    line := "    $(wildcard include/config/" + path + ".h) \\\n";
  }

  // ----- the names already printed -----

  const HASHSZ: nat := 256

  /** 32-bit FNV. */
  function StrHash(s: string): bv32 {
    if s == [] then 2166136261
    else (StrHash(s[..|s| - 1]) ^ ((s[|s| - 1] as int % 0x1_0000_0000) as bv32)) * 0x01000193
  }

  function Bucket(hash: bv32): (b: nat)
    ensures b < HASHSZ
  {
    hash as int % HASHSZ
  }

  datatype Entry = Entry(name: string, hash: bv32)

  /** `names` followed by those of `more` that are new, in order. */
  function AddNew(names: seq<string>, more: seq<string>): seq<string>
    decreases |more|
  {
    if more == [] then names
    else AddNew(if more[0] in names then names else names + [more[0]], more[1..])
  }

  ghost predicate NoRepeats(s: seq<string>) {
    forall i, j :: 0 <= i < j < |s| ==> s[i] != s[j]
  }

  /** Each name is printed once, and all of them are. */
  lemma {:induction false} AddNewMeans(names: seq<string>, more: seq<string>)
    requires NoRepeats(names)
    ensures NoRepeats(AddNew(names, more))
    ensures forall x :: x in AddNew(names, more) <==> x in names || x in more
    ensures names <= AddNew(names, more)
    decreases |more|
  {
    if more != [] {
      var next := if more[0] in names then names else names + [more[0]];
      assert NoRepeats(next);
      AddNewMeans(next, more[1..]);
      assert names <= next;
      assert forall x :: x in more <==> x == more[0] || x in more[1..];
    }
  }

  lemma {:induction false} AddNewAppend(names: seq<string>, a: seq<string>, b: seq<string>)
    ensures AddNew(names, a + b) == AddNew(AddNew(names, a), b)
    decreases |a|
  {
    if a == [] {
      assert a + b == b;
    } else {
      assert (a + b)[0] == a[0] && (a + b)[1..] == a[1..] + b;
      AddNewAppend(if a[0] in names then names else names + [a[0]], a[1..], b);
    }
  }

  // ----- scanning bytes -----

  const WORD: string := "CONFIG_"
  const MODULE: string := "_MODULE"

  predicate IsNameChar(c: char) {
    'a' <= c <= 'z' || 'A' <= c <= 'Z' || '0' <= c <= '9' || c == '_'
  }

  function NameEnd(buf: string, q: nat): (e: nat)
    requires q <= |buf|
    ensures q <= e <= |buf| && (forall k :: q <= k < e ==> IsNameChar(buf[k])) && (e < |buf| ==> !IsNameChar(buf[e]))
    decreases |buf| - q
  {
    if q < |buf| && IsNameChar(buf[q]) then NameEnd(buf, q + 1) else q
  }

  predicate Spells(buf: string, p: nat) {
    p + |WORD| <= |buf| && buf[p..p + |WORD|] == WORD
  }

  /** The name of the symbol mentioned at offset p: the characters after
      "CONFIG_" up to a terminator inside the buffer, without a "_MODULE" at the
      end; nothing for a bare "CONFIG_MODULE". */
  function NameAt(buf: string, p: nat): Option<string> {
    if !Spells(buf, p) then None
    else
      var q := p + |WORD|;
      var e := NameEnd(buf, q);
      if e == |buf| then None
      else
        var e' := if buf[e - |MODULE|..e] == MODULE then e - |MODULE| else e;
        if e' < q then None else Some(buf[q..e'])
  }

  lemma {:induction false} NameEndsAt(buf: string, q: nat, e: nat)
    requires q <= e <= |buf| && (forall k :: q <= k < e ==> IsNameChar(buf[k]))
    requires e < |buf| ==> !IsNameChar(buf[e])
    ensures NameEnd(buf, q) == e
    decreases e - q
  {
    if q < e {
      NameEndsAt(buf, q + 1, e);
    }
  }

  predicate EndsInModule(n: string) {
    |n| >= 7 && n[|n| - 7..] == "_MODULE"
  }

  /** A name n behind "CONFIG_" is read up to the next character that no name has, which must
      be there; "_MODULE" at its end is not part of it, and "CONFIG_MODULE" names nothing. */
  lemma NameRead(before: string, n: string, rest: string)
    requires forall c :: c in n ==> 'a' <= c <= 'z' || 'A' <= c <= 'Z' || '0' <= c <= '9' || c == '_'
    requires rest != "" ==>
      var c := rest[0]; !('a' <= c <= 'z') && !('A' <= c <= 'Z') && !('0' <= c <= '9') && c != '_'
    ensures NameAt(before + "CONFIG_" + n + rest, |before|) ==
      if rest == "" then None
      else if n == "MODULE" then None
      else if EndsInModule(n) then Some(n[..|n| - 7])
      else Some(n)
  {
    hide NameEnd;
    forall k | 0 <= k < |n|
      ensures IsNameChar(n[k])
    {
      assert n[k] in n;
    }
    var buf, q := before + "CONFIG_" + n + rest, |before| + 7;
    var e := q + |n|;
    assert buf[|before|..q] == WORD;
    assert forall k :: q <= k < e ==> buf[k] == n[k - q];
    assert rest != "" ==> buf[e] == rest[0];
    NameEndsAt(buf, q, e);
    assert buf[q..e] == n;
    ModuleEnd(before, n, rest);
    if EndsInModule(n) {
      assert buf[q..e - 7] == n[..|n| - 7];
    }
  }

  /** The seven characters in front of the end of a name. */
  lemma ModuleEnd(before: string, n: string, rest: string)
    ensures var buf, e := before + "CONFIG_" + n + rest, |before| + 7 + |n|;
      buf[e - 7..e] == MODULE <==> EndsInModule(n) || n == "MODULE"
  {
    var buf, e := before + "CONFIG_" + n + rest, |before| + 7 + |n|;
    var whole := "CONFIG_" + n;
    assert buf[|before|..e] == whole;
    var last := buf[e - 7..e];
    assert last == whole[|n|..];
    if |n| >= 7 {
      assert whole[|n|..] == n[|n| - 7..];
    } else {
      ShortName(n);
    }
  }

  lemma ShortName(n: string)
    requires |n| < 7
    ensures ("CONFIG_" + n)[|n|..] == MODULE <==> n == "MODULE"
  {
    var whole := "CONFIG_" + n;
    var last := whole[|n|..];
    assert forall i :: 0 <= i < 7 - |n| ==> last[i] == "CONFIG_"[|n| + i];
    assert forall i :: 0 <= i < |n| ==> last[7 - |n| + i] == n[i];
    if last == MODULE {
      assert last[0] == '_';
      assert |n| == 6;
      assert forall i :: 0 <= i < 6 ==> n[i] == "MODULE"[i];
      assert n == "MODULE";
    }
    if n == "MODULE" {
      assert last == MODULE;
    }
  }

  /** No name is read where "CONFIG_" does not stand. */
  lemma NothingRead(buf: string, p: nat)
    requires NameAt(buf, p).Some?
    ensures p + 7 <= |buf| && buf[p..p + 7] == "CONFIG_"
  {
  }

  /** The names at offsets from p up to (not including) `to`, by looking at every byte. */
  function NamesFrom(buf: string, p: nat, to: nat): seq<string>
    decreases if p < to then to - p else 0
  {
    if p >= to then []
    else (if NameAt(buf, p).Some? then [NameAt(buf, p).value] else []) + NamesFrom(buf, p + 1, to)
  }

  /** All names a file mentions from offset 1 on. */
  function Names(buf: string): seq<string> {
    NamesFrom(buf, 1, |buf|)
  }

  lemma {:induction false} NamesSplit(buf: string, p: nat, mid: nat, to: nat)
    requires p <= mid <= to
    ensures NamesFrom(buf, p, to) == NamesFrom(buf, p, mid) + NamesFrom(buf, mid, to)
    decreases mid - p
  {
    hide NameAt;
    if p < mid {
      NamesSplit(buf, p + 1, mid, to);
      var one := if NameAt(buf, p).Some? then [NameAt(buf, p).value] else [];
      assert one + (NamesFrom(buf, p + 1, mid) + NamesFrom(buf, mid, to)) ==
             one + NamesFrom(buf, p + 1, mid) + NamesFrom(buf, mid, to);
    } else {
      assert [] + NamesFrom(buf, mid, to) == NamesFrom(buf, mid, to);
    }
  }

  /** The name x stands at some offset from p up to `to`. */
  ghost predicate Mentioned(buf: string, p: nat, to: nat, x: string) {
    exists k: nat :: p <= k < to && NameAt(buf, k) == Some(x)
  }

  /** A name is found if and only if it stands at some offset. */
  lemma {:induction false} NamesAt(buf: string, p: nat, to: nat, x: string)
    requires p <= to
    ensures x in NamesFrom(buf, p, to) <==> Mentioned(buf, p, to, x)
    decreases if p < to then to - p else 0
  {
    if p < to {
      NamesAt(buf, p + 1, to, x);
      if Mentioned(buf, p, to, x) {
        var k: nat :| p <= k < to && NameAt(buf, k) == Some(x);
        if k > p {
          assert Mentioned(buf, p + 1, to, x);
        }
      }
    }
  }

  /** A file loses a name if and only if the name stands at its very beginning and
      nowhere else. */
  lemma StartMissed(buf: string)
    ensures (forall x :: Mentioned(buf, 0, |buf|, x) ==> x in Names(buf)) <==>
            (NameAt(buf, 0).Some? ==> NameAt(buf, 0).value in Names(buf))
  {
    hide NameAt;
    forall x
      ensures x in NamesFrom(buf, 0, |buf|) <==> Mentioned(buf, 0, |buf|, x)
    {
      NamesAt(buf, 0, |buf|, x);
    }
    if buf == [] {
      NothingNamed();
    }
  }

  lemma NothingNamed()
    ensures NameAt("", 0).None?
  {
  }

  const LONE_SYMBOL: string := "CONFIG_A "

  lemma LoneSymbolMissed()
    ensures Mentioned(LONE_SYMBOL, 0, |LONE_SYMBOL|, "A") && Names(LONE_SYMBOL) == []
  {
    assert LONE_SYMBOL[7] == 'A' && LONE_SYMBOL[8] == ' ';
    assert NameEnd(LONE_SYMBOL, 8) == 8 && NameEnd(LONE_SYMBOL, 7) == 8;
    assert LONE_SYMBOL[0..7] == WORD;
    assert LONE_SYMBOL[1..8][0] == 'O' != MODULE[0];
    assert LONE_SYMBOL[7..8] == "A";
    assert NameAt(LONE_SYMBOL, 0) == Some("A");
    NoneSpelled(1);
  }

  lemma {:induction false} NoneSpelled(p: nat)
    requires p >= 1
    ensures NamesFrom(LONE_SYMBOL, p, 9) == []
    decreases if p < 9 then 9 - p else 0
  {
    if p < 9 {
      NoneSpelled(p + 1);
      if p + 7 <= 9 {
        assert LONE_SYMBOL[p..p + 7][0] == LONE_SYMBOL[p] != 'C';
      }
    }
  }

  // ----- scanning words -----

  /** The bytes of the buffer, followed by zeros. */
  function ByteAt(buf: string, i: nat): nat {
    if i < |buf| then buf[i] as int else 0
  }

  /** The 32-bit word at offset m, as a little-endian machine reads it. */
  function WordAt(buf: string, m: nat): nat {
    ByteAt(buf, m) + 0x100 * ByteAt(buf, m + 1) + 0x1_0000 * ByteAt(buf, m + 2) + 0x100_0000 * ByteAt(buf, m + 3)
  }

  function WordOf(s: string): nat
    requires |s| == 4
  {
    s[0] as int + 0x100 * (s[1] as int) + 0x1_0000 * (s[2] as int) + 0x100_0000 * (s[3] as int)
  }

  /** The file is made of bytes. */
  predicate IsBytes(buf: string) {
    forall i :: 0 <= i < |buf| ==> buf[i] as int < 256
  }

  predicate FourAt(buf: string, m: nat, s: string)
    requires |s| == 4
  {
    m + 4 <= |buf| && buf[m..m + 4] == s
  }

  predicate BytesAre(buf: string, m: nat, s: string)
    requires |s| == 4
  {
    && ByteAt(buf, m) == s[0] as int && ByteAt(buf, m + 1) == s[1] as int
    && ByteAt(buf, m + 2) == s[2] as int && ByteAt(buf, m + 3) == s[3] as int
  }

  lemma FourMeans(buf: string, m: nat, s: string)
    requires |s| == 4 && s[3] as int > 0
    ensures FourAt(buf, m, s) <==> BytesAre(buf, m, s)
  {
    if m + 4 <= |buf| {
      var four := buf[m..m + 4];
      assert four[0] == buf[m] && four[1] == buf[m + 1] && four[2] == buf[m + 2] && four[3] == buf[m + 3];
      if BytesAre(buf, m, s) {
        assert four == s;
      }
    }
  }

  predicate IsFour(s: string) {
    |s| == 4 && 0 < s[0] as int < 256 && 0 < s[1] as int < 256 && 0 < s[2] as int < 256 && 0 < s[3] as int < 256
  }

  /** Words are equal when their bytes are; padding equals no letter. */
  lemma WordMeans(buf: string, m: nat, s: string)
    requires IsBytes(buf) && IsFour(s)
    ensures WordAt(buf, m) == WordOf(s) <==> FourAt(buf, m, s)
  {
    FourMeans(buf, m, s);
    BytesFit(buf, m);
    hide FourAt, ByteAt, IsBytes;
    var a, b, c, d := ByteAt(buf, m), ByteAt(buf, m + 1), ByteAt(buf, m + 2), ByteAt(buf, m + 3);
    if WordAt(buf, m) == WordOf(s) {
      var c', d' := s[2] as int, s[3] as int;
      LowByte(a, b + 0x100 * (c + 0x100 * d), s[0] as int, s[1] as int + 0x100 * (c' + 0x100 * d'));
      LowByte(b, c + 0x100 * d, s[1] as int, c' + 0x100 * d');
      LowByte(c, d, c', d');
    }
  }

  lemma BytesFit(buf: string, m: nat)
    requires IsBytes(buf)
    ensures ByteAt(buf, m) < 256 && ByteAt(buf, m + 1) < 256 && ByteAt(buf, m + 2) < 256 && ByteAt(buf, m + 3) < 256
  {
  }

  lemma LowByte(x: nat, y: nat, x': nat, y': nat)
    requires x < 256 && x' < 256 && x + 0x100 * y == x' + 0x100 * y'
    ensures x == x' && y == y'
  {
  }

  /** Where the word at offset m says "CONFIG_" may begin. */
  function Candidate(buf: string, m: nat): (p: Option<nat>)
    requires m >= 4
    ensures p.Some? ==> m - 3 <= p.value <= m
  {
    if WordAt(buf, m) == WordOf("CONF") then Some(m)
    else if WordAt(buf, m) == WordOf("ONFI") then Some(m - 1)
    else if WordAt(buf, m) == WordOf("NFIG") then Some(m - 2)
    else if WordAt(buf, m) == WordOf("FIG_") then Some(m - 3)
    else None
  }

  lemma SpellsFour(buf: string, p: nat, k: nat)
    requires Spells(buf, p) && k <= 3
    ensures FourAt(buf, p + k, WORD[k..k + 4])
  {
    var whole, four := buf[p..p + |WORD|], buf[p + k..p + k + 4];
    assert whole == WORD;
    forall j | 0 <= j < 4
      ensures four[j] == whole[k..k + 4][j]
    {
    }
  }

  /** The offsets whose "CONFIG_" would cover the word at m: at most one of them
      spells it, and the word tells which. */
  lemma CandidateMeans(buf: string, m: nat, p: nat)
    requires IsBytes(buf) && m >= 4 && m - 3 <= p <= m
    ensures Spells(buf, p) ==> Candidate(buf, m) == Some(p)
  {
    hide WordAt, WordOf, FourAt, IsBytes;
    assert WORD[0..4] == "CONF" && WORD[1..5] == "ONFI" && WORD[2..6] == "NFIG" && WORD[3..7] == "FIG_";
    WordMeans(buf, m, "CONF");
    WordMeans(buf, m, "ONFI");
    WordMeans(buf, m, "NFIG");
    WordMeans(buf, m, "FIG_");
    if Spells(buf, p) {
      SpellsFour(buf, p, m - p);
      OneWord(buf, m, "CONF", "ONFI");
      OneWord(buf, m, "CONF", "NFIG");
      OneWord(buf, m, "CONF", "FIG_");
      OneWord(buf, m, "ONFI", "NFIG");
      OneWord(buf, m, "ONFI", "FIG_");
      OneWord(buf, m, "NFIG", "FIG_");
    }
  }

  lemma OneWord(buf: string, m: nat, s: string, s': string)
    requires |s| == |s'| == 4 && s[0] != s'[0]
    ensures FourAt(buf, m, s) ==> !FourAt(buf, m, s')
  {
  }

  function NameList(buf: string, p: Option<nat>): seq<string> {
    if p.Some? && NameAt(buf, p.value).Some? then [NameAt(buf, p.value).value] else []
  }

  lemma OtherOffset(buf: string, m: nat, p: nat)
    requires IsBytes(buf) && m >= 4 && m - 3 <= p <= m && Candidate(buf, m) != Some(p)
    ensures NameList(buf, Some(p)) == []
  {
    hide Candidate, IsBytes;
    CandidateMeans(buf, m, p);
  }

  lemma FourOffsets(buf: string, p: nat)
    ensures NamesFrom(buf, p, p + 4) ==
      NameList(buf, Some(p)) + (NameList(buf, Some(p + 1)) + (NameList(buf, Some(p + 2)) + NameList(buf, Some(p + 3))))
  {
    hide NameAt, NameList, NamesFrom;
    Unfold(buf, p, p + 4);
    Unfold(buf, p + 1, p + 4);
    Unfold(buf, p + 2, p + 4);
    Unfold(buf, p + 3, p + 4);
    UnfoldEnd(buf, p + 4);
    assert NameList(buf, Some(p + 3)) + [] == NameList(buf, Some(p + 3));
  }

  lemma Unfold(buf: string, p: nat, to: nat)
    requires p < to
    ensures NamesFrom(buf, p, to) == NameList(buf, Some(p)) + NamesFrom(buf, p + 1, to)
  {
    hide NameAt;
  }

  lemma UnfoldEnd(buf: string, p: nat)
    ensures NamesFrom(buf, p, p) == []
  {
  }

  /** Looking at one word finds what looking at four offsets finds. */
  lemma WindowNames(buf: string, m: nat)
    requires IsBytes(buf) && m >= 4
    ensures NamesFrom(buf, m - 3, m + 1) == NameList(buf, Candidate(buf, m))
  {
    FourOffsets(buf, m - 3);
    var c := Candidate(buf, m);
    hide Candidate, IsBytes, NamesFrom, NameAt;
    if c != Some(m - 3) { OtherOffset(buf, m, m - 3); }
    if c != Some(m - 2) { OtherOffset(buf, m, m - 2); }
    if c != Some(m - 1) { OtherOffset(buf, m, m - 1); }
    if c != Some(m) { OtherOffset(buf, m, m); }
    OneOfFour(NameList(buf, Some(m - 3)), NameList(buf, Some(m - 2)),
              NameList(buf, Some(m - 1)), NameList(buf, Some(m)));
  }

  lemma OneOfFour(a: seq<string>, b: seq<string>, c: seq<string>, d: seq<string>)
    ensures b == [] && c == [] && d == [] ==> a + (b + (c + d)) == a
    ensures a == [] && c == [] && d == [] ==> a + (b + (c + d)) == b
    ensures a == [] && b == [] && d == [] ==> a + (b + (c + d)) == c
    ensures a == [] && b == [] && c == [] ==> a + (b + (c + d)) == d
  {
  }

  /** Near the end there is no room for another. */
  lemma {:induction false} NoRoom(buf: string, p: nat, to: nat)
    requires p + |WORD| > |buf|
    ensures NamesFrom(buf, p, to) == []
    decreases if p < to then to - p else 0
  {
    if p < to {
      NoRoom(buf, p + 1, to);
    }
  }

  /** The part of the scan that looks at one offset. */
  method Examine(buf: string, p: nat) returns (r: Option<string>)
    ensures r == NameAt(buf, p)
  {
    if p + |WORD| > |buf| {
      return None;
    }
    if buf[p..p + |WORD|] != WORD {
      return None;
    }
    var start := p + |WORD|;
    var q := start;
    while q < |buf| && IsNameChar(buf[q])
      invariant start <= q <= |buf| && NameEnd(buf, q) == NameEnd(buf, start)
    {
      q := q + 1;
    }
    if q == |buf| {
      return None;
    }
    if buf[q - |MODULE|..q] == MODULE {
      q := q - |MODULE|;
    }
    if q < start {
      return None;
    }
    return Some(buf[start..q]);
  }

  function Lines(names: seq<string>): string {
    if names == [] then "" else Lines(names[..|names| - 1]) + WildcardLine(names[|names| - 1])
  }

  /** Entries are in the bucket of their hash, and the table holds `names`. */
  ghost predicate Holds(tab: seq<seq<Entry>>, names: seq<string>)
    requires |tab| == HASHSZ
  {
    && (forall b, e :: 0 <= b < HASHSZ && e in tab[b] ==>
         e.hash == StrHash(e.name) && Bucket(e.hash) == b && e.name in names)
    && (forall x :: x in names ==> Entry(x, StrHash(x)) in tab[Bucket(StrHash(x))])
  }

  lemma HoldsMore(tab: seq<seq<Entry>>, names: seq<string>, name: string)
    requires |tab| == HASHSZ && Holds(tab, names)
    ensures var b := Bucket(StrHash(name));
      Holds(tab[b := [Entry(name, StrHash(name))] + tab[b]], names + [name])
  {
    hide StrHash, Bucket;
  }

  lemma LinesMore(names: seq<string>, name: string)
    ensures Lines(names + [name]) == Lines(names) + WildcardLine(name)
  {
    hide WildcardLine;
    assert (names + [name])[..|names|] == names;
  }

  /** The hash table of printed names and the output. */
  class Scanner {
    const hashtab: array<seq<Entry>>
    var out: string
    ghost var names: seq<string>

    ghost predicate Valid()
      reads this, hashtab
    {
      hashtab.Length == HASHSZ && Holds(hashtab[..], names) && NoRepeats(names) && out == Lines(names)
    }

    constructor ()
      ensures Valid() && fresh(hashtab) && names == []
    {
      hashtab := new seq<Entry>[HASHSZ](_ => []);
      out := "";
      names := [];
    }

    /** is_defined_config. */
    method IsDefinedConfig(name: string, hash: bv32) returns (found: bool)
      requires Valid() && hash == StrHash(name)
      ensures found <==> name in names
    {
      hide StrHash, Bucket, Lines;
      var aux := hashtab[Bucket(hash)];
      assert aux == hashtab[..][Bucket(hash)];
      var i := 0;
      while i < |aux|
        invariant 0 <= i <= |aux|
        invariant Entry(name, hash) !in aux[..i]
      {
        if aux[i].hash == hash && aux[i].name == name {
          assert aux[i] in hashtab[..][Bucket(hash)];
          return true;
        }
        assert aux[..i + 1] == aux[..i] + [aux[i]];
        i := i + 1;
      }
      assert aux[..i] == aux;
      return false;
    }

    /** define_config. */
    method DefineConfig(name: string, hash: bv32)
      requires Valid() && hash == StrHash(name) && name !in names
      modifies this, hashtab
      ensures Valid() && names == old(names) + [name]
    {
      hide StrHash, WildcardLine, Bucket, Holds, Lines;
      HoldsMore(hashtab[..], names, name);
      LinesMore(names, name);
      var b := Bucket(hash);
      ghost var tab := hashtab[..];
      hashtab[b] := [Entry(name, hash)] + hashtab[b];
      assert hashtab[..] == tab[b := [Entry(name, hash)] + tab[b]];
      names := names + [name];
      var line := PrintConfig(name);
      out := out + line;
    }

    /** use_config. */
    method UseConfig(m: string)
      requires Valid()
      modifies this, hashtab
      ensures Valid() && names == AddNew(old(names), [m])
    {
      hide StrHash, Valid;
      var hash := StrHash(m);
      var known := IsDefinedConfig(m, hash);
      AddOne(names, m);
      if known {
        return;
      }
      DefineConfig(m, hash);
    }

    lemma AddOne(s: seq<string>, m: string)
      ensures AddNew(s, [m]) == if m in s then s else s + [m]
    {
      assert [m][1..] == [];
    }

    /** parse_config_file: a word at a time from the second word on. */
    method ParseConfigFile(buf: string)
      requires Valid() && IsBytes(buf)
      modifies this, hashtab
      ensures Valid() && names == AddNew(old(names), Names(buf))
    {
      hide Valid, NameAt, IsBytes, Candidate;
      var m := 4;
      NamesSplit(buf, 1, 1, 1);
      while m < |buf|
        invariant m >= 4 && m <= |buf| + 4
        invariant m > 4 ==> m < |buf| + 4
        invariant Valid() && names == AddNew(old(names), NamesFrom(buf, 1, m - 3))
      {
        ghost var before := names;
        var p := Candidate(buf, m);
        if p.Some? {
          var name := Examine(buf, p.value);
          if name.Some? {
            UseConfig(name.value);
          }
        }
        WindowNames(buf, m);
        NamesSplit(buf, 1, m - 3, m + 1);
        AddNewAppend(old(names), NamesFrom(buf, 1, m - 3), NamesFrom(buf, m - 3, m + 1));
        m := m + 4;
      }
      Finish(buf, m);
    }

    lemma Finish(buf: string, m: nat)
      requires m >= |buf| && m >= 4 && (m > 4 ==> m < |buf| + 4)
      ensures NamesFrom(buf, 1, m - 3) == Names(buf)
    {
      if m - 3 <= |buf| {
        if 1 <= m - 3 {
          NamesSplit(buf, 1, m - 3, |buf|);
        }
        NoRoom(buf, m - 3, |buf|);
        assert Names(buf) == NamesFrom(buf, 1, m - 3) + [];
      } else {
        NoRoom(buf, 1, |buf|);
        NoRoom(buf, 1, m - 3);
      }
    }

    /** A run over several files prints every name they mention once. */
    method ParseAll(files: seq<string>)
      requires Valid() && names == [] && forall i :: 0 <= i < |files| ==> IsBytes(files[i])
      modifies this, hashtab
      ensures Valid() && out == Lines(names) && NoRepeats(names)
      ensures forall x :: x in names <==> MentionedIn(files, x)
    {
      hide NameAt, Bucket, StrHash;
      var i := 0;
      while i < |files|
        invariant 0 <= i <= |files|
        invariant Valid() && forall x :: x in names <==> MentionedIn(files[..i], x)
      {
        ghost var before := names;
        ParseConfigFile(files[i]);
        AddNewMeans(before, Names(files[i]));
        forall x
          ensures x in names <==> MentionedIn(files[..i + 1], x)
        {
          MentionedOneMore(files, i, x);
        }
        i := i + 1;
      }
      assert files[..i] == files;
    }
  }

  /** Some file mentions x at an offset from 1 on. */
  ghost predicate MentionedIn(files: seq<string>, x: string) {
    exists i :: 0 <= i < |files| && Mentioned(files[i], 1, |files[i]|, x)
  }

  lemma MentionedOneMore(files: seq<string>, i: nat, x: string)
    requires i < |files|
    ensures MentionedIn(files[..i + 1], x) <==> MentionedIn(files[..i], x) || x in Names(files[i])
  {
    hide NameAt;
    var a, b := files[..i], files[..i + 1];
    if |files[i]| >= 1 {
      NamesAt(files[i], 1, |files[i]|, x);
    }
    if MentionedIn(a, x) {
      var k :| 0 <= k < |a| && Mentioned(a[k], 1, |a[k]|, x);
      assert b[k] == a[k];
    }
    if x in Names(files[i]) {
      assert b[i] == files[i];
    }
    if MentionedIn(b, x) {
      var k :| 0 <= k < |b| && Mentioned(b[k], 1, |b[k]|, x);
      if k < i {
        assert a[k] == b[k];
      }
    }
  }
}
