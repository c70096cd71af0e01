/** Quoted strings in configuration files: sym_escape_string_value
    (symbol.c:928-969) and its undoing, in place, by conf_set_sym_val
    (confdata.c:161-191). */
module Quoting {
  import opened Tristates

  predicate NeedsEscape(c: char) {
    c == '"' || c == '\\'
  }

  function EscapeBody(s: string): string {
    if s == [] then []
    else (if NeedsEscape(s[0]) then ['\\', s[0]] else [s[0]]) + EscapeBody(s[1..])
  }

  /** sym_escape_string_value. */
  function Escape(s: string): string {
    ['"'] + EscapeBody(s) + ['"']
  }

  /** The text up to the closing quote with its escapes undone; nothing if the
      quote is missing. */
  function Unescape(s: string): Option<string> {
    if s == [] then None
    else if s[0] == '"' then Some([])
    else if s[0] == '\\' then
      if |s| == 1 then None else Prepend(s[1], Unescape(s[2..]))
    else Prepend(s[0], Unescape(s[1..]))
  }

  function Prepend(c: char, s: Option<string>): Option<string> {
    if s.None? then None else Some([c] + s.value)
  }

  function Prefixed(p: string, s: Option<string>): Option<string> {
    if s.None? then None else Some(p + s.value)
  }

  lemma PrefixedEmpty(s: Option<string>)
    ensures Prefixed([], s) == s
  {
    if s.Some? {
      assert [] + s.value == s.value;
    }
  }

  lemma PrefixedTwice(p: string, q: string, s: Option<string>)
    ensures Prefixed(p, Prefixed(q, s)) == Prefixed(p + q, s)
  {
    if s.Some? {
      assert p + (q + s.value) == p + q + s.value;
    }
  }

  /** Unescaping inverts escaping, for every string and whatever follows the quote. */
  lemma {:induction false} UnescapeEscape(s: string, rest: string)
    ensures Unescape(EscapeBody(s) + ['"'] + rest) == Some(s)
  {
    var t := EscapeBody(s) + ['"'] + rest;
    if s != [] {
      UnescapeEscape(s[1..], rest);
      var tail := EscapeBody(s[1..]) + ['"'] + rest;
      if NeedsEscape(s[0]) {
        assert t == ['\\', s[0]] + tail;
        assert t[2..] == tail;
      } else {
        assert t == [s[0]] + tail;
        assert t[1..] == tail;
      }
      assert s == [s[0]] + s[1..];
    }
  }

  /** Escaped forms differ when the strings do. */
  lemma EscapeInjective(a: string, b: string)
    requires Escape(a) == Escape(b)
    ensures a == b
  {
    UnescapeEscape(a, []);
    UnescapeEscape(b, []);
    assert Escape(a)[1..] == EscapeBody(a) + ['"'] + [];
    assert Escape(b)[1..] == EscapeBody(b) + ['"'] + [];
  }

  /** Escaping adds no line breaks. */
  lemma {:induction false} EscapeBodyKeeps(s: string, c: char)
    requires c !in s && !NeedsEscape(c)
    ensures c !in EscapeBody(s)
  {
    if s != [] {
      EscapeBodyKeeps(s[1..], c);
    }
  }

  /** A text of plain characters is passed over unchanged. */
  lemma {:induction false} UnescapePlain(p: string, rest: string)
    requires forall i :: 0 <= i < |p| ==> !NeedsEscape(p[i])
    ensures Unescape(p + rest) == Prefixed(p, Unescape(rest))
  {
    if p == [] {
      assert p + rest == rest;
      PrefixedEmpty(Unescape(rest));
    } else {
      UnescapePlain(p[1..], rest);
      assert (p + rest)[1..] == p[1..] + rest;
      if Unescape(rest).Some? {
        assert [p[0]] + (p[1..] + Unescape(rest).value) == p + Unescape(rest).value;
      }
    }
  }

  /** strpbrk(p, "\"\\"): the next quote or backslash of the n characters. */
  method FindSpecial(buf: array<char>, from: nat, n: nat) returns (i: nat)
    requires from <= n <= buf.Length
    ensures from <= i <= n
    ensures forall k :: from <= k < i ==> !NeedsEscape(buf[k])
    ensures i < n ==> NeedsEscape(buf[i])
  {
    i := from;
    while i < n
      invariant from <= i <= n
      invariant forall k :: from <= k < i ==> !NeedsEscape(buf[k])
    {
      if NeedsEscape(buf[i]) {
        return;
      }
      i := i + 1;
    }
  }

  /** memmove(p2, p2 + 1, strlen(p2)): drop character i of the first n. */
  method DropAt(buf: array<char>, i: nat, n: nat)
    requires i < n <= buf.Length
    modifies buf
    ensures buf[..n - 1] == old(buf[..n])[..i] + old(buf[..n])[i + 1..]
  {
    forall k | i <= k < n - 1 {
      buf[k] := buf[k + 1];
    }
  }

  /** One round of the loop: i plain characters and then a special one. */
  lemma UnescapeStep(done: string, rest: string, i: nat)
    requires i < |rest|
    requires forall k :: 0 <= k < i ==> !NeedsEscape(rest[k])
    ensures rest[i] == '"' ==> Prefixed(done, Unescape(rest)) == Some(done + rest[..i])
    ensures rest[i] == '\\' && i + 1 == |rest| ==> Unescape(rest) == None
    ensures rest[i] == '\\' && i + 1 < |rest| ==>
      Prefixed(done, Unescape(rest)) == Prefixed(done + rest[..i] + [rest[i + 1]], Unescape(rest[i + 2..]))
  {
    UnescapePlain(rest[..i], rest[i..]);
    assert rest == rest[..i] + rest[i..];
    var tail := Unescape(rest[i..]);
    assert Unescape(rest) == Prefixed(rest[..i], tail);
    PrefixedTwice(done, rest[..i], tail);
    if rest[i] == '"' {
      assert tail == Some([]);
      assert done + rest[..i] + [] == done + rest[..i];
    } else if rest[i] == '\\' && i + 1 < |rest| {
      assert rest[i..][2..] == rest[i + 2..];
      assert tail == Prepend(rest[i + 1], Unescape(rest[i + 2..])) == Prefixed([rest[i + 1]], Unescape(rest[i + 2..]));
      PrefixedTwice(done + rest[..i], [rest[i + 1]], Unescape(rest[i + 2..]));
    }
  }

  /** The string case of conf_set_sym_val: buf holds a text of n characters, and
      afterwards the unescaped string in its first m. */
  method UnescapeInPlace(buf: array<char>, n: nat) returns (ok: bool, m: nat)
    requires n <= buf.Length
    modifies buf
    ensures m <= buf.Length
    ensures Unescape(old(buf[..n])) == if ok then Some(buf[..m]) else None
  {
    hide Unescape, Prefixed;
    ghost var all := Unescape(buf[..n]);
    var p, len := 0, n;
    assert buf[..0] == [] && buf[0..n] == buf[..n];
    PrefixedEmpty(all);
    while true
      invariant 0 <= p <= len <= buf.Length
      invariant Prefixed(buf[..p], Unescape(buf[p..len])) == all
      decreases len - p
    {
      var q := FindSpecial(buf, p, len);
      if q == len {
        NoQuote(buf[..p], buf[p..len]);
        return false, 0;
      }
      UnescapeStep(buf[..p], buf[p..len], q - p);
      assert buf[..p] + buf[p..len][..q - p] == buf[..q];
      if buf[q] == '"' {
        return true, q;
      }
      if q + 1 == len {
        // the backslash ends the text: what is left has no quote
        NoText(buf[..p]);
        return false, 0;
      }
      assert buf[p..len][q - p + 2..] == buf[q + 2..len];
      label before:
      DropAt(buf, q, len);
      DroppedParts(buf[..len - 1], old@before(buf[..len]), q);
      assert buf[..q + 1] == buf[..len - 1][..q + 1] && buf[q + 1..len - 1] == buf[..len - 1][q + 1..];
      assert old@before(buf[..len])[..q] == old@before(buf[..q]);
      assert old@before(buf[..len])[q + 2..] == old@before(buf[q + 2..len]);
      p, len := q + 1, len - 1;
    }
  }

  lemma DroppedParts(now: string, was: string, q: nat)
    requires q + 1 < |was| && now == was[..q] + was[q + 1..]
    ensures now[..q + 1] == was[..q] + [was[q + 1]] && now[q + 1..] == was[q + 2..]
  {
  }

  lemma NoQuote(done: string, rest: string)
    requires forall k :: 0 <= k < |rest| ==> !NeedsEscape(rest[k])
    ensures Prefixed(done, Unescape(rest)) == None
  {
    UnescapePlain(rest, []);
    assert rest + [] == rest;
  }

  lemma NoText(done: string)
    ensures Prefixed(done, None) == None
  {
  }
}
