/** Numbers in configuration text: the C library's strtoll and strtoull as the
    engine calls them, and the printf formats "%lld" and "0x%llx". */
module NumText {
  const LLONG_MIN: int := -0x8000_0000_0000_0000
  const LLONG_MAX: int := 0x7fff_ffff_ffff_ffff
  const ULLONG_MOD: int := 0x1_0000_0000_0000_0000

  predicate IsSpace(c: char) {
    c == ' ' || ('\t' <= c <= '\r')
  }

  predicate IsDigit(c: char) {
    '0' <= c <= '9'
  }

  /** The value of a digit or letter in any base up to 36; 36 for other characters. */
  function DigitValue(c: char): nat {
    if '0' <= c <= '9' then c as int - '0' as int
    else if 'a' <= c <= 'z' then c as int - 'a' as int + 10
    else if 'A' <= c <= 'Z' then c as int - 'A' as int + 10
    else 36
  }

  predicate IsXDigit(c: char) {
    DigitValue(c) < 16
  }

  function SkipSpaces(s: string, i: nat): (j: nat)
    requires i <= |s|
    ensures i <= j <= |s|
    decreases |s| - i
  {
    if i < |s| && IsSpace(s[i]) then SkipSpaces(s, i + 1) else i
  }

  /** The end of the longest run of digits of `base` starting at `i`. */
  function DigitsEnd(s: string, i: nat, base: nat): (j: nat)
    requires i <= |s|
    ensures i <= j <= |s|
    ensures forall k :: i <= k < j ==> DigitValue(s[k]) < base
    ensures j < |s| ==> DigitValue(s[j]) >= base
    decreases |s| - i
  {
    if i < |s| && DigitValue(s[i]) < base then DigitsEnd(s, i + 1, base) else i
  }

  function Magnitude(s: string, base: nat): nat {
    if s == [] then 0
    else Magnitude(s[..|s| - 1], base) * base + DigitValue(s[|s| - 1])
  }

  /** What a strto* call finds: sign, magnitude, and the offset of `*tail`. */
  datatype Scan = Scan(negative: bool, magnitude: nat, tail: nat) {
    function Num(): int {
      if negative then 0 - magnitude else magnitude
    }
  }

  predicate HasHexPrefix(s: string, i: nat) {
    i + 2 < |s| && s[i] == '0' && (s[i + 1] == 'x' || s[i + 1] == 'X') && IsXDigit(s[i + 2])
  }

  function ScanNumber(s: string, base: nat): (r: Scan)
    ensures r.tail <= |s|
  {
    var i := SkipSpaces(s, 0);
    var negative := i < |s| && s[i] == '-';
    var j := if i < |s| && (s[i] == '-' || s[i] == '+') then i + 1 else i;
    var prefixed := (base == 16 || base == 0) && HasHexPrefix(s, j);
    var b := if base != 0 then base
             else if prefixed then 16
             else if j < |s| && s[j] == '0' then 8
             else 10;
    var k := if prefixed then j + 2 else j;
    var e := DigitsEnd(s, k, b);
    if e == k then Scan(false, 0, 0) else Scan(negative, Magnitude(s[k..e], b), e)
  }

  /** strtoll, which saturates. */
  function Strtoll(s: string, base: nat): int {
    var r := ScanNumber(s, base);
    var n := r.Num();
    if n < LLONG_MIN then LLONG_MIN else if n > LLONG_MAX then LLONG_MAX else n
  }

  function DigitChar(d: nat): char
    requires d < 16
  {
    "0123456789abcdef"[d]
  }

  function Digits(n: nat, base: nat): (s: string)
    requires 2 <= base <= 16
    ensures |s| >= 1
    decreases n
  {
    if n < base then [DigitChar(n)] else Digits(n / base, base) + [DigitChar(n % base)]
  }

  /** printf("%lld"). */
  function FormatDec(n: int): string {
    if n < 0 then ['-'] + Digits(-n, 10) else Digits(n, 10)
  }

  /** printf("0x%llx"): a negative number prints as its two's complement. */
  function FormatHex(n: int): string {
    "0x" + Digits(n % ULLONG_MOD, 16)
  }
}
