/** Byte memory and the little-endian numbers in it. */
module Memory {
  type Byte = x: int | 0 <= x < 256

  const WORD64: int := 0x1_0000_0000_0000_0000

  function Power256(n: nat): (p: nat)
    ensures p >= 1
  {
    if n == 0 then 1 else 256 * Power256(n - 1)
  }

  function FromLE(s: seq<Byte>): (v: nat)
    ensures v < Power256(|s|)
  {
    if s == [] then 0 else s[0] + 256 * FromLE(s[1..])
  }

  function ToLE(v: nat, n: nat): (s: seq<Byte>)
    ensures |s| == n
  {
    if n == 0 then [] else [v % 256] + ToLE(v / 256, n - 1)
  }

  lemma Power8()
    ensures Power256(8) == WORD64 && Power256(4) == 0x1_0000_0000 && Power256(2) == 0x1_0000
  {
    assert Power256(2) == 256 * Power256(1);
    assert Power256(4) == 256 * (256 * Power256(2));
    assert Power256(8) == 256 * (256 * (256 * (256 * Power256(4))));
  }

  lemma {:induction false} FromTo(v: nat, n: nat)
    requires v < Power256(n)
    ensures FromLE(ToLE(v, n)) == v
  {
    if n > 0 {
      FromTo(v / 256, n - 1);
      assert ToLE(v, n)[1..] == ToLE(v / 256, n - 1);
    }
  }

  lemma {:induction false} FromInjective(s: seq<Byte>, s': seq<Byte>)
    requires |s| == |s'| && FromLE(s) == FromLE(s')
    ensures s == s'
  {
    if s != [] {
      FromInjective(s[1..], s'[1..]);
      assert s == [s[0]] + s[1..] && s' == [s'[0]] + s'[1..];
    }
  }

  /** The n-byte number at address a. */
  function Load(m: seq<Byte>, a: nat, n: nat): (v: nat)
    requires a + n <= |m|
    ensures v < Power256(n)
  {
    FromLE(m[a..a + n])
  }

  /** Numbers of two, four and eight bytes, the first byte worth least. */
  lemma LoadMeans(m: seq<Byte>, a: nat)
    ensures a + 2 <= |m| ==> Load(m, a, 2) == (m[a] as int) + 0x100 * (m[a + 1] as int)
    ensures a + 4 <= |m| ==> Load(m, a, 4) == Load(m, a, 2) + 0x1_0000 * Load(m, a + 2, 2)
    ensures a + 8 <= |m| ==> Load(m, a, 8) == Load(m, a, 4) + 0x1_0000_0000 * Load(m, a + 4, 4)
  {
    if a + 2 <= |m| {
      var s := m[a..a + 2];
      assert s[0] == m[a] && s[1..][0] == m[a + 1] && s[1..][1..] == [];
      assert FromLE(s[1..]) == s[1..][0];
    }
    if a + 4 <= |m| {
      FromSplit(m[a..a + 2], m[a + 2..a + 4]);
      assert m[a..a + 4] == m[a..a + 2] + m[a + 2..a + 4];
    }
    if a + 8 <= |m| {
      FromSplit(m[a..a + 4], m[a + 4..a + 8]);
      assert m[a..a + 8] == m[a..a + 4] + m[a + 4..a + 8];
    }
    Power8();
  }

  lemma {:induction false} FromSplit(s: seq<Byte>, s': seq<Byte>)
    ensures FromLE(s + s') == FromLE(s) + Power256(|s|) * FromLE(s')
  {
    if s == [] {
      assert s + s' == s';
    } else {
      FromSplit(s[1..], s');
      assert (s + s')[1..] == s[1..] + s';
      Shifted(FromLE(s[1..]), Power256(|s| - 1), FromLE(s'));
    }
  }

  lemma Shifted(x: nat, p: nat, y: nat)
    ensures 256 * (x + p * y) == 256 * x + 256 * p * y
  {
  }

  lemma LoadSame(m: seq<Byte>, m': seq<Byte>, a: nat, n: nat)
    requires a + n <= |m| == |m'| && forall x :: a <= x < a + n ==> m[x] == m'[x]
    ensures Load(m, a, n) == Load(m', a, n)
  {
    assert m[a..a + n] == m'[a..a + n];
  }

  /** Storing a 64-bit word. */
  method Store64(mem: array<Byte>, a: nat, v: nat)
    requires a + 8 <= mem.Length && v < WORD64
    modifies mem
    ensures Load(mem[..], a, 8) == v
    ensures forall x :: 0 <= x < mem.Length && !(a <= x < a + 8) ==> mem[x] == old(mem[x])
  {
    hide FromLE, Power256;
    var s := ToLE(v, 8);
    forall i | 0 <= i < 8 {
      mem[a + i] := s[i];
    }
    Power8();
    FromTo(v, 8);
    assert mem[..][a..a + 8] == s;
  }
}
