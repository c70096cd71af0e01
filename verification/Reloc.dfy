/** The self-relocators of two UEFI run-time images
    (reloc_aarch64.c:42-98, reloc_loongarch64.c:42-106): RELA entries (System V
    gABI, chapter 4 "Relocation") applied to the image's own memory. */
module Relocators {
  import opened Memory

  const DT_NULL: int := 0
  const DT_RELA: int := 7
  const DT_RELASZ: int := 8
  const DT_RELAENT: int := 9

  const R_AARCH64_RELATIVE: int := 1027
  const R_LARCH_RELATIVE: int := 3

  /** An entry of the dynamic section; `val` is the union read as a 64-bit number. */
  datatype Dyn = Dyn(tag: int, val: nat)

  datatype Status = Success | LoadError

  /** The relocation table as the dynamic section describes it. */
  datatype Table = Table(rel: nat, relsz: int, relent: int)

  /** A 64-bit pattern read as a `long`. */
  function Signed(v: nat): int {
    if v < WORD64 / 2 then v else v - WORD64
  }

  function Wrap(x: int): nat {
    x % WORD64
  }

  function Noted(t: Table, d: Dyn, ldbase: int): Table {
    if d.tag == DT_RELA then t.(rel := Wrap(d.val + ldbase))
    else if d.tag == DT_RELASZ then t.(relsz := Signed(Wrap(d.val)))
    else if d.tag == DT_RELAENT then t.(relent := Signed(Wrap(d.val)))
    else t
  }

  /** The first i entries of the dynamic section, later ones overriding earlier. */
  function TableOf(dyn: seq<Dyn>, ldbase: int, i: nat): Table
    requires i <= |dyn|
  {
    if i == 0 then Table(0, 0, 0) else Noted(TableOf(dyn, ldbase, i - 1), dyn[i - 1], ldbase)
  }

  function FirstNull(dyn: seq<Dyn>, i: nat): (k: nat)
    requires i <= |dyn|
    ensures i <= k <= |dyn| && (k < |dyn| ==> dyn[k].tag == DT_NULL) && forall j :: i <= j < k ==> dyn[j].tag != DT_NULL
    decreases |dyn| - i
  {
    if i < |dyn| && dyn[i].tag != DT_NULL then FirstNull(dyn, i + 1) else i
  }

  // ----- the entries -----

  /** How often the loop runs. */
  function Count(relsz: int, relent: int): nat
    requires relent > 0
    decreases if relsz > 0 then relsz else 0
  {
    if relsz <= 0 then 0 else 1 + Count(relsz - relent, relent)
  }

  function EntryAt(t: Table, i: nat): nat
    requires t.relent > 0
  {
    if i == 0 then t.rel else EntryAt(t, i - 1) + t.relent
  }

  /** Entry i stands i entry sizes behind the first one, ... */
  lemma {:induction false} EntryAtMeans(t: Table, i: nat)
    requires t.relent > 0
    ensures EntryAt(t, i) == t.rel + i * t.relent
  {
    if i > 0 {
      EntryAtMeans(t, i - 1);
    }
  }

  /** ... and there are as many as it takes to cover the size of the table. */
  lemma {:induction false} CountMeans(relsz: int, relent: int)
    requires relent > 0
    ensures relsz <= 0 ==> Count(relsz, relent) == 0
    ensures relsz > 0 ==> (Count(relsz, relent) - 1) * relent < relsz <= Count(relsz, relent) * relent
    decreases if relsz > 0 then relsz else 0
  {
    if relsz > 0 {
      CountMeans(relsz - relent, relent);
      var k := Count(relsz - relent, relent);
      assert (k + 1) * relent == k * relent + relent && (k - 1) * relent == k * relent - relent;
    }
  }

  /** Entry j of the dynamic section is the last of its kind among the first i. */
  predicate LastOf(dyn: seq<Dyn>, tag: int, j: nat, i: nat)
    requires i <= |dyn|
  {
    j < i && dyn[j].tag == tag && forall k :: j < k < i ==> dyn[k].tag != tag
  }

  predicate NoneOf(dyn: seq<Dyn>, tag: int, i: nat)
    requires i <= |dyn|
  {
    forall k :: 0 <= k < i ==> dyn[k].tag != tag
  }

  /** A 64-bit number in two's complement. */
  function AsLong(v: nat): int {
    if v < 0x8000_0000_0000_0000 then v else v - 0x1_0000_0000_0000_0000
  }

  /** What an entry of the dynamic section says about the table. */
  function Told(d: Dyn, ldbase: int): int {
    if d.tag == 7 then (d.val + ldbase) % 0x1_0000_0000_0000_0000 else AsLong(d.val)
  }

  function TableField(t: Table, tag: int): int {
    if tag == 7 then t.rel else if tag == 8 then t.relsz else t.relent
  }

  /** The last entry of each kind counts: 7 gives the address of the table, relative to the
      base, 8 its size and 9 the size of an entry, both signed; what has no entry is 0. */
  lemma {:induction false} TableMeans(dyn: seq<Dyn>, ldbase: int, i: nat, tag: int)
    requires i <= |dyn| && tag in {7, 8, 9} && forall k :: 0 <= k < i ==> dyn[k].val < 0x1_0000_0000_0000_0000
    ensures NoneOf(dyn, tag, i) ==> TableField(TableOf(dyn, ldbase, i), tag) == 0
    ensures forall j: nat :: LastOf(dyn, tag, j, i) ==>
      TableField(TableOf(dyn, ldbase, i), tag) == Told(dyn[j], ldbase)
  {
    hide LastOf, NoneOf, Told, TableField, Noted;
    if i == 0 {
      NothingTold(dyn, ldbase, tag);
    } else {
      TableMeans(dyn, ldbase, i - 1, tag);
      OneMoreEntry(dyn, tag, i);
      NotedMeans(TableOf(dyn, ldbase, i - 1), dyn[i - 1], ldbase, tag);
    }
  }

  lemma NothingTold(dyn: seq<Dyn>, ldbase: int, tag: int)
    ensures TableField(TableOf(dyn, ldbase, 0), tag) == 0 && forall j: nat :: !LastOf(dyn, tag, j, 0)
  {
  }

  lemma OneMoreEntry(dyn: seq<Dyn>, tag: int, i: nat)
    requires 0 < i <= |dyn|
    ensures forall j: nat :: LastOf(dyn, tag, j, i) <==>
      if dyn[i - 1].tag == tag then j == i - 1 else LastOf(dyn, tag, j, i - 1)
    ensures NoneOf(dyn, tag, i) <==> NoneOf(dyn, tag, i - 1) && dyn[i - 1].tag != tag
  {
  }

  lemma NotedMeans(t: Table, d: Dyn, ldbase: int, tag: int)
    requires tag in {7, 8, 9} && d.val < 0x1_0000_0000_0000_0000
    ensures TableField(Noted(t, d, ldbase), tag) == if d.tag == tag then Told(d, ldbase) else TableField(t, tag)
  {
  }

  predicate EntryIn(m: seq<Byte>, t: Table, i: nat) {
    t.relent > 0 && EntryAt(t, i) + 24 <= |m|
  }

  /** ELF64_R_TYPE(rel->r_info) is `ty`. */
  predicate IsRelative(m: seq<Byte>, t: Table, ty: int, i: nat)
    requires EntryIn(m, t, i)
  {
    Load(m, EntryAt(t, i) + 8, 8) % 0x1_0000_0000 == ty
  }

  /** ldbase + rel->r_offset. */
  function Target(m: seq<Byte>, t: Table, ldbase: int, i: nat): nat
    requires EntryIn(m, t, i)
  {
    Wrap(ldbase + Load(m, EntryAt(t, i), 8))
  }

  function Addend(m: seq<Byte>, t: Table, i: nat): nat
    requires EntryIn(m, t, i)
  {
    Load(m, EntryAt(t, i) + 16, 8)
  }

  predicate Apart(a: nat, n: nat, b: nat, k: nat) {
    a + n <= b || b + k <= a
  }

  /** The entries lie in memory, and the targets of the relative ones lie in
      memory too, apart from each other and from the entries. */
  ghost predicate Placed(m: seq<Byte>, t: Table, ldbase: int, ty: int) {
    && t.relent > 0
    && var n := Count(t.relsz, t.relent);
    && (forall i: nat :: i < n ==> EntryIn(m, t, i))
    && (forall i: nat :: i < n && IsRelative(m, t, ty, i) ==> Target(m, t, ldbase, i) + 8 <= |m|)
    && (forall i: nat, j: nat :: i < n && j < n && IsRelative(m, t, ty, i) ==>
         Apart(Target(m, t, ldbase, i), 8, EntryAt(t, j), 24))
    && (forall i: nat, j: nat :: i < j < n && IsRelative(m, t, ty, i) && IsRelative(m, t, ty, j) ==>
         Apart(Target(m, t, ldbase, i), 8, Target(m, t, ldbase, j), 8))
  }

  // ----- what relocation does -----

  /** A word to be written. */
  datatype Patch = Patch(at: nat, word: nat)

  /** The two ways to compute it: overwrite with base + addend, or add the base to
      what is there. */
  datatype Style = Overwrite | AddInPlace

  function WordFor(m: seq<Byte>, t: Table, ldbase: int, style: Style, i: nat): nat
    requires EntryIn(m, t, i) && Target(m, t, ldbase, i) + 8 <= |m|
  {
    match style
    case Overwrite => Wrap(ldbase + Addend(m, t, i))
    case AddInPlace => Wrap(Load(m, Target(m, t, ldbase, i), 8) + ldbase)
  }

  /** The words the first k entries ask for, in no order. */
  ghost function Patches(m: seq<Byte>, t: Table, ldbase: int, ty: int, style: Style, k: nat): set<Patch>
    requires Placed(m, t, ldbase, ty) && k <= Count(t.relsz, t.relent)
  {
    if k == 0 then {}
    else
      Patches(m, t, ldbase, ty, style, k - 1) +
      if IsRelative(m, t, ty, k - 1) then {Patch(Target(m, t, ldbase, k - 1), WordFor(m, t, ldbase, style, k - 1))}
      else {}
  }

  /** m' is m with the words of s written and every other byte as it was. */
  ghost predicate Applied(m: seq<Byte>, m': seq<Byte>, s: set<Patch>) {
    && |m'| == |m|
    && (forall p :: p in s ==> p.at + 8 <= |m| && Load(m', p.at, 8) == p.word)
    && (forall x :: 0 <= x < |m| && (forall p :: p in s ==> !(p.at <= x < p.at + 8)) ==> m'[x] == m[x])
  }

  lemma SameByte(r: seq<Byte>, r': seq<Byte>, a: nat, x: nat)
    requires a <= x < a + 8 <= |r| && a + 8 <= |r'| && Load(r, a, 8) == Load(r', a, 8)
    ensures r[x] == r'[x]
  {
    FromInjective(r[a..a + 8], r'[a..a + 8]);
    assert r[a..a + 8][x - a] == r'[a..a + 8][x - a];
  }

  /** The set of words alone decides the resulting memory. */
  lemma AppliedUnique(m: seq<Byte>, m1: seq<Byte>, m2: seq<Byte>, s: set<Patch>)
    requires Applied(m, m1, s) && Applied(m, m2, s)
    ensures m1 == m2
  {
    forall x | 0 <= x < |m|
      ensures m1[x] == m2[x]
    {
      if p :| p in s && p.at <= x < p.at + 8 {
        SameByte(m1, m2, p.at, x);
      }
    }
  }

  lemma {:induction false} PatchesAre(m: seq<Byte>, t: Table, ldbase: int, ty: int, style: Style, k: nat, p: Patch)
    requires Placed(m, t, ldbase, ty) && k <= Count(t.relsz, t.relent)
    ensures p in Patches(m, t, ldbase, ty, style, k) <==>
      exists i: nat ::
        i < k && IsRelative(m, t, ty, i) && p == Patch(Target(m, t, ldbase, i), WordFor(m, t, ldbase, style, i))
  {
    hide Load, EntryAt, Count;
    if k > 0 {
      PatchesAre(m, t, ldbase, ty, style, k - 1, p);
    }
  }

  /** A relative entry of kind ty, read field by field: its offset, its kind in the low half
      of the second word, and its addend. */
  predicate Field(m: seq<Byte>, t: Table, ty: int, i: nat, offset: nat, addend: nat) {
    && EntryIn(m, t, i) && i < Count(t.relsz, t.relent)
    && offset == Load(m, EntryAt(t, i), 8)
    && Load(m, EntryAt(t, i) + 8, 8) % 0x1_0000_0000 == ty
    && addend == Load(m, EntryAt(t, i) + 16, 8)
  }

  /** The address x is in the word of some relative entry. */
  ghost predicate Covered(m: seq<Byte>, t: Table, ldbase: int, ty: int, x: nat) {
    exists i: nat, offset, addend ::
      Field(m, t, ty, i, offset, addend) &&
      (ldbase + offset) % 0x1_0000_0000_0000_0000 <= x < (ldbase + offset) % 0x1_0000_0000_0000_0000 + 8
  }

  /** What relocation means, entry by entry: the word at base + offset becomes base + addend
      on AArch64 (kind 1027), and grows by the base on LoongArch (kind 3); all else stays. */
  lemma RelocatedAArch64(m: seq<Byte>, m': seq<Byte>, t: Table, ldbase: int)
    requires Placed(m, t, ldbase, R_AARCH64_RELATIVE)
    requires Applied(m, m', Patches(m, t, ldbase, R_AARCH64_RELATIVE, Overwrite, Count(t.relsz, t.relent)))
    ensures |m'| == |m|
    ensures forall i: nat, offset, addend :: Field(m, t, 1027, i, offset, addend) ==>
      var at := (ldbase + offset) % 0x1_0000_0000_0000_0000;
      at + 8 <= |m'| && Load(m', at, 8) == (ldbase + addend) % 0x1_0000_0000_0000_0000
    ensures forall x :: 0 <= x < |m| && !Covered(m, t, ldbase, 1027, x) ==> m'[x] == m[x]
  {
    hide Load, Count, EntryAt, Patches, IsRelative;
    var s := Patches(m, t, ldbase, R_AARCH64_RELATIVE, Overwrite, Count(t.relsz, t.relent));
    forall i: nat, offset, addend | Field(m, t, 1027, i, offset, addend)
      ensures Patch(Target(m, t, ldbase, i), Wrap(ldbase + addend)) in s
    {
      FieldPatched(m, t, ldbase, R_AARCH64_RELATIVE, Overwrite, i, offset, addend);
    }
    forall x | 0 <= x < |m| && !Covered(m, t, ldbase, 1027, x)
      ensures forall p :: p in s ==> !(p.at <= x < p.at + 8)
    {
      UncoveredApart(m, t, ldbase, R_AARCH64_RELATIVE, Overwrite, x);
    }
  }

  lemma RelocatedLoongArch(m: seq<Byte>, m': seq<Byte>, t: Table, ldbase: int)
    requires Placed(m, t, ldbase, R_LARCH_RELATIVE)
    requires Applied(m, m', Patches(m, t, ldbase, R_LARCH_RELATIVE, AddInPlace, Count(t.relsz, t.relent)))
    ensures |m'| == |m|
    ensures forall i: nat, offset, addend :: Field(m, t, 3, i, offset, addend) ==>
      var at := (ldbase + offset) % 0x1_0000_0000_0000_0000;
      at + 8 <= |m'| && Load(m', at, 8) == (Load(m, at, 8) + ldbase) % 0x1_0000_0000_0000_0000
    ensures forall x :: 0 <= x < |m| && !Covered(m, t, ldbase, 3, x) ==> m'[x] == m[x]
  {
    hide Load, Count, EntryAt, Patches, IsRelative;
    var s := Patches(m, t, ldbase, R_LARCH_RELATIVE, AddInPlace, Count(t.relsz, t.relent));
    forall i: nat, offset, addend | Field(m, t, 3, i, offset, addend)
      ensures Target(m, t, ldbase, i) + 8 <= |m|
      ensures Patch(Target(m, t, ldbase, i), Wrap(Load(m, Target(m, t, ldbase, i), 8) + ldbase)) in s
    {
      FieldPatched(m, t, ldbase, R_LARCH_RELATIVE, AddInPlace, i, offset, addend);
    }
    forall x | 0 <= x < |m| && !Covered(m, t, ldbase, 3, x)
      ensures forall p :: p in s ==> !(p.at <= x < p.at + 8)
    {
      UncoveredApart(m, t, ldbase, R_LARCH_RELATIVE, AddInPlace, x);
    }
  }

  lemma FieldPatched(m: seq<Byte>, t: Table, ldbase: int, ty: int, style: Style, i: nat, offset: nat, addend: nat)
    requires Placed(m, t, ldbase, ty) && Field(m, t, ty, i, offset, addend)
    ensures IsRelative(m, t, ty, i) && Target(m, t, ldbase, i) == Wrap(ldbase + offset)
    ensures Target(m, t, ldbase, i) + 8 <= |m| && Addend(m, t, i) == addend
    ensures Patch(Target(m, t, ldbase, i), WordFor(m, t, ldbase, style, i))
            in Patches(m, t, ldbase, ty, style, Count(t.relsz, t.relent))
  {
    hide Load, Count, EntryAt, Patches;
    PatchesAre(m, t, ldbase, ty, style, Count(t.relsz, t.relent),
               Patch(Target(m, t, ldbase, i), WordFor(m, t, ldbase, style, i)));
  }

  lemma UncoveredApart(m: seq<Byte>, t: Table, ldbase: int, ty: int, style: Style, x: nat)
    requires Placed(m, t, ldbase, ty) && !Covered(m, t, ldbase, ty, x)
    ensures forall p :: p in Patches(m, t, ldbase, ty, style, Count(t.relsz, t.relent)) ==> !(p.at <= x < p.at + 8)
  {
    hide Load, Count, EntryAt, Patches;
    var n := Count(t.relsz, t.relent);
    forall p | p in Patches(m, t, ldbase, ty, style, n)
      ensures !(p.at <= x < p.at + 8)
    {
      PatchesAre(m, t, ldbase, ty, style, n, p);
      var i: nat :|
        i < n && IsRelative(m, t, ty, i) && p == Patch(Target(m, t, ldbase, i), WordFor(m, t, ldbase, style, i));
      assert EntryIn(m, t, i);
      assert Field(m, t, ty, i, Load(m, EntryAt(t, i), 8), Load(m, EntryAt(t, i) + 16, 8));
    }
  }

  // ----- the order of the entries -----

  /** Entry i of m reads as entry j of m'. */
  predicate SameEntry(m: seq<Byte>, m': seq<Byte>, t: Table, i: nat, j: nat) {
    && EntryIn(m, t, i) && EntryIn(m', t, j)
    && m[EntryAt(t, i)..EntryAt(t, i) + 24] == m'[EntryAt(t, j)..EntryAt(t, j) + 24]
  }

  predicate HasEntry(m: seq<Byte>, m': seq<Byte>, t: Table, i: nat)
    requires t.relent > 0
  {
    exists j: nat :: j < Count(t.relsz, t.relent) && SameEntry(m, m', t, i, j)
  }

  predicate InEntry(t: Table, x: nat) {
    t.relent > 0 && exists i: nat :: i < Count(t.relsz, t.relent) && EntryAt(t, i) <= x < EntryAt(t, i) + 24
  }

  /** Every entry of m is one of m', and outside the entries the bytes are the same. */
  predicate Reordered(m: seq<Byte>, m': seq<Byte>, t: Table) {
    && t.relent > 0 && |m| == |m'|
    && (forall i: nat :: i < Count(t.relsz, t.relent) ==> HasEntry(m, m', t, i))
    && (forall x: nat :: x < |m| && !InEntry(t, x) ==> m[x] == m'[x])
  }

  lemma SameFields(m: seq<Byte>, m': seq<Byte>, t: Table, ldbase: int, ty: int, i: nat, j: nat)
    requires SameEntry(m, m', t, i, j)
    ensures IsRelative(m, t, ty, i) == IsRelative(m', t, ty, j)
    ensures Target(m, t, ldbase, i) == Target(m', t, ldbase, j) && Addend(m, t, i) == Addend(m', t, j)
  {
    hide EntryAt, FromLE;
    var e, f := EntryAt(t, i), EntryAt(t, j);
    SameField(m, m', e, f, 0);
    SameField(m, m', e, f, 8);
    SameField(m, m', e, f, 16);
  }

  lemma SameField(m: seq<Byte>, m': seq<Byte>, e: nat, f: nat, d: nat)
    requires e + 24 <= |m| && f + 24 <= |m'| && d <= 16 && m[e..e + 24] == m'[f..f + 24]
    ensures Load(m, e + d, 8) == Load(m', f + d, 8)
  {
    hide FromLE;
    SliceOfEntry(m, e, d);
    SliceOfEntry(m', f, d);
  }

  lemma SliceOfEntry(m: seq<Byte>, e: nat, d: nat)
    requires e + 24 <= |m| && d <= 16
    ensures m[e..e + 24][d..d + 8] == m[e + d..e + d + 8]
  {
    var s := m[e..e + 24];
    assert forall k :: 0 <= k < 24 ==> s[k] == m[e + k];
    var a, b := s[d..d + 8], m[e + d..e + d + 8];
    forall k | 0 <= k < 8
      ensures a[k] == b[k]
    {
      assert a[k] == s[d + k];
    }
  }

  lemma TargetOutside(m: seq<Byte>, t: Table, ldbase: int, ty: int, i: nat, x: nat)
    requires Placed(m, t, ldbase, ty) && i < Count(t.relsz, t.relent) && IsRelative(m, t, ty, i)
    requires Target(m, t, ldbase, i) <= x < Target(m, t, ldbase, i) + 8
    ensures !InEntry(t, x)
  {
    hide Load, EntryAt, Count;
    forall j: nat | j < Count(t.relsz, t.relent)
      ensures !(EntryAt(t, j) <= x < EntryAt(t, j) + 24)
    {
      assert Apart(Target(m, t, ldbase, i), 8, EntryAt(t, j), 24);
    }
  }

  /** The word at a target is outside the entries. */
  lemma ReorderedWord(m: seq<Byte>, m': seq<Byte>, t: Table, ldbase: int, ty: int, i: nat)
    requires Placed(m, t, ldbase, ty) && Reordered(m, m', t)
    requires i < Count(t.relsz, t.relent) && IsRelative(m, t, ty, i)
    ensures Load(m, Target(m, t, ldbase, i), 8) == Load(m', Target(m, t, ldbase, i), 8)
  {
    hide Load, EntryAt, Count;
    var a := Target(m, t, ldbase, i);
    forall x: nat | a <= x < a + 8
      ensures m[x] == m'[x]
    {
      TargetOutside(m, t, ldbase, ty, i, x);
    }
    LoadSame(m, m', a, 8);
  }

  lemma ReorderedPatches(m: seq<Byte>, m': seq<Byte>, t: Table, ldbase: int, ty: int, style: Style)
    requires Placed(m, t, ldbase, ty) && Placed(m', t, ldbase, ty) && Reordered(m, m', t)
    ensures var n := Count(t.relsz, t.relent);
      Patches(m, t, ldbase, ty, style, n) <= Patches(m', t, ldbase, ty, style, n)
  {
    hide Load, EntryAt, Count, Patches, SameEntry, IsRelative, Target, Addend, InEntry;
    var n := Count(t.relsz, t.relent);
    forall p | p in Patches(m, t, ldbase, ty, style, n)
      ensures p in Patches(m', t, ldbase, ty, style, n)
    {
      PatchesAre(m, t, ldbase, ty, style, n, p);
      var i: nat :|
        i < n && IsRelative(m, t, ty, i) && p == Patch(Target(m, t, ldbase, i), WordFor(m, t, ldbase, style, i));
      assert HasEntry(m, m', t, i);
      var j: nat :| j < n && SameEntry(m, m', t, i, j);
      SameFields(m, m', t, ldbase, ty, i, j);
      ReorderedWord(m, m', t, ldbase, ty, i);
      PatchesAre(m', t, ldbase, ty, style, n, p);
    }
  }

  /** Two images with the same entries in any order are the same after relocation,
      apart from the entries themselves. */
  lemma OrderDoesNotMatter(m: seq<Byte>, m': seq<Byte>, t: Table, ldbase: int, ty: int, style: Style,
                           r: seq<Byte>, r': seq<Byte>)
    requires Placed(m, t, ldbase, ty) && Placed(m', t, ldbase, ty) && Reordered(m, m', t) && Reordered(m', m, t)
    requires Applied(m, r, Patches(m, t, ldbase, ty, style, Count(t.relsz, t.relent)))
    requires Applied(m', r', Patches(m', t, ldbase, ty, style, Count(t.relsz, t.relent)))
    ensures |r| == |r'| && forall x: nat :: x < |r| && !InEntry(t, x) ==> r[x] == r'[x]
  {
    ReorderedPatches(m, m', t, ldbase, ty, style);
    ReorderedPatches(m', m, t, ldbase, ty, style);
    hide Load, EntryAt, Count, Patches, Placed, InEntry;
    var s := Patches(m, t, ldbase, ty, style, Count(t.relsz, t.relent));
    assert s == Patches(m', t, ldbase, ty, style, Count(t.relsz, t.relent));
    forall x: nat | x < |r| && !InEntry(t, x)
      ensures r[x] == r'[x]
    {
      if p :| p in s && p.at <= x < p.at + 8 {
        SameByte(r, r', p.at, x);
      } else {
        assert r[x] == m[x] == m'[x] == r'[x];
      }
    }
  }

  // ----- one entry after another -----

  /** No word of the first k entries covers address x, if their targets do not. */
  lemma NotCovered(m: seq<Byte>, t: Table, ldbase: int, ty: int, style: Style, k: nat, x: nat)
    requires Placed(m, t, ldbase, ty) && k <= Count(t.relsz, t.relent)
    requires forall i: nat :: i < k && IsRelative(m, t, ty, i) ==>
      !(Target(m, t, ldbase, i) <= x < Target(m, t, ldbase, i) + 8)
    ensures forall p :: p in Patches(m, t, ldbase, ty, style, k) ==> !(p.at <= x < p.at + 8)
  {
    hide Load, EntryAt, Count, Patches, Placed;
    forall p | p in Patches(m, t, ldbase, ty, style, k)
      ensures !(p.at <= x < p.at + 8)
    {
      PatchesAre(m, t, ldbase, ty, style, k, p);
    }
  }

  /** The entries read the same while the loop runs. */
  lemma EntryKept(m: seq<Byte>, m': seq<Byte>, t: Table, ldbase: int, ty: int, style: Style, k: nat, j: nat)
    requires Placed(m, t, ldbase, ty) && k <= Count(t.relsz, t.relent) && j < Count(t.relsz, t.relent)
    requires Applied(m, m', Patches(m, t, ldbase, ty, style, k))
    ensures EntryIn(m', t, j) && Target(m', t, ldbase, j) == Target(m, t, ldbase, j)
    ensures IsRelative(m', t, ty, j) == IsRelative(m, t, ty, j) && Addend(m', t, j) == Addend(m, t, j)
  {
    hide Load, EntryAt, Count, Patches;
    assert EntryIn(m, t, j);
    var e := EntryAt(t, j);
    forall x | e <= x < e + 24
      ensures m'[x] == m[x]
    {
      EntryApart(m, t, ldbase, ty, k, j, x);
      NotCovered(m, t, ldbase, ty, style, k, x);
    }
    hide Applied, Placed;
    LoadSame(m, m', e, 8);
    LoadSame(m, m', e + 8, 8);
    LoadSame(m, m', e + 16, 8);
  }

  lemma EntryApart(m: seq<Byte>, t: Table, ldbase: int, ty: int, k: nat, j: nat, x: nat)
    requires Placed(m, t, ldbase, ty) && k <= Count(t.relsz, t.relent) && j < Count(t.relsz, t.relent)
    requires EntryAt(t, j) <= x < EntryAt(t, j) + 24
    ensures forall i: nat :: i < k && IsRelative(m, t, ty, i) ==>
      !(Target(m, t, ldbase, i) <= x < Target(m, t, ldbase, i) + 8)
  {
    hide Load, EntryAt, Count;
    forall i: nat | i < k && IsRelative(m, t, ty, i)
      ensures !(Target(m, t, ldbase, i) <= x < Target(m, t, ldbase, i) + 8)
    {
      assert Apart(Target(m, t, ldbase, i), 8, EntryAt(t, j), 24);
    }
  }

  /** The word at the next target is still the initial one. */
  lemma TargetKept(m: seq<Byte>, m': seq<Byte>, t: Table, ldbase: int, ty: int, style: Style, k: nat)
    requires Placed(m, t, ldbase, ty) && k < Count(t.relsz, t.relent) && IsRelative(m, t, ty, k)
    requires Applied(m, m', Patches(m, t, ldbase, ty, style, k))
    ensures Target(m, t, ldbase, k) + 8 <= |m'|
    ensures Load(m', Target(m, t, ldbase, k), 8) == Load(m, Target(m, t, ldbase, k), 8)
  {
    hide Load, EntryAt, Count, Patches;
    var a := Target(m, t, ldbase, k);
    forall x | a <= x < a + 8
      ensures m'[x] == m[x]
    {
      forall i: nat | i < k && IsRelative(m, t, ty, i)
        ensures !(Target(m, t, ldbase, i) <= x < Target(m, t, ldbase, i) + 8)
      {
        assert Apart(Target(m, t, ldbase, i), 8, a, 8);
      }
      NotCovered(m, t, ldbase, ty, style, k, x);
    }
    LoadSame(m, m', a, 8);
  }

  /** Writing one more word. */
  lemma OneMore(m: seq<Byte>, m1: seq<Byte>, m2: seq<Byte>, s: set<Patch>, p: Patch)
    requires Applied(m, m1, s) && p.at + 8 <= |m| == |m2|
    requires forall q :: q in s ==> Apart(q.at, 8, p.at, 8)
    requires Load(m2, p.at, 8) == p.word && forall x :: 0 <= x < |m| && !(p.at <= x < p.at + 8) ==> m2[x] == m1[x]
    ensures Applied(m, m2, s + {p})
  {
    hide Load;
    forall q | q in s
      ensures Load(m2, q.at, 8) == q.word
    {
      LoadSame(m1, m2, q.at, 8);
    }
    forall x | 0 <= x < |m| && forall q :: q in s + {p} ==> !(q.at <= x < q.at + 8)
      ensures m2[x] == m[x]
    {
      assert p in s + {p};
      assert forall q :: q in s ==> q in s + {p};
    }
  }

  lemma EarlierApart(m: seq<Byte>, t: Table, ldbase: int, ty: int, style: Style, k: nat)
    requires Placed(m, t, ldbase, ty) && k < Count(t.relsz, t.relent) && IsRelative(m, t, ty, k)
    ensures forall q :: q in Patches(m, t, ldbase, ty, style, k) ==> Apart(q.at, 8, Target(m, t, ldbase, k), 8)
  {
    hide Load, EntryAt, Count, Patches;
    forall q | q in Patches(m, t, ldbase, ty, style, k)
      ensures Apart(q.at, 8, Target(m, t, ldbase, k), 8)
    {
      PatchesAre(m, t, ldbase, ty, style, k, q);
      var i: nat :|
        i < k && IsRelative(m, t, ty, i) && q == Patch(Target(m, t, ldbase, i), WordFor(m, t, ldbase, style, i));
      assert Apart(Target(m, t, ldbase, i), 8, Target(m, t, ldbase, k), 8);
    }
  }

  /** Entry k has been dealt with: m1 is the memory before, m2 after. */
  lemma EntryDone(m: seq<Byte>, m1: seq<Byte>, m2: seq<Byte>, t: Table, ldbase: int, ty: int, style: Style, k: nat)
    requires Placed(m, t, ldbase, ty) && k < Count(t.relsz, t.relent)
    requires Applied(m, m1, Patches(m, t, ldbase, ty, style, k)) && |m2| == |m1|
    requires if IsRelative(m, t, ty, k) then
        var a := Target(m, t, ldbase, k);
        && Load(m2, a, 8) == WordFor(m, t, ldbase, style, k)
        && forall x :: 0 <= x < |m1| && !(a <= x < a + 8) ==> m2[x] == m1[x]
      else m2 == m1
    ensures Applied(m, m2, Patches(m, t, ldbase, ty, style, k + 1))
  {
    var s := Patches(m, t, ldbase, ty, style, k);
    if IsRelative(m, t, ty, k) {
      EarlierApart(m, t, ldbase, ty, style, k);
      hide Load, EntryAt, Count, Applied;
      OneMore(m, m1, m2, s, Patch(Target(m, t, ldbase, k), WordFor(m, t, ldbase, style, k)));
    } else {
      assert Patches(m, t, ldbase, ty, style, k + 1) == s + {};
      assert s + {} == s;
    }
  }

  // ----- the two loaders -----

  /** The table found in the dynamic section: the last entry of each kind counts. */
  method ReadDynamic(dyn: seq<Dyn>, ldbase: int) returns (t: Table)
    requires FirstNull(dyn, 0) < |dyn|
    ensures t == TableOf(dyn, ldbase, FirstNull(dyn, 0))
  {
    t := Table(0, 0, 0);
    var i := 0;
    while dyn[i].tag != DT_NULL
      invariant i < |dyn| && FirstNull(dyn, i) == FirstNull(dyn, 0)
      invariant t == TableOf(dyn, ldbase, i)
      decreases |dyn| - i
    {
      t := Noted(t, dyn[i], ldbase);
      i := i + 1;
    }
  }

  /** _relocate for AArch64: each target becomes base + addend, and nothing else
      changes. */
  method RelocateAArch64(mem: array<Byte>, ldbase: int, dyn: seq<Dyn>) returns (status: Status)
    requires FirstNull(dyn, 0) < |dyn|
    requires var t := TableOf(dyn, ldbase, FirstNull(dyn, 0));
      t.rel != 0 && t.relent != 0 ==> Placed(mem[..], t, ldbase, R_AARCH64_RELATIVE)
    modifies mem
    ensures var t := TableOf(dyn, ldbase, FirstNull(dyn, 0));
      && (status == Success <==> (t.rel == 0) == (t.relent == 0))
      && (t.rel == 0 || t.relent == 0 ==> mem[..] == old(mem[..]))
      && (t.rel != 0 && t.relent != 0 ==>
           Applied(old(mem[..]), mem[..],
                   Patches(old(mem[..]), t, ldbase, R_AARCH64_RELATIVE, Overwrite, Count(t.relsz, t.relent))))
  {
    hide Load, Applied, Patches, Placed, IsRelative, Target, Addend, Wrap, TableOf, FirstNull, Count, EntryAt;
    var t := ReadDynamic(dyn, ldbase);
    if t.rel == 0 && t.relent == 0 {
      return Success;
    }
    if t.rel == 0 || t.relent == 0 {
      return LoadError;
    }
    ghost var m := mem[..];
    NothingApplied(m, t, ldbase, R_AARCH64_RELATIVE, Overwrite);
    var rel, relsz := t.rel, t.relsz;
    ghost var k := 0;
    while relsz > 0
      invariant k + Count(relsz, t.relent) == Count(t.relsz, t.relent) && rel == EntryAt(t, k)
      invariant Applied(m, mem[..], Patches(m, t, ldbase, R_AARCH64_RELATIVE, Overwrite, k))
    {
      ghost var m1 := mem[..];
      LoopStep(t, relsz, k);
      EntryKept(m, m1, t, ldbase, R_AARCH64_RELATIVE, Overwrite, k, k);
      EntryFields(m1, t, ldbase, R_AARCH64_RELATIVE, k);
      if Load(mem[..], rel + 8, 8) % 0x1_0000_0000 == R_AARCH64_RELATIVE {
        TargetIn(m, t, ldbase, R_AARCH64_RELATIVE, k);
        var addr := Wrap(ldbase + Load(mem[..], rel, 8));
        AppliedLength(m, m1, Patches(m, t, ldbase, R_AARCH64_RELATIVE, Overwrite, k));
        WrapFits(ldbase + Load(mem[..], rel + 16, 8));
        Store64(mem, addr, Wrap(ldbase + Load(mem[..], rel + 16, 8)));
      }
      EntryDone(m, m1, mem[..], t, ldbase, R_AARCH64_RELATIVE, Overwrite, k);
      rel, relsz := rel + t.relent, relsz - t.relent;
      k := k + 1;
    }
    LoopEnd(t, relsz);
    return Success;
  }

  /** _relocate for LoongArch: the base is added to each target in place. */
  method RelocateLoongArch(mem: array<Byte>, ldbase: int, dyn: seq<Dyn>) returns (status: Status)
    requires FirstNull(dyn, 0) < |dyn|
    requires var t := TableOf(dyn, ldbase, FirstNull(dyn, 0));
      t.rel != 0 && t.relent != 0 ==> Placed(mem[..], t, ldbase, R_LARCH_RELATIVE)
    modifies mem
    ensures var t := TableOf(dyn, ldbase, FirstNull(dyn, 0));
      && (status == Success <==> (t.rel == 0) == (t.relent == 0))
      && (t.rel == 0 || t.relent == 0 ==> mem[..] == old(mem[..]))
      && (t.rel != 0 && t.relent != 0 ==>
           Applied(old(mem[..]), mem[..],
                   Patches(old(mem[..]), t, ldbase, R_LARCH_RELATIVE, AddInPlace, Count(t.relsz, t.relent))))
  {
    hide Load, Applied, Patches, Placed, IsRelative, Target, Addend, Wrap, TableOf, FirstNull, Count, EntryAt;
    var t := ReadDynamic(dyn, ldbase);
    if t.rel == 0 && t.relent == 0 {
      return Success;
    }
    if t.rel == 0 || t.relent == 0 {
      return LoadError;
    }
    ghost var m := mem[..];
    NothingApplied(m, t, ldbase, R_LARCH_RELATIVE, AddInPlace);
    var rel, relsz := t.rel, t.relsz;
    ghost var k := 0;
    while relsz > 0
      invariant k + Count(relsz, t.relent) == Count(t.relsz, t.relent) && rel == EntryAt(t, k)
      invariant Applied(m, mem[..], Patches(m, t, ldbase, R_LARCH_RELATIVE, AddInPlace, k))
    {
      ghost var m1 := mem[..];
      LoopStep(t, relsz, k);
      EntryKept(m, m1, t, ldbase, R_LARCH_RELATIVE, AddInPlace, k, k);
      EntryFields(m1, t, ldbase, R_LARCH_RELATIVE, k);
      if Load(mem[..], rel + 8, 8) % 0x1_0000_0000 == R_LARCH_RELATIVE {
        TargetIn(m, t, ldbase, R_LARCH_RELATIVE, k);
        var addr := Wrap(ldbase + Load(mem[..], rel, 8));
        AppliedLength(m, m1, Patches(m, t, ldbase, R_LARCH_RELATIVE, AddInPlace, k));
        TargetKept(m, m1, t, ldbase, R_LARCH_RELATIVE, AddInPlace, k);
        WrapFits(Load(mem[..], addr, 8) + ldbase);
        Store64(mem, addr, Wrap(Load(mem[..], addr, 8) + ldbase));
      }
      EntryDone(m, m1, mem[..], t, ldbase, R_LARCH_RELATIVE, AddInPlace, k);
      rel, relsz := rel + t.relent, relsz - t.relent;
      k := k + 1;
    }
    LoopEnd(t, relsz);
    return Success;
  }

  lemma LoopStep(t: Table, relsz: int, k: nat)
    requires t.relent > 0 && relsz > 0
    ensures Count(relsz, t.relent) == 1 + Count(relsz - t.relent, t.relent)
    ensures EntryAt(t, k + 1) == EntryAt(t, k) + t.relent
  {
  }

  lemma LoopEnd(t: Table, relsz: int)
    requires t.relent > 0 && relsz <= 0
    ensures Count(relsz, t.relent) == 0
  {
  }

  lemma WrapFits(x: int)
    ensures 0 <= Wrap(x) < WORD64
  {
  }

  lemma AppliedLength(m: seq<Byte>, m': seq<Byte>, s: set<Patch>)
    requires Applied(m, m', s)
    ensures |m'| == |m|
  {
  }

  lemma NothingApplied(m: seq<Byte>, t: Table, ldbase: int, ty: int, style: Style)
    requires Placed(m, t, ldbase, ty)
    ensures t.relent > 0 && EntryAt(t, 0) == t.rel && Applied(m, m, Patches(m, t, ldbase, ty, style, 0))
  {
  }

  lemma EntryFields(m: seq<Byte>, t: Table, ldbase: int, ty: int, k: nat)
    requires EntryIn(m, t, k)
    ensures EntryAt(t, k) + 24 <= |m|
    ensures IsRelative(m, t, ty, k) <==> Load(m, EntryAt(t, k) + 8, 8) % 0x1_0000_0000 == ty
    ensures Target(m, t, ldbase, k) == Wrap(ldbase + Load(m, EntryAt(t, k), 8))
    ensures Addend(m, t, k) == Load(m, EntryAt(t, k) + 16, 8)
  {
  }

  lemma TargetIn(m: seq<Byte>, t: Table, ldbase: int, ty: int, k: nat)
    requires Placed(m, t, ldbase, ty) && k < Count(t.relsz, t.relent) && IsRelative(m, t, ty, k)
    ensures Target(m, t, ldbase, k) + 8 <= |m|
  {
    hide Load, EntryAt, Count;
  }

  // ----- do they agree? -----

  lemma AddsAgree(a: int, b: int, ldbase: int)
    requires 0 <= a < WORD64 && 0 <= b < WORD64
    ensures Wrap(ldbase + a) == Wrap(b + ldbase) <==> a == b
  {
  }

  /** Every relative target initially holds its addend. */
  ghost predicate HoldAddends(m: seq<Byte>, t: Table, ldbase: int, ty: int)
    requires Placed(m, t, ldbase, ty)
  {
    forall i: nat :: i < Count(t.relsz, t.relent) && IsRelative(m, t, ty, i) ==>
      Load(m, Target(m, t, ldbase, i), 8) == Addend(m, t, i)
  }

  /** Applied to one table, overwriting and adding in place give the same memory
      if and only if each target initially held its addend. */
  lemma StylesAgree(m: seq<Byte>, t: Table, ldbase: int, ty: int, m1: seq<Byte>, m2: seq<Byte>)
    requires Placed(m, t, ldbase, ty)
    requires Applied(m, m1, Patches(m, t, ldbase, ty, Overwrite, Count(t.relsz, t.relent)))
    requires Applied(m, m2, Patches(m, t, ldbase, ty, AddInPlace, Count(t.relsz, t.relent)))
    ensures m1 == m2 <==> HoldAddends(m, t, ldbase, ty)
  {
    var n := Count(t.relsz, t.relent);
    if m1 == m2 {
      forall i: nat | i < n && IsRelative(m, t, ty, i)
        ensures Load(m, Target(m, t, ldbase, i), 8) == Addend(m, t, i)
      {
        SameWord(m, t, ldbase, ty, m1, i);
      }
    } else {
      if HoldAddends(m, t, ldbase, ty) {
        SamePatches(m, t, ldbase, ty, n);
        AppliedUnique(m, m1, m2, Patches(m, t, ldbase, ty, Overwrite, n));
        assert false;
      }
    }
  }

  lemma SameWord(m: seq<Byte>, t: Table, ldbase: int, ty: int, m1: seq<Byte>, i: nat)
    requires Placed(m, t, ldbase, ty) && i < Count(t.relsz, t.relent) && IsRelative(m, t, ty, i)
    requires Applied(m, m1, Patches(m, t, ldbase, ty, Overwrite, Count(t.relsz, t.relent)))
    requires Applied(m, m1, Patches(m, t, ldbase, ty, AddInPlace, Count(t.relsz, t.relent)))
    ensures Load(m, Target(m, t, ldbase, i), 8) == Addend(m, t, i)
  {
    hide Load, EntryAt, Count, Patches;
    var n := Count(t.relsz, t.relent);
    var a := Target(m, t, ldbase, i);
    var p, q := Patch(a, WordFor(m, t, ldbase, Overwrite, i)), Patch(a, WordFor(m, t, ldbase, AddInPlace, i));
    PatchesAre(m, t, ldbase, ty, Overwrite, n, p);
    PatchesAre(m, t, ldbase, ty, AddInPlace, n, q);
    assert Load(m1, p.at, 8) == p.word && Load(m1, q.at, 8) == q.word;
    Power8();
    AddsAgree(Addend(m, t, i), Load(m, a, 8), ldbase);
  }

  lemma {:induction false} SamePatches(m: seq<Byte>, t: Table, ldbase: int, ty: int, k: nat)
    requires Placed(m, t, ldbase, ty) && HoldAddends(m, t, ldbase, ty) && k <= Count(t.relsz, t.relent)
    ensures Patches(m, t, ldbase, ty, Overwrite, k) == Patches(m, t, ldbase, ty, AddInPlace, k)
  {
    hide Load, EntryAt, Count;
    if k > 0 {
      SamePatches(m, t, ldbase, ty, k - 1);
      if IsRelative(m, t, ty, k - 1) {
        assert Load(m, Target(m, t, ldbase, k - 1), 8) == Addend(m, t, k - 1);
      }
    }
  }
}
