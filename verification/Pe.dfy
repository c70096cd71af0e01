/** The loader of PE images (main/parse.c:79-173), over one byte memory that
    holds both the file and the place it is loaded to. */
module PeLoader {
  import opened Memory

  const IMAGE_DOS_SIGNATURE: nat := 0x5A4D
  const IMAGE_NT_SIGNATURE: nat := 0x00004550
  const OFFSET_LFANEW: nat := 60
  const OFFSET_SECTIONS: nat := 6
  const OFFSET_OPTIONAL_SIZE: nat := 20
  const OFFSET_OPTIONAL: nat := 24
  const OFFSET_ENTRY: nat := 40
  const SECTION_HEADER: nat := 40

  function Add64(a: nat, b: nat): nat {
    (a + b) % WORD64
  }

  // ----- the headers -----

  /** The fields of a section header the loader uses. */
  datatype Section = Section(address: nat, size: nat, raw: nat)

  function SectionAt(m: seq<Byte>, a: nat): (s: Section)
    requires a + SECTION_HEADER <= |m|
    ensures s.address < 0x1_0000_0000 && s.size < 0x1_0000_0000 && s.raw < 0x1_0000_0000
  {
    Power8();
    Section(Load(m, a + 12, 4), Load(m, a + 16, 4), Load(m, a + 20, 4))
  }

  function NtAt(m: seq<Byte>, file: nat): nat
    requires file + OFFSET_LFANEW + 4 <= |m|
  {
    file + Load(m, file + OFFSET_LFANEW, 4)
  }

  predicate NtIn(m: seq<Byte>, file: nat) {
    file + OFFSET_LFANEW + 4 <= |m| && NtAt(m, file) + OFFSET_ENTRY + 4 <= |m|
  }

  function SectionCount(m: seq<Byte>, file: nat): nat
    requires NtIn(m, file)
  {
    Load(m, NtAt(m, file) + OFFSET_SECTIONS, 2)
  }

  function FirstHeader(m: seq<Byte>, file: nat): nat
    requires NtIn(m, file)
  {
    NtAt(m, file) + OFFSET_OPTIONAL + Load(m, NtAt(m, file) + OFFSET_OPTIONAL_SIZE, 2)
  }

  /** The headers lie in memory. */
  predicate HeadersIn(m: seq<Byte>, file: nat) {
    NtIn(m, file) && FirstHeader(m, file) + SECTION_HEADER * SectionCount(m, file) <= |m|
  }

  function Sections(m: seq<Byte>, file: nat): (s: seq<Section>)
    requires HeadersIn(m, file)
    ensures |s| == SectionCount(m, file)
  {
    seq(SectionCount(m, file), i requires 0 <= i < SectionCount(m, file) =>
        SectionAt(m, FirstHeader(m, file) + SECTION_HEADER * i))
  }

  /** The NT signature is looked for only behind a DOS signature. */
  predicate SignatureIn(m: seq<Byte>, file: nat) {
    file + OFFSET_LFANEW + 4 <= |m| && (Load(m, file, 2) == IMAGE_DOS_SIGNATURE ==> NtAt(m, file) + 4 <= |m|)
  }

  predicate SignaturesOk(m: seq<Byte>, file: nat)
    requires SignatureIn(m, file)
  {
    Load(m, file, 2) == IMAGE_DOS_SIGNATURE && Load(m, NtAt(m, file), 4) == IMAGE_NT_SIGNATURE
  }

  function Entry(m: seq<Byte>, file: nat, load: nat): nat
    requires NtIn(m, file)
  {
    Add64(Load(m, NtAt(m, file) + OFFSET_ENTRY, 4), load)
  }

  // ----- where the fields are -----

  /** The sizes of the fields of IMAGE_DOS_HEADER up to e_lfanew, ... */
  const DOS_FIELDS: seq<nat> := [2, 2, 2, 2, 2, 2, 2, 2, 2, 2, 2, 2, 2, 2, 4 * 2, 2, 2, 10 * 2, 4]

  /** ... of IMAGE_NT_HEADERS, the file header and then the optional header, up to
      AddressOfEntryPoint, ... */
  const NT_FIELDS: seq<nat> := [4, 2, 2, 4, 4, 4, 2, 2, 2, 1, 1, 4, 4, 4, 4]

  /** ... and of IMAGE_SECTION_HEADER. */
  const SECTION_FIELDS: seq<nat> := [8, 4, 4, 4, 4, 4, 4, 2, 2, 4]

  /** The offset of field k of a structure without gaps. */
  function FieldOffset(sizes: seq<nat>, k: nat): nat
    requires k <= |sizes|
  {
    if k == 0 then 0 else FieldOffset(sizes, k - 1) + sizes[k - 1]
  }

  /** e_lfanew is field 18; the number of sections, the size of the optional header, the
      optional header and its entry point are fields 2, 6, 8 and 14; the virtual address, the
      size of the raw data and its place in the file are fields 2, 3 and 4. */
  lemma FieldsPlaced()
    ensures OFFSET_LFANEW == FieldOffset(DOS_FIELDS, 18)
    ensures OFFSET_SECTIONS == FieldOffset(NT_FIELDS, 2) && OFFSET_OPTIONAL_SIZE == FieldOffset(NT_FIELDS, 6)
    ensures OFFSET_OPTIONAL == FieldOffset(NT_FIELDS, 8) && OFFSET_ENTRY == FieldOffset(NT_FIELDS, 14)
    ensures FieldOffset(SECTION_FIELDS, 2) == 12 && FieldOffset(SECTION_FIELDS, 3) == 16
    ensures FieldOffset(SECTION_FIELDS, 4) == 20 && SECTION_HEADER == FieldOffset(SECTION_FIELDS, 10)
  {
    assert FieldOffset(DOS_FIELDS, 6) == 12;
    assert FieldOffset(DOS_FIELDS, 12) == 24;
    assert FieldOffset(NT_FIELDS, 6) == 20;
    assert FieldOffset(SECTION_FIELDS, 6) == 28;
  }

  /** What the loader reads of the headers: the NT header stands at the offset in e_lfanew,
      the section headers behind the optional header, and the entry point is relative to the
      place the image is loaded to. */
  lemma HeadersRead(m: seq<Byte>, file: nat, load: nat, i: nat)
    requires HeadersIn(m, file) && i < |Sections(m, file)|
    ensures FieldOffset(DOS_FIELDS, 18) == 60
    ensures var nt := file + Load(m, file + 60, 4);
      && nt == NtAt(m, file) && nt + 44 <= |m| && |Sections(m, file)| == Load(m, nt + 6, 2)
      && Entry(m, file, load) == (Load(m, nt + 40, 4) + load) % 0x1_0000_0000_0000_0000
      && var header := nt + 24 + Load(m, nt + 20, 2) + 40 * i;
         && header + 40 <= |m|
         && Sections(m, file)[i] == Section(Load(m, header + 12, 4), Load(m, header + 16, 4), Load(m, header + 20, 4))
  {
    hide Load, FieldOffset;
    FieldsPlaced();
  }

  /** A file is taken for an image if and only if it begins with "MZ" and has "PE" and two
      zeros where e_lfanew points. */
  lemma SignaturesMean(m: seq<Byte>, file: nat)
    requires SignatureIn(m, file)
    ensures SignaturesOk(m, file) <==>
      && m[file] == 'M' as int && m[file + 1] == 'Z' as int
      && var nt := file + Load(m, file + 60, 4);
         nt + 4 <= |m| && m[nt] == 'P' as int && m[nt + 1] == 'E' as int && m[nt + 2] == 0 && m[nt + 3] == 0
  {
    hide Load;
    LoadMeans(m, file);
    var nt := NtAt(m, file);
    if nt + 4 <= |m| {
      LoadMeans(m, nt);
      LoadMeans(m, nt + 2);
    }
  }

  // ----- what loading does -----

  /** The section's bytes lie inside the file. */
  predicate InFile(s: Section, size: nat) {
    s.raw + s.size <= size
  }

  /** The byte at x after the first k sections were copied: that of the last one
      that covers it. */
  function ByteAfter(m: seq<Byte>, file: nat, load: nat, secs: seq<Section>, k: nat, x: nat): Byte
    requires k <= |secs| && x < |m|
    requires forall i :: 0 <= i < k ==> file + secs[i].raw + secs[i].size <= |m|
  {
    if k == 0 then m[x]
    else
      var s := secs[k - 1];
      if load + s.address <= x < load + s.address + s.size then m[file + s.raw + (x - load - s.address)]
      else ByteAfter(m, file, load, secs, k - 1, x)
  }

  /** The first section that is not inside the file, if any. */
  function FirstBad(secs: seq<Section>, size: nat, i: nat): (k: nat)
    requires i <= |secs|
    ensures i <= k <= |secs| && (k < |secs| ==> !InFile(secs[k], size)) && forall j :: i <= j < k ==>
      InFile(secs[j], size)
    decreases |secs| - i
  {
    if i < |secs| && InFile(secs[i], size) then FirstBad(secs, size, i + 1) else i
  }

  /** The destination of s lies in memory and apart from the file and its headers,
      which end at `end`. */
  predicate DestinationOk(n: nat, file: nat, load: nat, size: nat, end: nat, s: Section) {
    && load + s.address + s.size <= n
    && (load + s.address + s.size <= file || (file + size <= load + s.address && end <= load + s.address))
  }

  function HeadersEnd(m: seq<Byte>, file: nat): nat
    requires HeadersIn(m, file)
  {
    FirstHeader(m, file) + SECTION_HEADER * SectionCount(m, file)
  }

  /** Every section copied has a good destination. */
  ghost predicate DestinationsOk(m: seq<Byte>, file: nat, load: nat, size: nat)
    requires HeadersIn(m, file)
  {
    var secs := Sections(m, file);
    forall i :: 0 <= i < FirstBad(secs, size, 0) ==>
      DestinationOk(|m|, file, load, size, HeadersEnd(m, file), secs[i])
  }

  /** The file is in memory, no address wraps, and as far as the signatures are
      right the headers are in memory and the sections have good destinations. */
  ghost predicate Placed(m: seq<Byte>, file: nat, load: nat, size: nat) {
    && file + size <= |m| && file + size < WORD64 && SignatureIn(m, file)
    && file + 0x2_0000_0000 <= WORD64 && load + 0x2_0000_0000 <= WORD64
    && (SignaturesOk(m, file) ==> HeadersIn(m, file) && DestinationsOk(m, file, load, size))
  }

  /** Copying one section: the bytes of the file appear at its destination, and
      all others stay. */
  ghost predicate Copied(m: seq<Byte>, m': seq<Byte>, file: nat, load: nat, s: Section)
    requires file + s.raw + s.size <= |m|
  {
    && |m'| == |m|
    && forall x :: 0 <= x < |m| ==>
         m'[x] == if load + s.address <= x < load + s.address + s.size
           then m[file + s.raw + (x - load - s.address)] else m[x]
  }

  /** load_section. */
  method LoadSection(mem: array<Byte>, s: Section, file: nat, load: nat, size: nat) returns (ok: bool)
    requires s.address < 0x1_0000_0000 && s.size < 0x1_0000_0000 && s.raw < 0x1_0000_0000
    requires file + 0x2_0000_0000 <= WORD64 && load + 0x2_0000_0000 <= WORD64
    requires file + size <= mem.Length && file + size < WORD64
    requires InFile(s, size) ==> DestinationOk(mem.Length, file, load, size, 0, s)
    modifies mem
    ensures ok <==> InFile(s, size)
    ensures !ok ==> mem[..] == old(mem[..])
    ensures ok ==> Copied(old(mem[..]), mem[..], file, load, s)
  {
    var start := Add64(file, s.raw);
    var end := Add64(start, s.size);
    var to := Add64(load, s.address);
    NoWrap(file, s.raw);
    NoWrap(start, s.size);
    NoWrap(load, s.address);
    NoWrap(file, size);
    if end > Add64(file, size) {
      return false;
    }
    // CopyMem
    forall i | 0 <= i < s.size {
      mem[to + i] := mem[start + i];
    }
    return true;
  }

  lemma NoWrap(a: nat, b: nat)
    requires a + b < WORD64
    ensures Add64(a, b) == a + b
  {
  }

  /** All raw data up to k is in memory. */
  ghost predicate InMemory(m: seq<Byte>, file: nat, secs: seq<Section>, k: nat) {
    k <= |secs| && forall i :: 0 <= i < k ==> file + secs[i].raw + secs[i].size <= |m|
  }

  /** The memory after the first k sections were copied. */
  ghost predicate LoadedUpTo(m: seq<Byte>, m': seq<Byte>, file: nat, load: nat, secs: seq<Section>, k: nat) {
    && InMemory(m, file, secs, k) && |m'| == |m|
    && forall x :: 0 <= x < |m| ==> m'[x] == ByteAfter(m, file, load, secs, k, x)
  }

  /** Bytes of the file and of the headers keep their value. */
  lemma {:induction false} FileKept(m: seq<Byte>, file: nat, load: nat, size: nat, end: nat, secs: seq<Section>,
                                    k: nat, x: nat)
    requires InMemory(m, file, secs, k) && x < |m| && file <= x && (x < file + size || x < end)
    requires forall i :: 0 <= i < k ==> DestinationOk(|m|, file, load, size, end, secs[i])
    ensures ByteAfter(m, file, load, secs, k, x) == m[x]
  {
    if k > 0 {
      FileKept(m, file, load, size, end, secs, k - 1, x);
    }
  }

  lemma CopiedAt(m: seq<Byte>, m': seq<Byte>, file: nat, load: nat, s: Section, x: nat)
    requires file + s.raw + s.size <= |m| && Copied(m, m', file, load, s) && x < |m|
    ensures |m'| == |m|
    ensures m'[x] == if load + s.address <= x < load + s.address + s.size
           then m[file + s.raw + (x - load - s.address)] else m[x]
  {
  }

  /** One more section. */
  lemma OneMoreSection(m: seq<Byte>, m1: seq<Byte>, m2: seq<Byte>, file: nat, load: nat, size: nat, end: nat,
                       secs: seq<Section>, k: nat)
    requires k < |secs| && LoadedUpTo(m, m1, file, load, secs, k) && file + size <= |m| && InFile(secs[k], size)
    requires forall i :: 0 <= i < k ==> DestinationOk(|m|, file, load, size, end, secs[i])
    requires Copied(m1, m2, file, load, secs[k])
    ensures LoadedUpTo(m, m2, file, load, secs, k + 1)
  {
    var s := secs[k];
    assert InMemory(m, file, secs, k + 1);
    forall x | 0 <= x < |m|
      ensures m2[x] == ByteAfter(m, file, load, secs, k + 1, x)
    {
      CopiedAt(m1, m2, file, load, s, x);
      if load + s.address <= x < load + s.address + s.size {
        var y := file + s.raw + (x - load - s.address);
        FileKept(m, file, load, size, end, secs, k, y);
        assert m2[x] == m1[y] == m[y];
      } else {
        assert m2[x] == m1[x];
      }
    }
  }

  /** The section headers read the same while sections are copied. */
  lemma HeaderKept(m: seq<Byte>, m1: seq<Byte>, file: nat, load: nat, size: nat, k: nat)
    requires HeadersIn(m, file) && k < SectionCount(m, file) && k <= FirstBad(Sections(m, file), size, 0)
    requires LoadedUpTo(m, m1, file, load, Sections(m, file), k) && DestinationsOk(m, file, load, size)
    ensures SectionAt(m1, FirstHeader(m, file) + SECTION_HEADER * k) == Sections(m, file)[k]
  {
    hide Load, FirstBad, InFile;
    var a := FirstHeader(m, file) + SECTION_HEADER * k;
    forall x | a <= x < a + SECTION_HEADER
      ensures m1[x] == m[x]
    {
      FileKept(m, file, load, size, HeadersEnd(m, file), Sections(m, file), k, x);
    }
    LoadSame(m, m1, a + 12, 4);
    LoadSame(m, m1, a + 16, 4);
    LoadSame(m, m1, a + 20, 4);
  }

  lemma NothingLoaded(m: seq<Byte>, file: nat, load: nat, secs: seq<Section>)
    ensures LoadedUpTo(m, m, file, load, secs, 0)
  {
  }

  // ----- what that means byte by byte -----

  /** The last of the first k sections that covers x. */
  function LastCover(load: nat, secs: seq<Section>, k: nat, x: nat): (i: int)
    requires k <= |secs|
    ensures -1 <= i < k
    ensures i >= 0 ==> load + secs[i].address <= x < load + secs[i].address + secs[i].size
    ensures forall j :: i < j < k ==> !(load + secs[j].address <= x < load + secs[j].address + secs[j].size)
  {
    if k == 0 then -1
    else if load + secs[k - 1].address <= x < load + secs[k - 1].address + secs[k - 1].size then k - 1
    else LastCover(load, secs, k - 1, x)
  }

  /** After loading, the byte at x is the file's byte of the last section that
      covers it, always from inside the file, and unchanged if none does. */
  lemma {:induction false} LoadedByte(m: seq<Byte>, file: nat, load: nat, size: nat, secs: seq<Section>, k: nat, x: nat)
    requires InMemory(m, file, secs, k) && x < |m| && forall i :: 0 <= i < k ==> InFile(secs[i], size)
    ensures var i := LastCover(load, secs, k, x);
      if i < 0 then ByteAfter(m, file, load, secs, k, x) == m[x]
      else
        var offset := secs[i].raw + (x - load - secs[i].address);
        offset < size && ByteAfter(m, file, load, secs, k, x) == m[file + offset]
  {
    if k > 0 {
      LoadedByte(m, file, load, size, secs, k - 1, x);
    }
  }

  /** The byte at x is the file's byte of the last of the first k sections that
      covers it, from inside the file, or what was there before. */
  predicate ImageAt(m: seq<Byte>, b: Byte, file: nat, load: nat, size: nat, secs: seq<Section>, k: nat, x: nat)
    requires k <= |secs| && x < |m| && file + size <= |m|
  {
    var i := LastCover(load, secs, k, x);
    if i < 0 then b == m[x]
    else
      var offset := secs[i].raw + (x - load - secs[i].address);
      offset < size && b == m[file + offset]
  }

  ghost predicate IsImage(m: seq<Byte>, m': seq<Byte>, file: nat, load: nat, size: nat, secs: seq<Section>, k: nat)
    requires k <= |secs| && file + size <= |m|
  {
    |m'| == |m| && forall x :: 0 <= x < |m| ==> ImageAt(m, m'[x], file, load, size, secs, k, x)
  }

  /** Copying the first k sections, all inside the file, leaves their image. */
  lemma LoadedImage(m: seq<Byte>, m': seq<Byte>, file: nat, load: nat, size: nat, secs: seq<Section>, k: nat)
    requires LoadedUpTo(m, m', file, load, secs, k) && file + size <= |m| && forall i :: 0 <= i < k ==>
      InFile(secs[i], size)
    ensures IsImage(m, m', file, load, size, secs, k)
  {
    hide ByteAfter, LastCover, InFile;
    forall x | 0 <= x < |m|
      ensures ImageAt(m, m'[x], file, load, size, secs, k, x)
    {
      LoadedByte(m, file, load, size, secs, k, x);
    }
  }

  /** parse_pe: on success every byte of memory is that of the last section in
      table order covering it, or unchanged, and the result is the load address
      plus the entry point; a section outside the file ends the copying. */
  method ParsePe(mem: array<Byte>, file: nat, load: nat, size: nat) returns (entry: nat)
    requires Placed(mem[..], file, load, size)
    modifies mem
    ensures var m := old(mem[..]);
      if !SignaturesOk(m, file) then entry == 0 && mem[..] == m
      else
        var secs := Sections(m, file);
        var k := FirstBad(secs, size, 0);
        && IsImage(m, mem[..], file, load, size, secs, k)
        && entry == if k == |secs| then Entry(m, file, load) else 0
  {
    hide Load, ByteAfter, DestinationOk, LoadedUpTo, IsImage;
    ghost var m := mem[..];
    if Load(mem[..], file, 2) != IMAGE_DOS_SIGNATURE {
      return 0;
    }
    var nt := NtAt(mem[..], file);
    if Load(mem[..], nt, 4) != IMAGE_NT_SIGNATURE {
      return 0;
    }
    entry := Entry(mem[..], file, load);
    var header := FirstHeader(mem[..], file);
    var n := SectionCount(mem[..], file);
    ghost var secs := Sections(m, file);
    NothingLoaded(m, file, load, secs);
    var i := 0;
    while i < n
      invariant 0 <= i <= n && mem.Length == |m| && FirstBad(secs, size, i) == FirstBad(secs, size, 0)
      invariant LoadedUpTo(m, mem[..], file, load, secs, i)
    {
      ghost var m1 := mem[..];
      HeaderKept(m, m1, file, load, size, i);
      GoodDestination(m, file, load, size, i);
      var ok := LoadSection(mem, SectionAt(mem[..], header + SECTION_HEADER * i), file, load, size);
      if !ok {
        LoadedImage(m, m1, file, load, size, secs, i);
        return 0;
      }
      OneMoreSection(m, m1, mem[..], file, load, size, HeadersEnd(m, file), secs, i);
      i := i + 1;
    }
    LoadedImage(m, mem[..], file, load, size, secs, n);
  }

  lemma GoodDestination(m: seq<Byte>, file: nat, load: nat, size: nat, i: nat)
    requires HeadersIn(m, file) && DestinationsOk(m, file, load, size) && i < SectionCount(m, file)
    requires i <= FirstBad(Sections(m, file), size, 0)
    ensures var s := Sections(m, file)[i];
      && s.address < 0x1_0000_0000 && s.size < 0x1_0000_0000 && s.raw < 0x1_0000_0000
      && (InFile(s, size) ==> DestinationOk(|m|, file, load, size, 0, s))
    ensures forall j :: 0 <= j < i ==> DestinationOk(|m|, file, load, size, HeadersEnd(m, file), Sections(m, file)[j])
  {
    hide Load;
    var secs := Sections(m, file);
    assert secs[i] == SectionAt(m, FirstHeader(m, file) + SECTION_HEADER * i);
  }
}
