/** The relocation pass over a loaded 64-bit ELF image (process_relocs). */
module ElfReloc {
  import opened InfraTypes
  import opened ElfBytes

  const W32 := 0x1_0000_0000

  const SHT_SYMTAB := 2
  const SHT_RELA := 4

  const R_64 := 1
  const R_PC32 := 2
  const R_PLT32 := 4
  const R_RELATIVE := 8
  const R_GOTPCREL := 9
  const R_32 := 10
  const R_32S := 11
  const R_GOTPCRELX := 41
  const R_REX_GOTPCRELX := 42

  datatype Section = Section(kind: nat, offset: nat, size: nat)

  datatype Rela = Rela(offset: nat, info: nat, addend: nat)

  // ------------------------------------------------------------ the tables in the image

  predicate HasMagic(img: Image) {
    |img| >= 4 && img[0] == 0x7f && img[1] == 0x45 && img[2] == 0x4c && img[3] == 0x46
  }

  function SectionOffset(img: Image): nat requires |img| >= 64 { Read(img, 40, 8) }

  function SectionCount(img: Image): nat requires |img| >= 64 { Read(img, 60, 2) }

  /** The file header and the section headers lie in the image. */
  predicate HeadersIn(img: Image) {
    |img| >= 64 && SectionOffset(img) + 64 * SectionCount(img) <= |img|
  }

  function SectionAt(img: Image, i: nat): Section
    requires HeadersIn(img) && i < SectionCount(img)
  {
    var at := SectionOffset(img) + 64 * i;
    Section(Read(img, at + 4, 4), Read(img, at + 24, 8), Read(img, at + 32, 8))
  }

  /** The first symbol table at or after section i. */
  function SymtabFrom(img: Image, i: nat): Option<nat>
    requires HeadersIn(img) && i <= SectionCount(img)
    decreases SectionCount(img) - i
  {
    if i == SectionCount(img) then None
    else if SectionAt(img, i).kind == SHT_SYMTAB then Some(i)
    else SymtabFrom(img, i + 1)
  }

  /** The symbol table, when a section for its strings follows it. */
  function Symtab(img: Image): (r: Option<Section>)
    requires HeadersIn(img)
  {
    match SymtabFrom(img, 0)
    case None => None
    case Some(i) => if i < SectionCount(img) && i + 1 < SectionCount(img) then Some(SectionAt(img, i)) else None
  }

  function Entries(s: Section): nat { s.size / 24 }

  /** The symbol table and every relocation section lie in the image. */
  predicate TablesIn(img: Image) {
    && HeadersIn(img)
    && (Symtab(img).Some? ==>
          var st := Symtab(img).value;
          st.offset + 24 * Entries(st) <= |img|
          && forall i :: 0 <= i < SectionCount(img) && SectionAt(img, i).kind == SHT_RELA ==>
               SectionAt(img, i).offset + 24 * Entries(SectionAt(img, i)) <= |img|)
  }

  function RelaAt(img: Image, s: Section, j: nat): Rela
    requires s.offset + 24 * Entries(s) <= |img| && j < Entries(s)
  {
    var at := s.offset + 24 * j;
    Rela(Read(img, at, 8), Read(img, at + 8, 8), Read(img, at + 16, 8))
  }

  /** ELF64_R_SYM and ELF64_R_TYPE */
  function SymbolIndex(info: nat): nat { info / W32 % W32 }

  function TypeOf(info: nat): nat { info % W32 }

  /** The address of a defined symbol; 0 for the null symbol, an index out of range, or SHN_UNDEF. */
  function SymbolValue(img: Image, base: nat, st: Section, index: nat): nat
    requires st.offset + 24 * Entries(st) <= |img|
  {
    if 0 < index < Entries(st) then
      var at := st.offset + 24 * index;
      if Read(img, at + 6, 2) != 0 then (base + Read(img, at + 8, 8)) % W64 else 0
    else 0
  }

  // ------------------------------------------------------------ one entry

  /** What one entry stores: nothing, or a word at its target. */
  function Stores(base: nat, r: Rela, s: nat): seq<Patch> {
    var t := TypeOf(r.info);
    var place := (base + r.offset) % W64;
    if t == R_64 then [Patch(r.offset, 8, (s + r.addend) % W64)]
    else if t == R_PC32 || t == R_PLT32 then [Patch(r.offset, 4, (s + r.addend - place) % W32)]
    else if t == R_32 || t == R_32S then [Patch(r.offset, 4, (s + r.addend) % W32)]
    else if t == R_RELATIVE then [Patch(r.offset, 8, (base + r.addend) % W64)]
    else if (t == R_GOTPCREL || t == R_GOTPCRELX || t == R_REX_GOTPCRELX) && s != 0 then
      [Patch(r.offset, 4, (s + r.addend - place) % W32)]
    else []
  }

  function EntryStores(img: Image, base: nat, st: Section, s: Section, j: nat): seq<Patch>
    requires st.offset + 24 * Entries(st) <= |img|
    requires s.offset + 24 * Entries(s) <= |img| && j < Entries(s)
  {
    var r := RelaAt(img, s, j);
    Stores(base, r, SymbolValue(img, base, st, SymbolIndex(r.info)))
  }

  /** The words of the entries of a section, in order. */
  function EntryWords(img: Image, base: nat, st: Section, s: Section): seq<seq<Patch>>
    requires st.offset + 24 * Entries(st) <= |img|
    requires s.offset + 24 * Entries(s) <= |img|
  {
    seq(Entries(s), j requires 0 <= j < Entries(s) => EntryStores(img, base, st, s, j))
  }

  /** The words of section i: none unless it is a relocation section. */
  function SectionStores(img: Image, base: nat, i: nat): seq<Patch>
    requires TablesIn(img) && Symtab(img).Some? && i < SectionCount(img)
  {
    var s := SectionAt(img, i);
    if s.kind == SHT_RELA then Flatten(EntryWords(img, base, Symtab(img).value, s)) else []
  }

  /** The words of the sections, in order. */
  function SectionWords(img: Image, base: nat): seq<seq<Patch>>
    requires TablesIn(img) && Symtab(img).Some?
  {
    seq(SectionCount(img), i requires 0 <= i < SectionCount(img) => SectionStores(img, base, i))
  }

  function AllStores(img: Image, base: nat): seq<Patch>
    requires TablesIn(img) && Symtab(img).Some?
  {
    Flatten(SectionWords(img, base))
  }

  // ------------------------------------------------------------ targets avoid the tables

  /** The byte at k belongs to a header or table that the pass reads. */
  ghost predicate TableByte(img: Image, k: int)
    requires TablesIn(img) && Symtab(img).Some?
  {
    || 0 <= k < 64
    || SectionOffset(img) <= k < SectionOffset(img) + 64 * SectionCount(img)
    || Symtab(img).value.offset <= k < Symtab(img).value.offset + 24 * Entries(Symtab(img).value)
    || exists i :: 0 <= i < SectionCount(img) && InRela(img, i, k)
  }

  ghost predicate InRela(img: Image, i: nat, k: int)
    requires HeadersIn(img) && i < SectionCount(img)
  {
    var s := SectionAt(img, i);
    s.kind == SHT_RELA && s.offset <= k < s.offset + 24 * Entries(s)
  }

  /** Every target lies in the image and outside the tables. */
  ghost predicate TargetsSafe(img: Image, base: nat)
    requires TablesIn(img) && Symtab(img).Some?
  {
    && ValidPatches(AllStores(img, base), |img|)
    && forall k :: TableByte(img, k) ==> !Touched(AllStores(img, base), k)
  }

  /** b has the tables of a. */
  ghost predicate SameTables(a: Image, b: Image)
    requires TablesIn(a) && Symtab(a).Some?
  {
    |a| == |b| && forall k :: 0 <= k < |a| && TableByte(a, k) ==> a[k] == b[k]
  }

  /** What the pass makes of an image with a symbol table. */
  function Relocated(img: Image, base: nat): Image
    requires TablesIn(img) && Symtab(img).Some? && ValidPatches(AllStores(img, base), |img|)
  {
    ApplyAll(img, AllStores(img, base))
  }

  // ------------------------------------------------------------ the pass reads only the tables

  lemma SameHeaders(a: Image, b: Image)
    requires TablesIn(a) && Symtab(a).Some? && SameTables(a, b)
    ensures SectionOffset(b) == SectionOffset(a) && SectionCount(b) == SectionCount(a) && HeadersIn(b)
  {
    ReadSame(a, b, 40, 8);
    ReadSame(a, b, 60, 2);
  }

  lemma SameSection(a: Image, b: Image, i: nat)
    requires TablesIn(a) && Symtab(a).Some? && SameTables(a, b) && i < SectionCount(a)
    ensures HeadersIn(b) && i < SectionCount(b) && SectionAt(b, i) == SectionAt(a, i)
  {
    SameHeaders(a, b);
    var at := SectionOffset(a) + 64 * i;
    ReadSame(a, b, at + 4, 4);
    ReadSame(a, b, at + 24, 8);
    ReadSame(a, b, at + 32, 8);
  }

  lemma {:induction false} SameSymtabFrom(a: Image, b: Image, i: nat)
    requires TablesIn(a) && Symtab(a).Some? && SameTables(a, b) && i <= SectionCount(a)
    ensures HeadersIn(b) && i <= SectionCount(b) && SymtabFrom(b, i) == SymtabFrom(a, i)
    decreases SectionCount(a) - i
  {
    SameHeaders(a, b);
    if i < SectionCount(a) {
      SameSection(a, b, i);
      SameSymtabFrom(a, b, i + 1);
    }
  }

  lemma {:induction false} SymtabFromBound(a: Image, i: nat)
    requires HeadersIn(a) && i <= SectionCount(a)
    ensures SymtabFrom(a, i).Some? ==>
              i <= SymtabFrom(a, i).value < SectionCount(a) && SectionAt(a, SymtabFrom(a, i).value).kind == SHT_SYMTAB
    decreases SectionCount(a) - i
  {
    if i < SectionCount(a) {
      SymtabFromBound(a, i + 1);
    }
  }

  lemma SameSymtab(a: Image, b: Image)
    requires TablesIn(a) && Symtab(a).Some? && SameTables(a, b)
    ensures HeadersIn(b) && Symtab(b) == Symtab(a) && TablesIn(b)
  {
    SameHeaders(a, b);
    SameSymtabFrom(a, b, 0);
    SymtabFromBound(a, 0);
    SameSection(a, b, SymtabFrom(a, 0).value);
    forall i | 0 <= i < SectionCount(b) && SectionAt(b, i).kind == SHT_RELA
      ensures SectionAt(b, i).offset + 24 * Entries(SectionAt(b, i)) <= |b|
    {
      SameSection(a, b, i);
    }
  }

  lemma SameRela(a: Image, b: Image, i: nat, j: nat)
    requires TablesIn(a) && Symtab(a).Some? && SameTables(a, b) && i < SectionCount(a)
    requires SectionAt(a, i).kind == SHT_RELA && j < Entries(SectionAt(a, i))
    ensures RelaAt(b, SectionAt(a, i), j) == RelaAt(a, SectionAt(a, i), j)
  {
    var at := SectionAt(a, i).offset + 24 * j;
    SameInRela(a, b, i);
    ReadSame(a, b, at, 8);
    ReadSame(a, b, at + 8, 8);
    ReadSame(a, b, at + 16, 8);
  }

  lemma SameInRela(a: Image, b: Image, i: nat)
    requires TablesIn(a) && Symtab(a).Some? && SameTables(a, b) && i < SectionCount(a)
    requires SectionAt(a, i).kind == SHT_RELA
    ensures var s := SectionAt(a, i);
      |b| == |a| && s.offset + 24 * Entries(s) <= |a|
      && forall k :: s.offset <= k < s.offset + 24 * Entries(s) ==> a[k] == b[k]
  {
    var s := SectionAt(a, i);
    forall k | s.offset <= k < s.offset + 24 * Entries(s)
      ensures a[k] == b[k]
    {
      assert InRela(a, i, k);
      assert TableByte(a, k);
    }
  }

  lemma SameSymbol(a: Image, b: Image, base: nat, index: nat)
    requires TablesIn(a) && Symtab(a).Some? && SameTables(a, b)
    ensures SymbolValue(b, base, Symtab(a).value, index) == SymbolValue(a, base, Symtab(a).value, index)
  {
    var st := Symtab(a).value;
    if 0 < index < Entries(st) {
      var at := st.offset + 24 * index;
      ReadSame(a, b, at + 6, 2);
      ReadSame(a, b, at + 8, 8);
    }
  }

  lemma SameEntry(a: Image, b: Image, base: nat, i: nat, j: nat)
    requires TablesIn(a) && Symtab(a).Some? && SameTables(a, b) && i < SectionCount(a)
    requires SectionAt(a, i).kind == SHT_RELA && j < Entries(SectionAt(a, i))
    ensures EntryStores(b, base, Symtab(a).value, SectionAt(a, i), j)
         == EntryStores(a, base, Symtab(a).value, SectionAt(a, i), j)
  {
    SameRela(a, b, i, j);
    SameSymbol(a, b, base, SymbolIndex(RelaAt(a, SectionAt(a, i), j).info));
  }

  lemma SameSectionStores(a: Image, b: Image, base: nat, i: nat)
    requires TablesIn(a) && Symtab(a).Some? && SameTables(a, b) && i < SectionCount(a)
    requires TablesIn(b) && Symtab(b) == Symtab(a)
    ensures i < SectionCount(b) && SectionStores(b, base, i) == SectionStores(a, base, i)
  {
    SameSection(a, b, i);
    var st, s := Symtab(a).value, SectionAt(a, i);
    if s.kind == SHT_RELA {
      forall j | 0 <= j < Entries(s)
        ensures EntryWords(b, base, st, s)[j] == EntryWords(a, base, st, s)[j]
      {
        SameEntry(a, b, base, i, j);
      }
      assert EntryWords(b, base, st, s) == EntryWords(a, base, st, s);
    }
  }

  lemma SameStores(a: Image, b: Image, base: nat)
    requires TablesIn(a) && Symtab(a).Some? && SameTables(a, b)
    ensures TablesIn(b) && Symtab(b).Some? && AllStores(b, base) == AllStores(a, base)
  {
    SameSymtab(a, b);
    SameHeaders(a, b);
    forall i | 0 <= i < SectionCount(a)
      ensures SectionWords(b, base)[i] == SectionWords(a, base)[i]
    {
      SameSectionStores(a, b, base, i);
    }
    assert SectionWords(b, base) == SectionWords(a, base);
  }

  lemma TablesSurvive(img: Image, base: nat, ps: seq<Patch>)
    requires TablesIn(img) && Symtab(img).Some? && TargetsSafe(img, base)
    requires forall p :: p in ps ==> p in AllStores(img, base)
    ensures ValidPatches(ps, |img|) && SameTables(img, ApplyAll(img, ps))
  {
    forall k | 0 <= k < |img| && TableByte(img, k)
      ensures ApplyAll(img, ps)[k] == img[k]
    {
      assert !Touched(AllStores(img, base), k);
      assert !Touched(ps, k);
      UntouchedBytes(img, ps);
    }
  }

  // ------------------------------------------------------------ laws of the whole pass

  /** A second pass changes nothing. */
  lemma Idempotent(img: Image, base: nat)
    requires TablesIn(img) && Symtab(img).Some? && TargetsSafe(img, base)
    ensures var once := Relocated(img, base);
      && TablesIn(once) && Symtab(once).Some? && AllStores(once, base) == AllStores(img, base)
      && Relocated(once, base) == once
  {
    var ps := AllStores(img, base);
    var once := Relocated(img, base);
    TablesSurvive(img, base, ps);
    SameStores(img, once, base);
    ApplyTwice(img, ps);
  }

  /** Only the bytes of targets change. */
  lemma OnlyTargetsChange(img: Image, base: nat)
    requires TablesIn(img) && Symtab(img).Some? && TargetsSafe(img, base)
    ensures |Relocated(img, base)| == |img|
    ensures forall k :: 0 <= k < |img| && !Touched(AllStores(img, base), k) ==> Relocated(img, base)[k] == img[k]
  {
    UntouchedBytes(img, AllStores(img, base));
  }

  /** When different words never overlap, the entries may be processed in any order of entries
      and sections, and any of them more than once. */
  lemma AnyOrder(img: Image, base: nat, qs: seq<Patch>)
    requires TablesIn(img) && Symtab(img).Some? && TargetsSafe(img, base) && Compatible(AllStores(img, base))
    requires forall p :: p in qs <==> p in AllStores(img, base)
    ensures ValidPatches(qs, |img|) && ApplyAll(img, qs) == Relocated(img, base)
  {
    OrderIrrelevant(img, AllStores(img, base), qs);
  }

  // ------------------------------------------------------------ what the words mean

  /** A 32-bit word read as a signed number. */
  function Signed32(w: nat): int { if w < 0x8000_0000 then w else w - W32 }

  /** A displacement modulo 2^64 that a sign-extended 32-bit word can hold. */
  predicate FitsSigned32(d: int) {
    d % W64 < 0x8000_0000 || W64 - 0x8000_0000 <= d % W64
  }

  lemma Remainder32(d: int, k: int, r: int)
    requires d == W32 * k + r && 0 <= r < W32
    ensures d % W32 == r
  {}

  lemma LowHalf(d: int)
    ensures d % W64 % W32 == d % W32
  {
    var q, m := d / W64, d % W64;
    Remainder32(d, W32 * q + m / W32, m % W32);
  }

  lemma SignExtension(d: int)
    ensures Signed32(d % W32) % W64 == d % W64 <==> FitsSigned32(d)
  {
    LowHalf(d);
    SignedHalf(d % W64);
  }

  lemma SignedHalf(m: nat)
    requires m < W64
    ensures Signed32(m % W32) % W64 == m <==> m < 0x8000_0000 || W64 - 0x8000_0000 <= m
  {
    var h, l := m / W32, m % W32;
    assert m == W32 * h + l;
    if l < 0x8000_0000 {
      assert Signed32(l) % W64 == l;
    } else {
      assert Signed32(l) % W64 == l - W32 + W64;
    }
  }

  /** The stored word plus the place gives symbol plus addend exactly when the displacement fits:
      the code stores the low half without a check. */
  lemma Pc32Reaches(s: nat, addend: nat, place: nat)
    ensures (Signed32((s + addend - place) % W32) + place) % W64 == (s + addend) % W64
            <==> FitsSigned32(s + addend - place)
  {
    var d := s + addend - place;
    SignExtension(d);
    ShiftMod(Signed32(d % W32), d, place);
  }

  lemma ShiftMod(x: int, y: int, z: int)
    ensures (x + z) % W64 == (y + z) % W64 <==> x % W64 == y % W64
  {
    var k := x / W64 - y / W64;
    assert x - y == k * W64 + (x % W64 - y % W64);
  }

  // ------------------------------------------------------------ loading at another base

  /** The symbol exists and has a section. */
  predicate Defined(img: Image, st: Section, index: nat)
    requires st.offset + 24 * Entries(st) <= |img|
  {
    0 < index < Entries(st) && Read(img, st.offset + 24 * index + 6, 2) != 0
  }

  /** Defined symbols move with the base; all others stay at 0. */
  lemma SymbolMoves(img: Image, base: nat, d: nat, st: Section, index: nat)
    requires st.offset + 24 * Entries(st) <= |img|
    ensures SymbolValue(img, base + d, st, index)
         == if Defined(img, st, index) then (SymbolValue(img, base, st, index) + d) % W64 else 0
    ensures !Defined(img, st, index) ==> SymbolValue(img, base, st, index) == 0
  {
    if Defined(img, st, index) {
      var v := Read(img, st.offset + 24 * index + 8, 8);
      Reduced(base + v, d);
    }
  }

  lemma Reduced(x: int, d: int)
    ensures (x % W64 + d) % W64 == (x + d) % W64
  {
    ShiftMod(x % W64, x, d);
  }

  lemma SameLowHalf(x: int, y: int)
    requires x % W64 == y % W64
    ensures x % W32 == y % W32
  {
    LowHalf(x);
    LowHalf(y);
  }

  /** Of a defined symbol: absolute words move with the base, and relative ones stay as they are. */
  lemma StoresMove(base: nat, d: nat, r: Rela, s: nat)
    ensures var t, before, after := TypeOf(r.info), Stores(base, r, s), Stores(base + d, r, (s + d) % W64);
      && (t == R_64 || t == R_RELATIVE ==> after == [Patch(r.offset, 8, (before[0].value + d) % W64)])
      && (t == R_32 || t == R_32S ==> after == [Patch(r.offset, 4, (before[0].value + d) % W32)])
      && (t == R_PC32 || t == R_PLT32 ==> after == before)
  {
    AbsoluteMoves(s, r.addend, d);
    Reduced(base + r.addend, d);
    RelativeStays(s, r.addend, base + r.offset, d);
  }

  lemma AbsoluteMoves(s: int, a: int, d: int)
    ensures ((s + d) % W64 + a) % W64 == ((s + a) % W64 + d) % W64
    ensures ((s + d) % W64 + a) % W32 == ((s + a) % W32 + d) % W32
  {
    Reduced(s + d, a);
    Reduced(s + a, d);
    SameLowHalf((s + d) % W64 + a, s + d + a);
    Low32(s + a, d);
  }

  lemma RelativeStays(s: int, a: int, p: int, d: int)
    ensures ((s + d) % W64 + a - (p + d) % W64) % W32 == (s + a - p % W64) % W32
  {
    var k, m, n := (s + d) / W64, (p + d) / W64, p / W64;
    assert (s + d) % W64 + a - (p + d) % W64 == (s + a - p % W64) + W64 * (m - k - n);
    ShiftWords(s + a - p % W64, m - k - n);
    SameLowHalf((s + a - p % W64) + W64 * (m - k - n), s + a - p % W64);
  }

  lemma Low32(x: int, d: int)
    ensures (x % W32 + d) % W32 == (x + d) % W32
  {
    var k := x / W32;
    Remainder32(x + d, k + (x % W32 + d) / W32, (x % W32 + d) % W32);
  }
}
