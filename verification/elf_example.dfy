/** Smallest images that the pass relocates: what its laws ask for can be met, and a 32-bit site can
    miss its value. */
module ElfExample {
  import opened InfraTypes
  import opened ElfBytes
  import opened ElfReloc
  import opened ElfPass
  import opened ElfFile

  /** Two section headers, an empty symbol table and one relocation section, whose single entry
      has type t and its target in the last eight bytes. */
  function ByteAt(t: Byte, k: nat): Byte {
    match k
    case 0 => 0x7f
    case 1 => 0x45
    case 2 => 0x4c
    case 3 => 0x46
    case 40 => 64    // e_shoff
    case 60 => 2     // e_shnum
    case 68 => 2     // section 0: SHT_SYMTAB
    case 132 => 4    // section 1: SHT_RELA
    case 152 => 192  // its offset
    case 160 => 24   // its size
    case 192 => 216  // r_offset
    case 200 => t    // r_info: no symbol
    case _ => 0
  }

  function Small(t: Byte): (img: Image)
    ensures |img| == 224 && forall k :: 0 <= k < 224 ==> img[k] == ByteAt(t, k)
  {
    seq(224, k requires 0 <= k < 224 => ByteAt(t, k))
  }

  lemma {:induction false} LowByte(s: seq<Byte>)
    requires s != [] && forall k :: 1 <= k < |s| ==> s[k] == 0
    ensures Decode(s) == s[0]
  {
    if |s| > 1 {
      LowByte(s[1..]);
    } else {
      assert s[1..] == [];
    }
  }

  lemma ReadSmall(t: Byte, off: nat, n: nat)
    requires 0 < n && off + n <= 224 && forall k :: off < k < off + n ==> ByteAt(t, k) == 0
    ensures Read(Small(t), off, n) == ByteAt(t, off)
  {
    LowByte(Small(t)[off..off + n]);
  }

  lemma FileHeader(t: Byte)
    ensures HasMagic(Small(t)) && HeadersIn(Small(t)) && SectionCount(Small(t)) == 2 && SectionOffset(Small(t)) == 64
  {
    ReadSmall(t, 40, 8);
    ReadSmall(t, 60, 2);
  }

  lemma SectionIs(img: Image, i: nat, at: nat)
    requires HeadersIn(img) && i < SectionCount(img) && at == SectionOffset(img) + 64 * i
    ensures at + 64 <= |img|
    ensures SectionAt(img, i) == Section(Read(img, at + 4, 4), Read(img, at + 24, 8), Read(img, at + 32, 8))
  {}

  lemma EmptySymtab(t: Byte)
    ensures Read(Small(t), 88, 8) == 0 && Read(Small(t), 96, 8) == 0
  {
    ReadSmall(t, 88, 8);
    ReadSmall(t, 96, 8);
  }

  lemma FirstSection(t: Byte)
    requires HeadersIn(Small(t)) && SectionCount(Small(t)) == 2 && SectionOffset(Small(t)) == 64
    ensures SectionAt(Small(t), 0) == Section(2, 0, 0)
  {
    ReadSmall(t, 68, 4);
    EmptySymtab(t);
    SectionIs(Small(t), 0, 64);
  }

  lemma SecondSection(t: Byte)
    requires HeadersIn(Small(t)) && SectionCount(Small(t)) == 2 && SectionOffset(Small(t)) == 64
    ensures SectionAt(Small(t), 1) == Section(4, 192, 24)
  {
    ReadSmall(t, 132, 4);
    ReadSmall(t, 152, 8);
    ReadSmall(t, 160, 8);
    SectionIs(Small(t), 1, 128);
  }

  /** Two sections: the symbol table st, and the relocation section rs with one entry. */
  ghost predicate TwoSections(img: Image, st: Section, rs: Section) {
    && HeadersIn(img) && SectionCount(img) == 2 && SectionAt(img, 0) == st && SectionAt(img, 1) == rs
    && st.kind == SHT_SYMTAB && rs.kind == SHT_RELA && Entries(rs) == 1
    && st.offset + 24 * Entries(st) <= |img| && rs.offset + 24 <= |img|
  }

  lemma Tables(img: Image, st: Section, rs: Section)
    requires TwoSections(img, st, rs)
    ensures TablesIn(img) && Symtab(img) == Some(st)
  {
    assert SymtabFrom(img, 0) == Some(0);
    forall i | 0 <= i < SectionCount(img) && SectionAt(img, i).kind == SHT_RELA
      ensures SectionAt(img, i).offset + 24 * Entries(SectionAt(img, i)) <= |img|
    {
      assert i == 0 || i == 1;
    }
  }

  lemma TheEntry(t: Byte)
    ensures RelaAt(Small(t), Section(4, 192, 24), 0) == Rela(216, t, 0)
  {
    ReadSmall(t, 192, 8);
    ReadSmall(t, 200, 8);
    ReadSmall(t, 208, 8);
  }

  /** The store of a RELATIVE entry, and of a PC32 entry for the undefined symbol. */
  function Store(t: Byte, base: nat): Patch
    requires t == R_RELATIVE || t == R_PC32
  {
    if t == R_RELATIVE then Patch(216, 8, base % W64) else Patch(216, 4, (-((base + 216) % W64)) % W32)
  }

  lemma EntryStore(t: Byte, base: nat)
    requires t == R_RELATIVE || t == R_PC32
    ensures EntryStores(Small(t), base, Section(2, 0, 0), Section(4, 192, 24), 0) == [Store(t, base)]
  {
    TheEntry(t);
    assert Stores(base, Rela(216, t, 0), 0) == [Store(t, base)];
  }

  lemma Words(img: Image, base: nat, st: Section, rs: Section, p: Patch)
    requires TwoSections(img, st, rs) && EntryStores(img, base, st, rs, 0) == [p]
    ensures TablesIn(img) && Symtab(img) == Some(st) && AllStores(img, base) == [p]
  {
    Tables(img, st, rs);
    var words := EntryWords(img, base, st, rs);
    assert words == [[p]];
    FlattenOne([p]);
    var sections := SectionWords(img, base);
    assert sections[0] == [] && sections[1] == [p];
    assert sections == [[], [p]];
    FlattenTwo([p]);
  }

  lemma FlattenOne(ps: seq<Patch>)
    ensures Flatten([ps]) == ps
  {
    assert [ps][..0] == [];
  }

  lemma FlattenTwo(ps: seq<Patch>)
    ensures Flatten([[], ps]) == ps
  {
    assert [[], ps][..1] == [[]];
    FlattenOne([]);
  }

  /** The site of p lies behind both headers and both tables. */
  ghost predicate Behind(img: Image, st: Section, rs: Section, p: Patch) {
    && ValidPatch(p, |img|) && 64 <= p.offset && HeadersIn(img) && SectionOffset(img) + 128 <= p.offset
    && st.offset + 24 * Entries(st) <= p.offset && rs.offset + 24 <= p.offset
  }

  lemma Safe(img: Image, base: nat, st: Section, rs: Section, p: Patch)
    requires TwoSections(img, st, rs) && TablesIn(img) && Symtab(img) == Some(st) && AllStores(img, base) == [p]
    requires Behind(img, st, rs, p)
    ensures TargetsSafe(img, base)
  {
    forall k | TableByte(img, k)
      ensures !Touched([p], k)
    {
      if i: nat :| i < 2 && InRela(img, i, k) {
        assert i == 0 || i == 1;
      }
    }
  }

  lemma Holds(img: Image, base: nat, st: Section, rs: Section, p: Patch)
    requires TwoSections(img, st, rs) && EntryStores(img, base, st, rs, 0) == [p] && Behind(img, st, rs, p)
    ensures TablesIn(img) && Symtab(img) == Some(st) && TargetsSafe(img, base) && Compatible(AllStores(img, base))
    ensures Read(Relocated(img, base), p.offset, p.width) == p.value
  {
    Words(img, base, st, rs, p);
    Safe(img, base, st, rs, p);
    assert p in AllStores(img, base);
    SiteHolds(img, AllStores(img, base), p);
  }

  lemma StoreValid(t: Byte, base: nat)
    requires t == R_RELATIVE || t == R_PC32
    ensures ValidPatch(Store(t, base), 224)
  {
    ElfBytes.Words();
  }

  /** The pass accepts the image, its laws apply to it, and its site ends up with the word of its entry. */
  lemma Accepted(t: Byte, base: nat)
    requires t == R_RELATIVE || t == R_PC32
    ensures HasMagic(Small(t)) && Loadable(Small(t), base) && Symtab(Small(t)).Some?
    ensures Compatible(AllStores(Small(t), base))
    ensures var p := Store(t, base); Read(Relocated(Small(t), base), 216, p.width) == p.value
  {
    FileHeader(t);
    FirstSection(t);
    SecondSection(t);
    EntryStore(t, base);
    StoreValid(t, base);
    Holds(Small(t), base, Section(2, 0, 0), Section(4, 192, 24), Store(t, base));
  }

  /** A RELATIVE site stores the base. */
  lemma Relocates(base: nat)
    ensures HasMagic(Small(R_RELATIVE)) && Loadable(Small(R_RELATIVE), base) && Symtab(Small(R_RELATIVE)).Some?
    ensures Compatible(AllStores(Small(R_RELATIVE), base))
    ensures Read(Relocated(Small(R_RELATIVE), base), 216, 8) == base % W64
  {
    Accepted(R_RELATIVE, base);
  }

  /** The word that a PC32 site at p holds, taken as a displacement, leads to the address 0. */
  predicate ReachesNull(w: nat, p: nat) { (Signed32(w) + p) % W64 == 0 }

  function LowWord(v: int): nat { v % W32 }

  lemma NullReached(p: nat)
    requires 0 < p < W64
    ensures ReachesNull(LowWord(0 - p), p) <==> p <= 0x8000_0000 || W64 - 0x8000_0000 < p
  {
    Pc32Reaches(0, 0, p);
    var q: int := p;
    assert (0 - q) % W64 == W64 - q;
  }

  lemma Displacement(base: nat)
    requires base + 224 <= W64
    ensures Store(R_PC32, base) == Patch(216, 4, LowWord(0 - (base + 216)))
  {
    assert (base + 216) % W64 == base + 216;
  }

  lemma UndefinedWord(base: nat)
    requires base + 224 <= W64
    ensures HasMagic(Small(R_PC32)) && Loadable(Small(R_PC32), base) && Symtab(Small(R_PC32)).Some?
    ensures Read(Relocated(Small(R_PC32), base), 216, 4) == LowWord(0 - (base + 216))
  {
    Displacement(base);
    Accepted(R_PC32, base);
  }

  /** A PC32 site of the undefined symbol, whose value is 0, reaches 0 exactly when it lies in the low
      or the high two gigabytes. */
  lemma UndefinedReaches(base: nat)
    requires base + 224 <= W64
    ensures HasMagic(Small(R_PC32)) && Loadable(Small(R_PC32), base) && Symtab(Small(R_PC32)).Some?
    ensures ReachesNull(Read(Relocated(Small(R_PC32), base), 216, 4), base + 216)
       <==> base + 216 <= 0x8000_0000 || W64 - 0x8000_0000 < base + 216
  {
    UndefinedWord(base);
    NullReached(base + 216);
  }

  /** Loaded at 2^32, it misses. */
  lemma OverflowMisses()
    ensures HasMagic(Small(R_PC32)) && Loadable(Small(R_PC32), W32) && Symtab(Small(R_PC32)).Some?
    ensures !ReachesNull(Read(Relocated(Small(R_PC32), W32), 216, 4), W32 + 216)
  {
    UndefinedReaches(W32);
  }

  // ------------------------------------------------------------ an image with a symbol

  function Zeros(n: nat): seq<Byte> { seq(n, _ => 0) }

  const HEADER := Ehdr(Zeros(12), 1, 62, 1, 0, 0, 64, 0, 64, 0, 0, 64, 2, 0)
  const SYMTAB := Shdr(0, 2, 0, 0, 192, 48, 0, 0, 8, 24)
  const RELA := Shdr(0, 4, 0, 0, 240, 24, 0, 0, 8, 24)
  const NO_SYMBOL := Sym(0, 0, 0, 0, 0, 0)
  const SYMBOL := Sym(1, 18, 0, 1, 0x401000, 32)
  const ENTRY := Entry(264, 1, 1, 0)

  /** A symbol table with one symbol of value 0x401000 and size 32, and a 64 entry for it at the end. */
  function WithSymbol(): (img: Image)
    ensures |img| == 272
  {
    EhdrBytes(HEADER) + ShdrBytes(SYMTAB) + ShdrBytes(RELA) + SymBytes(NO_SYMBOL) + SymBytes(SYMBOL)
    + EntryBytes(ENTRY) + Zeros(8)
  }

  lemma Slices(a: Image, b: Image, c: Image, d: Image, e: Image, f: Image, g: Image)
    requires |a| == |b| == |c| == 64 && |d| == |e| == |f| == 24
    ensures var img := a + b + c + d + e + f + g;
      img[0..64] == a && img[64..128] == b && img[128..192] == c && img[216..240] == e && img[240..264] == f
  {
  }

  lemma Parts()
    ensures var img := WithSymbol();
      && Shows(img, 0, EhdrBytes(HEADER)) && Shows(img, 64, ShdrBytes(SYMTAB)) && Shows(img, 128, ShdrBytes(RELA))
      && Shows(img, 216, SymBytes(SYMBOL)) && Shows(img, 240, EntryBytes(ENTRY))
  {
    Slices(EhdrBytes(HEADER), ShdrBytes(SYMTAB), ShdrBytes(RELA), SymBytes(NO_SYMBOL), SymBytes(SYMBOL),
           EntryBytes(ENTRY), Zeros(8));
  }

  const FILE := File(HEADER, [SYMTAB, RELA])

  lemma Described()
    ensures Describes(WithSymbol(), FILE) && SymtabIs(FILE, 0)
    ensures EntryIs(WithSymbol(), FILE, 0, 1, 0, ENTRY, SYMBOL)
  {
    Parts();
    assert SectionShown(WithSymbol(), FILE, 0) && SectionShown(WithSymbol(), FILE, 1);
  }

  const ST := Section(2, 192, 48)
  const RS := Section(4, 240, 24)

  lemma SymbolTables()
    ensures var img := WithSymbol();
      HasMagic(img) && TwoSections(img, ST, RS) && SectionOffset(img) == 64 && TablesIn(img) && Symtab(img) == Some(ST)
  {
    Described();
    Headers(WithSymbol(), FILE);
    ElfFile.SectionIs(WithSymbol(), FILE, 0);
    ElfFile.SectionIs(WithSymbol(), FILE, 1);
    Tables(WithSymbol(), ST, RS);
  }

  function SymbolStore(base: nat): Patch { Patch(264, 8, (base + 0x401000) % W64) }

  lemma AskedWord(base: nat, r: Entry, s: nat)
    requires r.kind == 1 && r.addend == 0 && s < W64
    ensures Asks(r.kind, s) && Patch(r.offset, Wide(r.kind), Word(r, base, s)) == Patch(r.offset, 8, s)
  {
  }

  lemma SymbolStores(base: nat)
    requires var img := WithSymbol(); TwoSections(img, ST, RS) && TablesIn(img) && Symtab(img) == Some(ST)
    ensures EntryStores(WithSymbol(), base, ST, RS, 0) == [SymbolStore(base)]
  {
    Described();
    var img, r, y := WithSymbol(), ENTRY, SYMBOL;
    var s := Value(base, FILE, 0, r, y);
    assert s == (base + 0x401000) % W64;
    EntryStoresAsked(img, base, FILE, 0, 1, 0, r, y);
    AskedWord(base, r, s);
  }

  /** Its site ends up with the base plus the value of the symbol. */
  lemma SymbolRelocates(base: nat)
    ensures HasMagic(WithSymbol()) && Loadable(WithSymbol(), base) && Symtab(WithSymbol()).Some?
    ensures Read(Relocated(WithSymbol(), base), 264, 8) == (base + 0x401000) % W64
  {
    SymbolTables();
    SymbolStores(base);
    ElfBytes.Words();
    Holds(WithSymbol(), base, ST, RS, SymbolStore(base));
  }
}
