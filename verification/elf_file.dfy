/** The pass in terms of the structures of an ELF file, field by field as elf.h lays them out. */
module ElfFile {
  import opened InfraTypes
  import opened ElfBytes
  import opened ElfReloc
  import opened ElfPass
  import opened ElfSites

  /** Elf64_Ehdr; ident is what follows the magic number. */
  datatype Ehdr = Ehdr(
    ident: seq<Byte>, kind: nat, machine: nat, version: nat, entry: nat, phoff: nat, shoff: nat, flags: nat,
    ehsize: nat, phentsize: nat, phnum: nat, shentsize: nat, shnum: nat, shstrndx: nat)

  /** Elf64_Shdr */
  datatype Shdr = Shdr(
    name: nat, kind: nat, flags: nat, addr: nat, offset: nat, size: nat, link: nat, info: nat, align: nat, entsize: nat)

  /** Elf64_Sym */
  datatype Sym = Sym(name: nat, info: Byte, other: Byte, shndx: nat, value: nat, size: nat)

  /** Elf64_Rela, with the two halves of r_info */
  datatype Entry = Entry(offset: nat, sym: nat, kind: nat, addend: nat)

  function EhdrBytes(h: Ehdr): seq<Byte> {
    [0x7f, 0x45, 0x4c, 0x46] + h.ident + Encode(h.kind, 2) + Encode(h.machine, 2) + Encode(h.version, 4)
    + Encode(h.entry, 8) + Encode(h.phoff, 8) + Encode(h.shoff, 8) + Encode(h.flags, 4) + Encode(h.ehsize, 2)
    + Encode(h.phentsize, 2) + Encode(h.phnum, 2) + Encode(h.shentsize, 2) + Encode(h.shnum, 2) + Encode(h.shstrndx, 2)
  }

  function ShdrBytes(h: Shdr): seq<Byte> {
    Encode(h.name, 4) + Encode(h.kind, 4) + Encode(h.flags, 8) + Encode(h.addr, 8) + Encode(h.offset, 8)
    + Encode(h.size, 8) + Encode(h.link, 4) + Encode(h.info, 4) + Encode(h.align, 8) + Encode(h.entsize, 8)
  }

  function SymBytes(y: Sym): seq<Byte> {
    Encode(y.name, 4) + [y.info, y.other] + Encode(y.shndx, 2) + Encode(y.value, 8) + Encode(y.size, 8)
  }

  function EntryBytes(r: Entry): seq<Byte> {
    Encode(r.offset, 8) + Encode(Info(r), 8) + Encode(r.addend, 8)
  }

  function Info(r: Entry): nat { r.sym * 0x1_0000_0000 + r.kind }

  function AsRela(r: Entry): Rela { Rela(r.offset, Info(r), r.addend) }

  /** The fields that the pass reads fit their widths. */
  predicate EhdrFits(h: Ehdr) { |h.ident| == 12 && h.shoff < W64 && h.shnum < 0x1_0000 }

  predicate ShdrFits(h: Shdr) { h.kind < W32 && h.offset < W64 && h.size < W64 }

  predicate SymFits(y: Sym) { y.shndx < 0x1_0000 && y.value < W64 }

  predicate EntryFits(r: Entry) { r.offset < W64 && r.sym < W32 && r.kind < W32 && r.addend < W64 }

  /** The image holds these bytes there. */
  predicate Shows(img: Image, at: nat, bytes: seq<Byte>) {
    at + |bytes| <= |img| && img[at..at + |bytes|] == bytes
  }

  /** The magic number is 0x7f and the letters E, L and F. */
  lemma MagicIs(img: Image)
    ensures HasMagic(img) <==> Shows(img, 0, [0x7f, 'E' as int, 'L' as int, 'F' as int])
  {
    if |img| >= 4 {
      assert img[0..4] == [img[0], img[1], img[2], img[3]];
    }
  }

  /** A field with the bytes a before it and b behind it. */
  lemma FieldOf(img: Image, at: nat, a: seq<Byte>, v: nat, n: nat, b: seq<Byte>)
    requires Shows(img, at, a + Encode(v, n) + b) && v < Pow256(n)
    ensures at + |a| + n <= |img| && Read(img, at + |a|, n) == v
  {
    var whole, e := a + Encode(v, n) + b, Encode(v, n);
    assert whole[|a|..|a| + n] == e;
    assert img[at + |a|..at + |a| + n] == img[at..at + |whole|][|a|..|a| + n];
    DecodeEncode(v, n);
  }

  lemma SymFields(img: Image, at: nat, y: Sym)
    requires Shows(img, at, SymBytes(y)) && SymFits(y)
    ensures at + 24 <= |img| && Read(img, at + 6, 2) == y.shndx && Read(img, at + 8, 8) == y.value
  {
    Words();
    var a := Encode(y.name, 4) + [y.info, y.other];
    var b := Encode(y.value, 8) + Encode(y.size, 8);
    assert SymBytes(y) == a + Encode(y.shndx, 2) + b;
    FieldOf(img, at, a, y.shndx, 2, b);
    FieldOf(img, at, a + Encode(y.shndx, 2), y.value, 8, Encode(y.size, 8));
  }

  lemma InfoFits(r: Entry)
    requires EntryFits(r)
    ensures r.offset < Pow256(8) && Info(r) < Pow256(8) && r.addend < Pow256(8)
  {
    Words();
  }

  lemma EntryFields(img: Image, at: nat, r: Entry)
    requires Shows(img, at, EntryBytes(r)) && EntryFits(r)
    ensures at + 24 <= |img| && Read(img, at, 8) == r.offset && Read(img, at + 16, 8) == r.addend
    ensures Read(img, at + 8, 8) == Info(r)
  {
    InfoFits(r);
    var info := Info(r);
    var a, b, c := Encode(r.offset, 8), Encode(info, 8), Encode(r.addend, 8);
    assert EntryBytes(r) == [] + a + (b + c);
    FieldOf(img, at, [], r.offset, 8, b + c);
    FieldOf(img, at, a, info, 8, c);
    assert EntryBytes(r) == (a + b) + c + [];
    FieldOf(img, at, a + b, r.addend, 8, []);
  }

  lemma ShdrFields(img: Image, at: nat, h: Shdr)
    requires Shows(img, at, ShdrBytes(h)) && ShdrFits(h)
    ensures at + 64 <= |img|
    ensures Read(img, at + 4, 4) == h.kind && Read(img, at + 24, 8) == h.offset && Read(img, at + 32, 8) == h.size
  {
    Words();
    var a, mid := Encode(h.name, 4), Encode(h.flags, 8) + Encode(h.addr, 8);
    var tail := Encode(h.link, 4) + Encode(h.info, 4) + Encode(h.align, 8) + Encode(h.entsize, 8);
    var b := mid + Encode(h.offset, 8) + Encode(h.size, 8) + tail;
    assert ShdrBytes(h) == a + Encode(h.kind, 4) + b;
    FieldOf(img, at, a, h.kind, 4, b);
    var c := a + Encode(h.kind, 4) + mid;
    assert ShdrBytes(h) == c + Encode(h.offset, 8) + (Encode(h.size, 8) + tail);
    FieldOf(img, at, c, h.offset, 8, Encode(h.size, 8) + tail);
    assert ShdrBytes(h) == (c + Encode(h.offset, 8)) + Encode(h.size, 8) + tail;
    FieldOf(img, at, c + Encode(h.offset, 8), h.size, 8, tail);
  }

  lemma EhdrFields(img: Image, h: Ehdr)
    requires Shows(img, 0, EhdrBytes(h)) && EhdrFits(h)
    ensures |img| >= 64 && HasMagic(img) && Read(img, 40, 8) == h.shoff && Read(img, 60, 2) == h.shnum
  {
    Words();
    var magic: seq<Byte> := [0x7f, 0x45, 0x4c, 0x46];
    var a := magic + h.ident + Encode(h.kind, 2) + Encode(h.machine, 2) + Encode(h.version, 4)
             + Encode(h.entry, 8) + Encode(h.phoff, 8);
    var mid := Encode(h.flags, 4) + Encode(h.ehsize, 2) + Encode(h.phentsize, 2) + Encode(h.phnum, 2)
               + Encode(h.shentsize, 2);
    var z := Encode(h.shstrndx, 2);
    assert EhdrBytes(h) == a + Encode(h.shoff, 8) + (mid + Encode(h.shnum, 2) + z);
    FieldOf(img, 0, a, h.shoff, 8, mid + Encode(h.shnum, 2) + z);
    var c := a + Encode(h.shoff, 8) + mid;
    assert EhdrBytes(h) == c + Encode(h.shnum, 2) + z;
    FieldOf(img, 0, c, h.shnum, 2, z);
    assert img[..64] == EhdrBytes(h);
    assert forall k :: 0 <= k < 4 ==> img[..64][k] == magic[k];
  }

  // ------------------------------------------------------------ a whole file

  datatype File = File(header: Ehdr, sections: seq<Shdr>)

  /** The image starts with the header of f and holds its section headers. */
  ghost predicate Describes(img: Image, f: File) {
    && Shows(img, 0, EhdrBytes(f.header)) && EhdrFits(f.header) && |f.sections| == f.header.shnum
    && f.header.shoff <= |img|
    && forall i :: 0 <= i < |f.sections| ==> SectionShown(img, f, i)
  }

  ghost predicate SectionShown(img: Image, f: File, i: nat)
    requires i < |f.sections|
  {
    Shows(img, f.header.shoff + 64 * i, ShdrBytes(f.sections[i])) && ShdrFits(f.sections[i])
  }

  /** Section k is the first symbol table, and a section follows it. */
  predicate SymtabIs(f: File, k: nat) {
    k + 1 < |f.sections| && f.sections[k].kind == 2 && forall i :: 0 <= i < k ==> f.sections[i].kind != 2
  }

  lemma Headers(img: Image, f: File)
    requires Describes(img, f)
    ensures HasMagic(img) && HeadersIn(img) && SectionOffset(img) == f.header.shoff && SectionCount(img) == |f.sections|
  {
    EhdrFields(img, f.header);
    if f.sections != [] {
      var i := |f.sections| - 1;
      assert SectionShown(img, f, i);
      ShdrFields(img, f.header.shoff + 64 * i, f.sections[i]);
    }
  }

  lemma SectionIs(img: Image, f: File, i: nat)
    requires Describes(img, f) && i < |f.sections|
    ensures HeadersIn(img) && i < SectionCount(img)
    ensures SectionAt(img, i) == Section(f.sections[i].kind, f.sections[i].offset, f.sections[i].size)
  {
    Headers(img, f);
    assert SectionShown(img, f, i);
    ShdrFields(img, f.header.shoff + 64 * i, f.sections[i]);
  }

  lemma {:induction false} FirstSymtab(img: Image, f: File, i: nat)
    requires Describes(img, f) && HeadersIn(img) && i <= SectionCount(img) == |f.sections|
    ensures match SymtabFrom(img, i)
            case None => forall m :: i <= m < |f.sections| ==> f.sections[m].kind != 2
            case Some(k) =>
              && i <= k < |f.sections| && f.sections[k].kind == 2
              && forall m :: i <= m < k ==> f.sections[m].kind != 2
    decreases SectionCount(img) - i
  {
    if i < SectionCount(img) {
      SectionIs(img, f, i);
      FirstSymtab(img, f, i + 1);
    }
  }

  /** The pass finds the first symbol table of the file, and gives up without one or when it is the last
      section. */
  lemma SymtabFound(img: Image, f: File)
    requires Describes(img, f)
    ensures HasMagic(img) && HeadersIn(img)
    ensures Symtab(img).Some? <==> exists k: nat :: SymtabIs(f, k)
    ensures forall k: nat ::
              SymtabIs(f, k) ==> Symtab(img) == Some(Section(2, f.sections[k].offset, f.sections[k].size))
  {
    Headers(img, f);
    FirstSymtab(img, f, 0);
    if Symtab(img).Some? {
      assert SymtabIs(f, SymtabFrom(img, 0).value);
    }
    forall k: nat | SymtabIs(f, k)
      ensures Symtab(img) == Some(Section(2, f.sections[k].offset, f.sections[k].size))
    {
      SectionIs(img, f, k);
      assert SymtabFrom(img, 0) == Some(k);
    }
  }

  // ------------------------------------------------------------ what an entry asks for

  /** Entry j of section i is r, and y is its symbol if it has one in table k. */
  ghost predicate EntryIs(img: Image, f: File, k: nat, i: nat, j: nat, r: Entry, y: Sym) {
    && k < |f.sections| && i < |f.sections| && f.sections[i].kind == 4 && j < f.sections[i].size / 24
    && Shows(img, f.sections[i].offset + 24 * j, EntryBytes(r)) && EntryFits(r)
    && (0 < r.sym < f.sections[k].size / 24 ==>
          Shows(img, f.sections[k].offset + 24 * r.sym, SymBytes(y)) && SymFits(y))
  }

  /** S: the base plus st_value for a symbol of the table that has a section, whatever its other fields are. */
  function Value(base: nat, f: File, k: nat, r: Entry, y: Sym): nat
    requires k < |f.sections|
  {
    if 0 < r.sym < f.sections[k].size / 24 && y.shndx != 0 then (base + y.value) % W64 else 0
  }

  /** The types that store a word: 64, PC32, PLT32, RELATIVE, 32 and 32S always, the three GOT types for a
      symbol with a value. */
  predicate Asks(kind: nat, s: nat) {
    || kind == 1 || kind == 2 || kind == 4 || kind == 8 || kind == 10 || kind == 11
    || (s != 0 && (kind == 9 || kind == 41 || kind == 42))
  }

  function Wide(kind: nat): nat { if kind == 1 || kind == 8 then 8 else 4 }

  /** S + A, B + A, or S + A - P, cut to the width of the word. */
  function Word(r: Entry, base: nat, s: nat): nat {
    if r.kind == 1 then (s + r.addend) % W64
    else if r.kind == 8 then (base + r.addend) % W64
    else if r.kind == 10 || r.kind == 11 then (s + r.addend) % W32
    else (s + r.addend - (base + r.offset)) % W32
  }

  lemma PlaceWraps(x: int, p: int)
    ensures (x - p % W64) % W32 == (x - p) % W32
  {
    var k := p / W64;
    assert x - p % W64 == (x - p) + W64 * k;
    ShiftWords(x - p, k);
    SameLowHalf((x - p) + W64 * k, x - p);
  }

  lemma InfoHalves(r: Entry)
    requires EntryFits(r)
    ensures SymbolIndex(Info(r)) == r.sym && TypeOf(Info(r)) == r.kind
  {
  }

  /** An entry stores the word that it asks for, and nothing if it asks for none. */
  lemma StoresAsked(base: nat, r: Entry, s: nat)
    requires EntryFits(r)
    ensures Stores(base, AsRela(r), s)
         == if Asks(r.kind, s) then [Patch(r.offset, Wide(r.kind), Word(r, base, s))] else []
  {
    InfoHalves(r);
    PlaceWraps(s + r.addend, base + r.offset);
  }

  lemma EntryRead(img: Image, f: File, k: nat, i: nat, j: nat, r: Entry, y: Sym)
    requires Describes(img, f) && TablesIn(img) && Symtab(img).Some? && EntryIs(img, f, k, i, j, r, y)
    ensures i < SectionCount(img) && SectionAt(img, i).kind == SHT_RELA && j < Entries(SectionAt(img, i))
    ensures RelaAt(img, SectionAt(img, i), j) == AsRela(r)
  {
    SectionIs(img, f, i);
    EntryFields(img, f.sections[i].offset + 24 * j, r);
  }

  lemma ValueRead(img: Image, base: nat, st: Section, index: nat, y: Sym)
    requires st.offset + 24 * Entries(st) <= |img| && 0 < index < Entries(st)
    requires Shows(img, st.offset + 24 * index, SymBytes(y)) && SymFits(y)
    ensures SymbolValue(img, base, st, index) == if y.shndx != 0 then (base + y.value) % W64 else 0
  {
    SymFields(img, st.offset + 24 * index, y);
  }

  lemma SymbolRead(img: Image, base: nat, f: File, k: nat, i: nat, j: nat, r: Entry, y: Sym)
    requires Describes(img, f) && SymtabIs(f, k) && TablesIn(img) && EntryIs(img, f, k, i, j, r, y)
    ensures Symtab(img).Some? && SymbolValue(img, base, Symtab(img).value, r.sym) == Value(base, f, k, r, y)
  {
    SymtabFound(img, f);
    if 0 < r.sym < f.sections[k].size / 24 {
      ValueRead(img, base, Symtab(img).value, r.sym, y);
    }
  }

  lemma StoresOf(img: Image, base: nat, st: Section, s: Section, j: nat, r: Rela, v: nat)
    requires st.offset + 24 * Entries(st) <= |img| && s.offset + 24 * Entries(s) <= |img| && j < Entries(s)
    requires RelaAt(img, s, j) == r && SymbolValue(img, base, st, SymbolIndex(r.info)) == v
    ensures EntryStores(img, base, st, s, j) == Stores(base, r, v)
  {
  }

  lemma EntryStoresAsked(img: Image, base: nat, f: File, k: nat, i: nat, j: nat, r: Entry, y: Sym)
    requires Describes(img, f) && SymtabIs(f, k) && TablesIn(img) && EntryIs(img, f, k, i, j, r, y)
    ensures Symtab(img).Some? && i < SectionCount(img) && SectionAt(img, i).kind == SHT_RELA
    ensures j < Entries(SectionAt(img, i))
    ensures var s := Value(base, f, k, r, y);
      EntryStores(img, base, Symtab(img).value, SectionAt(img, i), j)
      == if Asks(r.kind, s) then [Patch(r.offset, Wide(r.kind), Word(r, base, s))] else []
  {
    SymbolRead(img, base, f, k, i, j, r, y);
    EntryRead(img, f, k, i, j, r, y);
    InfoHalves(r);
    var s := Value(base, f, k, r, y);
    StoresOf(img, base, Symtab(img).value, SectionAt(img, i), j, AsRela(r), s);
    StoresAsked(base, r, s);
  }

  // ------------------------------------------------------------ the image at the end

  /** Every site that no later entry overwrites holds the word that the bytes of its entry and of its
      symbol ask for. */
  lemma SiteEnds(img: Image, base: nat, f: File, k: nat, i: nat, j: nat, r: Entry, y: Sym)
    requires Describes(img, f) && SymtabIs(f, k) && EntryIs(img, f, k, i, j, r, y)
    requires TablesIn(img) && Symtab(img).Some? && TargetsSafe(img, base) && Unopposed(img, base, i, j)
    ensures var s := Value(base, f, k, r, y);
      Asks(r.kind, s) ==>
        && r.offset + Wide(r.kind) <= |img|
        && Read(Relocated(img, base), r.offset, Wide(r.kind)) == Word(r, base, s)
  {
    var s := Value(base, f, k, r, y);
    EntryStoresAsked(img, base, f, k, i, j, r, y);
    if Asks(r.kind, s) {
      var p := Patch(r.offset, Wide(r.kind), Word(r, base, s));
      assert StoreOf(img, base, i, j, p);
      StoreHolds(img, base, i, j, p);
    }
  }

  /** Some entry stores over byte at. */
  ghost predicate Targeted(img: Image, base: nat, f: File, k: nat, at: nat) {
    exists i, j, r, y :: EntryIs(img, f, k, i, j, r, y) && Asks(r.kind, Value(base, f, k, r, y))
                         && r.offset <= at < r.offset + Wide(r.kind)
  }

  lemma ShownBytes(img: Image, at: nat, n: nat)
    requires at + n <= |img|
    ensures img[at..at + n] == Encode(Read(img, at, n), n)
    ensures (n == 2 ==> Read(img, at, n) < 0x1_0000) && (n == 8 ==> Read(img, at, n) < W64)
  {
    Words();
    EncodeDecode(img[at..at + n]);
  }

  lemma Three(img: Image, at: nat, n: nat)
    requires at + n + 16 <= |img|
    ensures img[at..at + n + 16] == img[at..at + n] + img[at + n..at + n + 8] + img[at + n + 8..at + n + 16]
  {
  }

  lemma HeadOfSymbol(img: Image, at: nat)
    requires at + 8 <= |img|
    ensures img[at..at + 8]
         == Encode(Read(img, at, 4), 4) + [img[at + 4], img[at + 5]] + Encode(Read(img, at + 6, 2), 2)
  {
    ShownBytes(img, at, 4);
    ShownBytes(img, at + 6, 2);
    assert img[at..at + 8] == img[at..at + 4] + [img[at + 4], img[at + 5]] + img[at + 6..at + 8];
  }

  /** Any 24 bytes are those of an entry. */
  lemma AnEntry(img: Image, at: nat) returns (r: Entry)
    requires at + 24 <= |img|
    ensures Shows(img, at, EntryBytes(r)) && EntryFits(r)
  {
    ShownBytes(img, at, 8);
    ShownBytes(img, at + 8, 8);
    ShownBytes(img, at + 16, 8);
    var info := Read(img, at + 8, 8);
    r := Entry(Read(img, at, 8), info / 0x1_0000_0000, info % 0x1_0000_0000, Read(img, at + 16, 8));
    assert Info(r) == info;
    Three(img, at, 8);
  }

  /** Any 24 bytes are those of a symbol. */
  lemma ASymbol(img: Image, at: nat) returns (y: Sym)
    requires at + 24 <= |img|
    ensures Shows(img, at, SymBytes(y)) && SymFits(y)
  {
    HeadOfSymbol(img, at);
    ShownBytes(img, at + 6, 2);
    ShownBytes(img, at + 8, 8);
    ShownBytes(img, at + 16, 8);
    y := Sym(Read(img, at, 4), img[at + 4], img[at + 5], Read(img, at + 6, 2), Read(img, at + 8, 8),
             Read(img, at + 16, 8));
    Three(img, at, 8);
  }

  lemma EveryEntry(img: Image, f: File, k: nat, i: nat, j: nat) returns (r: Entry, y: Sym)
    requires Describes(img, f) && SymtabIs(f, k) && TablesIn(img) && i < |f.sections|
    requires f.sections[i].kind == 4 && j < f.sections[i].size / 24
    ensures EntryIs(img, f, k, i, j, r, y)
  {
    SymtabFound(img, f);
    SectionIs(img, f, i);
    r := AnEntry(img, f.sections[i].offset + 24 * j);
    y := Sym(0, 0, 0, 0, 0, 0);
    if 0 < r.sym < f.sections[k].size / 24 {
      y := ASymbol(img, f.sections[k].offset + 24 * r.sym);
    }
  }

  lemma StoreTargets(img: Image, base: nat, f: File, k: nat, at: nat, p: Patch)
    requires Describes(img, f) && SymtabIs(f, k) && TablesIn(img) && Symtab(img).Some?
    requires p in AllStores(img, base) && Covers(p, at)
    ensures Targeted(img, base, f, k, at)
  {
    Headers(img, f);
    var i := FlattenMember(SectionWords(img, base), p);
    var j := StoreInSection(img, base, i, p);
    SectionIs(img, f, i);
    var r, y := EveryEntry(img, f, k, i, j);
    EntryStoresAsked(img, base, f, k, i, j, r, y);
  }

  /** A byte that no entry stores over stays as it was. */
  lemma OtherBytesStay(img: Image, base: nat, f: File, k: nat, at: nat)
    requires Describes(img, f) && SymtabIs(f, k) && at < |img|
    requires TablesIn(img) && Symtab(img).Some? && TargetsSafe(img, base) && !Targeted(img, base, f, k, at)
    ensures Relocated(img, base)[at] == img[at]
  {
    if Touched(AllStores(img, base), at) {
      var p :| p in AllStores(img, base) && Covers(p, at);
      StoreTargets(img, base, f, k, at, p);
    }
    OnlyTargetsChange(img, base);
  }
}
