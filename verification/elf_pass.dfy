/** process_relocs itself, over the image in place. */
module ElfPass {
  import opened InfraTypes
  import opened ElfBytes
  import opened ElfReloc

  /** What the pass needs of an ELF image: tables and targets inside it, and targets that do not
      overwrite the tables. Nothing is asked of a file without the magic number. */
  ghost predicate Loadable(img: Image, base: nat) {
    HasMagic(img) ==> TablesIn(img) && (Symtab(img).Some? ==> TargetsSafe(img, base))
  }

  // ------------------------------------------------------------ the stores made so far

  lemma {:induction false} ApplyMore(img: Image, ps: seq<Patch>, qs: seq<Patch>)
    requires ValidPatches(ps, |img|) && ValidPatches(qs, |img|)
    ensures ValidPatches(ps + qs, |img|)
    ensures ApplyAll(ApplyAll(img, ps), qs) == ApplyAll(img, ps + qs)
  {
    if qs == [] {
      assert ps + qs == ps;
    } else {
      var n := |qs| - 1;
      assert forall q :: q in qs[..n] ==> q in qs;
      ApplyMore(img, ps, qs[..n]);
      assert (ps + qs)[..|ps + qs| - 1] == ps + qs[..n];
    }
  }

  /** The stores of all sections before i and of the first j entries of section i. */
  function Done(img: Image, base: nat, i: nat, s: Section, j: nat): seq<Patch>
    requires TablesIn(img) && Symtab(img).Some? && i < SectionCount(img)
    requires s == SectionAt(img, i) && s.kind == SHT_RELA && j <= Entries(s)
  {
    Flatten(SectionWords(img, base)[..i]) + Flatten(EntryWords(img, base, Symtab(img).value, s)[..j])
  }

  lemma DoneWithin(img: Image, base: nat, i: nat, s: Section, j: nat)
    requires TablesIn(img) && Symtab(img).Some? && i < SectionCount(img)
    requires s == SectionAt(img, i) && s.kind == SHT_RELA && j <= Entries(s)
    ensures Within(Done(img, base, i, s, j), AllStores(img, base))
  {
    FlattenWithin(EntryWords(img, base, Symtab(img).value, s), j, 0);
    FlattenWithin(SectionWords(img, base), i + 1, i);
  }

  lemma DoneStep(img: Image, base: nat, i: nat, s: Section, j: nat)
    requires TablesIn(img) && Symtab(img).Some? && i < SectionCount(img)
    requires s == SectionAt(img, i) && s.kind == SHT_RELA && j < Entries(s)
    ensures Done(img, base, i, s, j + 1)
         == Done(img, base, i, s, j) + EntryStores(img, base, Symtab(img).value, s, j)
  {
    FlattenStep(EntryWords(img, base, Symtab(img).value, s), j);
  }

  /** Entry j of section s can be carried out on the image now. */
  ghost predicate EntryReady(now: Image, base: nat, st: Section, s: Section, j: nat) {
    && st.offset + 24 * Entries(st) <= |now| && s.offset + 24 * Entries(s) <= |now| && j < Entries(s)
    && ValidPatches(EntryStores(now, base, st, s, j), |now|)
  }

  function AfterEntry(now: Image, base: nat, st: Section, s: Section, j: nat): Image
    requires EntryReady(now, base, st, s, j)
  {
    ApplyAll(now, EntryStores(now, base, st, s, j))
  }

  /** An image with a symbol table that the pass can relocate. */
  ghost predicate Ready(img: Image, base: nat) {
    TablesIn(img) && Symtab(img).Some? && TargetsSafe(img, base)
  }

  /** now is what the pass has made of img before section i. */
  ghost predicate Reached(img: Image, now: Image, base: nat, i: nat) {
    && Ready(img, base) && i <= SectionCount(img)
    && Follows(img, now, Flatten(SectionWords(img, base)[..i]))
  }

  /** now is what the pass has made of img before entry j of the relocation section i. */
  ghost predicate Midway(img: Image, now: Image, base: nat, i: nat, s: Section, j: nat) {
    && Ready(img, base) && i < SectionCount(img) && s == SectionAt(img, i) && s.kind == SHT_RELA && j <= Entries(s)
    && Follows(img, now, Done(img, base, i, s, j))
  }

  ghost predicate Follows(img: Image, now: Image, ps: seq<Patch>) {
    ValidPatches(ps, |img|) && now == ApplyAll(img, ps)
  }

  /** One more entry, read from the image as it is by then, makes the stores of the original tables. */
  lemma NextEntry(img: Image, now: Image, base: nat, i: nat, st: Section, s: Section, j: nat)
    requires Midway(img, now, base, i, s, j) && Symtab(img) == Some(st) && j < Entries(s)
    ensures EntryReady(now, base, st, s, j) && Midway(img, AfterEntry(now, base, st, s, j), base, i, s, j + 1)
  {
    var done, more := Done(img, base, i, s, j), EntryStores(img, base, st, s, j);
    DoneWithin(img, base, i, s, j);
    DoneWithin(img, base, i, s, j + 1);
    DoneStep(img, base, i, s, j);
    assert Within(more, done + more);
    TablesSurvive(img, base, done);
    SameEntry(img, now, base, i, j);
    ApplyMore(img, done, more);
  }

  /** Between sections the tables are still those of the start. */
  lemma Surviving(img: Image, now: Image, base: nat, i: nat)
    requires Reached(img, now, base, i)
    ensures |now| == |img| && HeadersIn(now) && SectionCount(now) == SectionCount(img)
    ensures i < SectionCount(img) ==> SectionAt(now, i) == SectionAt(img, i)
  {
    FlattenWithin(SectionWords(img, base), i, 0);
    TablesSurvive(img, base, Flatten(SectionWords(img, base)[..i]));
    SameHeaders(img, now);
    if i < SectionCount(img) {
      SameSection(img, now, i);
    }
  }

  lemma EnterSection(img: Image, now: Image, base: nat, i: nat, s: Section)
    requires Reached(img, now, base, i) && i < SectionCount(img) && s == SectionAt(img, i)
    ensures if s.kind == SHT_RELA then Midway(img, now, base, i, s, 0) else Reached(img, now, base, i + 1)
  {
    var before := Flatten(SectionWords(img, base)[..i]);
    FlattenStep(SectionWords(img, base), i);
    assert before + [] == before;
  }

  lemma LeaveSection(img: Image, now: Image, base: nat, i: nat, s: Section)
    requires Midway(img, now, base, i, s, Entries(s))
    ensures Reached(img, now, base, i + 1)
  {
    FlattenStep(SectionWords(img, base), i);
    var words := EntryWords(img, base, Symtab(img).value, s);
    assert words[..Entries(s)] == words;
  }

  lemma Finished(img: Image, now: Image, base: nat, i: nat)
    requires Reached(img, now, base, i) && i == SectionCount(img)
    ensures now == Relocated(img, base)
  {
    assert SectionWords(img, base)[..i] == SectionWords(img, base);
  }

  // ------------------------------------------------------------ the pass

  method StoreWord(a: array<Byte>, p: Patch)
    requires ValidPatches([p], a.Length)
    modifies a
    ensures a[..] == ApplyAll(old(a[..]), [p])
  {
    assert p in [p] && [p][..0] == [];
    forall k | 0 <= k < p.width {
      a[p.offset + k] := Encode(p.value, p.width)[k];
    }
  }

  method FindSymtab(a: array<Byte>) returns (st: Option<Section>)
    requires HeadersIn(a[..])
    ensures st == Symtab(a[..])
  {
    st := None;
    var strtab := false;
    var i := 0;
    while i < SectionCount(a[..])
      invariant i <= SectionCount(a[..])
      invariant SymtabFrom(a[..], 0) == SymtabFrom(a[..], i)
      invariant st == None && !strtab
    {
      if SectionAt(a[..], i).kind == SHT_SYMTAB {
        st := Some(SectionAt(a[..], i));
        if i + 1 < SectionCount(a[..]) {
          strtab := true;
        }
        break;
      }
      i := i + 1;
    }
    if !strtab {
      st := None;
    }
  }

  method LookupSymbol(a: array<Byte>, base: nat, st: Section, index: nat) returns (value: nat)
    requires st.offset + 24 * Entries(st) <= a.Length
    ensures value == SymbolValue(a[..], base, st, index)
  {
    value := 0;
    if 0 < index < Entries(st) {
      var at := st.offset + 24 * index;
      if Read(a[..], at + 6, 2) != 0 {
        value := (base + Read(a[..], at + 8, 8)) % W64;
      }
    }
  }

  method StoreByType(a: array<Byte>, base: nat, r: Rela, value: nat)
    requires ValidPatches(Stores(base, r, value), a.Length)
    modifies a
    ensures a[..] == ApplyAll(old(a[..]), Stores(base, r, value))
  {
    var place := (base + r.offset) % W64;
    match TypeOf(r.info)
    case 1 =>
      StoreWord(a, Patch(r.offset, 8, (value + r.addend) % W64));
    case 2 =>
      StoreWord(a, Patch(r.offset, 4, (value + r.addend - place) % W32));
    case 10 =>
      StoreWord(a, Patch(r.offset, 4, (value + r.addend) % W32));
    case 11 =>
      StoreWord(a, Patch(r.offset, 4, (value + r.addend) % W32));
    case 4 =>
      StoreWord(a, Patch(r.offset, 4, (value + r.addend - place) % W32));
    case 8 =>
      StoreWord(a, Patch(r.offset, 8, (base + r.addend) % W64));
    case t =>
      if t == R_GOTPCREL || t == R_GOTPCRELX || t == R_REX_GOTPCRELX {
        if value != 0 {
          StoreWord(a, Patch(r.offset, 4, (value + r.addend - place) % W32));
        }
      }
  }

  method RelocateEntry(a: array<Byte>, base: nat, st: Section, s: Section, j: nat)
    requires EntryReady(a[..], base, st, s, j)
    modifies a
    ensures a[..] == AfterEntry(old(a[..]), base, st, s, j)
  {
    var r := RelaAt(a[..], s, j);
    var value := LookupSymbol(a, base, st, SymbolIndex(r.info));
    StoreByType(a, base, r, value);
  }

  /** The entries of one section, when the sections before it are done. */
  method RelocateSection(a: array<Byte>, base: nat, st: Section, s: Section, ghost img: Image, ghost i: nat)
    requires Midway(img, a[..], base, i, s, 0) && Symtab(img) == Some(st)
    modifies a
    ensures Midway(img, a[..], base, i, s, Entries(s))
  {
    var j := 0;
    while j < Entries(s)
      invariant j <= Entries(s) && Midway(img, a[..], base, i, s, j)
    {
      NextEntry(img, a[..], base, i, st, s, j);
      RelocateEntry(a, base, st, s, j);
      j := j + 1;
    }
  }

  /** Section i, whose header is read from the image as it is by then. */
  method VisitSection(a: array<Byte>, base: nat, st: Section, i: nat, ghost img: Image)
    requires Reached(img, a[..], base, i) && Symtab(img) == Some(st) && i < SectionCount(img)
    modifies a
    ensures Reached(img, a[..], base, i + 1)
  {
    Surviving(img, a[..], base, i);
    var s := SectionAt(a[..], i);
    EnterSection(img, a[..], base, i, s);
    if s.kind == SHT_RELA {
      RelocateSection(a, base, st, s, img, i);
      LeaveSection(img, a[..], base, i, s);
    }
  }

  method RelocateSections(a: array<Byte>, base: nat, st: Section, ghost img: Image) returns (i: nat)
    requires Reached(img, a[..], base, 0) && Symtab(img) == Some(st)
    modifies a
    ensures i == SectionCount(img) && Reached(img, a[..], base, i)
  {
    i := 0;
    Surviving(img, a[..], base, i);
    while i < SectionCount(a[..])
      invariant HeadersIn(a[..]) && SectionCount(a[..]) == SectionCount(img)
      invariant i <= SectionCount(img) && Reached(img, a[..], base, i)
      decreases SectionCount(img) - i
    {
      VisitSection(a, base, st, i, img);
      i := i + 1;
      Surviving(img, a[..], base, i);
    }
  }

  /** The relocation pass: -1 and an untouched image without the magic number or the symbol and
      string tables, and otherwise 0 and exactly the stores of the tables as they were at the start. */
  method ProcessRelocs(a: array<Byte>, base: nat) returns (status: int)
    requires a.Length >= 4 && Loadable(a[..], base)
    modifies a
    ensures status == if HasMagic(old(a[..])) && Symtab(old(a[..])).Some? then 0 else -1
    ensures a[..] == if status == 0 then Relocated(old(a[..]), base) else old(a[..])
  {
    if !(a[0] == 0x7f && a[1] == 0x45 && a[2] == 0x4c && a[3] == 0x46) {
      return -1;
    }
    var found := FindSymtab(a);
    if found.None? {
      return -1;
    }
    ghost var img := a[..];
    var visited := RelocateSections(a, base, found.value, img);
    Finished(img, a[..], base, visited);
    return 0;
  }

  // ------------------------------------------------------------ the stores of one entry

  lemma EntryInAll(img: Image, base: nat, i: nat, s: Section, j: nat)
    requires TablesIn(img) && Symtab(img).Some? && i < SectionCount(img)
    requires s == SectionAt(img, i) && s.kind == SHT_RELA && j < Entries(s)
    ensures Within(EntryStores(img, base, Symtab(img).value, s, j), AllStores(img, base))
  {
    DoneWithin(img, base, i, s, j + 1);
    DoneStep(img, base, i, s, j);
  }
}
