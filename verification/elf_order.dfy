/** The order of relocation entries and sections does not matter. */
module ElfOrder {
  import opened InfraTypes
  import opened ElfBytes
  import opened ElfReloc
  import opened ElfPass
  import opened ElfSites

  predicate HasTables(img: Image) { TablesIn(img) && Symtab(img).Some? }

  /** Entry j of the relocation section i is r. */
  ghost predicate EntryIs(img: Image, i: nat, j: nat, r: Rela)
    requires HasTables(img)
  {
    && i < SectionCount(img) && SectionAt(img, i).kind == SHT_RELA && j < Entries(SectionAt(img, i))
    && RelaAt(img, SectionAt(img, i), j) == r
  }

  ghost predicate HasEntry(img: Image, r: Rela)
    requires HasTables(img)
  {
    exists i, j :: EntryIs(img, i, j, r)
  }

  function ValueOf(img: Image, base: nat, index: nat): nat
    requires HasTables(img)
  {
    SymbolValue(img, base, Symtab(img).value, index)
  }

  /** The two images have the same relocation entries, in whatever order and in whatever sections, and
      their symbols have the same values. */
  ghost predicate Reordered(a: Image, b: Image, base: nat)
    requires HasTables(a) && HasTables(b)
  {
    && |a| == |b|
    && (forall r :: HasEntry(a, r) <==> HasEntry(b, r))
    && forall index :: ValueOf(a, base, index) == ValueOf(b, base, index)
  }

  /** Every store of the pass is the store of some entry. */
  lemma StoreHasEntry(img: Image, base: nat, p: Patch) returns (r: Rela)
    requires HasTables(img) && p in AllStores(img, base)
    ensures HasEntry(img, r) && p in Stores(base, r, ValueOf(img, base, SymbolIndex(r.info)))
  {
    var i := FlattenMember(SectionWords(img, base), p);
    var s := SectionAt(img, i);
    assert p in SectionStores(img, base, i);
    var j := FlattenMember(EntryWords(img, base, Symtab(img).value, s), p);
    r := RelaAt(img, s, j);
    assert EntryIs(img, i, j, r);
  }

  lemma EntryHasStore(img: Image, base: nat, r: Rela, p: Patch)
    requires HasTables(img) && HasEntry(img, r) && p in Stores(base, r, ValueOf(img, base, SymbolIndex(r.info)))
    ensures p in AllStores(img, base)
  {
    var i, j :| EntryIs(img, i, j, r);
    EntryInAll(img, base, i, SectionAt(img, i), j);
  }

  lemma ReorderedWithin(a: Image, b: Image, base: nat)
    requires HasTables(a) && HasTables(b) && Reordered(a, b, base)
    ensures Within(AllStores(a, base), AllStores(b, base))
  {
    forall p | p in AllStores(a, base)
      ensures p in AllStores(b, base)
    {
      var r := StoreHasEntry(a, base, p);
      assert ValueOf(a, base, SymbolIndex(r.info)) == ValueOf(b, base, SymbolIndex(r.info));
      EntryHasStore(b, base, r, p);
    }
  }

  /** With disjoint targets the pass gives a reordered image the same words, and leaves everything else
      of it as it was: where the two images agree before, or a target lies, they agree afterwards. */
  lemma OrderOfEntriesIrrelevant(a: Image, b: Image, base: nat)
    requires HasTables(a) && HasTables(b) && Reordered(a, b, base)
    requires ValidPatches(AllStores(a, base), |a|) && Compatible(AllStores(a, base))
    ensures ValidPatches(AllStores(b, base), |b|)
    ensures forall k :: 0 <= k < |a| && (a[k] == b[k] || Touched(AllStores(a, base), k)) ==>
                          Relocated(a, base)[k] == Relocated(b, base)[k]
    ensures forall k :: 0 <= k < |b| && !Touched(AllStores(a, base), k) ==> Relocated(b, base)[k] == b[k]
  {
    var ps, qs := AllStores(a, base), AllStores(b, base);
    ReorderedWithin(a, b, base);
    ReorderedWithin(b, a, base);
    OrderIrrelevant(b, ps, qs);
    UntouchedBytes(a, ps);
    UntouchedBytes(b, ps);
    forall k | 0 <= k < |a| && Touched(ps, k)
      ensures ApplyAll(a, ps)[k] == ApplyAll(b, ps)[k]
    {
      ApplyAllBytes(a, ps, k);
      ApplyAllBytes(b, ps, k);
      FinalTouched(a, b, ps, k);
    }
  }
}
