/** What the sites of an image hold at the end of the pass. */
module ElfSites {
  import opened InfraTypes
  import opened ElfBytes
  import opened ElfReloc
  import opened ElfPass

  /** Value v as the wider word that a zero-extended or a sign-extended 32-bit word w stands for. */
  predicate ZeroExtendsTo(w: nat, v: int) { w == v % W64 }

  predicate SignExtendsTo(w: nat, v: int) { Signed32(w) % W64 == v % W64 }

  /** What section 4.4 of the System V AMD64 psABI asks of the word w of a site: S is the symbol's
      value, A the addend, P the address of the site, B the base. The pass stores without a check
      for overflow, so a 32-bit site is right exactly when the value it should hold fits. */
  predicate WordRight(t: nat, w: nat, s: nat, a: nat, p: nat, base: nat) {
    && (t == R_64 ==> w == (s + a) % W64)
    && (t == R_RELATIVE ==> w == (base + a) % W64)
    && (t == R_PC32 || t == R_PLT32 || t == R_GOTPCREL || t == R_GOTPCRELX || t == R_REX_GOTPCRELX ==>
          ((Signed32(w) + p) % W64 == (s + a) % W64 <==> FitsSigned32(s + a - p)))
    && (t == R_32 ==> (ZeroExtendsTo(w, s + a) <==> (s + a) % W64 < W32))
    && (t == R_32S ==> (SignExtendsTo(w, s + a) <==> FitsSigned32(s + a)))
  }

  lemma LowWord(v: int)
    ensures ZeroExtendsTo(v % W32, v) <==> v % W64 < W32
  {
    LowHalf(v);
  }

  /** The bytes that an entry of type t stores, if any. */
  function Width(t: nat): nat { if t == R_64 || t == R_RELATIVE then 8 else 4 }

  lemma StoreRight(base: nat, r: Rela, s: nat)
    requires Stores(base, r, s) != []
    ensures var p := Stores(base, r, s)[0];
      && p in Stores(base, r, s) && p.offset == r.offset && p.width == Width(TypeOf(r.info))
      && WordRight(TypeOf(r.info), p.value, s, r.addend, (base + r.offset) % W64, base)
  {
    Pc32Reaches(s, r.addend, (base + r.offset) % W64);
    SignExtension(s + r.addend);
    LowWord(s + r.addend);
  }

  /** The site of an entry that stores something holds the right word. */
  ghost predicate SiteRight(now: Image, base: nat, r: Rela, s: nat) {
    Stores(base, r, s) != [] ==>
      && r.offset + Width(TypeOf(r.info)) <= |now|
      && WordRight(TypeOf(r.info), Read(now, r.offset, Width(TypeOf(r.info))), s, r.addend,
                   (base + r.offset) % W64, base)
  }

  lemma SiteFrom(now: Image, base: nat, r: Rela, s: nat)
    requires Stores(base, r, s) != []
    requires var p := Stores(base, r, s)[0];
      p.offset + p.width <= |now| && Read(now, p.offset, p.width) == p.value
    ensures SiteRight(now, base, r, s)
  {
    StoreRight(base, r, s);
  }

  // ------------------------------------------------------------ later stores

  /** Entry j of the relocation section i stores p. */
  ghost predicate StoreOf(img: Image, base: nat, i: nat, j: nat, p: Patch)
    requires TablesIn(img) && Symtab(img).Some?
  {
    && i < SectionCount(img) && SectionAt(img, i).kind == SHT_RELA && j < Entries(SectionAt(img, i))
    && p in EntryStores(img, base, Symtab(img).value, SectionAt(img, i), j)
  }

  predicate Later(i: nat, j: nat, k: nat, m: nat) { i < k || (i == k && j < m) }

  /** No later entry stores a different word over the site of entry j of section i. */
  ghost predicate Unopposed(img: Image, base: nat, i: nat, j: nat)
    requires TablesIn(img) && Symtab(img).Some?
  {
    forall k, m, p, q :: Later(i, j, k, m) && StoreOf(img, base, i, j, p) && StoreOf(img, base, k, m, q)
      ==> p == q || Disjoint(p, q)
  }

  ghost predicate ComesFrom(lists: seq<seq<Patch>>, n: nat, rest: seq<Patch>) {
    forall q :: q in rest ==> exists k :: n <= k < |lists| && q in lists[k]
  }

  lemma {:induction false} FlattenRest(lists: seq<seq<Patch>>, n: nat) returns (rest: seq<Patch>)
    requires n <= |lists|
    ensures Flatten(lists) == Flatten(lists[..n]) + rest && ComesFrom(lists, n, rest)
    decreases |lists|
  {
    if n == |lists| {
      rest := [];
      assert lists[..n] == lists && Flatten(lists) == Flatten(lists) + [];
    } else {
      var k := |lists| - 1;
      var before := FlattenRest(lists[..k], n);
      assert lists[..k][..n] == lists[..n];
      rest := before + lists[k];
      assert Flatten(lists[..n]) + before + lists[k] == Flatten(lists[..n]) + rest;
      forall q | q in rest
        ensures exists m :: n <= m < |lists| && q in lists[m]
      {
        if q in before {
          var m :| n <= m < k && q in lists[..k][m];
          assert q in lists[m];
        }
      }
    }
  }

  /** What is stored after entry j of section i comes from later entries. */
  ghost predicate FromLater(img: Image, base: nat, i: nat, j: nat, rest: seq<Patch>)
    requires TablesIn(img) && Symtab(img).Some?
  {
    forall q :: q in rest ==> exists k, m :: Later(i, j, k, m) && StoreOf(img, base, k, m, q)
  }

  lemma RestOfSection(img: Image, base: nat, i: nat, j: nat) returns (rest: seq<Patch>)
    requires TablesIn(img) && Symtab(img).Some?
    requires i < SectionCount(img) && SectionAt(img, i).kind == SHT_RELA && j < Entries(SectionAt(img, i))
    ensures SectionStores(img, base, i)
         == Flatten(EntryWords(img, base, Symtab(img).value, SectionAt(img, i))[..j + 1]) + rest
    ensures FromLater(img, base, i, j, rest)
  {
    var words := EntryWords(img, base, Symtab(img).value, SectionAt(img, i));
    rest := FlattenRest(words, j + 1);
    forall q | q in rest
      ensures exists k, m :: Later(i, j, k, m) && StoreOf(img, base, k, m, q)
    {
      var m :| j + 1 <= m < |words| && q in words[m];
      assert Later(i, j, i, m) && StoreOf(img, base, i, m, q);
    }
  }

  lemma RestOfSections(img: Image, base: nat, i: nat, j: nat) returns (rest: seq<Patch>)
    requires TablesIn(img) && Symtab(img).Some? && i < SectionCount(img)
    ensures AllStores(img, base) == Flatten(SectionWords(img, base)[..i]) + SectionStores(img, base, i) + rest
    ensures FromLater(img, base, i, j, rest)
  {
    var words := SectionWords(img, base);
    FlattenStep(words, i);
    rest := FlattenRest(words, i + 1);
    forall q | q in rest
      ensures exists k, m :: Later(i, j, k, m) && StoreOf(img, base, k, m, q)
    {
      var k: nat :| i + 1 <= k < |words| && q in words[k];
      var m := StoreInSection(img, base, k, q);
      assert Later(i, j, k, m) && StoreOf(img, base, k, m, q);
    }
  }

  lemma StoreInSection(img: Image, base: nat, i: nat, q: Patch) returns (j: nat)
    requires TablesIn(img) && Symtab(img).Some? && i < SectionCount(img) && q in SectionStores(img, base, i)
    ensures StoreOf(img, base, i, j, q)
  {
    var s := SectionAt(img, i);
    j := FlattenMember(EntryWords(img, base, Symtab(img).value, s), q);
  }

  lemma {:induction false} FlattenMember(lists: seq<seq<Patch>>, p: Patch) returns (k: nat)
    requires p in Flatten(lists)
    ensures k < |lists| && p in lists[k]
  {
    var n := |lists| - 1;
    if p in lists[n] {
      k := n;
    } else {
      k := FlattenMember(lists[..n], p);
    }
  }

  lemma Regroup(before: seq<Patch>, mine: seq<Patch>, a: seq<Patch>, b: seq<Patch>)
    ensures before + (mine + a) + b == before + mine + (a + b)
  {
  }

  /** The stores of the pass: those up to entry j of section i, and those of later entries. */
  lemma StoresAfter(img: Image, base: nat, i: nat, j: nat) returns (rest: seq<Patch>)
    requires TablesIn(img) && Symtab(img).Some?
    requires i < SectionCount(img) && SectionAt(img, i).kind == SHT_RELA && j < Entries(SectionAt(img, i))
    ensures AllStores(img, base) == Done(img, base, i, SectionAt(img, i), j + 1) + rest
    ensures FromLater(img, base, i, j, rest)
  {
    var a := RestOfSection(img, base, i, j);
    var b := RestOfSections(img, base, i, j);
    Regroup(Flatten(SectionWords(img, base)[..i]),
            Flatten(EntryWords(img, base, Symtab(img).value, SectionAt(img, i))[..j + 1]), a, b);
    rest := a + b;
  }

  /** A word that no later one overwrites in part is there in the end. */
  lemma {:induction false} FinalOfLast(img: Image, ps: seq<Patch>, n: nat, k: nat)
    requires k < |img| && n < |ps| && Covers(ps[n], k)
    requires forall m :: n < m < |ps| ==> ps[m] == ps[n] || Disjoint(ps[n], ps[m])
    ensures Final(img, ps, k) == Encode(ps[n].value, ps[n].width)[k - ps[n].offset]
    decreases |ps|
  {
    var m := |ps| - 1;
    if n < m && !Covers(ps[m], k) {
      FinalOfLast(img, ps[..m], n, k);
    }
  }

  lemma BytesHoldLast(img: Image, ps: seq<Patch>, n: nat)
    requires ValidPatches(ps, |img|) && n < |ps|
    requires forall m :: n < m < |ps| ==> ps[m] == ps[n] || Disjoint(ps[n], ps[m])
    ensures ValidPatch(ps[n], |img|)
    ensures ApplyAll(img, ps)[ps[n].offset..ps[n].offset + ps[n].width] == Encode(ps[n].value, ps[n].width)
  {
    var r, p := ApplyAll(img, ps), ps[n];
    assert p in ps;
    forall k | p.offset <= k < p.offset + p.width
      ensures r[k] == Encode(p.value, p.width)[k - p.offset]
    {
      ApplyAllBytes(img, ps, k);
      FinalOfLast(img, ps, n, k);
    }
  }

  lemma SiteHoldsLast(img: Image, ps: seq<Patch>, n: nat)
    requires ValidPatches(ps, |img|) && n < |ps|
    requires forall m :: n < m < |ps| ==> ps[m] == ps[n] || Disjoint(ps[n], ps[m])
    ensures ps[n].offset + ps[n].width <= |img|
    ensures Read(ApplyAll(img, ps), ps[n].offset, ps[n].width) == ps[n].value
  {
    BytesHoldLast(img, ps, n);
    DecodeEncode(ps[n].value, ps[n].width);
  }

  /** The store of an entry, if it makes one, is in the image at the end unless a later entry overwrites it. */
  lemma StoreHolds(img: Image, base: nat, i: nat, j: nat, p: Patch)
    requires TablesIn(img) && Symtab(img).Some? && TargetsSafe(img, base) && Unopposed(img, base, i, j)
    requires StoreOf(img, base, i, j, p)
    ensures p.offset + p.width <= |img| && Read(Relocated(img, base), p.offset, p.width) == p.value
  {
    var ps, s := AllStores(img, base), SectionAt(img, i);
    var before, mine := Done(img, base, i, s, j), EntryStores(img, base, Symtab(img).value, s, j);
    var rest := StoresAfter(img, base, i, j);
    var n := |before|;
    DoneStep(img, base, i, s, j);
    StoresOne(base, RelaAt(img, s, j), SymbolValue(img, base, Symtab(img).value, SymbolIndex(RelaAt(img, s, j).info)));
    assert mine == [p] && ps[n] == p;
    forall m | n < m < |ps|
      ensures ps[m] == ps[n] || Disjoint(ps[n], ps[m])
    {
      assert ps[m] == rest[m - n - 1] && ps[m] in rest;
    }
    SiteHoldsLast(img, ps, n);
  }

  lemma StoresOne(base: nat, r: Rela, s: nat)
    ensures |Stores(base, r, s)| <= 1
  {
  }

  /** At the end of the pass every site that no later entry overwrites holds what its entry asks for. */
  lemma SitesRight(img: Image, base: nat, i: nat, j: nat)
    requires TablesIn(img) && Symtab(img).Some? && TargetsSafe(img, base) && Unopposed(img, base, i, j)
    requires i < SectionCount(img) && SectionAt(img, i).kind == SHT_RELA && j < Entries(SectionAt(img, i))
    ensures var r := RelaAt(img, SectionAt(img, i), j);
      SiteRight(Relocated(img, base), base, r, SymbolValue(img, base, Symtab(img).value, SymbolIndex(r.info)))
  {
    var r := RelaAt(img, SectionAt(img, i), j);
    var s := SymbolValue(img, base, Symtab(img).value, SymbolIndex(r.info));
    if Stores(base, r, s) != [] {
      StoreHolds(img, base, i, j, Stores(base, r, s)[0]);
      SiteFrom(Relocated(img, base), base, r, s);
    }
  }

  /** Without overlaps that is every site. */
  lemma CompatibleUnopposed(img: Image, base: nat, i: nat, j: nat)
    requires TablesIn(img) && Symtab(img).Some? && Compatible(AllStores(img, base))
    ensures Unopposed(img, base, i, j)
  {
    forall k, m, p, q | Later(i, j, k, m) && StoreOf(img, base, i, j, p) && StoreOf(img, base, k, m, q)
      ensures p == q || Disjoint(p, q)
    {
      EntryInAll(img, base, i, SectionAt(img, i), j);
      EntryInAll(img, base, k, SectionAt(img, k), m);
    }
  }
}
