/** Little-endian words in a byte image, and lists of patches to it. */
module ElfBytes {
  import opened InfraTypes

  function Pow256(n: nat): nat { if n == 0 then 1 else 256 * Pow256(n - 1) }

  function Encode(v: nat, n: nat): (s: seq<Byte>)
    ensures |s| == n
  {
    if n == 0 then [] else [v % 256] + Encode(v / 256, n - 1)
  }

  function Decode(s: seq<Byte>): nat {
    if s == [] then 0 else s[0] + 256 * Decode(s[1..])
  }

  lemma {:induction false} DecodeEncode(v: nat, n: nat)
    requires v < Pow256(n)
    ensures Decode(Encode(v, n)) == v
  {
    if n > 0 {
      DecodeEncode(v / 256, n - 1);
      assert Encode(v, n)[1..] == Encode(v / 256, n - 1);
    }
  }

  /** The low byte comes first. */
  lemma LittleEndian(v: nat)
    ensures Encode(v, 4) == [v % 256, v / 256 % 256, v / 65536 % 256, v / 16777216 % 256]
  {
    assert Encode(v, 4) == [v % 256] + Encode(v / 256, 3);
    assert Encode(v / 256, 3) == [v / 256 % 256] + Encode(v / 65536, 2);
    assert Encode(v / 65536, 2) == [v / 65536 % 256] + Encode(v / 16777216, 1);
    assert Encode(v / 16777216, 1) == [v / 16777216 % 256] + Encode(v / 4294967296, 0);
  }

  lemma {:induction false} EncodeDecode(s: seq<Byte>)
    ensures Encode(Decode(s), |s|) == s && Decode(s) < Pow256(|s|)
  {
    if s != [] {
      EncodeDecode(s[1..]);
    }
  }

  lemma Words()
    ensures Pow256(2) == 0x1_0000 && Pow256(4) == 0x1_0000_0000 && Pow256(8) == 0x1_0000_0000_0000_0000
  {
    assert Pow256(2) == 256 * Pow256(1);
    assert Pow256(4) == 256 * Pow256(3) == 256 * 256 * Pow256(2);
    assert Pow256(6) == 256 * Pow256(5) == 256 * 256 * Pow256(4);
    assert Pow256(8) == 256 * Pow256(7) == 256 * 256 * Pow256(6);
  }

  type Image = seq<Byte>

  function Read(img: Image, off: nat, n: nat): nat
    requires off + n <= |img|
  {
    Decode(img[off..off + n])
  }

  function Write(img: Image, off: nat, bytes: seq<Byte>): (r: Image)
    requires off + |bytes| <= |img|
    ensures |r| == |img|
    ensures forall k :: 0 <= k < |img| ==> r[k] == if off <= k < off + |bytes| then bytes[k - off] else img[k]
  {
    img[..off] + bytes + img[off + |bytes|..]
  }

  /** A word of 4 or 8 bytes to be stored. */
  datatype Patch = Patch(offset: nat, width: nat, value: nat)

  predicate ValidPatch(p: Patch, size: nat) {
    (p.width == 4 || p.width == 8) && p.value < Pow256(p.width) && p.offset + p.width <= size
  }

  predicate Covers(p: Patch, k: int) { p.offset <= k < p.offset + p.width }

  predicate Disjoint(p: Patch, q: Patch) { p.offset + p.width <= q.offset || q.offset + q.width <= p.offset }

  ghost predicate ValidPatches(ps: seq<Patch>, size: nat) {
    forall p :: p in ps ==> ValidPatch(p, size)
  }

  function ApplyAll(img: Image, ps: seq<Patch>): (r: Image)
    requires ValidPatches(ps, |img|)
    ensures |r| == |img|
  {
    if ps == [] then img
    else
      var p := ps[|ps| - 1];
      assert p in ps;
      Write(ApplyAll(img, ps[..|ps| - 1]), p.offset, Encode(p.value, p.width))
  }

  /** The byte at k in the end: from the last patch over it, or as it was. */
  function Final(img: Image, ps: seq<Patch>, k: nat): Byte
    requires k < |img|
  {
    if ps == [] then img[k]
    else
      var p := ps[|ps| - 1];
      if Covers(p, k) then Encode(p.value, p.width)[k - p.offset] else Final(img, ps[..|ps| - 1], k)
  }

  lemma {:induction false} ApplyAllBytes(img: Image, ps: seq<Patch>, k: nat)
    requires ValidPatches(ps, |img|) && k < |img|
    ensures ApplyAll(img, ps)[k] == Final(img, ps, k)
  {
    if ps != [] {
      ApplyAllBytes(img, ps[..|ps| - 1], k);
      assert ps[|ps| - 1] in ps;
    }
  }

  ghost predicate Touched(ps: seq<Patch>, k: int) {
    exists p :: p in ps && Covers(p, k)
  }

  lemma {:induction false} FinalUntouched(img: Image, ps: seq<Patch>, k: nat)
    requires k < |img| && !Touched(ps, k)
    ensures Final(img, ps, k) == img[k]
  {
    if ps != [] {
      assert ps[|ps| - 1] in ps;
      assert forall p :: p in ps[..|ps| - 1] ==> p in ps;
      FinalUntouched(img, ps[..|ps| - 1], k);
    }
  }

  lemma {:induction false} FinalTouched(img: Image, other: Image, ps: seq<Patch>, k: nat)
    requires k < |img| == |other| && Touched(ps, k)
    ensures Final(img, ps, k) == Final(other, ps, k)
  {
    var n := |ps| - 1;
    if !Covers(ps[n], k) {
      var p :| p in ps && Covers(p, k);
      assert p in ps[..n];
      FinalTouched(img, other, ps[..n], k);
    }
  }

  /** Every byte that no patch covers is unchanged. */
  lemma UntouchedBytes(img: Image, ps: seq<Patch>)
    requires ValidPatches(ps, |img|)
    ensures forall k :: 0 <= k < |img| && !Touched(ps, k) ==> ApplyAll(img, ps)[k] == img[k]
  {
    forall k | 0 <= k < |img| && !Touched(ps, k)
      ensures ApplyAll(img, ps)[k] == img[k]
    {
      ApplyAllBytes(img, ps, k);
      FinalUntouched(img, ps, k);
    }
  }

  /** Storing the same words again changes nothing, even where they overlap. */
  lemma ApplyTwice(img: Image, ps: seq<Patch>)
    requires ValidPatches(ps, |img|)
    ensures ApplyAll(ApplyAll(img, ps), ps) == ApplyAll(img, ps)
  {
    var once := ApplyAll(img, ps);
    forall k | 0 <= k < |img|
      ensures ApplyAll(once, ps)[k] == once[k]
    {
      ApplyAllBytes(once, ps, k);
      ApplyAllBytes(img, ps, k);
      if Touched(ps, k) {
        FinalTouched(img, once, ps, k);
      } else {
        FinalUntouched(once, ps, k);
      }
    }
  }

  /** Different patches never overlap. */
  ghost predicate Compatible(ps: seq<Patch>) {
    forall p, q :: p in ps && q in ps && p != q ==> Disjoint(p, q)
  }

  lemma {:induction false} FinalOf(img: Image, ps: seq<Patch>, p: Patch, k: nat)
    requires k < |img| && Compatible(ps) && p in ps && Covers(p, k)
    ensures Final(img, ps, k) == Encode(p.value, p.width)[k - p.offset]
  {
    var n := |ps| - 1;
    var q := ps[n];
    if !Covers(q, k) {
      assert p in ps[..n];
      assert forall r :: r in ps[..n] ==> r in ps;
      FinalOf(img, ps[..n], p, k);
    } else {
      assert q in ps;
    }
  }

  /** Without overlaps neither order nor repetition of the patches matters. */
  lemma OrderIrrelevant(img: Image, ps: seq<Patch>, qs: seq<Patch>)
    requires ValidPatches(ps, |img|) && Compatible(ps)
    requires forall p :: p in ps <==> p in qs
    ensures ValidPatches(qs, |img|) && ApplyAll(img, ps) == ApplyAll(img, qs)
  {
    forall k | 0 <= k < |img|
      ensures ApplyAll(img, ps)[k] == ApplyAll(img, qs)[k]
    {
      ApplyAllBytes(img, ps, k);
      ApplyAllBytes(img, qs, k);
      if Touched(ps, k) {
        var p :| p in ps && Covers(p, k);
        FinalOf(img, ps, p, k);
        FinalOf(img, qs, p, k);
      } else {
        FinalUntouched(img, ps, k);
        FinalUntouched(img, qs, k);
      }
    }
  }

  /** In the end every site holds its word. */
  lemma SiteHolds(img: Image, ps: seq<Patch>, p: Patch)
    requires ValidPatches(ps, |img|) && Compatible(ps) && p in ps
    ensures Read(ApplyAll(img, ps), p.offset, p.width) == p.value
  {
    var r := ApplyAll(img, ps);
    forall k | p.offset <= k < p.offset + p.width
      ensures r[k] == Encode(p.value, p.width)[k - p.offset]
    {
      ApplyAllBytes(img, ps, k);
      FinalOf(img, ps, p, k);
    }
    assert r[p.offset..p.offset + p.width] == Encode(p.value, p.width);
    DecodeEncode(p.value, p.width);
  }

  lemma ReadSame(a: Image, b: Image, off: nat, n: nat)
    requires off + n <= |a| == |b| && forall k :: off <= k < off + n ==> a[k] == b[k]
    ensures Read(a, off, n) == Read(b, off, n)
  {
    assert a[off..off + n] == b[off..off + n];
  }

  // ------------------------------------------------------------ lists of lists

  ghost predicate Within(ps: seq<Patch>, qs: seq<Patch>) { forall p :: p in ps ==> p in qs }

  lemma FlattenStep(lists: seq<seq<Patch>>, n: nat)
    requires n < |lists|
    ensures Flatten(lists[..n + 1]) == Flatten(lists[..n]) + lists[n]
  {
    assert lists[..n + 1][..n] == lists[..n];
  }

  lemma {:induction false} FlattenPrefix(lists: seq<seq<Patch>>, n: nat, m: nat)
    requires n <= m <= |lists|
    ensures Within(Flatten(lists[..n]), Flatten(lists[..m]))
    decreases m
  {
    if n < m {
      FlattenPrefix(lists, n, m - 1);
      FlattenStep(lists, m - 1);
    }
  }

  /** Every prefix, and each of the lists in it, is within the whole. */
  lemma FlattenWithin(lists: seq<seq<Patch>>, n: nat, m: nat)
    requires n <= |lists| && m <= |lists[..n]|
    ensures Within(Flatten(lists[..n]), Flatten(lists))
    ensures m < n ==> Within(Flatten(lists[..m]) + lists[m], Flatten(lists))
  {
    assert lists[..|lists|] == lists;
    FlattenPrefix(lists, n, |lists|);
    if m < n {
      FlattenStep(lists, m);
      FlattenPrefix(lists, m + 1, |lists|);
    }
  }
}
