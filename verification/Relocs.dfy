/** A loaded module against its file (shellsight/cmd/nativemem/stompdiff.go). */
module Relocs {
  // The relocation directory is that of the Microsoft PE Format specification, section "The .reloc Section (Image
  // Only)"; reading the file by section is from stompdiff_windows.go.
  //
  // Addresses inside an image (RVAs) are 32 bits wide and wrap where the program lets them. A patched pointer
  // wraps at its own width, so the load difference may be any integer.

  import opened Common

  type byte = b: int | 0 <= b < 256

  const TWO_TO_THE_32: nat := 0x1_0000_0000

  type Rva = r: int | 0 <= r < TWO_TO_THE_32

  // ---- little-endian numbers -----------------------------------------------------------------------------

  function Power(n: nat): (p: nat)
    ensures p > 0
  {
    if n == 0 then 1 else 256 * Power(n - 1)
  }

  function Number(s: seq<byte>): (v: nat)
    ensures v < Power(|s|)
  {
    if s == [] then 0 else s[0] + 256 * Number(s[1..])
  }

  function Bytes(v: nat, n: nat): (s: seq<byte>)
    ensures |s| == n
  {
    if n == 0 then [] else [v % 256] + Bytes(v / 256, n - 1)
  }

  lemma LowByte(b: byte, v: nat)
    ensures (b + 256 * v) % 256 == b && (b + 256 * v) / 256 == v
  {}

  lemma {:induction false} BytesOfNumber(s: seq<byte>)
    ensures Bytes(Number(s), |s|) == s
  {
    if s != [] {
      BytesOfNumber(s[1..]);
      LowByte(s[0], Number(s[1..]));
      assert [s[0]] + s[1..] == s;
    }
  }

  lemma {:induction false} NumberOfBytes(v: nat, n: nat)
    requires v < Power(n)
    ensures Number(Bytes(v, n)) == v
  {
    if n > 0 {
      NumberOfBytes(v / 256, n - 1);
      assert Bytes(v, n)[1..] == Bytes(v / 256, n - 1);
    }
  }

  lemma ModUnique(v: int, m: nat, q: int, r: int)
    requires m > 0 && v == m * q + r && 0 <= r < m
    ensures v % m == r
  {
    var d := v / m - q;
    assert m * d + v % m == r;
    Multiple(m, d);
  }

  lemma Multiple(m: int, d: int)
    requires m > 0
    ensures d > 0 ==> m * d >= m
    ensures d < 0 ==> m * d <= -m
  {}

  lemma Wraps(v: int, delta: int, m: nat)
    requires m > 0 && 0 <= v < m
    ensures ((v + delta) % m - delta) % m == v
  {
    var q := (v + delta) / m;
    assert (v + delta) % m - delta == m * (-q) + v;
    ModUnique((v + delta) % m - delta, m, -q, v);
  }

  /** The pointer stored in `word`, moved by `delta` and wrapped at its width. */
  function Moved(word: seq<byte>, delta: int): (r: seq<byte>)
    ensures |r| == |word|
  {
    Bytes((Number(word) + delta) % Power(|word|), |word|)
  }

  /** Moving back restores every pointer, wrapped or not. */
  lemma MovedBack(word: seq<byte>, delta: int)
    ensures Moved(Moved(word, delta), -delta) == word
  {
    hide Power, Number, Bytes;
    Wraps(Number(word), delta, Power(|word|));
    NumberOfBytes((Number(word) + delta) % Power(|word|), |word|);
    BytesOfNumber(word);
  }

  lemma MovedByZero(word: seq<byte>)
    ensures Moved(word, 0) == word
  {
    ModUnique(Number(word), Power(|word|), 0, Number(word));
    BytesOfNumber(word);
  }

  // ---- rebasing ------------------------------------------------------------------------------------------------

  datatype Reloc = Reloc(rva: Rva, kind: nat)

  const REL_ABSOLUTE: nat := 0
  const REL_HIGH_LOW: nat := 3
  const REL_DIR64: nat := 10

  /** Bytes a relocation patches; other kinds are ignored. */
  function Width(kind: nat): (w: nat) {
    if kind == REL_HIGH_LOW then 4 else if kind == REL_DIR64 then 8 else 0
  }

  /** The relocation patches bytes, all of them inside `[base, base + length)`. */
  predicate Lands(r: Reloc, base: nat, length: nat) {
    Width(r.kind) > 0 && r.rva >= base && r.rva - base + Width(r.kind) <= length
  }

  /** The patched pointer covers the address. */
  predicate Covers(r: Reloc, address: int) {
    r.rva <= address < r.rva + Width(r.kind)
  }

  function RebaseOne(img: seq<byte>, base: nat, r: Reloc, delta: int): (out: seq<byte>)
    ensures |out| == |img|
  {
    if Lands(r, base, |img|) then
      var o, w := r.rva - base, Width(r.kind);
      img[..o] + Moved(img[o..o + w], delta) + img[o + w..]
    else img
  }

  function Rebased(img: seq<byte>, base: nat, relocs: seq<Reloc>, delta: int): (out: seq<byte>)
    ensures |out| == |img|
  {
    if relocs == [] then img
    else RebaseOne(Rebased(img, base, relocs[..|relocs| - 1], delta), base, relocs[|relocs| - 1], delta)
  }

  method PutBytes(img: array<byte>, o: nat, word: seq<byte>)
    requires o + |word| <= img.Length
    modifies img
    ensures img[..] == old(img[..o]) + word + old(img[o + |word|..])
  {
    for k := 0 to |word|
      invariant img[..] == old(img[..o]) + word[..k] + old(img[o + k..])
    {
      img[o + k] := word[k];
    }
    assert word[..|word|] == word;
  }

  method ApplyRelocs(img: array<byte>, base: Rva, relocs: seq<Reloc>, delta: int)
    modifies img
    ensures img[..] == Rebased(old(img[..]), base, relocs, delta)
    ensures Disjoint(relocs) ==> LoaderMade(old(img[..]), base, relocs, delta, img[..])
  {
    for i := 0 to |relocs|
      invariant img[..] == Rebased(old(img[..]), base, relocs[..i], delta)
    {
      var r := relocs[i];
      assert relocs[..i + 1][..i] == relocs[..i];
      if r.rva < base { continue; }
      var o := r.rva - base;
      if r.kind == REL_HIGH_LOW {
        if o + 4 <= img.Length {
          var v := Number(img[o..o + 4]);
          PutBytes(img, o, Bytes((v + delta) % Power(4), 4));
        }
      } else if r.kind == REL_DIR64 {
        if o + 8 <= img.Length {
          var v := Number(img[o..o + 8]);
          PutBytes(img, o, Bytes((v + delta) % Power(8), 8));
        }
      }
    }
    assert relocs[..|relocs|] == relocs;
    if Disjoint(relocs) { RebasedIsLoaderMade(old(img[..]), base, relocs, delta); }
  }

  /** No byte belongs to two relocations of the list. */
  ghost predicate Disjoint(relocs: seq<Reloc>) {
    forall i, j :: 0 <= i < j < |relocs| ==> Apart(relocs[i], relocs[j])
  }

  predicate Apart(a: Reloc, b: Reloc) {
    a.rva + Width(a.kind) <= b.rva || b.rva + Width(b.kind) <= a.rva || Width(a.kind) == 0 || Width(b.kind) == 0
  }

  /** What rebasing makes of the byte at offset k: the matching byte of the moved pointer if a relocation that
      lands covers it, else the byte itself. */
  ghost predicate ByteIs(img: seq<byte>, base: nat, relocs: seq<Reloc>, delta: int, k: nat, b: byte)
    requires k < |img|
  {
    && (forall r :: r in relocs && Lands(r, base, |img|) && Covers(r, base + k) ==> b == PointerByte(img, base, r, delta, k))
    && ((forall r :: r in relocs && Lands(r, base, |img|) ==> !Covers(r, base + k)) ==> b == img[k])
  }

  function PointerByte(img: seq<byte>, base: nat, r: Reloc, delta: int, k: nat): byte
    requires Lands(r, base, |img|) && Covers(r, base + k)
  {
    var o := r.rva - base;
    Moved(img[o..o + Width(r.kind)], delta)[k - o]
  }

  /** Rebasing, byte by byte, for relocations that do not overlap. */
  lemma {:induction false} RebasedByte(img: seq<byte>, base: nat, relocs: seq<Reloc>, delta: int, k: nat)
    requires Disjoint(relocs) && k < |img|
    ensures ByteIs(img, base, relocs, delta, k, Rebased(img, base, relocs, delta)[k])
  {
    hide Moved, RebaseOne, Lands;
    if relocs != [] {
      var init, last := relocs[..|relocs| - 1], relocs[|relocs| - 1];
      assert init + [last] == relocs;
      InitDisjoint(init, last);
      RebasedByte(img, base, init, delta, k);
      RebaseOneByte(Rebased(img, base, init, delta), base, last, delta, k);
      if Lands(last, base, |img|) && Covers(last, base + k) {
        PointerUntouched(img, base, init, last, delta);
        OnlyOne(init, last, base + k);
      }
    }
  }

  lemma RebaseOneByte(img: seq<byte>, base: nat, r: Reloc, delta: int, k: nat)
    requires k < |img|
    ensures RebaseOne(img, base, r, delta)[k]
            == if Lands(r, base, |img|) && Covers(r, base + k) then PointerByte(img, base, r, delta, k) else img[k]
  {
    hide Moved;
  }

  lemma OnlyOne(init: seq<Reloc>, last: Reloc, address: int)
    requires Disjoint(init + [last]) && Covers(last, address)
    ensures forall r :: r in init ==> !Covers(r, address)
  {
    forall r | r in init ensures !Covers(r, address) {
      var i :| 0 <= i < |init| && init[i] == r;
      assert Apart((init + [last])[i], (init + [last])[|init|]);
    }
  }

  /** Earlier relocations leave the pointer of a later one alone. */
  lemma PointerUntouched(img: seq<byte>, base: nat, init: seq<Reloc>, last: Reloc, delta: int)
    requires Disjoint(init + [last]) && Lands(last, base, |img|)
    ensures var o := last.rva - base; var w := Width(last.kind);
            Rebased(img, base, init, delta)[o..o + w] == img[o..o + w]
  {
    hide Moved, Rebased;
    var o, w := last.rva - base, Width(last.kind);
    var out := Rebased(img, base, init, delta);
    InitDisjoint(init, last);
    forall k | o <= k < o + w ensures out[k] == img[k] {
      OnlyOne(init, last, base + k);
      RebasedByteBefore(img, base, init, delta, k);
    }
  }

  lemma InitDisjoint(init: seq<Reloc>, last: Reloc)
    requires Disjoint(init + [last])
    ensures Disjoint(init)
  {
    forall i, j | 0 <= i < j < |init| ensures Apart(init[i], init[j]) {
      assert Apart((init + [last])[i], (init + [last])[j]);
    }
  }

  lemma {:induction false} RebasedByteBefore(img: seq<byte>, base: nat, relocs: seq<Reloc>, delta: int, k: nat)
    requires k < |img| && forall r :: r in relocs ==> !Covers(r, base + k)
    ensures Rebased(img, base, relocs, delta)[k] == img[k]
  {
    hide Moved;
    if relocs != [] {
      var init := relocs[..|relocs| - 1];
      assert relocs[|relocs| - 1] in relocs;
      forall r | r in init ensures !Covers(r, base + k) { assert r in relocs; }
      RebasedByteBefore(img, base, init, delta, k);
    }
  }

  /** Two lists of the same relocations rebase alike: their order does not matter. */
  lemma OrderDoesNotMatter(img: seq<byte>, base: nat, a: seq<Reloc>, b: seq<Reloc>, delta: int)
    requires Disjoint(a) && Disjoint(b) && multiset(a) == multiset(b)
    ensures Rebased(img, base, a, delta) == Rebased(img, base, b, delta)
  {
    hide Moved, Rebased, Lands;
    assert forall r :: r in a <==> r in multiset(a);
    assert forall r :: r in b <==> r in multiset(b);
    var x, y := Rebased(img, base, a, delta), Rebased(img, base, b, delta);
    forall k | 0 <= k < |img| ensures x[k] == y[k] {
      RebasedByte(img, base, a, delta, k);
      RebasedByte(img, base, b, delta, k);
    }
  }

  lemma PointerMoved(img: seq<byte>, base: nat, relocs: seq<Reloc>, delta: int, r: Reloc)
    requires Disjoint(relocs) && r in relocs && Lands(r, base, |img|)
    ensures var o := r.rva - base; var w := Width(r.kind);
            Rebased(img, base, relocs, delta)[o..o + w] == Moved(img[o..o + w], delta)
  {
    hide Moved, Rebased;
    var o, w := r.rva - base, Width(r.kind);
    var out := Rebased(img, base, relocs, delta);
    forall k | o <= k < o + w ensures out[k] == Moved(img[o..o + w], delta)[k - o] {
      RebasedByte(img, base, relocs, delta, k);
    }
    assert out[o..o + w] == Moved(img[o..o + w], delta);
  }

  /** The negated difference undoes a rebase. */
  lemma RebaseUndone(img: seq<byte>, base: nat, relocs: seq<Reloc>, delta: int)
    requires Disjoint(relocs)
    ensures Rebased(Rebased(img, base, relocs, delta), base, relocs, -delta) == img
  {
    hide Moved, Rebased, ByteIs;
    var out := Rebased(img, base, relocs, delta);
    var back := Rebased(out, base, relocs, -delta);
    forall k | 0 <= k < |img| ensures back[k] == img[k] {
      RebasedByte(out, base, relocs, -delta, k);
      RebasedByte(img, base, relocs, delta, k);
      ByteUndone(img, out, base, relocs, delta, k, back[k]);
    }
  }

  lemma ByteUndone(img: seq<byte>, out: seq<byte>, base: nat, relocs: seq<Reloc>, delta: int, k: nat, b: byte)
    requires Disjoint(relocs) && k < |img| && out == Rebased(img, base, relocs, delta)
    requires ByteIs(img, base, relocs, delta, k, out[k]) && ByteIs(out, base, relocs, -delta, k, b)
    ensures b == img[k]
  {
    hide Moved, Rebased;
    if r :| r in relocs && Lands(r, base, |img|) && Covers(r, base + k) {
      var o, w := r.rva - base, Width(r.kind);
      PointerMoved(img, base, relocs, delta, r);
      MovedBack(img[o..o + w], delta);
      assert b == PointerByte(out, base, r, -delta, k);
    }
  }

  // ---- what the loader makes of an image ----------------------------------------------------------------------------

  /** The little-endian number of four bytes. */
  function Little4(s: seq<byte>, o: nat): nat
    requires o + 4 <= |s|
  {
    s[o] as int + 0x100 * s[o + 1] as int + 0x1_0000 * s[o + 2] as int + 0x100_0000 * s[o + 3] as int
  }

  function Little8(s: seq<byte>, o: nat): nat
    requires o + 8 <= |s|
  {
    Little4(s, o) + 0x1_0000_0000 * Little4(s, o + 4)
  }

  /** The relocation patches `width` bytes of an image of this length loaded from `base` on. */
  predicate Patches(r: Reloc, base: nat, length: nat, width: nat) {
    && ((r.kind == 3 && width == 4) || (r.kind == 10 && width == 8))
    && base <= r.rva && r.rva - base + width <= length
  }

  /** The pointer is what it was plus the load difference, wrapped at 32 or 64 bits. */
  predicate PointerLoaded(img: seq<byte>, base: nat, r: Reloc, delta: int, out: seq<byte>)
    requires |out| == |img|
  {
    && (Patches(r, base, |img|, 4) ==>
          Little4(out, r.rva - base) == (Little4(img, r.rva - base) + delta) % 0x1_0000_0000)
    && (Patches(r, base, |img|, 8) ==>
          Little8(out, r.rva - base) == (Little8(img, r.rva - base) + delta) % 0x1_0000_0000_0000_0000)
  }

  predicate PatchedAt(r: Reloc, base: nat, length: nat, k: nat) {
    || (Patches(r, base, length, 4) && r.rva - base <= k < r.rva - base + 4)
    || (Patches(r, base, length, 8) && r.rva - base <= k < r.rva - base + 8)
  }

  /** `out` is the image with every pointer of the list moved by the load difference and nothing else changed. */
  ghost predicate LoaderMade(img: seq<byte>, base: nat, relocs: seq<Reloc>, delta: int, out: seq<byte>) {
    && |out| == |img|
    && (forall r :: r in relocs ==> PointerLoaded(img, base, r, delta, out))
    && forall k :: 0 <= k < |img| && (forall r :: r in relocs ==> !PatchedAt(r, base, |img|, k)) ==> out[k] == img[k]
  }

  lemma PowersAre()
    ensures Power(4) == 0x1_0000_0000 && Power(8) == 0x1_0000_0000_0000_0000
  {
    FourIs();
    assert Power(8) == 256 * Power(7) && Power(7) == 256 * Power(6) && Power(6) == 256 * Power(5) && Power(5) == 256 * Power(4);
  }

  lemma NumberIs4(s: seq<byte>, o: nat)
    requires o + 4 <= |s|
    ensures Number(s[o..o + 4]) == Little4(s, o)
  {
    var w := s[o..o + 4];
    assert w[1..][0] == w[1] && w[1..][1..] == w[2..] && w[2..][1..] == w[3..] && w[3..][1..] == [];
    assert Number(w) == w[0] + 256 * Number(w[1..]) && Number(w[1..]) == w[1] + 256 * Number(w[2..]);
    assert Number(w[2..]) == w[2] + 256 * Number(w[3..]) && Number(w[3..]) == w[3] + 256 * Number([]);
  }

  lemma {:induction false} NumberConcat(a: seq<byte>, b: seq<byte>)
    ensures Number(a + b) == Number(a) + Power(|a|) * Number(b)
  {
    if a == [] {
      assert a + b == b;
    } else {
      assert (a + b)[1..] == a[1..] + b;
      NumberConcat(a[1..], b);
      assert Power(|a|) == 256 * Power(|a| - 1);
      Associate(256, Power(|a| - 1), Number(b));
    }
  }

  lemma Associate(a: nat, b: nat, c: nat)
    ensures a * (b * c) == (a * b) * c
  {}

  lemma NumberIs8(s: seq<byte>, o: nat)
    requires o + 8 <= |s|
    ensures Number(s[o..o + 8]) == Little8(s, o)
  {
    hide Number, Power;
    PowersAre();
    assert s[o..o + 8] == s[o..o + 4] + s[o + 4..o + 8];
    NumberConcat(s[o..o + 4], s[o + 4..o + 8]);
    NumberIs4(s, o);
    NumberIs4(s, o + 4);
  }

  lemma PatchesIff(r: Reloc, base: nat, length: nat)
    ensures Lands(r, base, length) <==> Patches(r, base, length, 4) || Patches(r, base, length, 8)
    ensures Patches(r, base, length, 4) ==> Width(r.kind) == 4
    ensures Patches(r, base, length, 8) ==> Width(r.kind) == 8
    ensures forall k: nat :: PatchedAt(r, base, length, k) <==> Lands(r, base, length) && Covers(r, base + k)
  {}

  lemma MovedNumber(word: seq<byte>, delta: int)
    ensures Number(Moved(word, delta)) == (Number(word) + delta) % Power(|word|)
  {
    hide Number, Bytes, Power;
    NumberOfBytes((Number(word) + delta) % Power(|word|), |word|);
  }

  /** Rebasing makes what the loader makes: each pointer moved by the difference, each other byte kept. */
  lemma RebasedIsLoaderMade(img: seq<byte>, base: nat, relocs: seq<Reloc>, delta: int)
    requires Disjoint(relocs)
    ensures LoaderMade(img, base, relocs, delta, Rebased(img, base, relocs, delta))
  {
    hide Moved, Rebased, Lands, Patches, PatchedAt, Little4, Little8, Number, Covers;
    var out := Rebased(img, base, relocs, delta);
    forall r | r in relocs ensures PointerLoaded(img, base, r, delta, out) {
      PatchesIff(r, base, |img|);
      PointerIsLoaded(img, base, relocs, delta, r);
    }
    forall k: nat | k < |img| && (forall r :: r in relocs ==> !PatchedAt(r, base, |img|, k)) ensures out[k] == img[k] {
      forall r | r in relocs ensures !(Lands(r, base, |img|) && Covers(r, base + k)) { PatchesIff(r, base, |img|); }
      RebasedByte(img, base, relocs, delta, k);
    }
  }

  lemma PointerIsLoaded(img: seq<byte>, base: nat, relocs: seq<Reloc>, delta: int, r: Reloc)
    requires Disjoint(relocs) && r in relocs
    ensures PointerLoaded(img, base, r, delta, Rebased(img, base, relocs, delta))
  {
    hide Moved, Rebased, Lands, Little4, Little8, Number, Power;
    var out := Rebased(img, base, relocs, delta);
    PatchesIff(r, base, |img|);
    PowersAre();
    if Patches(r, base, |img|, 4) || Patches(r, base, |img|, 8) {
      var o, w := r.rva - base, Width(r.kind);
      PointerMoved(img, base, relocs, delta, r);
      MovedNumber(img[o..o + w], delta);
      if w == 4 { NumberIs4(out, o); NumberIs4(img, o); } else { NumberIs8(out, o); NumberIs8(img, o); }
    }
  }

  /** And there is one such image, so it is what the loader made. */
  lemma LoaderMadeUnique(img: seq<byte>, base: nat, relocs: seq<Reloc>, delta: int, a: seq<byte>, b: seq<byte>)
    requires LoaderMade(img, base, relocs, delta, a) && LoaderMade(img, base, relocs, delta, b)
    ensures a == b
  {
    hide Little4, Little8, Patches;
    forall k: nat | k < |img| ensures a[k] == b[k] {
      if r :| r in relocs && PatchedAt(r, base, |img|, k) {
        assert PointerLoaded(img, base, r, delta, a) && PointerLoaded(img, base, r, delta, b);
        SamePointerBytes(img, base, r, delta, a, b, k);
      }
    }
  }

  lemma SamePointerBytes(img: seq<byte>, base: nat, r: Reloc, delta: int, a: seq<byte>, b: seq<byte>, k: nat)
    requires |a| == |b| == |img| && PointerLoaded(img, base, r, delta, a) && PointerLoaded(img, base, r, delta, b)
    requires k < |img| && PatchedAt(r, base, |img|, k)
    ensures a[k] == b[k]
  {
    hide Little4, Little8, Number;
    var o := r.rva - base;
    var w := if r.kind == 3 then 4 else 8;
    if w == 4 { NumberIs4(a, o); NumberIs4(b, o); } else { NumberIs8(a, o); NumberIs8(b, o); }
    BytesOfNumber(a[o..o + w]);
    BytesOfNumber(b[o..o + w]);
    assert a[o..o + w][k - o] == a[k] && b[o..o + w][k - o] == b[k];
  }

  // ---- rebasing a window of an image -----------------------------------------------------------------------------

  /** Part of the pointer is inside the window `[a, b)` of the image and part outside, so that no rebase of the
      window alone touches it. */
  predicate Straddles(r: Reloc, base: nat, length: nat, a: nat, b: nat)
    requires a <= b <= length
  {
    && Lands(r, base, length) && !Lands(r, base + a, b - a)
    && r.rva < base + b && base + a < r.rva + Width(r.kind)
  }

  /** The bytes the window holds of the pointer happen not to change. */
  ghost predicate Harmless(img: seq<byte>, base: nat, r: Reloc, delta: int, a: nat, b: nat)
    requires a <= b <= |img| && Lands(r, base, |img|)
  {
    forall k :: a <= k < b && Covers(r, base + k) ==> PointerByte(img, base, r, delta, k) == img[k]
  }

  ghost predicate Commutes(img: seq<byte>, base: nat, relocs: seq<Reloc>, delta: int, a: nat, b: nat)
    requires a <= b <= |img|
  {
    Rebased(img[a..b], base + a, relocs, delta) == Rebased(img, base, relocs, delta)[a..b]
  }

  /** Rebasing a window gives the window of the rebased image exactly when every pointer cut by an edge keeps
      the bytes it has inside; in particular whenever no pointer is cut. */
  lemma WindowCommutesIff(img: seq<byte>, base: nat, relocs: seq<Reloc>, delta: int, a: nat, b: nat)
    requires Disjoint(relocs) && a <= b <= |img|
    ensures Commutes(img, base, relocs, delta, a, b)
            <==> forall r :: r in relocs && Straddles(r, base, |img|, a, b) ==> Harmless(img, base, r, delta, a, b)
  {
    hide Moved, Rebased, ByteIs, Lands, PointerByte;
    var whole := Rebased(img, base, relocs, delta);
    var part := Rebased(img[a..b], base + a, relocs, delta);
    if Commutes(img, base, relocs, delta, a, b) {
      forall r | r in relocs && Straddles(r, base, |img|, a, b) ensures Harmless(img, base, r, delta, a, b) {
        forall k | a <= k < b && Covers(r, base + k) ensures PointerByte(img, base, r, delta, k) == img[k] {
          assert part[k - a] == whole[k];
          CutByte(img, base, relocs, delta, a, b, r, k);
        }
      }
    }
    if forall r :: r in relocs && Straddles(r, base, |img|, a, b) ==> Harmless(img, base, r, delta, a, b) {
      forall k | a <= k < b ensures part[k - a] == whole[k] {
        WindowByte(img, base, relocs, delta, a, b, k);
      }
      assert part == whole[a..b];
    }
  }

  /** A byte of a pointer cut by the edge: moved in the image, left alone in the window. */
  lemma CutByte(img: seq<byte>, base: nat, relocs: seq<Reloc>, delta: int, a: nat, b: nat, r: Reloc, k: nat)
    requires Disjoint(relocs) && a <= k < b <= |img| && r in relocs && Straddles(r, base, |img|, a, b) && Covers(r, base + k)
    ensures Rebased(img, base, relocs, delta)[k] == PointerByte(img, base, r, delta, k)
    ensures Rebased(img[a..b], base + a, relocs, delta)[k - a] == img[k]
  {
    hide Moved, Rebased, PointerByte;
    RebasedByte(img, base, relocs, delta, k);
    RebasedByte(img[a..b], base + a, relocs, delta, k - a);
    CoveredOnce(relocs, r, base + k);
  }

  lemma CoveredOnce(relocs: seq<Reloc>, r: Reloc, address: int)
    requires Disjoint(relocs) && r in relocs && Covers(r, address)
    ensures forall other :: other in relocs && Covers(other, address) ==> other == r
  {
    forall other | other in relocs && Covers(other, address) ensures other == r {
      if other != r {
        NotApart(r, other, address);
        TwoApart(relocs, r, other);
      }
    }
  }

  lemma NotApart(a: Reloc, b: Reloc, address: int)
    requires Covers(a, address) && Covers(b, address)
    ensures !Apart(a, b) && !Apart(b, a)
  {}

  lemma TwoApart(relocs: seq<Reloc>, a: Reloc, b: Reloc)
    requires Disjoint(relocs) && a in relocs && b in relocs && a != b
    ensures Apart(a, b) || Apart(b, a)
  {
    var i :| 0 <= i < |relocs| && relocs[i] == a;
    var j :| 0 <= j < |relocs| && relocs[j] == b;
    if i < j { assert Apart(relocs[i], relocs[j]); } else { assert Apart(relocs[j], relocs[i]); }
  }

  lemma WindowByte(img: seq<byte>, base: nat, relocs: seq<Reloc>, delta: int, a: nat, b: nat, k: nat)
    requires Disjoint(relocs) && a <= k < b <= |img|
    requires forall r :: r in relocs && Straddles(r, base, |img|, a, b) ==> Harmless(img, base, r, delta, a, b)
    ensures Rebased(img[a..b], base + a, relocs, delta)[k - a] == Rebased(img, base, relocs, delta)[k]
  {
    hide Moved, Rebased, PointerByte;
    RebasedByte(img, base, relocs, delta, k);
    RebasedByte(img[a..b], base + a, relocs, delta, k - a);
    if r :| r in relocs && Lands(r, base, |img|) && Covers(r, base + k) {
      CoveredOnce(relocs, r, base + k);
      if Lands(r, base + a, b - a) {
        SamePointer(img, base, r, delta, a, b, k);
      } else {
        assert Straddles(r, base, |img|, a, b);
      }
    }
  }

  lemma SamePointer(img: seq<byte>, base: nat, r: Reloc, delta: int, a: nat, b: nat, k: nat)
    requires a <= k < b <= |img| && Lands(r, base + a, b - a) && Covers(r, base + k)
    ensures PointerByte(img[a..b], base + a, r, delta, k - a) == PointerByte(img, base, r, delta, k)
  {
    var o, w := r.rva - base, Width(r.kind);
    SliceOfSlice(img, a, b, o - a, o - a + w);
  }

  lemma SliceOfSlice(s: seq<byte>, a: nat, b: nat, from: nat, to: nat)
    requires a <= b <= |s| && from <= to <= b - a
    ensures s[a..b][from..to] == s[a + from..a + to]
  {
    var x, y := s[a..b][from..to], s[a + from..a + to];
    assert forall i :: 0 <= i < |x| ==> x[i] == y[i];
    assert x == y;
  }

  /** A cut pointer does break it: one byte of a pointer at the edge of the window. */
  lemma CutPointerDiffers()
    ensures Straddles(Reloc(0, REL_HIGH_LOW), 0, 4, 0, 1)
    ensures !Commutes([0, 0, 0, 0], 0, [Reloc(0, REL_HIGH_LOW)], 1, 0, 1)
  {
    hide Rebased, Moved;
    var img: seq<byte> := [0, 0, 0, 0];
    var r := Reloc(0, REL_HIGH_LOW);
    MovedZeros();
    assert img[0..4] == img && r in [r];
    CutByte(img, 0, [r], 1, 0, 1, r, 0);
  }

  lemma MovedZeros()
    ensures Moved([0, 0, 0, 0], 1)[0] == 1
  {
    assert Number([0, 0, 0, 0]) == 0 by {
      assert [0, 0, 0, 0][1..] == [0, 0, 0];
      assert [0, 0, 0][1..] == [0, 0];
      assert [0, 0][1..] == [0];
    }
    assert Power(4) == 256 * Power(3) && Power(3) == 256 * Power(2);
    ModUnique(1, Power(4), 0, 1);
  }

  // ---- the relocation directory -------------------------------------------------------------------------------------

  function Decoded(page: Rva, entry: seq<byte>): seq<Reloc>
    requires |entry| == 2
  {
    var e := Number(entry);
    if e / 4096 == REL_ABSOLUTE then [] else [Reloc((page + e % 4096) % TWO_TO_THE_32, e / 4096)]
  }

  function Entries(page: Rva, s: seq<byte>): seq<Reloc> {
    if |s| < 2 then [] else Decoded(page, s[..2]) + Entries(page, s[2..])
  }

  predicate HasBlock(dir: seq<byte>) {
    |dir| >= 8 && 8 <= Number(dir[4..8]) <= |dir|
  }

  lemma FourBytes(s: seq<byte>)
    requires |s| == 4
    ensures Number(s) < TWO_TO_THE_32
  {
    assert Power(4) == 256 * Power(3) && Power(3) == 256 * Power(2);
  }

  function PageOf(dir: seq<byte>): Rva
    requires |dir| >= 8
  {
    FourBytes(dir[..4]);
    Number(dir[..4])
  }

  function Parse(dir: seq<byte>): seq<Reloc> {
    if HasBlock(dir) then
      var size := Number(dir[4..8]);
      Entries(PageOf(dir), dir[8..size]) + Parse(dir[size..])
    else []
  }

  lemma Slices(dir: seq<byte>, off: nat)
    requires off + 8 <= |dir|
    ensures dir[off..][..4] == dir[off..off + 4] && dir[off..][4..8] == dir[off + 4..off + 8]
  {}

  lemma SliceOn(dir: seq<byte>, off: nat, size: nat)
    requires 8 <= size && off + size <= |dir|
    ensures dir[off..][8..size] == dir[off + 8..off + size] && dir[off..][size..] == dir[off + size..]
  {}

  lemma NextEntry(page: Rva, dir: seq<byte>, p: nat, end: nat)
    requires p + 2 <= end <= |dir|
    ensures Entries(page, dir[p..end]) == Decoded(page, dir[p..p + 2]) + Entries(page, dir[p + 2..end])
  {
    assert dir[p..end][..2] == dir[p..p + 2] && dir[p..end][2..] == dir[p + 2..end];
  }

  method ParseRelocs(dir: seq<byte>) returns (out: seq<Reloc>)
    ensures out == Parse(dir)
  {
    hide Entries, Number, Decoded;
    out := [];
    var off := 0;
    assert dir[0..] == dir;
    while off + 8 <= |dir|
      invariant 0 <= off <= |dir|
      invariant out + Parse(dir[off..]) == Parse(dir)
    {
      Slices(dir, off);
      FourBytes(dir[off..off + 4]);
      var page := Number(dir[off..off + 4]);
      var size := Number(dir[off + 4..off + 8]);
      if size < 8 || off + size > |dir| { break; }
      SliceOn(dir, off, size);
      out := ParseBlock(dir, page, off, size, out);
      off := off + size;
    }
  }

  method ParseBlock(dir: seq<byte>, page: Rva, off: nat, size: nat, before: seq<Reloc>) returns (out: seq<Reloc>)
    requires 8 <= size && off + size <= |dir|
    ensures out == before + Entries(page, dir[off + 8..off + size])
  {
    hide Number, Entries;
    out := before;
    var entries := (size - 8) / 2;
    var p := off + 8;
    for i := 0 to entries
      invariant p == off + 8 + 2 * i
      invariant out + Entries(page, dir[p..off + size]) == before + Entries(page, dir[off + 8..off + size])
    {
      NextEntry(page, dir, p, off + size);
      var e := Number(dir[p..p + 2]);
      if e / 4096 != REL_ABSOLUTE {
        out := out + [Reloc((page + e % 4096) % TWO_TO_THE_32, e / 4096)];
      }
      p := p + 2;
    }
    NoEntry(page, dir[p..off + size]);
  }

  lemma NoEntry(page: Rva, s: seq<byte>)
    requires |s| < 2
    ensures Entries(page, s) == []
  {}

  datatype Block = Block(page: Rva, entries: seq<(nat, nat)>)

  predicate Encodable(b: Block) {
    8 + 2 * |b.entries| < TWO_TO_THE_32 && forall e :: e in b.entries ==> e.0 < 16 && e.1 < 4096
  }

  function EncodeEntries(es: seq<(nat, nat)>): (s: seq<byte>)
    ensures |s| == 2 * |es|
  {
    if es == [] then [] else Bytes(es[0].0 * 4096 + es[0].1, 2) + EncodeEntries(es[1..])
  }

  function Encode(blocks: seq<Block>): seq<byte> {
    if blocks == [] then []
    else
      var b := blocks[0];
      Bytes(b.page, 4) + Bytes(8 + 2 * |b.entries|, 4) + EncodeEntries(b.entries) + Encode(blocks[1..])
  }

  function Listed(page: Rva, es: seq<(nat, nat)>): seq<Reloc> {
    if es == [] then []
    else
      (if es[0].0 == REL_ABSOLUTE then [] else [Reloc((page + es[0].1) % TWO_TO_THE_32, es[0].0)]) + Listed(page, es[1..])
  }

  function AllListed(blocks: seq<Block>): seq<Reloc> {
    if blocks == [] then [] else Listed(blocks[0].page, blocks[0].entries) + AllListed(blocks[1..])
  }

  lemma EntryDecoded(page: Rva, kind: nat, offset: nat)
    requires kind < 16 && offset < 4096
    ensures Decoded(page, Bytes(kind * 4096 + offset, 2))
            == if kind == REL_ABSOLUTE then [] else [Reloc((page + offset) % TWO_TO_THE_32, kind)]
  {
    assert Power(2) == 65536 by { assert Power(1) == 256; }
    NumberOfBytes(kind * 4096 + offset, 2);
  }

  lemma FirstEntry(page: Rva, first: seq<byte>, rest: seq<byte>)
    requires |first| == 2
    ensures Entries(page, first + rest) == Decoded(page, first) + Entries(page, rest)
  {
    hide Decoded;
    assert (first + rest)[..2] == first && (first + rest)[2..] == rest;
  }

  lemma {:induction false} EntriesDecoded(page: Rva, es: seq<(nat, nat)>)
    requires forall e :: e in es ==> e.0 < 16 && e.1 < 4096
    ensures Entries(page, EncodeEntries(es)) == Listed(page, es)
  {
    hide Bytes, Decoded, Number, Entries;
    if es == [] {
      NoEntry(page, []);
    } else {
      var first := Bytes(es[0].0 * 4096 + es[0].1, 2);
      assert es[0] in es;
      EntryDecoded(page, es[0].0, es[0].1);
      EntriesDecoded(page, es[1..]);
      FirstEntry(page, first, EncodeEntries(es[1..]));
    }
  }

  /** Decoding the directory of any blocks gives back every entry but the padding, whatever short tail follows. */
  lemma {:induction false} ParseEncoded(blocks: seq<Block>, tail: seq<byte>)
    requires |tail| < 8 && forall b :: b in blocks ==> Encodable(b)
    ensures Parse(Encode(blocks) + tail) == AllListed(blocks)
  {
    hide Bytes, Entries, EncodeEntries, Listed, Encodable, Parse;
    if blocks == [] {
      assert Encode(blocks) + tail == tail;
      NothingToParse(tail);
    } else {
      var b := blocks[0];
      assert b in blocks;
      var rest := Encode(blocks[1..]) + tail;
      var dir := Encode(blocks) + tail;
      ParseEncoded(blocks[1..], tail);
      FirstBlock(b, rest);
      assert dir == Bytes(b.page, 4) + Bytes(8 + 2 * |b.entries|, 4) + EncodeEntries(b.entries) + rest;
    }
  }

  lemma NothingToParse(tail: seq<byte>)
    requires |tail| < 8
    ensures Parse(tail) == []
  {}

  lemma FirstBlock(b: Block, rest: seq<byte>)
    requires Encodable(b)
    ensures Parse(Bytes(b.page, 4) + Bytes(8 + 2 * |b.entries|, 4) + EncodeEntries(b.entries) + rest)
            == Listed(b.page, b.entries) + Parse(rest)
  {
    hide Bytes, Entries, EncodeEntries, Listed, Number;
    var size := 8 + 2 * |b.entries|;
    var dir := Bytes(b.page, 4) + Bytes(size, 4) + EncodeEntries(b.entries) + rest;
    assert dir[..4] == Bytes(b.page, 4) && dir[4..8] == Bytes(size, 4);
    assert dir[8..size] == EncodeEntries(b.entries) && dir[size..] == rest;
    FourIs();
    NumberOfBytes(b.page, 4);
    NumberOfBytes(size, 4);
    EntriesDecoded(b.page, b.entries);
  }

  lemma FourIs()
    ensures Power(4) == TWO_TO_THE_32
  {
    assert Power(4) == 256 * Power(3) && Power(3) == 256 * Power(2) && Power(2) == 256 * Power(1);
  }

  // ---- bytes on disk ------------------------------------------------------------------------------------------------

  datatype Section = Section(va: Rva, vsize: Rva, raw: seq<byte>)

  /** How far the address is past the start of the section, wrapping. */
  function Offset(s: Section, address: Rva): Rva { (address - s.va) % TWO_TO_THE_32 }

  /** The overlap test, with the end of the section wrapping. */
  predicate Overlaps(s: Section, rva: Rva, end: Rva) {
    s.va < end && (s.va + s.vsize) % TWO_TO_THE_32 > rva
  }

  predicate Backs(s: Section, address: Rva) {
    Offset(s, address) < s.vsize && Offset(s, address) < |s.raw|
  }

  /** The last overlapping section with data for the address supplies its byte. */
  function Stored(secs: seq<Section>, rva: Rva, end: Rva, address: Rva): byte {
    if secs == [] then 0
    else
      var s := secs[|secs| - 1];
      if Overlaps(s, rva, end) && Backs(s, address) then s.raw[Offset(s, address)]
      else Stored(secs[..|secs| - 1], rva, end, address)
  }

  function EndOf(rva: Rva, length: nat): Rva { (rva + length % TWO_TO_THE_32) % TWO_TO_THE_32 }

  predicate AnyOverlap(secs: seq<Section>, rva: Rva, end: Rva) {
    exists s :: s in secs && Overlaps(s, rva, end)
  }

  function WindowByteOf(secs: seq<Section>, rva: Rva, end: Rva, i: nat): byte {
    if rva + i < end then Stored(secs, rva, end, rva + i) else 0
  }

  function DiskRange(secs: seq<Section>, rva: Rva, length: int): (r: Option<seq<byte>>)
    ensures r.Some? ==> |r.value| == length
  {
    if length <= 0 || !AnyOverlap(secs, rva, EndOf(rva, length)) then None
    else Some(DiskWindow(secs, rva, EndOf(rva, length), length))
  }

  function DiskWindow(secs: seq<Section>, rva: Rva, end: Rva, length: nat): (r: seq<byte>)
    ensures |r| == length
  {
    seq(length, i requires 0 <= i < length => WindowByteOf(secs, rva, end, i))
  }

  lemma OffsetIs(s: Section, k: Rva, address: Rva)
    ensures Offset(s, address) == k <==> address == (s.va + k) % TWO_TO_THE_32
  {}

  method CopySection(out: array<byte>, s: Section, rva: Rva, end: Rva)
    requires rva <= end ==> end - rva <= out.Length
    modifies out
    ensures forall i :: 0 <= i < out.Length ==>
              out[i] == if rva + i < end && Backs(s, rva + i) then s.raw[Offset(s, rva + i)] else old(out[i])
  {
    for k := 0 to s.vsize
      invariant forall i :: 0 <= i < out.Length ==>
        out[i] == if rva + i < end && Backs(s, rva + i) && Offset(s, rva + i) < k then s.raw[Offset(s, rva + i)] else old(out[i])
    {
      var address := (s.va + k) % TWO_TO_THE_32;
      forall a: Rva ensures Offset(s, a) == k <==> a == address { OffsetIs(s, k, a); }
      if address < rva || address >= end { continue; }
      if k < |s.raw| { out[address - rva] := s.raw[k]; }
    }
  }

  method DiskBytesForRange(secs: seq<Section>, rva: Rva, length: int) returns (r: Option<seq<byte>>)
    ensures r == DiskRange(secs, rva, length)
  {
    hide Offset, Overlaps, Backs;
    if length <= 0 { return None; }
    var out := new byte[length](_ => 0);
    var end := EndOf(rva, length);
    var covered := false;
    for n := 0 to |secs|
      invariant covered <==> AnyOverlap(secs[..n], rva, end)
      invariant forall i :: 0 <= i < length ==> out[i] == WindowByteOf(secs[..n], rva, end, i)
    {
      var s := secs[n];
      assert secs[..n + 1] == secs[..n] + [s] && secs[..n + 1][..n] == secs[..n];
      if !Overlaps(s, rva, end) { continue; }
      covered := true;
      CopySection(out, s, rva, end);
    }
    assert secs[..|secs|] == secs;
    if !covered { return None; }
    assert out[..] == DiskWindow(secs, rva, end, length);
    r := Some(out[..]);
  }

  /** The byte of the image at an address: independent of any window. */
  function DiskByte(secs: seq<Section>, address: nat): byte {
    if secs == [] then 0
    else
      var s := secs[|secs| - 1];
      if s.va <= address < s.va + s.vsize && address - s.va < |s.raw| then s.raw[address - s.va]
      else DiskByte(secs[..|secs| - 1], address)
  }

  function Image(secs: seq<Section>, size: nat): (img: seq<byte>)
    ensures |img| == size
  {
    seq(size, i requires 0 <= i < size => DiskByte(secs, i))
  }

  /** No section runs past the end of the address space. */
  predicate Fits(secs: seq<Section>) { forall s :: s in secs ==> s.va + s.vsize < TWO_TO_THE_32 }

  lemma {:induction false} StoredIsDiskByte(secs: seq<Section>, rva: Rva, end: Rva, address: Rva)
    requires Fits(secs) && rva <= address < end
    ensures Stored(secs, rva, end, address) == DiskByte(secs, address)
  {
    if secs != [] {
      var s := secs[|secs| - 1];
      assert s in secs;
      StoredIsDiskByte(secs[..|secs| - 1], rva, end, address);
    }
  }

  /** A range of the address space, read from disk, is that range of the one image: windows agree wherever they
      overlap. */
  lemma WindowOfImage(secs: seq<Section>, rva: Rva, length: nat, size: nat)
    requires Fits(secs) && rva + length <= size && rva + length < TWO_TO_THE_32
    ensures DiskRange(secs, rva, length).Some? ==> DiskRange(secs, rva, length).value == Image(secs, size)[rva..rva + length]
    ensures DiskRange(secs, rva, length).None? <==>
              length == 0 || forall s :: s in secs ==> s.va >= rva + length || s.va + s.vsize <= rva
  {
    hide Stored, DiskByte, DiskWindow;
    var end := EndOf(rva, length);
    WindowIsImage(secs, rva, length, size);
    if length > 0 && forall s :: s in secs ==> s.va >= rva + length || s.va + s.vsize <= rva {
      forall s | s in secs ensures !Overlaps(s, rva, end) {}
    }
    if s :| s in secs && s.va < rva + length && s.va + s.vsize > rva {
      assert Overlaps(s, rva, end);
    }
  }

  lemma WindowIsImage(secs: seq<Section>, rva: Rva, length: nat, size: nat)
    requires Fits(secs) && rva + length <= size && rva + length < TWO_TO_THE_32
    ensures DiskWindow(secs, rva, EndOf(rva, length), length) == Image(secs, size)[rva..rva + length]
  {
    hide Stored, DiskByte, Fits;
    var end := EndOf(rva, length);
    forall a: Rva | rva <= a < end ensures Stored(secs, rva, end, a) == DiskByte(secs, a) {
      StoredIsDiskByte(secs, rva, end, a);
    }
  }

  // ---- comparing -------------------------------------------------------------------------------------------------------

  datatype Diff = Diff(modified: nat, total: nat, maxRun: nat, samples: seq<Rva>)

  const MAX_SAMPLES: nat := 16

  predicate DiffersAt(mem: seq<byte>, disk: seq<byte>, i: int) {
    0 <= i < |mem| && i < |disk| && mem[i] != disk[i]
  }

  /** The first n offsets that differ, in order. */
  function Differing(mem: seq<byte>, disk: seq<byte>, n: nat): (ks: seq<nat>)
    ensures |ks| <= n
  {
    if n == 0 then [] else Differing(mem, disk, n - 1) + if DiffersAt(mem, disk, n - 1) then [n - 1] else []
  }

  function RunEnding(mem: seq<byte>, disk: seq<byte>, n: nat): (r: nat)
    ensures r <= n
  {
    if n == 0 || !DiffersAt(mem, disk, n - 1) then 0 else RunEnding(mem, disk, n - 1) + 1
  }

  function Longest(mem: seq<byte>, disk: seq<byte>, n: nat): (r: nat)
    ensures r <= n
  {
    if n == 0 then 0
    else if RunEnding(mem, disk, n) > Longest(mem, disk, n - 1) then RunEnding(mem, disk, n)
    else Longest(mem, disk, n - 1)
  }

  function Shorter(a: seq<byte>, b: seq<byte>): nat { if |b| < |a| then |b| else |a| }

  function Sampled(ks: seq<nat>, base: Rva): seq<Rva> {
    seq(if |ks| < MAX_SAMPLES then |ks| else MAX_SAMPLES, i requires 0 <= i < |ks| => (base + ks[i]) % TWO_TO_THE_32)
  }

  method DiffBytes(mem: seq<byte>, disk: seq<byte>, base: Rva) returns (d: Diff)
    ensures var n := Shorter(mem, disk);
            d == Diff(|Differing(mem, disk, n)|, n, Longest(mem, disk, n), Sampled(Differing(mem, disk, n), base))
  {
    var n := Shorter(mem, disk);
    d := Diff(0, n, 0, []);
    var run := 0;
    for i := 0 to n
      invariant d.total == n && d.modified == |Differing(mem, disk, i)| && run == RunEnding(mem, disk, i)
      invariant d.maxRun == Longest(mem, disk, i) && d.samples == Sampled(Differing(mem, disk, i), base)
    {
      if mem[i] != disk[i] {
        d := d.(modified := d.modified + 1);
        run := run + 1;
        if run > d.maxRun { d := d.(maxRun := run); }
        if |d.samples| < MAX_SAMPLES { d := d.(samples := d.samples + [(base + i) % TWO_TO_THE_32]); }
      } else {
        run := 0;
      }
    }
  }

  ghost predicate AllDiffer(mem: seq<byte>, disk: seq<byte>, from: nat, to: nat) {
    forall i :: from <= i < to ==> DiffersAt(mem, disk, i)
  }

  lemma {:induction false} RunIsMaximal(mem: seq<byte>, disk: seq<byte>, n: nat)
    ensures AllDiffer(mem, disk, n - RunEnding(mem, disk, n), n)
    ensures forall from: nat :: from <= n && AllDiffer(mem, disk, from, n) ==> n - from <= RunEnding(mem, disk, n)
  {
    if n > 0 {
      RunIsMaximal(mem, disk, n - 1);
      forall from: nat | from <= n && AllDiffer(mem, disk, from, n) ensures n - from <= RunEnding(mem, disk, n) {
        if from < n {
          assert AllDiffer(mem, disk, from, n - 1);
          assert DiffersAt(mem, disk, n - 1);
        }
      }
    }
  }

  ghost predicate IsRun(mem: seq<byte>, disk: seq<byte>, n: nat, length: nat, to: nat) {
    length <= to <= n && AllDiffer(mem, disk, to - length, to)
  }

  /** The longest run is the length of the longest stretch in which every byte differs. */
  lemma {:induction false} LongestIsLongest(mem: seq<byte>, disk: seq<byte>, n: nat)
    ensures exists to: nat :: IsRun(mem, disk, n, Longest(mem, disk, n), to)
    ensures forall from: nat, to: nat :: from <= to <= n && AllDiffer(mem, disk, from, to) ==> to - from <= Longest(mem, disk, n)
  {
    if n == 0 {
      assert IsRun(mem, disk, n, Longest(mem, disk, n), 0);
    } else {
      LongestIsLongest(mem, disk, n - 1);
      RunIsMaximal(mem, disk, n);
      var was := Longest(mem, disk, n - 1);
      var at: nat :| IsRun(mem, disk, n - 1, was, at);
      var to: nat := if RunEnding(mem, disk, n) > was then n else at;
      assert IsRun(mem, disk, n, Longest(mem, disk, n), to);
    }
  }

  predicate Climbs(ks: seq<nat>) { forall x, y :: 0 <= x < y < |ks| ==> ks[x] < ks[y] }

  lemma {:induction false} DifferingAre(mem: seq<byte>, disk: seq<byte>, n: nat)
    ensures forall i: nat :: i in Differing(mem, disk, n) <==> i < n && DiffersAt(mem, disk, i)
    ensures Climbs(Differing(mem, disk, n))
  {
    if n > 0 {
      DifferingAre(mem, disk, n - 1);
      var ks := Differing(mem, disk, n - 1);
      assert Differing(mem, disk, n) == ks || Differing(mem, disk, n) == ks + [n - 1];
      forall x | 0 <= x < |ks| ensures ks[x] < n - 1 { assert ks[x] in ks; }
      assert Climbs(ks + [n - 1]);
    }
  }

  datatype Verdict = Verdict(stomped: bool, patched: bool, fraction: real, patchRvas: seq<Rva>)

  const CLEAN := Verdict(false, false, 0.0, [])
  const STOMP_FRACTION := 0.05
  const STOMP_RUN: nat := 256

  function Classify(d: Diff, fraction: real, run: nat): Verdict {
    if d.total == 0 || d.modified == 0 then CLEAN
    else
      var f := d.modified as real / d.total as real;
      if f >= fraction || d.maxRun >= run then Verdict(true, false, f, d.samples) else Verdict(false, true, f, d.samples)
  }

  function Compared(mem: seq<byte>, disk: seq<byte>, base: Rva): Diff {
    var n := Shorter(mem, disk);
    Diff(|Differing(mem, disk, n)|, n, Longest(mem, disk, n), Sampled(Differing(mem, disk, n), base))
  }

  /** A region is clean exactly when no byte differs; otherwise it is stomped or patched, never both. */
  lemma CleanIffSame(mem: seq<byte>, disk: seq<byte>, base: Rva, fraction: real, run: nat)
    requires |mem| == |disk|
    ensures var v := Classify(Compared(mem, disk, base), fraction, run);
            (v == CLEAN <==> mem == disk) && (mem != disk ==> v.stomped != v.patched)
  {
    hide Longest, Differing, Sampled;
    DifferingAre(mem, disk, |mem|);
    if mem == disk {
      NoneDiffer(mem, disk, |mem|);
    } else {
      var i: nat :| i < |mem| && mem[i] != disk[i];
      assert DiffersAt(mem, disk, i);
      assert i in Differing(mem, disk, |mem|);
    }
  }

  lemma {:induction false} NoneDiffer(mem: seq<byte>, disk: seq<byte>, n: nat)
    requires mem == disk
    ensures Differing(mem, disk, n) == []
  {
    if n > 0 { NoneDiffer(mem, disk, n - 1); }
  }

  // ---- a region of a loaded module --------------------------------------------------------------------------------------

  function CheckRegion(secs: seq<Section>, dir: seq<byte>, delta: int, rva: Rva, length: nat, mem: seq<byte>): Option<Verdict>
    requires |mem| <= length
  {
    if DiskRange(secs, rva, length).None? || mem == [] then None
    else
      var disk := Rebased(DiskRange(secs, rva, length).value, rva, Parse(dir), delta);
      Some(Classify(Compared(mem, disk[..|mem|], rva), STOMP_FRACTION, STOMP_RUN))
  }

  /** `mem` is what could be read of the region, which may be less than all of it. */
  method CheckRegionStomp(secs: seq<Section>, dir: seq<byte>, delta: int, rva: Rva, length: nat, mem: seq<byte>)
    returns (r: Option<Verdict>)
    requires |mem| <= length
    ensures r == CheckRegion(secs, dir, delta, rva, length, mem)
  {
    hide Parse, DiskRange, Rebased;
    var onDisk := DiskBytesForRange(secs, rva, length);
    if onDisk.None? { return None; }
    var disk := onDisk.value;
    if delta != 0 {
      var img := new byte[|disk|](i requires 0 <= i < |disk| => disk[i]);
      var relocs := ParseRelocs(dir);
      assert img[..] == disk;
      ApplyRelocs(img, rva, relocs, delta);
      disk := img[..];
    } else {
      RebasedByZero(disk, rva, Parse(dir));
    }
    if mem == [] { return None; }
    var d := DiffBytes(mem, disk[..|mem|], rva);
    r := Some(Classify(d, STOMP_FRACTION, STOMP_RUN));
  }

  lemma {:induction false} RebasedByZero(img: seq<byte>, base: nat, relocs: seq<Reloc>)
    ensures Rebased(img, base, relocs, 0) == img
  {
    hide Moved;
    if relocs != [] {
      RebasedByZero(img, base, relocs[..|relocs| - 1]);
      var r := relocs[|relocs| - 1];
      if Lands(r, base, |img|) {
        var o, w := r.rva - base, Width(r.kind);
        MovedByZero(img[o..o + w]);
        assert img[..o] + img[o..o + w] + img[o + w..] == img;
      }
    }
  }

  /** A pointer of the image that an edge of the window `[a, b)` cuts covers byte k of the window. */
  predicate CutAt(r: Reloc, size: nat, a: nat, b: nat, k: nat) {
    && a <= k < b
    && (|| (Patches(r, 0, size, 4) && r.rva <= k < r.rva + 4 && (r.rva < a || b < r.rva + 4))
        || (Patches(r, 0, size, 8) && r.rva <= k < r.rva + 8 && (r.rva < a || b < r.rva + 8)))
  }

  /** Loading changed none of the bytes that the window holds of pointers cut by its edges. */
  ghost predicate CutsKept(img: seq<byte>, relocs: seq<Reloc>, loaded: seq<byte>, a: nat, b: nat)
    requires a <= b <= |img| == |loaded|
  {
    forall r, k: nat :: r in relocs && CutAt(r, |img|, a, b, k) ==> loaded[k] == img[k]
  }

  lemma CutIff(r: Reloc, size: nat, a: nat, b: nat, k: nat)
    requires a <= k < b <= size
    ensures CutAt(r, size, a, b, k) <==> Straddles(r, 0, size, a, b) && Covers(r, k)
  {
    PatchesIff(r, 0, size);
  }

  lemma CutsAreHarmless(img: seq<byte>, relocs: seq<Reloc>, delta: int, a: nat, b: nat)
    requires Disjoint(relocs) && a <= b <= |img|
    ensures CutsKept(img, relocs, Rebased(img, 0, relocs, delta), a, b)
            <==> forall r :: r in relocs && Straddles(r, 0, |img|, a, b) ==> Harmless(img, 0, r, delta, a, b)
  {
    hide Moved, Rebased, CutAt, Straddles, Covers, PointerByte, Lands;
    var out := Rebased(img, 0, relocs, delta);
    forall r, k: nat | r in relocs && a <= k < b && Straddles(r, 0, |img|, a, b) && Covers(r, k)
      ensures Lands(r, 0, |img|) && out[k] == PointerByte(img, 0, r, delta, k)
    {
      CutPointerByte(img, relocs, delta, a, b, r, k);
    }
    forall r, k: nat | a <= k < b ensures CutAt(r, |img|, a, b, k) <==> Straddles(r, 0, |img|, a, b) && Covers(r, k) {
      CutIff(r, |img|, a, b, k);
    }
    forall r, k: nat | CutAt(r, |img|, a, b, k) ensures a <= k < b { CutInside(r, |img|, a, b, k); }
    forall r | Straddles(r, 0, |img|, a, b) ensures Lands(r, 0, |img|) { CutLands(r, |img|, a, b); }
  }

  lemma CutInside(r: Reloc, size: nat, a: nat, b: nat, k: nat)
    requires CutAt(r, size, a, b, k)
    ensures a <= k < b
  {}

  lemma CutLands(r: Reloc, size: nat, a: nat, b: nat)
    requires a <= b <= size && Straddles(r, 0, size, a, b)
    ensures Lands(r, 0, size)
  {}

  lemma CutPointerByte(img: seq<byte>, relocs: seq<Reloc>, delta: int, a: nat, b: nat, r: Reloc, k: nat)
    requires Disjoint(relocs) && r in relocs && a <= k < b <= |img| && Straddles(r, 0, |img|, a, b) && Covers(r, k)
    ensures Lands(r, 0, |img|) && Rebased(img, 0, relocs, delta)[k] == PointerByte(img, 0, r, delta, k)
  {
    hide Moved, Rebased, PointerByte;
    RebasedByte(img, 0, relocs, delta, k);
  }

  /** An untouched region of a module is judged clean at any load address if and only if loading changed none of
      the bytes it holds of pointers cut by its edges; so always, when no pointer is cut. What the loader put in
      memory is the image with every pointer moved by the load difference and nothing else changed. */
  lemma LoadedRegionIsClean(secs: seq<Section>, dir: seq<byte>, delta: int, size: nat, rva: Rva, length: nat, loaded: seq<byte>)
    requires Fits(secs) && Disjoint(Parse(dir)) && rva + length <= size && rva + length < TWO_TO_THE_32
    requires DiskRange(secs, rva, length).Some?
    requires LoaderMade(Image(secs, size), 0, Parse(dir), delta, loaded)
    ensures CheckRegion(secs, dir, delta, rva, length, loaded[rva..rva + length]) == Some(CLEAN)
            <==> CutsKept(Image(secs, size), Parse(dir), loaded, rva, rva + length)
  {
    hide Parse, DiskRange, Rebased, Classify, Compared, Image, Harmless, Straddles, Disjoint, CutsKept, LoaderMade;
    var img := Image(secs, size);
    RebasedIsLoaderMade(img, 0, Parse(dir), delta);
    LoaderMadeUnique(img, 0, Parse(dir), delta, loaded, Rebased(img, 0, Parse(dir), delta));
    var mem := loaded[rva..rva + length];
    WindowOfImage(secs, rva, length, size);
    var disk := Rebased(img[rva..rva + length], rva, Parse(dir), delta);
    WindowCommutesIff(img, 0, Parse(dir), delta, rva, rva + length);
    CutsAreHarmless(img, Parse(dir), delta, rva, rva + length);
    assert disk[..|mem|] == disk;
    CleanIffSame(mem, disk, rva, STOMP_FRACTION, STOMP_RUN);
  }

  /** How many bytes differ. */
  lemma {:induction false} DifferingCount(mem: seq<byte>, disk: seq<byte>, n: nat)
    ensures |Differing(mem, disk, n)| == |set i | 0 <= i < n && DiffersAt(mem, disk, i)|
  {
    if n == 0 {
      assert (set i | 0 <= i < 0 && DiffersAt(mem, disk, i)) == {};
    } else {
      DifferingCount(mem, disk, n - 1);
      var before := set i | 0 <= i < n - 1 && DiffersAt(mem, disk, i);
      assert (set i | 0 <= i < n && DiffersAt(mem, disk, i)) == before + if DiffersAt(mem, disk, n - 1) then {n - 1} else {};
    }
  }

  /** 256 bytes in a row differ. */
  ghost predicate RunFrom(mem: seq<byte>, disk: seq<byte>, n: nat, from: nat) {
    from + 256 <= n && AllDiffer(mem, disk, from, from + 256)
  }

  /** A region is reported stomped exactly when a twentieth of its bytes differ, or 256 in a row. */
  lemma StompedIff(mem: seq<byte>, disk: seq<byte>, base: Rva)
    requires |mem| == |disk|
    ensures var v := Classify(Compared(mem, disk, base), STOMP_FRACTION, STOMP_RUN);
            v.stomped <==>
              && mem != disk
              && (|| 20 * |set i | 0 <= i < |mem| && DiffersAt(mem, disk, i)| >= |mem|
                  || exists from: nat :: RunFrom(mem, disk, |mem|, from))
  {
    hide Longest, Differing, Sampled, RunFrom, DiffersAt;
    var n := |mem|;
    DifferingCount(mem, disk, n);
    CleanIffSame(mem, disk, base, STOMP_FRACTION, STOMP_RUN);
    LongestIsLongest(mem, disk, n);
    RunOf256(mem, disk, n);
    var m := |Differing(mem, disk, n)|;
    if m > 0 { Twentieth(m, n); }
    NoneDifferIff(mem, disk);
  }

  lemma NoneDifferIff(mem: seq<byte>, disk: seq<byte>)
    requires |mem| == |disk|
    ensures |Differing(mem, disk, |mem|)| == 0 <==> mem == disk
  {
    hide Differing;
    DifferingAre(mem, disk, |mem|);
    if mem == disk {
      NoneDiffer(mem, disk, |mem|);
    } else {
      var i: nat :| i < |mem| && mem[i] != disk[i];
      assert DiffersAt(mem, disk, i);
    }
  }

  lemma RunOf256(mem: seq<byte>, disk: seq<byte>, n: nat)
    ensures Longest(mem, disk, n) >= 256 <==> exists from: nat :: RunFrom(mem, disk, n, from)
  {
    hide Longest;
    LongestIsLongest(mem, disk, n);
    if from: nat :| RunFrom(mem, disk, n, from) { assert AllDiffer(mem, disk, from, from + 256); }
    if Longest(mem, disk, n) >= 256 {
      var to: nat :| IsRun(mem, disk, n, Longest(mem, disk, n), to);
      assert RunFrom(mem, disk, n, to - 256);
    }
  }

  lemma Twentieth(m: nat, n: nat)
    requires 0 < m <= n
    ensures m as real / n as real >= 0.05 <==> 20 * m >= n
  {
    var f := m as real / n as real;
    Quotient(m as real, n as real);
    Scaled(f, 0.05, n as real);
  }

  lemma Quotient(m: real, n: real)
    requires n > 0.0
    ensures m / n * n == m
  {}

  lemma Scaled(a: real, b: real, n: real)
    requires n > 0.0
    ensures a >= b <==> a * n >= b * n
  {
    if a >= b { assert (a - b) * n >= 0.0; } else { assert (b - a) * n > 0.0; }
  }
}
