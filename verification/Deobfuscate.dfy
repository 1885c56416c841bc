/**
 The bounded decoder of shellsight/internal/deobfuscate/deobfuscate.go: a depth-, count- and byte-bounded
 depth-first search over the products of a set of decoders, deduplicated by content.

 The regular expressions, base64, inflate and the escape normaliser are parameters (`Decoders`); what is
 proved holds for all of them.
 */
module Deobfuscate {
  import opened Common

  newtype Byte = b: int | 0 <= b < 256

  type Bytes = seq<Byte>

  datatype Method =
    | Normalized | EvalArg | Hex | Base64 | GzInflate | GzUncompress | GzDecode | Rot | Chr | Folded

  datatype Layer = Layer(how: Method, data: Bytes)

  const MAX_DEPTH: nat := 6
  const MAX_LAYERS: nat := 64
  const MAX_OUTPUT: nat := 8 * 1024 * 1024

  datatype Decoders = Decoders(
    evalArgs: Bytes -> seq<Bytes>,        // string arguments of eval-like calls
    hexRuns: Bytes -> seq<Bytes>,         // decoded escape runs; empty where malformed
    base64Runs: Bytes -> seq<Bytes>,      // decoded base64 runs
    chrRuns: Bytes -> seq<Bytes>,         // decoded chr() runs; empty where malformed
    gzinflate: Bytes -> Bytes,            // the three decompressors; empty where they fail
    gzuncompress: Bytes -> Bytes,
    gzdecode: Bytes -> Bytes,
    normalize: Bytes -> Option<Bytes>,    // escape normalisation, when it reveals a sink
    encoderGate: Bytes -> bool,           // whether the file calls a decoder at all
    fold: Bytes -> Option<Bytes>)         // constant folding, when it reveals a sink

  // ---- rot13 -----------------------------------------------------------------------------------------

  function Rot13Byte(c: Byte): Byte {
    if 97 <= c <= 122 then 97 + (c - 97 + 13) % 26
    else if 65 <= c <= 90 then 65 + (c - 65 + 13) % 26
    else c
  }

  function Rot13Of(b: Bytes): (r: Bytes)
    ensures |r| == |b|
  {
    seq(|b|, i requires 0 <= i < |b| => Rot13Byte(b[i]))
  }

  method Rot13(b: Bytes) returns (r: Bytes)
    ensures r == Rot13Of(b) && AllRotated(b, r)
  {
    Rot13Iff(b, Rot13Of(b));
    hide AllRotated;
    var out := new Byte[|b|];
    for i := 0 to |b|
      invariant forall k :: 0 <= k < i ==> out[k] == Rot13Byte(b[k])
    {
      out[i] := Rot13Byte(b[i]);
    }
    r := out[..];
  }

  lemma Rot13ByteInvolution(c: Byte)
    ensures Rot13Byte(Rot13Byte(c)) == c
  {
    if 97 <= c < 110 || 65 <= c < 78 { assert Rot13Byte(c) == c + 13; }
    if 110 <= c <= 122 || 78 <= c <= 90 { assert Rot13Byte(c) == c - 13; }
  }

  predicate Lower(c: Byte) { 'a' as int <= c as int <= 'z' as int }

  predicate Upper(c: Byte) { 'A' as int <= c as int <= 'Z' as int }

  /** A letter becomes the one 13 places away in its case, which is one letter only; other bytes stay. */
  predicate Rotated(c: Byte, r: Byte) {
    if Lower(c) then Lower(r) && (r as int == c as int + 13 || r as int == c as int - 13)
    else if Upper(c) then Upper(r) && (r as int == c as int + 13 || r as int == c as int - 13)
    else r == c
  }

  ghost predicate AllRotated(b: Bytes, r: Bytes) {
    |b| == |r| && forall i :: 0 <= i < |b| ==> Rotated(b[i], r[i])
  }

  lemma RotatedIff(c: Byte, r: Byte)
    ensures Rot13Byte(c) == r <==> Rotated(c, r)
  {
    if 97 <= c < 110 || 65 <= c < 78 { assert Rot13Byte(c) == c + 13; }
    if 110 <= c <= 122 || 78 <= c <= 90 { assert Rot13Byte(c) == c - 13; }
  }

  lemma Rot13Iff(b: Bytes, r: Bytes)
    ensures Rot13Of(b) == r <==> AllRotated(b, r)
  {
    hide Rot13Byte, Rotated;
    forall c, d: Byte ensures Rot13Byte(c) == d <==> Rotated(c, d) { RotatedIff(c, d); }
  }

  lemma Rot13Involution(b: Bytes)
    ensures Rot13Of(Rot13Of(b)) == b
  {
    hide Rot13Byte;
    forall i | 0 <= i < |b| ensures Rot13Of(Rot13Of(b))[i] == b[i] {
      Rot13ByteInvolution(b[i]);
    }
  }

  // ---- vocabulary of the contracts -----------------------------------------------------------------------

  /** `p` is a non-empty product of one of the four extractors applied to `data`. */
  ghost predicate IsProduct(dec: Decoders, data: Bytes, p: Bytes) {
    && p != []
    && (p in dec.evalArgs(data) || p in dec.hexRuns(data) || p in dec.base64Runs(data) || p in dec.chrRuns(data))
  }

  ghost predicate Closed(dec: Decoders, seen: set<Bytes>, data: Bytes) {
    forall p :: IsProduct(dec, data, p) ==> p in seen
  }

  function Emit(kind: Method, data: Bytes): seq<Layer> {
    if data == [] then [] else [Layer(kind, data)]
  }

  function TryInflaters(dec: Decoders, data: Bytes): seq<Layer> {
    Emit(GzInflate, dec.gzinflate(data)) + Emit(GzUncompress, dec.gzuncompress(data)) + Emit(GzDecode, dec.gzdecode(data))
  }

  /** The products that only a layer recorded as base64 is asked for. */
  ghost predicate Expanded(dec: Decoders, seen: set<Bytes>, data: Bytes) {
    && (Rot13Of(data) != [] ==> Rot13Of(data) in seen)
    && forall l :: l in TryInflaters(dec, data) && l.data != [] ==> l.data in seen
  }

  ghost predicate Settled(dec: Decoders, seen: set<Bytes>, l: Layer) {
    Closed(dec, seen, l.data) && (l.how == Base64 ==> Expanded(dec, seen, l.data))
  }

  /** What a layer is made from: a content, and whether it is a new base64 product, which alone is inflated and
      rotated. */
  datatype Origin = Origin(data: Bytes, blob: bool)

  function OriginOf(l: Layer): Origin { Origin(l.data, l.how == Base64) }

  /** Layer `l` is what its method makes of `parent`. */
  ghost predicate Derives(dec: Decoders, parent: Origin, l: Layer) {
    || (l.how == EvalArg && l.data in dec.evalArgs(parent.data))
    || (l.how == Hex && l.data in dec.hexRuns(parent.data))
    || (l.how == Base64 && l.data in dec.base64Runs(parent.data))
    || (l.how == Chr && l.data in dec.chrRuns(parent.data))
    || (parent.blob && (l == Layer(Rot, Rot13Of(parent.data)) || l in TryInflaters(dec, parent.data)))
  }

  /** `l` is made from the whole file rather than from a layer. */
  ghost predicate TopLevel(dec: Decoders, src: Bytes, l: Layer) {
    || (l.how == Normalized && dec.normalize(src) == Some(l.data))
    || (l.how == Folded && dec.fold(src) == Some(l.data))
  }

  /** Layer `i` derives from `root` or from a layer recorded at position `lo` or later and before `i`. */
  ghost predicate Sourced(dec: Decoders, root: Origin, lo: nat, layers: seq<Layer>, i: nat)
    requires i < |layers|
  {
    Derives(dec, root, layers[i]) || exists j :: lo <= j < i && Derives(dec, OriginOf(layers[j]), layers[i])
  }

  function DataOf(layers: seq<Layer>): set<Bytes> {
    set i | 0 <= i < |layers| :: layers[i].data
  }

  function TotalBytes(layers: seq<Layer>): nat {
    if layers == [] then 0 else TotalBytes(layers[..|layers| - 1]) + |layers[|layers| - 1].data|
  }

  ghost predicate Distinct(layers: seq<Layer>) {
    forall i, j :: 0 <= i < j < |layers| ==> layers[i].data != layers[j].data
  }

  /** A nest of encodings: each element is made from the one before it. */
  ghost predicate Nest(dec: Decoders, src: Bytes, nest: seq<Origin>) {
    && nest != []
    && (nest[0] == Origin(src, false) || exists l :: TopLevel(dec, src, l) && OriginOf(l) == nest[0])
    && forall k :: 0 < k < |nest| ==> MadeFrom(dec, nest[k - 1], nest[k])
  }

  ghost predicate MadeFrom(dec: Decoders, parent: Origin, child: Origin) {
    exists l :: Derives(dec, parent, l) && OriginOf(l) == child
  }

  /** A product of the file or of a recorded layer that does not fit in what is left of the output. */
  ghost predicate Oversize(dec: Decoders, src: Bytes, layers: seq<Layer>, l: Layer) {
    && TotalBytes(layers) + |l.data| > MAX_OUTPUT
    && (TopLevel(dec, src, l) || Derives(dec, Origin(src, false), l)
        || exists j :: 0 <= j < |layers| && Derives(dec, OriginOf(layers[j]), l))
  }

  /** The only reasons for which a result may be marked truncated. */
  ghost predicate Cause(dec: Decoders, src: Bytes, layers: seq<Layer>) {
    || |layers| >= MAX_LAYERS
    || (exists l :: Oversize(dec, src, layers, l))
    || (exists nest :: Nest(dec, src, nest) && |nest| > MAX_DEPTH + 1)
  }

  ghost predicate Bounded(layers: seq<Layer>) {
    && |layers| <= MAX_LAYERS
    && Distinct(layers)
    && TotalBytes(layers) <= MAX_OUTPUT
    && forall i :: 0 <= i < |layers| ==> layers[i].data != []
  }

  /** From position `from` on, every layer derives from `root` or from a layer between `lo` and itself. */
  ghost predicate SourcedFrom(dec: Decoders, root: Origin, lo: nat, from: nat, layers: seq<Layer>) {
    forall i :: from <= i < |layers| ==> Sourced(dec, root, lo, layers, i)
  }

  ghost predicate AllSettled(dec: Decoders, from: nat, to: nat, layers: seq<Layer>) {
    forall i :: from <= i < to && i < |layers| ==> Settled(dec, DataOf(layers), layers[i])
  }

  /** Every non-empty item is the content of some layer. */
  ghost predicate Covers(layers: seq<Layer>, items: seq<Bytes>) {
    forall d :: d in items && d != [] ==> d in DataOf(layers)
  }

  /** What a search rooted at `root` leaves behind. */
  ghost predicate Searched(dec: Decoders, root: Origin, before: seq<Layer>, after: seq<Layer>, truncated: bool) {
    && before <= after
    && SourcedFrom(dec, root, |before|, |before|, after)
    && (!truncated ==> AllSettled(dec, |before|, |after|, after))
  }

  // ---- how these facts grow with the layers ------------------------------------------------------------------

  lemma DataGrows(a: seq<Layer>, b: seq<Layer>)
    requires a <= b
    ensures DataOf(a) <= DataOf(b)
  {
    forall i | 0 <= i < |a| ensures a[i].data in DataOf(b) { assert a[i] == b[i]; }
  }

  lemma DataOfNext(layers: seq<Layer>, l: Layer)
    ensures DataOf(layers + [l]) == DataOf(layers) + {l.data}
    ensures TotalBytes(layers + [l]) == TotalBytes(layers) + |l.data|
  {
    var next := layers + [l];
    assert next[..|next| - 1] == layers && next[|layers|] == l;
    DataGrows(layers, next);
    forall d | d in DataOf(next) ensures d in DataOf(layers) + {l.data} {
      var i :| 0 <= i < |next| && next[i].data == d;
      if i < |layers| { assert layers[i].data == d; }
    }
  }

  lemma {:induction false} TotalGrows(a: seq<Layer>, b: seq<Layer>)
    requires a <= b
    ensures TotalBytes(a) <= TotalBytes(b)
  {
    if a != b {
      assert a <= b[..|b| - 1];
      TotalGrows(a, b[..|b| - 1]);
    }
  }

  lemma CausePersists(dec: Decoders, src: Bytes, a: seq<Layer>, b: seq<Layer>)
    requires a <= b && Cause(dec, src, a)
    ensures Cause(dec, src, b)
  {
    TotalGrows(a, b);
    if exists l :: Oversize(dec, src, a, l) {
      var l :| Oversize(dec, src, a, l);
      if j :| 0 <= j < |a| && Derives(dec, OriginOf(a[j]), l) {
        assert b[j] == a[j];
      }
      assert Oversize(dec, src, b, l);
    }
  }

  lemma SettledPersists(dec: Decoders, from: nat, to: nat, a: seq<Layer>, b: seq<Layer>)
    requires a <= b && to <= |a| && AllSettled(dec, from, to, a)
    ensures AllSettled(dec, from, to, b)
  {
    DataGrows(a, b);
    forall i | from <= i < to ensures Settled(dec, DataOf(b), b[i]) {
      assert b[i] == a[i] && Settled(dec, DataOf(a), a[i]);
    }
  }

  lemma SourcedPersists(dec: Decoders, root: Origin, lo: nat, a: seq<Layer>, b: seq<Layer>, i: nat)
    requires a <= b && i < |a| && Sourced(dec, root, lo, a, i)
    ensures Sourced(dec, root, lo, b, i)
  {
    if j :| lo <= j < i && Derives(dec, OriginOf(a[j]), a[i]) { assert b[j] == a[j]; }
  }

  /** One origin can make whatever the other can. */
  predicate Within(sub: Origin, root: Origin) { sub.data == root.data && (sub.blob ==> root.blob) }

  /** A search from `sub`, which is `root` itself or a layer found since `lo`, extends a search from `root`. */
  lemma SourcedThrough(dec: Decoders, root: Origin, lo: nat, from: nat, sub: Origin, mid: seq<Layer>, after: seq<Layer>)
    requires lo <= |mid| && mid <= after
    requires Within(sub, root) || exists j :: lo <= j < |mid| && Within(sub, OriginOf(mid[j]))
    requires SourcedFrom(dec, root, lo, from, mid) && SourcedFrom(dec, sub, |mid|, |mid|, after)
    ensures SourcedFrom(dec, root, lo, from, after)
  {
    forall i | from <= i < |after| ensures Sourced(dec, root, lo, after, i) {
      if i < |mid| {
        SourcedPersists(dec, root, lo, mid, after, i);
      } else {
        assert Sourced(dec, sub, |mid|, after, i);
        if !Within(sub, root) && Derives(dec, sub, after[i]) {
          var j :| lo <= j < |mid| && Within(sub, OriginOf(mid[j]));
          assert after[j] == mid[j];
        }
      }
    }
  }

  lemma SearchedThrough(dec: Decoders, root: Origin, start: seq<Layer>, mid: seq<Layer>, after: seq<Layer>,
                        truncated: bool)
    requires Searched(dec, root, start, mid, truncated) && Searched(dec, root, mid, after, truncated)
    ensures Searched(dec, root, start, after, truncated)
  {
    SourcedThrough(dec, root, |start|, |start|, root, mid, after);
    if !truncated { SettledPersists(dec, |start|, |mid|, mid, after); }
  }

  lemma CoversPersists(a: seq<Layer>, b: seq<Layer>, items: seq<Bytes>)
    requires a <= b && Covers(a, items)
    ensures Covers(b, items)
  {
    DataGrows(a, b);
  }

  lemma CoversNext(layers: seq<Layer>, items: seq<Bytes>, k: nat)
    requires k < |items| && Covers(layers, items[..k]) && (items[k] != [] ==> items[k] in DataOf(layers))
    ensures Covers(layers, items[..k + 1])
  {
    assert items[..k + 1] == items[..k] + [items[k]];
  }

  lemma ClosedByCover(dec: Decoders, data: Bytes, layers: seq<Layer>)
    requires Covers(layers, dec.evalArgs(data)) && Covers(layers, dec.hexRuns(data))
    requires Covers(layers, dec.base64Runs(data)) && Covers(layers, dec.chrRuns(data))
    ensures Closed(dec, DataOf(layers), data)
  {
  }

  /** A layer recorded and then searched, as part of the search of `root`. */
  lemma OfferedAndSearched(dec: Decoders, root: Origin, start: seq<Layer>, l: Layer, after: seq<Layer>, truncated: bool)
    requires Derives(dec, root, l)
    requires Searched(dec, OriginOf(l), start + [l], after, truncated)
    requires !truncated ==> Settled(dec, DataOf(after), l)
    ensures Searched(dec, root, start, after, truncated)
    ensures l.data in DataOf(after)
  {
    var mid := start + [l];
    assert mid[|start|] == l && start <= after && after[|start|] == l;
    SourcedThrough(dec, root, |start|, |start|, OriginOf(l), mid, after);
    DataOfNext(start, l);
    DataGrows(mid, after);
  }

  /** The non-empty ones among `items` are recorded. */
  ghost predicate Inflated(layers: seq<Layer>, items: seq<Layer>) {
    forall l :: l in items && l.data != [] ==> l.data in DataOf(layers)
  }

  lemma InflatedNext(mid: seq<Layer>, after: seq<Layer>, items: seq<Layer>, k: nat)
    requires mid <= after && k < |items| && Inflated(mid, items[..k])
    requires items[k].data != [] ==> items[k].data in DataOf(after)
    ensures Inflated(after, items[..k + 1])
  {
    DataGrows(mid, after);
    assert items[..k + 1] == items[..k] + [items[k]];
  }

  lemma SearchedThrice(dec: Decoders, root: Origin, a: seq<Layer>, b: seq<Layer>, c: seq<Layer>, d: seq<Layer>,
                       truncated: bool)
    requires Searched(dec, root, a, b, truncated) && Searched(dec, root, b, c, truncated)
    requires Searched(dec, root, c, d, truncated)
    ensures Searched(dec, root, a, d, truncated)
  {
    SearchedThrough(dec, root, a, b, c, truncated);
    SearchedThrough(dec, root, a, c, d, truncated);
  }

  /** What a search from a content finds, a search from the same content as a blob finds. */
  lemma SearchedAsBlob(dec: Decoders, data: Bytes, before: seq<Layer>, after: seq<Layer>, truncated: bool)
    requires Searched(dec, Origin(data, false), before, after, truncated)
    ensures Searched(dec, Origin(data, true), before, after, truncated)
  {
    hide TryInflaters, Rot13Of;
    forall i | |before| <= i < |after| ensures Sourced(dec, Origin(data, true), |before|, after, i) {
      assert Sourced(dec, Origin(data, false), |before|, after, i);
    }
  }

  lemma BlobSearched(dec: Decoders, blob: Bytes, start: seq<Layer>, l1: seq<Layer>, l2: seq<Layer>,
                     after: seq<Layer>, truncated: bool)
    requires Searched(dec, Origin(blob, true), start, l1, truncated)
    requires Searched(dec, Origin(blob, true), l1, l2, truncated) && Searched(dec, Origin(blob, false), l2, after, truncated)
    requires !truncated ==> Inflated(l1, TryInflaters(dec, blob))
    requires !truncated ==> Rot13Of(blob) == [] || Rot13Of(blob) in DataOf(l2)
    requires !truncated ==> Closed(dec, DataOf(after), blob)
    ensures Searched(dec, Origin(blob, true), start, after, truncated)
    ensures !truncated ==> Settled(dec, DataOf(after), Layer(Base64, blob))
  {
    SearchedAsBlob(dec, blob, l2, after, truncated);
    SearchedThrice(dec, Origin(blob, true), start, l1, l2, after, truncated);
    DataGrows(l1, after);
    DataGrows(l2, after);
  }

  lemma WalkFinished(dec: Decoders, data: Bytes, start: seq<Layer>, l1: seq<Layer>, l2: seq<Layer>, l3: seq<Layer>,
                     after: seq<Layer>, truncated: bool)
    requires Searched(dec, Origin(data, false), start, l1, truncated) && Searched(dec, Origin(data, false), l1, l2, truncated)
    requires Searched(dec, Origin(data, false), l2, l3, truncated) && Searched(dec, Origin(data, false), l3, after, truncated)
    requires !truncated ==> Covers(l1, dec.evalArgs(data)) && Covers(l2, dec.hexRuns(data))
    requires !truncated ==> Covers(l3, dec.base64Runs(data)) && Covers(after, dec.chrRuns(data))
    ensures Searched(dec, Origin(data, false), start, after, truncated)
    ensures !truncated ==> Closed(dec, DataOf(after), data)
  {
    SearchedThrice(dec, Origin(data, false), start, l1, l2, l3, truncated);
    SearchedThrough(dec, Origin(data, false), start, l3, after, truncated);
    if !truncated {
      CoversPersists(l1, after, dec.evalArgs(data));
      CoversPersists(l2, after, dec.hexRuns(data));
      CoversPersists(l3, after, dec.base64Runs(data));
      ClosedByCover(dec, data, after);
    }
  }

  /** A view of the whole file, recorded and searched, keeps everything settled. */
  lemma WholeSettled(dec: Decoders, start: seq<Layer>, l: Layer, after: seq<Layer>)
    requires AllSettled(dec, 0, |start|, start) && l.how != Base64 && Closed(dec, DataOf(after), l.data)
    requires start + [l] <= after && AllSettled(dec, |start| + 1, |after|, after)
    ensures AllSettled(dec, 0, |after|, after)
  {
    hide Closed, Expanded, DataOf;
    SettledPersists(dec, 0, |start|, start, after);
    assert (start + [l])[|start|] == l && after[|start|] == l;
    forall i | 0 <= i < |after| ensures Settled(dec, DataOf(after), after[i]) {}
  }

  /** Where each layer of a whole run comes from. */
  ghost predicate Accounted(dec: Decoders, src: Bytes, layers: seq<Layer>) {
    forall i :: 0 <= i < |layers| ==> TopLevel(dec, src, layers[i]) || Sourced(dec, Origin(src, false), 0, layers, i)
  }

  /** Searching from `root`, which is the file or the layer recorded last, keeps a run accounted for. */
  lemma AccountedThrough(dec: Decoders, src: Bytes, root: Bytes, mid: seq<Layer>, after: seq<Layer>)
    requires Accounted(dec, src, mid) && mid <= after
    requires root == src || (mid != [] && mid[|mid| - 1].data == root)
    requires SourcedFrom(dec, Origin(root, false), |mid|, |mid|, after)
    ensures Accounted(dec, src, after)
  {
    hide TryInflaters, Rot13Of;
    var file := Origin(src, false);
    forall i | 0 <= i < |after| ensures TopLevel(dec, src, after[i]) || Sourced(dec, file, 0, after, i) {
      if i < |mid| {
        if Sourced(dec, file, 0, mid, i) { SourcedPersists(dec, file, 0, mid, after, i); }
      } else {
        assert Sourced(dec, Origin(root, false), |mid|, after, i);
        if root != src && Derives(dec, Origin(root, false), after[i]) { assert after[|mid| - 1].data == root; }
      }
    }
  }

  lemma AccountedNext(dec: Decoders, src: Bytes, layers: seq<Layer>, l: Layer)
    requires Accounted(dec, src, layers) && TopLevel(dec, src, l)
    ensures Accounted(dec, src, layers + [l])
  {
    var file := Origin(src, false);
    forall i | 0 <= i < |layers| && Sourced(dec, file, 0, layers, i) ensures Sourced(dec, file, 0, layers + [l], i) {
      SourcedPersists(dec, file, 0, layers, layers + [l], i);
    }
  }

  ghost function Deeper(dec: Decoders, src: Bytes, nest: seq<Origin>, l: Layer): (longer: seq<Origin>)
    requires Nest(dec, src, nest) && Derives(dec, nest[|nest| - 1], l)
    ensures Nest(dec, src, longer) && |longer| == |nest| + 1 && longer[|nest|] == OriginOf(l)
  {
    assert MadeFrom(dec, nest[|nest| - 1], OriginOf(l));
    nest + [OriginOf(l)]
  }

  // ---- the decoder state ----------------------------------------------------------------------------------

  class State {
    const dec: Decoders
    const src: Bytes
    var layers: seq<Layer>
    var seen: set<Bytes>
    var total: nat
    var truncated: bool
    ghost var entered: nat // how often Walk has been called

    constructor (dec: Decoders, src: Bytes)
      ensures this.dec == dec && this.src == src
      ensures Valid() && layers == [] && !truncated && entered == 0
    {
      this.dec, this.src := dec, src;
      layers, seen, total, truncated, entered := [], {}, 0, false, 0;
    }

    ghost predicate Valid()
      reads this
    {
      && Bounded(layers)
      && seen == DataOf(layers)
      && total == TotalBytes(layers)
      && (truncated ==> Cause(dec, src, layers))
    }

    /** `l` is made from the file or from something already recorded. */
    ghost predicate Offered(l: Layer)
      reads this
    {
      || TopLevel(dec, src, l)
      || exists parent :: Derives(dec, parent, l) && Known(parent, layers)
    }

    /** The file, or a recorded layer. */
    ghost predicate Known(o: Origin, layers: seq<Layer>) {
      o == Origin(src, false) || exists j :: 0 <= j < |layers| && Within(o, OriginOf(layers[j]))
    }

    /** `nest` ends in `o` and is deeper than `depth`. */
    ghost predicate At(o: Origin, depth: nat, nest: seq<Origin>)
      reads this
    {
      Nest(dec, src, nest) && |nest| > depth && Within(o, nest[|nest| - 1]) && Known(o, layers)
    }

    method Add(kind: Method, data: Bytes) returns (added: bool)
      requires Valid() && Offered(Layer(kind, data))
      modifies `layers, `seen, `total, `truncated
      ensures Valid()
      ensures added <==> data != [] && |old(layers)| < MAX_LAYERS && old(total) + |data| <= MAX_OUTPUT && data !in old(seen)
      ensures layers == if added then old(layers) + [Layer(kind, data)] else old(layers)
      ensures truncated == (old(truncated) ||
                (data != [] && (|old(layers)| >= MAX_LAYERS || old(total) + |data| > MAX_OUTPUT)))
      ensures data != [] && !truncated ==> data in DataOf(layers)
    {
      hide Offered, Cause, Bounded, DataOf, TotalBytes;
      if data == [] { return false; }
      if |layers| >= MAX_LAYERS || total + |data| > MAX_OUTPUT {
        NoRoom(Layer(kind, data));
        truncated := true;
        return false;
      }
      if data in seen { return false; }
      Room(Layer(kind, data));
      hide *;
      seen := seen + {data};
      total := total + |data|;
      layers := layers + [Layer(kind, data)];
      return true;
    }

    lemma Room(l: Layer)
      requires Valid() && l.data != [] && l.data !in seen
      requires |layers| < MAX_LAYERS && total + |l.data| <= MAX_OUTPUT
      ensures Bounded(layers + [l])
      ensures DataOf(layers + [l]) == seen + {l.data} && TotalBytes(layers + [l]) == total + |l.data|
      ensures truncated ==> Cause(dec, src, layers + [l])
    {
      var next := layers + [l];
      DataOfNext(layers, l);
      forall i, j | 0 <= i < j < |next| ensures next[i].data != next[j].data {
        if j == |layers| { assert layers[i].data in DataOf(layers); }
      }
      if truncated { CausePersists(dec, src, layers, next); }
    }

    lemma NoRoom(l: Layer)
      requires Valid() && Offered(l)
      requires |layers| >= MAX_LAYERS || total + |l.data| > MAX_OUTPUT
      ensures Cause(dec, src, layers)
    {
      if |layers| < MAX_LAYERS {
        if !TopLevel(dec, src, l) {
          var parent :| Derives(dec, parent, l) && Known(parent, layers);
          if parent != Origin(src, false) {
            var j :| 0 <= j < |layers| && Within(parent, OriginOf(layers[j]));
            assert Derives(dec, OriginOf(layers[j]), l);
          }
        }
        assert Oversize(dec, src, layers, l);
      }
    }

    lemma AtLater(o: Origin, depth: nat, nest: seq<Origin>, before: seq<Layer>)
      requires before <= layers && Nest(dec, src, nest) && |nest| > depth && Within(o, nest[|nest| - 1])
      requires Known(o, before)
      ensures At(o, depth, nest)
    {
      if j :| 0 <= j < |before| && Within(o, OriginOf(before[j])) { assert layers[j] == before[j]; }
    }

    /** Offer `d`, made from `parent`, and search it if it is new. */
    method Offer(kind: Method, d: Bytes, ghost parent: Origin, depth: nat, ghost nest: seq<Origin>)
      requires Valid() && At(parent, depth, nest) && depth <= MAX_DEPTH
      requires Derives(dec, parent, Layer(kind, d)) && kind != Base64
      modifies this
      ensures Valid() && Searched(dec, parent, old(layers), layers, truncated)
      ensures old(truncated) ==> truncated
      ensures !truncated && d != [] ==> d in DataOf(layers)
      ensures entered + |old(layers)| <= old(entered) + |layers|
      decreases MAX_DEPTH + 1 - depth, 0
    {
      ghost var start := layers;
      var added := Add(kind, d);
      if added {
        DataOfNext(start, Layer(kind, d));
        Walk(d, depth + 1, Deeper(dec, src, nest, Layer(kind, d)));
        OfferedAndSearched(dec, parent, start, Layer(kind, d), layers, truncated);
      }
    }

    /** One extractor loop: every item is offered, and the new ones are searched in turn. */
    method AddAll(kind: Method, items: seq<Bytes>, data: Bytes, depth: nat, ghost nest: seq<Origin>)
      requires Valid() && At(Origin(data, false), depth, nest) && depth <= MAX_DEPTH
      requires forall d :: d in items ==> Derives(dec, Origin(data, false), Layer(kind, d))
      requires kind != Base64
      modifies this
      ensures Valid() && Searched(dec, Origin(data, false), old(layers), layers, truncated)
      ensures old(truncated) ==> truncated
      ensures !truncated ==> Covers(layers, items)
      ensures entered + |old(layers)| <= old(entered) + |layers|
      decreases MAX_DEPTH + 1 - depth, 1
    {
      ghost var start := layers;
      for k := 0 to |items|
        invariant Valid() && Searched(dec, Origin(data, false), start, layers, truncated)
        invariant old(truncated) ==> truncated
        invariant !truncated ==> Covers(layers, items[..k])
        invariant entered + |start| <= old(entered) + |layers|
      {
        ghost var mid := layers;
        AtLater(Origin(data, false), depth, nest, start);
        Offer(kind, items[k], Origin(data, false), depth, nest);
        if !truncated {
          CoversPersists(mid, layers, items[..k]);
          CoversNext(layers, items, k);
        }
        SearchedThrough(dec, Origin(data, false), start, mid, layers, truncated);
      }
      assert items[..|items|] == items;
    }

    /** The base64 loop: a new blob is also inflated and rotated, and only then searched itself. */
    method AddBlobs(items: seq<Bytes>, data: Bytes, depth: nat, ghost nest: seq<Origin>)
      requires Valid() && At(Origin(data, false), depth, nest) && depth <= MAX_DEPTH
      requires forall d :: d in items ==> Derives(dec, Origin(data, false), Layer(Base64, d))
      modifies this
      ensures Valid() && Searched(dec, Origin(data, false), old(layers), layers, truncated)
      ensures old(truncated) ==> truncated
      ensures !truncated ==> Covers(layers, items)
      ensures entered + |old(layers)| <= old(entered) + |layers|
      decreases MAX_DEPTH + 1 - depth, 4
    {
      ghost var start := layers;
      for k := 0 to |items|
        invariant Valid() && Searched(dec, Origin(data, false), start, layers, truncated)
        invariant old(truncated) ==> truncated
        invariant !truncated ==> Covers(layers, items[..k])
        invariant entered + |start| <= old(entered) + |layers|
      {
        ghost var mid := layers;
        AtLater(Origin(data, false), depth, nest, start);
        OfferBlob(items[k], data, depth, nest);
        if !truncated {
          CoversPersists(mid, layers, items[..k]);
          CoversNext(layers, items, k);
        }
        SearchedThrough(dec, Origin(data, false), start, mid, layers, truncated);
      }
      assert items[..|items|] == items;
    }

    method OfferBlob(blob: Bytes, data: Bytes, depth: nat, ghost nest: seq<Origin>)
      requires Valid() && At(Origin(data, false), depth, nest) && depth <= MAX_DEPTH
      requires Derives(dec, Origin(data, false), Layer(Base64, blob))
      modifies this
      ensures Valid() && Searched(dec, Origin(data, false), old(layers), layers, truncated)
      ensures old(truncated) ==> truncated
      ensures !truncated && blob != [] ==> blob in DataOf(layers)
      ensures entered + |old(layers)| <= old(entered) + |layers|
      decreases MAX_DEPTH + 1 - depth, 3
    {
      if blob == [] { return; }
      ghost var start := layers;
      ghost var l := Layer(Base64, blob);
      var added := Add(Base64, blob);
      if added {
        DataOfNext(start, l);
        ExpandBlob(blob, depth, Deeper(dec, src, nest, l));
        OfferedAndSearched(dec, Origin(data, false), start, l, layers, truncated);
      }
    }

    method ExpandBlob(blob: Bytes, depth: nat, ghost nest: seq<Origin>)
      requires Valid() && At(Origin(blob, true), depth + 1, nest) && depth <= MAX_DEPTH
      modifies this
      ensures Valid() && Searched(dec, Origin(blob, true), old(layers), layers, truncated)
      ensures old(truncated) ==> truncated
      ensures !truncated ==> Settled(dec, DataOf(layers), Layer(Base64, blob))
      ensures entered + |old(layers)| <= old(entered) + 1 + |layers|
      decreases MAX_DEPTH + 1 - depth, 2
    {
      ghost var start := layers;
      AddInflations(blob, depth, nest);
      ghost var l1 := layers;
      var r := Rot13(blob);
      AtLater(Origin(blob, true), depth, nest, start);
      Offer(Rot, r, Origin(blob, true), depth, nest);
      ghost var l2 := layers;
      AtLater(Origin(blob, false), depth + 1, nest, start);
      Walk(blob, depth + 1, nest);
      BlobSearched(dec, blob, start, l1, l2, layers, truncated);
    }

    method AddInflations(blob: Bytes, depth: nat, ghost nest: seq<Origin>)
      requires Valid() && At(Origin(blob, true), depth, nest) && depth <= MAX_DEPTH
      modifies this
      ensures Valid() && Searched(dec, Origin(blob, true), old(layers), layers, truncated)
      ensures old(truncated) ==> truncated
      ensures !truncated ==> Inflated(layers, TryInflaters(dec, blob))
      ensures entered + |old(layers)| <= old(entered) + |layers|
      decreases MAX_DEPTH + 1 - depth, 1
    {
      ghost var start := layers;
      var items := TryInflaters(dec, blob);
      for k := 0 to |items|
        invariant Valid() && Searched(dec, Origin(blob, true), start, layers, truncated)
        invariant old(truncated) ==> truncated
        invariant !truncated ==> Inflated(layers, items[..k])
        invariant entered + |start| <= old(entered) + |layers|
      {
        ghost var mid := layers;
        AtLater(Origin(blob, true), depth, nest, start);
        assert items[k].how != Base64 && items[k] in items;
        Offer(items[k].how, items[k].data, Origin(blob, true), depth, nest);
        if !truncated { InflatedNext(mid, layers, items, k); }
        SearchedThrough(dec, Origin(blob, true), start, mid, layers, truncated);
      }
      assert items[..|items|] == items;
    }

    method Walk(data: Bytes, depth: nat, ghost nest: seq<Origin>)
      requires Valid() && At(Origin(data, false), depth, nest) && depth <= MAX_DEPTH + 1
      modifies this
      ensures Valid() && Searched(dec, Origin(data, false), old(layers), layers, truncated)
      ensures old(truncated) ==> truncated
      ensures !truncated ==> Closed(dec, DataOf(layers), data)
      ensures entered + |old(layers)| <= old(entered) + 1 + |layers|
      decreases MAX_DEPTH + 1 - depth, 5
    {
      entered := entered + 1;
      if depth > MAX_DEPTH {
        truncated := true;
        return;
      }
      ghost var start := layers;
      AddAll(EvalArg, dec.evalArgs(data), data, depth, nest);
      ghost var l1 := layers;
      AtLater(Origin(data, false), depth, nest, start);
      AddAll(Hex, dec.hexRuns(data), data, depth, nest);
      ghost var l2 := layers;
      AtLater(Origin(data, false), depth, nest, start);
      AddBlobs(dec.base64Runs(data), data, depth, nest);
      ghost var l3 := layers;
      AtLater(Origin(data, false), depth, nest, start);
      AddAll(Chr, dec.chrRuns(data), data, depth, nest);
      WalkFinished(dec, data, start, l1, l2, l3, layers, truncated);
    }

    lemma AtWhole(kind: Method, data: Bytes, before: seq<Layer>)
      requires TopLevel(dec, src, Layer(kind, data)) && layers == before + [Layer(kind, data)]
      ensures At(Origin(data, false), 0, [Origin(data, false)])
    {
      assert OriginOf(Layer(kind, data)) == Origin(data, false) && layers[|before|] == Layer(kind, data);
    }

    /** A view made of the whole file is recorded and, if new, searched. */
    method SearchWhole(kind: Method, data: Bytes)
      requires Valid() && Accounted(dec, src, layers) && TopLevel(dec, src, Layer(kind, data))
      requires !truncated ==> AllSettled(dec, 0, |layers|, layers)
      modifies this
      ensures Valid() && Accounted(dec, src, layers) && old(layers) <= layers
      ensures !truncated ==> AllSettled(dec, 0, |layers|, layers)
      ensures old(truncated) ==> truncated
      ensures !truncated && data != [] ==> data in DataOf(layers)
      ensures entered + |old(layers)| <= old(entered) + |layers|
    {
      hide TryInflaters, Rot13Of, Derives, Bounded, Cause, Closed, Accounted, AllSettled, Settled, DataOf, At;
      ghost var start := layers;
      var added := Add(kind, data);
      if added {
        ghost var l := Layer(kind, data);
        ghost var mid := start + [l];
        DataOfNext(start, l);
        AccountedNext(dec, src, start, l);
        AtWhole(kind, data, start);
        Walk(data, 0, [Origin(data, false)]);
        AccountedThrough(dec, src, data, mid, layers);
        DataGrows(mid, layers);
        if !truncated { WholeSettled(dec, start, l, layers); }
      } else if !truncated {
        SettledPersists(dec, 0, |start|, start, layers);
      }
    }
  }

  // ---- what the layers are, decoder by decoder ------------------------------------------------------------

  /** The content is empty or that of a layer. */
  ghost predicate Recorded(layers: seq<Layer>, data: Bytes) {
    data == [] || exists i :: 0 <= i < |layers| && layers[i].data == data
  }

  /** Everything a base64 product can be opened to is a layer: by each of the three inflaters, and rotated. */
  ghost predicate Opened(dec: Decoders, layers: seq<Layer>, blob: Bytes) {
    && Recorded(layers, dec.gzinflate(blob)) && Recorded(layers, dec.gzuncompress(blob)) && Recorded(layers, dec.gzdecode(blob))
    && exists r :: AllRotated(blob, r) && Recorded(layers, r)
  }

  /** The file, or a layer recorded before position i. */
  predicate Before(src: Bytes, layers: seq<Layer>, i: nat, parent: Bytes)
    requires i < |layers|
  {
    parent == src || exists j :: 0 <= j < i && layers[j].data == parent
  }

  /** A base64 layer recorded before position i. */
  predicate BlobBefore(layers: seq<Layer>, i: nat, parent: Bytes)
    requires i < |layers|
  {
    exists j :: 0 <= j < i && layers[j] == Layer(Base64, parent)
  }

  /** Layer i is what the decoder it names makes of the file or of an earlier layer; the inflaters and the rotation
      are applied to base64 layers only. */
  ghost predicate Made(dec: Decoders, src: Bytes, layers: seq<Layer>, i: nat)
    requires i < |layers|
  {
    var data := layers[i].data;
    match layers[i].how
    case Normalized => dec.normalize(src) == Some(data)
    case Folded => dec.fold(src) == Some(data)
    case EvalArg => exists parent :: Before(src, layers, i, parent) && data in dec.evalArgs(parent)
    case Hex => exists parent :: Before(src, layers, i, parent) && data in dec.hexRuns(parent)
    case Base64 => exists parent :: Before(src, layers, i, parent) && data in dec.base64Runs(parent)
    case Chr => exists parent :: Before(src, layers, i, parent) && data in dec.chrRuns(parent)
    case GzInflate => exists parent :: BlobBefore(layers, i, parent) && data == dec.gzinflate(parent)
    case GzUncompress => exists parent :: BlobBefore(layers, i, parent) && data == dec.gzuncompress(parent)
    case GzDecode => exists parent :: BlobBefore(layers, i, parent) && data == dec.gzdecode(parent)
    case Rot => exists parent :: BlobBefore(layers, i, parent) && AllRotated(parent, data)
  }

  lemma AccountedIsMade(dec: Decoders, src: Bytes, layers: seq<Layer>, i: nat)
    requires Accounted(dec, src, layers) && i < |layers|
    ensures Made(dec, src, layers, i)
  {
    hide Derives, Made;
    if TopLevel(dec, src, layers[i]) {
      TopLevelIsMade(dec, src, layers, i);
    } else {
      assert Sourced(dec, Origin(src, false), 0, layers, i);
      if Derives(dec, Origin(src, false), layers[i]) {
        DerivedIsMade(dec, src, layers, i, Origin(src, false));
      } else {
        var j :| 0 <= j < i && Derives(dec, OriginOf(layers[j]), layers[i]);
        DerivedIsMade(dec, src, layers, i, OriginOf(layers[j]));
      }
    }
  }

  lemma TopLevelIsMade(dec: Decoders, src: Bytes, layers: seq<Layer>, i: nat)
    requires i < |layers| && TopLevel(dec, src, layers[i])
    ensures Made(dec, src, layers, i)
  {}

  lemma DerivedIsMade(dec: Decoders, src: Bytes, layers: seq<Layer>, i: nat, o: Origin)
    requires i < |layers| && Before(src, layers, i, o.data) && (o.blob ==> BlobBefore(layers, i, o.data))
    requires Derives(dec, o, layers[i])
    ensures Made(dec, src, layers, i)
  {
    hide AllRotated, Rot13Of, Before, BlobBefore;
    Rot13Iff(o.data, Rot13Of(o.data));
  }

  lemma AllMade(dec: Decoders, src: Bytes, layers: seq<Layer>)
    requires Accounted(dec, src, layers)
    ensures forall i :: 0 <= i < |layers| ==> Made(dec, src, layers, i)
  {
    hide Accounted, Made;
    forall i | 0 <= i < |layers| ensures Made(dec, src, layers, i) { AccountedIsMade(dec, src, layers, i); }
  }

  lemma AllOpened(dec: Decoders, layers: seq<Layer>)
    requires forall l :: l in layers ==> Settled(dec, DataOf(layers), l)
    ensures forall l :: l in layers && l.how == Base64 ==> Opened(dec, layers, l.data)
  {
    hide Expanded, Opened, DataOf;
    forall l | l in layers && l.how == Base64 ensures Opened(dec, layers, l.data) { SettledIsOpened(dec, layers, l.data); }
  }

  lemma InflatersAre(dec: Decoders, data: Bytes, d: Bytes)
    requires d != [] && (d == dec.gzinflate(data) || d == dec.gzuncompress(data) || d == dec.gzdecode(data))
    ensures exists l :: l in TryInflaters(dec, data) && l.data == d
  {
    var a, b, c := Emit(GzInflate, dec.gzinflate(data)), Emit(GzUncompress, dec.gzuncompress(data)), Emit(GzDecode, dec.gzdecode(data));
    if d == dec.gzinflate(data) { assert Layer(GzInflate, d) in a; }
    else if d == dec.gzuncompress(data) { assert Layer(GzUncompress, d) in b; }
    else { assert Layer(GzDecode, d) in c; }
  }

  lemma SettledIsOpened(dec: Decoders, layers: seq<Layer>, blob: Bytes)
    requires Expanded(dec, DataOf(layers), blob)
    ensures Opened(dec, layers, blob)
  {
    hide AllRotated, Rot13Of, TryInflaters;
    Rot13Iff(blob, Rot13Of(blob));
    forall d | d in [dec.gzinflate(blob), dec.gzuncompress(blob), dec.gzdecode(blob)] ensures Recorded(layers, d) {
      if d != [] { InflatersAre(dec, blob, d); }
    }
    assert Recorded(layers, Rot13Of(blob));
  }

  // ---- the whole run ----------------------------------------------------------------------------------------

  datatype Unwrapped = Unwrapped(layers: seq<Layer>, truncated: bool)

  method Run(dec: Decoders, src: Bytes) returns (r: Unwrapped, ghost entered: nat)
    // Bounds: at most 64 layers, all different, at most 8 MiB in all, and at most 65 searches.
    ensures |r.layers| <= 64 && Distinct(r.layers) && TotalBytes(r.layers) <= 8 * 1024 * 1024
    ensures entered <= |r.layers| + 1
    // A run that reports no truncation is closed under the extractors.
    ensures !r.truncated ==> forall l :: l in r.layers ==> Settled(dec, DataOf(r.layers), l)
    ensures !r.truncated && dec.encoderGate(src) ==> Closed(dec, DataOf(r.layers), src)
    ensures !r.truncated ==> forall l :: TopLevel(dec, src, l) && l.data != [] ==> l.data in DataOf(r.layers)
    // A base64 layer is opened by every inflater, and rotated.
    ensures !r.truncated ==> forall l :: l in r.layers && l.how == Base64 ==> Opened(dec, r.layers, l.data)
    // Each layer is what the decoder it names makes of an earlier one.
    ensures forall i :: 0 <= i < |r.layers| ==> Made(dec, src, r.layers, i)
    // Nothing is invented, and truncation is reported only for a cause.
    ensures Accounted(dec, src, r.layers)
    ensures r.truncated ==> Cause(dec, src, r.layers)
  {
    hide Made, Opened, TryInflaters, Rot13Of, Nest;
    var st := new State(dec, src);
    var norm := dec.normalize(src);
    if norm.Some? {
      st.SearchWhole(Normalized, norm.value);
    }
    ghost var l1 := st.layers;
    if dec.encoderGate(src) {
      st.Walk(src, 0, [Origin(src, false)]);
      AccountedThrough(dec, src, src, l1, st.layers);
      if !st.truncated { SettledPersists(dec, 0, |l1|, l1, st.layers); }
    }
    ghost var l2 := st.layers;
    var folded := dec.fold(src);
    if folded.Some? {
      st.SearchWhole(Folded, folded.value);
    }
    DataGrows(l1, l2);
    DataGrows(l2, st.layers);
    r := Unwrapped(st.layers, st.truncated);
    entered := st.entered;
    AllMade(dec, src, r.layers);
    if !r.truncated { AllOpened(dec, r.layers); }
  }
}
