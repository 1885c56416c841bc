/** Scan roots out of proposals (shellsight/internal/discover/discovery.go). */
module Assemble {
  // A clean absolute path is the sequence of its components, so "inside" is the proper-prefix order. Two
  // parameters stand for what the host decides: whether a proposal passes validation, and the key under which
  // paths are compared (the path itself, or its lower-cased form on Windows).

  type Path = seq<string>
  type Mechanism = string

  datatype Proposal = Proposal(text: string, mechanism: Mechanism, source: string, alsoFoundBy: seq<Mechanism>)

  datatype Root = Root(path: Path, mechanism: Mechanism, source: string, alsoFoundBy: seq<Mechanism>, subsumes: seq<Path>)

  datatype Verdict = Accepted(path: Path) | Rejected(reason: string)

  datatype Rejection = Rejection(proposal: Proposal, reason: string)

  datatype Status = Succeeded | Attempted | Unavailable | Refused

  datatype Outcome = Outcome(mechanism: Mechanism, status: Status, roots: nat, detail: string)

  datatype Result = Result(roots: seq<Root>, outcomes: seq<Outcome>, rejected: seq<Rejection>, rejectedTotal: nat)

  datatype Host = Host(validate: Proposal -> Verdict, key: Path -> Path)

  const MAX_REPORTED_REJECTIONS: nat := 20
  const ABSENT := "the directory does not exist"
  const NOT_ABSOLUTE := "the path is not absolute on this platform"
  const ALL_REJECTED := "every path it proposed was rejected by validation"

  // ---- validation ------------------------------------------------------------------------------------------

  /** A guess that finds nothing says nothing about the host. */
  predicate SilentMiss(p: Proposal, reason: string) {
    p.mechanism in ["convention", "tomcat-convention", "appserver-convention"] && reason in [ABSENT, NOT_ABSOLUTE]
  }

  predicate IsSilent(h: Host, p: Proposal) {
    h.validate(p).Rejected? && SilentMiss(p, h.validate(p).reason)
  }

  function AsRoot(p: Proposal, path: Path): Root { Root(path, p.mechanism, p.source, p.alsoFoundBy, []) }

  function Kept(h: Host, ps: seq<Proposal>): seq<Root> {
    if ps == [] then []
    else
      var p := ps[|ps| - 1];
      Kept(h, ps[..|ps| - 1]) + if h.validate(p).Accepted? then [AsRoot(p, h.validate(p).path)] else []
  }

  function Refusals(h: Host, ps: seq<Proposal>): seq<Rejection> {
    if ps == [] then []
    else
      var p := ps[|ps| - 1];
      Refusals(h, ps[..|ps| - 1])
      + if h.validate(p).Rejected? && !IsSilent(h, p) then [Rejection(p, h.validate(p).reason)] else []
  }

  function SilentCount(h: Host, ps: seq<Proposal>): nat {
    if ps == [] then 0 else SilentCount(h, ps[..|ps| - 1]) + if IsSilent(h, ps[|ps| - 1]) then 1 else 0
  }

  function Bounded(rs: seq<Rejection>): seq<Rejection> {
    if |rs| <= MAX_REPORTED_REJECTIONS then rs else rs[..MAX_REPORTED_REJECTIONS]
  }

  method Validate(h: Host, proposed: seq<Proposal>) returns (kept: seq<Root>, rejected: seq<Rejection>, total: nat)
    ensures kept == Kept(h, proposed)
    ensures total == |Refusals(h, proposed)| && rejected == Bounded(Refusals(h, proposed))
  {
    kept, rejected, total := [], [], 0;
    for i := 0 to |proposed|
      invariant kept == Kept(h, proposed[..i])
      invariant total == |Refusals(h, proposed[..i])| && rejected == Bounded(Refusals(h, proposed[..i]))
    {
      var p := proposed[i];
      assert proposed[..i + 1][..i] == proposed[..i];
      match h.validate(p) {
        case Accepted(path) =>
          kept := kept + [AsRoot(p, path)];
        case Rejected(reason) =>
          if !SilentMiss(p, reason) {
            total := total + 1;
            if |rejected| < MAX_REPORTED_REJECTIONS {
              rejected := rejected + [Rejection(p, reason)];
            }
          }
      }
    }
    assert proposed[..|proposed|] == proposed;
  }

  /** No proposal is lost: each is accepted, silently missed, or counted as rejected. */
  lemma {:induction false} EveryProposalCounted(h: Host, ps: seq<Proposal>)
    ensures |ps| == |Kept(h, ps)| + SilentCount(h, ps) + |Refusals(h, ps)|
  {
    if ps != [] { EveryProposalCounted(h, ps[..|ps| - 1]); }
  }

  // ---- proposals of one directory ----------------------------------------------------------------------------

  function Specificity(m: Mechanism): nat {
    if m == "explicit" then 3
    else if m in ["convention", "iis-default", "tomcat-convention", "appserver-convention"] then 1
    else if m == "" then 0
    else 2
  }

  method AppendUniqueMechanism(list: seq<Mechanism>, m: Mechanism) returns (r: seq<Mechanism>)
    ensures r == WithMechanism(list, m)
  {
    if m == "" { return list; }
    for i := 0 to |list|
      invariant m !in list[..i]
    {
      if list[i] == m { return list; }
    }
    r := list + [m];
  }

  function WithMechanism(list: seq<Mechanism>, m: Mechanism): seq<Mechanism> {
    if m == "" || m in list then list else list + [m]
  }

  function WithMechanisms(list: seq<Mechanism>, ms: seq<Mechanism>): seq<Mechanism> {
    if ms == [] then list else WithMechanism(WithMechanisms(list, ms[..|ms| - 1]), ms[|ms| - 1])
  }

  function Keys(h: Host, ps: seq<Path>): set<Path> { set p | p in ps :: h.key(p) }

  method AppendUnique(h: Host, list: seq<Path>, s: Path) returns (r: seq<Path>)
    ensures r == WithPath(h, list, s)
  {
    for i := 0 to |list|
      invariant forall k :: 0 <= k < i ==> h.key(list[k]) != h.key(s)
    {
      if h.key(list[i]) == h.key(s) {
        assert list[i] in list;
        return list;
      }
    }
    r := list + [s];
  }

  function WithPath(h: Host, list: seq<Path>, s: Path): seq<Path> {
    if h.key(s) in Keys(h, list) then list else list + [s]
  }

  function WithPaths(h: Host, list: seq<Path>, ps: seq<Path>): seq<Path> {
    if ps == [] then list else WithPath(h, WithPaths(h, list, ps[..|ps| - 1]), ps[|ps| - 1])
  }

  /** `other` joins `keep`, which stays in front unless the other's provenance is strictly stronger. */
  function Merge(h: Host, keep: Root, other: Root): Root {
    var (front, back) := if Specificity(other.mechanism) > Specificity(keep.mechanism) then (other, keep) else (keep, other);
    front.(
      alsoFoundBy := WithMechanisms(WithMechanism(front.alsoFoundBy, back.mechanism), back.alsoFoundBy),
      subsumes := WithPaths(h, front.subsumes, back.subsumes))
  }

  method MergeSamePath(h: Host, keep: Root, other: Root) returns (r: Root)
    ensures r == Merge(h, keep, other)
  {
    var front, back := keep, other;
    if Specificity(other.mechanism) > Specificity(keep.mechanism) { front, back := other, keep; }
    var also := AppendUniqueMechanism(front.alsoFoundBy, back.mechanism);
    for i := 0 to |back.alsoFoundBy|
      invariant also == WithMechanisms(WithMechanism(front.alsoFoundBy, back.mechanism), back.alsoFoundBy[..i])
    {
      assert back.alsoFoundBy[..i + 1][..i] == back.alsoFoundBy[..i];
      also := AppendUniqueMechanism(also, back.alsoFoundBy[i]);
    }
    assert back.alsoFoundBy[..|back.alsoFoundBy|] == back.alsoFoundBy;
    var subsumes := front.subsumes;
    for i := 0 to |back.subsumes|
      invariant subsumes == WithPaths(h, front.subsumes, back.subsumes[..i])
    {
      assert back.subsumes[..i + 1][..i] == back.subsumes[..i];
      subsumes := AppendUnique(h, subsumes, back.subsumes[i]);
    }
    assert back.subsumes[..|back.subsumes|] == back.subsumes;
    r := front.(alsoFoundBy := also, subsumes := subsumes);
  }

  /** The mechanisms that found a root. */
  function Mechs(r: Root): set<Mechanism> { ({r.mechanism} + (set m | m in r.alsoFoundBy)) - {""} }

  lemma {:induction false} WithMechanismsHas(list: seq<Mechanism>, ms: seq<Mechanism>, m: Mechanism)
    requires m != ""
    ensures m in WithMechanisms(list, ms) <==> m in list || m in ms
  {
    if ms != [] {
      WithMechanismsHas(list, ms[..|ms| - 1], m);
      assert ms == ms[..|ms| - 1] + [ms[|ms| - 1]];
    }
  }

  /** Merging loses no mechanism and invents none. */
  lemma MergeMechs(h: Host, keep: Root, other: Root)
    ensures Mechs(Merge(h, keep, other)) == Mechs(keep) + Mechs(other)
  {
    hide WithMechanisms, WithPaths, Specificity;
    var swap := Specificity(other.mechanism) > Specificity(keep.mechanism);
    var (front, back) := if swap then (other, keep) else (keep, other);
    forall m | m != "" ensures m in Mechs(Merge(h, keep, other)) <==> m in Mechs(keep) + Mechs(other) {
      WithMechanismsHas(WithMechanism(front.alsoFoundBy, back.mechanism), back.alsoFoundBy, m);
    }
  }

  /** Where the key stands, or the length. */
  function Position(h: Host, roots: seq<Root>, key: Path): (i: nat)
    ensures i <= |roots| && (i < |roots| ==> h.key(roots[i].path) == key)
    ensures forall k :: 0 <= k < i ==> h.key(roots[k].path) != key
  {
    if roots == [] then 0
    else
      var i := Position(h, roots[..|roots| - 1], key);
      if i < |roots| - 1 || h.key(roots[|roots| - 1].path) == key then i else |roots|
  }

  function Merged(h: Host, kept: seq<Root>): seq<Root> {
    if kept == [] then []
    else Joined(h, Merged(h, kept[..|kept| - 1]), kept[|kept| - 1])
  }

  function Joined(h: Host, merged: seq<Root>, r: Root): seq<Root> {
    var i := Position(h, merged, h.key(r.path));
    if i < |merged| then merged[i := Merge(h, merged[i], r)] else merged + [r]
  }

  ghost predicate Distinct(h: Host, roots: seq<Root>) {
    forall i, j :: 0 <= i < j < |roots| ==> h.key(roots[i].path) != h.key(roots[j].path)
  }

  ghost predicate Indexes(h: Host, roots: seq<Root>, index: map<Path, nat>) {
    && (forall k :: k in index ==> index[k] < |roots| && h.key(roots[index[k]].path) == k)
    && (forall i :: 0 <= i < |roots| ==> h.key(roots[i].path) in index && index[h.key(roots[i].path)] == i)
  }

  lemma MergeKey(h: Host, keep: Root, other: Root)
    requires h.key(keep.path) == h.key(other.path)
    ensures h.key(Merge(h, keep, other).path) == h.key(keep.path)
  {}

  lemma JoinedKeys(h: Host, merged: seq<Root>, r: Root)
    requires Distinct(h, merged)
    ensures Distinct(h, Joined(h, merged, r)) && |merged| <= |Joined(h, merged, r)|
    ensures forall i :: 0 <= i < |merged| ==> h.key(Joined(h, merged, r)[i].path) == h.key(merged[i].path)
  {
    hide Merge;
    var i := Position(h, merged, h.key(r.path));
    if i < |merged| { MergeKey(h, merged[i], r); }
  }

  method Collapse(h: Host, kept: seq<Root>) returns (merged: seq<Root>)
    ensures merged == Merged(h, kept)
  {
    hide Merge, Position;
    var index: map<Path, nat> := map[];
    merged := [];
    for n := 0 to |kept|
      invariant merged == Merged(h, kept[..n]) && Distinct(h, merged) && Indexes(h, merged, index)
    {
      var r := kept[n];
      assert kept[..n + 1][..n] == kept[..n];
      JoinedKeys(h, merged, r);
      var key := h.key(r.path);
      if key in index {
        var i := index[key];
        MergeKey(h, merged[i], r);
        var m := MergeSamePath(h, merged[i], r);
        merged := merged[i := m];
      } else {
        index := index[key := |merged|];
        merged := merged + [r];
      }
    }
    assert kept[..|kept|] == kept;
  }

  function MechsAt(h: Host, kept: seq<Root>, key: Path): set<Mechanism> {
    if kept == [] then {}
    else
      var r := kept[|kept| - 1];
      MechsAt(h, kept[..|kept| - 1], key) + if h.key(r.path) == key then Mechs(r) else {}
  }

  /** A merged root stands for exactly the proposals with its key, and for all their mechanisms. */
  ghost predicate Faithful(h: Host, kept: seq<Root>, merged: seq<Root>) {
    && Distinct(h, merged)
    && (forall i :: 0 <= i < |merged| ==> Mechs(merged[i]) == MechsAt(h, kept, h.key(merged[i].path)))
    && (forall key :: HasKey(h, merged, key) <==> HasKey(h, kept, key))
  }

  predicate HasKey(h: Host, roots: seq<Root>, key: Path) {
    exists i :: 0 <= i < |roots| && h.key(roots[i].path) == key
  }

  lemma {:induction false} NoMechsAt(h: Host, kept: seq<Root>, key: Path)
    requires !HasKey(h, kept, key)
    ensures MechsAt(h, kept, key) == {}
  {
    if kept != [] {
      assert forall i :: 0 <= i < |kept| - 1 ==> kept[..|kept| - 1][i] == kept[i];
      NoMechsAt(h, kept[..|kept| - 1], key);
    }
  }

  lemma {:induction false} CollapseFaithful(h: Host, kept: seq<Root>)
    ensures Faithful(h, kept, Merged(h, kept))
  {
    if kept != [] {
      var before, r := kept[..|kept| - 1], kept[|kept| - 1];
      CollapseFaithful(h, before);
      assert before + [r] == kept;
      JoinFaithful(h, before, Merged(h, before), r);
    }
  }

  lemma MechsAtSnoc(h: Host, kept: seq<Root>, r: Root, key: Path)
    ensures MechsAt(h, kept + [r], key) == MechsAt(h, kept, key) + if h.key(r.path) == key then Mechs(r) else {}
  {
    assert (kept + [r])[..|kept|] == kept;
  }

  lemma HasKeySnoc(h: Host, kept: seq<Root>, r: Root, key: Path)
    ensures HasKey(h, kept + [r], key) <==> HasKey(h, kept, key) || h.key(r.path) == key
  {
    if HasKey(h, kept, key) {
      var i :| 0 <= i < |kept| && h.key(kept[i].path) == key;
      assert (kept + [r])[i] == kept[i];
    }
    assert (kept + [r])[|kept|] == r;
  }

  lemma JoinFaithful(h: Host, kept: seq<Root>, merged: seq<Root>, r: Root)
    requires Faithful(h, kept, merged)
    ensures Faithful(h, kept + [r], Joined(h, merged, r))
  {
    hide Merge, Mechs, MechsAt, HasKey;
    var key := h.key(r.path);
    var joined := Joined(h, merged, r);
    var i := Position(h, merged, key);
    JoinedKeys(h, merged, r);
    if i < |merged| { MergeMechs(h, merged[i], r); MergeKey(h, merged[i], r); }
    else { NotThere(h, merged, key); NoMechsAt(h, kept, key); }
    forall n | 0 <= n < |joined| ensures Mechs(joined[n]) == MechsAt(h, kept + [r], h.key(joined[n].path)) {
      MechsAtSnoc(h, kept, r, h.key(joined[n].path));
      if n < |merged| && n != i { assert h.key(merged[n].path) != key; }
    }
    forall k ensures HasKey(h, joined, k) <==> HasKey(h, kept + [r], k) {
      HasKeySnoc(h, kept, r, k);
      JoinedHas(h, merged, r, k);
    }
  }

  lemma NotThere(h: Host, roots: seq<Root>, key: Path)
    requires Position(h, roots, key) == |roots|
    ensures !HasKey(h, roots, key)
  {}

  lemma JoinedHas(h: Host, merged: seq<Root>, r: Root, key: Path)
    requires Distinct(h, merged)
    ensures HasKey(h, Joined(h, merged, r), key) <==> HasKey(h, merged, key) || h.key(r.path) == key
  {
    hide Merge;
    JoinedKeys(h, merged, r);
    var joined := Joined(h, merged, r);
    var i := Position(h, merged, h.key(r.path));
    if HasKey(h, merged, key) {
      var n :| 0 <= n < |merged| && h.key(merged[n].path) == key;
      assert h.key(joined[n].path) == key;
    }
    assert i < |joined| && h.key(joined[i].path) == h.key(r.path) by {
      if i < |merged| { MergeKey(h, merged[i], r); }
    }
  }

  /** The provenance a merged root reports is the strongest proposed, the first of equals. */
  ghost predicate FirstStrongest(h: Host, kept: seq<Root>, key: Path, n: nat) {
    && n < |kept| && h.key(kept[n].path) == key
    && (forall k :: 0 <= k < n && h.key(kept[k].path) == key ==> Beats(kept[n].mechanism, kept[k].mechanism))
    && (forall k :: n < k < |kept| && h.key(kept[k].path) == key ==> !Beats(kept[k].mechanism, kept[n].mechanism))
  }

  /** A default of some server or distribution. */
  predicate Guessed(m: Mechanism) { m in ["convention", "iis-default", "tomcat-convention", "appserver-convention"] }

  /** Read out of a real configuration. */
  predicate Configured(m: Mechanism) { m != "" && m != "explicit" && !Guessed(m) }

  /** What the operator said beats everything else, what a configuration says beats a guess, and a guess beats
      nothing at all. */
  predicate Beats(a: Mechanism, b: Mechanism) {
    || (a == "explicit" && b != "explicit")
    || (Configured(a) && (Guessed(b) || b == ""))
    || (Guessed(a) && b == "")
  }

  lemma BeatsIff(a: Mechanism, b: Mechanism)
    ensures Beats(a, b) <==> Specificity(a) > Specificity(b)
  {}

  ghost predicate Provenance(h: Host, kept: seq<Root>, r: Root) {
    exists n: nat :: FirstStrongest(h, kept, h.key(r.path), n) && SameProvenance(kept[n], r)
  }

  predicate SameProvenance(a: Root, b: Root) {
    a.path == b.path && a.mechanism == b.mechanism && a.source == b.source
  }

  lemma {:induction false} CollapseStrongest(h: Host, kept: seq<Root>)
    ensures forall i :: 0 <= i < |Merged(h, kept)| ==> Provenance(h, kept, Merged(h, kept)[i])
  {
    if kept != [] {
      var before, r := kept[..|kept| - 1], kept[|kept| - 1];
      CollapseStrongest(h, before);
      CollapseFaithful(h, before);
      assert before + [r] == kept;
      var merged := Merged(h, before);
      var at := Position(h, merged, h.key(r.path));
      if at == |merged| { NotThere(h, merged, h.key(r.path)); }
      forall i | 0 <= i < |Joined(h, merged, r)| ensures Provenance(h, before + [r], Joined(h, merged, r)[i]) {
        if i < |merged| {
          var n: nat :| FirstStrongest(h, before, h.key(merged[i].path), n) && SameProvenance(before[n], merged[i]);
          JoinStrongest(h, before, merged, r, i, n);
        } else {
          NewStrongest(h, before, r);
        }
      }
    }
  }

  lemma NewStrongest(h: Host, kept: seq<Root>, r: Root)
    requires !HasKey(h, kept, h.key(r.path))
    ensures Provenance(h, kept + [r], r)
  {
    forall k | 0 <= k < |kept| ensures h.key((kept + [r])[k].path) != h.key(r.path) {
      assert h.key(kept[k].path) != h.key(r.path);
    }
    assert FirstStrongest(h, kept + [r], h.key(r.path), |kept|);
  }

  lemma JoinStrongest(h: Host, kept: seq<Root>, merged: seq<Root>, r: Root, i: nat, n: nat)
    requires Distinct(h, merged) && i < |merged|
    requires FirstStrongest(h, kept, h.key(merged[i].path), n) && SameProvenance(kept[n], merged[i])
    ensures i < |Joined(h, merged, r)| && Provenance(h, kept + [r], Joined(h, merged, r)[i])
  {
    forall a, b ensures Beats(a, b) <==> Specificity(a) > Specificity(b) { BeatsIff(a, b); }
    hide Specificity, WithMechanisms, WithPaths, Beats;
    var all := kept + [r];
    var m := if h.key(r.path) == h.key(merged[i].path) && Specificity(r.mechanism) > Specificity(merged[i].mechanism)
             then |kept| else n;
    assert FirstStrongest(h, all, h.key(merged[i].path), m);
    assert SameProvenance(all[m], Joined(h, merged, r)[i]);
  }

  // ---- nested roots --------------------------------------------------------------------------------------------

  /** `child` lies inside `parent`. */
  predicate IsAncestor(h: Host, parent: Path, child: Path) { h.key(parent) < h.key(child) }

  ghost predicate FirstEnclosing(h: Host, roots: seq<Root>, i: nat, j: int)
    requires i < |roots|
  {
    if j < 0 then forall k :: 0 <= k < |roots| ==> !IsAncestor(h, roots[k].path, roots[i].path)
    else
      && j < |roots| && IsAncestor(h, roots[j].path, roots[i].path)
      && forall k :: 0 <= k < j ==> !IsAncestor(h, roots[k].path, roots[i].path)
  }

  method EnclosingIndex(h: Host, roots: seq<Root>, i: nat) returns (j: int)
    requires i < |roots|
    ensures j >= -1 && FirstEnclosing(h, roots, i, j) && j == Enclosing(h, roots, i)
  {
    for k := 0 to |roots|
      invariant forall m :: 0 <= m < k ==> !IsAncestor(h, roots[m].path, roots[i].path)
    {
      if k != i && IsAncestor(h, roots[k].path, roots[i].path) {
        EnclosingUnique(h, roots, i, k);
        return k;
      }
    }
    EnclosingUnique(h, roots, i, -1);
    return -1;
  }

  /** The first root that contains root i, or -1. */
  function Enclosing(h: Host, roots: seq<Root>, i: nat): (j: int)
    requires i < |roots|
    ensures -1 <= j < |roots| && FirstEnclosing(h, roots, i, j)
  {
    EnclosingFrom(h, roots, i, 0)
  }

  function EnclosingFrom(h: Host, roots: seq<Root>, i: nat, from: nat): (j: int)
    requires i < |roots| && from <= |roots|
    requires forall k :: 0 <= k < from ==> !IsAncestor(h, roots[k].path, roots[i].path)
    ensures -1 <= j < |roots| && FirstEnclosing(h, roots, i, j)
    decreases |roots| - from
  {
    if from == |roots| then -1
    else if IsAncestor(h, roots[from].path, roots[i].path) then from
    else EnclosingFrom(h, roots, i, from + 1)
  }

  lemma EnclosingUnique(h: Host, roots: seq<Root>, i: nat, j: int)
    requires i < |roots| && j >= -1 && FirstEnclosing(h, roots, i, j)
    ensures j == Enclosing(h, roots, i)
  {
    hide IsAncestor;
  }

  /** What root `o` lists as subsumed once the first n roots have been looked at. */
  function Recorded(h: Host, merged: seq<Root>, o: nat, n: nat): seq<Path>
    requires o < |merged| && n <= |merged|
  {
    if n == 0 then merged[o].subsumes
    else if Enclosing(h, merged, n - 1) == o then WithPath(h, Recorded(h, merged, o, n - 1), merged[n - 1].path)
    else Recorded(h, merged, o, n - 1)
  }

  /** The final roots among the first n: those nothing contains, with what they list when they are copied out. */
  function Outermost(h: Host, merged: seq<Root>, n: nat): seq<Root>
    requires n <= |merged|
  {
    if n == 0 then []
    else
      Outermost(h, merged, n - 1)
      + if Enclosing(h, merged, n - 1) < 0 then [merged[n - 1].(subsumes := Recorded(h, merged, n - 1, n - 1))] else []
  }

  type Contributors = map<Mechanism, set<Path>>

  function CreditOne(c: Contributors, m: Mechanism, key: Path): Contributors {
    if m == "" then c else c[m := (if m in c then c[m] else {}) + {key}]
  }

  /** Every mechanism of root i is credited with the root that is scanned for it. */
  method Credit(c: Contributors, r: Root, key: Path) returns (c': Contributors)
    ensures CreditsAdd(c, c', Mechs(r), key)
  {
    c' := CreditOne(c, r.mechanism, key);
    for i := 0 to |r.alsoFoundBy|
      invariant CreditsAdd(c, c', Mechs(r.(alsoFoundBy := r.alsoFoundBy[..i])), key)
    {
      c' := CreditOne(c', r.alsoFoundBy[i], key);
      assert r.alsoFoundBy[..i + 1] == r.alsoFoundBy[..i] + [r.alsoFoundBy[i]];
    }
    assert r.alsoFoundBy[..|r.alsoFoundBy|] == r.alsoFoundBy;
  }

  ghost predicate CreditsAdd(c: Contributors, c': Contributors, ms: set<Mechanism>, key: Path) {
    forall m :: CreditOf(c', m) == CreditOf(c, m) + if m in ms then {key} else {}
  }

  function CreditOf(c: Contributors, m: Mechanism): set<Path> { if m in c then c[m] else {} }

  function CreditKey(h: Host, merged: seq<Root>, i: nat): Path
    requires i < |merged|
  {
    var outer := Enclosing(h, merged, i);
    h.key(merged[if outer < 0 then i else outer].path)
  }

  predicate Finds(r: Root, m: Mechanism) { m in Mechs(r) }

  function Credited(h: Host, merged: seq<Root>, m: Mechanism): set<Path> {
    set i: nat | 0 <= i < |merged| && Finds(merged[i], m) :: CreditKey(h, merged, i)
  }

  /** Same roots, apart from what they subsume. */
  ghost predicate SameRoots(a: seq<Root>, b: seq<Root>) {
    |a| == |b| && forall i :: 0 <= i < |a| ==> b[i] == a[i].(subsumes := b[i].subsumes)
  }

  lemma SameEnclosing(h: Host, a: seq<Root>, b: seq<Root>, i: nat, j: int)
    requires SameRoots(a, b) && i < |a| && j == Enclosing(h, b, i)
    ensures j == Enclosing(h, a, i)
  {
    assert forall k :: 0 <= k < |a| ==> b[k].path == a[k].path;
    EnclosingUnique(h, a, i, j);
  }

  /** The credits of the first n roots, the final ones kept back for the second pass. */
  function InnerCredits(h: Host, merged: seq<Root>, n: nat, m: Mechanism): set<Path>
    requires n <= |merged|
  {
    set i: nat | 0 <= i < n && Enclosing(h, merged, i) >= 0 && Finds(merged[i], m) :: CreditKey(h, merged, i)
  }

  method Subsume(h: Host, merged: seq<Root>) returns (final: seq<Root>, contributors: Contributors)
    ensures final == Outermost(h, merged, |merged|)
    ensures forall m :: CreditOf(contributors, m) == Credited(h, merged, m)
  {
    hide Enclosing, FirstEnclosing, IsAncestor, WithPath, Mechs, CreditOf;
    var roots := merged;
    contributors := map[];
    final := [];
    NoCredits(h, merged);
    for i := 0 to |merged|
      invariant SameRoots(merged, roots)
      invariant forall o :: 0 <= o < |roots| ==> roots[o].subsumes == Recorded(h, merged, o, i)
      invariant final == Outermost(h, merged, i)
      invariant forall m :: CreditOf(contributors, m) == InnerCredits(h, merged, i, m)
    {
      var r := roots[i];
      var outer := EnclosingIndex(h, roots, i);
      SameEnclosing(h, merged, roots, i, outer);
      InnerCreditsNext(h, merged, i, r);
      if outer >= 0 {
        var subsumes := AppendUnique(h, roots[outer].subsumes, r.path);
        roots := roots[outer := roots[outer].(subsumes := subsumes)];
        contributors := Credit(contributors, r, h.key(roots[outer].path));
      } else {
        final := final + [r];
      }
    }
    contributors := CreditFinal(h, merged, final, contributors);
  }

  lemma NoCredits(h: Host, merged: seq<Root>)
    ensures forall m :: CreditOf(map[], m) == InnerCredits(h, merged, 0, m)
  {}

  lemma SameMechs(a: Root, b: Root)
    requires b == a.(subsumes := b.subsumes)
    ensures Mechs(a) == Mechs(b)
  {}

  lemma InnerCreditsNext(h: Host, merged: seq<Root>, i: nat, r: Root)
    requires i < |merged| && r == merged[i].(subsumes := r.subsumes)
    ensures forall m :: InnerCredits(h, merged, i + 1, m) == InnerCredits(h, merged, i, m)
              + if Enclosing(h, merged, i) >= 0 && m in Mechs(r) then {CreditKey(h, merged, i)} else {}
  {
    hide Enclosing, Mechs, CreditKey;
    SameMechs(merged[i], r);
    forall m ensures InnerCredits(h, merged, i + 1, m) == InnerCredits(h, merged, i, m)
      + if Enclosing(h, merged, i) >= 0 && m in Mechs(r) then {CreditKey(h, merged, i)} else {}
    {
      assert Finds(merged[i], m) <==> m in Mechs(r);
    }
  }

  /** The second pass credits the final roots with themselves. */
  method CreditFinal(h: Host, merged: seq<Root>, final: seq<Root>, inner: Contributors) returns (c: Contributors)
    requires final == Outermost(h, merged, |merged|)
    requires forall m :: CreditOf(inner, m) == InnerCredits(h, merged, |merged|, m)
    ensures forall m :: CreditOf(c, m) == Credited(h, merged, m)
  {
    hide Enclosing, FirstEnclosing, Mechs, CreditOf, Outermost;
    c := inner;
    for i := 0 to |final|
      invariant forall m :: CreditOf(c, m) == CreditOf(inner, m) + OwnCredits(h, final[..i], m)
    {
      c := Credit(c, final[i], h.key(final[i].path));
      OwnCreditsNext(h, final, i);
    }
    assert final[..|final|] == final;
    forall m ensures CreditOf(c, m) == Credited(h, merged, m) { CreditsSplit(h, merged, final, m); }
  }

  function OwnCredits(h: Host, final: seq<Root>, m: Mechanism): set<Path> {
    set i: nat | 0 <= i < |final| && Finds(final[i], m) :: h.key(final[i].path)
  }

  lemma OwnCreditsNext(h: Host, final: seq<Root>, i: nat)
    requires i < |final|
    ensures forall m :: OwnCredits(h, final[..i + 1], m) == OwnCredits(h, final[..i], m)
              + if m in Mechs(final[i]) then {h.key(final[i].path)} else {}
  {
    hide Mechs;
    forall m ensures OwnCredits(h, final[..i + 1], m) == OwnCredits(h, final[..i], m)
      + if m in Mechs(final[i]) then {h.key(final[i].path)} else {}
    {
      OwnCreditsSnoc(h, final[..i], final[i], m);
      assert final[..i] + [final[i]] == final[..i + 1];
    }
  }

  lemma OwnCreditsSnoc(h: Host, final: seq<Root>, r: Root, m: Mechanism)
    ensures OwnCredits(h, final + [r], m) == OwnCredits(h, final, m) + if m in Mechs(r) then {h.key(r.path)} else {}
  {
    hide Mechs;
    var all := final + [r];
    forall key | key in OwnCredits(h, final, m) ensures key in OwnCredits(h, all, m) {
      var i: nat :| 0 <= i < |final| && Finds(final[i], m) && h.key(final[i].path) == key;
      assert all[i] == final[i];
    }
    assert Finds(r, m) ==> Finds(all[|final|], m) && h.key(r.path) in OwnCredits(h, all, m);
    assert forall i :: 0 <= i < |final| ==> all[i] == final[i];
  }

  /** Which merged root the f-th final root came from. */
  ghost predicate Came(h: Host, merged: seq<Root>, n: nat, f: nat, o: nat)
    requires n <= |merged|
  {
    && o < n && f < |Outermost(h, merged, n)| && Enclosing(h, merged, o) < 0
    && Outermost(h, merged, n)[f] == merged[o].(subsumes := Recorded(h, merged, o, o))
  }

  ghost predicate FinalFrom(h: Host, merged: seq<Root>, n: nat, f: nat)
    requires n <= |merged|
  {
    exists o: nat :: Came(h, merged, n, f, o)
  }

  ghost predicate IsFinal(h: Host, merged: seq<Root>, n: nat, o: nat)
    requires n <= |merged|
  {
    exists f: nat :: Came(h, merged, n, f, o)
  }

  lemma {:induction false} OutermostIs(h: Host, merged: seq<Root>, n: nat)
    requires n <= |merged|
    ensures forall f: nat :: f < |Outermost(h, merged, n)| ==> FinalFrom(h, merged, n, f)
    ensures forall o: nat :: o < n && Enclosing(h, merged, o) < 0 ==> IsFinal(h, merged, n, o)
  {
    hide Enclosing, FirstEnclosing, Recorded;
    if n > 0 {
      OutermostIs(h, merged, n - 1);
      var last := |Outermost(h, merged, n - 1)|;
      forall f: nat | f < |Outermost(h, merged, n)| ensures FinalFrom(h, merged, n, f) {
        if f < last {
          assert FinalFrom(h, merged, n - 1, f);
          var o: nat :| Came(h, merged, n - 1, f, o);
          assert Came(h, merged, n, f, o);
        } else {
          assert Came(h, merged, n, f, n - 1);
        }
      }
      forall o: nat | o < n && Enclosing(h, merged, o) < 0 ensures IsFinal(h, merged, n, o) {
        if o < n - 1 {
          assert IsFinal(h, merged, n - 1, o);
          var f: nat :| Came(h, merged, n - 1, f, o);
          assert Came(h, merged, n, f, o);
        } else {
          assert Came(h, merged, n, last, n - 1);
        }
      }
    }
  }

  lemma CreditsSplit(h: Host, merged: seq<Root>, final: seq<Root>, m: Mechanism)
    requires final == Outermost(h, merged, |merged|)
    ensures Credited(h, merged, m) == InnerCredits(h, merged, |merged|, m) + OwnCredits(h, final, m)
  {
    hide Enclosing, FirstEnclosing, Recorded, Mechs;
    var n := |merged|;
    OutermostIs(h, merged, n);
    forall key | key in Credited(h, merged, m) ensures key in InnerCredits(h, merged, n, m) + OwnCredits(h, final, m) {
      var o: nat :| 0 <= o < |merged| && Finds(merged[o], m) && CreditKey(h, merged, o) == key;
      if Enclosing(h, merged, o) < 0 {
        assert IsFinal(h, merged, n, o);
        var f: nat :| Came(h, merged, n, f, o);
        SameMechs(merged[o], final[f]);
        assert Finds(final[f], m) && h.key(final[f].path) == key;
      }
    }
    forall key | key in OwnCredits(h, final, m) ensures key in Credited(h, merged, m) {
      var f: nat :| 0 <= f < |final| && Finds(final[f], m) && h.key(final[f].path) == key;
      assert FinalFrom(h, merged, n, f);
      var o: nat :| Came(h, merged, n, f, o);
      SameMechs(merged[o], final[f]);
      assert Finds(merged[o], m) && CreditKey(h, merged, o) == key;
    }
  }

  // ---- outcomes --------------------------------------------------------------------------------------------------

  function Reconciled(o: Outcome, roots: nat): Outcome {
    if roots > 0 && o.status != Refused then o.(roots := roots, status := Succeeded)
    else if o.status == Succeeded then
      o.(roots := roots, status := Attempted, detail := if o.detail == "" then ALL_REJECTED else o.detail)
    else o.(roots := roots)
  }

  function Assembled(h: Host, proposed: seq<Proposal>, outcomes: seq<Outcome>): Result {
    var merged := Merged(h, Kept(h, proposed));
    Result(
      Outermost(h, merged, |merged|),
      seq(|outcomes|, i requires 0 <= i < |outcomes| =>
        Reconciled(outcomes[i], |Credited(h, merged, outcomes[i].mechanism)|)),
      Bounded(Refusals(h, proposed)), |Refusals(h, proposed)|)
  }

  method AssembleUnder(h: Host, proposed: seq<Proposal>, outcomes: seq<Outcome>) returns (res: Result)
    ensures res == Assembled(h, proposed, outcomes)
  {
    hide Kept, Merged, Outermost, Refusals, Bounded, Credited;
    var kept, rejected, total := Validate(h, proposed);
    var merged := Collapse(h, kept);
    var final, contributors := Subsume(h, merged);
    var accounts: seq<Outcome> := [];
    for i := 0 to |outcomes|
      invariant |accounts| == i
      invariant forall k :: 0 <= k < i ==>
                  accounts[k] == Reconciled(outcomes[k], |Credited(h, merged, outcomes[k].mechanism)|)
    {
      var o := outcomes[i];
      assert CreditOf(contributors, o.mechanism) == Credited(h, merged, o.mechanism);
      o := o.(roots := if o.mechanism in contributors then |contributors[o.mechanism]| else 0);
      if o.roots > 0 && o.status != Refused {
        o := o.(status := Succeeded);
      } else if o.status == Succeeded {
        o := o.(status := Attempted);
        if o.detail == "" { o := o.(detail := ALL_REJECTED); }
      }
      accounts := accounts + [o];
    }
    res := Result(final, accounts, rejected, total);
  }

  // ---- what assembling promises ------------------------------------------------------------------------------------

  /** No final root lies inside another, and none is listed twice. */
  lemma RootsAreAnAntichain(h: Host, proposed: seq<Proposal>, outcomes: seq<Outcome>, f: nat, g: nat)
    requires f < |Assembled(h, proposed, outcomes).roots| && g < |Assembled(h, proposed, outcomes).roots| && f != g
    ensures var roots := Assembled(h, proposed, outcomes).roots; !(h.key(roots[f].path) <= h.key(roots[g].path))
  {
    var merged := Merged(h, Kept(h, proposed));
    CollapseFaithful(h, Kept(h, proposed));
    OutermostDistinct(h, merged, |merged|, f, g);
  }

  lemma {:induction false} OutermostDistinct(h: Host, merged: seq<Root>, n: nat, f: nat, g: nat)
    requires Distinct(h, merged) && n <= |merged|
    requires f < |Outermost(h, merged, n)| && g < |Outermost(h, merged, n)| && f != g
    ensures var roots := Outermost(h, merged, n); !(h.key(roots[f].path) <= h.key(roots[g].path))
  {
    hide Recorded, Enclosing, Outermost, Distinct, FirstEnclosing;
    OutermostEmpty(h, merged);
    OutermostNext(h, merged, n);
    var roots := Outermost(h, merged, n);
    var last := |Outermost(h, merged, n - 1)|;
    if f < last && g < last {
      OutermostDistinct(h, merged, n - 1, f, g);
    } else {
      OutermostIs(h, merged, n - 1);
      var other: nat := if f < last then f else g;
      assert FinalFrom(h, merged, n - 1, other);
      var o: nat :| Came(h, merged, n - 1, other, o);
      assert roots[other] == Outermost(h, merged, n - 1)[other];
      Incomparable(h, merged, o, n - 1);
      Incomparable(h, merged, n - 1, o);
    }
  }

  lemma OutermostEmpty(h: Host, merged: seq<Root>) ensures Outermost(h, merged, 0) == [] {}

  lemma OutermostNext(h: Host, merged: seq<Root>, n: nat)
    requires 0 < n <= |merged|
    ensures Outermost(h, merged, n) == Outermost(h, merged, n - 1)
            + if Enclosing(h, merged, n - 1) < 0 then [merged[n - 1].(subsumes := Recorded(h, merged, n - 1, n - 1))] else []
  {}

  lemma Incomparable(h: Host, merged: seq<Root>, a: nat, b: nat)
    requires Distinct(h, merged) && a < |merged| && b < |merged| && a != b && Enclosing(h, merged, b) < 0
    ensures !(h.key(merged[a].path) <= h.key(merged[b].path))
  {
    assert !IsAncestor(h, merged[a].path, merged[b].path);
  }

  /** Every accepted proposal is scanned by exactly one final root. */
  lemma AcceptedInExactlyOneRoot(h: Host, proposed: seq<Proposal>, outcomes: seq<Outcome>, p: Proposal)
    requires p in proposed && h.validate(p).Accepted?
    ensures exists f: nat :: InRoot(h, Assembled(h, proposed, outcomes).roots, f, h.validate(p).path)
              && forall g: nat :: InRoot(h, Assembled(h, proposed, outcomes).roots, g, h.validate(p).path) ==> g == f
  {
    hide Assembled;
    var roots := Assembled(h, proposed, outcomes).roots;
    var path := h.validate(p).path;
    var f := SomeRoot(h, proposed, outcomes, p);
    forall g: nat | InRoot(h, roots, g, path) ensures g == f {
      if g != f {
        RootsAreAnAntichain(h, proposed, outcomes, f, g);
        RootsAreAnAntichain(h, proposed, outcomes, g, f);
        PrefixesCompare(h.key(roots[f].path), h.key(roots[g].path), h.key(path));
      }
    }
  }

  predicate InRoot(h: Host, roots: seq<Root>, f: nat, path: Path) {
    f < |roots| && h.key(roots[f].path) <= h.key(path)
  }

  lemma PrefixesCompare(a: Path, b: Path, c: Path)
    requires a <= c && b <= c
    ensures a <= b || b <= a
  {
    if |a| <= |b| { assert a == c[..|a|] == b[..|a|]; } else { assert b == c[..|b|] == a[..|b|]; }
  }

  lemma SomeRoot(h: Host, proposed: seq<Proposal>, outcomes: seq<Outcome>, p: Proposal) returns (f: nat)
    requires p in proposed && h.validate(p).Accepted?
    ensures InRoot(h, Assembled(h, proposed, outcomes).roots, f, h.validate(p).path)
  {
    hide Recorded, Enclosing, Outermost;
    var kept := Kept(h, proposed);
    var merged := Merged(h, kept);
    var key := h.key(h.validate(p).path);
    KeptHas(h, proposed, p);
    CollapseFaithful(h, kept);
    assert HasKey(h, merged, key);
    var i :| 0 <= i < |merged| && h.key(merged[i].path) == key;
    var o := Outer(h, merged, i);
    OutermostIs(h, merged, |merged|);
    assert IsFinal(h, merged, |merged|, o);
    f :| Came(h, merged, |merged|, f, o);
  }

  lemma {:induction false} Outer(h: Host, merged: seq<Root>, i: nat) returns (o: nat)
    requires i < |merged|
    ensures o < |merged| && Enclosing(h, merged, o) < 0 && h.key(merged[o].path) <= h.key(merged[i].path)
    decreases |h.key(merged[i].path)|
  {
    var j := Enclosing(h, merged, i);
    if j < 0 {
      o := i;
    } else {
      assert IsAncestor(h, merged[j].path, merged[i].path);
      o := Outer(h, merged, j);
      PrefixTransitive(h.key(merged[o].path), h.key(merged[j].path), h.key(merged[i].path));
    }
  }

  lemma PrefixTransitive(a: Path, b: Path, c: Path)
    requires a <= b && b <= c
    ensures a <= c
  {
    assert a == b[..|a|] == c[..|a|];
  }

  lemma {:induction false} KeptHas(h: Host, ps: seq<Proposal>, p: Proposal)
    requires p in ps && h.validate(p).Accepted?
    ensures HasKey(h, Kept(h, ps), h.key(h.validate(p).path))
  {
    var before, last := ps[..|ps| - 1], ps[|ps| - 1];
    assert before + [last] == ps;
    if p == last {
      HasKeySnoc(h, Kept(h, before), AsRoot(p, h.validate(p).path), h.key(h.validate(p).path));
    } else {
      KeptHas(h, before, p);
      if h.validate(last).Accepted? {
        HasKeySnoc(h, Kept(h, before), AsRoot(last, h.validate(last).path), h.key(h.validate(p).path));
      } else {
        assert Kept(h, before) + [] == Kept(h, before);
      }
    }
  }

  /** A mechanism found a proposal of its own, or agreed with one. */
  predicate FoundBy(h: Host, p: Proposal, m: Mechanism) {
    h.validate(p).Accepted? && m in Mechs(AsRoot(p, h.validate(p).path))
  }

  predicate Contributed(h: Host, proposed: seq<Proposal>, m: Mechanism) {
    exists p :: p in proposed && FoundBy(h, p, m)
  }

  /** A mechanism reports success exactly when it was not refused and contributed an accepted proposal, even one
      scanned as part of another's root. */
  lemma SucceededIffContributed(h: Host, proposed: seq<Proposal>, outcomes: seq<Outcome>, i: nat)
    requires i < |outcomes|
    ensures Assembled(h, proposed, outcomes).outcomes[i].status == Succeeded
            <==> outcomes[i].status != Refused && Contributed(h, proposed, outcomes[i].mechanism)
    ensures Assembled(h, proposed, outcomes).outcomes[i].roots > 0 <==> Contributed(h, proposed, outcomes[i].mechanism)
  {
    var merged := Merged(h, Kept(h, proposed));
    CreditedIff(h, proposed, outcomes[i].mechanism);
    hide Merged, Kept, Credited, Contributed;
    EmptyCredit(Credited(h, merged, outcomes[i].mechanism));
  }

  /** What becomes of an outcome: the status follows what was contributed, and a claimed success without an accepted
      proposal gets a reason if it has none. */
  lemma OutcomeIs(h: Host, proposed: seq<Proposal>, outcomes: seq<Outcome>, i: nat)
    requires i < |outcomes|
    ensures var was, now := outcomes[i], Assembled(h, proposed, outcomes).outcomes[i];
            var contributed := Contributed(h, proposed, was.mechanism);
            && |Assembled(h, proposed, outcomes).outcomes| == |outcomes| && now.mechanism == was.mechanism
            && now.status == (if contributed && was.status != Refused then Succeeded
                              else if was.status == Succeeded then Attempted else was.status)
            && now.detail == (if !contributed && was.status == Succeeded && was.detail == ""
                              then "every path it proposed was rejected by validation" else was.detail)
  {
    var merged := Merged(h, Kept(h, proposed));
    CreditedIff(h, proposed, outcomes[i].mechanism);
    hide Merged, Kept, Credited, Contributed;
    EmptyCredit(Credited(h, merged, outcomes[i].mechanism));
  }

  /** The root a merged root is credited to: itself when nothing contains it, else the first in the list that does. */
  ghost predicate CreditedTo(h: Host, merged: seq<Root>, i: nat, at: nat) {
    && i < |merged| && at < |merged|
    && if at == i then forall k :: 0 <= k < |merged| ==> !(h.key(merged[k].path) < h.key(merged[i].path))
       else
         && h.key(merged[at].path) < h.key(merged[i].path)
         && forall k :: 0 <= k < at ==> !(h.key(merged[k].path) < h.key(merged[i].path))
  }

  lemma CreditedToIs(h: Host, merged: seq<Root>, i: nat, at: nat)
    requires i < |merged| && at < |merged|
    ensures CreditedTo(h, merged, i, at) <==> at == if Enclosing(h, merged, i) < 0 then i else Enclosing(h, merged, i)
  {
    var j := Enclosing(h, merged, i);
    assert FirstEnclosing(h, merged, i, j);
  }

  /** A mechanism is credited with exactly the keys of the roots that the ones it found are credited to. */
  lemma CreditIff(h: Host, merged: seq<Root>, m: Mechanism, key: Path)
    ensures key in Credited(h, merged, m) <==>
              && m != ""
              && exists i: nat, at: nat :: CreditedTo(h, merged, i, at) && (m == merged[i].mechanism || m in merged[i].alsoFoundBy)
                                 && key == h.key(merged[at].path)
  {
    hide Enclosing;
    if key in Credited(h, merged, m) {
      var i: nat :| 0 <= i < |merged| && Finds(merged[i], m) && CreditKey(h, merged, i) == key;
      var j := Enclosing(h, merged, i);
      CreditedToIs(h, merged, i, if j < 0 then i else j);
    }
    if m != "" {
      forall i: nat, at: nat | i < |merged| && at < |merged| && CreditedTo(h, merged, i, at)
                               && (m == merged[i].mechanism || m in merged[i].alsoFoundBy)
        ensures h.key(merged[at].path) in Credited(h, merged, m)
      {
        CreditedToIs(h, merged, i, at);
        assert Finds(merged[i], m) && CreditKey(h, merged, i) == h.key(merged[at].path);
      }
    }
  }

  predicate IsFinalKey(h: Host, merged: seq<Root>, key: Path) {
    exists f :: 0 <= f < |Outermost(h, merged, |merged|)| && h.key(Outermost(h, merged, |merged|)[f].path) == key
  }

  /** Everything a mechanism is credited with is a root that is scanned if and only if no root it found lies in one
      whose first container lies itself in another: crediting looks one level up. */
  lemma CreditsAreScannedIff(h: Host, kept: seq<Root>, m: Mechanism)
    ensures var merged := Merged(h, kept);
            (forall key :: key in Credited(h, merged, m) ==> IsFinalKey(h, merged, key))
            <==> forall i :: 0 <= i < |merged| && Finds(merged[i], m) ==> OneLevel(h, merged, i)
  {
    hide Enclosing, Merged, Outermost, Mechs, FirstEnclosing;
    var merged := Merged(h, kept);
    CollapseFaithful(h, kept);
    forall i | 0 <= i < |merged| && Finds(merged[i], m)
      ensures CreditKey(h, merged, i) in Credited(h, merged, m)
      ensures IsFinalKey(h, merged, CreditKey(h, merged, i)) <==> OneLevel(h, merged, i)
    {
      var j := Enclosing(h, merged, i);
      FinalKeyIff(h, merged, if j < 0 then i else j);
    }
  }

  /** Nothing contains the root, or nothing contains the first root that does. */
  predicate OneLevel(h: Host, merged: seq<Root>, i: nat)
    requires i < |merged|
  {
    Enclosing(h, merged, i) < 0 || Enclosing(h, merged, Enclosing(h, merged, i)) < 0
  }

  lemma FinalKeyIff(h: Host, merged: seq<Root>, i: nat)
    requires Distinct(h, merged) && i < |merged|
    ensures IsFinalKey(h, merged, h.key(merged[i].path)) <==> Enclosing(h, merged, i) < 0
  {
    hide Enclosing, Outermost, Recorded;
    OutermostIs(h, merged, |merged|);
    if Enclosing(h, merged, i) < 0 {
      assert IsFinal(h, merged, |merged|, i);
      var f: nat :| Came(h, merged, |merged|, f, i);
    }
    if f :| 0 <= f < |Outermost(h, merged, |merged|)| && h.key(Outermost(h, merged, |merged|)[f].path) == h.key(merged[i].path) {
      assert FinalFrom(h, merged, |merged|, f);
      var o: nat :| Came(h, merged, |merged|, f, o);
    }
  }

  /** Three roots one inside the other, the middle one proposed first: the mechanism of the outer and the inner one
      is counted two roots while one is scanned. */
  lemma MoreRootsThanScanned(h: Host, outer: Proposal, middle: Proposal, inner: Proposal, o: Outcome)
    requires h.validate(outer).Accepted? && h.validate(middle).Accepted? && h.validate(inner).Accepted?
    requires IsAncestor(h, h.validate(outer).path, h.validate(middle).path)
    requires IsAncestor(h, h.validate(middle).path, h.validate(inner).path)
    requires outer.mechanism == inner.mechanism == o.mechanism != "" && outer.alsoFoundBy == inner.alsoFoundBy == []
    requires middle.mechanism != o.mechanism && middle.alsoFoundBy == []
    ensures var res := Assembled(h, [middle, outer, inner], [o]); |res.roots| == 1 && res.outcomes[0].roots == 2
  {
    var b, a, c := AsRoot(middle, h.validate(middle).path), AsRoot(outer, h.validate(outer).path), AsRoot(inner, h.validate(inner).path);
    PrefixTransitive(h.key(a.path), h.key(b.path), h.key(c.path));
    ThreeKept(h, middle, outer, inner);
    ThreeMerged(h, b, a, c);
    NestOfThree(h, a, b, c);
    hide Kept, Merged, Enclosing, Recorded, IsAncestor, Outermost, Credited;
    OneOutermost(h, [b, a, c]);
    TwoCredits(h, a, b, c, o.mechanism);
  }

  lemma NestOfThree(h: Host, a: Root, b: Root, c: Root)
    requires IsAncestor(h, a.path, b.path) && IsAncestor(h, b.path, c.path)
    ensures var merged := [b, a, c];
            Enclosing(h, merged, 0) == 1 && Enclosing(h, merged, 1) == -1 && Enclosing(h, merged, 2) == 0
  {
    var merged := [b, a, c];
    EnclosingUnique(h, merged, 0, 1);
    EnclosingUnique(h, merged, 1, -1);
    EnclosingUnique(h, merged, 2, 0);
  }

  lemma TwoCredits(h: Host, a: Root, b: Root, c: Root, m: Mechanism)
    requires var merged := [b, a, c];
             Enclosing(h, merged, 0) == 1 && Enclosing(h, merged, 1) == -1 && Enclosing(h, merged, 2) == 0
    requires m != "" && a.mechanism == c.mechanism == m && b.mechanism != m && a.alsoFoundBy == b.alsoFoundBy == c.alsoFoundBy == []
    requires h.key(a.path) != h.key(b.path)
    ensures |Credited(h, [b, a, c], m)| == 2
  {
    hide Enclosing;
    var merged := [b, a, c];
    assert Finds(merged[1], m) && Finds(merged[2], m) && !Finds(merged[0], m);
    assert CreditKey(h, merged, 1) == h.key(a.path) && CreditKey(h, merged, 2) == h.key(b.path);
    assert Credited(h, merged, m) == {h.key(a.path), h.key(b.path)};
  }

  lemma OneOutermost(h: Host, merged: seq<Root>)
    requires |merged| == 3 && Enclosing(h, merged, 0) >= 0 && Enclosing(h, merged, 1) < 0 && Enclosing(h, merged, 2) >= 0
    ensures |Outermost(h, merged, 3)| == 1
  {
    hide Enclosing, Recorded;
    assert Outermost(h, merged, 1) == [];
  }

  lemma ThreeKept(h: Host, p: Proposal, q: Proposal, r: Proposal)
    requires h.validate(p).Accepted? && h.validate(q).Accepted? && h.validate(r).Accepted?
    ensures Kept(h, [p, q, r]) == [AsRoot(p, h.validate(p).path), AsRoot(q, h.validate(q).path), AsRoot(r, h.validate(r).path)]
  {
    TwoKept(h, p, q);
    assert [p, q, r][..2] == [p, q];
  }

  lemma ThreeMerged(h: Host, a: Root, b: Root, c: Root)
    requires h.key(a.path) != h.key(b.path) && h.key(b.path) != h.key(c.path) && h.key(a.path) != h.key(c.path)
    ensures Merged(h, [a, b, c]) == [a, b, c]
  {
    TwoMerged(h, a, b);
    NewPosition(h, [a, b], h.key(c.path));
    hide Position, Merge;
    assert [a, b, c][..2] == [a, b] && [a, b] + [c] == [a, b, c];
  }

  lemma NewPosition(h: Host, roots: seq<Root>, key: Path)
    requires forall i :: 0 <= i < |roots| ==> h.key(roots[i].path) != key
    ensures Position(h, roots, key) == |roots|
  {}

  lemma EmptyCredit(s: set<Path>)
    ensures |s| == 0 <==> s == {}
  {}

  lemma CreditedIff(h: Host, proposed: seq<Proposal>, m: Mechanism)
    ensures Credited(h, Merged(h, Kept(h, proposed)), m) != {} <==> Contributed(h, proposed, m)
  {
    hide Enclosing, CreditKey, Merged, Mechs;
    var kept := Kept(h, proposed);
    var merged := Merged(h, kept);
    CollapseFaithful(h, kept);
    if Credited(h, merged, m) != {} {
      var key :| key in Credited(h, merged, m);
      var i: nat :| 0 <= i < |merged| && Finds(merged[i], m) && CreditKey(h, merged, i) == key;
      var n := SomeFinder(h, kept, h.key(merged[i].path), m);
      KeptIsProposed(h, proposed, n, m);
    }
    if Contributed(h, proposed, m) {
      var p :| p in proposed && FoundBy(h, p, m);
      var i := FinderMerged(h, proposed, p, m);
      assert CreditKey(h, merged, i) in Credited(h, merged, m);
    }
  }

  lemma {:induction false} SomeFinder(h: Host, kept: seq<Root>, key: Path, m: Mechanism) returns (n: nat)
    requires m in MechsAt(h, kept, key)
    ensures n < |kept| && Finds(kept[n], m)
  {
    hide Mechs;
    var r := kept[|kept| - 1];
    if h.key(r.path) == key && m in Mechs(r) {
      n := |kept| - 1;
    } else {
      n := SomeFinder(h, kept[..|kept| - 1], key, m);
    }
  }

  lemma {:induction false} KeptIsProposed(h: Host, ps: seq<Proposal>, n: nat, m: Mechanism)
    requires n < |Kept(h, ps)| && Finds(Kept(h, ps)[n], m)
    ensures Contributed(h, ps, m)
  {
    hide Mechs;
    var before, last := ps[..|ps| - 1], ps[|ps| - 1];
    if n < |Kept(h, before)| {
      KeptIsProposed(h, before, n, m);
      var p :| p in before && FoundBy(h, p, m);
      assert p in ps;
    } else {
      assert last in ps && FoundBy(h, last, m);
    }
  }

  lemma {:induction false} MechsAtHas(h: Host, ps: seq<Proposal>, p: Proposal, m: Mechanism)
    requires p in ps && FoundBy(h, p, m)
    ensures m in MechsAt(h, Kept(h, ps), h.key(h.validate(p).path))
  {
    hide Mechs;
    var before, last := ps[..|ps| - 1], ps[|ps| - 1];
    assert before + [last] == ps;
    var key := h.key(h.validate(p).path);
    if h.validate(last).Accepted? {
      MechsAtSnoc(h, Kept(h, before), AsRoot(last, h.validate(last).path), key);
    } else {
      assert Kept(h, before) + [] == Kept(h, before);
    }
    if p != last { MechsAtHas(h, before, p, m); }
  }

  lemma FinderMerged(h: Host, proposed: seq<Proposal>, p: Proposal, m: Mechanism) returns (i: nat)
    requires p in proposed && FoundBy(h, p, m)
    ensures var merged := Merged(h, Kept(h, proposed)); i < |merged| && Finds(merged[i], m)
  {
    hide Mechs, MechsAt, Merged, Kept;
    var kept := Kept(h, proposed);
    var merged := Merged(h, kept);
    var key := h.key(h.validate(p).path);
    CollapseFaithful(h, kept);
    KeptHas(h, proposed, p);
    MechsAtHas(h, proposed, p, m);
    assert HasKey(h, merged, key);
    i :| 0 <= i < |merged| && h.key(merged[i].path) == key;
  }

  /** A rejection is recorded exactly when it is a proposal's own and not that of a conventional location that is
      missing or means nothing on this platform: whatever a configuration or the operator named is recorded. */
  lemma {:induction false} RefusedIff(h: Host, ps: seq<Proposal>, p: Proposal, reason: string)
    ensures Rejection(p, reason) in Refusals(h, ps) <==>
              && p in ps && h.validate(p) == Rejected(reason)
              && !(&& p.mechanism in ["convention", "tomcat-convention", "appserver-convention"]
                   && reason in ["the directory does not exist", "the path is not absolute on this platform"])
  {
    if ps != [] {
      var init, last := ps[..|ps| - 1], ps[|ps| - 1];
      assert ps == init + [last];
      RefusedIff(h, init, p, reason);
    }
  }

  /** The rejections shown are the first twenty of the true count, and every proposal is accounted for. */
  lemma RejectionsAreHonest(h: Host, proposed: seq<Proposal>, outcomes: seq<Outcome>)
    ensures var res := Assembled(h, proposed, outcomes);
            && |proposed| == |Kept(h, proposed)| + SilentCount(h, proposed) + res.rejectedTotal
            && |res.rejected| == (if res.rejectedTotal < 20 then res.rejectedTotal else 20)
            && res.rejected <= Refusals(h, proposed)
  {
    EveryProposalCounted(h, proposed);
  }

  // ---- what Subsumes records ------------------------------------------------------------------------------------------

  lemma {:induction false} RecordedKeys(h: Host, merged: seq<Root>, o: nat, n: nat, key: Path)
    requires o < |merged| && n <= |merged| && merged[o].subsumes == []
    ensures key in Keys(h, Recorded(h, merged, o, n))
            <==> exists i :: 0 <= i < n && Enclosing(h, merged, i) == o && h.key(merged[i].path) == key
  {
    hide Enclosing;
    if n > 0 { RecordedKeys(h, merged, o, n - 1, key); }
  }

  /** An inner root is listed under a final root exactly when that root is the first that contains it and comes
      later: the final root is a copy, and what is recorded after the copy is lost. */
  lemma SubsumedIffEarlier(h: Host, proposed: seq<Proposal>, o: nat, i: nat, f: nat)
    requires var merged := Merged(h, Kept(h, proposed)); i < |merged| && Came(h, merged, |merged|, f, o)
    ensures var merged := Merged(h, Kept(h, proposed));
            h.key(merged[i].path) in Keys(h, Outermost(h, merged, |merged|)[f].subsumes)
            <==> Enclosing(h, merged, i) == o && i < o
  {
    hide Enclosing, Merged, Outermost, Kept, Recorded;
    var merged := Merged(h, Kept(h, proposed));
    CollapseFaithful(h, Kept(h, proposed));
    NothingSubsumedYet(h, proposed);
    RecordedKeys(h, merged, o, o, h.key(merged[i].path));
  }

  lemma TwoMerged(h: Host, a: Root, b: Root)
    requires h.key(a.path) != h.key(b.path)
    ensures Merged(h, [a, b]) == [a, b]
  {
    hide Position, Merge;
    assert [a, b][..1] == [a] && [a][..0] == [] && [] + [a] == [a] && [a] + [b] == [a, b];
    assert Merged(h, []) == [];
    assert Merged(h, [a]) == [a];
  }

  lemma TwoKept(h: Host, p: Proposal, q: Proposal)
    requires h.validate(p).Accepted? && h.validate(q).Accepted?
    ensures Kept(h, [p, q]) == [AsRoot(p, h.validate(p).path), AsRoot(q, h.validate(q).path)]
  {
    assert [p, q][..1] == [p] && [p][..0] == [];
    assert Kept(h, []) == [];
    assert Kept(h, [p]) == [AsRoot(p, h.validate(p).path)];
  }

  /** Of two accepted roots one inside the other only the outer is scanned. Proposed first, it forgets the inner
      one; proposed second, it lists it. */
  lemma InnerRootIsLost(h: Host, outer: Proposal, inner: Proposal)
    requires h.validate(outer).Accepted? && h.validate(inner).Accepted?
    requires IsAncestor(h, h.validate(outer).path, h.validate(inner).path)
    ensures var root := AsRoot(outer, h.validate(outer).path);
            && Assembled(h, [outer, inner], []).roots == [root]
            && Assembled(h, [inner, outer], []).roots == [root.(subsumes := [h.validate(inner).path])]
  {
    hide Kept, Merged, Enclosing;
    var a, b := AsRoot(outer, h.validate(outer).path), AsRoot(inner, h.validate(inner).path);
    TwoKept(h, outer, inner);
    TwoKept(h, inner, outer);
    TwoMerged(h, a, b);
    TwoMerged(h, b, a);
    EnclosingUnique(h, [a, b], 0, -1);
    EnclosingUnique(h, [a, b], 1, 0);
    EnclosingUnique(h, [b, a], 0, 1);
    EnclosingUnique(h, [b, a], 1, -1);
    OutermostOfTwo(h, a, b);
    OutermostOfTwo(h, b, a);
  }

  lemma OutermostOfTwo(h: Host, a: Root, b: Root)
    requires a.subsumes == [] && b.subsumes == []
    ensures var roots := [a, b];
            && (Enclosing(h, roots, 0) == -1 && Enclosing(h, roots, 1) == 0 ==> Outermost(h, roots, 2) == [a])
            && (Enclosing(h, roots, 0) == 1 && Enclosing(h, roots, 1) == -1 ==> Outermost(h, roots, 2) == [b.(subsumes := [a.path])])
  {
    hide Enclosing;
    var roots := [a, b];
    assert Outermost(h, roots, 0) == [];
    assert Recorded(h, roots, 0, 0) == [] && Recorded(h, roots, 1, 0) == [];
    assert a.(subsumes := []) == a;
    assert Enclosing(h, roots, 0) == 1 ==> Recorded(h, roots, 1, 1) == [a.path];
    assert Enclosing(h, roots, 0) == -1 ==> Outermost(h, roots, 1) == [a];
  }

  lemma NothingSubsumedYet(h: Host, proposed: seq<Proposal>)
    ensures forall i :: 0 <= i < |Merged(h, Kept(h, proposed))| ==> Merged(h, Kept(h, proposed))[i].subsumes == []
  {
    KeptBare(h, proposed);
    MergedBare(h, Kept(h, proposed));
  }

  lemma {:induction false} KeptBare(h: Host, ps: seq<Proposal>)
    ensures forall r :: r in Kept(h, ps) ==> r.subsumes == []
  {
    if ps != [] { KeptBare(h, ps[..|ps| - 1]); }
  }

  lemma {:induction false} MergedBare(h: Host, kept: seq<Root>)
    requires forall r :: r in kept ==> r.subsumes == []
    ensures forall i :: 0 <= i < |Merged(h, kept)| ==> Merged(h, kept)[i].subsumes == []
  {
    hide WithMechanisms, WithMechanism;
    if kept != [] { MergedBare(h, kept[..|kept| - 1]); }
  }
}
