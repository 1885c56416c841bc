/**
 Per-artifact coverage of a Java scan and the totals of its diagnostics
 (shellsight/cmd/diskprobe/deobfscan.go).

 Path cleaning, the archive test, the blank test and the table of stable diagnostic codes are parameters.
 The lists the program sorts before it returns them are left in the order they were built.
 */
module JavaCoverage {
  import opened Common

  datatype Status = Complete | Degraded | Failed

  function Rank(s: Status): nat { match s case Complete => 0 case Degraded => 1 case Failed => 2 }

  function Worse(a: Status, b: Status): Status { if Rank(b) > Rank(a) then b else a }

  datatype Artifact = Artifact(path: string, sha: string, bytes: nat, readOk: bool)

  datatype Diagnostic = Diagnostic(artifact: string, code: string, detail: string, count: int)

  datatype Entry = Entry(artifact: Artifact, status: Status, codes: set<string>)

  /** What the program looks up: `clean` never gives the empty path, so "no artifact named" is an Option here. */
  datatype Tables = Tables(
    clean: string -> string, isArchive: string -> bool, isBlank: string -> bool, separator: char, failing: string -> bool,
    stable: string -> bool)

  /** A code outside the stable vocabulary still degrades. */
  function Implied(t: Tables, code: string): (s: Status)
    ensures s != Complete
  {
    if t.stable(code) && t.failing(code) then Failed else Degraded
  }

  /** An artifact that a diagnostic does not name was not analysed in full; that it could not be read is not known. */
  function Softened(s: Status): Status { if s.Failed? then Degraded else s }

  function IndexOf(s: string, i: nat): (n: nat)
    requires i <= |s|
    ensures i <= n <= |s|
    decreases |s| - i
  {
    if i + 1 < |s| && s[i] == '!' && s[i + 1] == '/' then i
    else if i == |s| then i
    else IndexOf(s, i + 1)
  }

  /** The file on disk: what stands before the first "!/". */
  function Physical(artifact: string): string { artifact[..IndexOf(artifact, 0)] }

  // ---- scope ------------------------------------------------------------------------------------------------

  function Count(d: Diagnostic): nat { if d.count < 1 then 1 else d.count }

  method ArtifactsUnder(t: Tables, order: seq<string>, dir: string) returns (members: seq<string>)
    ensures members == Under(t, order, dir)
  {
    members := [];
    for i := 0 to |order|
      invariant members == Under(t, order[..i], dir)
    {
      assert order[..i + 1][..i] == order[..i];
      if dir + [t.separator] <= order[i] { members := members + [order[i]]; }
    }
    assert order[..|order|] == order;
  }

  function Under(t: Tables, order: seq<string>, dir: string): (members: seq<string>)
    ensures forall m :: m in members ==> m in order
  {
    if order == [] then []
    else
      var last := order[|order| - 1];
      assert order == order[..|order| - 1] + [last];
      Under(t, order[..|order| - 1], dir) + if dir + [t.separator] <= last then [last] else []
  }

  /** The artifacts a diagnostic can be about, and the one it names. */
  function Scope(t: Tables, order: seq<string>, d: Diagnostic): (r: (seq<string>, Option<string>))
    ensures forall k :: k in r.0 ==> k in order
    ensures order != [] ==> r.0 != []
  {
    var physical := Physical(d.artifact);
    if t.isBlank(physical) then (order, None)
    else
      var key := t.clean(physical);
      if key in order && (Count(d) == 1 || physical != d.artifact || t.isArchive(key)) then ([key], Some(key))
      else if key !in order && Count(d) == 1 && Under(t, order, key) != [] then (Under(t, order, key), None)
      else (order, Some(key))
  }

  method DiagnosticScope(t: Tables, order: seq<string>, d: Diagnostic) returns (scope: seq<string>, named: Option<string>)
    ensures (scope, named) == Scope(t, order, d)
  {
    var physical := Physical(d.artifact);
    if t.isBlank(physical) { return order, None; }
    var key := t.clean(physical);
    if key in order && (Count(d) == 1 || physical != d.artifact || t.isArchive(key)) { return [key], Some(key); }
    if key !in order && Count(d) == 1 {
      var members := ArtifactsUnder(t, order, key);
      if |members| > 0 { return members, None; }
    }
    return order, Some(key);
  }

  // ---- what a diagnostic is about, in the terms of its fields --------------------------------------------------------

  /** No "!/" in the text. */
  ghost predicate NoMember(s: string) { forall k :: 0 <= k < |s| - 1 ==> !MarkAt(s, k) }

  predicate MarkAt(s: string, k: nat)
    requires k + 1 < |s|
  {
    s[k] == '!' && s[k + 1] == '/'
  }

  /** The reference names the file `p`, or a member inside it: `p` ends where the first "!/" begins. */
  ghost predicate NamesFile(artifact: string, p: string) {
    || (NoMember(artifact) && p == artifact)
    || (NamesMember(artifact, p) && NoMember(p + "!"))
  }

  predicate NamesMember(artifact: string, p: string) { p + "!/" <= artifact }

  lemma {:induction false} FirstMark(s: string, i: nat)
    requires i <= |s|
    ensures var n := IndexOf(s, i);
            && (forall k :: i <= k < n && k + 1 < |s| ==> !MarkAt(s, k))
            && (n < |s| ==> n + 1 < |s| && MarkAt(s, n))
    decreases |s| - i
  {
    if i < |s| && !(i + 1 < |s| && MarkAt(s, i)) { FirstMark(s, i + 1); }
  }

  lemma PhysicalIff(artifact: string, p: string)
    ensures Physical(artifact) == p <==> NamesFile(artifact, p)
  {
    PhysicalNames(artifact);
    if NamesMember(artifact, p) && NoMember(p + "!") { MemberEnds(artifact, p); }
    if NoMember(artifact) { WholeEnds(artifact); }
  }

  lemma PhysicalNames(artifact: string)
    ensures NamesFile(artifact, Physical(artifact))
  {
    hide IndexOf;
    FirstMark(artifact, 0);
    var n := IndexOf(artifact, 0);
    var p := artifact[..n];
    if n < |artifact| {
      assert p + "!/" == artifact[..n + 2];
      forall k | 0 <= k < |p + "!"| - 1 ensures !MarkAt(p + "!", k) { assert !MarkAt(artifact, k); }
    }
  }

  lemma MemberEnds(artifact: string, p: string)
    requires NamesMember(artifact, p) && NoMember(p + "!")
    ensures Physical(artifact) == p
  {
    hide IndexOf;
    FirstMark(artifact, 0);
    var n := IndexOf(artifact, 0);
    assert (p + "!/")[|p|] == '!' && (p + "!/")[|p| + 1] == '/';
    assert artifact[|p|] == '!' && artifact[|p| + 1] == '/' && MarkAt(artifact, |p|);
    assert n < |p| ==> MarkAt(p + "!", n);
    assert artifact[..|p|] == p;
  }

  lemma WholeEnds(artifact: string)
    requires NoMember(artifact)
    ensures Physical(artifact) == artifact
  {
    hide IndexOf;
    FirstMark(artifact, 0);
  }

  lemma {:induction false} UnderAre(t: Tables, order: seq<string>, dir: string, key: string)
    ensures key in Under(t, order, dir) <==> key in order && dir + [t.separator] <= key
  {
    if order != [] {
      UnderAre(t, order[..|order| - 1], dir, key);
      assert order == order[..|order| - 1] + [order[|order| - 1]];
    }
  }

  /** What a diagnostic is about. Without a name: everything. A file that was enumerated: that file alone, when the
      diagnostic stands for one occurrence, names a member of the file, or the file is an archive. A directory with
      enumerated files in it: those, when it stands for one occurrence. Anything else: everything, though it does
      name its file. */
  lemma ScopeMeans(t: Tables, order: seq<string>, d: Diagnostic, file: string, key: string)
    requires NamesFile(d.artifact, file)
    ensures var (scope, named) := Scope(t, order, d);
            var path := t.clean(file);
            var alone := d.count <= 1 || NamesMember(d.artifact, file) || t.isArchive(path);
            var grouped := d.count <= 1 && exists k :: k in order && path + [t.separator] <= k;
            && (named == Some(key) <==> !t.isBlank(file) && key == path && (path in order || !grouped))
            && (key in scope <==>
                  && key in order
                  && (t.isBlank(file)
                      || (if path in order then alone ==> key == path else grouped ==> path + [t.separator] <= key)))
  {
    PhysicalIff(d.artifact, file);
    var path := t.clean(file);
    UnderAre(t, order, path, key);
    MemberIsLonger(d.artifact, file);
    if k :| k in order && path + [t.separator] <= k { UnderAre(t, order, path, k); }
    if Under(t, order, path) != [] { UnderAre(t, order, path, Under(t, order, path)[0]); }
  }

  lemma MemberIsLonger(artifact: string, file: string)
    requires NamesFile(artifact, file)
    ensures NamesMember(artifact, file) <==> file != artifact
  {
    if NamesMember(artifact, file) { assert |artifact| >= |file| + 2; }
  }

  /** What a diagnostic says of one artifact. */
  function Verdict(t: Tables, order: seq<string>, d: Diagnostic, key: string): Status {
    var (scope, named) := Scope(t, order, d);
    if key !in scope then Complete
    else if named == Some(key) then Implied(t, d.code)
    else Softened(Implied(t, d.code))
  }

  function CodeOf(t: Tables, order: seq<string>, d: Diagnostic, key: string): set<string> {
    if key in Scope(t, order, d).0 && t.stable(d.code) then {d.code} else {}
  }

  // ---- coverage -----------------------------------------------------------------------------------------------

  /** The cleaned paths, each at its first occurrence. */
  function Order(t: Tables, artifacts: seq<Artifact>): (order: seq<string>)
    ensures forall i, j :: 0 <= i < j < |order| ==> order[i] != order[j]
    ensures artifacts != [] ==> order != []
  {
    if artifacts == [] then []
    else
      var before := Order(t, artifacts[..|artifacts| - 1]);
      var key := t.clean(artifacts[|artifacts| - 1].path);
      if key in before then before else before + [key]
  }

  /** The first artifact with the key. */
  function FirstWith(t: Tables, artifacts: seq<Artifact>, key: string): (a: Artifact)
    requires key in Order(t, artifacts)
    ensures a in artifacts && t.clean(a.path) == key
  {
    var init, last := artifacts[..|artifacts| - 1], artifacts[|artifacts| - 1];
    assert artifacts == init + [last];
    if key in Order(t, init) then FirstWith(t, init, key) else last
  }

  function StatusOf(t: Tables, order: seq<string>, readOk: bool, ds: seq<Diagnostic>, key: string): Status {
    if ds == [] then if readOk then Complete else Failed
    else Worse(StatusOf(t, order, readOk, ds[..|ds| - 1], key), Verdict(t, order, ds[|ds| - 1], key))
  }

  function CodesOf(t: Tables, order: seq<string>, ds: seq<Diagnostic>, key: string): set<string> {
    if ds == [] then {} else CodesOf(t, order, ds[..|ds| - 1], key) + CodeOf(t, order, ds[|ds| - 1], key)
  }

  function EntryOf(t: Tables, artifacts: seq<Artifact>, ds: seq<Diagnostic>, key: string): Entry
    requires key in Order(t, artifacts)
  {
    var a := FirstWith(t, artifacts, key);
    var order := Order(t, artifacts);
    Entry(a, StatusOf(t, order, a.readOk, ds, key), CodesOf(t, order, ds, key))
  }

  /** Every enumerated artifact has the entry its diagnostics so far give it. */
  ghost predicate Folded(t: Tables, artifacts: seq<Artifact>, ds: seq<Diagnostic>, index: map<string, Entry>) {
    && (forall key :: key in index <==> key in Order(t, artifacts))
    && (forall key :: key in index ==> index[key] == EntryOf(t, artifacts, ds, key))
  }

  method Enumerate(t: Tables, artifacts: seq<Artifact>) returns (index: map<string, Entry>, order: seq<string>)
    ensures order == Order(t, artifacts) && Folded(t, artifacts, [], index)
  {
    index, order := map[], [];
    for i := 0 to |artifacts|
      invariant order == Order(t, artifacts[..i])
      invariant forall key :: key in index <==> key in order
      invariant forall key :: key in order ==> index[key] == Fresh(FirstWith(t, artifacts[..i], key))
    {
      assert artifacts[..i + 1][..i] == artifacts[..i];
      var key := t.clean(artifacts[i].path);
      if key in index { continue; }
      index := index[key := Fresh(artifacts[i])];
      order := order + [key];
    }
    assert artifacts[..|artifacts|] == artifacts;
  }

  function Fresh(a: Artifact): Entry { Entry(a, if a.readOk then Complete else Failed, {}) }

  function Touched(t: Tables, order: seq<string>, d: Diagnostic, key: string, e: Entry): Entry {
    e.(status := Worse(e.status, Verdict(t, order, d, key)), codes := e.codes + CodeOf(t, order, d, key))
  }

  method FoldDiagnostic(t: Tables, order: seq<string>, d: Diagnostic, before: map<string, Entry>)
    returns (index: map<string, Entry>)
    requires forall key :: key in before <==> key in order
    ensures index.Keys == before.Keys
    ensures forall key :: key in before ==> index[key] == Touched(t, order, d, key, before[key])
  {
    index := before;
    var implied := Implied(t, d.code);
    var scope, named := DiagnosticScope(t, order, d);
    for i := 0 to |scope|
      invariant index.Keys == before.Keys
      invariant forall key :: key in before ==>
                  index[key] == if key in scope[..i] then Touched(t, order, d, key, before[key]) else before[key]
    {
      assert scope[..i + 1] == scope[..i] + [scope[i]];
      var key := scope[i];
      var status := implied;
      if named != Some(key) { status := Softened(implied); }
      assert status == Verdict(t, order, d, key);
      var entry := index[key];
      if t.stable(d.code) { entry := entry.(codes := entry.codes + {d.code}); }
      if Rank(status) > Rank(entry.status) { entry := entry.(status := status); }
      TouchedTwice(t, order, d, key, before[key]);
      index := index[key := entry];
    }
    assert scope[..|scope|] == scope;
    forall key | key in before && key !in scope ensures Touched(t, order, d, key, before[key]) == before[key] {
      assert before[key].codes + {} == before[key].codes;
    }
  }

  lemma TouchedTwice(t: Tables, order: seq<string>, d: Diagnostic, key: string, e: Entry)
    ensures var once := Touched(t, order, d, key, e); Touched(t, order, d, key, once) == once
  {
    var once := Touched(t, order, d, key, e);
    assert once.codes + CodeOf(t, order, d, key) == once.codes;
  }

  method JavaArtifactCoverage(t: Tables, artifacts: seq<Artifact>, diagnostics: seq<Diagnostic>) returns (coverage: seq<Entry>)
    ensures |coverage| == |Order(t, artifacts)|
    ensures forall i :: 0 <= i < |coverage| ==> coverage[i] == EntryOf(t, artifacts, diagnostics, Order(t, artifacts)[i])
  {
    hide Order, FirstWith, Verdict, Worse, Scope, CodeOf;
    coverage := [];
    var index, order := Enumerate(t, artifacts);
    for i := 0 to |diagnostics|
      invariant Folded(t, artifacts, diagnostics[..i], index)
    {
      assert diagnostics[..i + 1][..i] == diagnostics[..i];
      index := FoldDiagnostic(t, order, diagnostics[i], index);
    }
    assert diagnostics[..|diagnostics|] == diagnostics;
    for i := 0 to |order|
      invariant |coverage| == i
      invariant forall k :: 0 <= k < i ==> coverage[k] == EntryOf(t, artifacts, diagnostics, order[k])
    {
      coverage := coverage + [index[order[i]]];
    }
  }

  /** The diagnostic reaches the artifact. */
  predicate Reaches(t: Tables, order: seq<string>, d: Diagnostic, key: string) { key in Scope(t, order, d).0 }

  predicate NamesAsFailed(t: Tables, order: seq<string>, d: Diagnostic, key: string) {
    Reaches(t, order, d, key) && Scope(t, order, d).1 == Some(key) && t.stable(d.code) && t.failing(d.code)
  }

  predicate AnyReaches(t: Tables, order: seq<string>, ds: seq<Diagnostic>, key: string) {
    exists d :: d in ds && Reaches(t, order, d, key)
  }

  predicate AnyFails(t: Tables, order: seq<string>, ds: seq<Diagnostic>, key: string) {
    exists d :: d in ds && NamesAsFailed(t, order, d, key)
  }

  /** The status is the worst of what is known, whatever the order of the diagnostics: failed when unreadable or
      named by a read failure, complete when readable and reached by nothing, degraded in between. */
  lemma {:induction false} StatusIs(t: Tables, order: seq<string>, readOk: bool, ds: seq<Diagnostic>, key: string)
    ensures StatusOf(t, order, readOk, ds, key).Failed? <==> !readOk || AnyFails(t, order, ds, key)
    ensures StatusOf(t, order, readOk, ds, key).Complete? <==> readOk && !AnyReaches(t, order, ds, key)
  {
    hide Scope;
    if ds != [] {
      var init, last := ds[..|ds| - 1], ds[|ds| - 1];
      StatusIs(t, order, readOk, init, key);
      assert ds == init + [last];
      VerdictIs(t, order, last, key);
    }
  }

  lemma VerdictIs(t: Tables, order: seq<string>, d: Diagnostic, key: string)
    ensures Verdict(t, order, d, key).Failed? <==> NamesAsFailed(t, order, d, key)
    ensures Verdict(t, order, d, key).Complete? <==> !Reaches(t, order, d, key)
  {
    hide Scope;
  }

  lemma {:induction false} CodesAre(t: Tables, order: seq<string>, ds: seq<Diagnostic>, key: string, code: string)
    ensures code in CodesOf(t, order, ds, key) <==> exists d :: d in ds && d.code == code && t.stable(code) && Reaches(t, order, d, key)
  {
    hide Scope;
    if ds != [] {
      CodesAre(t, order, ds[..|ds| - 1], key, code);
      assert ds == ds[..|ds| - 1] + [ds[|ds| - 1]];
    }
  }

  /** The same diagnostics in another order give the same entries. */
  lemma OrderOfDiagnosticsDoesNotMatter(t: Tables, artifacts: seq<Artifact>, a: seq<Diagnostic>, b: seq<Diagnostic>, key: string)
    requires key in Order(t, artifacts) && multiset(a) == multiset(b)
    ensures EntryOf(t, artifacts, a, key) == EntryOf(t, artifacts, b, key)
  {
    hide Scope, Reaches, NamesAsFailed, FirstWith, Order;
    assert forall d :: d in a <==> d in multiset(a);
    assert forall d :: d in b <==> d in multiset(b);
    var readOk, order := FirstWith(t, artifacts, key).readOk, Order(t, artifacts);
    StatusIs(t, order, readOk, a, key);
    StatusIs(t, order, readOk, b, key);
    forall code ensures code in CodesOf(t, order, a, key) <==> code in CodesOf(t, order, b, key) {
      CodesAre(t, order, a, key, code);
      CodesAre(t, order, b, key, code);
    }
  }

  /** No diagnostic is lost: as long as anything was enumerated, each leaves at least one artifact not complete,
      and there a stable code is on record. */
  lemma NoDiagnosticIsLost(t: Tables, artifacts: seq<Artifact>, ds: seq<Diagnostic>, d: Diagnostic)
    requires artifacts != [] && d in ds
    ensures exists key :: Marked(t, artifacts, ds, d, key)
  {
    hide FirstWith;
    var order := Order(t, artifacts);
    var key := Scope(t, order, d).0[0];
    assert key in Scope(t, order, d).0;
    hide Scope;
    assert Reaches(t, order, d, key);
    StatusIs(t, order, FirstWith(t, artifacts, key).readOk, ds, key);
    CodesAre(t, order, ds, key, d.code);
    assert Marked(t, artifacts, ds, d, key);
  }

  ghost predicate Marked(t: Tables, artifacts: seq<Artifact>, ds: seq<Diagnostic>, d: Diagnostic, key: string) {
    && key in Order(t, artifacts) && !EntryOf(t, artifacts, ds, key).status.Complete?
    && (t.stable(d.code) ==> d.code in EntryOf(t, artifacts, ds, key).codes)
  }

  /** One entry for each distinct path, the first artifact that has it. */
  lemma {:induction false} OneEntryEach(t: Tables, artifacts: seq<Artifact>, i: nat)
    requires i < |artifacts|
    ensures var key := t.clean(artifacts[i].path);
            && key in Order(t, artifacts)
            && exists j :: 0 <= j <= i && artifacts[j] == FirstWith(t, artifacts, key) && t.clean(artifacts[j].path) == key
  {
    var init := artifacts[..|artifacts| - 1];
    assert forall k :: 0 <= k < |init| ==> init[k] == artifacts[k];
    if i < |init| {
      OneEntryEach(t, init, i);
      var key := t.clean(init[i].path);
      var j :| 0 <= j <= i && init[j] == FirstWith(t, init, key) && t.clean(init[j].path) == key;
      assert artifacts[j] == FirstWith(t, artifacts, key);
    } else if t.clean(artifacts[i].path) in Order(t, init) {
      var first := FirstWith(t, init, t.clean(artifacts[i].path));
      var j :| 0 <= j < |init| && init[j] == first;
      assert artifacts[j] == first;
    }
  }

  // ---- totals -------------------------------------------------------------------------------------------------------

  const MAX_INT: nat := 0x7fff_ffff_ffff_ffff

  datatype Key = Key(artifact: string, code: string, detail: string)

  function KeyOf(d: Diagnostic): Key { Key(d.artifact, d.code, d.detail) }

  /** The greatest count reported under the key, 0 when none is. */
  function Greatest(ds: seq<Diagnostic>, key: Key): nat {
    if ds == [] then 0
    else
      var before, d := Greatest(ds[..|ds| - 1], key), ds[|ds| - 1];
      if KeyOf(d) == key && Count(d) > before then Count(d) else before
  }

  function KeysOf(ds: seq<Diagnostic>): set<Key> { set d | d in ds :: KeyOf(d) }

  /** The true total of a code over these keys. */
  ghost function Total(counts: map<Key, nat>, keys: set<Key>, code: string): nat
    requires keys <= counts.Keys
  {
    if keys == {} then 0
    else
      var k :| k in keys;
      (if k.code == code then counts[k] else 0) + Total(counts, keys - {k}, code)
  }

  lemma {:induction false} TotalWithout(counts: map<Key, nat>, keys: set<Key>, code: string, k: Key)
    requires keys <= counts.Keys && k in keys
    ensures Total(counts, keys, code) == (if k.code == code then counts[k] else 0) + Total(counts, keys - {k}, code)
    decreases keys
  {
    var x :| x in keys && Total(counts, keys, code) == (if x.code == code then counts[x] else 0) + Total(counts, keys - {x}, code);
    if x != k {
      TotalWithout(counts, keys - {x}, code, k);
      TotalWithout(counts, keys - {k}, code, x);
      assert keys - {x} - {k} == keys - {k} - {x};
    }
  }

  /** `n` is the lesser of the limit and the true value. */
  predicate AtMost(limit: nat, n: nat, value: nat) { n <= limit && n <= value && (n == limit || n == value) }

  /** What is kept of diagnostics that agree in artifact, code and detail: the greatest of their counts, each at
      least one. */
  lemma {:induction false} GreatestIs(ds: seq<Diagnostic>, d: Diagnostic)
    requires d in ds
    ensures var n := Greatest(ds, KeyOf(d));
            && n >= 1 && n >= d.count
            && exists e :: e in ds && e.artifact == d.artifact && e.code == d.code && e.detail == d.detail && AtLeastOne(n, e.count)
  {
    GreatestReached(ds, KeyOf(d));
    GreatestBounds(ds, d);
  }

  /** The greater of one and the count. */
  predicate AtLeastOne(n: nat, count: int) { n == if count > 1 then count else 1 }

  lemma {:induction false} GreatestReached(ds: seq<Diagnostic>, key: Key)
    ensures Greatest(ds, key) > 0 ==> exists e :: e in ds && KeyOf(e) == key && AtLeastOne(Greatest(ds, key), e.count)
  {
    if ds != [] {
      GreatestReached(ds[..|ds| - 1], key);
      assert ds == ds[..|ds| - 1] + [ds[|ds| - 1]];
    }
  }

  lemma {:induction false} GreatestBounds(ds: seq<Diagnostic>, d: Diagnostic)
    requires d in ds
    ensures Greatest(ds, KeyOf(d)) >= 1 && Greatest(ds, KeyOf(d)) >= d.count
  {
    var init := ds[..|ds| - 1];
    assert ds == init + [ds[|ds| - 1]];
    if d in init { GreatestBounds(init, d); }
  }

  function Capped(n: nat): nat { if n > MAX_INT then MAX_INT else n }

  method GreatestCounts(ds: seq<Diagnostic>) returns (deduped: map<Key, nat>)
    ensures deduped.Keys == KeysOf(ds) && forall k :: k in deduped ==> deduped[k] == Greatest(ds, k)
  {
    deduped := map[];
    for i := 0 to |ds|
      invariant forall k :: k in deduped <==> k in KeysOf(ds[..i])
      invariant forall k :: Greatest(ds[..i], k) == if k in deduped then deduped[k] else 0
    {
      assert ds[..i + 1] == ds[..i] + [ds[i]] && ds[..i + 1][..i] == ds[..i];
      var d := ds[i];
      var was := if KeyOf(d) in deduped then deduped[KeyOf(d)] else 0;
      NotYet(ds[..i], KeyOf(d));
      if Count(d) > was { deduped := deduped[KeyOf(d) := Count(d)]; }
    }
    assert ds[..|ds|] == ds;
  }

  lemma {:induction false} NotYet(ds: seq<Diagnostic>, key: Key)
    ensures key in KeysOf(ds) <==> Greatest(ds, key) > 0
  {
    if ds != [] {
      NotYet(ds[..|ds| - 1], key);
      assert ds == ds[..|ds| - 1] + [ds[|ds| - 1]];
    }
  }

  /** The total of each code, at most the greatest integer, in whatever order the map is walked. */
  method SummarizeDiagnostics(ds: seq<Diagnostic>) returns (byCode: map<string, nat>, ghost counts: map<Key, nat>)
    ensures counts.Keys == KeysOf(ds) && forall k :: k in counts ==> counts[k] == Greatest(ds, k)
    ensures forall code :: code in byCode <==> exists d :: d in ds && d.code == code
    ensures forall code :: code in byCode ==> AtMost(0x7fff_ffff_ffff_ffff, byCode[code], Total(counts, counts.Keys, code))
  {
    hide Greatest;
    var deduped := GreatestCounts(ds);
    counts := deduped;
    byCode := map[];
    var todo := deduped.Keys;
    while todo != {}
      invariant todo <= deduped.Keys
      invariant forall code :: code in byCode <==> exists k :: k in deduped.Keys - todo && k.code == code
      invariant forall code :: (if code in byCode then byCode[code] else 0) == Capped(Total(deduped, deduped.Keys - todo, code))
      decreases todo
    {
      var key :| key in todo;
      ghost var done := deduped.Keys - todo;
      todo := todo - {key};
      assert deduped.Keys - todo == done + {key} && (done + {key}) - {key} == done;
      forall code ensures Total(deduped, done + {key}, code) == (if key.code == code then deduped[key] else 0) + Total(deduped, done, code) {
        TotalWithout(deduped, done + {key}, code, key);
      }
      var was := if key.code in byCode then byCode[key.code] else 0;
      var count := deduped[key];
      byCode := byCode[key.code := if was > MAX_INT - count then MAX_INT else was + count];
    }
    assert deduped.Keys - todo == deduped.Keys;
    forall code ensures code in byCode <==> exists d :: d in ds && d.code == code {
      if d :| d in ds && d.code == code { assert KeyOf(d) in deduped.Keys && KeyOf(d).code == code; }
    }
  }
}
