/**
 Bounded collection of findings and diagnostics, and what the bounded scan of nested archives covers
 (shellsight/internal/javadisk/archive.go, limits.go).

 Parameters: the key under which findings are compared, the shortening of diagnostic texts, reading, opening and
 analysing archive members, and when the context is cancelled. An archive may contain itself; only the depth bound
 ends the recursion.
 */
module BoundedResults {
  import opened Common

  datatype Finding = Finding(score: int, family: string, rule: string, evidence: string, artifactPath: string)

  datatype Diagnostic = Diagnostic(artifact: string, code: string, detail: string, count: int)

  /** What is kept of all diagnostics of one code. */
  datatype Aggregate = Aggregate(artifact: string, count: nat, examples: seq<string>)

  datatype Texts = Texts(key: Finding -> string, bound: string -> string)

  const MAX_EXAMPLES: nat := 3
  const ANALYSIS_BUDGET := "java-analysis-budget-exhausted"
  const ARCHIVE_BUDGET := "java-archive-budget-exhausted"
  const ARTIFACT_READ := "java-artifact-read-failed"
  const CANCELLED := "java-analysis-cancelled"

  // ---- the order of texts -----------------------------------------------------------------------------------

  predicate Less(a: string, b: string) {
    if b == "" then false
    else if a == "" then true
    else a[0] < b[0] || (a[0] == b[0] && Less(a[1..], b[1..]))
  }

  lemma {:induction false} LessTransitive(a: string, b: string, c: string)
    requires Less(a, b) && Less(b, c)
    ensures Less(a, c)
    decreases |a|
  {
    if a != "" && a[0] == b[0] == c[0] { LessTransitive(a[1..], b[1..], c[1..]); }
  }

  lemma {:induction false} LessTotal(a: string, b: string)
    ensures Less(a, b) || a == b || Less(b, a)
    ensures !(Less(a, b) && Less(b, a)) && !Less(a, a)
    decreases |a| + |b|
  {
    if a != "" && b != "" && a[0] == b[0] {
      LessTotal(a[1..], b[1..]);
      assert a == [a[0]] + a[1..] && b == [b[0]] + b[1..];
    }
    if a != "" { LessNotSelf(a); }
  }

  lemma {:induction false} LessNotSelf(a: string)
    ensures !Less(a, a)
  {
    if a != "" { LessNotSelf(a[1..]); }
  }

  /** The texts agree up to k, and there the first ends or has the lesser character. */
  predicate LessAt(a: string, b: string, k: nat) {
    k <= |a| && k < |b| && a[..k] == b[..k] && (k == |a| || a[k] < b[k])
  }

  /** The order is that of a dictionary. */
  lemma {:induction false} LessIff(a: string, b: string)
    ensures Less(a, b) <==> exists k: nat :: LessAt(a, b, k)
  {
    if a == "" || b == "" || a[0] != b[0] {
      if Less(a, b) { assert LessAt(a, b, 0); }
      forall k: nat | LessAt(a, b, k) ensures Less(a, b) {
        if k > 0 { SameFirst(a, b, k); }
      }
    } else {
      LessIff(a[1..], b[1..]);
      if k: nat :| LessAt(a[1..], b[1..], k) {
        assert a[..k + 1] == [a[0]] + a[1..][..k] && b[..k + 1] == [b[0]] + b[1..][..k];
        assert LessAt(a, b, k + 1);
      }
      if k: nat :| LessAt(a, b, k) {
        TailLess(a, b, k);
      }
    }
  }

  lemma SameFirst(a: string, b: string, k: nat)
    requires LessAt(a, b, k) && k > 0
    ensures a != "" && b != "" && a[0] == b[0]
  {
    assert a[..k][0] == b[..k][0];
  }

  lemma TailLess(a: string, b: string, k: nat)
    requires a != "" && b != "" && a[0] == b[0] && LessAt(a, b, k)
    ensures k > 0 && LessAt(a[1..], b[1..], k - 1)
  {
    if k > 0 { assert a[1..][..k - 1] == a[..k][1..] && b[1..][..k - 1] == b[..k][1..]; }
  }

  ghost predicate Ascending(s: seq<string>) {
    forall i, j :: 0 <= i < j < |s| ==> Less(s[i], s[j])
  }

  // ---- examples -----------------------------------------------------------------------------------------------

  /** The first index whose text is not less than `detail`. */
  function Search(examples: seq<string>, detail: string): (i: nat)
    ensures i <= |examples| && forall k :: 0 <= k < i ==> Less(examples[k], detail)
    ensures i < |examples| ==> !Less(examples[i], detail)
  {
    if examples == [] || !Less(examples[0], detail) then 0 else 1 + Search(examples[1..], detail)
  }

  function FirstThree(s: seq<string>): seq<string> { if |s| > MAX_EXAMPLES then s[..MAX_EXAMPLES] else s }

  function Retained(examples: seq<string>, detail: string): seq<string> {
    var i := Search(examples, detail);
    if i < |examples| && examples[i] == detail then examples
    else FirstThree(examples[..i] + [detail] + examples[i..])
  }

  /** `examples` are the three smallest of these texts, in order. */
  ghost predicate Smallest(examples: seq<string>, details: set<string>) {
    && Ascending(examples) && |examples| <= MAX_EXAMPLES
    && (forall e :: e in examples ==> e in details)
    && (forall d :: d in details && d !in examples ==> |examples| == MAX_EXAMPLES && AllBelow(examples, d))
  }

  predicate AllBelow(examples: seq<string>, d: string) { forall e :: e in examples ==> Less(e, d) }

  lemma InsertAscending(s: seq<string>, d: string)
    requires Ascending(s)
    ensures var i := Search(s, d); (i < |s| ==> s[i] != d) ==> Ascending(s[..i] + [d] + s[i..])
    ensures d in s ==> Search(s, d) < |s| && s[Search(s, d)] == d
  {
    var i := Search(s, d);
    if i < |s| && s[i] != d {
      LessTotal(s[i], d);
      forall k | i <= k < |s| ensures Less(d, s[k]) {
        if k > i { LessTransitive(d, s[i], s[k]); }
      }
    }
    if d in s {
      var k :| 0 <= k < |s| && s[k] == d;
      LessNotSelf(d);
      if i < k { LessTotal(s[i], d); }
    }
  }

  /** One more text, and the three smallest are kept still. */
  lemma RetainedSmallest(examples: seq<string>, details: set<string>, d: string)
    requires Smallest(examples, details)
    ensures Smallest(Retained(examples, d), details + {d})
  {
    hide Less;
    InsertAscending(examples, d);
    var i := Search(examples, d);
    if !(i < |examples| && examples[i] == d) {
      var all := examples[..i] + [d] + examples[i..];
      var kept := FirstThree(all);
      assert Ascending(all);
      InsertedMembers(examples, d, i);
      forall x | x in details + {d} && x !in kept ensures |kept| == MAX_EXAMPLES && AllBelow(kept, x) {
        if x in all {
          Dropped(all, x);
        } else {
          InsertDropsLast(examples, d, i);
          BelowKept(examples, d, x);
        }
      }
    }
  }

  lemma InsertedMembers(examples: seq<string>, d: string, i: nat)
    requires i <= |examples|
    ensures var all := examples[..i] + [d] + examples[i..];
            (forall x :: x in all <==> x in examples || x == d) && forall x :: x in FirstThree(all) ==> x in all
  {
    assert examples == examples[..i] + examples[i..];
  }

  lemma Dropped(all: seq<string>, x: string)
    requires Ascending(all) && x in all && x !in FirstThree(all)
    ensures |FirstThree(all)| == MAX_EXAMPLES && AllBelow(FirstThree(all), x)
  {
    var k :| 0 <= k < |all| && all[k] == x;
    FirstThreeHas(all, k);
  }

  lemma FirstThreeHas(all: seq<string>, k: nat)
    requires k < |all|
    ensures k < MAX_EXAMPLES ==> all[k] in FirstThree(all)
  {
    if k < MAX_EXAMPLES { assert FirstThree(all)[k] == all[k]; }
  }

  lemma InsertDropsLast(examples: seq<string>, d: string, i: nat)
    requires i <= |examples| && |examples| == MAX_EXAMPLES
    ensures |FirstThree(examples[..i] + [d] + examples[i..])| == MAX_EXAMPLES
  {}

  /** A text above all examples is above what is kept, the inserted one included: that one is below an example
      or itself dropped. */
  lemma BelowKept(examples: seq<string>, d: string, x: string)
    requires |examples| == MAX_EXAMPLES && AllBelow(examples, x)
    requires var i := Search(examples, d); i < |examples| ==> examples[i] != d
    ensures var i := Search(examples, d); AllBelow(FirstThree(examples[..i] + [d] + examples[i..]), x)
  {
    hide Less, Search;
    var i := Search(examples, d);
    var all := examples[..i] + [d] + examples[i..];
    if i < |examples| {
      LessTotal(examples[i], d);
      assert examples[i] in examples;
      LessTransitive(d, examples[i], x);
    }
    forall e | e in FirstThree(all) ensures Less(e, x) {
      var k :| 0 <= k < MAX_EXAMPLES && all[k] == e;
      if k < i { assert examples[k] in examples; }
      if k > i { assert examples[k - 1] in examples; }
    }
  }

  /** The three smallest of a set are determined by the set. */
  lemma SmallestUnique(a: seq<string>, b: seq<string>, details: set<string>)
    requires Smallest(a, details) && Smallest(b, details)
    ensures a == b
  {
    SmallestWithin(a, b, details);
    SmallestWithin(b, a, details);
    SameAscending(a, b);
  }

  lemma SmallestWithin(a: seq<string>, b: seq<string>, details: set<string>)
    requires Smallest(a, details) && Smallest(b, details)
    ensures forall e :: e in a ==> e in b
  {
    forall e | e in a ensures e in b {
      if e !in b {
        ThreeBelow(a, b, details, e);
      }
    }
  }

  predicate Outside(b: seq<string>, e: string) { e !in b && AllBelow(b, e) && |b| == MAX_EXAMPLES }

  /** Were e above all of b, all of b would be in a beside e: four texts where three are kept. */
  lemma ThreeBelow(a: seq<string>, b: seq<string>, details: set<string>, e: string)
    requires Smallest(a, details) && Smallest(b, details) && e in a
    ensures !Outside(b, e)
  {
    if Outside(b, e) { FourInA(a, b, details, e); }
  }

  lemma FourInA(a: seq<string>, b: seq<string>, details: set<string>, e: string)
    requires (forall d :: d in details && d !in a ==> AllBelow(a, d))
    requires Smallest(b, details) && e in a && Outside(b, e)
    ensures |a| > MAX_EXAMPLES
  {
    forall x | x in b ensures x in a {
      if x !in a {
        LessTotal(e, x);
      }
    }
    assert b[0] in b && b[1] in b && b[2] in b;
    var i0 :| 0 <= i0 < |a| && a[i0] == b[0];
    var i1 :| 0 <= i1 < |a| && a[i1] == b[1];
    var i2 :| 0 <= i2 < |a| && a[i2] == b[2];
    var i3 :| 0 <= i3 < |a| && a[i3] == e;
    LessTotal(b[0], b[1]);
    LessTotal(b[0], b[2]);
    LessTotal(b[1], b[2]);
  }

  lemma {:induction false} SameAscending(a: seq<string>, b: seq<string>)
    requires Ascending(a) && Ascending(b) && forall e :: e in a <==> e in b
    ensures a == b
    decreases |a|
  {
    if a == [] {
      NothingIn(b);
    } else {
      FirstIsLeast(a, b);
      FirstIsLeast(b, a);
      LessTotal(a[0], b[0]);
      RestSame(a, b);
      SameAscending(a[1..], b[1..]);
      assert a == [a[0]] + a[1..] && b == [b[0]] + b[1..];
    }
  }

  lemma NothingIn(b: seq<string>)
    ensures b == [] || b[0] in b
  {}

  lemma FirstIsLeast(a: seq<string>, b: seq<string>)
    requires a != [] && Ascending(b) && a[0] in b
    ensures b != [] && (b[0] == a[0] || Less(b[0], a[0]))
  {
    var k :| 0 <= k < |b| && b[k] == a[0];
  }

  lemma RestSame(a: seq<string>, b: seq<string>)
    requires Ascending(a) && Ascending(b) && a != [] && b != [] && a[0] == b[0] && forall e :: e in a <==> e in b
    ensures forall e :: e in a[1..] <==> e in b[1..]
  {
    LessNotSelf(a[0]);
    forall e ensures e in a[1..] <==> e in b[1..] {
      assert e in a <==> e == a[0] || e in a[1..];
      assert e in b <==> e == b[0] || e in b[1..];
      assert a[0] !in a[1..] && b[0] !in b[1..];
    }
  }

  // ---- one code ---------------------------------------------------------------------------------------------------

  function Counted(d: Diagnostic): nat { if d.count <= 0 then 1 else d.count }

  function Joined(t: Texts, was: Option<Aggregate>, d: Diagnostic): Aggregate {
    var artifact, detail := t.bound(d.artifact), t.bound(d.detail);
    match was
    case None => Aggregate(artifact, Counted(d), Retained([], detail))
    case Some(a) => Aggregate(if Less(artifact, a.artifact) then artifact else a.artifact, a.count + Counted(d), Retained(a.examples, detail))
  }

  /** What the diagnostics of the code add up to. */
  function Summed(t: Texts, ds: seq<Diagnostic>, code: string): Option<Aggregate> {
    if ds == [] then None
    else
      var before, d := Summed(t, ds[..|ds| - 1], code), ds[|ds| - 1];
      if d.code == code then Some(Joined(t, before, d)) else before
  }

  function Details(t: Texts, ds: seq<Diagnostic>, code: string): set<string> {
    set d | d in ds && d.code == code :: t.bound(d.detail)
  }

  function TotalCount(ds: seq<Diagnostic>, code: string): nat {
    if ds == [] then 0
    else TotalCount(ds[..|ds| - 1], code) + if ds[|ds| - 1].code == code then Counted(ds[|ds| - 1]) else 0
  }

  /** A diagnostic counts for as much as it says, and at least for one. Totals add up over lists. */
  lemma CountsAre(d: Diagnostic, code: string, a: seq<Diagnostic>, b: seq<Diagnostic>)
    ensures TotalCount([d], code) == if d.code != code then 0 else if d.count > 1 then d.count else 1
    ensures TotalCount(a + b, code) == TotalCount(a, code) + TotalCount(b, code)
  {
    assert [d][..0] == [];
    TotalConcat(a, b, code);
  }

  ghost predicate IsLeast(t: Texts, ds: seq<Diagnostic>, code: string, artifact: string) {
    && (exists d :: d in ds && d.code == code && t.bound(d.artifact) == artifact)
    && (forall d :: d in ds && d.code == code ==> !Less(t.bound(d.artifact), artifact))
  }

  predicate HasCode(ds: seq<Diagnostic>, code: string) { exists d :: d in ds && d.code == code }

  /** The aggregate of a code is the total count, the least artifact and the three smallest details. */
  ghost predicate IsAggregate(t: Texts, ds: seq<Diagnostic>, code: string, a: Aggregate) {
    && a.count == TotalCount(ds, code)
    && IsLeast(t, ds, code, a.artifact)
    && Smallest(a.examples, Details(t, ds, code))
  }

  lemma {:induction false} SummedIs(t: Texts, ds: seq<Diagnostic>, code: string)
    ensures Summed(t, ds, code).Some? <==> HasCode(ds, code)
    ensures Summed(t, ds, code).Some? ==> IsAggregate(t, ds, code, Summed(t, ds, code).value)
    ensures !HasCode(ds, code) ==> TotalCount(ds, code) == 0
  {
    hide Smallest, Retained, Less;
    if ds != [] {
      var init, d := ds[..|ds| - 1], ds[|ds| - 1];
      SummedIs(t, init, code);
      assert ds == init + [d];
      DetailsNext(t, init, d, code);
      if d.code == code {
        var was := Summed(t, init, code);
        var examples := if was.Some? then was.value.examples else [];
        if was.None? { NoDetails(t, init, code); }
        RetainedSmallest(examples, Details(t, init, code), t.bound(d.detail));
        LeastNext(t, init, d, code, was);
      } else {
        OtherCode(t, init, d, code);
      }
    }
  }

  lemma OtherCode(t: Texts, ds: seq<Diagnostic>, d: Diagnostic, code: string)
    requires d.code != code
    ensures HasCode(ds + [d], code) <==> HasCode(ds, code)
    ensures TotalCount(ds + [d], code) == TotalCount(ds, code) && Details(t, ds + [d], code) == Details(t, ds, code)
    ensures forall artifact :: IsLeast(t, ds, code, artifact) ==> IsLeast(t, ds + [d], code, artifact)
  {
    hide Less;
    assert (ds + [d])[..|ds|] == ds;
    DetailsNext(t, ds, d, code);
    if HasCode(ds, code) {
      var x :| x in ds && x.code == code;
      assert x in ds + [d];
    }
    forall artifact | IsLeast(t, ds, code, artifact) ensures IsLeast(t, ds + [d], code, artifact) {
      var x :| x in ds && x.code == code && t.bound(x.artifact) == artifact;
      assert x in ds + [d];
    }
  }

  lemma NoDetails(t: Texts, ds: seq<Diagnostic>, code: string)
    requires !HasCode(ds, code)
    ensures Smallest([], Details(t, ds, code))
  {}

  lemma DetailsNext(t: Texts, ds: seq<Diagnostic>, d: Diagnostic, code: string)
    ensures Details(t, ds + [d], code) == Details(t, ds, code) + if d.code == code then {t.bound(d.detail)} else {}
  {}

  lemma LeastNext(t: Texts, ds: seq<Diagnostic>, d: Diagnostic, code: string, was: Option<Aggregate>)
    requires d.code == code && was.Some? == HasCode(ds, code) && (was.Some? ==> IsLeast(t, ds, code, was.value.artifact))
    ensures HasCode(ds + [d], code) && IsLeast(t, ds + [d], code, Joined(t, was, d).artifact)
  {
    hide Less, Retained;
    var all, mine := ds + [d], t.bound(d.artifact);
    assert d in all;
    LessTotal(mine, mine);
    if was.Some? {
      var least := was.value.artifact;
      var w :| w in ds && w.code == code && t.bound(w.artifact) == least;
      assert w in all;
      LessTotal(mine, least);
      if Less(mine, least) {
        forall x | x in all && x.code == code ensures !Less(t.bound(x.artifact), mine) {
          if x in ds && Less(t.bound(x.artifact), mine) { LessTransitive(t.bound(x.artifact), mine, least); }
        }
      }
    }
  }

  /** Aggregation does not depend on the order in which diagnostics arrive. */
  lemma ArrivalOrderDoesNotMatter(t: Texts, a: seq<Diagnostic>, b: seq<Diagnostic>, code: string)
    requires multiset(a) == multiset(b)
    ensures Summed(t, a, code) == Summed(t, b, code)
  {
    hide Smallest, Less;
    SummedIs(t, a, code);
    SummedIs(t, b, code);
    assert forall d :: d in a <==> d in multiset(a);
    assert forall d :: d in b <==> d in multiset(b);
    TotalOfMultiset(a, b, code);
    if HasCode(a, code) {
      assert HasCode(b, code);
      var x, y := Summed(t, a, code).value, Summed(t, b, code).value;
      assert Details(t, a, code) == Details(t, b, code);
      SmallestUnique(x.examples, y.examples, Details(t, a, code));
      LessTotal(x.artifact, y.artifact);
    }
  }

  lemma {:induction false} TotalOfMultiset(a: seq<Diagnostic>, b: seq<Diagnostic>, code: string)
    requires multiset(a) == multiset(b)
    ensures TotalCount(a, code) == TotalCount(b, code)
    decreases |a|
  {
    if a == [] {
      assert |multiset(a)| == |a| && |multiset(b)| == |b|;
    } else {
      var d := a[|a| - 1];
      assert a == a[..|a| - 1] + [d];
      var k := FindIn(b, d);
      WithoutOne(b, k);
      var rest := b[..k] + b[k + 1..];
      assert multiset(a[..|a| - 1]) == multiset(a) - multiset{d};
      TotalOfMultiset(a[..|a| - 1], rest, code);
      TotalConcat(b[..k] + [d], b[k + 1..], code);
      TotalConcat(b[..k], [d], code);
      TotalConcat(b[..k], b[k + 1..], code);
      assert [d][..0] == [];
    }
  }

  lemma FindIn(b: seq<Diagnostic>, d: Diagnostic) returns (k: nat)
    requires d in multiset(b)
    ensures k < |b| && b[k] == d
  {
    assert d in b;
    k :| 0 <= k < |b| && b[k] == d;
  }

  lemma WithoutOne(b: seq<Diagnostic>, k: nat)
    requires k < |b|
    ensures b == b[..k] + [b[k]] + b[k + 1..]
    ensures multiset(b[..k] + b[k + 1..]) == multiset(b) - multiset{b[k]}
  {
    assert b == b[..k] + [b[k]] + b[k + 1..];
    assert multiset(b) == multiset(b[..k]) + multiset{b[k]} + multiset(b[k + 1..]);
  }

  lemma {:induction false} TotalConcat(a: seq<Diagnostic>, b: seq<Diagnostic>, code: string)
    ensures TotalCount(a + b, code) == TotalCount(a, code) + TotalCount(b, code)
  {
    if b == [] {
      assert a + b == a;
    } else {
      assert (a + b)[..|a + b| - 1] == a + b[..|b| - 1];
      TotalConcat(a, b[..|b| - 1], code);
    }
  }

  // ---- the collection ------------------------------------------------------------------------------------------------

  function Keys(t: Texts, fs: seq<Finding>): set<string> { set f | f in fs :: t.key(f) }

  /** The first finding of each key, in the order offered. */
  function DistinctOf(t: Texts, offered: seq<Finding>): seq<Finding> {
    if offered == [] then []
    else
      var before, f := DistinctOf(t, offered[..|offered| - 1]), offered[|offered| - 1];
      if t.key(f) in Keys(t, before) then before else before + [f]
  }

  function Limit(max: int): nat { if max < 0 then 0 else max }

  /** The collection holds the first `max` distinct findings offered, and knows whether there were more. */
  ghost predicate Collected(t: Texts, max: int, offered: seq<Finding>, findings: seq<Finding>, seen: set<string>, limitHit: bool) {
    var distinct := DistinctOf(t, offered);
    && findings == (if |distinct| <= Limit(max) then distinct else distinct[..Limit(max)])
    && seen == Keys(t, findings)
    && (limitHit <==> |distinct| > Limit(max))
  }

  lemma {:induction false} DistinctKeys(t: Texts, offered: seq<Finding>)
    ensures forall i, j :: 0 <= i < j < |DistinctOf(t, offered)| ==> t.key(DistinctOf(t, offered)[i]) != t.key(DistinctOf(t, offered)[j])
    ensures Keys(t, DistinctOf(t, offered)) == Keys(t, offered)
  {
    if offered != [] {
      var init, f := offered[..|offered| - 1], offered[|offered| - 1];
      DistinctKeys(t, init);
      assert offered == init + [f];
      var before := DistinctOf(t, init);
      forall i | 0 <= i < |before| ensures t.key(before[i]) in Keys(t, before) { assert before[i] in before; }
      assert Keys(t, offered) == Keys(t, init) + {t.key(f)};
      assert Keys(t, before + [f]) == Keys(t, before) + {t.key(f)};
    }
  }

  lemma OfferSeen(t: Texts, max: int, offered: seq<Finding>, findings: seq<Finding>, seen: set<string>, limitHit: bool, f: Finding)
    requires Collected(t, max, offered, findings, seen, limitHit) && t.key(f) in seen
    ensures Collected(t, max, offered + [f], findings, seen, limitHit)
  {
    hide DistinctOf;
    var distinct := DistinctOf(t, offered);
    assert forall g :: g in findings ==> g in distinct;
    assert t.key(f) in Keys(t, distinct);
    DistinctNext(t, offered, f);
  }

  lemma DistinctNext(t: Texts, offered: seq<Finding>, f: Finding)
    ensures var before := DistinctOf(t, offered);
            DistinctOf(t, offered + [f]) == if t.key(f) in Keys(t, before) then before else before + [f]
  {
    assert (offered + [f])[..|offered|] == offered;
  }

  lemma OfferNew(t: Texts, max: int, offered: seq<Finding>, findings: seq<Finding>, seen: set<string>, limitHit: bool, f: Finding)
    requires Collected(t, max, offered, findings, seen, limitHit) && t.key(f) !in seen
    ensures |findings| >= max ==> Collected(t, max, offered + [f], findings, seen, true)
    ensures |findings| < max ==> Collected(t, max, offered + [f], findings + [f], seen + {t.key(f)}, limitHit)
  {
    hide DistinctOf;
    DistinctNext(t, offered, f);
    var distinct := DistinctOf(t, offered);
    assert |distinct| <= Limit(max) ==> findings == distinct;
    assert Keys(t, findings + [f]) == seen + {t.key(f)};
  }

  class Results {
    const texts: Texts
    const maxFindings: int
    var findings: seq<Finding>
    var seen: set<string>
    var limitHit: bool
    var diagnostics: map<string, Aggregate>
    ghost var offered: seq<Finding>
    ghost var reported: seq<Diagnostic>

    ghost predicate Valid()
      reads this
    {
      && Collected(texts, maxFindings, offered, findings, seen, limitHit)
      && Aggregated(texts, reported, diagnostics)
    }

    constructor (texts: Texts, maxFindings: int)
      ensures Valid() && offered == [] && reported == [] && this.texts == texts && this.maxFindings == maxFindings
    {
      this.texts, this.maxFindings := texts, maxFindings;
      findings, seen, limitHit, diagnostics := [], {}, false, map[];
      offered, reported := [], [];
    }

    method AddFinding(f: Finding)
      requires Valid()
      modifies this
      ensures Valid() && offered == old(offered) + [f] && reported == old(reported)
    {
      hide Collected;
      if texts.key(f) in seen {
        OfferSeen(texts, maxFindings, offered, findings, seen, limitHit, f);
        offered := offered + [f];
        return;
      }
      OfferNew(texts, maxFindings, offered, findings, seen, limitHit, f);
      offered := offered + [f];
      if |findings| >= maxFindings {
        limitHit := true;
        return;
      }
      seen := seen + {texts.key(f)};
      findings := findings + [f];
    }

    method AddDiagnostic(d: Diagnostic)
      requires Valid()
      modifies this
      ensures Valid() && reported == old(reported) + [d] && offered == old(offered)
    {
      hide Collected, Retained;
      var count := if d.count <= 0 then 1 else d.count;
      var artifact, detail := texts.bound(d.artifact), texts.bound(d.detail);
      var item := if d.code in diagnostics then diagnostics[d.code] else Aggregate(artifact, 0, []);
      if d.code in diagnostics && Less(artifact, item.artifact) { item := item.(artifact := artifact); }
      item := item.(count := item.count + count, examples := Retained(item.examples, detail));
      ReportNext(texts, reported, diagnostics, d);
      diagnostics := diagnostics[d.code := item];
      reported := reported + [d];
    }

    method AddResult(fs: seq<Finding>, ds: seq<Diagnostic>, physicalPath: string)
      requires Valid()
      modifies this
      ensures Valid() && reported == old(reported) + ds
      ensures offered == old(offered) + Located(fs, physicalPath)
    {
      hide Collected, Aggregated;
      for i := 0 to |fs|
        invariant Valid() && reported == old(reported) && offered == old(offered) + Located(fs[..i], physicalPath)
      {
        assert fs[..i + 1][..i] == fs[..i];
        var f := fs[i];
        if physicalPath != "" { f := f.(artifactPath := physicalPath); }
        AddFinding(f);
      }
      assert fs[..|fs|] == fs;
      for i := 0 to |ds|
        invariant Valid() && reported == old(reported) + ds[..i] && offered == old(offered) + Located(fs, physicalPath)
      {
        AddDiagnostic(ds[i]);
      }
      assert ds[..|ds|] == ds;
    }

    /** A full collection says so in the diagnostics. */
    method Finish()
      requires Valid()
      modifies this
      ensures Valid() && offered == old(offered)
      ensures |DistinctOf(texts, offered)| > Limit(maxFindings) ==> ANALYSIS_BUDGET in diagnostics
      ensures reported == old(reported) || reported == old(reported) + [Diagnostic("", ANALYSIS_BUDGET, "finding limit reached", 1)]
    {
      if limitHit { AddDiagnostic(Diagnostic("", ANALYSIS_BUDGET, "finding limit reached", 1)); }
    }
  }

  function Located(fs: seq<Finding>, physicalPath: string): seq<Finding> {
    if fs == [] then []
    else
      Located(fs[..|fs| - 1], physicalPath)
      + [if physicalPath != "" then fs[|fs| - 1].(artifactPath := physicalPath) else fs[|fs| - 1]]
  }

  /** The same findings in the same order, under the physical path when there is one. */
  lemma {:induction false} LocatedIs(fs: seq<Finding>, physicalPath: string, i: nat)
    requires i < |fs|
    ensures |Located(fs, physicalPath)| == |fs|
    ensures Located(fs, physicalPath)[i] == fs[i].(artifactPath := if physicalPath == "" then fs[i].artifactPath else physicalPath)
  {
    var init := fs[..|fs| - 1];
    if init != [] { LocatedIs(init, physicalPath, if i < |init| then i else 0); }
  }

  ghost predicate Aggregated(t: Texts, reported: seq<Diagnostic>, diagnostics: map<string, Aggregate>) {
    forall code :: Summed(t, reported, code) == if code in diagnostics then Some(diagnostics[code]) else None
  }

  lemma ReportNext(t: Texts, reported: seq<Diagnostic>, diagnostics: map<string, Aggregate>, d: Diagnostic)
    requires Aggregated(t, reported, diagnostics)
    ensures Aggregated(t, reported + [d], diagnostics[d.code := Joined(t, Summed(t, reported, d.code), d)])
  {
    hide Joined;
    assert (reported + [d])[..|reported|] == reported;
  }

  /** What is reported of a code is there exactly when a diagnostic of it arrived. */
  lemma CodeIsKept(t: Texts, reported: seq<Diagnostic>, diagnostics: map<string, Aggregate>, code: string)
    requires Aggregated(t, reported, diagnostics)
    ensures code in diagnostics <==> HasCode(reported, code)
    ensures code in diagnostics ==> IsAggregate(t, reported, code, diagnostics[code])
  {
    SummedIs(t, reported, code);
  }

  // ---- nested archives -----------------------------------------------------------------------------------------------

  type Blob = seq<nat>

  datatype Kind = Class | Source | Nested | Other

  datatype Member = Member(name: string, kind: Kind, stored: Blob)

  datatype Listing = Listed(member: Member) | Faulty(name: string, error: string)

  /** An opened archive: how many files it holds and what preparing them lists. */
  datatype Archive = Archive(files: nat, listing: seq<Listing>)

  datatype Fault = Fault(code: string, detail: string)

  /** `analyzeClasses` looks at all classes kept together. */
  datatype Reader = Reader(
    read: Member -> Result<Blob, Fault>, open: Blob -> Result<Archive, string>, digest: Blob -> string,
    parse: (string, Blob) -> Option<Diagnostic>, analyze: (string, Blob) -> seq<Finding>,
    analyzeClasses: map<string, Blob> -> (seq<Finding>, seq<Diagnostic>))

  datatype Limits = Limits(entries: nat, classes: nat, retained: nat, depth: nat)

  /** What is scanned: one archive under the name `outer`. */
  datatype Job = Job(reader: Reader, limits: Limits, root: Archive, outer: string)

  /** A member whose content was read and is new. `from` is the item it was found in, None for the root. */
  datatype Item = Item(from: Option<nat>, member: Member, path: string, depth: nat, data: Blob)

  /** What a budget turned away: the archive opened from an item, or an item. */
  datatype Turn = TooMany(from: Option<nat>) | OverClasses(i: nat) | OverBytes(i: nat) | TooDeep(i: nat)

  /** Everything the scan leaves behind, in order. */
  datatype Account = Account(log: seq<Item>, reported: seq<Diagnostic>, offered: seq<Finding>, kept: seq<(string, Blob)>)

  ghost predicate Later(a: Account, b: Account) {
    a.log <= b.log && a.reported <= b.reported && a.offered <= b.offered && a.kept <= b.kept
  }

  // ---- what was scanned ------------------------------------------------------------------------------------------------

  /** The entry is accounted for: reported as faulty or unreadable, or of a kind that is not looked at, or its
      content is in the log, under this name or, by its digest, another. */
  ghost predicate ListingCovered(job: Job, acc: Account, entry: Listing, root: string) {
    match entry
    case Faulty(name, error) =>
      Diagnostic(if name == "" then root else root + "!/" + name, ARTIFACT_READ, error, 1) in acc.reported
    case Listed(member) => MemberCovered(job, acc, member, root + "!/" + member.name)
  }

  ghost predicate MemberCovered(job: Job, acc: Account, member: Member, path: string) {
    || member.kind.Other?
    || match job.reader.read(member)
       case Err(fault) => Diagnostic(path, fault.code, fault.detail, 1) in acc.reported
       case Ok(data) => InLog(job, acc.log, job.reader.digest(data))
  }

  ghost predicate InLog(job: Job, log: seq<Item>, digest: string) {
    exists i :: 0 <= i < |log| && job.reader.digest(log[i].data) == digest
  }

  ghost predicate ArchiveCovered(job: Job, acc: Account, archive: Archive, root: string) {
    forall k :: 0 <= k < |archive.listing| ==> ListingCovered(job, acc, archive.listing[k], root)
  }

  /** The item was dealt with: a class is kept or its fault reported, the findings of a source were offered, and an
      archive is accounted for entry by entry, or its fault reported. */
  ghost predicate ItemDone(job: Job, acc: Account, item: Item) {
    match item.member.kind
    case Class => ClassDone(job, acc, item)
    case Source => forall f :: f in Located(job.reader.analyze(item.path, item.data), job.outer) ==> f in acc.offered
    case Nested => NestedDone(job, acc, item)
    case Other => true
  }

  ghost predicate ClassDone(job: Job, acc: Account, item: Item) {
    match job.reader.parse(item.path, item.data)
    case Some(fault) => fault in acc.reported
    case None => (item.path, item.data) in acc.kept
  }

  ghost predicate NestedDone(job: Job, acc: Account, item: Item) {
    match job.reader.open(item.data)
    case Err(error) => Diagnostic(item.path, ARTIFACT_READ, error, 1) in acc.reported
    case Ok(inner) => ArchiveCovered(job, acc, inner, item.path)
  }

  ghost predicate DoneSince(job: Job, acc: Account, start: nat) {
    forall i :: start <= i < |acc.log| ==> ItemDone(job, acc, acc.log[i])
  }

  lemma CoveredLater(job: Job, a: Account, b: Account, entry: Listing, root: string)
    requires Later(a, b) && ListingCovered(job, a, entry, root)
    ensures ListingCovered(job, b, entry, root)
  {
    if entry.Listed? { MemberCoveredLater(job, a, b, entry.member, root + "!/" + entry.member.name); }
  }

  lemma MemberCoveredLater(job: Job, a: Account, b: Account, member: Member, path: string)
    requires Later(a, b) && MemberCovered(job, a, member, path)
    ensures MemberCovered(job, b, member, path)
  {
    var read := job.reader.read(member);
    if !member.kind.Other? && read.Ok? { InLogLater(job, a.log, b.log, job.reader.digest(read.value)); }
  }

  lemma InLogLater(job: Job, a: seq<Item>, b: seq<Item>, digest: string)
    requires a <= b && InLog(job, a, digest)
    ensures InLog(job, b, digest)
  {
    var i :| 0 <= i < |a| && job.reader.digest(a[i].data) == digest;
    assert b[i] == a[i];
  }

  lemma ArchiveCoveredLater(job: Job, a: Account, b: Account, archive: Archive, root: string)
    requires Later(a, b) && ArchiveCovered(job, a, archive, root)
    ensures ArchiveCovered(job, b, archive, root)
  {
    hide ListingCovered, Later;
    forall k | 0 <= k < |archive.listing| ensures ListingCovered(job, b, archive.listing[k], root) {
      CoveredLater(job, a, b, archive.listing[k], root);
    }
  }

  lemma DoneLater(job: Job, a: Account, b: Account, item: Item)
    requires Later(a, b) && ItemDone(job, a, item)
    ensures ItemDone(job, b, item)
  {
    hide ArchiveCovered;
    if item.member.kind.Nested? && job.reader.open(item.data).Ok? {
      ArchiveCoveredLater(job, a, b, job.reader.open(item.data).value, item.path);
    }
  }

  /** What was done between two accounts, and what was done after the first, is all done. */
  lemma DoneJoined(job: Job, a: Account, b: Account, start: nat)
    requires Later(a, b) && start <= |a.log| && DoneSince(job, a, start) && DoneSince(job, b, |a.log|)
    ensures DoneSince(job, b, start)
  {
    hide ItemDone;
    forall i | start <= i < |a.log| ensures ItemDone(job, b, b.log[i]) {
      DoneLater(job, a, b, a.log[i]);
    }
  }

  // ---- where items come from --------------------------------------------------------------------------------------------

  /** The archive that `from` stands for, under its name and at its depth. */
  predicate Container(job: Job, log: seq<Item>, from: Option<nat>, archive: Archive, base: string, depth: nat) {
    match from
    case None => archive == job.root && base == job.outer && depth == 0
    case Some(j) =>
      && j < |log| && log[j].member.kind.Nested? && job.reader.open(log[j].data) == Ok(archive)
      && base == log[j].path && depth == log[j].depth + 1
  }

  /** The item is what was read from a listed member of an archive the scan had opened by then. */
  ghost predicate Genuine(job: Job, log: seq<Item>, i: nat)
    requires i < |log|
  {
    var item := log[i];
    && !item.member.kind.Other? && job.reader.read(item.member) == Ok(item.data)
    && exists archive, base :: Container(job, log[..i], item.from, archive, base, item.depth) && FoundIn(archive, base, item)
  }

  predicate FoundIn(archive: Archive, base: string, item: Item) {
    Listed(item.member) in archive.listing && item.path == base + "!/" + item.member.name
  }

  ghost predicate AllGenuine(job: Job, log: seq<Item>) {
    forall i :: 0 <= i < |log| ==> Genuine(job, log, i)
  }

  lemma GenuineNext(job: Job, log: seq<Item>, item: Item, archive: Archive, base: string)
    requires AllGenuine(job, log) && Container(job, log, item.from, archive, base, item.depth)
    requires FoundIn(archive, base, item) && !item.member.kind.Other? && job.reader.read(item.member) == Ok(item.data)
    ensures AllGenuine(job, log + [item])
  {
    hide Container, FoundIn;
    var all := log + [item];
    forall i | 0 <= i < |all| ensures Genuine(job, all, i) {
      assert all[..i] == if i < |log| then log[..i] else log;
      if i < |log| { assert Genuine(job, log, i); }
    }
  }

  function ClassesIn(log: seq<Item>): nat {
    if log == [] then 0 else ClassesIn(log[..|log| - 1]) + if log[|log| - 1].member.kind.Class? then 1 else 0
  }

  function BytesIn(log: seq<Item>): nat {
    if log == [] then 0
    else BytesIn(log[..|log| - 1]) + if log[|log| - 1].member.kind.Class? then |log[|log| - 1].data| else 0
  }

  /** The files of the root and of every archive found. */
  function FilesIn(job: Job, log: seq<Item>): nat {
    if log == [] then job.root.files else FilesIn(job, log[..|log| - 1]) + FilesOf(job, log[|log| - 1])
  }

  function FilesOf(job: Job, item: Item): nat {
    if item.member.kind.Nested? && job.reader.open(item.data).Ok? then job.reader.open(item.data).value.files else 0
  }

  // ---- budgets ---------------------------------------------------------------------------------------------------------

  function TotalLength(blobs: seq<(string, Blob)>): nat {
    if blobs == [] then 0 else TotalLength(blobs[..|blobs| - 1]) + |blobs[|blobs| - 1].1|
  }

  /** The classes by path, a later one in place of an earlier. */
  function Latest(kept: seq<(string, Blob)>): map<string, Blob> {
    if kept == [] then map[] else Latest(kept[..|kept| - 1])[kept[|kept| - 1].0 := kept[|kept| - 1].1]
  }

  /** The class kept under a path is the last one that came under it. */
  lemma {:induction false} LatestIs(kept: seq<(string, Blob)>, i: nat)
    requires i < |kept| && forall k :: i < k < |kept| ==> kept[k].0 != kept[i].0
    ensures kept[i].0 in Latest(kept) && Latest(kept)[kept[i].0] == kept[i].1
  {
    if i < |kept| - 1 { LatestIs(kept[..|kept| - 1], i); }
  }

  /** What one more item adds to the counts: a class counts once and for its bytes, an archive that opens for its
      files, and nothing else for anything. */
  lemma CountsGrow(job: Job, log: seq<Item>, item: Item)
    ensures ClassesIn([]) == 0 && BytesIn([]) == 0 && FilesIn(job, []) == job.root.files
    ensures item.member.kind == Class ==>
              && ClassesIn(log + [item]) == ClassesIn(log) + 1 && BytesIn(log + [item]) == BytesIn(log) + |item.data|
              && FilesIn(job, log + [item]) == FilesIn(job, log)
    ensures item.member.kind == Nested && job.reader.open(item.data).Ok? ==>
              && ClassesIn(log + [item]) == ClassesIn(log) && BytesIn(log + [item]) == BytesIn(log)
              && FilesIn(job, log + [item]) == FilesIn(job, log) + job.reader.open(item.data).value.files
    ensures item.member.kind == Source || item.member.kind == Other || (item.member.kind == Nested && job.reader.open(item.data).Err?) ==>
              && ClassesIn(log + [item]) == ClassesIn(log) && BytesIn(log + [item]) == BytesIn(log)
              && FilesIn(job, log + [item]) == FilesIn(job, log)
  {
    assert (log + [item])[..|log|] == log;
  }

  /** The budgets hold, `retained` is exactly what was charged, and every class kept was charged for. */
  ghost predicate Within(l: Limits, entries: nat, classes: nat, retained: nat, digests: set<string>,
                         charged: seq<(string, Blob)>, parsed: map<string, Blob>) {
    && entries <= l.entries && classes <= l.classes && retained <= l.retained && |digests| <= l.entries
    && retained == TotalLength(charged) && |charged| <= classes
    && forall path :: path in parsed ==> (path, parsed[path]) in charged
  }

  /** Nothing is counted that was not found. */
  predicate Earned(job: Job, log: seq<Item>, entries: nat, classes: nat, retained: nat) {
    entries <= FilesIn(job, log) && classes <= ClassesIn(log) && retained <= BytesIn(log)
  }

  /** Digests are those of logged contents, and, until there are as many as the entry limit, no content is logged
      twice. */
  ghost predicate Once(job: Job, log: seq<Item>, digests: set<string>) {
    && (forall g :: g in digests ==> InLog(job, log, g))
    && (|digests| < job.limits.entries ==>
          && (forall i :: 0 <= i < |log| ==> job.reader.digest(log[i].data) in digests)
          && forall i, j :: 0 <= i < j < |log| ==> job.reader.digest(log[i].data) != job.reader.digest(log[j].data))
  }

  lemma OnceNext(job: Job, log: seq<Item>, digests: set<string>, item: Item)
    requires Once(job, log, digests) && |digests| <= job.limits.entries && job.reader.digest(item.data) !in digests
    ensures var more := if |digests| < job.limits.entries then digests + {job.reader.digest(item.data)} else digests;
            Once(job, log + [item], more) && |more| <= job.limits.entries
  {
    var all, g := log + [item], job.reader.digest(item.data);
    assert all[|log|] == item;
    forall h | h in digests ensures InLog(job, all, h) { InLogLater(job, log, all, h); }
    assert InLog(job, all, g);
  }

  function NameOf(job: Job, log: seq<Item>, from: Option<nat>): string {
    match from case None => job.outer case Some(j) => if j < |log| then log[j].path else ""
  }

  /** The budget really was exhausted when it turned this away, and a diagnostic says so. */
  ghost predicate Justified(job: Job, acc: Account, entries: nat, classes: nat, retained: nat, t: Turn) {
    match t
    case TooMany(from) =>
      && (exists archive, depth :: Container(job, acc.log, from, archive, NameOf(job, acc.log, from), depth)
                                   && archive.files > job.limits.entries - entries)
      && Diagnostic(NameOf(job, acc.log, from), ARCHIVE_BUDGET, "archive entry limit reached", 1) in acc.reported
    case OverClasses(i) =>
      && i < |acc.log| && acc.log[i].member.kind.Class? && classes >= job.limits.classes
      && Diagnostic(acc.log[i].path, ANALYSIS_BUDGET, "class limit reached", 1) in acc.reported
    case OverBytes(i) =>
      && i < |acc.log| && acc.log[i].member.kind.Class? && retained + |acc.log[i].data| > job.limits.retained
      && Diagnostic(acc.log[i].path, ANALYSIS_BUDGET, "retained class byte limit reached", 1) in acc.reported
    case TooDeep(i) =>
      && i < |acc.log| && acc.log[i].member.kind.Nested? && acc.log[i].depth >= job.limits.depth
      && Diagnostic(acc.log[i].path, ARCHIVE_BUDGET, "nested archive depth limit reached", 1) in acc.reported
  }

  ghost predicate AllJustified(job: Job, acc: Account, entries: nat, classes: nat, retained: nat, turned: seq<Turn>) {
    forall t :: t in turned ==> Justified(job, acc, entries, classes, retained, t)
  }

  /** A reason stays a reason: the counters only grow. */
  lemma JustifiedLater(job: Job, a: Account, b: Account, e: nat, c: nat, r: nat, e': nat, c': nat, r': nat, turned: seq<Turn>)
    requires Later(a, b) && e <= e' && c <= c' && r <= r' && AllJustified(job, a, e, c, r, turned)
    ensures AllJustified(job, b, e', c', r', turned)
  {
    forall t | t in turned ensures Justified(job, b, e', c', r', t) {
      assert Justified(job, a, e, c, r, t);
      if t.TooMany? {
        var name := NameOf(job, a.log, t.from);
        var archive, depth :| Container(job, a.log, t.from, archive, name, depth) && archive.files > job.limits.entries - e;
        assert Container(job, b.log, t.from, archive, name, depth) && NameOf(job, b.log, t.from) == name;
      }
    }
  }

  /** A reason that a budget turned something away has the code of a budget. */
  lemma JustifiedIsReported(job: Job, acc: Account, entries: nat, classes: nat, retained: nat, turned: seq<Turn>)
    requires AllJustified(job, acc, entries, classes, retained, turned) && turned != []
    ensures HasCode(acc.reported, ARCHIVE_BUDGET) || HasCode(acc.reported, ANALYSIS_BUDGET)
  {
    assert turned[0] in turned;
    assert Justified(job, acc, entries, classes, retained, turned[0]);
  }

  lemma EarnedNext(job: Job, log: seq<Item>, item: Item, entries: nat, classes: nat, retained: nat)
    requires Earned(job, log, entries, classes, retained)
    ensures Earned(job, log + [item], entries, classes, retained)
    ensures item.member.kind.Class? ==> classes < ClassesIn(log + [item]) && retained + |item.data| <= BytesIn(log + [item])
    ensures entries + FilesOf(job, item) <= FilesIn(job, log + [item])
  {
    assert (log + [item])[..|log|] == log;
  }

  /** Counting a class, charging its bytes and keeping it stay within the budgets they are checked against. */
  lemma ChargeOne(l: Limits, entries: nat, classes: nat, retained: nat, digests: set<string>,
                  charged: seq<(string, Blob)>, parsed: map<string, Blob>, path: string, data: Blob)
    requires Within(l, entries, classes, retained, digests, charged, parsed)
    ensures classes < l.classes ==> Within(l, entries, classes + 1, retained, digests, charged, parsed)
    ensures classes < l.classes && retained + |data| <= l.retained ==>
              && Within(l, entries, classes + 1, retained + |data|, digests, charged + [(path, data)], parsed)
              && Within(l, entries, classes + 1, retained + |data|, digests, charged + [(path, data)], parsed[path := data])
  {
    assert (charged + [(path, data)])[..|charged|] == charged;
  }

  lemma DigestsWithin(l: Limits, entries: nat, classes: nat, retained: nat, digests: set<string>,
                      charged: seq<(string, Blob)>, parsed: map<string, Blob>, digest: string)
    requires Within(l, entries, classes, retained, digests, charged, parsed)
    ensures |digests| <= l.entries
    ensures |digests| < l.entries ==> Within(l, entries, classes, retained, digests + {digest}, charged, parsed)
  {}

  lemma SeenIsInLog(job: Job, log: seq<Item>, digests: set<string>, digest: string)
    requires Once(job, log, digests)
    ensures digest in digests ==> InLog(job, log, digest)
  {}

  lemma AdmitWithin(l: Limits, entries: nat, classes: nat, retained: nat, digests: set<string>,
                    charged: seq<(string, Blob)>, parsed: map<string, Blob>, files: nat)
    requires Within(l, entries, classes, retained, digests, charged, parsed) && files <= l.entries - entries
    ensures Within(l, entries + files, classes, retained, digests, charged, parsed)
  {}

  lemma LastInLog(job: Job, log: seq<Item>)
    requires log != []
    ensures InLog(job, log, job.reader.digest(log[|log| - 1].data))
  {}

  ghost predicate MembersCovered(job: Job, acc: Account, members: seq<Member>, root: string) {
    forall k :: 0 <= k < |members| ==> MemberCovered(job, acc, members[k], root + "!/" + members[k].name)
  }

  lemma OneMoreCovered(job: Job, a: Account, b: Account, members: seq<Member>, i: nat, root: string, start: nat)
    requires i < |members| && Later(a, b) && MembersCovered(job, a, members[..i], root) && start <= |a.log|
    requires MemberCovered(job, b, members[i], root + "!/" + members[i].name)
    requires DoneSince(job, a, start) && DoneSince(job, b, |a.log|)
    ensures MembersCovered(job, b, members[..i + 1], root) && DoneSince(job, b, start)
  {
    hide MemberCovered, Later, DoneSince;
    DoneJoined(job, a, b, start);
    forall k | 0 <= k < i ensures MemberCovered(job, b, members[k], root + "!/" + members[k].name) {
      assert members[..i][k] == members[k];
      MemberCoveredLater(job, a, b, members[k], root + "!/" + members[k].name);
    }
  }

  lemma AllCovered(job: Job, a: Account, b: Account, archive: Archive, members: seq<Member>, root: string)
    requires Later(a, b) && MembersCovered(job, b, members, root)
    requires forall entry :: entry in archive.listing && entry.Faulty? ==> ListingCovered(job, a, entry, root)
    requires forall entry :: entry in archive.listing && entry.Listed? ==> entry.member in members
    ensures ArchiveCovered(job, b, archive, root)
  {
    hide MemberCovered, Later;
    forall k | 0 <= k < |archive.listing| ensures ListingCovered(job, b, archive.listing[k], root) {
      var entry := archive.listing[k];
      assert entry in archive.listing;
      if entry.Faulty? { CoveredLater(job, a, b, entry, root); }
    }
  }

  lemma TooManyIsJustified(job: Job, acc: Account, entries: nat, classes: nat, retained: nat,
                           from: Option<nat>, archive: Archive, root: string, depth: nat)
    requires Container(job, acc.log, from, archive, root, depth) && archive.files > job.limits.entries - entries
    ensures Justified(job, acc.(reported := acc.reported + [Diagnostic(root, ARCHIVE_BUDGET, "archive entry limit reached", 1)]),
                      entries, classes, retained, TooMany(from))
  {
    var told := acc.(reported := acc.reported + [Diagnostic(root, ARCHIVE_BUDGET, "archive entry limit reached", 1)]);
    assert Container(job, told.log, from, archive, NameOf(job, told.log, from), depth);
  }

  lemma OtherIsCovered(job: Job, acc: Account, member: Member, path: string)
    requires member.kind.Other?
    ensures MemberCovered(job, acc, member, path) && DoneSince(job, acc, |acc.log|)
  {}

  lemma NothingYet(job: Job, acc: Account, members: seq<Member>, root: string)
    ensures MembersCovered(job, acc, members[..0], root) && DoneSince(job, acc, |acc.log|)
  {}

  lemma ContainerLater(job: Job, a: seq<Item>, b: seq<Item>, from: Option<nat>, archive: Archive, base: string, depth: nat)
    requires a <= b && Container(job, a, from, archive, base, depth)
    ensures Container(job, b, from, archive, base, depth)
  {}

  /** The counters are exactly what was found. */
  predicate Spent(job: Job, log: seq<Item>, entries: nat, classes: nat, retained: nat) {
    entries == FilesIn(job, log) && classes == ClassesIn(log) && retained == BytesIn(log)
  }

  lemma SpentNext(job: Job, log: seq<Item>, item: Item, entries: nat, classes: nat, retained: nat)
    requires Spent(job, log, entries, classes, retained)
    ensures item.member.kind.Class? ==> Spent(job, log + [item], entries, classes + 1, retained + |item.data|)
    ensures item.member.kind.Source? || item.member.kind.Other? ==> Spent(job, log + [item], entries, classes, retained)
    ensures item.member.kind.Nested? ==> Spent(job, log + [item], entries + FilesOf(job, item), classes, retained)
  {
    assert (log + [item])[..|log|] == log;
  }

  lemma DoneAtEnd(job: Job, acc: Account)
    ensures DoneSince(job, acc, |acc.log|)
  {}

  /** The findings and diagnostics about all kept classes together are in the account. */
  ghost predicate ClassesAnalysed(job: Job, acc: Account) {
    var classes := Latest(acc.kept);
    classes != map[] ==>
      && (forall f :: f in Located(job.reader.analyzeClasses(classes).0, job.outer) ==> f in acc.offered)
      && forall d :: d in job.reader.analyzeClasses(classes).1 ==> d in acc.reported
  }

  // ---- the scanner ---------------------------------------------------------------------------------------------------

  class Scanner {
    const job: Job
    const results: Results
    const stopAt: Option<nat>  // how many checks the context passes before it is cancelled
    var clock: nat
    var entries: nat
    var classes: nat
    var retained: nat
    var digests: set<string>
    var parsed: map<string, Blob>
    ghost var charged: seq<(string, Blob)>
    ghost var log: seq<Item>
    ghost var kept: seq<(string, Blob)>
    ghost var turned: seq<Turn>

    ghost function Acc(): Account
      reads this, results
    {
      Account(log, results.reported, results.offered, kept)
    }

    /** Some check found the context cancelled. */
    predicate Cancelled()
      reads this
    {
      stopAt.Some? && clock > stopAt.value
    }

    /** Neither cancelled nor limited by a budget. */
    ghost predicate Clean()
      reads this
    {
      !Cancelled() && turned == []
    }

    ghost predicate Valid()
      reads this, results
    {
      && results.Valid()
      && Within(job.limits, entries, classes, retained, digests, charged, parsed)
      && parsed == Latest(kept)
      && AllGenuine(job, log) && Once(job, log, digests) && Earned(job, log, entries, classes, retained)
      && AllJustified(job, Acc(), entries, classes, retained, turned)
    }

    /** What every step leaves as it was or only adds to. */
    twostate predicate Forward()
      reads this, results
    {
      && Later(old(Acc()), Acc()) && old(turned) <= turned && old(clock) <= clock
      && old(entries) <= entries && old(classes) <= classes && old(retained) <= retained
    }

    constructor (job: Job, results: Results, stopAt: Option<nat>)
      requires results.Valid()
      ensures Valid() && this.job == job && this.results == results && this.stopAt == stopAt
      ensures clock == 0 && entries == 0 && classes == 0 && retained == 0 && log == [] && kept == [] && turned == []
    {
      this.job, this.results, this.stopAt := job, results, stopAt;
      clock, entries, classes, retained, digests, parsed := 0, 0, 0, 0, {}, map[];
      charged, log, kept, turned := [], [], [], [];
    }

    /** One look at the context, which once cancelled stays so. */
    method Interrupted() returns (r: bool)
      requires Valid()
      modifies this`clock
      ensures Valid() && clock == old(clock) + 1
      ensures r == (stopAt.Some? && old(clock) >= stopAt.value)
    {
      r := stopAt.Some? && clock >= stopAt.value;
      clock := clock + 1;
    }

    method Report(artifact: string, code: string, detail: string)
      requires Valid()
      modifies results
      ensures Valid() && results.offered == old(results.offered)
      ensures results.reported == old(results.reported) + [Diagnostic(artifact, code, detail, 1)]
    {
      hide Collected, Aggregated, Within, AllGenuine, Once, Earned, Latest, AllJustified;
      ghost var before := Acc();
      results.AddDiagnostic(Diagnostic(artifact, code, detail, 1));
      JustifiedLater(job, before, Acc(), entries, classes, retained, entries, classes, retained, turned);
    }

    /** Report what a budget turns away. */
    method TurnAway(ghost t: Turn, artifact: string, code: string, detail: string)
      requires Valid()
      requires Justified(job, Acc().(reported := results.reported + [Diagnostic(artifact, code, detail, 1)]), entries, classes, retained, t)
      modifies this`turned, results
      ensures Valid() && turned == old(turned) + [t] && results.offered == old(results.offered)
      ensures results.reported == old(results.reported) + [Diagnostic(artifact, code, detail, 1)]
    {
      hide Collected, Aggregated, Within, AllGenuine, Once, Earned, Latest, Justified;
      Report(artifact, code, detail);
      turned := turned + [t];
    }

    /** A content is dealt with the first time it is seen. */
    method Record(ghost from: Option<nat>, member: Member, path: string, ghost depth: nat, data: Blob,
                  ghost archive: Archive, ghost base: string)
      returns (isNew: bool)
      requires Valid() && Container(job, log, from, archive, base, depth)
      requires FoundIn(archive, base, Item(from, member, path, depth, data))
      requires !member.kind.Other? && job.reader.read(member) == Ok(data)
      modifies this`digests, this`log
      ensures Valid()
      ensures isNew ==> log == old(log) + [Item(from, member, path, depth, data)]
      ensures isNew && member.kind.Class? ==> classes < ClassesIn(log) && retained + |data| <= BytesIn(log)
      ensures isNew ==> entries + FilesOf(job, log[|log| - 1]) <= FilesIn(job, log)
      ensures !isNew ==> log == old(log) && InLog(job, log, job.reader.digest(data))
    {
      hide Collected, Aggregated, AllGenuine, Latest, AllJustified, Container, FoundIn, Within, Once, Earned, InLog;
      var digest := job.reader.digest(data);
      SeenIsInLog(job, log, digests, digest);
      if digest in digests { return false; }
      ghost var item, before := Item(from, member, path, depth, data), Acc();
      GenuineNext(job, log, item, archive, base);
      DigestsWithin(job.limits, entries, classes, retained, digests, charged, parsed, digest);
      OnceNext(job, log, digests, item);
      EarnedNext(job, log, item, entries, classes, retained);
      if |digests| < job.limits.entries { digests := digests + {digest}; }
      log := log + [item];
      JustifiedLater(job, before, Acc(), entries, classes, retained, entries, classes, retained, turned);
      return true;
    }

    /** Count a class and charge its bytes, or turn it away. */
    method Charge(path: string, data: Blob, ghost i: nat) returns (taken: bool)
      requires Valid() && i < |log| && log[i].member.kind.Class? && log[i].path == path && log[i].data == data
      requires classes < ClassesIn(log) && retained + |data| <= BytesIn(log)
      modifies this`classes, this`retained, this`charged, this`turned, results
      ensures Valid() && Forward()
      ensures taken ==> turned == old(turned) && classes == old(classes) + 1 && retained == old(retained) + |data|
      ensures taken ==> Within(job.limits, entries, classes, retained, digests, charged, parsed[path := data])
      ensures !taken ==> turned != []
    {
      hide Collected, Aggregated, Within, AllGenuine, Once, Latest, AllJustified, ClassesIn, BytesIn, FilesIn;
      ghost var acc := Acc();
      ChargeOne(job.limits, entries, classes, retained, digests, charged, parsed, path, data);
      if classes >= job.limits.classes {
        TurnAway(OverClasses(i), path, ANALYSIS_BUDGET, "class limit reached");
        return false;
      }
      JustifiedLater(job, acc, acc, entries, classes, retained, entries, classes + 1, retained, turned);
      classes := classes + 1;
      if retained + |data| > job.limits.retained {
        TurnAway(OverBytes(i), path, ANALYSIS_BUDGET, "retained class byte limit reached");
        return false;
      }
      JustifiedLater(job, acc, acc, entries, classes, retained, entries, classes, retained + |data|, turned);
      retained := retained + |data|;
      charged := charged + [(path, data)];
      return true;
    }

    method AddClass(path: string, data: Blob, ghost i: nat)
      requires Valid() && i < |log| && log[i].member.kind.Class? && log[i].path == path && log[i].data == data
      requires classes < ClassesIn(log) && retained + |data| <= BytesIn(log)
      modifies this, results
      ensures Valid() && Forward() && log == old(log) && entries == old(entries)
      ensures Clean() ==> ItemDone(job, Acc(), log[i])
      ensures Clean() ==> classes == old(classes) + 1 && retained == old(retained) + |data|
    {
      hide Valid, ItemDone, Within, ClassesIn, BytesIn;
      var stop := Interrupted();
      if stop { return; }
      var taken := Charge(path, data, i);
      if !taken { return; }
      stop := Interrupted();
      if stop { return; }
      Keep(path, data, i);
    }

    /** Parse a class that was charged for. */
    method Keep(path: string, data: Blob, ghost i: nat)
      requires Valid() && i < |log| && log[i].member.kind.Class? && log[i].path == path && log[i].data == data
      requires Within(job.limits, entries, classes, retained, digests, charged, parsed[path := data])
      modifies this`parsed, this`kept, results
      ensures Valid() && Later(old(Acc()), Acc()) && ItemDone(job, Acc(), log[i])
    {
      hide Collected, Aggregated, Within, AllGenuine, Once, Earned, AllJustified;
      ghost var before := Acc();
      var fault := job.reader.parse(path, data);
      if fault.Some? {
        results.AddDiagnostic(fault.value);
      } else {
        parsed := parsed[path := data];
        kept := kept + [(path, data)];
        assert kept[..|kept| - 1] == before.kept;
      }
      JustifiedLater(job, before, Acc(), entries, classes, retained, entries, classes, retained, turned);
    }

    /** Report the entries that could not be prepared, and hand on the others. */
    method Prepare(listing: seq<Listing>, root: string) returns (members: seq<Member>)
      requires Valid()
      modifies results
      ensures Valid() && Later(old(Acc()), Acc())
      ensures forall entry :: entry in listing && entry.Faulty? ==> ListingCovered(job, Acc(), entry, root)
      ensures forall entry :: entry in listing && entry.Listed? ==> entry.member in members
      ensures forall member :: member in members ==> Listed(member) in listing
    {
      hide Valid;
      members := [];
      for i := 0 to |listing|
        invariant Valid() && Later(old(Acc()), Acc())
        invariant forall k :: 0 <= k < i && listing[k].Faulty? ==> ListingCovered(job, Acc(), listing[k], root)
        invariant forall k :: 0 <= k < i && listing[k].Listed? ==> listing[k].member in members
        invariant forall member :: member in members ==> Listed(member) in listing
      {
        match listing[i] {
          case Faulty(name, error) => Report(if name == "" then root else root + "!/" + name, ARTIFACT_READ, error);
          case Listed(member) => members := members + [member];
        }
      }
    }

    /** Count the files of an archive, or turn it away. */
    method Admit(archive: Archive, root: string, ghost depth: nat, ghost from: Option<nat>) returns (admitted: bool)
      requires Valid() && Container(job, log, from, archive, root, depth)
      requires entries + archive.files <= FilesIn(job, log)
      modifies this`entries, this`turned, results
      ensures Valid() && Forward() && entries <= FilesIn(job, log)
      ensures admitted ==> turned == old(turned) && entries == old(entries) + archive.files
      ensures !admitted ==> turned != []
    {
      hide Collected, Aggregated, Within, AllGenuine, Once, Latest, AllJustified, ClassesIn, BytesIn, FilesIn;
      ghost var acc := Acc();
      if archive.files > job.limits.entries - entries {
        TooManyIsJustified(job, acc, entries, classes, retained, from, archive, root, depth);
        TurnAway(TooMany(from), root, ARCHIVE_BUDGET, "archive entry limit reached");
        return false;
      }
      AdmitWithin(job.limits, entries, classes, retained, digests, charged, parsed, archive.files);
      JustifiedLater(job, acc, acc, entries, classes, retained, entries + archive.files, classes, retained, turned);
      entries := entries + archive.files;
      return true;
    }

    /** Scan one archive and, to the depth limit, the archives in it. Ends on any input, self-containing archives
        included. Unless it is cancelled or a budget turns something away, the archive is accounted for entry by
        entry, and so is every archive found in it, while everything new is dealt with. */
    method Scan(archive: Archive, root: string, depth: nat, ghost from: Option<nat>)
      requires Valid() && depth <= job.limits.depth && Container(job, log, from, archive, root, depth)
      requires entries + archive.files <= FilesIn(job, log)
      requires Clean() ==> Spent(job, log, entries + archive.files, classes, retained)
      modifies this, results
      ensures Valid() && Forward()
      ensures Clean() ==> ArchiveCovered(job, Acc(), archive, root) && DoneSince(job, Acc(), old(|log|))
      ensures Clean() ==> Spent(job, log, entries, classes, retained)
      decreases job.limits.depth - depth, 4
    {
      hide Valid, MemberCovered, FilesIn, Spent, ArchiveCovered, DoneSince, MembersCovered, ListingCovered, Container;
      var stop := Interrupted();
      if stop { return; }
      var admitted := Admit(archive, root, depth, from);
      if !admitted { return; }
      var members := Prepare(archive.listing, root);
      ghost var prepared := Acc();
      ScanMembers(archive, members, root, depth, from);
      if Clean() { AllCovered(job, prepared, Acc(), archive, members, root); }
    }

    method ScanMembers(ghost archive: Archive, members: seq<Member>, root: string, depth: nat, ghost from: Option<nat>)
      requires Valid() && depth <= job.limits.depth && Container(job, log, from, archive, root, depth)
      requires forall member :: member in members ==> Listed(member) in archive.listing
      requires Clean() ==> Spent(job, log, entries, classes, retained)
      modifies this, results
      ensures Valid() && Forward() && (Clean() ==> Spent(job, log, entries, classes, retained))
      ensures Clean() ==> MembersCovered(job, Acc(), members, root) && DoneSince(job, Acc(), old(|log|))
      decreases job.limits.depth - depth, 3
    {
      hide Valid, MemberCovered, DoneSince, MembersCovered, Container, Spent;
      NothingYet(job, Acc(), members, root);
      for i := 0 to |members|
        invariant Valid() && Forward() && Container(job, log, from, archive, root, depth)
        invariant Clean() ==> Spent(job, log, entries, classes, retained)
        invariant Clean() ==> MembersCovered(job, Acc(), members[..i], root) && DoneSince(job, Acc(), old(|log|))
      {
        var stop := Interrupted();
        if stop { return; }
        ghost var before := Acc();
        if members[i].kind.Other? {
          OtherIsCovered(job, before, members[i], root + "!/" + members[i].name);
        } else {
          ScanMember(members[i], root + "!/" + members[i].name, depth, from, archive, root);
        }
        ContainerLater(job, before.log, log, from, archive, root, depth);
        if Clean() { OneMoreCovered(job, before, Acc(), members, i, root, old(|log|)); }
      }
      assert members[..|members|] == members;
    }

    method ScanMember(member: Member, path: string, depth: nat, ghost from: Option<nat>, ghost archive: Archive, ghost base: string)
      requires Valid() && depth <= job.limits.depth && Container(job, log, from, archive, base, depth)
      requires Listed(member) in archive.listing && path == base + "!/" + member.name && !member.kind.Other?
      requires Clean() ==> Spent(job, log, entries, classes, retained)
      modifies this, results
      ensures Valid() && Forward() && (Clean() ==> Spent(job, log, entries, classes, retained))
      ensures Clean() ==> MemberCovered(job, Acc(), member, path) && DoneSince(job, Acc(), old(|log|))
      decreases job.limits.depth - depth, 2
    {
      hide Valid, Container, ItemDone, InLog, Spent, DoneSince, FilesIn, FilesOf, ClassesIn, BytesIn;
      var stop := Interrupted(); // reading looks at the context too
      if stop { return; }
      var read := job.reader.read(member);
      if read.Err? {
        Report(path, read.error.code, read.error.detail);
        DoneAtEnd(job, Acc());
        return;
      }
      var data := read.value;
      var isNew := Record(from, member, path, depth, data, archive, base);
      DoneAtEnd(job, Acc());
      if !isNew { return; }
      ghost var recorded := log;
      LastInLog(job, log);
      AddItem(member.kind, path, data, depth, |log| - 1);
      InLogLater(job, recorded, log, job.reader.digest(data));
    }

    /** Deal with the content just recorded. */
    method AddItem(kind: Kind, path: string, data: Blob, depth: nat, ghost i: nat)
      requires Valid() && i == |log| - 1 && log[i].member.kind == kind && log[i].path == path && log[i].data == data
      requires depth == log[i].depth <= job.limits.depth
      requires kind.Class? ==> classes < ClassesIn(log) && retained + |data| <= BytesIn(log)
      requires entries + FilesOf(job, log[i]) <= FilesIn(job, log)
      requires Clean() ==> Spent(job, log[..i], entries, classes, retained)
      modifies this, results
      ensures Valid() && Forward() && (Clean() ==> DoneSince(job, Acc(), i) && Spent(job, log, entries, classes, retained))
      decreases job.limits.depth - depth, 1
    {
      hide Valid, Spent, FilesIn, FilesOf, ClassesIn, BytesIn, ClassDone, NestedDone;
      assert log == log[..i] + [log[i]];
      if Clean() { SpentNext(job, log[..i], log[i], entries, classes, retained); }
      match kind {
        case Class => AddClass(path, data, i);
        case Source => AddSource(path, data, i);
        case Nested => AddNested(path, data, depth, i);
        case Other =>
      }
    }

    method AddSource(path: string, data: Blob, ghost i: nat)
      requires Valid() && i < |log| && log[i].member.kind.Source? && log[i].path == path && log[i].data == data
      modifies this`clock, results
      ensures Valid() && Forward()
      ensures Clean() ==> ItemDone(job, Acc(), log[i])
    {
      hide Collected, Aggregated, Within, AllGenuine, Once, Earned, Latest, AllJustified, Located;
      ghost var before := Acc();
      var stop := Interrupted();
      if stop { return; }
      assert results.reported + [] == results.reported;
      results.AddResult(job.reader.analyze(path, data), [], job.outer);
      JustifiedLater(job, before, Acc(), entries, classes, retained, entries, classes, retained, turned);
    }

    method AddNested(path: string, data: Blob, depth: nat, ghost i: nat)
      requires Valid() && i == |log| - 1 && log[i].member.kind.Nested? && log[i].path == path && log[i].data == data
      requires depth == log[i].depth <= job.limits.depth
      requires entries + FilesOf(job, log[i]) <= FilesIn(job, log)
      requires Clean() ==> Spent(job, log, entries + FilesOf(job, log[i]), classes, retained)
      modifies this, results
      ensures Valid() && Forward() && (Clean() ==> Spent(job, log, entries, classes, retained))
      ensures Clean() ==> DoneSince(job, Acc(), i)
      decreases job.limits.depth - depth, 0
    {
      hide Valid, ArchiveCovered, FilesIn, Spent;
      if depth >= job.limits.depth {
        TurnAway(TooDeep(i), path, ARCHIVE_BUDGET, "nested archive depth limit reached");
        return;
      }
      match job.reader.open(data) {
        case Err(error) => Report(path, ARTIFACT_READ, error);
        case Ok(inner) => Scan(inner, path, depth + 1, Some(i));
      }
    }

    /** After the scan: say that it was cancelled, or look at all kept classes together. */
    method AnalyzeKept()
      requires Valid()
      modifies this`clock, results
      ensures Valid() && Later(old(Acc()), Acc())
      ensures old(Cancelled()) ==> Cancelled()
      ensures Cancelled() ==> Diagnostic(job.outer, CANCELLED, "analysis cancelled", 1) in results.reported
      ensures !Cancelled() ==> ClassesAnalysed(job, Acc())
    {
      hide Collected, Aggregated, Within, AllGenuine, Once, Earned, AllJustified, Located, Latest;
      ghost var before := Acc();
      var stop := Interrupted();
      if stop {
        Report(job.outer, CANCELLED, "analysis cancelled");
      } else if parsed != map[] {
        var (fs, ds) := job.reader.analyzeClasses(parsed);
        results.AddResult(fs, ds, job.outer);
        JustifiedLater(job, before, Acc(), entries, classes, retained, entries, classes, retained, turned);
      }
    }
  }

  /** No budget and no cancellation is on record. */
  predicate Unlimited(diagnostics: map<string, Aggregate>) {
    CANCELLED !in diagnostics && ARCHIVE_BUDGET !in diagnostics && ANALYSIS_BUDGET !in diagnostics
  }

  lemma CodeOnRecord(t: Texts, before: seq<Diagnostic>, reported: seq<Diagnostic>, diagnostics: map<string, Aggregate>, d: Diagnostic)
    requires Aggregated(t, reported, diagnostics) && before <= reported && d in before && d.code == CANCELLED
    ensures !Unlimited(diagnostics)
  {
    CodeIsKept(t, reported, diagnostics, d.code);
    assert d in reported;
  }

  /** Without a budget on record nothing was turned away. */
  lemma NothingTurnedAway(job: Job, t: Texts, acc: Account, diagnostics: map<string, Aggregate>,
                          entries: nat, classes: nat, retained: nat, turned: seq<Turn>)
    requires Aggregated(t, acc.reported, diagnostics) && Unlimited(diagnostics)
    requires AllJustified(job, acc, entries, classes, retained, turned)
    ensures turned == []
  {
    hide Aggregated, Justified;
    if turned != [] {
      JustifiedIsReported(job, acc, entries, classes, retained, turned);
      CodeIsKept(t, acc.reported, diagnostics, ARCHIVE_BUDGET);
      CodeIsKept(t, acc.reported, diagnostics, ANALYSIS_BUDGET);
    }
  }

  /** All that the archive lists is accounted for and dealt with, at every level, and the kept classes together. */
  ghost predicate Complete(job: Job, acc: Account) {
    ArchiveCovered(job, acc, job.root, job.outer) && DoneSince(job, acc, 0) && ClassesAnalysed(job, acc)
  }

  lemma CompleteLater(job: Job, scanned: Account, analysed: Account, acc: Account)
    requires Later(scanned, analysed) && Later(analysed, acc) && acc.log == analysed.log == scanned.log && acc.kept == analysed.kept
    requires ArchiveCovered(job, scanned, job.root, job.outer) && DoneSince(job, scanned, 0) && ClassesAnalysed(job, analysed)
    ensures Complete(job, acc)
  {
    hide ArchiveCovered, ItemDone, Located, Latest;
    ArchiveCoveredLater(job, scanned, acc, job.root, job.outer);
    DoneJoined(job, scanned, acc, 0);
  }

  lemma AllCollected(t: Texts, max: int, offered: seq<Finding>, findings: seq<Finding>, seen: set<string>, limitHit: bool,
                     diagnostics: map<string, Aggregate>)
    requires Collected(t, max, offered, findings, seen, limitHit) && Unlimited(diagnostics)
    requires |DistinctOf(t, offered)| > Limit(max) ==> ANALYSIS_BUDGET in diagnostics
    ensures findings == DistinctOf(t, offered)
  {}

  lemma SeenAreKeys(t: Texts, max: int, offered: seq<Finding>, findings: seq<Finding>, seen: set<string>, limitHit: bool)
    requires Collected(t, max, offered, findings, seen, limitHit)
    ensures Collected(t, max, offered, findings, Keys(t, findings), limitHit)
    ensures findings == [] || |findings| <= max
    ensures forall i, j :: 0 <= i < j < |findings| ==> t.key(findings[i]) != t.key(findings[j])
  {
    DistinctKeys(t, offered);
  }

  /** The analysis of one archive. Its findings are within the limit and have distinct keys. It is complete unless it was
      cancelled or a budget turned something away, which a budget did only when it was exhausted; and a result that
      carries no budget and no cancellation diagnostic is complete, with every distinct finding in it. */
  method AnalyzeArchive(job: Job, texts: Texts, maxFindings: int, stopAt: Option<nat>)
    returns (findings: seq<Finding>, diagnostics: map<string, Aggregate>,
             ghost acc: Account, ghost turned: seq<Turn>, ghost entries: nat, ghost classes: nat, ghost retained: nat)
    ensures findings == [] || |findings| <= maxFindings
    ensures forall i, j :: 0 <= i < j < |findings| ==> texts.key(findings[i]) != texts.key(findings[j])
    ensures AllGenuine(job, acc.log) && Earned(job, acc.log, entries, classes, retained)
    ensures AllJustified(job, acc, entries, classes, retained, turned)
    ensures Aggregated(texts, acc.reported, diagnostics)
    ensures exists limitHit :: Collected(texts, maxFindings, acc.offered, findings, Keys(texts, findings), limitHit)
    ensures stopAt.None? && turned == [] ==> Complete(job, acc)
    ensures Unlimited(diagnostics) ==> turned == [] && Complete(job, acc) && findings == DistinctOf(texts, acc.offered)
  {
    hide ArchiveCovered, DoneSince, ClassesAnalysed, Complete, AllGenuine, AllJustified, Within, Once, Located, DistinctOf,
      Latest, Collected, Aggregated, Unlimited, Earned;
    var results := new Results(texts, maxFindings);
    var scanner := new Scanner(job, results, stopAt);
    scanner.Scan(job.root, job.outer, 0, None);
    ghost var scanned := scanner.Acc();
    scanner.AnalyzeKept();
    ghost var analysed := scanner.Acc();
    results.Finish();
    findings, diagnostics, acc := results.findings, results.diagnostics, scanner.Acc();
    turned, entries, classes, retained := scanner.turned, scanner.entries, scanner.classes, scanner.retained;
    JustifiedLater(job, analysed, acc, entries, classes, retained, entries, classes, retained, turned);
    if Unlimited(diagnostics) {
      if scanner.Cancelled() { CodeOnRecord(texts, analysed.reported, acc.reported, diagnostics, Diagnostic(job.outer, CANCELLED, "analysis cancelled", 1)); }
      NothingTurnedAway(job, texts, acc, diagnostics, entries, classes, retained, turned);
      AllCollected(texts, maxFindings, results.offered, results.findings, results.seen, results.limitHit, results.diagnostics);
    }
    if scanner.Clean() { CompleteLater(job, scanned, analysed, acc); }
    SeenAreKeys(texts, maxFindings, results.offered, results.findings, results.seen, results.limitHit);
  }
}
