/** Scoring and the host verdict (shellsight/internal/fusion/fusion.go). */
module Fusion {
  // The verdict follows shellsight/internal/finding/verdict.go, and the exit code `exitCode` of
  // shellsight/cmd/shellsight/main.go.
  //
  // The content hash and the family constants looked up in the evidence are parameters: a fingerprint is any
  // function of the fields the program hashes, collisions included.

  type Tier = string

  const CLEAN: Tier := "clean"
  const SUSPICIOUS: Tier := "suspicious"
  const LIKELY: Tier := "likely"
  const CONFIRMED: Tier := "confirmed"
  const UNKNOWN: Tier := "unknown"

  function Rank(t: Tier): nat {
    if t == CONFIRMED then 3 else if t == LIKELY then 2 else if t == SUSPICIOUS then 1 else 0
  }

  /** What the fingerprint covers: neither tier, score nor the allowlist mark. */
  datatype Content = Content(
    host: string, view: string, target: string, basis: string, knowledgeRef: string, evidence: string, family: string)

  datatype Finding = Finding(
    content: Content, allowlisted: bool, tier: Tier, score: int, correlation: string, fingerprint: string)

  datatype Hashes = Hashes(familyIn: string -> string, fingerprint: Content -> string)

  datatype Status = Ran | Failed | NotApplicable | Degraded

  datatype Coverage = Coverage(status: Status, truncated: bool)

  datatype Verdict = Verdict(tier: Tier, score: int, incomplete: bool)

  // ---- one finding -------------------------------------------------------------------------------------------

  predicate Attributed(f: Finding) {
    f.content.family in ["Behinder", "Godzilla", "AntSword", "ChinaChopper", "IceScorpion"]
  }

  predicate Credible(g: Finding) {
    !g.allowlisted
    && (Attributed(g)
        || g.content.basis in ["signature", "structural-heuristic", "behavioral", "provenance-anomaly",
                               "memory-region-anomaly", "etw-dynamic-load", "reachability-dispatch"])
  }

  /** `g` is an independent credible signal for `f`. */
  predicate Supports(g: Finding, f: Finding) {
    && g.content.host == f.content.host && Credible(g)
    && (g.content.view != f.content.view || (Attributed(g) && g.content.target == f.content.target))
  }

  predicate Corroborated(all: seq<Finding>, i: nat)
    requires i < |all|
  {
    exists j :: 0 <= j < |all| && j != i && Supports(all[j], all[i])
  }

  function AtLeast(score: int, floor: int): int { if score > floor then score else floor }

  function TierForScore(score: int): Tier {
    if score >= 85 then CONFIRMED else if score >= 60 then LIKELY else if score >= 40 then SUSPICIOUS else CLEAN
  }

  function Scored(f: Finding, corroborated: bool): (Tier, int) {
    if Attributed(f) then
      if corroborated then (CONFIRMED, AtLeast(f.score, 95))
      else if f.tier == CONFIRMED then (CONFIRMED, f.score)
      else (LIKELY, AtLeast(f.score, 80))
    else if f.content.basis in ["signature", "heuristic", "taint"] then
      if f.tier == CONFIRMED then (CONFIRMED, f.score)
      else if corroborated && f.tier == LIKELY then (CONFIRMED, AtLeast(f.score, 90))
      else if f.score > 0 then (if f.tier == "" then TierForScore(f.score) else f.tier, f.score)
      else if f.tier != "" then (f.tier, f.score)
      else (LIKELY, 70)
    else if f.content.basis in ["structural-heuristic", "provenance-anomaly", "memory-region-anomaly",
                                "etw-dynamic-load", "reachability-dispatch", "stomp-diff"] then
      if f.tier == CONFIRMED then (CONFIRMED, AtLeast(f.score, 85))
      else if f.tier == LIKELY then
        if corroborated then (CONFIRMED, AtLeast(f.score, 95)) else (LIKELY, AtLeast(f.score, 80))
      else if corroborated then (LIKELY, 75)
      else (SUSPICIOUS, 50)
    else if f.content.basis == "behavioral" then
      if corroborated then (LIKELY, 75) else (SUSPICIOUS, 50)
    else if f.content.basis == "behavioral-context" then (CLEAN, 10)
    else (SUSPICIOUS, 45)
  }

  method ScoreFinding(i: nat, all: seq<Finding>) returns (tier: Tier, score: int)
    requires i < |all|
    ensures (tier, score) == Scored(all[i], Corroborated(all, i))
  {
    var corroborated := IsCorroborated(i, all);
    var result := Scored(all[i], corroborated);
    tier, score := result.0, result.1;
  }

  method IsCorroborated(i: nat, all: seq<Finding>) returns (r: bool)
    requires i < |all|
    ensures r == Corroborated(all, i)
  {
    var f := all[i];
    for j := 0 to |all|
      invariant forall k :: 0 <= k < j && k != i ==> !Supports(all[k], f)
    {
      var g := all[j];
      if j == i || g.content.host != f.content.host { continue; }
      if !Credible(g) { continue; }
      if g.content.view != f.content.view { return true; }
      if Attributed(g) && g.content.target == f.content.target { return true; }
    }
    return false;
  }

  /** Corroboration only raises a finding. */
  lemma CorroborationRaises(f: Finding)
    ensures Rank(Scored(f, false).0) <= Rank(Scored(f, true).0) && Scored(f, false).1 <= Scored(f, true).1
  {}

  predicate Calibrated(f: Finding) { f.content.basis in ["signature", "heuristic", "taint"] }

  predicate Anomaly(f: Finding) {
    f.content.basis in ["structural-heuristic", "provenance-anomaly", "memory-region-anomaly", "etw-dynamic-load",
                        "reachability-dispatch", "stomp-diff"]
  }

  /** A finding is confirmed exactly when its probe said so on a basis that allows it, or a peer lifts an
      attributed or a likely one, or a calibrated probe left the tier to a score of 85 or more. Without a peer
      that leaves only the probe's own word. */
  lemma ConfirmedIff(f: Finding, corroborated: bool)
    ensures Scored(f, corroborated).0 == CONFIRMED <==>
              || (Attributed(f) && (corroborated || f.tier == CONFIRMED))
              || (!Attributed(f) && (Calibrated(f) || Anomaly(f)) && (f.tier == CONFIRMED || (corroborated && f.tier == LIKELY)))
              || (!Attributed(f) && Calibrated(f) && f.tier == "" && f.score >= 85)
  {}

  /** Likely: attributed and alone; a calibrated probe's own word, or left to a score from 60 to 84, or to no score;
      an ambiguous anomaly or a log signal with a peer; a likely anomaly alone. */
  lemma LikelyIff(f: Finding, corroborated: bool)
    ensures Scored(f, corroborated).0 == LIKELY <==>
              if Attributed(f) then !corroborated && f.tier != CONFIRMED
              else if Calibrated(f) then
                (f.tier == LIKELY && !corroborated) || (f.tier == "" && (f.score <= 0 || 60 <= f.score < 85))
              else if Anomaly(f) then if corroborated then f.tier !in [LIKELY, CONFIRMED] else f.tier == LIKELY
              else f.content.basis == "behavioral" && corroborated
  {}

  /** Suspicious: a calibrated probe's own word, or left to a score from 40 to 59; an ambiguous anomaly or a log
      signal alone; and whatever comes from a basis the model does not know. Clean, beside a probe's own word: left
      to a score below 40, or context. */
  lemma SuspiciousIff(f: Finding, corroborated: bool)
    ensures Scored(f, corroborated).0 == SUSPICIOUS <==>
              && !Attributed(f)
              && (if Calibrated(f) then f.tier == SUSPICIOUS || (f.tier == "" && 40 <= f.score < 60)
                  else if Anomaly(f) then !corroborated && f.tier !in [LIKELY, CONFIRMED]
                  else if f.content.basis == "behavioral" then !corroborated
                  else f.content.basis != "behavioral-context")
    ensures !Attributed(f) && f.content.basis == "behavioral-context" ==> Scored(f, corroborated) == (CLEAN, 10)
    ensures !Attributed(f) && Calibrated(f) && f.tier == "" && 0 < f.score < 40 ==> Scored(f, corroborated) == (CLEAN, f.score)
  {}

  /** A score below the floor of what lifted the tier is raised to it, and no other is changed. */
  lemma FloorIs(f: Finding, corroborated: bool)
    requires Attributed(f) || (Calibrated(f) && (f.tier != "" || f.score > 0)) || (Anomaly(f) && f.tier in [LIKELY, CONFIRMED])
    ensures var floor :=
              if Attributed(f) then if corroborated then 95 else if f.tier == CONFIRMED then f.score else 80
              else if Calibrated(f) then if corroborated && f.tier == LIKELY then 90 else f.score
              else if f.tier == CONFIRMED then 85 else if corroborated then 95 else 80;
            var score := Scored(f, corroborated).1;
            score >= f.score && score >= floor && (score == f.score || score == floor)
  {}

  /** Who can corroborate anything: a finding that is not allowlisted and has an attributed family or one of these
      bases. Context, log-only and unknown bases never do. */
  lemma CorroboratesSomethingIff(g: Finding)
    ensures (exists f :: Supports(g, f)) <==>
              && !g.allowlisted
              && (|| g.content.family in ["Behinder", "Godzilla", "AntSword", "ChinaChopper", "IceScorpion"]
                  || g.content.basis in ["signature", "structural-heuristic", "behavioral", "provenance-anomaly",
                                         "memory-region-anomaly", "etw-dynamic-load", "reachability-dispatch"])
  {
    var other := g.(content := g.content.(view := g.content.view + "'"));
    assert |other.content.view| == |g.content.view| + 1;
    if Credible(g) { assert Supports(g, other); }
  }

  /** What it corroborates: findings of its host in other views, and an attributed one also those about its own
      target. */
  lemma CorroboratesThisIff(g: Finding, f: Finding)
    requires exists x :: Supports(g, x)
    ensures Supports(g, f) <==>
              && f.content.host == g.content.host
              && (|| f.content.view != g.content.view
                  || (&& g.content.family in ["Behinder", "Godzilla", "AntSword", "ChinaChopper", "IceScorpion"]
                      && f.content.target == g.content.target))
  {}

  predicate InBand(tier: Tier, score: int) {
    && (tier == CONFIRMED ==> score >= 85) && (tier == LIKELY ==> score >= 60) && (tier == SUSPICIOUS ==> score >= 40)
  }

  /** The branches that hand the probe's own tier and score through. */
  predicate PassesThrough(f: Finding, corroborated: bool) {
    if Attributed(f) then !corroborated && f.tier == CONFIRMED
    else Calibrated(f) && f.tier != "" && !(corroborated && f.tier == LIKELY)
  }

  /** The score lies in the band of the tier, unless tier and score come straight from a probe that mismatched
      them. */
  lemma ScoreStaysInBand(f: Finding, corroborated: bool)
    ensures InBand(Scored(f, corroborated).0, Scored(f, corroborated).1) <==>
              !PassesThrough(f, corroborated) || InBand(f.tier, f.score)
  {}

  /** The findings whose own score plays no part. */
  predicate IgnoresScore(f: Finding) {
    !Attributed(f) && !Calibrated(f) && !(Anomaly(f) && f.tier in [LIKELY, CONFIRMED])
  }

  /** A finding comes out the same whatever score it came with if and only if it is an anomaly its probe left
      ambiguous or comes from no scored basis; an ambiguous anomaly or a log signal is then suspicious alone and
      likely with a peer. */
  lemma ScoreIsIgnoredIff(f: Finding, corroborated: bool)
    ensures (forall s :: SameAt(f, s, corroborated)) <==> IgnoresScore(f)
    ensures IgnoresScore(f) && (Anomaly(f) || f.content.basis == "behavioral") ==>
              Scored(f, corroborated) == if corroborated then (LIKELY, 75) else (SUSPICIOUS, 50)
  {
    if !IgnoresScore(f) {
      var high := AtLeast(f.score, 100) + 1;
      ScoreShows(f, high, corroborated);
      if SameAt(f, high, corroborated) { ScoreShows(f, high + 1, corroborated); }
    }
  }

  predicate SameAt(f: Finding, score: int, corroborated: bool) {
    Scored(f.(score := score), corroborated) == Scored(f, corroborated)
  }

  lemma ScoreShows(f: Finding, score: int, corroborated: bool)
    requires !IgnoresScore(f) && score >= 100
    ensures Scored(f.(score := score), corroborated).1 == score
  {}

  /** Nothing scores lower, in tier or in score. */
  predicate NotBelow(was: (Tier, int), now: (Tier, int)) { Rank(was.0) <= Rank(now.0) && was.1 <= now.1 }

  /** A finding that losing its last peer lowers. */
  predicate Sensitive(f: Finding) {
    if Attributed(f) then f.tier != CONFIRMED || f.score < 95
    else if Calibrated(f) then f.tier == LIKELY
    else if Anomaly(f) then f.tier != CONFIRMED
    else f.content.basis == "behavioral"
  }

  lemma SensitiveIff(f: Finding)
    ensures NotBelow(Scored(f, true), Scored(f, false)) <==> !Sensitive(f)
  {}

  // ---- the list ------------------------------------------------------------------------------------------------

  function Judged(all: seq<Finding>, i: nat): Finding
    requires i < |all|
  {
    var s := Scored(all[i], Corroborated(all, i));
    all[i].(tier := s.0, score := s.1)
  }

  function ScoreAll(all: seq<Finding>): (r: seq<Finding>)
    ensures |r| == |all|
  {
    seq(|all|, i requires 0 <= i < |all| => Judged(all, i))
  }

  /** The same findings, possibly scored already. */
  ghost predicate SameContent(a: seq<Finding>, b: seq<Finding>) {
    |a| == |b| && forall i :: 0 <= i < |a| ==> a[i].content == b[i].content && a[i].allowlisted == b[i].allowlisted
  }

  lemma SameCorroboration(a: seq<Finding>, b: seq<Finding>, i: nat)
    requires SameContent(a, b) && i < |a|
    ensures Corroborated(a, i) == Corroborated(b, i)
  {
    assert forall j :: 0 <= j < |a| ==> Supports(a[j], a[i]) == Supports(b[j], b[i]);
  }

  /** Scoring overwrites the list it reads peers from, and yet scores every finding against the list as it was. */
  method ScoreInPlace(out: array<Finding>)
    modifies out
    ensures out[..] == ScoreAll(old(out[..]))
  {
    hide Scored, Corroborated;
    ghost var was := out[..];
    for i := 0 to out.Length
      invariant forall k :: 0 <= k < i ==> out[k] == Judged(was, k)
      invariant forall k :: i <= k < out.Length ==> out[k] == was[k]
    {
      SameCorroboration(was, out[..], i);
      var tier, score := ScoreFinding(i, out[..]);
      out[i] := out[i].(tier := tier, score := score);
    }
  }

  // ---- normalising and deduplicating -------------------------------------------------------------------------------

  function Normal(h: Hashes, f: Finding): Finding {
    var host := if f.content.host == "" then "unknown" else f.content.host;
    var content := if f.content.family != "" then f.content else f.content.(family := h.familyIn(f.content.evidence));
    f.(correlation := "incident-" + host, content := content, fingerprint := h.fingerprint(content))
  }

  /** Normalising again changes nothing, and findings share an incident exactly when they are about one host, an
      unnamed host being one more. The family is only filled in where there was none. */
  lemma NormalIs(h: Hashes, f: Finding, g: Finding)
    ensures Normal(h, Normal(h, f)) == Normal(h, f)
    ensures f.content.host != "unknown" && g.content.host != "unknown" ==>
              (Normal(h, f).correlation == Normal(h, g).correlation <==> f.content.host == g.content.host)
    ensures f.content.host == "" && g.content.host == "unknown" ==> Normal(h, f).correlation == Normal(h, g).correlation
    ensures var n := Normal(h, f);
            && n.fingerprint == h.fingerprint(n.content)
            && n.content == (if f.content.family == "" then f.content.(family := h.familyIn(f.content.evidence)) else f.content)
            && n == f.(correlation := n.correlation, content := n.content, fingerprint := n.fingerprint)
  {
    var a := if f.content.host == "" then "unknown" else f.content.host;
    var b := if g.content.host == "" then "unknown" else g.content.host;
    assert ("incident-" + a)[9..] == a && ("incident-" + b)[9..] == b;
  }

  function NormalAll(h: Hashes, fs: seq<Finding>): (r: seq<Finding>)
    ensures |r| == |fs|
  {
    seq(|fs|, i requires 0 <= i < |fs| => Normal(h, fs[i]))
  }

  function IndexOf(fs: seq<Finding>, fingerprint: string): (i: nat)
    ensures i <= |fs| && (i < |fs| ==> fs[i].fingerprint == fingerprint)
    ensures forall k :: 0 <= k < i ==> fs[k].fingerprint != fingerprint
  {
    if fs == [] then 0
    else
      var i := IndexOf(fs[..|fs| - 1], fingerprint);
      if i < |fs| - 1 || fs[|fs| - 1].fingerprint == fingerprint then i else |fs|
  }

  function Deduped(fs: seq<Finding>): seq<Finding> {
    if fs == [] then [] else WithFinding(Deduped(fs[..|fs| - 1]), fs[|fs| - 1])
  }

  function WithFinding(kept: seq<Finding>, f: Finding): seq<Finding> {
    var i := IndexOf(kept, f.fingerprint);
    if i == |kept| then kept + [f]
    else if f.score > kept[i].score then kept[i := f]
    else kept
  }

  ghost predicate Distinct(fs: seq<Finding>) {
    forall i, j :: 0 <= i < j < |fs| ==> fs[i].fingerprint != fs[j].fingerprint
  }

  ghost predicate Indexed(fs: seq<Finding>, seen: map<string, nat>) {
    && (forall k :: k in seen ==> seen[k] < |fs| && fs[seen[k]].fingerprint == k)
    && (forall i :: 0 <= i < |fs| ==> fs[i].fingerprint in seen && seen[fs[i].fingerprint] == i)
  }

  lemma IndexFinds(fs: seq<Finding>, seen: map<string, nat>, fingerprint: string)
    requires Indexed(fs, seen)
    ensures IndexOf(fs, fingerprint) == if fingerprint in seen then seen[fingerprint] else |fs|
  {}

  lemma NoneIndexed()
    ensures Indexed([], map[]) && Distinct([])
  {}

  lemma IndexedAfter(fs: seq<Finding>, seen: map<string, nat>, f: Finding)
    requires Indexed(fs, seen)
    ensures f.fingerprint !in seen ==>
              WithFinding(fs, f) == fs + [f] && Indexed(fs + [f], seen[f.fingerprint := |fs|])
    ensures f.fingerprint in seen ==>
              && seen[f.fingerprint] < |fs|
              && WithFinding(fs, f) == (if f.score > fs[seen[f.fingerprint]].score then fs[seen[f.fingerprint] := f] else fs)
              && Indexed(WithFinding(fs, f), seen)
  {
    hide IndexOf;
    IndexFinds(fs, seen, f.fingerprint);
  }

  method Dedup(fs: seq<Finding>) returns (deduped: seq<Finding>)
    ensures deduped == Deduped(fs) && Distinct(deduped)
  {
    hide IndexOf, WithFinding, Indexed, Distinct;
    var seen: map<string, nat> := map[];
    deduped := [];
    NoneIndexed();
    for n := 0 to |fs|
      invariant deduped == Deduped(fs[..n]) && Distinct(deduped) && Indexed(deduped, seen)
    {
      var f := fs[n];
      assert fs[..n + 1][..n] == fs[..n];
      WithDistinct(deduped, f);
      IndexedAfter(deduped, seen, f);
      if f.fingerprint in seen {
        var i := seen[f.fingerprint];
        if f.score > deduped[i].score { deduped := deduped[i := f]; }
      } else {
        seen := seen[f.fingerprint := |deduped|];
        deduped := deduped + [f];
      }
    }
    assert fs[..|fs|] == fs;
  }

  /** `fs[n]` is the first of the best-scored findings with its fingerprint. */
  ghost predicate FirstBest(fs: seq<Finding>, n: nat) {
    && n < |fs|
    && (forall k :: 0 <= k < n && fs[k].fingerprint == fs[n].fingerprint ==> fs[k].score < fs[n].score)
    && (forall k :: n < k < |fs| && fs[k].fingerprint == fs[n].fingerprint ==> fs[k].score <= fs[n].score)
  }

  ghost predicate Best(fs: seq<Finding>, f: Finding) {
    exists n: nat :: FirstBest(fs, n) && fs[n] == f
  }

  predicate HasPrint(fs: seq<Finding>, fingerprint: string) {
    exists i :: 0 <= i < |fs| && fs[i].fingerprint == fingerprint
  }

  /** Deduplicating keeps one finding for each fingerprint, the first of the best scored. */
  lemma {:induction false} DedupKeepsBest(fs: seq<Finding>)
    ensures Distinct(Deduped(fs))
    ensures forall f :: f in Deduped(fs) ==> Best(fs, f)
    ensures forall p :: HasPrint(Deduped(fs), p) <==> HasPrint(fs, p)
  {
    hide Best, HasPrint, WithFinding, Distinct;
    if fs == [] {
      NoPrints();
    } else {
      var before, last := fs[..|fs| - 1], fs[|fs| - 1];
      DedupKeepsBest(before);
      assert before + [last] == fs;
      var kept := Deduped(before);
      forall p ensures HasPrint(WithFinding(kept, last), p) <==> HasPrint(before + [last], p) {
        PrintsAfter(before, kept, last, p);
      }
      WithDistinct(kept, last);
      forall f | f in WithFinding(kept, last) ensures Best(before + [last], f) {
        BestAfter(before, kept, last, f);
      }
    }
  }

  lemma PrintsAfter(before: seq<Finding>, kept: seq<Finding>, last: Finding, p: string)
    requires HasPrint(kept, p) <==> HasPrint(before, p)
    ensures HasPrint(WithFinding(kept, last), p) <==> HasPrint(before + [last], p)
  {
    var after := WithFinding(kept, last);
    var i := IndexOf(kept, last.fingerprint);
    assert (before + [last])[|before|] == last;
    assert forall k :: 0 <= k < |before| ==> (before + [last])[k] == before[k];
    assert forall k :: 0 <= k < |kept| ==> after[k].fingerprint == kept[k].fingerprint;
    assert i < |after| && after[i].fingerprint == last.fingerprint;
  }

  lemma NoPrints()
    ensures Distinct([]) && forall p :: !HasPrint([], p)
  {}

  lemma WithDistinct(kept: seq<Finding>, f: Finding)
    requires Distinct(kept)
    ensures Distinct(WithFinding(kept, f))
  {}

  /** No finding with the fingerprint scores more. */
  ghost predicate Bounded(fs: seq<Finding>, fingerprint: string, score: int) {
    forall k :: 0 <= k < |fs| && fs[k].fingerprint == fingerprint ==> fs[k].score <= score
  }

  lemma BestBounds(fs: seq<Finding>, f: Finding)
    requires Best(fs, f)
    ensures Bounded(fs, f.fingerprint, f.score)
  {
    var n: nat :| FirstBest(fs, n) && fs[n] == f;
  }

  lemma BestStays(fs: seq<Finding>, f: Finding, last: Finding)
    requires Best(fs, f) && (f.fingerprint == last.fingerprint ==> last.score <= f.score)
    ensures Best(fs + [last], f)
  {
    var n: nat :| FirstBest(fs, n) && fs[n] == f;
    assert FirstBest(fs + [last], n) && (fs + [last])[n] == f;
  }

  lemma NewBest(fs: seq<Finding>, last: Finding)
    requires Bounded(fs, last.fingerprint, last.score - 1)
    ensures Best(fs + [last], last)
  {
    assert FirstBest(fs + [last], |fs|) && (fs + [last])[|fs|] == last;
  }

  lemma NoPrintBounds(fs: seq<Finding>, fingerprint: string, score: int)
    requires !HasPrint(fs, fingerprint)
    ensures Bounded(fs, fingerprint, score)
  {}

  lemma PrintAt(kept: seq<Finding>, fingerprint: string)
    ensures HasPrint(kept, fingerprint) <==> IndexOf(kept, fingerprint) < |kept|
  {}

  lemma OnePrint(kept: seq<Finding>, f: Finding, fingerprint: string)
    requires Distinct(kept) && f in kept && f.fingerprint == fingerprint
    ensures IndexOf(kept, fingerprint) < |kept| && kept[IndexOf(kept, fingerprint)] == f
  {
    var k :| 0 <= k < |kept| && kept[k] == f;
  }

  lemma BestAfter(before: seq<Finding>, kept: seq<Finding>, last: Finding, f: Finding)
    requires Distinct(kept) && (forall g :: g in kept ==> Best(before, g)) && f in WithFinding(kept, last)
    requires HasPrint(kept, last.fingerprint) <==> HasPrint(before, last.fingerprint)
    ensures Best(before + [last], f)
  {
    hide Best, HasPrint, Bounded, Distinct;
    var i := IndexOf(kept, last.fingerprint);
    PrintAt(kept, last.fingerprint);
    if i == |kept| {
      NoPrintBounds(before, last.fingerprint, last.score - 1);
    } else {
      BestBounds(before, kept[i]);
      if kept[i].score < last.score { BoundedBelow(before, last.fingerprint, kept[i].score, last.score - 1); }
    }
    if f in kept && f.fingerprint == last.fingerprint { OnePrint(kept, f, last.fingerprint); }
    if f in kept && (f.fingerprint == last.fingerprint ==> last.score <= f.score) {
      BestStays(before, f, last);
    } else {
      OnlyReplaced(kept, last, f);
      NewBest(before, last);
    }
  }

  lemma BoundedBelow(fs: seq<Finding>, fingerprint: string, a: int, b: int)
    requires Bounded(fs, fingerprint, a) && a <= b
    ensures Bounded(fs, fingerprint, b)
  {}

  lemma OnlyReplaced(kept: seq<Finding>, last: Finding, f: Finding)
    requires Distinct(kept) && f in WithFinding(kept, last)
    requires !(f in kept && (f.fingerprint == last.fingerprint ==> last.score <= f.score))
    ensures f == last
    ensures var i := IndexOf(kept, last.fingerprint); i < |kept| ==> kept[i].score < last.score
  {
    hide IndexOf, Distinct;
    var i := IndexOf(kept, last.fingerprint);
    if i < |kept| && last.score > kept[i].score {
      ReplacedMember(kept, i, last, f);
    } else if i < |kept| {
      KeptBeats(kept, i, last, f);
    }
  }

  /** Where the fingerprint's place is not taken, its holder scores at least as much. */
  lemma KeptBeats(kept: seq<Finding>, i: nat, last: Finding, f: Finding)
    requires Distinct(kept) && i < |kept| && kept[i].fingerprint == last.fingerprint && last.score <= kept[i].score && f in kept
    ensures f.fingerprint == last.fingerprint ==> last.score <= f.score
  {
    var k :| 0 <= k < |kept| && kept[k] == f;
  }

  lemma ReplacedMember(kept: seq<Finding>, i: nat, last: Finding, f: Finding)
    requires Distinct(kept) && i < |kept| && f in kept[i := last]
    ensures f == last || (f in kept && f.fingerprint != kept[i].fingerprint)
  {
    var k :| 0 <= k < |kept| && kept[i := last][k] == f;
    if k != i { assert kept[k] == f; }
  }

  // ---- the verdict ---------------------------------------------------------------------------------------------------

  function Worst(fs: seq<Finding>): (v: Verdict)
    ensures !v.incomplete
  {
    if fs == [] then Verdict(CLEAN, 0, false)
    else
      var v, f := Worst(fs[..|fs| - 1]), fs[|fs| - 1];
      Verdict(
        if Rank(f.tier) > Rank(v.tier) then f.tier else v.tier,
        if f.score > v.score then f.score else v.score, false)
  }

  predicate HasGap(cs: seq<Coverage>) { exists c :: c in cs && (c.status == Failed || c.truncated) }

  function Concluded(scored: seq<Finding>, coverage: seq<Coverage>): Verdict {
    var v := Worst(scored).(incomplete := HasGap(coverage));
    if v.incomplete && v.tier == CLEAN then v.(tier := UNKNOWN) else v
  }

  method Assess(h: Hashes, findings: seq<Finding>, coverage: seq<Coverage>) returns (v: Verdict, out: seq<Finding>)
    ensures out == ScoreAll(Deduped(NormalAll(h, findings)))
    ensures v == Concluded(out, coverage)
  {
    var normal := new Finding[|findings|](i requires 0 <= i < |findings| => findings[i]);
    for i := 0 to normal.Length
      invariant forall k :: 0 <= k < i ==> normal[k] == Normal(h, findings[k])
      invariant forall k :: i <= k < normal.Length ==> normal[k] == findings[k]
    {
      normal[i] := Normal(h, normal[i]);
    }
    assert normal[..] == NormalAll(h, findings);
    var deduped := Dedup(normal[..]);
    var scored := new Finding[|deduped|](i requires 0 <= i < |deduped| => deduped[i]);
    assert scored[..] == deduped;
    ScoreInPlace(scored);
    out := scored[..];
    v := Rollup(out, coverage);
  }

  method Rollup(out: seq<Finding>, coverage: seq<Coverage>) returns (v: Verdict)
    ensures v == Concluded(out, coverage)
  {
    v := Verdict(CLEAN, 0, false);
    for i := 0 to |out|
      invariant v == Worst(out[..i])
    {
      assert out[..i + 1][..i] == out[..i];
      if Rank(out[i].tier) > Rank(v.tier) { v := v.(tier := out[i].tier); }
      if out[i].score > v.score { v := v.(score := out[i].score); }
    }
    assert out[..|out|] == out;
    for i := 0 to |coverage|
      invariant v == Worst(out).(incomplete := HasGap(coverage[..i]))
    {
      assert coverage[..i + 1] == coverage[..i] + [coverage[i]];
      if coverage[i].status.Failed? || coverage[i].truncated { v := v.(incomplete := true); }
    }
    assert coverage[..|coverage|] == coverage;
    if v.incomplete && v.tier == CLEAN { v := v.(tier := UNKNOWN); }
  }

  function ExitCode(v: Verdict): nat {
    if v.tier == CONFIRMED then 4
    else if v.tier == LIKELY then 3
    else if v.tier == SUSPICIOUS then 2
    else if v.tier == UNKNOWN then 5
    else if v.incomplete then 5
    else 0
  }

  lemma {:induction false} WorstIs(fs: seq<Finding>)
    ensures Worst(fs).tier in [CLEAN, SUSPICIOUS, LIKELY, CONFIRMED]
    ensures forall f :: f in fs ==> Rank(f.tier) <= Rank(Worst(fs).tier) && f.score <= Worst(fs).score
    ensures Worst(fs).tier == CLEAN || exists f :: f in fs && f.tier == Worst(fs).tier
  {
    if fs != [] {
      var init, f := fs[..|fs| - 1], fs[|fs| - 1];
      WorstIs(init);
      assert fs == init + [f];
      if Rank(f.tier) <= Rank(Worst(init).tier) && Worst(init).tier != CLEAN {
        var g :| g in init && g.tier == Worst(init).tier;
        assert g in fs;
      }
    }
  }

  /** The exit code is 0 exactly when every scored tier ranks clean and no view failed or was cut short; 5 when
      all rank clean but something was; otherwise it names the worst tier. */
  lemma ExitZeroIff(scored: seq<Finding>, coverage: seq<Coverage>)
    ensures var code := ExitCode(Concluded(scored, coverage));
            && (code == 0 <==> AllClean(scored) && !HasGap(coverage))
            && (code == 5 <==> AllClean(scored) && HasGap(coverage))
            && (!AllClean(scored) ==> code == 1 + Rank(Worst(scored).tier))
  {
    WorstIs(scored);
    if !AllClean(scored) {
      var f :| f in scored && Rank(f.tier) != 0;
    }
  }

  predicate AllClean(fs: seq<Finding>) { forall f :: f in fs ==> Rank(f.tier) == 0 }

  // ---- adding and removing findings --------------------------------------------------------------------------------------

  /** Where finding i of `a + b` stands in `a + [g] + b`. */
  function Shifted(a: seq<Finding>, i: nat): nat { if i < |a| then i else i + 1 }

  /** A finding put anywhere into the list corroborates exactly those it supports. */
  lemma CorroborationAfter(a: seq<Finding>, g: Finding, b: seq<Finding>, i: nat)
    requires i < |a + b|
    ensures Corroborated(a + [g] + b, Shifted(a, i)) <==> Corroborated(a + b, i) || Supports(g, (a + b)[i])
  {
    hide Supports;
    var was, now := a + b, a + [g] + b;
    var at := Shifted(a, i);
    assert forall k: nat :: k < |was| ==> now[Shifted(a, k)] == was[k];
    if Corroborated(was, i) {
      var j: nat :| 0 <= j < |was| && j != i && Supports(was[j], was[i]);
      assert Supports(now[Shifted(a, j)], now[at]);
    }
    assert now[|a|] == g;
    if Corroborated(now, at) {
      var j: nat :| 0 <= j < |now| && j != at && Supports(now[j], now[at]);
      if j != |a| {
        var k: nat := if j < |a| then j else j - 1;
        assert Shifted(a, k) == j && Supports(was[k], was[i]);
      }
    }
  }

  /** Adding a finding lowers no other finding's tier or score. */
  lemma AddingRaises(a: seq<Finding>, g: Finding, b: seq<Finding>, i: nat)
    requires i < |a + b|
    ensures var was := ScoreAll(a + b)[i]; var now := ScoreAll(a + [g] + b)[Shifted(a, i)];
            now.content == was.content && Rank(was.tier) <= Rank(now.tier) && was.score <= now.score
  {
    hide Corroborated, Scored;
    CorroborationAfter(a, g, b, i);
    CorroborationRaises((a + b)[i]);
    assert (a + [g] + b)[Shifted(a, i)] == (a + b)[i];
  }

  /** Nor the verdict's. */
  lemma AddingRaisesVerdict(a: seq<Finding>, g: Finding, b: seq<Finding>, coverage: seq<Coverage>)
    ensures var was := Concluded(ScoreAll(a + b), coverage); var now := Concluded(ScoreAll(a + [g] + b), coverage);
            Rank(was.tier) <= Rank(now.tier) && was.score <= now.score
  {
    hide Corroborated, Scored, ScoreAll;
    var was, now := ScoreAll(a + b), ScoreAll(a + [g] + b);
    forall f | f in was ensures Dominated(f, now) {
      var i :| 0 <= i < |was| && was[i] == f;
      AddingRaises(a, g, b, i);
      assert now[Shifted(a, i)] in now;
    }
    WorstDominated(was, now);
  }

  ghost predicate Dominated(f: Finding, fs: seq<Finding>) {
    exists g :: g in fs && Rank(f.tier) <= Rank(g.tier) && f.score <= g.score
  }

  lemma {:induction false} WorstDominated(was: seq<Finding>, now: seq<Finding>)
    requires forall f :: f in was ==> Dominated(f, now)
    ensures Rank(Worst(was).tier) <= Rank(Worst(now).tier) && Worst(was).score <= Worst(now).score
  {
    WorstIs(now);
    if was == [] {
      WorstScore(now);
    } else {
      var f := was[|was| - 1];
      assert forall x :: x in was[..|was| - 1] ==> x in was;
      WorstDominated(was[..|was| - 1], now);
      assert f in was && Dominated(f, now);
    }
  }

  lemma {:induction false} WorstScore(fs: seq<Finding>)
    ensures Worst(fs).score >= 0
  {
    if fs != [] { WorstScore(fs[..|fs| - 1]); }
  }

  /** Taking out a finding that is not a credible signal changes no other finding's tier or score. */
  lemma RemovingIncredible(a: seq<Finding>, g: Finding, b: seq<Finding>, i: nat)
    requires i < |a + b| && !Credible(g)
    ensures ScoreAll(a + [g] + b)[Shifted(a, i)] == ScoreAll(a + b)[i]
  {
    hide Corroborated, Scored;
    CorroborationAfter(a, g, b, i);
    assert (a + [g] + b)[Shifted(a, i)] == (a + b)[i];
  }

  // ---- one more raw finding ---------------------------------------------------------------------------------------------

  /** What the program reports for the raw findings, in the order it keeps them. */
  function Assessed(h: Hashes, fs: seq<Finding>): seq<Finding> { ScoreAll(Deduped(NormalAll(h, fs))) }

  /** Every finding that was kept still has its place, at no lower tier or score. */
  ghost predicate LowersNothing(was: seq<Finding>, now: seq<Finding>) {
    && |was| <= |now|
    && forall k :: 0 <= k < |was| ==> NotBelow((was[k].tier, was[k].score), (now[k].tier, now[k].score))
  }

  /** `g` has the content of `f`, outscores it, and yet comes out lower: a probe that changed its mind about the
      tier, or a raised floor that `g` misses. */
  predicate Weaker(f: Finding, g: Finding, corroborated: bool) {
    if Attributed(f) then
      && !corroborated
      && (if f.tier == CONFIRMED then g.tier != CONFIRMED else g.tier == CONFIRMED && g.score < 80)
    else if Calibrated(f) then
      || Rank(CalibratedTier(g, corroborated)) < Rank(CalibratedTier(f, corroborated))
      || (corroborated && f.tier == LIKELY && g.tier != LIKELY && g.score < 90)
      || (f.tier == "" && f.score <= 0 && !(corroborated && g.tier == LIKELY) && !(g.tier == "" && g.score <= 0) && g.score < 70)
    else if Anomaly(f) then
      || (f.tier == CONFIRMED && g.tier != CONFIRMED && !(g.tier == LIKELY && corroborated))
      || (f.tier == LIKELY && !(g.tier in [LIKELY, CONFIRMED]))
      || (f.tier == LIKELY && g.tier == CONFIRMED && corroborated && g.score < 95)
    else false
  }

  /** The tier a calibrated probe's finding ends with. */
  function CalibratedTier(f: Finding, corroborated: bool): Tier {
    if corroborated && f.tier == LIKELY then CONFIRMED
    else if f.tier != "" then f.tier
    else if f.score > 0 then TierForScore(f.score) else LIKELY
  }

  lemma WeakerIff(f: Finding, g: Finding, corroborated: bool)
    requires f.content == g.content && f.score < g.score
    ensures NotBelow(Scored(f, corroborated), Scored(g, corroborated)) <==> !Weaker(f, g, corroborated)
  {
    if !Attributed(f) && Calibrated(f) {
      CalibratedEnds(f, corroborated);
      CalibratedEnds(g, corroborated);
      hide Scored, CalibratedTier;
    }
  }

  lemma CalibratedEnds(f: Finding, corroborated: bool)
    requires !Attributed(f) && Calibrated(f)
    ensures Scored(f, corroborated) == (CalibratedTier(f, corroborated), CalibratedScore(f, corroborated))
  {}

  function CalibratedScore(f: Finding, corroborated: bool): int {
    if corroborated && f.tier == LIKELY then AtLeast(f.score, 90)
    else if f.tier == "" && f.score <= 0 then 70 else f.score
  }

  /** Some finding other than i supports finding j. */
  predicate SupportedElsewhere(all: seq<Finding>, i: nat, j: nat)
    requires i < |all| && j < |all|
  {
    exists l :: 0 <= l < |all| && l != i && l != j && Supports(all[l], all[j])
  }

  /** Putting `g` in the place of finding i leaves that place no lower. Where the contents agree, as they do when
      no two contents share a fingerprint, only tiers and scores decide. */
  predicate OutdoesPlace(all: seq<Finding>, i: nat, g: Finding)
    requires i < |all|
  {
    if all[i].content == g.content then !Weaker(all[i], g, Corroborated(all, i))
    else NotBelow(Scored(all[i], Corroborated(all, i)), Scored(g, Corroborated(all[i := g], i)))
  }

  /** Every finding the peer matters to that finding i supports and `g` does not has some other support. */
  predicate NobodyLosesItsPeer(all: seq<Finding>, i: nat, g: Finding)
    requires i < |all|
  {
    forall j :: 0 <= j < |all| && j != i && Sensitive(all[j]) && Supports(all[i], all[j]) && !Supports(g, all[j]) ==>
      SupportedElsewhere(all, i, j)
  }

  /** One more raw finding lowers nothing if and only if its fingerprint is new, or it does not outscore the
      finding that has it, or it takes that finding's place without lowering it or taking the last peer of
      another. This is for any hash, colliding or not. */
  lemma AppendingLowersNothingIff(h: Hashes, fs: seq<Finding>, g: Finding)
    ensures var kept, last := Deduped(NormalAll(h, fs)), Normal(h, g);
            var i := IndexOf(kept, last.fingerprint);
            LowersNothing(Assessed(h, fs), Assessed(h, fs + [g])) <==>
              i == |kept| || last.score <= kept[i].score || (OutdoesPlace(kept, i, last) && NobodyLosesItsPeer(kept, i, last))
  {
    hide Deduped, ScoreAll, Corroborated, Scored, IndexOf, LowersNothing, OutdoesPlace, NobodyLosesItsPeer;
    var kept, last := Deduped(NormalAll(h, fs)), Normal(h, g);
    assert NormalAll(h, fs + [g]) == NormalAll(h, fs) + [last];
    DedupedSnoc(NormalAll(h, fs), last);
    var i := IndexOf(kept, last.fingerprint);
    if i == |kept| {
      AppendedLowersNothing(kept, last);
    } else if last.score <= kept[i].score {
      SameLowersNothing(ScoreAll(kept));
    } else {
      ReplacedLowersNothingIff(kept, i, last);
    }
  }

  lemma SameLowersNothing(fs: seq<Finding>)
    ensures LowersNothing(fs, fs)
  {}

  lemma AppendedLowersNothing(kept: seq<Finding>, last: Finding)
    ensures LowersNothing(ScoreAll(kept), ScoreAll(kept + [last]))
  {
    hide Corroborated, Scored;
    assert kept + [] == kept && kept + [last] + [] == kept + [last];
    forall k | 0 <= k < |kept|
      ensures NotBelow((ScoreAll(kept)[k].tier, ScoreAll(kept)[k].score),
                       (ScoreAll(kept + [last])[k].tier, ScoreAll(kept + [last])[k].score))
    {
      AddingRaises(kept, last, [], k);
    }
  }

  lemma ReplacedLowersNothingIff(kept: seq<Finding>, i: nat, g: Finding)
    requires i < |kept| && kept[i].score < g.score
    ensures LowersNothing(ScoreAll(kept), ScoreAll(kept[i := g])) <==>
              OutdoesPlace(kept, i, g) && NobodyLosesItsPeer(kept, i, g)
  {
    hide Corroborated, Scored, Supports, Sensitive, Weaker;
    var now := kept[i := g];
    SameContentSupport(kept, i, g);
    if kept[i].content == g.content { WeakerIff(kept[i], g, Corroborated(kept, i)); }
    forall j | 0 <= j < |kept| && j != i
      ensures NotBelow(Scored(kept[j], Corroborated(kept, j)), Scored(now[j], Corroborated(now, j))) <==>
                !(Sensitive(kept[j]) && Supports(kept[i], kept[j]) && !Supports(g, kept[j]) && !SupportedElsewhere(kept, i, j))
    {
      PeerOfOther(kept, i, g, j);
      CorroborationRaises(kept[j]);
      SensitiveIff(kept[j]);
    }
    forall k | 0 <= k < |kept|
      ensures (ScoreAll(kept)[k].tier, ScoreAll(kept)[k].score) == Scored(kept[k], Corroborated(kept, k))
      ensures (ScoreAll(now)[k].tier, ScoreAll(now)[k].score) == Scored(now[k], Corroborated(now, k))
    {
    }
    if LowersNothing(ScoreAll(kept), ScoreAll(now)) {
      PlaceByPlace(kept, now);
    }
  }

  lemma PlaceByPlace(was: seq<Finding>, now: seq<Finding>)
    requires |was| == |now| && LowersNothing(ScoreAll(was), ScoreAll(now))
    ensures forall k :: 0 <= k < |was| ==> NotBelow(Scored(was[k], Corroborated(was, k)), Scored(now[k], Corroborated(now, k)))
  {
    hide Corroborated, Scored;
    forall k | 0 <= k < |was|
      ensures NotBelow(Scored(was[k], Corroborated(was, k)), Scored(now[k], Corroborated(now, k)))
    {
      assert NotBelow((ScoreAll(was)[k].tier, ScoreAll(was)[k].score), (ScoreAll(now)[k].tier, ScoreAll(now)[k].score));
    }
  }

  /** A finding is supported through its content alone. */
  lemma SameContentSupport(kept: seq<Finding>, i: nat, g: Finding)
    requires i < |kept|
    ensures kept[i].content == g.content ==> Corroborated(kept[i := g], i) == Corroborated(kept, i)
  {
    hide Credible;
    if kept[i].content == g.content {
      assert forall j :: 0 <= j < |kept| && j != i ==> Supports(kept[i := g][j], g) == Supports(kept[j], kept[i]);
    }
  }

  /** Where finding j has its support from, before and after finding i is replaced. */
  lemma PeerOfOther(kept: seq<Finding>, i: nat, g: Finding, j: nat)
    requires i < |kept| && j < |kept| && i != j
    ensures Corroborated(kept, j) <==> SupportedElsewhere(kept, i, j) || Supports(kept[i], kept[j])
    ensures Corroborated(kept[i := g], j) <==> SupportedElsewhere(kept, i, j) || Supports(g, kept[j])
  {
    hide Supports;
    var now := kept[i := g];
    assert now[i] == g && now[j] == kept[j];
    if l :| 0 <= l < |kept| && l != i && l != j && Supports(kept[l], kept[j]) {
      assert Supports(now[l], now[j]);
    }
    if Corroborated(now, j) {
      var l :| 0 <= l < |now| && l != j && Supports(now[l], now[j]);
      if l != i { assert Supports(kept[l], kept[j]); }
    }
  }

  /** No raw finding with other content has the fingerprint of `g`. */
  ghost predicate NoCollision(h: Hashes, fs: seq<Finding>, g: Finding) {
    forall f :: f in NormalAll(h, fs) && f.fingerprint == Normal(h, g).fingerprint ==> f.content == Normal(h, g).content
  }

  /** Without a collision: a duplicate that outscores the finding it replaces lowers nothing if and only if it is
      not the weaker of the two, and, should it be allowlisted, every finding the replaced one stood by and that
      still has something to lose has another peer. */
  lemma WithoutCollisionsIff(h: Hashes, fs: seq<Finding>, g: Finding)
    requires NoCollision(h, fs, g)
    ensures var kept, last := Deduped(NormalAll(h, fs)), Normal(h, g);
            var i := IndexOf(kept, last.fingerprint);
            LowersNothing(Assessed(h, fs), Assessed(h, fs + [g])) <==>
              || i == |kept| || last.score <= kept[i].score
              || (!Weaker(kept[i], last, Corroborated(kept, i)) && (last.allowlisted ==> NobodyDependsOn(kept, i)))
  {
    hide Deduped, Corroborated, Weaker, LowersNothing, Assessed, NobodyLosesItsPeer, NobodyDependsOn, Best;
    var kept, last := Deduped(NormalAll(h, fs)), Normal(h, g);
    var i := IndexOf(kept, last.fingerprint);
    AppendingLowersNothingIff(h, fs, g);
    if i < |kept| {
      DedupKeepsBest(NormalAll(h, fs));
      BestIsIn(NormalAll(h, fs), kept[i]);
      PeersLost(kept, i, last);
    }
  }

  lemma BestIsIn(fs: seq<Finding>, f: Finding)
    requires Best(fs, f)
    ensures f in fs
  {}

  /** Whoever has finding i as a peer and would fall without one has another. */
  predicate NobodyDependsOn(all: seq<Finding>, i: nat)
    requires i < |all|
  {
    forall j :: 0 <= j < |all| && j != i && Sensitive(all[j]) && Supports(all[i], all[j]) ==> SupportedElsewhere(all, i, j)
  }

  lemma PeersLost(kept: seq<Finding>, i: nat, g: Finding)
    requires i < |kept| && kept[i].content == g.content
    ensures NobodyLosesItsPeer(kept, i, g) <==> (g.allowlisted ==> NobodyDependsOn(kept, i))
  {
    hide Sensitive, SupportedElsewhere;
  }

  // ---- what does not hold -------------------------------------------------------------------------------------------------

  function Example(view: string, basis: string, allowlisted: bool, tier: Tier, score: int): Finding {
    Finding(Content("h", view, "t", basis, "", "", "Generic"), allowlisted, tier, score, "", "")
  }

  /** An allowlisted duplicate with a higher score takes a credible finding's place, and another finding loses its
      peer. */
  lemma DuplicateCanLower(h: Hashes)
    requires h.fingerprint(Example("x", "behavioral", false, "", 1).content)
               != h.fingerprint(Example("y", "behavioral", false, "", 1).content)
    ensures var few := [Example("x", "behavioral", false, "", 1), Example("y", "behavioral", false, "", 1)];
            var more := few + [Example("y", "behavioral", true, "", 2)];
            Assessed(h, few)[0].tier == LIKELY && Assessed(h, more)[0].tier == SUSPICIOUS
  {
    hide Deduped, Corroborated;
    var few := [Example("x", "behavioral", false, "", 1), Example("y", "behavioral", false, "", 1)];
    var z := Example("y", "behavioral", true, "", 2);
    var x', y', z' := Normal(h, few[0]), Normal(h, few[1]), Normal(h, z);
    assert NormalAll(h, few) == [x', y'] && NormalAll(h, few + [z]) == [x', y', z'];
    TwoKept(x', y');
    TwoThenReplaced(x', y', z');
    assert Supports(y', x') && !Supports(z', x');
    PairCorroborated(x', y');
    PairCorroborated(x', z');
  }

  /** Without any allowlisting: a probe that says clean with more confidence replaces one that said confirmed, and
      takes the verdict down with it. */
  lemma CleanDuplicateLowersTheVerdict(h: Hashes)
    ensures var few := [Example("x", "signature", false, CONFIRMED, 90)];
            var more := few + [Example("x", "signature", false, CLEAN, 95)];
            Concluded(Assessed(h, few), []).tier == CONFIRMED && Concluded(Assessed(h, more), []).tier == CLEAN
  {
    hide Deduped, ScoreAll, Concluded, Scored;
    var few := [Example("x", "signature", false, CONFIRMED, 90)];
    var y := Example("x", "signature", false, CLEAN, 95);
    var x', y' := Normal(h, few[0]), Normal(h, y);
    assert NormalAll(h, few) == [x'] && NormalAll(h, few + [y]) == [x', y'];
    OneThenReplaced(x', y');
    PassedOn(x');
    PassedOn(y');
    LoneVerdict(x');
    LoneVerdict(y');
  }

  lemma PassedOn(f: Finding)
    requires f.content.family == "Generic" && f.content.basis == "signature" && f.tier in [CLEAN, CONFIRMED] && f.score > 0
    ensures Scored(f, false) == (f.tier, f.score)
  {}

  lemma OneThenReplaced(x: Finding, y: Finding)
    requires x.fingerprint == y.fingerprint && y.score > x.score
    ensures Deduped([x]) == [x] && Deduped([x, y]) == [y]
  {
    hide Deduped;
    DedupedSnoc([], x);
    DedupedSnoc([x], y);
    NothingDeduped();
    assert [] + [x] == [x] && [x] + [y] == [x, y] && [x][0 := y] == [y];
    assert IndexOf([x], y.fingerprint) == 0;
  }

  /** The verdict on a host with one finding is that finding's tier. */
  lemma LoneVerdict(f: Finding)
    requires Scored(f, false).0 in [CLEAN, CONFIRMED]
    ensures Concluded(ScoreAll([f]), []).tier == Scored(f, false).0
  {
    hide Scored;
    NobodyElse(f);
    var scored := ScoreAll([f]);
    assert scored == [Judged([f], 0)] && scored[..0] == [];
    assert Worst([]) == Verdict(CLEAN, 0, false);
  }

  lemma NobodyElse(f: Finding)
    ensures !Corroborated([f], 0)
  {}

  lemma PairCorroborated(f: Finding, g: Finding)
    ensures Corroborated([f, g], 0) <==> Supports(g, f)
  {
    hide Supports;
    assert [f, g][1] == g;
  }

  lemma DedupedSnoc(fs: seq<Finding>, f: Finding)
    ensures Deduped(fs + [f]) == WithFinding(Deduped(fs), f)
  {
    assert (fs + [f])[..|fs|] == fs;
  }

  lemma TwoKept(x: Finding, y: Finding)
    requires x.fingerprint != y.fingerprint
    ensures Deduped([x, y]) == [x, y]
  {
    hide Deduped;
    DedupedSnoc([], x);
    DedupedSnoc([x], y);
    NothingDeduped();
    assert [] + [x] == [x] && [x] + [y] == [x, y];
  }

  lemma NothingDeduped() ensures Deduped([]) == [] {}

  lemma TwoThenReplaced(x: Finding, y: Finding, z: Finding)
    requires x.fingerprint != y.fingerprint == z.fingerprint && z.score > y.score
    ensures Deduped([x, y, z]) == [x, z]
  {
    hide Deduped;
    TwoKept(x, y);
    DedupedSnoc([x, y], z);
    assert [x, y] + [z] == [x, y, z] && [x, y][1] == y;
    assert IndexOf([x, y], z.fingerprint) == 1;
    assert [x, y][1 := z] == [x, z];
  }

  /** What a second scoring would change, given a peer. */
  predicate Escalates(f: Finding) {
    && !Attributed(f)
    && (|| (Calibrated(f) && f.tier == "" && (f.score <= 0 || 60 <= f.score < 85))
        || (Anomaly(f) && !(f.tier in [LIKELY, CONFIRMED])))
  }

  /** Scoring twice is scoring once exactly for the findings that have no peer or had no tier to raise: a likely
      tier that the first scoring assigned is confirmed by the second. */
  lemma ScoringTwiceIff(all: seq<Finding>, i: nat)
    requires i < |all|
    ensures ScoreAll(ScoreAll(all))[i] == ScoreAll(all)[i] <==> !(Corroborated(all, i) && Escalates(all[i]))
  {
    hide Corroborated, Scored, Escalates;
    SameCorroboration(all, ScoreAll(all), i);
    ScoredTwice(all[i], Corroborated(all, i));
  }

  lemma ScoredTwice(f: Finding, corroborated: bool)
    ensures var s := Scored(f, corroborated);
            Scored(f.(tier := s.0, score := s.1), corroborated) == s <==> !(corroborated && Escalates(f))
  {
    if !corroborated { AloneIsFinal(f); }
  }

  lemma AloneIsFinal(f: Finding)
    ensures var s := Scored(f, false); Scored(f.(tier := s.0, score := s.1), false) == s
  {}

  /** A corroborated anomaly becomes likely, and scored again, confirmed. */
  lemma ScoringTwiceEscalates()
    ensures var once := ScoreAll([Example("x", "stomp-diff", false, "", 1), Example("y", "behavioral", false, "", 1)]);
            once[0].tier == LIKELY && ScoreAll(once)[0].tier == CONFIRMED
  {
    var all := [Example("x", "stomp-diff", false, "", 1), Example("y", "behavioral", false, "", 1)];
    assert Supports(all[1], all[0]);
    var once := ScoreAll(all);
    SameCorroboration(all, once, 0);
  }
}
