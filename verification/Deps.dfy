/**
 The reference graph of the rule library and the exclusion gate
 (console/internal/deps/deps.go, console/internal/ruleset/ruleset.go).

 The identifiers in the condition of a rule are a parameter. A loop over a map visits its keys in any order.
 */
module Deps {
  type Name = string

  type Edges = map<Name, set<Name>>

  function Next(edges: Edges, n: Name): set<Name> { if n in edges then edges[n] else {} }

  // ---- reachability ------------------------------------------------------------------------------------------

  predicate Edge(edges: Edges, a: Name, b: Name) { b in Next(edges, a) }

  ghost predicate Path(edges: Edges, p: seq<Name>) {
    p != [] && forall i :: 0 <= i < |p| - 1 ==> Edge(edges, p[i], p[i + 1])
  }

  ghost predicate Joins(edges: Edges, p: seq<Name>, a: Name, b: Name) {
    Path(edges, p) && p[0] == a && p[|p| - 1] == b
  }

  ghost predicate Reaches(edges: Edges, a: Name, b: Name) {
    exists p :: Joins(edges, p, a, b)
  }

  lemma ReachesSelf(edges: Edges, a: Name)
    ensures Reaches(edges, a, a)
  {
    assert Joins(edges, [a], a, a);
  }

  lemma ReachesOn(edges: Edges, a: Name, b: Name, c: Name)
    requires Reaches(edges, a, b) && Edge(edges, b, c)
    ensures Reaches(edges, a, c)
  {
    var p :| Joins(edges, p, a, b);
    assert Joins(edges, p + [c], a, c);
  }

  /** A set that contains the start and every successor of its members contains all that is reached. */
  lemma {:induction false} ClosedContains(edges: Edges, seen: set<Name>, p: seq<Name>, a: Name, b: Name)
    requires a in seen && (forall n :: n in seen ==> Next(edges, n) <= seen) && Joins(edges, p, a, b)
    ensures b in seen
    decreases |p|
  {
    if |p| > 1 {
      var q := p[..|p| - 1];
      assert Edge(edges, p[|p| - 2], p[|p| - 1]);
      assert Joins(edges, q, a, q[|q| - 1]) by {
        forall i | 0 <= i < |q| - 1 ensures Edge(edges, q[i], q[i + 1]) { assert Edge(edges, p[i], p[i + 1]); }
      }
      ClosedContains(edges, seen, q, a, q[|q| - 1]);
    }
  }

  ghost predicate NoRepeats(s: seq<Name>) {
    forall i, j :: 0 <= i < j < |s| ==> s[i] != s[j]
  }

  /** All targets of edges. */
  function Targets(edges: Edges): set<Name> { set n, m | n in edges && m in edges[n] :: m }

  /** What the traversal knows: everything seen is reached, `out` is what was seen after the start, and whatever
      was seen and left the queue has all its successors seen. */
  ghost predicate Visited(edges: Edges, start: Name, seen: set<Name>, queue: seq<Name>, out: seq<Name>) {
    && start in seen && NoRepeats(out)
    && (forall n :: n in out <==> n in seen && n != start)
    && (forall n :: n in seen ==> Reaches(edges, start, n) && (n == start || n in Targets(edges)))
    && (forall n :: n in queue ==> n in seen)
    && (forall n :: n in seen && n !in queue ==> Next(edges, n) <= seen)
  }

  /** While the successors of `cur` are being looked at. */
  ghost predicate Visiting(edges: Edges, start: Name, seen: set<Name>, queue: seq<Name>, out: seq<Name>,
                           cur: Name, todo: set<Name>) {
    && start in seen && NoRepeats(out) && cur in seen && todo <= Next(edges, cur)
    && (forall n :: n in out <==> n in seen && n != start)
    && (forall n :: n in seen ==> Reaches(edges, start, n) && (n == start || n in Targets(edges)))
    && (forall n :: n in queue ==> n in seen)
    && (forall n :: n in seen && n !in queue && n != cur ==> Next(edges, n) <= seen)
    && Next(edges, cur) - todo <= seen
  }

  lemma VisitNew(edges: Edges, start: Name, seen: set<Name>, queue: seq<Name>, out: seq<Name>, cur: Name, todo: set<Name>, next: Name)
    requires Visiting(edges, start, seen, queue, out, cur, todo) && next in todo && next !in seen
    ensures Visiting(edges, start, seen + {next}, queue + [next], out + [next], cur, todo - {next})
    ensures next in Targets(edges)
  {
    assert Edge(edges, cur, next);
    ReachesOn(edges, start, cur, next);
    hide Reaches;
    assert cur in edges && next in edges[cur];
  }

  lemma VisitOld(edges: Edges, start: Name, seen: set<Name>, queue: seq<Name>, out: seq<Name>, cur: Name, todo: set<Name>, next: Name)
    requires Visiting(edges, start, seen, queue, out, cur, todo) && next in todo && next in seen
    ensures Visiting(edges, start, seen, queue, out, cur, todo - {next})
  {
    hide Reaches;
  }

  lemma VisitStarts(edges: Edges, start: Name, seen: set<Name>, queue: seq<Name>, out: seq<Name>)
    requires Visited(edges, start, seen, queue, out) && queue != []
    ensures Visiting(edges, start, seen, queue[1..], out, queue[0], Next(edges, queue[0]))
  {
    hide Reaches;
    assert forall n :: n in queue ==> n == queue[0] || n in queue[1..];
    assert forall n :: n in queue[1..] ==> n in queue;
  }

  lemma VisitEnds(edges: Edges, start: Name, seen: set<Name>, queue: seq<Name>, out: seq<Name>, cur: Name)
    requires Visiting(edges, start, seen, queue, out, cur, {})
    ensures Visited(edges, start, seen, queue, out)
  {
    hide Reaches;
  }

  lemma WalkStarts(edges: Edges, start: Name)
    ensures Visited(edges, start, {start}, [start], [])
  {
    ReachesSelf(edges, start);
  }

  lemma WalkEnds(edges: Edges, start: Name, seen: set<Name>, out: seq<Name>)
    requires Visited(edges, start, seen, [], out)
    ensures NoRepeats(out) && forall n :: n in out <==> n != start && Reaches(edges, start, n)
  {
    forall n | n != start && Reaches(edges, start, n) ensures n in out {
      var p :| Joins(edges, p, start, n);
      ClosedContains(edges, seen, p, start, n);
    }
  }

  /** Breadth first, in any order of successors: exactly what the start reaches, the start itself apart, each
      once, on any graph. */
  method Walk(start: Name, edges: Edges) returns (out: seq<Name>)
    ensures NoRepeats(out)
    ensures forall n :: n in out <==> n != start && Reaches(edges, start, n)
  {
    hide Visited, Visiting, Reaches, NoRepeats;
    var seen := {start};
    var queue := [start];
    out := [];
    WalkStarts(edges, start);
    while queue != []
      invariant Visited(edges, start, seen, queue, out)
      decreases |Targets(edges) - seen|, |queue|
    {
      var cur := queue[0];
      VisitStarts(edges, start, seen, queue, out);
      queue := queue[1..];
      ghost var before, length := seen, |queue|;
      var todo := Next(edges, cur);
      while todo != {}
        invariant Visiting(edges, start, seen, queue, out, cur, todo) && before <= seen
        invariant (seen == before && |queue| == length) || |Targets(edges) - seen| < |Targets(edges) - before|
        decreases todo
      {
        var next :| next in todo;
        if next in seen {
          VisitOld(edges, start, seen, queue, out, cur, todo, next);
        } else {
          VisitNew(edges, start, seen, queue, out, cur, todo, next);
          Shrinks(Targets(edges), seen, next);
          seen := seen + {next};
          out := out + [next];
          queue := queue + [next];
        }
        todo := todo - {next};
      }
      VisitEnds(edges, start, seen, queue, out, cur);
    }
    WalkEnds(edges, start, seen, out);
  }

  lemma Shrinks(all: set<Name>, seen: set<Name>, n: Name)
    requires n in all && n !in seen
    ensures |all - (seen + {n})| < |all - seen|
  {
    assert all - seen == (all - (seen + {n})) + {n};
  }

  // ---- building the graph ----------------------------------------------------------------------------------------

  /** The two maps hold the same references, read in opposite directions. */
  ghost predicate Transposed(direct: Edges, reverse: Edges) {
    direct.Keys == reverse.Keys && forall a, b :: Edge(direct, a, b) <==> Edge(reverse, b, a)
  }

  /** What a rule's text refers to: the known rule names among its identifiers, YARA's own words and the rule
      itself apart. */
  ghost predicate RefersTo(rules: map<Name, string>, noise: set<Name>, tokens: string -> seq<Name>, a: Name, b: Name) {
    a in rules && b in tokens(rules[a]) && b !in noise && b in rules && a != b
  }

  method ReferencesIn(tokens: seq<Name>, known: set<Name>, noise: set<Name>) returns (out: seq<Name>)
    ensures NoRepeats(out) && forall n :: n in out <==> n in tokens && n !in noise && n in known
  {
    var seen: set<Name> := {};
    out := [];
    for i := 0 to |tokens|
      invariant NoRepeats(out) && (forall n :: n in out <==> n in seen)
      invariant forall n :: n in seen <==> n in tokens[..i] && n !in noise && n in known
    {
      assert tokens[..i + 1] == tokens[..i] + [tokens[i]];
      var tok := tokens[i];
      if tok in noise || tok in seen { continue; }
      if tok in known {
        seen := seen + {tok};
        out := out + [tok];
      }
    }
    assert tokens[..|tokens|] == tokens;
  }

  class Graph {
    var direct: Edges
    var reverse: Edges

    ghost predicate Valid()
      reads this
    {
      Transposed(direct, reverse)
    }

    constructor (rules: map<Name, string>, noise: set<Name>, tokens: string -> seq<Name>)
      ensures Valid() && direct.Keys == rules.Keys
      ensures forall a, b :: Edge(direct, a, b) <==> RefersTo(rules, noise, tokens, a, b)
    {
      direct := map n | n in rules :: {};
      reverse := map n | n in rules :: {};
      new;
      var names := rules.Keys;
      while names != {}
        invariant names <= rules.Keys && direct.Keys == rules.Keys && Transposed(direct, reverse)
        invariant RefersUpTo(direct, rules, noise, tokens, names)
        decreases names
      {
        var name :| name in names;
        var refs := ReferencesIn(tokens(rules[name]), rules.Keys, noise);
        NothingYet(direct, rules, noise, tokens, names, name);
        ghost var before := direct;
        AddReferences(name, refs);
        RefersOneMore(before, direct, rules, noise, tokens, names, name, refs);
        names := names - {name};
      }
      assert RefersUpTo(direct, rules, noise, tokens, {});
    }

    /** Record the references of one rule in both maps. */
    method AddReferences(name: Name, refs: seq<Name>)
      requires Valid() && name in direct && direct[name] == {} && forall r :: r in refs ==> r in direct
      modifies this
      ensures Valid() && direct == old(direct)[name := Named(refs, name)]
    {
      assert Named(refs[..0], name) == {} && direct == direct[name := {}];
      for i := 0 to |refs|
        invariant Valid() && direct == old(direct)[name := Named(refs[..i], name)]
      {
        assert refs[..i + 1] == refs[..i] + [refs[i]];
        NamedNext(refs, i, name);
        if refs[i] == name { continue; }
        EdgeAdded(direct, reverse, name, refs[i]);
        direct := direct[name := direct[name] + {refs[i]}];
        reverse := reverse[refs[i] := reverse[refs[i]] + {name}];
      }
      assert refs[..|refs|] == refs;
    }

    /** Every rule that must be compiled alongside `name`. */
    method DependenciesOf(name: Name) returns (out: seq<Name>)
      requires Valid()
      ensures NoRepeats(out) && forall n :: n in out <==> n != name && Reaches(direct, name, n)
    {
      out := Walk(name, direct);
    }

    /** Every rule that would fail to compile without `name`: those that have it among their dependencies. */
    method DependentsOf(name: Name) returns (out: seq<Name>)
      requires Valid()
      ensures NoRepeats(out) && forall n :: n in out <==> n != name && Reaches(direct, n, name)
    {
      out := Walk(name, reverse);
      forall n ensures Reaches(reverse, name, n) <==> Reaches(direct, n, name) { Converse(direct, reverse, name, n); }
    }
  }

  /** The references of all rules but these are in. */
  ghost predicate RefersUpTo(direct: Edges, rules: map<Name, string>, noise: set<Name>, tokens: string -> seq<Name>, names: set<Name>) {
    forall a, b :: Edge(direct, a, b) <==> a !in names && RefersTo(rules, noise, tokens, a, b)
  }

  lemma NothingYet(direct: Edges, rules: map<Name, string>, noise: set<Name>, tokens: string -> seq<Name>, names: set<Name>, name: Name)
    requires RefersUpTo(direct, rules, noise, tokens, names) && name in names && name in direct
    ensures direct[name] == {}
  {
    forall b ensures b !in direct[name] { assert !Edge(direct, name, b); }
  }

  lemma RefersOneMore(before: Edges, direct: Edges, rules: map<Name, string>, noise: set<Name>, tokens: string -> seq<Name>,
                      names: set<Name>, name: Name, refs: seq<Name>)
    requires RefersUpTo(before, rules, noise, tokens, names) && name in names && name in before && name in rules
    requires direct == before[name := Named(refs, name)]
    requires forall n :: n in refs <==> n in tokens(rules[name]) && n !in noise && n in rules
    ensures RefersUpTo(direct, rules, noise, tokens, names - {name})
  {
    forall a, b ensures Edge(direct, a, b) <==> a !in names - {name} && RefersTo(rules, noise, tokens, a, b) {
      if a != name { assert Edge(direct, a, b) <==> Edge(before, a, b); }
    }
  }

  lemma EdgeAdded(direct: Edges, reverse: Edges, a: Name, b: Name)
    requires Transposed(direct, reverse) && a in direct && b in direct
    ensures Transposed(direct[a := direct[a] + {b}], reverse[b := reverse[b] + {a}])
  {
    var d, r := direct[a := direct[a] + {b}], reverse[b := reverse[b] + {a}];
    forall x, y ensures Edge(d, x, y) <==> Edge(r, y, x) {
      assert Edge(direct, x, y) <==> Edge(reverse, y, x);
    }
  }

  lemma NamedNext(refs: seq<Name>, i: nat, name: Name)
    requires i < |refs|
    ensures refs[i] == name ==> Named(refs[..i + 1], name) == Named(refs[..i], name)
    ensures refs[i] != name ==> Named(refs[..i + 1], name) == Named(refs[..i], name) + {refs[i]}
  {
    assert refs[..i + 1] == refs[..i] + [refs[i]];
  }

  function Named(refs: seq<Name>, name: Name): set<Name> { set r | r in refs && r != name }

  lemma Converse(direct: Edges, reverse: Edges, a: Name, b: Name)
    requires Transposed(direct, reverse)
    ensures Reaches(reverse, a, b) <==> Reaches(direct, b, a)
  {
    if Reaches(reverse, a, b) {
      var p :| Joins(reverse, p, a, b);
      Backwards(reverse, direct, p);
      assert Joins(direct, Backward(p), b, a);
    }
    if Reaches(direct, b, a) {
      var p :| Joins(direct, p, b, a);
      Backwards(direct, reverse, p);
      assert Joins(reverse, Backward(p), a, b);
    }
  }

  function Backward(p: seq<Name>): (q: seq<Name>)
    ensures |q| == |p|
  {
    seq(|p|, i requires 0 <= i < |p| => p[|p| - 1 - i])
  }

  lemma Backwards(edges: Edges, back: Edges, p: seq<Name>)
    requires (forall a, b :: Edge(edges, a, b) <==> Edge(back, b, a)) && Path(edges, p)
    ensures Path(back, Backward(p))
  {
    var q := Backward(p);
    forall i | 0 <= i < |q| - 1 ensures Edge(back, q[i], q[i + 1]) {
      var k := |p| - 2 - i;
      assert Edge(edges, p[k], p[k + 1]);
    }
  }

  // ---- the exclusion gate ------------------------------------------------------------------------------------------

  datatype Judgement = Accepted | NoGraph | WouldBreak(rule: Name, orphaned: set<Name>)

  /** No rule that stays refers directly to a rule that goes. */
  ghost predicate NothingOrphaned(direct: Edges, excluded: set<Name>) {
    forall a, b :: Edge(direct, a, b) && b in excluded ==> a in excluded
  }

  class Service {
    var graph: Graph?

    constructor ()
      ensures graph == null
    {
      graph := null;
    }

    method SetGraph(g: Graph)
      modifies this
      ensures graph == g
    {
      graph := g;
    }

    method CheckExclusion(identifier: Name) returns (r: Judgement)
      requires graph != null ==> graph.Valid()
      ensures graph == null <==> r == NoGraph
      ensures graph != null ==> (r == Accepted <==> NothingOrphaned(graph.direct, {identifier}))
    {
      r := CheckExclusionSet([identifier]);
      assert ExcludedBy([identifier]) == {identifier};
    }

    /** Excluding the rules is accepted exactly when no remaining rule refers directly to one of them; a refusal
        names the first that is needed and all the remaining rules that depend on it, however indirectly. */
    method CheckExclusionSet(identifiers: seq<Name>) returns (r: Judgement)
      requires graph != null ==> graph.Valid()
      ensures graph == null <==> r == NoGraph
      ensures graph != null ==> (r == Accepted <==> NothingOrphaned(graph.direct, ExcludedBy(identifiers)))
      ensures graph != null && r.WouldBreak? ==>
                r.rule in identifiers && r.orphaned == Orphans(graph.direct, ExcludedBy(identifiers), r.rule) && r.orphaned != {}
    {
      if graph == null { return NoGraph; }
      var excluded: set<Name> := {};
      for i := 0 to |identifiers|
        invariant excluded == ExcludedBy(identifiers[..i])
      {
        assert identifiers[..i + 1] == identifiers[..i] + [identifiers[i]];
        excluded := excluded + {identifiers[i]};
      }
      assert identifiers[..|identifiers|] == identifiers;
      for i := 0 to |identifiers|
        invariant forall k :: 0 <= k < i ==> Orphans(graph.direct, excluded, identifiers[k]) == {}
      {
        var dependents := graph.DependentsOf(identifiers[i]);
        var orphaned: set<Name> := {};
        for k := 0 to |dependents|
          invariant forall n :: n in orphaned <==> n in dependents[..k] && n !in excluded
        {
          assert dependents[..k + 1] == dependents[..k] + [dependents[k]];
          if dependents[k] !in excluded { orphaned := orphaned + {dependents[k]}; }
        }
        assert dependents[..|dependents|] == dependents;
        OrphansAre(graph.direct, excluded, identifiers[i], orphaned);
        if orphaned != {} {
          NeededRuleOrphans(graph.direct, excluded, identifiers[i], orphaned);
          return WouldBreak(identifiers[i], orphaned);
        }
      }
      NobodyOrphaned(graph.direct, excluded, identifiers);
      return Accepted;
    }
  }

  function ExcludedBy(identifiers: seq<Name>): set<Name> { set n | n in identifiers }

  ghost predicate IsOrphan(direct: Edges, excluded: set<Name>, rule: Name, n: Name) {
    n !in excluded && n != rule && Reaches(direct, n, rule)
  }

  /** The remaining rules that depend on `rule`. */
  ghost function Orphans(direct: Edges, excluded: set<Name>, rule: Name): set<Name> {
    set n | n in direct.Keys && IsOrphan(direct, excluded, rule, n)
  }

  lemma ReachesFromKnown(direct: Edges, a: Name, b: Name)
    requires a != b && Reaches(direct, a, b)
    ensures a in direct
  {
    var p :| Joins(direct, p, a, b);
    assert Edge(direct, p[0], p[1]);
  }

  lemma OrphansAre(direct: Edges, excluded: set<Name>, rule: Name, orphaned: set<Name>)
    requires forall n :: n in orphaned <==> IsOrphan(direct, excluded, rule, n)
    ensures orphaned == Orphans(direct, excluded, rule)
  {
    hide Reaches;
    forall n | n in orphaned ensures n in direct {
      ReachesFromKnown(direct, n, rule);
    }
  }

  /** On the way from a remaining rule to an excluded one some remaining rule refers directly to an excluded one. */
  lemma {:induction false} CrossesOver(direct: Edges, excluded: set<Name>, p: seq<Name>, a: Name, b: Name)
    requires Joins(direct, p, a, b) && a !in excluded && b in excluded
    ensures exists x, y :: Edge(direct, x, y) && x !in excluded && y in excluded
    decreases |p|
  {
    var q := p[1..];
    assert Edge(direct, p[0], p[1]);
    if p[1] !in excluded {
      assert Joins(direct, q, p[1], b) by {
        forall i | 0 <= i < |q| - 1 ensures Edge(direct, q[i], q[i + 1]) { assert Edge(direct, p[i + 1], p[i + 2]); }
      }
      CrossesOver(direct, excluded, q, p[1], b);
    }
  }

  lemma NeededRuleOrphans(direct: Edges, excluded: set<Name>, rule: Name, orphaned: set<Name>)
    requires rule in excluded && orphaned != {} && orphaned == Orphans(direct, excluded, rule)
    ensures !NothingOrphaned(direct, excluded)
  {
    var n :| n in orphaned;
    assert IsOrphan(direct, excluded, rule, n);
    var p :| Joins(direct, p, n, rule);
    CrossesOver(direct, excluded, p, n, rule);
  }

  lemma NobodyOrphaned(direct: Edges, excluded: set<Name>, identifiers: seq<Name>)
    requires excluded == ExcludedBy(identifiers)
    requires forall k :: 0 <= k < |identifiers| ==> Orphans(direct, excluded, identifiers[k]) == {}
    ensures NothingOrphaned(direct, excluded)
  {
    forall a, b | Edge(direct, a, b) && b in excluded ensures a in excluded {
      var k :| 0 <= k < |identifiers| && identifiers[k] == b;
      assert Orphans(direct, excluded, identifiers[k]) == {};
      if a !in excluded { DirectIsOrphan(direct, excluded, a, b); }
    }
  }

  lemma DirectIsOrphan(direct: Edges, excluded: set<Name>, a: Name, b: Name)
    requires Edge(direct, a, b) && b in excluded && a !in excluded
    ensures a in Orphans(direct, excluded, b)
  {
    assert Joins(direct, [a, b], a, b);
  }

  /** The way out the gate offers: a rule together with everything that depends on it can always go. */
  lemma ExcludedTogetherIsSafe(direct: Edges, rule: Name)
    ensures NothingOrphaned(direct, {rule} + set n | n in direct.Keys && n != rule && Reaches(direct, n, rule))
  {
    var all := {rule} + set n | n in direct.Keys && n != rule && Reaches(direct, n, rule);
    forall a, b | Edge(direct, a, b) && b in all ensures a in all {
      if b == rule { ReachesSelf(direct, rule); }
      ReachesBefore(direct, a, b, rule);
    }
  }

  lemma ReachesBefore(edges: Edges, a: Name, b: Name, c: Name)
    requires Edge(edges, a, b) && Reaches(edges, b, c)
    ensures Reaches(edges, a, c)
  {
    var p :| Joins(edges, p, b, c);
    assert Joins(edges, [a] + p, a, c);
  }
}
