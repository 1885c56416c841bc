/** Scope-aware taint (shellsight/internal/asptaint/taint.go). */
module Taint {
  // A statement is what the pattern matcher reports about it; the patterns themselves are not part of this
  // model. Names are lower-cased already. A key is a name together with the scope that owns it.

  const MAX_ROUNDS: nat := 8

  datatype Form =
    | Close                           // End Sub / End Function
    | Open(params: seq<string>)       // Sub / Function with its parameter list
    | Declare(names: seq<string>)     // Dim and its relatives
    | Plain

  datatype Assignment = Assignment(lhs: string, names: set<string>, sourced: bool, sanitized: bool)

  datatype Stmt = Stmt(form: Form, assigns: seq<Assignment>)

  datatype Key = Key(scope: nat, name: string)

  datatype Edge = Edge(lhs: Key, names: set<Key>, sourced: bool)

  // ---- scopes --------------------------------------------------------------------------------------------------

  function OpensBefore(stmts: seq<Stmt>, i: nat): nat
    requires i <= |stmts|
  {
    if i == 0 then 0 else OpensBefore(stmts, i - 1) + (if stmts[i - 1].form.Open? then 1 else 0)
  }

  /** Statement `i` belongs to the routine opened by statement `j`: nothing closes it in between, and a later
      routine header would have taken over. */
  ghost predicate Inside(stmts: seq<Stmt>, j: nat, i: nat) {
    && j <= i < |stmts| && stmts[j].form.Open?
    && forall k :: j < k <= i ==> !stmts[k].form.Open? && (k == i || !stmts[k].form.Close?)
  }

  /** Scope `id` is the routine opened by statement `j`; routines are numbered from 1 in source order. */
  ghost predicate IsRoutine(stmts: seq<Stmt>, id: nat, j: nat) {
    j < |stmts| && stmts[j].form.Open? && id == OpensBefore(stmts, j) + 1
  }

  ghost predicate ScopeIs(stmts: seq<Stmt>, i: nat, id: nat)
    requires i < |stmts|
  {
    if id == 0 then forall j :: !Inside(stmts, j, i)
    else exists j :: IsRoutine(stmts, id, j) && Inside(stmts, j, i)
  }

  predicate Modifier(name: string) { name == "byref" || name == "byval" }

  /** `name` is a parameter of routine `id`, or declared by a statement of it other than its header and end. */
  ghost predicate Owns(stmts: seq<Stmt>, upTo: nat, id: nat, name: string)
    requires upTo <= |stmts|
  {
    exists j :: IsRoutine(stmts, id, j) && OwnsAt(stmts, upTo, j, name)
  }

  ghost predicate OwnsAt(stmts: seq<Stmt>, upTo: nat, j: nat, name: string)
    requires upTo <= |stmts| && j < |stmts|
  {
    && j < upTo && stmts[j].form.Open?
    && (|| (name in stmts[j].form.params && name != "byref" && name != "byval")
        || exists i :: DeclaredAt(stmts, upTo, j, i, name))
  }

  ghost predicate DeclaredAt(stmts: seq<Stmt>, upTo: nat, j: nat, i: nat, name: string)
    requires upTo <= |stmts|
  {
    i < upTo && Inside(stmts, j, i) && stmts[i].form.Declare? && name in stmts[i].form.names
  }

  lemma {:induction false} OpensGrow(stmts: seq<Stmt>, i: nat, j: nat)
    requires i <= j <= |stmts|
    ensures OpensBefore(stmts, i) <= OpensBefore(stmts, j)
    ensures i < j && stmts[i].form.Open? ==> OpensBefore(stmts, i) < OpensBefore(stmts, j)
    decreases j
  {
    if i < j { OpensGrow(stmts, i, j - 1); }
  }

  /** A scope number names at most one routine. */
  lemma RoutineUnique(stmts: seq<Stmt>, id: nat, j: nat, k: nat)
    requires IsRoutine(stmts, id, j) && IsRoutine(stmts, id, k)
    ensures j == k
  {
    if j < k { OpensGrow(stmts, j, k); } else if k < j { OpensGrow(stmts, k, j); }
  }

  lemma InsideUnique(stmts: seq<Stmt>, j: nat, k: nat, i: nat)
    requires Inside(stmts, j, i) && Inside(stmts, k, i)
    ensures j == k
  {}

  /** A statement lies in one scope. */
  lemma ScopeUnique(stmts: seq<Stmt>, i: nat, a: nat, b: nat)
    requires i < |stmts| && ScopeIs(stmts, i, a) && ScopeIs(stmts, i, b)
    ensures a == b
  {
    if a != 0 && b != 0 {
      var j: nat :| IsRoutine(stmts, a, j) && Inside(stmts, j, i);
      var k: nat :| IsRoutine(stmts, b, k) && Inside(stmts, k, i);
      InsideUnique(stmts, j, k, i);
    }
  }

  /** Where the scan stands before statement `i`: in the routine opened at `at`, or in the file body. */
  ghost predicate Standing(stmts: seq<Stmt>, i: nat, cur: nat, at: int)
    requires i <= |stmts|
  {
    if cur == 0 then at == -1 && forall j :: 0 <= j < i && stmts[j].form.Open? ==> exists k :: j < k < i && stmts[k].form.Close?
    else
      && 0 <= at < i && IsRoutine(stmts, cur, at)
      && forall k :: at < k < i ==> !stmts[k].form.Open? && !stmts[k].form.Close?
  }

  /** What statement `i` adds to the names routine `id` owns. */
  ghost predicate Adds(stmts: seq<Stmt>, i: nat, cur: nat, at: int, id: nat, name: string)
    requires i < |stmts|
  {
    match stmts[i].form
    case Open(params) => id == OpensBefore(stmts, i) + 1 && name in params && !Modifier(name)
    case Declare(names) => cur != 0 && id == cur && name in names
    case _ => false
  }

  lemma OwnsNext(stmts: seq<Stmt>, i: nat, cur: nat, at: int, id: nat, name: string)
    requires i < |stmts| && Standing(stmts, i, cur, at) && id != 0
    ensures Owns(stmts, i + 1, id, name) <==> Owns(stmts, i, id, name) || Adds(stmts, i, cur, at, id, name)
  {
    if Owns(stmts, i, id, name) {
      var j :| IsRoutine(stmts, id, j) && OwnsAt(stmts, i, j, name);
      if k :| DeclaredAt(stmts, i, j, k, name) { assert DeclaredAt(stmts, i + 1, j, k, name); }
      assert OwnsAt(stmts, i + 1, j, name);
    } else if Adds(stmts, i, cur, at, id, name) {
      var j: nat := if stmts[i].form.Open? then i else at;
      assert IsRoutine(stmts, id, j);
      if stmts[i].form.Declare? { assert DeclaredAt(stmts, i + 1, j, i, name); }
      assert OwnsAt(stmts, i + 1, j, name);
    } else if Owns(stmts, i + 1, id, name) {
      var j: nat :| IsRoutine(stmts, id, j) && OwnsAt(stmts, i + 1, j, name);
      if j < i {
        assert !OwnsAt(stmts, i, j, name);
        var k: nat :| DeclaredAt(stmts, i + 1, j, k, name);
        if k < i { assert DeclaredAt(stmts, i, j, k, name); }
      }
    }
  }

  lemma FreshRoutineOwnsNothing(stmts: seq<Stmt>, i: nat, id: nat)
    requires i < |stmts| && id == OpensBefore(stmts, i) + 1
    ensures forall name :: !Owns(stmts, i, id, name)
  {
    forall name | Owns(stmts, i, id, name) ensures false {
      var j: nat :| IsRoutine(stmts, id, j) && OwnsAt(stmts, i, j, name);
      OpensGrow(stmts, j, i);
    }
  }

  method ScopeOf(stmts: seq<Stmt>) returns (ids: seq<nat>, owned: seq<set<string>>)
    ensures |ids| == |stmts| && |owned| == OpensBefore(stmts, |stmts|) + 1
    ensures forall i :: 0 <= i < |stmts| ==> ScopeIs(stmts, i, ids[i]) && ids[i] < |owned|
    ensures owned[0] == {}
    ensures forall id: nat, name :: 0 < id < |owned| ==> (name in owned[id] <==> Owns(stmts, |stmts|, id, name))
  {
    ids, owned := [], [{}];
    var cur: nat := 0;
    ghost var at := -1;
    for i := 0 to |stmts|
      invariant |ids| == i && |owned| == OpensBefore(stmts, i) + 1 && cur < |owned|
      invariant Standing(stmts, i, cur, at)
      invariant forall k :: 0 <= k < i ==> ScopeIs(stmts, k, ids[k]) && ids[k] < |owned|
      invariant owned[0] == {}
      invariant forall id: nat, name :: 0 < id < |owned| ==> (name in owned[id] <==> Owns(stmts, i, id, name))
    {
      ghost var before, cur0, at0 := owned, cur, at;
      match stmts[i].form {
      case Close =>
        ids := ids + [cur];
        cur := 0;
        at := -1;
      case Open(params) =>
        owned := owned + [set n | n in params && !Modifier(n)];
        cur := |owned| - 1;
        at := i;
        ids := ids + [cur];
      case Declare(names) =>
        ids := ids + [cur];
        if cur != 0 {
          owned := owned[cur := owned[cur] + (set n | n in names)];
        }
      case Plain =>
        ids := ids + [cur];
      }
      forall id: nat, name | 0 < id < |owned| ensures name in owned[id] <==> Owns(stmts, i + 1, id, name) {
        OwnsNext(stmts, i, cur0, at0, id, name);
        if id == |before| { FreshRoutineOwnsNothing(stmts, i, id); }
        assert name in owned[id] <==> (id < |before| && name in before[id]) || Adds(stmts, i, cur0, at0, id, name);
      }
    }
  }

  // ---- edges -----------------------------------------------------------------------------------------------------

  /** The key a name stands for in a statement of scope `scope`. */
  function KeyOf(scope: nat, owned: seq<set<string>>, name: string): Key {
    if scope != 0 && scope < |owned| && name in owned[scope] then Key(scope, name) else Key(0, name)
  }

  function EdgeOf(scope: nat, owned: seq<set<string>>, a: Assignment): Edge {
    Edge(KeyOf(scope, owned, a.lhs), set n | n in a.names :: KeyOf(scope, owned, n), a.sourced)
  }

  /** `e` is the edge of an assignment that is not coerced to a number, in one of the first `upTo` statements. */
  ghost predicate Written(stmts: seq<Stmt>, ids: seq<nat>, owned: seq<set<string>>, upTo: nat, e: Edge)
    requires upTo <= |stmts| == |ids|
  {
    exists i, k :: 0 <= i < upTo && 0 <= k < |stmts[i].assigns| && !stmts[i].assigns[k].sanitized
                   && e == EdgeOf(ids[i], owned, stmts[i].assigns[k])
  }

  /** An assignment: its statement, and its place in the statement. */
  type Place = (nat, nat)

  predicate IsPlace(stmts: seq<Stmt>, p: Place) {
    p.0 < |stmts| && p.1 < |stmts[p.0].assigns| && !stmts[p.0].assigns[p.1].sanitized
  }

  function At(stmts: seq<Stmt>, p: Place): Assignment
    requires IsPlace(stmts, p)
  {
    stmts[p.0].assigns[p.1]
  }

  predicate Earlier(p: Place, q: Place) { p.0 < q.0 || (p.0 == q.0 && p.1 < q.1) }

  /** The assignments before `end` that do not coerce, each once, in the order they are written. */
  ghost predicate Listed(stmts: seq<Stmt>, places: seq<Place>, end: Place) {
    && (forall x :: 0 <= x < |places| ==> IsPlace(stmts, places[x]) && Earlier(places[x], end))
    && (forall p :: IsPlace(stmts, p) && Earlier(p, end) ==> p in places)
    && forall x, y :: 0 <= x < y < |places| ==> Earlier(places[x], places[y])
  }

  ghost predicate EdgesAt(stmts: seq<Stmt>, ids: seq<nat>, owned: seq<set<string>>, places: seq<Place>, edges: seq<Edge>)
    requires |ids| == |stmts|
  {
    && |edges| == |places|
    && forall x :: 0 <= x < |places| ==> IsPlace(stmts, places[x]) && edges[x] == EdgeOf(ids[places[x].0], owned, At(stmts, places[x]))
  }

  lemma ListedNext(stmts: seq<Stmt>, places: seq<Place>, i: nat, k: nat)
    requires i < |stmts| && k < |stmts[i].assigns| && Listed(stmts, places, (i, k))
    ensures stmts[i].assigns[k].sanitized ==> Listed(stmts, places, (i, k + 1))
    ensures !stmts[i].assigns[k].sanitized ==> Listed(stmts, places + [(i, k)], (i, k + 1))
  {
    forall p: Place | IsPlace(stmts, p) && Earlier(p, (i, k + 1)) && !Earlier(p, (i, k)) ensures p == (i, k) {}
  }

  lemma ListedThrough(stmts: seq<Stmt>, places: seq<Place>, i: nat)
    requires i < |stmts| && Listed(stmts, places, (i, |stmts[i].assigns|))
    ensures Listed(stmts, places, (i + 1, 0))
  {}

  lemma ListedIsWritten(stmts: seq<Stmt>, ids: seq<nat>, owned: seq<set<string>>, places: seq<Place>, edges: seq<Edge>)
    requires |ids| == |stmts| && Listed(stmts, places, (|stmts|, 0)) && EdgesAt(stmts, ids, owned, places, edges)
    ensures forall e :: e in edges <==> Written(stmts, ids, owned, |stmts|, e)
  {
    forall e | Written(stmts, ids, owned, |stmts|, e) ensures e in edges {
      var i, k :| 0 <= i < |stmts| && 0 <= k < |stmts[i].assigns| && !stmts[i].assigns[k].sanitized
                  && e == EdgeOf(ids[i], owned, stmts[i].assigns[k]);
      var p: Place := (i, k);
      assert IsPlace(stmts, p) && p in places;
      var x :| 0 <= x < |places| && places[x] == p;
      assert edges[x] == e;
    }
    forall e | e in edges ensures Written(stmts, ids, owned, |stmts|, e) {
      var x :| 0 <= x < |edges| && edges[x] == e;
      assert IsPlace(stmts, places[x]);
    }
  }

  /** The edges come in the order of the assignments: the passes depend on it. */
  method Edges(stmts: seq<Stmt>, ids: seq<nat>, owned: seq<set<string>>) returns (edges: seq<Edge>, ghost places: seq<Place>)
    requires |ids| == |stmts|
    ensures Listed(stmts, places, (|stmts|, 0)) && EdgesAt(stmts, ids, owned, places, edges)
    ensures forall e :: e in edges <==> Written(stmts, ids, owned, |stmts|, e)
  {
    hide Listed, EdgeOf;
    edges, places := [], [];
    NothingListed(stmts);
    for i := 0 to |stmts|
      invariant Listed(stmts, places, (i, 0)) && EdgesAt(stmts, ids, owned, places, edges)
    {
      var assigns := stmts[i].assigns;
      for k := 0 to |assigns|
        invariant Listed(stmts, places, (i, k)) && EdgesAt(stmts, ids, owned, places, edges)
      {
        ListedNext(stmts, places, i, k);
        if !assigns[k].sanitized {
          edges := edges + [EdgeOf(ids[i], owned, assigns[k])];
          places := places + [(i, k)];
        }
      }
      ListedThrough(stmts, places, i);
    }
    ListedIsWritten(stmts, ids, owned, places, edges);
  }

  lemma NothingListed(stmts: seq<Stmt>)
    ensures Listed(stmts, [], (0, 0))
  {}

  // ---- what a name refers to -------------------------------------------------------------------------------------

  /** In statement i the name stands for the key: that of its routine when the routine owns it, else that of the
      file body. */
  ghost predicate Refers(stmts: seq<Stmt>, i: nat, name: string, key: Key)
    requires i < |stmts|
  {
    && key.name == name
    && if key.scope != 0 then ScopeIs(stmts, i, key.scope) && Owns(stmts, |stmts|, key.scope, name)
       else forall id: nat :: id != 0 && ScopeIs(stmts, i, id) ==> !Owns(stmts, |stmts|, id, name)
  }

  /** The edge says what the assignment in statement i does: what it writes, what it reads, and whether it reads
      the request. */
  ghost predicate EdgeFor(stmts: seq<Stmt>, i: nat, a: Assignment, e: Edge)
    requires i < |stmts|
  {
    && Refers(stmts, i, a.lhs, e.lhs) && e.sourced == a.sourced
    && forall key :: key in e.names <==> exists n :: n in a.names && Refers(stmts, i, n, key)
  }

  /** The scopes and the names they own, as the statements have them. */
  ghost predicate Scoped(stmts: seq<Stmt>, ids: seq<nat>, owned: seq<set<string>>) {
    && |ids| == |stmts| && owned != [] && owned[0] == {}
    && (forall i :: 0 <= i < |stmts| ==> ScopeIs(stmts, i, ids[i]) && ids[i] < |owned|)
    && forall id: nat, name :: 0 < id < |owned| ==> (name in owned[id] <==> Owns(stmts, |stmts|, id, name))
  }

  lemma KeyIsReferred(stmts: seq<Stmt>, ids: seq<nat>, owned: seq<set<string>>, i: nat, name: string, key: Key)
    requires Scoped(stmts, ids, owned) && i < |stmts|
    ensures KeyOf(ids[i], owned, name) == key <==> Refers(stmts, i, name, key)
  {
    hide ScopeIs, Owns;
    forall id: nat | ScopeIs(stmts, i, id) ensures id == ids[i] { ScopeUnique(stmts, i, id, ids[i]); }
  }

  lemma EdgeIsFor(stmts: seq<Stmt>, ids: seq<nat>, owned: seq<set<string>>, i: nat, a: Assignment)
    requires Scoped(stmts, ids, owned) && i < |stmts|
    ensures EdgeFor(stmts, i, a, EdgeOf(ids[i], owned, a))
  {
    hide Refers, KeyOf, ScopeIs, Owns;
    var e := EdgeOf(ids[i], owned, a);
    KeyIsReferred(stmts, ids, owned, i, a.lhs, e.lhs);
    forall key ensures key in e.names <==> exists n :: n in a.names && Refers(stmts, i, n, key) {
      forall n | n in a.names ensures KeyOf(ids[i], owned, n) == key <==> Refers(stmts, i, n, key) {
        KeyIsReferred(stmts, ids, owned, i, n, key);
      }
    }
  }

  // ---- the fixpoint ------------------------------------------------------------------------------------------------

  predicate Fires(e: Edge, tainted: set<Key>) {
    e.sourced || exists n :: n in e.names && n in tainted
  }

  /** A flow: the first assignment reads the request, each later one reads the name the previous one wrote. */
  ghost predicate Flow(edges: seq<Edge>, flow: seq<Edge>, k: Key) {
    && flow != [] && flow[|flow| - 1].lhs == k
    && (forall e :: e in flow ==> e in edges)
    && flow[0].sourced
    && forall i :: 0 < i < |flow| ==> flow[i - 1].lhs in flow[i].names
  }

  /** The least fixpoint, as the names some flow reaches. */
  ghost predicate Reached(edges: seq<Edge>, k: Key) {
    exists flow :: Flow(edges, flow, k)
  }

  /** A flow written as places in the list: the first assignment reads the request, each later one the name the
      previous one wrote. */
  ghost predicate Route(edges: seq<Edge>, f: seq<nat>, k: Key) {
    && f != [] && (forall i :: 0 <= i < |f| ==> f[i] < |edges|)
    && edges[f[0]].sourced && edges[f[|f| - 1]].lhs == k
    && forall i :: 0 < i < |f| ==> edges[f[i - 1]].lhs in edges[f[i]].names
  }

  /** How often a route goes back to an assignment no later in the file. */
  function Turns(f: seq<nat>): nat {
    if |f| < 2 then 0 else Turns(f[..|f| - 1]) + (if f[|f| - 1] <= f[|f| - 2] then 1 else 0)
  }

  ghost predicate ReachedWithin(edges: seq<Edge>, n: nat, k: Key) {
    exists f :: Route(edges, f, k) && Turns(f) < n
  }

  /** One pass over the edges in order, each seeing what the earlier ones added. */
  function Sweep(edges: seq<Edge>, tainted: set<Key>): set<Key> {
    if edges == [] then tainted
    else Sweep(edges[1..], if Fires(edges[0], tainted) then tainted + {edges[0].lhs} else tainted)
  }

  function Sweeps(edges: seq<Edge>, n: nat): set<Key> {
    if n == 0 then {} else Sweep(edges, Sweeps(edges, n - 1))
  }

  method TaintedKeys(edges: seq<Edge>) returns (tainted: set<Key>)
    ensures tainted == Sweeps(edges, MAX_ROUNDS)
    // Exactly the names some route reaches without going back up the file eight times.
    ensures forall k :: k in tainted <==> ReachedWithin(edges, MAX_ROUNDS, k)
    // Never more than the least fixpoint, every flow of at most eight assignments, and exactly the least
    // fixpoint when some pass within the bound added nothing; fewer than eight names imply that.
    ensures forall k :: k in tainted ==> Reached(edges, k)
    ensures forall flow, k :: Flow(edges, flow, k) && |flow| <= MAX_ROUNDS ==> k in tainted
    ensures |tainted| < MAX_ROUNDS ==> forall k :: Reached(edges, k) <==> k in tainted
  {
    tainted := {};
    var stopped := false;
    for round := 0 to MAX_ROUNDS
      invariant !stopped && tainted == Sweeps(edges, round) && |tainted| >= round
    {
      ghost var start := tainted;
      var grew := false;
      for i := 0 to |edges|
        invariant Sweep(edges[i..], tainted) == Sweep(edges, start)
        invariant start <= tainted && (grew <==> tainted != start)
      {
        assert edges[i..][0] == edges[i] && edges[i..][1..] == edges[i + 1..];
        if Fires(edges[i], tainted) && edges[i].lhs !in tainted {
          tainted := tainted + {edges[i].lhs};
          grew := true;
        } else if Fires(edges[i], tainted) {
          assert tainted + {edges[i].lhs} == tainted;
        }
      }
      assert edges[|edges|..] == [];
      if !grew {
        SettledSweeps(edges, round, MAX_ROUNDS);
        SettledIsExact(edges, round);
        stopped := true;
        break;
      }
      SubsetSmaller(start, tainted);
    }
    SweepsSound(edges, MAX_ROUNDS);
    SweepsAreRoutes(edges, MAX_ROUNDS);
    forall flow, k | Flow(edges, flow, k) && |flow| <= MAX_ROUNDS ensures k in tainted {
      FlowWithin(edges, flow, k);
      SweepsGrow(edges, |flow|, MAX_ROUNDS);
    }
  }

  lemma SubsetSmaller<T>(a: set<T>, b: set<T>)
    requires a < b
    ensures |a| < |b|
  {
    var rest := b - a;
    assert b == a + rest && rest != {};
  }

  lemma {:induction false} SweepGrows(edges: seq<Edge>, t: set<Key>)
    ensures t <= Sweep(edges, t)
    ensures forall e :: e in edges && Fires(e, t) ==> e.lhs in Sweep(edges, t)
  {
    if edges != [] {
      SweepGrows(edges[1..], if Fires(edges[0], t) then t + {edges[0].lhs} else t);
    }
  }

  lemma {:induction false} SweepsGrow(edges: seq<Edge>, m: nat, n: nat)
    requires m <= n
    ensures Sweeps(edges, m) <= Sweeps(edges, n)
  {
    if m < n {
      SweepsGrow(edges, m, n - 1);
      SweepGrows(edges, Sweeps(edges, n - 1));
    }
  }

  lemma {:induction false} SettledSweeps(edges: seq<Edge>, m: nat, n: nat)
    requires m <= n && Sweep(edges, Sweeps(edges, m)) == Sweeps(edges, m)
    ensures Sweeps(edges, n) == Sweeps(edges, m)
  {
    if m < n { SettledSweeps(edges, m, n - 1); }
  }

  lemma Extend(edges: seq<Edge>, flow: seq<Edge>, k: Key, e: Edge)
    requires Flow(edges, flow, k) && e in edges && k in e.names
    ensures Flow(edges, flow + [e], e.lhs)
  {
  }

  lemma {:induction false} SweepSound(all: seq<Edge>, edges: seq<Edge>, t: set<Key>)
    requires forall e :: e in edges ==> e in all
    requires forall k :: k in t ==> Reached(all, k)
    ensures forall k :: k in Sweep(edges, t) ==> Reached(all, k)
  {
    if edges != [] {
      var e := edges[0];
      if Fires(e, t) {
        if e.sourced {
          assert Flow(all, [e], e.lhs);
        } else {
          var n :| n in e.names && n in t;
          var flow :| Flow(all, flow, n);
          Extend(all, flow, n, e);
        }
      }
      SweepSound(all, edges[1..], if Fires(e, t) then t + {e.lhs} else t);
    }
  }

  lemma {:induction false} SweepsSound(edges: seq<Edge>, n: nat)
    ensures forall k :: k in Sweeps(edges, n) ==> Reached(edges, k)
  {
    if n > 0 {
      SweepsSound(edges, n - 1);
      SweepSound(edges, edges, Sweeps(edges, n - 1));
    }
  }

  lemma {:induction false} FlowWithin(edges: seq<Edge>, flow: seq<Edge>, k: Key)
    requires Flow(edges, flow, k)
    ensures k in Sweeps(edges, |flow|)
  {
    var last := flow[|flow| - 1];
    if |flow| > 1 {
      var shorter := flow[..|flow| - 1];
      FlowWithin(edges, shorter, shorter[|shorter| - 1].lhs);
    }
    SweepGrows(edges, Sweeps(edges, |flow| - 1));
    assert Fires(last, Sweeps(edges, |flow| - 1));
  }

  /** A pass that adds nothing has reached the least fixpoint. */
  lemma SettledIsExact(edges: seq<Edge>, m: nat)
    requires Sweep(edges, Sweeps(edges, m)) == Sweeps(edges, m)
    ensures forall k :: Reached(edges, k) <==> k in Sweeps(edges, m)
  {
    SweepsSound(edges, m);
    forall k | Reached(edges, k) ensures k in Sweeps(edges, m) {
      var flow :| Flow(edges, flow, k);
      FlowWithin(edges, flow, k);
      if |flow| <= m { SweepsGrow(edges, |flow|, m); } else { SettledSweeps(edges, m, |flow|); }
    }
  }

  // ---- which flows n rounds find -------------------------------------------------------------------------------------

  /** Some route reaches `k` that n complete passes and one over the first `p` edges can follow. */
  ghost predicate Found(edges: seq<Edge>, n: nat, p: nat, k: Key) {
    exists f :: Route(edges, f, k) && (Turns(f) < n || (Turns(f) == n && f[|f| - 1] < p))
  }

  lemma {:induction false} SweepSnoc(edges: seq<Edge>, e: Edge, t: set<Key>)
    ensures var s := Sweep(edges, t); Sweep(edges + [e], t) == if Fires(e, s) then s + {e.lhs} else s
  {
    if edges == [] {
      assert edges + [e] == [e] && [e][1..] == [];
    } else {
      assert (edges + [e])[1..] == edges[1..] + [e];
      SweepSnoc(edges[1..], e, if Fires(edges[0], t) then t + {edges[0].lhs} else t);
    }
  }

  /** The n-th pass up to its p-th edge has found exactly the names such a route reaches. */
  lemma {:induction false} SweepIsRoutes(edges: seq<Edge>, n: nat, p: nat, k: Key)
    requires p <= |edges|
    ensures k in Sweep(edges[..p], Sweeps(edges, n)) <==> Found(edges, n, p, k)
    decreases n, p
  {
    hide Sweep, Found, Fires;
    if p == 0 {
      NoPass(edges, Sweeps(edges, n));
      if n > 0 {
        SweepIsRoutes(edges, n - 1, |edges|, k);
        assert edges[..|edges|] == edges;
      }
      FoundBetween(edges, n, k);
    } else {
      var e, s := edges[p - 1], Sweep(edges[..p - 1], Sweeps(edges, n));
      SweepIsRoutes(edges, n, p - 1, k);
      assert edges[..p] == edges[..p - 1] + [e];
      SweepSnoc(edges[..p - 1], e, Sweeps(edges, n));
      forall m ensures m in s <==> Found(edges, n, p - 1, m) { SweepIsRoutes(edges, n, p - 1, m); }
      FoundNext(edges, n, p, s, k);
    }
  }

  lemma NoPass(edges: seq<Edge>, t: set<Key>)
    ensures Sweep(edges[..0], t) == t
  {}

  lemma FoundBetween(edges: seq<Edge>, n: nat, k: Key)
    ensures !Found(edges, 0, 0, k)
    ensures n > 0 ==> (Found(edges, n, 0, k) <==> Found(edges, n - 1, |edges|, k))
    ensures Found(edges, n, 0, k) <==> ReachedWithin(edges, n, k)
  {
    if n > 0 && Found(edges, n - 1, |edges|, k) {
      var f: seq<nat> :| Route(edges, f, k) && (Turns(f) < n - 1 || (Turns(f) == n - 1 && f[|f| - 1] < |edges|));
      assert Turns(f) < n;
    }
    if n > 0 && Found(edges, n, 0, k) {
      var f: seq<nat> :| Route(edges, f, k) && Turns(f) < n;
      assert f[|f| - 1] < |edges|;
    }
  }

  /** One more edge adds its left-hand side exactly when it fires on what was found before it. */
  lemma FoundNext(edges: seq<Edge>, n: nat, p: nat, s: set<Key>, k: Key)
    requires 0 < p <= |edges| && forall m :: m in s <==> Found(edges, n, p - 1, m)
    ensures Found(edges, n, p, k) <==> Found(edges, n, p - 1, k) || (k == edges[p - 1].lhs && Fires(edges[p - 1], s))
  {
    var e := edges[p - 1];
    if Found(edges, n, p, k) && !Found(edges, n, p - 1, k) {
      var f :| Route(edges, f, k) && (Turns(f) < n || (Turns(f) == n && f[|f| - 1] < p));
      if |f| > 1 { Shorten(edges, n, p, f); }
    }
    if k == e.lhs && Fires(e, s) {
      if e.sourced {
        assert Route(edges, [p - 1], k);
      } else {
        var m :| m in e.names && m in s;
        Lengthen(edges, n, p, m);
      }
    }
  }

  /** What the last edge of a route reads was found before it. */
  lemma Shorten(edges: seq<Edge>, n: nat, p: nat, f: seq<nat>)
    requires 0 < p <= |edges| && |f| > 1 && Route(edges, f, edges[p - 1].lhs) && Turns(f) == n && f[|f| - 1] == p - 1
    ensures edges[f[|f| - 2]].lhs in edges[p - 1].names && Found(edges, n, p - 1, edges[f[|f| - 2]].lhs)
  {
    var g := f[..|f| - 1];
    assert Route(edges, g, edges[f[|f| - 2]].lhs);
  }

  lemma Lengthen(edges: seq<Edge>, n: nat, p: nat, m: Key)
    requires 0 < p <= |edges| && m in edges[p - 1].names && Found(edges, n, p - 1, m)
    ensures Found(edges, n, p, edges[p - 1].lhs)
  {
    var f: seq<nat> :| Route(edges, f, m) && (Turns(f) < n || (Turns(f) == n && f[|f| - 1] < p - 1));
    var g: seq<nat> := f + [p - 1];
    assert g[..|f|] == f;
    assert Route(edges, g, edges[p - 1].lhs);
  }

  /** n rounds find exactly the names reached by a route that goes back up the file fewer than n times. */
  lemma SweepsAreRoutes(edges: seq<Edge>, n: nat)
    ensures forall k :: k in Sweeps(edges, n) <==> ReachedWithin(edges, n, k)
  {
    forall k ensures k in Sweeps(edges, n) <==> ReachedWithin(edges, n, k) {
      SweepIsRoutes(edges, n, 0, k);
      NoPass(edges, Sweeps(edges, n));
      FoundBetween(edges, n, k);
    }
  }

  // ---- the bound is real ---------------------------------------------------------------------------------------------

  function Var(i: nat): Key { Key(0, seq(i, _ => 'x')) }

  /** Assignments x1=x0, x2=x1, ... written last to first, with the request read into x0 at the very end. */
  function Backwards(n: nat): seq<Edge> {
    if n == 0 then [] else [Edge(Var(n - 1), if n == 1 then {} else {Var(n - 2)}, n == 1)] + Backwards(n - 1)
  }

  ghost predicate FirstVars(t: set<Key>, r: nat) {
    forall i: nat :: Var(i) in t <==> i < r
  }

  lemma VarInjective(i: nat, j: nat)
    requires Var(i) == Var(j)
    ensures i == j
  {
    assert |Var(i).name| == i && |Var(j).name| == j;
  }

  lemma {:induction false} SweepBackwards(n: nat, r: nat, t: set<Key>)
    requires FirstVars(t, r)
    ensures FirstVars(Sweep(Backwards(n), t), if r < n then r + 1 else r)
  {
    if n > 0 {
      forall i: nat, j: nat | Var(i) == Var(j) ensures i == j { VarInjective(i, j); }
      var e := Backwards(n)[0];
      assert Backwards(n)[1..] == Backwards(n - 1);
      assert Fires(e, t) <==> n == 1 || n - 2 < r by {
        assert n >= 2 ==> (Var(n - 2) in t <==> n - 2 < r);
        assert n >= 2 ==> Var(n - 2) in e.names;
      }
      var next := if Fires(e, t) then t + {e.lhs} else t;
      SweepBackwards(n - 1, if r == n - 1 then r + 1 else r, next);
    }
  }

  lemma {:induction false} SweepsBackwards(n: nat, m: nat)
    requires m <= n
    ensures FirstVars(Sweeps(Backwards(n), m), m)
  {
    if m > 0 {
      SweepsBackwards(n, m - 1);
      SweepBackwards(n, m - 1, Sweeps(Backwards(n), m - 1));
    }
  }

  /** Nine assignments written backwards: the request reaches x8, and the eight passes do not see it. */
  lemma NinthHopIsMissed()
    ensures Reached(Backwards(9), Var(8)) && Var(8) !in Sweeps(Backwards(9), MAX_ROUNDS)
  {
    SweepsBackwards(9, 8);
    SweepsBackwards(9, 9);
    SweepsSound(Backwards(9), 9);
  }

  // ---- the whole pass ------------------------------------------------------------------------------------------------

  /** An assignment that reads the request, or a name in the set, writes a name in the set. */
  ghost predicate Carries(stmts: seq<Stmt>, tainted: set<Key>, p: Place)
    requires IsPlace(stmts, p)
  {
    var a := At(stmts, p);
    forall lhs :: Refers(stmts, p.0, a.lhs, lhs) && (a.sourced || ReadsOne(stmts, tainted, p)) ==> lhs in tainted
  }

  ghost predicate ReadsOne(stmts: seq<Stmt>, tainted: set<Key>, p: Place)
    requires IsPlace(stmts, p)
  {
    exists n, key :: n in At(stmts, p).names && key in tainted && Refers(stmts, p.0, n, key)
  }

  lemma {:induction false} SettledCarries(stmts: seq<Stmt>, places: seq<Place>, edges: seq<Edge>, tainted: set<Key>, x: nat)
    requires |edges| == |places| && x < |edges| && IsPlace(stmts, places[x]) && EdgeFor(stmts, places[x].0, At(stmts, places[x]), edges[x])
    requires forall e :: e in edges && Fires(e, tainted) ==> e.lhs in tainted
    ensures Carries(stmts, tainted, places[x])
  {
    hide Refers;
    var p, e := places[x], edges[x];
    var a := At(stmts, p);
    assert e in edges;
    forall lhs | Refers(stmts, p.0, a.lhs, lhs) && (a.sourced || ReadsOne(stmts, tainted, p)) ensures lhs in tainted {
      if !a.sourced {
        var n, key :| n in a.names && key in tainted && Refers(stmts, p.0, n, key);
        assert key in e.names;
      }
      RefersUnique(stmts, p.0, a.lhs, lhs, e.lhs);
    }
  }

  /** A name stands for one key. */
  lemma RefersUnique(stmts: seq<Stmt>, i: nat, name: string, a: Key, b: Key)
    requires i < |stmts| && Refers(stmts, i, name, a) && Refers(stmts, i, name, b)
    ensures a == b
  {
    hide Owns, ScopeIs;
    if a.scope != 0 && b.scope != 0 { ScopeUnique(stmts, i, a.scope, b.scope); }
  }

  method TaintedNames(stmts: seq<Stmt>)
    returns (tainted: set<Key>, ids: seq<nat>, owned: seq<set<string>>, ghost edges: seq<Edge>, ghost places: seq<Place>)
    ensures Scoped(stmts, ids, owned) && |owned| == OpensBefore(stmts, |stmts|) + 1
    // The edges are the assignments that do not coerce, in order, each with the keys its names stand for where it
    // is written.
    ensures Listed(stmts, places, (|stmts|, 0)) && |edges| == |places|
    ensures forall x :: 0 <= x < |edges| ==> EdgeFor(stmts, places[x].0, At(stmts, places[x]), edges[x])
    ensures forall e :: e in edges <==> Written(stmts, ids, owned, |stmts|, e)
    // Tainted is exactly what a route through them reaches that goes back fewer than eight times.
    ensures tainted == Sweeps(edges, MAX_ROUNDS) && forall k :: k in tainted <==> ReachedWithin(edges, 8, k)
    // Whoever reads the request is tainted; and a result of fewer than eight names, or one that another pass would
    // not change, is closed: an assignment that reads a tainted name taints its own left-hand side.
    ensures forall p :: IsPlace(stmts, p) && At(stmts, p).sourced ==> Carries(stmts, tainted, p)
    ensures |tainted| < 8 || Sweep(edges, tainted) == tainted ==> forall p :: IsPlace(stmts, p) ==> Carries(stmts, tainted, p)
    // A name owned by a routine is tainted only by an assignment inside that routine.
    ensures forall k :: k in tainted ==> exists p :: IsPlace(stmts, p) && Refers(stmts, p.0, At(stmts, p).lhs, k)
    ensures forall k :: k in tainted && k.scope != 0 ==> AssignedInside(stmts, k)
    ensures forall k :: k in tainted && k.scope != 0 ==> Owns(stmts, |stmts|, k.scope, k.name)
  {
    ids, owned := ScopeOf(stmts);
    var found;
    found, places := Edges(stmts, ids, owned);
    edges := found;
    tainted := TaintedKeys(found);
    AllFor(stmts, ids, owned, places, edges);
    SourcedCarry(stmts, places, edges, tainted);
    if |tainted| < 8 || Sweep(edges, tainted) == tainted { AllCarry(stmts, places, edges, tainted); }
    AllAssigned(stmts, places, edges, tainted);
  }

  lemma AllFor(stmts: seq<Stmt>, ids: seq<nat>, owned: seq<set<string>>, places: seq<Place>, edges: seq<Edge>)
    requires Scoped(stmts, ids, owned) && EdgesAt(stmts, ids, owned, places, edges)
    ensures forall x :: 0 <= x < |edges| ==> IsPlace(stmts, places[x]) && EdgeFor(stmts, places[x].0, At(stmts, places[x]), edges[x])
  {
    hide Scoped, EdgeOf, EdgeFor;
    forall x | 0 <= x < |edges| ensures IsPlace(stmts, places[x]) && EdgeFor(stmts, places[x].0, At(stmts, places[x]), edges[x]) {
      assert IsPlace(stmts, places[x]);
      EdgeIsFor(stmts, ids, owned, places[x].0, At(stmts, places[x]));
    }
  }

  ghost predicate AllEdges(stmts: seq<Stmt>, places: seq<Place>, edges: seq<Edge>) {
    && Listed(stmts, places, (|stmts|, 0)) && |edges| == |places|
    && forall x :: 0 <= x < |edges| ==> IsPlace(stmts, places[x]) && EdgeFor(stmts, places[x].0, At(stmts, places[x]), edges[x])
  }

  lemma PlaceOf(stmts: seq<Stmt>, places: seq<Place>, edges: seq<Edge>, p: Place) returns (x: nat)
    requires AllEdges(stmts, places, edges) && IsPlace(stmts, p)
    ensures x < |places| && places[x] == p && EdgeFor(stmts, p.0, At(stmts, p), edges[x])
  {
    assert p in places;
    x :| 0 <= x < |places| && places[x] == p;
  }

  lemma SourcedCarry(stmts: seq<Stmt>, places: seq<Place>, edges: seq<Edge>, tainted: set<Key>)
    requires AllEdges(stmts, places, edges) && forall flow, k :: Flow(edges, flow, k) && |flow| <= 8 ==> k in tainted
    ensures forall p :: IsPlace(stmts, p) && At(stmts, p).sourced ==> Carries(stmts, tainted, p)
  {
    hide AllEdges;
    forall p | IsPlace(stmts, p) && At(stmts, p).sourced ensures Carries(stmts, tainted, p) {
      var x := PlaceOf(stmts, places, edges, p);
      assert AllEdges(stmts, places, edges);
      SameLength(stmts, places, edges);
      assert Flow(edges, [edges[x]], edges[x].lhs);
      forall lhs | Refers(stmts, p.0, At(stmts, p).lhs, lhs) ensures lhs in tainted {
        RefersUnique(stmts, p.0, At(stmts, p).lhs, lhs, edges[x].lhs);
      }
    }
  }

  lemma SameLength(stmts: seq<Stmt>, places: seq<Place>, edges: seq<Edge>)
    requires AllEdges(stmts, places, edges)
    ensures |edges| == |places|
  {}

  lemma AllCarry(stmts: seq<Stmt>, places: seq<Place>, edges: seq<Edge>, tainted: set<Key>)
    requires AllEdges(stmts, places, edges)
    requires (forall k :: Reached(edges, k) <==> k in tainted) || Sweep(edges, tainted) == tainted
    ensures forall p :: IsPlace(stmts, p) ==> Carries(stmts, tainted, p)
  {
    hide EdgeFor, Listed, Carries;
    forall e | e in edges && Fires(e, tainted) ensures e.lhs in tainted {
      if Sweep(edges, tainted) == tainted { SweepGrows(edges, tainted); } else { ReachedOn(edges, tainted, e); }
    }
    forall p | IsPlace(stmts, p) ensures Carries(stmts, tainted, p) {
      var x := PlaceOf(stmts, places, edges, p);
      SettledCarries(stmts, places, edges, tainted, x);
    }
  }

  lemma ReachedOn(edges: seq<Edge>, tainted: set<Key>, e: Edge)
    requires e in edges && Fires(e, tainted) && forall k :: Reached(edges, k) <==> k in tainted
    ensures e.lhs in tainted
  {
    if e.sourced {
      assert Flow(edges, [e], e.lhs);
    } else {
      var n :| n in e.names && n in tainted;
      var flow :| Flow(edges, flow, n);
      Extend(edges, flow, n, e);
    }
  }

  lemma AllAssigned(stmts: seq<Stmt>, places: seq<Place>, edges: seq<Edge>, tainted: set<Key>)
    requires AllEdges(stmts, places, edges) && forall k :: k in tainted ==> Reached(edges, k)
    ensures forall k :: k in tainted ==> exists p :: IsPlace(stmts, p) && Refers(stmts, p.0, At(stmts, p).lhs, k)
    ensures forall k :: k in tainted && k.scope != 0 ==> AssignedInside(stmts, k) && Owns(stmts, |stmts|, k.scope, k.name)
  {
    hide Owns, ScopeIs;
    forall k | k in tainted
      ensures exists p :: IsPlace(stmts, p) && Refers(stmts, p.0, At(stmts, p).lhs, k)
      ensures k.scope != 0 ==> AssignedInside(stmts, k) && Owns(stmts, |stmts|, k.scope, k.name)
    {
      var flow :| Flow(edges, flow, k);
      var e := flow[|flow| - 1];
      assert e in edges;
      var x :| 0 <= x < |edges| && edges[x] == e;
      var p := places[x];
      assert IsPlace(stmts, p) && Refers(stmts, p.0, At(stmts, p).lhs, k);
    }
  }

  ghost predicate AssignedInside(stmts: seq<Stmt>, k: Key) {
    exists i, j :: 0 <= i < |stmts| && 0 <= j < |stmts[i].assigns| && !stmts[i].assigns[j].sanitized
                   && stmts[i].assigns[j].lhs == k.name && ScopeIs(stmts, i, k.scope)
  }
}
