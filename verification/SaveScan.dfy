/** Concurrent imports of scans (console/internal/store/pg.go). */
module SaveScan {
  // Concurrent imports of scans (`SaveScan` and `scanIDForRun`, console/internal/store/pg.go) as interleaved
  // steps over an abstract PostgreSQL.
  //
  // Assumed of the database: statements see only committed rows; `scans.run_id` is unique; an INSERT with ON
  // CONFLICT DO NOTHING waits for an uncommitted row of the same key and then sees whether it was committed; a
  // commit publishes all rows of its transaction at once; a rolled-back transaction leaves nothing but a gap in
  // the id sequence. Any step may fail instead of succeeding, and a commit may take effect and still be reported
  // to the caller as a failure.

  type ScanId = nat
  type CallId = nat

  /** The data of one import: its key and the rows that belong to it. */
  datatype Record = Record(run: string, coverage: seq<string>, findings: seq<string>)

  datatype Scan = Scan(id: ScanId, run: string)

  /** A child table: rows tagged with the scan they belong to, in insertion order. */
  type Table = seq<(ScanId, string)>

  datatype Outcome = Returned(id: ScanId, created: bool) | Failed | ConflictedButMissing

  datatype Phase =
    | Looking                                                             // before the first lookup
    | Inserting                                                           // transaction open, nothing written
    | Filling(id: ScanId, coverage: seq<string>, findings: seq<string>)   // uncommitted rows so far
    | Rereading                                                           // lost the race, rolled back
    | Done(outcome: Outcome)

  datatype Call = Call(rec: Record, phase: Phase)

  datatype State = State(
    scans: set<Scan>, coverage: Table, findings: Table, // committed
    nextId: ScanId,
    calls: map<CallId, Call>)

  function RowsFor(t: Table, id: ScanId): seq<string> {
    if t == [] then []
    else RowsFor(t[..|t| - 1], id) + (if t[|t| - 1].0 == id then [t[|t| - 1].1] else [])
  }

  function Tagged(id: ScanId, rows: seq<string>): Table {
    seq(|rows|, i requires 0 <= i < |rows| => (id, rows[i]))
  }

  // ---- steps ------------------------------------------------------------------------------------------------

  ghost predicate Present(s: State, run: string) {
    exists scan :: scan in s.scans && scan.run == run
  }

  /** Another call holds an uncommitted row with this key. */
  ghost predicate Claimed(s: State, c: CallId, run: string) {
    exists d :: d in s.calls && d != c && s.calls[d].phase.Filling? && s.calls[d].rec.run == run
  }

  ghost predicate Moves(s: State, s': State, c: CallId, phase: Phase) {
    && c in s.calls
    && s'.calls == s.calls[c := s.calls[c].(phase := phase)]
  }

  ghost predicate SameTables(s: State, s': State) {
    s'.scans == s.scans && s'.coverage == s.coverage && s'.findings == s.findings
  }

  ghost predicate Starts(s: State, s': State, c: CallId, rec: Record) {
    c !in s.calls && s' == s.(calls := s.calls[c := Call(rec, Looking)])
  }

  ghost predicate LooksUp(s: State, s': State, c: CallId) {
    && c in s.calls && s.calls[c].phase.Looking? && SameTables(s, s') && s'.nextId == s.nextId
    && if Present(s, s.calls[c].rec.run)
       then exists scan :: scan in s.scans && scan.run == s.calls[c].rec.run && Moves(s, s', c, Done(Returned(scan.id, false)))
       else Moves(s, s', c, Inserting)
  }

  ghost predicate Inserts(s: State, s': State, c: CallId) {
    && c in s.calls && s.calls[c].phase.Inserting? && SameTables(s, s')
    && !Claimed(s, c, s.calls[c].rec.run)
    && if Present(s, s.calls[c].rec.run)
       then Moves(s, s', c, Rereading) && s'.nextId >= s.nextId
       else Moves(s, s', c, Filling(s.nextId, [], [])) && s'.nextId > s.nextId
  }

  ghost predicate Fills(s: State, s': State, c: CallId) {
    && c in s.calls && s.calls[c].phase.Filling? && SameTables(s, s') && s'.nextId == s.nextId
    && var Call(rec, Filling(id, cov, fin)) := s.calls[c];
       if |cov| < |rec.coverage| then Moves(s, s', c, Filling(id, cov + [rec.coverage[|cov|]], fin))
       else |fin| < |rec.findings| && Moves(s, s', c, Filling(id, cov, fin + [rec.findings[|fin|]]))
  }

  ghost predicate Commits(s: State, s': State, c: CallId) {
    && c in s.calls && s.calls[c].phase.Filling? && s'.nextId == s.nextId
    && var Call(rec, Filling(id, cov, fin)) := s.calls[c];
       && |cov| >= |rec.coverage| && |fin| >= |rec.findings|
       && s'.scans == s.scans + {Scan(id, rec.run)}
       && s'.coverage == s.coverage + Tagged(id, cov)
       && s'.findings == s.findings + Tagged(id, fin)
       && (Moves(s, s', c, Done(Returned(id, true))) || Moves(s, s', c, Done(Failed)))
  }

  ghost predicate Rereads(s: State, s': State, c: CallId) {
    && c in s.calls && s.calls[c].phase.Rereading? && SameTables(s, s') && s'.nextId == s.nextId
    && if Present(s, s.calls[c].rec.run)
       then exists scan :: scan in s.scans && scan.run == s.calls[c].rec.run && Moves(s, s', c, Done(Returned(scan.id, false)))
       else Moves(s, s', c, Done(ConflictedButMissing))
  }

  ghost predicate Aborts(s: State, s': State, c: CallId) {
    && c in s.calls && !s.calls[c].phase.Done? && SameTables(s, s') && s'.nextId == s.nextId
    && Moves(s, s', c, Done(Failed))
  }

  ghost predicate Step(s: State, s': State, c: CallId) {
    || (exists rec :: Starts(s, s', c, rec))
    || LooksUp(s, s', c) || Inserts(s, s', c) || Fills(s, s', c) || Commits(s, s', c)
    || Rereads(s, s', c) || Aborts(s, s', c)
  }

  ghost predicate Next(s: State, s': State) {
    exists c :: Step(s, s', c)
  }

  ghost predicate Init(s: State) {
    s.scans == {} && s.coverage == [] && s.findings == [] && s.calls == map[]
  }

  /** `run` is any finite interleaving of any number of calls. */
  ghost predicate Behaviour(run: seq<State>) {
    && run != [] && Init(run[0])
    && forall i :: 0 < i < |run| ==> Next(run[i - 1], run[i])
  }

  // ---- the invariant -----------------------------------------------------------------------------------------

  /** Call `c` was handed the id by the sequence and has not given it up. */
  predicate Holds(s: State, c: CallId, id: ScanId) {
    c in s.calls && match s.calls[c].phase
      case Filling(i, _, _) => i == id
      case Done(Returned(i, true)) => i == id
      case _ => false
  }

  /** The committed row and all its children are those of one import. */
  ghost predicate Complete(s: State, scan: Scan) {
    exists c :: c in s.calls && WrittenBy(s, scan, c)
  }

  ghost predicate WrittenBy(s: State, scan: Scan, c: CallId)
    requires c in s.calls
  {
    && s.calls[c].phase.Done?
    && s.calls[c].rec == Record(scan.run, RowsFor(s.coverage, scan.id), RowsFor(s.findings, scan.id))
  }

  ghost predicate OneScanPerRun(s: State) {
    forall a, b :: a in s.scans && b in s.scans && (a.run == b.run || a.id == b.id) ==> a == b
  }

  ghost predicate CallInv(s: State, c: CallId)
    requires c in s.calls
  {
    match s.calls[c].phase
    case Filling(id, cov, fin) =>
      && id < s.nextId
      && cov <= s.calls[c].rec.coverage && fin <= s.calls[c].rec.findings
      && !Present(s, s.calls[c].rec.run)
      && !Known(s.scans, id)
    case Rereading => Present(s, s.calls[c].rec.run)
    case Done(Returned(id, _)) => Scan(id, s.calls[c].rec.run) in s.scans
    case Done(ConflictedButMissing) => false
    case _ => true
  }

  predicate Known(scans: set<Scan>, id: ScanId) {
    exists scan :: scan in scans && scan.id == id
  }

  /** Child rows belong to committed scans only. */
  ghost predicate NoOrphans(scans: set<Scan>, t: Table) {
    forall k :: 0 <= k < |t| ==> Known(scans, t[k].0)
  }

  ghost predicate AllComplete(s: State) {
    forall scan :: scan in s.scans ==> scan.id < s.nextId && Complete(s, scan)
  }

  ghost predicate AllCalls(s: State) {
    forall c :: c in s.calls ==> CallInv(s, c)
  }

  /** An id, and an uncommitted claim on a run id, belong to one call at a time. */
  ghost predicate Exclusive(s: State) {
    && (forall c, d, id: ScanId :: Holds(s, c, id) && Holds(s, d, id) ==> c == d)
    && (forall c, d :: BothFilling(s, c, d) && s.calls[c].rec.run == s.calls[d].rec.run ==> c == d)
  }

  predicate BothFilling(s: State, c: CallId, d: CallId) {
    c in s.calls && d in s.calls && s.calls[c].phase.Filling? && s.calls[d].phase.Filling?
  }

  ghost predicate Inv(s: State) {
    && OneScanPerRun(s)
    && AllComplete(s)
    && NoOrphans(s.scans, s.coverage) && NoOrphans(s.scans, s.findings)
    && AllCalls(s)
    && Exclusive(s)
  }

  // ---- table lemmas --------------------------------------------------------------------------------------------

  lemma {:induction false} RowsForConcat(a: Table, b: Table, id: ScanId)
    ensures RowsFor(a + b, id) == RowsFor(a, id) + RowsFor(b, id)
  {
    if b == [] {
      assert a + b == a;
    } else {
      assert (a + b)[..|a + b| - 1] == a + b[..|b| - 1];
      RowsForConcat(a, b[..|b| - 1], id);
    }
  }

  lemma {:induction false} RowsForTagged(id: ScanId, rows: seq<string>, other: ScanId)
    ensures RowsFor(Tagged(id, rows), other) == if other == id then rows else []
  {
    if rows != [] {
      var init, last := rows[..|rows| - 1], rows[|rows| - 1];
      TaggedNext(id, init, last);
      RowsForTagged(id, init, other);
      assert init + [last] == rows;
    }
  }

  lemma TaggedNext(id: ScanId, rows: seq<string>, row: string)
    ensures Tagged(id, rows + [row])[..|rows|] == Tagged(id, rows) && Tagged(id, rows + [row])[|rows|] == (id, row)
  {}

  lemma {:induction false} RowsForAbsent(t: Table, id: ScanId)
    requires forall k :: 0 <= k < |t| ==> t[k].0 != id
    ensures RowsFor(t, id) == []
  {
    if t != [] { RowsForAbsent(t[..|t| - 1], id); }
  }

  // ---- preservation --------------------------------------------------------------------------------------------

  lemma InvInit(s: State)
    requires Init(s)
    ensures Inv(s)
  {
  }

  /** A committed scan stays complete as long as its rows and its writer stay what they are. */
  lemma CompleteKept(s: State, s': State, scan: Scan)
    requires Complete(s, scan)
    requires forall c :: c in s.calls && s.calls[c].phase.Done? ==> c in s'.calls && s'.calls[c] == s.calls[c]
    requires RowsFor(s'.coverage, scan.id) == RowsFor(s.coverage, scan.id)
    requires RowsFor(s'.findings, scan.id) == RowsFor(s.findings, scan.id)
    ensures Complete(s', scan)
  {
    var w :| w in s.calls && WrittenBy(s, scan, w);
    assert WrittenBy(s', scan, w);
  }

  lemma CallsKept(s: State, s': State, c: CallId, phase: Phase)
    requires AllCalls(s) && SameTables(s, s') && Moves(s, s', c, phase) && s'.nextId >= s.nextId
    requires CallInv(s', c)
    ensures AllCalls(s')
  {
    forall d | d in s'.calls ensures CallInv(s', d) {
      if d != c { assert CallInv(s, d); }
    }
  }

  lemma HeldIdIsOld(s: State, c: CallId, id: ScanId)
    requires AllComplete(s) && AllCalls(s) && Holds(s, c, id)
    ensures id < s.nextId
  {
    assert CallInv(s, c);
  }

  lemma ExclusiveKept(s: State, s': State, c: CallId, phase: Phase)
    requires AllComplete(s) && AllCalls(s) && Exclusive(s) && Moves(s, s', c, phase)
    requires phase.Filling? && !s.calls[c].phase.Filling? ==> phase.id == s.nextId && !Claimed(s, c, s.calls[c].rec.run)
    requires phase.Filling? && s.calls[c].phase.Filling? ==> phase.id == s.calls[c].phase.id
    requires phase.Done? && phase.outcome.Returned? && phase.outcome.created ==> Holds(s, c, phase.outcome.id)
    ensures Exclusive(s')
  {
    forall d, e, id: ScanId | Holds(s', d, id) && Holds(s', e, id) ensures d == e {
      assert forall x :: Holds(s', x, id) ==> Holds(s, x, id) || (x == c && id == s.nextId);
      if Holds(s, d, id) { HeldIdIsOld(s, d, id); }
      if Holds(s, e, id) { HeldIdIsOld(s, e, id); }
    }
    forall d, e | BothFilling(s', d, e) && s'.calls[d].rec.run == s'.calls[e].rec.run ensures d == e {
      if d != c && e != c { assert BothFilling(s, d, e); }
    }
  }

  lemma InvMoves(s: State, s': State, c: CallId, phase: Phase)
    requires Inv(s) && SameTables(s, s') && Moves(s, s', c, phase) && s'.nextId >= s.nextId
    requires !s.calls[c].phase.Done?
    requires CallInv(s', c)
    requires phase.Filling? && !s.calls[c].phase.Filling? ==> phase.id == s.nextId && !Claimed(s, c, s.calls[c].rec.run)
    requires phase.Filling? && s.calls[c].phase.Filling? ==> phase.id == s.calls[c].phase.id
    requires !(phase.Done? && phase.outcome.Returned? && phase.outcome.created)
    ensures Inv(s')
  {
    forall scan | scan in s'.scans ensures Complete(s', scan) { CompleteKept(s, s', scan); }
    CallsKept(s, s', c, phase);
    ExclusiveKept(s, s', c, phase);
  }

  lemma InvCommit(s: State, s': State, c: CallId)
    requires Inv(s) && Commits(s, s', c)
    ensures Inv(s')
  {
    var Call(rec, Filling(id, cov, fin)) := s.calls[c];
    var mine := Scan(id, rec.run);
    assert CallInv(s, c);
    assert cov == rec.coverage && fin == rec.findings;
    assert OneScanPerRun(s') by {
      forall a | a in s.scans ensures a.id != id && a.run != rec.run {}
    }
    RowsAfterCommit(s.scans, s.coverage, id, cov);
    RowsAfterCommit(s.scans, s.findings, id, fin);
    forall scan | scan in s'.scans ensures scan.id < s'.nextId && Complete(s', scan) {
      if scan in s.scans { CompleteKept(s, s', scan); } else { assert WrittenBy(s', scan, c); }
    }
    NoOrphansKept(s.scans, s.coverage, mine, cov);
    NoOrphansKept(s.scans, s.findings, mine, fin);
    CallsAfterCommit(s, s', c);
    ExclusiveKept(s, s', c, s'.calls[c].phase);
  }

  lemma CallsAfterCommit(s: State, s': State, c: CallId)
    requires AllCalls(s) && Exclusive(s) && Commits(s, s', c)
    ensures AllCalls(s')
  {
    var Call(rec, Filling(id, cov, fin)) := s.calls[c];
    forall d | d in s'.calls ensures CallInv(s', d) {
      assert CallInv(s, d);
      if d != c && s.calls[d].phase.Filling? {
        assert Holds(s, c, id) && !Holds(s, d, id) && BothFilling(s, c, d);
        assert s.calls[d].phase.id != id;
      }
      if s.calls[d].phase.Rereading? {
        var scan :| scan in s.scans && scan.run == s.calls[d].rec.run;
        assert scan in s'.scans;
      }
    }
  }

  lemma NoOrphansKept(scans: set<Scan>, t: Table, mine: Scan, rows: seq<string>)
    requires NoOrphans(scans, t)
    ensures NoOrphans(scans + {mine}, t + Tagged(mine.id, rows))
  {
    var t' := t + Tagged(mine.id, rows);
    forall k | 0 <= k < |t'| ensures Known(scans + {mine}, t'[k].0) {
      if k < |t| {
        assert t'[k] == t[k] && Known(scans, t[k].0);
        var scan :| scan in scans && scan.id == t[k].0;
        assert scan in scans + {mine};
      } else {
        assert mine in scans + {mine};
      }
    }
  }

  lemma RowsAfterCommit(scans: set<Scan>, t: Table, id: ScanId, rows: seq<string>)
    requires NoOrphans(scans, t) && !Known(scans, id)
    ensures RowsFor(t + Tagged(id, rows), id) == rows
    ensures forall scan :: scan in scans ==> RowsFor(t + Tagged(id, rows), scan.id) == RowsFor(t, scan.id)
  {
    RowsForConcat(t, Tagged(id, rows), id);
    RowsForTagged(id, rows, id);
    RowsForAbsent(t, id);
    forall scan | scan in scans ensures RowsFor(t + Tagged(id, rows), scan.id) == RowsFor(t, scan.id) {
      RowsForConcat(t, Tagged(id, rows), scan.id);
      RowsForTagged(id, rows, scan.id);
    }
  }

  lemma InvStep(s: State, s': State, c: CallId)
    requires Inv(s) && Step(s, s', c)
    ensures Inv(s')
    ensures s.scans <= s'.scans
  {
    if rec :| Starts(s, s', c, rec) {
      InvStart(s, s', c, rec);
    } else {
      assert CallInv(s, c);
      if Commits(s, s', c) {
        InvCommit(s, s', c);
      } else {
        InvMoves(s, s', c, s'.calls[c].phase);
      }
    }
  }

  lemma InvStart(s: State, s': State, c: CallId, rec: Record)
    requires Inv(s) && Starts(s, s', c, rec)
    ensures Inv(s')
  {
    forall scan | scan in s'.scans ensures Complete(s', scan) { CompleteKept(s, s', scan); }
    forall d | d in s'.calls ensures CallInv(s', d) {
      if d != c { assert CallInv(s, d); }
    }
    forall d, e, id: ScanId | Holds(s', d, id) && Holds(s', e, id) ensures d == e {
      assert Holds(s, d, id) && Holds(s, e, id);
    }
    forall d, e | BothFilling(s', d, e) && s'.calls[d].rec.run == s'.calls[e].rec.run ensures d == e {
      assert BothFilling(s, d, e);
    }
  }

  lemma InvNext(s: State, s': State)
    requires Inv(s) && Next(s, s')
    ensures Inv(s') && s.scans <= s'.scans
  {
    var c :| Step(s, s', c);
    InvStep(s, s', c);
  }

  // ---- every run -------------------------------------------------------------------------------------------------

  lemma {:induction false} InvAlways(run: seq<State>, i: nat)
    requires Behaviour(run) && i < |run|
    ensures Inv(run[i])
  {
    hide Step, Inv;
    if i == 0 {
      InvInit(run[0]);
    } else {
      InvAlways(run, i - 1);
      InvNext(run[i - 1], run[i]);
    }
  }

  predicate Created(s: State, c: CallId) {
    c in s.calls && s.calls[c].phase.Done? && s.calls[c].phase.outcome.Returned? && s.calls[c].phase.outcome.created
  }

  /** In every state of every interleaving: one scan per run id, visible only with every coverage and finding
      row of the import that wrote it; a call that succeeds returns the id of that scan; at most one call per
      run id reports having created it; and no call meets the "conflicted but not present" error. */
  lemma ImportIsIdempotent(run: seq<State>, i: nat)
    requires Behaviour(run) && i < |run|
    ensures OneScanPerRun(run[i])
    ensures forall scan :: scan in run[i].scans ==> Complete(run[i], scan)
    ensures forall c, id, created :: c in run[i].calls && run[i].calls[c].phase == Done(Returned(id, created)) ==>
              Scan(id, run[i].calls[c].rec.run) in run[i].scans
    ensures forall c, d :: Created(run[i], c) && Created(run[i], d) && run[i].calls[c].rec.run == run[i].calls[d].rec.run ==> c == d
    ensures forall c :: c in run[i].calls ==> run[i].calls[c].phase != Done(ConflictedButMissing)
  {
    InvAlways(run, i);
    var s := run[i];
    forall c, id, created | c in s.calls && s.calls[c].phase == Done(Returned(id, created))
      ensures Scan(id, s.calls[c].rec.run) in s.scans
    {
      assert CallInv(s, c);
    }
    forall c, d | Created(s, c) && Created(s, d) && s.calls[c].rec.run == s.calls[d].rec.run ensures c == d {
      assert CallInv(s, c) && CallInv(s, d);
      var x, y := s.calls[c].phase.outcome.id, s.calls[d].phase.outcome.id;
      assert Scan(x, s.calls[c].rec.run) == Scan(y, s.calls[d].rec.run);
      assert Holds(s, c, x) && Holds(s, d, x);
    }
    forall c | c in s.calls ensures s.calls[c].phase != Done(ConflictedButMissing) {
      assert CallInv(s, c);
    }
  }

  /** Two successful calls for one run id return the same scan, however far apart they finish. */
  lemma {:induction false} SameAnswerForever(run: seq<State>, i: nat, j: nat, c: CallId, d: CallId)
    requires Behaviour(run) && i <= j < |run|
    requires c in run[i].calls && run[i].calls[c].phase.Done? && run[i].calls[c].phase.outcome.Returned?
    requires d in run[j].calls && run[j].calls[d].phase.Done? && run[j].calls[d].phase.outcome.Returned?
    requires run[i].calls[c].rec.run == run[j].calls[d].rec.run
    ensures run[i].calls[c].phase.outcome.id == run[j].calls[d].phase.outcome.id
  {
    InvAlways(run, i);
    InvAlways(run, j);
    ScansStay(run, i, j);
    assert CallInv(run[i], c) && CallInv(run[j], d);
  }

  lemma {:induction false} ScansStay(run: seq<State>, i: nat, j: nat)
    requires Behaviour(run) && i <= j < |run|
    ensures run[i].scans <= run[j].scans
    decreases j
  {
    hide Step, Inv;
    if i < j {
      ScansStay(run, i, j - 1);
      InvAlways(run, j - 1);
      InvNext(run[j - 1], run[j]);
    }
  }

  /** A call waits only for a call that can itself move, so no set of imports can block each other. */
  lemma NoDeadlock(s: State, c: CallId)
    requires Inv(s) && c in s.calls && !s.calls[c].phase.Done?
    ensures exists d, s' :: d in s.calls && Step(s, s', d) && s'.calls[d].phase != Done(Failed)
  {
    var d := c;
    if s.calls[c].phase.Inserting? && Claimed(s, c, s.calls[c].rec.run) {
      d :| d in s.calls && d != c && s.calls[d].phase.Filling? && s.calls[d].rec.run == s.calls[c].rec.run;
    }
    CanMove(s, d);
  }

  lemma CanMove(s: State, d: CallId)
    requires Inv(s) && d in s.calls && !s.calls[d].phase.Done?
    requires s.calls[d].phase.Inserting? ==> !Claimed(s, d, s.calls[d].rec.run)
    ensures exists s' :: Step(s, s', d) && s'.calls[d].phase != Done(Failed)
  {
    assert CallInv(s, d);
    if s.calls[d].phase.Filling? {
      FillingMoves(s, d);
    } else if Present(s, s.calls[d].rec.run) {
      var scan :| scan in s.scans && scan.run == s.calls[d].rec.run;
      var found := At(s, d, if s.calls[d].phase.Inserting? then Rereading else Done(Returned(scan.id, false)));
      assert LooksUp(s, found, d) || Inserts(s, found, d) || Rereads(s, found, d);
    } else if s.calls[d].phase.Looking? {
      assert LooksUp(s, At(s, d, Inserting), d);
    } else {
      assert Inserts(s, At(s, d, Filling(s.nextId, [], [])).(nextId := s.nextId + 1), d);
    }
  }

  function At(s: State, d: CallId, phase: Phase): State
    requires d in s.calls
  {
    s.(calls := s.calls[d := s.calls[d].(phase := phase)])
  }

  lemma FillingMoves(s: State, d: CallId)
    requires d in s.calls && s.calls[d].phase.Filling?
    ensures exists s' :: Step(s, s', d) && s'.calls[d].phase != Done(Failed)
  {
    var Call(rec, Filling(id, cov, fin)) := s.calls[d];
    if |cov| < |rec.coverage| {
      assert Fills(s, At(s, d, Filling(id, cov + [rec.coverage[|cov|]], fin)), d);
    } else if |fin| < |rec.findings| {
      assert Fills(s, At(s, d, Filling(id, cov, fin + [rec.findings[|fin|]])), d);
    } else {
      var s' := At(s, d, Done(Returned(id, true))).(
        scans := s.scans + {Scan(id, rec.run)},
        coverage := s.coverage + Tagged(id, cov), findings := s.findings + Tagged(id, fin));
      assert Commits(s, s', d);
    }
  }
}
