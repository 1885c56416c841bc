/** Rule revisions and frozen rule sets under concurrency (console/internal/store/pg.go). */
module RuleStore {
  // Rule revisions and frozen rule sets as interleaved steps over an abstract PostgreSQL: `CreateRule`,
  // `AddRevision`, `SoftDeleteRule`, `BackfillMeta`, `SetSelection`, `AddExclusion`, `ResolveSelection`,
  // `Freeze` and `FrozenMembers` (console/internal/store/pg.go), driven by `Service.Freeze`
  // (console/internal/ruleset/ruleset.go).
  //
  // Assumed of the database: a statement sees only committed rows; a row lock is held until its transaction
  // ends, and an UPDATE or SELECT FOR UPDATE of a locked row waits; a commit publishes everything at once; an id
  // from a sequence is never handed out twice. Waiting on foreign keys is not modelled, which only adds
  // interleavings. Any step may fail, and a commit may take effect and still be reported as a failure.

  import opened Common

  type RuleId = nat
  type RevisionId = nat
  type SetId = nat
  type CallId = nat
  type Digest = string
  type Blob = seq<nat>

  /** The compiler over a directory of rule files in name order, the digest of a blob, and the metadata parser. */
  datatype Tools = Tools(compile: seq<(RuleId, string)> -> Option<Blob>, digest: Blob -> Digest, meta: string -> string)

  datatype Rule = Rule(layer: string, deleted: bool)
  datatype Revision = Revision(rule: RuleId, number: nat, text: string, meta: string)
  datatype Selection = Selection(layers: set<string>, rules: set<RuleId>)
  datatype Stamp = Stamp(version: nat, digest: Digest)
  datatype RuleSet = RuleSet(selection: Selection, stamp: Option<Stamp>)

  /** A revision as a query returns it. */
  datatype Row = Row(id: RevisionId, rule: RuleId, text: string)

  type Revisions = map<RevisionId, Revision>

  /** The committed tables. */
  datatype Db = Db(
    rules: map<RuleId, Rule>, revisions: Revisions, sets: map<SetId, RuleSet>,
    members: set<(SetId, RevisionId)>, exclusions: set<(SetId, RuleId)>)

  datatype RevisePhase =
    | Waiting
    | Locked
    | Numbered(next: nat)
    | Inserted(next: nat, id: RevisionId)   // one uncommitted row
    | Revised(next: nat, id: RevisionId)
    | ReviseFailed
    | DuplicateNumber                       // the unique key (rule_id, revision) refused the row

  datatype FreezePhase =
    | Reading
    | Querying(selection: Selection)
    | Compiling(rows: seq<Row>)
    | Storing(rows: seq<Row>, digest: Digest)
    | Pinning(rows: seq<Row>, digest: Digest, pinned: nat) // stamped and partly pinned, uncommitted
    | Frozen(digest: Digest)
    | Refused

  datatype Call =
    | Revise(rule: RuleId, text: string, revising: RevisePhase)
    | Freeze(set_: SetId, version: nat, freezing: FreezePhase)

  datatype State = State(db: Db, blobs: map<Digest, Blob>, nextRevision: RevisionId, calls: map<CallId, Call>)

  // ---- queries ----------------------------------------------------------------------------------------------

  ghost predicate IsRow(revs: Revisions, row: Row) {
    row.id in revs && revs[row.id].rule == row.rule && revs[row.id].text == row.text
  }

  /** The greatest revision number of the rule, 0 when it has none. */
  ghost predicate IsMax(revs: Revisions, rule: RuleId, n: nat) {
    && (forall id :: id in revs && revs[id].rule == rule ==> revs[id].number <= n)
    && (n == 0 || Has(revs, rule, n))
  }

  ghost predicate Has(revs: Revisions, rule: RuleId, n: nat) {
    exists id :: id in revs && revs[id].rule == rule && revs[id].number == n
  }

  predicate Chosen(db: Db, set_: SetId, sel: Selection, rule: RuleId) {
    && rule in db.rules && !db.rules[rule].deleted
    && (db.rules[rule].layer in sel.layers || rule in sel.rules)
    && (set_, rule) !in db.exclusions
  }

  ghost predicate IsLatest(revs: Revisions, id: RevisionId)
    requires id in revs
  {
    forall other :: other in revs && revs[other].rule == revs[id].rule ==> revs[other].number <= revs[id].number
  }

  predicate Ascending(rows: seq<Row>) {
    forall i, j :: 0 <= i < j < |rows| ==> rows[i].rule < rows[j].rule
  }

  /** `ResolveSelection`: the latest revision of every chosen rule, one row a rule, by rule id. */
  ghost predicate Resolves(db: Db, set_: SetId, sel: Selection, rows: seq<Row>) {
    && Ascending(rows)
    && (forall row :: row in rows ==> IsRow(db.revisions, row) && Chosen(db, set_, sel, row.rule) && IsLatest(db.revisions, row.id))
    && (forall id :: id in db.revisions && Chosen(db, set_, sel, db.revisions[id].rule) ==>
          exists row :: row in rows && row.rule == db.revisions[id].rule)
  }

  /** `FrozenMembers`: the pinned revisions, ordered by rule id. */
  ghost predicate IsFrozenMembers(db: Db, set_: SetId, rows: seq<Row>) {
    && (forall i, j :: 0 <= i < j < |rows| ==> rows[i].rule <= rows[j].rule && rows[i].id != rows[j].id)
    && (forall row :: row in rows ==> IsRow(db.revisions, row) && (set_, row.id) in db.members)
    && (forall id :: (set_, id) in db.members ==> exists row :: row in rows && row.id == id)
  }

  /** The files the compiler is given. */
  function Sources(rows: seq<Row>): seq<(RuleId, string)> {
    seq(|rows|, i requires 0 <= i < |rows| => (rows[i].rule, rows[i].text))
  }

  // ---- steps of AddRevision -----------------------------------------------------------------------------------

  predicate HoldsRule(call: Call, rule: RuleId) {
    call.Revise? && call.rule == rule && (call.revising.Locked? || call.revising.Numbered? || call.revising.Inserted?)
  }

  predicate RuleLocked(s: State, c: CallId, rule: RuleId) {
    exists d :: d in s.calls && d != c && HoldsRule(s.calls[d], rule)
  }

  ghost predicate Moves(s: State, s': State, c: CallId, call: Call) {
    c in s.calls && s'.calls == s.calls[c := call]
  }

  ghost predicate RevisesTo(s: State, s': State, c: CallId, phase: RevisePhase) {
    c in s.calls && s.calls[c].Revise? && Moves(s, s', c, s.calls[c].(revising := phase))
  }

  ghost predicate Locks(s: State, s': State, c: CallId) {
    && c in s.calls && s.calls[c].Revise? && s.calls[c].revising.Waiting?
    && s'.db == s.db && s'.blobs == s.blobs && s'.nextRevision == s.nextRevision
    && if s.calls[c].rule in s.db.rules
       then !RuleLocked(s, c, s.calls[c].rule) && RevisesTo(s, s', c, Locked)
       else RevisesTo(s, s', c, ReviseFailed)
  }

  ghost predicate Numbers(s: State, s': State, c: CallId) {
    && c in s.calls && s.calls[c].Revise? && s.calls[c].revising.Locked?
    && s'.db == s.db && s'.blobs == s.blobs && s'.nextRevision == s.nextRevision
    && exists max: nat :: IsMax(s.db.revisions, s.calls[c].rule, max) && RevisesTo(s, s', c, Numbered(max + 1))
  }

  ghost predicate Inserts(s: State, s': State, c: CallId) {
    && c in s.calls && s.calls[c].Revise? && s.calls[c].revising.Numbered?
    && s'.db == s.db && s'.blobs == s.blobs && s'.nextRevision > s.nextRevision
    && if Has(s.db.revisions, s.calls[c].rule, s.calls[c].revising.next)
       then RevisesTo(s, s', c, DuplicateNumber)
       else RevisesTo(s, s', c, Inserted(s.calls[c].revising.next, s.nextRevision))
  }

  ghost predicate CommitsRevision(tools: Tools, s: State, s': State, c: CallId) {
    && c in s.calls && s.calls[c].Revise? && s.calls[c].revising.Inserted?
    && var Revise(rule, text, Inserted(next, id)) := s.calls[c];
       && s'.db == s.db.(revisions := s.db.revisions[id := Revision(rule, next, text, tools.meta(text))])
       && s'.blobs == s.blobs && s'.nextRevision == s.nextRevision
       && (RevisesTo(s, s', c, Revised(next, id)) || RevisesTo(s, s', c, ReviseFailed))
  }

  // ---- steps of Service.Freeze ---------------------------------------------------------------------------------

  predicate HoldsSet(call: Call, set_: SetId) {
    call.Freeze? && call.set_ == set_ && call.freezing.Pinning?
  }

  predicate SetLocked(s: State, c: CallId, set_: SetId) {
    exists d :: d in s.calls && d != c && HoldsSet(s.calls[d], set_)
  }

  ghost predicate FreezesTo(s: State, s': State, c: CallId, phase: FreezePhase) {
    c in s.calls && s.calls[c].Freeze? && Moves(s, s', c, s.calls[c].(freezing := phase))
  }

  ghost predicate SameStore(s: State, s': State) {
    s'.db == s.db && s'.blobs == s.blobs && s'.nextRevision == s.nextRevision
  }

  ghost predicate ReadsSelection(s: State, s': State, c: CallId) {
    && c in s.calls && s.calls[c].Freeze? && s.calls[c].freezing.Reading? && SameStore(s, s')
    && if s.calls[c].set_ in s.db.sets
       then FreezesTo(s, s', c, Querying(s.db.sets[s.calls[c].set_].selection))
       else FreezesTo(s, s', c, Refused)
  }

  ghost predicate Queries(s: State, s': State, c: CallId) {
    && c in s.calls && s.calls[c].Freeze? && s.calls[c].freezing.Querying? && SameStore(s, s')
    && exists rows :: Resolves(s.db, s.calls[c].set_, s.calls[c].freezing.selection, rows)
         && FreezesTo(s, s', c, if rows == [] then Refused else Compiling(rows))
  }

  ghost predicate Compiles(tools: Tools, s: State, s': State, c: CallId) {
    && c in s.calls && s.calls[c].Freeze? && s.calls[c].freezing.Compiling?
    && s'.db == s.db && s'.nextRevision == s.nextRevision
    && var rows := s.calls[c].freezing.rows;
       match tools.compile(Sources(rows))
       case None => s'.blobs == s.blobs && FreezesTo(s, s', c, Refused)
       case Some(blob) =>
         var key := tools.digest(blob);
         s'.blobs == (if key in s.blobs then s.blobs else s.blobs[key := blob]) && FreezesTo(s, s', c, Storing(rows, key))
  }

  ghost predicate Stamps(s: State, s': State, c: CallId) {
    && c in s.calls && s.calls[c].Freeze? && s.calls[c].freezing.Storing? && SameStore(s, s')
    && var Freeze(set_, version, Storing(rows, digest)) := s.calls[c];
       && !SetLocked(s, c, set_)
       && if set_ in s.db.sets && s.db.sets[set_].stamp.None?
          then FreezesTo(s, s', c, Pinning(rows, digest, 0))
          else FreezesTo(s, s', c, Refused)
  }

  ghost predicate Pins(s: State, s': State, c: CallId) {
    && c in s.calls && s.calls[c].Freeze? && s.calls[c].freezing.Pinning? && SameStore(s, s')
    && var Pinning(rows, digest, pinned) := s.calls[c].freezing;
       pinned < |rows| && FreezesTo(s, s', c, Pinning(rows, digest, pinned + 1))
  }

  function Members(set_: SetId, rows: seq<Row>): set<(SetId, RevisionId)> {
    set row | row in rows :: (set_, row.id)
  }

  ghost predicate CommitsFreeze(s: State, s': State, c: CallId) {
    && c in s.calls && s.calls[c].Freeze? && s.calls[c].freezing.Pinning?
    && var Freeze(set_, version, Pinning(rows, digest, pinned)) := s.calls[c];
       && pinned == |rows| && set_ in s.db.sets
       && s'.db == s.db.(
            sets := s.db.sets[set_ := s.db.sets[set_].(stamp := Some(Stamp(version, digest)))],
            members := s.db.members + Members(set_, rows[..pinned]))
       && s'.blobs == s.blobs && s'.nextRevision == s.nextRevision
       && (FreezesTo(s, s', c, Frozen(digest)) || FreezesTo(s, s', c, Refused))
  }

  // ---- steps of everything else -----------------------------------------------------------------------------------

  ghost predicate Begins(s: State, s': State, c: CallId, call: Call) {
    && c !in s.calls && SameStore(s, s') && s'.calls == s.calls[c := call]
    && (call.Revise? ==> call.revising.Waiting?) && (call.Freeze? ==> call.freezing.Reading?)
  }

  predicate Ended(call: Call) {
    match call
    case Revise(_, _, phase) => phase.Revised? || phase.ReviseFailed? || phase.DuplicateNumber?
    case Freeze(_, _, phase) => phase.Frozen? || phase.Refused?
  }

  ghost predicate Fails(s: State, s': State, c: CallId) {
    && c in s.calls && !Ended(s.calls[c]) && SameStore(s, s')
    && (RevisesTo(s, s', c, ReviseFailed) || FreezesTo(s, s', c, Refused))
  }

  /** A statement of one transaction that leaves the running calls alone. */
  ghost predicate Edits(s: State, s': State, db: Db) {
    s' == s.(db := db)
  }

  ghost predicate CreatesRule(tools: Tools, s: State, s': State, rule: RuleId, layer: string, text: string) {
    && rule !in s.db.rules
    && s'.db == s.db.(rules := s.db.rules[rule := Rule(layer, false)],
                      revisions := s.db.revisions[s.nextRevision := Revision(rule, 1, text, tools.meta(text))])
    && s'.nextRevision > s.nextRevision && s'.blobs == s.blobs && s'.calls == s.calls
  }

  ghost predicate Deletes(s: State, s': State, rule: RuleId) {
    rule in s.db.rules && Edits(s, s', s.db.(rules := s.db.rules[rule := s.db.rules[rule].(deleted := true)]))
  }

  ghost predicate Backfills(tools: Tools, s: State, s': State, ids: set<RevisionId>) {
    Edits(s, s', s.db.(revisions := map id | id in s.db.revisions ::
      if id in ids then s.db.revisions[id].(meta := tools.meta(s.db.revisions[id].text)) else s.db.revisions[id]))
  }

  ghost predicate CreatesSet(s: State, s': State, set_: SetId) {
    set_ !in s.db.sets && Edits(s, s', s.db.(sets := s.db.sets[set_ := RuleSet(Selection({}, {}), None)]))
  }

  /** Answers whether the selection was taken; a frozen or missing set is refused. */
  ghost predicate SetsSelection(s: State, s': State, set_: SetId, sel: Selection, taken: bool) {
    && (forall d :: d in s.calls ==> !HoldsSet(s.calls[d], set_))
    && taken == (set_ in s.db.sets && s.db.sets[set_].stamp.None?)
    && if taken then Edits(s, s', s.db.(sets := s.db.sets[set_ := s.db.sets[set_].(selection := sel)])) else s' == s
  }

  ghost predicate Excludes(s: State, s': State, set_: SetId, rule: RuleId) {
    && set_ in s.db.sets && rule in s.db.rules
    && Edits(s, s', s.db.(exclusions := s.db.exclusions + {(set_, rule)}))
  }

  ghost predicate EditStep(tools: Tools, s: State, s': State) {
    || (exists rule, layer, text :: CreatesRule(tools, s, s', rule, layer, text))
    || (exists rule :: Deletes(s, s', rule))
    || (exists ids :: Backfills(tools, s, s', ids))
    || (exists set_ :: CreatesSet(s, s', set_))
    || (exists set_, sel, taken :: SetsSelection(s, s', set_, sel, taken))
    || (exists set_, rule :: Excludes(s, s', set_, rule))
  }

  ghost predicate ReviseStep(tools: Tools, s: State, s': State, c: CallId) {
    Locks(s, s', c) || Numbers(s, s', c) || Inserts(s, s', c) || CommitsRevision(tools, s, s', c)
  }

  ghost predicate FreezeStep(tools: Tools, s: State, s': State, c: CallId) {
    || ReadsSelection(s, s', c) || Queries(s, s', c) || Compiles(tools, s, s', c)
    || Stamps(s, s', c) || Pins(s, s', c) || CommitsFreeze(s, s', c)
  }

  ghost predicate CallStep(tools: Tools, s: State, s': State, c: CallId) {
    || (exists call :: Begins(s, s', c, call)) || Fails(s, s', c)
    || ReviseStep(tools, s, s', c) || FreezeStep(tools, s, s', c)
  }

  ghost predicate Next(tools: Tools, s: State, s': State) {
    EditStep(tools, s, s') || exists c :: CallStep(tools, s, s', c)
  }

  ghost predicate Init(s: State) {
    s.db == Db(map[], map[], map[], {}, {}) && s.blobs == map[] && s.calls == map[]
  }

  /** Any finite interleaving of any number of calls and edits. */
  ghost predicate Behaviour(tools: Tools, run: seq<State>) {
    run != [] && Init(run[0]) && forall i :: 0 < i < |run| ==> Next(tools, run[i - 1], run[i])
  }

  // ---- the invariant --------------------------------------------------------------------------------------------

  /** The rule's revisions carry the numbers 1 to n, each once. */
  ghost predicate NumberedTo(revs: Revisions, rule: RuleId, n: nat) {
    && (forall k :: 1 <= k <= n ==> Has(revs, rule, k))
    && (forall id :: id in revs && revs[id].rule == rule ==> 1 <= revs[id].number <= n)
    && (forall a, b :: SameNumber(revs, rule, a, b) ==> a == b)
  }

  predicate SameNumber(revs: Revisions, rule: RuleId, a: RevisionId, b: RevisionId) {
    && a in revs && b in revs && revs[a].rule == rule && revs[b].rule == rule
    && revs[a].number == revs[b].number
  }

  ghost predicate RevisionsInv(s: State) {
    forall id :: id in s.db.revisions ==> id < s.nextRevision && s.db.revisions[id].rule in s.db.rules
  }

  ghost predicate NumberingInv(s: State) {
    forall rule :: rule in s.db.rules ==> Contiguous(s.db.revisions, rule)
  }

  ghost predicate Contiguous(revs: Revisions, rule: RuleId) {
    exists n: nat :: NumberedTo(revs, rule, n)
  }

  ghost predicate ReviseOk(s: State, call: Call)
    requires call.Revise?
  {
    match call.revising
    case Waiting => true
    case Locked => call.rule in s.db.rules
    case Numbered(next) => call.rule in s.db.rules && next > 0 && NumberedTo(s.db.revisions, call.rule, next - 1)
    case Inserted(next, id) =>
      && call.rule in s.db.rules && next > 0 && NumberedTo(s.db.revisions, call.rule, next - 1)
      && id < s.nextRevision && id !in s.db.revisions
    case Revised(next, id) =>
      && id < s.nextRevision && id in s.db.revisions
      && Published(s.db.revisions[id], call, next)
    case DuplicateNumber => false
    case ReviseFailed => true
  }

  predicate Published(rev: Revision, call: Call, next: nat)
    requires call.Revise?
  {
    rev.rule == call.rule && rev.number == next && rev.text == call.text
  }

  ghost predicate RowsOk(revs: Revisions, rows: seq<Row>) {
    rows != [] && Ascending(rows) && forall row :: row in rows ==> IsRow(revs, row)
  }

  /** The digest is that of compiling these rows, and a blob is stored under it. */
  ghost predicate BuiltFrom(tools: Tools, blobs: map<Digest, Blob>, rows: seq<Row>, digest: Digest) {
    && tools.compile(Sources(rows)).Some? && tools.digest(tools.compile(Sources(rows)).value) == digest
    && digest in blobs
  }

  ghost predicate FreezeOk(tools: Tools, s: State, call: Call)
    requires call.Freeze?
  {
    match call.freezing
    case Compiling(rows) => RowsOk(s.db.revisions, rows)
    case Storing(rows, digest) => RowsOk(s.db.revisions, rows) && BuiltFrom(tools, s.blobs, rows, digest)
    case Pinning(rows, digest, pinned) =>
      && RowsOk(s.db.revisions, rows) && BuiltFrom(tools, s.blobs, rows, digest) && pinned <= |rows|
      && call.set_ in s.db.sets && s.db.sets[call.set_].stamp.None?
    case Frozen(digest) => call.set_ in s.db.sets && s.db.sets[call.set_].stamp == Some(Stamp(call.version, digest))
    case _ => true
  }

  ghost predicate CallOk(tools: Tools, s: State, call: Call) {
    if call.Revise? then ReviseOk(s, call) else FreezeOk(tools, s, call)
  }

  ghost predicate CallsInv(tools: Tools, s: State) {
    forall c :: c in s.calls ==> CallOk(tools, s, s.calls[c])
  }

  predicate HoldsId(call: Call, id: RevisionId) {
    call.Revise? && (call.revising.Inserted? || call.revising.Revised?) && call.revising.id == id
  }

  ghost predicate LocksInv(s: State) {
    && (forall c, d, rule: RuleId :: c in s.calls && d in s.calls && HoldsRule(s.calls[c], rule) && HoldsRule(s.calls[d], rule) ==> c == d)
    && (forall c, d, set_: SetId :: c in s.calls && d in s.calls && HoldsSet(s.calls[c], set_) && HoldsSet(s.calls[d], set_) ==> c == d)
    && (forall c, d, id: RevisionId :: c in s.calls && d in s.calls && HoldsId(s.calls[c], id) && HoldsId(s.calls[d], id) ==> c == d)
  }

  ghost predicate NoMembers(db: Db, set_: SetId) {
    forall id :: (set_, id) !in db.members
  }

  /** The members of the set are these rows, and its digest is that of compiling them. */
  ghost predicate PinnedAs(tools: Tools, s: State, set_: SetId, stamp: Stamp, rows: seq<Row>) {
    && RowsOk(s.db.revisions, rows) && BuiltFrom(tools, s.blobs, rows, stamp.digest)
    && forall id :: (set_, id) in s.db.members <==> (set_, id) in Members(set_, rows)
  }

  ghost predicate SetOk(tools: Tools, s: State, set_: SetId) {
    if set_ in s.db.sets && s.db.sets[set_].stamp.Some?
    then exists rows :: PinnedAs(tools, s, set_, s.db.sets[set_].stamp.value, rows)
    else NoMembers(s.db, set_)
  }

  ghost predicate SetsInv(tools: Tools, s: State) {
    forall set_ :: SetOk(tools, s, set_)
  }

  ghost predicate BlobsInv(tools: Tools, s: State) {
    forall key :: key in s.blobs ==> tools.digest(s.blobs[key]) == key
  }

  ghost predicate Inv(tools: Tools, s: State) {
    && RevisionsInv(s) && NumberingInv(s) && CallsInv(tools, s) && LocksInv(s) && SetsInv(tools, s) && BlobsInv(tools, s)
  }

  // ---- what no step undoes -----------------------------------------------------------------------------------------

  /** Committed revisions keep their rule, number and text. */
  ghost predicate RevisionsStay(a: Revisions, b: Revisions) {
    forall id :: id in a ==> id in b && b[id].rule == a[id].rule && b[id].number == a[id].number && b[id].text == a[id].text
  }

  ghost predicate FrozenStays(a: Db, b: Db) {
    forall set_ :: set_ in a.sets && a.sets[set_].stamp.Some? ==> FrozenStay(a, b, set_)
  }

  ghost predicate FrozenStay(a: Db, b: Db, set_: SetId)
    requires set_ in a.sets
  {
    && set_ in b.sets && b.sets[set_] == a.sets[set_]
    && forall id :: (set_, id) in a.members <==> (set_, id) in b.members
  }

  ghost predicate BlobsStay(a: map<Digest, Blob>, b: map<Digest, Blob>) {
    forall key :: key in a ==> key in b && b[key] == a[key]
  }

  ghost predicate Stays(s: State, s': State) {
    && RevisionsStay(s.db.revisions, s'.db.revisions) && s.db.rules.Keys <= s'.db.rules.Keys
    && BlobsStay(s.blobs, s'.blobs) && s.nextRevision <= s'.nextRevision
  }

  /** What is frozen, and what a revision says, lasts. */
  ghost predicate Lasts(a: Db, b: Db) {
    FrozenStays(a, b) && RevisionsStay(a.revisions, b.revisions)
  }

  lemma StaysTransitive(a: Db, b: Db, c: Db)
    requires Lasts(a, b) && Lasts(b, c)
    ensures Lasts(a, c)
  {
    forall set_ | set_ in a.sets && a.sets[set_].stamp.Some? ensures FrozenStay(a, c, set_) {
      assert FrozenStay(a, b, set_) && FrozenStay(b, c, set_);
    }
  }

  lemma RowsStay(a: Revisions, b: Revisions, rows: seq<Row>)
    requires RevisionsStay(a, b) && RowsOk(a, rows)
    ensures RowsOk(b, rows)
  {
    hide Ascending;
    forall row | row in rows ensures IsRow(b, row) {
      assert IsRow(a, row);
    }
  }

  /** The two tables agree on the rule's revisions, metadata apart. */
  ghost predicate SameNumbers(a: Revisions, b: Revisions, rule: RuleId) {
    && (forall id :: id in a && a[id].rule == rule ==> id in b && b[id].rule == rule && b[id].number == a[id].number)
    && (forall id :: id in b && b[id].rule == rule ==> id in a && a[id].rule == rule)
  }

  lemma NumberedStays(a: Revisions, b: Revisions, rule: RuleId, n: nat)
    requires SameNumbers(a, b, rule) && NumberedTo(a, rule, n)
    ensures NumberedTo(b, rule, n)
  {
    forall k: nat | 1 <= k <= n ensures Has(b, rule, k) {
      assert Has(a, rule, k);
      var id :| id in a && a[id].rule == rule && a[id].number == k;
      assert id in b;
    }
    forall x, y | SameNumber(b, rule, x, y) ensures x == y {
      assert SameNumber(a, rule, x, y);
    }
  }

  /** A revision numbered next after n extends 1 to n by one. */
  lemma NumberedGrows(revs: Revisions, id: RevisionId, rev: Revision, n: nat)
    requires NumberedTo(revs, rev.rule, n) && id !in revs && rev.number == n + 1
    ensures NumberedTo(revs[id := rev], rev.rule, n + 1)
  {
    var b := revs[id := rev];
    forall k: nat | 1 <= k <= n + 1 ensures Has(b, rev.rule, k) {
      if k <= n {
        assert Has(revs, rev.rule, k);
        var x :| x in revs && revs[x].rule == rev.rule && revs[x].number == k;
        assert x in b && b[x] == revs[x];
      } else {
        assert id in b && b[id] == rev;
      }
    }
    forall x, y | SameNumber(b, rev.rule, x, y) ensures x == y {
      if x != id && y != id { assert SameNumber(revs, rev.rule, x, y); }
    }
  }

  /** Where the numbers are 1 to n, MAX is n: the next number collides with none. */
  lemma MaxIsCount(revs: Revisions, rule: RuleId, n: nat, max: nat)
    requires NumberedTo(revs, rule, n) && IsMax(revs, rule, max)
    ensures max == n && !Has(revs, rule, n + 1)
  {
    if n > 0 { assert Has(revs, rule, n); }
    if max > 0 { assert Has(revs, rule, max); }
  }

  // ---- preservation --------------------------------------------------------------------------------------------------

  /** Nothing the call relies on changed under it. */
  ghost predicate Undisturbed(s: State, s': State, call: Call) {
    && (forall rule :: HoldsRule(call, rule) ==> SameNumbers(s.db.revisions, s'.db.revisions, rule))
    && (forall id :: HoldsId(call, id) && id !in s.db.revisions ==> id !in s'.db.revisions)
    && (forall set_ :: HoldsSet(call, set_) || Froze(call, set_) ==> SameStamp(s.db, s'.db, set_))
  }

  predicate Froze(call: Call, set_: SetId) {
    call.Freeze? && call.set_ == set_ && call.freezing.Frozen?
  }

  ghost predicate SameStamp(a: Db, b: Db, set_: SetId) {
    && (set_ in a.sets ==> set_ in b.sets && b.sets[set_].stamp == a.sets[set_].stamp)
    && (set_ in a.sets && a.sets[set_].stamp.Some? ==> b.sets[set_] == a.sets[set_])
    && (set_ in b.sets && b.sets[set_].stamp.Some? ==> set_ in a.sets)
    && forall id :: (set_, id) in b.members <==> (set_, id) in a.members
  }

  lemma PublishedStays(a: Revisions, b: Revisions, call: Call, next: nat, id: RevisionId)
    requires RevisionsStay(a, b) && id in a && call.Revise? && Published(a[id], call, next)
    ensures id in b && Published(b[id], call, next)
  {}

  lemma CallKept(tools: Tools, s: State, s': State, call: Call)
    requires CallOk(tools, s, call) && Stays(s, s') && Undisturbed(s, s', call)
    ensures CallOk(tools, s', call)
  {
    hide RevisionsStay, RowsOk, NumberedTo, SameNumbers, IsMax;
    if call.Revise? {
      assert HoldsRule(call, call.rule) ==> SameNumbers(s.db.revisions, s'.db.revisions, call.rule);
      match call.revising {
        case Numbered(next) => NumberedStays(s.db.revisions, s'.db.revisions, call.rule, next - 1);
        case Inserted(next, id) =>
          NumberedStays(s.db.revisions, s'.db.revisions, call.rule, next - 1);
          assert HoldsId(call, id);
        case Revised(next, id) => PublishedStays(s.db.revisions, s'.db.revisions, call, next, id);
        case _ =>
      }
    } else {
      match call.freezing {
        case Compiling(rows) => RowsStay(s.db.revisions, s'.db.revisions, rows);
        case Storing(rows, _) => RowsStay(s.db.revisions, s'.db.revisions, rows);
        case Pinning(rows, _, _) =>
          RowsStay(s.db.revisions, s'.db.revisions, rows);
          assert HoldsSet(call, call.set_);
        case Frozen(_) => assert Froze(call, call.set_);
        case _ =>
      }
    }
  }

  lemma SetKept(tools: Tools, s: State, s': State, set_: SetId)
    requires SetOk(tools, s, set_) && Stays(s, s') && SameStamp(s.db, s'.db, set_)
    ensures SetOk(tools, s', set_)
  {
    hide RevisionsStay, RowsOk;
    if set_ in s.db.sets && s.db.sets[set_].stamp.Some? {
      var stamp := s.db.sets[set_].stamp.value;
      var rows :| PinnedAs(tools, s, set_, stamp, rows);
      RowsStay(s.db.revisions, s'.db.revisions, rows);
      assert PinnedAs(tools, s', set_, stamp, rows);
    }
  }

  lemma SetsKept(tools: Tools, s: State, s': State)
    requires SetsInv(tools, s) && Stays(s, s') && forall set_ :: SameStamp(s.db, s'.db, set_)
    ensures SetsInv(tools, s')
  {
    hide SetOk, Stays, SameStamp;
    forall set_ ensures SetOk(tools, s', set_) { SetKept(tools, s, s', set_); }
  }

  /** A step that edits tables and leaves the running calls where they are. */
  lemma InvEdit(tools: Tools, s: State, s': State)
    requires Inv(tools, s) && s'.calls == s.calls && s'.blobs == s.blobs && Stays(s, s')
    requires RevisionsInv(s') && NumberingInv(s') && forall set_ :: SameStamp(s.db, s'.db, set_)
    requires forall c :: c in s.calls ==> Undisturbed(s, s', s.calls[c])
    ensures Inv(tools, s') && Lasts(s.db, s'.db)
  {
    hide RevisionsInv, NumberingInv, Stays, CallOk, Undisturbed, SetsInv, LocksInv, SameStamp, BlobsInv;
    SetsKept(tools, s, s');
    forall c | c in s'.calls ensures CallOk(tools, s', s'.calls[c]) {
      CallKept(tools, s, s', s.calls[c]);
    }
    LocksSame(s, s');
    BlobsSame(tools, s, s');
    StaysLasts(s, s');
  }

  lemma StaysLasts(s: State, s': State)
    requires Stays(s, s') && FrozenSame(s.db, s'.db)
    ensures Lasts(s.db, s'.db)
  {
    SameIsStays(s.db, s'.db);
  }

  /** Stamps and members are where they were. */
  ghost predicate FrozenSame(a: Db, b: Db) {
    forall set_ :: SameStamp(a, b, set_)
  }

  lemma SameIsStays(a: Db, b: Db)
    requires FrozenSame(a, b) && RevisionsStay(a.revisions, b.revisions)
    ensures Lasts(a, b)
  {
    forall set_ | set_ in a.sets && a.sets[set_].stamp.Some? ensures FrozenStay(a, b, set_) {
      assert SameStamp(a, b, set_);
    }
  }

  lemma LocksSame(s: State, s': State)
    requires LocksInv(s) && s'.calls == s.calls
    ensures LocksInv(s')
  {}

  lemma BlobsSame(tools: Tools, s: State, s': State)
    requires BlobsInv(tools, s) && s'.blobs == s.blobs
    ensures BlobsInv(tools, s')
  {}

  /** A lock or an id is newly taken only when no other call has it. */
  ghost predicate TakesFree(s: State, c: CallId, call: Call) {
    && (forall rule: RuleId :: HoldsRule(call, rule) ==> !RuleLocked(s, c, rule))
    && (forall set_: SetId :: HoldsSet(call, set_) ==> !SetLocked(s, c, set_))
    && (forall id: RevisionId :: HoldsId(call, id) ==> !IdHeld(s, c, id))
  }

  predicate IdHeld(s: State, c: CallId, id: RevisionId) {
    exists d :: d in s.calls && d != c && HoldsId(s.calls[d], id)
  }

  lemma LocksTaken(s: State, s': State, c: CallId, call: Call)
    requires LocksInv(s) && TakesFree(s, c, call) && s'.calls == s.calls[c := call]
    ensures LocksInv(s')
  {
    hide HoldsRule, HoldsSet, HoldsId;
  }

  /** A call moves on and the tables stay. */
  lemma InvMove(tools: Tools, s: State, s': State, c: CallId, call: Call)
    requires Inv(tools, s) && s'.db == s.db && s'.calls == s.calls[c := call]
    requires BlobsStay(s.blobs, s'.blobs) && BlobsInv(tools, s') && s.nextRevision <= s'.nextRevision
    requires CallOk(tools, s', call) && TakesFree(s, c, call)
    ensures Inv(tools, s') && Lasts(s.db, s'.db)
  {
    SameDbStays(s, s');
    hide NumberingInv, Stays, CallOk, SetsInv, LocksInv, SameStamp, BlobsInv, TakesFree, Undisturbed;
    SetsKept(tools, s, s');
    LocksTaken(s, s', c, call);
    forall d | d in s'.calls ensures CallOk(tools, s', s'.calls[d]) {
      if d != c { SameDbUndisturbed(s, s', s.calls[d]); CallKept(tools, s, s', s.calls[d]); }
    }
    SameNumbering(s, s');
    StaysLasts(s, s');
  }

  lemma SameDbStays(s: State, s': State)
    requires s'.db == s.db && BlobsStay(s.blobs, s'.blobs) && s.nextRevision <= s'.nextRevision
    ensures Stays(s, s') && forall set_ :: SameStamp(s.db, s'.db, set_)
  {}

  lemma SameDbUndisturbed(s: State, s': State, call: Call)
    requires s'.db == s.db
    ensures Undisturbed(s, s', call)
  {}

  lemma SameNumbering(s: State, s': State)
    requires NumberingInv(s) && s'.db == s.db
    ensures NumberingInv(s')
  {}

  /** What the call held before, it alone holds. */
  ghost predicate Keeps(was: Call, call: Call) {
    && (forall rule: RuleId :: HoldsRule(call, rule) ==> HoldsRule(was, rule))
    && (forall set_: SetId :: HoldsSet(call, set_) ==> HoldsSet(was, set_))
    && (forall id: RevisionId :: HoldsId(call, id) ==> HoldsId(was, id))
  }

  lemma KeepsFree(s: State, c: CallId, call: Call)
    requires LocksInv(s) && c in s.calls && Keeps(s.calls[c], call)
    ensures TakesFree(s, c, call)
  {
    hide HoldsRule, HoldsSet, HoldsId;
  }

  lemma InvBegins(tools: Tools, s: State, s': State, c: CallId, call: Call)
    requires Inv(tools, s) && Begins(s, s', c, call)
    ensures Inv(tools, s') && Lasts(s.db, s'.db)
  {
    InvMove(tools, s, s', c, call);
  }

  lemma InvFails(tools: Tools, s: State, s': State, c: CallId)
    requires Inv(tools, s) && Fails(s, s', c)
    ensures Inv(tools, s') && Lasts(s.db, s'.db)
  {
    hide RevisionsInv, NumberingInv, SetsInv, CallsInv;
    KeepsFree(s, c, s'.calls[c]);
    InvMove(tools, s, s', c, s'.calls[c]);
  }

  lemma InvLocks(tools: Tools, s: State, s': State, c: CallId)
    requires Inv(tools, s) && Locks(s, s', c)
    ensures Inv(tools, s') && Lasts(s.db, s'.db)
  {
    hide RevisionsInv, NumberingInv, SetsInv, CallsInv;
    InvMove(tools, s, s', c, s'.calls[c]);
  }

  lemma InvNumbers(tools: Tools, s: State, s': State, c: CallId)
    requires Inv(tools, s) && Numbers(s, s', c)
    ensures Inv(tools, s') && Lasts(s.db, s'.db)
  {
    hide RevisionsInv, SetsInv, NumberedTo, IsMax;
    var rule := s.calls[c].rule;
    assert CallOk(tools, s, s.calls[c]);
    assert Contiguous(s.db.revisions, rule);
    var n: nat :| NumberedTo(s.db.revisions, rule, n);
    var max: nat :| IsMax(s.db.revisions, rule, max) && RevisesTo(s, s', c, Numbered(max + 1));
    MaxIsCount(s.db.revisions, rule, n, max);
    KeepsFree(s, c, s'.calls[c]);
    InvMove(tools, s, s', c, s'.calls[c]);
  }

  /** The number a call computed under the lock is never taken when it inserts. */
  lemma NextIsFree(revs: Revisions, rule: RuleId, next: nat)
    requires next > 0 && NumberedTo(revs, rule, next - 1)
    ensures !Has(revs, rule, next)
  {}

  lemma FreshId(tools: Tools, s: State, c: CallId, id: RevisionId)
    requires CallsInv(tools, s) && id >= s.nextRevision
    ensures !IdHeld(s, c, id)
  {
    forall d | d in s.calls ensures !HoldsId(s.calls[d], id) { assert CallOk(tools, s, s.calls[d]); }
  }

  lemma InvInserts(tools: Tools, s: State, s': State, c: CallId)
    requires Inv(tools, s) && Inserts(s, s', c)
    ensures Inv(tools, s') && Lasts(s.db, s'.db)
  {
    hide SetsInv, NumberedTo, NumberingInv, Has;
    assert CallOk(tools, s, s.calls[c]);
    NextIsFree(s.db.revisions, s.calls[c].rule, s.calls[c].revising.next);
    FreshId(tools, s, c, s.nextRevision);
    forall rule: RuleId | HoldsRule(s'.calls[c], rule) ensures !RuleLocked(s, c, rule) {
      assert HoldsRule(s.calls[c], rule);
    }
    InvMove(tools, s, s', c, s'.calls[c]);
  }

  lemma InvReads(tools: Tools, s: State, s': State, c: CallId)
    requires Inv(tools, s) && (ReadsSelection(s, s', c) || Queries(s, s', c))
    ensures Inv(tools, s') && Lasts(s.db, s'.db)
  {
    hide RevisionsInv, NumberingInv, SetsInv, CallsInv, Ascending;
    KeepsFree(s, c, s'.calls[c]);
    InvMove(tools, s, s', c, s'.calls[c]);
  }

  lemma InvCompiles(tools: Tools, s: State, s': State, c: CallId)
    requires Inv(tools, s) && Compiles(tools, s, s', c)
    ensures Inv(tools, s') && Lasts(s.db, s'.db)
  {
    hide RevisionsInv, NumberingInv, SetsInv, RowsOk;
    assert CallOk(tools, s, s.calls[c]);
    KeepsFree(s, c, s'.calls[c]);
    InvMove(tools, s, s', c, s'.calls[c]);
  }

  lemma InvStamps(tools: Tools, s: State, s': State, c: CallId)
    requires Inv(tools, s) && (Stamps(s, s', c) || Pins(s, s', c))
    ensures Inv(tools, s') && Lasts(s.db, s'.db)
  {
    hide RevisionsInv, NumberingInv, SetsInv, RowsOk, BuiltFrom;
    assert CallOk(tools, s, s.calls[c]);
    if Pins(s, s', c) { KeepsFree(s, c, s'.calls[c]); }
    InvMove(tools, s, s', c, s'.calls[c]);
  }

  // ---- steps that publish a revision -----------------------------------------------------------------------------

  lemma RevisionAdded(revs: Revisions, revs': Revisions, id: RevisionId, rev: Revision)
    requires id !in revs && revs' == revs[id := rev]
    ensures RevisionsStay(revs, revs')
    ensures forall rule :: rule != rev.rule ==> SameNumbers(revs, revs', rule)
  {}

  lemma NumberingAdded(s: State, s': State, id: RevisionId, rev: Revision, n: nat)
    requires NumberingInv(s) && id !in s.db.revisions && s'.db.revisions == s.db.revisions[id := rev]
    requires s'.db.rules.Keys <= s.db.rules.Keys + {rev.rule}
    requires NumberedTo(s.db.revisions, rev.rule, n) && rev.number == n + 1
    ensures NumberingInv(s')
  {
    hide NumberedTo, SameNumbers;
    RevisionAdded(s.db.revisions, s'.db.revisions, id, rev);
    NumberedGrows(s.db.revisions, id, rev, n);
    forall rule | rule in s'.db.rules ensures Contiguous(s'.db.revisions, rule) {
      if rule != rev.rule {
        assert Contiguous(s.db.revisions, rule);
        var m: nat :| NumberedTo(s.db.revisions, rule, m);
        NumberedStays(s.db.revisions, s'.db.revisions, rule, m);
      }
    }
  }

  lemma NewRuleStays(tools: Tools, s: State, s': State, rule: RuleId, layer: string, text: string)
    requires RevisionsInv(s) && CreatesRule(tools, s, s', rule, layer, text)
    ensures Stays(s, s') && RevisionsInv(s') && NumberedTo(s.db.revisions, rule, 0) && FrozenSame(s.db, s'.db)
    ensures s.nextRevision !in s.db.revisions
  {}

  lemma InvCreatesRule(tools: Tools, s: State, s': State, rule: RuleId, layer: string, text: string)
    requires Inv(tools, s) && CreatesRule(tools, s, s', rule, layer, text)
    ensures Inv(tools, s') && Lasts(s.db, s'.db)
  {
    NewRuleStays(tools, s, s', rule, layer, text);
    hide NumberedTo, NumberingInv, SetsInv, RevisionsInv, Stays, CallOk, SameStamp, Undisturbed, LocksInv;
    NumberingAdded(s, s', s.nextRevision, Revision(rule, 1, text, tools.meta(text)), 0);
    forall c | c in s.calls ensures Undisturbed(s, s', s.calls[c]) {
      NewRuleUndisturbed(tools, s, s', s.calls[c], rule, layer, text);
    }
    InvEdit(tools, s, s');
  }

  lemma NewRuleUndisturbed(tools: Tools, s: State, s': State, call: Call, rule: RuleId, layer: string, text: string)
    requires CallOk(tools, s, call) && CreatesRule(tools, s, s', rule, layer, text) && s.nextRevision !in s.db.revisions
    ensures Undisturbed(s, s', call)
  {
    hide NumberedTo, SameNumbers;
    RevisionAdded(s.db.revisions, s'.db.revisions, s.nextRevision, Revision(rule, 1, text, tools.meta(text)));
  }

  lemma CommitStays(tools: Tools, s: State, s': State, c: CallId)
    requires RevisionsInv(s) && CommitsRevision(tools, s, s', c) && CallOk(tools, s, s.calls[c])
    ensures Stays(s, s') && RevisionsInv(s') && CallOk(tools, s', s'.calls[c]) && FrozenSame(s.db, s'.db)
    ensures c in s'.calls && Keeps(s.calls[c], s'.calls[c]) && s'.calls == s.calls[c := s'.calls[c]]
  {
    hide NumberedTo;
  }

  lemma InvCommitsRevision(tools: Tools, s: State, s': State, c: CallId)
    requires Inv(tools, s) && CommitsRevision(tools, s, s', c)
    ensures Inv(tools, s') && Lasts(s.db, s'.db)
  {
    var Revise(rule, text, Inserted(next, id)) := s.calls[c];
    assert CallOk(tools, s, s.calls[c]);
    CommitStays(tools, s, s', c);
    hide NumberedTo, NumberingInv, SetsInv, RevisionsInv, Stays, LocksInv, BlobsInv, RevisesTo, SameStamp, TakesFree, Keeps;
    NumberingAdded(s, s', id, Revision(rule, next, text, tools.meta(text)), next - 1);
    SetsKept(tools, s, s');
    forall d | d in s'.calls ensures CallOk(tools, s', s'.calls[d]) {
      if d != c { OthersKept(tools, s, s', c, d); }
    }
    KeepsFree(s, c, s'.calls[c]);
    LocksTaken(s, s', c, s'.calls[c]);
    BlobsSame(tools, s, s');
    StaysLasts(s, s');
  }

  lemma OthersKept(tools: Tools, s: State, s': State, c: CallId, d: CallId)
    requires LocksInv(s) && CommitsRevision(tools, s, s', c) && d in s.calls && d != c && Stays(s, s')
    requires CallOk(tools, s, s.calls[c]) && CallOk(tools, s, s.calls[d])
    ensures CallOk(tools, s', s.calls[d])
  {
    var Revise(rule, text, Inserted(next, id)) := s.calls[c];
    hide SameNumbers, NumberedTo, RowsOk, Stays;
    assert HoldsRule(s.calls[c], rule) && HoldsId(s.calls[c], id);
    assert !HoldsRule(s.calls[d], rule) && !HoldsId(s.calls[d], id);
    RevisionAdded(s.db.revisions, s'.db.revisions, id, Revision(rule, next, text, tools.meta(text)));
    CallKept(tools, s, s', s.calls[d]);
  }

  // ---- the step that publishes a freeze --------------------------------------------------------------------------

  lemma InvCommitsFreeze(tools: Tools, s: State, s': State, c: CallId)
    requires Inv(tools, s) && CommitsFreeze(s, s', c)
    ensures Inv(tools, s') && Lasts(s.db, s'.db)
  {
    var Freeze(set_, version, Pinning(rows, digest, pinned)) := s.calls[c];
    assert CallOk(tools, s, s.calls[c]);
    assert rows[..pinned] == rows;
    MembersAdded(s.db.members, set_, rows);
    FreezeIsPinned(tools, s, s', c);
    assert Stays(s, s');
    hide RowsOk, BuiltFrom, NumberingInv, Stays, RevisionsInv, PinnedAs, BlobsInv;
    forall other ensures SetOk(tools, s', other) {
      if other != set_ { SetKept(tools, s, s', other); }
    }
    CallsAfterFreeze(tools, s, s', c);
    LocksReleased(s, s', c);
    NumbersUnmoved(s, s');
    FreezeLasts(s, s', c);
  }

  lemma FreezeLasts(s: State, s': State, c: CallId)
    requires CommitsFreeze(s, s', c) && s.calls[c].set_ in s.db.sets && s.db.sets[s.calls[c].set_].stamp.None?
    ensures Lasts(s.db, s'.db)
  {
    MembersAdded(s.db.members, s.calls[c].set_, s.calls[c].freezing.rows[..s.calls[c].freezing.pinned]);
  }

  lemma NumbersUnmoved(s: State, s': State)
    requires RevisionsInv(s) && NumberingInv(s) && s'.db.revisions == s.db.revisions && s'.db.rules == s.db.rules && s'.nextRevision == s.nextRevision
    ensures RevisionsInv(s') && NumberingInv(s')
  {}

  lemma MembersAdded(members: set<(SetId, RevisionId)>, set_: SetId, rows: seq<Row>)
    ensures forall other, id :: other != set_ ==> ((other, id) in members + Members(set_, rows) <==> (other, id) in members)
  {}

  lemma CommitPins(tools: Tools, s: State, s': State, c: CallId)
    requires CommitsFreeze(s, s', c) && CallOk(tools, s, s.calls[c]) && SetOk(tools, s, s.calls[c].set_)
    ensures PinnedAs(tools, s', s.calls[c].set_, Stamp(s.calls[c].version, s.calls[c].freezing.digest), s.calls[c].freezing.rows)
  {
    hide RowsOk, BuiltFrom;
    var Freeze(set_, version, Pinning(rows, digest, pinned)) := s.calls[c];
    assert rows[..pinned] == rows;
  }

  lemma FreezeIsPinned(tools: Tools, s: State, s': State, c: CallId)
    requires SetsInv(tools, s) && CommitsFreeze(s, s', c) && CallOk(tools, s, s.calls[c])
    ensures SetOk(tools, s', s.calls[c].set_)
  {
    hide PinnedAs;
    assert SetOk(tools, s, s.calls[c].set_);
    CommitPins(tools, s, s', c);
  }

  lemma CallsAfterFreeze(tools: Tools, s: State, s': State, c: CallId)
    requires CallsInv(tools, s) && LocksInv(s) && CommitsFreeze(s, s', c) && Stays(s, s')
    ensures CallsInv(tools, s')
  {
    hide CallOk, Stays;
    var set_ := s.calls[c].set_;
    assert HoldsSet(s.calls[c], set_);
    MembersAdded(s.db.members, set_, s.calls[c].freezing.rows[..s.calls[c].freezing.pinned]);
    forall d | d in s'.calls ensures CallOk(tools, s', s'.calls[d]) {
      if d != c {
        assert !HoldsSet(s.calls[d], set_);
        NotFrozeYet(tools, s, s.calls[c], s.calls[d]);
        CallKept(tools, s, s', s.calls[d]);
      } else {
        FrozenIsOk(tools, s, s', c);
      }
    }
  }

  lemma NotFrozeYet(tools: Tools, s: State, call: Call, other: Call)
    requires CallOk(tools, s, call) && CallOk(tools, s, other) && call.Freeze? && call.freezing.Pinning?
    ensures !Froze(other, call.set_)
  {
    hide RowsOk, BuiltFrom, ReviseOk;
  }

  lemma FrozenIsOk(tools: Tools, s: State, s': State, c: CallId)
    requires CommitsFreeze(s, s', c)
    ensures CallOk(tools, s', s'.calls[c])
  {
    hide RowsOk, BuiltFrom, ReviseOk;
  }

  lemma LocksReleased(s: State, s': State, c: CallId)
    requires LocksInv(s) && c in s.calls && c in s'.calls && s'.calls == s.calls[c := s'.calls[c]]
    requires s'.calls[c].Freeze? && Ended(s'.calls[c])
    ensures LocksInv(s')
  {
    KeepsFree(s, c, s'.calls[c]);
    LocksTaken(s, s', c, s'.calls[c]);
  }

  // ---- edits -----------------------------------------------------------------------------------------------------------

  lemma InvDeletes(tools: Tools, s: State, s': State, rule: RuleId)
    requires Inv(tools, s) && Deletes(s, s', rule)
    ensures Inv(tools, s') && Lasts(s.db, s'.db)
  {
    hide SetsInv, CallsInv, NumberedTo;
    InvEdit(tools, s, s');
  }

  lemma InvBackfills(tools: Tools, s: State, s': State, ids: set<RevisionId>)
    requires Inv(tools, s) && Backfills(tools, s, s', ids)
    ensures Inv(tools, s') && Lasts(s.db, s'.db)
  {
    hide SetsInv, CallsInv, NumberedTo, SameNumbers;
    BackfillSame(tools, s, s', ids);
    forall rule | rule in s'.db.rules ensures Contiguous(s'.db.revisions, rule) {
      assert Contiguous(s.db.revisions, rule);
      var n: nat :| NumberedTo(s.db.revisions, rule, n);
      NumberedStays(s.db.revisions, s'.db.revisions, rule, n);
    }
    InvEdit(tools, s, s');
  }

  lemma BackfillSame(tools: Tools, s: State, s': State, ids: set<RevisionId>)
    requires Backfills(tools, s, s', ids)
    ensures RevisionsStay(s.db.revisions, s'.db.revisions) && s'.db.revisions.Keys == s.db.revisions.Keys
    ensures forall rule :: SameNumbers(s.db.revisions, s'.db.revisions, rule)
  {}

  lemma InvSets(tools: Tools, s: State, s': State)
    requires Inv(tools, s)
    requires (exists set_ :: CreatesSet(s, s', set_)) || (exists set_, sel, taken :: SetsSelection(s, s', set_, sel, taken))
          || (exists set_, rule :: Excludes(s, s', set_, rule))
    ensures Inv(tools, s') && Lasts(s.db, s'.db)
  {
    hide SetsInv, CallsInv, NumberedTo;
    InvEdit(tools, s, s');
  }

  // ---- every run --------------------------------------------------------------------------------------------------------

  lemma InvInit(tools: Tools, s: State)
    requires Init(s)
    ensures Inv(tools, s)
  {}

  lemma InvCallStep(tools: Tools, s: State, s': State, c: CallId)
    requires Inv(tools, s) && CallStep(tools, s, s', c)
    ensures Inv(tools, s') && Lasts(s.db, s'.db)
  {
    hide Inv, Fails, Begins, Locks, Numbers, Inserts, CommitsRevision, ReadsSelection, Queries, Compiles, Stamps, Pins,
      CommitsFreeze, Lasts;
    if call :| Begins(s, s', c, call) { InvBegins(tools, s, s', c, call); }
    else if Fails(s, s', c) { InvFails(tools, s, s', c); }
    else if Locks(s, s', c) { InvLocks(tools, s, s', c); }
    else if Numbers(s, s', c) { InvNumbers(tools, s, s', c); }
    else if Inserts(s, s', c) { InvInserts(tools, s, s', c); }
    else if CommitsRevision(tools, s, s', c) { InvCommitsRevision(tools, s, s', c); }
    else if ReadsSelection(s, s', c) || Queries(s, s', c) { InvReads(tools, s, s', c); }
    else if Compiles(tools, s, s', c) { InvCompiles(tools, s, s', c); }
    else if Stamps(s, s', c) || Pins(s, s', c) { InvStamps(tools, s, s', c); }
    else { InvCommitsFreeze(tools, s, s', c); }
  }

  lemma InvEditStep(tools: Tools, s: State, s': State)
    requires Inv(tools, s) && EditStep(tools, s, s')
    ensures Inv(tools, s') && Lasts(s.db, s'.db)
  {
    hide Inv, CreatesRule, Deletes, Backfills, CreatesSet, SetsSelection, Excludes, Lasts;
    if rule, layer, text :| CreatesRule(tools, s, s', rule, layer, text) { InvCreatesRule(tools, s, s', rule, layer, text); }
    else if rule :| Deletes(s, s', rule) { InvDeletes(tools, s, s', rule); }
    else if ids :| Backfills(tools, s, s', ids) { InvBackfills(tools, s, s', ids); }
    else { InvSets(tools, s, s'); }
  }

  lemma {:induction false} InvAlways(tools: Tools, run: seq<State>, i: nat)
    requires Behaviour(tools, run) && i < |run|
    ensures Inv(tools, run[i])
  {
    hide Inv, CallStep, EditStep;
    if i == 0 {
      InvInit(tools, run[0]);
    } else {
      InvAlways(tools, run, i - 1);
      InvNext(tools, run[i - 1], run[i]);
    }
  }

  lemma InvNext(tools: Tools, s: State, s': State)
    requires Inv(tools, s) && Next(tools, s, s')
    ensures Inv(tools, s') && Lasts(s.db, s'.db)
  {
    hide Inv, CallStep, EditStep, Lasts;
    if EditStep(tools, s, s') {
      InvEditStep(tools, s, s');
    } else {
      var c :| CallStep(tools, s, s', c);
      InvCallStep(tools, s, s', c);
    }
  }

  lemma {:induction false} StaysAlways(tools: Tools, run: seq<State>, i: nat, j: nat)
    requires Behaviour(tools, run) && i <= j < |run|
    ensures Lasts(run[i].db, run[j].db)
    decreases j
  {
    hide Inv, CallStep, EditStep;
    if i < j {
      StaysAlways(tools, run, i, j - 1);
      InvAlways(tools, run, j - 1);
      InvNext(tools, run[j - 1], run[j]);
      StaysTransitive(run[i].db, run[j - 1].db, run[j].db);
    }
  }

  /** Under any interleaving of revisions, each rule's revisions are numbered 1 to n without gap or repeat, no
      call meets the unique key, and each number handed back is that of the call's own text and of no other call. */
  lemma NumbersHaveNoGaps(tools: Tools, run: seq<State>, i: nat)
    requires Behaviour(tools, run) && i < |run|
    ensures forall rule :: rule in run[i].db.rules ==> Contiguous(run[i].db.revisions, rule)
    ensures forall c :: c in run[i].calls && run[i].calls[c].Revise? ==> run[i].calls[c].revising != DuplicateNumber
    ensures forall c :: IsRevised(run[i], c) ==> Answered(run[i], run[i].calls[c])
    ensures forall c, d :: SameAnswer(run[i], c, d) ==> c == d
  {
    var s := run[i];
    InvAlways(tools, run, i);
    hide NumberingInv, SetsInv, NumberedTo;
    forall c | c in s.calls && s.calls[c].Revise?
      ensures s.calls[c].revising != DuplicateNumber && (IsRevised(s, c) ==> Answered(s, s.calls[c]))
    {
      assert CallOk(tools, s, s.calls[c]);
    }
    forall c, d | SameAnswer(s, c, d) ensures c == d {
      SameNumberSameCall(tools, s, c, d);
    }
  }

  predicate IsRevised(s: State, c: CallId) {
    c in s.calls && s.calls[c].Revise? && s.calls[c].revising.Revised?
  }

  /** Both calls were handed the same number of the same rule. */
  predicate SameAnswer(s: State, c: CallId, d: CallId) {
    && IsRevised(s, c) && IsRevised(s, d) && s.calls[c].rule == s.calls[d].rule
    && s.calls[c].revising.next == s.calls[d].revising.next
  }

  predicate Answered(s: State, call: Call)
    requires call.Revise? && call.revising.Revised?
  {
    call.revising.id in s.db.revisions && Published(s.db.revisions[call.revising.id], call, call.revising.next)
  }

  lemma SameNumberSameCall(tools: Tools, s: State, c: CallId, d: CallId)
    requires Inv(tools, s) && SameAnswer(s, c, d)
    ensures c == d
  {
    hide SetsInv, Has;
    var rule, a, b := s.calls[c].rule, s.calls[c].revising.id, s.calls[d].revising.id;
    assert CallOk(tools, s, s.calls[c]) && CallOk(tools, s, s.calls[d]);
    assert Contiguous(s.db.revisions, rule);
    assert SameNumber(s.db.revisions, rule, a, b);
    assert HoldsId(s.calls[c], a) && HoldsId(s.calls[d], b);
  }

  /** Each revision's metadata is that of its text. */
  ghost predicate MetaOfText(tools: Tools, revs: Revisions) {
    forall id :: id in revs ==> revs[id].meta == tools.meta(revs[id].text)
  }

  lemma MetaNext(tools: Tools, s: State, s': State)
    requires MetaOfText(tools, s.db.revisions) && Next(tools, s, s')
    ensures MetaOfText(tools, s'.db.revisions)
  {
    hide EditStep, CallStep, MetaOfText;
    if EditStep(tools, s, s') {
      MetaEdit(tools, s, s');
    } else {
      var c :| CallStep(tools, s, s', c);
      MetaCall(tools, s, s', c);
    }
  }

  lemma MetaEdit(tools: Tools, s: State, s': State)
    requires MetaOfText(tools, s.db.revisions) && EditStep(tools, s, s')
    ensures MetaOfText(tools, s'.db.revisions)
  {
    hide CreatesRule, Backfills, MetaOfText;
    if rule, layer, text :| CreatesRule(tools, s, s', rule, layer, text) { MetaCreates(tools, s, s', rule, layer, text); }
    else if ids :| Backfills(tools, s, s', ids) { MetaBackfills(tools, s, s', ids); }
  }

  lemma MetaCreates(tools: Tools, s: State, s': State, rule: RuleId, layer: string, text: string)
    requires MetaOfText(tools, s.db.revisions) && CreatesRule(tools, s, s', rule, layer, text)
    ensures MetaOfText(tools, s'.db.revisions)
  {}

  lemma MetaBackfills(tools: Tools, s: State, s': State, ids: set<RevisionId>)
    requires MetaOfText(tools, s.db.revisions) && Backfills(tools, s, s', ids)
    ensures MetaOfText(tools, s'.db.revisions)
  {}

  lemma MetaCall(tools: Tools, s: State, s': State, c: CallId)
    requires MetaOfText(tools, s.db.revisions) && CallStep(tools, s, s', c)
    ensures MetaOfText(tools, s'.db.revisions)
  {
    hide Resolves, IsMax, Has, RuleLocked, SetLocked, Moves;
  }

  /** In every state of every run, whoever wrote the revision. */
  lemma {:induction false} MetaAlways(tools: Tools, run: seq<State>, i: nat)
    requires Behaviour(tools, run) && i < |run|
    ensures MetaOfText(tools, run[i].db.revisions)
  {
    hide Next;
    if i > 0 {
      MetaAlways(tools, run, i - 1);
      MetaNext(tools, run[i - 1], run[i]);
    }
  }

  // ---- frozen sets ---------------------------------------------------------------------------------------------------------

  lemma FirstIn(rows: seq<Row>)
    ensures rows == [] || rows[0] in rows
  {}

  /** Rows in rule order are determined by which rows they are. */
  lemma {:induction false} OrderedUnique(a: seq<Row>, b: seq<Row>)
    requires Ascending(a) && Ascending(b) && forall row :: row in a <==> row in b
    ensures a == b
    decreases |a|
  {
    if a != [] {
      assert a[0] in b && b[0] in a;
      forall row ensures row in a[1..] <==> row in b[1..] {
        assert row in a <==> row == a[0] || row in a[1..];
        assert row in b <==> row == b[0] || row in b[1..];
      }
      OrderedUnique(a[1..], b[1..]);
      assert a == [a[0]] + a[1..] && b == [b[0]] + b[1..];
    } else {
      FirstIn(b);
    }
  }

  /** However the database breaks ties, the members come back as the rows that were pinned. */
  lemma MembersArePinned(tools: Tools, s: State, set_: SetId, stamp: Stamp, pinned: seq<Row>, rows: seq<Row>)
    requires PinnedAs(tools, s, set_, stamp, pinned) && IsFrozenMembers(s.db, set_, rows)
    ensures rows == pinned
  {
    forall row | row in rows ensures row in pinned {
      assert (set_, row.id) in Members(set_, pinned);
      var p :| p in pinned && (set_, p.id) == (set_, row.id);
      assert IsRow(s.db.revisions, p) && IsRow(s.db.revisions, row);
    }
    forall row | row in pinned ensures row in rows {
      assert (set_, row.id) in Members(set_, pinned);
      var r :| r in rows && r.id == row.id;
      assert IsRow(s.db.revisions, r) && IsRow(s.db.revisions, row);
    }
    forall i, j | 0 <= i < j < |rows| ensures rows[i].rule < rows[j].rule {
      assert rows[i] in pinned && rows[j] in pinned;
      DistinctRules(pinned, rows[i], rows[j]);
    }
    OrderedUnique(rows, pinned);
  }

  lemma DistinctRules(rows: seq<Row>, a: Row, b: Row)
    requires Ascending(rows) && a in rows && b in rows && a != b
    ensures a.rule != b.rule
  {
    var i :| 0 <= i < |rows| && rows[i] == a;
    var j :| 0 <= j < |rows| && rows[j] == b;
    if i < j { assert rows[i].rule < rows[j].rule; } else { assert rows[j].rule < rows[i].rule; }
  }

  predicate IsFrozen(s: State, set_: SetId) {
    set_ in s.db.sets && s.db.sets[set_].stamp.Some?
  }

  /** In every reachable state a frozen set's recorded digest is that of compiling exactly its pinned revisions
      in rule order, and the blob it names is stored. A draft has no members. */
  lemma DigestIsOfMembers(tools: Tools, run: seq<State>, i: nat, set_: SetId, rows: seq<Row>)
    requires Behaviour(tools, run) && i < |run| && IsFrozenMembers(run[i].db, set_, rows)
    ensures !IsFrozen(run[i], set_) ==> rows == []
    ensures IsFrozen(run[i], set_) ==>
              var digest := run[i].db.sets[set_].stamp.value.digest;
              && rows != [] && Ascending(rows)
              && tools.compile(Sources(rows)).Some? && digest == tools.digest(tools.compile(Sources(rows)).value)
              && digest in run[i].blobs && tools.digest(run[i].blobs[digest]) == digest
  {
    var s := run[i];
    InvAlways(tools, run, i);
    assert SetOk(tools, s, set_);
    if IsFrozen(s, set_) {
      var stamp := s.db.sets[set_].stamp.value;
      var pinned :| PinnedAs(tools, s, set_, stamp, pinned);
      MembersArePinned(tools, s, set_, stamp, pinned, rows);
    } else {
      FirstIn(rows);
    }
  }

  /** Once frozen, always the same: no later edit, delete, exclusion, backfill, revision or freeze changes the
      stamp, the selection or the members, down to their texts. */
  lemma FrozenForever(tools: Tools, run: seq<State>, i: nat, j: nat, set_: SetId, rows: seq<Row>)
    requires Behaviour(tools, run) && i <= j < |run| && IsFrozen(run[i], set_)
    ensures IsFrozen(run[j], set_) && run[j].db.sets[set_] == run[i].db.sets[set_]
    ensures IsFrozenMembers(run[i].db, set_, rows) ==> IsFrozenMembers(run[j].db, set_, rows)
  {
    StaysAlways(tools, run, i, j);
    assert FrozenStay(run[i].db, run[j].db, set_);
    if IsFrozenMembers(run[i].db, set_, rows) {
      forall row | row in rows ensures IsRow(run[j].db.revisions, row) { assert IsRow(run[i].db.revisions, row); }
    }
  }

  /** A freeze that reports success has recorded the digest it returns. */
  lemma SuccessIsRecorded(tools: Tools, run: seq<State>, i: nat, c: CallId)
    requires Behaviour(tools, run) && i < |run| && c in run[i].calls
    requires run[i].calls[c].Freeze? && run[i].calls[c].freezing.Frozen?
    ensures var Freeze(set_, version, Frozen(digest)) := run[i].calls[c];
            IsFrozen(run[i], set_) && run[i].db.sets[set_].stamp.value == Stamp(version, digest)
  {
    InvAlways(tools, run, i);
    hide NumberingInv, SetsInv, LocksInv, RevisionsInv;
    assert CallOk(tools, run[i], run[i].calls[c]);
  }

  /** Two freezes of one set that both report success, however far apart, are the same call. */
  lemma OneFreezeWins(tools: Tools, run: seq<State>, i: nat, j: nat, set_: SetId, c: CallId, d: CallId)
    requires Behaviour(tools, run) && i <= j < |run| && HasFrozen(run[i], c, set_) && HasFrozen(run[j], d, set_)
    ensures c == d
  {
    hide Behaviour, OneFroze, HasFrozen;
    FrozeStays(tools, run, i, j, c, set_);
    OneFrozeAlways(tools, run, j);
    TheOneFroze(run[j], c, d, set_);
  }

  predicate HasFrozen(s: State, c: CallId, set_: SetId) { c in s.calls && Froze(s.calls[c], set_) }

  ghost predicate OneFroze(s: State) {
    forall c, d, set_: SetId :: HasFrozen(s, c, set_) && HasFrozen(s, d, set_) ==> c == d
  }

  lemma TheOneFroze(s: State, c: CallId, d: CallId, set_: SetId)
    requires OneFroze(s) && HasFrozen(s, c, set_) && HasFrozen(s, d, set_)
    ensures c == d
  {}

  /** A call ends once: no step touches a freeze that reported success, and only a commit makes one. */
  lemma FrozeStep(tools: Tools, s: State, s': State)
    requires Next(tools, s, s')
    ensures forall c, set_: SetId :: HasFrozen(s, c, set_) ==> HasFrozen(s', c, set_)
    ensures forall c, set_: SetId :: HasFrozen(s', c, set_) && !HasFrozen(s, c, set_) ==> CommitsFreeze(s, s', c) && s.calls[c].set_ == set_
  {
    hide Resolves, IsMax, Has, RuleLocked, SetLocked;
    if EditStep(tools, s, s') {
      EditKeepsCalls(tools, s, s');
    } else {
      var c :| CallStep(tools, s, s', c);
      OneCallMoves(tools, s, s', c);
    }
  }

  lemma EditKeepsCalls(tools: Tools, s: State, s': State)
    requires EditStep(tools, s, s')
    ensures s'.calls == s.calls && forall set_ :: IsFrozen(s', set_) <==> IsFrozen(s, set_)
  {}

  /** A step of call c leaves every other call where it is, and c was not at its end. */
  lemma OneCallMoves(tools: Tools, s: State, s': State, c: CallId)
    requires CallStep(tools, s, s', c)
    ensures c in s'.calls && s'.calls == s.calls[c := s'.calls[c]]
    ensures c in s.calls ==> !Ended(s.calls[c])
    ensures s'.calls[c].Freeze? && s'.calls[c].freezing.Frozen? ==> CommitsFreeze(s, s', c) && s'.calls[c].set_ == s.calls[c].set_
    ensures CommitsFreeze(s, s', c) || s'.db.sets == s.db.sets
  {
    hide Resolves, IsMax, Has, RuleLocked, SetLocked;
  }

  lemma {:induction false} FrozeStays(tools: Tools, run: seq<State>, i: nat, j: nat, c: CallId, set_: SetId)
    requires Behaviour(tools, run) && i <= j < |run| && HasFrozen(run[i], c, set_)
    ensures HasFrozen(run[j], c, set_)
    decreases j
  {
    hide Next, HasFrozen;
    if i < j {
      FrozeStays(tools, run, i, j - 1, c, set_);
      FrozeStep(tools, run[j - 1], run[j]);
    }
  }

  lemma OneFrozeNext(tools: Tools, s: State, s': State)
    requires Inv(tools, s) && OneFroze(s) && Next(tools, s, s')
    ensures OneFroze(s')
  {
    FrozeStep(tools, s, s');
    hide Next, NumberingInv, RevisionsInv, LocksInv, SetsInv, BlobsInv, CallOk, Froze;
    forall c, d, set_: SetId | HasFrozen(s', c, set_) && HasFrozen(s', d, set_) ensures c == d {
      if !HasFrozen(s, c, set_) { FirstToFreeze(tools, s, s', c, d, set_); }
      else if !HasFrozen(s, d, set_) { FirstToFreeze(tools, s, s', d, c, set_); }
    }
  }

  /** A commit finds nobody who reported success for the set before it. */
  lemma FirstToFreeze(tools: Tools, s: State, s': State, c: CallId, d: CallId, set_: SetId)
    requires Inv(tools, s) && Next(tools, s, s') && CommitsFreeze(s, s', c) && s.calls[c].set_ == set_
    requires HasFrozen(s', d, set_)
    ensures c == d
  {
    hide Next, NumberingInv, RevisionsInv, LocksInv, SetsInv, BlobsInv, CallOk;
    assert CallOk(tools, s, s.calls[c]);
    if d != c {
      assert d in s.calls && s'.calls[d] == s.calls[d];
      NotFrozeYet(tools, s, s.calls[c], s.calls[d]);
    }
  }

  lemma {:induction false} OneFrozeAlways(tools: Tools, run: seq<State>, i: nat)
    requires Behaviour(tools, run) && i < |run|
    ensures OneFroze(run[i])
  {
    hide Inv, Next, OneFroze;
    if i == 0 {
      NobodyFroze(run[0]);
    } else {
      OneFrozeAlways(tools, run, i - 1);
      InvAlways(tools, run, i - 1);
      OneFrozeNext(tools, run[i - 1], run[i]);
    }
  }

  lemma NobodyFroze(s: State)
    requires Init(s)
    ensures OneFroze(s)
  {}

  // ---- what was pinned --------------------------------------------------------------------------------------------------

  /** The call is about to read this selection of its set. */
  ghost predicate ReadAt(s: State, c: CallId, set_: SetId, version: nat, sel: Selection) {
    && c in s.calls && s.calls[c] == Freeze(set_, version, Reading)
    && set_ in s.db.sets && s.db.sets[set_].selection == sel
  }

  /** The call asks for the rows of the selection it read, and these are the answer. */
  ghost predicate QueriedAt(s: State, c: CallId, set_: SetId, version: nat, sel: Selection, rows: seq<Row>) {
    c in s.calls && s.calls[c] == Freeze(set_, version, Querying(sel)) && Resolves(s.db, set_, sel, rows)
  }

  ghost predicate Selected(run: seq<State>, upTo: nat, c: CallId, set_: SetId, version: nat, sel: Selection) {
    exists i: nat :: i <= upTo < |run| && ReadAt(run[i], c, set_, version, sel)
  }

  ghost predicate Resolved(run: seq<State>, upTo: nat, c: CallId, set_: SetId, version: nat, rows: seq<Row>) {
    exists i: nat, sel :: i <= upTo < |run| && QueriedAt(run[i], c, set_, version, sel, rows) && Selected(run, i, c, set_, version, sel)
  }

  /** What a freeze under way works with, it got from the tables. */
  ghost predicate Traced(run: seq<State>, upTo: nat, c: CallId, call: Call) {
    match call
    case Freeze(set_, version, Querying(sel)) => Selected(run, upTo, c, set_, version, sel)
    case Freeze(set_, version, Compiling(rows)) => Resolved(run, upTo, c, set_, version, rows)
    case Freeze(set_, version, Storing(rows, _)) => Resolved(run, upTo, c, set_, version, rows)
    case Freeze(set_, version, Pinning(rows, _, _)) => Resolved(run, upTo, c, set_, version, rows)
    case _ => true
  }

  lemma TracedLater(run: seq<State>, a: nat, b: nat, c: CallId, call: Call)
    requires a <= b < |run| && Traced(run, a, c, call)
    ensures Traced(run, b, c, call)
  {
    hide ReadAt, QueriedAt;
  }

  /** The stages of one freeze hand the selection and the rows on. */
  ghost predicate HandedOn(s: State, s': State, c: CallId, set_: SetId, version: nat, phase: FreezePhase) {
    match phase
    case Querying(sel) => ReadAt(s, c, set_, version, sel)
    case Compiling(rows) => exists sel :: QueriedAt(s, c, set_, version, sel, rows)
    case Storing(rows, _) => SameRows(s, s', c)
    case Pinning(rows, _, _) => SameRows(s, s', c)
    case _ => true
  }

  lemma Progress(tools: Tools, s: State, s': State, c: CallId)
    requires CallStep(tools, s, s', c) && c in s'.calls && s'.calls[c].Freeze?
    ensures HandedOn(s, s', c, s'.calls[c].set_, s'.calls[c].version, s'.calls[c].freezing)
  {
    hide Resolves, RuleLocked, SetLocked;
    if Queries(s, s', c) {
      var rows :| Resolves(s.db, s.calls[c].set_, s.calls[c].freezing.selection, rows)
                  && FreezesTo(s, s', c, if rows == [] then Refused else Compiling(rows));
      assert QueriedAt(s, c, s.calls[c].set_, s.calls[c].version, s.calls[c].freezing.selection, rows);
    }
  }

  /** The call goes from one of its later stages to the next with the same rows. */
  ghost predicate SameRows(s: State, s': State, c: CallId) {
    && c in s.calls && c in s'.calls && s.calls[c].Freeze? && s'.calls[c].Freeze?
    && s.calls[c].set_ == s'.calls[c].set_ && s.calls[c].version == s'.calls[c].version
    && (s.calls[c].freezing.Compiling? || s.calls[c].freezing.Storing? || s.calls[c].freezing.Pinning?)
    && (s'.calls[c].freezing.Storing? || s'.calls[c].freezing.Pinning?)
    && s.calls[c].freezing.rows == s'.calls[c].freezing.rows
  }

  lemma {:induction false} TracedAlways(tools: Tools, run: seq<State>, j: nat, c: CallId)
    requires Behaviour(tools, run) && j < |run| && c in run[j].calls
    ensures Traced(run, j, c, run[j].calls[c])
  {
    hide EditStep, CallStep, Traced, Selected, Resolved;
    if j > 0 {
      var s, s' := run[j - 1], run[j];
      assert Next(tools, s, s');
      if EditStep(tools, s, s') {
        EditKeepsCalls(tools, s, s');
        TracedAlways(tools, run, j - 1, c);
        TracedLater(run, j - 1, j, c, s.calls[c]);
      } else {
        var d :| CallStep(tools, s, s', d);
        OneCallMoves(tools, s, s', d);
        if c in s.calls {
          TracedAlways(tools, run, j - 1, c);
          TracedLater(run, j - 1, j, c, s.calls[c]);
        }
        if c == d { TracedNext(tools, run, j, c); }
      }
    }
  }

  lemma TracedNext(tools: Tools, run: seq<State>, j: nat, c: CallId)
    requires 0 < j < |run| && CallStep(tools, run[j - 1], run[j], c) && c in run[j].calls
    requires c in run[j - 1].calls ==> Traced(run, j, c, run[j - 1].calls[c]) && Traced(run, j - 1, c, run[j - 1].calls[c])
    ensures Traced(run, j, c, run[j].calls[c])
  {
    var s, s' := run[j - 1], run[j];
    if s'.calls[c].Freeze? {
      Progress(tools, s, s', c);
      hide CallStep, ReadAt, QueriedAt;
      if c in s.calls { QueriedWasReading(s, c); }
    }
  }

  lemma QueriedWasReading(s: State, c: CallId)
    requires c in s.calls
    ensures forall set_, version, sel, rows :: QueriedAt(s, c, set_, version, sel, rows) ==>
              s.calls[c] == Freeze(set_, version, Querying(sel))
  {}

  /** The members of a frozen set were the newest revisions, number n of 1 to n, when its freeze asked for them. */
  lemma MembersWereNewest(tools: Tools, run: seq<State>, j: nat, set_: SetId, rows: seq<Row>) returns (at: nat)
    requires Behaviour(tools, run) && j < |run| && IsFrozen(run[j], set_) && IsFrozenMembers(run[j].db, set_, rows)
    ensures at <= j && forall row :: row in rows ==> IsNewest(run[at].db.revisions, row)
  {
    hide Behaviour, IsFrozenMembers, CommitsFreeze, QueriedAt, Selected, IsNewest, Inv;
    MembersWereResolved(tools, run, j, set_, rows);
    var version := run[j].db.sets[set_].stamp.value.version;
    var c, k: nat :| k <= j && CommittedAt(run, k, c, set_) && Resolved(run, k - 1, c, set_, version, rows);
    var i: nat, sel :| i <= k - 1 < |run| && QueriedAt(run[i], c, set_, version, sel, rows) && Selected(run, i, c, set_, version, sel);
    at := i;
    InvAlways(tools, run, i);
    QueriedIsNewest(tools, run[i], c, set_, version, sel, rows);
  }

  /** The rows were what the set's selection resolved to while the freezing call asked for them, for a selection
      the set had when that call read it, and that call's commit froze the set. */
  ghost predicate FrozenBy(run: seq<State>, j: nat, set_: SetId, version: nat, rows: seq<Row>) {
    exists c, k: nat :: k <= j && CommittedAt(run, k, c, set_) && Resolved(run, k - 1, c, set_, version, rows)
  }

  ghost predicate CommittedAt(run: seq<State>, k: nat, c: CallId, set_: SetId) {
    0 < k < |run| && CommitsFreeze(run[k - 1], run[k], c) && run[k - 1].calls[c].set_ == set_
  }

  /** While a freeze asks for its rows, each row is the newest revision of its rule: its number is the count of the
      rule's revisions. And a rule has a row exactly when it is there, not deleted, in a selected layer or selected
      by itself, and not excluded from the set. */
  lemma QueriedIsNewest(tools: Tools, s: State, c: CallId, set_: SetId, version: nat, sel: Selection, rows: seq<Row>)
    requires Inv(tools, s) && QueriedAt(s, c, set_, version, sel, rows)
    ensures forall row :: row in rows ==> IsNewest(s.db.revisions, row)
    ensures forall rule :: HasRow(rows, rule) <==>
              && rule in s.db.rules && !s.db.rules[rule].deleted
              && (s.db.rules[rule].layer in sel.layers || rule in sel.rules) && (set_, rule) !in s.db.exclusions
              && HasRevision(s.db.revisions, rule)
  {
    hide CallsInv, LocksInv, SetsInv, BlobsInv, Ascending, NumberedTo, Has;
    forall row | row in rows ensures IsNewest(s.db.revisions, row) {
      assert IsRow(s.db.revisions, row) && IsLatest(s.db.revisions, row.id);
      assert Contiguous(s.db.revisions, row.rule);
      LatestIsCount(s.db.revisions, row);
    }
    forall rule | HasRevision(s.db.revisions, rule) && Chosen(s.db, set_, sel, rule) ensures HasRow(rows, rule) {
      var id :| id in s.db.revisions && s.db.revisions[id].rule == rule;
      var row :| row in rows && row.rule == s.db.revisions[id].rule;
    }
    forall rule | HasRow(rows, rule) ensures HasRevision(s.db.revisions, rule) && Chosen(s.db, set_, sel, rule) {
      var row :| row in rows && row.rule == rule;
      assert IsRow(s.db.revisions, row);
    }
  }

  lemma {:induction false} GreatestRule(rules: set<RuleId>) returns (m: RuleId)
    requires rules != {}
    ensures m in rules && forall r :: r in rules ==> r <= m
    decreases |rules|
  {
    m :| m in rules;
    if rules != {m} {
      assert rules - {m} != {};
      var n := GreatestRule(rules - {m});
      assert forall r :: r in rules ==> r == m || r in rules - {m};
      if n > m { m := n; }
    }
  }

  /** The row with the greatest number. */
  lemma NewestRow(revs: Revisions, rule: RuleId) returns (row: Row)
    requires Contiguous(revs, rule) && HasRevision(revs, rule)
    ensures row.rule == rule && IsRow(revs, row) && IsLatest(revs, row.id)
  {
    var n: nat :| NumberedTo(revs, rule, n);
    var some :| some in revs && revs[some].rule == rule;
    assert Has(revs, rule, n);
    var id :| id in revs && revs[id].rule == rule && revs[id].number == n;
    row := Row(id, rule, revs[id].text);
  }

  /** One row for each of these rules, in order. */
  ghost predicate RowsOf(revs: Revisions, rules: set<RuleId>, rows: seq<Row>) {
    && Ascending(rows)
    && (forall row :: row in rows ==> row.rule in rules && IsRow(revs, row) && IsLatest(revs, row.id))
    && forall rule :: rule in rules ==> HasRow(rows, rule)
  }

  lemma {:induction false} NewestRows(revs: Revisions, rules: set<RuleId>) returns (rows: seq<Row>)
    requires forall rule :: rule in rules ==> Contiguous(revs, rule) && HasRevision(revs, rule)
    ensures RowsOf(revs, rules, rows)
    decreases |rules|
  {
    hide Contiguous, IsLatest, IsRow;
    if rules == {} {
      rows := [];
    } else {
      var m := GreatestRule(rules);
      var before := NewestRows(revs, rules - {m});
      var row := NewestRow(revs, m);
      rows := before + [row];
      assert rows[|before|] == row;
      forall i | 0 <= i < |before| ensures before[i].rule < m {
        assert before[i] in before && before[i].rule in rules - {m};
      }
      forall rule | rule in rules ensures HasRow(rows, rule) {
        if rule != m {
          assert HasRow(before, rule);
          var r :| r in before && r.rule == rule;
          assert r in rows;
        } else {
          assert row in rows;
        }
      }
    }
  }

  /** The selection of a set always resolves, and to one list of rows only. */
  lemma ResolvesToOne(tools: Tools, s: State, set_: SetId, sel: Selection) returns (rows: seq<Row>)
    requires Inv(tools, s)
    ensures Resolves(s.db, set_, sel, rows)
    ensures forall other :: Resolves(s.db, set_, sel, other) ==> other == rows
  {
    hide CallsInv, LocksInv, SetsInv, BlobsInv, IsLatest;
    var revs := s.db.revisions;
    var rules := set id | id in revs && Chosen(s.db, set_, sel, revs[id].rule) :: revs[id].rule;
    forall rule | rule in rules ensures Contiguous(revs, rule) && HasRevision(revs, rule) {}
    rows := NewestRows(revs, rules);
    forall id | id in revs && Chosen(s.db, set_, sel, revs[id].rule) ensures exists row :: row in rows && row.rule == revs[id].rule {
      assert HasRow(rows, revs[id].rule);
    }
    forall other | Resolves(s.db, set_, sel, other) ensures other == rows {
      SameRowsIn(s, set_, sel, other, rows);
      SameRowsIn(s, set_, sel, rows, other);
      OrderedUnique(other, rows);
    }
  }

  lemma SameRowsIn(s: State, set_: SetId, sel: Selection, a: seq<Row>, b: seq<Row>)
    requires NumberingInv(s) && RevisionsInv(s) && Resolves(s.db, set_, sel, a) && Resolves(s.db, set_, sel, b)
    ensures forall row :: row in a ==> row in b
  {
    hide Resolves, Chosen, Contiguous;
    forall row | row in a ensures row in b {
      RowMeans(s.db, set_, sel, a, row);
      var other := RowFor(s.db, set_, sel, b, row.id);
      OneNewestRow(s.db.revisions, row, other);
    }
  }

  lemma RowMeans(db: Db, set_: SetId, sel: Selection, rows: seq<Row>, row: Row)
    requires Resolves(db, set_, sel, rows) && row in rows
    ensures IsRow(db.revisions, row) && IsLatest(db.revisions, row.id) && Chosen(db, set_, sel, db.revisions[row.id].rule)
  {
    hide Ascending, IsLatest, Chosen;
  }

  lemma RowFor(db: Db, set_: SetId, sel: Selection, rows: seq<Row>, id: RevisionId) returns (row: Row)
    requires Resolves(db, set_, sel, rows) && id in db.revisions && Chosen(db, set_, sel, db.revisions[id].rule)
    ensures row in rows && row.rule == db.revisions[id].rule && IsRow(db.revisions, row) && IsLatest(db.revisions, row.id)
  {
    hide Ascending, IsLatest, Chosen;
    row :| row in rows && row.rule == db.revisions[id].rule;
  }

  lemma OneNewestRow(revs: Revisions, a: Row, b: Row)
    requires IsRow(revs, a) && IsRow(revs, b) && IsLatest(revs, a.id) && IsLatest(revs, b.id)
    requires a.rule == b.rule && Contiguous(revs, a.rule)
    ensures a == b
  {
    hide Has;
    var n: nat :| NumberedTo(revs, a.rule, n);
    assert SameNumber(revs, a.rule, a.id, b.id);
  }

  predicate HasRow(rows: seq<Row>, rule: RuleId) { exists row :: row in rows && row.rule == rule }

  predicate HasRevision(revs: Revisions, rule: RuleId) { exists id :: id in revs && revs[id].rule == rule }

  /** The rule's revisions are numbered 1 to n, and the row is number n. */
  ghost predicate IsNewest(revs: Revisions, row: Row) {
    row.id in revs && NumberedTo(revs, row.rule, revs[row.id].number)
  }

  lemma LatestIsCount(revs: Revisions, row: Row)
    requires IsRow(revs, row) && IsLatest(revs, row.id) && Contiguous(revs, row.rule)
    ensures IsNewest(revs, row)
  {
    var n: nat :| NumberedTo(revs, row.rule, n);
    assert n > 0 ==> Has(revs, row.rule, n);
  }

  /** The members of a frozen set are what its selection resolved to during the freeze. */
  lemma {:induction false} MembersWereResolved(tools: Tools, run: seq<State>, j: nat, set_: SetId, rows: seq<Row>)
    requires Behaviour(tools, run) && j < |run| && IsFrozen(run[j], set_) && IsFrozenMembers(run[j].db, set_, rows)
    ensures FrozenBy(run, j, set_, run[j].db.sets[set_].stamp.value.version, rows)
  {
    hide Inv, Next, FrozenBy, PinnedAs, IsFrozenMembers, Resolved, CommitsFreeze;
    if j > 0 && IsFrozen(run[j - 1], set_) {
      FrozenForever(tools, run, j - 1, j, set_, rows);
      MembersBefore(tools, run, j, set_, rows);
      MembersWereResolved(tools, run, j - 1, set_, rows);
      FrozenByLater(run, j - 1, j, set_, run[j].db.sets[set_].stamp.value.version, rows);
    } else if j > 0 {
      var c := FrozenByCommit(tools, run[j - 1], run[j], set_);
      InvAlways(tools, run, j - 1);
      InvAlways(tools, run, j);
      TracedAlways(tools, run, j - 1, c);
      JustPinned(tools, run[j - 1], run[j], c, rows);
      assert FrozenBy(run, j, set_, run[j].db.sets[set_].stamp.value.version, rows) by {
        Committed(run, j, c, rows);
      }
    }
  }

  lemma Committed(run: seq<State>, j: nat, c: CallId, rows: seq<Row>)
    requires 0 < j < |run| && CommitsFreeze(run[j - 1], run[j], c) && Traced(run, j - 1, c, run[j - 1].calls[c])
    requires rows == run[j - 1].calls[c].freezing.rows
    ensures FrozenBy(run, j, run[j - 1].calls[c].set_, run[j - 1].calls[c].version, rows)
  {
    hide Resolved;
    assert CommittedAt(run, j, c, run[j - 1].calls[c].set_);
  }

  lemma FrozenByLater(run: seq<State>, a: nat, b: nat, set_: SetId, version: nat, rows: seq<Row>)
    requires a <= b < |run| && FrozenBy(run, a, set_, version, rows)
    ensures FrozenBy(run, b, set_, version, rows)
  {
    hide CommittedAt, Resolved;
  }

  lemma FrozenByCommit(tools: Tools, s: State, s': State, set_: SetId) returns (c: CallId)
    requires Next(tools, s, s') && !IsFrozen(s, set_) && IsFrozen(s', set_)
    ensures CommitsFreeze(s, s', c) && c in s.calls && s.calls[c].Freeze? && s.calls[c].set_ == set_
    ensures s'.db.sets[set_].stamp.value.version == s.calls[c].version
  {
    hide EditStep, CallStep;
    if EditStep(tools, s, s') {
      EditKeepsCalls(tools, s, s');
    } else {
      c :| CallStep(tools, s, s', c);
      OneCallMoves(tools, s, s', c);
    }
  }

  lemma JustPinned(tools: Tools, s: State, s': State, c: CallId, rows: seq<Row>)
    requires Inv(tools, s) && CommitsFreeze(s, s', c) && IsFrozenMembers(s'.db, s.calls[c].set_, rows)
    ensures rows == s.calls[c].freezing.rows
  {
    hide IsFrozenMembers, NumberingInv, RevisionsInv, LocksInv, BlobsInv, RowsOk, BuiltFrom, SetOk;
    var Freeze(set_, version, Pinning(pinned, digest, n)) := s.calls[c];
    assert CallOk(tools, s, s.calls[c]);
    assert SetOk(tools, s, set_);
    CommitPins(tools, s, s', c);
    MembersArePinned(tools, s', set_, Stamp(version, digest), pinned, rows);
  }

  lemma PinnedAreMembers(tools: Tools, s: State, set_: SetId, stamp: Stamp, rows: seq<Row>)
    requires PinnedAs(tools, s, set_, stamp, rows)
    ensures IsFrozenMembers(s.db, set_, rows)
  {
    forall row | row in rows ensures IsRow(s.db.revisions, row) && (set_, row.id) in s.db.members {
      assert (set_, row.id) in Members(set_, rows);
    }
    forall i, j | 0 <= i < j < |rows| ensures rows[i].id != rows[j].id {
      assert rows[i].rule < rows[j].rule && IsRow(s.db.revisions, rows[i]) && IsRow(s.db.revisions, rows[j]);
    }
  }

  /** The members of a set that was frozen before are the members it had then. */
  lemma MembersBefore(tools: Tools, run: seq<State>, j: nat, set_: SetId, rows: seq<Row>)
    requires Behaviour(tools, run) && 0 < j < |run| && IsFrozen(run[j - 1], set_) && IsFrozenMembers(run[j].db, set_, rows)
    ensures IsFrozenMembers(run[j - 1].db, set_, rows)
  {
    hide Behaviour, PinnedAs, IsFrozenMembers, Inv;
    var stamp, before := PinnedRows(tools, run, j - 1, set_);
    PinnedAreMembers(tools, run[j - 1], set_, stamp, before);
    FrozenForever(tools, run, j - 1, j, set_, before);
    var stamp', after := PinnedRows(tools, run, j, set_);
    MembersArePinned(tools, run[j], set_, stamp', after, before);
    MembersArePinned(tools, run[j], set_, stamp', after, rows);
  }

  lemma PinnedRows(tools: Tools, run: seq<State>, i: nat, set_: SetId) returns (stamp: Stamp, rows: seq<Row>)
    requires Behaviour(tools, run) && i < |run| && IsFrozen(run[i], set_)
    ensures PinnedAs(tools, run[i], set_, stamp, rows)
  {
    InvAlways(tools, run, i);
    hide Behaviour, PinnedAs, CallsInv, LocksInv, NumberingInv, RevisionsInv, BlobsInv;
    assert SetOk(tools, run[i], set_);
    stamp := run[i].db.sets[set_].stamp.value;
    rows :| PinnedAs(tools, run[i], set_, stamp, rows);
  }

  // ---- what does not hold --------------------------------------------------------------------------------------------------

  /** One more exclusion leaves a set resolving to what it did if and only if the rule is none of those it
      resolves to. Nothing asks whether the set is frozen. */
  lemma ExclusionKeepsIff(s: State, after: State, set_: SetId, rule: RuleId, sel: Selection, rows: seq<Row>)
    requires Excludes(s, after, set_, rule) && Resolves(s.db, set_, sel, rows)
    ensures Resolves(after.db, set_, sel, rows) <==> forall row :: row in rows ==> row.rule != rule
  {
    hide Ascending, IsLatest, Chosen;
    forall r ensures Chosen(after.db, set_, sel, r) <==> Chosen(s.db, set_, sel, r) && r != rule { ChosenAfter(s, after, set_, rule, sel, r); }
  }

  /** So does deleting a rule. */
  lemma DeletingKeepsIff(s: State, after: State, set_: SetId, rule: RuleId, sel: Selection, rows: seq<Row>)
    requires Deletes(s, after, rule) && Resolves(s.db, set_, sel, rows)
    ensures Resolves(after.db, set_, sel, rows) <==> forall row :: row in rows ==> row.rule != rule
  {
    hide Ascending, IsLatest, Chosen;
    forall r ensures Chosen(after.db, set_, sel, r) <==> Chosen(s.db, set_, sel, r) && r != rule { ChosenWithout(s, after, set_, rule, sel, r); }
  }

  lemma ChosenWithout(s: State, after: State, set_: SetId, rule: RuleId, sel: Selection, r: RuleId)
    requires Deletes(s, after, rule)
    ensures Chosen(after.db, set_, sel, r) <==> Chosen(s.db, set_, sel, r) && r != rule
  {}

  lemma ChosenAfter(s: State, after: State, set_: SetId, rule: RuleId, sel: Selection, r: RuleId)
    requires Excludes(s, after, set_, rule)
    ensures Chosen(after.db, set_, sel, r) <==> Chosen(s.db, set_, sel, r) && r != rule
  {}

  /** But what the set resolves to can move: an exclusion is taken on a frozen set too, and after excluding any
      pinned rule no selection resolves to the members any more. */
  lemma ExclusionDrifts(tools: Tools, run: seq<State>, i: nat, set_: SetId, rows: seq<Row>, row: Row)
    requires Behaviour(tools, run) && i < |run| && IsFrozen(run[i], set_)
    requires IsFrozenMembers(run[i].db, set_, rows) && row in rows
    ensures exists after :: Excludes(run[i], after, set_, row.rule) && IsFrozenMembers(after.db, set_, rows) && Drifted(after.db, set_, rows)
  {
    var s := run[i];
    InvAlways(tools, run, i);
    assert IsRow(s.db.revisions, row);
    var after := s.(db := s.db.(exclusions := s.db.exclusions + {(set_, row.rule)}));
    assert Excludes(s, after, set_, row.rule);
    assert IsFrozenMembers(after.db, set_, rows);
    forall sel ensures !Resolves(after.db, set_, sel, rows) {
      assert !Chosen(after.db, set_, sel, row.rule);
    }
  }

  ghost predicate Drifted(db: Db, set_: SetId, rows: seq<Row>) {
    forall sel :: !Resolves(db, set_, sel, rows)
  }
}
