/**
 Choosing the probes of a scan and the coverage records of everything else (`selectProbes` and its helpers,
 shellsight/cmd/shellsight/registry.go), over an arbitrary capability table.

 The registry, the declaration of the build and what the package holds on disk are parameters, and so is
 the trimming of names.
 */
module Probes {
  import opened Common

  type View = string

  datatype Row = Row(view: View, os: seq<string>, deferredOn: seq<string>, deferredWhy: string)

  datatype Command = Command(path: string, args: seq<string>)

  datatype Absence = NotInBuild | UnsupportedHere(on: seq<string>) | DeferredHere(why: string)

  datatype Failure = UndeclaredButPresent | NoSuchCapability | MissingComponent(declared: bool)

  datatype Answer = Runs(command: Command) | NotApplicable(why: Absence) | CannotRun(reason: Failure)

  datatype Record = Record(view: View, answer: Answer)

  /** What selection is asked about. `carried` is None when no build declared anything. */
  datatype Setting = Setting(
    table: seq<Row>, goos: string, registry: map<View, Command>,
    carried: Option<set<View>>, packageCarries: Option<View -> bool>, trim: string -> View)
  {
    predicate Excludes(v: View) { carried.Some? && v !in carried.value }

    predicate Declares(v: View) { carried.Some? && v in carried.value }

    predicate Holds(v: View) { packageCarries.Some? && packageCarries.value(v) }
  }

  predicate DeferredOn(r: Row, goos: string) { goos in r.deferredOn }

  predicate AppliesTo(r: Row, goos: string) {
    !DeferredOn(r, goos) && (r.os == [] || goos in r.os)
  }

  /** The first row of the view. */
  function RowFor(table: seq<Row>, v: View): (r: Option<Row>)
    ensures r.None? <==> forall i :: 0 <= i < |table| ==> table[i].view != v
    ensures r.Some? ==> r.value in table && r.value.view == v
  {
    if table == [] then None
    else if table[0].view == v then Some(table[0])
    else RowFor(table[1..], v)
  }

  method SpecFor(table: seq<Row>, v: View) returns (r: Option<Row>)
    ensures r == RowFor(table, v)
  {
    for i := 0 to |table|
      invariant RowFor(table, v) == RowFor(table[i..], v)
    {
      assert table[i..][0] == table[i] && table[i..][1..] == table[i + 1..];
      if table[i].view == v { return Some(table[i]); }
    }
    return None;
  }

  method RegistryForSpecs(table: seq<Row>, goos: string) returns (out: seq<Row>)
    ensures out == Applying(table, goos)
  {
    out := [];
    for i := 0 to |table|
      invariant out == Applying(table[..i], goos)
    {
      assert table[..i + 1][..i] == table[..i];
      if AppliesTo(table[i], goos) { out := out + [table[i]]; }
    }
    assert table[..|table|] == table;
  }

  function Applying(table: seq<Row>, goos: string): seq<Row> {
    if table == [] then []
    else Applying(table[..|table| - 1], goos) + if AppliesTo(table[|table| - 1], goos) then [table[|table| - 1]] else []
  }

  lemma {:induction false} ApplyingAre(table: seq<Row>, goos: string)
    ensures forall r :: r in Applying(table, goos) <==> r in table && AppliesTo(r, goos)
  {
    if table != [] {
      ApplyingAre(table[..|table| - 1], goos);
      assert table == table[..|table| - 1] + [table[|table| - 1]];
    }
  }

  function AbsenceOf(r: Row, goos: string): Absence {
    if DeferredOn(r, goos) then DeferredHere(r.deferredWhy) else UnsupportedHere(r.os)
  }

  /** Why the view cannot exist here, by the first of its rows that says so. */
  function AbsentHere(table: seq<Row>, goos: string, v: View): (a: Option<Absence>)
    ensures a.Some? <==> exists i :: 0 <= i < |table| && table[i].view == v && !AppliesTo(table[i], goos)
  {
    if table == [] then None
    else if table[0].view == v && !AppliesTo(table[0], goos) then Some(AbsenceOf(table[0], goos))
    else
      var rest := AbsentHere(table[1..], goos, v);
      assert forall i :: 0 < i < |table| ==> table[i] == table[1..][i - 1];
      rest
  }

  method NaProbeForSpecs(table: seq<Row>, v: View, goos: string) returns (r: Option<Record>)
    ensures r == match AbsentHere(table, goos, v) case None => None case Some(why) => Some(Record(v, NotApplicable(why)))
  {
    for i := 0 to |table|
      invariant AbsentHere(table, goos, v) == AbsentHere(table[i..], goos, v)
    {
      assert table[i..][0] == table[i] && table[i..][1..] == table[i + 1..];
      if table[i].view != v || AppliesTo(table[i], goos) { continue; }
      return Some(Record(v, NotApplicable(AbsenceOf(table[i], goos))));
    }
    return None;
  }

  // ---- what each view is owed ----------------------------------------------------------------------------------

  /** The record a request for the view produces by itself, if any. */
  function Requested(s: Setting, v: View): Option<Answer> {
    if v in s.registry then
      if s.Excludes(v) then Some(Undeclared(s, v)) else Some(Runs(s.registry[v]))
    else
      match RowFor(s.table, v)
      case None => if s.Declares(v) then Some(CannotRun(NoSuchCapability)) else None
      case Some(row) =>
        if !AppliesTo(row, s.goos) || s.Excludes(v) then None
        else Some(CannotRun(MissingComponent(s.carried.Some?)))
  }

  function Undeclared(s: Setting, v: View): Answer {
    if s.Holds(v) then CannotRun(UndeclaredButPresent) else NotApplicable(NotInBuild)
  }

  /** Neither the registry, the table nor the build knows the name. */
  predicate IsUnknown(s: Setting, v: View) {
    v !in s.registry && RowFor(s.table, v).None? && !s.Declares(v)
  }

  predicate SupportedHere(s: Setting, v: View) {
    exists i :: 0 <= i < |s.table| && s.table[i].view == v && AppliesTo(s.table[i], s.goos)
  }

  /** The record stated of a view whether or not it was asked for. */
  function Swept(s: Setting, v: View): Option<Answer> {
    if s.Excludes(v) && SupportedHere(s, v) then Some(Undeclared(s, v))
    else match AbsentHere(s.table, s.goos, v) case None => None case Some(why) => Some(NotApplicable(why))
  }

  /** The one record a view gets. */
  function Owed(s: Setting, asked: set<View>, v: View): Option<Answer> {
    if v in asked && Requested(s, v).Some? then Requested(s, v) else Swept(s, v)
  }

  function Asked(s: Setting, requested: seq<string>): set<View> {
    set r | r in requested && s.trim(r) != "" :: s.trim(r)
  }

  function Unknowns(s: Setting, requested: seq<string>): seq<View> {
    if requested == [] then []
    else
      var v := s.trim(requested[|requested| - 1]);
      Unknowns(s, requested[..|requested| - 1]) + if v != "" && IsUnknown(s, v) then [v] else []
  }

  function RunCount(probes: seq<Record>): nat {
    if probes == [] then 0
    else RunCount(probes[..|probes| - 1]) + if probes[|probes| - 1].answer.Runs? then 1 else 0
  }

  predicate HasRecord(probes: seq<Record>, v: View) {
    exists i :: 0 <= i < |probes| && probes[i].view == v
  }

  ghost predicate OneEach(probes: seq<Record>) {
    forall i, j :: 0 <= i < j < |probes| ==> probes[i].view != probes[j].view
  }

  /** The records so far: one a view, each the one it is owed, and `seen` the views that have one. */
  ghost predicate Records(s: Setting, asked: set<View>, probes: seq<Record>, seen: set<View>) {
    && OneEach(probes)
    && (forall v :: v in seen <==> HasRecord(probes, v))
    && (forall r :: r in probes ==> Owed(s, asked, r.view) == Some(r.answer))
  }

  lemma RecordAdded(s: Setting, asked: set<View>, probes: seq<Record>, seen: set<View>, r: Record)
    requires Records(s, asked, probes, seen) && r.view !in seen && Owed(s, asked, r.view) == Some(r.answer)
    ensures Records(s, asked, probes + [r], seen + {r.view})
    ensures RunCount(probes + [r]) == RunCount(probes) + if r.answer.Runs? then 1 else 0
  {
    hide Owed;
    var all := probes + [r];
    assert all[..|probes|] == probes && all[|probes|] == r;
    forall v ensures v in seen + {r.view} <==> HasRecord(all, v) {
      if HasRecord(probes, v) {
        var i :| 0 <= i < |probes| && probes[i].view == v;
        assert all[i].view == v;
      }
      assert all[|probes|].view == r.view;
    }
    forall i | 0 <= i < |probes| ensures probes[i].view != r.view { assert HasRecord(probes, probes[i].view); }
  }

  /** What the requests alone settle. */
  ghost predicate Answered(s: Setting, asked: set<View>, seen: set<View>) {
    forall v :: v in asked && Requested(s, v).Some? ==> v in seen
  }

  method SelectProbes(s: Setting, requested: seq<string>)
    returns (probes: seq<Record>, runnable: nat, unknown: seq<View>)
    ensures OneEach(probes)
    ensures forall v :: match Owed(s, Asked(s, requested), v)
              case Some(answer) => Record(v, answer) in probes
              case None => !HasRecord(probes, v)
    ensures runnable == RunCount(probes)
    ensures unknown == Unknowns(s, requested)
  {
    hide Owed, Records, Answered, Requested, Swept, Asked, HasRecord, IsUnknown;
    var asked := Asked(s, requested);
    var seen: set<View>;
    probes, seen, runnable, unknown := AnswerRequests(s, requested);
    if s.carried.Some? {
      probes, seen := SweepUncarried(s, asked, probes, seen, runnable);
    } else {
      NothingUncarried(s, seen);
    }
    probes, seen := SweepAbsent(s, asked, probes, seen, runnable);
    forall v ensures match Owed(s, asked, v) case Some(answer) => Record(v, answer) in probes case None => !HasRecord(probes, v) {
      Settled(s, asked, probes, seen, v);
    }
    OneEachOf(s, asked, probes, seen);
  }

  lemma OneEachOf(s: Setting, asked: set<View>, probes: seq<Record>, seen: set<View>)
    requires Records(s, asked, probes, seen)
    ensures OneEach(probes)
  {}

  method AnswerRequests(s: Setting, requested: seq<string>)
    returns (probes: seq<Record>, seen: set<View>, runnable: nat, unknown: seq<View>)
    ensures Records(s, Asked(s, requested), probes, seen) && Answered(s, Asked(s, requested), seen)
    ensures runnable == RunCount(probes) && unknown == Unknowns(s, requested)
  {
    hide Owed, Records, RunCount, HasRecord;
    var asked := Asked(s, requested);
    probes, seen, runnable, unknown := [], {}, 0, [];
    NoRecords(s, asked);
    for n := 0 to |requested|
      invariant Records(s, asked, probes, seen)
      invariant runnable == RunCount(probes) && unknown == Unknowns(s, requested[..n])
      invariant forall i :: 0 <= i < n ==> Settles(s, seen, s.trim(requested[i]))
    {
      assert requested[..n + 1][..n] == requested[..n];
      var v := s.trim(requested[n]);
      if v == "" { continue; }
      assert requested[n] in requested;
      OwedWhenAsked(s, asked, v);
      var answer: Option<Answer> := None;
      if v in s.registry {
        if s.Excludes(v) {
          answer := Some(if s.Holds(v) then CannotRun(UndeclaredButPresent) else NotApplicable(NotInBuild));
        } else {
          answer := Some(Runs(s.registry[v]));
        }
      } else {
        var row := SpecFor(s.table, v);
        if row.None? && s.Declares(v) {
          answer := Some(CannotRun(NoSuchCapability));
        } else if row.None? {
          unknown := unknown + [v];
        } else if !AppliesTo(row.value, s.goos) {
        } else if s.Excludes(v) {
        } else {
          answer := Some(CannotRun(MissingComponent(s.carried.Some?)));
        }
      }
      if answer.Some? && v !in seen {
        RecordAdded(s, asked, probes, seen, Record(v, answer.value));
        seen := seen + {v};
        probes := probes + [Record(v, answer.value)];
        if answer.value.Runs? { runnable := runnable + 1; }
      }
    }
    assert requested[..|requested|] == requested;
    forall v | v in asked && Requested(s, v).Some? ensures v in seen {
      var r :| r in requested && s.trim(r) != "" && s.trim(r) == v;
      var i :| 0 <= i < |requested| && requested[i] == r;
      assert Settles(s, seen, s.trim(requested[i]));
    }
  }

  predicate Settles(s: Setting, seen: set<View>, v: View) {
    v != "" && Requested(s, v).Some? ==> v in seen
  }

  lemma NoRecords(s: Setting, asked: set<View>)
    ensures Records(s, asked, [], {}) && RunCount([]) == 0
  {}

  lemma OwedWhenAsked(s: Setting, asked: set<View>, v: View)
    requires v in asked
    ensures Requested(s, v).Some? ==> Owed(s, asked, v) == Requested(s, v)
  {}

  lemma OwedWhenSwept(s: Setting, asked: set<View>, seen: set<View>, v: View)
    requires Answered(s, asked, seen) && v !in seen
    ensures Owed(s, asked, v) == Swept(s, v)
  {}

  /** Every view the build leaves out has been stated. */
  ghost predicate UncarriedStated(s: Setting, seen: set<View>) {
    forall v :: s.Excludes(v) && SupportedHere(s, v) ==> v in seen
  }

  lemma NothingUncarried(s: Setting, seen: set<View>)
    requires s.carried.None?
    ensures UncarriedStated(s, seen)
  {}

  method SweepUncarried(s: Setting, asked: set<View>, before: seq<Record>, seenBefore: set<View>, ghost runnable: nat)
    returns (probes: seq<Record>, seen: set<View>)
    requires s.carried.Some? && Records(s, asked, before, seenBefore) && Answered(s, asked, seenBefore)
    requires runnable == RunCount(before)
    ensures Records(s, asked, probes, seen) && Answered(s, asked, seen) && UncarriedStated(s, seen)
    ensures runnable == RunCount(probes)
  {
    hide Owed, Records, RunCount, Requested, AbsentHere;
    probes, seen := before, seenBefore;
    var rows := RegistryForSpecs(s.table, s.goos);
    ApplyingAre(s.table, s.goos);
    for n := 0 to |rows|
      invariant Records(s, asked, probes, seen) && Answered(s, asked, seen) && runnable == RunCount(probes)
      invariant forall i :: 0 <= i < n ==> rows[i].view in s.carried.value || rows[i].view in seen
    {
      var v := rows[n].view;
      if v in s.carried.value || v in seen { continue; }
      assert rows[n] in s.table;
      OwedWhenSwept(s, asked, seen, v);
      var answer := if s.Holds(v) then CannotRun(UndeclaredButPresent) else NotApplicable(NotInBuild);
      RecordAdded(s, asked, probes, seen, Record(v, answer));
      seen := seen + {v};
      probes := probes + [Record(v, answer)];
    }
    forall v | s.Excludes(v) && SupportedHere(s, v) ensures v in seen {
      var i :| 0 <= i < |s.table| && s.table[i].view == v && AppliesTo(s.table[i], s.goos);
      assert s.table[i] in rows;
    }
  }

  /** The platform sweep: every row that cannot apply here. */
  method SweepAbsent(s: Setting, asked: set<View>, before: seq<Record>, seenBefore: set<View>, ghost runnable: nat)
    returns (probes: seq<Record>, seen: set<View>)
    requires Records(s, asked, before, seenBefore) && Answered(s, asked, seenBefore) && UncarriedStated(s, seenBefore)
    requires runnable == RunCount(before)
    ensures Records(s, asked, probes, seen) && Answered(s, asked, seen) && UncarriedStated(s, seen)
    ensures forall v :: AbsentHere(s.table, s.goos, v).Some? ==> v in seen
    ensures runnable == RunCount(probes)
  {
    hide Owed, Records, RunCount, Requested, AbsentHere, SupportedHere;
    probes, seen := before, seenBefore;
    for n := 0 to |s.table|
      invariant Records(s, asked, probes, seen) && Answered(s, asked, seen) && UncarriedStated(s, seen)
      invariant runnable == RunCount(probes)
      invariant forall i :: 0 <= i < n && AbsentHere(s.table, s.goos, s.table[i].view).Some? ==> s.table[i].view in seen
    {
      var v := s.table[n].view;
      var na := NaProbeForSpecs(s.table, v, s.goos);
      if na.Some? && v !in seen {
        OwedWhenSwept(s, asked, seen, v);
        RecordAdded(s, asked, probes, seen, na.value);
        seen := seen + {v};
        probes := probes + [na.value];
      }
    }
  }

  lemma Settled(s: Setting, asked: set<View>, probes: seq<Record>, seen: set<View>, v: View)
    requires Records(s, asked, probes, seen) && Answered(s, asked, seen) && UncarriedStated(s, seen)
    requires AbsentHere(s.table, s.goos, v).Some? ==> v in seen
    ensures match Owed(s, asked, v) case Some(answer) => Record(v, answer) in probes case None => !HasRecord(probes, v)
  {
    hide Requested, AbsentHere, SupportedHere;
    if HasRecord(probes, v) {
      var i :| 0 <= i < |probes| && probes[i].view == v;
      assert probes[i] in probes;
    } else {
      assert v !in seen;
    }
  }

  // ---- what selection promises ---------------------------------------------------------------------------------------

  /** Every view asked for is answered: with a record, or as unknown, and never both. */
  lemma AskedIsAnsweredOnce(s: Setting, requested: seq<string>, v: View)
    requires v in Asked(s, requested)
    ensures Owed(s, Asked(s, requested), v).Some? <==> v !in Unknowns(s, requested)
    ensures v in Unknowns(s, requested) <==>
              && v !in s.registry && (forall row :: row in s.table ==> row.view != v)
              && (s.carried.None? || v !in s.carried.value)
  {
    UnknownsAre(s, requested, v);
    if RowFor(s.table, v).Some? {
      var row := RowFor(s.table, v).value;
      var i :| 0 <= i < |s.table| && s.table[i] == row;
      if AppliesTo(row, s.goos) { assert SupportedHere(s, v); }
    }
  }

  lemma {:induction false} UnknownsAre(s: Setting, requested: seq<string>, v: View)
    ensures v in Unknowns(s, requested) <==> v in Asked(s, requested) && IsUnknown(s, v)
  {
    hide IsUnknown;
    if requested != [] {
      var init, last := requested[..|requested| - 1], requested[|requested| - 1];
      UnknownsAre(s, init, v);
      assert requested == init + [last];
      assert Asked(s, requested) == Asked(s, init) + if s.trim(last) != "" then {s.trim(last)} else {};
    }
  }

  /** The row that is looked at does not apply here, whatever later rows of the view say. */
  predicate FirstRowRefuses(s: Setting, v: View) {
    RowFor(s.table, v).Some? && !AppliesTo(RowFor(s.table, v).value, s.goos)
  }

  /** A view that is asked for, not excluded by the build, and supported here runs, or its absence is a failure.
      It is written off as not applicable if and only if nothing is registered for it and the first of its rows
      is one that does not apply. */
  lemma SupportedIsWrittenOffIff(s: Setting, asked: set<View>, v: View)
    requires v in asked && !s.Excludes(v) && (v in s.registry || SupportedHere(s, v))
    ensures Owed(s, asked, v).Some?
    ensures Owed(s, asked, v).value.Runs? <==> v in s.registry
    ensures Owed(s, asked, v).value.NotApplicable? <==> v !in s.registry && FirstRowRefuses(s, v)
  {
    if v !in s.registry && FirstRowRefuses(s, v) {
      var row := RowFor(s.table, v).value;
      var i :| 0 <= i < |s.table| && s.table[i] == row;
      assert AbsentHere(s.table, s.goos, v).Some?;
    }
  }

  /** A table with one row for each view writes off nothing that is supported here. */
  lemma OneRowEachWritesOffNothing(s: Setting, asked: set<View>, v: View)
    requires forall i, j :: 0 <= i < j < |s.table| ==> s.table[i].view != s.table[j].view
    requires v in asked && !s.Excludes(v) && SupportedHere(s, v)
    ensures Owed(s, asked, v).Some? && !Owed(s, asked, v).value.NotApplicable?
  {
    SupportedIsWrittenOffIff(s, asked, v);
    var i :| 0 <= i < |s.table| && s.table[i].view == v && AppliesTo(s.table[i], s.goos);
    var row := RowFor(s.table, v).value;
    var j :| 0 <= j < |s.table| && s.table[j] == row;
  }

  /** What a view with one row and nothing registered is recorded as: deferred or unsupported here, whatever else;
      else left out of the build, which is a failure when its components are in the package; else missing when
      asked for, and otherwise not mentioned. */
  lemma UnregisteredIs(s: Setting, asked: set<View>, row: Row)
    requires forall i, j :: 0 <= i < j < |s.table| ==> s.table[i].view != s.table[j].view
    requires row in s.table && row.view !in s.registry
    ensures Owed(s, asked, row.view) ==
              if s.goos in row.deferredOn then Some(NotApplicable(DeferredHere(row.deferredWhy)))
              else if row.os != [] && s.goos !in row.os then Some(NotApplicable(UnsupportedHere(row.os)))
              else if s.carried.Some? && row.view !in s.carried.value then
                if s.packageCarries.Some? && s.packageCarries.value(row.view) then Some(CannotRun(UndeclaredButPresent))
                else Some(NotApplicable(NotInBuild))
              else if row.view in asked then Some(CannotRun(MissingComponent(s.carried.Some?)))
              else None
  {
    var i :| 0 <= i < |s.table| && s.table[i] == row;
    OnlyRow(s, i);
  }

  /** With one row for the view, that row alone decides. */
  lemma OnlyRow(s: Setting, i: nat)
    requires forall j, k :: 0 <= j < k < |s.table| ==> s.table[j].view != s.table[k].view
    requires i < |s.table|
    ensures var row := s.table[i];
            && RowFor(s.table, row.view) == Some(row)
            && (SupportedHere(s, row.view) <==> AppliesTo(row, s.goos))
            && AbsentHere(s.table, s.goos, row.view) == if AppliesTo(row, s.goos) then None else Some(AbsenceOf(row, s.goos))
  {
    AbsentAlone(s.table, s.goos, i);
    var found := RowFor(s.table, s.table[i].view).value;
    var j :| 0 <= j < |s.table| && s.table[j] == found;
  }

  lemma {:induction false} AbsentAlone(table: seq<Row>, goos: string, i: nat)
    requires i < |table| && forall j :: 0 <= j < |table| && j != i ==> table[j].view != table[i].view
    ensures AbsentHere(table, goos, table[i].view) == if AppliesTo(table[i], goos) then None else Some(AbsenceOf(table[i], goos))
  {
    if i > 0 {
      assert forall j :: 0 <= j < |table| - 1 ==> table[1..][j] == table[j + 1];
      AbsentAlone(table[1..], goos, i - 1);
    }
  }

  /** With a second row it can happen: the view is declared, asked for and supported here, and is reported as
      impossible here. */
  lemma SecondRowIsOverlooked(trim: string -> View)
    ensures var s := Setting([Row("m", ["windows"], [], ""), Row("m", ["linux"], [], "")], "linux", map[],
                             Some({"m"}), None, trim);
            SupportedHere(s, "m") && Owed(s, {"m"}, "m") == Some(NotApplicable(UnsupportedHere(["windows"])))
  {
    var table := [Row("m", ["windows"], [], ""), Row("m", ["linux"], [], "")];
    assert table[1].view == "m" && AppliesTo(table[1], "linux");
  }

  /** A view runs exactly when it is asked for, registered and not excluded by the build. */
  lemma RunsIff(s: Setting, asked: set<View>, v: View)
    ensures (Owed(s, asked, v).Some? && Owed(s, asked, v).value.Runs?) <==> v in asked && v in s.registry && !s.Excludes(v)
  {}

  /** An undeclared view whose components are in the package is a failure, never a benign absence. */
  lemma UndeclaredButPresentFails(s: Setting, asked: set<View>, v: View)
    requires s.Excludes(v) && s.Holds(v) && (SupportedHere(s, v) || (v in asked && v in s.registry))
    ensures Owed(s, asked, v) == Some(CannotRun(UndeclaredButPresent))
  {}

  /** Every capability of the table is stated in every report of a declared build, and one that cannot exist
      here is stated in every report. */
  lemma TableIsStated(s: Setting, asked: set<View>, row: Row)
    requires row in s.table && (!AppliesTo(row, s.goos) || s.Excludes(row.view) || row.view in asked)
    ensures Owed(s, asked, row.view).Some?
  {
    var i :| 0 <= i < |s.table| && s.table[i] == row;
    var first := RowFor(s.table, row.view).value;
    var j :| 0 <= j < |s.table| && s.table[j] == first;
    if AppliesTo(first, s.goos) { assert SupportedHere(s, row.view); }
    if AppliesTo(row, s.goos) { assert SupportedHere(s, row.view); }
  }
}
