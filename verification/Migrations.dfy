/** Applying the PostgreSQL migrations: any number of runs over one list, each migration in a
    transaction guarded by a lock. A missing table of records stands for an empty one. */
module Migrations {
  import opened Counting
  import opened Outcomes

  type Version = string

  datatype Row = Row(version: Version, appliedAt: int)

  /** What the database has committed: the records, and the migration bodies that took effect, in order. */
  datatype Schema = Schema(rows: seq<Row>, bodies: seq<Version>)

  function Versions(rows: seq<Row>): (vs: seq<Version>)
    ensures |vs| == |rows| && forall i | 0 <= i < |rows| :: vs[i] == rows[i].version
  {
    seq(|rows|, i requires 0 <= i < |rows| => rows[i].version)
  }

  /** A commit adds a record and the effect of its body. */
  function Recording(schema: Schema, row: Row): Schema {
    Schema(schema.rows + [row], schema.bodies + [row.version])
  }

  // ----- interleaved runs -----

  /** Where the session of a run is within the transaction of its next migration. `Checked` and
      later phases hold an answer to whether the migration is recorded. */
  datatype Phase = Between | Locked | Checked(applied: bool) | BodyRan | Inserted(row: Row)

  /** A run whose client has died stops asking, but its session may still end its transaction. */
  datatype Run = Run(next: nat, phase: Phase, alive: bool)

  datatype System = System(schema: Schema, lock: Option<nat>, runs: seq<Run>)

  datatype Event =
    | Start
    | TryLock(run: nat)
    | Check(run: nat)
    | RunBody(run: nat)
    | Insert(run: nat, now: int)
    | Commit(run: nat)
    | Abort(run: nat)
    | Die(run: nat)

  /** The run moves on after a transaction that its client saw succeed. */
  function Advance(run: Run): Run { Run(run.next + 1, Between, run.alive) }

  /** One statement of one run; `busyFails` tells whether the client reports the busy lock as a failure.
      An event that cannot happen gives None. */
  function Step(list: seq<Version>, busyFails: bool, s: System, e: Event): Option<System> {
    if e.Start? then Some(s.(runs := s.runs + [Run(0, Between, true)]))
    else if e.run >= |s.runs| then None
    else
      var run := s.runs[e.run];
      match e
      case TryLock(p) =>
        if !run.alive || !run.phase.Between? || run.next >= |list| then None
        else if s.lock.None? then Some(s.(lock := Some(p), runs := s.runs[p := run.(phase := Locked)]))
        else if busyFails then Some(s.(runs := s.runs[p := run.(alive := false)]))
        else Some(s.(runs := s.runs[p := Advance(run)]))
      case Check(p) =>
        if !run.alive || !run.phase.Locked? || run.next >= |list| then None
        else Some(s.(runs := s.runs[p := run.(phase := Checked(list[run.next] in Versions(s.schema.rows)))]))
      case RunBody(p) =>
        if !run.alive || run.phase != Checked(false) then None
        else Some(s.(runs := s.runs[p := run.(phase := BodyRan)]))
      case Insert(p, now) =>
        if !run.alive || !run.phase.BodyRan? || run.next >= |list| then None
        else Some(s.(runs := s.runs[p := run.(phase := Inserted(Row(list[run.next], now)))]))
      case Commit(p) =>
        if run.phase == Checked(true) then Some(System(s.schema, None, s.runs[p := Advance(run)]))
        else if run.phase.Inserted? then
          Some(System(Recording(s.schema, run.phase.row), None, s.runs[p := Advance(run)]))
        else None
      case Abort(p) =>
        if run.phase.Between? then None
        else Some(System(s.schema, None, s.runs[p := Run(run.next, Between, false)]))
      case Die(p) =>
        Some(s.(runs := s.runs[p := run.(alive := false)]))
  }

  function Execute(list: seq<Version>, busyFails: bool, s: System, events: seq<Event>): Option<System>
    decreases |events|
  {
    if events == [] then Some(s)
    else
      var next := Step(list, busyFails, s, events[0]);
      if next.None? then None else Execute(list, busyFails, next.value, events[1..])
  }

  const FRESH := System(Schema([], []), None, [])

  /** The run went through the whole list and its client saw every transaction succeed. */
  predicate Finished(list: seq<Version>, run: Run) { run.alive && run.phase.Between? && run.next >= |list| }

  // ----- what every step keeps -----

  /** The lock, and that the answer of the check still holds. */
  ghost predicate Guarded(list: seq<Version>, s: System) {
    && (forall p: nat | p < |s.runs| :: !s.runs[p].phase.Between? <==> s.lock == Some(p))
    && (forall p: nat | p < |s.runs| && !s.runs[p].phase.Between? :: s.runs[p].next < |list|)
    && (forall p: nat | p < |s.runs| && !s.runs[p].phase.Between? ::
          Answered(list[s.runs[p].next], s.runs[p].phase, Versions(s.schema.rows)))
    && (s.lock.Some? ==> s.lock.value < |s.runs|)
  }

  ghost predicate Answered(version: Version, phase: Phase, recorded: seq<Version>) {
    match phase
    case Between => true
    case Locked => true
    case Checked(applied) => applied <==> version in recorded
    case BodyRan => version !in recorded
    case Inserted(row) => row.version == version && version !in recorded
  }

  /** Each recorded body took effect once, whatever the client makes of a busy lock. */
  ghost predicate OnceEach(list: seq<Version>, s: System) {
    && s.schema.bodies == Versions(s.schema.rows)
    && Distinct(s.schema.bodies)
    && (forall v | v in s.schema.bodies :: v in list)
  }

  /** The records are a prefix of the list, past the start of every run's next migration. */
  ghost predicate PrefixRecorded(list: seq<Version>, s: System) {
    && |s.schema.rows| <= |list| && Versions(s.schema.rows) == list[..|s.schema.rows|]
    && (forall p: nat | p < |s.runs| :: s.runs[p].next <= |s.schema.rows|)
  }

  lemma StepKeepsGuard(list: seq<Version>, busyFails: bool, s: System, e: Event, after: System)
    requires Guarded(list, s) && Step(list, busyFails, s, e) == Some(after)
    ensures Guarded(list, after)
  {
    if !e.Start? {
      assert forall p: nat | p < |s.runs| && p != e.run :: after.runs[p] == s.runs[p];
    }
  }

  /** What the statements of a run do to it and to the lock. A dead run asks for nothing; a death is noticed by
      no other run; a rollback ends the run, frees the lock and leaves the schema. */
  lemma EndsOfARun(list: seq<Version>, busyFails: bool, s: System, p: nat, now: int)
    requires p < |s.runs|
    ensures Step(list, busyFails, s, Die(p)) == Some(s.(runs := s.runs[p := s.runs[p].(alive := false)]))
    ensures !s.runs[p].alive ==>
              && Step(list, busyFails, s, TryLock(p)).None? && Step(list, busyFails, s, Check(p)).None?
              && Step(list, busyFails, s, RunBody(p)).None? && Step(list, busyFails, s, Insert(p, now)).None?
    ensures !s.runs[p].phase.Between? ==>
              Step(list, busyFails, s, Abort(p))
                == Some(System(s.schema, None, s.runs[p := Run(s.runs[p].next, Between, false)]))
  {
  }

  lemma VersionsAppend(rows: seq<Row>, row: Row)
    ensures Versions(rows + [row]) == Versions(rows) + [row.version]
  {
  }

  lemma StepKeepsOnceEach(list: seq<Version>, busyFails: bool, s: System, e: Event, after: System)
    requires Guarded(list, s) && OnceEach(list, s) && Step(list, busyFails, s, e) == Some(after)
    ensures OnceEach(list, after)
  {
    if e.Commit? && s.runs[e.run].phase.Inserted? {
      VersionsAppend(s.schema.rows, s.runs[e.run].phase.row);
      assert list[s.runs[e.run].next] in list;
    }
  }

  /** The recorded prefix ends exactly at the first unrecorded version. */
  lemma FirstUnrecorded(list: seq<Version>, count: nat, next: nat)
    requires next < |list| && next <= count <= |list| && Distinct(list)
    ensures list[next] in list[..count] <==> next < count
  {
    if next < count {
      assert list[..count][next] == list[next];
    }
  }

  lemma StepKeepsPrefix(list: seq<Version>, s: System, e: Event, after: System)
    requires Distinct(list) && Guarded(list, s) && PrefixRecorded(list, s) && Step(list, true, s, e) == Some(after)
    ensures PrefixRecorded(list, after)
  {
    if e.Commit? {
      var run := s.runs[e.run];
      FirstUnrecorded(list, |s.schema.rows|, run.next);
      if run.phase.Inserted? {
        VersionsAppend(s.schema.rows, run.phase.row);
      }
    }
  }

  // ----- whole histories -----

  /** Over every history each body takes effect at most once, and exactly with its record. */
  lemma {:induction false} HistoriesKeepOnceEach(list: seq<Version>, busyFails: bool, s: System, events: seq<Event>,
                                                 after: System)
    requires Guarded(list, s) && OnceEach(list, s) && Execute(list, busyFails, s, events) == Some(after)
    ensures Guarded(list, after) && OnceEach(list, after)
    decreases |events|
  {
    if events != [] {
      var next := Step(list, busyFails, s, events[0]).value;
      StepKeepsGuard(list, busyFails, s, events[0], next);
      StepKeepsOnceEach(list, busyFails, s, events[0], next);
      HistoriesKeepOnceEach(list, busyFails, next, events[1..], after);
    }
  }

  lemma {:induction false} HistoriesKeepPrefix(list: seq<Version>, s: System, events: seq<Event>, after: System)
    requires Distinct(list) && Guarded(list, s) && PrefixRecorded(list, s)
              && Execute(list, true, s, events) == Some(after)
    ensures Guarded(list, after) && PrefixRecorded(list, after)
    decreases |events|
  {
    if events != [] {
      var next := Step(list, true, s, events[0]).value;
      StepKeepsGuard(list, true, s, events[0], next);
      StepKeepsPrefix(list, s, events[0], next);
      HistoriesKeepPrefix(list, next, events[1..], after);
    }
  }

  /** Any number of runs, in any interleaving, with failures anywhere: the records are a prefix of the
      list, exactly the recorded bodies took effect, once each and in list order, one run at most is
      inside a transaction, and a finished run has recorded the whole list. */
  lemma MigrationsAreSafe(list: seq<Version>, events: seq<Event>, s: System)
    requires Distinct(list) && Execute(list, true, FRESH, events) == Some(s)
    ensures |s.schema.bodies| <= |list| && s.schema.bodies == Versions(s.schema.rows) == list[..|s.schema.bodies|]
    ensures forall p: nat, q: nat | p < q < |s.runs| :: s.runs[p].phase.Between? || s.runs[q].phase.Between?
    ensures forall p: nat | p < |s.runs| && Finished(list, s.runs[p]) :: s.schema.bodies == list
  {
    HistoriesKeepPrefix(list, FRESH, events, s);
    HistoriesKeepOnceEach(list, true, FRESH, events, s);
    if p: nat :| p < |s.runs| && Finished(list, s.runs[p]) {
      assert |s.schema.rows| == |list| && list[..|list|] == list;
    }
  }

  /** A client that takes the busy lock for success still applies each body at most once. */
  lemma BodiesOnceInAnyCase(list: seq<Version>, busyFails: bool, events: seq<Event>, s: System)
    requires Execute(list, busyFails, FRESH, events) == Some(s)
    ensures s.schema.bodies == Versions(s.schema.rows) && Distinct(s.schema.bodies)
    ensures forall v | v in s.schema.bodies :: v in list
  {
    HistoriesKeepOnceEach(list, busyFails, FRESH, events, s);
  }

  lemma {:induction false} ExecuteConcat(list: seq<Version>, busyFails: bool, s: System, first: seq<Event>,
                                         rest: seq<Event>)
    requires Execute(list, busyFails, s, first).Some?
    ensures Execute(list, busyFails, s, first + rest)
         == Execute(list, busyFails, Execute(list, busyFails, s, first).value, rest)
    decreases |first|
  {
    if first == [] {
      assert first + rest == rest;
    } else {
      assert (first + rest)[0] == first[0] && (first + rest)[1..] == first[1..] + rest;
      ExecuteConcat(list, busyFails, Step(list, busyFails, s, first[0]).value, first[1..], rest);
    }
  }

  // ----- once everything is recorded -----

  lemma CompleteStep(list: seq<Version>, busyFails: bool, s: System, e: Event, after: System)
    requires Guarded(list, s) && (forall v | v in list :: v in Versions(s.schema.rows))
    requires Step(list, busyFails, s, e) == Some(after)
    ensures after.schema == s.schema
  {
    if e.Commit? {
      var run := s.runs[e.run];
      assert list[run.next] in list && Answered(list[run.next], run.phase, Versions(s.schema.rows));
    }
  }

  /** Once the whole list is recorded, no history changes a body or a record, its time included. */
  lemma {:induction false} RerunsChangeNothing(list: seq<Version>, busyFails: bool, s: System, events: seq<Event>,
                                               after: System)
    requires Guarded(list, s) && (forall v | v in list :: v in Versions(s.schema.rows))
    requires Execute(list, busyFails, s, events) == Some(after)
    ensures after.schema == s.schema
    decreases |events|
  {
    if events != [] {
      var next := Step(list, busyFails, s, events[0]).value;
      StepKeepsGuard(list, busyFails, s, events[0], next);
      CompleteStep(list, busyFails, s, events[0], next);
      RerunsChangeNothing(list, busyFails, next, events[1..], after);
    }
  }

  /** After one finished run, whatever else runs leaves the records as they were. */
  lemma FinishedRunsAreFinal(list: seq<Version>, events: seq<Event>, s: System, p: nat, more: seq<Event>, after: System)
    requires Distinct(list) && Execute(list, true, FRESH, events) == Some(s)
    requires p < |s.runs| && Finished(list, s.runs[p]) && Execute(list, true, s, more) == Some(after)
    ensures after.schema == s.schema
  {
    MigrationsAreSafe(list, events, s);
    HistoriesKeepPrefix(list, FRESH, events, s);
    RerunsChangeNothing(list, true, s, more, after);
  }

  // ----- the busy lock -----

  lemma Then(list: seq<Version>, busyFails: bool, from: System, events: seq<Event>, s: System, e: Event)
    returns (more: seq<Event>, t: System)
    requires Execute(list, busyFails, from, events) == Some(s) && Step(list, busyFails, s, e).Some?
    ensures more == events + [e] && Execute(list, busyFails, from, more) == Some(t)
    ensures Step(list, busyFails, s, e) == Some(t)
  {
    more, t := events + [e], Step(list, busyFails, s, e).value;
    ExecuteConcat(list, busyFails, from, events, [e]);
    assert Execute(list, busyFails, t, [e][1..]) == Some(t);
  }

  lemma NoEvents(list: seq<Version>, busyFails: bool, s: System)
    ensures Execute(list, busyFails, s, []) == Some(s)
  {
  }

  /** One transaction that records its migration. */
  lemma Records(list: seq<Version>, busyFails: bool, from: System, events: seq<Event>, s: System, p: nat)
    returns (more: seq<Event>, t: System)
    requires Execute(list, busyFails, from, events) == Some(s) && s.lock.None? && p < |s.runs|
    requires s.runs[p].alive && s.runs[p].phase.Between? && s.runs[p].next < |list|
    requires list[s.runs[p].next] !in Versions(s.schema.rows)
    ensures Execute(list, busyFails, from, more) == Some(t)
    ensures var i := s.runs[p].next;
            t == System(Recording(s.schema, Row(list[i], 0)), None, s.runs[p := Run(i + 1, Between, true)])
  {
    hide Execute;
    more, t := Then(list, busyFails, from, events, s, TryLock(p));
    more, t := Then(list, busyFails, from, more, t, Check(p));
    more, t := Then(list, busyFails, from, more, t, RunBody(p));
    more, t := Then(list, busyFails, from, more, t, Insert(p, 0));
    more, t := Then(list, busyFails, from, more, t, Commit(p));
  }

  /** A run that has the lock to itself goes on from its `i`-th migration to the end of the list. */
  lemma {:induction false} RecordsTheRest(list: seq<Version>, busyFails: bool, events: seq<Event>, s: System, p: nat,
                                          i: nat, first: nat)
    returns (more: seq<Event>, t: System)
    requires Distinct(list) && first <= i <= |list|
    requires Execute(list, busyFails, FRESH, events) == Some(s) && s.lock.None?
    requires p < |s.runs| && s.runs[p] == Run(i, Between, true)
    requires s.schema.bodies == Versions(s.schema.rows) == list[first..i]
    ensures Execute(list, busyFails, FRESH, more) == Some(t) && t.lock.None? && |t.runs| == |s.runs|
    ensures Finished(list, t.runs[p]) && t.schema.bodies == Versions(t.schema.rows) == list[first..]
    decreases |list| - i
  {
    hide Execute;
    if i == |list| {
      more, t := events, s;
    } else {
      more, t := Records(list, busyFails, FRESH, events, s, p);
      VersionsAppend(s.schema.rows, Row(list[i], 0));
      assert list[first..i + 1] == list[first..i] + [list[i]];
      more, t := RecordsTheRest(list, busyFails, more, t, p, i + 1, first);
    }
  }

  /** If the client takes the busy lock for success, a run can skip the first migration, whose own run
      is then rolled back, and finish with only the others recorded. */
  lemma SkippedMigration(list: seq<Version>) returns (events: seq<Event>, s: System)
    requires Distinct(list) && list != []
    ensures Execute(list, false, FRESH, events) == Some(s) && s.lock.None?
    ensures |s.runs| == 2 && Finished(list, s.runs[1])
    ensures s.schema.bodies == Versions(s.schema.rows) == list[1..]
  {
    hide Execute;
    NoEvents(list, false, FRESH);
    events, s := Then(list, false, FRESH, [], FRESH, Start);
    events, s := Then(list, false, FRESH, events, s, Start);
    events, s := Then(list, false, FRESH, events, s, TryLock(0));
    events, s := Then(list, false, FRESH, events, s, TryLock(1));
    events, s := Then(list, false, FRESH, events, s, Abort(0));
    events, s := RecordsTheRest(list, false, events, s, 1, 1, 1);
  }

  /** A run that comes later records the skipped migration last. */
  lemma RecordedLast(list: seq<Version>, s: System) returns (events: seq<Event>, t: System)
    requires Distinct(list) && list != [] && s.lock.None? && Versions(s.schema.rows) == list[1..]
    ensures Execute(list, false, s, events) == Some(t)
    ensures t.schema.bodies == s.schema.bodies + [list[0]]
  {
    hide Execute;
    NoEvents(list, false, s);
    events, t := Then(list, false, s, [], s, Start);
    FirstIsNotAmongTheRest(list);
    events, t := Records(list, false, s, events, t, |s.runs|);
  }

  /** The records stay a prefix in every history exactly if a busy lock makes the run fail, or the list
      is too short to show it. */
  lemma PrefixIffBusyLockFails(list: seq<Version>, busyFails: bool)
    requires Distinct(list)
    ensures busyFails || |list| <= 1 <==>
            forall events, s | Execute(list, busyFails, FRESH, events) == Some(s) :: s.schema.bodies <= list
  {
    if busyFails || |list| <= 1 {
      forall events, s | Execute(list, busyFails, FRESH, events) == Some(s)
        ensures s.schema.bodies <= list
      {
        if busyFails {
          MigrationsAreSafe(list, events, s);
        } else {
          BodiesOnceInAnyCase(list, busyFails, events, s);
          ShortIsPrefix(list, s.schema.bodies);
        }
      }
    } else {
      var events, s := SkippedMigration(list);
      assert list[1..][0] != list[0];
    }
  }

  lemma ShortIsPrefix(list: seq<Version>, bodies: seq<Version>)
    requires |list| <= 1 && Distinct(bodies) && forall v | v in bodies :: v in list
    ensures bodies <= list
  {
    DistinctCount(bodies);
    DistinctCount(list);
    SubsetCount(Elements(bodies), Elements(list));
    if bodies != [] {
      assert bodies[0] in bodies;
    }
  }

  /** In every history a finished run has recorded the whole list. */
  ghost predicate FinishedMeansRecorded(list: seq<Version>, busyFails: bool) {
    forall events, s, p: nat | Execute(list, busyFails, FRESH, events) == Some(s)
                               && p < |s.runs| && Finished(list, s.runs[p]) ::
      forall v | v in list :: v in Versions(s.schema.rows)
  }

  /** This is so exactly if a busy lock makes the run fail, but for the empty list. */
  lemma RecordedIffBusyLockFails(list: seq<Version>, busyFails: bool)
    requires Distinct(list)
    ensures FinishedMeansRecorded(list, busyFails) <==> busyFails || list == []
  {
    if busyFails {
      forall events, s, p: nat | Execute(list, busyFails, FRESH, events) == Some(s)
                                 && p < |s.runs| && Finished(list, s.runs[p])
        ensures forall v | v in list :: v in Versions(s.schema.rows)
      {
        MigrationsAreSafe(list, events, s);
      }
    } else if list != [] {
      var events, s := SkippedMigration(list);
      FirstIsNotAmongTheRest(list);
      assert Finished(list, s.runs[1]) && list[0] in list;
    }
  }

  lemma FirstIsNotAmongTheRest(list: seq<Version>)
    requires Distinct(list) && list != []
    ensures list[0] !in list[1..]
  {
  }

  /** In every history nothing that happens after a run has finished changes the schema. */
  ghost predicate FinishedMeansFinal(list: seq<Version>, busyFails: bool) {
    forall events, s, p: nat, more, after |
      && Execute(list, busyFails, FRESH, events) == Some(s) && p < |s.runs| && Finished(list, s.runs[p])
      && Execute(list, busyFails, s, more) == Some(after) :: after.schema == s.schema
  }

  /** The same condition decides this. */
  lemma FinalIffBusyLockFails(list: seq<Version>, busyFails: bool)
    requires Distinct(list)
    ensures FinishedMeansFinal(list, busyFails) <==> busyFails || list == []
  {
    if busyFails || list == [] {
      forall events, s, p: nat, more, after |
        && Execute(list, busyFails, FRESH, events) == Some(s) && p < |s.runs| && Finished(list, s.runs[p])
        && Execute(list, busyFails, s, more) == Some(after)
        ensures after.schema == s.schema
      {
        if busyFails {
          FinishedRunsAreFinal(list, events, s, p, more, after);
        } else {
          HistoriesKeepOnceEach(list, busyFails, FRESH, events, s);
          RerunsChangeNothing(list, busyFails, s, more, after);
        }
      }
    } else {
      var events, s := SkippedMigration(list);
      var more, after := RecordedLast(list, s);
      assert after.schema != s.schema;
    }
  }

  // ----- what one run can tell -----

  /** Run `p` asks for the lock of its `j`-th migration while another run holds it. */
  predicate MetHeldLock(list: seq<Version>, busyFails: bool, s: System, events: seq<Event>, p: nat, j: nat)
    decreases |events|
  {
    && events != []
    && (|| (events[0] == TryLock(p) && s.lock.Some? && p < |s.runs| && s.runs[p].next == j)
        || (var next := Step(list, busyFails, s, events[0]);
            next.Some? && MetHeldLock(list, busyFails, next.value, events[1..], p, j)))
  }

  /** The run is past its `j`-th migration only if that is recorded. */
  ghost predicate PastIsRecorded(list: seq<Version>, s: System, p: nat, j: nat) {
    p < |s.runs| ==> s.runs[p].next <= |list| && (j < s.runs[p].next ==> list[j] in Versions(s.schema.rows))
  }

  lemma StepKeepsRecorded(list: seq<Version>, busyFails: bool, s: System, e: Event, after: System, p: nat, j: nat)
    requires Guarded(list, s) && PastIsRecorded(list, s, p, j) && Step(list, busyFails, s, e) == Some(after)
    requires !(e == TryLock(p) && s.lock.Some? && p < |s.runs| && s.runs[p].next == j)
    ensures PastIsRecorded(list, after, p, j)
  {
    if e.Commit? && s.runs[e.run].phase.Inserted? {
      VersionsAppend(s.schema.rows, s.runs[e.run].phase.row);
    }
  }

  lemma {:induction false} HistoriesKeepRecorded(list: seq<Version>, busyFails: bool, s: System, events: seq<Event>,
                                                 after: System, p: nat, j: nat)
    requires Guarded(list, s) && PastIsRecorded(list, s, p, j) && Execute(list, busyFails, s, events) == Some(after)
    requires !MetHeldLock(list, busyFails, s, events, p, j)
    ensures PastIsRecorded(list, after, p, j)
    decreases |events|
  {
    if events != [] {
      var next := Step(list, busyFails, s, events[0]).value;
      StepKeepsGuard(list, busyFails, s, events[0], next);
      StepKeepsRecorded(list, busyFails, s, events[0], next, p, j);
      HistoriesKeepRecorded(list, busyFails, next, events[1..], after, p, j);
    }
  }

  /** Whatever a busy lock is reported as and whatever the other runs do, each migration a run has passed
      is recorded unless this run met the held lock at it. */
  lemma RecordedUnlessBusy(list: seq<Version>, busyFails: bool, events: seq<Event>, s: System, p: nat)
    requires Execute(list, busyFails, FRESH, events) == Some(s) && p < |s.runs|
    ensures s.runs[p].next <= |list|
    ensures forall j: nat | j < s.runs[p].next && !MetHeldLock(list, busyFails, FRESH, events, p, j) ::
              list[j] in Versions(s.schema.rows)
  {
    NextIsInRange(list, busyFails, FRESH, events, s, p);
    forall j: nat | j < s.runs[p].next && !MetHeldLock(list, busyFails, FRESH, events, p, j)
      ensures list[j] in Versions(s.schema.rows)
    {
      HistoriesKeepRecorded(list, busyFails, FRESH, events, s, p, j);
    }
  }

  lemma {:induction false} NextIsInRange(list: seq<Version>, busyFails: bool, s: System, events: seq<Event>,
                                         after: System, p: nat)
    requires Guarded(list, s) && (p < |s.runs| ==> s.runs[p].next <= |list|)
    requires Execute(list, busyFails, s, events) == Some(after)
    ensures p < |after.runs| ==> after.runs[p].next <= |list|
    decreases |events|
  {
    if events != [] {
      var next := Step(list, busyFails, s, events[0]).value;
      StepKeepsGuard(list, busyFails, s, events[0], next);
      NextIsInRange(list, busyFails, next, events[1..], after, p);
    }
  }

  /** A finished run that never met a held lock can rely on the whole list, for good. */
  lemma SafeForTheUndisturbed(list: seq<Version>, busyFails: bool, events: seq<Event>, s: System, p: nat,
                              more: seq<Event>, after: System)
    requires Execute(list, busyFails, FRESH, events) == Some(s) && p < |s.runs| && Finished(list, s.runs[p])
    requires forall j: nat | j < |list| :: !MetHeldLock(list, busyFails, FRESH, events, p, j)
    requires Execute(list, busyFails, s, more) == Some(after)
    ensures forall v | v in list :: v in Versions(s.schema.rows)
    ensures after.schema == s.schema
  {
    RecordedUnlessBusy(list, busyFails, events, s, p);
    HistoriesKeepOnceEach(list, busyFails, FRESH, events, s);
    RerunsChangeNothing(list, busyFails, s, more, after);
  }

  // ----- histories without contention -----

  /** No run asks for the lock while another holds it. */
  predicate NeverBusy(list: seq<Version>, s: System, events: seq<Event>)
    decreases |events|
  {
    events == []
    || (!(events[0].TryLock? && s.lock.Some?)
        && (Step(list, true, s, events[0]).Some? ==>
              NeverBusy(list, Step(list, true, s, events[0]).value, events[1..])))
  }

  /** Without contention it does not matter how a busy lock is reported. */
  lemma {:induction false} NeverBusyExecutesTheSame(list: seq<Version>, s: System, events: seq<Event>)
    requires NeverBusy(list, s, events)
    ensures Execute(list, false, s, events) == Execute(list, true, s, events)
    decreases |events|
  {
    if events != [] {
      assert Step(list, false, s, events[0]) == Step(list, true, s, events[0]);
      if Step(list, true, s, events[0]).Some? {
        NeverBusyExecutesTheSame(list, Step(list, true, s, events[0]).value, events[1..]);
      }
    }
  }

  /** Whatever the client makes of a busy lock, histories without contention are safe. */
  lemma SafeWithoutContention(list: seq<Version>, busyFails: bool, events: seq<Event>, s: System)
    requires Distinct(list) && Execute(list, busyFails, FRESH, events) == Some(s) && NeverBusy(list, FRESH, events)
    ensures |s.schema.bodies| <= |list| && s.schema.bodies == Versions(s.schema.rows) == list[..|s.schema.bodies|]
    ensures forall p: nat | p < |s.runs| && Finished(list, s.runs[p]) :: s.schema.bodies == list
  {
    NeverBusyExecutesTheSame(list, FRESH, events);
    MigrationsAreSafe(list, events, s);
  }
}
