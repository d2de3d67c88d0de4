/** One run of the migration command: the list it makes of a directory, and its transactions. */
module Migrator {
  import Counting
  import opened Migrations
  import opened Outcomes

  // ----- the list of migrations -----

  /** A readable directory entry; names are bytes, `utf8` tells whether they are text. */
  datatype Entry = Entry(name: string, utf8: bool, isFile: bool)

  datatype MigrateError = DirectoryMissing | NoMigrations | InvalidName | MigrationFailed(at: nat) | SchemaIncomplete

  const SUFFIX := ".sql"

  /** The extension is `sql`; a name that only starts with a dot has no extension. */
  predicate SqlFile(name: string) { |name| > 4 && name[|name| - 4..] == SUFFIX }

  function Stem(name: string): Version
    requires SqlFile(name)
  {
    name[..|name| - 4]
  }

  predicate VersionByte(c: char) {
    '0' <= c <= '9' || 'A' <= c <= 'Z' || 'a' <= c <= 'z' || c == '.' || c == '_' || c == '-'
  }

  predicate ValidMigration(e: Entry) {
    e.utf8 && e.isFile && SqlFile(e.name) && forall i | 0 <= i < |Stem(e.name)| :: VersionByte(Stem(e.name)[i])
  }

  /** The order of byte strings. */
  predicate NotAfter(a: string, b: string) {
    a == "" || (b != "" && (a[0] < b[0] || (a[0] == b[0] && NotAfter(a[1..], b[1..]))))
  }

  lemma {:induction false} NotAfterTotal(a: string, b: string)
    ensures NotAfter(a, b) || NotAfter(b, a)
    ensures NotAfter(a, b) && NotAfter(b, a) ==> a == b
  {
    if a != "" && b != "" && a[0] == b[0] {
      NotAfterTotal(a[1..], b[1..]);
      assert a == [a[0]] + a[1..] && b == [b[0]] + b[1..];
    }
  }

  lemma {:induction false} NotAfterTransitive(a: string, b: string, c: string)
    requires NotAfter(a, b) && NotAfter(b, c)
    ensures NotAfter(a, c)
  {
    if a != "" && a[0] == b[0] && b[0] == c[0] {
      NotAfterTransitive(a[1..], b[1..], c[1..]);
    }
  }

  /** The first byte in which the two differ is smaller in `a`. */
  ghost predicate SmallerAt(a: string, b: string, k: nat) {
    k < |a| && k < |b| && a[..k] == b[..k] && a[k] < b[k]
  }

  lemma SmallerInRest(a: string, b: string, k: nat)
    requires a != "" && b != "" && a[0] == b[0]
    ensures SmallerAt(a[1..], b[1..], k) <==> SmallerAt(a, b, k + 1)
  {
    if k < |a| - 1 && k < |b| - 1 {
      assert a[..k + 1] == [a[0]] + a[1..][..k] && b[..k + 1] == [b[0]] + b[1..][..k];
      assert a[1..][..k] == a[..k + 1][1..] && b[1..][..k] == b[..k + 1][1..];
    }
  }

  lemma SmallerAtStart(a: string, b: string)
    requires a != "" && b != "" && a[0] != b[0]
    ensures (exists k :: SmallerAt(a, b, k)) <==> a[0] < b[0]
  {
    assert a[..0] == b[..0];
    assert SmallerAt(a, b, 0) <==> a[0] < b[0];
    assert forall k: nat | k > 0 && SmallerAt(a, b, k) :: a[..k][0] == b[..k][0];
  }

  /** The first is a prefix of the second, or smaller where they first differ. */
  lemma {:induction false} NotAfterIff(a: string, b: string)
    ensures NotAfter(a, b) <==> a <= b || exists k :: SmallerAt(a, b, k)
  {
    hide SmallerAt;
    if a == "" || b == "" {
      NothingSmaller(a, b);
    } else if a[0] != b[0] {
      SmallerAtStart(a, b);
    } else {
      NotAfterIff(a[1..], b[1..]);
      assert a == [a[0]] + a[1..] && b == [a[0]] + b[1..];
      assert a <= b <==> a[1..] <= b[1..];
      forall k: nat
        ensures SmallerAt(a[1..], b[1..], k) <==> SmallerAt(a, b, k + 1)
      {
        SmallerInRest(a, b, k);
      }
      NotSmallerAtStart(a, b);
      if k: nat :| SmallerAt(a, b, k) {
        assert SmallerAt(a[1..], b[1..], k - 1);
      }
    }
  }

  lemma NothingSmaller(a: string, b: string)
    requires a == "" || b == ""
    ensures !exists k :: SmallerAt(a, b, k)
  {
  }

  lemma NotSmallerAtStart(a: string, b: string)
    requires a != "" && b != "" && a[0] == b[0]
    ensures !SmallerAt(a, b, 0)
  {
  }

  ghost predicate Ascending(entries: seq<Entry>) {
    forall i, j | 0 <= i < j < |entries| :: NotAfter(entries[i].name, entries[j].name)
  }

  function Position(entries: seq<Entry>, e: Entry): (k: nat)
    ensures k <= |entries|
    ensures forall i | 0 <= i < k :: NotAfter(entries[i].name, e.name)
    ensures k < |entries| ==> !NotAfter(entries[k].name, e.name)
  {
    if entries == [] || !NotAfter(entries[0].name, e.name) then 0 else 1 + Position(entries[1..], e)
  }

  function InOrder(entries: seq<Entry>, e: Entry): (r: seq<Entry>)
    ensures |r| == |entries| + 1
    ensures forall x :: x in r <==> x == e || x in entries
  {
    var k := Position(entries, e);
    assert entries == entries[..k] + entries[k..];
    entries[..k] + [e] + entries[k..]
  }

  lemma InOrderAscends(entries: seq<Entry>, e: Entry)
    requires Ascending(entries)
    ensures Ascending(InOrder(entries, e))
  {
    hide NotAfter;
    var k := Position(entries, e);
    var r := InOrder(entries, e);
    forall i, j | 0 <= i < j < |r|
      ensures NotAfter(r[i].name, r[j].name)
    {
      if i == k {
        NotAfterTotal(entries[k].name, e.name);
        NotAfterTotal(entries[j - 1].name, entries[j - 1].name);
        NotAfterTransitive(e.name, entries[k].name, entries[j - 1].name);
      }
    }
  }

  /** The names of one directory. */
  ghost predicate DistinctNames(entries: seq<Entry>) {
    forall i, j | 0 <= i < j < |entries| :: entries[i].name != entries[j].name
  }

  lemma InOrderDistinct(entries: seq<Entry>, e: Entry)
    requires DistinctNames(entries) && forall x | x in entries :: x.name != e.name
    ensures DistinctNames(InOrder(entries, e))
  {
    var k := Position(entries, e);
    var r := InOrder(entries, e);
    forall i, j | 0 <= i < j < |r|
      ensures r[i].name != r[j].name
    {
      if i == k {
        assert r[j] == entries[j - 1] && entries[j - 1] in entries;
      } else if j == k {
        assert r[i] == entries[i] && entries[i] in entries;
      }
    }
  }

  method SqlFiles(entries: seq<Entry>) returns (paths: seq<Entry>)
    requires DistinctNames(entries)
    ensures DistinctNames(paths)
    ensures forall e :: e in paths <==> e in entries && SqlFile(e.name)
  {
    paths := [];
    for i := 0 to |entries|
      invariant DistinctNames(paths)
      invariant forall e :: e in paths <==> e in entries[..i] && SqlFile(e.name)
    {
      if SqlFile(entries[i].name) {
        assert forall e | e in paths :: e.name != entries[i].name;
        paths := paths + [entries[i]];
      }
    }
    assert entries[..|entries|] == entries;
  }

  method Sort(paths: seq<Entry>) returns (r: seq<Entry>)
    requires DistinctNames(paths)
    ensures Ascending(r) && DistinctNames(r) && |r| == |paths|
    ensures forall e :: e in r <==> e in paths
  {
    r := [];
    for i := 0 to |paths|
      invariant Ascending(r) && DistinctNames(r) && |r| == i
      invariant forall e :: e in r <==> e in paths[..i]
    {
      InOrderAscends(r, paths[i]);
      InOrderDistinct(r, paths[i]);
      r := InOrder(r, paths[i]);
    }
    assert paths[..|paths|] == paths;
  }

  /** The versions a directory holds, in the order of their files. */
  ghost predicate ListOf(list: seq<Version>, entries: seq<Entry>) {
    && Counting.Distinct(list) && list != []
    && (forall v :: v in list <==> exists e | e in entries :: SqlFile(e.name) && Stem(e.name) == v)
    && forall i, j | 0 <= i < j < |list| :: NotAfter(list[i] + SUFFIX, list[j] + SUFFIX)
  }

  /** Every file with the extension has a valid name, and there is one. */
  ghost predicate Usable(entries: seq<Entry>) {
    && (exists e | e in entries :: SqlFile(e.name))
    && forall e | e in entries && SqlFile(e.name) :: ValidMigration(e)
  }

  /** The files are those of a stem and `.sql`; a name is valid whose stem has only digits, letters, hyphens,
      dots and underscores. */
  lemma FileNames(e: Entry)
    ensures SqlFile(e.name) <==> exists stem :: stem != "" && e.name == stem + ".sql"
    ensures forall stem | stem != "" && e.name == stem + ".sql" :: Stem(e.name) == stem
    ensures ValidMigration(e) <==> e.utf8 && e.isFile && exists stem ::
              stem != "" && e.name == stem + ".sql" && forall c | c in stem ::
                var u := c as int;
                48 <= u <= 57 || 65 <= u <= 90 || 97 <= u <= 122 || u == 45 || u == 46 || u == 95
  {
    if SqlFile(e.name) {
      var stem := Stem(e.name);
      assert e.name == stem + ".sql" && forall i | 0 <= i < |stem| :: stem[i] in stem;
    }
  }

  /** The list is that of the stems, in ascending byte order of the file names. */
  lemma ListIs(list: seq<Version>, entries: seq<Entry>)
    requires ListOf(list, entries)
    ensures forall i, j | 0 <= i < j < |list| :: list[i] != list[j]
    ensures forall v :: v in list <==> v != "" && exists e | e in entries :: e.name == v + ".sql"
    ensures forall i, j | 0 <= i < j < |list| ::
              var a, b := list[i] + ".sql", list[j] + ".sql";
              a <= b || exists k :: 0 <= k < |a| && k < |b| && a[..k] == b[..k] && a[k] < b[k]
  {
    forall e: Entry
      ensures SqlFile(e.name) <==> exists stem :: stem != "" && e.name == stem + ".sql"
      ensures forall stem | stem != "" && e.name == stem + ".sql" :: Stem(e.name) == stem
    {
      FileNames(e);
    }
    forall i, j | 0 <= i < j < |list|
      ensures var a, b := list[i] + ".sql", list[j] + ".sql";
              a <= b || exists k :: 0 <= k < |a| && k < |b| && a[..k] == b[..k] && a[k] < b[k]
    {
      var a, b := list[i] + ".sql", list[j] + ".sql";
      NotAfterIff(a, b);
      if k: nat :| SmallerAt(a, b, k) {
        assert a[..k] == b[..k] && a[k] < b[k];
      }
    }
  }

  lemma StemOf(e: Entry)
    requires SqlFile(e.name)
    ensures Stem(e.name) + SUFFIX == e.name
  {
  }

  method CollectMigrations(directory: Option<seq<Entry>>) returns (r: Result<seq<Version>, MigrateError>)
    requires directory.Some? ==> DistinctNames(directory.value)
    ensures r.Ok? <==> directory.Some? && Usable(directory.value)
    ensures r.Ok? ==> ListOf(r.value, directory.value)
    ensures r.Err? ==> match r.error
                       case DirectoryMissing => directory.None?
                       case NoMigrations => directory.Some? && forall e | e in directory.value :: !SqlFile(e.name)
                       case InvalidName => directory.Some? && exists e | e in directory.value ::
                           SqlFile(e.name) && !ValidMigration(e)
                       case _ => false
  {
    if directory.None? {
      return Err(DirectoryMissing);
    }
    var paths := SqlFiles(directory.value);
    paths := Sort(paths);
    if paths == [] {
      return Err(NoMigrations);
    }
    var list := [];
    for i := 0 to |paths|
      invariant |list| == i
      invariant forall j | 0 <= j < i :: ValidMigration(paths[j]) && list[j] == Stem(paths[j].name)
    {
      if !ValidMigration(paths[i]) {
        assert paths[i] in paths;
        return Err(InvalidName);
      }
      list := list + [Stem(paths[i].name)];
    }
    assert paths[0] in paths;
    StemsMakeTheList(directory.value, paths, list);
    r := Ok(list);
  }

  lemma StemsMakeTheList(entries: seq<Entry>, paths: seq<Entry>, list: seq<Version>)
    requires Ascending(paths) && DistinctNames(paths) && paths != [] && |list| == |paths|
    requires forall e :: e in paths <==> e in entries && SqlFile(e.name)
    requires forall j | 0 <= j < |paths| :: SqlFile(paths[j].name) && list[j] == Stem(paths[j].name)
    ensures ListOf(list, entries)
  {
    hide NotAfter;
    forall j | 0 <= j < |paths|
      ensures list[j] + SUFFIX == paths[j].name
    {
      StemOf(paths[j]);
    }
    forall i, j | 0 <= i < j < |list|
      ensures list[i] != list[j]
    {
      assert paths[i].name != paths[j].name;
    }
    forall v
      ensures v in list <==> exists e | e in entries :: SqlFile(e.name) && Stem(e.name) == v
    {
      if v in list {
        var j :| 0 <= j < |list| && list[j] == v;
        assert paths[j] in paths;
      }
      if e :| e in entries && SqlFile(e.name) && Stem(e.name) == v {
        assert e in paths;
        var j :| 0 <= j < |paths| && paths[j] == e;
        assert list[j] == v;
      }
    }
  }

  // ----- the transactions of a run -----

  /** What becomes of one transaction, as the client sees it. */
  datatype Outcome = Completes | Busy | Breaks | ReplyLost

  datatype Attempt = Attempt(outcome: Outcome, now: int)

  function Recorded(schema: Schema, version: Version, now: int): Schema {
    if version in Versions(schema.rows) then schema
    else Schema(schema.rows + [Row(version, now)], schema.bodies + [version])
  }

  function AfterTransaction(schema: Schema, version: Version, attempt: Attempt): Schema {
    if attempt.outcome.Busy? || attempt.outcome.Breaks? then schema else Recorded(schema, version, attempt.now)
  }

  predicate Reported(attempt: Attempt, busyFails: bool) {
    attempt.outcome.Completes? || (attempt.outcome.Busy? && !busyFails)
  }

  /** The committed state after a run from its `i`-th migration on, and the migration it fails at. */
  function AfterRun(schema: Schema, list: seq<Version>, attempts: nat -> Attempt, busyFails: bool, i: nat)
    : (Schema, Option<nat>)
    requires i <= |list|
    decreases |list| - i
  {
    if i == |list| then (schema, None)
    else
      var after := AfterTransaction(schema, list[i], attempts(i));
      if Reported(attempts(i), busyFails) then AfterRun(after, list, attempts, busyFails, i + 1) else (after, Some(i))
  }

  class SchemaDatabase {
    var schema: Schema

    constructor ()
      ensures schema == Schema([], [])
    {
      schema := Schema([], []);
    }

    /** Every record stands for one body that took effect, and no body did twice. */
    ghost predicate OncePerRecord()
      reads this
    {
      schema.bodies == Versions(schema.rows) && Counting.Distinct(schema.bodies)
    }

    /** Records and bodies are only added; a reported success means the version is recorded, unless it was
        a busy lock that is no failure; a recorded version is left alone. */
    method ApplyMigration(version: Version, attempt: Attempt, busyFails: bool) returns (reported: bool)
      modifies this
      ensures schema == AfterTransaction(old(schema), version, attempt) && reported == Reported(attempt, busyFails)
      ensures old(schema.rows) <= schema.rows && old(schema.bodies) <= schema.bodies
      ensures |schema.rows| - |old(schema.rows)| == |schema.bodies| - |old(schema.bodies)| <= 1
      ensures reported ==> (version in Versions(schema.rows) || (attempt.outcome.Busy? && !busyFails))
      ensures version in Versions(old(schema.rows)) ==> schema == old(schema)
      ensures old(OncePerRecord()) ==> OncePerRecord()
    {
      VersionsAppend(schema.rows, Row(version, attempt.now));
      if attempt.outcome.Busy? {
        return !busyFails;
      }
      if attempt.outcome.Breaks? {
        return false;
      }
      if version !in Versions(schema.rows) {
        schema := Schema(schema.rows + [Row(version, attempt.now)], schema.bodies + [version]);
      }
      return attempt.outcome.Completes?;
    }

    /** The run fails at the first transaction not reported as a success, and leaves what the earlier
        ones, and perhaps that one, committed. `complete` is the answer of the closing verification of
        the schema, which changes nothing. */
    method Migrate(directory: Option<seq<Entry>>, attempts: nat -> Attempt, busyFails: bool, complete: bool)
      returns (r: Result<seq<Version>, MigrateError>)
      requires directory.Some? ==> DistinctNames(directory.value)
      modifies this
      ensures r.Err? && !r.error.MigrationFailed? && !r.error.SchemaIncomplete? <==>
                directory.None? || !Usable(directory.value)
      ensures r.Err? && !r.error.MigrationFailed? && !r.error.SchemaIncomplete? ==> schema == old(schema)
      ensures directory.Some? && Usable(directory.value) ==>
                exists list ::
                  && ListOf(list, directory.value)
                  && AfterRun(old(schema), list, attempts, busyFails, 0).0 == schema
                  && match AfterRun(old(schema), list, attempts, busyFails, 0).1
                     case Some(at) => r == Err(MigrationFailed(at))
                     case None => r == (if complete then Ok(list) else Err(SchemaIncomplete))
      ensures r.Ok? ==> complete && forall i | 0 <= i < |r.value| && (busyFails || !attempts(i).outcome.Busy?) ::
                r.value[i] in Versions(schema.rows)
      ensures old(OncePerRecord()) ==> OncePerRecord()
    {
      r := CollectMigrations(directory);
      if r.Err? {
        return;
      }
      var list := r.value;
      for i := 0 to |list|
        invariant AfterRun(old(schema), list, attempts, busyFails, 0) == AfterRun(schema, list, attempts, busyFails, i)
        invariant old(OncePerRecord()) ==> OncePerRecord()
      {
        var reported := ApplyMigration(list[i], attempts(i), busyFails);
        if !reported {
          return Err(MigrationFailed(i));
        }
      }
      CompletedRunsRecordAll(old(schema), list, attempts, busyFails, 0);
      if !complete {
        return Err(SchemaIncomplete);
      }
    }
  }

  /** A run whose every transaction was reported as a success has recorded the rest of its list, except
      where it met a busy lock that is no failure. */
  lemma {:induction false} CompletedRunsRecordAll(schema: Schema, list: seq<Version>, attempts: nat -> Attempt,
                                                  busyFails: bool, i: nat)
    requires i <= |list| && AfterRun(schema, list, attempts, busyFails, i).1.None?
    ensures var rows := AfterRun(schema, list, attempts, busyFails, i).0.rows;
            && (forall v | v in Versions(schema.rows) :: v in Versions(rows))
            && (forall j | i <= j < |list| && (busyFails || !attempts(j).outcome.Busy?) :: list[j] in Versions(rows))
    decreases |list| - i
  {
    if i < |list| {
      var after := AfterTransaction(schema, list[i], attempts(i));
      VersionsAppend(schema.rows, Row(list[i], attempts(i).now));
      CompletedRunsRecordAll(after, list, attempts, busyFails, i + 1);
    }
  }

  // ----- a run is one of the interleaved histories -----

  /** No session is inside a transaction, and run `p` is about to ask for migration `i`. */
  ghost predicate AtMigration(s: System, schema: Schema, p: nat, i: nat) {
    s.schema == schema && s.lock.None? && p < |s.runs| && s.runs[p] == Run(i, Between, true)
  }

  /** A transaction that meets a busy lock: another run holds it, and then gives up. */
  lemma BusyTransaction(list: seq<Version>, busyFails: bool, s: System, p: nat, i: nat)
    returns (events: seq<Event>, t: System)
    requires AtMigration(s, s.schema, p, i) && i < |list|
    ensures Execute(list, busyFails, s, events) == Some(t)
    ensures t.schema == s.schema && t.lock.None? && p < |t.runs|
    ensures !busyFails ==> t.runs[p] == Run(i + 1, Between, true)
  {
    hide Execute;
    var q := |s.runs|;
    NoEvents(list, busyFails, s);
    events, t := Then(list, busyFails, s, [], s, Start);
    events, t := Then(list, busyFails, s, events, t, TryLock(q));
    events, t := Then(list, busyFails, s, events, t, TryLock(p));
    events, t := Then(list, busyFails, s, events, t, Abort(q));
  }

  lemma BrokenTransaction(list: seq<Version>, busyFails: bool, s: System, p: nat, i: nat)
    returns (events: seq<Event>, t: System)
    requires AtMigration(s, s.schema, p, i) && i < |list|
    ensures Execute(list, busyFails, s, events) == Some(t)
    ensures t.schema == s.schema && t.lock.None? && p < |t.runs|
  {
    hide Execute;
    NoEvents(list, busyFails, s);
    events, t := Then(list, busyFails, s, [], s, TryLock(p));
    events, t := Then(list, busyFails, s, events, t, Abort(p));
  }

  /** A transaction that commits, whether or not its client hears of it. */
  lemma CommittedTransaction(list: seq<Version>, busyFails: bool, s: System, p: nat, i: nat, now: int, heard: bool)
    returns (events: seq<Event>, t: System)
    requires AtMigration(s, s.schema, p, i) && i < |list|
    ensures Execute(list, busyFails, s, events) == Some(t)
    ensures t.schema == Recorded(s.schema, list[i], now) && t.lock.None? && p < |t.runs|
    ensures heard ==> t.runs[p] == Run(i + 1, Between, true)
  {
    hide Execute;
    NoEvents(list, busyFails, s);
    events, t := Then(list, busyFails, s, [], s, TryLock(p));
    events, t := Then(list, busyFails, s, events, t, Check(p));
    if list[i] !in Versions(s.schema.rows) {
      events, t := Then(list, busyFails, s, events, t, RunBody(p));
      events, t := Then(list, busyFails, s, events, t, Insert(p, now));
    }
    if !heard {
      events, t := Then(list, busyFails, s, events, t, Die(p));
    }
    events, t := Then(list, busyFails, s, events, t, Commit(p));
  }

  lemma TransactionIsHistory(list: seq<Version>, busyFails: bool, s: System, p: nat, i: nat, attempt: Attempt)
    returns (events: seq<Event>, t: System)
    requires AtMigration(s, s.schema, p, i) && i < |list|
    ensures Execute(list, busyFails, s, events) == Some(t)
    ensures t.schema == AfterTransaction(s.schema, list[i], attempt) && t.lock.None? && p < |t.runs|
    ensures Reported(attempt, busyFails) ==> t.runs[p] == Run(i + 1, Between, true)
  {
    match attempt.outcome
    case Busy =>
      events, t := BusyTransaction(list, busyFails, s, p, i);
    case Breaks =>
      events, t := BrokenTransaction(list, busyFails, s, p, i);
    case Completes =>
      events, t := CommittedTransaction(list, busyFails, s, p, i, attempt.now, true);
    case ReplyLost =>
      events, t := CommittedTransaction(list, busyFails, s, p, i, attempt.now, false);
  }

  /** What the command does in one run is a history of the interleaved runs, finished if it succeeds. */
  lemma {:induction false} RunIsHistory(list: seq<Version>, busyFails: bool, s: System, p: nat, i: nat,
                                        attempts: nat -> Attempt)
    returns (events: seq<Event>, t: System)
    requires AtMigration(s, s.schema, p, i) && i <= |list|
    ensures Execute(list, busyFails, s, events) == Some(t) && p < |t.runs|
    ensures t.schema == AfterRun(s.schema, list, attempts, busyFails, i).0
    ensures AfterRun(s.schema, list, attempts, busyFails, i).1.None? ==> Finished(list, t.runs[p])
    decreases |list| - i
  {
    if i == |list| {
      events, t := [], s;
    } else {
      var first, u := TransactionIsHistory(list, busyFails, s, p, i, attempts(i));
      if Reported(attempts(i), busyFails) {
        var rest;
        rest, t := RunIsHistory(list, busyFails, u, p, i + 1, attempts);
        ExecuteConcat(list, busyFails, s, first, rest);
        events := first + rest;
      } else {
        events, t := first, u;
      }
    }
  }

  /** From an empty database one run over any list can finish, and then everything is recorded. */
  lemma SomeRunFinishes(list: seq<Version>) returns (events: seq<Event>, s: System)
    requires Counting.Distinct(list)
    ensures Execute(list, true, FRESH, events) == Some(s)
    ensures |s.runs| > 0 && Finished(list, s.runs[0]) && s.schema.bodies == list
  {
    var attempts: nat -> Attempt := (i: nat) => Attempt(Completes, 0);
    NoEvents(list, true, FRESH);
    var first, begun := Then(list, true, FRESH, [], FRESH, Start);
    var rest;
    rest, s := RunIsHistory(list, true, begun, 0, 0, attempts);
    AllReported(begun.schema, list, attempts, 0);
    ExecuteConcat(list, true, FRESH, first, rest);
    events := first + rest;
    MigrationsAreSafe(list, events, s);
  }

  lemma {:induction false} AllReported(schema: Schema, list: seq<Version>, attempts: nat -> Attempt, i: nat)
    requires i <= |list| && forall j: nat :: attempts(j).outcome.Completes?
    ensures AfterRun(schema, list, attempts, true, i).1.None?
    decreases |list| - i
  {
    if i < |list| {
      AllReported(AfterTransaction(schema, list[i], attempts(i)), list, attempts, i + 1);
    }
  }
}
