/** The SQLite-to-PostgreSQL migration (src/migrations.py): the readiness check, the reference,
    user and project steps, the junction and history copies, the full run and its summary.
    Every step works in a session of its own, and a session that raises is closed without a
    commit. Inside the project step one failed flush leaves the session unusable: every later
    project is skipped and the final commit raises. Timestamps are carried over as they are.
    The UUIDs PostgreSQL draws for new users and projects are the parameters `userIds` and
    `projectIds`, and the e-mail CHECK pattern is `emailOk`. */
module Migrations {
  import opened Wrappers
  import opened Text
  import opened Constants
  import opened Collections
  import opened Records
  import opened PgModels
  import Sqlite = SqliteDb
  import Pg = PostgresDb

  // ---------------------------------------------------------------- readiness

  /** What the readiness check learns of the SQLite side: no database, a failing query, or the
      number of projects. */
  datatype SourceCheck = NoSource | SourceUnreachable | SourceProjects(count: nat)

  /** What it learns of the PostgreSQL side: no database, or the health check's verdict and
      the project count (`None` when the count query raises). */
  datatype TargetCheck = NoTarget | Target(healthy: bool, projectCount: Option<nat>)

  datatype Issue =
    | SourceMissing | SourceFailed | SourceEmpty
    | TargetMissing | HealthCheckFailed | TargetFailed | TargetNotEmpty(count: nat)

  function SourceIssues(s: SourceCheck): seq<Issue> {
    match s
    case NoSource => [SourceMissing]
    case SourceUnreachable => [SourceFailed]
    case SourceProjects(n) => if n == 0 then [SourceEmpty] else []
  }

  function TargetIssues(t: TargetCheck): seq<Issue> {
    match t
    case NoTarget => [TargetMissing]
    case Target(healthy, count) =>
      (if healthy then [] else [HealthCheckFailed])
      + (match count
         case None => [TargetFailed]
         case Some(n) => if n > 0 then [TargetNotEmpty(n)] else [])
  }

  /** `validate_migration_readiness`: ready exactly when no issue was found, which is when the
      source holds projects and the target is healthy and holds none. */
  function ValidateMigrationReadiness(s: SourceCheck, t: TargetCheck): (r: (bool, seq<Issue>))
    ensures r.0 <==> |r.1| == 0
    ensures r.0 <==> s.SourceProjects? && s.count > 0 && t.Target? && t.healthy && t.projectCount == Some(0)
    ensures forall n: nat :: TargetNotEmpty(n) in r.1 <==> t.Target? && t.projectCount == Some(n) && n > 0
    ensures |r.1| <= 3
  {
    var issues := SourceIssues(s) + TargetIssues(t);
    (|issues| == 0, issues)
  }

  // ---------------------------------------------------------------- the run

  /** The entries `migration_log` collects. The exception text a failure entry ends with is not
      modelled; the fixed prefix carries the word the summary looks for. */
  datatype LogEntry =
    | ReferenceDone
    | UsersMigrated(users: nat)
    | UserMigrationFailed
    | ProjectsMigrated(projects: nat)
    | ProjectMigrationFailed
    | MigrationDone
  {
    function Text(): string {
      match this
      case ReferenceDone => "Reference data migration completed"
      case UsersMigrated(n) => "Migrated " + NatToString(n) + " users"
      case UserMigrationFailed => "User migration failed: "
      case ProjectsMigrated(n) => "Migrated " + NatToString(n) + " projects"
      case ProjectMigrationFailed => "Project migration failed: "
      case MigrationDone => "Full migration completed successfully"
    }
  }

  /** `'failed' in log.lower()` */
  predicate MentionsFailed(e: LogEntry) {
    Contains(Lower(e.Text()), "failed")
  }

  /** A text without the letters "fa" side by side holds no "failed". */
  lemma NoFaNoFailed(s: string)
    requires forall i :: 0 <= i < |s| - 1 ==> !(s[i] == 'f' && s[i + 1] == 'a')
    ensures !Contains(s, "failed")
  {
    forall i | 0 <= i <= |s| && OccursAt(s, "failed", i) ensures false {
      Word(s, i);
    }
  }

  lemma Word(s: string, i: int)
    requires OccursAt(s, "failed", i)
    ensures s[i] == 'f' && s[i + 1] == 'a'
  {
    assert s[i..i + 6][0] == s[i] && s[i..i + 6][1] == s[i + 1];
  }

  /** A count logged between two texts without an 'f' leaves none in the lowered entry. */
  lemma CountEntryClean(n: nat, tail: string)
    requires forall i :: 0 <= i < |tail| ==> LowerChar(tail[i]) != 'f'
    ensures !Contains(Lower("Migrated " + NatToString(n) + tail), "failed")
  {
    var d := NatToString(n);
    var t := "Migrated " + d + tail;
    forall i | 0 <= i < |t| ensures Lower(t)[i] != 'f' {
      if i < 9 {
        assert t[i] == "Migrated "[i];
      } else if i < 9 + |d| {
        assert t[i] == d[i - 9] && IsDigit(d[i - 9]);
      } else {
        assert t[i] == tail[i - 9 - |d|];
      }
    }
    NoFaNoFailed(Lower(t));
  }

  lemma ReferenceDoneClean()
    ensures !MentionsFailed(ReferenceDone)
  {
    var l := Lower(ReferenceDone.Text());
    forall i | 0 <= i <= |l| && OccursAt(l, "failed", i) ensures false {
      Word(l, i);
    }
  }

  lemma MigrationDoneClean()
    ensures !MentionsFailed(MigrationDone)
  {
    var l := Lower(MigrationDone.Text());
    forall i | 0 <= i <= |l| && OccursAt(l, "failed", i) ensures false {
      Word(l, i);
    }
  }

  /** An entry mentions "failed" exactly when it records a failed step. */
  lemma MentionsFailedExactly(e: LogEntry)
    ensures MentionsFailed(e) <==> e.UserMigrationFailed? || e.ProjectMigrationFailed?
  {
    match e
    case ReferenceDone => ReferenceDoneClean();
    case UsersMigrated(n) => CountEntryClean(n, " users");
    case ProjectsMigrated(n) => CountEntryClean(n, " projects");
    case MigrationDone => MigrationDoneClean();
    case UserMigrationFailed =>
      assert OccursAt(Lower(e.Text()), "failed", 15);
    case ProjectMigrationFailed =>
      assert OccursAt(Lower(e.Text()), "failed", 18);
  }

  /** `get_migration_summary()['success']` as written: some entry does not mention "failed". */
  predicate SummarySuccessAsWritten(log: seq<LogEntry>) {
    Count(log, e => !MentionsFailed(e)) > 0
  }

  /** What the summary evidently means to report: a log with entries, none of them a failure. */
  predicate SummarySuccess(log: seq<LogEntry>) {
    |log| > 0 && forall i :: 0 <= i < |log| ==> !MentionsFailed(log[i])
  }

  /** The manager's state between steps: the target database, `user_id_mapping` (unset until
      the user step has copied at least one user) and the log. */
  datatype Migration = Migration(db: PgDb, userMap: Option<map<nat, Uuid>>, log: seq<LogEntry>)

  /** A step of `perform_full_migration`: whether it succeeded, and the state after it. */
  type Step = Migration -> (bool, Migration)

  /** The loop over the steps: each runs on the state the previous one left, and the first
      that fails ends the run. */
  function RunSteps(m: Migration, steps: seq<Step>): (r: (bool, Migration))
    decreases |steps|
  {
    if |steps| == 0 then (true, m)
    else
      var (ok, m') := steps[0](m);
      if !ok then (false, m') else RunSteps(m', steps[1..])
  }

  /** Running two lists of steps back to back is running the first list and, only if it
      succeeded, the second one on its result. */
  lemma {:induction false} RunStepsAppend(m: Migration, a: seq<Step>, b: seq<Step>)
    ensures RunSteps(m, a + b) == if RunSteps(m, a).0 then RunSteps(RunSteps(m, a).1, b) else RunSteps(m, a)
    decreases |a|
  {
    if |a| == 0 {
      assert a + b == b;
    } else {
      assert (a + b)[0] == a[0] && (a + b)[1..] == a[1..] + b;
      var (ok, m') := a[0](m);
      if ok {
        RunStepsAppend(m', a[1..], b);
      }
    }
  }

  /** A step that fails ends the run: the steps after it never run. */
  lemma StepsAfterFailureIgnored(m: Migration, a: seq<Step>, b: seq<Step>, c: seq<Step>)
    requires !RunSteps(m, a).0
    ensures RunSteps(m, a + b) == RunSteps(m, a + c) == RunSteps(m, a)
  {
    RunStepsAppend(m, a, b);
    RunStepsAppend(m, a, c);
  }

  // ---------------------------------------------------------------- reference data

  /** At least the five regions and seventeen SDGs seeding creates. */
  predicate ReferenceComplete(db: PgDb) {
    |db.regions| >= 5 && |db.sdgs| >= 17
  }

  /** `migrate_reference_data`: nothing is copied, the seeded tables are only counted. An
      incomplete set fails the step without a log entry. */
  function MigrateReferenceData(m: Migration): (r: (bool, Migration))
    ensures r.0 <==> ReferenceComplete(m.db)
    ensures r.1.db == m.db && r.1.userMap == m.userMap
    ensures r.1.log == if r.0 then m.log + [ReferenceDone] else m.log
  {
    if ReferenceComplete(m.db) then (true, m.(log := m.log + [ReferenceDone])) else (false, m)
  }

  /** A map holding each of the numbers 1..n in some entry has at least n entries. */
  lemma {:induction false} NumbersAtLeast(sdgs: map<int, PgSdg>, n: nat)
    requires forall k :: 1 <= k <= n ==> Pg.SdgNumberPresent(sdgs, k)
    ensures |sdgs| >= n
  {
    if n > 0 {
      assert Pg.SdgNumberPresent(sdgs, n);
      var id :| id in sdgs && sdgs[id].number == n;
      var rest := sdgs - {id};
      forall k | 1 <= k <= n - 1 ensures Pg.SdgNumberPresent(rest, k) {
        assert Pg.SdgNumberPresent(sdgs, k);
        var j :| j in sdgs && sdgs[j].number == k;
        assert j != id && j in rest;
      }
      NumbersAtLeast(rest, n - 1);
      assert sdgs.Keys == rest.Keys + {id};
    }
  }

  /** Seeding leaves regions 1..5 present. */
  lemma SeedingCoversRegions(db: PgDb)
    requires Pg.PopulateReferenceData(db).Ok?
    ensures forall id :: 1 <= id <= 5 ==> id in Pg.PopulateReferenceData(db).value.regions
  {
    var db' := Pg.PopulateReferenceData(db).value;
    Pg.PgSdgSeedsNumbered();
    var ss := Pg.PgSdgSeeds(Sdgs, Pg.SdgShortNames);
    Pg.TypologySeedsCover();
    Pg.RequirementSeedsInOrder();
    var ts, qs := Pg.TypologySeeds(ProjectTypologies), Pg.RequirementSeeds(ProjectRequirements);
    Pg.PgRegionSeedsMatchCatalogue();
    Pg.SeedTablesCoverRegionRange(db, RegionCodeWidth, Pg.PgRegionSeeds, ss, ts, qs, db');
  }

  /** Seeding leaves SDG numbers 1..17 present. */
  lemma SeedingCoversSdgs(db: PgDb)
    requires Pg.PopulateReferenceData(db).Ok?
    ensures forall n :: 1 <= n <= 17 ==> Pg.SdgNumberPresent(Pg.PopulateReferenceData(db).value.sdgs, n)
  {
    var db' := Pg.PopulateReferenceData(db).value;
    Pg.PgSdgSeedsNumbered();
    var ss := Pg.PgSdgSeeds(Sdgs, Pg.SdgShortNames);
    Pg.TypologySeedsCover();
    Pg.RequirementSeedsInOrder();
    var ts, qs := Pg.TypologySeeds(ProjectTypologies), Pg.RequirementSeeds(ProjectRequirements);
    Pg.SeedTablesCoverSdgRange(db, RegionCodeWidth, Pg.PgRegionSeeds, ss, ts, qs, db');
  }

  /** The reference step succeeds on a database that seeding has filled. */
  lemma ReferenceCompleteAfterSeeding(db: PgDb)
    requires Pg.PopulateReferenceData(db).Ok?
    ensures ReferenceComplete(Pg.PopulateReferenceData(db).value)
  {
    var db' := Pg.PopulateReferenceData(db).value;
    SeedingCoversRegions(db);
    SeedingCoversSdgs(db);
    KeysAtLeast(db'.regions, 5);
    NumbersAtLeast(db'.sdgs, 17);
  }

  // ---------------------------------------------------------------- users

  /** The PostgreSQL user made from a SQLite user: e-mail, contact person as full name, and
      organisation. */
  function PgUserOf(u: Sqlite.User, id: Uuid): PgUser {
    PgUser(id, u.email, u.contactPerson, u.organizationName)
  }

  /** The row passes its checks and its id and e-mail are not yet taken. */
  predicate Insertable(users: seq<PgUser>, row: PgUser, emailOk: string -> bool) {
    UserRowOk(row, emailOk) && forall v :: v in users ==> v.id != row.id && v.email != row.email
  }

  /** The rows made from `users`, the i-th drawing the UUID `ids(k + i)`. */
  function UserRows(users: seq<Sqlite.User>, ids: nat -> Uuid, k: nat): (r: seq<PgUser>)
    ensures |r| == |users| && forall i :: 0 <= i < |users| ==> r[i] == PgUserOf(users[i], ids(k + i))
  {
    seq(|users|, i requires 0 <= i < |users| => PgUserOf(users[i], ids(k + i)))
  }

  function UserIds(users: seq<Sqlite.User>): set<nat> {
    set u | u in users :: u.id
  }

  lemma UserRowsCons(users: seq<Sqlite.User>, ids: nat -> Uuid, k: nat)
    requires |users| > 0
    ensures UserRows(users, ids, k) == [PgUserOf(users[0], ids(k))] + UserRows(users[1..], ids, k + 1)
  {
    var rows, tail := UserRows(users, ids, k), UserRows(users[1..], ids, k + 1);
    forall i | 0 <= i < |rows| ensures rows[i] == ([PgUserOf(users[0], ids(k))] + tail)[i] {
      if i > 0 {
        assert users[1..][i - 1] == users[i];
      }
    }
  }

  lemma UserIdsCons(users: seq<Sqlite.User>)
    requires |users| > 0
    ensures UserIds(users) == {users[0].id} + UserIds(users[1..])
  {
    assert forall u :: u in users <==> u == users[0] || u in users[1..];
  }

  /** The insert-and-flush loop of `migrate_users`: the first row that does not fit raises, and
      the mapping records each SQLite id's new UUID, a later row overriding an earlier one. */
  function InsertUsers(existing: seq<PgUser>, mapping: map<nat, Uuid>, users: seq<Sqlite.User>, ids: nat -> Uuid,
                       k: nat, emailOk: string -> bool): Option<(seq<PgUser>, map<nat, Uuid>)>
    decreases |users|
  {
    if |users| == 0 then Some((existing, mapping))
    else
      var row := PgUserOf(users[0], ids(k));
      if !Insertable(existing, row, emailOk) then None
      else InsertUsers(existing + [row], mapping[users[0].id := ids(k)], users[1..], ids, k + 1, emailOk)
  }

  /** A completed loop has appended one row per user, in order. */
  lemma {:induction false} InsertUsersRows(existing: seq<PgUser>, mapping: map<nat, Uuid>, users: seq<Sqlite.User>,
                                           ids: nat -> Uuid, k: nat, emailOk: string -> bool)
    requires InsertUsers(existing, mapping, users, ids, k, emailOk).Some?
    ensures InsertUsers(existing, mapping, users, ids, k, emailOk).value.0 == existing + UserRows(users, ids, k)
    decreases |users|
  {
    if |users| > 0 {
      var row := PgUserOf(users[0], ids(k));
      var tail := UserRows(users[1..], ids, k + 1);
      assert InsertUsers(existing, mapping, users, ids, k, emailOk)
        == InsertUsers(existing + [row], mapping[users[0].id := ids(k)], users[1..], ids, k + 1, emailOk);
      InsertUsersRows(existing + [row], mapping[users[0].id := ids(k)], users[1..], ids, k + 1, emailOk);
      UserRowsCons(users, ids, k);
      assert (existing + [row]) + tail == existing + ([row] + tail);
    }
  }

  /** A completed loop has mapped every SQLite id. */
  lemma {:induction false} InsertUsersKeys(existing: seq<PgUser>, mapping: map<nat, Uuid>, users: seq<Sqlite.User>,
                                           ids: nat -> Uuid, k: nat, emailOk: string -> bool)
    requires InsertUsers(existing, mapping, users, ids, k, emailOk).Some?
    ensures InsertUsers(existing, mapping, users, ids, k, emailOk).value.1.Keys == mapping.Keys + UserIds(users)
    decreases |users|
  {
    if |users| == 0 {
      assert UserIds(users) == {};
    } else {
      var row := PgUserOf(users[0], ids(k));
      UserIdsCons(users);
      InsertUsersKeys(existing + [row], mapping[users[0].id := ids(k)], users[1..], ids, k + 1, emailOk);
    }
  }

  /** Each row passes its checks and is new to the table as the rows before it leave it. */
  predicate AllInsertable(users: seq<PgUser>, rows: seq<PgUser>, emailOk: string -> bool)
    decreases |rows|
  {
    |rows| == 0 || (Insertable(users, rows[0], emailOk) && AllInsertable(users + [rows[0]], rows[1..], emailOk))
  }

  /** The loop completes exactly when each row fits after the rows before it. */
  lemma {:induction false} InsertUsersSucceeds(existing: seq<PgUser>, mapping: map<nat, Uuid>, users: seq<Sqlite.User>,
                                               ids: nat -> Uuid, k: nat, emailOk: string -> bool)
    ensures InsertUsers(existing, mapping, users, ids, k, emailOk).Some? <==> AllInsertable(existing, UserRows(users, ids, k), emailOk)
    decreases |users|
  {
    if |users| > 0 {
      UserRowsCons(users, ids, k);
      var row := PgUserOf(users[0], ids(k));
      assert UserRows(users, ids, k)[1..] == UserRows(users[1..], ids, k + 1);
      InsertUsersSucceeds(existing + [row], mapping[users[0].id := ids(k)], users[1..], ids, k + 1, emailOk);
    }
  }

  /** Copied users keep the table's checks and its UNIQUE id and e-mail. */
  lemma {:induction false} InsertUsersKeepsUsersOk(existing: seq<PgUser>, mapping: map<nat, Uuid>, users: seq<Sqlite.User>,
                                                   ids: nat -> Uuid, k: nat, emailOk: string -> bool)
    requires UsersOk(existing, emailOk)
    requires InsertUsers(existing, mapping, users, ids, k, emailOk).Some?
    ensures UsersOk(InsertUsers(existing, mapping, users, ids, k, emailOk).value.0, emailOk)
    decreases |users|
  {
    if |users| > 0 {
      var row := PgUserOf(users[0], ids(k));
      var more := existing + [row];
      forall i, j | 0 <= i < j < |more| ensures more[i].id != more[j].id && more[i].email != more[j].email {
        if j == |existing| {
          assert more[i] in existing;
        }
      }
      InsertUsersKeepsUsersOk(more, mapping[users[0].id := ids(k)], users[1..], ids, k + 1, emailOk);
    }
  }

  /** With the distinct ids of a valid SQLite store, each user's id maps to the UUID its own
      row drew. */
  lemma {:induction false} InsertUsersMapping(existing: seq<PgUser>, mapping: map<nat, Uuid>, users: seq<Sqlite.User>,
                                              ids: nat -> Uuid, k: nat, emailOk: string -> bool)
    requires forall i, j :: 0 <= i < j < |users| ==> users[i].id < users[j].id
    requires InsertUsers(existing, mapping, users, ids, k, emailOk).Some?
    ensures var m := InsertUsers(existing, mapping, users, ids, k, emailOk).value.1;
      forall i :: 0 <= i < |users| ==> users[i].id in m && m[users[i].id] == ids(k + i)
    decreases |users|
  {
    if |users| > 0 {
      var row := PgUserOf(users[0], ids(k));
      var m0 := mapping[users[0].id := ids(k)];
      var rest := users[1..];
      assert InsertUsers(existing, mapping, users, ids, k, emailOk)
        == InsertUsers(existing + [row], m0, rest, ids, k + 1, emailOk);
      assert forall i :: 0 <= i < |rest| ==> rest[i] == users[i + 1];
      InsertUsersMapping(existing + [row], m0, rest, ids, k + 1, emailOk);
      KeptKey(existing + [row], m0, rest, ids, k + 1, emailOk, users[0].id);
      var m := InsertUsers(existing + [row], m0, rest, ids, k + 1, emailOk).value.1;
      forall i | 1 <= i < |users| ensures users[i].id in m && m[users[i].id] == ids(k + i) {
        var j := i - 1;
        assert rest[j] == users[i] && k + 1 + j == k + i;
      }
    }
  }

  /** A key no later row carries keeps its value. */
  lemma {:induction false} KeptKey(existing: seq<PgUser>, mapping: map<nat, Uuid>, users: seq<Sqlite.User>,
                                   ids: nat -> Uuid, k: nat, emailOk: string -> bool, key: nat)
    requires key in mapping && forall i :: 0 <= i < |users| ==> users[i].id != key
    requires InsertUsers(existing, mapping, users, ids, k, emailOk).Some?
    ensures var m := InsertUsers(existing, mapping, users, ids, k, emailOk).value.1;
      key in m && m[key] == mapping[key]
    decreases |users|
  {
    if |users| > 0 {
      var row := PgUserOf(users[0], ids(k));
      KeptKey(existing + [row], mapping[users[0].id := ids(k)], users[1..], ids, k + 1, emailOk, key);
    }
  }

  /** `migrate_users`: an empty source succeeds without a log entry and leaves the mapping
      unset; otherwise every user is copied in one commit, or the step fails and copies none. */
  function MigrateUsers(m: Migration, users: seq<Sqlite.User>, ids: nat -> Uuid, emailOk: string -> bool): (r: (bool, Migration))
    ensures |users| == 0 ==> r == (true, m)
    ensures !r.0 ==> r.1 == m.(log := m.log + [UserMigrationFailed])
    ensures r.0 && |users| > 0 ==>
      && r.1.db == m.db.(users := m.db.users + UserRows(users, ids, 0))
      && r.1.userMap.Some? && r.1.userMap.value.Keys == UserIds(users)
      && r.1.log == m.log + [UsersMigrated(|users|)]
  {
    if |users| == 0 then (true, m)
    else
      match InsertUsers(m.db.users, map[], users, ids, 0, emailOk)
      case None => (false, m.(log := m.log + [UserMigrationFailed]))
      case Some((all, mapping)) =>
        InsertUsersRows(m.db.users, map[], users, ids, 0, emailOk);
        InsertUsersKeys(m.db.users, map[], users, ids, 0, emailOk);
        (true, Migration(m.db.(users := all), Some(mapping), m.log + [UsersMigrated(|users|)]))
  }

  // ---------------------------------------------------------------- project rows

  /** `float(x) if x else None`, as written: a coordinate of exactly 0 is falsy and is stored
      as NULL. */
  function TruthyCoordinate(x: Option<real>): (r: Option<real>)
    ensures r.Some? <==> x.Some? && x.value != 0.0
    ensures r.Some? ==> r == x
  {
    if x.Some? && x.value != 0.0 then x else None
  }

  /** A coordinate carried over whenever it is present. */
  function KeptCoordinate(x: Option<real>): (r: Option<real>)
    ensures r.Some? <==> x.Some?
    ensures r.Some? ==> r == x
  {
    x
  }

  /** `_generate_slug`: the base cut to 80 characters if no project has it, else the base cut
      to 70 with the smallest free counter appended. */
  function MigrationSlug(name: string, taken: set<string>): (slug: string)
    ensures slug !in taken
  {
    var base := Pg.SlugBase(name);
    var first := SlicePrefix(base, 80);
    if first !in taken then first
    else
      var short := SlicePrefix(base, 70);
      Pg.SomeSuffixFree(short, taken);
      var k := Pg.FreeSuffixFrom(short, taken, 1, |taken| + 1);
      Pg.Suffixed(short, k)
  }

  /** The slug is the cut base when that is free, and otherwise carries the smallest counter
      whose slug is free. */
  lemma MigrationSlugChoice(name: string, taken: set<string>)
    ensures SlicePrefix(Pg.SlugBase(name), 80) !in taken ==> MigrationSlug(name, taken) == SlicePrefix(Pg.SlugBase(name), 80)
    ensures SlicePrefix(Pg.SlugBase(name), 80) in taken ==>
      exists k :: k >= 1 && MigrationSlug(name, taken) == Pg.Suffixed(SlicePrefix(Pg.SlugBase(name), 70), k)
        && forall i :: 1 <= i < k ==> Pg.Suffixed(SlicePrefix(Pg.SlugBase(name), 70), i) in taken
  {
    var short := SlicePrefix(Pg.SlugBase(name), 70);
    if SlicePrefix(Pg.SlugBase(name), 80) in taken {
      Pg.SomeSuffixFree(short, taken);
      var k := Pg.FreeSuffixFrom(short, taken, 1, |taken| + 1);
      assert MigrationSlug(name, taken) == Pg.Suffixed(short, k);
    }
  }

  /** For names whose slug base is at most 70 characters, the migration picks the slug project
      creation would. */
  lemma MigrationSlugAgreesWithCreate(name: string, taken: set<string>)
    requires |Pg.SlugBase(name)| <= 70
    ensures MigrationSlug(name, taken) == Pg.GenerateProjectSlug(name, taken)
  {
    var base := Pg.SlugBase(name);
    assert SlicePrefix(base, 80) == base && SlicePrefix(base, 70) == base;
  }

  /** `funding_needed_usd`: zero is falsy and is stored as NULL. */
  function MigratedFunding(x: Option<int>): (r: Option<int>)
    ensures r.Some? <==> Truthy(x)
    ensures r.Some? ==> r == x
  {
    if Truthy(x) then x else None
  }

  /** The columns the flush needs are there: creator, both coordinates after conversion, the
      region, and a status the enum column accepts. */
  predicate Buildable(p: Sqlite.Project, creator: Option<Uuid>, coordinate: Option<real> -> Option<real>) {
    && creator.Some? && coordinate(p.details.latitude).Some? && coordinate(p.details.longitude).Some?
    && p.details.uiaRegionId.Some? && ParseProjectStatus(p.details.projectStatus).Some?
  }

  /** The `projects` row built from a SQLite project, or `None` when a NOT NULL column would be
      NULL (creator, coordinates, region) or the status is not an enum value: each of those
      makes the flush fail. Approved projects take their update time as approval and
      publication date; funding spent and the junction rows start empty. */
  function ProjectRow(p: Sqlite.Project, id: Uuid, slug: string, creator: Option<Uuid>,
                      coordinate: Option<real> -> Option<real>): (r: Option<PgProject>)
    ensures r.Some? <==> Buildable(p, creator, coordinate)
  {
    var d := p.details;
    var lat, lon := coordinate(d.latitude), coordinate(d.longitude);
    match ParseProjectStatus(d.projectStatus)
    case None => None
    case Some(status) =>
      if creator.None? || lat.None? || lon.None? || d.uiaRegionId.None? then None
      else
        var stamp := if p.workflowStatus == Approved then Some(p.updatedAt) else None;
        Some(PgProject(id, d.projectName, slug, d.organizationName, d.contactPerson, d.contactEmail, status,
                       d.city, d.country, d.uiaRegionId.value, lat.value, lon.value, MigratedFunding(d.fundingNeeded), None,
                       d.briefDescription, d.detailedDescription, d.successFactors, p.workflowStatus, p.createdAt,
                       stamp, stamp, None, p.updatedAt, None, creator.value, None, [], [], [], []))
  }

  /** What a migrated row carries over from its source. */
  lemma ProjectRowCarries(p: Sqlite.Project, id: Uuid, slug: string, creator: Option<Uuid>,
                          coordinate: Option<real> -> Option<real>)
    requires ProjectRow(p, id, slug, creator, coordinate).Some?
    ensures var q := ProjectRow(p, id, slug, creator, coordinate).value;
      && q.id == id && q.slug == slug && q.createdBy == creator.value
      && q.name == p.details.projectName && q.contactEmail == p.details.contactEmail
      && q.regionId == p.details.uiaRegionId.value
      && Some(q.latitude) == coordinate(p.details.latitude) && Some(q.longitude) == coordinate(p.details.longitude)
      && Some(q.projectStatus) == ParseProjectStatus(p.details.projectStatus)
      && q.workflowStatus == p.workflowStatus && q.submissionDate == p.createdAt && q.updatedAt == p.updatedAt
      && q.fundingNeeded == MigratedFunding(p.details.fundingNeeded) && q.fundingSpent.None?
      && q.deletedAt.None? && q.lastReviewedBy.None? && q.rejectionReason.None?
      && q.sdgs == [] && q.typologies == [] && q.requirements == [] && q.images == []
  {
  }

  /** Only approved rows get approval and publication dates, and those pass the dates CHECK
      exactly when the project was not updated before it was created. */
  lemma ProjectRowDates(p: Sqlite.Project, id: Uuid, slug: string, creator: Option<Uuid>,
                        coordinate: Option<real> -> Option<real>)
    requires ProjectRow(p, id, slug, creator, coordinate).Some?
    ensures var q := ProjectRow(p, id, slug, creator, coordinate).value;
      && (q.approvalDate.Some? <==> p.workflowStatus == Approved)
      && q.publishedDate == q.approvalDate
      && (DatesOk(q) <==> p.workflowStatus != Approved || p.updatedAt >= p.createdAt)
  {
  }

  /** With coordinates kept, a project at latitude or longitude 0 still gets a row. */
  lemma KeptCoordinatesBuildRow(p: Sqlite.Project, id: Uuid, slug: string, creator: Uuid)
    requires p.details.latitude.Some? && p.details.longitude.Some? && p.details.uiaRegionId.Some?
    requires ParseProjectStatus(p.details.projectStatus).Some?
    ensures ProjectRow(p, id, slug, Some(creator), KeptCoordinate).Some?
    ensures ProjectRow(p, id, slug, Some(creator), KeptCoordinate).value.latitude == p.details.latitude.value
    ensures ProjectRow(p, id, slug, Some(creator), KeptCoordinate).value.longitude == p.details.longitude.value
  {
  }

  // ---------------------------------------------------------------- the project session

  /** The project step's session: the database as it sees it (flushed rows included), the
      (source, row) pairs flushed so far, and whether a failed flush has spoilt it. */
  datatype Session = Session(db: PgDb, added: seq<(Sqlite.Project, PgProject)>, poisoned: bool)

  function Rows(pairs: seq<(Sqlite.Project, PgProject)>): (r: seq<PgProject>)
    ensures |r| == |pairs| && forall i :: 0 <= i < |pairs| ==> r[i] == pairs[i].1
  {
    seq(|pairs|, i requires 0 <= i < |pairs| => pairs[i].1)
  }

  /** The constraints the flush of one new row meets: its row checks, its foreign keys, and
      its UNIQUE id and slug. */
  predicate Flushable(db: PgDb, q: PgProject, emailOk: string -> bool) {
    ProjectRowOk(q, emailOk) && ProjectKeysOk(db, q) && !ProjectExists(db, q.id) && q.slug !in Pg.Slugs(db.projects)
  }

  /** `created_by_user_id=user_id_mapping.get(submitted_by)` */
  function Creator(userMap: map<nat, Uuid>, p: Sqlite.Project): Option<Uuid> {
    if p.submittedBy in userMap then Some(userMap[p.submittedBy]) else None
  }

  /** The row a pass builds: its slug is chosen against the rows the session sees. */
  function FlushedRow(db: PgDb, p: Sqlite.Project, userMap: map<nat, Uuid>, id: Uuid,
                      coordinate: Option<real> -> Option<real>): Option<PgProject> {
    ProjectRow(p, id, MigrationSlug(p.details.projectName, Pg.Slugs(db.projects)), Creator(userMap, p), coordinate)
  }

  /** How a pass builds its row from a project and the rows the session sees, and whether the
      database accepts that row. The session lemmas below hold for any such pair. */
  type Builder = (PgDb, Sqlite.Project, Uuid) -> Option<PgProject>
  type Acceptor = (PgDb, PgProject) -> bool

  function Build(userMap: map<nat, Uuid>, coordinate: Option<real> -> Option<real>): Builder {
    (db, p, id) => FlushedRow(db, p, userMap, id, coordinate)
  }

  function Accepts(emailOk: string -> bool): Acceptor {
    (db, q) => Flushable(db, q, emailOk)
  }

  /** One pass of the loop in a healthy session: build the row and flush it. A row that cannot
      be built or is rejected spoils the session. */
  function Flush(s: Session, p: Sqlite.Project, id: Uuid, build: Builder, accepts: Acceptor): (r: Session)
    requires !s.poisoned
    ensures var q := build(s.db, p, id);
      && (r.poisoned <==> q.None? || !accepts(s.db, q.value))
      && (r.poisoned ==> r.db == s.db && r.added == s.added)
      && (!r.poisoned ==> r == s.(db := s.db.(projects := s.db.projects + [q.value]), added := s.added + [(p, q.value)]))
  {
    match build(s.db, p, id)
    case None => s.(poisoned := true)
    case Some(q) =>
      if accepts(s.db, q) then s.(db := s.db.(projects := s.db.projects + [q]), added := s.added + [(p, q)])
      else s.(poisoned := true)
  }

  /** One pass of the loop of `migrate_projects`. Without a user mapping the project raises
      before it is added, which spoils nothing; in a spoilt session it raises at its slug query. */
  function Pass(s: Session, p: Sqlite.Project, mapped: bool, id: Uuid, build: Builder, accepts: Acceptor): (r: Session)
    ensures s.poisoned || !mapped ==> r == s
  {
    if s.poisoned || !mapped then s else Flush(s, p, id, build, accepts)
  }

  /** The loop of `migrate_projects` from the k-th project on, drawing the UUID `ids(k + i)`
      for the i-th. */
  function FlushAll(s: Session, projects: seq<Sqlite.Project>, mapped: bool, ids: nat -> Uuid, k: nat,
                    build: Builder, accepts: Acceptor): (r: Session)
    ensures s.poisoned ==> r.poisoned
    decreases |projects|
  {
    if |projects| == 0 then s
    else FlushAll(Pass(s, projects[0], mapped, ids(k), build, accepts), projects[1..], mapped, ids, k + 1, build, accepts)
  }

  /** `b` extends `a`: earlier pairs stay and the database gains exactly the new rows. */
  predicate Grows(a: Session, b: Session) {
    && |a.added| <= |b.added| && b.added[..|a.added|] == a.added
    && b.db.projects == a.db.projects + Rows(b.added[|a.added|..])
    && b.db == a.db.(projects := b.db.projects)
  }

  lemma RowsAppend(x: seq<(Sqlite.Project, PgProject)>, y: seq<(Sqlite.Project, PgProject)>)
    ensures Rows(x + y) == Rows(x) + Rows(y)
  {
    assert forall i :: 0 <= i < |x + y| ==> Rows(x + y)[i] == (Rows(x) + Rows(y))[i];
  }

  /** Prefixes compose, and the part a longer prefix adds is the sum of the parts. */
  lemma PrefixCompose<T>(a: seq<T>, b: seq<T>, c: seq<T>)
    requires |a| <= |b| <= |c| && b[..|a|] == a && c[..|b|] == b
    ensures c[..|a|] == a && c[|a|..] == b[|a|..] + c[|b|..]
  {
    assert c[..|a|] == c[..|b|][..|a|];
    assert c[|a|..] == c[|a|..|b|] + c[|b|..];
    assert c[|a|..|b|] == c[..|b|][|a|..];
  }

  lemma ProjectsCompose(a: seq<PgProject>, x: seq<PgProject>, y: seq<PgProject>, z: seq<PgProject>)
    requires z == x + y
    ensures (a + x) + y == a + z
  {
  }

  lemma GrowsTransitive(a: Session, b: Session, c: Session)
    requires Grows(a, b) && Grows(b, c)
    ensures Grows(a, c)
  {
    var x, y := b.added[|a.added|..], c.added[|b.added|..];
    PrefixCompose(a.added, b.added, c.added);
    ProjectsCompose(a.db.projects, Rows(x), Rows(y), Rows(x + y));
    RowsAppend(x, y);
  }

  lemma PassGrows(s: Session, p: Sqlite.Project, mapped: bool, id: Uuid, build: Builder, accepts: Acceptor)
    ensures Grows(s, Pass(s, p, mapped, id, build, accepts))
  {
    var r := Pass(s, p, mapped, id, build, accepts);
    if r.added == s.added {
      assert r.added[|s.added|..] == [];
    } else {
      assert r.added[|s.added|..] == [(p, build(s.db, p, id).value)];
    }
  }

  /** The session only grows: earlier pairs stay, the database gains exactly the new rows, and
      without a mapping or once spoilt nothing happens at all. */
  lemma {:induction false} FlushAllFrame(s: Session, projects: seq<Sqlite.Project>, mapped: bool, ids: nat -> Uuid, k: nat,
                                         build: Builder, accepts: Acceptor)
    ensures var r := FlushAll(s, projects, mapped, ids, k, build, accepts);
      Grows(s, r) && (s.poisoned || !mapped ==> r == s)
    decreases |projects|
  {
    if |projects| > 0 {
      var s' := Pass(s, projects[0], mapped, ids(k), build, accepts);
      PassGrows(s, projects[0], mapped, ids(k), build, accepts);
      FlushAllFrame(s', projects[1..], mapped, ids, k + 1, build, accepts);
      GrowsTransitive(s, s', FlushAll(s', projects[1..], mapped, ids, k + 1, build, accepts));
    } else {
      assert s.added[|s.added|..] == [];
    }
  }

  /** Every pair flushed is a project of the input with a row its builder produced, so a
      property every built row has holds of every flushed one. */
  lemma {:induction false} FlushAllRows(s: Session, projects: seq<Sqlite.Project>, mapped: bool, ids: nat -> Uuid, k: nat,
                                        build: Builder, accepts: Acceptor, built: (Sqlite.Project, PgProject) -> bool)
    requires forall db, p, id :: build(db, p, id).Some? ==> built(p, build(db, p, id).value)
    ensures var r := FlushAll(s, projects, mapped, ids, k, build, accepts);
      forall j :: |s.added| <= j < |r.added| ==> mapped && r.added[j].0 in projects && built(r.added[j].0, r.added[j].1)
    decreases |projects|
  {
    if |projects| > 0 {
      var s' := Pass(s, projects[0], mapped, ids(k), build, accepts);
      FlushAllRows(s', projects[1..], mapped, ids, k + 1, build, accepts, built);
      FlushAllFrame(s', projects[1..], mapped, ids, k + 1, build, accepts);
      var r := FlushAll(s', projects[1..], mapped, ids, k + 1, build, accepts);
      if s'.added != s.added {
        assert s'.added == s.added + [(projects[0], build(s.db, projects[0], ids(k)).value)];
        assert r.added[|s.added|] == s'.added[|s.added|] by {
          assert r.added[..|s'.added|] == s'.added;
        }
      }
      forall j | |s.added| <= j < |r.added| ensures mapped && r.added[j].0 in projects && built(r.added[j].0, r.added[j].1) {
        if j >= |s'.added| {
          assert r.added[j].0 in projects[1..];
        }
      }
    }
  }

  /** A loop that ends unspoilt, with a mapping and from a healthy session, has flushed every
      project, in order. */
  lemma {:induction false} FlushAllComplete(s: Session, projects: seq<Sqlite.Project>, ids: nat -> Uuid, k: nat,
                                            build: Builder, accepts: Acceptor)
    requires !s.poisoned && !FlushAll(s, projects, true, ids, k, build, accepts).poisoned
    ensures var r := FlushAll(s, projects, true, ids, k, build, accepts);
      |r.added| == |s.added| + |projects| && forall j :: 0 <= j < |projects| ==> r.added[|s.added| + j].0 == projects[j]
    decreases |projects|
  {
    if |projects| > 0 {
      var s' := Flush(s, projects[0], ids(k), build, accepts);
      assert !s'.poisoned;
      FlushAllComplete(s', projects[1..], ids, k + 1, build, accepts);
      FlushAllFrame(s', projects[1..], true, ids, k + 1, build, accepts);
      var r := FlushAll(s', projects[1..], true, ids, k + 1, build, accepts);
      assert s'.added == s.added + [s'.added[|s.added|]];
      forall j | 0 <= j < |projects| ensures r.added[|s.added| + j].0 == projects[j] {
        if j == 0 {
          assert r.added[..|s'.added|] == s'.added;
        } else {
          assert projects[1..][j - 1] == projects[j];
        }
      }
    }
  }

  /** A project that gets no row whatever the session holds spoils a healthy session with a
      mapping, whatever the other projects are. */
  lemma {:induction false} UnbuiltRowSpoils(s: Session, projects: seq<Sqlite.Project>, ids: nat -> Uuid, k: nat,
                                            build: Builder, accepts: Acceptor, i: nat)
    requires i < |projects| && forall db, id :: build(db, projects[i], id).None?
    ensures FlushAll(s, projects, true, ids, k, build, accepts).poisoned
    decreases |projects|
  {
    var s' := Pass(s, projects[0], true, ids(k), build, accepts);
    if i > 0 {
      assert projects[1..][i - 1] == projects[i];
      UnbuiltRowSpoils(s', projects[1..], ids, k + 1, build, accepts, i - 1);
    } else if !s.poisoned {
      assert build(s.db, projects[0], ids(k)).None?;
    }
  }

  /** A database invariant that every accepted row keeps holds after the loop. */
  lemma {:induction false} FlushAllKeeps(s: Session, projects: seq<Sqlite.Project>, mapped: bool, ids: nat -> Uuid, k: nat,
                                         build: Builder, accepts: Acceptor, inv: PgDb -> bool)
    requires inv(s.db)
    requires forall db, p, id :: inv(db) && build(db, p, id).Some? && accepts(db, build(db, p, id).value) ==>
      inv(db.(projects := db.projects + [build(db, p, id).value]))
    ensures inv(FlushAll(s, projects, mapped, ids, k, build, accepts).db)
    decreases |projects|
  {
    if |projects| > 0 {
      FlushAllKeeps(Pass(s, projects[0], mapped, ids(k), build, accepts), projects[1..], mapped, ids, k + 1, build, accepts, inv);
    }
  }

  /** A project whose row cannot be built (no creator, a coordinate or the region NULL, or a
      status outside the enum) gets no row whatever the session holds. */
  lemma UnbuildableGetsNoRow(userMap: map<nat, Uuid>, coordinate: Option<real> -> Option<real>, p: Sqlite.Project)
    requires !Buildable(p, Creator(userMap, p), coordinate)
    ensures forall db, id :: Build(userMap, coordinate)(db, p, id).None?
  {
  }

  /** The row of a migrated project, as `ProjectRow` builds it from its source. */
  function BuiltFrom(userMap: map<nat, Uuid>, coordinate: Option<real> -> Option<real>): (Sqlite.Project, PgProject) -> bool {
    (p: Sqlite.Project, q: PgProject) => ProjectRow(p, q.id, q.slug, Creator(userMap, p), coordinate) == Some(q)
  }

  /** Every row the migration builds is its project's row, under the id and slug it drew. */
  lemma BuiltRowsFromSource(userMap: map<nat, Uuid>, coordinate: Option<real> -> Option<real>)
    ensures forall db, p, id :: Build(userMap, coordinate)(db, p, id).Some? ==>
      BuiltFrom(userMap, coordinate)(p, Build(userMap, coordinate)(db, p, id).value)
  {
    forall db, p, id | Build(userMap, coordinate)(db, p, id).Some?
      ensures BuiltFrom(userMap, coordinate)(p, Build(userMap, coordinate)(db, p, id).value)
    {
      BuiltRowFromSource(userMap, coordinate, db, p, id);
    }
  }

  lemma BuiltRowFromSource(userMap: map<nat, Uuid>, coordinate: Option<real> -> Option<real>, db: PgDb,
                           p: Sqlite.Project, id: Uuid)
    requires Build(userMap, coordinate)(db, p, id).Some?
    ensures BuiltFrom(userMap, coordinate)(p, Build(userMap, coordinate)(db, p, id).value)
  {
    var slug := MigrationSlug(p.details.projectName, Pg.Slugs(db.projects));
    var q := ProjectRow(p, id, slug, Creator(userMap, p), coordinate);
    assert Build(userMap, coordinate)(db, p, id) == q;
    ProjectRowCarries(p, id, slug, Creator(userMap, p), coordinate);
  }

  /** Flushing a row the database accepts keeps the project table consistent. */
  lemma FlushKeepsProjectsOk(db: PgDb, q: PgProject, emailOk: string -> bool)
    requires ProjectsOk(db, emailOk) && Flushable(db, q, emailOk)
    requires q.sdgs == [] && q.typologies == [] && q.requirements == [] && q.images == []
    ensures ProjectsOk(db.(projects := db.projects + [q]), emailOk)
  {
    var db' := db.(projects := db.projects + [q]);
    forall p | p in db'.projects ensures ProjectKeysOk(db', p) && LinksOk(db', p) {
      if p != q {
        assert p in db.projects;
        var u :| u in db.users && u.id == p.createdBy;
        assert u in db'.users;
      } else {
        var u :| u in db.users && u.id == q.createdBy;
        assert u in db'.users;
      }
    }
    forall i, j | 0 <= i < j < |db'.projects| ensures db'.projects[i].id != db'.projects[j].id && db'.projects[i].slug != db'.projects[j].slug {
      if j == |db.projects| {
        assert db'.projects[i] in db.projects;
      }
    }
  }

  ghost function ProjectsOkIn(emailOk: string -> bool): PgDb -> bool {
    db => ProjectsOk(db, emailOk)
  }

  /** Each row the migration flushes keeps the project table consistent. */
  lemma AcceptedRowsKeepProjectsOk(userMap: map<nat, Uuid>, coordinate: Option<real> -> Option<real>, emailOk: string -> bool)
    ensures var build, inv := Build(userMap, coordinate), ProjectsOkIn(emailOk);
      forall db, p, id :: inv(db) && build(db, p, id).Some? && Accepts(emailOk)(db, build(db, p, id).value) ==>
        inv(db.(projects := db.projects + [build(db, p, id).value]))
  {
    var build, inv := Build(userMap, coordinate), ProjectsOkIn(emailOk);
    forall db, p, id | inv(db) && build(db, p, id).Some? && Accepts(emailOk)(db, build(db, p, id).value)
      ensures inv(db.(projects := db.projects + [build(db, p, id).value]))
    {
      AcceptedRowKeepsProjectsOk(userMap, coordinate, emailOk, db, p, id);
    }
  }

  lemma AcceptedRowKeepsProjectsOk(userMap: map<nat, Uuid>, coordinate: Option<real> -> Option<real>, emailOk: string -> bool,
                                   db: PgDb, p: Sqlite.Project, id: Uuid)
    requires ProjectsOk(db, emailOk) && FlushedRow(db, p, userMap, id, coordinate).Some?
    requires Flushable(db, FlushedRow(db, p, userMap, id, coordinate).value, emailOk)
    ensures ProjectsOk(db.(projects := db.projects + [FlushedRow(db, p, userMap, id, coordinate).value]), emailOk)
  {
    var slug := MigrationSlug(p.details.projectName, Pg.Slugs(db.projects));
    ProjectRowCarries(p, id, slug, Creator(userMap, p), coordinate);
    FlushKeepsProjectsOk(db, FlushedRow(db, p, userMap, id, coordinate).value, emailOk);
  }

  // ---------------------------------------------------------------- junction and history copies

  /** `project_id_mapping`, built in loop order. */
  function ProjectMapping(pairs: seq<(Sqlite.Project, PgProject)>, m: map<nat, Uuid>): (r: map<nat, Uuid>)
    ensures r.Keys == m.Keys + (set x | x in pairs :: x.0.id)
    decreases |pairs|
  {
    if |pairs| == 0 then m
    else
      assert (set x | x in pairs :: x.0.id) == {pairs[0].0.id} + (set x | x in pairs[1..] :: x.0.id) by {
        assert forall x :: x in pairs <==> x == pairs[0] || x in pairs[1..];
      }
      ProjectMapping(pairs[1..], m[pairs[0].0.id := pairs[0].1.id])
  }

  function Attach(pairs: seq<(Sqlite.Project, PgProject)>, attach: (Sqlite.Project, PgProject) -> PgProject)
    : (r: seq<(Sqlite.Project, PgProject)>)
    ensures |r| == |pairs| && forall i :: 0 <= i < |pairs| ==> r[i] == (pairs[i].0, attach(pairs[i].0, pairs[i].1))
  {
    seq(|pairs|, i requires 0 <= i < |pairs| => (pairs[i].0, attach(pairs[i].0, pairs[i].1)))
  }

  /** One junction copy in a session of its own: the rows of every migrated project are added
      and committed together, and when one of them breaks a constraint the commit raises, the
      error is logged and none is kept. */
  function Junction(pairs: seq<(Sqlite.Project, PgProject)>, attach: (Sqlite.Project, PgProject) -> PgProject,
                    fits: PgProject -> bool): (r: seq<(Sqlite.Project, PgProject)>)
    ensures |r| == |pairs|
  {
    if forall i :: 0 <= i < |pairs| ==> fits(attach(pairs[i].0, pairs[i].1)) then Attach(pairs, attach) else pairs
  }

  /** All or nothing: either every migrated project gets its rows, each of them fitting, or
      every project is left as it was. */
  lemma JunctionAllOrNothing(pairs: seq<(Sqlite.Project, PgProject)>, attach: (Sqlite.Project, PgProject) -> PgProject,
                             fits: PgProject -> bool)
    ensures var r := Junction(pairs, attach, fits);
      || (r == pairs && exists i :: 0 <= i < |pairs| && !fits(attach(pairs[i].0, pairs[i].1)))
      || (forall i :: 0 <= i < |pairs| ==> r[i] == (pairs[i].0, attach(pairs[i].0, pairs[i].1)) && fits(r[i].1))
  {
  }

  function AttachSdgs(p: Sqlite.Project, q: PgProject): PgProject {
    q.(sdgs := p.sdgs)
  }

  /** `TYPOLOGY_CODES.get(name, 'OTHER')` per row. */
  function AttachTypologies(p: Sqlite.Project, q: PgProject): PgProject {
    q.(typologies := Pg.TypologyCodesOf(p.typologies))
  }

  /** `REQUIREMENT_CODES.get(text, 'OTHER_CUSTOM')` and the keyword category rule per row. */
  function MigratedLinks(pairs: seq<RequirementPair>): (r: seq<RequirementLink>)
    ensures |r| == |pairs|
  {
    seq(|pairs|, i requires 0 <= i < |pairs| => RequirementLink(RequirementCodeFor(pairs[i].text), CategoryFor(pairs[i].category)))
  }

  function AttachRequirements(p: Sqlite.Project, q: PgProject): PgProject {
    q.(requirements := MigratedLinks(p.requirements))
  }

  /** The image rows: the URL, the NULL alt text (here empty) and display order 0. */
  function MigratedImages(images: seq<Sqlite.Image>): (r: seq<PgImage>)
    ensures |r| == |images|
  {
    seq(|images|, i requires 0 <= i < |images| => PgImage(images[i].url, "", 0))
  }

  function AttachImages(p: Sqlite.Project, q: PgProject): PgProject {
    q.(images := MigratedImages(p.images))
  }

  /** The UNIQUE (project, sdg) pairs and the foreign key into `sdgs`. */
  predicate SdgsFit(db: PgDb, q: PgProject) {
    Distinct(q.sdgs) && forall s :: s in q.sdgs ==> s in db.sdgs
  }

  predicate TypologiesFit(db: PgDb, q: PgProject) {
    Distinct(q.typologies) && forall t :: t in q.typologies ==> t in db.typologies
  }

  predicate RequirementsFit(db: PgDb, q: PgProject) {
    Distinct(LinkCodes(q.requirements)) && forall l :: l in q.requirements ==> l.code in db.requirements
  }

  predicate ImagesFit(q: PgProject) {
    forall i :: i in q.images ==> ImageOk(i)
  }

  /** The migration maps requirements as project creation does once its category fix is in. */
  lemma MigratedLinksAgreeWithCreate(pairs: seq<RequirementPair>)
    ensures Pg.RequirementLinks(pairs, Pg.LinkCategory) == Some(MigratedLinks(pairs))
  {
    assert forall i :: 0 <= i < |pairs| ==> Pg.LinkCategory(pairs[i].category) == Some(CategoryFor(pairs[i].category));
    var r := Pg.RequirementLinks(pairs, Pg.LinkCategory);
    assert r.value == MigratedLinks(pairs);
  }

  /** The copied history rows: entries whose project and author both have a new UUID. */
  function HistoryRows(entries: seq<Sqlite.HistoryEntry>, pmap: map<nat, Uuid>, umap: map<nat, Uuid>): (r: seq<PgHistory>)
    ensures |r| <= |entries|
    decreases |entries|
  {
    if |entries| == 0 then []
    else
      var e := entries[0];
      var rest := HistoryRows(entries[1..], pmap, umap);
      if e.projectId in pmap && e.changedBy.Some? && e.changedBy.value >= 0 && e.changedBy.value as nat in umap then
        [PgHistory(pmap[e.projectId], Some(e.oldStatus), e.newStatus, umap[e.changedBy.value as nat], e.reason, e.createdAt)] + rest
      else rest
  }

  /** An entry is copied exactly when its project and author are both mapped. */
  lemma {:induction false} HistoryRowsComplete(entries: seq<Sqlite.HistoryEntry>, pmap: map<nat, Uuid>, umap: map<nat, Uuid>,
                                               e: Sqlite.HistoryEntry)
    requires e in entries && e.projectId in pmap && e.changedBy.Some? && e.changedBy.value >= 0 && e.changedBy.value as nat in umap
    ensures PgHistory(pmap[e.projectId], Some(e.oldStatus), e.newStatus, umap[e.changedBy.value as nat], e.reason, e.createdAt)
      in HistoryRows(entries, pmap, umap)
    decreases |entries|
  {
    if entries[0] != e {
      HistoryRowsComplete(entries[1..], pmap, umap, e);
    }
  }

  /** The history rows a commit accepts: the different-states CHECK and both foreign keys. */
  predicate HistoryFits(db: PgDb, h: PgHistory) {
    HistoryRowOk(h) && ProjectExists(db, h.projectId) && UserExists(db, h.changedBy)
  }

  /** `_migrate_workflow_history`: without a user mapping the first entry raises and nothing
      is copied; otherwise the rows are committed together or, if one is rejected, not at all. */
  function CopyHistory(db: PgDb, entries: seq<Sqlite.HistoryEntry>, pmap: map<nat, Uuid>, umap: Option<map<nat, Uuid>>)
    : (r: PgDb)
    ensures r.history == db.history || (umap.Some? && r.history == db.history + HistoryRows(entries, pmap, umap.value))
    ensures r == db.(history := r.history)
  {
    if umap.None? then db
    else
      var rows := HistoryRows(entries, pmap, umap.value);
      if forall h :: h in rows ==> HistoryFits(db, h) then db.(history := db.history + rows) else db
  }

  /** A copied history keeps the audit tables consistent. */
  lemma CopyHistoryKeepsAuditOk(db: PgDb, entries: seq<Sqlite.HistoryEntry>, pmap: map<nat, Uuid>, umap: Option<map<nat, Uuid>>)
    requires AuditOk(db)
    ensures AuditOk(CopyHistory(db, entries, pmap, umap))
  {
  }

  /** A SQLite history entry from a status to itself (SQLite's status update accepts one) whose
      project and author are mapped makes the whole history copy fail. */
  lemma SameStatusEntryDropsHistory(db: PgDb, entries: seq<Sqlite.HistoryEntry>, pmap: map<nat, Uuid>, umap: map<nat, Uuid>,
                                    e: Sqlite.HistoryEntry)
    requires e in entries && e.oldStatus == e.newStatus
    requires e.projectId in pmap && e.changedBy.Some? && e.changedBy.value >= 0 && e.changedBy.value as nat in umap
    ensures CopyHistory(db, entries, pmap, Some(umap)) == db
  {
    HistoryRowsComplete(entries, pmap, umap, e);
  }

  /** The copies after the project commit: SDGs, typologies, requirements and images, each in
      its own session, then the workflow history. `db` holds the committed projects, the
      migrated ones being `Rows(pairs)` at its end. */
  function CopyRelated(db: PgDb, base: seq<PgProject>, pairs: seq<(Sqlite.Project, PgProject)>,
                       entries: seq<Sqlite.HistoryEntry>, umap: Option<map<nat, Uuid>>): (r: PgDb)
  {
    var a1 := Junction(pairs, AttachSdgs, q => SdgsFit(db, q));
    var a2 := Junction(a1, AttachTypologies, q => TypologiesFit(db, q));
    var a3 := Junction(a2, AttachRequirements, q => RequirementsFit(db, q));
    var a4 := Junction(a3, AttachImages, ImagesFit);
    CopyHistory(db.(projects := base + Rows(a4)), entries, ProjectMapping(pairs, map[]), umap)
  }

  // ---------------------------------------------------------------- the project step

  /** `migrate_projects`: an empty source succeeds without a log entry. Otherwise the loop runs
      in one session; a spoilt session makes the commit raise, so the step fails and keeps
      nothing. After a good commit the related rows are copied and the step succeeds whatever
      those copies do. */
  function MigrateProjects(m: Migration, src: Sqlite.Db, ids: nat -> Uuid, coordinate: Option<real> -> Option<real>,
                           emailOk: string -> bool): (r: (bool, Migration))
    ensures |src.projects| == 0 ==> r == (true, m)
    ensures !r.0 ==> r.1 == m.(log := m.log + [ProjectMigrationFailed])
    ensures r.0 ==> r.1.userMap == m.userMap
    ensures r.0 && |src.projects| > 0 ==>
      |r.1.log| == |m.log| + 1 && r.1.log[..|m.log|] == m.log && r.1.log[|m.log|].ProjectsMigrated?
  {
    if |src.projects| == 0 then (true, m)
    else
      var umap := if m.userMap.Some? then m.userMap.value else map[];
      var s := FlushAll(Session(m.db, [], false), src.projects, m.userMap.Some?, ids, 0, Build(umap, coordinate), Accepts(emailOk));
      if s.poisoned then (false, m.(log := m.log + [ProjectMigrationFailed]))
      else
        var pmap := ProjectMapping(s.added, map[]);
        (true, m.(db := CopyRelated(m.db, m.db.projects, s.added, src.history, m.userMap),
                  log := m.log + [ProjectsMigrated(|pmap|)]))
  }

  // ---------------------------------------------------------------- the full migration

  /** The three steps of `perform_full_migration`, in order. */
  function MigrationSteps(src: Sqlite.Db, userIds: nat -> Uuid, projectIds: nat -> Uuid,
                          coordinate: Option<real> -> Option<real>, emailOk: string -> bool): (r: seq<Step>)
    ensures |r| == 3
  {
    [m => MigrateReferenceData(m),
     m => MigrateUsers(m, src.users, userIds, emailOk),
     m => MigrateProjects(m, src, projectIds, coordinate, emailOk)]
  }

  /** `perform_full_migration` on a reachable SQLite store and a PostgreSQL database whose
      health check says `healthy`. The view refresh and the final count comparison only log. */
  function PerformFullMigrationWith(src: Sqlite.Db, pg: PgDb, healthy: bool, userIds: nat -> Uuid, projectIds: nat -> Uuid,
                                    coordinate: Option<real> -> Option<real>, emailOk: string -> bool): (r: (bool, Migration))
  {
    var ready := ValidateMigrationReadiness(SourceProjects(|src.projects|), Target(healthy, Some(|pg.projects|))).0;
    var m := Migration(pg, None, []);
    if !ready then (false, m)
    else
      var (ok, m') := RunSteps(m, MigrationSteps(src, userIds, projectIds, coordinate, emailOk));
      if ok then (true, m'.(log := m'.log + [MigrationDone])) else (false, m')
  }

  /** As written: zero coordinates become NULL. */
  function PerformFullMigrationAsWritten(src: Sqlite.Db, pg: PgDb, healthy: bool, userIds: nat -> Uuid, projectIds: nat -> Uuid,
                                         emailOk: string -> bool): (r: (bool, Migration))
  {
    PerformFullMigrationWith(src, pg, healthy, userIds, projectIds, TruthyCoordinate, emailOk)
  }

  /** With coordinates carried over whenever present. */
  function PerformFullMigration(src: Sqlite.Db, pg: PgDb, healthy: bool, userIds: nat -> Uuid, projectIds: nat -> Uuid,
                                emailOk: string -> bool): (r: (bool, Migration))
  {
    PerformFullMigrationWith(src, pg, healthy, userIds, projectIds, KeptCoordinate, emailOk)
  }

  /** The three steps run in turn, each on what the one before left, up to the first that fails. */
  lemma RunThree(m: Migration, steps: seq<Step>)
    requires |steps| == 3
    ensures RunSteps(m, steps) ==
      var (a, m1) := steps[0](m);
      if !a then (false, m1)
      else
        var (b, m2) := steps[1](m1);
        if !b then (false, m2) else steps[2](m2)
  {
    var (a, m1) := steps[0](m);
    if a {
      var rest := steps[1..];
      assert rest[0] == steps[1] && rest[1..][0] == steps[2] && |rest[1..][1..]| == 0;
      var (b, m2) := steps[1](m1);
      if b {
        var (c, m3) := steps[2](m2);
        assert RunSteps(m2, rest[1..]) == (if c then RunSteps(m3, rest[1..][1..]) else (false, m3));
      }
    }
  }

  /** A step's log tells its outcome: the step only appends, nothing it appends on success
      mentions a failure, and on failure its last entry does. */
  predicate Honest(m: Migration, r: (bool, Migration)) {
    && |m.log| <= |r.1.log| && r.1.log[..|m.log|] == m.log
    && (r.0 ==> forall i :: |m.log| <= i < |r.1.log| ==> !MentionsFailed(r.1.log[i]))
    && (!r.0 ==> |m.log| < |r.1.log| && MentionsFailed(r.1.log[|r.1.log| - 1]))
  }

  ghost predicate Reports(step: Step) {
    forall m :: Honest(m, step(m))
  }

  /** An honest success followed by an honest step is honest as a whole. */
  lemma HonestCompose(m: Migration, a: (bool, Migration), r: (bool, Migration))
    requires Honest(m, a) && a.0 && Honest(a.1, r)
    ensures Honest(m, r)
  {
    assert r.1.log[..|m.log|] == r.1.log[..|a.1.log|][..|m.log|];
    assert forall i :: |m.log| <= i < |a.1.log| ==> r.1.log[i] == r.1.log[..|a.1.log|][i];
  }

  /** A run of steps whose logs tell their outcome has a log that tells the run's outcome. */
  lemma {:induction false} RunHonest(m: Migration, steps: seq<Step>)
    requires forall i :: 0 <= i < |steps| ==> Reports(steps[i])
    ensures Honest(m, RunSteps(m, steps))
    decreases |steps|
  {
    if |steps| == 0 {
      assert m.log[..|m.log|] == m.log;
    } else {
      var a := steps[0](m);
      assert Reports(steps[0]);
      if a.0 {
        assert forall i :: 0 <= i < |steps[1..]| ==> steps[1..][i] == steps[i + 1];
        RunHonest(a.1, steps[1..]);
        HonestCompose(m, a, RunSteps(a.1, steps[1..]));
      }
    }
  }

  /** A step that keeps the log when it succeeds silently, appends one clean entry when it
      succeeds with a report, and appends one failure entry when it fails, is honest. */
  lemma OneEntryHonest(m: Migration, r: (bool, Migration), report: LogEntry, failure: LogEntry)
    requires !MentionsFailed(report) && MentionsFailed(failure)
    requires r.1.log == m.log || r.1.log == m.log + [report] || (!r.0 && r.1.log == m.log + [failure])
    requires !r.0 ==> r.1.log == m.log + [failure]
    ensures Honest(m, r)
  {
    assert r.1.log[..|m.log|] == m.log;
  }

  lemma UsersHonest(m: Migration, users: seq<Sqlite.User>, ids: nat -> Uuid, emailOk: string -> bool)
    ensures Honest(m, MigrateUsers(m, users, ids, emailOk))
  {
    MentionsFailedExactly(UsersMigrated(|users|));
    MentionsFailedExactly(UserMigrationFailed);
    OneEntryHonest(m, MigrateUsers(m, users, ids, emailOk), UsersMigrated(|users|), UserMigrationFailed);
  }

  lemma ProjectsHonest(m: Migration, src: Sqlite.Db, ids: nat -> Uuid, coordinate: Option<real> -> Option<real>,
                       emailOk: string -> bool)
    ensures Honest(m, MigrateProjects(m, src, ids, coordinate, emailOk))
  {
    var r := MigrateProjects(m, src, ids, coordinate, emailOk);
    var report := if r.0 && |src.projects| > 0 then r.1.log[|m.log|] else ProjectsMigrated(0);
    MentionsFailedExactly(report);
    MentionsFailedExactly(ProjectMigrationFailed);
    if r.0 && |src.projects| > 0 {
      assert r.1.log == m.log + [report];
    }
    OneEntryHonest(m, r, report, ProjectMigrationFailed);
  }

  /** The user and project steps log their outcome. */
  lemma LaterStepsReport(src: Sqlite.Db, userIds: nat -> Uuid, projectIds: nat -> Uuid,
                         coordinate: Option<real> -> Option<real>, emailOk: string -> bool)
    ensures var steps := MigrationSteps(src, userIds, projectIds, coordinate, emailOk);
      forall i :: 1 <= i < 3 ==> Reports(steps[i])
  {
    var steps := MigrationSteps(src, userIds, projectIds, coordinate, emailOk);
    forall m ensures Honest(m, steps[1](m)) && Honest(m, steps[2](m)) {
      UsersHonest(m, src.users, userIds, emailOk);
      ProjectsHonest(m, src, projectIds, coordinate, emailOk);
    }
  }

  /** After the reference entry, an honest rest of the run, closed by the completion entry
      when it succeeded, leaves a log the corrected summary reads correctly. */
  lemma FinishedLogSummary(m1: Migration, run: (bool, Migration))
    requires m1.log == [ReferenceDone] && Honest(m1, run)
    ensures SummarySuccess(if run.0 then run.1.log + [MigrationDone] else run.1.log) == run.0
  {
    if run.0 {
      ReferenceDoneClean();
      MigrationDoneClean();
      var log := run.1.log + [MigrationDone];
      forall i | 0 <= i < |log| ensures !MentionsFailed(log[i]) {
        if i == 0 {
          assert log[0] == run.1.log[..1][0];
        } else if i < |run.1.log| {
          assert log[i] == run.1.log[i];
        }
      }
    }
  }

  lemma RunThreeSucceeds(m0: Migration, steps: seq<Step>, m1: Migration, m2: Migration, m3: Migration)
    requires |steps| == 3
    requires steps[0](m0) == (true, m1) && steps[1](m1) == (true, m2) && steps[2](m2) == (true, m3)
    ensures RunSteps(m0, steps) == (true, m3)
  {
    RunThree(m0, steps);
  }

  /** The summary's corrected verdict agrees with the run: a run succeeds exactly when its log
      has entries and none records a failure. */
  lemma SummarySuccessMatchesRun(src: Sqlite.Db, pg: PgDb, healthy: bool, userIds: nat -> Uuid, projectIds: nat -> Uuid,
                                 coordinate: Option<real> -> Option<real>, emailOk: string -> bool)
    ensures var r := PerformFullMigrationWith(src, pg, healthy, userIds, projectIds, coordinate, emailOk);
      SummarySuccess(r.1.log) == r.0
  {
    var m0 := Migration(pg, None, []);
    var steps := MigrationSteps(src, userIds, projectIds, coordinate, emailOk);
    if ValidateMigrationReadiness(SourceProjects(|src.projects|), Target(healthy, Some(|pg.projects|))).0 {
      var (a, m1) := steps[0](m0);
      if a {
        var rest := steps[1..];
        LaterStepsReport(src, userIds, projectIds, coordinate, emailOk);
        assert forall i :: 0 <= i < |rest| ==> rest[i] == steps[i + 1];
        RunHonest(m1, rest);
        assert RunSteps(m0, steps) == RunSteps(m1, rest);
        FinishedLogSummary(m1, RunSteps(m1, rest));
      }
    }
  }

  /** As written, a run whose user step fails is reported as a success: the reference entry
      does not mention "failed". */
  lemma UserFailureReportedAsSuccess(src: Sqlite.Db, pg: PgDb, healthy: bool, userIds: nat -> Uuid, projectIds: nat -> Uuid,
                                     coordinate: Option<real> -> Option<real>, emailOk: string -> bool)
    requires |src.projects| > 0 && healthy && |pg.projects| == 0 && ReferenceComplete(pg)
    requires InsertUsers(pg.users, map[], src.users, userIds, 0, emailOk).None?
    ensures var r := PerformFullMigrationWith(src, pg, healthy, userIds, projectIds, coordinate, emailOk);
      !r.0 && r.1.log == [ReferenceDone, UserMigrationFailed] && SummarySuccessAsWritten(r.1.log)
  {
    var m0 := Migration(pg, None, []);
    RunThree(m0, MigrationSteps(src, userIds, projectIds, coordinate, emailOk));
    ReferenceDoneClean();
    var log := [ReferenceDone, UserMigrationFailed];
    assert (e => !MentionsFailed(e))(log[0]);
  }

  /** As written, one project at latitude or longitude 0 fails the project step, and with it
      the run, once users have been copied. */
  lemma ZeroCoordinateFailsAsWritten(src: Sqlite.Db, pg: PgDb, healthy: bool, userIds: nat -> Uuid, projectIds: nat -> Uuid,
                                     emailOk: string -> bool, i: nat)
    requires |src.projects| > 0 && healthy && |pg.projects| == 0 && ReferenceComplete(pg)
    requires |src.users| > 0 && InsertUsers(pg.users, map[], src.users, userIds, 0, emailOk).Some?
    requires i < |src.projects| && (src.projects[i].details.latitude == Some(0.0) || src.projects[i].details.longitude == Some(0.0))
    ensures var r := PerformFullMigrationAsWritten(src, pg, healthy, userIds, projectIds, emailOk);
      !r.0 && r.1.log[|r.1.log| - 1] == ProjectMigrationFailed
  {
    var m0 := Migration(pg, None, []);
    RunThree(m0, MigrationSteps(src, userIds, projectIds, TruthyCoordinate, emailOk));
    var (a, m1) := MigrateReferenceData(m0);
    var (b, m2) := MigrateUsers(m1, src.users, userIds, emailOk);
    var umap := m2.userMap.value;
    UnbuildableGetsNoRow(umap, TruthyCoordinate, src.projects[i]);
    UnbuiltRowSpoils(Session(m2.db, [], false), src.projects, projectIds, 0, Build(umap, TruthyCoordinate), Accepts(emailOk), i);
  }

  /** With coordinates kept, the project step's outcome does not depend on them being 0: a
      project is built exactly when its creator, both coordinates, region and status are there. */
  lemma KeptCoordinatesBuildable(p: Sqlite.Project, creator: Option<Uuid>)
    ensures Buildable(p, creator, KeptCoordinate) <==>
      creator.Some? && p.details.latitude.Some? && p.details.longitude.Some?
      && p.details.uiaRegionId.Some? && ParseProjectStatus(p.details.projectStatus).Some?
  {
  }

  /** Related rows copied for no migrated project change nothing. */
  lemma CopyRelatedNothing(db: PgDb, entries: seq<Sqlite.HistoryEntry>)
    ensures CopyRelated(db, db.projects, [], entries, None) == db
  {
    assert db.projects + Rows([]) == db.projects;
  }

  /** Without a user mapping every project raises before it is added, so the session
      commits nothing and the step succeeds having migrated none. */
  lemma ProjectsUnmapped(m: Migration, src: Sqlite.Db, ids: nat -> Uuid, coordinate: Option<real> -> Option<real>,
                         emailOk: string -> bool)
    requires m.userMap.None? && |src.projects| > 0
    ensures MigrateProjects(m, src, ids, coordinate, emailOk) == (true, m.(log := m.log + [ProjectsMigrated(0)]))
  {
    var s := Session(m.db, [], false);
    FlushAllFrame(s, src.projects, false, ids, 0, Build(map[], coordinate), Accepts(emailOk));
    CopyRelatedNothing(m.db, src.history);
    assert ProjectMapping([], map[]) == map[];
  }

  /** With no SQLite users the reference step logs its entry and the user step does nothing. */
  lemma NoUsersFirstSteps(src: Sqlite.Db, pg: PgDb, userIds: nat -> Uuid, projectIds: nat -> Uuid,
                          coordinate: Option<real> -> Option<real>, emailOk: string -> bool)
    requires ReferenceComplete(pg) && |src.users| == 0
    ensures var steps := MigrationSteps(src, userIds, projectIds, coordinate, emailOk);
      var m1 := Migration(pg, None, [ReferenceDone]);
      steps[0](Migration(pg, None, [])) == (true, m1) && steps[1](m1) == (true, m1)
  {
    assert [] + [ReferenceDone] == [ReferenceDone];
  }

  /** The project step run on that state succeeds without copying anything. */
  lemma NoUsersLastStep(src: Sqlite.Db, pg: PgDb, userIds: nat -> Uuid, projectIds: nat -> Uuid,
                        coordinate: Option<real> -> Option<real>, emailOk: string -> bool)
    requires |src.projects| > 0
    ensures var steps := MigrationSteps(src, userIds, projectIds, coordinate, emailOk);
      steps[2](Migration(pg, None, [ReferenceDone])) == (true, Migration(pg, None, [ReferenceDone, ProjectsMigrated(0)]))
  {
    var m1 := Migration(pg, None, [ReferenceDone]);
    assert m1.log + [ProjectsMigrated(0)] == [ReferenceDone, ProjectsMigrated(0)];
    ProjectsUnmapped(m1, src, projectIds, coordinate, emailOk);
  }

  /** With no SQLite users the user step leaves the mapping unset, and the project step then
      succeeds without copying anything. */
  lemma NoUsersSteps(src: Sqlite.Db, pg: PgDb, userIds: nat -> Uuid, projectIds: nat -> Uuid,
                     coordinate: Option<real> -> Option<real>, emailOk: string -> bool)
    requires |src.projects| > 0 && ReferenceComplete(pg) && |src.users| == 0
    ensures RunSteps(Migration(pg, None, []), MigrationSteps(src, userIds, projectIds, coordinate, emailOk))
      == (true, Migration(pg, None, [ReferenceDone, ProjectsMigrated(0)]))
  {
    NoUsersFirstSteps(src, pg, userIds, projectIds, coordinate, emailOk);
    NoUsersLastStep(src, pg, userIds, projectIds, coordinate, emailOk);
    RunThreeSucceeds(Migration(pg, None, []), MigrationSteps(src, userIds, projectIds, coordinate, emailOk),
      Migration(pg, None, [ReferenceDone]), Migration(pg, None, [ReferenceDone]),
      Migration(pg, None, [ReferenceDone, ProjectsMigrated(0)]));
  }

  /** With no SQLite users the mapping stays unset, so no project is copied, yet every step
      succeeds and the run reports success. */
  lemma NoUsersNoProjects(src: Sqlite.Db, pg: PgDb, healthy: bool, userIds: nat -> Uuid, projectIds: nat -> Uuid,
                          coordinate: Option<real> -> Option<real>, emailOk: string -> bool)
    requires |src.projects| > 0 && healthy && |pg.projects| == 0 && ReferenceComplete(pg) && |src.users| == 0
    ensures var r := PerformFullMigrationWith(src, pg, healthy, userIds, projectIds, coordinate, emailOk);
      r.0 && r.1.db == pg && r.1.log == [ReferenceDone, ProjectsMigrated(0), MigrationDone]
  {
    NoUsersSteps(src, pg, userIds, projectIds, coordinate, emailOk);
  }
}
