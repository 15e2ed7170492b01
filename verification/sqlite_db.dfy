/** The SQLite backend (src/database.py) over an in-memory store: tables become sequences and
    maps, a statement that raises leaves the store as it was (the connection is closed without
    commit), and CURRENT_TIMESTAMP is the `now` parameter. Foreign keys are not enforced by
    SQLite and are not checked here either. */
module SqliteDb {
  import opened Wrappers
  import opened Text
  import opened SqlText
  import opened Constants
  import opened Collections
  import opened Records

  // ---------------------------------------------------------------- tables

  datatype Region = Region(name: string, description: string)

  datatype SdgRow = SdgRow(name: string, color: string, description: string)

  datatype User = User(id: nat, email: string, organizationName: string, contactPerson: string, isAdmin: bool)

  datatype Image = Image(url: string, isPrimary: bool)

  /** A row of `projects` together with its junction rows. Timestamps are seconds. */
  datatype Project = Project(
    id: nat,
    details: ProjectDetails,
    workflowStatus: WorkflowStatus,
    referenceId: string,
    createdAt: int,
    updatedAt: int,
    submittedBy: nat,
    sdgs: seq<int>,
    typologies: seq<string>,
    requirements: seq<RequirementPair>,
    images: seq<Image>)

  datatype HistoryEntry = HistoryEntry(
    projectId: nat,
    oldStatus: WorkflowStatus,
    newStatus: WorkflowStatus,
    changedBy: Option<int>,
    reason: Option<string>,
    createdAt: int)

  datatype Review = Review(projectId: nat, reviewerId: int, reviewStatus: WorkflowStatus, notes: Option<string>, createdAt: int)

  /** The database. `projects` and `users` are in rowid order; the next ids stand for
      AUTOINCREMENT. */
  datatype Db = Db(
    regions: map<int, Region>,
    sdgs: map<int, SdgRow>,
    users: seq<User>,
    nextUserId: nat,
    projects: seq<Project>,
    nextProjectId: nat,
    history: seq<HistoryEntry>,
    reviews: seq<Review>)

  function ProjectId(p: Project): nat { p.id }

  /** The table constraints and the AUTOINCREMENT discipline. */
  ghost predicate Valid(db: Db) {
    ProjectsValid(db.projects, db.nextProjectId) && UsersValid(db.users, db.nextUserId)
  }

  /** Ids start at 1, increase in rowid order and stay below the next id; each project's SDG
      rows are unique and its status passes the CHECK. */
  ghost predicate ProjectsValid(projects: seq<Project>, next: nat) {
    && 1 <= next
    && (forall i, j :: 0 <= i < j < |projects| ==> projects[i].id < projects[j].id)
    && (forall i :: 0 <= i < |projects| ==> 1 <= projects[i].id < next)
    && (forall i :: 0 <= i < |projects| ==> NoDuplicates(projects[i].sdgs))
    && (forall i :: 0 <= i < |projects| ==> ParseProjectStatus(projects[i].details.projectStatus).Some?)
  }

  /** User ids as for projects, and emails UNIQUE. */
  ghost predicate UsersValid(users: seq<User>, next: nat) {
    && 1 <= next
    && (forall i, j :: 0 <= i < j < |users| ==> users[i].id < users[j].id && users[i].email != users[j].email)
    && (forall i :: 0 <= i < |users| ==> 1 <= users[i].id < next)
  }

  predicate NoDuplicates(s: seq<int>) {
    forall i, j :: 0 <= i < j < |s| ==> s[i] != s[j]
  }

  /** Project ids are distinct in a valid store. */
  lemma ValidDistinctIds(db: Db)
    requires Valid(db)
    ensures DistinctBy(db.projects, ProjectId)
  {
    forall i, j | 0 <= i < |db.projects| && 0 <= j < |db.projects| && i != j
      ensures ProjectId(db.projects[i]) != ProjectId(db.projects[j])
    {
      if i < j {
        assert db.projects[i].id < db.projects[j].id;
      } else {
        assert db.projects[j].id < db.projects[i].id;
      }
    }
  }

  /** The position of the first project with the id. */
  function FindProject(projects: seq<Project>, id: int): (r: Option<nat>)
    ensures r.Some? ==> r.value < |projects| && projects[r.value].id == id
    ensures r.Some? ==> forall j :: 0 <= j < r.value ==> projects[j].id != id
    ensures r.None? <==> forall j :: 0 <= j < |projects| ==> projects[j].id != id
  {
    if |projects| == 0 then None
    else if projects[0].id == id then Some(0)
    else
      var rest := FindProject(projects[1..], id);
      assert forall j :: 1 <= j < |projects| ==> projects[j] == projects[1..][j - 1];
      match rest
      case None => None
      case Some(k) => Some(k + 1)
  }

  /** The first user with the email. */
  function FindUserByEmail(users: seq<User>, email: string): (r: Option<User>)
    ensures r.Some? ==> r.value in users && r.value.email == email
    ensures r.None? <==> forall j :: 0 <= j < |users| ==> users[j].email != email
  {
    if |users| == 0 then None
    else if users[0].email == email then Some(users[0])
    else
      assert forall j :: 1 <= j < |users| ==> users[j] == users[1..][j - 1];
      FindUserByEmail(users[1..], email)
  }

  /** `get_project_by_id`: the row with that id, or None. Deleted rows do not exist here. */
  function GetProjectById(db: Db, id: int): (r: Option<Project>)
    ensures r.Some? ==> r.value in db.projects && r.value.id == id
    ensures r.None? <==> forall j :: 0 <= j < |db.projects| ==> db.projects[j].id != id
  {
    match FindProject(db.projects, id)
    case None => None
    case Some(k) => Some(db.projects[k])
  }

  // ---------------------------------------------------------------- reference data

  /** The region rows `populate_reference_data` inserts. */
  const RegionSeeds: seq<(int, Region)> := [
    (1, Region("Section I - Western Europe", "Western European countries")),
    (2, Region("Section II - Middle East and Eastern Europe", "Middle East and Eastern European countries")),
    (3, Region("Section III - Americas", "North, Central and South American countries")),
    (4, Region("Section IV - Oceania", "Oceanic countries and territories")),
    (5, Region("Section V - Africa", "African countries"))
  ]

  function SdgSeed(info: SdgInfo): (int, SdgRow) {
    (info.number, SdgRow(info.name, info.color, info.description))
  }

  /** The SDG rows it inserts: the catalogue's goals, numbers as ids. */
  function SdgSeeds(): (r: seq<(int, SdgRow)>)
    ensures |r| == |Sdgs|
    ensures forall i :: 0 <= i < |r| ==> r[i] == SdgSeed(Sdgs[i])
  {
    seq(|Sdgs|, i requires 0 <= i < |Sdgs| => SdgSeed(Sdgs[i]))
  }

  /** The region seeds carry the catalogue's region names under the catalogue's ids. */
  lemma RegionSeedsMatchCatalogue()
    ensures |RegionSeeds| == |UiaRegions|
    ensures forall i :: 0 <= i < |RegionSeeds| ==> RegionSeeds[i].0 == UiaRegions[i].0 && RegionSeeds[i].1.name == UiaRegions[i].1
  {
  }

  /** A row with this key, or one clashing on a UNIQUE column (`clash`), is already present. */
  ghost predicate Blocked<V>(m: map<int, V>, id: int, v: V, clash: (V, V) -> bool) {
    id in m || exists k :: k in m && clash(m[k], v)
  }

  /** `INSERT OR IGNORE` of one row. */
  function InsertOrIgnore<V>(m: map<int, V>, id: int, v: V, clash: (V, V) -> bool): (r: map<int, V>)
    ensures Blocked(m, id, v, clash) ==> r == m
    ensures !Blocked(m, id, v, clash) ==> r == m[id := v]
  {
    if id in m || exists k :: k in m && clash(m[k], v) then m else m[id := v]
  }

  /** `executemany` of `INSERT OR IGNORE`, row by row. */
  function InsertAllOrIgnore<V>(m: map<int, V>, rows: seq<(int, V)>, clash: (V, V) -> bool): (r: map<int, V>)
    ensures forall k :: k in m ==> k in r && r[k] == m[k]
    ensures forall k :: k in r ==> k in m || exists i :: 0 <= i < |rows| && rows[i] == (k, r[k])
    decreases |rows|
  {
    if |rows| == 0 then m
    else
      var m1 := InsertOrIgnore(m, rows[0].0, rows[0].1, clash);
      var r := InsertAllOrIgnore(m1, rows[1..], clash);
      assert forall i :: 1 <= i < |rows| ==> rows[i] == rows[1..][i - 1];
      r
  }

  lemma {:induction false} InsertAllBlocksEveryRow<V>(m: map<int, V>, rows: seq<(int, V)>, clash: (V, V) -> bool)
    ensures forall i :: 0 <= i < |rows| ==> Blocked(InsertAllOrIgnore(m, rows, clash), rows[i].0, rows[i].1, clash)
    decreases |rows|
  {
    if |rows| > 0 {
      var m1 := InsertOrIgnore(m, rows[0].0, rows[0].1, clash);
      var r := InsertAllOrIgnore(m, rows, clash);
      InsertAllBlocksEveryRow(m1, rows[1..], clash);
      assert Blocked(m1, rows[0].0, rows[0].1, clash);
      if rows[0].0 !in m1 {
        var k :| k in m1 && clash(m1[k], rows[0].1);
        assert k in r && r[k] == m1[k];
      }
      assert forall i :: 1 <= i < |rows| ==> rows[i] == rows[1..][i - 1];
    }
  }

  lemma {:induction false} InsertAllWhenBlocked<V>(m: map<int, V>, rows: seq<(int, V)>, clash: (V, V) -> bool)
    requires forall i :: 0 <= i < |rows| ==> Blocked(m, rows[i].0, rows[i].1, clash)
    ensures InsertAllOrIgnore(m, rows, clash) == m
    decreases |rows|
  {
    if |rows| > 0 {
      assert forall i :: 1 <= i < |rows| ==> rows[i] == rows[1..][i - 1];
      InsertAllWhenBlocked(m, rows[1..], clash);
    }
  }

  /** Region names are UNIQUE; SDG rows clash only on their id. */
  function SameRegionName(a: Region, b: Region): bool { a.name == b.name }

  function NeverClash(a: SdgRow, b: SdgRow): bool { false }

  /** `populate_reference_data`: insert each seed row unless its key (or a region name) is taken;
      rows already present are kept as they are. */
  function PopulateReferenceData(db: Db): (r: Db)
    ensures forall k :: k in db.regions ==> k in r.regions && r.regions[k] == db.regions[k]
    ensures forall k :: k in db.sdgs ==> k in r.sdgs && r.sdgs[k] == db.sdgs[k]
    ensures r.projects == db.projects && r.users == db.users && r.history == db.history && r.reviews == db.reviews
  {
    db.(regions := InsertAllOrIgnore(db.regions, RegionSeeds, SameRegionName),
        sdgs := InsertAllOrIgnore(db.sdgs, SdgSeeds(), NeverClash))
  }

  /** Running the population twice changes nothing the first run did not. */
  lemma PopulateIdempotent(db: Db)
    ensures PopulateReferenceData(PopulateReferenceData(db)) == PopulateReferenceData(db)
  {
    var once := PopulateReferenceData(db);
    InsertAllBlocksEveryRow(db.regions, RegionSeeds, SameRegionName);
    InsertAllBlocksEveryRow(db.sdgs, SdgSeeds(), NeverClash);
    InsertAllWhenBlocked(once.regions, RegionSeeds, SameRegionName);
    InsertAllWhenBlocked(once.sdgs, SdgSeeds(), NeverClash);
  }

  /** On an empty database every seed row is inserted: SDG ids are exactly 1..17. */
  lemma PopulateEmptySdgs(db: Db)
    requires db.sdgs == map[]
    ensures forall k :: k in PopulateReferenceData(db).sdgs <==> 1 <= k <= 17
  {
    var rows := SdgSeeds();
    SdgTableWellFormed();
    assert forall i :: 0 <= i < |rows| ==> rows[i].0 == Sdgs[i].number;
    InsertAllFromEmpty(rows, NeverClash);
  }

  /** Rows numbered 1..n inserted into an empty table that has no UNIQUE column give the keys
      1..n. */
  lemma InsertAllFromEmpty<V>(rows: seq<(int, V)>, clash: (V, V) -> bool)
    requires forall i :: 0 <= i < |rows| ==> rows[i].0 == i + 1
    requires forall a, b :: !clash(a, b)
    ensures forall k :: k in InsertAllOrIgnore(map[], rows, clash) <==> 1 <= k <= |rows|
  {
    var r := InsertAllOrIgnore(map[], rows, clash);
    InsertAllBlocksEveryRow(map[], rows, clash);
    forall k | 1 <= k <= |rows|
      ensures k in r
    {
      assert Blocked(r, rows[k - 1].0, rows[k - 1].1, clash);
    }
  }

  // ---------------------------------------------------------------- reference ids

  const ReferencePrefix: string := "ATLAS-2025-"

  /** `f"ATLAS-2025-{str(n).zfill(6)}"` */
  function ReferenceId(n: nat): (r: string)
    ensures |r| >= |ReferencePrefix| + 6 && r[..|ReferencePrefix|] == ReferencePrefix
    ensures AllDigits(r[|ReferencePrefix|..]) && DigitsValue(r[|ReferencePrefix|..]) == n
  {
    var padded := ZFill(NatToString(n), 6);
    PaddedNumber(n);
    var r := ReferencePrefix + padded;
    assert r[..|ReferencePrefix|] == ReferencePrefix && r[|ReferencePrefix|..] == padded;
    r
  }

  /** The six-digit zero-padded rendering still denotes the number. */
  lemma PaddedNumber(n: nat)
    ensures |ZFill(NatToString(n), 6)| >= 6
    ensures AllDigits(ZFill(NatToString(n), 6)) && DigitsValue(ZFill(NatToString(n), 6)) == n
  {
    var digits := NatToString(n);
    var padded := ZFill(digits, 6);
    assert padded == Repeat('0', |padded| - |digits|) + digits;
    NatToStringRoundTrip(n);
    LeadingZerosValue(|padded| - |digits|, digits);
  }

  lemma {:induction false} LeadingZerosValue(k: nat, s: string)
    requires AllDigits(s)
    ensures AllDigits(Repeat('0', k) + s)
    ensures DigitsValue(Repeat('0', k) + s) == DigitsValue(s)
    decreases |s|
  {
    var z := Repeat('0', k);
    if |s| == 0 {
      assert z + s == z;
      ZerosValue(k);
    } else {
      var init := s[..|s| - 1];
      assert (z + s)[..|z + s| - 1] == z + init;
      LeadingZerosValue(k, init);
    }
  }

  lemma {:induction false} ZerosValue(k: nat)
    ensures AllDigits(Repeat('0', k)) && DigitsValue(Repeat('0', k)) == 0
  {
    if k > 0 {
      var z := Repeat('0', k);
      assert z[..k - 1] == Repeat('0', k - 1);
      ZerosValue(k - 1);
    }
  }

  /** Different sequence numbers give different reference ids. */
  lemma ReferenceIdInjective(a: nat, b: nat)
    ensures ReferenceId(a) == ReferenceId(b) ==> a == b
  {
  }

  /** The reference ids of a store whose n-th project carries number n. */
  ghost predicate SequentialReferences(db: Db) {
    forall i :: 0 <= i < |db.projects| ==> db.projects[i].referenceId == ReferenceId(i + 1)
  }

  // ---------------------------------------------------------------- create_project

  datatype CreateError =
    | ProjectStatusCheckFailed   // CHECK (project_status IN ...)
    | DuplicateReferenceId       // UNIQUE (reference_id)
    | DuplicateProjectSdg        // PRIMARY KEY (project_id, sdg_id)

  predicate ReferenceInUse(db: Db, ref: string) {
    exists i :: 0 <= i < |db.projects| && db.projects[i].referenceId == ref
  }

  /** The user rows after `INSERT OR IGNORE`, and the id `SELECT id ... WHERE email = ?` finds. */
  function UpsertUser(db: Db, d: ProjectDetails): (r: (seq<User>, nat, nat))
    ensures FindUserByEmail(db.users, d.contactEmail).Some? ==> r == (db.users, FindUserByEmail(db.users, d.contactEmail).value.id, db.nextUserId)
    ensures FindUserByEmail(db.users, d.contactEmail).None? ==>
      r == (db.users + [User(db.nextUserId, d.contactEmail, d.organizationName, d.contactPerson, false)], db.nextUserId, db.nextUserId + 1)
  {
    match FindUserByEmail(db.users, d.contactEmail)
    case Some(u) => (db.users, u.id, db.nextUserId)
    case None => (db.users + [User(db.nextUserId, d.contactEmail, d.organizationName, d.contactPerson, false)], db.nextUserId, db.nextUserId + 1)
  }

  function StoredImages(urls: seq<string>): (r: seq<Image>)
    ensures |r| == |urls|
    ensures forall i :: 0 <= i < |r| ==> r[i] == Image(urls[i], false)
  {
    seq(|urls|, i requires 0 <= i < |urls| => Image(urls[i], false))
  }

  /** `create_project`: the new row is always 'submitted', numbered after the existing rows,
      owned by the user with the contact email; blank image URLs are skipped and the rest stored
      stripped and not primary. A failing insert writes nothing. */
  function CreateProject(db: Db, draft: Draft, now: int): (r: Result<(Db, string), CreateError>)
    ensures r.Err? <==> ParseProjectStatus(draft.details.projectStatus).None?
                        || ReferenceInUse(db, ReferenceId(|db.projects| + 1))
                        || !NoDuplicates(draft.sdgs)
    ensures r.Ok? ==>
      var (db', ref) := r.value;
      && ref == ReferenceId(|db.projects| + 1)
      && |db'.projects| == |db.projects| + 1
      && db'.projects[..|db.projects|] == db.projects
      && var p := db'.projects[|db.projects|];
      && p.id == db.nextProjectId
      && p.workflowStatus == Submitted
      && p.referenceId == ref
      && p.details == draft.details
      && p.sdgs == draft.sdgs && p.typologies == draft.typologies && p.requirements == draft.requirements
      && |p.images| == Count(draft.imageUrls, NotBlank)
      && (forall i :: 0 <= i < |p.images| ==> !p.images[i].isPrimary && Trimmed(p.images[i].url))
      && p.images == StoredImages(KeptImageUrls(draft.imageUrls))
      && p.createdAt == now && p.updatedAt == now
      && p.submittedBy == UpsertUser(db, draft.details).1
      && db'.nextProjectId == db.nextProjectId + 1
      && db'.users == UpsertUser(db, draft.details).0 && db'.nextUserId == UpsertUser(db, draft.details).2
      && db'.history == db.history && db'.reviews == db.reviews
      && db'.regions == db.regions && db'.sdgs == db.sdgs
  {
    var ref := ReferenceId(|db.projects| + 1);
    if ParseProjectStatus(draft.details.projectStatus).None? then Err(ProjectStatusCheckFailed)
    else if ReferenceInUse(db, ref) then Err(DuplicateReferenceId)
    else if !NoDuplicates(draft.sdgs) then Err(DuplicateProjectSdg)
    else
      var (users, userId, nextUserId) := UpsertUser(db, draft.details);
      var p := Project(db.nextProjectId, draft.details, Submitted, ref, now, now, userId,
                       draft.sdgs, draft.typologies, draft.requirements, StoredImages(KeptImageUrls(draft.imageUrls)));
      assert (db.projects + [p])[..|db.projects|] == db.projects;
      Ok((db.(users := users, nextUserId := nextUserId, projects := db.projects + [p], nextProjectId := db.nextProjectId + 1), ref))
  }

  /** The contact email names exactly one user afterwards, and an existing user is reused. */
  lemma CreateProjectOwner(db: Db, draft: Draft, now: int)
    requires Valid(db) && CreateProject(db, draft, now).Ok?
    ensures var db' := CreateProject(db, draft, now).value.0;
      var owner := db'.projects[|db.projects|].submittedBy;
      (exists j :: 0 <= j < |db'.users| && db'.users[j].id == owner && db'.users[j].email == draft.details.contactEmail)
      && (FindUserByEmail(db.users, draft.details.contactEmail).Some? ==> db'.users == db.users)
  {
    var u := UpsertUser(db, draft.details);
    match FindUserByEmail(db.users, draft.details.contactEmail)
    case Some(x) =>
      var j :| 0 <= j < |db.users| && db.users[j] == x;
    case None =>
      assert u.0[|db.users|].email == draft.details.contactEmail;
  }

  /** Creating a project keeps the store valid. */
  lemma CreateProjectPreservesValid(db: Db, draft: Draft, now: int)
    requires Valid(db) && CreateProject(db, draft, now).Ok?
    ensures Valid(CreateProject(db, draft, now).value.0)
  {
    var db' := CreateProject(db, draft, now).value.0;
    var n := |db.projects|;
    var p := db'.projects[n];
    assert db'.projects == db.projects + [p] by {
      assert db'.projects == db'.projects[..n] + [p];
    }
    AppendProjectValid(db.projects, db.nextProjectId, p);
    UpsertUserValid(db, draft.details);
  }

  lemma AppendProjectValid(projects: seq<Project>, next: nat, p: Project)
    requires ProjectsValid(projects, next)
    requires p.id == next && NoDuplicates(p.sdgs) && ParseProjectStatus(p.details.projectStatus).Some?
    ensures ProjectsValid(projects + [p], next + 1)
  {
    var ps := projects + [p];
    assert forall i :: 0 <= i < |projects| ==> ps[i] == projects[i];
  }

  lemma UpsertUserValid(db: Db, d: ProjectDetails)
    requires Valid(db)
    ensures UsersValid(UpsertUser(db, d).0, UpsertUser(db, d).2)
  {
    if FindUserByEmail(db.users, d.contactEmail).None? {
      var users := UpsertUser(db, d).0;
      assert forall i :: 0 <= i < |db.users| ==> users[i] == db.users[i];
    }
  }

  /** In a store numbered 1..n, the next reference id is free, and numbering continues. */
  lemma CreateProjectKeepsNumbering(db: Db, draft: Draft, now: int)
    requires SequentialReferences(db)
    requires ParseProjectStatus(draft.details.projectStatus).Some? && NoDuplicates(draft.sdgs)
    ensures CreateProject(db, draft, now).Ok?
    ensures SequentialReferences(CreateProject(db, draft, now).value.0)
  {
    NextReferenceFree(db);
    var db' := CreateProject(db, draft, now).value.0;
    AppendKeepsNumbering(db.projects, db'.projects);
  }

  lemma AppendKeepsNumbering(ps: seq<Project>, ps': seq<Project>)
    requires forall i :: 0 <= i < |ps| ==> ps[i].referenceId == ReferenceId(i + 1)
    requires |ps'| == |ps| + 1 && ps'[..|ps|] == ps && ps'[|ps|].referenceId == ReferenceId(|ps| + 1)
    ensures forall i :: 0 <= i < |ps'| ==> ps'[i].referenceId == ReferenceId(i + 1)
  {
    assert forall i :: 0 <= i < |ps| ==> ps'[i] == ps'[..|ps|][i];
  }

  lemma NextReferenceFree(db: Db)
    requires SequentialReferences(db)
    ensures !ReferenceInUse(db, ReferenceId(|db.projects| + 1))
  {
    var n := |db.projects|;
    forall i | 0 <= i < n
      ensures db.projects[i].referenceId != ReferenceId(n + 1)
    {
      ReferenceIdInjective(i + 1, n + 1);
    }
  }

  // ---------------------------------------------------------------- update_project_status

  datatype UpdateError =
    | UnknownProject            // `fetchone()` is None, so indexing it raises
    | WorkflowStatusCheckFailed // CHECK (workflow_status IN ...)
    | ReviewStatusCheckFailed   // CHECK (review_status IN ...)

  /** `update_project_status`: read the old status, write the new one with `updated_at`, append
      one history row, and a review row when a reviewer is given. There is no transition
      table; only the CHECK constraints can refuse the write. */
  function UpdateProjectStatus(db: Db, id: int, newStatus: string, reason: Option<string>, reviewer: Option<int>, now: int): (r: Result<Db, UpdateError>)
    ensures r.Err? <==> FindProject(db.projects, id).None?
                        || ParseWorkflowStatus(newStatus).None?
                        || (Truthy(reviewer) && !ParseWorkflowStatus(newStatus).value.IsReviewOutcome())
    ensures FindProject(db.projects, id).None? ==> r == Err(UnknownProject)
    ensures r.Ok? ==>
      var k := FindProject(db.projects, id).value;
      var s := ParseWorkflowStatus(newStatus).value;
      var prev := db.projects[k];
      && |r.value.projects| == |db.projects|
      && r.value.projects[k] == prev.(workflowStatus := s, updatedAt := now)
      && (forall j :: 0 <= j < |db.projects| && j != k ==> r.value.projects[j] == db.projects[j])
      && r.value.history == db.history + [HistoryEntry(prev.id, prev.workflowStatus, s, reviewer, reason, now)]
      && r.value.reviews == db.reviews + (if Truthy(reviewer) then [Review(prev.id, reviewer.value, s, reason, now)] else [])
      && r.value.users == db.users && r.value.regions == db.regions && r.value.sdgs == db.sdgs
      && r.value.nextProjectId == db.nextProjectId && r.value.nextUserId == db.nextUserId
  {
    match FindProject(db.projects, id)
    case None => Err(UnknownProject)
    case Some(k) =>
      match ParseWorkflowStatus(newStatus)
      case None => Err(WorkflowStatusCheckFailed)
      case Some(s) =>
        var prev := db.projects[k];
        var entry := HistoryEntry(prev.id, prev.workflowStatus, s, reviewer, reason, now);
        if Truthy(reviewer) && !s.IsReviewOutcome() then Err(ReviewStatusCheckFailed)
        else
          var reviews := if Truthy(reviewer) then db.reviews + [Review(prev.id, reviewer.value, s, reason, now)] else db.reviews;
          Ok(db.(projects := db.projects[k := prev.(workflowStatus := s, updatedAt := now)],
                 history := db.history + [entry],
                 reviews := reviews))
  }

  /** There is no transition table: from any status, an update without a reviewer applies any
      of the five statuses. */
  lemma AnyTransitionApplies(db: Db, id: int, from: WorkflowStatus, to: WorkflowStatus, reason: Option<string>, now: int)
    requires FindProject(db.projects, id).Some?
    requires db.projects[FindProject(db.projects, id).value].workflowStatus == from
    ensures UpdateProjectStatus(db, id, to.Name(), reason, None, now).Ok?
    ensures var db' := UpdateProjectStatus(db, id, to.Name(), reason, None, now).value;
      db'.projects[FindProject(db.projects, id).value].workflowStatus == to
      && db'.history[|db.history|].oldStatus == from && db'.history[|db.history|].newStatus == to
  {
    StatusNamesRoundTrip(to, Planned);
  }

  /** A reviewer-attributed move to a status that is not a review outcome (such as in_review)
      fails as a whole, leaving no history row. */
  lemma ReviewerNeedsOutcome(db: Db, id: int, to: WorkflowStatus, reason: Option<string>, reviewer: int, now: int)
    requires reviewer != 0 && !to.IsReviewOutcome()
    ensures UpdateProjectStatus(db, id, to.Name(), reason, Some(reviewer), now).Err?
  {
    StatusNamesRoundTrip(to, Planned);
  }

  /** Status updates keep the store valid and the reference numbering intact. */
  lemma UpdateProjectStatusPreservesValid(db: Db, id: int, newStatus: string, reason: Option<string>, reviewer: Option<int>, now: int)
    requires Valid(db) && UpdateProjectStatus(db, id, newStatus, reason, reviewer, now).Ok?
    ensures Valid(UpdateProjectStatus(db, id, newStatus, reason, reviewer, now).value)
    ensures SequentialReferences(db) ==> SequentialReferences(UpdateProjectStatus(db, id, newStatus, reason, reviewer, now).value)
  {
  }

  // ---------------------------------------------------------------- queries

  predicate IsApproved(p: Project) { p.workflowStatus == Approved }

  /** `ORDER BY created_at DESC` */
  function NewestFirst(p: Project): int { -p.createdAt }

  /** `ORDER BY created_at ASC` */
  function OldestFirst(p: Project): int { p.createdAt }

  /** `get_all_published_projects`: the approved rows, newest first. */
  function GetAllPublishedProjects(db: Db): (r: seq<Project>)
    ensures forall p :: p in r <==> p in db.projects && IsApproved(p)
    ensures SortedBy(r, NewestFirst)
  {
    var rows := Filter(db.projects, IsApproved);
    SortByMembers(rows, NewestFirst);
    SortBy(rows, NewestFirst)
  }

  /** The region name the LEFT JOIN attaches (NULL without a matching region). */
  function RegionNameOf(db: Db, p: Project): Option<string> {
    match p.details.uiaRegionId
    case Some(id) => if id in db.regions then Some(db.regions[id].name) else None
    case None => None
  }

  predicate RegionMatches(db: Db, region: Option<string>, p: Project) {
    Given(region) ==> RegionNameOf(db, p) == Some(region.value)
  }

  predicate SdgMatches(sdg: Option<int>, p: Project) {
    Truthy(sdg) ==> sdg.value in p.sdgs
  }

  predicate CityMatches(city: Option<string>, p: Project) {
    Given(city) ==> EqualIgnoringCase(p.details.city, city.value)
  }

  predicate FundedByMatches(fundedBy: Option<string>, p: Project) {
    Given(fundedBy) ==> LikeMatch(p.details.organizationName, SubstringPattern(fundedBy.value), false)
  }

  /** The WHERE clause: approved, AND each given filter. */
  predicate MatchesFilters(db: Db, f: Filters, p: Project) {
    && IsApproved(p)
    && RegionMatches(db, f.region, p)
    && SdgMatches(f.sdg, p)
    && CityMatches(f.city, p)
    && FundedByMatches(f.fundedBy, p)
  }

  /** `get_projects_by_filters`: the matching rows, each once (DISTINCT over the SDG join),
      newest first. */
  function GetProjectsByFilters(db: Db, f: Filters): (r: seq<Project>)
    ensures forall p :: p in r <==> p in db.projects && MatchesFilters(db, f, p)
    ensures SortedBy(r, NewestFirst)
    ensures |r| <= |db.projects|
  {
    var rows := Filter(db.projects, p => MatchesFilters(db, f, p));
    SortByMembers(rows, NewestFirst);
    SortBy(rows, NewestFirst)
  }

  /** No project is listed twice, whatever the filters. */
  lemma FilterResultsDistinct(db: Db, f: Filters)
    requires Valid(db)
    ensures DistinctBy(GetProjectsByFilters(db, f), ProjectId)
  {
    ValidDistinctIds(db);
    var rows := Filter(db.projects, p => MatchesFilters(db, f, p));
    FilterDistinct(db.projects, p => MatchesFilters(db, f, p), ProjectId);
    SortDistinct(rows, NewestFirst, ProjectId);
  }

  /** Without filters the query lists exactly the published projects, in the same order. */
  lemma NoFiltersIsAllPublished(db: Db)
    ensures GetProjectsByFilters(db, NoFilters) == GetAllPublishedProjects(db)
  {
    FilterCongruent(db.projects, p => MatchesFilters(db, NoFilters, p), IsApproved);
  }

  /** Filters combine with AND: supplying one more never adds a result. */
  lemma AddingCityFilterNarrows(db: Db, f: Filters, city: string)
    requires !Given(f.city)
    ensures forall p :: p in GetProjectsByFilters(db, f.(city := Some(city))) ==> p in GetProjectsByFilters(db, f)
  {
    var g := f.(city := Some(city));
    forall p | p in GetProjectsByFilters(db, g)
      ensures p in GetProjectsByFilters(db, f)
    {
      assert p in db.projects && MatchesFilters(db, g, p);
      assert MatchesFilters(db, f, p);
    }
  }

  /** The funded-by filter is case-insensitive containment when the term holds no `%` or `_`. */
  lemma FundedByIsSubstring(db: Db, f: Filters, p: Project)
    requires Given(f.fundedBy) && NoWildcards(f.fundedBy.value, false)
    ensures MatchesFilters(db, f, p) ==> ContainsIgnoringCase(p.details.organizationName, f.fundedBy.value)
    ensures IsApproved(p) && !Given(f.region) && !Truthy(f.sdg) && !Given(f.city) ==>
      (MatchesFilters(db, f, p) <==> ContainsIgnoringCase(p.details.organizationName, f.fundedBy.value))
  {
    SubstringPatternMatch(p.details.organizationName, f.fundedBy.value, false);
    assert FundedByMatches(f.fundedBy, p) <==> ContainsIgnoringCase(p.details.organizationName, f.fundedBy.value);
  }

  predicate IsPending(p: Project) {
    p.workflowStatus == Submitted || p.workflowStatus == InReview || p.workflowStatus == ChangesRequested
  }

  /** `get_pending_reviews`: exactly the submitted, in-review and changes-requested rows,
      oldest first. */
  function GetPendingReviews(db: Db): (r: seq<Project>)
    ensures forall p :: p in r <==> p in db.projects && IsPending(p)
    ensures SortedBy(r, OldestFirst)
    ensures |r| == Count(db.projects, IsPending)
  {
    var rows := Filter(db.projects, IsPending);
    SortByMembers(rows, OldestFirst);
    CountIsFilterLength(db.projects, IsPending);
    SortBy(rows, OldestFirst)
  }

  function RowOf(p: Project): Row {
    Row(p.details.city, p.details.country, p.details.fundingNeeded, p.details.projectStatus)
  }

  function RowsOf(ps: seq<Project>): (r: seq<Row>)
    ensures |r| == |ps| && forall i :: 0 <= i < |ps| ==> r[i] == RowOf(ps[i])
  {
    seq(|ps|, i requires 0 <= i < |ps| => RowOf(ps[i]))
  }

  /** `get_kpi_metrics`: the KPI totals over the filtered listing. */
  function GetKpiMetrics(db: Db, f: Filters): (k: Kpi)
    ensures k.totalProjects == |GetProjectsByFilters(db, f)|
    ensures k.fundingNeeded == TotalNeeded(RowsOf(GetProjectsByFilters(db, f)))
    ensures k.fundingSpent == TotalSpent(RowsOf(GetProjectsByFilters(db, f)))
    ensures (forall p :: p in db.projects ==> p.details.fundingNeeded.GetOr(0) >= 0) ==> 0 <= k.fundingSpent <= k.fundingNeeded
  {
    var ps := GetProjectsByFilters(db, f);
    var rows := RowsOf(ps);
    assert forall i :: 0 <= i < |rows| ==> ps[i] in db.projects && NeededOrZero(rows[i]) == ps[i].details.fundingNeeded.GetOr(0);
    ComputeKpi(rows)
  }

  datatype AdminMetrics = AdminMetrics(
    pendingReviews: nat,
    approvedThisMonth: nat,
    rejectedThisMonth: nat,
    totalPublished: nat,
    avgReviewTime: string)

  const SecondsPerDay: int := 86400

  /** `date(t)` as a day number. */
  function DayOf(t: int): int { t / SecondsPerDay }

  /** The rows the "pending reviews" metric counts: submitted and in review only. */
  predicate AwaitingReview(p: Project) {
    p.workflowStatus == Submitted || p.workflowStatus == InReview
  }

  predicate AwaitingChanges(p: Project) { p.workflowStatus == ChangesRequested }

  /** Rows in `status` whose last update falls on or after `day`. */
  function DecidedSince(status: WorkflowStatus, day: int): Project -> bool {
    (p: Project) => p.workflowStatus == status && DayOf(p.updatedAt) >= day
  }

  /** `get_admin_metrics`, given the day number of `date('now', 'start of month')`; the
      average review time is a fixed text. */
  function GetAdminMetrics(db: Db, monthStartDay: int): (m: AdminMetrics)
    ensures m.pendingReviews == |Filter(db.projects, AwaitingReview)|
    ensures m.approvedThisMonth == |Filter(db.projects, DecidedSince(Approved, monthStartDay))|
    ensures m.rejectedThisMonth == |Filter(db.projects, DecidedSince(Rejected, monthStartDay))|
    ensures m.totalPublished == |GetAllPublishedProjects(db)|
    ensures m.approvedThisMonth <= m.totalPublished
    ensures m.avgReviewTime == "2.3 days"
  {
    CountIsFilterLength(db.projects, AwaitingReview);
    CountIsFilterLength(db.projects, DecidedSince(Approved, monthStartDay));
    CountIsFilterLength(db.projects, DecidedSince(Rejected, monthStartDay));
    CountIsFilterLength(db.projects, IsApproved);
    CountMonotone(db.projects, DecidedSince(Approved, monthStartDay), IsApproved);
    AdminMetrics(Count(db.projects, AwaitingReview), Count(db.projects, DecidedSince(Approved, monthStartDay)),
                 Count(db.projects, DecidedSince(Rejected, monthStartDay)), Count(db.projects, IsApproved), "2.3 days")
  }

  /** The metric leaves out exactly the changes-requested rows of the review queue. */
  lemma {:induction false} PendingMetricOmitsChangesRequested(ps: seq<Project>)
    ensures Count(ps, AwaitingReview) + Count(ps, AwaitingChanges) == Count(ps, IsPending)
  {
    if |ps| > 0 {
      PendingMetricOmitsChangesRequested(ps[1..]);
    }
  }

  /** So the "pending reviews" figure equals the queue's length only when no project waits
      for changes. */
  lemma PendingMetricAgainstQueue(db: Db, monthStartDay: int)
    ensures GetAdminMetrics(db, monthStartDay).pendingReviews + Count(db.projects, AwaitingChanges) == |GetPendingReviews(db)|
  {
    PendingMetricOmitsChangesRequested(db.projects);
    CountIsFilterLength(db.projects, AwaitingReview);
  }
}
