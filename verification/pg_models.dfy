/** The PostgreSQL schema (src/models_postgres.py) as immutable rows, with the column
    constraints the server enforces on every commit: CHECK constraints, NOT NULL, UNIQUE,
    foreign keys and VARCHAR widths. Regular-expression CHECKs are a parameter. */
module PgModels {
  import opened Wrappers
  import opened Text
  import opened Constants

  // ---------------------------------------------------------------- UUIDs

  /** A UUID by its 32 lower-case hexadecimal digits. */
  datatype Uuid = Uuid(hex: string)

  predicate IsLowerHexDigit(c: char) { IsDigit(c) || 'a' <= c <= 'f' }

  predicate ValidUuid(u: Uuid) {
    |u.hex| == 32 && forall i :: 0 <= i < |u.hex| ==> IsLowerHexDigit(u.hex[i])
  }

  /** `str(u)`: the canonical 8-4-4-4-12 spelling. */
  function UuidText(u: Uuid): (r: string)
    requires ValidUuid(u)
    ensures |r| == 36
  {
    var h := u.hex;
    Hyphen(h[..8], Hyphen(h[8..12], Hyphen(h[12..16], Hyphen(h[16..20], h[20..]))))
  }

  /** `a` and `b` joined by a hyphen. */
  function Hyphen(a: string, b: string): (r: string)
    ensures |r| == |a| + 1 + |b|
  {
    a + ("-" + b)
  }

  /** `s.replace('-', '')` */
  function Unhyphenate(s: string): string {
    if |s| == 0 then [] else (if s[0] == '-' then [] else [s[0]]) + Unhyphenate(s[1..])
  }

  /** The text `uuid.UUID(s)` reads the digits from: every "urn:" and then every "uuid:"
      removed, braces stripped from both ends and hyphens dropped. */
  function UuidDigits(s: string): string {
    Unhyphenate(StripChars(RemoveAll(RemoveAll(s, "urn:"), "uuid:"), {'{', '}'}))
  }

  /** `uuid.UUID(s)` when the remaining text is exactly 32 hexadecimal digits in either case;
      other texts raise `ValueError` (here `None`). */
  function ParseUuid(s: string): (r: Option<Uuid>)
    ensures r.Some? ==> ValidUuid(r.value)
    ensures r.Some? <==> |UuidDigits(s)| == 32 && forall i :: 0 <= i < 32 ==> IsHexDigit(UuidDigits(s)[i])
    ensures r.Some? ==> r.value.hex == Lower(UuidDigits(s))
  {
    var h := UuidDigits(s);
    if |h| == 32 && forall i :: 0 <= i < |h| ==> IsHexDigit(h[i]) then Some(Uuid(Lower(h))) else None
  }

  /** The characters of the canonical spelling: lower-case hexadecimal digits and hyphens. */
  predicate UuidTextChar(c: char) { IsLowerHexDigit(c) || c == '-' }

  lemma HyphenChars(a: string, b: string)
    requires forall i :: 0 <= i < |a| ==> UuidTextChar(a[i])
    requires forall i :: 0 <= i < |b| ==> UuidTextChar(b[i])
    ensures forall i :: 0 <= i < |Hyphen(a, b)| ==> UuidTextChar(Hyphen(a, b)[i])
  {
    var r := Hyphen(a, b);
    forall i | 0 <= i < |r| ensures UuidTextChar(r[i]) {
      if i < |a| { assert r[i] == a[i]; }
      else if i > |a| { assert r[i] == b[i - |a| - 1]; }
    }
  }

  lemma HexGroupChars(h: string, a: nat, b: nat)
    requires a <= b <= |h| && forall i :: 0 <= i < |h| ==> IsLowerHexDigit(h[i])
    ensures forall i :: 0 <= i < |h[a..b]| ==> UuidTextChar(h[a..b][i])
  {
    forall i | 0 <= i < |h[a..b]| ensures UuidTextChar(h[a..b][i]) {
      assert h[a..b][i] == h[a + i];
    }
  }

  /** The canonical spelling holds no 'u', so neither prefix removal touches it. */
  lemma UuidTextHasNoU(u: Uuid)
    requires ValidUuid(u)
    ensures 'u' !in UuidText(u)
  {
    var h := u.hex;
    HexGroupChars(h, 0, 8);
    HexGroupChars(h, 8, 12);
    HexGroupChars(h, 12, 16);
    HexGroupChars(h, 16, 20);
    HexGroupChars(h, 20, 32);
    assert h[..8] == h[0..8] && h[20..] == h[20..32];
    HyphenChars(h[16..20], h[20..]);
    HyphenChars(h[12..16], Hyphen(h[16..20], h[20..]));
    HyphenChars(h[8..12], Hyphen(h[12..16], Hyphen(h[16..20], h[20..])));
    HyphenChars(h[..8], Hyphen(h[8..12], Hyphen(h[12..16], Hyphen(h[16..20], h[20..]))));
    var t := UuidText(u);
    assert forall i :: 0 <= i < |t| ==> t[i] != 'u';
  }

  /** The canonical spelling is the digits' own text. */
  lemma CanonicalDigits(u: Uuid)
    requires ValidUuid(u)
    ensures UuidDigits(UuidText(u)) == u.hex
  {
    var t := UuidText(u);
    UuidTextHasNoU(u);
    RemoveAllAbsent(t, "urn:");
    RemoveAllAbsent(t, "uuid:");
    BracelessText(u);
    UnhyphenateText(u);
  }

  /** The canonical spelling parses back to the same UUID. */
  lemma ParseUuidText(u: Uuid)
    requires ValidUuid(u)
    ensures ParseUuid(UuidText(u)) == Some(u)
  {
    CanonicalDigits(u);
    LowerHexUnchanged(u.hex);
  }

  /** The URN spelling `urn:uuid:<canonical>` that `uuid.UUID` also accepts parses to the same
      UUID. */
  lemma ParseUuidUrn(u: Uuid)
    requires ValidUuid(u)
    ensures ParseUuid("urn:uuid:" + UuidText(u)) == Some(u)
  {
    var t := UuidText(u);
    UuidTextHasNoU(u);
    var s := "uuid:" + t;
    assert "urn:uuid:" + t == "urn:" + s;
    RemoveAllLeading("urn:", s);
    assert RemoveAll(s, "urn:") == s by {
      assert s[..4] != "urn:" && s[1..] == "uid:" + t;
      var s1 := "uid:" + t;
      assert s1[..4] != "urn:" && s1[1..] == "id:" + t;
      RemoveAllAbsent("id:" + t, "urn:");
      assert s == [s[0]] + s1 && s1 == [s1[0]] + ("id:" + t);
    }
    RemoveAllLeading("uuid:", t);
    RemoveAllAbsent(t, "uuid:");
    BracelessText(u);
    UnhyphenateText(u);
    LowerHexUnchanged(u.hex);
  }

  lemma BracelessText(u: Uuid)
    requires ValidUuid(u)
    ensures StripChars(UuidText(u), {'{', '}'}) == UuidText(u)
  {
    var h := u.hex;
    var t := UuidText(u);
    assert t[0] == h[0] && t[35] == h[31];
    assert IsLowerHexDigit(h[0]) && IsLowerHexDigit(h[31]);
  }

  lemma UnhyphenateText(u: Uuid)
    requires ValidUuid(u)
    ensures Unhyphenate(UuidText(u)) == u.hex
  {
    var h := u.hex;
    DropHyphen(h[16..20], h[20..]);
    DropHyphen(h[12..16], Hyphen(h[16..20], h[20..]));
    DropHyphen(h[8..12], Hyphen(h[12..16], Hyphen(h[16..20], h[20..])));
    DropHyphen(h[..8], Hyphen(h[8..12], Hyphen(h[12..16], Hyphen(h[16..20], h[20..]))));
    UnhyphenateHex(h[20..]);
    assert h == h[..8] + (h[8..12] + (h[12..16] + (h[16..20] + h[20..])));
  }

  lemma LowerHexUnchanged(h: string)
    requires forall i :: 0 <= i < |h| ==> IsLowerHexDigit(h[i])
    ensures Lower(h) == h
  {
  }

  /** Dropping hyphens from a hexadecimal group, a hyphen and the rest keeps the group. */
  lemma DropHyphen(g: string, rest: string)
    requires forall i :: 0 <= i < |g| ==> IsLowerHexDigit(g[i])
    ensures Unhyphenate(Hyphen(g, rest)) == g + Unhyphenate(rest)
  {
    var x := "-" + rest;
    UnhyphenateAppend(g, x);
    UnhyphenateHex(g);
    assert x[0] == '-' && x[1..] == rest;
    assert Unhyphenate(x) == [] + Unhyphenate(rest);
  }

  lemma {:induction false} UnhyphenateAppend(a: string, b: string)
    ensures Unhyphenate(a + b) == Unhyphenate(a) + Unhyphenate(b)
  {
    if |a| > 0 {
      assert (a + b)[1..] == a[1..] + b;
      UnhyphenateAppend(a[1..], b);
    } else {
      assert a + b == b;
    }
  }

  /** A run of hexadecimal digits has no hyphen to drop. */
  lemma {:induction false} UnhyphenateHex(g: string)
    requires forall i :: 0 <= i < |g| ==> IsLowerHexDigit(g[i])
    ensures Unhyphenate(g) == g
  {
    if |g| > 0 {
      UnhyphenateHex(g[1..]);
      assert [g[0]] + g[1..] == g;
    }
  }

  // ---------------------------------------------------------------- enums

  /** `requirement_category_enum` */
  datatype RequirementCategory = Funding | GovernmentRegulatory | OtherCategory {
    function Name(): string {
      match this
      case Funding => "funding"
      case GovernmentRegulatory => "government_regulatory"
      case OtherCategory => "other"
    }
  }

  /** The value PostgreSQL accepts for the enum column; anything else is a DataError. */
  function ParseRequirementCategory(s: string): (r: Option<RequirementCategory>)
    ensures r.Some? <==> s in ["funding", "government_regulatory", "other"]
    ensures r.Some? ==> r.value.Name() == s
  {
    if s == "funding" then Some(Funding)
    else if s == "government_regulatory" then Some(GovernmentRegulatory)
    else if s == "other" then Some(OtherCategory)
    else None
  }

  /** The category a display name stands for, keyed on the words it contains: "Funding" or
      "Financial" is funding, else "Government" or "Regulatory" is government and regulatory,
      else other. */
  function CategoryFor(display: string): (r: RequirementCategory)
    ensures r == Funding <==> Contains(display, "Funding") || Contains(display, "Financial")
    ensures r == GovernmentRegulatory <==>
      !Contains(display, "Funding") && !Contains(display, "Financial")
      && (Contains(display, "Government") || Contains(display, "Regulatory"))
  {
    if Contains(display, "Funding") || Contains(display, "Financial") then Funding
    else if Contains(display, "Government") || Contains(display, "Regulatory") then GovernmentRegulatory
    else OtherCategory
  }

  // ---------------------------------------------------------------- rows

  datatype PgRegion = PgRegion(name: string, code: string, description: string)

  datatype PgSdg = PgSdg(number: int, name: string, shortName: string, color: string, pantone: string, description: string)

  datatype PgTypology = PgTypology(name: string, description: string)

  datatype PgRequirement = PgRequirement(name: string, category: RequirementCategory, description: string)

  datatype PgUser = PgUser(id: Uuid, email: string, fullName: string, organization: string)

  datatype PgImage = PgImage(url: string, altText: string, displayOrder: int)

  datatype RequirementLink = RequirementLink(code: string, category: RequirementCategory)

  /** A row of `projects` with its junction rows. NOT NULL columns are plain values, nullable
      ones options; timestamps are seconds. */
  datatype PgProject = PgProject(
    id: Uuid,
    name: string,
    slug: string,
    organizationName: string,
    contactPerson: string,
    contactEmail: string,
    projectStatus: ProjectStatus,
    city: string,
    country: string,
    regionId: int,
    latitude: real,
    longitude: real,
    fundingNeeded: Option<int>,
    fundingSpent: Option<int>,
    briefDescription: string,
    detailedDescription: string,
    successFactors: string,
    workflowStatus: WorkflowStatus,
    submissionDate: int,
    approvalDate: Option<int>,
    publishedDate: Option<int>,
    rejectionReason: Option<string>,
    updatedAt: int,
    deletedAt: Option<int>,
    createdBy: Uuid,
    lastReviewedBy: Option<Uuid>,
    sdgs: seq<int>,
    typologies: seq<string>,
    requirements: seq<RequirementLink>,
    images: seq<PgImage>)

  datatype PgHistory = PgHistory(
    projectId: Uuid,
    fromStatus: Option<WorkflowStatus>,
    toStatus: WorkflowStatus,
    changedBy: Uuid,
    reason: Option<string>,
    changedAt: int)

  datatype PgReview = PgReview(projectId: Uuid, reviewer: Uuid, status: WorkflowStatus, comments: string, reviewedAt: int)

  /** The database. `sdgs` is keyed by the serial `sdg_id`, whose sequence stands at
      `nextSdgId`; `typologies` and `requirements` are keyed by code. */
  datatype PgDb = PgDb(
    regions: map<int, PgRegion>,
    sdgs: map<int, PgSdg>,
    nextSdgId: nat,
    typologies: map<string, PgTypology>,
    requirements: map<string, PgRequirement>,
    users: seq<PgUser>,
    projects: seq<PgProject>,
    history: seq<PgHistory>,
    reviews: seq<PgReview>)

  // ---------------------------------------------------------------- constraints

  /** The declared width of `region_code`, too narrow for the seeded code "SECTION_III". */
  const RegionCodeWidthAsWritten: nat := 10

  /** A width that holds every seeded region code; the rest of the model uses it. */
  const RegionCodeWidth: nat := 20

  /** `valid_region_id` and the widths of `region_name` and a `region_code` column of the
      given width. */
  predicate RegionFits(id: int, r: PgRegion, codeWidth: nat) {
    1 <= id <= 5 && |r.name| <= 100 && |r.code| <= codeWidth
  }

  predicate RegionOk(id: int, r: PgRegion) {
    RegionFits(id, r, RegionCodeWidth)
  }

  /** `valid_sdg_number` and `valid_hex_color` */
  predicate SdgOk(s: PgSdg) {
    1 <= s.number <= 17 && IsHexColor(s.color)
  }

  /** `valid_workflow_dates`, with SQL's NULL rule: a comparison with NULL does not fail the
      CHECK, so only a present date that is out of order does. */
  predicate DatesOk(p: PgProject) {
    && !(p.approvalDate.Some? && p.approvalDate.value < p.submissionDate)
    && !(p.publishedDate.Some? && p.approvalDate.Some? && p.publishedDate.value < p.approvalDate.value)
  }

  /** The row-level checks on `projects`: coordinates, funding, e-mail format, dates and
      column widths. `emailOk` is the `~*` pattern of `valid_email_format`. */
  predicate ProjectRowOk(p: PgProject, emailOk: string -> bool) {
    && -90.0 <= p.latitude <= 90.0
    && -180.0 <= p.longitude <= 180.0
    && (p.fundingNeeded.Some? ==> 0 <= p.fundingNeeded.value < 10000000000000)
    && (p.fundingSpent.Some? ==> 0 <= p.fundingSpent.value < 10000000000000)
    && emailOk(p.contactEmail)
    && DatesOk(p)
    && ColumnsFit(p)
  }

  /** The VARCHAR widths of `projects`. */
  predicate ColumnsFit(p: PgProject) {
    && |p.name| <= 500 && |p.slug| <= 500
    && |p.organizationName| <= 255 && |p.contactPerson| <= 255 && |p.contactEmail| <= 255
    && |p.city| <= 255 && |p.country| <= 100 && |p.briefDescription| <= 255
  }

  /** `valid_display_order` and the URL width. */
  predicate ImageOk(i: PgImage) {
    i.displayOrder >= 0 && |i.url| <= 1000 && |i.altText| <= 500
  }

  /** `users.valid_email` and the column widths. */
  predicate UserRowOk(u: PgUser, emailOk: string -> bool) {
    emailOk(u.email) && |u.email| <= 255 && |u.fullName| <= 255 && |u.organization| <= 255
  }

  /** `different_workflow_states` */
  predicate HistoryRowOk(h: PgHistory) {
    h.fromStatus.None? || h.fromStatus.value != h.toStatus
  }

  /** `valid_review_status` */
  predicate ReviewRowOk(r: PgReview) {
    r.status.IsReviewOutcome()
  }

  predicate Distinct<T(==)>(s: seq<T>) {
    forall i, j :: 0 <= i < j < |s| ==> s[i] != s[j]
  }

  function LinkCodes(links: seq<RequirementLink>): (r: seq<string>)
    ensures |r| == |links| && forall i :: 0 <= i < |links| ==> r[i] == links[i].code
  {
    seq(|links|, i requires 0 <= i < |links| => links[i].code)
  }

  /** The junction rows of one project: the UNIQUE (project, …) pairs, their foreign keys
      into the reference tables, and the image checks. */
  predicate LinksOk(db: PgDb, p: PgProject) {
    && Distinct(p.sdgs) && (forall s :: s in p.sdgs ==> s in db.sdgs)
    && Distinct(p.typologies) && (forall t :: t in p.typologies ==> t in db.typologies)
    && Distinct(LinkCodes(p.requirements)) && (forall l :: l in p.requirements ==> l.code in db.requirements)
    && (forall i :: i in p.images ==> ImageOk(i))
  }

  /** The foreign keys of one project into regions and users. */
  predicate ProjectKeysOk(db: PgDb, p: PgProject) {
    && p.regionId in db.regions
    && UserExists(db, p.createdBy)
    && (p.lastReviewedBy.Some? ==> UserExists(db, p.lastReviewedBy.value))
  }

  predicate UserExists(db: PgDb, id: Uuid) {
    exists u :: u in db.users && u.id == id
  }

  predicate ProjectExists(db: PgDb, id: Uuid) {
    exists p :: p in db.projects && p.id == id
  }

  /** The region rows: their checks and the UNIQUE `region_code`. */
  ghost predicate RegionsOk(regions: map<int, PgRegion>) {
    && (forall id :: id in regions ==> RegionOk(id, regions[id]))
    && (forall a, b :: a in regions && b in regions && a != b ==> regions[a].code != regions[b].code)
  }

  /** The SDG rows: their checks, ids drawn from the serial below `next`, and the UNIQUE
      `sdg_number`. */
  ghost predicate SdgTableOk(sdgs: map<int, PgSdg>, next: nat) {
    && (forall id :: id in sdgs ==> SdgOk(sdgs[id]) && 1 <= id < next)
    && (forall a, b :: a in sdgs && b in sdgs && a != b ==> sdgs[a].number != sdgs[b].number)
  }

  /** The user rows: their checks and the UNIQUE id and e-mail. */
  ghost predicate UsersOk(users: seq<PgUser>, emailOk: string -> bool) {
    && (forall u :: u in users ==> UserRowOk(u, emailOk))
    && (forall i, j :: 0 <= i < j < |users| ==> users[i].id != users[j].id && users[i].email != users[j].email)
  }

  ghost predicate ProjectsOk(db: PgDb, emailOk: string -> bool) {
    && (forall p :: p in db.projects ==> ProjectRowOk(p, emailOk) && ProjectKeysOk(db, p) && LinksOk(db, p))
    && (forall i, j :: 0 <= i < j < |db.projects| ==> db.projects[i].id != db.projects[j].id && db.projects[i].slug != db.projects[j].slug)
  }

  ghost predicate AuditOk(db: PgDb) {
    && (forall h :: h in db.history ==> HistoryRowOk(h) && ProjectExists(db, h.projectId) && UserExists(db, h.changedBy))
    && (forall r :: r in db.reviews ==> ReviewRowOk(r) && ProjectExists(db, r.projectId) && UserExists(db, r.reviewer))
  }

  /** Every constraint of the schema holds: what any committed state satisfies. */
  ghost predicate Consistent(db: PgDb, emailOk: string -> bool) {
    RegionsOk(db.regions) && SdgTableOk(db.sdgs, db.nextSdgId) && UsersOk(db.users, emailOk) && ProjectsOk(db, emailOk) && AuditOk(db)
  }
}
