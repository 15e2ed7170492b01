/** The PostgreSQL backend (src/database_postgres.py) over the schema of PgModels. A session
    that raises is rolled back, so every failing operation returns an error and no new store.
    The clock, the year and the UUIDs `uuid4()` draws are parameters; PostGIS predicates are
    function parameters. */
module PostgresDb {
  import opened Wrappers
  import opened Text
  import opened SqlText
  import opened Constants
  import opened Collections
  import opened Records
  import opened PgModels

  // ---------------------------------------------------------------- reference data

  /** The `regions_data` rows of `_populate_reference_data`. */
  const PgRegionSeeds: seq<(int, PgRegion)> := [
    (1, PgRegion("Section I - Western Europe", "SECTION_I", "Western European countries")),
    (2, PgRegion("Section II - Middle East and Eastern Europe", "SECTION_II", "Middle East and Eastern European countries")),
    (3, PgRegion("Section III - Americas", "SECTION_III", "North, Central and South American countries")),
    (4, PgRegion("Section IV - Oceania", "SECTION_IV", "Oceanic countries and territories")),
    (5, PgRegion("Section V - Africa", "SECTION_V", "African countries"))
  ]

  /** The seeded region names are the catalogue's, under the same ids. */
  lemma PgRegionSeedsMatchCatalogue()
    ensures |PgRegionSeeds| == |UiaRegions|
    ensures forall i :: 0 <= i < |PgRegionSeeds| ==>
      PgRegionSeeds[i].0 == UiaRegions[i].0 == i + 1 && PgRegionSeeds[i].1.name == UiaRegions[i].1
  {
  }

  /** The short names of the `sdgs_data` rows, in goal order; name, colour and description
      of each row are the catalogue's. */
  const SdgShortNames: seq<string> := [
    "No Poverty", "Zero Hunger", "Good Health", "Quality Education", "Gender Equality",
    "Clean Water", "Clean Energy", "Decent Work", "Innovation", "Reduced Inequalities",
    "Sustainable Cities", "Responsible Consumption", "Climate Action", "Life Below Water",
    "Life on Land", "Peace & Justice", "Partnerships"
  ]

  /** The SDG rows to seed from a catalogue and its short names: the Pantone column is the
      colour without its '#'. */
  function PgSdgSeeds(table: seq<SdgInfo>, shortNames: seq<string>): seq<PgSdg>
    requires |shortNames| == |table| && forall i :: 0 <= i < |table| ==> |table[i].color| > 0
  {
    seq(|table|, i requires 0 <= i < |table| =>
      PgSdg(table[i].number, table[i].name, shortNames[i], table[i].color, table[i].color[1..], table[i].description))
  }

  /** The SDG seeds are numbered 1..17, in order, and pass the table's checks. */
  lemma PgSdgSeedsNumbered()
    ensures |Sdgs| == |SdgShortNames| && forall i :: 0 <= i < |Sdgs| ==> |Sdgs[i].color| > 0
    ensures var ss := PgSdgSeeds(Sdgs, SdgShortNames);
      |ss| == 17 && forall i :: 0 <= i < 17 ==> ss[i].number == i + 1 && SdgOk(ss[i])
  {
    SdgTableWellFormed();
  }

  /** The seeding rule for a requirement category: "Funding" in the name gives funding, else
      "Government" gives government_regulatory, else other. */
  function SeedCategory(category: string): RequirementCategory {
    if Contains(category, "Funding") then Funding
    else if Contains(category, "Government") then GovernmentRegulatory
    else OtherCategory
  }

  /** The typology rows to seed for the given names, keyed by code. */
  function TypologySeeds(names: seq<string>): seq<(string, PgTypology)>
    requires forall n :: n in names ==> n in TypologyCodes
  {
    seq(|names|, i requires 0 <= i < |names| =>
      (TypologyCodes[names[i]], PgTypology(names[i], "Projects in the " + names[i] + " category")))
  }

  /** The requirement rows to seed for one category, keyed by code. Every listed option has an
      entry in REQUIREMENT_CODES, so the hash-based fallback code is never used. */
  function RequirementSeedsOf(category: string, names: seq<string>): seq<(string, PgRequirement)>
    requires forall n :: n in names ==> n in RequirementCodes
  {
    seq(|names|, i requires 0 <= i < |names| =>
      (RequirementCodes[names[i]], PgRequirement(names[i], SeedCategory(category), "Requirement: " + names[i])))
  }

  /** The requirement rows to seed for three categories and their options. */
  function RequirementSeeds(groups: seq<(string, seq<string>)>): seq<(string, PgRequirement)>
    requires |groups| == 3 && forall k, n :: 0 <= k < 3 && n in groups[k].1 ==> n in RequirementCodes
  {
    RequirementSeedsOf(groups[0].0, groups[0].1) + RequirementSeedsOf(groups[1].0, groups[1].1)
      + RequirementSeedsOf(groups[2].0, groups[2].1)
  }

  /** Insert each row whose key is absent; existing rows are left as they are. */
  function AddMissing<K(!new), V>(m: map<K, V>, rows: seq<(K, V)>): (r: map<K, V>)
    ensures forall k :: k in m ==> k in r && r[k] == m[k]
    ensures forall i :: 0 <= i < |rows| ==> rows[i].0 in r
    ensures forall k :: k in r ==> k in m || exists i :: 0 <= i < |rows| && rows[i].0 == k
    decreases |rows|
  {
    if |rows| == 0 then m
    else
      var m' := if rows[0].0 in m then m else m[rows[0].0 := rows[0].1];
      var r := AddMissing(m', rows[1..]);
      assert forall i :: 0 <= i < |rows[1..]| ==> rows[1..][i] == rows[i + 1];
      r
  }

  /** When every key is already present, nothing is inserted. */
  lemma {:induction false} AddMissingPresent<K(!new), V>(m: map<K, V>, rows: seq<(K, V)>)
    requires forall i :: 0 <= i < |rows| ==> rows[i].0 in m
    ensures AddMissing(m, rows) == m
    decreases |rows|
  {
    if |rows| > 0 {
      AddMissingPresent(m, rows[1..]);
    }
  }

  predicate SdgNumberPresent(sdgs: map<int, PgSdg>, n: int) {
    exists id :: id in sdgs && sdgs[id].number == n
  }

  /** The SDG loop: a row whose number is absent gets the next `sdg_id` of the serial
      sequence. `None` when that id is already in use (a primary-key violation). */
  function AddMissingSdgs(sdgs: map<int, PgSdg>, next: nat, rows: seq<PgSdg>): (r: Option<(map<int, PgSdg>, nat)>)
    ensures (forall id :: id in sdgs ==> id < next) ==> r.Some?
    ensures r.Some? ==> next <= r.value.1 && (forall id :: id in sdgs ==> id in r.value.0 && r.value.0[id] == sdgs[id])
    ensures r.Some? ==> forall id :: id in r.value.0 ==> id in sdgs || next <= id < r.value.1
    decreases |rows|
  {
    if |rows| == 0 then Some((sdgs, next))
    else if SdgNumberPresent(sdgs, rows[0].number) then AddMissingSdgs(sdgs, next, rows[1..])
    else if next in sdgs then None
    else AddMissingSdgs(sdgs[next := rows[0]], next + 1, rows[1..])
  }

  /** After the SDG loop, every row's number is present. */
  lemma {:induction false} AddMissingSdgsCovers(sdgs: map<int, PgSdg>, next: nat, rows: seq<PgSdg>)
    requires AddMissingSdgs(sdgs, next, rows).Some?
    ensures forall i :: 0 <= i < |rows| ==> SdgNumberPresent(AddMissingSdgs(sdgs, next, rows).value.0, rows[i].number)
    decreases |rows|
  {
    if |rows| > 0 {
      var r := AddMissingSdgs(sdgs, next, rows).value.0;
      if SdgNumberPresent(sdgs, rows[0].number) {
        AddMissingSdgsCovers(sdgs, next, rows[1..]);
        var id :| id in sdgs && sdgs[id].number == rows[0].number;
        assert r[id] == sdgs[id];
      } else {
        AddMissingSdgsCovers(sdgs[next := rows[0]], next + 1, rows[1..]);
        assert r[next] == rows[0];
      }
      assert forall i :: 1 <= i < |rows| ==> rows[i] == rows[1..][i - 1];
    }
  }

  /** When every number is already present, nothing is inserted. */
  lemma {:induction false} AddMissingSdgsPresent(sdgs: map<int, PgSdg>, next: nat, rows: seq<PgSdg>)
    requires forall i :: 0 <= i < |rows| ==> SdgNumberPresent(sdgs, rows[i].number)
    ensures AddMissingSdgs(sdgs, next, rows) == Some((sdgs, next))
    decreases |rows|
  {
    if |rows| > 0 {
      AddMissingSdgsPresent(sdgs, next, rows[1..]);
    }
  }

  datatype PopulateError = RegionRejected | RegionCodeTaken | SdgIdTaken

  /** A region seed that would be inserted breaks a column width or range check. */
  predicate NewRegionRejected(regions: map<int, PgRegion>, seeds: seq<(int, PgRegion)>, codeWidth: nat) {
    exists i :: 0 <= i < |seeds| && seeds[i].0 !in regions && !RegionFits(seeds[i].0, seeds[i].1, codeWidth)
  }

  /** A region seed that would be inserted has a code another region already has (the UNIQUE
      `region_code`). */
  predicate RegionCodeClash(regions: map<int, PgRegion>, seeds: seq<(int, PgRegion)>) {
    exists i, id :: 0 <= i < |seeds| && seeds[i].0 !in regions && id in regions && regions[id].code == seeds[i].1.code
  }

  /** The seeding transaction over given seed rows (whose own keys and codes are distinct):
      insert each region, SDG, typology and requirement whose natural key is absent; any
      rejected row rolls everything back. */
  function SeedTables(db: PgDb, codeWidth: nat, rs: seq<(int, PgRegion)>, ss: seq<PgSdg>,
                      ts: seq<(string, PgTypology)>, qs: seq<(string, PgRequirement)>): (r: Result<PgDb, PopulateError>)
    ensures r.Err? <==> NewRegionRejected(db.regions, rs, codeWidth) || RegionCodeClash(db.regions, rs)
                        || AddMissingSdgs(db.sdgs, db.nextSdgId, ss).None?
    ensures r.Ok? ==> r.value.users == db.users && r.value.projects == db.projects
                      && r.value.history == db.history && r.value.reviews == db.reviews
  {
    if NewRegionRejected(db.regions, rs, codeWidth) then Err(RegionRejected)
    else if RegionCodeClash(db.regions, rs) then Err(RegionCodeTaken)
    else match AddMissingSdgs(db.sdgs, db.nextSdgId, ss)
      case None => Err(SdgIdTaken)
      case Some((sdgs, next)) =>
        Ok(db.(regions := AddMissing(db.regions, rs), sdgs := sdgs, nextSdgId := next,
               typologies := AddMissing(db.typologies, ts), requirements := AddMissing(db.requirements, qs)))
  }

  /** After seeding, every seed's key is present and no existing row has changed. */
  lemma SeedTablesCovers(db: PgDb, codeWidth: nat, rs: seq<(int, PgRegion)>, ss: seq<PgSdg>,
                         ts: seq<(string, PgTypology)>, qs: seq<(string, PgRequirement)>)
    requires SeedTables(db, codeWidth, rs, ss, ts, qs).Ok?
    ensures var db' := SeedTables(db, codeWidth, rs, ss, ts, qs).value;
      && (forall i :: 0 <= i < |rs| ==> rs[i].0 in db'.regions)
      && (forall i :: 0 <= i < |ss| ==> SdgNumberPresent(db'.sdgs, ss[i].number))
      && (forall i :: 0 <= i < |ts| ==> ts[i].0 in db'.typologies)
      && (forall i :: 0 <= i < |qs| ==> qs[i].0 in db'.requirements)
      && (forall id :: id in db.regions ==> id in db'.regions && db'.regions[id] == db.regions[id])
      && (forall id :: id in db.sdgs ==> id in db'.sdgs && db'.sdgs[id] == db.sdgs[id])
      && (forall c :: c in db.typologies ==> c in db'.typologies && db'.typologies[c] == db.typologies[c])
      && (forall c :: c in db.requirements ==> c in db'.requirements && db'.requirements[c] == db.requirements[c])
  {
    AddMissingSdgsCovers(db.sdgs, db.nextSdgId, ss);
  }

  /** Seeds keyed 1..n leave regions 1..n present. */
  lemma SeedTablesCoverRegionRange(db: PgDb, codeWidth: nat, rs: seq<(int, PgRegion)>, ss: seq<PgSdg>,
                                   ts: seq<(string, PgTypology)>, qs: seq<(string, PgRequirement)>, db': PgDb)
    requires SeedTables(db, codeWidth, rs, ss, ts, qs) == Ok(db')
    requires forall i :: 0 <= i < |rs| ==> rs[i].0 == i + 1
    ensures forall id :: 1 <= id <= |rs| ==> id in db'.regions
    ensures forall id :: id in db.regions ==> id in db'.regions && db'.regions[id] == db.regions[id]
    ensures forall id :: id in db.sdgs ==> id in db'.sdgs && db'.sdgs[id] == db.sdgs[id]
  {
    SeedTablesCovers(db, codeWidth, rs, ss, ts, qs);
    forall id | 1 <= id <= |rs| ensures id in db'.regions {
      assert rs[id - 1].0 == id;
    }
  }

  /** SDG seeds numbered 1..n leave numbers 1..n present. */
  lemma SeedTablesCoverSdgRange(db: PgDb, codeWidth: nat, rs: seq<(int, PgRegion)>, ss: seq<PgSdg>,
                                ts: seq<(string, PgTypology)>, qs: seq<(string, PgRequirement)>, db': PgDb)
    requires SeedTables(db, codeWidth, rs, ss, ts, qs) == Ok(db')
    requires forall i :: 0 <= i < |ss| ==> ss[i].number == i + 1
    ensures forall n :: 1 <= n <= |ss| ==> SdgNumberPresent(db'.sdgs, n)
  {
    SeedTablesCovers(db, codeWidth, rs, ss, ts, qs);
    forall n | 1 <= n <= |ss| ensures SdgNumberPresent(db'.sdgs, n) {
      assert ss[n - 1].number == n;
    }
  }

  /** Every code some typology or requirement seed carries is present after seeding. */
  lemma SeedTablesCoverCodes(db: PgDb, codeWidth: nat, rs: seq<(int, PgRegion)>, ss: seq<PgSdg>,
                             ts: seq<(string, PgTypology)>, qs: seq<(string, PgRequirement)>, db': PgDb,
                             typologyCodes: set<string>, requirementCodes: set<string>)
    requires SeedTables(db, codeWidth, rs, ss, ts, qs) == Ok(db')
    requires forall c :: c in typologyCodes ==> exists i :: 0 <= i < |ts| && ts[i].0 == c
    requires forall c :: c in requirementCodes ==> exists i :: 0 <= i < |qs| && qs[i].0 == c
    ensures forall c :: c in typologyCodes ==> c in db'.typologies
    ensures forall c :: c in requirementCodes ==> c in db'.requirements
  {
    SeedTablesCovers(db, codeWidth, rs, ss, ts, qs);
  }

  /** Seeding a database that already holds every seed key changes nothing. */
  lemma SeedTablesIdempotent(db: PgDb, codeWidth: nat, rs: seq<(int, PgRegion)>, ss: seq<PgSdg>,
                             ts: seq<(string, PgTypology)>, qs: seq<(string, PgRequirement)>)
    requires SeedTables(db, codeWidth, rs, ss, ts, qs).Ok?
    ensures var db' := SeedTables(db, codeWidth, rs, ss, ts, qs).value;
      SeedTables(db', codeWidth, rs, ss, ts, qs) == Ok(db')
  {
    var db' := SeedTables(db, codeWidth, rs, ss, ts, qs).value;
    SeedTablesCovers(db, codeWidth, rs, ss, ts, qs);
    AddMissingSdgsPresent(db'.sdgs, db'.nextSdgId, ss);
    AddMissingPresent(db'.regions, rs);
    AddMissingPresent(db'.typologies, ts);
    AddMissingPresent(db'.requirements, qs);
  }

  /** `_populate_reference_data` for a `region_code` column of the given width. */
  function PopulateWithCodeWidth(db: PgDb, codeWidth: nat): Result<PgDb, PopulateError> {
    SdgTableWellFormed();
    TypologyCodesCoverTypologies();
    RequirementCodesCoverRequirements();
    SeedTables(db, codeWidth, PgRegionSeeds, PgSdgSeeds(Sdgs, SdgShortNames), TypologySeeds(ProjectTypologies),
               RequirementSeeds(ProjectRequirements))
  }

  /** `_populate_reference_data` against the schema as declared. */
  function PopulateReferenceDataAsWritten(db: PgDb): Result<PgDb, PopulateError> {
    PopulateWithCodeWidth(db, RegionCodeWidthAsWritten)
  }

  /** `_populate_reference_data` against a `region_code` wide enough for its seeds. */
  function PopulateReferenceData(db: PgDb): Result<PgDb, PopulateError> {
    PopulateWithCodeWidth(db, RegionCodeWidth)
  }

  /** As declared, seeding a database without region 3 always fails: "SECTION_III" does not
      fit in VARCHAR(10), so the transaction is rolled back. */
  lemma PopulateAsWrittenRejectsRegionThree(db: PgDb)
    requires 3 !in db.regions
    ensures PopulateReferenceDataAsWritten(db) == Err(RegionRejected)
  {
    assert PgRegionSeeds[2].0 == 3 && |PgRegionSeeds[2].1.code| == 11;
    assert NewRegionRejected(db.regions, PgRegionSeeds, RegionCodeWidthAsWritten);
  }

  /** With a wide enough column, seeding an empty database succeeds. */
  lemma PopulateFreshSucceeds(db: PgDb)
    requires db.regions == map[]
    requires forall id :: id in db.sdgs ==> id < db.nextSdgId
    ensures PopulateReferenceData(db).Ok?
  {
    assert forall i :: 0 <= i < |PgRegionSeeds| ==> RegionFits(PgRegionSeeds[i].0, PgRegionSeeds[i].1, RegionCodeWidth);
  }

  /** The typology seeds carry every code of TYPOLOGY_CODES. */
  lemma TypologySeedsCover()
    ensures forall n :: n in ProjectTypologies ==> n in TypologyCodes
    ensures var ts := TypologySeeds(ProjectTypologies);
      forall c :: c in TypologyCodes.Values ==> exists i :: 0 <= i < |ts| && ts[i].0 == c
  {
    TypologyCodesCoverTypologies();
    var ts := TypologySeeds(ProjectTypologies);
    forall c | c in TypologyCodes.Values
      ensures exists i :: 0 <= i < |ts| && ts[i].0 == c
    {
      var t :| t in TypologyCodes && TypologyCodes[t] == c;
      var i :| 0 <= i < |ProjectTypologies| && ProjectTypologies[i] == t;
      assert ts[i].0 == c;
    }
  }

  /** Seed rows that carry, one by one, the codes of the given options. */
  predicate Coded(g: seq<(string, PgRequirement)>, names: seq<string>) {
    |g| == |names| && forall j :: 0 <= j < |g| ==> names[j] in RequirementCodes && g[j].0 == RequirementCodes[names[j]]
  }

  lemma SeedsOfCoded(category: string, names: seq<string>)
    requires forall n :: n in names ==> n in RequirementCodes
    ensures Coded(RequirementSeedsOf(category, names), names)
  {
  }

  lemma CodedConcat(g: seq<(string, PgRequirement)>, h: seq<(string, PgRequirement)>, a: seq<string>, b: seq<string>)
    requires Coded(g, a) && Coded(h, b)
    ensures Coded(g + h, a + b)
  {
    forall j | 0 <= j < |g| + |h|
      ensures (a + b)[j] in RequirementCodes && (g + h)[j].0 == RequirementCodes[(a + b)[j]]
    {
      if j >= |g| {
        assert (g + h)[j] == h[j - |g|] && (a + b)[j] == b[j - |g|];
      }
    }
  }

  /** The requirement seeds follow the listed options in order, each under its code. */
  lemma RequirementSeedsInOrder()
    ensures forall k, n :: 0 <= k < 3 && n in ProjectRequirements[k].1 ==> n in RequirementCodes
    ensures forall n :: n in ListedRequirements ==> n in RequirementCodes
    ensures var qs := RequirementSeeds(ProjectRequirements);
      |qs| == |ListedRequirements| && forall j :: 0 <= j < |ListedRequirements| ==> qs[j].0 == RequirementCodes[ListedRequirements[j]]
  {
    RequirementCodesCoverRequirements();
    var n0, n1, n2 := ProjectRequirements[0].1, ProjectRequirements[1].1, ProjectRequirements[2].1;
    assert ListedRequirements == n0 + n1 + n2;
    var g0 := RequirementSeedsOf(ProjectRequirements[0].0, n0);
    var g1 := RequirementSeedsOf(ProjectRequirements[1].0, n1);
    var g2 := RequirementSeedsOf(ProjectRequirements[2].0, n2);
    SeedsOfCoded(ProjectRequirements[0].0, n0);
    SeedsOfCoded(ProjectRequirements[1].0, n1);
    SeedsOfCoded(ProjectRequirements[2].0, n2);
    CodedConcat(g0, g1, n0, n1);
    CodedConcat(g0 + g1, g2, n0 + n1, n2);
    assert RequirementSeeds(ProjectRequirements) == g0 + g1 + g2;
  }

  /** The requirement seeds carry every code of REQUIREMENT_CODES. */
  lemma RequirementSeedsCover()
    ensures forall k, n :: 0 <= k < 3 && n in ProjectRequirements[k].1 ==> n in RequirementCodes
    ensures var qs := RequirementSeeds(ProjectRequirements);
      forall c :: c in RequirementCodes.Values ==> exists i :: 0 <= i < |qs| && qs[i].0 == c
  {
    RequirementCodesCoverRequirements();
    RequirementSeedsInOrder();
    var qs := RequirementSeeds(ProjectRequirements);
    forall c | c in RequirementCodes.Values
      ensures exists i :: 0 <= i < |qs| && qs[i].0 == c
    {
      var q :| q in RequirementCodes && RequirementCodes[q] == c;
      var j :| 0 <= j < |ListedRequirements| && ListedRequirements[j] == q;
      assert qs[j].0 == c;
    }
  }

  /** Seeding a second time changes nothing. */
  lemma PopulateIdempotent(db: PgDb)
    requires PopulateReferenceData(db).Ok?
    ensures PopulateReferenceData(PopulateReferenceData(db).value) == PopulateReferenceData(db)
  {
    PgSdgSeedsNumbered();
    TypologySeedsCover();
    RequirementSeedsCover();
    var ss := PgSdgSeeds(Sdgs, SdgShortNames);
    var ts := TypologySeeds(ProjectTypologies);
    var qs := RequirementSeeds(ProjectRequirements);
    SeedTablesIdempotent(db, RegionCodeWidth, PgRegionSeeds, ss, ts, qs);
  }

  /** The three display categories seed as funding, government_regulatory and other, which
      is also what `CategoryFor` gives them. */
  lemma SeedCategoriesOfCatalogue()
    ensures SeedCategory(ProjectRequirements[0].0) == CategoryFor(ProjectRequirements[0].0) == Funding
    ensures SeedCategory(ProjectRequirements[1].0) == CategoryFor(ProjectRequirements[1].0) == GovernmentRegulatory
    ensures SeedCategory(ProjectRequirements[2].0) == CategoryFor(ProjectRequirements[2].0) == OtherCategory
  {
    var f, g, o := ProjectRequirements[0].0, ProjectRequirements[1].0, ProjectRequirements[2].0;
    assert OccursAt(f, "Funding", 0);
    assert OccursAt(g, "Government", 0);
    LacksFirstChar(g, "Funding");
    LacksFirstChar(g, "Financial");
    assert !Contains(o, "Funding") && !Contains(o, "Financial");
    assert !Contains(o, "Government") && !Contains(o, "Regulatory");
  }

  // ---------------------------------------------------------------- slugs

  predicate SlugChar(c: char) { IsAsciiAlnum(c) || IsSpace(c) || c == '-' }

  /** Drop leading whitespace. */
  function DropSpaces(s: string): (r: string)
    ensures |r| <= |s| && r == s[|s| - |r|..] && (r == [] || !IsSpace(r[0]))
  {
    if |s| > 0 && IsSpace(s[0]) then DropSpaces(s[1..]) else s
  }

  /** A character a slug may hold: a lower-case ASCII letter, a digit or '-'. */
  predicate SlugOutChar(c: char) { IsDigit(c) || 'a' <= c <= 'z' || c == '-' }

  /** `re.sub(r'\s+', '-', s)`: each run of whitespace becomes one hyphen. */
  function CollapseSpaces(s: string): (r: string)
    ensures (forall i :: 0 <= i < |s| ==> SlugOutChar(s[i]) || IsSpace(s[i])) ==> forall i :: 0 <= i < |r| ==> SlugOutChar(r[i])
    decreases |s|
  {
    if |s| == 0 then []
    else if IsSpace(s[0]) then "-" + CollapseSpaces(DropSpaces(s[1..]))
    else [s[0]] + CollapseSpaces(s[1..])
  }

  /** The slug base: lower-cased name with characters outside `[a-z0-9\s-]` removed, then
      stripped, then whitespace runs replaced by '-'. */
  function SlugBase(name: string): (r: string)
    ensures forall i :: 0 <= i < |r| ==> SlugOutChar(r[i])
  {
    var kept := FilterChars(Lower(name), SlugChar);
    var stripped := Strip(kept);
    forall i | 0 <= i < |stripped| ensures SlugOutChar(stripped[i]) || IsSpace(stripped[i]) {
      StripSubset(kept, stripped[i]);
      LowerHasNoUpper(name, stripped[i]);
    }
    CollapseSpaces(stripped)
  }

  lemma StripSubset(s: string, c: char)
    requires c in Strip(s)
    ensures c in s
  {
    var t := TrimLeft(s);
    var r := Strip(s);
    assert r == TrimRight(t) == t[..|r|];
    var k :| 0 <= k < |r| && r[k] == c;
    assert t[k] == s[|s| - |t| + k];
  }

  lemma LowerHasNoUpper(name: string, c: char)
    requires c in Lower(name)
    ensures !('A' <= c <= 'Z')
  {
    var i :| 0 <= i < |name| && Lower(name)[i] == c;
  }

  /** The `-k` disambiguation suffix. */
  function Suffixed(base: string, k: nat): string {
    base + "-" + NatToString(k)
  }

  lemma SuffixedInjective(base: string, a: nat, b: nat)
    requires Suffixed(base, a) == Suffixed(base, b)
    ensures a == b
  {
    assert Suffixed(base, a)[|base| + 1..] == NatToString(a);
    assert Suffixed(base, b)[|base| + 1..] == NatToString(b);
    NatToStringInjective(a, b);
  }

  function Candidates(base: string, n: nat): set<string> {
    set k | 1 <= k <= n :: Suffixed(base, k)
  }

  lemma {:induction false} CandidatesCount(base: string, n: nat)
    ensures |Candidates(base, n)| == n
  {
    if n > 0 {
      CandidatesCount(base, n - 1);
      assert Candidates(base, n) == Candidates(base, n - 1) + {Suffixed(base, n)};
      if Suffixed(base, n) in Candidates(base, n - 1) {
        var k :| 1 <= k <= n - 1 && Suffixed(base, k) == Suffixed(base, n);
        SuffixedInjective(base, k, n);
      }
    } else {
      assert Candidates(base, 0) == {};
    }
  }

  /** Of the first |taken| + 1 suffixes, at least one is free. */
  lemma SomeSuffixFree(base: string, taken: set<string>)
    ensures exists k :: 1 <= k <= |taken| + 1 && Suffixed(base, k) !in taken
  {
    var n := |taken| + 1;
    if forall k :: 1 <= k <= n ==> Suffixed(base, k) in taken {
      CandidatesCount(base, n);
      assert Candidates(base, n) <= taken;
      SubsetCardinality(Candidates(base, n), taken);
      assert false;
    }
  }

  /** The counter loop from `k` on: the first free suffix, given that one exists by `bound`. */
  function FreeSuffixFrom(base: string, taken: set<string>, k: nat, bound: nat): (j: nat)
    requires 1 <= k <= bound
    requires exists j :: k <= j <= bound && Suffixed(base, j) !in taken
    ensures k <= j <= bound && Suffixed(base, j) !in taken
    ensures forall i :: k <= i < j ==> Suffixed(base, i) in taken
    decreases bound - k
  {
    if Suffixed(base, k) !in taken then k
    else
      assert exists j :: k + 1 <= j <= bound && Suffixed(base, j) !in taken;
      FreeSuffixFrom(base, taken, k + 1, bound)
  }

  /** `k` is where the counter loop of `_generate_project_slug` stops: base-k is free and every
      base-i before it, from 1, is taken. */
  predicate FirstFreeSuffix(base: string, taken: set<string>, k: nat) {
    k >= 1 && Suffixed(base, k) !in taken && forall i :: 1 <= i < k ==> Suffixed(base, i) in taken
  }

  /** `_generate_project_slug`: the base if no project has it, else base-k for the smallest
      k >= 1 that none has. */
  function GenerateProjectSlug(name: string, taken: set<string>): (slug: string)
    ensures slug !in taken
    ensures SlugBase(name) !in taken ==> slug == SlugBase(name)
    ensures SlugBase(name) in taken ==>
      exists k :: FirstFreeSuffix(SlugBase(name), taken, k) && slug == Suffixed(SlugBase(name), k)
  {
    var base := SlugBase(name);
    if base !in taken then base
    else
      var k := LeastFreeSuffix(base, taken);
      Suffixed(base, k)
  }

  /** The counter `_generate_project_slug` stops at. */
  function LeastFreeSuffix(base: string, taken: set<string>): (k: nat)
    ensures FirstFreeSuffix(base, taken, k)
  {
    SomeSuffixFree(base, taken);
    FreeSuffixFrom(base, taken, 1, |taken| + 1)
  }

  function Slugs(projects: seq<PgProject>): (r: set<string>)
    ensures forall p :: p in projects ==> p.slug in r
  {
    set p | p in projects :: p.slug
  }

  // ---------------------------------------------------------------- create_project

  /** The first user with this e-mail address. */
  function FindUser(users: seq<PgUser>, email: string): (r: Option<nat>)
    ensures r.Some? ==> r.value < |users| && users[r.value].email == email
    ensures r.None? <==> forall u :: u in users ==> u.email != email
    decreases |users|
  {
    if |users| == 0 then None
    else if users[0].email == email then Some(0)
    else
      var r := FindUser(users[1..], email);
      assert forall u :: u in users ==> u == users[0] || u in users[1..];
      if r.Some? then Some(r.value + 1) else None
  }

  /** The image row for input `url` at index `i`: stored stripped, with the index as display
      order and the alt text "Project image {i + 1}". */
  function ImageRow(url: string, i: nat): PgImage {
    PgImage(Strip(url), "Project image " + NatToString(i + 1), i)
  }

  /** The image rows for the URL inputs: one per non-blank input, in input order. */
  function ImageRows(urls: seq<string>): (r: seq<PgImage>)
    ensures forall k :: 0 <= k < |r| ==>
      0 <= r[k].displayOrder < |urls| && NotBlank(urls[r[k].displayOrder]) && r[k] == ImageRow(urls[r[k].displayOrder], r[k].displayOrder)
    ensures forall k, l :: 0 <= k < l < |r| ==> r[k].displayOrder < r[l].displayOrder
  {
    var idx := Positions(urls, NotBlank, 0);
    seq(|idx|, k requires 0 <= k < |idx| => ImageRow(urls[idx[k]], idx[k]))
  }

  /** Every non-blank input gets an image row. */
  lemma ImageRowsComplete(urls: seq<string>)
    ensures forall i :: 0 <= i < |urls| && NotBlank(urls[i]) ==>
      exists k :: 0 <= k < |ImageRows(urls)| && ImageRows(urls)[k].displayOrder == i
  {
    var idx := Positions(urls, NotBlank, 0);
    PositionsComplete(urls, NotBlank, 0);
    forall i | 0 <= i < |urls| && NotBlank(urls[i])
      ensures exists k :: 0 <= k < |ImageRows(urls)| && ImageRows(urls)[k].displayOrder == i
    {
      var k :| 0 <= k < |idx| && idx[k] == i;
      assert ImageRows(urls)[k].displayOrder == i;
    }
  }

  /** The stored image URLs are exactly the kept inputs, in order. */
  lemma ImageRowsKeepUrls(urls: seq<string>)
    ensures ImageUrls(ImageRows(urls)) == KeptImageUrls(urls)
  {
    PositionsKept(urls, 0);
    assert urls[0..] == urls;
  }

  /** Stripping the non-blank inputs at their positions gives the kept URLs. */
  lemma {:induction false} PositionsKept(urls: seq<string>, from: nat)
    requires from <= |urls|
    ensures var idx := Positions(urls, NotBlank, from);
      |idx| == |KeptImageUrls(urls[from..])| && forall k :: 0 <= k < |idx| ==> KeptImageUrls(urls[from..])[k] == Strip(urls[idx[k]])
    decreases |urls| - from
  {
    if from < |urls| {
      PositionsKept(urls, from + 1);
      var t := urls[from..];
      assert t[0] == urls[from] && t[1..] == urls[from + 1..];
      var rest := Positions(urls, NotBlank, from + 1);
      var kept := KeptImageUrls(urls[from + 1..]);
      if IsBlank(urls[from]) {
        assert Positions(urls, NotBlank, from) == rest;
        assert KeptImageUrls(t) == kept;
      } else {
        assert Positions(urls, NotBlank, from) == [from] + rest;
        assert KeptImageUrls(t) == [Strip(urls[from])] + kept;
      }
    }
  }

  function ImageUrls(images: seq<PgImage>): (r: seq<string>)
    ensures |r| == |images| && forall k :: 0 <= k < |images| ==> r[k] == images[k].url
  {
    seq(|images|, k requires 0 <= k < |images| => images[k].url)
  }

  /** `TYPOLOGY_CODES.get(name, 'OTHER')` for each selected typology. */
  function TypologyCodesOf(names: seq<string>): seq<string> {
    seq(|names|, i requires 0 <= i < |names| => TypologyCodeFor(names[i]))
  }

  /** The requirement links: the code is `REQUIREMENT_CODES.get(text, 'OTHER_CUSTOM')` and the
      category is what `categoryOf` makes of the pair's category; `None` when some category
      is not a value of the enum column. */
  function RequirementLinks(pairs: seq<RequirementPair>, categoryOf: string -> Option<RequirementCategory>): (r: Option<seq<RequirementLink>>)
    ensures r.None? <==> exists i :: 0 <= i < |pairs| && categoryOf(pairs[i].category).None?
    ensures r.Some? ==> |r.value| == |pairs| && forall i :: 0 <= i < |pairs| ==>
      r.value[i] == RequirementLink(RequirementCodeFor(pairs[i].text), categoryOf(pairs[i].category).value)
  {
    if exists i :: 0 <= i < |pairs| && categoryOf(pairs[i].category).None? then None
    else Some(seq(|pairs|, i requires 0 <= i < |pairs| =>
      RequirementLink(RequirementCodeFor(pairs[i].text), categoryOf(pairs[i].category).value)))
  }

  /** The reference id handed back: "ATLAS-{year}-" and the first six hexadecimal digits of
      the new project's UUID, upper-cased. */
  function PgReferenceId(year: nat, id: Uuid): (r: string)
    requires ValidUuid(id)
    ensures r == "ATLAS-" + NatToString(year) + "-" + Upper(id.hex[..6])
    ensures |r| == 7 + |NatToString(year)| + 6
  {
    UnhyphenateText(id);
    "ATLAS-" + NatToString(year) + "-" + Upper(Unhyphenate(UuidText(id))[..6])
  }

  /** The reference id ends in six upper-case hexadecimal digits. */
  lemma PgReferenceIdSuffix(year: nat, id: Uuid)
    requires ValidUuid(id)
    ensures var r := PgReferenceId(year, id);
      forall k :: |r| - 6 <= k < |r| ==> IsDigit(r[k]) || 'A' <= r[k] <= 'F'
  {
    var r := PgReferenceId(year, id);
    var u := Upper(id.hex[..6]);
    assert r[|r| - 6..] == u;
    forall k | |r| - 6 <= k < |r| ensures IsDigit(r[k]) || 'A' <= r[k] <= 'F' {
      assert r[k] == u[k - (|r| - 6)] == UpperChar(id.hex[k - (|r| - 6)]);
    }
  }

  datatype PgCreateError =
    | UserRejected
    | BadProjectStatus
    | MissingRegion
    | MissingCoordinates
    | ProjectRowRejected
    | BadRequirementCategory
    | LinkRejected

  /** The user row `create_project` links to: the first with the contact e-mail, else a new
      submitter named after the contact person. */
  function SubmitterFor(db: PgDb, d: ProjectDetails, newUserId: Uuid): PgUser {
    var found := FindUser(db.users, d.contactEmail);
    if found.Some? then db.users[found.value] else PgUser(newUserId, d.contactEmail, d.contactPerson, d.organizationName)
  }

  /** The new `projects` row with its junction rows, before any check. */
  function NewProject(d: ProjectDetails, id: Uuid, slug: string, status: ProjectStatus, creator: Uuid, now: int,
                      sdgs: seq<int>, typologies: seq<string>, links: seq<RequirementLink>, images: seq<PgImage>): PgProject
    requires d.uiaRegionId.Some? && d.latitude.Some? && d.longitude.Some?
  {
    PgProject(id, d.projectName, slug, d.organizationName, d.contactPerson, d.contactEmail, status, d.city, d.country,
              d.uiaRegionId.value, d.latitude.value, d.longitude.value, d.fundingNeeded, None,
              d.briefDescription, d.detailedDescription, d.successFactors, Submitted, now, None, None, None, now, None,
              creator, None, sdgs, typologies, links, images)
  }

  /** `create_project` in one transaction: find or add the submitter, derive the slug, insert
      the project as 'submitted' with its SDG, typology, requirement and image rows, commit,
      and return the reference id. `categoryOf` turns a pair's category into the enum value
      stored; `newUserId` and `newProjectId` are the UUIDs the server would draw. */
  function CreateProjectWith(db: PgDb, draft: Draft, newUserId: Uuid, newProjectId: Uuid, now: int, year: nat,
                             emailOk: string -> bool, categoryOf: string -> Option<RequirementCategory>): (r: Result<(PgDb, string), PgCreateError>)
    requires ValidUuid(newProjectId)
    ensures ParseProjectStatus(draft.details.projectStatus).None? ==> r.Err?
    ensures draft.details.uiaRegionId.None? || draft.details.latitude.None? || draft.details.longitude.None? ==> r.Err?
    ensures (exists i :: 0 <= i < |draft.requirements| && categoryOf(draft.requirements[i].category).None?) ==> r.Err?
    ensures r.Ok? ==>
      var (db', ref) := r.value;
      && |db'.projects| == |db.projects| + 1 && db'.projects[..|db.projects|] == db.projects
      && db'.history == db.history && db'.reviews == db.reviews
      && db'.regions == db.regions && db'.sdgs == db.sdgs && db'.typologies == db.typologies && db'.requirements == db.requirements
      && (db'.users == db.users || db'.users == db.users + [PgUser(newUserId, draft.details.contactEmail, draft.details.contactPerson, draft.details.organizationName)])
      && ref == PgReferenceId(year, newProjectId)
    ensures r.Ok? ==>
      var p := r.value.0.projects[|db.projects|];
      && p.id == newProjectId && p.workflowStatus == Submitted && p.submissionDate == now
      && p.approvalDate.None? && p.publishedDate.None? && p.lastReviewedBy.None? && p.deletedAt.None?
      && p.slug == GenerateProjectSlug(draft.details.projectName, Slugs(db.projects))
      && p.contactEmail == draft.details.contactEmail && p.fundingNeeded == draft.details.fundingNeeded
      && p.createdBy == SubmitterFor(db, draft.details, newUserId).id
      && p.sdgs == draft.sdgs && p.typologies == TypologyCodesOf(draft.typologies)
      && Some(p.requirements) == RequirementLinks(draft.requirements, categoryOf)
      && p.images == ImageRows(draft.imageUrls)
  {
    var d := draft.details;
    var found := FindUser(db.users, d.contactEmail);
    var user := SubmitterFor(db, d, newUserId);
    if found.None? && (!UserRowOk(user, emailOk) || UserExists(db, newUserId)) then Err(UserRejected)
    else
      var db1 := if found.Some? then db else db.(users := db.users + [user]);
      var slug := GenerateProjectSlug(d.projectName, Slugs(db.projects));
      match ParseProjectStatus(d.projectStatus)
      case None => Err(BadProjectStatus)
      case Some(status) =>
        if d.uiaRegionId.None? then Err(MissingRegion)
        else if d.latitude.None? || d.longitude.None? then Err(MissingCoordinates)
        else
          var links := RequirementLinks(draft.requirements, categoryOf);
          var p := NewProject(d, newProjectId, slug, status, user.id, now, draft.sdgs, TypologyCodesOf(draft.typologies),
                              links.GetOr([]), ImageRows(draft.imageUrls));
          if !ProjectRowOk(p, emailOk) || !ProjectKeysOk(db1, p) || ProjectExists(db, newProjectId) then Err(ProjectRowRejected)
          else if links.None? then Err(BadRequirementCategory)
          else if !LinksOk(db1, p) then Err(LinkRejected)
          else Ok((db1.(projects := db.projects + [p]), PgReferenceId(year, newProjectId)))
  }

  /** `create_project` as written: the pair's category is stored into the enum column as is,
      so only "funding", "government_regulatory" and "other" are accepted. */
  function CreateProjectAsWritten(db: PgDb, draft: Draft, newUserId: Uuid, newProjectId: Uuid, now: int, year: nat,
                                  emailOk: string -> bool): Result<(PgDb, string), PgCreateError>
    requires ValidUuid(newProjectId)
  {
    CreateProjectWith(db, draft, newUserId, newProjectId, now, year, emailOk, ParseRequirementCategory)
  }

  /** The category a requirement link is stored under: the display category mapped by the
      keyword rule, the one the migration uses. */
  function LinkCategory(display: string): Option<RequirementCategory> {
    Some(CategoryFor(display))
  }

  /** `create_project` with the display category mapped to the enum value. */
  function CreateProject(db: PgDb, draft: Draft, newUserId: Uuid, newProjectId: Uuid, now: int, year: nat,
                         emailOk: string -> bool): Result<(PgDb, string), PgCreateError>
    requires ValidUuid(newProjectId)
  {
    CreateProjectWith(db, draft, newUserId, newProjectId, now, year, emailOk, LinkCategory)
  }

  /** As written, a submission carrying any requirement under one of the form's display
      categories ("Funding & Financial", "Government & Regulatory", "Other") fails. */
  lemma CreateAsWrittenRejectsDisplayCategory(db: PgDb, draft: Draft, newUserId: Uuid, newProjectId: Uuid, now: int, year: nat,
                                              emailOk: string -> bool, i: nat, g: nat)
    requires ValidUuid(newProjectId)
    requires i < |draft.requirements| && g < |ProjectRequirements| && draft.requirements[i].category == ProjectRequirements[g].0
    ensures CreateProjectAsWritten(db, draft, newUserId, newProjectId, now, year, emailOk).Err?
  {
    assert ParseRequirementCategory(ProjectRequirements[g].0).None?;
  }

  /** With the mapping, requirement categories never fail the insert, and each display
      category is stored under the category its requirements were seeded with. */
  lemma CreateMapsDisplayCategory(pairs: seq<RequirementPair>)
    ensures RequirementLinks(pairs, LinkCategory).Some?
    ensures forall i :: 0 <= i < |pairs| && pairs[i].category == ProjectRequirements[0].0 ==> RequirementLinks(pairs, LinkCategory).value[i].category == SeedCategory(ProjectRequirements[0].0)
    ensures forall i :: 0 <= i < |pairs| && pairs[i].category == ProjectRequirements[1].0 ==> RequirementLinks(pairs, LinkCategory).value[i].category == SeedCategory(ProjectRequirements[1].0)
    ensures forall i :: 0 <= i < |pairs| && pairs[i].category == ProjectRequirements[2].0 ==> RequirementLinks(pairs, LinkCategory).value[i].category == SeedCategory(ProjectRequirements[2].0)
  {
    SeedCategoriesOfCatalogue();
  }

  // ---------------------------------------------------------------- update_project_status

  /** The first project row with this id. */
  function FindPgProject(projects: seq<PgProject>, id: Uuid): (r: Option<nat>)
    ensures r.Some? ==> r.value < |projects| && projects[r.value].id == id
    ensures r.Some? ==> forall j :: 0 <= j < r.value ==> projects[j].id != id
    ensures r.None? <==> forall j :: 0 <= j < |projects| ==> projects[j].id != id
    decreases |projects|
  {
    if |projects| == 0 then None
    else if projects[0].id == id then Some(0)
    else
      var r := FindPgProject(projects[1..], id);
      assert forall j :: 1 <= j < |projects| ==> projects[1..][j - 1] == projects[j];
      if r.Some? then Some(r.value + 1) else None
  }

  datatype PgUpdateError =
    | BadProjectId
    | BadReviewerId
    | ProjectNotFound
    | BadStatus
    | MissingReviewer
    | UnknownReviewer
    | UpdatedRowRejected
    | SameStatus
    | NotReviewOutcome

  /** The project row after the update: the new status and `updated_at`; on approval both the
      approval and the published date become now, on rejection the reason replaces the
      rejection reason, and the reviewer becomes the last reviewer. */
  function Reviewed(p: PgProject, s: WorkflowStatus, reason: Option<string>, reviewer: Uuid, now: int): PgProject {
    p.(workflowStatus := s, updatedAt := now,
       approvalDate := if s == Approved then Some(now) else p.approvalDate,
       publishedDate := if s == Approved then Some(now) else p.publishedDate,
       rejectionReason := if s == Rejected then reason else p.rejectionReason,
       lastReviewedBy := Some(reviewer))
  }

  /** `reason or f"Status changed from {old} to {new}"` */
  function ReviewComment(reason: Option<string>, prior: WorkflowStatus, newStatus: string): string {
    if Given(reason) then reason.value else "Status changed from " + prior.Name() + " to " + newStatus
  }

  /** The checks the commit applies once the project is loaded: the reviewer is a user (the
      foreign keys of the history and review rows), the updated row passes its CHECKs, the
      history row changes the status and the review row carries a review outcome. */
  predicate StatusApplies(db: PgDb, k: nat, s: WorkflowStatus, reason: Option<string>, rid: Uuid, now: int, emailOk: string -> bool)
    requires k < |db.projects|
  {
    && UserExists(db, rid)
    && ProjectRowOk(Reviewed(db.projects[k], s, reason, rid, now), emailOk)
    && db.projects[k].workflowStatus != s
    && s.IsReviewOutcome()
  }

  /** The write of a loaded project `k`: the row updated, one history row and one review row
      appended. */
  function ApplyStatus(db: PgDb, k: nat, s: WorkflowStatus, newStatus: string, reason: Option<string>, rid: Uuid,
                       now: int, emailOk: string -> bool): (r: Result<PgDb, PgUpdateError>)
    requires k < |db.projects|
    ensures r.Ok? <==> StatusApplies(db, k, s, reason, rid, now, emailOk)
    ensures r.Ok? ==>
      var p := db.projects[k];
      && |r.value.projects| == |db.projects|
      && r.value.projects[k] == Reviewed(p, s, reason, rid, now)
      && (forall j :: 0 <= j < |db.projects| && j != k ==> r.value.projects[j] == db.projects[j])
      && r.value.history == db.history + [PgHistory(p.id, Some(p.workflowStatus), s, rid, reason, now)]
      && r.value.reviews == db.reviews + [PgReview(p.id, rid, s, ReviewComment(reason, p.workflowStatus, newStatus), now)]
      && r.value == db.(projects := r.value.projects, history := r.value.history, reviews := r.value.reviews)
  {
    var p := db.projects[k];
    var p' := Reviewed(p, s, reason, rid, now);
    if !UserExists(db, rid) then Err(UnknownReviewer)
    else if !ProjectRowOk(p', emailOk) then Err(UpdatedRowRejected)
    else if p.workflowStatus == s then Err(SameStatus)
    else if !s.IsReviewOutcome() then Err(NotReviewOutcome)
    else
      Ok(db.(projects := db.projects[k := p'],
             history := db.history + [PgHistory(p.id, Some(p.workflowStatus), s, rid, reason, now)],
             reviews := db.reviews + [PgReview(p.id, rid, s, ReviewComment(reason, p.workflowStatus, newStatus), now)]))
  }

  /** The project an update addresses, its target status and its reviewer, when the ids
      parse, the project exists, the status is a value of the enum and a reviewer is given. */
  function UpdateTarget(db: PgDb, projectId: string, newStatus: string, reviewerId: Option<string>): (r: Option<(nat, WorkflowStatus, Uuid)>)
    ensures r.Some? <==>
      && ParseUuid(projectId).Some? && FindPgProject(db.projects, ParseUuid(projectId).value).Some?
      && ParseWorkflowStatus(newStatus).Some? && Given(reviewerId) && ParseUuid(reviewerId.value).Some?
    ensures r.Some? ==>
      && r.value.0 < |db.projects| && db.projects[r.value.0].id == ParseUuid(projectId).value
      && r.value.1.Name() == newStatus && r.value.2 == ParseUuid(reviewerId.value).value
  {
    var pid := ParseUuid(projectId);
    var k := if pid.Some? then FindPgProject(db.projects, pid.value) else None;
    var s := ParseWorkflowStatus(newStatus);
    var rid := if Given(reviewerId) then ParseUuid(reviewerId.value) else None;
    if k.Some? && s.Some? && rid.Some? then
      StatusNamesRoundTrip(s.value, Planned);
      Some((k.value, s.value, rid.value))
    else None
  }

  /** `update_project_status`: parse the ids, load the project, set the new status and its
      dates, append one history row and one review row, and commit; any failure rolls the
      whole write back. Without a reviewer the history row has no `changed_by_user_id`, which
      the column refuses, so every committed update carries a reviewer. */
  function UpdateProjectStatus(db: PgDb, projectId: string, newStatus: string, reason: Option<string>,
                               reviewerId: Option<string>, now: int, emailOk: string -> bool): (r: Result<PgDb, PgUpdateError>)
    ensures UpdateTarget(db, projectId, newStatus, reviewerId).None? ==> r.Err?
    ensures (&& ParseUuid(projectId).Some? && FindPgProject(db.projects, ParseUuid(projectId).value).None?
             && !(Given(reviewerId) && ParseUuid(reviewerId.value).None?)) ==> r == Err(ProjectNotFound)
    ensures UpdateTarget(db, projectId, newStatus, reviewerId).Some? ==>
      var (k, s, rid) := UpdateTarget(db, projectId, newStatus, reviewerId).value;
      r == ApplyStatus(db, k, s, newStatus, reason, rid, now, emailOk)
  {
    match ParseUuid(projectId)
    case None => Err(BadProjectId)
    case Some(pid) =>
      if Given(reviewerId) && ParseUuid(reviewerId.value).None? then Err(BadReviewerId)
      else
        match FindPgProject(db.projects, pid)
        case None => Err(ProjectNotFound)
        case Some(k) =>
          match ParseWorkflowStatus(newStatus)
          case None => Err(BadStatus)
          case Some(s) =>
            if !Given(reviewerId) then Err(MissingReviewer)
            else ApplyStatus(db, k, s, newStatus, reason, ParseUuid(reviewerId.value).value, now, emailOk)
  }

  /** Without a reviewer no update commits, whatever the target status. */
  lemma UpdateNeedsReviewer(db: PgDb, projectId: string, newStatus: string, reason: Option<string>, now: int, emailOk: string -> bool)
    ensures UpdateProjectStatus(db, projectId, newStatus, reason, None, now, emailOk).Err?
    ensures UpdateProjectStatus(db, projectId, newStatus, reason, Some(""), now, emailOk).Err?
  {
  }

  /** A move to 'submitted' or 'in_review' never commits: its review row would carry a status
      that is not a review outcome. */
  lemma UpdateToPendingStatusFails(db: PgDb, projectId: string, to: WorkflowStatus, reason: Option<string>,
                                   reviewerId: Option<string>, now: int, emailOk: string -> bool)
    requires to == Submitted || to == InReview
    ensures UpdateProjectStatus(db, projectId, to.Name(), reason, reviewerId, now, emailOk).Err?
  {
    StatusNamesRoundTrip(to, Planned);
  }

  /** Applying a status to the project that already has it fails: its history row would not
      change the status. */
  lemma ApplySameStatusFails(db: PgDb, k: nat, s: WorkflowStatus, newStatus: string, reason: Option<string>, rid: Uuid,
                             now: int, emailOk: string -> bool)
    requires k < |db.projects| && db.projects[k].workflowStatus == s
    ensures ApplyStatus(db, k, s, newStatus, reason, rid, now, emailOk).Err?
  {
  }

  /** Applying the same update twice fails the second time. */
  lemma UpdateTwiceFails(db: PgDb, projectId: string, newStatus: string, reason: Option<string>,
                         reviewerId: Option<string>, now: int, later: int, emailOk: string -> bool)
    requires UpdateProjectStatus(db, projectId, newStatus, reason, reviewerId, now, emailOk).Ok?
    ensures var db' := UpdateProjectStatus(db, projectId, newStatus, reason, reviewerId, now, emailOk).value;
      UpdateProjectStatus(db', projectId, newStatus, reason, reviewerId, later, emailOk).Err?
  {
    var (k, s, rid) := UpdateTarget(db, projectId, newStatus, reviewerId).value;
    var db' := ApplyStatus(db, k, s, newStatus, reason, rid, now, emailOk).value;
    var pid := ParseUuid(projectId).value;
    assert FindPgProject(db'.projects, pid) == Some(k) by {
      assert forall j :: 0 <= j < k ==> db'.projects[j] == db.projects[j];
    }
    assert UpdateTarget(db', projectId, newStatus, reviewerId) == Some((k, s, rid));
    ApplySameStatusFails(db', k, s, newStatus, reason, rid, later, emailOk);
  }

  /** An approval stamps the approval and published dates with the same instant and keeps
      the rejection reason; a rejection records the reason given and keeps the dates. */
  lemma ApplyStampsOutcome(db: PgDb, k: nat, s: WorkflowStatus, newStatus: string, reason: Option<string>, rid: Uuid,
                           now: int, emailOk: string -> bool)
    requires k < |db.projects| && ApplyStatus(db, k, s, newStatus, reason, rid, now, emailOk).Ok?
    ensures var p := db.projects[k];
      var q := ApplyStatus(db, k, s, newStatus, reason, rid, now, emailOk).value.projects[k];
      && q.workflowStatus == s && q.updatedAt == now && q.lastReviewedBy == Some(rid)
      && (s == Approved ==> q.approvalDate == Some(now) && q.publishedDate == Some(now) && q.rejectionReason == p.rejectionReason)
      && (s == Rejected ==> q.rejectionReason == reason && q.approvalDate == p.approvalDate && q.publishedDate == p.publishedDate)
      && (s == ChangesRequested ==> q.rejectionReason == p.rejectionReason && q.approvalDate == p.approvalDate)
  {
  }

  /** Rows that keep their ids keep every id that exists. */
  lemma SameProjectIds(db: PgDb, db': PgDb)
    requires |db'.projects| == |db.projects|
    requires forall j :: 0 <= j < |db.projects| ==> db'.projects[j].id == db.projects[j].id
    ensures forall id :: ProjectExists(db, id) ==> ProjectExists(db', id)
  {
    forall id | ProjectExists(db, id)
      ensures ProjectExists(db', id)
    {
      var p :| p in db.projects && p.id == id;
      var j :| 0 <= j < |db.projects| && db.projects[j] == p;
      assert db'.projects[j] in db'.projects;
    }
  }

  /** Replacing a project row by one with the same id, slug, creator and junction rows that
      passes its own checks keeps the project constraints. */
  lemma ReplaceRowKeepsProjectsOk(db: PgDb, k: nat, q: PgProject, emailOk: string -> bool)
    requires k < |db.projects| && ProjectsOk(db, emailOk)
    requires var p := db.projects[k];
      q.id == p.id && q.slug == p.slug && q.createdBy == p.createdBy && q.regionId == p.regionId
      && q.sdgs == p.sdgs && q.typologies == p.typologies && q.requirements == p.requirements && q.images == p.images
    requires ProjectRowOk(q, emailOk) && (q.lastReviewedBy.Some? ==> UserExists(db, q.lastReviewedBy.value))
    ensures ProjectsOk(db.(projects := db.projects[k := q]), emailOk)
  {
    var db' := db.(projects := db.projects[k := q]);
    forall r | r in db'.projects
      ensures ProjectRowOk(r, emailOk) && ProjectKeysOk(db', r) && LinksOk(db', r)
    {
      var j :| 0 <= j < |db'.projects| && db'.projects[j] == r;
      if j != k {
        assert db.projects[j] in db.projects;
      } else {
        assert db.projects[k] in db.projects;
      }
    }
  }

  /** Appending audit rows that pass their checks, for projects and users that exist, keeps the
      audit constraints of a store whose project ids are kept. */
  lemma AppendKeepsAuditOk(db: PgDb, db': PgDb, h: PgHistory, v: PgReview)
    requires AuditOk(db) && db'.users == db.users
    requires |db'.projects| == |db.projects| && forall j :: 0 <= j < |db.projects| ==> db'.projects[j].id == db.projects[j].id
    requires db'.history == db.history + [h] && db'.reviews == db.reviews + [v]
    requires HistoryRowOk(h) && ProjectExists(db, h.projectId) && UserExists(db, h.changedBy)
    requires ReviewRowOk(v) && ProjectExists(db, v.projectId) && UserExists(db, v.reviewer)
    ensures AuditOk(db')
  {
    SameProjectIds(db, db');
  }

  /** A committed write keeps every constraint of the schema. */
  lemma ApplyPreservesConsistent(db: PgDb, k: nat, s: WorkflowStatus, newStatus: string, reason: Option<string>, rid: Uuid,
                                 now: int, emailOk: string -> bool)
    requires k < |db.projects| && Consistent(db, emailOk)
    requires ApplyStatus(db, k, s, newStatus, reason, rid, now, emailOk).Ok?
    ensures Consistent(ApplyStatus(db, k, s, newStatus, reason, rid, now, emailOk).value, emailOk)
  {
    var db' := ApplyStatus(db, k, s, newStatus, reason, rid, now, emailOk).value;
    var p := db.projects[k];
    var q := Reviewed(p, s, reason, rid, now);
    ReplaceRowKeepsProjectsOk(db, k, q, emailOk);
    assert db.projects[k] in db.projects;
    AppendKeepsAuditOk(db, db', db'.history[|db.history|], db'.reviews[|db.reviews|]);
    KeepTablesConsistent(db, db', emailOk);
  }

  /** A store that keeps the reference and user tables of a consistent one is consistent when
      its projects and audit rows are. */
  lemma KeepTablesConsistent(db: PgDb, db': PgDb, emailOk: string -> bool)
    requires Consistent(db, emailOk) && ProjectsOk(db', emailOk) && AuditOk(db')
    requires db'.regions == db.regions && db'.sdgs == db.sdgs && db'.nextSdgId == db.nextSdgId && db'.users == db.users
    ensures Consistent(db', emailOk)
  {
  }

  /** A committed status update keeps every constraint of the schema. */
  lemma UpdatePreservesConsistent(db: PgDb, projectId: string, newStatus: string, reason: Option<string>,
                                  reviewerId: Option<string>, now: int, emailOk: string -> bool)
    requires Consistent(db, emailOk)
    requires UpdateProjectStatus(db, projectId, newStatus, reason, reviewerId, now, emailOk).Ok?
    ensures Consistent(UpdateProjectStatus(db, projectId, newStatus, reason, reviewerId, now, emailOk).value, emailOk)
  {
    var (k, s, rid) := UpdateTarget(db, projectId, newStatus, reviewerId).value;
    ApplyPreservesConsistent(db, k, s, newStatus, reason, rid, now, emailOk);
  }

  // ---------------------------------------------------------------- queries

  /** The keyword arguments of `get_projects_by_filters` beyond the four filters: a centre
      (`near_lat`, `near_lon`), `radius_km`, `bounds` and `limit`, each `None` when absent. */
  datatype PgQuery = PgQuery(filters: Filters, near: Option<(real, real)>, radiusKm: Option<real>,
                             bounds: Option<seq<real>>, limit: Option<int>)

  /** The PostGIS predicates the query delegates to: `ST_DWithin(geolocation, point(lat,
      lon), metres)` and `ST_Within(geolocation, box(north, south, east, west))`. */
  datatype Geo = Geo(dwithin: (PgProject, real, real, real) -> bool, within: (PgProject, real, real, real, real) -> bool)

  /** `ST_DWithin` against a radius in kilometres, which the query turns into metres. */
  predicate Near(geo: Geo, p: PgProject, lat: real, lon: real, km: real) {
    geo.dwithin(p, lat, lon, km * 1000.0)
  }

  function PgProjectId(p: PgProject): Uuid { p.id }

  /** The rows every listing starts from: approved, not soft-deleted, and with a region row
      for the inner join. */
  predicate IsListed(db: PgDb, p: PgProject) {
    p.workflowStatus == Approved && p.deletedAt.None? && p.regionId in db.regions
  }

  /** The search radius used: `radius_km`, else the default. */
  function RadiusOf(q: PgQuery): real {
    q.radiusKm.GetOr(DefaultSearchRadiusKm)
  }

  /** The WHERE clause apart from the SDG join: listed, and each given filter AND-ed in. The
      region filter compares the joined region's name, the city is compared case-insensitively
      and `funded_by` is an `ILIKE '%term%'` on the organisation. */
  predicate PgMatches(db: PgDb, q: PgQuery, geo: Geo, p: PgProject) {
    && IsListed(db, p)
    && (Given(q.filters.region) ==> db.regions[p.regionId].name == q.filters.region.value)
    && (Given(q.filters.city) ==> EqualIgnoringCase(p.city, q.filters.city.value))
    && (Given(q.filters.fundedBy) ==> LikeMatch(p.organizationName, SubstringPattern(q.filters.fundedBy.value), true))
    && (q.near.Some? ==> Near(geo, p, q.near.value.0, q.near.value.1, RadiusOf(q)))
    && (q.bounds.Some? && |q.bounds.value| == 4 ==>
         geo.within(p, q.bounds.value[0], q.bounds.value[1], q.bounds.value[2], q.bounds.value[3]))
  }

  function Matching(db: PgDb, q: PgQuery, geo: Geo): PgProject -> bool {
    (p: PgProject) => PgMatches(db, q, geo, p)
  }

  /** The SDG filter of a project: it carries the goal, when one is asked for. */
  predicate SdgSelected(sdg: Option<int>, p: PgProject) {
    Truthy(sdg) ==> sdg.value in p.sdgs
  }

  function HasSdg(n: int): PgProject -> bool {
    (p: PgProject) => n in p.sdgs
  }

  /** `n` occurs at most once in a sequence without repeats. */
  lemma {:induction false} DistinctOccursOnce(s: seq<int>, n: int)
    requires Distinct(s)
    ensures Occurrences(s, n) <= 1
  {
    if |s| > 0 {
      assert Distinct(s[1..]) by {
        assert forall i :: 0 <= i < |s| - 1 ==> s[1..][i] == s[i + 1];
      }
      DistinctOccursOnce(s[1..], n);
      if s[0] == n {
        assert n !in s[1..] by {
          assert forall i :: 0 <= i < |s| - 1 ==> s[1..][i] == s[i + 1] && s[i + 1] != s[0];
        }
      }
    }
  }

  function Repeat(p: PgProject, k: nat): (r: seq<PgProject>)
    ensures |r| == k && forall i :: 0 <= i < k ==> r[i] == p
  {
    seq(k, _ => p)
  }

  /** `JOIN project_sdgs ... WHERE sdg_id = n`: each row once per matching junction row, in
      store order from index `from`. */
  function JoinSdg(ps: seq<PgProject>, n: int, from: nat): (r: seq<PgProject>)
    requires from <= |ps|
    ensures forall x :: x in r <==> exists i :: from <= i < |ps| && ps[i] == x && n in x.sdgs
    decreases |ps| - from
  {
    if from == |ps| then []
    else
      var rest := JoinSdg(ps, n, from + 1);
      var k := Occurrences(ps[from].sdgs, n);
      var here := Repeat(ps[from], k);
      assert k > 0 ==> here[0] == ps[from];
      assert forall x :: x in here <==> x == ps[from] && n in x.sdgs;
      here + rest
  }

  /** When no project repeats a goal the join adds no duplicates: it is the filter. */
  lemma {:induction false} JoinSdgIsFilter(ps: seq<PgProject>, n: int, from: nat)
    requires from <= |ps|
    requires forall i :: from <= i < |ps| ==> Distinct(ps[i].sdgs)
    ensures JoinSdg(ps, n, from) == Filter(ps[from..], HasSdg(n))
    decreases |ps| - from
  {
    if from < |ps| {
      JoinSdgIsFilter(ps, n, from + 1);
      DistinctOccursOnce(ps[from].sdgs, n);
      var t := ps[from..];
      assert t[0] == ps[from] && t[1..] == ps[from + 1..];
      if n in ps[from].sdgs {
        assert Repeat(ps[from], Occurrences(ps[from].sdgs, n)) == [ps[from]];
      } else {
        assert Repeat(ps[from], Occurrences(ps[from].sdgs, n)) == [];
      }
    }
  }

  /** Joining rows with distinct ids and no repeated goal keeps the ids distinct. */
  lemma JoinDistinct(ps: seq<PgProject>, n: int)
    requires DistinctBy(ps, PgProjectId) && forall i :: 0 <= i < |ps| ==> Distinct(ps[i].sdgs)
    ensures DistinctBy(JoinSdg(ps, n, 0), PgProjectId)
  {
    JoinSdgIsFilter(ps, n, 0);
    assert ps[0..] == ps;
    FilterDistinct(ps, HasSdg(n), PgProjectId);
  }

  /** The joined rows before the limit. */
  function QueryRows(db: PgDb, q: PgQuery, geo: Geo): (r: seq<PgProject>)
    ensures forall x :: x in r <==> x in db.projects && PgMatches(db, q, geo, x) && SdgSelected(q.filters.sdg, x)
  {
    var base := Filter(db.projects, Matching(db, q, geo));
    if Truthy(q.filters.sdg) then
      var r := JoinSdg(base, q.filters.sdg.value, 0);
      assert forall x :: x in r <==> x in base && q.filters.sdg.value in x.sdgs by {
        forall x | x in base
          ensures exists i :: 0 <= i < |base| && base[i] == x
        {
        }
      }
      r
    else base
  }

  /** `min(limit, MAX_QUERY_RESULTS)` */
  function QueryLimit(q: PgQuery): (n: int)
    ensures n <= MaxQueryResults
    ensures q.limit.None? ==> n == MaxQueryResults
    ensures q.limit.Some? ==> n == q.limit.value || n == MaxQueryResults
  {
    var l := q.limit.GetOr(MaxQueryResults);
    if l < MaxQueryResults then l else MaxQueryResults
  }

  /** `get_projects_by_filters`: the joined rows cut at the limit, in store order (the query
      has no ORDER BY). A negative limit makes PostgreSQL raise; the error is logged and the
      listing is empty. */
  function GetProjectsByFilters(db: PgDb, q: PgQuery, geo: Geo): (r: seq<PgProject>)
    ensures |r| <= MaxQueryResults && (QueryLimit(q) >= 0 ==> |r| <= QueryLimit(q))
    ensures forall x :: x in r ==> x in db.projects && PgMatches(db, q, geo, x) && SdgSelected(q.filters.sdg, x)
    ensures QueryLimit(q) < 0 ==> r == []
    ensures 0 <= QueryLimit(q) && |QueryRows(db, q, geo)| <= QueryLimit(q) ==>
      forall x :: x in db.projects && PgMatches(db, q, geo, x) && SdgSelected(q.filters.sdg, x) ==> x in r
  {
    var rows := QueryRows(db, q, geo);
    var lim := QueryLimit(q);
    if lim < 0 then []
    else if |rows| <= lim then rows
    else
      assert forall x :: x in rows[..lim] ==> x in rows;
      rows[..lim]
  }

  /** Every listed project is approved, not deleted, and passes each given filter. */
  lemma FilterResultsListed(db: PgDb, q: PgQuery, geo: Geo, x: PgProject)
    requires x in GetProjectsByFilters(db, q, geo)
    ensures x.workflowStatus == Approved && x.deletedAt.None?
    ensures Given(q.filters.city) ==> Lower(x.city) == Lower(q.filters.city.value)
    ensures Truthy(q.filters.sdg) ==> q.filters.sdg.value in x.sdgs
  {
  }

  /** On a consistent store no project is listed twice, even through the SDG join. */
  lemma FilterResultsDistinct(db: PgDb, q: PgQuery, geo: Geo, emailOk: string -> bool)
    requires ProjectsOk(db, emailOk)
    ensures DistinctBy(GetProjectsByFilters(db, q, geo), PgProjectId)
  {
    var base := Filter(db.projects, Matching(db, q, geo));
    assert DistinctBy(db.projects, PgProjectId);
    FilterDistinct(db.projects, Matching(db, q, geo), PgProjectId);
    var rows := QueryRows(db, q, geo);
    if Truthy(q.filters.sdg) {
      forall i | 0 <= i < |base| ensures Distinct(base[i].sdgs) {
        assert base[i] in db.projects;
      }
      JoinDistinct(base, q.filters.sdg.value);
    }
    assert DistinctBy(rows, PgProjectId);
    var r := GetProjectsByFilters(db, q, geo);
    if QueryLimit(q) >= 0 && |rows| > QueryLimit(q) {
      assert forall i :: 0 <= i < |r| ==> r[i] == rows[i];
    }
  }

  /** The funded-by filter is containment up to case, for a term without `%`, `_` or `\`, and
      PostgreSQL accepts its pattern whatever the term. */
  lemma FundedByIsSubstring(db: PgDb, q: PgQuery, geo: Geo, x: PgProject)
    requires Given(q.filters.fundedBy)
    ensures WellFormedPattern(SubstringPattern(q.filters.fundedBy.value), true)
    ensures NoWildcards(q.filters.fundedBy.value, true) && PgMatches(db, q, geo, x) ==>
      ContainsIgnoringCase(x.organizationName, q.filters.fundedBy.value)
  {
    SubstringPatternWellFormed(q.filters.fundedBy.value);
    if NoWildcards(q.filters.fundedBy.value, true) {
      SubstringPatternMatch(x.organizationName, q.filters.fundedBy.value, true);
    }
  }

  /** Filters combine with AND: adding a city filter never adds a result. */
  lemma AddingCityFilterNarrows(db: PgDb, q: PgQuery, geo: Geo, city: string)
    requires !Given(q.filters.city)
    ensures var q' := q.(filters := q.filters.(city := Some(city)));
      forall x :: x in QueryRows(db, q', geo) ==> x in QueryRows(db, q, geo)
  {
  }

  /** `min(radius_km, MAX_SEARCH_RADIUS_KM)` */
  function ClampRadius(radiusKm: real): (r: real)
    ensures r <= MaxSearchRadiusKm
    ensures r == radiusKm || r == MaxSearchRadiusKm
  {
    if radiusKm < MaxSearchRadiusKm then radiusKm else MaxSearchRadiusKm
  }

  /** The query `get_projects_near_location` hands to the filtered listing. */
  function NearQuery(lat: real, lon: real, radiusKm: real): (q: PgQuery)
    ensures q.near == Some((lat, lon)) && RadiusOf(q) == ClampRadius(radiusKm)
  {
    PgQuery(NoFilters, Some((lat, lon)), Some(ClampRadius(radiusKm)), None, None)
  }

  /** `get_projects_near_location`: the filtered listing around a centre, with the radius
      clamped to the maximum. */
  function GetProjectsNearLocation(db: PgDb, lat: real, lon: real, radiusKm: real, geo: Geo): (r: seq<PgProject>)
    ensures |r| <= MaxQueryResults
  {
    GetProjectsByFilters(db, NearQuery(lat, lon, radiusKm), geo)
  }

  /** Every project near a centre is listed and lies within the clamped radius of it. */
  lemma {:induction false} NearLocationWithin(db: PgDb, lat: real, lon: real, radiusKm: real, geo: Geo, x: PgProject)
    requires x in GetProjectsNearLocation(db, lat, lon, radiusKm, geo)
    ensures IsListed(db, x) && Near(geo, x, lat, lon, ClampRadius(radiusKm))
  {
    NearResultsWithin(db, NearQuery(lat, lon, radiusKm), geo, x);
  }

  /** A query with a centre lists only rows within the radius it uses. */
  lemma {:induction false} NearResultsWithin(db: PgDb, q: PgQuery, geo: Geo, x: PgProject)
    requires q.near.Some? && x in GetProjectsByFilters(db, q, geo)
    ensures IsListed(db, x) && Near(geo, x, q.near.value.0, q.near.value.1, RadiusOf(q))
  {
    assert PgMatches(db, q, geo, x);
  }

  /** The search never reaches past the maximum radius, however large the request. */
  lemma NearRadiusClamped(radiusKm: real)
    ensures ClampRadius(radiusKm) <= MaxSearchRadiusKm
    ensures radiusKm <= MaxSearchRadiusKm ==> ClampRadius(radiusKm) == radiusKm
    ensures DefaultSearchRadiusKm <= MaxSearchRadiusKm
  {
  }

  /** The review queue: submitted, in review or changes requested, not deleted, with a region. */
  predicate IsPendingReview(db: PgDb, p: PgProject) {
    && (p.workflowStatus == Submitted || p.workflowStatus == InReview || p.workflowStatus == ChangesRequested)
    && p.deletedAt.None? && p.regionId in db.regions
  }

  function PendingIn(db: PgDb): PgProject -> bool {
    (p: PgProject) => IsPendingReview(db, p)
  }

  /** `ORDER BY submission_date` */
  function BySubmission(p: PgProject): int { p.submissionDate }

  /** `get_pending_reviews`: exactly the queue, oldest submission first. */
  function GetPendingReviews(db: PgDb): (r: seq<PgProject>)
    ensures forall x :: x in r <==> x in db.projects && IsPendingReview(db, x)
    ensures SortedBy(r, BySubmission)
    ensures |r| == Count(db.projects, PendingIn(db))
  {
    var rows := Filter(db.projects, PendingIn(db));
    SortByMembers(rows, BySubmission);
    CountIsFilterLength(db.projects, PendingIn(db));
    SortBy(rows, BySubmission)
  }
}
