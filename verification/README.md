# Atlas 3+3 — a Dafny model of the project registry's core

Atlas 3+3 is a registry of urban projects. Cities and organisations submit a project through a
form. Administrators review it: they approve and publish it, reject it, or ask for changes. A
public dashboard lists the published projects with filters, KPI widgets and a paged table. The
data lives in SQLite, or in PostgreSQL with PostGIS, behind one adapter interface. A migration
copies a SQLite registry into PostgreSQL.

This project models that core as pure Dafny functions over immutable stores and proves what its
code promises. There is one module per source file:

- `Constants` (src/constants.py): the catalogues and limits. These are the regions, the SDGs,
  the typologies, the requirement categories, the workflow statuses and their enum values, the
  page sizes, the field limits, the search radius and the typology and requirement codes.
- `Patterns`: `EMAIL_REGEX` and `URL_REGEX` of src/constants.py as explicit shapes, each with a
  scanner proved to accept exactly that shape.
- `Utils` (src/utils.py): form and coordinate validation, text clean-up, filename sanitising,
  grouping of requirements, map bounds, the KPI trend and pagination.
- `SqliteDb` (src/database.py): the SQLite store. It models the schema's constraints, project
  creation with its reference id, the status update with its history and review rows, the
  filtered, published and pending listings, and the KPI and admin metrics.
- `Adapter` (src/database_interface.py): the string-to-integer conversions the SQLite adapter
  makes, and the backend choice.
- `PgModels` (src/models_postgres.py): the PostgreSQL rows and every CHECK, UNIQUE and foreign
  key the schema declares, stated as consistency predicates.
- `PostgresDb` (src/database_postgres.py): reference-data seeding, slug generation, project
  creation, the status update, the filtered and near-location queries, and the review queue.
- `Migrations` (src/migrations.py): the readiness check, the reference, user and project steps,
  the junction and history copies, the full run and its summary.
- `SubmitPage`, `AdminPage`, `DashboardPage` (pages/3_submit.py, pages/4_admin.py,
  pages/2_dashboard.py): how each page turns widget values into store calls and what it shows,
  over the SQLite adapter (the default backend, src/config.py:66).
- `Text`, `Collections`, `Wrappers`, `Records`, `SqlText`: shared helpers. These are Python's
  string operations, sequence utilities, `Option`/`Result`, the row and form records, and SQL
  `LIKE`/`ILIKE` matching.

Clocks, generated UUIDs, the current year, the regular-expression engine where a page takes a
validator, and PostGIS's distance and containment tests are parameters of the functions that
use them.

The code has no workflow transition table and does not require a reason on rejection: any
status may follow any other, and the reason is optional. The model does the same.

## Model

| member | source | states |
|---|---|---|
| Constants.EnumValuesMatchStatuses | src/constants.py:85-103 | the keys of both enum mappings are exactly the entries of PROJECT_STATUSES and WORKFLOW_STATUSES, and each maps a status to its own spelling |
| Constants.ParseWorkflowStatus | src/constants.py:88 | a stored string denotes a workflow status exactly when it is listed in WORKFLOW_STATUSES, and then the status is the one spelled that way |
| Constants.ParseProjectStatus | src/constants.py:85 | a stored string denotes a project stage exactly when it is listed in PROJECT_STATUSES, and then the stage is the one spelled that way |
| Constants.StatusNamesRoundTrip | src/constants.py:85-88 | every status and stage is listed under its name and parses back to itself |
| Constants.StatusColor | src/constants.py:121-130 | a status name has a badge colour exactly when it is a project stage or a workflow status, and every colour is a `#RRGGBB` hex code |
| Constants.RegionName | src/constants.py:6-12 | a region id has a name exactly when it is 1 to 5, and the name is the one listed under that id |
| Constants.SdgByNumber | src/constants.py:15-33 | a goal number is known exactly when it is 1 to 17, and the entry found carries that number and a valid hex colour |
| Constants.SdgTableWellFormed | src/constants.py:15-33 | the SDG table has 17 entries numbered 1 to 17 in order, each with a valid hex colour |
| Constants.TypologyCodeFor | src/constants.py:299-314 | a listed typology gets its own code, and any other name (an "Other: ..." entry) gets "OTHER", which is itself a listed code |
| Constants.TypologyCodesCoverTypologies | src/constants.py:36-51 | TYPOLOGY_CODES has an entry for exactly the names in PROJECT_TYPOLOGIES |
| Constants.TypologyCodesDistinct | src/constants.py:299-314 | no two typologies share a code |
| Constants.RequirementCodeFor | src/constants.py:317-337 | a listed requirement option gets its own code, and free text gets "OTHER_CUSTOM", which is itself a listed code |
| Constants.RequirementCodesCoverRequirements | src/constants.py:54-82 | REQUIREMENT_CODES has an entry for exactly the options listed under some category of PROJECT_REQUIREMENTS |
| Constants.RequirementCodesDistinct | src/constants.py:317-337 | no two requirement options share a code |
| Constants.FundingCodesDistinct | src/constants.py:319-323 | the five funding options have pairwise different codes |
| Constants.GovernmentCodesDistinct | src/constants.py:326-330 | the five government options have pairwise different codes |
| Constants.OtherCodesDistinct | src/constants.py:333-336 | the four options of the "Other" category have pairwise different codes |
| PgModels.UuidText | src/database_postgres.py:314 | the canonical spelling of a UUID is 36 characters long |
| PgModels.ParseUuid | src/database_postgres.py:543-544 | an id is accepted exactly when, with every "urn:" and "uuid:" removed, the braces stripped from both ends and the hyphens dropped, 32 hexadecimal digits remain; the UUID is those digits lower-cased |
| PgModels.ParseUuidText | src/database_postgres.py:314 | the canonical spelling of a UUID parses back to the same UUID, so string ids handed out by the backend are found again |
| PgModels.ParseUuidUrn | src/database_postgres.py:543-544 | the URN spelling `urn:uuid:<canonical>` of a UUID parses to the same UUID |
| PgModels.CanonicalDigits | src/database_postgres.py:543-544 | the canonical spelling survives the prefix removal and brace strip, and its hyphen-free text is the UUID's 32 digits |
| PgModels.UuidTextHasNoU | src/database_postgres.py:314 | the canonical spelling holds no 'u', so "urn:" and "uuid:" never occur in it |
| PgModels.Hyphen | src/database_postgres.py:314 | two groups joined by one hyphen |
| PgModels.DropHyphen | src/database_postgres.py:543-544 | removing the hyphens of a hyphen-joined text keeps the hyphen-free first group and the rest without hyphens |
| PgModels.UnhyphenateAppend | src/database_postgres.py:543-544 | removing hyphens distributes over concatenation |
| PgModels.UnhyphenateHex | src/database_postgres.py:543-544 | a run of hex digits holds no hyphen to remove |
| PgModels.UnhyphenateText | src/database_postgres.py:543-544 | removing the hyphens of the canonical spelling gives the UUID's 32 hex digits |
| PgModels.BracelessText | src/database_postgres.py:543-544 | the canonical spelling holds no brace for the parser to strip |
| PgModels.LowerHexUnchanged | src/database_postgres.py:543-544 | lower-case hex digits are unchanged by lower-casing |
| PgModels.ParseRequirementCategory | src/models_postgres.py:36-39 | the enum column accepts exactly "funding", "government_regulatory" and "other", each denoting its own member |
| PgModels.CategoryFor | src/migrations.py:344-350 | a category text maps to funding exactly when it mentions "Funding" or "Financial", to government_regulatory exactly when it does not but mentions "Government" or "Regulatory", and to other in every remaining case |
| Records.KeptImageUrls | src/database.py:620-626 | the stored image URLs are as many as the non-blank inputs, each non-empty with no surrounding whitespace |
| Records.KeptImageUrlsStripsNonBlank | src/database.py:620-626 | the stored image URLs are exactly the non-blank inputs, each stripped, in input order |
| Records.StripEach | src/database.py:623 | each URL stripped, in order |
| Records.ComputeKpi | pages/2_dashboard.py:33-50 | the count is the number of listed projects; the distinct cities and countries are at least one each when anything is listed and at most the count; with no negative amounts, spent lies between 0 and needed; an empty listing gives all zeros |
| Records.SpentBoundedByNeeded | pages/2_dashboard.py:45-47 | with no negative amount, the total of Implemented projects' amounts lies between 0 and the total of all amounts, a missing amount counting as zero |
| Records.KpiFundingAdditive | pages/2_dashboard.py:45-47 | the needed and spent totals of two listings together are the sums of their separate totals |
| SqlText.SubstringPattern | src/database.py:506-508 | the `%term%` pattern is the term wrapped in one `%` on each side |
| SqlText.PercentMatchesAll | src/database_postgres.py:400 | the pattern `%` matches every string |
| SqlText.LiteralPrefixMatch | src/database_postgres.py:400 | against `t%` with a wildcard-free `t`, a string matches exactly when it starts with `t`, ignoring case |
| SqlText.LeadingPercent | src/database_postgres.py:400 | a leading `%` matches exactly when the rest of the pattern matches some suffix |
| SqlText.SubstringPatternMatch | src/database.py:506-508 | with a wildcard-free search term, `LIKE '%term%'` under lower-casing holds exactly when the text contains the term, ignoring case |
| SqlText.NoEscapeWellFormed | src/database_postgres.py:400 | a pattern without a backslash is always accepted |
| SqlText.PercentSuffixWellFormed | src/database_postgres.py:400 | a pattern ending in `%` is always accepted, whatever backslashes precede it |
| SqlText.SubstringPatternWellFormed | src/database_postgres.py:400 | every `%term%` pattern is accepted, so the organisation filter never raises on its pattern |
| Utils.ValidateEmail | src/utils.py:40-44 | an address is valid exactly when it is non-empty and matches the e-mail pattern |
| Utils.ValidateUrl | src/utils.py:46-50 | a URL is valid exactly when it is empty (URLs are optional) or matches the URL pattern |
| Utils.ValidateCoordinates | src/utils.py:52-66 | coordinates are valid exactly when both are absent or both lie in range; the message is empty exactly on success, and it names the missing half or the out-of-range latitude or longitude |
| Utils.ValidateFundingAmount | src/utils.py:68-76 | an amount is valid exactly when it is absent or lies between the minimum and the maximum funding amount; a rejection carries the funding-range message |
| Utils.ValidateTextLength | src/utils.py:78-82 | a text is accepted exactly when it is no longer than the limit; a rejection names the field and the limit |
| Utils.ValidateRequiredField | src/utils.py:84-88 | a value is accepted exactly when it is supplied (not None, not zero, not empty or whitespace-only text); a rejection is "<field> is required" |
| Utils.RequiredErrors | src/utils.py:95-111 | one "<field> is required" message per missing field, and every message names a missing field |
| Utils.LengthErrors | src/utils.py:118-131 | one message per over-long field |
| Utils.ImageUrlErrors | src/utils.py:153-155 | no image-URL error exactly when every URL is valid, and at most one error per URL |
| Utils.ValidateProjectForm | src/utils.py:90-157 | every missing required field is reported, and an empty SDG selection is reported |
| Utils.ValidateProjectFormSound | src/utils.py:90-157 | the validator reports no error exactly when the form is valid field by field: required fields supplied, e-mail valid, lengths within limits, coordinates and funding valid, an SDG chosen, every image URL valid |
| Utils.TruncateText | src/utils.py:193-197 | a text that fits comes back unchanged; a longer one is cut so that, with the suffix, it fits the limit and ends in the suffix |
| Utils.CleanString | src/utils.py:206-210 | the result is no longer than the input, is empty exactly when the input is blank, and has no whitespace at either end |
| Utils.CleanStringIdempotent | src/utils.py:206-210 | cleaning twice is cleaning once |
| Utils.PySlice | src/utils.py:379-382 | a slice with Python's clamping is never longer than the data or than its bounds allow, and with in-range bounds is the plain subsequence |
| Utils.TotalPages | src/utils.py:377 | the page count is at least one, the pages hold all the items, and no page beyond the first is wholly empty |
| Utils.PaginateData | src/utils.py:374-382 | the page count is at least one and covers the data; a page holds at most the page size; a page from 1 on holds the items of its own index range |
| Utils.PageBounds | src/utils.py:379-380 | consecutive pages start one page size apart, and pages from 1 on start at or after the first item |
| Utils.PagesReproduceData | src/utils.py:374-382 | concatenating the pages 1 to the page count gives back the data: nothing lost, nothing repeated |
| Utils.PagesPrefix | src/utils.py:379-382 | the first `m` pages laid end to end are the data up to the start of page `m + 1` |
| Utils.AddToGroupsCategories | src/utils.py:249-251 | adding a text keeps the categories distinct, and every category afterwards was there before or is the one added to |
| Utils.AddToGroupsLookup | src/utils.py:249-251 | adding a text grows the total by one, appends the text to its category's list (creating it when missing) and leaves every other category alone |
| Utils.TextsInSnoc | src/utils.py:246-251 | the texts filed under a category grow by the new text exactly when the new requirement is in that category |
| Utils.GroupRequirementsCorrect | src/utils.py:243-252 | grouping keeps the categories distinct, loses no text, and files under each category exactly its texts in input order, a missing category defaulting to "Other" |
| Utils.FilterEmptyValues | src/utils.py:297-299 | a key is kept exactly when its value is neither None nor the empty string, and kept values are unchanged |
| Utils.FilterEmptyValuesIdempotent | src/utils.py:297-299 | filtering twice is filtering once, and nothing empty is left |
| Utils.FalsyValuesKept | src/utils.py:299 | a zero and False survive the filter while None and "" go, unlike a truthiness test |
| Utils.CollapseUnderscores | src/utils.py:306 | the result has no doubled underscore, uses only characters of the input, starts like the input, and leaves a string without doubled underscores unchanged |
| Utils.SanitizeFilename | src/utils.py:301-307 | the result holds no unsafe character, no doubled underscore and no underscore at either end, and its characters other than `_` are exactly the input's safe characters other than `_`, in order |
| Utils.SanitizeIsSafe | src/utils.py:304-307 | replacing, collapsing and stripping leaves no unsafe character, no doubled underscore and no outer underscore |
| Utils.SanitizeKeepsSafeChars | src/utils.py:304-307 | the three steps keep every safe character other than `_`, in order |
| Utils.StripUnderscoresKeepsSafe | src/utils.py:307 | stripping outer underscores keeps a string free of doubled underscores and adds no character |
| Utils.ReplaceKeepsSafeChars | src/utils.py:304 | the replacement step keeps the safe characters other than `_` and turns every unsafe one into `_` |
| Utils.CollapseKeepsOtherChars | src/utils.py:306 | collapsing underscore runs leaves every other character in place |
| Utils.StripKeepsOtherChars | src/utils.py:307 | stripping outer underscores leaves every other character in place |
| Utils.SanitizedEmptyIffNothingKept | src/utils.py:301-307 | the result is empty exactly when the name holds no safe character other than `_` |
| Utils.SanitizeFilenameIdempotent | src/utils.py:301-307 | sanitising a sanitised name changes nothing |
| Utils.GetMapBounds | src/utils.py:277-295 | None exactly when no project has both coordinates; otherwise every located project lies strictly inside the bounds |
| Utils.MapBoundsTight | src/utils.py:289-294 | the south edge is some located project's latitude minus one degree and the north edge some located project's latitude plus one, so with the containment above they are the extreme latitudes moved out by one degree |
| Utils.MapBoundsTightLongitude | src/utils.py:289-295 | the west edge is some located project's longitude minus one degree and the east edge some located project's longitude plus one |
| Utils.CalculateKpiTrend | src/utils.py:360-372 | against a zero baseline the trend is (0, neutral); otherwise the reported percentage times the baseline's size is the change's size times 100, that is abs((current - previous) / previous) x 100; the direction is up or down exactly when the change has that sign relative to the baseline; neutral reports 0 |
| Utils.TrendSign | src/utils.py:365-370 | the percentage change is positive or negative exactly as the difference times the previous value is |
| Utils.TrendMagnitude | src/utils.py:365-370 | the size of `(d / p) * 100` is the size of `d` times 100 in units of the size of `p`, which is what `abs(change)` reports |
| SqliteDb.ValidDistinctIds | src/database.py:60 | in a valid store no two projects share an id, as AUTOINCREMENT guarantees |
| SqliteDb.FindProject | src/database.py:638-639 | the position found holds the first project with that id, and nothing is found exactly when no project has the id |
| SqliteDb.FindUserByEmail | src/database.py:580-581 | the user found has the e-mail, and none is found exactly when no user has it |
| SqliteDb.GetProjectById | src/database.py:423-478 | the project found is stored and has the id, and None comes back exactly when no stored project has it |
| SqliteDb.SdgSeeds | src/database.py:178-200 | the SDG seed rows are the 17 catalogue goals in order, numbers as ids |
| SqliteDb.RegionSeedsMatchCatalogue | src/database.py:165-171 | the region seed rows carry the catalogue's five region names under the catalogue's ids |
| SqliteDb.InsertOrIgnore | src/database.py:173-175 | `INSERT OR IGNORE` leaves the table alone when the key or a UNIQUE column is taken, and otherwise adds the row |
| SqliteDb.InsertAllOrIgnore | src/database.py:173-175 | inserting a list of rows this way keeps every existing row, and every new row is one of the listed ones |
| SqliteDb.InsertAllBlocksEveryRow | src/database.py:173-175 | afterwards every listed row is blocked: its key or a UNIQUE value is present |
| SqliteDb.InsertAllWhenBlocked | src/database.py:173-175 | when every listed row is already blocked, the insert changes nothing |
| SqliteDb.PopulateReferenceData | src/database.py:159-203 | seeding keeps every existing region and SDG row and touches no other table |
| SqliteDb.PopulateIdempotent | src/database.py:159-203 | seeding twice gives the same store as seeding once |
| SqliteDb.PopulateEmptySdgs | src/database.py:178-200 | seeding an empty SDG table gives exactly the ids 1 to 17 |
| SqliteDb.InsertAllFromEmpty | src/database.py:198-200 | rows numbered 1 to n inserted into an empty table with no UNIQUE column give exactly the keys 1 to n |
| SqliteDb.ReferenceId | src/database.py:572 | the reference id is "ATLAS-2025-" followed by at least six digits that denote the sequence number |
| SqliteDb.PaddedNumber | src/database.py:572 | zero-padding to six places keeps the rendering all digits and its value the number |
| SqliteDb.LeadingZerosValue | src/database.py:572 | leading zeros do not change the value of a digit string |
| SqliteDb.ZerosValue | src/database.py:572 | a run of zeros is a digit string of value 0 |
| SqliteDb.ReferenceIdInjective | src/database.py:570-572 | different sequence numbers give different reference ids |
| SqliteDb.UpsertUser | src/database.py:575-581 | an existing user with the contact e-mail is reused unchanged; otherwise one new user with the form's organisation and contact person is appended under the next id |
| SqliteDb.StoredImages | src/database.py:624-626 | each kept URL becomes one non-primary image row, in order |
| SqliteDb.CreateProject | src/database.py:564-630 | fails exactly when the project status breaks its CHECK, the reference id is taken, or an SDG repeats (the junction's primary key); otherwise appends one project under the next id and reference id with status 'submitted', the form's details, SDGs, typologies and requirements, the non-blank image URLs stripped, in order and not primary, owned by the upserted user, and changes no other table |
| SqliteDb.CreateProjectOwner | src/database.py:575-581 | afterwards the new project's owner is a user with the contact e-mail, and an existing user is reused without adding a row |
| SqliteDb.CreateProjectPreservesValid | src/database.py:564-630 | creating a project keeps ids increasing, e-mails unique and every constraint intact |
| SqliteDb.AppendProjectValid | src/database.py:60 | appending a row under the next id keeps the project table valid |
| SqliteDb.UpsertUserValid | src/database.py:47-49 | the upsert keeps user ids increasing and e-mails unique |
| SqliteDb.CreateProjectKeepsNumbering | src/database.py:570-572 | in a store whose n-th project carries reference n, a well-formed submission succeeds and the numbering continues |
| SqliteDb.AppendKeepsNumbering | src/database.py:570-572 | appending the project numbered one past the end keeps the n-th project numbered n |
| SqliteDb.NextReferenceFree | src/database.py:570-572 | in such a store the next reference id is not in use |
| SqliteDb.UpdateProjectStatus | src/database.py:632-663 | fails exactly when the project is unknown, the status breaks the workflow CHECK, or a reviewer is given for a status outside the review CHECK; otherwise sets the status and `updated_at` of that one row, appends one history row from the old status to the new one, and a review row exactly when a reviewer is given, leaving the other tables alone |
| SqliteDb.AnyTransitionApplies | src/database.py:641-653 | there is no transition table: any status can follow any status when no reviewer is given, and the history row records both |
| SqliteDb.ReviewerNeedsOutcome | src/database.py:144 | a reviewer-attributed move to a status that is not approved, rejected or changes_requested fails as a whole |
| SqliteDb.UpdateProjectStatusPreservesValid | src/database.py:632-663 | a status update keeps the store valid and the reference numbering intact |
| SqliteDb.GetAllPublishedProjects | src/database.py:409-421 | the listing holds exactly the approved projects, newest first |
| SqliteDb.GetProjectsByFilters | src/database.py:480-514 | the listing holds exactly the approved projects that meet every given filter (region name, SDG, city ignoring case, organisation containing the term), newest first |
| SqliteDb.FilterResultsDistinct | src/database.py:485 | DISTINCT lists no project twice, whatever the SDG join produces |
| SqliteDb.NoFiltersIsAllPublished | src/database.py:480-514 | with no filter the listing is exactly the published listing, in the same order |
| SqliteDb.AddingCityFilterNarrows | src/database.py:502-504 | adding a city filter never adds a result |
| SqliteDb.FundedByIsSubstring | src/database.py:506-508 | with a wildcard-free term, the funded-by filter keeps an approved project exactly when its organisation contains the term, ignoring case |
| SqliteDb.GetPendingReviews | src/database.py:665-677 | the queue holds exactly the submitted, in-review and changes-requested projects, oldest first |
| SqliteDb.RowsOf | src/database.py:530-535 | one KPI row per listed project, in order |
| SqliteDb.GetKpiMetrics | src/database.py:516-536 | the count is the number of filtered projects, needed and spent are the totals over them, and with no negative amount stored spent lies between 0 and needed |
| SqliteDb.GetAdminMetrics | src/database.py:679-716 | pending counts the submitted and in-review projects; approved and rejected this month count the projects in that status last updated on or after the month's first day; published counts the approved projects; the average review time is the fixed "2.3 days" |
| SqliteDb.PendingMetricOmitsChangesRequested | src/database.py:685 | the pending metric and the changes-requested projects together make up the review queue |
| SqliteDb.PendingMetricAgainstQueue | src/database.py:685 | the pending figure plus the changes-requested projects is the review queue's length |
| Adapter.GetProjectById | src/database_interface.py:195-201 | a string that `int()` does not read gives None instead of an exception; a project found is stored under the id the string reads as, and a stored id is always found |
| Adapter.StoredProjectFound | src/database.py:423-478 | in a valid store a stored project is found by its own id |
| Adapter.DecimalIdFindsProject | src/database_interface.py:195-201 | the decimal spelling of a stored project's id finds that project |
| Adapter.UpdateProjectStatus | src/database_interface.py:211-218 | an unreadable project or reviewer id, or an unknown project, is logged and swallowed; every other backend failure propagates; a committed call is exactly the backend's update with the converted ids |
| Adapter.AppliedAppendsOneHistoryRow | src/database_interface.py:211-218 | a committed call appended exactly one history row with the new status and the converted reviewer, and a review row exactly when that reviewer is non-zero |
| Adapter.DecimalArgumentsParse | src/database_interface.py:214-215 | `int()` reads an integer id and reviewer back, and a missing reviewer stays None |
| Adapter.DecimalUpdateOutcome | src/database_interface.py:211-218 | with integer arguments the call passes the backend's result on: committed, swallowed for an unknown project, raised otherwise |
| Adapter.UpdateKeepsValid | src/database_interface.py:211-218 | whatever the outcome, the store stays valid |
| Adapter.BulkStep | src/database_interface.py:308-319 | an update without a project id or a status does nothing; otherwise the count grows by at most one, and by exactly one when the call cannot raise; the store stays valid |
| Adapter.BulkUpdateProjects | src/database_interface.py:305-321 | the count never exceeds the updates carrying an id and a status, equals it when none of them can raise, is 0 with nothing changed when none carries both, and the store stays valid |
| Adapter.DetailSdgs | src/database.py:423-478 | the SDG ids reported for a project are all rows of the SDG table |
| Adapter.TaggedSdgs | src/database_interface.py:234-237 | every SDG id reported over the listing is a row of the SDG table |
| Adapter.TallyFrom | src/database_interface.py:237-247 | counting ids keeps the keys in first-seen order, appends new keys at the end, and adds each id's occurrences to its count |
| Adapter.Entries | src/database_interface.py:240-249 | one entry per key in key order, named and coloured from the SDG row, carrying the key's count |
| Adapter.Distribution | src/database_interface.py:232-249 | one entry per distinct reported id, exactly the ids reported, each named and coloured from its SDG row and counting its occurrences, at least one |
| Adapter.OccurrencesFilterKept | src/database_interface.py:236-237 | filtering by a property the id has keeps all its occurrences |
| Adapter.NoDuplicatesOccurrences | src/database.py:88 | a list without repeats holds each id at most once |
| Adapter.TaggedOccurrences | src/database_interface.py:234-247 | in a valid store an SDG is reported once per listed project tagged with it |
| Adapter.SdgDistributionCounts | src/database_interface.py:229-249 | in a valid store each SDG's count is the number of filtered projects tagged with it, and an SDG has an entry exactly when some filtered project carries it |
| Adapter.DistributionCounts | src/database_interface.py:232-249 | the same holds for any listing of stored projects |
| Adapter.AddToRegion | src/database_interface.py:267-275 | one project adds one to its region's count and its amount (0 when missing) to the region's needed total, and to the spent total when Implemented; other regions and all names stay |
| Adapter.AccumulateFunding | src/database_interface.py:267-275 | the loop adds, per region, the count of listed projects in it and the sums of their needed and spent amounts |
| Adapter.GetFundingByRegion | src/database_interface.py:251-277 | five entries in key order, named from UIA_REGIONS, each counting the filtered projects of that region and summing their needed and Implemented amounts |
| Adapter.RegionCountsPartition | src/database_interface.py:268-269 | each project falls in at most one region, and in one exactly when its region id is known |
| Adapter.FundingCountsSum | src/database_interface.py:267-275 | the five regional counts add up to the filtered projects with a known region |
| Adapter.FundingSpentBounded | src/database_interface.py:271-275 | with no negative amount stored, each region's spent total lies between 0 and its needed total |
| Adapter.RegionSpentBounded | src/database_interface.py:271-275 | with no negative amount, one region's spent sum lies between 0 and its needed sum |
| Adapter.RegionRows | src/database_interface.py:287-290 | one row per region, in order, keeping id and name, with a code starting "SECTION_" |
| Adapter.RegionCodesDecode | src/database_interface.py:288 | what follows "SECTION_" reads back as the region id, so different ids give different codes |
| Adapter.GetUiaRegions | src/database_interface.py:285-290 | five rows, ids 1 to 5 in order, named as UIA_REGIONS names them |
| Adapter.UiaRegionCodesDistinct | src/database_interface.py:288 | the five codes read back as their ids and are pairwise different |
| Adapter.GetCachedDatabase | src/database_interface.py:350-355 | an instance is built only when none is cached; afterwards the cache holds the instance returned |
| Adapter.ResetDatabaseCache | src/database_interface.py:357-360 | a reset empties the cache |
| Adapter.CachedInstanceStable | src/database_interface.py:350-355 | until a reset, a later call returns the instance the first call cached |
| Adapter.ResetRebuilds | src/database_interface.py:357-360 | after a reset the next call returns a freshly built instance |
| PostgresDb.PgRegionSeedsMatchCatalogue | src/database_postgres.py:100-106 | the five region seeds carry the catalogue's names under ids 1 to 5 |
| PostgresDb.PgSdgSeedsNumbered | src/database_postgres.py:120-138 | the SDG seeds are the 17 goals numbered 1 to 17 in order, each passing the table's number and colour checks |
| PostgresDb.AddMissing | src/database_postgres.py:108-117 | inserting rows whose key is absent keeps every existing row, makes every seed key present, and adds only seed keys |
| PostgresDb.AddMissingPresent | src/database_postgres.py:109-110 | when every seed key is present nothing is inserted |
| PostgresDb.AddMissingSdgs | src/database_postgres.py:140-152 | the SDG loop succeeds whenever the serial is ahead of every existing id, keeps existing rows, and draws new ids from the serial only |
| PostgresDb.AddMissingSdgsCovers | src/database_postgres.py:140-152 | after the SDG loop every seed's goal number is present |
| PostgresDb.AddMissingSdgsPresent | src/database_postgres.py:141-142 | when every goal number is present the SDG loop inserts nothing and leaves the serial alone |
| PostgresDb.SeedTables | src/database_postgres.py:95-189 | seeding fails, and is rolled back, exactly when a new region breaks a width or range check or repeats a region code, or an SDG id is taken; otherwise no user, project or audit row changes |
| PostgresDb.SeedTablesCovers | src/database_postgres.py:108-181 | after seeding every seed's key is present and no existing reference row has changed |
| PostgresDb.SeedTablesCoverRegionRange | src/database_postgres.py:108-117 | seeds keyed 1 to n leave regions 1 to n present, existing regions and SDGs unchanged |
| PostgresDb.SeedTablesCoverSdgRange | src/database_postgres.py:140-152 | SDG seeds numbered 1 to n leave goal numbers 1 to n present |
| PostgresDb.SeedTablesCoverCodes | src/database_postgres.py:154-181 | every typology and requirement code some seed carries is present after seeding |
| PostgresDb.SeedTablesIdempotent | src/database_postgres.py:95-189 | seeding a store that seeding produced succeeds and changes nothing |
| PostgresDb.PopulateAsWrittenRejectsRegionThree | src/models_postgres.py:47 | against the declared `String(10)` region code, seeding a store without region 3 always fails, because "SECTION_III" has 11 characters |
| PostgresDb.PopulateFreshSucceeds | src/database_postgres.py:95-189 | with a wide enough code column, seeding a store with no regions succeeds |
| PostgresDb.TypologySeedsCover | src/database_postgres.py:155-164 | the typology seeds carry every code of TYPOLOGY_CODES |
| PostgresDb.SeedsOfCoded | src/database_postgres.py:171-172 | one category's requirement seeds carry, one by one, the codes of its options |
| PostgresDb.CodedConcat | src/database_postgres.py:168-172 | the seeds of consecutive categories carry the codes of their options in order |
| PostgresDb.RequirementSeedsInOrder | src/database_postgres.py:166-181 | the requirement seeds follow the listed options in order, each keyed by its own code |
| PostgresDb.RequirementSeedsCover | src/database_postgres.py:166-181 | the requirement seeds carry every code of REQUIREMENT_CODES |
| PostgresDb.PopulateIdempotent | src/database_postgres.py:95-189 | populating a second time changes nothing |
| PostgresDb.SeedCategoriesOfCatalogue | src/database_postgres.py:169 | the three display categories seed as funding, government_regulatory and other, in agreement with the migration's keyword rule |
| PostgresDb.DropSpaces | src/database_postgres.py:927 | dropping leading whitespace leaves a suffix that does not start with whitespace |
| PostgresDb.CollapseSpaces | src/database_postgres.py:927 | turning whitespace runs into hyphens leaves only slug characters when the input held only slug characters and whitespace |
| PostgresDb.SlugBase | src/database_postgres.py:926-927 | the slug base holds only lower-case ASCII letters, digits and hyphens |
| PostgresDb.StripSubset | src/database_postgres.py:927 | stripping adds no character |
| PostgresDb.LowerHasNoUpper | src/database_postgres.py:926 | a lower-cased name holds no upper-case ASCII letter |
| PostgresDb.SuffixedInjective | src/database_postgres.py:933 | different counters give different suffixed slugs |
| PostgresDb.CandidatesCount | src/database_postgres.py:929-934 | the first n suffixed slugs are n distinct strings |
| PostgresDb.SomeSuffixFree | src/database_postgres.py:932-934 | among the first "number of taken slugs plus one" suffixes at least one is free, so the loop ends |
| PostgresDb.FreeSuffixFrom | src/database_postgres.py:932-934 | the counter loop stops at the first free suffix, and every smaller counter was taken |
| PostgresDb.GenerateProjectSlug | src/database_postgres.py:923-936 | the slug is not taken; it is the base when the base is free, and otherwise the base with the smallest counter from 1 that is free |
| PostgresDb.LeastFreeSuffix | src/database_postgres.py:929-934 | the counter loop stops at some k >= 1 whose suffixed slug is free, with every counter from 1 below it taken |
| PostgresDb.Slugs | src/database_postgres.py:932 | every stored project's slug is among the taken slugs |
| PostgresDb.FindUser | src/database_postgres.py:448 | the user found has the e-mail, and none is found exactly when no user has it |
| PostgresDb.ImageRows | src/database_postgres.py:516-524 | each image row comes from a non-blank input at its display order, stored stripped, and display orders increase |
| PostgresDb.ImageRowsComplete | src/database_postgres.py:516-517 | every non-blank input gets an image row |
| PostgresDb.ImageRowsKeepUrls | src/database_postgres.py:516-524 | the stored image URLs are exactly the non-blank inputs stripped, in order, as the SQLite store keeps them |
| PostgresDb.PositionsKept | src/database_postgres.py:516-520 | stripping the inputs at the non-blank positions gives the kept URLs |
| PostgresDb.ImageUrls | src/database_postgres.py:520 | the URLs of the image rows, in order |
| PostgresDb.RequirementLinks | src/database_postgres.py:502-513 | each requirement becomes a link with its REQUIREMENT_CODES code ("OTHER_CUSTOM" for free text) and its enum category, and the whole fails exactly when some category is not an enum value |
| PostgresDb.PgReferenceId | src/database_postgres.py:529 | the reference id is "ATLAS-", the year, "-" and the first six hex digits of the project UUID, upper-cased |
| PostgresDb.PgReferenceIdSuffix | src/database_postgres.py:529 | the reference id ends in six upper-case hexadecimal digits |
| PostgresDb.CreateProjectWith | src/database_postgres.py:443-536 | fails on a bad project status, a missing region or coordinate, or a category outside the enum; on success appends one 'submitted' project, not yet approved, published or reviewed, under a fresh unique slug, owned by the existing or new submitter, with the SDGs, the coded typologies and requirements and the kept images, adds at most that user, touches no other table, and returns the reference id |
| PostgresDb.CreateAsWrittenRejectsDisplayCategory | src/database_postgres.py:506-511 | as written, a submission carrying a requirement under any of the form's display categories fails, because the display name is stored into the enum column |
| PostgresDb.CreateMapsDisplayCategory | src/models_postgres.py:36-39 | with the keyword mapping, requirement categories never fail the insert, and each display category is stored as the value the seeding gives it |
| PostgresDb.FindPgProject | src/database_postgres.py:546 | the position found holds the first project with the id, and nothing is found exactly when no project has it |
| PostgresDb.ApplyStatus | src/database_postgres.py:550-585 | the write commits exactly when the reviewer is a user, the updated row passes its checks, the status changes and it is a review outcome; then only that row changes, and one history row and one review row are appended |
| PostgresDb.UpdateTarget | src/database_postgres.py:543-548 | an update has a target exactly when both ids parse, the project exists, the status is an enum value and a reviewer is given |
| PostgresDb.UpdateProjectStatus | src/database_postgres.py:538-594 | without a target the update fails; an unknown project fails with "not found" when the reviewer id does not itself fail to parse; with a target it is exactly the write of that project |
| PostgresDb.UpdateNeedsReviewer | src/models_postgres.py:306 | without a reviewer, or with an empty one, no update commits, because the history row needs `changed_by_user_id` |
| PostgresDb.UpdateToPendingStatusFails | src/models_postgres.py:337 | a move to 'submitted' or 'in_review' never commits, because its review row would break the review-status check |
| PostgresDb.ApplySameStatusFails | src/models_postgres.py:315 | applying the status a project already has fails, because the history row must change the status |
| PostgresDb.UpdateTwiceFails | src/database_postgres.py:538-594 | repeating a committed update fails the second time |
| PostgresDb.ApplyStampsOutcome | src/database_postgres.py:553-563 | a committed write sets the status, the update time and the last reviewer; approval stamps the approval and published dates with the clock reading `now`, the one parameter that stands for the three `datetime.now` calls; rejection records the reason; other fields stay |
| PostgresDb.SameProjectIds | src/models_postgres.py:134-217 | rows that keep their ids keep every project id that exists |
| PostgresDb.ReplaceRowKeepsProjectsOk | src/models_postgres.py:134-217 | replacing a project row by one with the same keys and links that passes its checks keeps the project table consistent |
| PostgresDb.AppendKeepsAuditOk | src/models_postgres.py:298-342 | appending history and review rows that pass their checks, for existing projects and users, keeps the audit tables consistent |
| PostgresDb.ApplyPreservesConsistent | src/database_postgres.py:550-585 | a committed write keeps every constraint of the schema |
| PostgresDb.KeepTablesConsistent | src/models_postgres.py:41-342 | a store keeping the reference and user tables of a consistent store, with consistent projects and audit rows, is consistent |
| PostgresDb.UpdatePreservesConsistent | src/database_postgres.py:538-594 | a committed status update keeps every constraint of the schema |
| PostgresDb.DistinctOccursOnce | src/models_postgres.py:233 | a goal occurs at most once among a project's SDG rows |
| PostgresDb.Repeat | src/database_postgres.py:394 | a row repeated k times |
| PostgresDb.JoinSdg | src/database_postgres.py:394 | the join keeps exactly the rows carrying the goal |
| PostgresDb.JoinSdgIsFilter | src/database_postgres.py:394 | when no project repeats a goal the join adds no duplicate and is the filter on that goal |
| PostgresDb.JoinDistinct | src/database_postgres.py:394 | joining rows with distinct ids and no repeated goal keeps the ids distinct |
| PostgresDb.QueryRows | src/database_postgres.py:382-425 | before the limit, a row is listed exactly when it is approved, not deleted, has a region and passes each given filter |
| PostgresDb.QueryLimit | src/database_postgres.py:428 | the limit is never above MAX_QUERY_RESULTS, and is it when none is asked for |
| PostgresDb.GetProjectsByFilters | src/database_postgres.py:376-441 | never more than the limit; every listed row matches; a negative limit gives an empty listing; when the matches fit the limit, every match is listed |
| PostgresDb.FilterResultsListed | src/database_postgres.py:382-400 | every listed project is approved and not deleted, has the city asked for ignoring case, and carries the goal asked for |
| PostgresDb.FilterResultsDistinct | src/database_postgres.py:394 | on a consistent store no project is listed twice, even through the SDG join |
| PostgresDb.FundedByIsSubstring | src/database_postgres.py:399-400 | PostgreSQL accepts every `%term%` pattern, and with a wildcard-free term a match contains the term ignoring case |
| PostgresDb.AddingCityFilterNarrows | src/database_postgres.py:396-397 | adding a city filter never adds a row |
| PostgresDb.ClampRadius | src/database_postgres.py:757 | the radius used is the one asked for or the maximum, whichever is smaller |
| PostgresDb.NearQuery | src/database_postgres.py:759-763 | the query is centred on the location with the clamped radius |
| PostgresDb.GetProjectsNearLocation | src/database_postgres.py:754-763 | never more than MAX_QUERY_RESULTS projects |
| PostgresDb.NearLocationWithin | src/database_postgres.py:754-763 | every project found is listed and lies within the clamped radius of the centre |
| PostgresDb.NearResultsWithin | src/database_postgres.py:403-413 | a query with a centre lists only rows within its radius |
| PostgresDb.NearRadiusClamped | src/constants.py:289-290 | the search never reaches past the maximum radius, a radius within it is used as is, and the default lies within it |
| PostgresDb.GetPendingReviews | src/database_postgres.py:596-617 | the queue holds exactly the submitted, in-review and changes-requested projects that are not deleted and have a region, oldest submission first |
| Migrations.ValidateMigrationReadiness | src/migrations.py:74-121 | ready exactly when no issue is found, which is exactly when the source holds projects and the target is healthy and holds none; a non-empty target is reported with its count; at most three issues |
| Migrations.Word | src/migrations.py:537 | an occurrence of "failed" starts with the letters "fa" |
| Migrations.NoFaNoFailed | src/migrations.py:537 | a text without "fa" side by side does not contain "failed" |
| Migrations.CountEntryClean | src/migrations.py:187-188 | a "Migrated n …" entry, lowered, does not contain "failed" |
| Migrations.ReferenceDoneClean | src/migrations.py:143 | the reference step's entry does not mention "failed" |
| Migrations.MigrationDoneClean | src/migrations.py:457 | the final entry does not mention "failed" |
| Migrations.MentionsFailedExactly | src/migrations.py:537 | a log entry mentions "failed", ignoring case, exactly when it records a failed user or project step |
| Migrations.RunStepsAppend | src/migrations.py:442-447 | running two lists of steps back to back runs the second only when the first succeeded, on the first one's result |
| Migrations.StepsAfterFailureIgnored | src/migrations.py:443-445 | after a step fails the remaining steps do not matter |
| Migrations.MigrateReferenceData | src/migrations.py:123-149 | the step copies nothing; it succeeds exactly when there are at least 5 regions and 17 SDGs, and only then logs its entry |
| Migrations.SeedingCoversRegions | src/database_postgres.py:100-117 | after seeding succeeds, regions 1 to 5 are present |
| Migrations.SeedingCoversSdgs | src/database_postgres.py:120-152 | after seeding succeeds, goal numbers 1 to 17 are present |
| Migrations.ReferenceCompleteAfterSeeding | src/migrations.py:139-141 | the reference step's counts are met by any database seeding has filled |
| Migrations.UserRows | src/migrations.py:168-176 | one PostgreSQL user per SQLite user, in order, with its e-mail, contact person as full name and organisation, each drawing the next UUID |
| Migrations.UserRowsCons | src/migrations.py:168 | the user rows of a list are the first user's row followed by the rest's |
| Migrations.UserIdsCons | src/migrations.py:182 | the ids of a list are the first id and the rest's |
| Migrations.InsertUsersRows | src/migrations.py:168-184 | a completed user loop has appended one row per user, in order |
| Migrations.InsertUsersKeys | src/migrations.py:182 | a completed user loop has mapped every SQLite user id |
| Migrations.InsertUsersSucceeds | src/migrations.py:178-179 | the user loop completes exactly when each row passes its checks and is new in id and e-mail once the rows before it are in |
| Migrations.InsertUsersKeepsUsersOk | src/models_postgres.py:107-132 | the copied users keep the user table's checks and its unique ids and e-mails |
| Migrations.InsertUsersMapping | src/migrations.py:182 | with the distinct ids of a SQLite store, each user's id maps to the UUID of its own row |
| Migrations.KeptKey | src/migrations.py:182 | a mapped id that no later user carries keeps its UUID |
| Migrations.MigrateUsers | src/migrations.py:151-194 | an empty source succeeds with nothing logged and no mapping; a failure logs one failure entry and copies nobody; a success appends every user's row in one commit, maps every SQLite id and logs the count |
| Migrations.TruthyCoordinate | src/migrations.py:229-230 | as written, a coordinate is kept exactly when it is present and not zero |
| Migrations.KeptCoordinate | src/migrations.py:229-230 | a coordinate is kept exactly when it is present |
| Migrations.MigrationSlug | src/migrations.py:493-506 | the migration's slug is never taken |
| Migrations.MigrationSlugChoice | src/migrations.py:499-504 | the slug is the base cut to 80 characters when that is free, and otherwise the base cut to 70 with the smallest counter from 1 whose slug is free |
| Migrations.MigrationSlugAgreesWithCreate | src/migrations.py:493-506 | for slug bases of at most 70 characters the migration picks the slug project creation would |
| Migrations.MigratedFunding | src/migrations.py:231 | the funding is kept exactly when it is present and not zero |
| Migrations.ProjectRow | src/migrations.py:221-245 | a row is built exactly when the creator, both converted coordinates and the region are present and the status is an enum value |
| Migrations.ProjectRowCarries | src/migrations.py:221-240 | a built row carries the drawn id and slug, the creator and the source's name, e-mail, region, converted coordinates, status, workflow status, dates and funding, with no funding spent, no deletion, no review and no junction rows yet |
| Migrations.ProjectRowDates | src/migrations.py:243-245 | only approved rows get approval and published dates, both the update time, and they pass the dates CHECK exactly when the project was not updated before it was created |
| Migrations.KeptCoordinatesBuildRow | src/migrations.py:229-230 | with coordinates kept, a project at latitude or longitude 0 still gets a row carrying them |
| Migrations.Rows | src/migrations.py:247 | the rows of the flushed (source, row) pairs, in order |
| Migrations.Flush | src/migrations.py:247-255 | a flush spoils the session exactly when the row cannot be built or is rejected, and a spoilt flush adds nothing; otherwise the row is appended to both the database and the flushed pairs |
| Migrations.Pass | src/migrations.py:216-255 | without a user mapping, or in a spoilt session, a pass changes nothing |
| Migrations.FlushAll | src/migrations.py:216-255 | a spoilt session stays spoilt to the end of the loop |
| Migrations.RowsAppend | src/migrations.py:247 | the rows of two lists of pairs are the rows of each, back to back |
| Migrations.PrefixCompose | src/migrations.py:247 | prefixes compose, and what a longer prefix adds is the sum of the parts |
| Migrations.ProjectsCompose | src/migrations.py:247 | appending two lists of rows in turn appends their concatenation |
| Migrations.GrowsTransitive | src/migrations.py:216-255 | a session that grows twice has grown |
| Migrations.PassGrows | src/migrations.py:216-255 | one pass only grows the session |
| Migrations.FlushAllFrame | src/migrations.py:216-255 | the loop only grows the session: earlier pairs stay, the database gains exactly the new rows, and without a mapping or once spoilt nothing happens |
| Migrations.FlushAllRows | src/migrations.py:216-255 | every pair the loop flushes is a project of the input with a row its builder produced, and only with a mapping |
| Migrations.FlushAllComplete | src/migrations.py:216-257 | a loop that ends unspoilt has flushed every project, in order |
| Migrations.UnbuiltRowSpoils | src/migrations.py:252-257 | a project that gets no row spoils the session, so the commit raises, whatever the other projects are |
| Migrations.FlushAllKeeps | src/migrations.py:216-255 | a database invariant that every accepted row keeps holds after the loop |
| Migrations.UnbuildableGetsNoRow | src/migrations.py:221-248 | a project missing a NOT NULL column gets no row whatever the session holds |
| Migrations.BuiltRowsFromSource | src/migrations.py:221-240 | every row the loop builds is its project's row under the id and slug it drew |
| Migrations.BuiltRowFromSource | src/migrations.py:221-240 | a row built for a project is that project's row under its id and slug |
| Migrations.FlushKeepsProjectsOk | src/models_postgres.py:134-217 | appending a flushable row without junction rows keeps the project table's constraints |
| Migrations.AcceptedRowsKeepProjectsOk | src/migrations.py:247-248 | every row the database accepts during the loop keeps the project table's constraints |
| Migrations.AcceptedRowKeepsProjectsOk | src/migrations.py:247-248 | one accepted row keeps the project table's constraints |
| Migrations.ProjectMapping | src/migrations.py:251 | the project mapping has exactly the ids of the flushed projects |
| Migrations.Attach | src/migrations.py:278-391 | a copy attaches its rows to each migrated project, keeping the order |
| Migrations.Junction | src/migrations.py:278-300 | a junction copy keeps the number of migrated projects |
| Migrations.JunctionAllOrNothing | src/migrations.py:278-391 | a junction copy either keeps nothing, because some project's rows do not fit, or attaches every project's rows, each fitting |
| Migrations.MigratedLinks | src/migrations.py:329-364 | one requirement row per SQLite requirement |
| Migrations.MigratedImages | src/migrations.py:366-391 | one image row per SQLite image |
| Migrations.MigratedLinksAgreeWithCreate | src/migrations.py:339-350 | the migration codes and categorises requirements as project creation does once its category fix is in |
| Migrations.HistoryRows | src/migrations.py:398-413 | no more history rows than entries |
| Migrations.HistoryRowsComplete | src/migrations.py:401-413 | every entry whose project and author are mapped is copied with the new ids, its statuses, reason and time |
| Migrations.CopyHistory | src/migrations.py:393-420 | the history copy touches only the history table, and either adds nothing or, with a user mapping, adds exactly the copied rows |
| Migrations.CopyHistoryKeepsAuditOk | src/models_postgres.py:298-319 | the history copy keeps the audit tables' constraints |
| Migrations.SameStatusEntryDropsHistory | src/models_postgres.py:315 | one mapped entry from a status to itself makes the whole history copy fail and change nothing |
| Migrations.MigrateProjects | src/migrations.py:196-276 | an empty source succeeds with nothing logged; a failure logs one failure entry and keeps nothing; a success keeps the user mapping and logs exactly one count entry |
| Migrations.MigrationSteps | src/migrations.py:436-440 | the run has three steps |
| Migrations.RunThree | src/migrations.py:442-447 | the three steps run in turn, each on what the previous one left, up to the first that fails |
| Migrations.HonestCompose | src/migrations.py:442-447 | an honest success followed by an honest step is honest as a whole |
| Migrations.RunHonest | src/migrations.py:442-447 | when each step logs honestly, a run logs no failure when it succeeds and ends with a failure entry when it fails |
| Migrations.OneEntryHonest | src/migrations.py:186-194 | a step logging a clean entry or nothing on success and a failure entry on failure logs honestly |
| Migrations.UsersHonest | src/migrations.py:151-194 | the user step logs honestly |
| Migrations.ProjectsHonest | src/migrations.py:196-276 | the project step logs honestly |
| Migrations.LaterStepsReport | src/migrations.py:436-440 | the user and project steps log honestly on every state |
| Migrations.FinishedLogSummary | src/migrations.py:456-457 | after the reference step, the intended summary reports success exactly when the rest of the run succeeded |
| Migrations.RunThreeSucceeds | src/migrations.py:442-447 | three successful steps make a successful run ending in the last state |
| Migrations.SummarySuccessMatchesRun | src/migrations.py:422-463 | the intended summary reports success exactly when the full migration succeeded |
| Migrations.UserFailureReportedAsSuccess | src/migrations.py:537 | as written, a run whose user step failed is reported as a success, because the reference entry does not mention "failed" |
| Migrations.ZeroCoordinateFailsAsWritten | src/migrations.py:229-230 | as written, a project at latitude or longitude 0 makes the whole project step fail |
| Migrations.KeptCoordinatesBuildable | src/migrations.py:221-240 | with coordinates kept, a row is built exactly when the creator, the coordinates and the region are present and the status is an enum value |
| Migrations.CopyRelatedNothing | src/migrations.py:269-273 | with no migrated project and no user mapping the copies change nothing |
| Migrations.ProjectsUnmapped | src/migrations.py:237 | without a user mapping every project raises before it is added, and the step succeeds having migrated 0 projects |
| Migrations.NoUsersFirstSteps | src/migrations.py:161-163 | with no SQLite users the reference and user steps succeed, the latter without a log entry |
| Migrations.NoUsersLastStep | src/migrations.py:237 | then the project step succeeds having migrated 0 projects and changed nothing |
| Migrations.NoUsersSteps | src/migrations.py:436-447 | then the three steps succeed, logging only the reference entry and 0 projects |
| Migrations.NoUsersNoProjects | src/migrations.py:422-463 | a migration from a store without users reports success having copied nothing |
| Patterns.FirstIn | src/constants.py:174 | the first position in a range whose character stops the scan, or the range's end, with no stop before it |
| Patterns.LastWhere | src/constants.py:174 | the last position whose character satisfies the test, or none when no character does |
| Patterns.BeforeFinalNewline | src/constants.py:174 | what `$` lets the pattern see: the subject without one final newline |
| Patterns.ScanEmail | src/constants.py:174 | the scan at the first '@' and the last '.' accepts exactly the strings of the e-mail pattern's shape |
| Patterns.EmailSplitIsUnique | src/constants.py:174 | when a string has the e-mail shape, its '@' is the first one and its dot the last one |
| Patterns.EmailMatches | src/utils.py:44 | accepts exactly the strings `EMAIL_REGEX` matches |
| Patterns.EmailValidatorIsRegex | src/utils.py:40-44 | with the real pattern, e-mail validation accepts exactly what `EMAIL_REGEX` matches |
| Patterns.SchemeEnd | src/constants.py:177 | where "http://" or "https://" ends, which is unique, or 0 without a scheme |
| Patterns.UrlCuts | src/constants.py:177 | the scan's cut points for host, port, path, query and fragment are in order within the string |
| Patterns.PathCuts | src/constants.py:177 | the path and query cut points after a '/' are in order within the string |
| Patterns.ScanUrl | src/constants.py:177 | the scan at its cut points accepts exactly the strings of the URL pattern's shape |
| Patterns.SchemeEndUnique | src/constants.py:177 | at most one of the two schemes is a prefix |
| Patterns.UrlCutsAreCanonical | src/constants.py:177 | any split of a URL can be moved to the scan's cut points |
| Patterns.UrlSlashIsFirst | src/constants.py:177 | the host and port hold no '/', so the path starts at the first '/' after the scheme |
| Patterns.UrlHostPortCut | src/constants.py:177 | the host may as well run to the first ':' |
| Patterns.UrlPathCuts | src/constants.py:177 | the path ends at the first '?' or '#', and the query at the next '#' |
| Patterns.UrlMatches | src/utils.py:50 | accepts exactly the strings `URL_REGEX` matches |
| Patterns.UrlLastChar | src/constants.py:177 | a string of the URL shape never ends in a newline |
| Patterns.UrlValidatorIsRegex | src/utils.py:47-50 | with the real pattern, URL validation accepts the empty string and otherwise exactly what `URL_REGEX` matches, which never includes the empty string |
| Patterns.EmailExamples | src/constants.py:174 | a plain address matches, also with a final newline; one without a top-level domain does not |
| Patterns.UrlExample | src/constants.py:177 | a URL with host, port, path, query and fragment matches |
| Patterns.SchemelessUrlRejected | src/constants.py:177 | a URL without a scheme does not match |
| AdminPage.StatusCounts | pages/4_admin.py:98-101 | a status is counted exactly when some queued project has it, and every count is positive |
| AdminPage.StatusCountsAreCounts | pages/4_admin.py:98-101 | each status's count, zero when absent, is the number of queued projects with that status |
| AdminPage.StatusCountsSumToLength | pages/4_admin.py:98-101 | the counts of the five statuses add up to the length of the queue |
| AdminPage.CountAfterBump | pages/4_admin.py:101 | one increment raises the count of its status by one and leaves the others |
| AdminPage.Metrics | pages/4_admin.py:103-113 | the four metrics are the queue's length and its numbers of submitted, in-review and changes-requested projects |
| AdminPage.QueueMetricsAddUp | pages/4_admin.py:103-113 | over the pending queue the three status metrics add up to the total |
| AdminPage.PendingMetricsAddUp | pages/4_admin.py:103-113 | over any list of pending projects the three status metrics add up to the total |
| AdminPage.QueueStatusOptions | pages/4_admin.py:121-125 | the queue's status filter offers "All" first and then every workflow status but approved |
| AdminPage.EmptyTermMatches | pages/4_admin.py:139-144 | the empty search term occurs in every project, so it keeps every row |
| AdminPage.FilterQueue | pages/4_admin.py:133-144 | a queued project is shown exactly when it has the chosen status, or "All" is chosen, and its name or organisation contains the term, ignoring case |
| AdminPage.SearchIgnoresCase | pages/4_admin.py:139-144 | terms equal once lowered select the same rows |
| AdminPage.OfferedPagesAsWritten | pages/4_admin.py:154-158 | as written, the selector offers at least one page, and always more pages than the rows fill |
| AdminPage.LastOfferedPageEmptyAsWritten | pages/4_admin.py:154-160 | as written, when the rows fill whole pages, the last page offered is empty and one more page is offered than pagination counts |
| AdminPage.TwentyProjectsOfferEmptyPage | pages/4_admin.py:154-160 | as written, twenty queued projects make the selector offer page 2, which shows nothing |
| AdminPage.OfferedPages | pages/4_admin.py:154-158 | the corrected selector offers at least one page, enough pages for every row, and no page past the last row |
| AdminPage.OfferedPagesAgreeWithPaginate | pages/4_admin.py:160 | the corrected selector offers exactly the pages pagination counts |
| AdminPage.OfferedPageNonEmpty | pages/4_admin.py:160 | every page the corrected selector offers for a non-empty queue shows at least one project |
| AdminPage.QueuePage | pages/4_admin.py:160 | an offered page shows at most 20 of the filtered projects, and some when there are any |
| AdminPage.ReviewAction.Target | pages/4_admin.py:364-370 | every review action maps to one of the three review outcomes |
| AdminPage.NotesNeededExactly | pages/4_admin.py:356 | notes are required for every action but approval |
| AdminPage.ActionMapOneToOne | pages/4_admin.py:364-370 | the action map is one-to-one and reaches exactly the three review outcomes |
| AdminPage.HandleReviewAction | pages/4_admin.py:354-396 | the notes error is shown exactly when rejecting or requesting changes with blank notes; an error changes nothing; a success shows the action's completion message with the project's name |
| AdminPage.ReviewNeverRaises | pages/4_admin.py:373-396 | the update never raises, so once the notes rule is met the page always reports success |
| AdminPage.ReviewRecorded | pages/4_admin.py:373-378 | in a valid store, a review of a stored project sets the mapped status and appends one history row and one review row attributed to the admin and carrying the notes |
| AdminPage.StoredRowUpdate | src/database.py:632-663 | an update of a stored row of a valid store with a status the CHECKs accept commits: the row takes the status, one history row and, for a non-zero reviewer, one review row are appended, and the store stays valid |
| AdminPage.StoredRowFound | src/database.py:638-639 | in a valid store the id of a stored row finds that row |
| AdminPage.ReviewOfMissingProjectAnnounced | pages/4_admin.py:373-388 | a review of a project no longer stored changes nothing, yet the page announces it as complete |
| AdminPage.QuickActions | pages/4_admin.py:532-555 | in the intended search tab (as written the tab raises before any row is listed; see Findings): view and delete are always offered; quick approve exactly when the project is not approved; unpublish exactly when it is |
| AdminPage.ApplyQuickAction | pages/4_admin.py:532-555 | in the intended search tab: viewing and deleting write nothing |
| AdminPage.OneStatusButton | pages/4_admin.py:538-550 | in the intended search tab: exactly one of the two status buttons is offered |
| AdminPage.QuickActionWrites | pages/4_admin.py:540-550 | in the intended search tab: a status button on a stored row of a valid store sets its status, appends one history row with no reviewer and the fixed reason, writes no review, and keeps the store valid |
| AdminPage.QuickActionMovesRow | pages/4_admin.py:540-550 | in the intended search tab: quick approval publishes the row; unpublishing puts it back in the review queue and off the published list |
| AdminPage.UnpublishThenApprove | pages/4_admin.py:540-550 | in the intended search tab: unpublishing and then quick-approving a row brings back its approved status, with two history rows for the round trip |
| AdminPage.AdminStatusOptions | pages/4_admin.py:479-480 | the admin search's status filter offers "All" and then every workflow status |
| AdminPage.AdminSearch | pages/4_admin.py:476-499 | the listing of the intended search tab: a project is found exactly when it is stored and not rejected, its name, organisation or contact e-mail contains the term ignoring case, and it has the chosen status |
| AdminPage.AdminPool | pages/4_admin.py:485 | the published and pending lists together hold exactly the stored projects that are not rejected |
| AdminPage.RejectedFilterFindsNothing | pages/4_admin.py:485-499 | in the intended search tab: choosing "rejected" in the admin search never finds anything |
| AdminPage.RenderProjectSearchWith | pages/4_admin.py:470-499 | the tab raises, after drawing only the search and status boxes, exactly when the backend lacks `get_database` or the region query's join lacks a `region_name` column; the missing method is reported first; otherwise the listing is `AdminSearch` |
| AdminPage.SearchTabRaisesAsWritten | pages/4_admin.py:482 | against the backend the page holds, every run of the tab raises AttributeError once the status box is drawn, so no row and no quick-action button is ever shown |
| AdminPage.RenderProjectSearch | pages/4_admin.py:470-499 | the intended tab draws all its widgets and lists exactly the stored, non-rejected projects that match the term and the status choice |
| AdminPage.IntendedSearchNeedsBoth | pages/4_admin.py:482 | the page shows the intended tab exactly when the backend offers `get_database` and the join has a `region_name` column |
| DashboardPage.RegionOptions | pages/2_dashboard.py:97 | the region box offers "All Regions" first and then every region name in catalogue order |
| DashboardPage.SdgOptions | pages/2_dashboard.py:101 | the SDG box offers "All SDGs" first and then one "{number}. {name}" label per goal, in table order |
| DashboardPage.BeforeFirst | pages/2_dashboard.py:151 | the text before the first separator, or all of the text when it has none |
| DashboardPage.BeforeDotIsNumber | pages/2_dashboard.py:151 | the text before an SDG label's first "." is the goal number's digits |
| DashboardPage.SdgLabelParses | pages/2_dashboard.py:101-151 | every SDG label parses back to its goal number |
| DashboardPage.BuildFilters | pages/2_dashboard.py:145-170 | each key is set exactly when its box is off its "All" option, with the chosen value; the location key exactly when enabled and moved off (0, 0); the box key exactly when enabled, narrower than the world, and with north above south and east beyond west; no dict when the SDG choice has no number in front |
| DashboardPage.UntouchedBarIsEmpty | pages/2_dashboard.py:129-170 | the untouched filter bar gives the empty dict, whichever checkboxes are ticked |
| DashboardPage.BoxIsProper | pages/2_dashboard.py:166-168 | a box that reaches the dict is never inverted or empty |
| DashboardPage.OfferedSdgParses | pages/2_dashboard.py:101-152 | whatever is picked from the SDG box gives a goal number from 1 to 17 |
| DashboardPage.Listing | pages/2_dashboard.py:607-610 | an empty dict lists all published projects, any other the filtered query |
| DashboardPage.ListingIsFilteredQuery | src/database_interface.py:203-206 | the two branches agree: the listing is always the store's filtered query over the four named keys, holding exactly the stored projects that match |
| DashboardPage.GeoKeysIgnored | src/database_interface.py:203-206 | through the SQLite adapter the location and box keys change nothing |
| DashboardPage.SpentIsImplementedNeeded | pages/2_dashboard.py:47 | "funding spent" is the needed amount of the Implemented projects alone, nulls as zero |
| DashboardPage.DashboardKpi | pages/2_dashboard.py:33-50 | the widgets show the number of listed projects, their distinct cities and countries, the funding needed and the funding of the Implemented ones, all zero for an empty listing |
| DashboardPage.KpiMatchesStoreMetrics | src/database.py:516 | the widgets show what the store's own KPI query computes for the same filters |
| DashboardPage.SearchTable | pages/2_dashboard.py:436-441 | a row stays exactly when its name or organisation contains the term, ignoring case |
| DashboardPage.EmptySearchKeepsTable | pages/2_dashboard.py:436 | the empty term leaves the table as it is |
| DashboardPage.TablePageCount | pages/2_dashboard.py:450 | at least one page, enough pages for every row, and no page past the last row |
| DashboardPage.TablePage | pages/2_dashboard.py:454-456 | a page shows at most ten rows, those from its start to the next page's start |
| DashboardPage.TableAgreesWithPaginate | pages/2_dashboard.py:448-456 | the table pages exactly as pagination would with ten rows a page |
| DashboardPage.OfferedTablePageFilled | pages/2_dashboard.py:452-456 | every page offered for a non-empty table shows at least one row |
| DashboardPage.TablePagesCoverRows | pages/2_dashboard.py:448-456 | the offered pages, end to end, show every row exactly once and in order |
| SubmitPage.SelectedTypologies | pages/3_submit.py:202-234 | a typology is submitted exactly when it is checked and not "Other", or it is "Other: " and the typed description when "Other" is checked with a description |
| SubmitPage.BareOtherNeverSelected | pages/3_submit.py:210-224 | "Other" itself is never submitted as a typology |
| SubmitPage.SelectedRequirements | pages/3_submit.py:316-346 | no more requirement strings than checked boxes |
| SubmitPage.ParseRequirement | pages/3_submit.py:441-446 | a string is kept exactly when it contains ": ", and then splits at its first ": " into a category and text that join back to it |
| SubmitPage.ParseRequirements | pages/3_submit.py:441-446 | one requirement per string containing ": " |
| SubmitPage.SplitRoundTrip | pages/3_submit.py:443-444 | a colon-free category joined to any text by ": " splits back into the same pair |
| SubmitPage.CategoriesColonFree | src/constants.py:54-82 | the three requirement categories contain no colon |
| SubmitPage.RequirementsRoundTrip | pages/3_submit.py:322-344 | splitting the strings the requirements section builds gives back exactly the pairs the checked boxes stand for, in order |
| SubmitPage.UnseparatedDropped | pages/3_submit.py:443 | a string without ": " contributes nothing |
| SubmitPage.KeepImageUrls | pages/3_submit.py:438 | a URL is kept exactly when it is not blank |
| SubmitPage.PageFilterAgreesWithStore | src/database.py:620-626 | the store keeps the same URLs whether or not the page filtered them first |
| SubmitPage.BuildDraft | pages/3_submit.py:436-446 | the payload keeps the form's details, SDGs and typologies, the non-blank image URLs and one requirement per string containing ": " |
| SubmitPage.HandleFormSubmission | pages/3_submit.py:422-457 | the form is refused exactly when validation finds an error, and then shows validation's non-empty error list; a confirmation is the store's result for the payload |
| SubmitPage.ConfirmedStoresForm | pages/3_submit.py:449-450 | a confirmed submission stored one new 'submitted' project with the form's details, the split requirements and the kept image URLs, stripped, in order |

## Left out

- Text.Strip, Text.Lower, Text.IsSpace: ASCII-only. Python's `str.strip`/`str.lower` and PostgreSQL's `lower()` also handle non-ASCII whitespace and letters, so every contract that uses them (the city filter and the searches among them) holds for ASCII text only.
- Text.ParseInt: does not accept `_` digit separators or non-ASCII digits, both of which Python's `int()` accepts.
- Patterns.WordChar: `\w` is modelled by its ASCII members; Python's `re` also counts non-ASCII letters and digits.
- Utils.CalculateKpiTrend: computes over exact reals, not floating point, so rounding is not modelled.
- Adapter.AddToRegion: a missing amount adds 0. In the source the listing comes from `pd.read_sql` (src/database.py:512-514). Once some listed project has an amount, pandas reads a NULL amount as NaN. `NaN or 0` stays NaN, so that region's needed total, and its spent total if the project is Implemented, becomes NaN. The submit page stores None for a zero amount, so this case is common. Floating-point NaN is not modelled.
- Adapter.NeededIn: counts a missing amount as 0, not as the NaN described under Adapter.AddToRegion.
- Adapter.AccumulateFunding: sums with 0 for a missing amount; the source's NaN totals (see Adapter.AddToRegion) are not modelled.
- Adapter.GetFundingByRegion: reports finite totals where the source reports NaN for a region with a listed project that has no amount (see Adapter.AddToRegion).
- Adapter.FundingSpentBounded: the bound is proved for the model's totals, where a missing amount counts as 0. For a region whose source totals are NaN (see Adapter.AddToRegion), both comparisons are false, so the source does not keep the bound there.
- Adapter.RegionSpentBounded: as for Adapter.FundingSpentBounded, the bound holds of the zero-for-missing sums only, not of the source's NaN totals.
- Migrations.MigratedFunding: gives None for a missing amount. The source reads the projects with `pd.read_sql` (src/migrations.py:203-207), so a NULL amount in a column where some project has one arrives as NaN. NaN is truthy, so `float(x) if x else None` writes NaN, which the `>= 0` CHECK accepts (PostgreSQL orders NaN above every number).
- Migrations.TruthyCoordinate: gives None for a missing coordinate. For the same reason as Migrations.MigratedFunding, the source writes NaN when some other project has that coordinate.
- PgModels.ParseUuid: models the removal of "urn:" and "uuid:", the brace strip and the hyphen removal of `uuid.UUID`, but not the leniency of the `int(hex, 16)` call that follows the length check. That call also accepts surrounding whitespace, a leading '+', a '0x' prefix and '_' between digits, so a 32-character text such as "0x" followed by 30 hex digits denotes a UUID in the source and is rejected here.
- PgModels.ProjectRowOk: checks the coordinates as exact reals. The columns are `Numeric(10, 8)` and `Numeric(11, 8)` (src/models_postgres.py:154-155), so PostgreSQL rounds a coordinate to 8 decimals before the range CHECK runs. A latitude of 90.000000004 is stored as 90.00000000 and accepted by the source, and rejected here, in `PostgresDb.CreateProjectWith` and in `Migrations.Flush`. Rounding to the column scale, and the precision overflow error for too many integer digits, are not modelled.
- PgModels.PgUser: has no `role` or `is_active` column. The migration sets role 'admin' for an admin and 'submitter' otherwise, and is_active True (src/migrations.py:171-173). `create_project` sets role 'submitter' (src/database_postgres.py:453). No modelled operation reads either field.
- Migrations.UserRows: does not carry the role and is_active values the migration writes (see PgModels.PgUser).
- PostgresDb.ApplyStampsOutcome: the source reads `datetime.now` three times (src/database_postgres.py:553-558), so the update time, the approval date and the published date are successive instants. One clock parameter `now` stands for all three readings, so the model stamps them equal.
- Constants.MaxFundingAmount: money is whole dollars, so the bound 999999999.99 becomes 999999999 and cents are not modelled.
- Utils.PaginateData: requires a positive page size. The source raises ZeroDivisionError for 0; every caller passes 10 or 20.
- Migrations.SeedingCoversRegions, Migrations.SeedingCoversSdgs, Migrations.ReferenceCompleteAfterSeeding: use the corrected region-code width `PgModels.RegionCodeWidth` (20), not the declared `String(10)` (`PgModels.RegionCodeWidthAsWritten`). Under the declared width, seeding never succeeds on a database without region 3 (see Findings), so these lemmas would hold vacuously.
- PostgresDb.GetProjectsNearLocation: its own contract gives the result bound and, through `NearLocationWithin`, soundness. Completeness is stated only by `PostgresDb.GetProjectsByFilters`.
- DashboardPage.SearchTable: pandas `str.contains` treats the term as a regular expression; the model tests literal containment.
- DashboardPage.BuildFilters: where `int()` would raise on the SDG choice, the model gives `None`. Every offered choice parses (`OfferedSdgParses`).
- The dashboard's sort boxes, the admin queue's sort, the search button, the maps, the charts and the CSV/JSON export are not modelled. Sorting only reorders rows, and the rest is presentation.
- AdminPage.RenderProjectSearch: the region box's options are not modelled. As written the box is never drawn, because building its options raises (see Findings). In the intended tab the options would not filter anything: the page applies no region filter to the rows (pages/4_admin.py:485-499).
- The pages under the PostgreSQL backend (`ATLAS_DB_TYPE=postgresql`) are not modelled. There the admin page's `reviewer_id=1` and its integer project ids would reach `AtlasPostgreSQLDB`, which expects UUIDs. The pages are modelled over the default SQLite adapter only.
- The review checklist, the authentication stub and Streamlit's session state and rendering are presentation or page state.
- The exact exception texts in error messages and logs are not modelled. Failures are modelled as `Err`, `Failed` or the fixed prefix of a log entry.
- PostgreSQL's materialized views and their refresh, `get_admin_metrics`, `get_kpi_metrics`, the SDG distribution, the funding summary, the full-text search and the unique-value lists are not modelled. They are aggregate queries outside the write paths this model covers.
- The sample data, `setup_databases`, the connection pools, the health checks, `export_projects_data` and the `format_*` display helpers are I/O or presentation.
- Generating UUIDs, reading the clock and the PostGIS geometry functions are parameters, as noted above, and are not modelled further.
- The final result comparison (`_validate_migration_results`) and the view refresh after the three migration steps only log, so the model leaves them out of the run.

## Findings

| source | as written | input that shows it | evidently intended | confidence | as-written member | corrected member |
|---|---|---|---|---|---|---|
| src/database_postgres.py:506-511 | the requirement's display category ("Funding & Financial") is stored into the `requirement_category_enum` column | any submission with a requirement, e.g. category "Funding & Financial" | store the enum value the seeding gives that category (funding, government_regulatory, other) | not executed | PostgresDb.CreateAsWrittenRejectsDisplayCategory | PostgresDb.CreateMapsDisplayCategory |
| src/migrations.py:229-230 | `float(x) if x else None` turns a coordinate of exactly 0 into NULL, which the NOT NULL column rejects, failing the whole project step | a project at latitude 0.0 (on the equator) or longitude 0.0 | carry the coordinate over whenever it is present | not executed | Migrations.ZeroCoordinateFailsAsWritten | Migrations.KeptCoordinatesBuildRow |
| src/models_postgres.py:47 | `region_code` is `String(10)`, but seeding inserts "SECTION_III" (11 characters) | seeding a fresh database | a column wide enough for every seeded code | not executed | PostgresDb.PopulateAsWrittenRejectsRegionThree | PostgresDb.PopulateFreshSucceeds |
| src/migrations.py:537 | the summary reports success when some log entry does not mention "failed" | a run whose user step fails: log ["Reference data migration completed", "User migration failed: …"] | success exactly when the run succeeded: entries logged, none a failure | not executed | Migrations.UserFailureReportedAsSuccess | Migrations.SummarySuccessMatchesRun |
| pages/4_admin.py:154-158 | the page selector offers `n // 20 + 1` pages | 20 queued projects: page 2 is offered and shows nothing | offer exactly the pages `paginate_data` counts | not executed | AdminPage.TwentyProjectsOfferEmptyPage | AdminPage.OfferedPagesAgreeWithPaginate |
| pages/4_admin.py:482 | the region box's options are read through `db.get_database().execute(...)`, but the cached backend has no `get_database` attribute (it is a module-level function), and the query names a `region_name` column that no table has | any visit to the "Project Search" tab: AttributeError is raised after the status box, so no project is listed and no quick action is offered | read the region names through the backend's own interface and list the matching projects | not executed | AdminPage.SearchTabRaisesAsWritten | AdminPage.RenderProjectSearch |
