/** The SQLite adapter (AtlasDBAdapter, src/database_interface.py): it converts string ids to
    integers before delegating, computes the SDG and regional-funding aggregations itself from
    the filtered listing, applies bulk status updates one by one, and keeps one process-wide
    database instance. */
module Adapter {
  import opened Wrappers
  import opened Text
  import opened Constants
  import opened Collections
  import opened Records
  import Sqlite = SqliteDb

  type Db = Sqlite.Db

  type Project = Sqlite.Project

  // ---------------------------------------------------------------- ids

  /** `get_project_by_id(project_id: str)`: the id goes through `int()` first, and a string that
      is not an integer gives None instead of an exception. */
  function GetProjectById(db: Db, projectId: string): (r: Option<Project>)
    ensures ParseInt(projectId).None? ==> r.None?
    ensures r.Some? ==> r.value in db.projects && ParseInt(projectId) == Some(r.value.id as int)
    ensures (ParseInt(projectId).Some? &&
             exists j :: 0 <= j < |db.projects| && db.projects[j].id == ParseInt(projectId).value) ==> r.Some?
  {
    match ParseInt(projectId)
    case None => None
    case Some(id) => Sqlite.GetProjectById(db, id)
  }

  /** In a valid store, looking a stored project up by its own id finds that project. */
  lemma StoredProjectFound(db: Db, p: Project)
    requires Sqlite.Valid(db) && p in db.projects
    ensures Sqlite.GetProjectById(db, p.id) == Some(p)
  {
    var i :| 0 <= i < |db.projects| && db.projects[i] == p;
    var k := Sqlite.FindProject(db.projects, p.id).value;
    assert k <= i;
  }

  /** The decimal spelling of a stored project's id finds it. */
  lemma DecimalIdFindsProject(db: Db, p: Project)
    requires Sqlite.Valid(db) && p in db.projects
    ensures GetProjectById(db, NatToString(p.id)) == Some(p)
  {
    ParseIntOfNatToString(p.id);
    StoredProjectFound(db, p);
  }

  // ---------------------------------------------------------------- update_project_status

  /** What a call did. Only `Applied` carries a new store: in the other two nothing was
      committed, and the caller keeps the store it had. */
  datatype UpdateOutcome =
    | Applied(db: Db)
    | Swallowed                       // ValueError or TypeError, logged and dropped
    | Raised(error: Sqlite.UpdateError) // IntegrityError from a CHECK, propagated

  /** `int(reviewer_id) if reviewer_id else None` does not raise. */
  predicate ReviewerParses(reviewerId: Option<string>) {
    !Given(reviewerId) || ParseInt(reviewerId.value).Some?
  }

  /** The reviewer the backend receives. */
  function ReviewerInt(reviewerId: Option<string>): Option<int>
    requires ReviewerParses(reviewerId)
  {
    if Given(reviewerId) then Some(ParseInt(reviewerId.value).value) else None
  }

  /** `update_project_status` with string ids. Both conversions run inside a `try` that logs
      and swallows ValueError and TypeError, and so does the TypeError the backend raises for an
      unknown project when it indexes the missing row. A failed CHECK is an IntegrityError,
      which the `try` does not catch. */
  function UpdateProjectStatus(db: Db, projectId: string, newStatus: string, reason: Option<string>,
                               reviewerId: Option<string>, now: int): (r: UpdateOutcome)
    ensures ParseInt(projectId).None? ==> r == Swallowed
    ensures !ReviewerParses(reviewerId) ==> r == Swallowed
    ensures r.Swallowed? <==> ParseInt(projectId).None? || !ReviewerParses(reviewerId)
                              || Sqlite.FindProject(db.projects, ParseInt(projectId).value).None?
    ensures r.Raised? ==> r.error != Sqlite.UnknownProject
    ensures r.Applied? ==>
      && ParseInt(projectId).Some? && ReviewerParses(reviewerId)
      && Sqlite.UpdateProjectStatus(db, ParseInt(projectId).value, newStatus, reason, ReviewerInt(reviewerId), now) == Ok(r.db)
  {
    match ParseInt(projectId)
    case None => Swallowed
    case Some(id) =>
      if !ReviewerParses(reviewerId) then Swallowed
      else
        match Sqlite.UpdateProjectStatus(db, id, newStatus, reason, ReviewerInt(reviewerId), now)
        case Ok(d) => Applied(d)
        case Err(e) => if e == Sqlite.UnknownProject then Swallowed else Raised(e)
  }

  /** A committed call appended exactly one history row, recording the new status and the
      converted reviewer; a review row came with it exactly when that reviewer is non-zero. */
  lemma AppliedAppendsOneHistoryRow(db: Db, projectId: string, newStatus: string, reason: Option<string>,
                                    reviewerId: Option<string>, now: int)
    requires UpdateProjectStatus(db, projectId, newStatus, reason, reviewerId, now).Applied?
    ensures var d := UpdateProjectStatus(db, projectId, newStatus, reason, reviewerId, now).db;
      && ReviewerParses(reviewerId)
      && |d.history| == |db.history| + 1 && d.history[..|db.history|] == db.history
      && d.history[|db.history|].newStatus.Name() == newStatus
      && d.history[|db.history|].changedBy == ReviewerInt(reviewerId)
      && |d.reviews| == |db.reviews| + (if Truthy(ReviewerInt(reviewerId)) then 1 else 0)
  {
    var d := UpdateProjectStatus(db, projectId, newStatus, reason, reviewerId, now).db;
    assert d.history[..|db.history|] == db.history;
  }

  /** The reviewer as the pages pass it: an integer, which `int(...)` reads back. */
  function DecimalReviewer(reviewer: Option<nat>): Option<string> {
    if reviewer.Some? then Some(NatToString(reviewer.value)) else None
  }

  /** `int(...)` reads an integer id and reviewer back. */
  lemma DecimalArgumentsParse(id: nat, reviewer: Option<nat>)
    ensures ParseInt(NatToString(id)) == Some(id as int)
    ensures ReviewerParses(DecimalReviewer(reviewer))
    ensures ReviewerInt(DecimalReviewer(reviewer)) == if reviewer.Some? then Some(reviewer.value as int) else None
  {
    ParseIntOfNatToString(id);
    if reviewer.Some? {
      ParseIntOfNatToString(reviewer.value);
      assert Given(DecimalReviewer(reviewer));
    }
  }

  /** With an integer id and reviewer, the call hands the backend's result on: a commit is
      applied, an unknown project is swallowed, and any other failure propagates. */
  lemma DecimalUpdateOutcome(db: Db, id: nat, newStatus: string, reason: Option<string>, reviewer: Option<nat>, now: int)
    ensures var backend := Sqlite.UpdateProjectStatus(db, id, newStatus, reason,
                                                      if reviewer.Some? then Some(reviewer.value as int) else None, now);
      UpdateProjectStatus(db, NatToString(id), newStatus, reason, DecimalReviewer(reviewer), now)
        == if backend.Ok? then Applied(backend.value)
           else if backend.error == Sqlite.UnknownProject then Swallowed
           else Raised(backend.error)
  {
    DecimalArgumentsParse(id, reviewer);
  }

  /** The store after a call: the new one when the write was committed, else the old one. */
  function StoreAfter(db: Db, o: UpdateOutcome): Db {
    if o.Applied? then o.db else db
  }

  /** Whatever the outcome, the store stays valid. */
  lemma UpdateKeepsValid(db: Db, projectId: string, newStatus: string, reason: Option<string>,
                         reviewerId: Option<string>, now: int)
    ensures Sqlite.Valid(db) ==> Sqlite.Valid(StoreAfter(db, UpdateProjectStatus(db, projectId, newStatus, reason, reviewerId, now)))
  {
    var o := UpdateProjectStatus(db, projectId, newStatus, reason, reviewerId, now);
    if o.Applied? && Sqlite.Valid(db) {
      Sqlite.UpdateProjectStatusPreservesValid(db, ParseInt(projectId).value, newStatus, reason, ReviewerInt(reviewerId), now);
    }
  }

  // ---------------------------------------------------------------- bulk_update_projects

  /** One dictionary of the `updates` list; each key may be missing. */
  datatype BulkItem = BulkItem(projectId: Option<string>, workflowStatus: Option<string>,
                               reason: Option<string>, reviewerId: Option<string>)

  /** `if project_id and new_status` */
  predicate Carries(u: BulkItem) {
    Given(u.projectId) && Given(u.workflowStatus)
  }

  /** An update whose call cannot raise: a known status, which is a review outcome when a
      reviewer is given. */
  predicate CannotRaise(u: BulkItem) {
    var s := ParseWorkflowStatus(u.workflowStatus.GetOr(""));
    s.Some? && (Given(u.reviewerId) ==> s.value.IsReviewOutcome())
  }

  /** One turn of the loop: the store afterwards and what it adds to the count. The count goes
      up after the call returns, so an update whose call raises is logged and not counted,
      while one that `update_project_status` swallows is counted. */
  function BulkStep(db: Db, u: BulkItem, now: int): (r: (Db, nat))
    ensures r.1 <= 1 && (r.1 == 1 ==> Carries(u))
    ensures Carries(u) && CannotRaise(u) ==> r.1 == 1
    ensures !Carries(u) ==> r == (db, 0)
    ensures Sqlite.Valid(db) ==> Sqlite.Valid(r.0)
  {
    if !Carries(u) then (db, 0)
    else
      var o := UpdateProjectStatus(db, u.projectId.value, u.workflowStatus.value, u.reason, u.reviewerId, now);
      UpdateKeepsValid(db, u.projectId.value, u.workflowStatus.value, u.reason, u.reviewerId, now);
      if o.Raised? then (db, 0) else (StoreAfter(db, o), 1)
  }

  /** `bulk_update_projects`: the updates in list order, and the count of those applied
      without raising. */
  function BulkUpdateProjects(db: Db, updates: seq<BulkItem>, now: int): (r: (Db, nat))
    ensures r.1 <= Count(updates, Carries)
    ensures (forall i :: 0 <= i < |updates| && Carries(updates[i]) ==> CannotRaise(updates[i])) ==>
      r.1 == Count(updates, Carries)
    ensures Count(updates, Carries) == 0 ==> r == (db, 0)
    ensures Sqlite.Valid(db) ==> Sqlite.Valid(r.0)
    decreases |updates|
  {
    if |updates| == 0 then (db, 0)
    else
      var step := BulkStep(db, updates[0], now);
      var rest := BulkUpdateProjects(step.0, updates[1..], now);
      assert forall i :: 1 <= i < |updates| ==> updates[1..][i - 1] == updates[i];
      (rest.0, step.1 + rest.1)
  }

  // ---------------------------------------------------------------- get_sdg_distribution

  /** One entry of the result list. */
  datatype SdgCount = SdgCount(sdgId: int, sdgNumber: int, sdgName: string, sdgColorHex: string, projectCount: nat)

  function InSdgTable(db: Db): int -> bool {
    (s: int) => s in db.sdgs
  }

  /** The SDG ids `get_project_by_id` reports for a listed project: its junction rows that JOIN
      a row of `sdgs`. */
  function DetailSdgs(db: Db, p: Project): (r: seq<int>)
    ensures forall s :: s in r ==> s in db.sdgs
  {
    match Sqlite.GetProjectById(db, p.id)
    case None => []
    case Some(d) => Filter(d.sdgs, InSdgTable(db))
  }

  /** Every reported SDG id of the listing, project by project. */
  function TaggedSdgs(db: Db, ps: seq<Project>): (r: seq<int>)
    ensures forall s :: s in r ==> s in db.sdgs
  {
    if |ps| == 0 then [] else DetailSdgs(db, ps[0]) + TaggedSdgs(db, ps[1..])
  }

  /** The `sdg_counts` dictionary: its keys in insertion order, and the counts. */
  datatype Tally = Tally(order: seq<int>, counts: map<int, nat>)

  ghost predicate TallyOk(t: Tally) {
    && Sqlite.NoDuplicates(t.order)
    && (forall k :: k in t.counts <==> k in t.order)
  }

  function CountOf(t: Tally, k: int): nat {
    if k in t.counts then t.counts[k] else 0
  }

  /** Counting each id of `ids` in turn: a new key goes to the end of the order, a known key
      keeps its place. */
  function TallyFrom(t: Tally, ids: seq<int>): (r: Tally)
    requires TallyOk(t)
    ensures TallyOk(r)
    ensures |t.order| <= |r.order| && r.order[..|t.order|] == t.order
    ensures forall k :: k in r.order <==> k in t.order || k in ids
    ensures forall k :: CountOf(r, k) == CountOf(t, k) + Occurrences(ids, k)
    decreases |ids|
  {
    if |ids| == 0 then t
    else
      var x := ids[0];
      var t1 := if x in t.counts then Tally(t.order, t.counts[x := t.counts[x] + 1])
                else Tally(t.order + [x], t.counts[x := 1]);
      assert t1.order[..|t.order|] == t.order;
      var r := TallyFrom(t1, ids[1..]);
      assert ids == [x] + ids[1..];
      assert r.order[..|t.order|] == r.order[..|t1.order|][..|t.order|];
      r
  }

  /** `list(sdg_counts.values())`, each entry named and coloured from the `sdgs` row. */
  function Entries(db: Db, t: Tally): (r: seq<SdgCount>)
    requires TallyOk(t) && forall k :: k in t.order ==> k in db.sdgs
    ensures |r| == |t.order|
    ensures forall i :: 0 <= i < |r| ==>
      && r[i].sdgId == t.order[i] && r[i].sdgNumber == t.order[i] && r[i].projectCount == CountOf(t, t.order[i])
      && r[i].sdgName == db.sdgs[t.order[i]].name && r[i].sdgColorHex == db.sdgs[t.order[i]].color
  {
    assert forall i :: 0 <= i < |t.order| ==> t.order[i] in t.order;
    seq(|t.order|, i requires 0 <= i < |t.order| =>
      var k := t.order[i];
      SdgCount(k, k, db.sdgs[k].name, db.sdgs[k].color, t.counts[k]))
  }

  /** The result list for the reported ids `ids`: one entry per distinct id, in order of first
      appearance, named and coloured from its `sdgs` row, counting the id's occurrences. */
  function Distribution(db: Db, ids: seq<int>): (r: seq<SdgCount>)
    requires forall s :: s in ids ==> s in db.sdgs
    ensures forall i, j :: 0 <= i < j < |r| ==> r[i].sdgId != r[j].sdgId
    ensures forall n :: (exists i :: 0 <= i < |r| && r[i].sdgId == n) <==> n in ids
    ensures forall i :: 0 <= i < |r| ==>
      && r[i].sdgId in db.sdgs && r[i].sdgNumber == r[i].sdgId
      && r[i].sdgName == db.sdgs[r[i].sdgId].name && r[i].sdgColorHex == db.sdgs[r[i].sdgId].color
      && r[i].projectCount == Occurrences(ids, r[i].sdgId) >= 1
  {
    var t := TallyFrom(Tally([], map[]), ids);
    var r := Entries(db, t);
    assert forall n :: (exists i :: 0 <= i < |r| && r[i].sdgId == n) <==> n in t.order by {
      forall n | n in t.order ensures exists i :: 0 <= i < |r| && r[i].sdgId == n {
        var i :| 0 <= i < |t.order| && t.order[i] == n;
        assert r[i].sdgId == n;
      }
    }
    r
  }

  /** `get_sdg_distribution`: the distribution of the SDG ids reported for the filtered
      listing. */
  function GetSdgDistribution(db: Db, f: Filters): seq<SdgCount> {
    Distribution(db, TaggedSdgs(db, Sqlite.GetProjectsByFilters(db, f)))
  }

  function TaggedWith(n: int): Project -> bool {
    (p: Project) => n in p.sdgs
  }

  /** Keeping elements that satisfy `p` keeps every occurrence of one that does. */
  lemma {:induction false} OccurrencesFilterKept(s: seq<int>, p: int -> bool, x: int)
    requires p(x)
    ensures Occurrences(Filter(s, p), x) == Occurrences(s, x)
  {
    if |s| > 0 {
      OccurrencesFilterKept(s[1..], p, x);
      if p(s[0]) {
        assert (Filter(s, p))[1..] == Filter(s[1..], p);
      }
    }
  }

  lemma {:induction false} NoDuplicatesOccurrences(s: seq<int>, x: int)
    requires Sqlite.NoDuplicates(s)
    ensures Occurrences(s, x) == if x in s then 1 else 0
  {
    if |s| > 0 {
      assert Sqlite.NoDuplicates(s[1..]) by {
        assert forall i :: 0 <= i < |s| - 1 ==> s[1..][i] == s[i + 1];
      }
      NoDuplicatesOccurrences(s[1..], x);
      if s[0] == x {
        assert x !in s[1..] by {
          assert forall i :: 0 <= i < |s| - 1 ==> s[1..][i] == s[i + 1] && s[i + 1] != s[0];
        }
      }
    }
  }

  /** In a valid store, a table SDG is reported once per stored project tagged with it. */
  lemma {:induction false} TaggedOccurrences(db: Db, ps: seq<Project>, n: int)
    requires Sqlite.Valid(db) && n in db.sdgs
    requires forall i :: 0 <= i < |ps| ==> ps[i] in db.projects
    ensures Occurrences(TaggedSdgs(db, ps), n) == Count(ps, TaggedWith(n))
  {
    if |ps| > 0 {
      var p := ps[0];
      StoredProjectFound(db, p);
      OccurrencesAppend(DetailSdgs(db, p), TaggedSdgs(db, ps[1..]), n);
      OccurrencesFilterKept(p.sdgs, InSdgTable(db), n);
      var i :| 0 <= i < |db.projects| && db.projects[i] == p;
      NoDuplicatesOccurrences(p.sdgs, n);
      TaggedOccurrences(db, ps[1..], n);
    }
  }

  /** In a valid store each SDG's `project_count` is the number of listed projects tagged with
      it, and every table SDG some listed project carries has an entry. */
  lemma SdgDistributionCounts(db: Db, f: Filters, n: int)
    requires Sqlite.Valid(db) && n in db.sdgs
    ensures var ps := Sqlite.GetProjectsByFilters(db, f);
      var r := GetSdgDistribution(db, f);
      && (forall i :: 0 <= i < |r| && r[i].sdgId == n ==> r[i].projectCount == Count(ps, TaggedWith(n)))
      && (Count(ps, TaggedWith(n)) > 0 <==> exists i :: 0 <= i < |r| && r[i].sdgId == n)
  {
    var ps := Sqlite.GetProjectsByFilters(db, f);
    assert forall i :: 0 <= i < |ps| ==> ps[i] in db.projects;
    DistributionCounts(db, ps, n);
    var r := GetSdgDistribution(db, f);
    assert r == Distribution(db, TaggedSdgs(db, ps));
    assert forall i :: 0 <= i < |r| && r[i].sdgId == n ==> r[i].projectCount == Count(ps, TaggedWith(n));
  }

  /** The same for any listing of stored projects. */
  lemma DistributionCounts(db: Db, ps: seq<Project>, n: int)
    requires Sqlite.Valid(db) && n in db.sdgs
    requires forall i :: 0 <= i < |ps| ==> ps[i] in db.projects
    ensures var r := Distribution(db, TaggedSdgs(db, ps));
      && (forall i :: 0 <= i < |r| && r[i].sdgId == n ==> r[i].projectCount == Count(ps, TaggedWith(n)))
      && (Count(ps, TaggedWith(n)) > 0 <==> exists i :: 0 <= i < |r| && r[i].sdgId == n)
  {
    TaggedOccurrences(db, ps, n);
  }

  // ---------------------------------------------------------------- get_funding_by_region

  /** One entry of the result list. */
  datatype RegionFunding = RegionFunding(regionId: int, regionName: string, projectCount: nat,
                                         totalFundingNeeded: int, totalFundingSpent: int)

  /** `region_id and region_id in region_data` for one region */
  function InRegion(id: int): Project -> bool {
    (p: Project) => Truthy(p.details.uiaRegionId) && p.details.uiaRegionId.value == id
  }

  /** A region id that is one of the UIA_REGIONS keys. */
  predicate KnownRegion(p: Project) {
    Truthy(p.details.uiaRegionId) && 1 <= p.details.uiaRegionId.value <= 5
  }

  /** What a project adds to a region's needed total (`funding_needed_usd or 0`). */
  function NeededIn(id: int): Project -> int {
    (p: Project) => if InRegion(id)(p) then NeededOrZero(Sqlite.RowOf(p)) else 0
  }

  /** What a project adds to a region's spent total: its needed amount when Implemented. */
  function SpentIn(id: int): Project -> int {
    (p: Project) => if InRegion(id)(p) then SpentContribution(Sqlite.RowOf(p)) else 0
  }

  /** One turn of the loop over the listing. */
  function AddToRegion(t: seq<RegionFunding>, p: Project): (r: seq<RegionFunding>)
    requires |t| == 5
    ensures |r| == 5
    ensures forall i :: 0 <= i < 5 ==> r[i].regionId == t[i].regionId && r[i].regionName == t[i].regionName
    ensures forall i :: 0 <= i < 5 ==>
      && r[i].projectCount == t[i].projectCount + (if InRegion(i + 1)(p) then 1 else 0)
      && r[i].totalFundingNeeded == t[i].totalFundingNeeded + NeededIn(i + 1)(p)
      && r[i].totalFundingSpent == t[i].totalFundingSpent + SpentIn(i + 1)(p)
  {
    var rid := p.details.uiaRegionId;
    if KnownRegion(p) then
      var k := rid.value - 1;
      var e := t[k];
      var funding := NeededOrZero(Sqlite.RowOf(p));
      var spent := if p.details.projectStatus == Implemented.Label() then funding else 0;
      t[k := e.(projectCount := e.projectCount + 1,
                totalFundingNeeded := e.totalFundingNeeded + funding,
                totalFundingSpent := e.totalFundingSpent + spent)]
    else t
  }

  /** The loop over the listing, from the table `t`. */
  function AccumulateFunding(t: seq<RegionFunding>, ps: seq<Project>): (r: seq<RegionFunding>)
    requires |t| == 5
    ensures |r| == 5
    ensures forall i :: 0 <= i < 5 ==> r[i].regionId == t[i].regionId && r[i].regionName == t[i].regionName
    ensures forall i :: 0 <= i < 5 ==>
      && r[i].projectCount == t[i].projectCount + Count(ps, InRegion(i + 1))
      && r[i].totalFundingNeeded == t[i].totalFundingNeeded + Sum(ps, NeededIn(i + 1))
      && r[i].totalFundingSpent == t[i].totalFundingSpent + Sum(ps, SpentIn(i + 1))
    decreases |ps|
  {
    if |ps| == 0 then t else AccumulateFunding(AddToRegion(t, ps[0]), ps[1..])
  }

  /** `get_funding_by_region`: one zeroed entry per UIA region, in key order, then each listed
      project with a known region added to its region's entry. */
  function GetFundingByRegion(db: Db, f: Filters): (r: seq<RegionFunding>)
    ensures |r| == 5
    ensures var ps := Sqlite.GetProjectsByFilters(db, f);
      forall i :: 0 <= i < 5 ==>
        && r[i].regionId == i + 1 && RegionName(i + 1) == Some(r[i].regionName)
        && r[i].projectCount == Count(ps, InRegion(i + 1))
        && r[i].totalFundingNeeded == Sum(ps, NeededIn(i + 1))
        && r[i].totalFundingSpent == Sum(ps, SpentIn(i + 1))
  {
    var zero := seq(5, i requires 0 <= i < 5 => RegionFunding(i + 1, UiaRegions[i].1, 0, 0, 0));
    AccumulateFunding(zero, Sqlite.GetProjectsByFilters(db, f))
  }

  /** A project is in at most one region, and in one exactly when its region is known. */
  lemma {:induction false} RegionCountsPartition(ps: seq<Project>)
    ensures Count(ps, InRegion(1)) + Count(ps, InRegion(2)) + Count(ps, InRegion(3))
            + Count(ps, InRegion(4)) + Count(ps, InRegion(5)) == Count(ps, KnownRegion)
  {
    if |ps| > 0 {
      RegionCountsPartition(ps[1..]);
    }
  }

  /** The regional project counts add up to the listed projects with a known region. */
  lemma FundingCountsSum(db: Db, f: Filters)
    ensures var r := GetFundingByRegion(db, f);
      r[0].projectCount + r[1].projectCount + r[2].projectCount + r[3].projectCount + r[4].projectCount
        == Count(Sqlite.GetProjectsByFilters(db, f), KnownRegion)
  {
    RegionCountsPartition(Sqlite.GetProjectsByFilters(db, f));
  }

  /** With no negative amounts stored, each region's spent total is between 0 and its needed
      total. */
  lemma FundingSpentBounded(db: Db, f: Filters)
    requires forall p :: p in db.projects ==> p.details.fundingNeeded.GetOr(0) >= 0
    ensures var r := GetFundingByRegion(db, f);
      forall i :: 0 <= i < 5 ==> 0 <= r[i].totalFundingSpent <= r[i].totalFundingNeeded
  {
    var ps := Sqlite.GetProjectsByFilters(db, f);
    assert forall j :: 0 <= j < |ps| ==> ps[j] in db.projects;
    forall id | 1 <= id <= 5
      ensures 0 <= Sum(ps, SpentIn(id)) <= Sum(ps, NeededIn(id))
    {
      RegionSpentBounded(ps, id);
    }
  }

  lemma RegionSpentBounded(ps: seq<Project>, id: int)
    requires forall j :: 0 <= j < |ps| ==> ps[j].details.fundingNeeded.GetOr(0) >= 0
    ensures 0 <= Sum(ps, SpentIn(id)) <= Sum(ps, NeededIn(id))
  {
    forall j | 0 <= j < |ps|
      ensures 0 <= SpentIn(id)(ps[j]) <= NeededIn(id)(ps[j])
    {
      var row := Sqlite.RowOf(ps[j]);
      assert row.fundingNeeded == ps[j].details.fundingNeeded;
      assert 0 <= SpentContribution(row) <= NeededOrZero(row);
    }
    SumMonotone(ps, SpentIn(id), NeededIn(id));
    SumNonNegative(ps, SpentIn(id));
  }

  // ---------------------------------------------------------------- get_uia_regions

  datatype UiaRegionRow = UiaRegionRow(regionId: int, regionName: string, regionCode: string)

  const SectionPrefix: string := "SECTION_"

  /** The rows for a region table: each id with the code `SECTION_<id>`, in decimal digits. */
  function RegionRows(regions: seq<(int, string)>): (r: seq<UiaRegionRow>)
    requires forall k :: 0 <= k < |regions| ==> regions[k].0 >= 0
    ensures |r| == |regions|
    ensures forall k :: 0 <= k < |r| ==> r[k].regionId == regions[k].0 && r[k].regionName == regions[k].1
    ensures forall k :: 0 <= k < |r| ==> |SectionPrefix| < |r[k].regionCode| && r[k].regionCode[..|SectionPrefix|] == SectionPrefix
  {
    seq(|regions|, k requires 0 <= k < |regions| =>
      UiaRegionRow(regions[k].0, regions[k].1, SectionPrefix + NatToString(regions[k].0)))
  }

  /** The code spells the id: what follows the prefix reads back as the region id, so rows with
      different ids have different codes. */
  lemma RegionCodesDecode(regions: seq<(int, string)>, i: int, j: int)
    requires forall k :: 0 <= k < |regions| ==> regions[k].0 >= 0
    requires 0 <= i < |regions| && 0 <= j < |regions|
    ensures var r := RegionRows(regions);
      ParseInt(r[i].regionCode[|SectionPrefix|..]) == Some(r[i].regionId)
    ensures var r := RegionRows(regions);
      regions[i].0 != regions[j].0 ==> r[i].regionCode != r[j].regionCode
  {
    var r := RegionRows(regions);
    assert r[i].regionCode[|SectionPrefix|..] == NatToString(regions[i].0);
    assert r[j].regionCode[|SectionPrefix|..] == NatToString(regions[j].0);
    ParseIntOfNatToString(regions[i].0);
    ParseIntOfNatToString(regions[j].0);
  }

  /** `get_uia_regions`: UIA_REGIONS in key order, with codes `SECTION_1` to `SECTION_5`
      (unlike the Roman numerals the PostgreSQL seeding uses), all different. */
  function GetUiaRegions(): (r: seq<UiaRegionRow>)
    ensures |r| == 5
    ensures forall i :: 0 <= i < 5 ==> r[i].regionId == i + 1 && RegionName(i + 1) == Some(r[i].regionName)
  {
    RegionRows(UiaRegions)
  }

  /** The five codes read back as their region ids and are all different. */
  lemma UiaRegionCodesDistinct(i: int, j: int)
    requires 0 <= i < 5 && 0 <= j < 5
    ensures var r := GetUiaRegions();
      ParseInt(r[i].regionCode[|SectionPrefix|..]) == Some(i + 1) && (i != j ==> r[i].regionCode != r[j].regionCode)
  {
    RegionCodesDecode(UiaRegions, i, j);
  }

  // ---------------------------------------------------------------- instance cache

  /** The module-level `_database_instance`. */
  datatype Cache<T> = Cache(instance: Option<T>)

  /** `get_cached_database`, given the instance `get_database()` would build now: it is built
      only when none is cached, and then kept. */
  function GetCachedDatabase<T>(c: Cache<T>, built: T): (r: (Cache<T>, T))
    ensures r.0 == Cache(Some(r.1))
    ensures c.instance.Some? ==> r.1 == c.instance.value && r.0 == c
    ensures c.instance.None? ==> r.1 == built
  {
    match c.instance
    case Some(x) => (c, x)
    case None => (Cache(Some(built)), built)
  }

  /** `reset_database_cache` */
  function ResetDatabaseCache<T>(c: Cache<T>): (r: Cache<T>)
    ensures r.instance.None?
  {
    Cache(None)
  }

  /** Until a reset, every call returns the instance the first call built. */
  lemma CachedInstanceStable<T>(c: Cache<T>, first: T, later: T)
    ensures var (c1, x) := GetCachedDatabase(c, first);
      GetCachedDatabase(c1, later) == (c1, x)
  {
  }

  /** After a reset, the next call returns a freshly built instance. */
  lemma ResetRebuilds<T>(c: Cache<T>, built: T)
    ensures GetCachedDatabase(ResetDatabaseCache(c), built).1 == built
  {
  }
}
