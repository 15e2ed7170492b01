/** The admin page (pages/4_admin.py) over the SQLite adapter: the review queue's statistics,
    status filter, search and page selector; the review form's notes rule and action map; the
    quick actions of the admin search; and that search itself. */
module AdminPage {
  import opened Wrappers
  import opened Text
  import opened Constants
  import opened Collections
  import opened Utils
  import opened Records
  import Sqlite = SqliteDb
  import Adapter

  type Db = Sqlite.Db
  type Project = Sqlite.Project

  /** The choice of a select box that applies no filter. */
  const AllOption: string := "All"

  // ---------------------------------------------------------------- queue statistics

  function StatusIs(s: WorkflowStatus): Project -> bool {
    (p: Project) => p.workflowStatus == s
  }

  /** `status_counts.get(s, 0)` */
  function CountOrZero(counts: map<WorkflowStatus, nat>, s: WorkflowStatus): nat {
    if s in counts then counts[s] else 0
  }

  /** The `status_counts` dict the loop over the queue builds: one more for the status of each
      row in turn. A status is a key exactly when some row has it. */
  function StatusCounts(ps: seq<Project>): (counts: map<WorkflowStatus, nat>)
    ensures forall s :: s in counts <==> exists i :: 0 <= i < |ps| && ps[i].workflowStatus == s
    ensures forall s :: s in counts ==> counts[s] > 0
  {
    if |ps| == 0 then map[]
    else
      var before := StatusCounts(ps[..|ps| - 1]);
      assert forall i :: 0 <= i < |ps| - 1 ==> ps[..|ps| - 1][i] == ps[i];
      var s := ps[|ps| - 1].workflowStatus;
      before[s := CountOrZero(before, s) + 1]
  }

  /** Each count is the number of rows with that status. */
  lemma {:induction false} StatusCountsAreCounts(ps: seq<Project>, s: WorkflowStatus)
    ensures CountOrZero(StatusCounts(ps), s) == Count(ps, StatusIs(s))
  {
    if |ps| > 0 {
      var init := ps[..|ps| - 1];
      StatusCountsAreCounts(init, s);
      assert ps == init + [ps[|ps| - 1]];
      CountSnoc(init, ps[|ps| - 1], StatusIs(s));
    }
  }

  /** The counts of the five statuses add up to the number of rows. */
  lemma {:induction false} StatusCountsSumToLength(ps: seq<Project>)
    ensures var c := StatusCounts(ps);
      CountOrZero(c, Submitted) + CountOrZero(c, InReview) + CountOrZero(c, Approved)
      + CountOrZero(c, Rejected) + CountOrZero(c, ChangesRequested) == |ps|
  {
    if |ps| > 0 {
      var init := ps[..|ps| - 1];
      StatusCountsSumToLength(init);
      var c := StatusCounts(init);
      var s := ps[|ps| - 1].workflowStatus;
      CountAfterBump(c, s, Submitted);
      CountAfterBump(c, s, InReview);
      CountAfterBump(c, s, Approved);
      CountAfterBump(c, s, Rejected);
      CountAfterBump(c, s, ChangesRequested);
    }
  }

  lemma CountAfterBump(c: map<WorkflowStatus, nat>, s: WorkflowStatus, t: WorkflowStatus)
    ensures CountOrZero(c[s := CountOrZero(c, s) + 1], t) == CountOrZero(c, t) + (if t == s then 1 else 0)
  {
  }

  /** The four metrics above the queue. */
  datatype QueueMetrics = QueueMetrics(totalPending: nat, newSubmissions: nat, inReview: nat, changesRequested: nat)

  function Metrics(pending: seq<Project>): (m: QueueMetrics)
    ensures m.totalPending == |pending|
    ensures m.newSubmissions == Count(pending, StatusIs(Submitted))
    ensures m.inReview == Count(pending, StatusIs(InReview))
    ensures m.changesRequested == Count(pending, StatusIs(ChangesRequested))
  {
    var c := StatusCounts(pending);
    StatusCountsAreCounts(pending, Submitted);
    StatusCountsAreCounts(pending, InReview);
    StatusCountsAreCounts(pending, ChangesRequested);
    QueueMetrics(|pending|, CountOrZero(c, Submitted), CountOrZero(c, InReview), CountOrZero(c, ChangesRequested))
  }

  /** Over the pending queue the three status metrics account for every pending project. */
  lemma QueueMetricsAddUp(db: Db)
    ensures var m := Metrics(Sqlite.GetPendingReviews(db));
      m.totalPending == m.newSubmissions + m.inReview + m.changesRequested
  {
    var ps := Sqlite.GetPendingReviews(db);
    assert forall i :: 0 <= i < |ps| ==> ps[i] in ps;
    PendingMetricsAddUp(ps);
  }

  lemma PendingMetricsAddUp(ps: seq<Project>)
    requires forall i :: 0 <= i < |ps| ==> Sqlite.IsPending(ps[i])
    ensures var m := Metrics(ps);
      m.totalPending == m.newSubmissions + m.inReview + m.changesRequested
  {
    var c := StatusCounts(ps);
    StatusCountsSumToLength(ps);
    assert Approved !in c && Rejected !in c;
  }

  // ---------------------------------------------------------------- queue filter and search

  /** The queue's status filter: "All" and every status of `statuses` (WORKFLOW_STATUSES on the
      page) except approved. */
  function QueueStatusOptions(statuses: seq<string>): (r: seq<string>)
    ensures |r| >= 1 && r[0] == AllOption && "approved" !in r
    ensures forall s :: s in r[1..] <==> s in statuses && s != "approved"
  {
    var rest := Filter(statuses, NotApproved);
    assert ([AllOption] + rest)[1..] == rest;
    [AllOption] + rest
  }

  function NotApproved(s: string): bool { s != "approved" }

  predicate StatusSelected(p: Project, statusFilter: string) {
    statusFilter == AllOption || p.workflowStatus.Name() == statusFilter
  }

  function HasStatusName(name: string): Project -> bool {
    (p: Project) => p.workflowStatus.Name() == name
  }

  /** `search_term.lower() in p['project_name'].lower() or ... in p['organization_name'].lower()` */
  predicate SearchMatches(p: Project, term: string) {
    ContainsIgnoringCase(p.details.projectName, term) || ContainsIgnoringCase(p.details.organizationName, term)
  }

  function MatchesTerm(term: string): Project -> bool {
    (p: Project) => SearchMatches(p, term)
  }

  /** The empty string occurs in every string, so an empty search would keep every row. */
  lemma EmptyTermMatches()
    ensures forall p: Project :: SearchMatches(p, "")
  {
    forall p: Project
      ensures SearchMatches(p, "")
    {
      assert OccursAt(Lower(p.details.projectName), Lower(""), 0);
    }
  }

  /** The queue after the status filter and, when a term was typed, the search. */
  function FilterQueue(pending: seq<Project>, statusFilter: string, term: string): (r: seq<Project>)
    ensures |r| <= |pending|
    ensures forall p :: p in r <==> p in pending && StatusSelected(p, statusFilter) && SearchMatches(p, term)
  {
    var byStatus := if statusFilter != AllOption then Filter(pending, HasStatusName(statusFilter)) else pending;
    if term != "" then Filter(byStatus, MatchesTerm(term))
    else
      EmptyTermMatches();
      byStatus
  }

  /** The search ignores case: terms that agree once lowered select the same rows. */
  lemma SearchIgnoresCase(pending: seq<Project>, statusFilter: string, term: string, term': string)
    requires Lower(term) == Lower(term')
    ensures FilterQueue(pending, statusFilter, term) == FilterQueue(pending, statusFilter, term')
  {
    assert |term| == |term'|;
    var byStatus := if statusFilter != AllOption then Filter(pending, HasStatusName(statusFilter)) else pending;
    FilterCongruent(byStatus, MatchesTerm(term), MatchesTerm(term'));
  }

  // ---------------------------------------------------------------- page selector

  /** The selector as written: `range(1, max(1, n // 20 + 1) + 1)` offers this many pages. */
  function OfferedPagesAsWritten(n: nat): (k: nat)
    ensures k >= 1
    ensures n < k * AdminQueuePerPage
  {
    // the `max(1, ...)` never applies to a count
    n / AdminQueuePerPage + 1
  }

  /** With a whole number of pages of rows, the last page the selector offers is empty, and the
      selector offers one page more than `paginate_data` counts. */
  lemma LastOfferedPageEmptyAsWritten<T>(data: seq<T>)
    requires |data| > 0 && |data| % AdminQueuePerPage == 0
    ensures PaginateData(data, OfferedPagesAsWritten(|data|), AdminQueuePerPage).0 == []
    ensures OfferedPagesAsWritten(|data|) == PaginateData(data, 1, AdminQueuePerPage).1 + 1
  {
    var n := |data|;
    assert n == (n / AdminQueuePerPage) * AdminQueuePerPage;
    DivCeil(n, AdminQueuePerPage);
    assert (n + AdminQueuePerPage - 1) / AdminQueuePerPage == n / AdminQueuePerPage;
  }

  /** Twenty queued projects: the selector offers page 2, and page 2 shows nothing. */
  lemma TwentyProjectsOfferEmptyPage<T>(data: seq<T>)
    requires |data| == 20
    ensures OfferedPagesAsWritten(|data|) == 2
    ensures PaginateData(data, 2, AdminQueuePerPage).0 == []
  {
    LastOfferedPageEmptyAsWritten(data);
  }

  /** The selector as intended: exactly the pages `paginate_data` counts. */
  function OfferedPages(n: nat): (k: nat)
    ensures k >= 1 && n <= k * AdminQueuePerPage
    ensures n > 0 ==> (k - 1) * AdminQueuePerPage < n
  {
    TotalPages(n, AdminQueuePerPage)
  }

  /** The page count `paginate_data` reports is the number of pages offered. */
  lemma OfferedPagesAgreeWithPaginate<T>(data: seq<T>, page: int)
    ensures PaginateData(data, page, AdminQueuePerPage).1 == OfferedPages(|data|)
  {
  }

  /** Every offered page of a non-empty queue holds at least one project. */
  lemma OfferedPageNonEmpty<T>(data: seq<T>, page: int)
    requires 1 <= page <= OfferedPages(|data|)
    ensures |data| > 0 ==> PaginateData(data, page, AdminQueuePerPage).0 != []
  {
    if |data| == 0 { return; }
    var r := PaginateData(data, page, AdminQueuePerPage).0;
    var a := Clamp(PageStart(page, AdminQueuePerPage), |data|);
    var b := Clamp(PageStart(page + 1, AdminQueuePerPage), |data|);
    assert PageStart(page, AdminQueuePerPage) < |data|;
    assert a < b;
    assert |r| == b - a;
  }

  /** The rows shown for a page the (corrected) selector offers. */
  function QueuePage(filtered: seq<Project>, page: int): (r: seq<Project>)
    requires 1 <= page <= OfferedPages(|filtered|)
    ensures |r| <= AdminQueuePerPage
    ensures forall p :: p in r ==> p in filtered
    ensures |filtered| > 0 ==> r != []
  {
    OfferedPageNonEmpty(filtered, page);
    PaginateData(filtered, page, AdminQueuePerPage).0
  }

  // ---------------------------------------------------------------- review actions

  /** The review form's radio options. */
  datatype ReviewAction = ApprovePublish | Reject | RequestChanges {
    function Label(): string {
      match this
      case ApprovePublish => "Approve & Publish"
      case Reject => "Reject"
      case RequestChanges => "Request Changes"
    }

    /** `action in ["Reject", "Request Changes"]` */
    predicate NeedsNotes() {
      Label() in ["Reject", "Request Changes"]
    }

    /** `status_map[action]` */
    function Target(): (s: WorkflowStatus)
      ensures s.IsReviewOutcome()
    {
      match this
      case ApprovePublish => Approved
      case Reject => Rejected
      case RequestChanges => ChangesRequested
    }
  }

  /** Approval is the only action that needs no notes. */
  lemma NotesNeededExactly(a: ReviewAction)
    ensures a.NeedsNotes() <==> a != ApprovePublish
  {
    assert ApprovePublish.Label() != "Reject" && ApprovePublish.Label() != "Request Changes";
  }

  /** The action map is one-to-one and reaches exactly the three review outcomes. */
  lemma ActionMapOneToOne(a: ReviewAction, b: ReviewAction, s: WorkflowStatus)
    ensures a.Target() == b.Target() ==> a == b
    ensures s.IsReviewOutcome() <==> exists c: ReviewAction :: c.Target() == s
  {
    if s.IsReviewOutcome() {
      var c := if s == Approved then ApprovePublish else if s == Rejected then Reject else RequestChanges;
      assert c.Target() == s;
    }
  }

  /** The reviewer every review is attributed to. */
  const AdminReviewer: nat := 1

  const NotesRequiredMessage: string := "Please provide notes for reject/request changes actions."

  const ReviewErrorPrefix: string := "Error processing review: "

  datatype Notice = Error(text: string) | Success(text: string)

  /** `action_messages[new_status]` */
  function CompletionMessage(a: ReviewAction, name: string): string {
    match a
    case ApprovePublish => "Project '" + name + "' has been approved and published!"
    case Reject => "Project '" + name + "' has been rejected."
    case RequestChanges => "Changes have been requested for project '" + name + "'."
  }

  /** The adapter call a review makes: the row's id and the admin reviewer as the adapter
      receives them, and the notes as the reason. */
  function ReviewUpdate(db: Db, project: Project, a: ReviewAction, notes: string, now: int): Adapter.UpdateOutcome {
    Adapter.UpdateProjectStatus(db, NatToString(project.id), a.Target().Name(), Some(notes),
                                Adapter.DecimalReviewer(Some(AdminReviewer)), now)
  }

  /** `handle_review_action`: the store afterwards and the message shown. */
  function HandleReviewAction(db: Db, project: Project, a: ReviewAction, notes: string, now: int): (r: (Db, Notice))
    ensures r.1 == Error(NotesRequiredMessage) <==> a.NeedsNotes() && IsBlank(notes)
    ensures r.1.Error? ==> r.0 == db
    ensures r.1.Success? ==> r.1.text == CompletionMessage(a, project.details.projectName)
  {
    if a.NeedsNotes() && Strip(notes) == [] then (db, Error(NotesRequiredMessage))
    else
      var o := ReviewUpdate(db, project, a, notes, now);
      if o.Raised? then (db, Error(ReviewErrorPrefix))
      else (Adapter.StoreAfter(db, o), Success(CompletionMessage(a, project.details.projectName)))
  }

  /** The three target statuses pass the CHECKs, so once the notes rule is met the page always
      reports the review as complete. */
  lemma ReviewNeverRaises(db: Db, project: Project, a: ReviewAction, notes: string, now: int)
    ensures !ReviewUpdate(db, project, a, notes, now).Raised?
    ensures !(a.NeedsNotes() && IsBlank(notes)) ==> HandleReviewAction(db, project, a, notes, now).1.Success?
  {
    StatusNamesRoundTrip(a.Target(), Planned);
    Adapter.DecimalUpdateOutcome(db, project.id, a.Target().Name(), Some(notes), Some(AdminReviewer), now);
  }

  /** In a valid store, a review of a stored project sets the mapped status and records one
      history row and one review row, both attributed to the admin and carrying the notes. */
  lemma ReviewRecorded(db: Db, project: Project, a: ReviewAction, notes: string, now: int)
    requires Sqlite.Valid(db) && project in db.projects
    requires !(a.NeedsNotes() && IsBlank(notes))
    ensures var d := HandleReviewAction(db, project, a, notes, now).0;
      var k := Sqlite.FindProject(db.projects, project.id).value;
      && Sqlite.FindProject(db.projects, project.id).Some?
      && d.projects == db.projects[k := project.(workflowStatus := a.Target(), updatedAt := now)]
      && d.history == db.history + [Sqlite.HistoryEntry(project.id, project.workflowStatus, a.Target(), Some(AdminReviewer), Some(notes), now)]
      && d.reviews == db.reviews + [Sqlite.Review(project.id, AdminReviewer, a.Target(), Some(notes), now)]
  {
    StatusNamesRoundTrip(a.Target(), Planned);
    StoredRowUpdate(db, project, a.Target(), Some(notes), Some(AdminReviewer), now);
  }

  /** An update of a stored row of a valid store, with a status the CHECKs accept, commits:
      the row takes the status, one history row and (for a non-zero reviewer) one review row
      are appended, and the store stays valid. */
  lemma StoredRowUpdate(db: Db, p: Project, s: WorkflowStatus, reason: Option<string>, reviewer: Option<nat>, now: int)
    requires Sqlite.Valid(db) && p in db.projects
    requires reviewer.Some? && reviewer.value != 0 ==> s.IsReviewOutcome()
    ensures var o := Adapter.UpdateProjectStatus(db, NatToString(p.id), s.Name(), reason, Adapter.DecimalReviewer(reviewer), now);
      var k := Sqlite.FindProject(db.projects, p.id).value;
      var who: Option<int> := if reviewer.Some? then Some(reviewer.value as int) else None;
      && Sqlite.FindProject(db.projects, p.id).Some? && o.Applied?
      && o.db.projects == db.projects[k := p.(workflowStatus := s, updatedAt := now)]
      && o.db.history == db.history + [Sqlite.HistoryEntry(p.id, p.workflowStatus, s, who, reason, now)]
      && o.db.reviews == db.reviews + (if Truthy(who) then [Sqlite.Review(p.id, who.value, s, reason, now)] else [])
      && Sqlite.Valid(o.db)
  {
    var who: Option<int> := if reviewer.Some? then Some(reviewer.value as int) else None;
    StatusNamesRoundTrip(s, Planned);
    StoredRowFound(db, p);
    var k := Sqlite.FindProject(db.projects, p.id).value;
    var backend := Sqlite.UpdateProjectStatus(db, p.id, s.Name(), reason, who, now);
    assert backend.Ok?;
    Adapter.DecimalUpdateOutcome(db, p.id, s.Name(), reason, reviewer, now);
    assert backend.value.projects == db.projects[k := p.(workflowStatus := s, updatedAt := now)];
    Sqlite.UpdateProjectStatusPreservesValid(db, p.id, s.Name(), reason, who, now);
  }

  /** In a valid store, the id of a stored row finds that row. */
  lemma StoredRowFound(db: Db, project: Project)
    requires Sqlite.Valid(db) && project in db.projects
    ensures Sqlite.FindProject(db.projects, project.id).Some?
    ensures db.projects[Sqlite.FindProject(db.projects, project.id).value] == project
  {
    var j :| 0 <= j < |db.projects| && db.projects[j] == project;
    var k := Sqlite.FindProject(db.projects, project.id).value;
    assert !(k < j) && !(j < k);
  }

  /** A review of a project no longer stored changes nothing, yet the page announces it. */
  lemma ReviewOfMissingProjectAnnounced(db: Db, project: Project, a: ReviewAction, notes: string, now: int)
    requires Sqlite.FindProject(db.projects, project.id).None?
    requires !(a.NeedsNotes() && IsBlank(notes))
    ensures HandleReviewAction(db, project, a, notes, now) == (db, Success(CompletionMessage(a, project.details.projectName)))
  {
    Adapter.DecimalUpdateOutcome(db, project.id, a.Target().Name(), Some(notes), Some(AdminReviewer), now);
  }

  // ---------------------------------------------------------------- quick actions

  const QuickApproveReason: string := "Quick approval via admin search"

  const UnpublishReason: string := "Unpublished via admin panel"

  /** The buttons under a selected row of the admin search. */
  datatype QuickAction = ViewDetails | QuickApprove | Unpublish | Delete

  /** The buttons offered for a row. */
  function QuickActions(p: Project): (r: set<QuickAction>)
    ensures ViewDetails in r && Delete in r
    ensures QuickApprove in r <==> p.workflowStatus != Approved
    ensures Unpublish in r <==> p.workflowStatus == Approved
  {
    {ViewDetails, Delete} + (if p.workflowStatus != Approved then {QuickApprove} else {Unpublish})
  }

  /** The status and reason a status-changing button writes. */
  function QuickTarget(a: QuickAction): (WorkflowStatus, string)
    requires a == QuickApprove || a == Unpublish
  {
    if a == QuickApprove then (Approved, QuickApproveReason) else (InReview, UnpublishReason)
  }

  /** Pressing an offered button. The status buttons call `update_project_status` without a
      reviewer; the page ignores what it returns. Viewing and deleting write nothing. */
  function ApplyQuickAction(db: Db, p: Project, a: QuickAction, now: int): (r: Db)
    requires a in QuickActions(p)
    ensures a == ViewDetails || a == Delete ==> r == db
  {
    if a == ViewDetails || a == Delete then db
    else
      var target := QuickTarget(a);
      Adapter.StoreAfter(db, Adapter.UpdateProjectStatus(db, NatToString(p.id), target.0.Name(), Some(target.1),
                                                         Adapter.DecimalReviewer(None), now))
  }

  /** Exactly one of the two status buttons is offered for any row. */
  lemma OneStatusButton(p: Project)
    ensures (QuickApprove in QuickActions(p)) != (Unpublish in QuickActions(p))
  {
  }

  /** What a status button does to a stored row of a valid store: the row takes the button's
      status, one history row records the move with no reviewer and the fixed reason, and no
      review row is written. */
  lemma QuickActionWrites(db: Db, p: Project, a: QuickAction, now: int)
    requires Sqlite.Valid(db) && p in db.projects
    requires a in QuickActions(p) && (a == QuickApprove || a == Unpublish)
    ensures var d := ApplyQuickAction(db, p, a, now);
      var k := Sqlite.FindProject(db.projects, p.id).value;
      && Sqlite.FindProject(db.projects, p.id).Some?
      && d.projects == db.projects[k := p.(workflowStatus := QuickTarget(a).0, updatedAt := now)]
      && d.history == db.history + [Sqlite.HistoryEntry(p.id, p.workflowStatus, QuickTarget(a).0, None, Some(QuickTarget(a).1), now)]
      && d.reviews == db.reviews
      && Sqlite.Valid(d)
  {
    var t := QuickTarget(a);
    StoredRowUpdate(db, p, t.0, Some(t.1), None, now);
    var o := Adapter.UpdateProjectStatus(db, NatToString(p.id), t.0.Name(), Some(t.1), Adapter.DecimalReviewer(None), now);
    assert ApplyQuickAction(db, p, a, now) == o.db;
  }

  /** Quick approval publishes the row; unpublishing returns it to the review queue. */
  lemma QuickActionMovesRow(db: Db, p: Project, a: QuickAction, now: int)
    requires Sqlite.Valid(db) && p in db.projects
    requires a in QuickActions(p) && (a == QuickApprove || a == Unpublish)
    ensures var q := p.(workflowStatus := QuickTarget(a).0, updatedAt := now);
      var d := ApplyQuickAction(db, p, a, now);
      && (a == QuickApprove ==> q in Sqlite.GetAllPublishedProjects(d))
      && (a == Unpublish ==> q in Sqlite.GetPendingReviews(d) && q !in Sqlite.GetAllPublishedProjects(d))
  {
    QuickActionWrites(db, p, a, now);
    var k := Sqlite.FindProject(db.projects, p.id).value;
    var q := p.(workflowStatus := QuickTarget(a).0, updatedAt := now);
    var d := ApplyQuickAction(db, p, a, now);
    assert q in d.projects by {
      assert d.projects[k] == q;
    }
    if a == QuickApprove {
      assert Sqlite.IsApproved(q);
    } else {
      assert Sqlite.IsPending(q) && !Sqlite.IsApproved(q);
    }
  }

  /** Unpublishing and then quick-approving the same row brings back its approved status, with
      two history rows for the round trip. */
  lemma UnpublishThenApprove(db: Db, p: Project, now: int, later: int)
    requires Sqlite.Valid(db) && p in db.projects && p.workflowStatus == Approved
    ensures var q := p.(workflowStatus := InReview, updatedAt := now);
      var d := ApplyQuickAction(db, p, Unpublish, now);
      && q in d.projects && QuickApprove in QuickActions(q)
      && var e := ApplyQuickAction(d, q, QuickApprove, later);
      && e.projects == db.projects[Sqlite.FindProject(db.projects, p.id).value := p.(updatedAt := later)]
      && |e.history| == |db.history| + 2
  {
    QuickActionWrites(db, p, Unpublish, now);
    var k := Sqlite.FindProject(db.projects, p.id).value;
    var q := p.(workflowStatus := InReview, updatedAt := now);
    var d := ApplyQuickAction(db, p, Unpublish, now);
    assert d.projects[k] == q;
    QuickActionWrites(d, q, QuickApprove, later);
    assert Sqlite.FindProject(d.projects, q.id).value == k by {
      StoredRowFound(d, q);
    }
  }

  // ---------------------------------------------------------------- admin search

  /** The admin search's status filter offers every status of `statuses` (WORKFLOW_STATUSES on
      the page), approved and rejected included. */
  function AdminStatusOptions(statuses: seq<string>): (r: seq<string>)
    ensures |r| == |statuses| + 1 && r[0] == AllOption && r[1..] == statuses
  {
    [AllOption] + statuses
  }

  /** The admin search also looks at the contact email. */
  predicate AdminSearchMatches(p: Project, term: string) {
    SearchMatches(p, term) || ContainsIgnoringCase(p.details.contactEmail, term)
  }

  function MatchesAdminTerm(term: string): Project -> bool {
    (p: Project) => AdminSearchMatches(p, term)
  }

  /** The admin search: published then pending rows, searched when a term was typed, then
      filtered by status. Rejected rows are in neither listing. */
  function AdminSearch(db: Db, term: string, statusFilter: string): (r: seq<Project>)
    ensures forall p :: p in r <==>
      && p in db.projects && p.workflowStatus != Rejected
      && AdminSearchMatches(p, term) && StatusSelected(p, statusFilter)
  {
    var all := AdminPool(db);
    var searched := if term != "" then Filter(all, MatchesAdminTerm(term)) else all;
    EmptyTermMatches();
    if statusFilter != AllOption then Filter(searched, HasStatusName(statusFilter)) else searched
  }

  /** `get_all_published_projects() + get_pending_reviews()`: every row but the rejected ones. */
  function AdminPool(db: Db): (r: seq<Project>)
    ensures forall p :: p in r <==> p in db.projects && p.workflowStatus != Rejected
  {
    var published := Sqlite.GetAllPublishedProjects(db);
    var pending := Sqlite.GetPendingReviews(db);
    assert forall p :: p in published + pending <==> p in published || p in pending;
    published + pending
  }

  /** The "rejected" choice of the admin search never finds anything. */
  lemma RejectedFilterFindsNothing(db: Db, term: string)
    ensures AdminSearch(db, term, "rejected") == []
  {
    var r := AdminSearch(db, term, "rejected");
    if r != [] {
      assert r[0] in r;
      StatusNamesRoundTrip(r[0].workflowStatus, Planned);
    }
  }

  // ---------------------------------------------------------------- the search tab

  /** The attributes of the object `get_cached_database` hands the page: the adapter's fields
      and the methods of the database interface. `get_database` is a module-level function of
      src/database_interface.py, not one of them; the PostgreSQL store lacks it as well. */
  const BackendAttributes: set<string> := {
    "config", "db", "connect", "disconnect", "health_check", "get_all_published_projects",
    "get_project_by_id", "get_projects_by_filters", "create_project", "update_project_status",
    "get_pending_reviews", "get_admin_metrics", "get_kpi_metrics", "get_sdg_distribution",
    "get_funding_by_region", "get_unique_cities", "get_unique_organizations", "get_uia_regions",
    "get_sdgs", "get_projects_near_location", "get_projects_in_bounds", "search_projects",
    "bulk_update_projects", "export_projects_data"}

  /** The columns of `projects p JOIN uia_regions ur` in the SQLite schema (src/database.py:28-32
      and 59-80). */
  const SearchJoinColumns: set<string> := {
    "id", "project_name", "funding_needed_usd", "uia_region_id", "city", "country", "latitude",
    "longitude", "organization_name", "contact_person", "contact_email", "brief_description",
    "detailed_description", "success_factors", "project_status", "workflow_status", "reference_id",
    "created_at", "updated_at", "submitted_by", "name", "description"}

  /** The widgets the search tab draws, in order. */
  datatype SearchWidget = SearchBox | StatusBox | RegionBox | ResultCount

  /** What stops the region box: the missing method, or the SQL naming a missing column. */
  datatype SearchError = NoGetDatabaseAttribute | NoRegionNameColumn

  /** How a run of `render_project_search` ends: an exception after the widgets drawn so far,
      or the drawn widgets and the rows listed. */
  datatype SearchTab =
    | Raised(error: SearchError, drawn: seq<SearchWidget>)
    | Shown(widgets: seq<SearchWidget>, rows: seq<Project>)

  /** `render_project_search` against a backend with the attributes `attrs`, whose join has the
      columns `columns`: the region box's options need `db.get_database()` and a `region_name`
      column; only then are the rows listed. */
  function RenderProjectSearchWith(attrs: set<string>, columns: set<string>, db: Db, term: string,
                                   statusFilter: string): (r: SearchTab)
    ensures r.Raised? <==> "get_database" !in attrs || "region_name" !in columns
    ensures r.Raised? ==> r.drawn == [SearchBox, StatusBox] && (r.error == NoGetDatabaseAttribute <==> "get_database" !in attrs)
    ensures r.Shown? ==> r.rows == AdminSearch(db, term, statusFilter)
  {
    if "get_database" !in attrs then Raised(NoGetDatabaseAttribute, [SearchBox, StatusBox])
    else if "region_name" !in columns then Raised(NoRegionNameColumn, [SearchBox, StatusBox])
    else Shown([SearchBox, StatusBox, RegionBox, ResultCount], AdminSearch(db, term, statusFilter))
  }

  /** The tab as written, against the backend the page actually holds. */
  function RenderProjectSearchAsWritten(db: Db, term: string, statusFilter: string): SearchTab {
    RenderProjectSearchWith(BackendAttributes, SearchJoinColumns, db, term, statusFilter)
  }

  /** As written, every run of the search tab raises AttributeError once the status box is
      drawn: no row is listed and no quick-action button is ever offered. */
  lemma SearchTabRaisesAsWritten(db: Db, term: string, statusFilter: string)
    ensures RenderProjectSearchAsWritten(db, term, statusFilter) == Raised(NoGetDatabaseAttribute, [SearchBox, StatusBox])
  {
    assert "get_database" !in BackendAttributes;
  }

  /** The tab as intended: the region box is drawn (its options do not filter anything) and the
      matching rows are listed. */
  function RenderProjectSearch(db: Db, term: string, statusFilter: string): (r: SearchTab)
    ensures r.Shown? && r.widgets == [SearchBox, StatusBox, RegionBox, ResultCount]
    ensures forall p :: p in r.rows <==>
      && p in db.projects && p.workflowStatus != Rejected
      && AdminSearchMatches(p, term) && StatusSelected(p, statusFilter)
  {
    Shown([SearchBox, StatusBox, RegionBox, ResultCount], AdminSearch(db, term, statusFilter))
  }

  /** The intended tab is what the page shows once the backend offers `get_database` and the
      join has a `region_name` column. */
  lemma IntendedSearchNeedsBoth(attrs: set<string>, columns: set<string>, db: Db, term: string, statusFilter: string)
    ensures RenderProjectSearchWith(attrs, columns, db, term, statusFilter) == RenderProjectSearch(db, term, statusFilter)
      <==> "get_database" in attrs && "region_name" in columns
  {
  }
}
