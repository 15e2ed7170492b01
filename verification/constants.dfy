/** Reference data and limits of the atlas: regions, SDGs, typologies, requirements, statuses,
    colours, page sizes, form limits and search limits (src/constants.py). */
module Constants {
  import opened Wrappers
  import opened Text

  // ---------------------------------------------------------------- statuses

  /** The review workflow a submission goes through (WORKFLOW_STATUSES). */
  datatype WorkflowStatus = Submitted | InReview | Approved | Rejected | ChangesRequested {
    /** The stored spelling of the status. */
    function Name(): string {
      match this
      case Submitted => "submitted"
      case InReview => "in_review"
      case Approved => "approved"
      case Rejected => "rejected"
      case ChangesRequested => "changes_requested"
    }

    /** The outcomes a reviewer records (the CHECK on `reviews.review_status`). */
    predicate IsReviewOutcome() {
      this == Approved || this == Rejected || this == ChangesRequested
    }
  }

  /** The project's own delivery stage (PROJECT_STATUSES). */
  datatype ProjectStatus = Planned | InProgress | Implemented {
    function Label(): string {
      match this
      case Planned => "Planned"
      case InProgress => "In Progress"
      case Implemented => "Implemented"
    }
  }

  const WorkflowStatuses: seq<string> := ["submitted", "in_review", "approved", "rejected", "changes_requested"]

  const ProjectStatuses: seq<string> := ["Planned", "In Progress", "Implemented"]

  /** The PostgreSQL enum labels each status is stored under (WORKFLOW_STATUS_ENUM_VALUES). */
  const WorkflowStatusEnumValues: map<string, string> := map[
    "submitted" := "submitted",
    "in_review" := "in_review",
    "approved" := "approved",
    "rejected" := "rejected",
    "changes_requested" := "changes_requested"
  ]

  /** PROJECT_STATUS_ENUM_VALUES */
  const ProjectStatusEnumValues: map<string, string> := map[
    "Planned" := "Planned",
    "In Progress" := "In Progress",
    "Implemented" := "Implemented"
  ]

  /** The enum mappings cover exactly the status lists, and map every status to its own
      spelling, so a status passes to PostgreSQL unchanged. */
  lemma EnumValuesMatchStatuses()
    ensures WorkflowStatusEnumValues.Keys == set s | s in WorkflowStatuses
    ensures ProjectStatusEnumValues.Keys == set s | s in ProjectStatuses
    ensures forall s :: s in WorkflowStatusEnumValues ==> WorkflowStatusEnumValues[s] == s
    ensures forall s :: s in ProjectStatusEnumValues ==> ProjectStatusEnumValues[s] == s
  {
    assert WorkflowStatusEnumValues.Keys == {"submitted", "in_review", "approved", "rejected", "changes_requested"};
    assert ProjectStatusEnumValues.Keys == {"Planned", "In Progress", "Implemented"};
  }

  /** The status a stored string denotes; `None` for anything outside WORKFLOW_STATUSES. */
  function ParseWorkflowStatus(s: string): (r: Option<WorkflowStatus>)
    ensures r.Some? ==> r.value.Name() == s
    ensures r.None? <==> s !in WorkflowStatuses
  {
    if s == "submitted" then Some(Submitted)
    else if s == "in_review" then Some(InReview)
    else if s == "approved" then Some(Approved)
    else if s == "rejected" then Some(Rejected)
    else if s == "changes_requested" then Some(ChangesRequested)
    else None
  }

  /** The stage a stored string denotes; `None` for anything outside PROJECT_STATUSES. */
  function ParseProjectStatus(s: string): (r: Option<ProjectStatus>)
    ensures r.Some? ==> r.value.Label() == s
    ensures r.None? <==> s !in ProjectStatuses
  {
    if s == "Planned" then Some(Planned)
    else if s == "In Progress" then Some(InProgress)
    else if s == "Implemented" then Some(Implemented)
    else None
  }

  /** Every status is listed under its name and parses back to itself. */
  lemma StatusNamesRoundTrip(w: WorkflowStatus, p: ProjectStatus)
    ensures w.Name() in WorkflowStatuses && ParseWorkflowStatus(w.Name()) == Some(w)
    ensures p.Label() in ProjectStatuses && ParseProjectStatus(p.Label()) == Some(p)
  {
  }

  // ---------------------------------------------------------------- colours

  /** A `#RRGGBB` colour: the `sdg_color_hex ~ '^#[0-9A-Fa-f]{6}$'` check. */
  predicate IsHexColor(s: string) {
    |s| == 7 && s[0] == '#' && forall i :: 1 <= i < 7 ==> IsHexDigit(s[i])
  }

  /** STATUS_COLORS: one colour per project stage and per workflow status. */
  const StatusColors: map<string, string> := map[
    "Planned" := "#808080",
    "In Progress" := "#FFC107",
    "Implemented" := "#28A745",
    "submitted" := "#17A2B8",
    "in_review" := "#FFC107",
    "approved" := "#28A745",
    "rejected" := "#DC3545",
    "changes_requested" := "#FD7E14"
  ]

  /** The badge colour of a status name, if it has one. */
  function StatusColor(name: string): (r: Option<string>)
    ensures r.Some? <==> name in ProjectStatuses || name in WorkflowStatuses
    ensures r.Some? ==> IsHexColor(r.value)
  {
    if name in StatusColors then Some(StatusColors[name]) else None
  }

  // ---------------------------------------------------------------- regions

  /** UIA_REGIONS, in dictionary order. */
  const UiaRegions: seq<(int, string)> := [
    (1, "Section I - Western Europe"),
    (2, "Section II - Middle East and Eastern Europe"),
    (3, "Section III - Americas"),
    (4, "Section IV - Oceania"),
    (5, "Section V - Africa")
  ]

  /** `UIA_REGIONS.get(id)` */
  function RegionName(id: int): (r: Option<string>)
    ensures r.Some? <==> 1 <= id <= 5
    ensures r.Some? ==> UiaRegions[id - 1] == (id, r.value)
  {
    if 1 <= id <= 5 then Some(UiaRegions[id - 1].1) else None
  }

  // ---------------------------------------------------------------- SDGs

  datatype SdgInfo = SdgInfo(number: int, name: string, color: string, description: string)

  /** SDGS, in goal order. */
  const Sdgs: seq<SdgInfo> := [
    SdgInfo(1, "No Poverty", "#E5243B", "End poverty in all its forms everywhere"),
    SdgInfo(2, "Zero Hunger", "#DDA63A", "End hunger, achieve food security and improved nutrition"),
    SdgInfo(3, "Good Health and Well-being", "#4C9F38", "Ensure healthy lives and promote well-being for all"),
    SdgInfo(4, "Quality Education", "#C5192D", "Ensure inclusive and equitable quality education"),
    SdgInfo(5, "Gender Equality", "#FF3A21", "Achieve gender equality and empower all women and girls"),
    SdgInfo(6, "Clean Water and Sanitation", "#26BDE2", "Ensure availability and sustainable management of water"),
    SdgInfo(7, "Affordable and Clean Energy", "#FCC30B", "Ensure access to affordable, reliable, sustainable energy"),
    SdgInfo(8, "Decent Work and Economic Growth", "#A21942", "Promote sustained, inclusive economic growth"),
    SdgInfo(9, "Industry, Innovation and Infrastructure", "#FD6925", "Build resilient infrastructure, promote innovation"),
    SdgInfo(10, "Reduced Inequalities", "#DD1367", "Reduce inequality within and among countries"),
    SdgInfo(11, "Sustainable Cities and Communities", "#FD9D24", "Make cities and human settlements sustainable"),
    SdgInfo(12, "Responsible Consumption and Production", "#BF8B2E", "Ensure sustainable consumption and production patterns"),
    SdgInfo(13, "Climate Action", "#3F7E44", "Take urgent action to combat climate change"),
    SdgInfo(14, "Life Below Water", "#0A97D9", "Conserve and sustainably use the oceans, seas"),
    SdgInfo(15, "Life on Land", "#56C02B", "Protect, restore and promote sustainable use of ecosystems"),
    SdgInfo(16, "Peace, Justice and Strong Institutions", "#00689D", "Promote peaceful and inclusive societies"),
    SdgInfo(17, "Partnerships for the Goals", "#19486A", "Strengthen means of implementation and partnerships")
  ]

  /** `SDGS.get(n)`: goals are numbered 1 to 17 and every goal has a valid colour. */
  function SdgByNumber(n: int): (r: Option<SdgInfo>)
    ensures r.Some? <==> 1 <= n <= 17
    ensures r.Some? ==> r.value.number == n && IsHexColor(r.value.color) && r.value == Sdgs[n - 1]
  {
    if 1 <= n <= 17 then
      SdgTableWellFormed();
      Some(Sdgs[n - 1])
    else None
  }

  lemma SdgTableWellFormed()
    ensures |Sdgs| == 17
    ensures forall i :: 0 <= i < |Sdgs| ==> Sdgs[i].number == i + 1 && IsHexColor(Sdgs[i].color)
  {
  }

  // ---------------------------------------------------------------- typologies

  const ProjectTypologies: seq<string> := [
    "Residential",
    "Commercial & Mixed-Use",
    "Hospitality & Tourism",
    "Educational",
    "Healthcare",
    "Civic & Government",
    "Cultural & Heritage",
    "Sports & Recreation",
    "Industrial & Logistics",
    "Infrastructure & Utilities",
    "Public Realm & Urban Landscape",
    "Natural Environment & Ecological Projects",
    "Traditional Markets & Bazaars",
    "Other"
  ]

  /** TYPOLOGY_CODES */
  const TypologyCodes: map<string, string> := map[
    "Residential" := "RESIDENTIAL",
    "Commercial & Mixed-Use" := "COMMERCIAL_MIXED",
    "Hospitality & Tourism" := "HOSPITALITY_TOURISM",
    "Educational" := "EDUCATIONAL",
    "Healthcare" := "HEALTHCARE",
    "Civic & Government" := "CIVIC_GOVERNMENT",
    "Cultural & Heritage" := "CULTURAL_HERITAGE",
    "Sports & Recreation" := "SPORTS_RECREATION",
    "Industrial & Logistics" := "INDUSTRIAL_LOGISTICS",
    "Infrastructure & Utilities" := "INFRASTRUCTURE_UTILITIES",
    "Public Realm & Urban Landscape" := "PUBLIC_REALM_URBAN",
    "Natural Environment & Ecological Projects" := "NATURAL_ENVIRONMENT",
    "Traditional Markets & Bazaars" := "TRADITIONAL_MARKETS",
    "Other" := "OTHER"
  ]

  /** `TYPOLOGY_CODES.get(name, "OTHER")`: unknown names (such as "Other: ..." entries) fall
      back to the OTHER code. */
  function TypologyCodeFor(name: string): (r: string)
    ensures name in ProjectTypologies ==> r == TypologyCodes[name]
    ensures name !in ProjectTypologies ==> r == "OTHER"
    ensures r in TypologyCodes.Values
  {
    TypologyCodesCoverTypologies();
    assert TypologyCodes["Other"] == "OTHER";
    if name in TypologyCodes then TypologyCodes[name] else "OTHER"
  }

  /** TYPOLOGY_CODES has exactly one entry per listed typology, and no two share a code. */
  lemma TypologyCodesCoverTypologies()
    ensures forall t :: t in TypologyCodes <==> t in ProjectTypologies
  {
  }

  lemma TypologyCodesDistinct()
    ensures forall a, b :: a in TypologyCodes && b in TypologyCodes && a != b ==> TypologyCodes[a] != TypologyCodes[b]
  {
  }

  // ---------------------------------------------------------------- requirements

  /** PROJECT_REQUIREMENTS: category display name and its options, in dictionary order. */
  const ProjectRequirements: seq<(string, seq<string>)> := [
    ("Funding & Financial", [
      "Private Investment / Corporate Sponsorship",
      "Public Funding / Government Grants",
      "International Aid / Development Grants",
      "Community Funding / Crowdfunding",
      "Philanthropic Support"]),
    ("Government & Regulatory", [
      "National Government Support & Political Will",
      "Regional / Gubernatorial Support",
      "Local / Municipal Support & Endorsement",
      "Favorable Policies or Regulations",
      "Streamlined Permitting & Approval Process"]),
    ("Other", [
      "Strong Project Leadership & Management",
      "Media Coverage & Public Awareness",
      "Availability of Land / Site",
      "Other"])
  ]

  /** REQUIREMENT_CODES */
  const RequirementCodes: map<string, string> := map[
    "Private Investment / Corporate Sponsorship" := "FUNDING_PRIVATE_INVESTMENT",
    "Public Funding / Government Grants" := "FUNDING_PUBLIC_GRANTS",
    "International Aid / Development Grants" := "FUNDING_INTERNATIONAL_AID",
    "Community Funding / Crowdfunding" := "FUNDING_COMMUNITY_CROWDFUNDING",
    "Philanthropic Support" := "FUNDING_PHILANTHROPIC",
    "National Government Support & Political Will" := "GOV_NATIONAL_SUPPORT",
    "Regional / Gubernatorial Support" := "GOV_REGIONAL_SUPPORT",
    "Local / Municipal Support & Endorsement" := "GOV_LOCAL_SUPPORT",
    "Favorable Policies or Regulations" := "GOV_FAVORABLE_POLICIES",
    "Streamlined Permitting & Approval Process" := "GOV_STREAMLINED_PERMITS",
    "Strong Project Leadership & Management" := "OTHER_STRONG_LEADERSHIP",
    "Media Coverage & Public Awareness" := "OTHER_MEDIA_COVERAGE",
    "Availability of Land / Site" := "OTHER_LAND_AVAILABILITY",
    "Other" := "OTHER_CUSTOM"
  ]

  /** Every requirement option, all categories in order. */
  const ListedRequirements: seq<string> :=
    ProjectRequirements[0].1 + ProjectRequirements[1].1 + ProjectRequirements[2].1

  /** A requirement option listed under some category. */
  predicate IsListedRequirement(name: string) {
    name in ListedRequirements
  }

  /** `REQUIREMENT_CODES.get(text, "OTHER_CUSTOM")`: free-text requirements fall back to the
      OTHER_CUSTOM code. */
  function RequirementCodeFor(text: string): (r: string)
    ensures IsListedRequirement(text) ==> r == RequirementCodes[text]
    ensures !IsListedRequirement(text) ==> r == "OTHER_CUSTOM"
    ensures r in RequirementCodes.Values
  {
    RequirementCodesCoverRequirements();
    assert RequirementCodes["Other"] == "OTHER_CUSTOM";
    if text in RequirementCodes then RequirementCodes[text] else "OTHER_CUSTOM"
  }

  /** REQUIREMENT_CODES has exactly one entry per listed option. */
  lemma RequirementCodesCoverRequirements()
    ensures forall name :: name in RequirementCodes <==> IsListedRequirement(name)
  {
  }

  /** No two requirement options share a code. */
  lemma RequirementCodesDistinct()
    ensures forall a, b :: a in RequirementCodes && b in RequirementCodes && a != b ==> RequirementCodes[a] != RequirementCodes[b]
  {
    forall a, b | a in RequirementCodes && b in RequirementCodes && a != b
      ensures RequirementCodes[a] != RequirementCodes[b]
    {
      if a in ProjectRequirements[0].1 {
        FundingCodesDistinct(a, b);
      } else if a in ProjectRequirements[1].1 {
        GovernmentCodesDistinct(a, b);
      } else {
        OtherCodesDistinct(a, b);
      }
    }
  }

  lemma FundingCodesDistinct(a: string, b: string)
    requires a in ProjectRequirements[0].1 && b in RequirementCodes && a != b
    ensures RequirementCodes[a] != RequirementCodes[b]
  {
  }

  lemma GovernmentCodesDistinct(a: string, b: string)
    requires a in ProjectRequirements[1].1 && b in RequirementCodes && a != b
    ensures RequirementCodes[a] != RequirementCodes[b]
  {
  }

  lemma OtherCodesDistinct(a: string, b: string)
    requires a in RequirementCodes && a !in ProjectRequirements[0].1 && a !in ProjectRequirements[1].1
    requires b in RequirementCodes && a != b
    ensures RequirementCodes[a] != RequirementCodes[b]
  {
  }

  // ---------------------------------------------------------------- limits

  const ProjectsPerPage: nat := 10
  const AdminQueuePerPage: nat := 20

  const MaxProjectNameLength: nat := 200
  const MaxBriefDescriptionLength: nat := 255
  const MaxDetailedDescriptionLength: nat := 5000
  const MaxSuccessFactorsLength: nat := 2000
  const MaxOrganizationNameLength: nat := 200
  const MaxContactPersonLength: nat := 100

  /** MIN_FUNDING_AMOUNT and MAX_FUNDING_AMOUNT (999999999.99) on whole-dollar amounts. */
  const MinFundingAmount: int := 0
  const MaxFundingAmount: int := 999999999

  const LatMin: real := -90.0
  const LatMax: real := 90.0
  const LonMin: real := -180.0
  const LonMax: real := 180.0

  const DefaultSearchRadiusKm: real := 50.0
  const MaxSearchRadiusKm: real := 500.0
  const MaxQueryResults: nat := 10000

  // ---------------------------------------------------------------- messages

  const InvalidEmailMessage: string := "Please enter a valid email address."
  const NoSdgSelectedMessage: string := "Please select at least one SDG."
  const FundingRangeMessage: string := "Funding amount must be between $0 and $999,999,999.99"
}
