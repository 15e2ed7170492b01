/** The dashboard page (pages/2_dashboard.py): how the filter bar's selections become the
    filter dict, which listing the page then asks for, the KPI widgets over that listing, and
    the projects table's search and pagination. The page talks to the store through the
    SQLite adapter, which passes on only the four named filters. */
module DashboardPage {
  import opened Wrappers
  import opened Text
  import opened Constants
  import opened Collections
  import opened Records
  import opened Utils
  import Sqlite = SqliteDb
  import AdminPage

  type Project = Sqlite.Project

  const AllRegions: string := "All Regions"
  const AllSdgs: string := "All SDGs"
  const AllCities: string := "All Cities"
  const AllOrganizations: string := "All Organizations"

  // ---------------------------------------------------------------- filter bar

  /** What the filter bar's widgets hold when the page reruns. */
  datatype Selections = Selections(
    region: string, sdg: string, city: string, org: string,
    useLocation: bool, lat: real, lon: real, radiusKm: int,
    useBounds: bool, north: real, south: real, east: real, west: real)

  /** The widgets' initial values: every "All …" option, (0, 0) with a 50 km radius, the whole
      world as the box, and both checkboxes as given. */
  function DefaultSelections(useLocation: bool, useBounds: bool): Selections {
    Selections(AllRegions, AllSdgs, AllCities, AllOrganizations,
               useLocation, 0.0, 0.0, 50, useBounds, 90.0, -90.0, 180.0, -180.0)
  }

  datatype Near = Near(lat: real, lon: real, radiusKm: int)

  /** `[north, south, east, west]` */
  datatype Box = Box(north: real, south: real, east: real, west: real)

  /** The filter dict: a key is present exactly when its field is `Some`. */
  datatype FilterDict = FilterDict(
    region: Option<string>, sdg: Option<int>, city: Option<string>, fundedBy: Option<string>,
    near: Option<Near>, bounds: Option<Box>)

  predicate IsEmpty(d: FilterDict) {
    d.region.None? && d.sdg.None? && d.city.None? && d.fundedBy.None? && d.near.None? && d.bounds.None?
  }

  /** The region select box: "All Regions", then the region names in catalogue order. */
  function RegionOptions(regions: seq<(int, string)>): (r: seq<string>)
    ensures |r| == |regions| + 1 && r[0] == AllRegions
    ensures forall i :: 0 <= i < |regions| ==> r[i + 1] == regions[i].1
  {
    [AllRegions] + seq(|regions|, i requires 0 <= i < |regions| => regions[i].1)
  }

  /** An SDG option, "{number}. {name}". */
  function SdgLabel(n: nat, name: string): string {
    NatToString(n) + ". " + name
  }

  /** The SDG select box: "All SDGs", then one label per goal in table order. */
  function SdgOptions(sdgs: seq<SdgInfo>): (r: seq<string>)
    requires forall i :: 0 <= i < |sdgs| ==> sdgs[i].number >= 0
    ensures |r| == |sdgs| + 1 && r[0] == AllSdgs
    ensures forall i :: 0 <= i < |sdgs| ==> r[i + 1] == SdgLabel(sdgs[i].number, sdgs[i].name)
  {
    [AllSdgs] + seq(|sdgs|, i requires 0 <= i < |sdgs| => SdgLabel(sdgs[i].number, sdgs[i].name))
  }

  /** `s.split(sep)[0]`: the text before the first `sep`, or all of `s` when it has none. */
  function BeforeFirst(s: string, sep: string): (r: string)
    ensures !Contains(s, sep) ==> r == s
    ensures Contains(s, sep) ==> OccursAt(s, sep, |r|) && r == s[..|r|] && forall j :: 0 <= j < |r| ==> !OccursAt(s, sep, j)
  {
    match Find(s, sep)
    case None => s
    case Some(k) => s[..k]
  }

  /** `int(selected_sdg.split(".")[0])`; `None` where `int` would raise. */
  function SdgFilterValue(selected: string): Option<int> {
    ParseInt(BeforeFirst(selected, "."))
  }

  /** The text before an SDG label's first "." is the goal number's digits. */
  lemma BeforeDotIsNumber(n: nat, name: string)
    ensures BeforeFirst(SdgLabel(n, name), ".") == NatToString(n)
  {
    var digits := NatToString(n);
    var s := SdgLabel(n, name);
    var m := |digits|;
    assert OccursAt(s, ".", m) by {
      assert s[m..m + 1] == ".";
    }
    forall j | 0 <= j < m
      ensures !OccursAt(s, ".", j)
    {
      assert s[j] == digits[j];
    }
    assert s[..m] == digits;
  }

  /** Every SDG label gives back its goal number. */
  lemma SdgLabelParses(n: nat, name: string)
    ensures SdgFilterValue(SdgLabel(n, name)) == Some(n)
  {
    BeforeDotIsNumber(n, name);
    ParseIntOfNatToString(n);
  }

  /** The location search applies only when enabled and moved away from (0, 0). */
  predicate LocationApplies(s: Selections) {
    s.useLocation && (s.lat != 0.0 || s.lon != 0.0)
  }

  predicate WholeWorld(s: Selections) {
    s.north == 90.0 && s.south == -90.0 && s.east == 180.0 && s.west == -180.0
  }

  /** The bounding box applies only when enabled, narrower than the whole world, and with
      north above south and east beyond west. */
  predicate BoundsApply(s: Selections) {
    s.useBounds && !WholeWorld(s) && s.north > s.south && s.east > s.west
  }

  /** `render_filter_bar`'s dict; `None` when the SDG selection has no number in front (the
      page would raise). */
  function BuildFilters(s: Selections): (r: Option<FilterDict>)
    ensures r.None? <==> s.sdg != AllSdgs && SdgFilterValue(s.sdg).None?
    ensures r.Some? ==>
      && (r.value.region.Some? <==> s.region != AllRegions)
      && (r.value.region.Some? ==> r.value.region.value == s.region)
      && (r.value.sdg.Some? <==> s.sdg != AllSdgs)
      && (r.value.sdg.Some? ==> r.value.sdg == SdgFilterValue(s.sdg))
      && (r.value.city.Some? <==> s.city != AllCities)
      && (r.value.city.Some? ==> r.value.city.value == s.city)
      && (r.value.fundedBy.Some? <==> s.org != AllOrganizations)
      && (r.value.fundedBy.Some? ==> r.value.fundedBy.value == s.org)
      && (r.value.near.Some? <==> LocationApplies(s))
      && (r.value.near.Some? ==> r.value.near.value == Near(s.lat, s.lon, s.radiusKm))
      && (r.value.bounds.Some? <==> BoundsApply(s))
      && (r.value.bounds.Some? ==> r.value.bounds.value == Box(s.north, s.south, s.east, s.west))
  {
    var sdg := if s.sdg != AllSdgs then SdgFilterValue(s.sdg) else None;
    if s.sdg != AllSdgs && sdg.None? then None
    else
      Some(FilterDict(
        if s.region != AllRegions then Some(s.region) else None,
        sdg,
        if s.city != AllCities then Some(s.city) else None,
        if s.org != AllOrganizations then Some(s.org) else None,
        if LocationApplies(s) then Some(Near(s.lat, s.lon, s.radiusKm)) else None,
        if BoundsApply(s) then Some(Box(s.north, s.south, s.east, s.west)) else None))
  }

  /** Ticking either checkbox without moving its inputs adds no key: the untouched filter bar
      always gives the empty dict. */
  lemma UntouchedBarIsEmpty(useLocation: bool, useBounds: bool)
    ensures BuildFilters(DefaultSelections(useLocation, useBounds)) == Some(FilterDict(None, None, None, None, None, None))
  {
  }

  /** A box that reaches the dict is never inverted or empty. */
  lemma BoxIsProper(s: Selections)
    requires BuildFilters(s).Some? && BuildFilters(s).value.bounds.Some?
    ensures var b := BuildFilters(s).value.bounds.value; b.north > b.south && b.east > b.west
  {
  }

  /** Whatever is picked from the SDG box, the page gets a goal number from it, and that
      number is a goal of the table (so it is a truthy filter). */
  lemma OfferedSdgParses(selected: string)
    requires selected in SdgOptions(Sdgs)
    ensures selected != AllSdgs ==> exists n :: 1 <= n <= 17 && SdgFilterValue(selected) == Some(n)
  {
    SdgTableWellFormed();
    var options := SdgOptions(Sdgs);
    var i :| 0 <= i < |options| && options[i] == selected;
    if i > 0 {
      var info := Sdgs[i - 1];
      SdgLabelParses(info.number, info.name);
      assert SdgFilterValue(selected) == Some(info.number);
    }
  }

  /** The SQLite adapter's `get_projects_by_filters(region, sdg, city, funded_by, **kwargs)`
      receives only the four named keys. */
  function ToQuery(d: FilterDict): Filters {
    Filters(d.region, d.sdg, d.city, d.fundedBy)
  }

  /** The page's listing: all published projects for an empty dict, the filtered query
      otherwise. */
  function Listing(db: Sqlite.Db, d: FilterDict): (r: seq<Project>)
    ensures IsEmpty(d) ==> r == Sqlite.GetAllPublishedProjects(db)
    ensures !IsEmpty(d) ==> r == Sqlite.GetProjectsByFilters(db, ToQuery(d))
  {
    if IsEmpty(d) then Sqlite.GetAllPublishedProjects(db) else Sqlite.GetProjectsByFilters(db, ToQuery(d))
  }

  /** The two branches agree: the listing is always the filtered query of the named keys. */
  lemma ListingIsFilteredQuery(db: Sqlite.Db, d: FilterDict)
    ensures Listing(db, d) == Sqlite.GetProjectsByFilters(db, ToQuery(d))
    ensures forall p :: p in Listing(db, d) <==> p in db.projects && Sqlite.MatchesFilters(db, ToQuery(d), p)
  {
    if IsEmpty(d) {
      Sqlite.NoFiltersIsAllPublished(db);
    }
  }

  /** Through the SQLite adapter the location and box keys change nothing. */
  lemma GeoKeysIgnored(db: Sqlite.Db, d: FilterDict)
    ensures Listing(db, d) == Listing(db, d.(near := None, bounds := None))
  {
    ListingIsFilteredQuery(db, d);
    ListingIsFilteredQuery(db, d.(near := None, bounds := None));
  }

  // ---------------------------------------------------------------- KPI widgets

  predicate IsImplementedRow(r: Row) {
    r.projectStatus == Implemented.Label()
  }

  /** "Funding spent" as pandas computes it: the needed amounts of the Implemented rows alone,
      nulls as zero. */
  lemma {:induction false} SpentIsImplementedNeeded(rows: seq<Row>)
    ensures TotalSpent(rows) == TotalNeeded(Filter(rows, IsImplementedRow))
  {
    if |rows| > 0 {
      SpentIsImplementedNeeded(rows[1..]);
      assert rows == [rows[0]] + rows[1..];
      if IsImplementedRow(rows[0]) {
        var f := Filter(rows, IsImplementedRow);
        assert f == [rows[0]] + Filter(rows[1..], IsImplementedRow);
        assert f[1..] == Filter(rows[1..], IsImplementedRow);
      }
    }
  }

  /** `render_kpi_widgets` over the listed projects. */
  function DashboardKpi(listing: seq<Project>): (k: Kpi)
    ensures k.totalProjects == |listing|
    ensures k.totalCities == |Image(Sqlite.RowsOf(listing), CityOf)|
    ensures k.totalCountries == |Image(Sqlite.RowsOf(listing), CountryOf)|
    ensures k.fundingNeeded == TotalNeeded(Sqlite.RowsOf(listing))
    ensures k.fundingSpent == TotalNeeded(Filter(Sqlite.RowsOf(listing), IsImplementedRow))
    ensures |listing| == 0 ==> k == Kpi(0, 0, 0, 0, 0)
  {
    SpentIsImplementedNeeded(Sqlite.RowsOf(listing));
    ComputeKpi(Sqlite.RowsOf(listing))
  }

  /** The widgets show what the store's own `get_kpi_metrics` computes for the same filters. */
  lemma KpiMatchesStoreMetrics(db: Sqlite.Db, d: FilterDict)
    ensures DashboardKpi(Listing(db, d)) == Sqlite.GetKpiMetrics(db, ToQuery(d))
  {
    ListingIsFilteredQuery(db, d);
  }

  // ---------------------------------------------------------------- projects table

  /** The table's search box: every row for an empty term, otherwise the rows whose name or
      organization contains the term, ignoring case. */
  function SearchTable(listing: seq<Project>, term: string): (r: seq<Project>)
    ensures |r| <= |listing|
    ensures forall p :: p in r <==> p in listing && AdminPage.SearchMatches(p, term)
  {
    AdminPage.EmptyTermMatches();
    if term == [] then listing else Filter(listing, AdminPage.MatchesTerm(term))
  }

  /** The empty term and a term that occurs everywhere leave the table as it is. */
  lemma EmptySearchKeepsTable(listing: seq<Project>)
    ensures SearchTable(listing, "") == listing
  {
  }

  const TablePerPage: nat := 10

  /** `max(1, (total_items + items_per_page - 1) // items_per_page)` */
  function TablePageCount(n: nat): (t: nat)
    ensures t >= 1 && n <= t * TablePerPage
    ensures t == 1 || (t - 1) * TablePerPage < n
  {
    var q := (n + TablePerPage - 1) / TablePerPage;
    DivCeil(n, TablePerPage);
    if q < 1 then 1 else q
  }

  /** `projects_df.iloc[start_idx:end_idx]` for the selected page. */
  function TablePage<T>(rows: seq<T>, page: int): (r: seq<T>)
    ensures |r| <= TablePerPage
    ensures 1 <= page ==>
      r == rows[Clamp(PageStart(page, TablePerPage), |rows|)..Clamp(PageStart(page + 1, TablePerPage), |rows|)]
  {
    var start := (page - 1) * TablePerPage;
    PageBounds(page, TablePerPage);
    PySlice(rows, start, start + TablePerPage)
  }

  /** The table pages exactly as `paginate_data` would with ten rows a page. */
  lemma TableAgreesWithPaginate<T>(rows: seq<T>, page: int)
    ensures TablePage(rows, page) == PaginateData(rows, page, TablePerPage).0
    ensures TablePageCount(|rows|) == PaginateData(rows, page, TablePerPage).1
  {
  }

  /** Every page the selector offers of a non-empty table shows at least one row. */
  lemma OfferedTablePageFilled<T>(rows: seq<T>, page: int)
    requires 1 <= page <= TablePageCount(|rows|)
    ensures |rows| > 0 ==> TablePage(rows, page) != []
  {
    if |rows| == 0 { return; }
    var a := Clamp(PageStart(page, TablePerPage), |rows|);
    var b := Clamp(PageStart(page + 1, TablePerPage), |rows|);
    assert PageStart(page, TablePerPage) < |rows|;
    assert a < b;
  }

  /** The offered pages, laid end to end, show every row exactly once and in order. */
  lemma TablePagesCoverRows<T>(rows: seq<T>)
    ensures PagesUpTo(rows, TablePerPage, TablePageCount(|rows|)) == rows
  {
    PagesReproduceData(rows, TablePerPage);
  }
}
