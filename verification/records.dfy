/** Shapes shared by the pages and both storage backends: the submission form, the payload handed
    to `create_project`, and the columns the KPI widgets aggregate. */
module Records {
  import opened Wrappers
  import opened Text
  import opened Constants
  import opened Collections

  /** A (category, text) requirement, as the submit page hands it to `create_project`. */
  datatype RequirementPair = RequirementPair(category: string, text: string)

  /** The scalar fields of a submission. Text fields are strings (empty when left blank); the
      numeric inputs the form initialises to None are options. */
  datatype ProjectDetails = ProjectDetails(
    projectName: string,
    organizationName: string,
    contactPerson: string,
    contactEmail: string,
    city: string,
    country: string,
    projectStatus: string,
    uiaRegionId: Option<int>,
    latitude: Option<real>,
    longitude: Option<real>,
    fundingNeeded: Option<int>,
    briefDescription: string,
    detailedDescription: string,
    successFactors: string)

  /** The submit page's `form_data`: requirements are still "Category: text" strings and the
      image URL inputs may be blank. */
  datatype FormData = FormData(
    details: ProjectDetails,
    sdgs: seq<int>,
    typologies: seq<string>,
    requirements: seq<string>,
    imageUrls: seq<string>)

  /** The payload `create_project` receives. */
  datatype Draft = Draft(
    details: ProjectDetails,
    sdgs: seq<int>,
    typologies: seq<string>,
    requirements: seq<RequirementPair>,
    imageUrls: seq<string>)

  /** The image URL inputs that are not blank, stripped: what both backends store. */
  function KeptImageUrls(urls: seq<string>): (r: seq<string>)
    ensures |r| == Count(urls, NotBlank)
    ensures forall i :: 0 <= i < |r| ==> Trimmed(r[i])
  {
    if |urls| == 0 then []
    else
      var rest := KeptImageUrls(urls[1..]);
      assert Count(urls, NotBlank) == (if NotBlank(urls[0]) then 1 else 0) + Count(urls[1..], NotBlank);
      if IsBlank(urls[0]) then rest
      else
        var head := Strip(urls[0]);
        assert Trimmed(head);
        var r := [head] + rest;
        assert forall i :: 0 <= i < |r| ==> Trimmed(r[i]) by {
          forall i | 0 <= i < |r| ensures Trimmed(r[i]) {
            if i > 0 { assert r[i] == rest[i - 1]; }
          }
        }
        r
  }

  /** `[u.strip() for u in us]` */
  function StripEach(us: seq<string>): (r: seq<string>)
    ensures |r| == |us| && forall i :: 0 <= i < |us| ==> r[i] == Strip(us[i])
  {
    seq(|us|, i requires 0 <= i < |us| => Strip(us[i]))
  }

  /** The kept URLs are the non-blank inputs, each stripped, in their input order. */
  lemma {:induction false} KeptImageUrlsStripsNonBlank(urls: seq<string>)
    ensures KeptImageUrls(urls) == StripEach(Filter(urls, NotBlank))
  {
    if |urls| > 0 {
      KeptImageUrlsStripsNonBlank(urls[1..]);
      assert urls == [urls[0]] + urls[1..];
      var f := Filter(urls[1..], NotBlank);
      if !IsBlank(urls[0]) {
        assert Filter(urls, NotBlank) == [urls[0]] + f;
        assert StripEach([urls[0]] + f) == [Strip(urls[0])] + StripEach(f);
      }
    }
  }

  /** Non-empty, with no whitespace at either end: what `u.strip()` of a non-blank `u` gives. */
  predicate Trimmed(u: string) {
    u != [] && !IsSpace(u[0]) && !IsSpace(u[|u| - 1])
  }

  predicate NotBlank(u: string) {
    !IsBlank(u)
  }

  // ---------------------------------------------------------------- filters

  /** The optional arguments of `get_projects_by_filters` in both backends; each applies only
      when truthy. */
  datatype Filters = Filters(region: Option<string>, sdg: Option<int>, city: Option<string>, fundedBy: Option<string>)

  const NoFilters: Filters := Filters(None, None, None, None)

  /** Python truthiness of an optional string: None and "" are false. */
  predicate Given(s: Option<string>) { s.Some? && s.value != [] }

  /** Python truthiness of an optional number: None and 0 are false. */
  predicate Truthy(x: Option<int>) { x.Some? && x.value != 0 }

  // ---------------------------------------------------------------- KPI

  /** The columns of a listed project that the KPI widgets read; the status is the stored text
      compared against "Implemented". */
  datatype Row = Row(city: string, country: string, fundingNeeded: Option<int>, projectStatus: string)

  datatype Kpi = Kpi(
    totalProjects: nat,
    totalCities: nat,
    totalCountries: nat,
    fundingNeeded: int,
    fundingSpent: int)

  /** A missing amount counts as zero (`fillna(0)`, and pandas' `sum` skipping nulls). */
  function NeededOrZero(r: Row): int {
    r.fundingNeeded.GetOr(0)
  }

  /** What a project contributes to "funding spent": its needed amount once Implemented. */
  function SpentContribution(r: Row): int {
    if r.projectStatus == Implemented.Label() then NeededOrZero(r) else 0
  }

  function CityOf(r: Row): string { r.city }

  function CountryOf(r: Row): string { r.country }

  /** The KPI totals over the listed projects: count, distinct cities and countries
      (`nunique`), funding needed, and funding needed of Implemented projects as "spent". */
  function ComputeKpi(rows: seq<Row>): (k: Kpi)
    ensures k.totalProjects == |rows|
    ensures k.totalCities <= |rows| && k.totalCountries <= |rows|
    ensures |rows| > 0 ==> k.totalCities >= 1 && k.totalCountries >= 1
    ensures (forall i :: 0 <= i < |rows| ==> NeededOrZero(rows[i]) >= 0) ==> 0 <= k.fundingSpent <= k.fundingNeeded
    ensures |rows| == 0 ==> k == Kpi(0, 0, 0, 0, 0)
  {
    SpentBoundedByNeeded(rows);
    Kpi(|rows|, |Image(rows, CityOf)|, |Image(rows, CountryOf)|, TotalNeeded(rows), TotalSpent(rows))
  }

  function TotalNeeded(rows: seq<Row>): int { Sum(rows, NeededOrZero) }

  function TotalSpent(rows: seq<Row>): int { Sum(rows, SpentContribution) }

  lemma {:induction false} SpentBoundedByNeeded(rows: seq<Row>)
    ensures (forall i :: 0 <= i < |rows| ==> NeededOrZero(rows[i]) >= 0) ==>
      0 <= Sum(rows, SpentContribution) <= Sum(rows, NeededOrZero)
  {
    if forall i :: 0 <= i < |rows| ==> NeededOrZero(rows[i]) >= 0 {
      SumMonotone(rows, SpentContribution, NeededOrZero);
      SumNonNegative(rows, SpentContribution);
    }
  }

  /** The funding totals of two listings together are the sums of their totals. */
  lemma {:induction false} KpiFundingAdditive(a: seq<Row>, b: seq<Row>)
    ensures TotalNeeded(a + b) == TotalNeeded(a) + TotalNeeded(b)
    ensures TotalSpent(a + b) == TotalSpent(a) + TotalSpent(b)
  {
    SumAppend(a, b, NeededOrZero);
    SumAppend(a, b, SpentContribution);
  }
}
