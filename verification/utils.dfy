/** The form validators and small helpers of src/utils.py: required fields, lengths, coordinates,
    funding, the whole-form validator that collects every error, truncation, pagination,
    requirement grouping, filename sanitising, map bounds and the KPI trend. The email and URL
    regular expressions are parameters (`emailOk`, `urlOk`). */
module Utils {
  import opened Wrappers
  import opened Text
  import opened Constants
  import opened Collections
  import opened Records

  // ---------------------------------------------------------------- single-field validators

  /** `validate_email`: the empty string is invalid, anything else is what the pattern says. */
  function ValidateEmail(email: string, emailOk: string -> bool): (ok: bool)
    ensures ok <==> email != [] && emailOk(email)
  {
    if email == [] then false else emailOk(email)
  }

  /** `validate_url`: URLs are optional, so the empty string is valid. */
  function ValidateUrl(url: string, urlOk: string -> bool): (ok: bool)
    ensures ok <==> url == [] || urlOk(url)
  {
    if url == [] then true else urlOk(url)
  }

  const BothCoordinatesMessage: string := "Both latitude and longitude must be provided together"
  const LatitudeRangeMessage: string := "Latitude must be between -90.0 and 90.0"
  const LongitudeRangeMessage: string := "Longitude must be between -180.0 and 180.0"

  /** `validate_coordinates`: both absent is fine; one without the other is not; otherwise each
      must lie in its range, latitude checked first. */
  function ValidateCoordinates(lat: Option<real>, lon: Option<real>): (r: (bool, string))
    ensures r.0 <==> (lat.None? && lon.None?) ||
                     (lat.Some? && lon.Some? && LatMin <= lat.value <= LatMax && LonMin <= lon.value <= LonMax)
    ensures r.0 <==> r.1 == []
    ensures lat.Some? != lon.Some? ==> r.1 == BothCoordinatesMessage
    ensures lat.Some? && lon.Some? && !(LatMin <= lat.value <= LatMax) ==> r.1 == LatitudeRangeMessage
  {
    if lat.None? && lon.None? then (true, "")
    else if lat.None? || lon.None? then (false, BothCoordinatesMessage)
    else if !(LatMin <= lat.value <= LatMax) then (false, LatitudeRangeMessage)
    else if !(LonMin <= lon.value <= LonMax) then (false, LongitudeRangeMessage)
    else (true, "")
  }

  /** `validate_funding_amount`: optional; when given it must lie in the funding range. */
  function ValidateFundingAmount(amount: Option<int>): (r: (bool, string))
    ensures r.0 <==> amount.None? || MinFundingAmount <= amount.value <= MaxFundingAmount
    ensures !r.0 ==> r.1 == FundingRangeMessage
    ensures r.0 ==> r.1 == []
  {
    if amount.None? then (true, "")
    else if !(MinFundingAmount <= amount.value <= MaxFundingAmount) then (false, FundingRangeMessage)
    else (true, "")
  }

  function LengthMessage(name: string, maxLength: nat): string {
    name + " exceeds maximum length of " + NatToString(maxLength) + " characters"
  }

  /** `validate_text_length`: accepted exactly when the text is no longer than the limit. */
  function ValidateTextLength(text: string, maxLength: nat, name: string): (r: (bool, string))
    ensures r.0 <==> |text| <= maxLength
    ensures !r.0 ==> r.1 == LengthMessage(name, maxLength)
    ensures r.0 ==> r.1 == []
  {
    if |text| > maxLength then (false, LengthMessage(name, maxLength)) else (true, "")
  }

  function RequiredMessage(name: string): string {
    name + " is required"
  }

  /** A value handed to `validate_required_field`: a text input, or the region selector (whose
      value is an id or None). */
  datatype FieldValue = TextValue(text: string) | IdValue(id: Option<int>)

  /** Python truthiness plus the whitespace rule: an empty or whitespace-only text, None and 0
      are all "missing". */
  predicate Supplied(v: FieldValue) {
    match v
    case TextValue(t) => !IsBlank(t)
    case IdValue(id) => id.Some? && id.value != 0
  }

  /** `validate_required_field` */
  function ValidateRequiredField(v: FieldValue, name: string): (r: (bool, string))
    ensures r.0 <==> Supplied(v)
    ensures !r.0 ==> r.1 == RequiredMessage(name)
    ensures v == TextValue([]) || (v.TextValue? && IsBlank(v.text)) ==> !r.0
  {
    var missing := match v
      case TextValue(t) => t == [] || Strip(t) == []
      case IdValue(id) => id.None? || id.value == 0;
    if missing then (false, RequiredMessage(name)) else (true, "")
  }

  // ---------------------------------------------------------------- the whole form

  datatype RequiredField = RequiredField(name: string, value: FieldValue)

  /** The required fields, in the order the validator checks them. */
  function RequiredFields(d: ProjectDetails): seq<RequiredField> {
    [ RequiredField("Project name", TextValue(d.projectName)),
      RequiredField("Organization name", TextValue(d.organizationName)),
      RequiredField("Contact person", TextValue(d.contactPerson)),
      RequiredField("Contact email", TextValue(d.contactEmail)),
      RequiredField("City", TextValue(d.city)),
      RequiredField("Country", TextValue(d.country)),
      RequiredField("Project status", TextValue(d.projectStatus)),
      RequiredField("UIA region", IdValue(d.uiaRegionId)),
      RequiredField("Brief description", TextValue(d.briefDescription)),
      RequiredField("Detailed description", TextValue(d.detailedDescription)) ]
  }

  predicate Missing(f: RequiredField) { !Supplied(f.value) }

  /** One "<name> is required" entry per missing field, in field order. */
  function RequiredErrors(fields: seq<RequiredField>): (errs: seq<string>)
    ensures |errs| == Count(fields, Missing)
    ensures forall i :: 0 <= i < |fields| && Missing(fields[i]) ==> RequiredMessage(fields[i].name) in errs
    ensures forall e :: e in errs ==> exists i :: 0 <= i < |fields| && Missing(fields[i]) && e == RequiredMessage(fields[i].name)
  {
    if |fields| == 0 then []
    else
      var rest := RequiredErrors(fields[1..]);
      var head := ValidateRequiredField(fields[0].value, fields[0].name);
      assert forall e :: e in rest ==> exists i :: 0 <= i < |fields| && Missing(fields[i]) && e == RequiredMessage(fields[i].name) by {
        forall e | e in rest
          ensures exists i :: 0 <= i < |fields| && Missing(fields[i]) && e == RequiredMessage(fields[i].name)
        {
          var j :| 0 <= j < |fields[1..]| && Missing(fields[1..][j]) && e == RequiredMessage(fields[1..][j].name);
          assert fields[j + 1] == fields[1..][j];
        }
      }
      assert forall i :: 1 <= i < |fields| ==> fields[i] == fields[1..][i - 1];
      (if head.0 then [] else [head.1]) + rest
  }

  datatype LengthField = LengthField(name: string, text: string, maxLength: nat)

  /** The length-limited fields, in the order the validator checks them. */
  function LengthFields(d: ProjectDetails): seq<LengthField> {
    [ LengthField("Project name", d.projectName, MaxProjectNameLength),
      LengthField("Brief description", d.briefDescription, MaxBriefDescriptionLength),
      LengthField("Detailed description", d.detailedDescription, MaxDetailedDescriptionLength),
      LengthField("Success factors", d.successFactors, MaxSuccessFactorsLength),
      LengthField("Organization name", d.organizationName, MaxOrganizationNameLength),
      LengthField("Contact person", d.contactPerson, MaxContactPersonLength) ]
  }

  predicate TooLong(f: LengthField) { |f.text| > f.maxLength }

  /** One length error per over-long field (empty texts are skipped, and are never too long). */
  function LengthErrors(fields: seq<LengthField>): (errs: seq<string>)
    ensures |errs| == Count(fields, TooLong)
  {
    if |fields| == 0 then []
    else
      var f := fields[0];
      var head := if f.text != [] then ValidateTextLength(f.text, f.maxLength, f.name) else (true, "");
      (if head.0 then [] else [head.1]) + LengthErrors(fields[1..])
  }

  function ImageUrlMessage(url: string): string {
    "Invalid image URL: " + url
  }

  /** One error per non-empty URL that the pattern rejects. */
  function ImageUrlErrors(urls: seq<string>, urlOk: string -> bool): (errs: seq<string>)
    ensures |errs| <= |urls|
    ensures errs == [] <==> forall i :: 0 <= i < |urls| ==> ValidateUrl(urls[i], urlOk)
  {
    if |urls| == 0 then []
    else
      var u := urls[0];
      assert forall i :: 1 <= i < |urls| ==> urls[i] == urls[1..][i - 1];
      (if u != [] && !ValidateUrl(u, urlOk) then [ImageUrlMessage(u)] else []) + ImageUrlErrors(urls[1..], urlOk)
  }

  function EmailErrors(email: string, emailOk: string -> bool): seq<string> {
    if email != [] && !ValidateEmail(email, emailOk) then [InvalidEmailMessage] else []
  }

  function CoordinateErrors(lat: Option<real>, lon: Option<real>): seq<string> {
    if lat.Some? || lon.Some? then
      var c := ValidateCoordinates(lat, lon);
      if c.0 then [] else [c.1]
    else []
  }

  function FundingErrors(amount: Option<int>): seq<string> {
    if amount.Some? then
      var c := ValidateFundingAmount(amount);
      if c.0 then [] else [c.1]
    else []
  }

  function SdgErrors(sdgs: seq<int>): seq<string> {
    if |sdgs| == 0 then [NoSdgSelectedMessage] else []
  }

  /** `validate_project_form`: every check runs and contributes its own errors, in the order
      required fields, email, lengths, coordinates, funding, SDGs, image URLs. */
  function ValidateProjectForm(form: FormData, emailOk: string -> bool, urlOk: string -> bool): (errs: seq<string>)
    ensures |errs| >= Count(RequiredFields(form.details), Missing)
    ensures forall f :: f in RequiredFields(form.details) && Missing(f) ==> RequiredMessage(f.name) in errs
    ensures |form.sdgs| == 0 ==> NoSdgSelectedMessage in errs
  {
    var d := form.details;
    var req := RequiredErrors(RequiredFields(d));
    assert forall f :: f in RequiredFields(d) && Missing(f) ==> RequiredMessage(f.name) in req by {
      forall f | f in RequiredFields(d) && Missing(f)
        ensures RequiredMessage(f.name) in req
      {
        var i :| 0 <= i < |RequiredFields(d)| && RequiredFields(d)[i] == f;
      }
    }
    req + EmailErrors(d.contactEmail, emailOk) + LengthErrors(LengthFields(d))
      + CoordinateErrors(d.latitude, d.longitude) + FundingErrors(d.fundingNeeded)
      + SdgErrors(form.sdgs) + ImageUrlErrors(form.imageUrls, urlOk)
  }

  /** What a valid submission is, field by field, independently of the error list. */
  predicate FormIsValid(form: FormData, emailOk: string -> bool, urlOk: string -> bool) {
    var d := form.details;
    (forall f :: f in RequiredFields(d) ==> Supplied(f.value))
    && (d.contactEmail == [] || emailOk(d.contactEmail))
    && (forall f :: f in LengthFields(d) ==> |f.text| <= f.maxLength)
    && ValidateCoordinates(d.latitude, d.longitude).0
    && ValidateFundingAmount(d.fundingNeeded).0
    && |form.sdgs| > 0
    && (forall u :: u in form.imageUrls ==> u == [] || urlOk(u))
  }

  /** The form validator reports no error exactly when the form is valid. */
  lemma ValidateProjectFormSound(form: FormData, emailOk: string -> bool, urlOk: string -> bool)
    ensures ValidateProjectForm(form, emailOk, urlOk) == [] <==> FormIsValid(form, emailOk, urlOk)
  {
    var d := form.details;
    CountZeroAll(RequiredFields(d), Missing);
    CountZeroAll(LengthFields(d), TooLong);
    assert ImageUrlErrors(form.imageUrls, urlOk) == [] <==> forall u :: u in form.imageUrls ==> u == [] || urlOk(u) by {
      assert forall u :: u in form.imageUrls <==> exists i :: 0 <= i < |form.imageUrls| && form.imageUrls[i] == u;
    }
  }

  // ---------------------------------------------------------------- text helpers

  /** `truncate_text`: unchanged when it fits; otherwise cut and ended with the suffix. */
  function TruncateText(text: string, maxLength: int, suffix: string): (r: string)
    ensures |text| <= maxLength ==> r == text
    ensures |text| > maxLength && maxLength >= |suffix| ==>
      |r| == maxLength && r == text[..maxLength - |suffix|] + suffix
  {
    if text == [] || |text| <= maxLength then text
    else SlicePrefix(text, maxLength - |suffix|) + suffix
  }

  /** `clean_string`: the text without surrounding whitespace (None and "" give ""). */
  function CleanString(text: string): (r: string)
    ensures |r| <= |text|
    ensures r == [] <==> IsBlank(text)
    ensures r == [] || (!IsSpace(r[0]) && !IsSpace(r[|r| - 1]))
  {
    if text == [] then [] else Strip(text)
  }

  /** Cleaning twice is cleaning once. */
  lemma CleanStringIdempotent(text: string)
    ensures CleanString(CleanString(text)) == CleanString(text)
  {
    var r := CleanString(text);
    if r != [] {
      StripUnpadded(r);
      assert CleanString(r) == Strip(r);
    }
  }

  // ---------------------------------------------------------------- pagination

  /** `data[start:end]` with Python's clamping of negative and out-of-range bounds. */
  function PySlice<T>(data: seq<T>, start: int, end: int): (r: seq<T>)
    ensures |r| <= |data|
    ensures 0 <= start <= end <= |data| ==> r == data[start..end]
    ensures start <= end ==> |r| <= end - start
  {
    var n := |data|;
    var a := if start < 0 then (if n + start < 0 then 0 else n + start) else (if start > n then n else start);
    var b := if end < 0 then (if n + end < 0 then 0 else n + end) else (if end > n then n else end);
    if a < b then data[a..b] else []
  }

  /** `max(1, ceil(n / perPage))` with Python's floor division. */
  function TotalPages(n: nat, perPage: nat): (t: nat)
    requires perPage > 0
    ensures t >= 1
    ensures (t - 1) * perPage < n || t == 1
    ensures n <= t * perPage
  {
    var q := (n + perPage - 1) / perPage;
    DivCeil(n, perPage);
    if q < 1 then 1 else q
  }

  lemma DivCeil(n: nat, k: nat)
    requires k > 0
    ensures n <= ((n + k - 1) / k) * k
    ensures (n + k - 1) / k == 0 || (((n + k - 1) / k) - 1) * k < n
  {
    var q := (n + k - 1) / k;
    var m := (n + k - 1) % k;
    assert n + k - 1 == q * k + m && 0 <= m < k;
  }

  /** Where page `page` starts when pages hold `perPage` items. */
  function PageStart(page: int, perPage: nat): int {
    (page - 1) * perPage
  }

  function Clamp(x: int, n: nat): nat
    requires 0 <= x
  {
    if x < n then x else n
  }

  /** `paginate_data`: the requested page's items and the page count. */
  function PaginateData<T>(data: seq<T>, page: int, perPage: nat): (r: (seq<T>, nat))
    requires perPage > 0
    ensures r.1 >= 1 && |data| <= r.1 * perPage
    ensures |r.0| <= perPage
    ensures 1 <= page ==>
      && 0 <= PageStart(page, perPage) <= PageStart(page + 1, perPage)
      && r.0 == data[Clamp(PageStart(page, perPage), |data|)..Clamp(PageStart(page + 1, perPage), |data|)]
  {
    var start := PageStart(page, perPage);
    PageBounds(page, perPage);
    (PySlice(data, start, start + perPage), TotalPages(|data|, perPage))
  }

  lemma PageBounds(page: int, perPage: nat)
    requires perPage > 0
    ensures PageStart(page, perPage) + perPage == PageStart(page + 1, perPage)
    ensures 1 <= page ==> 0 <= PageStart(page, perPage)
  {
  }

  /** Pages 1..m laid end to end. */
  function PagesUpTo<T>(data: seq<T>, perPage: nat, m: nat): seq<T>
    requires perPage > 0
  {
    if m == 0 then [] else PagesUpTo(data, perPage, m - 1) + PaginateData(data, m, perPage).0
  }

  /** Concatenating every page in order gives back the data: nothing lost, nothing repeated. */
  lemma PagesReproduceData<T>(data: seq<T>, perPage: nat)
    requires perPage > 0
    ensures PagesUpTo(data, perPage, PaginateData(data, 1, perPage).1) == data
  {
    var t := PaginateData(data, 1, perPage).1;
    PagesPrefix(data, perPage, t);
    assert PageStart(t + 1, perPage) == t * perPage;
  }

  lemma {:induction false} PagesPrefix<T>(data: seq<T>, perPage: nat, m: nat)
    requires perPage > 0
    ensures PagesUpTo(data, perPage, m) == data[..Clamp(PageStart(m + 1, perPage), |data|)]
  {
    PageBounds(m, perPage);
    if m > 0 {
      PagesPrefix(data, perPage, m - 1);
      var a := Clamp(PageStart(m, perPage), |data|);
      var b := Clamp(PageStart(m + 1, perPage), |data|);
      assert data[..a] + data[a..b] == data[..b];
    }
  }

  // ---------------------------------------------------------------- requirement grouping

  /** A requirement row as `group_requirements_by_category` reads it; an absent key is None. */
  datatype RequirementRow = RequirementRow(category: Option<string>, text: Option<string>)

  function CategoryOf(r: RequirementRow): string { r.category.GetOr("Other") }

  function TextOf(r: RequirementRow): string { r.text.GetOr("") }

  datatype Group = Group(category: string, texts: seq<string>)

  /** Append `t` to the group of `c`, opening a new group at the end when there is none. */
  function AddToGroups(groups: seq<Group>, c: string, t: string): seq<Group> {
    if |groups| == 0 then [Group(c, [t])]
    else if groups[0].category == c then [Group(c, groups[0].texts + [t])] + groups[1..]
    else [groups[0]] + AddToGroups(groups[1..], c, t)
  }

  /** `group_requirements_by_category`: a dictionary from category to texts, kept in insertion
      order as a sequence of groups. */
  function GroupRequirements(reqs: seq<RequirementRow>): seq<Group> {
    if |reqs| == 0 then []
    else
      var last := reqs[|reqs| - 1];
      AddToGroups(GroupRequirements(reqs[..|reqs| - 1]), CategoryOf(last), TextOf(last))
  }

  /** The texts of the group for `c`, if any. */
  function Lookup(groups: seq<Group>, c: string): Option<seq<string>> {
    if |groups| == 0 then None
    else if groups[0].category == c then Some(groups[0].texts)
    else Lookup(groups[1..], c)
  }

  /** The texts filed under `c`, in input order: the reference definition. */
  function TextsIn(reqs: seq<RequirementRow>, c: string): seq<string> {
    if |reqs| == 0 then []
    else (if CategoryOf(reqs[0]) == c then [TextOf(reqs[0])] else []) + TextsIn(reqs[1..], c)
  }

  function GroupSizes(groups: seq<Group>): nat {
    if |groups| == 0 then 0 else |groups[0].texts| + GroupSizes(groups[1..])
  }

  ghost predicate CategoriesDistinct(groups: seq<Group>) {
    forall i, j :: 0 <= i < j < |groups| ==> groups[i].category != groups[j].category
  }

  lemma {:induction false} TextsInSnoc(reqs: seq<RequirementRow>, r: RequirementRow, c: string)
    ensures TextsIn(reqs + [r], c) == TextsIn(reqs, c) + (if CategoryOf(r) == c then [TextOf(r)] else [])
  {
    if |reqs| == 0 {
      assert reqs + [r] == [r];
    } else {
      assert (reqs + [r])[1..] == reqs[1..] + [r];
      TextsInSnoc(reqs[1..], r, c);
    }
  }

  /** Adding a text keeps the categories distinct, and every category comes from the groups
      before or is the one added to. */
  lemma {:induction false} AddToGroupsCategories(groups: seq<Group>, c: string, t: string)
    requires CategoriesDistinct(groups)
    ensures CategoriesDistinct(AddToGroups(groups, c, t))
    ensures forall k :: 0 <= k < |AddToGroups(groups, c, t)| ==>
      (exists j :: 0 <= j < |groups| && AddToGroups(groups, c, t)[k].category == groups[j].category)
      || AddToGroups(groups, c, t)[k].category == c
  {
    if |groups| > 0 && groups[0].category != c {
      var rest := AddToGroups(groups[1..], c, t);
      AddToGroupsCategories(groups[1..], c, t);
      var r := [groups[0]] + rest;
      forall k | 0 <= k < |r|
        ensures (exists j :: 0 <= j < |groups| && r[k].category == groups[j].category) || r[k].category == c
      {
        if k == 0 {
          assert r[0].category == groups[0].category;
        } else {
          assert r[k] == rest[k - 1];
          if rest[k - 1].category != c {
            var j :| 0 <= j < |groups[1..]| && rest[k - 1].category == groups[1..][j].category;
            assert groups[1..][j] == groups[j + 1];
          }
        }
      }
      forall i, j | 0 <= i < j < |r|
        ensures r[i].category != r[j].category
      {
        if i == 0 {
          assert r[j] == rest[j - 1];
          if rest[j - 1].category != c {
            var m :| 0 <= m < |groups[1..]| && rest[j - 1].category == groups[1..][m].category;
            assert groups[1..][m] == groups[m + 1];
          }
        } else {
          assert r[i] == rest[i - 1] && r[j] == rest[j - 1];
        }
      }
    } else if |groups| > 0 {
      var r := [Group(c, groups[0].texts + [t])] + groups[1..];
      assert AddToGroups(groups, c, t) == r;
      forall i, j | 0 <= i < j < |r|
        ensures r[i].category != r[j].category
      {
        if i == 0 {
          assert r[j] == groups[j];
        } else {
          assert r[i] == groups[i] && r[j] == groups[j];
        }
      }
      forall k | 0 <= k < |r|
        ensures (exists j :: 0 <= j < |groups| && r[k].category == groups[j].category) || r[k].category == c
      {
        if k > 0 {
          assert r[k] == groups[k];
        }
      }
    }
  }

  /** Adding a text grows the total by one, appends the text to its category's list and leaves
      every other category's list alone. */
  lemma {:induction false} AddToGroupsLookup(groups: seq<Group>, c: string, t: string)
    ensures GroupSizes(AddToGroups(groups, c, t)) == GroupSizes(groups) + 1
    ensures Lookup(AddToGroups(groups, c, t), c) == Some(Lookup(groups, c).GetOr([]) + [t])
    ensures forall d :: d != c ==> Lookup(AddToGroups(groups, c, t), d) == Lookup(groups, d)
  {
    if |groups| > 0 && groups[0].category != c {
      AddToGroupsLookup(groups[1..], c, t);
      var r := [groups[0]] + AddToGroups(groups[1..], c, t);
      assert r[1..] == AddToGroups(groups[1..], c, t);
    } else if |groups| > 0 {
      var r := [Group(c, groups[0].texts + [t])] + groups[1..];
      assert AddToGroups(groups, c, t) == r;
      assert r[1..] == groups[1..];
    } else {
      assert Lookup(groups, c).GetOr([]) + [t] == [t];
    }
  }

  /** Grouping keeps every text under its own category, in input order, with no category
      listed twice and no text lost or added; a row without a category is filed under "Other". */
  lemma {:induction false} GroupRequirementsCorrect(reqs: seq<RequirementRow>)
    ensures CategoriesDistinct(GroupRequirements(reqs))
    ensures GroupSizes(GroupRequirements(reqs)) == |reqs|
    ensures forall c :: Lookup(GroupRequirements(reqs), c) == if TextsIn(reqs, c) == [] then None else Some(TextsIn(reqs, c))
  {
    if |reqs| > 0 {
      var init := reqs[..|reqs| - 1];
      var last := reqs[|reqs| - 1];
      assert reqs == init + [last];
      GroupRequirementsCorrect(init);
      AddToGroupsCategories(GroupRequirements(init), CategoryOf(last), TextOf(last));
      AddToGroupsLookup(GroupRequirements(init), CategoryOf(last), TextOf(last));
      var before := GroupRequirements(init);
      assert GroupRequirements(reqs) == AddToGroups(before, CategoryOf(last), TextOf(last));
      forall c
        ensures Lookup(GroupRequirements(reqs), c) == if TextsIn(reqs, c) == [] then None else Some(TextsIn(reqs, c))
      {
        TextsInSnoc(init, last, c);
        if c == CategoryOf(last) {
          assert Lookup(before, c).GetOr([]) == TextsIn(init, c);
        } else {
          assert TextsIn(init, c) + [] == TextsIn(init, c);
        }
      }
    }
  }

  // ---------------------------------------------------------------- dictionaries and filenames

  /** The values the form dictionaries hold. */
  datatype Value = Null | TextV(s: string) | NumberV(n: int) | FlagV(b: bool)

  /** `v is not None and v != ""`: a zero or False is kept. */
  predicate NonEmptyValue(v: Value) {
    v != Null && v != TextV([])
  }

  /** `filter_empty_values` */
  function FilterEmptyValues(data: map<string, Value>): (r: map<string, Value>)
    ensures forall k :: k in r <==> k in data && NonEmptyValue(data[k])
    ensures forall k :: k in r ==> r[k] == data[k]
  {
    map k | k in data && NonEmptyValue(data[k]) :: data[k]
  }

  /** Filtering twice is filtering once, and the result holds no empty value. */
  lemma FilterEmptyValuesIdempotent(data: map<string, Value>)
    ensures FilterEmptyValues(FilterEmptyValues(data)) == FilterEmptyValues(data)
    ensures forall k :: k in FilterEmptyValues(data) ==> NonEmptyValue(FilterEmptyValues(data)[k])
  {
  }

  /** Only None and the empty string go: a zero and False are kept, unlike a truthiness test. */
  lemma FalsyValuesKept()
    ensures FilterEmptyValues(map["n" := NumberV(0), "t" := TextV(""), "x" := Null, "f" := FlagV(false)])
      == map["n" := NumberV(0), "f" := FlagV(false)]
  {
    var m := map["n" := NumberV(0), "t" := TextV(""), "x" := Null, "f" := FlagV(false)];
    assert FilterEmptyValues(m).Keys == {"n", "f"};
  }

  /** The characters `sanitize_filename` replaces by '_'. */
  const UnsafeFilenameChars: set<char> := {'<', '>', ':', '"', '/', '\\', '|', '?', '*'}

  function ReplaceUnsafe(c: char): char {
    if c in UnsafeFilenameChars then '_' else c
  }

  /** No two consecutive underscores. */
  predicate NoDoubleUnderscore(s: string) {
    forall i :: 0 <= i < |s| - 1 ==> !(s[i] == '_' && s[i + 1] == '_')
  }

  /** `re.sub('_+', '_', s)` */
  function CollapseUnderscores(s: string): (r: string)
    ensures NoDoubleUnderscore(r)
    ensures forall c :: c in r ==> c in s
    ensures NoDoubleUnderscore(s) ==> r == s
    ensures r == [] || s == [] || r[0] == s[0]
  {
    if |s| < 2 then s
    else
      var rest := CollapseUnderscores(s[1..]);
      if s[0] == '_' && s[1] == '_' then rest
      else
        assert forall i :: 1 <= i < |s| - 1 ==> s[1..][i - 1] == s[i] && s[1..][i] == s[i + 1];
        [s[0]] + rest
  }

  predicate NotUnderscore(c: char) { c != '_' }

  /** The characters `sanitize_filename` keeps as they are: safe ones other than '_'. */
  predicate KeptChar(c: char) { c !in UnsafeFilenameChars && c != '_' }

  /** `sanitize_filename`: apart from single underscores, which only separate, the result is
      the name's safe characters in their order. */
  function SanitizeFilename(name: string): (r: string)
    ensures forall i :: 0 <= i < |r| ==> r[i] !in UnsafeFilenameChars
    ensures NoDoubleUnderscore(r)
    ensures r == [] || (r[0] != '_' && r[|r| - 1] != '_')
    ensures FilterChars(r, NotUnderscore) == FilterChars(name, KeptChar)
  {
    SanitizeIsSafe(name);
    SanitizeKeepsSafeChars(name);
    StripChars(CollapseUnderscores(MapChars(name, ReplaceUnsafe)), {'_'})
  }

  lemma SanitizeIsSafe(name: string)
    ensures var r := StripChars(CollapseUnderscores(MapChars(name, ReplaceUnsafe)), {'_'});
      && (forall i :: 0 <= i < |r| ==> r[i] !in UnsafeFilenameChars)
      && NoDoubleUnderscore(r)
  {
    var replaced := MapChars(name, ReplaceUnsafe);
    var collapsed := CollapseUnderscores(replaced);
    StripUnderscoresKeepsSafe(collapsed);
    var r := StripChars(collapsed, {'_'});
    forall i | 0 <= i < |r|
      ensures r[i] !in UnsafeFilenameChars
    {
      assert r[i] in r;
      assert r[i] in replaced;
    }
  }

  lemma SanitizeKeepsSafeChars(name: string)
    ensures var replaced := MapChars(name, ReplaceUnsafe);
      FilterChars(StripChars(CollapseUnderscores(replaced), {'_'}), NotUnderscore) == FilterChars(name, KeptChar)
  {
    var replaced := MapChars(name, ReplaceUnsafe);
    ReplaceKeepsSafeChars(name);
    CollapseKeepsOtherChars(replaced);
    StripKeepsOtherChars(CollapseUnderscores(replaced));
  }

  lemma StripUnderscoresKeepsSafe(s: string)
    requires NoDoubleUnderscore(s)
    ensures NoDoubleUnderscore(StripChars(s, {'_'}))
    ensures forall c :: c in StripChars(s, {'_'}) ==> c in s
  {
    var a, b := StripCharsSlice(s, {'_'});
    var r := StripChars(s, {'_'});
    assert forall i :: 0 <= i < |r| ==> r[i] == s[a + i];
  }

  lemma {:induction false} ReplaceKeepsSafeChars(s: string)
    ensures FilterChars(MapChars(s, ReplaceUnsafe), NotUnderscore) == FilterChars(s, KeptChar)
  {
    if |s| > 0 {
      ReplaceKeepsSafeChars(s[1..]);
      assert MapChars(s, ReplaceUnsafe)[1..] == MapChars(s[1..], ReplaceUnsafe);
    }
  }

  lemma {:induction false} CollapseKeepsOtherChars(s: string)
    ensures FilterChars(CollapseUnderscores(s), NotUnderscore) == FilterChars(s, NotUnderscore)
  {
    if |s| >= 2 {
      CollapseKeepsOtherChars(s[1..]);
      if !(s[0] == '_' && s[1] == '_') {
        assert ([s[0]] + CollapseUnderscores(s[1..]))[1..] == CollapseUnderscores(s[1..]);
      }
    }
  }

  /** Dropping a final character that `keep` rejects leaves the filtered string alone. */
  lemma {:induction false} FilterCharsDropLast(s: string, keep: char -> bool)
    requires |s| > 0 && !keep(s[|s| - 1])
    ensures FilterChars(s[..|s| - 1], keep) == FilterChars(s, keep)
  {
    if |s| > 1 {
      FilterCharsDropLast(s[1..], keep);
      assert s[1..][..|s| - 2] == s[..|s| - 1][1..];
    }
  }

  lemma {:induction false} StripKeepsOtherChars(s: string)
    ensures FilterChars(StripChars(s, {'_'}), NotUnderscore) == FilterChars(s, NotUnderscore)
    decreases |s|
  {
    if |s| > 0 && s[0] == '_' {
      StripKeepsOtherChars(s[1..]);
    } else if |s| > 0 && s[|s| - 1] == '_' {
      StripKeepsOtherChars(s[..|s| - 1]);
      FilterCharsDropLast(s, NotUnderscore);
    }
  }

  /** The result is empty exactly when the name holds no safe character besides '_'. */
  lemma SanitizedEmptyIffNothingKept(name: string)
    ensures SanitizeFilename(name) == [] <==> FilterChars(name, KeptChar) == []
  {
    var r := SanitizeFilename(name);
    if r != [] {
      assert r[0] in r && NotUnderscore(r[0]);
    }
  }

  /** A name that is already safe comes back unchanged, so sanitising is idempotent. */
  lemma SanitizeFilenameIdempotent(name: string)
    ensures SanitizeFilename(SanitizeFilename(name)) == SanitizeFilename(name)
  {
    var s := SanitizeFilename(name);
    var replaced := MapChars(s, ReplaceUnsafe);
    assert replaced == s by {
      assert forall i :: 0 <= i < |s| ==> replaced[i] == s[i];
    }
    var collapsed := CollapseUnderscores(replaced);
    assert collapsed == s;
    assert StripChars(collapsed, {'_'}) == s;
  }

  // ---------------------------------------------------------------- map bounds and trend

  datatype Located = Located(latitude: Option<real>, longitude: Option<real>)

  datatype Bounds = Bounds(south: real, west: real, north: real, east: real)

  predicate HasCoordinates(p: Located) { p.latitude.Some? && p.longitude.Some? }

  /** Bounds of the points of `ps` that have both coordinates, grown by one degree each way. */
  function PointBounds(ps: seq<Located>): (r: Option<Bounds>)
    ensures r.None? <==> forall i :: 0 <= i < |ps| ==> !HasCoordinates(ps[i])
    ensures r.Some? ==> forall i :: 0 <= i < |ps| && HasCoordinates(ps[i]) ==>
      r.value.south < ps[i].latitude.value < r.value.north && r.value.west < ps[i].longitude.value < r.value.east
  {
    if |ps| == 0 then None
    else
      var rest := PointBounds(ps[1..]);
      var p := ps[0];
      assert forall i :: 1 <= i < |ps| ==> ps[i] == ps[1..][i - 1];
      if !HasCoordinates(p) then rest
      else
        var lat := p.latitude.value;
        var lon := p.longitude.value;
        match rest
        case None => Some(Bounds(lat - 1.0, lon - 1.0, lat + 1.0, lon + 1.0))
        case Some(b) =>
          Some(Bounds(Min(b.south, lat - 1.0), Min(b.west, lon - 1.0), Max(b.north, lat + 1.0), Max(b.east, lon + 1.0)))
  }

  function Min(a: real, b: real): real { if a <= b then a else b }

  function Max(a: real, b: real): real { if a >= b then a else b }

  /** `get_map_bounds`: None without a located project; otherwise every located project lies
      strictly inside, and some located project touches each edge at one degree. */
  function GetMapBounds(ps: seq<Located>): (r: Option<Bounds>)
    ensures r.None? <==> forall i :: 0 <= i < |ps| ==> !HasCoordinates(ps[i])
    ensures r.Some? ==> forall i :: 0 <= i < |ps| && HasCoordinates(ps[i]) ==>
      r.value.south < ps[i].latitude.value < r.value.north && r.value.west < ps[i].longitude.value < r.value.east
  {
    PointBounds(ps)
  }

  /** The south and north edges of the bounds are one degree from some located project. */
  lemma {:induction false} MapBoundsTight(ps: seq<Located>)
    requires GetMapBounds(ps).Some?
    ensures exists i :: 0 <= i < |ps| && HasCoordinates(ps[i]) && GetMapBounds(ps).value.south == ps[i].latitude.value - 1.0
    ensures exists i :: 0 <= i < |ps| && HasCoordinates(ps[i]) && GetMapBounds(ps).value.north == ps[i].latitude.value + 1.0
  {
    var rest := PointBounds(ps[1..]);
    if !HasCoordinates(ps[0]) {
      MapBoundsTight(ps[1..]);
      var i :| 0 <= i < |ps[1..]| && HasCoordinates(ps[1..][i]) && rest.value.south == ps[1..][i].latitude.value - 1.0;
      var j :| 0 <= j < |ps[1..]| && HasCoordinates(ps[1..][j]) && rest.value.north == ps[1..][j].latitude.value + 1.0;
      assert ps[i + 1] == ps[1..][i] && ps[j + 1] == ps[1..][j];
    } else if rest.Some? {
      MapBoundsTight(ps[1..]);
      var i :| 0 <= i < |ps[1..]| && HasCoordinates(ps[1..][i]) && rest.value.south == ps[1..][i].latitude.value - 1.0;
      var j :| 0 <= j < |ps[1..]| && HasCoordinates(ps[1..][j]) && rest.value.north == ps[1..][j].latitude.value + 1.0;
      assert ps[i + 1] == ps[1..][i] && ps[j + 1] == ps[1..][j];
    }
  }

  /** Each side edge of the bounds is one degree from some located project. */
  lemma {:induction false} MapBoundsTightLongitude(ps: seq<Located>)
    requires GetMapBounds(ps).Some?
    ensures exists i :: 0 <= i < |ps| && HasCoordinates(ps[i]) && GetMapBounds(ps).value.west == ps[i].longitude.value - 1.0
    ensures exists i :: 0 <= i < |ps| && HasCoordinates(ps[i]) && GetMapBounds(ps).value.east == ps[i].longitude.value + 1.0
  {
    var rest := PointBounds(ps[1..]);
    if !HasCoordinates(ps[0]) {
      MapBoundsTightLongitude(ps[1..]);
      var i :| 0 <= i < |ps[1..]| && HasCoordinates(ps[1..][i]) && rest.value.west == ps[1..][i].longitude.value - 1.0;
      var j :| 0 <= j < |ps[1..]| && HasCoordinates(ps[1..][j]) && rest.value.east == ps[1..][j].longitude.value + 1.0;
      assert ps[i + 1] == ps[1..][i] && ps[j + 1] == ps[1..][j];
    } else if rest.Some? {
      MapBoundsTightLongitude(ps[1..]);
      var i :| 0 <= i < |ps[1..]| && HasCoordinates(ps[1..][i]) && rest.value.west == ps[1..][i].longitude.value - 1.0;
      var j :| 0 <= j < |ps[1..]| && HasCoordinates(ps[1..][j]) && rest.value.east == ps[1..][j].longitude.value + 1.0;
      assert ps[i + 1] == ps[1..][i] && ps[j + 1] == ps[1..][j];
    }
  }

  datatype Direction = Up | Down | Neutral

  /** `calculate_kpi_trend`: the percentage change and its direction; no change is reported
      against a zero baseline. */
  function CalculateKpiTrend(current: real, previous: real): (r: (real, Direction))
    ensures r.0 >= 0.0
    ensures r.1 == Up <==> previous != 0.0 && (current - previous) * previous > 0.0
    ensures r.1 == Down <==> previous != 0.0 && (current - previous) * previous < 0.0
    ensures r.1 == Neutral ==> r.0 == 0.0
    ensures previous == 0.0 ==> r == (0.0, Neutral)
    ensures previous != 0.0 ==> r.0 * RealAbs(previous) == RealAbs(current - previous) * 100.0
  {
    if previous == 0.0 then (0.0, Neutral)
    else
      var change := ((current - previous) / previous) * 100.0;
      TrendSign(current - previous, previous);
      TrendMagnitude(current - previous, previous);
      if change > 0.0 then (change, Up)
      else if change < 0.0 then (-change, Down)
      else (0.0, Neutral)
  }

  function RealAbs(x: real): real {
    if x < 0.0 then -x else x
  }

  /** The size of the percentage: |d / p * 100| is |d| * 100 measured in units of |p|. */
  lemma TrendMagnitude(d: real, p: real)
    requires p != 0.0
    ensures RealAbs((d / p) * 100.0) * RealAbs(p) == RealAbs(d) * 100.0
  {
    var q := d / p;
    assert q * p == d;
    if q < 0.0 {
      if p < 0.0 { assert d > 0.0; assert (-(q * 100.0)) * (-p) == d * 100.0; }
      else { assert d < 0.0; assert (-(q * 100.0)) * p == -d * 100.0; }
    } else {
      if p < 0.0 { assert d <= 0.0; assert (q * 100.0) * (-p) == -d * 100.0; }
      else { assert d >= 0.0; assert (q * 100.0) * p == d * 100.0; }
    }
  }

  lemma TrendSign(d: real, p: real)
    requires p != 0.0
    ensures (d / p) * 100.0 > 0.0 <==> d * p > 0.0
    ensures (d / p) * 100.0 < 0.0 <==> d * p < 0.0
  {
    var q := d / p;
    assert q * p == d;
    assert d * p == q * (p * p);
    assert p * p > 0.0;
  }
}
