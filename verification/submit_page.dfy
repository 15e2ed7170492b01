/** The submit page (pages/3_submit.py): how the checked typologies and requirements become the
    form's strings, and how `handle_form_submission` validates the form and shapes it into the
    payload `create_project` receives. */
module SubmitPage {
  import opened Wrappers
  import opened Text
  import opened Constants
  import opened Collections
  import opened Records
  import opened Utils
  import Sqlite = SqliteDb

  /** The separator between a requirement's category and its text. */
  const Separator: string := ": "

  const OtherOption: string := "Other"

  // ---------------------------------------------------------------- typologies

  /** The entry a described "Other" typology becomes. */
  function OtherTypology(desc: string): string {
    "Other: " + Strip(desc)
  }

  /** The typologies section: the checked typologies in display order, "Other" replaced by its
      description when one was typed and dropped otherwise. */
  function SelectedTypologies(checked: seq<string>, otherDesc: string): (r: seq<string>)
    ensures |r| <= |checked|
    ensures forall x :: x in r <==>
      (x in checked && x != OtherOption) || (x == OtherTypology(otherDesc) && OtherOption in checked && !IsBlank(otherDesc))
  {
    if |checked| == 0 then []
    else
      var rest := SelectedTypologies(checked[1..], otherDesc);
      assert checked == [checked[0]] + checked[1..];
      if checked[0] != OtherOption then [checked[0]] + rest
      else if Strip(otherDesc) != [] then [OtherTypology(otherDesc)] + rest
      else rest
  }

  /** "Other" itself is never submitted as a typology. */
  lemma BareOtherNeverSelected(checked: seq<string>, otherDesc: string)
    ensures OtherOption !in SelectedTypologies(checked, otherDesc)
  {
    assert |OtherTypology(otherDesc)| > |OtherOption|;
  }

  // ---------------------------------------------------------------- requirements

  /** A checked requirement box: its category heading and its option. */
  datatype Choice = Choice(category: string, option: string)

  /** The string a checked box contributes, if any: "{category}: {option}", or for "Other"
      "{category}: Other - {description}" when a description was typed. */
  function RequirementString(c: Choice, otherDesc: string): Option<string> {
    if c.option != OtherOption then Some(c.category + Separator + c.option)
    else if Strip(otherDesc) != [] then Some(c.category + Separator + "Other - " + Strip(otherDesc))
    else None
  }

  /** The requirements section: the strings of the checked boxes in display order; each
      category's "Other" box has its own description input. */
  function SelectedRequirements(checked: seq<Choice>, otherDesc: string -> string): (r: seq<string>)
    ensures |r| <= |checked|
  {
    if |checked| == 0 then []
    else
      var rest := SelectedRequirements(checked[1..], otherDesc);
      match RequirementString(checked[0], otherDesc(checked[0].category))
      case Some(s) => [s] + rest
      case None => rest
  }

  /** The pair a checked box stands for, independently of how it is spelled. */
  function IntendedPair(c: Choice, otherDesc: string): Option<RequirementPair> {
    if c.option != OtherOption then Some(RequirementPair(c.category, c.option))
    else if IsBlank(otherDesc) then None
    else Some(RequirementPair(c.category, "Other - " + Strip(otherDesc)))
  }

  function IntendedPairs(checked: seq<Choice>, otherDesc: string -> string): seq<RequirementPair> {
    if |checked| == 0 then []
    else
      var rest := IntendedPairs(checked[1..], otherDesc);
      match IntendedPair(checked[0], otherDesc(checked[0].category))
      case Some(p) => [p] + rest
      case None => rest
  }

  predicate NoColon(s: string) {
    forall i :: 0 <= i < |s| ==> s[i] != ':'
  }

  /** `req_string.split(": ", 1)` for a string containing ": "; `None` for the others, which
      are dropped. */
  function ParseRequirement(s: string): (r: Option<RequirementPair>)
    ensures r.None? <==> !Contains(s, Separator)
    ensures r.Some? ==> s == r.value.category + Separator + r.value.text && !Contains(r.value.category, Separator)
  {
    match SplitOnce(s, Separator)
    case None => None
    case Some((category, text)) => Some(RequirementPair(category, text))
  }

  /** The requirements list handed to `create_project`. */
  function ParseRequirements(reqs: seq<string>): (r: seq<RequirementPair>)
    ensures |r| == Count(reqs, HasSeparator)
  {
    if |reqs| == 0 then []
    else
      var rest := ParseRequirements(reqs[1..]);
      match ParseRequirement(reqs[0])
      case Some(p) => [p] + rest
      case None => rest
  }

  predicate HasSeparator(s: string) {
    Contains(s, Separator)
  }

  /** A colon-free category splits back off at the first ": ", whatever the text holds. */
  lemma SplitRoundTrip(category: string, text: string)
    requires NoColon(category)
    ensures ParseRequirement(category + Separator + text) == Some(RequirementPair(category, text))
  {
    var s := category + Separator + text;
    var n := |category|;
    assert OccursAt(s, Separator, n) by {
      assert s[n..n + 2] == Separator;
    }
    forall j | 0 <= j < n
      ensures !OccursAt(s, Separator, j)
    {
      assert s[j] == category[j];
    }
    assert s[..n] == category && s[n + 2..] == text;
  }

  /** The three category headings contain no colon. */
  lemma CategoriesColonFree()
    ensures forall i :: 0 <= i < |ProjectRequirements| ==> NoColon(ProjectRequirements[i].0)
  {
    assert NoColon("Funding & Financial");
    assert NoColon("Government & Regulatory");
    assert NoColon("Other");
  }

  /** Splitting the strings the requirements section builds gives back exactly the pairs the
      checked boxes stand for, in order: nothing is lost or altered on the way. */
  lemma {:induction false} RequirementsRoundTrip(checked: seq<Choice>, otherDesc: string -> string)
    requires forall i :: 0 <= i < |checked| ==> NoColon(checked[i].category)
    ensures ParseRequirements(SelectedRequirements(checked, otherDesc)) == IntendedPairs(checked, otherDesc)
  {
    if |checked| > 0 {
      var c := checked[0];
      assert forall i :: 1 <= i < |checked| ==> checked[1..][i - 1] == checked[i];
      RequirementsRoundTrip(checked[1..], otherDesc);
      var rest := SelectedRequirements(checked[1..], otherDesc);
      match RequirementString(c, otherDesc(c.category))
      case Some(s) =>
        assert SelectedRequirements(checked, otherDesc) == [s] + rest;
        assert ([s] + rest)[1..] == rest;
        if c.option != OtherOption {
          SplitRoundTrip(c.category, c.option);
        } else {
          assert s == c.category + Separator + ("Other - " + Strip(otherDesc(c.category)));
          SplitRoundTrip(c.category, "Other - " + Strip(otherDesc(c.category)));
        }
      case None =>
    }
  }

  /** A string without ": " contributes nothing. */
  lemma UnseparatedDropped(reqs: seq<string>, s: string)
    requires !Contains(s, Separator)
    ensures ParseRequirements([s] + reqs) == ParseRequirements(reqs)
  {
    assert ([s] + reqs)[1..] == reqs;
  }

  // ---------------------------------------------------------------- image URLs

  /** `[url for url in image_urls if url.strip()]` */
  function KeepImageUrls(urls: seq<string>): (r: seq<string>)
    ensures forall u :: u in r <==> u in urls && !IsBlank(u)
    ensures forall i :: 0 <= i < |r| ==> !IsBlank(r[i])
  {
    Filter(urls, NotBlank)
  }

  /** The store sees the same URLs whether or not the page filtered them first. */
  lemma {:induction false} PageFilterAgreesWithStore(urls: seq<string>)
    ensures KeptImageUrls(KeepImageUrls(urls)) == KeptImageUrls(urls)
  {
    if |urls| > 0 {
      PageFilterAgreesWithStore(urls[1..]);
      assert urls == [urls[0]] + urls[1..];
      if !IsBlank(urls[0]) {
        assert Filter(urls, NotBlank)[1..] == Filter(urls[1..], NotBlank);
      }
    }
  }

  // ---------------------------------------------------------------- submission

  /** The payload: the form with blank image URLs removed and the requirement strings split. */
  function BuildDraft(form: FormData): (d: Draft)
    ensures d.details == form.details && d.sdgs == form.sdgs && d.typologies == form.typologies
    ensures d.imageUrls == KeepImageUrls(form.imageUrls)
    ensures |d.requirements| == Count(form.requirements, HasSeparator)
  {
    Draft(form.details, form.sdgs, form.typologies, ParseRequirements(form.requirements), KeepImageUrls(form.imageUrls))
  }

  /** What the page ends with: the error list, the confirmation with the reference id, or the
      generic error when `create_project` raises. */
  datatype Submission =
    | Invalid(errors: seq<string>)
    | Confirmed(db: Sqlite.Db, referenceId: string)
    | Failed

  /** `handle_form_submission` over the SQLite store. */
  function HandleFormSubmission(db: Sqlite.Db, form: FormData, emailOk: string -> bool, urlOk: string -> bool, now: int): (r: Submission)
    ensures r.Invalid? <==> !FormIsValid(form, emailOk, urlOk)
    ensures r.Invalid? ==> r.errors == ValidateProjectForm(form, emailOk, urlOk) && r.errors != []
    ensures r.Confirmed? ==> Sqlite.CreateProject(db, BuildDraft(form), now) == Ok((r.db, r.referenceId))
  {
    var errors := ValidateProjectForm(form, emailOk, urlOk);
    ValidateProjectFormSound(form, emailOk, urlOk);
    if errors != [] then Invalid(errors)
    else
      match Sqlite.CreateProject(db, BuildDraft(form), now)
      case Ok((db', ref)) => Confirmed(db', ref)
      case Err(_) => Failed
  }

  /** A confirmed submission stored one new 'submitted' project carrying the form's details,
      the split requirements and the kept image URLs, stripped, in order. */
  lemma ConfirmedStoresForm(db: Sqlite.Db, form: FormData, emailOk: string -> bool, urlOk: string -> bool, now: int)
    requires HandleFormSubmission(db, form, emailOk, urlOk, now).Confirmed?
    ensures var d := HandleFormSubmission(db, form, emailOk, urlOk, now).db;
      && |d.projects| == |db.projects| + 1 && d.projects[..|db.projects|] == db.projects
      && var p := d.projects[|db.projects|];
      && p.workflowStatus == Submitted && p.details == form.details
      && p.requirements == ParseRequirements(form.requirements)
      && |p.images| == |KeptImageUrls(form.imageUrls)|
      && forall i :: 0 <= i < |p.images| ==> p.images[i].url == KeptImageUrls(form.imageUrls)[i]
  {
    PageFilterAgreesWithStore(form.imageUrls);
  }
}
