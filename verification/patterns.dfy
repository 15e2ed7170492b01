/** The two regular expressions the validators match with `re.match` (EMAIL_REGEX and URL_REGEX
    in src/constants.py). Each is given twice: as the set of strings the pattern denotes, stated
    with the split points the pattern's pieces imply, and as a left-to-right scan that finds
    those split points; the two are proved to agree. `\w` and `\d` are taken as their ASCII
    members. Python's `$` also matches just before a final newline, so one trailing "\n" is
    allowed after either shape. */
module Patterns {
  import opened Wrappers
  import opened Text
  import Utils

  /** Every character of `s[lo..hi]` satisfies `p`. */
  predicate AllIn(s: string, p: char -> bool, lo: int, hi: int)
    requires 0 <= lo && hi <= |s|
  {
    forall i :: lo <= i < hi ==> p(s[i])
  }

  /** The first position in `[lo, hi)` whose character satisfies `stop`, or `hi`. */
  function FirstIn(s: string, stop: char -> bool, lo: nat, hi: nat): (k: nat)
    requires lo <= hi <= |s|
    decreases hi - lo
    ensures lo <= k <= hi
    ensures k < hi ==> stop(s[k])
    ensures forall j :: lo <= j < k ==> !stop(s[j])
  {
    if lo == hi then hi
    else if stop(s[lo]) then lo
    else FirstIn(s, stop, lo + 1, hi)
  }

  /** The last position of `s` whose character satisfies `stop`, if any. */
  function LastWhere(s: string, stop: char -> bool): (r: Option<nat>)
    ensures r.Some? ==> r.value < |s| && stop(s[r.value]) && forall j :: r.value < j < |s| ==> !stop(s[j])
    ensures r.None? ==> forall j :: 0 <= j < |s| ==> !stop(s[j])
  {
    if |s| == 0 then None
    else if stop(s[|s| - 1]) then Some(|s| - 1)
    else LastWhere(s[..|s| - 1], stop)
  }

  /** What `$` leaves of the subject: a final newline is not part of the shape. */
  function BeforeFinalNewline(s: string): (t: string)
    ensures |t| <= |s| && t == s[..|t|]
    ensures |s| > 0 && s[|s| - 1] == '\n' ==> t == s[..|s| - 1]
    ensures !(|s| > 0 && s[|s| - 1] == '\n') ==> t == s
  {
    if |s| > 0 && s[|s| - 1] == '\n' then s[..|s| - 1] else s
  }

  // ---------------------------------------------------------------- email

  predicate IsAt(c: char) { c == '@' }

  predicate IsDot(c: char) { c == '.' }

  /** `[a-zA-Z0-9._%+-]` */
  predicate LocalChar(c: char) {
    IsAsciiAlnum(c) || c == '.' || c == '_' || c == '%' || c == '+' || c == '-'
  }

  /** `[a-zA-Z0-9.-]` */
  predicate DomainChar(c: char) {
    IsAsciiAlnum(c) || c == '.' || c == '-'
  }

  /** `s` splits as local part `s[..i]`, '@', domain `s[i+1..k]`, '.', and a top-level
      domain `s[k+1..]` of at least two letters. */
  predicate EmailSplit(s: string, i: int, k: int) {
    && 0 < i && i + 1 < k && k + 2 < |s|
    && s[i] == '@' && s[k] == '.'
    && AllIn(s, LocalChar, 0, i)
    && AllIn(s, DomainChar, i + 1, k)
    && AllIn(s, IsAsciiLetter, k + 1, |s|)
  }

  /** `[a-zA-Z0-9._%+-]+@[a-zA-Z0-9.-]+\.[a-zA-Z]{2,}` */
  ghost predicate EmailShape(s: string) {
    exists i, k :: EmailSplit(s, i, k)
  }

  /** The strings `re.match(EMAIL_REGEX, s)` accepts. */
  ghost predicate MatchesEmailRegex(s: string) {
    EmailShape(s) || (|s| > 0 && s[|s| - 1] == '\n' && EmailShape(s[..|s| - 1]))
  }

  /** The scan: the '@' can only be the first one (the local part has none) and the dot only
      the last one (the top-level domain has none). */
  function ScanEmail(t: string): (ok: bool)
    ensures ok <==> EmailShape(t)
  {
    var i := FirstIn(t, IsAt, 0, |t|);
    var k := LastWhere(t, IsDot);
    var ok := k.Some? && i < |t| && EmailSplit(t, i, k.value);
    EmailSplitIsUnique(t, i, k);
    ok
  }

  lemma EmailSplitIsUnique(t: string, i: nat, k: Option<nat>)
    requires i == FirstIn(t, IsAt, 0, |t|) && k == LastWhere(t, IsDot)
    ensures EmailShape(t) ==> k.Some? && i < |t| && EmailSplit(t, i, k.value)
  {
    if EmailShape(t) {
      var i', k' :| EmailSplit(t, i', k');
      assert i == i';
      assert k.Some?;
      assert k.value == k';
    }
  }

  /** `re.match(EMAIL_REGEX, email)` */
  function EmailMatches(s: string): (ok: bool)
    ensures ok <==> MatchesEmailRegex(s)
  {
    var t := BeforeFinalNewline(s);
    assert |s| > 0 && s[|s| - 1] == '\n' ==> !EmailShape(s);
    ScanEmail(t)
  }

  /** With the real pattern, `validate_email` accepts exactly what the pattern matches: its
      `not email` guard never changes the answer, since the empty string does not match. */
  lemma EmailValidatorIsRegex(email: string)
    ensures Utils.ValidateEmail(email, EmailMatches) <==> MatchesEmailRegex(email)
  {
    if email == [] {
      assert !EmailShape(email);
    }
  }

  // ---------------------------------------------------------------- URL

  /** `\w`, ASCII members only. */
  predicate WordChar(c: char) { IsAsciiAlnum(c) || c == '_' }

  /** `[-\w.]` */
  predicate HostChar(c: char) { c == '-' || WordChar(c) || c == '.' }

  /** `[:\d]` */
  predicate PortChar(c: char) { c == ':' || IsDigit(c) }

  /** `[\w/_.]` */
  predicate PathChar(c: char) { WordChar(c) || c == '/' || c == '.' }

  /** `[\w&=%.]` */
  predicate QueryChar(c: char) { WordChar(c) || c == '&' || c == '=' || c == '%' || c == '.' }

  predicate IsSlash(c: char) { c == '/' }

  predicate IsColon(c: char) { c == ':' }

  predicate IsHash(c: char) { c == '#' }

  predicate StartsQueryOrFragment(c: char) { c == '?' || c == '#' }

  /** `(?:#(?:\w))*` over `s[e..]`: '#' and one word character, repeated. */
  predicate Fragments(s: string, e: nat)
    requires e <= |s|
  {
    (|s| - e) % 2 == 0 && forall j :: e <= j < |s| ==> if (j - e) % 2 == 0 then s[j] == '#' else WordChar(s[j])
  }

  /** The scheme "http://" or "https://" ends at `a`. */
  predicate SchemeEndsAt(s: string, a: int) {
    (a == 7 && |s| >= 7 && s[..7] == "http://") || (a == 8 && |s| >= 8 && s[..8] == "https://")
  }

  /** `(?:\?(?:[\w&=%.])*)?` over `s[d..e]` */
  predicate QueryPart(s: string, d: nat, e: nat)
    requires d <= e <= |s|
  {
    d == e || (s[d] == '?' && AllIn(s, QueryChar, d + 1, e))
  }

  /** `s` splits as scheme `s[..a]`, host `s[a..b]`, port `s[b..c]`, and when anything is
      left, '/', path `s[c+1..d]`, query `s[d..e]` and fragments `s[e..]`. */
  predicate UrlSplit(s: string, a: int, b: int, c: int, d: int, e: int) {
    && SchemeEndsAt(s, a)
    && a < b <= c <= |s|
    && AllIn(s, HostChar, a, b)
    && AllIn(s, PortChar, b, c)
    && (c < |s| ==>
          && s[c] == '/' && c + 1 <= d <= e <= |s|
          && AllIn(s, PathChar, c + 1, d)
          && QueryPart(s, d, e)
          && Fragments(s, e))
  }

  /** `https?://(?:[-\w.])+(?:[:\d]+)?(?:/(?:[\w/_.])*(?:\?(?:[\w&=%.])*)?(?:#(?:\w))*)?` */
  ghost predicate UrlShape(s: string) {
    exists a, b, c, d, e :: UrlSplit(s, a, b, c, d, e)
  }

  /** The strings `re.match(URL_REGEX, s)` accepts. */
  ghost predicate MatchesUrlRegex(s: string) {
    UrlShape(s) || (|s| > 0 && s[|s| - 1] == '\n' && UrlShape(s[..|s| - 1]))
  }

  /** Where the scheme ends, if the string has one. */
  function SchemeEnd(t: string): (a: nat)
    ensures a == 0 || SchemeEndsAt(t, a)
    ensures forall a' :: SchemeEndsAt(t, a') ==> a == a'
  {
    assert |t| >= 8 && t[..8] == "https://" ==> t[4] == 's';
    assert |t| >= 7 && t[..7] == "http://" ==> t[4] == ':';
    if |t| >= 8 && t[..8] == "https://" then 8
    else if |t| >= 7 && t[..7] == "http://" then 7
    else 0
  }

  /** The scan's split points: the host runs to the first ':' before the first '/', the path
      to the first '?' or '#', the query to the next '#'. */
  function UrlCuts(t: string, a: nat): (r: (nat, nat, nat, nat))
    requires a <= |t|
    ensures a <= r.0 <= r.1 <= |t|
    ensures r.1 < |t| ==> r.1 + 1 <= r.2 <= r.3 <= |t|
  {
    var c := FirstIn(t, IsSlash, a, |t|);
    var b := FirstIn(t, IsColon, a, c);
    if c == |t| then (b, c, c, c)
    else
      var path := PathCuts(t, c);
      (b, c, path.0, path.1)
  }

  /** The path runs from after the '/' at `c` to the first '?' or '#'; a query then runs to
      the next '#'. */
  function PathCuts(t: string, c: nat): (r: (nat, nat))
    requires c < |t|
    ensures c + 1 <= r.0 <= r.1 <= |t|
  {
    var d := FirstIn(t, StartsQueryOrFragment, c + 1, |t|);
    var e := if d < |t| && t[d] == '?' then FirstIn(t, IsHash, d + 1, |t|) else d;
    (d, e)
  }

  function ScanUrl(t: string): (ok: bool)
    ensures ok <==> UrlShape(t)
  {
    var a := SchemeEnd(t);
    if a == 0 then
      assert !UrlShape(t);
      false
    else
      var cuts := UrlCuts(t, a);
      UrlCutsAreCanonical(t, a);
      UrlSplit(t, a, cuts.0, cuts.1, cuts.2, cuts.3)
  }

  /** "http://" and "https://" differ at their fifth character, so at most one is a prefix. */
  lemma SchemeEndUnique(t: string, a: int, a': int)
    requires SchemeEndsAt(t, a) && SchemeEndsAt(t, a')
    ensures a == a'
  {
    assert |t| >= 8 && t[..8] == "https://" ==> t[4] == 's';
    assert |t| >= 7 && t[..7] == "http://" ==> t[4] == ':';
  }

  /** Any split of `t` can be moved to the scan's cut points. */
  lemma UrlCutsAreCanonical(t: string, a: nat)
    requires SchemeEndsAt(t, a)
    ensures var r := UrlCuts(t, a); UrlShape(t) ==> UrlSplit(t, a, r.0, r.1, r.2, r.3)
  {
    if UrlShape(t) {
      var a', b', c', d', e' :| UrlSplit(t, a', b', c', d', e');
      SchemeEndUnique(t, a, a');
      UrlSlashIsFirst(t, a, b', c');
      var c := FirstIn(t, IsSlash, a, |t|);
      var b := FirstIn(t, IsColon, a, c);
      UrlHostPortCut(t, a, b', c');
      if c == |t| {
        assert UrlCuts(t, a) == (b, c, c, c);
        assert UrlSplit(t, a, b, c, c, c);
      } else {
        UrlPathCuts(t, c, d', e');
        assert UrlCuts(t, a) == (b, c, d', e');
        assert UrlSplit(t, a, b, c, d', e');
      }
    }
  }

  /** The host and port hold no '/', so the split's `c` is the first '/' after the scheme. */
  lemma UrlSlashIsFirst(t: string, a: nat, b: int, c: int)
    requires a < b <= c <= |t| && AllIn(t, HostChar, a, b) && AllIn(t, PortChar, b, c)
    requires c < |t| ==> t[c] == '/'
    ensures FirstIn(t, IsSlash, a, |t|) == c
  {
    var k := FirstIn(t, IsSlash, a, |t|);
  }

  /** Digits belong to both the host and the port class, so the host may as well run to the
      first ':'. */
  lemma UrlHostPortCut(t: string, a: nat, b: int, c: nat)
    requires a < b <= c <= |t| && AllIn(t, HostChar, a, b) && AllIn(t, PortChar, b, c)
    ensures var b' := FirstIn(t, IsColon, a, c); a < b' && AllIn(t, HostChar, a, b') && AllIn(t, PortChar, b', c)
  {
    var b' := FirstIn(t, IsColon, a, c);
    assert b' >= b;
    forall j | a <= j < b'
      ensures HostChar(t[j])
    {
      if j >= b { assert PortChar(t[j]) && !IsColon(t[j]); }
    }
  }

  /** The path holds no '?' or '#' and the query no '#', so the path ends at the first of
      them and the query at the next '#'. */
  lemma UrlPathCuts(t: string, c: nat, d: int, e: int)
    requires c < |t| && c + 1 <= d <= e <= |t|
    requires AllIn(t, PathChar, c + 1, d) && QueryPart(t, d, e) && Fragments(t, e)
    ensures PathCuts(t, c) == (d, e)
  {
    var d' := FirstIn(t, StartsQueryOrFragment, c + 1, |t|);
    assert d' >= d;
    assert d' <= d by {
      if d < |t| {
        if d < e { assert t[d] == '?'; } else { assert (e - e) % 2 == 0; assert t[d] == '#'; }
      }
    }
    if d < |t| && t[d] == '?' {
      var e' := FirstIn(t, IsHash, d + 1, |t|);
      assert d < e;
      assert e' >= e;
      assert e' <= e by {
        if e < |t| { assert (e - e) % 2 == 0; assert t[e] == '#'; }
      }
    }
  }

  /** `re.match(URL_REGEX, url)` */
  function UrlMatches(s: string): (ok: bool)
    ensures ok <==> MatchesUrlRegex(s)
  {
    var t := BeforeFinalNewline(s);
    assert |s| > 0 && s[|s| - 1] == '\n' ==> !UrlShape(s) by {
      if |s| > 0 && s[|s| - 1] == '\n' && UrlShape(s) {
        var a, b, c, d, e :| UrlSplit(s, a, b, c, d, e);
        UrlLastChar(s, a, b, c, d, e);
      }
    }
    ScanUrl(t)
  }

  /** A URL's last character is never a newline. */
  lemma UrlLastChar(s: string, a: int, b: int, c: int, d: int, e: int)
    requires UrlSplit(s, a, b, c, d, e)
    ensures s[|s| - 1] != '\n'
  {
    var n := |s| - 1;
    if c == |s| {
      if b < c { assert PortChar(s[n]); } else { assert HostChar(s[n]); }
    } else if e < |s| {
      assert (n - e) % 2 == 0 ==> s[n] == '#';
    } else if d < e {
      if d < n { assert QueryChar(s[n]); }
    } else if c + 1 < d {
      assert PathChar(s[n]);
    }
  }

  /** With the real pattern, `validate_url` accepts the empty string and otherwise exactly what
      the pattern matches; the guard matters, since the pattern itself rejects "". */
  lemma UrlValidatorIsRegex(url: string)
    ensures Utils.ValidateUrl(url, UrlMatches) <==> url == [] || MatchesUrlRegex(url)
    ensures !MatchesUrlRegex("")
  {
    assert !UrlShape("");
  }

  /** A plain address matches, also with a final newline; one without a top-level domain
      does not. */
  lemma EmailExamples()
    ensures MatchesEmailRegex("ana@city.org") && MatchesEmailRegex("ana@city.org\n")
    ensures !MatchesEmailRegex("ana@localhost")
  {
    assert EmailSplit("ana@city.org", 3, 8);
    var n := "ana@city.org\n";
    assert n[..|n| - 1] == "ana@city.org";
    var l := "ana@localhost";
    assert forall j :: 0 <= j < |l| ==> l[j] != '.';
    assert l[|l| - 1] != '\n';
  }

  /** A URL with host, port, path, query and fragment matches. */
  lemma UrlExample()
    ensures MatchesUrlRegex("https://a.org:80/p?x=1#b")
  {
    assert UrlSplit("https://a.org:80/p?x=1#b", 8, 13, 16, 18, 22);
  }

  /** A URL without a scheme does not match. */
  lemma SchemelessUrlRejected()
    ensures !MatchesUrlRegex("a.org/p")
  {
    var s := "a.org/p";
    assert s[0] != 'h';
  }
}
