/** The SQL text predicates both backends use in their filters: `LOWER(a) = LOWER(b)`, and
    `LIKE`/`ILIKE` against a `'%term%'` pattern. In SQLite, `LIKE` has no escape character.
    In PostgreSQL, backslash is the default escape. */
module SqlText {
  import opened Text

  /** A pattern character that is not matched literally. */
  predicate IsWildcard(c: char, escapes: bool) {
    c == '%' || c == '_' || (escapes && c == '\\')
  }

  predicate NoWildcards(t: string, escapes: bool) {
    forall i :: 0 <= i < |t| ==> !IsWildcard(t[i], escapes)
  }

  /** A pattern PostgreSQL accepts: it does not end in a lone escape character. */
  predicate WellFormedPattern(p: string, escapes: bool)
    decreases |p|
  {
    if |p| == 0 then true
    else if escapes && p[0] == '\\' then |p| >= 2 && WellFormedPattern(p[2..], escapes)
    else WellFormedPattern(p[1..], escapes)
  }

  /** Case-insensitive (ASCII) `s LIKE p`: `%` matches any run, `_` any one character, and,
      when `escapes`, a backslash makes the next character literal. */
  predicate LikeMatch(s: string, p: string, escapes: bool)
    decreases |s| + |p|
  {
    if |p| == 0 then |s| == 0
    else if p[0] == '%' then LikeMatch(s, p[1..], escapes) || (|s| > 0 && LikeMatch(s[1..], p, escapes))
    else if escapes && p[0] == '\\' then
      |p| >= 2 && |s| > 0 && LowerChar(s[0]) == LowerChar(p[1]) && LikeMatch(s[1..], p[2..], escapes)
    else if p[0] == '_' then |s| > 0 && LikeMatch(s[1..], p[1..], escapes)
    else |s| > 0 && LowerChar(s[0]) == LowerChar(p[0]) && LikeMatch(s[1..], p[1..], escapes)
  }

  /** The `'%term%'` pattern a substring filter builds. */
  function SubstringPattern(t: string): (p: string)
    ensures |p| == |t| + 2 && p[0] == '%' && p[|p| - 1] == '%'
  {
    "%" + t + "%"
  }

  /** `LOWER(a) = LOWER(b)` */
  predicate EqualIgnoringCase(a: string, b: string) {
    Lower(a) == Lower(b)
  }

  lemma {:induction false} PercentMatchesAll(s: string, escapes: bool)
    ensures LikeMatch(s, "%", escapes)
  {
    if |s| > 0 {
      PercentMatchesAll(s[1..], escapes);
    }
  }

  /** Against `t%` with a wildcard-free `t`, a string matches exactly when it starts with `t`
      up to case. */
  lemma {:induction false} LiteralPrefixMatch(u: string, t: string, escapes: bool)
    requires NoWildcards(t, escapes)
    ensures LikeMatch(u, t + "%", escapes) <==>
      |t| <= |u| && forall k :: 0 <= k < |t| ==> LowerChar(u[k]) == LowerChar(t[k])
  {
    if |t| == 0 {
      assert t + "%" == "%";
      PercentMatchesAll(u, escapes);
    } else {
      assert (t + "%")[1..] == t[1..] + "%";
      assert (t + "%")[0] == t[0];
      assert !IsWildcard(t[0], escapes);
      if |u| > 0 {
        LiteralPrefixMatch(u[1..], t[1..], escapes);
        assert forall k :: 1 <= k < |t| && k < |u| ==> u[1..][k - 1] == u[k] && t[1..][k - 1] == t[k];
      }
    }
  }

  /** A leading `%` tries every suffix. */
  lemma {:induction false} LeadingPercent(s: string, q: string, escapes: bool)
    ensures LikeMatch(s, "%" + q, escapes) <==> exists i :: 0 <= i <= |s| && LikeMatch(s[i..], q, escapes)
  {
    var p := "%" + q;
    assert p[1..] == q;
    assert s[0..] == s;
    if |s| > 0 {
      LeadingPercent(s[1..], q, escapes);
      if exists i :: 0 <= i <= |s| && LikeMatch(s[i..], q, escapes) {
        var i :| 0 <= i <= |s| && LikeMatch(s[i..], q, escapes);
        if i > 0 {
          assert s[1..][i - 1..] == s[i..];
        }
      }
      if exists i :: 0 <= i <= |s[1..]| && LikeMatch(s[1..][i..], q, escapes) {
        var i :| 0 <= i <= |s[1..]| && LikeMatch(s[1..][i..], q, escapes);
        assert s[1..][i..] == s[i + 1..];
      }
    }
  }

  /** With a search term free of wildcards, `ILIKE '%term%'` is case-insensitive containment. */
  lemma SubstringPatternMatch(s: string, t: string, escapes: bool)
    requires NoWildcards(t, escapes)
    ensures LikeMatch(s, SubstringPattern(t), escapes) <==> ContainsIgnoringCase(s, t)
  {
    assert SubstringPattern(t) == "%" + (t + "%");
    LeadingPercent(s, t + "%", escapes);
    var ls, lt := Lower(s), Lower(t);
    forall i | 0 <= i <= |s|
      ensures LikeMatch(s[i..], t + "%", escapes) <==> OccursAt(ls, lt, i)
    {
      LiteralPrefixMatch(s[i..], t, escapes);
      if i + |t| <= |s| {
        assert (forall k :: 0 <= k < |t| ==> LowerChar(s[i..][k]) == LowerChar(t[k])) <==> ls[i..i + |t|] == lt by {
          assert forall k :: 0 <= k < |t| ==> ls[i..i + |t|][k] == LowerChar(s[i..][k]) && lt[k] == LowerChar(t[k]);
        }
      }
    }
  }

  /** A pattern without escape characters is always well formed. */
  lemma {:induction false} NoEscapeWellFormed(p: string)
    requires forall i :: 0 <= i < |p| ==> p[i] != '\\'
    ensures WellFormedPattern(p, true)
  {
    if |p| > 0 {
      NoEscapeWellFormed(p[1..]);
    }
  }

  /** A pattern ending in `%` is well formed: an odd run of backslashes before it escapes the
      `%` itself, so no escape is ever left dangling. */
  lemma {:induction false} PercentSuffixWellFormed(x: string)
    ensures WellFormedPattern(x + "%", true)
    decreases |x|
  {
    var p := x + "%";
    if |x| == 0 {
      assert p[1..] == [];
    } else if x[0] == '\\' {
      if |x| == 1 {
        assert p[2..] == [];
      } else {
        assert p[2..] == x[2..] + "%";
        PercentSuffixWellFormed(x[2..]);
      }
    } else {
      assert p[1..] == x[1..] + "%";
      PercentSuffixWellFormed(x[1..]);
    }
  }

  /** PostgreSQL accepts every `'%term%'` pattern: the substring filter never raises. */
  lemma SubstringPatternWellFormed(t: string)
    ensures WellFormedPattern(SubstringPattern(t), true)
  {
    assert SubstringPattern(t) == ("%" + t) + "%";
    PercentSuffixWellFormed("%" + t);
  }
}
