/** Python string semantics the application relies on, for ASCII text: whitespace, `strip`,
    `lower`/`upper`, `in`, `find`, slicing with negative bounds, decimal rendering, `zfill` and
    `int(str)`. Non-ASCII case mapping and whitespace are not modelled. */
module Text {
  import opened Wrappers

  /** Python's `str.isspace` on ASCII: tab, newline, vertical tab, form feed, carriage return,
      the four separators 0x1C-0x1F, and space. */
  predicate IsSpace(c: char) {
    var n := c as int;
    n == 32 || 9 <= n <= 13 || 28 <= n <= 31
  }

  predicate IsDigit(c: char) { '0' <= c <= '9' }

  predicate IsAsciiLetter(c: char) { 'a' <= c <= 'z' || 'A' <= c <= 'Z' }

  predicate IsAsciiAlnum(c: char) { IsDigit(c) || IsAsciiLetter(c) }

  predicate IsHexDigit(c: char) { IsDigit(c) || 'a' <= c <= 'f' || 'A' <= c <= 'F' }

  /** Every character is whitespace (the empty string included): `not s.strip()`. */
  predicate IsBlank(s: string) {
    forall i :: 0 <= i < |s| ==> IsSpace(s[i])
  }

  predicate AllDigits(s: string) {
    forall i :: 0 <= i < |s| ==> IsDigit(s[i])
  }

  /** `s.lstrip()` */
  function TrimLeft(s: string): (r: string)
    ensures |r| <= |s| && r == s[|s| - |r|..]
    ensures forall i :: 0 <= i < |s| - |r| ==> IsSpace(s[i])
    ensures r == [] || !IsSpace(r[0])
  {
    if |s| > 0 && IsSpace(s[0]) then TrimLeft(s[1..]) else s
  }

  /** `s.rstrip()` */
  function TrimRight(s: string): (r: string)
    ensures |r| <= |s| && r == s[..|r|]
    ensures forall i :: |r| <= i < |s| ==> IsSpace(s[i])
    ensures r == [] || !IsSpace(r[|r| - 1])
  {
    if |s| > 0 && IsSpace(s[|s| - 1]) then TrimRight(s[..|s| - 1]) else s
  }

  /** `s.strip()`: whitespace removed from both ends. */
  function Strip(s: string): (r: string)
    ensures |r| <= |s|
    ensures r == [] || (!IsSpace(r[0]) && !IsSpace(r[|r| - 1]))
    ensures r == [] <==> IsBlank(s)
  {
    var t := TrimLeft(s);
    StripEmptyIffBlank(s, t);
    TrimRight(t)
  }

  lemma StripEmptyIffBlank(s: string, t: string)
    requires t == TrimLeft(s)
    ensures TrimRight(t) == [] <==> IsBlank(s)
  {
    var r := TrimRight(t);
    var a := |s| - |t|;
    if r != [] {
      assert s[a] == t[0] == r[0];
    }
  }

  lemma {:induction false} StripUnpadded(s: string)
    requires s == [] || (!IsSpace(s[0]) && !IsSpace(s[|s| - 1]))
    ensures Strip(s) == s
  {
  }

  function LowerChar(c: char): char {
    if 'A' <= c <= 'Z' then (c as int + 32) as char else c
  }

  function UpperChar(c: char): char {
    if 'a' <= c <= 'z' then (c as int - 32) as char else c
  }

  /** `s.lower()` on ASCII letters. */
  function Lower(s: string): (r: string)
    ensures |r| == |s|
    ensures forall i :: 0 <= i < |s| ==> r[i] == LowerChar(s[i])
  {
    seq(|s|, i requires 0 <= i < |s| => LowerChar(s[i]))
  }

  /** `s.upper()` on ASCII letters. */
  function Upper(s: string): (r: string)
    ensures |r| == |s|
    ensures forall i :: 0 <= i < |s| ==> r[i] == UpperChar(s[i])
  {
    seq(|s|, i requires 0 <= i < |s| => UpperChar(s[i]))
  }

  /** `t` occurs in `s` starting at index `i`. */
  predicate OccursAt(s: string, t: string, i: int) {
    0 <= i && i + |t| <= |s| && s[i..i + |t|] == t
  }

  /** Python's `t in s` (the empty string occurs everywhere). */
  predicate Contains(s: string, t: string) {
    exists i :: 0 <= i <= |s| && OccursAt(s, t, i)
  }

  /** Case-insensitive containment, `t.lower() in s.lower()`. */
  predicate ContainsIgnoringCase(s: string, t: string) {
    Contains(Lower(s), Lower(t))
  }

  /** The first occurrence of `t` in `s` at or after `from`. */
  function FindFrom(s: string, t: string, from: nat): (r: Option<nat>)
    requires from <= |s|
    decreases |s| - from
    ensures r.Some? ==> from <= r.value && OccursAt(s, t, r.value)
    ensures r.Some? ==> forall j :: from <= j < r.value ==> !OccursAt(s, t, j)
    ensures r.None? ==> forall j :: from <= j ==> !OccursAt(s, t, j)
  {
    if from + |t| > |s| then None
    else if s[from..from + |t|] == t then Some(from)
    else FindFrom(s, t, from + 1)
  }

  /** Python's `s.find(t)`, as an option; `None` exactly when `t not in s`. */
  function Find(s: string, t: string): (r: Option<nat>)
    ensures r.Some? ==> OccursAt(s, t, r.value) && forall j :: 0 <= j < r.value ==> !OccursAt(s, t, j)
    ensures r.None? <==> !Contains(s, t)
  {
    FindFrom(s, t, 0)
  }

  /** Python's `s.split(sep, 1)` when `sep in s`: the text before and after the first `sep`. */
  function SplitOnce(s: string, sep: string): (r: Option<(string, string)>)
    ensures r.None? <==> !Contains(s, sep)
    ensures r.Some? ==> s == r.value.0 + sep + r.value.1 && (!Contains(r.value.0, sep) || |sep| == 0)
  {
    match Find(s, sep)
    case None => None
    case Some(k) =>
      var before := s[..k];
      assert s == before + sep + s[k + |sep|..];
      FirstOccurrenceNotBefore(s, sep, k);
      Some((before, s[k + |sep|..]))
  }

  lemma FirstOccurrenceNotBefore(s: string, t: string, k: nat)
    requires OccursAt(s, t, k) && forall j :: 0 <= j < k ==> !OccursAt(s, t, j)
    ensures !Contains(s[..k], t) || |t| == 0
  {
    if |t| > 0 && Contains(s[..k], t) {
      var j :| 0 <= j <= k && OccursAt(s[..k], t, j);
      assert s[..k][j..j + |t|] == s[j..j + |t|];
      assert OccursAt(s, t, j);
    }
  }

  /** Python's `s[:n]`: a negative bound counts from the end. */
  function SlicePrefix(s: string, n: int): (r: string)
    ensures 0 <= n ==> r == s[..if n < |s| then n else |s|]
    ensures n < 0 ==> r == s[..if -n < |s| then |s| + n else 0]
  {
    if 0 <= n then s[..if n < |s| then n else |s|]
    else s[..if -n < |s| then |s| + n else 0]
  }

  function Repeat(c: char, n: nat): (r: string)
    ensures |r| == n && forall i :: 0 <= i < n ==> r[i] == c
  {
    if n == 0 then [] else [c] + Repeat(c, n - 1)
  }

  function DigitChar(d: nat): char
    requires d < 10
  {
    ('0' as int + d) as char
  }

  function DigitValue(c: char): nat
    requires IsDigit(c)
  {
    c as int - '0' as int
  }

  /** Python's `str(n)` for a natural number. */
  function NatToString(n: nat): (r: string)
    ensures |r| >= 1 && AllDigits(r)
    ensures r[0] == '0' ==> n == 0
  {
    if n < 10 then [DigitChar(n)] else NatToString(n / 10) + [DigitChar(n % 10)]
  }

  /** The number a string of decimal digits denotes. */
  function DigitsValue(s: string): nat
    requires AllDigits(s)
  {
    if |s| == 0 then 0 else DigitsValue(s[..|s| - 1]) * 10 + DigitValue(s[|s| - 1])
  }

  /** Rendering a number in decimal and reading it back gives the number. */
  lemma {:induction false} NatToStringRoundTrip(n: nat)
    ensures DigitsValue(NatToString(n)) == n
  {
    if n >= 10 {
      var s := NatToString(n);
      assert s[..|s| - 1] == NatToString(n / 10);
      NatToStringRoundTrip(n / 10);
    }
  }

  lemma NatToStringInjective(a: nat, b: nat)
    ensures NatToString(a) == NatToString(b) ==> a == b
  {
    NatToStringRoundTrip(a);
    NatToStringRoundTrip(b);
  }

  /** Python's `s.zfill(width)` for a string of digits: left-padded with zeros to `width`. */
  function ZFill(s: string, width: nat): (r: string)
    ensures |r| == if |s| < width then width else |s|
    ensures r[|r| - |s|..] == s
    ensures forall i :: 0 <= i < |r| - |s| ==> r[i] == '0'
  {
    if |s| < width then Repeat('0', width - |s|) + s else s
  }

  /** Replace every character by `f` of it. */
  function MapChars(s: string, f: char -> char): (r: string)
    ensures |r| == |s| && forall i :: 0 <= i < |s| ==> r[i] == f(s[i])
  {
    seq(|s|, i requires 0 <= i < |s| => f(s[i]))
  }

  /** Keep the characters satisfying `keep`, in order: `re.sub('[^...]', '', s)`. */
  function FilterChars(s: string, keep: char -> bool): (r: string)
    ensures |r| <= |s|
    ensures forall i :: 0 <= i < |r| ==> keep(r[i])
    ensures forall c :: c in s && keep(c) ==> c in r
    ensures forall c :: c in r ==> c in s
  {
    if |s| == 0 then []
    else (if keep(s[0]) then [s[0]] else []) + FilterChars(s[1..], keep)
  }

  /** Strip the characters in `chars` from both ends: `s.strip(chars)`. */
  function StripChars(s: string, chars: set<char>): (r: string)
    ensures |r| <= |s|
    ensures r == [] || (r[0] !in chars && r[|r| - 1] !in chars)
    ensures (s == [] || (s[0] !in chars && s[|s| - 1] !in chars)) ==> r == s
  {
    if |s| > 0 && s[0] in chars then StripChars(s[1..], chars)
    else if |s| > 0 && s[|s| - 1] in chars then StripChars(s[..|s| - 1], chars)
    else s
  }

  /** The result of `StripChars` is a contiguous piece of its input. */
  lemma {:induction false} StripCharsSlice(s: string, chars: set<char>) returns (a: nat, b: nat)
    ensures a <= b <= |s| && StripChars(s, chars) == s[a..b]
    decreases |s|
  {
    if |s| > 0 && s[0] in chars {
      var a', b' := StripCharsSlice(s[1..], chars);
      a, b := a' + 1, b' + 1;
      assert s[1..][a'..b'] == s[a..b];
    } else if |s| > 0 && s[|s| - 1] in chars {
      a, b := StripCharsSlice(s[..|s| - 1], chars);
      assert s[..|s| - 1][a..b] == s[a..b];
    } else {
      a, b := 0, |s|;
    }
  }

  /** `s.replace(t, '')`: the occurrences of `t`, found from the left without overlapping,
      removed. */
  function RemoveAll(s: string, t: string): (r: string)
    requires |t| > 0
    ensures |r| <= |s|
    decreases |s|
  {
    if |s| < |t| then s
    else if s[..|t|] == t then RemoveAll(s[|t|..], t)
    else [s[0]] + RemoveAll(s[1..], t)
  }

  /** Nothing is removed when the first character of `t` does not occur in `s`. */
  lemma {:induction false} RemoveAllAbsent(s: string, t: string)
    requires |t| > 0 && t[0] !in s
    ensures RemoveAll(s, t) == s
    decreases |s|
  {
    if |s| >= |t| {
      assert s[..|t|] != t by {
        assert s[..|t|][0] == s[0];
      }
      assert forall c :: c in s[1..] ==> c in s;
      RemoveAllAbsent(s[1..], t);
      assert s == [s[0]] + s[1..];
    }
  }

  /** An occurrence at the front is removed. */
  lemma RemoveAllLeading(t: string, s: string)
    requires |t| > 0
    ensures RemoveAll(t + s, t) == RemoveAll(s, t)
  {
    assert (t + s)[..|t|] == t && (t + s)[|t|..] == s;
  }

  /** Python's `int(s)` for a decimal string: surrounding whitespace, an optional sign and at
      least one ASCII digit; anything else raises `ValueError` (here `None`). */
  function ParseInt(s: string): (r: Option<int>)
    ensures r.Some? ==> exists d :: |d| >= 1 && AllDigits(d) && (r.value == DigitsValue(d) || r.value == -(DigitsValue(d) as int))
  {
    var t := Strip(s);
    if |t| >= 1 && (t[0] == '+' || t[0] == '-') then
      var d := t[1..];
      if |d| >= 1 && AllDigits(d) then
        var v: int := DigitsValue(d);
        Some(if t[0] == '-' then -v else v)
      else None
    else if |t| >= 1 && AllDigits(t) then Some(DigitsValue(t))
    else None
  }

  /** `int(str(n))` is `n`. */
  lemma ParseIntOfNatToString(n: nat)
    ensures ParseInt(NatToString(n)) == Some(n)
  {
    var s := NatToString(n);
    assert !IsSpace(s[0]) && !IsSpace(s[|s| - 1]);
    StripUnpadded(s);
    NatToStringRoundTrip(n);
  }

  /** A string without the first character of `t` does not contain `t`. */
  lemma LacksFirstChar(s: string, t: string)
    requires |t| > 0 && forall i :: 0 <= i < |s| ==> s[i] != t[0]
    ensures !Contains(s, t)
  {
    forall i | 0 <= i <= |s| ensures !OccursAt(s, t, i) {
      if i + |t| <= |s| {
        assert s[i..i + |t|][0] == s[i];
      }
    }
  }
}
