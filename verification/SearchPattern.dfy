/**
 Stop search: turning what a user typed into a LIKE pattern that means exactly "contains it".
 Matching follows section 9.7.1 of the PostgreSQL manual, with a backslash as the escape.
 */
module SearchPattern {
  import opened Wrappers

  const MAX_SEARCH_LENGTH := 100

  datatype Error = SearchTooLong

  // ---- The pattern ----

  /** The characters with the Unicode property White_Space. */
  predicate IsSpace(c: char) {
    || '\U{0009}' <= c <= '\U{000D}' || c == ' ' || c == '\U{0085}' || c == '\U{00A0}' || c == '\U{1680}'
    || '\U{2000}' <= c <= '\U{200A}' || c == '\U{2028}' || c == '\U{2029}' || c == '\U{202F}' || c == '\U{205F}'
    || c == '\U{3000}'
  }

  function TrimStart(s: string): string {
    if s != "" && IsSpace(s[0]) then TrimStart(s[1..]) else s
  }

  function TrimEnd(s: string): string {
    if s != "" && IsSpace(s[|s| - 1]) then TrimEnd(s[..|s| - 1]) else s
  }

  function Trim(s: string): string {
    TrimEnd(TrimStart(s))
  }

  function Replace(s: string, c: char, instead: string): string {
    if s == "" then "" else (if s[0] == c then instead else [s[0]]) + Replace(s[1..], c, instead)
  }

  /** None asks for no filter; the three replacements are done one after the other. */
  function Pattern(search: Option<string>): Result<Option<string>, Error> {
    if search.None? then Success(None)
    else
      var trimmed := Trim(search.value);
      if trimmed == "" then Success(None)
      else if |trimmed| > MAX_SEARCH_LENGTH then Failure(SearchTooLong)
      else
        var escaped := Replace(Replace(Replace(trimmed, '\\', "\\\\"), '%', "\\%"), '_', "\\_");
        Success(Some("%" + escaped + "%"))
  }

  function PatternOf(search: string): string
    requires Pattern(Some(search)).Success? && Pattern(Some(search)).value.Some?
  {
    Pattern(Some(search)).value.value
  }

  // ---- Trimming ----

  predicate AllSpace(s: string) {
    forall i | 0 <= i < |s| :: IsSpace(s[i])
  }

  lemma {:induction false} TrimStartSplits(s: string) returns (lead: string)
    ensures s == lead + TrimStart(s) && AllSpace(lead)
    ensures TrimStart(s) != "" ==> !IsSpace(TrimStart(s)[0])
    decreases |s|
  {
    lead := "";
    if s == "" || !IsSpace(s[0]) {
    } else {
      var rest := TrimStartSplits(s[1..]);
      lead := [s[0]] + rest;
    }
  }

  lemma {:induction false} TrimEndSplits(s: string) returns (trail: string)
    ensures s == TrimEnd(s) + trail && AllSpace(trail)
    ensures TrimEnd(s) != "" ==> !IsSpace(TrimEnd(s)[|TrimEnd(s)| - 1]) && s[0] == TrimEnd(s)[0]
    decreases |s|
  {
    trail := "";
    if s == "" || !IsSpace(s[|s| - 1]) {
    } else {
      var rest := TrimEndSplits(s[..|s| - 1]);
      trail := rest + [s[|s| - 1]];
    }
  }

  lemma SpaceJoins(a: string, b: string)
    requires AllSpace(a) && AllSpace(b)
    ensures AllSpace(a + b)
  {}

  /** Trimming removes white space only, and all of it at both ends. */
  lemma TrimIsExact(s: string) returns (lead: string, trail: string)
    ensures s == lead + Trim(s) + trail && AllSpace(lead) && AllSpace(trail)
    ensures Trim(s) != "" ==> !IsSpace(Trim(s)[0]) && !IsSpace(Trim(s)[|Trim(s)| - 1])
    ensures Trim(s) == "" <==> AllSpace(s)
  {
    lead := TrimStartSplits(s);
    trail := TrimEndSplits(TrimStart(s));
    var t := Trim(s);
    assert s == lead + (t + trail);
    if t != "" {
      assert s[|lead|] == t[0];
    } else {
      SpaceJoins(lead, trail);
    }
  }

  // ---- Escaping ----

  predicate IsSpecial(c: char) {
    c == '\\' || c == '%' || c == '_'
  }

  function Escaped(s: string): string {
    if s == "" then "" else (if IsSpecial(s[0]) then ['\\', s[0]] else [s[0]]) + Escaped(s[1..])
  }

  lemma {:induction false} ReplaceJoins(a: string, b: string, c: char, instead: string)
    ensures Replace(a + b, c, instead) == Replace(a, c, instead) + Replace(b, c, instead)
    decreases |a|
  {
    if a == "" {
      assert a + b == b;
    } else {
      assert (a + b)[1..] == a[1..] + b;
      ReplaceJoins(a[1..], b, c, instead);
    }
  }

  function Thrice(s: string): string {
    Replace(Replace(Replace(s, '\\', "\\\\"), '%', "\\%"), '_', "\\_")
  }

  lemma ThriceJoins(a: string, b: string)
    ensures Thrice(a + b) == Thrice(a) + Thrice(b)
  {
    ReplaceJoins(a, b, '\\', "\\\\");
    var a1, b1 := Replace(a, '\\', "\\\\"), Replace(b, '\\', "\\\\");
    ReplaceJoins(a1, b1, '%', "\\%");
    ReplaceJoins(Replace(a1, '%', "\\%"), Replace(b1, '%', "\\%"), '_', "\\_");
  }

  lemma ReplaceOne(c: char, d: char, instead: string)
    ensures Replace([d], c, instead) == if c == d then instead else [d]
  {
    assert [d][1..] == "";
  }

  lemma ReplaceTwo(c: char, d: char, e: char, instead: string)
    requires c != d
    ensures Replace([d, e], c, instead) == [d] + Replace([e], c, instead)
  {
    assert [d, e][1..] == [e];
  }

  lemma ThriceOne(c: char)
    ensures Thrice([c]) == if IsSpecial(c) then ['\\', c] else [c]
  {
    ReplaceOne('\\', c, "\\\\");
    ReplaceOne('%', c, "\\%");
    ReplaceOne('_', c, "\\_");
    if c == '\\' {
      ReplaceTwo('%', '\\', '\\', "\\%");
      ReplaceOne('%', '\\', "\\%");
      ReplaceTwo('_', '\\', '\\', "\\_");
      ReplaceOne('_', '\\', "\\_");
    } else if c == '%' {
      ReplaceTwo('_', '\\', '%', "\\_");
    }
  }

  /** The three replacements, the backslash first, escape each special character once. */
  lemma {:induction false} ThriceEscapes(s: string)
    ensures Thrice(s) == Escaped(s)
    decreases |s|
  {
    if s == "" {
    } else {
      assert s == [s[0]] + s[1..];
      ThriceJoins([s[0]], s[1..]);
      ThriceOne(s[0]);
      ThriceEscapes(s[1..]);
    }
  }

  // ---- LIKE ----

  /** A pattern must not end in a lone escape. */
  predicate IsPattern(p: string) {
    if p == "" then true
    else if p[0] == '\\' then |p| > 1 && IsPattern(p[2..])
    else IsPattern(p[1..])
  }

  predicate Same(fold: char -> char, a: char, b: char) {
    fold(a) == fold(b)
  }

  /** Whether text matches p; fold is the identity for LIKE and lower case for ILIKE. */
  predicate Like(fold: char -> char, p: string, text: string)
    decreases |p|, |text|
  {
    if p == "" then text == ""
    else if p[0] == '%' then Like(fold, p[1..], text) || (text != "" && Like(fold, p, text[1..]))
    else if p[0] == '_' then text != "" && Like(fold, p[1..], text[1..])
    else if p[0] == '\\' then |p| > 1 && text != "" && Same(fold, p[1], text[0]) && Like(fold, p[2..], text[1..])
    else text != "" && Same(fold, p[0], text[0]) && Like(fold, p[1..], text[1..])
  }

  predicate StartsWith(fold: char -> char, text: string, s: string) {
    |s| <= |text| && forall i | 0 <= i < |s| :: Same(fold, s[i], text[i])
  }

  predicate Contains(fold: char -> char, text: string, s: string) {
    exists k | 0 <= k <= |text| :: StartsWith(fold, text[k..], s)
  }

  lemma {:induction false} PercentMatchesAll(fold: char -> char, text: string)
    ensures Like(fold, "%", text)
    decreases |text|
  {
    assert "%"[1..] == "";
    if text == "" {
    } else {
      PercentMatchesAll(fold, text[1..]);
    }
  }

  /** An escaped string followed by a percent sign matches what starts with the string. */
  lemma {:induction false} EscapedMatchesPrefix(fold: char -> char, s: string, text: string)
    ensures Like(fold, Escaped(s) + "%", text) <==> StartsWith(fold, text, s)
    ensures IsPattern(Escaped(s) + "%")
    decreases |s|
  {
    var p := Escaped(s) + "%";
    if s == "" {
      assert p == "%" && "%"[1..] == "";
      PercentMatchesAll(fold, text);
    } else {
      var rest := Escaped(s[1..]) + "%";
      assert p == (if IsSpecial(s[0]) then ['\\', s[0]] else [s[0]]) + rest;
      assert (if IsSpecial(s[0]) then p[2..] else p[1..]) == rest;
      EscapedMatchesPrefix(fold, s[1..], if text == "" then "" else text[1..]);
      if text != "" {
        StartsWithTail(fold, text, s);
      }
    }
  }

  lemma StartsWithTail(fold: char -> char, text: string, s: string)
    requires text != "" && s != ""
    ensures StartsWith(fold, text, s) <==> Same(fold, s[0], text[0]) && StartsWith(fold, text[1..], s[1..])
  {
    if Same(fold, s[0], text[0]) && StartsWith(fold, text[1..], s[1..]) {
      forall i | 0 <= i < |s|
        ensures Same(fold, s[i], text[i])
      {
        if i > 0 {
          assert Same(fold, s[1..][i - 1], text[1..][i - 1]);
        }
      }
    }
    if StartsWith(fold, text, s) {
      forall i | 0 <= i < |s| - 1
        ensures Same(fold, s[1..][i], text[1..][i])
      {
        assert Same(fold, s[i + 1], text[i + 1]);
      }
    }
  }

  lemma {:induction false} LeadingPercent(fold: char -> char, p: string, text: string)
    ensures Like(fold, "%" + p, text) <==> exists k | 0 <= k <= |text| :: Like(fold, p, text[k..])
    decreases |text|
  {
    assert ("%" + p)[1..] == p;
    assert text[0..] == text;
    if text != "" {
      LeadingPercent(fold, p, text[1..]);
      if k :| 0 <= k <= |text[1..]| && Like(fold, p, text[1..][k..]) {
        assert text[1..][k..] == text[k + 1..];
      }
      if k :| 0 <= k <= |text| && Like(fold, p, text[k..]) {
        assert k > 0 ==> text[1..][k - 1..] == text[k..];
      }
    } else {
      assert forall k | 0 <= k <= |text| :: text[k..] == text;
    }
  }

  /** The pattern matches exactly the texts that contain the trimmed search, whatever it is made of. */
  lemma PatternMeansContains(search: string, fold: char -> char, text: string)
    ensures Pattern(Some(search)).Failure? <==> |Trim(search)| > 100
    ensures Pattern(Some(search)) == Success(None) <==> AllSpace(search)
    ensures Pattern(Some(search)).Success? && !AllSpace(search) ==>
              && IsPattern(PatternOf(search))
              && (Like(fold, PatternOf(search), text) <==> Contains(fold, text, Trim(search)))
  {
    var lead, trail := TrimIsExact(search);
    var s := Trim(search);
    ThriceEscapes(s);
    var p := Escaped(s) + "%";
    assert "%" + Escaped(s) + "%" == "%" + p;
    LeadingPercent(fold, p, text);
    assert ("%" + p)[1..] == p;
    forall k | 0 <= k <= |text|
      ensures Like(fold, p, text[k..]) <==> StartsWith(fold, text[k..], s)
    {
      EscapedMatchesPrefix(fold, s, text[k..]);
    }
    EscapedMatchesPrefix(fold, s, text);
  }
}
