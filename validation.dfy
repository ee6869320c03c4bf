/**
 * The synchronous input validators of the web application
 * (comfyshare-app/src/lib/validation.ts).
 *
 * Each regular expression of the source is written twice:
 *   - a "pattern" predicate that follows the regular expression token by
 *     token (a concatenation is a split index chosen by `exists`, a starred
 *     group is a recursive predicate); the validators use these, as the
 *     source calls `RegExp.test`;
 *   - a ghost "shape" predicate that says in plain words which strings
 *     match, character by character.
 * Lemmas prove the two equal, and state what each validator accepts.
 */
module Validation {
  import opened JsString

  // ---------------------------------------------------------------------
  // Character classes and runs
  // ---------------------------------------------------------------------

  /** `\d` */
  predicate IsDigit(c: char) { '0' <= c <= '9' }

  /** `[A-Z]` */
  predicate IsAsciiUpper(c: char) { 'A' <= c <= 'Z' }

  /** `[a-z]` */
  predicate IsAsciiLower(c: char) { 'a' <= c <= 'z' }

  /** `[a-z0-9]` */
  predicate IsSlugChar(c: char) { IsAsciiLower(c) || IsDigit(c) }

  /** `[^\s@]` */
  predicate IsEmailChar(c: char) { !IsWhitespace(c) && c != '@' }

  /** Every character of `s` is in the class `cls`. */
  predicate AllIn(s: string, cls: char -> bool) {
    forall i :: 0 <= i < |s| ==> cls(s[i])
  }

  /**
   * `RegExp.test` of a one-character class such as `/[A-Z]/`: some
   * character of `s` is in `cls`.
   */
  function AnyIn(s: string, cls: char -> bool): (r: bool)
    ensures r <==> exists i :: 0 <= i < |s| && cls(s[i])
  {
    if s == [] then false
    else if cls(s[0]) then true
    else
      var found := AnyIn(s[1..], cls);
      assert forall i :: 1 <= i < |s| ==> s[i] == s[1..][i - 1];
      found
  }

  /** The regular expression `(sep c+)*` for a character class `c` that excludes `sep`. */
  predicate SepGroups(s: string, sep: char, cls: char -> bool)
    decreases |s|
  {
    || s == []
    || (s[0] == sep && exists k :: 2 <= k <= |s| && AllIn(s[1..k], cls) && SepGroups(s[k..], sep, cls))
  }

  /** The regular expression `c{min,}(sep c+)*`. */
  predicate SeparatedRuns(s: string, sep: char, cls: char -> bool, min: nat) {
    exists k :: min <= k <= |s| && AllIn(s[..k], cls) && SepGroups(s[k..], sep, cls)
  }

  /** Every character is in `cls` or is `sep`. */
  ghost predicate OverAlphabet(s: string, sep: char, cls: char -> bool) {
    forall i :: 0 <= i < |s| ==> cls(s[i]) || s[i] == sep
  }

  /** `sep` never occurs twice in a row. */
  ghost predicate NoDoubleSep(s: string, sep: char) {
    forall i :: 0 <= i < |s| - 1 && s[i] == sep ==> s[i + 1] != sep
  }

  /** `(sep c+)*` in plain words: empty, or starts with `sep`, does not end with it, never doubles it. */
  ghost predicate GroupsShape(s: string, sep: char, cls: char -> bool) {
    s == [] || (s[0] == sep && OverAlphabet(s, sep, cls) && s[|s| - 1] != sep && NoDoubleSep(s, sep))
  }

  /**
   * `c{min,}(sep c+)*` in plain words (for `min >= 1`): at least `min`
   * characters, the first `min` in `cls`, the rest in `cls` or `sep`,
   * not ending in `sep`, and no two `sep` in a row.
   */
  ghost predicate RunsShape(s: string, sep: char, cls: char -> bool, min: nat) {
    && |s| >= min
    && AllIn(s[..min], cls)
    && OverAlphabet(s, sep, cls)
    && (s != [] ==> s[|s| - 1] != sep)
    && NoDoubleSep(s, sep)
  }

  /** The first index at or after `from` that holds `sep`, or `|s|` if there is none. */
  function NextSep(s: string, sep: char, from: nat): (j: nat)
    requires from <= |s|
    ensures from <= j <= |s|
    ensures j < |s| ==> s[j] == sep
    ensures forall m :: from <= m < j ==> s[m] != sep
    decreases |s| - from
  {
    if from == |s| || s[from] == sep then from else NextSep(s, sep, from + 1)
  }

  lemma {:induction false} SepGroupsToShape(s: string, sep: char, cls: char -> bool)
    requires !cls(sep) && SepGroups(s, sep, cls)
    ensures GroupsShape(s, sep, cls)
    decreases |s|
  {
    if s != [] {
      var k :| 2 <= k <= |s| && AllIn(s[1..k], cls) && SepGroups(s[k..], sep, cls);
      var run, t := s[1..k], s[k..];
      SepGroupsToShape(t, sep, cls);
      assert forall i :: 1 <= i < k ==> s[i] == run[i - 1];
      assert forall i :: k <= i < |s| ==> s[i] == t[i - k];
      assert OverAlphabet(s, sep, cls) by {
        forall i | 0 <= i < |s| ensures cls(s[i]) || s[i] == sep {
          if k <= i {
            assert cls(t[i - k]) || t[i - k] == sep;
          }
        }
      }
      assert s[|s| - 1] != sep by {
        if k < |s| {
          assert s[|s| - 1] == t[|t| - 1];
        }
      }
      assert NoDoubleSep(s, sep) by {
        forall i | 0 <= i < |s| - 1 ensures s[i] == sep ==> s[i + 1] != sep {
          if i >= k {
            assert s[i] == t[i - k] && s[i + 1] == t[i - k + 1];
          } else if i > 0 {
            assert cls(s[i]);
          } else {
            assert cls(s[1]);
          }
        }
      }
    }
  }

  lemma {:induction false} ShapeToSepGroups(s: string, sep: char, cls: char -> bool)
    requires !cls(sep) && GroupsShape(s, sep, cls)
    ensures SepGroups(s, sep, cls)
    decreases |s|
  {
    if s != [] {
      assert |s| >= 2;
      var k := NextSep(s, sep, 1);
      assert k >= 2;
      var run, t := s[1..k], s[k..];
      assert AllIn(run, cls) by {
        forall i | 0 <= i < |run| ensures cls(run[i]) {
          assert run[i] == s[i + 1];
        }
      }
      assert GroupsShape(t, sep, cls) by {
        if t != [] {
          assert forall i :: 0 <= i < |t| ==> t[i] == s[i + k];
          assert OverAlphabet(t, sep, cls);
          assert NoDoubleSep(t, sep);
        }
      }
      ShapeToSepGroups(t, sep, cls);
    }
  }

  lemma SepGroupsIffShape(s: string, sep: char, cls: char -> bool)
    requires !cls(sep)
    ensures SepGroups(s, sep, cls) <==> GroupsShape(s, sep, cls)
  {
    if SepGroups(s, sep, cls) {
      SepGroupsToShape(s, sep, cls);
    }
    if GroupsShape(s, sep, cls) {
      ShapeToSepGroups(s, sep, cls);
    }
  }

  /** The regular-expression form `c{min,}(sep c+)*` and its plain-words form accept the same strings. */
  lemma SeparatedRunsIffShape(s: string, sep: char, cls: char -> bool, min: nat)
    requires !cls(sep) && min >= 1
    ensures SeparatedRuns(s, sep, cls, min) <==> RunsShape(s, sep, cls, min)
  {
    if SeparatedRuns(s, sep, cls, min) {
      var k :| min <= k <= |s| && AllIn(s[..k], cls) && SepGroups(s[k..], sep, cls);
      var run, t := s[..k], s[k..];
      SepGroupsIffShape(t, sep, cls);
      assert forall i :: 0 <= i < k ==> s[i] == run[i];
      assert forall i :: k <= i < |s| ==> s[i] == t[i - k];
      assert AllIn(s[..min], cls) by {
        forall i | 0 <= i < min ensures cls(s[..min][i]) {
          assert s[..min][i] == run[i];
        }
      }
      assert NoDoubleSep(s, sep) by {
        forall i | 0 <= i < |s| - 1 && s[i] == sep ensures s[i + 1] != sep {
          assert t[i - k] == sep;
        }
      }
    }
    if RunsShape(s, sep, cls, min) {
      assert forall i :: 0 <= i < min ==> s[i] == s[..min][i];
      var k := NextSep(s, sep, min);
      var run, t := s[..k], s[k..];
      assert AllIn(run, cls) by {
        forall i | 0 <= i < |run| ensures cls(run[i]) {
          assert run[i] == s[i];
        }
      }
      assert forall i :: 0 <= i < |t| ==> t[i] == s[i + k];
      assert GroupsShape(t, sep, cls);
      SepGroupsIffShape(t, sep, cls);
    }
  }

  // ---------------------------------------------------------------------
  // isValidDOI: /^10\.\d{4,}(\.\d+)*\/[^\s]+$/ on the trimmed input
  // ---------------------------------------------------------------------

  /** The registrant part `\d{4,}(\.\d+)*` of a DOI name. */
  predicate RegistrantPattern(r: string) {
    SeparatedRuns(r, '.', IsDigit, 4)
  }

  /** `^10\.\d{4,}(\.\d+)*\/[^\s]+$`: the slash at index `k` ends the registrant. */
  predicate DoiPattern(t: string) {
    && StartsWith(t, "10.")
    && exists k :: 3 <= k < |t| - 1 && t[k] == '/' && RegistrantPattern(t[3..k]) && NoWhitespace(t[k + 1..])
  }

  function IsValidDOI(doi: string): bool {
    if doi == "" then false
    else
      var trimmed := Trim(doi);
      if !StartsWith(trimmed, "10.") then false
      else if '/' !in trimmed then false
      else DoiPattern(trimmed)
  }

  /**
   * A registrant in plain words: at least four digits, then only digits
   * and dots, never two dots in a row, not ending in a dot; that is, four
   * or more digits followed by zero or more groups of a dot and digits.
   */
  ghost predicate RegistrantShape(r: string) {
    RunsShape(r, '.', IsDigit, 4)
  }

  /**
   * `t` is `"10." + R + "/" + X` where R = t[3..k] is a registrant and
   * X = t[k+1..] is non-empty and has no whitespace (X may hold more '/').
   */
  ghost predicate DoiShape(t: string) {
    && StartsWith(t, "10.")
    && exists k :: 3 <= k < |t| - 1 && t[k] == '/' && RegistrantShape(t[3..k]) && NoWhitespace(t[k + 1..])
  }

  lemma DoiPatternIffShape(t: string)
    ensures DoiPattern(t) <==> DoiShape(t)
  {
    forall k | 3 <= k < |t|
      ensures RegistrantPattern(t[3..k]) <==> RegistrantShape(t[3..k])
    {
      SeparatedRunsIffShape(t[3..k], '.', IsDigit, 4);
    }
  }

  /** isValidDOI accepts exactly the inputs whose trimmed form has the DOI shape. */
  lemma DoiValidIff(doi: string)
    ensures IsValidDOI(doi) <==> DoiShape(Trim(doi))
  {
    var t := Trim(doi);
    DoiPatternIffShape(t);
    if DoiPattern(t) {
      var k :| 3 <= k < |t| - 1 && t[k] == '/' && RegistrantPattern(t[3..k]) && NoWhitespace(t[k + 1..]);
      assert t[k] in t;
    }
    if doi == "" {
      assert !DoiShape(t);
    }
  }

  /**
   * isValidDOI rejects the empty string, ignores whitespace added around
   * its input, and accepts only trimmed forms that start with "10." and
   * contain a '/'.
   */
  lemma DoiTrimFacts(a: string, s: string, b: string)
    requires AllWhitespace(a) && AllWhitespace(b)
    ensures !IsValidDOI("")
    ensures IsValidDOI(a + s + b) == IsValidDOI(s)
    ensures IsValidDOI(s) ==> StartsWith(Trim(s), "10.") && '/' in Trim(s)
  {
    DoiValidIff(a + s + b);
    DoiValidIff(s);
    TrimIgnoresPadding(a, s, b);
  }

  /** Any registrant and non-empty whitespace-free suffix, padded with whitespace, make a valid DOI. */
  lemma DoiFromParts(a: string, reg: string, suffix: string, b: string)
    requires AllWhitespace(a) && AllWhitespace(b)
    requires RegistrantShape(reg) && suffix != [] && NoWhitespace(suffix)
    ensures IsValidDOI(a + ("10." + reg + "/" + suffix) + b)
  {
    var t := "10." + reg + "/" + suffix;
    var k := 3 + |reg|;
    assert t[3..k] == reg;
    assert t[k + 1..] == suffix;
    assert t[k] == '/';
    assert t[..3] == "10.";
    assert DoiShape(t);
    assert !IsWhitespace(t[0]) && !IsWhitespace(t[|t| - 1]);
    assert TrimEnd(t) == t;
    assert TrimStart(t) == t;
    DoiValidIff(t);
    DoiTrimFacts(a, t, b);
  }

  // ---------------------------------------------------------------------
  // isValidSlug: /^[a-z0-9]+(?:-[a-z0-9]+)*$/
  // ---------------------------------------------------------------------

  function IsValidSlug(slug: string): bool {
    if slug == "" then false
    else SeparatedRuns(slug, '-', IsSlugChar, 1)
  }

  /**
   * A slug in plain words: non-empty, only `[a-z0-9-]`, neither starting
   * nor ending with '-', and never "--".
   */
  ghost predicate SlugShape(s: string) {
    && s != []
    && (forall i :: 0 <= i < |s| ==> IsSlugChar(s[i]) || s[i] == '-')
    && s[0] != '-'
    && s[|s| - 1] != '-'
    && (forall i :: 0 <= i < |s| - 1 ==> !(s[i] == '-' && s[i + 1] == '-'))
  }

  lemma SlugValidIff(slug: string)
    ensures IsValidSlug(slug) <==> SlugShape(slug)
  {
    SeparatedRunsIffShape(slug, '-', IsSlugChar, 1);
    if slug != [] {
      assert slug[..1][0] == slug[0];
    }
  }

  // ---------------------------------------------------------------------
  // isValidTitle
  // ---------------------------------------------------------------------

  const MaxTitleLength: nat := 500

  function IsValidTitle(title: string): bool {
    if title == "" then false
    else
      var trimmed := Trim(title);
      |trimmed| > 0 && |trimmed| <= MaxTitleLength
  }

  /**
   * isValidTitle accepts exactly the titles whose trimmed length is 1 to
   * 500, that is, those with a non-whitespace character and at most 500
   * characters once surrounding whitespace is removed; surrounding
   * whitespace never changes the verdict.
   */
  lemma TitleValidIff(a: string, title: string, b: string)
    requires AllWhitespace(a) && AllWhitespace(b)
    ensures IsValidTitle(title) <==> 1 <= |Trim(title)| <= MaxTitleLength
    ensures IsValidTitle(title) ==> exists i :: 0 <= i < |title| && !IsWhitespace(title[i])
    ensures IsValidTitle(a + title + b) == IsValidTitle(title)
  {
    TrimEmptyIffAllWhitespace(title);
    TrimIgnoresPadding(a, title, b);
  }

  // ---------------------------------------------------------------------
  // isValidEmail: /^[^\s@]+@[^\s@]+\.[^\s@]+$/
  // ---------------------------------------------------------------------

  /** `[^\s@]+ @ [^\s@]+ \. [^\s@]+` with the '@' at `i` and the chosen '.' at `j`. */
  predicate EmailPattern(e: string) {
    exists i, j ::
      && 0 < i && i + 1 < j && j + 1 < |e|
      && e[i] == '@' && e[j] == '.'
      && AllIn(e[..i], IsEmailChar) && AllIn(e[i + 1..j], IsEmailChar) && AllIn(e[j + 1..], IsEmailChar)
  }

  function IsValidEmail(email: string): bool {
    if email == "" then false
    else EmailPattern(email)
  }

  /**
   * An email in plain words: no whitespace; exactly one '@', not first;
   * and after it a '.' that is neither the first nor the last character
   * of the part after the '@'.
   */
  ghost predicate EmailShape(e: string) {
    && NoWhitespace(e)
    && exists i ::
      && 0 < i < |e| && e[i] == '@'
      && (forall m :: 0 <= m < |e| && m != i ==> e[m] != '@')
      && exists p :: i + 1 < p < |e| - 1 && e[p] == '.'
  }

  lemma PatternToEmailShape(e: string)
    requires EmailPattern(e)
    ensures EmailShape(e)
  {
    var i, j :| && 0 < i && i + 1 < j && j + 1 < |e|
                && e[i] == '@' && e[j] == '.'
                && AllIn(e[..i], IsEmailChar) && AllIn(e[i + 1..j], IsEmailChar) && AllIn(e[j + 1..], IsEmailChar);
    var local, domain, top := e[..i], e[i + 1..j], e[j + 1..];
    forall m | 0 <= m < |e| && m != i
      ensures e[m] != '@' && !IsWhitespace(e[m])
    {
      if m < i {
        assert e[m] == local[m] && IsEmailChar(local[m]);
      } else if m == j {
      } else if m < j {
        assert e[m] == domain[m - i - 1] && IsEmailChar(domain[m - i - 1]);
      } else {
        assert e[m] == top[m - j - 1] && IsEmailChar(top[m - j - 1]);
      }
    }
    assert NoWhitespace(e);
    assert i + 1 < j < |e| - 1 && e[j] == '.';
  }

  lemma EmailShapeToPattern(e: string)
    requires EmailShape(e)
    ensures EmailPattern(e)
  {
    var i :| && 0 < i < |e| && e[i] == '@'
             && (forall m :: 0 <= m < |e| && m != i ==> e[m] != '@')
             && exists p :: i + 1 < p < |e| - 1 && e[p] == '.';
    var j :| i + 1 < j < |e| - 1 && e[j] == '.';
    var local, domain, top := e[..i], e[i + 1..j], e[j + 1..];
    assert AllIn(local, IsEmailChar) by {
      forall m | 0 <= m < |local| ensures IsEmailChar(local[m]) { assert local[m] == e[m]; }
    }
    assert AllIn(domain, IsEmailChar) by {
      forall m | 0 <= m < |domain| ensures IsEmailChar(domain[m]) { assert domain[m] == e[m + i + 1]; }
    }
    assert AllIn(top, IsEmailChar) by {
      forall m | 0 <= m < |top| ensures IsEmailChar(top[m]) { assert top[m] == e[m + j + 1]; }
    }
  }

  /** isValidEmail accepts exactly the strings of the plain-words email shape. */
  lemma EmailValidIff(email: string)
    ensures IsValidEmail(email) <==> EmailShape(email)
  {
    if EmailPattern(email) {
      PatternToEmailShape(email);
    }
    if EmailShape(email) {
      EmailShapeToPattern(email);
    }
  }

  // ---------------------------------------------------------------------
  // isValidPassword
  // ---------------------------------------------------------------------

  /** The `{ isValid, errors }` object isValidPassword returns. */
  datatype PasswordCheck = PasswordCheck(isValid: bool, errors: seq<string>)

  const MinPasswordLength: nat := 8

  const MsgRequired := "Password is required"
  const MsgTooShort := "Password must be at least 8 characters long"
  const MsgNoUpper := "Password must contain at least one uppercase letter"
  const MsgNoLower := "Password must contain at least one lowercase letter"
  const MsgNoDigit := "Password must contain at least one number"

  /** The position of a rule's message in the order the rules are checked; 4 for any other string. */
  function RuleRank(m: string): nat {
    if m == MsgTooShort then 0
    else if m == MsgNoUpper then 1
    else if m == MsgNoLower then 2
    else if m == MsgNoDigit then 3
    else 4
  }

  /** The four rule messages are distinct, so their ranks are 0, 1, 2 and 3. */
  lemma RuleRanks()
    ensures RuleRank(MsgTooShort) == 0 && RuleRank(MsgNoUpper) == 1
    ensures RuleRank(MsgNoLower) == 2 && RuleRank(MsgNoDigit) == 3
  {
    assert MsgNoUpper[14] != MsgTooShort[14];
    assert MsgNoLower[35] != MsgNoUpper[35];
    assert MsgNoDigit[35] != MsgNoLower[35] && MsgNoDigit[35] != MsgNoUpper[35];
    assert MsgNoLower[14] != MsgTooShort[14] && MsgNoDigit[14] != MsgTooShort[14];
  }

  /** The message of rule `k`, in the order the rules are checked. */
  function RuleMessage(k: nat): (m: string)
    requires k < 4
    ensures RuleRank(m) == k
  {
    RuleRanks();
    [MsgTooShort, MsgNoUpper, MsgNoLower, MsgNoDigit][k]
  }

  ghost predicate HasAsciiUpper(p: string) { exists i :: 0 <= i < |p| && IsAsciiUpper(p[i]) }
  ghost predicate HasAsciiLower(p: string) { exists i :: 0 <= i < |p| && IsAsciiLower(p[i]) }
  ghost predicate HasAsciiDigit(p: string) { exists i :: 0 <= i < |p| && IsDigit(p[i]) }

  /** Rule `k` fails for password `p`: too short, no uppercase, no lowercase, no digit. */
  ghost predicate RuleFails(p: string, k: nat)
    requires k < 4
  {
    if k == 0 then |p| < MinPasswordLength
    else if k == 1 then !HasAsciiUpper(p)
    else if k == 2 then !HasAsciiLower(p)
    else !HasAsciiDigit(p)
  }

  /** Every element is one of the four rule messages, in the order the rules run, none repeated. */
  ghost predicate InRuleOrder(errors: seq<string>) {
    && (forall i :: 0 <= i < |errors| ==> RuleRank(errors[i]) < 4)
    && (forall i, j :: 0 <= i < j < |errors| ==> RuleRank(errors[i]) < RuleRank(errors[j]))
  }

  /** `errors` reports, in rule order, exactly the failing rules among the first `n`. */
  ghost predicate ReportsRules(errors: seq<string>, p: string, n: nat)
    requires n <= 4
  {
    && InRuleOrder(errors)
    && (forall i :: 0 <= i < |errors| ==> RuleRank(errors[i]) < n)
    && (forall k :: 0 <= k < n ==> (RuleMessage(k) in errors <==> RuleFails(p, k)))
  }

  /** Checking rule `n` (pushing its message when it fails) extends the report to `n + 1` rules. */
  lemma ReportNextRule(errors: seq<string>, p: string, n: nat, failed: bool)
    requires n < 4 && ReportsRules(errors, p, n) && failed == RuleFails(p, n)
    ensures ReportsRules(if failed then errors + [RuleMessage(n)] else errors, p, n + 1)
  {
    var m := RuleMessage(n);
    forall i | 0 <= i < |errors| ensures errors[i] != m {
      assert RuleRank(errors[i]) < n;
    }
    if failed {
      var next := errors + [m];
      forall k | 0 <= k < n + 1
        ensures RuleMessage(k) in next <==> RuleFails(p, k)
      {
        if k < n {
          assert RuleMessage(k) != m;
        }
      }
    }
  }

  /** The messages of the failing rules among the first `n`, in the order the rules run. */
  ghost function RuleReport(p: string, n: nat): seq<string>
    requires n <= 4
  {
    if n == 0 then []
    else RuleReport(p, n - 1) + (if RuleFails(p, n - 1) then [RuleMessage(n - 1)] else [])
  }

  /** `RuleReport` reports exactly the failing rules, in rule order. */
  lemma {:induction false} RuleReportReports(p: string, n: nat)
    requires n <= 4
    ensures ReportsRules(RuleReport(p, n), p, n)
  {
    if n > 0 {
      RuleReportReports(p, n - 1);
      ReportNextRule(RuleReport(p, n - 1), p, n - 1, RuleFails(p, n - 1));
    }
  }

  /** A list of rule messages in rule order has at most four entries. */
  lemma {:induction false} RuleOrderBound(errors: seq<string>)
    requires InRuleOrder(errors)
    ensures |errors| <= 4
    ensures forall i :: 0 <= i < |errors| ==> RuleRank(errors[i]) >= i
    decreases |errors|
  {
    if errors != [] {
      var front := errors[..|errors| - 1];
      assert forall i :: 0 <= i < |front| ==> front[i] == errors[i];
      RuleOrderBound(front);
      var last := |errors| - 1;
      if last > 0 {
        assert RuleRank(errors[last - 1]) < RuleRank(errors[last]);
      }
    }
  }

  /** A report of all four rules lists each rule's message exactly when that rule fails. */
  lemma ReportsAllRules(errors: seq<string>, p: string)
    requires ReportsRules(errors, p, 4)
    ensures |errors| <= 4
    ensures MsgTooShort in errors <==> |p| < MinPasswordLength
    ensures MsgNoUpper in errors <==> !HasAsciiUpper(p)
    ensures MsgNoLower in errors <==> !HasAsciiLower(p)
    ensures MsgNoDigit in errors <==> !HasAsciiDigit(p)
    ensures errors == [] <==> (|p| >= MinPasswordLength && HasAsciiUpper(p) && HasAsciiLower(p) && HasAsciiDigit(p))
  {
    RuleOrderBound(errors);
    assert RuleMessage(0) == MsgTooShort && RuleMessage(1) == MsgNoUpper;
    assert RuleMessage(2) == MsgNoLower && RuleMessage(3) == MsgNoDigit;
    if errors != [] {
      var k := RuleRank(errors[0]);
      assert RuleMessage(k) == errors[0] by {
        RuleRanks();
      }
      assert RuleMessage(k) in errors;
    }
  }

  method IsValidPassword(password: string) returns (r: PasswordCheck)
    ensures password == "" ==> r == PasswordCheck(false, [MsgRequired])
    ensures password != "" ==> InRuleOrder(r.errors) && |r.errors| <= 4
    ensures password != "" ==> (MsgTooShort in r.errors <==> |password| < MinPasswordLength)
    ensures password != "" ==> (MsgNoUpper in r.errors <==> !HasAsciiUpper(password))
    ensures password != "" ==> (MsgNoLower in r.errors <==> !HasAsciiLower(password))
    ensures password != "" ==> (MsgNoDigit in r.errors <==> !HasAsciiDigit(password))
    ensures r.isValid <==> r.errors == []
    ensures r.isValid <==> (password != "" && |password| >= MinPasswordLength
                            && HasAsciiUpper(password) && HasAsciiLower(password) && HasAsciiDigit(password))
  {
    var errors: seq<string> := [];
    if password == "" {
      errors := errors + [MsgRequired];
      return PasswordCheck(false, errors);
    }
    assert errors == RuleReport(password, 0);
    if |password| < MinPasswordLength {
      errors := errors + [MsgTooShort];
    }
    assert errors == RuleReport(password, 1);
    if !AnyIn(password, IsAsciiUpper) {
      errors := errors + [MsgNoUpper];
    }
    assert errors == RuleReport(password, 2);
    if !AnyIn(password, IsAsciiLower) {
      errors := errors + [MsgNoLower];
    }
    assert errors == RuleReport(password, 3);
    if !AnyIn(password, IsDigit) {
      errors := errors + [MsgNoDigit];
    }
    assert errors == RuleReport(password, 4);
    RuleReportReports(password, 4);
    ReportsAllRules(errors, password);
    r := PasswordCheck(|errors| == 0, errors);
  }

  // ---------------------------------------------------------------------
  // isValidImageType, isValidImageSize
  // ---------------------------------------------------------------------

  /** The two fields of a browser `File` the validators read. */
  datatype FileInfo = FileInfo(size: nat, mimeType: string)

  const ValidImageTypes: seq<string> := ["image/jpeg", "image/jpg", "image/png", "image/gif", "image/webp"]

  /** Only the five listed MIME types, compared exactly (so case-sensitively), are accepted. */
  function IsValidImageType(file: FileInfo): (r: bool)
    ensures r ==> StartsWith(file.mimeType, "image/")
    ensures r <==> file.mimeType in {"image/jpeg", "image/jpg", "image/png", "image/gif", "image/webp"}
  {
    file.mimeType in ValidImageTypes
  }

  const BytesPerMB: nat := 1024 * 1024

  /** `file.size <= maxSizeMB * 1024 * 1024`, with a whole number of megabytes (default 5). */
  function IsValidImageSize(file: FileInfo, maxSizeMB: nat := 5): bool {
    file.size <= maxSizeMB * 1024 * 1024
  }

  /**
   * The default limit is 5242880 bytes, a larger limit never rejects a file
   * a smaller one accepts, and a limit of 0 accepts only empty files.
   */
  lemma ImageSizeLimits(file: FileInfo, smaller: nat, larger: nat)
    requires smaller <= larger
    ensures IsValidImageSize(file) <==> file.size <= 5242880
    ensures IsValidImageSize(file, smaller) ==> IsValidImageSize(file, larger)
    ensures IsValidImageSize(file, 0) <==> file.size == 0
  {
    assert smaller * BytesPerMB <= larger * BytesPerMB;
  }
}
