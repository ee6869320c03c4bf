/**
 * The pieces of JavaScript's string semantics the validators rely on:
 * the whitespace set shared by `String.prototype.trim` and the regular
 * expression class `\s`, and `trim` itself.
 */
module JsString {

  /**
   * ECMAScript WhiteSpace and LineTerminator code points. `trim` strips
   * exactly these, and `\s` matches exactly these.
   */
  predicate IsWhitespace(c: char) {
    || c == '\t' || c == '\n' || c == '\U{000B}' || c == '\U{000C}' || c == '\r'
    || c == ' ' || c == '\U{00A0}' || c == '\U{1680}'
    || ('\U{2000}' <= c <= '\U{200A}')
    || c == '\U{2028}' || c == '\U{2029}' || c == '\U{202F}' || c == '\U{205F}'
    || c == '\U{3000}' || c == '\U{FEFF}'
  }

  predicate NoWhitespace(s: string) {
    forall i :: 0 <= i < |s| ==> !IsWhitespace(s[i])
  }

  predicate AllWhitespace(s: string) {
    forall i :: 0 <= i < |s| ==> IsWhitespace(s[i])
  }

  /** `s.startsWith(prefix)` */
  predicate StartsWith(s: string, prefix: string) {
    |prefix| <= |s| && s[..|prefix|] == prefix
  }

  /** `s.trimStart()`: the suffix left after dropping leading whitespace. */
  function TrimStart(s: string): (r: string)
    ensures |r| <= |s| && r == s[|s| - |r|..]
    ensures AllWhitespace(s[..|s| - |r|])
    ensures r == [] || !IsWhitespace(r[0])
    decreases |s|
  {
    if s != [] && IsWhitespace(s[0]) then
      var r := TrimStart(s[1..]);
      assert s[..|s| - |r|] == [s[0]] + s[1..][..|s| - 1 - |r|];
      r
    else
      s
  }

  /** `s.trimEnd()`: the prefix left after dropping trailing whitespace. */
  function TrimEnd(s: string): (r: string)
    ensures |r| <= |s| && r == s[..|r|]
    ensures AllWhitespace(s[|r|..])
    ensures r == [] || !IsWhitespace(r[|r| - 1])
    decreases |s|
  {
    if s != [] && IsWhitespace(s[|s| - 1]) then
      var r := TrimEnd(s[..|s| - 1]);
      assert s[|r|..] == s[..|s| - 1][|r|..] + [s[|s| - 1]];
      r
    else
      s
  }

  /**
   * `s.trim()`: the infix of `s` between a whitespace-only prefix and a
   * whitespace-only suffix, which neither starts nor ends with whitespace.
   */
  function Trim(s: string): (r: string)
    ensures exists i :: 0 <= i <= |s| - |r| && r == s[i..i + |r|]
                        && AllWhitespace(s[..i]) && AllWhitespace(s[i + |r|..])
    ensures r == [] || (!IsWhitespace(r[0]) && !IsWhitespace(r[|r| - 1]))
  {
    var t := TrimEnd(s);
    var r := TrimStart(t);
    TrimInfix(s, t, r);
    r
  }

  /** The trimmed infix `r` of the prefix `t` of `s` sits between whitespace in `s`. */
  lemma TrimInfix(s: string, t: string, r: string)
    requires |t| <= |s| && t == s[..|t|] && AllWhitespace(s[|t|..])
    requires |r| <= |t| && r == t[|t| - |r|..] && AllWhitespace(t[..|t| - |r|])
    ensures var i := |t| - |r|;
            && r == s[i..i + |r|] && AllWhitespace(s[..i]) && AllWhitespace(s[i + |r|..])
  {
    var i := |t| - |r|;
    forall k | 0 <= k < i ensures IsWhitespace(s[..i][k]) {
      assert s[..i][k] == t[..i][k];
    }
    assert r == s[i..i + |r|];
  }

  /** Leading whitespace makes no difference to `trimStart`. */
  lemma {:induction false} TrimStartSkipsWhitespace(a: string, s: string)
    requires AllWhitespace(a)
    ensures TrimStart(a + s) == TrimStart(s)
    decreases |a|
  {
    if a != [] {
      assert (a + s)[0] == a[0] && IsWhitespace(a[0]);
      assert (a + s)[1..] == a[1..] + s;
      assert TrimStart(a + s) == TrimStart(a[1..] + s);
      var rest := a[1..];
      assert AllWhitespace(rest) by {
        forall i | 0 <= i < |rest| ensures IsWhitespace(rest[i]) {
          assert rest[i] == a[i + 1];
        }
      }
      TrimStartSkipsWhitespace(a[1..], s);
    } else {
      assert a + s == s;
    }
  }

  /** Trailing whitespace makes no difference to `trimEnd`. */
  lemma {:induction false} TrimEndSkipsWhitespace(s: string, b: string)
    requires AllWhitespace(b)
    ensures TrimEnd(s + b) == TrimEnd(s)
    decreases |b|
  {
    if b != [] {
      assert (s + b)[|s + b| - 1] == b[|b| - 1] && IsWhitespace(b[|b| - 1]);
      assert (s + b)[..|s + b| - 1] == s + b[..|b| - 1];
      assert TrimEnd(s + b) == TrimEnd(s + b[..|b| - 1]);
      var front := b[..|b| - 1];
      assert AllWhitespace(front) by {
        forall i | 0 <= i < |front| ensures IsWhitespace(front[i]) {
          assert front[i] == b[i];
        }
      }
      TrimEndSkipsWhitespace(s, b[..|b| - 1]);
    } else {
      assert s + b == s;
    }
  }

  /** Whatever precedes `s`, `trimEnd` only looks at the end of `s` unless `s` is all whitespace. */
  lemma {:induction false} TrimEndOfConcat(a: string, s: string)
    ensures TrimEnd(s) != [] ==> TrimEnd(a + s) == a + TrimEnd(s)
    ensures TrimEnd(s) == [] ==> TrimEnd(a + s) == TrimEnd(a)
    decreases |s|
  {
    if s == [] {
      assert a + s == a;
    } else if IsWhitespace(s[|s| - 1]) {
      assert (a + s)[..|a + s| - 1] == a + s[..|s| - 1];
      TrimEndOfConcat(a, s[..|s| - 1]);
    }
  }

  /** `trim` ignores any whitespace added around its argument. */
  lemma TrimIgnoresPadding(a: string, s: string, b: string)
    requires AllWhitespace(a) && AllWhitespace(b)
    ensures Trim(a + s + b) == Trim(s)
  {
    TrimEndSkipsWhitespace(a + s, b);
    TrimEndOfConcat(a, s);
    if TrimEnd(s) != [] {
      TrimStartSkipsWhitespace(a, TrimEnd(s));
    } else {
      TrimEndSkipsWhitespace([], a);
      assert [] + a == a;
    }
  }

  /** `trim` yields the empty string exactly for all-whitespace input. */
  lemma TrimEmptyIffAllWhitespace(s: string)
    ensures Trim(s) == [] <==> AllWhitespace(s)
  {
    var t := TrimEnd(s);
    var r := TrimStart(t);
    assert Trim(s) == r;
    if r == [] {
      assert t[..|t|] == t;
      forall k | 0 <= k < |s| ensures IsWhitespace(s[k]) {
        if k < |t| {
          assert s[k] == t[k];
        } else {
          assert s[k] == s[|t|..][k - |t|];
        }
      }
    }
  }

  /** `trim` is idempotent. */
  lemma TrimIdempotent(s: string)
    ensures Trim(Trim(s)) == Trim(s)
  {
    var r := Trim(s);
    if r != [] {
      assert TrimEnd(r) == r;
      assert TrimStart(r) == r;
    }
  }
}
