/** String operations the mailer applies to archive entry names, document names
    and spreadsheet cells: whitespace stripping, splitting on a separator, taking
    the last path component and ASCII lower-casing. */
module Text {

  /** The ASCII characters that Python's `str.isspace` accepts, and hence the ones
      `str.strip()` removes from the ends of an ASCII string: tab, line feed,
      vertical tab, form feed, carriage return, the four information separators
      and the space. */
  predicate IsSpace(c: char) {
    9 <= c as int <= 13 || 28 <= c as int <= 32
  }

  predicate AllSpace(s: string) {
    forall k :: 0 <= k < |s| ==> IsSpace(s[k])
  }

  /** Neither end of `s` is whitespace (vacuously true of the empty string). */
  predicate NoEdgeSpace(s: string) {
    s == [] || (!IsSpace(s[0]) && !IsSpace(s[|s| - 1]))
  }

  /** `s` with its leading whitespace removed. */
  function TrimStart(s: string): string {
    if |s| == 0 || !IsSpace(s[0]) then s else TrimStart(s[1..])
  }

  /** `s` with its trailing whitespace removed. */
  function TrimEnd(s: string): string {
    if |s| == 0 || !IsSpace(s[|s| - 1]) then s else TrimEnd(s[..|s| - 1])
  }

  /** Python's `s.strip()` over the whitespace set `IsSpace`. */
  function Trim(s: string): string {
    TrimEnd(TrimStart(s))
  }

  /** TrimStart drops a prefix made of whitespace only, and stops at the first
      character that is not whitespace. */
  lemma {:induction false} TrimStartSpec(s: string)
    ensures var r := TrimStart(s);
      |r| <= |s| && r == s[|s| - |r|..] && AllSpace(s[..|s| - |r|]) &&
      (r == [] || !IsSpace(r[0]))
  {
    if |s| > 0 && IsSpace(s[0]) {
      TrimStartSpec(s[1..]);
      var r := TrimStart(s[1..]);
      assert s[..|s| - |r|] == [s[0]] + s[1..][..|s| - 1 - |r|];
    }
  }

  /** TrimEnd drops a suffix made of whitespace only, and stops at the last
      character that is not whitespace. */
  lemma {:induction false} TrimEndSpec(s: string)
    ensures var r := TrimEnd(s);
      |r| <= |s| && r == s[..|r|] && AllSpace(s[|r|..]) &&
      (r == [] || !IsSpace(r[|r| - 1]))
  {
    if |s| > 0 && IsSpace(s[|s| - 1]) {
      TrimEndSpec(s[..|s| - 1]);
      var r := TrimEnd(s[..|s| - 1]);
      assert s[|r|..] == s[..|s| - 1][|r|..] + [s[|s| - 1]];
    }
  }

  /** The stripped text has no whitespace at either end. */
  lemma TrimSpec(s: string)
    ensures |Trim(s)| <= |s| && NoEdgeSpace(Trim(s))
  {
    TrimStartSpec(s);
    var t := TrimStart(s);
    TrimEndSpec(t);
    var r := TrimEnd(t);
    assert r != [] ==> r[0] == t[0];
  }

  /** Trim removes exactly a whitespace prefix and a whitespace suffix: `s` is
      whitespace, then the result, then whitespace. */
  lemma TrimDecompose(s: string) returns (pre: string, post: string)
    ensures AllSpace(pre) && AllSpace(post)
    ensures s == pre + Trim(s) + post
  {
    TrimStartSpec(s);
    var t := TrimStart(s);
    TrimEndSpec(t);
    var r := TrimEnd(t);
    pre, post := s[..|s| - |t|], t[|r|..];
    assert t == r + post;
    assert s == pre + t;
  }

  /** Conversely, surrounding text without edge whitespace by whitespace and
      stripping gives that text back: Trim has exactly one possible result. */
  lemma TrimExact(pre: string, t: string, post: string)
    requires AllSpace(pre) && AllSpace(post) && NoEdgeSpace(t)
    ensures Trim(pre + t + post) == t
  {
    var s := pre + t + post;
    if t == [] {
      assert s == pre + post;
      assert AllSpace(pre + post);
      assert s == (pre + post) + [];
      TrimStartExact(pre + post, []);
    } else {
      TrimStartExact(pre, t + post);
      assert s == pre + (t + post);
      TrimEndExact(t, post);
    }
  }

  lemma {:induction false} TrimStartExact(pre: string, u: string)
    requires AllSpace(pre)
    requires u == [] || !IsSpace(u[0])
    ensures TrimStart(pre + u) == u
  {
    if pre != [] {
      assert (pre + u)[1..] == pre[1..] + u;
      TrimStartExact(pre[1..], u);
    } else {
      assert pre + u == u;
    }
  }

  lemma {:induction false} TrimEndExact(u: string, post: string)
    requires AllSpace(post)
    requires u == [] || !IsSpace(u[|u| - 1])
    ensures TrimEnd(u + post) == u
  {
    if post != [] {
      assert (u + post)[..|u + post| - 1] == u + post[..|post| - 1];
      TrimEndExact(u, post[..|post| - 1]);
    } else {
      assert u + post == u;
    }
  }

  /** Python's `s.split(c)[0]`: the text before the first `c`, or all of `s`
      when `c` does not occur. */
  function BeforeFirst(s: string, c: char): string {
    if |s| == 0 || s[0] == c then "" else [s[0]] + BeforeFirst(s[1..], c)
  }

  /** The result is a prefix of `s` free of `c`, followed in `s` by `c` unless
      it is all of `s`. */
  lemma {:induction false} BeforeFirstSpec(s: string, c: char)
    ensures var r := BeforeFirst(s, c);
      c !in r && |r| <= |s| && r == s[..|r|] && (|r| < |s| ==> s[|r|] == c)
  {
    if |s| > 0 && s[0] != c {
      BeforeFirstSpec(s[1..], c);
    }
  }

  /** Python's `s.split(c)[-1]`: the text after the last `c`, or all of `s`
      when `c` does not occur. */
  function AfterLast(s: string, c: char): string {
    if |s| == 0 || s[|s| - 1] == c then "" else AfterLast(s[..|s| - 1], c) + [s[|s| - 1]]
  }

  /** The result is a suffix of `s` free of `c`, preceded in `s` by `c` unless
      it is all of `s`. */
  lemma {:induction false} AfterLastSpec(s: string, c: char)
    ensures var r := AfterLast(s, c);
      c !in r && |r| <= |s| && r == s[|s| - |r|..] && (|r| < |s| ==> s[|s| - |r| - 1] == c)
  {
    if |s| > 0 && s[|s| - 1] != c {
      AfterLastSpec(s[..|s| - 1], c);
    }
  }

  /** Lower-cases one ASCII letter and leaves every other character alone. */
  function LowerChar(c: char): char {
    if 'A' <= c <= 'Z' then (c as int + 32) as char else c
  }

  function Lower(s: string): string {
    seq(|s|, k requires 0 <= k < |s| => LowerChar(s[k]))
  }

  predicate EndsWith(s: string, suffix: string) {
    |suffix| <= |s| && s[|s| - |suffix|..] == suffix
  }
}
