/** The parts of java.lang.String and java.util.regex the core relies on, restricted to
    ASCII where the Java behaviour is locale- or Unicode-dependent. */
module JavaText {

  /** A character `String.trim()` removes: any code point up to and including U+0020. */
  predicate IsTrimmable(c: char) {
    c <= ' '
  }

  predicate AllTrimmable(s: string) {
    forall i :: 0 <= i < |s| ==> IsTrimmable(s[i])
  }

  /** Whitespace as a Java regex `\s` reads it: space, tab, LF, VT, FF, CR. */
  predicate IsRegexSpace(c: char) {
    c == ' ' || c == '\t' || c == '\n' || c as int == 0x0B || c as int == 0x0C || c == '\r'
  }

  /** The line terminators a Java regex `.` does not match. */
  predicate IsLineTerminator(c: char) {
    c == '\n' || c == '\r' || c as int == 0x85 || c as int == 0x2028 || c as int == 0x2029
  }

  /** True when every character can be matched by a Java regex `.`. */
  predicate NoLineTerminators(s: string) {
    forall i :: 0 <= i < |s| ==> !IsLineTerminator(s[i])
  }

  predicate IsAsciiDigit(c: char) {
    '0' <= c <= '9'
  }

  predicate IsAsciiUpper(c: char) {
    'A' <= c <= 'Z'
  }

  predicate IsAsciiLower(c: char) {
    'a' <= c <= 'z'
  }

  predicate IsAsciiLetter(c: char) {
    IsAsciiUpper(c) || IsAsciiLower(c)
  }

  /** A regex `\p{Alnum}`, which without UNICODE_CHARACTER_CLASS is `[a-zA-Z0-9]`. */
  predicate IsAsciiAlnum(c: char) {
    IsAsciiLetter(c) || IsAsciiDigit(c)
  }

  function UpperChar(c: char): (u: char)
    ensures IsAsciiLower(c) ==> IsAsciiUpper(u)
    ensures !IsAsciiLower(c) ==> u == c
  {
    if IsAsciiLower(c) then (c as int - 32) as char else c
  }

  /** `toUpperCase()` on ASCII text; other characters are left alone. */
  function ToUpper(s: string): string {
    seq(|s|, i requires 0 <= i < |s| => UpperChar(s[i]))
  }

  /** Drops the longest trimmable prefix. */
  function TrimStart(s: string): (r: string)
    ensures |r| <= |s|
  {
    if |s| > 0 && IsTrimmable(s[0]) then TrimStart(s[1..]) else s
  }

  /** Drops the longest trimmable suffix. */
  function TrimEnd(s: string): (r: string)
    ensures |r| <= |s|
  {
    if |s| > 0 && IsTrimmable(s[|s| - 1]) then TrimEnd(s[..|s| - 1]) else s
  }

  /** `String.trim()`: the text between the longest trimmable prefix and suffix. */
  function Trim(s: string): (r: string)
    ensures |r| <= |s|
  {
    TrimEnd(TrimStart(s))
  }

  /** `TrimStart` keeps a suffix, drops only trimmable characters, and stops at a visible one. */
  lemma {:induction false} TrimStartFacts(s: string)
    ensures var r := TrimStart(s);
      && r == s[|s| - |r|..]
      && AllTrimmable(s[..|s| - |r|])
      && (|r| > 0 ==> !IsTrimmable(r[0]))
    decreases |s|
  {
    if |s| > 0 && IsTrimmable(s[0]) {
      TrimStartFacts(s[1..]);
      var r := TrimStart(s);
      assert s[1..][..|s| - 1 - |r|] == s[1..|s| - |r|];
      forall k | 0 <= k < |s| - |r|
        ensures IsTrimmable(s[k])
      {
        if k > 0 { assert s[1..][..|s| - 1 - |r|][k - 1] == s[k]; }
      }
    }
  }

  /** `TrimEnd` keeps a prefix, drops only trimmable characters, and stops at a visible one. */
  lemma {:induction false} TrimEndFacts(s: string)
    ensures var r := TrimEnd(s);
      && r == s[..|r|]
      && AllTrimmable(s[|r|..])
      && (|r| > 0 ==> !IsTrimmable(r[|r| - 1]))
    decreases |s|
  {
    if |s| > 0 && IsTrimmable(s[|s| - 1]) {
      var p := s[..|s| - 1];
      TrimEndFacts(p);
      var r := TrimEnd(s);
      forall k | |r| <= k < |s|
        ensures IsTrimmable(s[k])
      {
        if k < |s| - 1 { assert p[|r|..][k - |r|] == s[k]; }
      }
    }
  }

  /** `Trim(s)` is a slice of `s` with only trimmable text cut on either side, and starts
      and ends with a visible character. */
  lemma TrimFacts(s: string)
    ensures exists a :: 0 <= a <= |s| - |Trim(s)| && Trim(s) == s[a..a + |Trim(s)|]
                        && AllTrimmable(s[..a]) && AllTrimmable(s[a + |Trim(s)|..])
    ensures |Trim(s)| > 0 ==> !IsTrimmable(Trim(s)[0]) && !IsTrimmable(Trim(s)[|Trim(s)| - 1])
  {
    var t := TrimStart(s);
    var r := TrimEnd(t);
    TrimStartFacts(s);
    TrimEndFacts(t);
    var a := |s| - |t|;
    assert r == s[a..a + |r|];
    assert s[a + |r|..] == t[|r|..];
    assert 0 <= a <= |s| - |r| && r == s[a..a + |r|] && AllTrimmable(s[..a]) && AllTrimmable(s[a + |r|..]);
  }

  lemma {:induction false} TrimStartSkipsPrefix(w: string, s: string)
    requires AllTrimmable(w)
    ensures TrimStart(w + s) == TrimStart(s)
    decreases |w|
  {
    if |w| > 0 {
      assert (w + s)[1..] == w[1..] + s;
      TrimStartSkipsPrefix(w[1..], s);
    } else {
      assert w + s == s;
    }
  }

  lemma {:induction false} TrimEndSkipsSuffix(s: string, w: string)
    requires AllTrimmable(w)
    ensures TrimEnd(s + w) == TrimEnd(s)
    decreases |w|
  {
    if |w| > 0 {
      assert (s + w)[..|s + w| - 1] == s + w[..|w| - 1];
      TrimEndSkipsSuffix(s, w[..|w| - 1]);
    } else {
      assert s + w == s;
    }
  }

  lemma {:induction false} TrimStartKeepsSuffix(s: string, w: string)
    requires AllTrimmable(w)
    ensures TrimStart(s) != [] ==> TrimStart(s + w) == TrimStart(s) + w
    ensures TrimStart(s) == [] ==> TrimStart(s + w) == []
    decreases |s|
  {
    if |s| == 0 {
      assert s + w == w;
      TrimStartSkipsPrefix(w, []);
      assert w + [] == w;
    } else if IsTrimmable(s[0]) {
      assert (s + w)[1..] == s[1..] + w;
      TrimStartKeepsSuffix(s[1..], w);
    }
  }

  /** Surrounding whitespace never changes what `trim()` returns. */
  lemma TrimIgnoresSurroundingWhitespace(w1: string, s: string, w2: string)
    requires AllTrimmable(w1) && AllTrimmable(w2)
    ensures Trim(w1 + s + w2) == Trim(s)
  {
    assert w1 + s + w2 == w1 + (s + w2);
    TrimStartSkipsPrefix(w1, s + w2);
    TrimStartKeepsSuffix(s, w2);
    if TrimStart(s) != [] {
      TrimEndSkipsSuffix(TrimStart(s), w2);
    }
  }

  /** `trim()` is idempotent. */
  lemma TrimIdempotent(s: string)
    ensures Trim(Trim(s)) == Trim(s)
  {
    var r := Trim(s);
    TrimFacts(s);
    if |r| > 0 {
      assert TrimStart(r) == r;
      assert TrimEnd(r) == r;
    }
  }

  lemma VisibleSurvivesTrimStart(s: string, i: int)
    requires 0 <= i < |s| && !IsTrimmable(s[i])
    ensures |s| - |TrimStart(s)| <= i
  {
    var a := |s| - |TrimStart(s)|;
    TrimStartFacts(s);
    forall k | 0 <= k < a
      ensures IsTrimmable(s[k])
    {
      assert s[..a][k] == s[k];
    }
  }

  lemma VisibleSurvivesTrimEnd(t: string, j: int)
    requires 0 <= j < |t| && !IsTrimmable(t[j])
    ensures j < |TrimEnd(t)|
  {
    var n := |TrimEnd(t)|;
    TrimEndFacts(t);
    forall k | n <= k < |t|
      ensures IsTrimmable(t[k])
    {
      assert t[n..][k - n] == t[k];
    }
  }

  /** A visible character survives `trim()`. */
  lemma TrimKeepsVisible(s: string, i: int)
    requires 0 <= i < |s| && !IsTrimmable(s[i])
    ensures s[i] in Trim(s)
  {
    var t := TrimStart(s);
    var a := |s| - |t|;
    TrimStartFacts(s);
    TrimEndFacts(t);
    VisibleSurvivesTrimStart(s, i);
    assert t[i - a] == s[i];
    VisibleSurvivesTrimEnd(t, i - a);
    assert TrimEnd(t)[i - a] == s[i];
  }

  /** `Trim(s)` is empty exactly when every character of `s` is trimmable. */
  lemma TrimEmptyIffBlank(s: string)
    ensures Trim(s) == [] <==> AllTrimmable(s)
  {
    if !AllTrimmable(s) {
      var i :| 0 <= i < |s| && !IsTrimmable(s[i]);
      TrimKeepsVisible(s, i);
    } else {
      TrimStartSkipsPrefix(s, []);
      assert s + [] == s;
    }
  }

  /** The characters `split` and `join` work with, and `String.join`. */
  function Join(sep: string, parts: seq<string>): string
    decreases |parts|
  {
    if |parts| == 0 then ""
    else if |parts| == 1 then parts[0]
    else parts[0] + sep + Join(sep, parts[1..])
  }

  /** `indexOf(c)`: the first position of `c`, or -1 when `c` does not occur. */
  function IndexOf(s: string, c: char): (r: int)
    ensures -1 <= r < |s|
    ensures r >= 0 ==> s[r] == c
    ensures forall k :: 0 <= k < |s| && (r < 0 || k < r) ==> s[k] != c
  {
    if |s| == 0 then -1
    else if s[0] == c then 0
    else
      var k := IndexOf(s[1..], c);
      assert forall j :: 1 <= j < |s| ==> s[j] == s[1..][j - 1];
      if k == -1 then -1 else k + 1
  }
}
