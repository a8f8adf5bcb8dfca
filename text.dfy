/**
 * String handling of Program.cs: .NET's `String.Trim()` over
 * `Char.IsWhiteSpace`, `string.IsNullOrEmpty`, `string.IsNullOrWhiteSpace`
 * and the path sanitiser `ReadTrimmedPath`.
 */
module Text {
  import opened Basics

  /** `Char.IsWhiteSpace`: the Unicode space, line and paragraph separators
      (categories Zs, Zl, Zp) and U+0009..U+000D, U+0085. */
  predicate IsWhiteSpace(c: char) {
    || ('\t' <= c <= '\r')
    || c == ' '
    || c == '\U{0085}'
    || c == '\U{00A0}'
    || c == '\U{1680}'
    || ('\U{2000}' <= c <= '\U{200A}')
    || c == '\U{2028}'
    || c == '\U{2029}'
    || c == '\U{202F}'
    || c == '\U{205F}'
    || c == '\U{3000}'
  }

  predicate AllWhiteSpace(s: string) {
    forall i :: 0 <= i < |s| ==> IsWhiteSpace(s[i])
  }

  /** Neither the first nor the last character is white space. */
  predicate Trimmed(s: string) {
    s == [] || (!IsWhiteSpace(s[0]) && !IsWhiteSpace(s[|s| - 1]))
  }

  /** `string.IsNullOrEmpty` on a possibly-null string. */
  predicate IsNullOrEmpty(s: Option<string>) {
    s.None? || s.value == []
  }

  /** `string.IsNullOrWhiteSpace` on a possibly-null string. */
  predicate IsNullOrWhiteSpace(s: Option<string>) {
    s.None? || AllWhiteSpace(s.value)
  }

  /** Drops the longest white-space prefix. */
  function TrimStart(s: string): (r: string)
    ensures |r| <= |s|
    ensures r == [] || !IsWhiteSpace(r[0])
  {
    if s != [] && IsWhiteSpace(s[0]) then TrimStart(s[1..]) else s
  }

  /** Drops the longest white-space suffix. */
  function TrimEnd(s: string): (r: string)
    ensures |r| <= |s|
    ensures r == [] || (!IsWhiteSpace(r[|r| - 1]) && r[0] == s[0])
  {
    if s != [] && IsWhiteSpace(s[|s| - 1]) then TrimEnd(s[..|s| - 1]) else s
  }

  /** `String.Trim()`: removes leading and trailing white space. */
  function Trim(s: string): (r: string)
    ensures Trimmed(r)
    ensures |r| <= |s|
  {
    TrimEnd(TrimStart(s))
  }

  /** What TrimStart removes is white space, and what it keeps is a suffix. */
  lemma {:induction false} TrimStartCutsWhiteSpace(s: string)
    ensures var n := |s| - |TrimStart(s)|;
      TrimStart(s) == s[n..] && AllWhiteSpace(s[..n])
  {
    if s != [] && IsWhiteSpace(s[0]) {
      TrimStartCutsWhiteSpace(s[1..]);
      var n := |s| - |TrimStart(s)|;
      assert s[1..][n - 1..] == s[n..];
      assert forall i :: 1 <= i < n ==> s[..n][i] == s[1..][..n - 1][i - 1];
    }
  }

  /** What TrimEnd removes is white space, and what it keeps is a prefix. */
  lemma {:induction false} TrimEndCutsWhiteSpace(s: string)
    ensures var n := |TrimEnd(s)|;
      TrimEnd(s) == s[..n] && AllWhiteSpace(s[n..])
  {
    if s != [] && IsWhiteSpace(s[|s| - 1]) {
      var s' := s[..|s| - 1];
      TrimEndCutsWhiteSpace(s');
      var n := |TrimEnd(s)|;
      assert s'[..n] == s[..n];
      assert forall i :: 0 <= i < |s| - 1 - n ==> s[n..][i] == s'[n..][i];
    }
  }

  /** The result of Trim is a contiguous piece of its input, with only white
      space cut off on either side. */
  lemma TrimCutsOnlyWhiteSpace(s: string)
    ensures var lead, r := |s| - |TrimStart(s)|, Trim(s);
      && lead + |r| <= |s|
      && r == s[lead..lead + |r|]
      && AllWhiteSpace(s[..lead])
      && AllWhiteSpace(s[lead + |r|..])
  {
    var t := TrimStart(s);
    TrimStartCutsWhiteSpace(s);
    TrimEndCutsWhiteSpace(t);
    var lead := |s| - |t|;
    var r := TrimEnd(t);
    assert s[lead + |r|..] == t[|r|..];
  }

  lemma {:induction false} TrimStartSkipsWhiteSpace(a: string, t: string)
    requires AllWhiteSpace(a)
    requires t == [] || !IsWhiteSpace(t[0])
    ensures TrimStart(a + t) == t
  {
    if a == [] {
      assert a + t == t;
    } else {
      assert (a + t)[1..] == a[1..] + t;
      TrimStartSkipsWhiteSpace(a[1..], t);
    }
  }

  lemma {:induction false} TrimEndSkipsWhiteSpace(t: string, b: string)
    requires AllWhiteSpace(b)
    requires t == [] || !IsWhiteSpace(t[|t| - 1])
    ensures TrimEnd(t + b) == t
  {
    if b == [] {
      assert t + b == t;
    } else {
      assert (t + b)[..|t + b| - 1] == t + b[..|b| - 1];
      TrimEndSkipsWhiteSpace(t, b[..|b| - 1]);
    }
  }

  /** Trim recovers a trimmed string from any white-space padding around it:
      together with Trim's own contract this pins the result down uniquely. */
  lemma TrimOfPadded(a: string, p: string, b: string)
    requires AllWhiteSpace(a) && Trimmed(p) && AllWhiteSpace(b)
    ensures Trim(a + p + b) == p
  {
    if p == [] {
      assert a + p + b == (a + b) + [];
      TrimStartSkipsWhiteSpace(a + b, []);
    } else {
      assert a + p + b == a + (p + b);
      TrimStartSkipsWhiteSpace(a, p + b);
      TrimEndSkipsWhiteSpace(p, b);
    }
  }

  /** A string is left unchanged by Trim exactly when it is already trimmed. */
  lemma TrimFixesTrimmed(s: string)
    ensures Trim(s) == s <==> Trimmed(s)
  {
    if Trimmed(s) {
      assert [] + s + [] == s;
      TrimOfPadded([], s, []);
    }
  }

  lemma TrimIdempotent(s: string)
    ensures Trim(Trim(s)) == Trim(s)
  {
    TrimFixesTrimmed(Trim(s));
  }

  /** Trim yields the empty string exactly for white-space-only input. */
  lemma TrimEmptyIffWhiteSpace(s: string)
    ensures Trim(s) == [] <==> AllWhiteSpace(s)
  {
    if Trim(s) == [] {
      TrimCutsOnlyWhiteSpace(s);
      var lead := |s| - |TrimStart(s)|;
      forall i | 0 <= i < |s| ensures IsWhiteSpace(s[i]) {
        if i < lead { assert s[i] == s[..lead][i]; } else { assert s[i] == s[lead..][i - lead]; }
      }
    }
    if AllWhiteSpace(s) {
      assert s + [] + [] == s;
      TrimOfPadded(s, [], []);
    }
  }

  /** Surrounded by one pair of double quotes (and long enough to hold two). */
  predicate WrappedInQuotes(s: string) {
    |s| >= 2 && s[0] == '"' && s[|s| - 1] == '"'
  }

  /** `ReadTrimmedPath` applied to the line the console returned (`None` when
      `Console.ReadLine` gave null). */
  function SanitizePath(line: Option<string>): (r: string)
    ensures Trimmed(r)
    ensures line.None? ==> r == ""
    ensures line.Some? ==> |r| <= |line.value|
  {
    var input := Trim(if line.Some? then line.value else "");
    if WrappedInQuotes(input) then Trim(input[1..|input| - 1]) else input
  }

  /** One pair of quotes around the trimmed input is removed, and what they
      enclosed is trimmed again. */
  lemma SanitizeStripsQuotes(a: string, m: string, b: string)
    requires AllWhiteSpace(a) && AllWhiteSpace(b)
    ensures SanitizePath(Some(a + ['"'] + m + ['"'] + b)) == Trim(m)
  {
    var q := ['"'] + m + ['"'];
    assert a + ['"'] + m + ['"'] + b == a + q + b;
    TrimOfPadded(a, q, b);
    assert q[1..|q| - 1] == m;
  }

  /** A path not wrapped in quotes comes back as it was, padding removed;
      this covers a lone `"`, which is too short to be a quote pair. */
  lemma SanitizeKeepsUnquoted(a: string, p: string, b: string)
    requires AllWhiteSpace(a) && Trimmed(p) && AllWhiteSpace(b)
    requires !WrappedInQuotes(p)
    ensures SanitizePath(Some(a + p + b)) == p
  {
    TrimOfPadded(a, p, b);
  }

  /** Sanitising a sanitised path again changes it exactly when the first
      result is itself wrapped in quotes: the sanitiser is not idempotent. */
  lemma SanitizeStableUnlessQuoted(line: Option<string>)
    ensures var r := SanitizePath(line);
      SanitizePath(Some(r)) == r <==> !WrappedInQuotes(r)
  {
    var r := SanitizePath(line);
    SanitizeAgain(r);
  }

  lemma SanitizeAgain(r: string)
    requires Trimmed(r)
    ensures SanitizePath(Some(r)) == r <==> !WrappedInQuotes(r)
  {
    if WrappedInQuotes(r) {
      var m := r[1..|r| - 1];
      assert r == [] + ['"'] + m + ['"'] + [];
      SanitizeStripsQuotes([], m, []);
      assert |Trim(m)| <= |m| < |r|;
    } else {
      assert [] + r + [] == r;
      SanitizeKeepsUnquoted([], r, []);
    }
  }

  /** `""x""` loses one quote pair per application. */
  lemma SanitizeNotIdempotent(x: string, once: string, twice: string)
    requires x == "x" && once == ['"'] + x + ['"'] && twice == ['"'] + once + ['"']
    ensures SanitizePath(Some(twice)) == once
    ensures SanitizePath(Some(once)) == x
  {
    assert Trimmed(once) && Trimmed(x);
    assert twice == [] + ['"'] + once + ['"'] + [];
    SanitizeStripsQuotes([], once, []);
    TrimFixesTrimmed(once);
    assert once == [] + ['"'] + x + ['"'] + [];
    SanitizeStripsQuotes([], x, []);
    TrimFixesTrimmed(x);
  }

  /** A quoted Windows path pasted with spaces around it. */
  lemma SanitizeQuotedWindowsPath(path: string, pad: string)
    requires path == "C:\\spaced path\\file.bin" && pad == "  "
    ensures SanitizePath(Some(pad + ['"'] + path + ['"'] + pad)) == path
  {
    assert Trimmed(path) && AllWhiteSpace(pad);
    SanitizeStripsQuotes(pad, path, pad);
    TrimFixesTrimmed(path);
  }
}
