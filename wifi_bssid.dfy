/**
 * The string step of `get_wifi_bssid`: a leftmost regular-expression search
 * in the output of the platform's wireless tool, returning the first
 * capture group or the fallback text.
 *
 * On Windows the pattern is `BSSID\s*:\s*([0-9A-Fa-f:-]+)` over the output of
 * `netsh wlan show interfaces`; elsewhere it is
 * `Access Point: ([0-9A-Fa-f:]+)` over the output of `iwconfig`. The search
 * is computed with greedy spans and proved equal to the pattern's meaning,
 * stated declaratively with every split of the whitespace allowed.
 */
module WifiBssid {
  import opened Wrappers

  const NOT_FOUND := "BSSID not found"
  const WINDOWS := "Windows"
  const WINDOWS_LABEL := "BSSID"
  const UNIX_LABEL := "Access Point: "

  predicate IsHexDigit(c: char)
  {
    '0' <= c <= '9' || 'A' <= c <= 'F' || 'a' <= c <= 'f'
  }

  /** The class `[0-9A-Fa-f:]`. */
  predicate IsUnixBssidChar(c: char)
  {
    IsHexDigit(c) || c == ':'
  }

  /** The class `[0-9A-Fa-f:-]`. */
  predicate IsWindowsBssidChar(c: char)
  {
    IsHexDigit(c) || c == ':' || c == '-'
  }

  /** `\s` of a Python text pattern: the characters `str.isspace()` accepts. */
  predicate IsSpace(c: char)
  {
    || '\U{9}' <= c <= '\U{D}'
    || '\U{1C}' <= c <= '\U{20}'
    || c == '\U{85}' || c == '\U{A0}' || c == '\U{1680}'
    || '\U{2000}' <= c <= '\U{200A}'
    || c == '\U{2028}' || c == '\U{2029}' || c == '\U{202F}' || c == '\U{205F}' || c == '\U{3000}'
  }

  /** All characters of `s[lo..hi]` satisfy `p`. */
  predicate AllIn(s: string, lo: nat, hi: nat, p: char -> bool)
    requires lo <= hi <= |s|
  {
    forall k :: lo <= k < hi ==> p(s[k])
  }

  /** The length of the longest run of `p`-characters starting at `i`. */
  function Span(s: string, i: nat, p: char -> bool): (n: nat)
    requires i <= |s|
    ensures i + n <= |s| && AllIn(s, i, i + n, p)
    ensures i + n == |s| || !p(s[i + n])
    decreases |s| - i
  {
    if i == |s| || !p(s[i]) then 0 else 1 + Span(s, i + 1, p)
  }

  /** A run that cannot be extended is the longest run. */
  lemma SpanExact(s: string, i: nat, n: nat, p: char -> bool)
    requires i + n <= |s| && AllIn(s, i, i + n, p)
    requires i + n == |s| || !p(s[i + n])
    ensures Span(s, i, p) == n
  {
  }

  // ---------------------------------------------------------------------
  // Matching at one position, computed

  /** The first position at or after `i` that is not whitespace. */
  function SkipSpace(s: string, i: nat): (j: nat)
    requires i <= |s|
    ensures i <= j <= |s|
  {
    i + Span(s, i, IsSpace)
  }

  /** The greedy group `(...+)` of class `p` at `start`, if non-empty. */
  function GroupAt(s: string, start: nat, p: char -> bool): (r: Option<string>)
    requires start <= |s|
    ensures r.Some? ==> 0 < |r.value| && forall k :: 0 <= k < |r.value| ==> p(r.value[k])
  {
    var n := Span(s, start, p);
    if n > 0 then Some(s[start..start + n]) else None
  }

  /** `Access Point: ([0-9A-Fa-f:]+)` tried at position `i`. */
  function UnixMatchAt(s: string, i: nat): (r: Option<string>)
    requires i <= |s|
  {
    if UNIX_LABEL <= s[i..] then GroupAt(s, i + |UNIX_LABEL|, IsUnixBssidChar) else None
  }

  /** `BSSID\s*:\s*([0-9A-Fa-f:-]+)` tried at position `i`. */
  function WindowsMatchAt(s: string, i: nat): (r: Option<string>)
    requires i <= |s|
  {
    if WINDOWS_LABEL <= s[i..] then
      var colon := SkipSpace(s, i + |WINDOWS_LABEL|);
      if colon < |s| && s[colon] == ':' then GroupAt(s, SkipSpace(s, colon + 1), IsWindowsBssidChar)
      else None
    else None
  }

  /** The pattern of the platform tried at position `i`; nothing matches past the end. */
  function MatchAt(system: string, s: string, i: nat): (r: Option<string>)
  {
    if i > |s| then None
    else if system == WINDOWS then WindowsMatchAt(s, i)
    else UnixMatchAt(s, i)
  }

  // ---------------------------------------------------------------------
  // Matching at one position, declared

  /**
   * The pattern `Access Point: (g)` matches at `i` with group `g`: the label,
   * then `g`, a non-empty run of `[0-9A-Fa-f:]` that the greedy `+` cannot
   * extend.
   */
  ghost predicate UnixPatternAt(s: string, i: nat, g: string)
    requires i <= |s|
  {
    var start := i + |UNIX_LABEL|;
    && UNIX_LABEL + g <= s[i..]
    && |g| > 0
    && AllIn(s, start, start + |g|, IsUnixBssidChar)
    && (start + |g| == |s| || !IsUnixBssidChar(s[start + |g|]))
  }

  /**
   * The pattern `BSSID\s*:\s*(g)` matches at `i` with group `g`, choosing
   * `w1` whitespace characters before the colon and `w2` after it.
   */
  ghost predicate WindowsPatternWith(s: string, i: nat, w1: nat, w2: nat, g: string)
    requires i <= |s|
  {
    var colon := i + |WINDOWS_LABEL| + w1;
    var start := colon + 1 + w2;
    && WINDOWS_LABEL <= s[i..]
    && start + |g| <= |s|
    && AllIn(s, i + |WINDOWS_LABEL|, colon, IsSpace)
    && s[colon] == ':'
    && AllIn(s, colon + 1, start, IsSpace)
    && |g| > 0 && s[start..start + |g|] == g
    && AllIn(s, start, start + |g|, IsWindowsBssidChar)
    && (start + |g| == |s| || !IsWindowsBssidChar(s[start + |g|]))
  }

  ghost predicate WindowsPatternAt(s: string, i: nat, g: string)
    requires i <= |s|
  {
    exists w1: nat, w2: nat :: WindowsPatternWith(s, i, w1, w2, g)
  }

  ghost predicate PatternAt(system: string, s: string, i: nat, g: string)
    requires i <= |s|
  {
    if system == WINDOWS then WindowsPatternAt(s, i, g) else UnixPatternAt(s, i, g)
  }

  /** The greedy computation finds exactly the groups the pattern admits. */
  lemma UnixMatchAtIsPattern(s: string, i: nat, g: string)
    requires i <= |s|
    ensures UnixMatchAt(s, i) == Some(g) <==> UnixPatternAt(s, i, g)
  {
    var start := i + |UNIX_LABEL|;
    if UnixPatternAt(s, i, g) {
      assert s[i..][..|UNIX_LABEL|] == (UNIX_LABEL + g)[..|UNIX_LABEL|] == UNIX_LABEL;
      SpanExact(s, start, |g|, IsUnixBssidChar);
      assert s[start..start + |g|] == s[i..][|UNIX_LABEL|..|UNIX_LABEL| + |g|] == g;
    }
    if UnixMatchAt(s, i) == Some(g) {
      assert s[i..] == UNIX_LABEL + s[start..];
      assert s[start..] == g + s[start + |g|..];
    }
  }

  /** Whitespace is not a BSSID character. */
  lemma BssidCharIsNotSpace(c: char)
    requires IsWindowsBssidChar(c)
    ensures !IsSpace(c)
  {
  }

  /**
   * Whitespace is neither the colon nor a BSSID character, so backtracking
   * into `\s*` never helps: any split the pattern admits is the greedy one.
   */
  lemma WindowsPatternIsMatch(s: string, i: nat, w1: nat, w2: nat, g: string)
    requires i <= |s| && WindowsPatternWith(s, i, w1, w2, g)
    ensures WindowsMatchAt(s, i) == Some(g)
  {
    var colon := i + |WINDOWS_LABEL| + w1;
    var start := colon + 1 + w2;
    assert !IsSpace(s[colon]);
    SpanExact(s, i + |WINDOWS_LABEL|, w1, IsSpace);
    assert SkipSpace(s, i + |WINDOWS_LABEL|) == colon;
    BssidCharIsNotSpace(s[start]);
    SpanExact(s, colon + 1, w2, IsSpace);
    assert SkipSpace(s, colon + 1) == start;
    SpanExact(s, start, |g|, IsWindowsBssidChar);
    assert GroupAt(s, start, IsWindowsBssidChar) == Some(g);
  }

  lemma WindowsMatchIsPattern(s: string, i: nat)
    requires i <= |s| && WindowsMatchAt(s, i).Some?
    ensures exists w1: nat, w2: nat :: WindowsPatternWith(s, i, w1, w2, WindowsMatchAt(s, i).value)
  {
    var colon := SkipSpace(s, i + |WINDOWS_LABEL|);
    var start := SkipSpace(s, colon + 1);
    assert WindowsPatternWith(s, i, colon - i - |WINDOWS_LABEL|, start - colon - 1, WindowsMatchAt(s, i).value);
  }

  lemma WindowsMatchAtIsPattern(s: string, i: nat, g: string)
    requires i <= |s|
    ensures WindowsMatchAt(s, i) == Some(g) <==> WindowsPatternAt(s, i, g)
  {
    if WindowsPatternAt(s, i, g) {
      var w1: nat, w2: nat :| WindowsPatternWith(s, i, w1, w2, g);
      WindowsPatternIsMatch(s, i, w1, w2, g);
    }
    if WindowsMatchAt(s, i) == Some(g) {
      WindowsMatchIsPattern(s, i);
    }
  }

  lemma MatchAtIsPattern(system: string, s: string, i: nat, g: string)
    requires i <= |s|
    ensures MatchAt(system, s, i) == Some(g) <==> PatternAt(system, s, i, g)
  {
    if system == WINDOWS {
      WindowsMatchAtIsPattern(s, i, g);
    } else {
      UnixMatchAtIsPattern(s, i, g);
    }
  }

  // ---------------------------------------------------------------------
  // The search

  /**
   * `re.search`: the result of the first position, from `i` up to `n`, at
   * which `tryAt` matches.
   */
  function Leftmost(tryAt: nat -> Option<string>, n: nat, i: nat): (r: Option<string>)
    requires i <= n
    ensures r.None? ==> forall j :: i <= j <= n ==> tryAt(j).None?
    ensures r.Some? ==>
      exists j :: i <= j <= n && tryAt(j) == r &&
        forall k :: i <= k < j ==> tryAt(k).None?
    decreases n - i
  {
    var here := tryAt(i);
    if here.Some? || i == n then here
    else Leftmost(tryAt, n, i + 1)
  }

  /** The platform's pattern as a function of the position tried. */
  function Matcher(system: string, output: string): nat -> Option<string>
  {
    (j: nat) => MatchAt(system, output, j)
  }

  lemma NoMatchAnywhere(system: string, output: string)
    requires Leftmost(Matcher(system, output), |output|, 0).None?
    ensures forall j :: 0 <= j <= |output| ==> MatchAt(system, output, j).None?
  {
    forall j | 0 <= j <= |output| ensures MatchAt(system, output, j).None? {
      assert Matcher(system, output)(j) == MatchAt(system, output, j);
    }
  }

  lemma FirstMatchFound(system: string, output: string)
    requires Leftmost(Matcher(system, output), |output|, 0).Some?
    ensures var g := Leftmost(Matcher(system, output), |output|, 0).value;
      exists j :: 0 <= j <= |output| && MatchAt(system, output, j) == Some(g) &&
        forall k :: 0 <= k < j ==> MatchAt(system, output, k).None?
  {
    var f := Matcher(system, output);
    var j :| 0 <= j <= |output| && f(j) == Leftmost(f, |output|, 0) && forall k :: 0 <= k < j ==> f(k).None?;
    forall k | 0 <= k < j ensures MatchAt(system, output, k).None? {
      assert f(k).None?;
    }
  }

  /** A found group consists of BSSID characters, so it is never the fallback text. */
  lemma GroupIsNotFallback(system: string, output: string, j: nat)
    requires MatchAt(system, output, j).Some?
    ensures MatchAt(system, output, j).value != NOT_FOUND
  {
    var g := MatchAt(system, output, j).value;
    if |g| == |NOT_FOUND| {
      assert !IsWindowsBssidChar(NOT_FOUND[1]);
      assert IsWindowsBssidChar(g[1]);
    }
  }

  function GetWifiBssid(system: string, output: string): (r: string)
    ensures r == NOT_FOUND <==> forall j :: 0 <= j <= |output| ==> MatchAt(system, output, j).None?
    ensures r != NOT_FOUND ==>
      exists j :: 0 <= j <= |output| && MatchAt(system, output, j) == Some(r) &&
        forall k :: 0 <= k < j ==> MatchAt(system, output, k).None?
  {
    match Leftmost(Matcher(system, output), |output|, 0)
    case None => NoMatchAnywhere(system, output); NOT_FOUND
    case Some(g) =>
      FirstMatchFound(system, output);
      var j :| 0 <= j <= |output| && MatchAt(system, output, j) == Some(g);
      GroupIsNotFallback(system, output, j);
      g
  }

  /**
   * The extracted BSSID in the terms of the pattern itself: the group at the
   * leftmost position where the pattern matches, or the fallback.
   */
  lemma GetWifiBssidIsLeftmostMatch(system: string, output: string)
    ensures var r := GetWifiBssid(system, output);
      (r == NOT_FOUND <==> forall j, g :: 0 <= j <= |output| ==> !PatternAt(system, output, j, g)) &&
      (r != NOT_FOUND ==>
        exists j :: 0 <= j <= |output| && PatternAt(system, output, j, r) &&
          forall k, g :: 0 <= k < j ==> !PatternAt(system, output, k, g))
  {
    var r := GetWifiBssid(system, output);
    forall j, g | 0 <= j <= |output|
      ensures PatternAt(system, output, j, g) <==> MatchAt(system, output, j) == Some(g)
    {
      MatchAtIsPattern(system, output, j, g);
    }
    if r == NOT_FOUND {
    } else {
      var j :| 0 <= j <= |output| && MatchAt(system, output, j) == Some(r) &&
        forall k :: 0 <= k < j ==> MatchAt(system, output, k).None?;
      assert PatternAt(system, output, j, r);
    }
    if r != NOT_FOUND {
      var j :| 0 <= j <= |output| && MatchAt(system, output, j) == Some(r);
      assert PatternAt(system, output, j, r);
    }
  }
}
