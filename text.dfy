/** Optional values: a field of the JSON response that may be absent. */
module Wrappers {
  datatype Option<+T> = None | Some(value: T)
}

/**
 * The handful of JavaScript string operations the console relies on
 * (`join`, `includes`, `replace` with a string pattern, `trim`), stated over
 * `seq<char>`.
 */
module Text {
  import opened Wrappers

  /** `parts.join(sep)`: the parts with `sep` between neighbours; `[].join(sep)` is "". */
  function Join(parts: seq<string>, sep: string): string
  {
    if |parts| == 0 then ""
    else if |parts| == 1 then parts[0]
    else parts[0] + sep + Join(parts[1..], sep)
  }

  /** Joining the first part with the rest of the parts. */
  lemma JoinCons(p: string, rest: seq<string>, sep: string)
    requires |rest| > 0
    ensures Join([p] + rest, sep) == p + sep + Join(rest, sep)
  {
  }

  /** Prefixing a character to the first part prefixes it to the joined text. */
  lemma JoinPrefixHead(c: char, parts: seq<string>, sep: string)
    requires |parts| > 0
    ensures Join([[c] + parts[0]] + parts[1..], sep) == [c] + Join(parts, sep)
  {
  }

  /** `pat` occurs in `s` starting at index `i`. */
  predicate OccursAt(s: string, pat: string, i: nat)
  {
    i + |pat| <= |s| && s[i..i + |pat|] == pat
  }

  /** The search behind `indexOf`/`includes`: the first occurrence of `pat` at or after `from`. */
  function IndexOfFrom(s: string, pat: string, from: nat): (r: Option<nat>)
    decreases |s| - from
    ensures r.Some? ==> from <= r.value && OccursAt(s, pat, r.value)
    ensures r.Some? ==> forall j: nat :: from <= j < r.value ==> !OccursAt(s, pat, j)
    ensures r.None? ==> forall j: nat :: from <= j ==> !OccursAt(s, pat, j)
  {
    if from + |pat| > |s| then None
    else if s[from..from + |pat|] == pat then Some(from)
    else IndexOfFrom(s, pat, from + 1)
  }

  /** `s.includes(pat)`. */
  function Contains(s: string, pat: string): (b: bool)
    ensures b <==> exists j: nat :: OccursAt(s, pat, j)
  {
    IndexOfFrom(s, pat, 0).Some?
  }

  /** A pattern whose first character never appears in `s` is not contained in it. */
  lemma MissingFirstChar(s: string, pat: string)
    requires |pat| > 0 && pat[0] !in s
    ensures !Contains(s, pat)
  {
  }

  /**
   * `s.replace(pat, rep)` with a string pattern: only the first occurrence is
   * replaced, and `s` is returned unchanged when there is none. (`rep` is taken
   * literally; the `$`-patterns of JavaScript replacement strings are not modelled.)
   */
  function ReplaceFirst(s: string, pat: string, rep: string): (r: string)
    ensures (forall j: nat :: !OccursAt(s, pat, j)) ==> r == s
  {
    match IndexOfFrom(s, pat, 0)
    case None => s
    case Some(i) => s[..i] + rep + s[i + |pat|..]
  }

  /** Replacing at the first occurrence `i`: the text around it is kept. */
  lemma ReplaceFirstAt(s: string, pat: string, rep: string, i: nat)
    requires OccursAt(s, pat, i)
    requires forall j: nat :: j < i ==> !OccursAt(s, pat, j)
    ensures ReplaceFirst(s, pat, rep) == s[..i] + rep + s[i + |pat|..]
    ensures |ReplaceFirst(s, pat, rep)| == |s| - |pat| + |rep|
  {
  }

  /** ECMAScript WhiteSpace and LineTerminator code points: what `trim` removes. */
  predicate IsWhitespace(c: char)
  {
    c == '\t' || c == '\n' || c == '\U{000B}' || c == '\U{000C}' || c == '\r' ||
    c == ' ' || c == '\U{00A0}' || c == '\U{1680}' ||
    ('\U{2000}' <= c <= '\U{200A}') ||
    c == '\U{2028}' || c == '\U{2029}' || c == '\U{202F}' || c == '\U{205F}' ||
    c == '\U{3000}' || c == '\U{FEFF}'
  }

  /** Every character of `s` is white space (vacuously so for ""). */
  predicate IsBlank(s: string)
  {
    forall i :: 0 <= i < |s| ==> IsWhitespace(s[i])
  }

  /** `trimStart`: the longest suffix of `s` that does not start with white space. */
  function TrimStart(s: string): (r: string)
    ensures |r| <= |s| && r == s[|s| - |r|..]
    ensures IsBlank(s[..|s| - |r|])
    ensures r == "" || !IsWhitespace(r[0])
  {
    if |s| > 0 && IsWhitespace(s[0]) then
      var r := TrimStart(s[1..]);
      assert s[1..][..|s[1..]| - |r|] == s[1..|s| - |r|];
      assert forall i :: 1 <= i < |s| - |r| ==> s[i] == s[1..|s| - |r|][i - 1];
      r
    else s
  }

  /** `trimEnd`: the longest prefix of `s` that does not end with white space. */
  function TrimEnd(s: string): (r: string)
    ensures |r| <= |s| && r == s[..|r|]
    ensures IsBlank(s[|r|..])
    ensures r == "" || !IsWhitespace(r[|r| - 1])
  {
    if |s| > 0 && IsWhitespace(s[|s| - 1]) then
      var r := TrimEnd(s[..|s| - 1]);
      assert s[..|s| - 1][|r|..] == s[|r|..|s| - 1];
      assert forall i :: |r| <= i < |s| - 1 ==> s[i] == s[|r|..|s| - 1][i - |r|];
      r
    else s
  }

  /** `trim`: what is left once the blank runs at both ends are dropped; it neither starts nor ends with white space. */
  function Trim(s: string): (r: string)
    ensures |r| <= |s|
    ensures r == "" || (!IsWhitespace(r[0]) && !IsWhitespace(r[|r| - 1]))
  {
    var t := TrimStart(s);
    var r := TrimEnd(t);
    assert r != "" ==> r[0] == t[0];
    r
  }

  /** The trimmed text is a slice of `s` with only white space on either side of it. */
  lemma TrimIsSlice(s: string)
    ensures var r := Trim(s);
      exists i :: 0 <= i <= |s| - |r| && r == s[i..i + |r|] && IsBlank(s[..i]) && IsBlank(s[i + |r|..])
  {
    var t := TrimStart(s);
    var r := TrimEnd(t);
    var i := |s| - |t|;
    assert r == s[i..i + |r|] by {
      assert t == s[i..] && r == t[..|r|];
    }
    assert IsBlank(s[i + |r|..]) by {
      assert s[i + |r|..] == t[|r|..];
    }
  }

  /** `!s.trim()` holds exactly for the blank strings. */
  lemma TrimEmptyIffBlank(s: string)
    ensures Trim(s) == "" <==> IsBlank(s)
  {
  }
}
