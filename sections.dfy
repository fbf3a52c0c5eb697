/**
 * Answer sectioning and filtered rendering (`renderSections` in app/page.tsx).
 *
 * The answer is cut at every newline that is directly followed by an ASCII
 * digit and a '.', the regular expression /\n(?=\d\.)/; the newline itself is
 * dropped and the digit-dot line begins the next section. Each section's first
 * line is its title and the rest is its content. Two display filters then
 * decide, title by title, whether the section is rendered at all.
 */
module Sections {
  import opened Wrappers
  import opened Text
  import opened Expansion

  predicate IsDigit(c: char)
  {
    '0' <= c <= '9'
  }

  /** `s` begins with an ASCII digit followed by '.' (the lookahead `\d\.`). */
  predicate StartsNumbered(s: string)
  {
    |s| >= 2 && IsDigit(s[0]) && s[1] == '.'
  }

  /** The regular expression /\n(?=\d\.)/ matches at index `i` of `s`. */
  predicate IsBoundary(s: string, i: nat)
  {
    i < |s| && s[i] == '\n' && StartsNumbered(s[i + 1..])
  }

  /** `s` holds no section boundary at all. */
  predicate BoundaryFree(s: string)
  {
    forall i: nat :: i < |s| ==> !IsBoundary(s, i)
  }

  /** Number of indices of `s` at which a section boundary sits. */
  function BoundaryCount(s: string): nat
  {
    if |s| == 0 then 0
    else (if IsBoundary(s, 0) then 1 else 0) + BoundaryCount(s[1..])
  }

  /**
   * `answer.split(/\n(?=\d\.)/)`, read one character at a time: a boundary at
   * the front closes an (empty) first section, any other character is the
   * first character of the first section.
   */
  function SplitSections(s: string): (r: seq<string>)
    ensures |r| >= 1
  {
    if |s| == 0 then [""]
    else if IsBoundary(s, 0) then [""] + SplitSections(s[1..])
    else
      var rest := SplitSections(s[1..]);
      [[s[0]] + rest[0]] + rest[1..]
  }

  /**
   * The independent description of a correct sectioning of `s`: the parts
   * joined with "\n" give back `s`, every part after the first starts with a
   * digit and '.', and no part holds a boundary of its own.
   */
  ghost predicate IsSectioning(s: string, parts: seq<string>)
  {
    && |parts| >= 1
    && Join(parts, "\n") == s
    && (forall k :: 1 <= k < |parts| ==> StartsNumbered(parts[k]))
    && (forall k :: 0 <= k < |parts| ==> BoundaryFree(parts[k]))
  }

  /** Dropping the first character shifts every boundary one index down. */
  lemma BoundaryShift(s: string, i: nat)
    requires |s| > 0
    ensures IsBoundary(s[1..], i) <==> IsBoundary(s, i + 1)
  {
  }

  /** `\d` is one digit: a newline before a two-digit number such as "10." is no boundary. */
  lemma MultiDigitNoBoundary(s: string, i: nat)
    requires i + 2 < |s| && s[i] == '\n' && IsDigit(s[i + 1]) && IsDigit(s[i + 2])
    ensures !IsBoundary(s, i)
  {
  }

  /** A text without a newline holds no boundary. */
  lemma NoNewlineBoundaryFree(s: string)
    requires '\n' !in s
    ensures BoundaryFree(s)
  {
  }

  /** The first section is a prefix of the answer and keeps a leading digit-dot. */
  lemma {:induction false} SplitHeadPrefix(s: string)
    ensures |SplitSections(s)[0]| <= |s|
    ensures SplitSections(s)[0] == s[..|SplitSections(s)[0]|]
    ensures StartsNumbered(s) ==> StartsNumbered(SplitSections(s)[0])
  {
    if |s| > 0 && !IsBoundary(s, 0) {
      SplitHeadPrefix(s[1..]);
      if StartsNumbered(s) {
        var t := s[1..];
        assert t[0] == '.';
        assert !IsBoundary(t, 0);
        SplitHeadPrefix(t[1..]);
      }
    }
  }

  /** Round trip: joining the sections with "\n" gives back the answer exactly. */
  lemma {:induction false} SplitJoin(s: string)
    ensures Join(SplitSections(s), "\n") == s
  {
    if |s| > 0 {
      var rest := SplitSections(s[1..]);
      SplitJoin(s[1..]);
      if IsBoundary(s, 0) {
        JoinCons("", rest, "\n");
        assert s == "\n" + s[1..];
      } else {
        JoinPrefixHead(s[0], rest, "\n");
        assert s == [s[0]] + s[1..];
      }
    }
  }

  /** The split answer is a sectioning of it in the sense of `IsSectioning`. */
  lemma {:induction false} SplitIsSectioning(s: string)
    ensures IsSectioning(s, SplitSections(s))
  {
    SplitJoin(s);
    var r := SplitSections(s);
    if |s| == 0 {
      assert r == [""];
    } else {
      var rest := SplitSections(s[1..]);
      SplitIsSectioning(s[1..]);
      if IsBoundary(s, 0) {
        assert r == [""] + rest;
        SplitHeadPrefix(s[1..]);
        forall k | 1 <= k < |r| ensures StartsNumbered(r[k]) {
          assert r[k] == rest[k - 1];
        }
        forall k | 0 <= k < |r| ensures BoundaryFree(r[k]) {
          if k > 0 {
            assert r[k] == rest[k - 1];
          }
        }
      } else {
        var h := [s[0]] + rest[0];
        assert r == [h] + rest[1..];
        forall k | 1 <= k < |r| ensures StartsNumbered(r[k]) {
          assert r[k] == rest[k];
        }
        SplitHeadPrefix(s[1..]);
        assert h[1..] == rest[0];
        forall i: nat | 0 < i < |h| ensures !IsBoundary(h, i) {
          BoundaryShift(h, i - 1);
        }
        forall k | 0 <= k < |r| ensures BoundaryFree(r[k]) {
          if k > 0 {
            assert r[k] == rest[k];
          }
        }
      }
    }
  }

  /** An answer without any boundary is one section: the whole answer. */
  lemma {:induction false} SplitBoundaryFree(s: string)
    requires BoundaryFree(s)
    ensures SplitSections(s) == [s]
  {
    if |s| > 0 {
      forall i: nat ensures !IsBoundary(s[1..], i) {
        BoundaryShift(s, i);
      }
      SplitBoundaryFree(s[1..]);
      assert s == [s[0]] + s[1..];
    }
  }

  /** Cutting at a boundary: a boundary-free head, "\n", then a numbered rest. */
  lemma {:induction false} SplitAtBoundary(a: string, b: string)
    requires BoundaryFree(a) && StartsNumbered(b)
    ensures SplitSections(a + "\n" + b) == [a] + SplitSections(b)
  {
    var s := a + "\n" + b;
    if |a| == 0 {
      assert s[1..] == b;
      assert IsBoundary(s, 0);
    } else {
      var a' := a[1..];
      assert s[1..] == a' + "\n" + b;
      assert !IsBoundary(s, 0) by {
        assert !IsBoundary(a, 0);
        if |a'| >= 2 {
          assert s[1..][..2] == a'[..2];
        } else if |a'| == 1 {
          assert s[1..][1] == '\n';
        } else {
          assert s[1..][0] == '\n';
        }
      }
      forall i: nat ensures !IsBoundary(a', i) {
        BoundaryShift(a, i);
      }
      SplitAtBoundary(a', b);
      assert a == [a[0]] + a';
    }
  }

  /** The first part is a prefix of the joined text. */
  lemma JoinHeadPrefix(parts: seq<string>, sep: string)
    requires |parts| >= 1
    ensures |parts[0]| <= |Join(parts, sep)|
    ensures Join(parts, sep)[..|parts[0]|] == parts[0]
  {
  }

  /** Uniqueness: the split is the ONLY sectioning of the answer. */
  lemma {:induction false} SectioningUnique(s: string, parts: seq<string>)
    requires IsSectioning(s, parts)
    ensures parts == SplitSections(s)
    decreases |parts|
  {
    if |parts| == 1 {
      SplitBoundaryFree(s);
    } else {
      var tail := parts[1..];
      var t := Join(tail, "\n");
      JoinCons(parts[0], tail, "\n");
      assert [parts[0]] + tail == parts;
      assert forall k :: 1 <= k < |tail| ==> tail[k] == parts[k + 1];
      SectioningUnique(t, tail);
      JoinHeadPrefix(tail, "\n");
      assert t[..2] == tail[0][..2];
      SplitAtBoundary(parts[0], t);
    }
  }

  /** One section equal to the whole answer exactly when the answer has no boundary. */
  lemma SplitSingleIff(s: string)
    ensures SplitSections(s) == [s] <==> BoundaryFree(s)
  {
    if BoundaryFree(s) {
      SplitBoundaryFree(s);
    }
    if SplitSections(s) == [s] {
      SplitIsSectioning(s);
    }
  }

  /** The number of sections is one more than the number of boundaries. */
  lemma {:induction false} SplitCount(s: string)
    ensures |SplitSections(s)| == 1 + BoundaryCount(s)
  {
    if |s| > 0 {
      SplitCount(s[1..]);
    }
  }

  /** `section.split("\n")`: the lines of a section. */
  function SplitLines(s: string): (r: seq<string>)
    ensures |r| >= 1
    ensures '\n' !in r[0] && r[0] <= s
    ensures |r[0]| < |s| ==> s[|r[0]|] == '\n'
  {
    if |s| == 0 then [""]
    else if s[0] == '\n' then [""] + SplitLines(s[1..])
    else
      var rest := SplitLines(s[1..]);
      [[s[0]] + rest[0]] + rest[1..]
  }

  /** Number of newlines in `s`. */
  function NewlineCount(s: string): nat
  {
    multiset(s)['\n']
  }

  /** No line holds a newline. */
  lemma {:induction false} LinesNewlineFree(s: string)
    ensures forall k :: 0 <= k < |SplitLines(s)| ==> '\n' !in SplitLines(s)[k]
  {
    if |s| > 0 {
      var rest := SplitLines(s[1..]);
      LinesNewlineFree(s[1..]);
      var r := SplitLines(s);
      if s[0] == '\n' {
        assert forall k :: 1 <= k < |r| ==> r[k] == rest[k - 1];
      } else {
        assert forall k :: 1 <= k < |r| ==> r[k] == rest[k];
      }
    }
  }

  /** Joining the lines with "\n" gives back the text. */
  lemma {:induction false} LinesJoin(s: string)
    ensures Join(SplitLines(s), "\n") == s
  {
    if |s| > 0 {
      var rest := SplitLines(s[1..]);
      LinesJoin(s[1..]);
      if s[0] == '\n' {
        JoinCons("", rest, "\n");
        assert s == "\n" + s[1..];
      } else {
        JoinPrefixHead(s[0], rest, "\n");
        assert s == [s[0]] + s[1..];
      }
    }
  }

  /** There is one more line than there are newlines. */
  lemma {:induction false} LinesCount(s: string)
    ensures |SplitLines(s)| == 1 + NewlineCount(s)
  {
    if |s| > 0 {
      LinesCount(s[1..]);
      assert s == [s[0]] + s[1..];
      assert multiset(s) == multiset{s[0]} + multiset(s[1..]);
    }
  }

  /** The title of a section, `lines[0]`: the text up to the first newline, or all of it. */
  function Title(section: string): (t: string)
    ensures '\n' !in t && t <= section
    ensures |t| < |section| ==> section[|t|] == '\n'
  {
    SplitLines(section)[0]
  }

  /** The content of a section, `lines.slice(1).join("\n")`: the text after the first newline, or "". */
  function Content(section: string): (c: string)
    ensures c == if |Title(section)| < |section| then section[|Title(section)| + 1..] else ""
  {
    var lines := SplitLines(section);
    LinesJoin(section);
    if |lines| > 1 then
      JoinCons(lines[0], lines[1..], "\n");
      assert [lines[0]] + lines[1..] == lines;
      Join(lines[1..], "\n")
    else
      Join(lines[1..], "\n")
  }

  /**
   * The title is the first line and holds no newline; with a newline in the
   * section, title, "\n" and content make up the section again; without one,
   * the title is the whole section and the content is empty.
   */
  lemma TitleContent(section: string)
    ensures '\n' !in Title(section)
    ensures '\n' in section ==> Title(section) + "\n" + Content(section) == section
    ensures '\n' !in section ==> Title(section) == section && Content(section) == ""
  {
    var lines := SplitLines(section);
    LinesNewlineFree(section);
    LinesJoin(section);
    LinesCount(section);
    if '\n' in section {
      assert NewlineCount(section) > 0;
      JoinCons(lines[0], lines[1..], "\n");
      assert [lines[0]] + lines[1..] == lines;
    } else {
      assert NewlineCount(section) == 0;
    }
  }

  /** Cutting at the first newline: the line before it, then the lines after it. */
  lemma {:induction false} SplitLinesAt(a: string, b: string)
    requires '\n' !in a
    ensures SplitLines(a + "\n" + b) == [a] + SplitLines(b)
  {
    var s := a + "\n" + b;
    if |a| == 0 {
      assert s[1..] == b;
    } else {
      assert s[0] == a[0] && s[1..] == a[1..] + "\n" + b;
      assert a == [a[0]] + a[1..];
      SplitLinesAt(a[1..], b);
    }
  }

  /** For a section whose first line is `a` and whose remaining lines are `b`, the title is `a` and the content is `b`. */
  lemma TitleContentOf(a: string, b: string)
    requires '\n' !in a
    ensures Title(a + "\n" + b) == a
    ensures Content(a + "\n" + b) == b
  {
    SplitLinesAt(a, b);
    LinesJoin(b);
    assert SplitLines(a + "\n" + b)[1..] == SplitLines(b);
  }

  /** A rendered section: header text, whether it is expanded, and the body shown under it. */
  datatype SectionView = SectionView(title: string, open: bool, body: Option<string>)

  /**
   * The rendering of one section: nothing when board mode is on and the title
   * lacks "Executive Summary"; else nothing when HBR is excluded and the title
   * mentions "HBR"; else the header, and the content only while the title is
   * in the expanded list. So a section is rendered exactly when it passes both
   * filters, and the order of the two checks does not matter.
   */
  function RenderSection(section: string, boardMode: bool, showHBR: bool, expanded: seq<string>): (v: Option<SectionView>)
    ensures v.Some? <==>
      (!boardMode || Contains(Title(section), "Executive Summary")) &&
      (showHBR || !Contains(Title(section), "HBR"))
    ensures v.Some? ==> v.value.title == Title(section) && '\n' !in v.value.title
    ensures v.Some? ==> (v.value.open <==> Title(section) in expanded)
    ensures v.Some? && v.value.open ==> v.value.body == Some(Content(section))
    ensures v.Some? && !v.value.open ==> v.value.body == None
  {
    var title := Title(section);
    var content := Content(section);
    if boardMode && !Contains(title, "Executive Summary") then None
    else if !showHBR && Contains(title, "HBR") then None
    else
      var isOpen := title in expanded;
      Some(SectionView(title, isOpen, if isOpen then Some(content) else None))
  }

  /** `renderSections(answer)`: one entry per section, in order (`None` for a suppressed one). */
  function RenderSections(answer: string, boardMode: bool, showHBR: bool, expanded: seq<string>): (vs: seq<Option<SectionView>>)
    ensures |vs| == |SplitSections(answer)|
    ensures forall k :: 0 <= k < |vs| ==> vs[k] == RenderSection(SplitSections(answer)[k], boardMode, showHBR, expanded)
  {
    var sections := SplitSections(answer);
    seq(|sections|, k requires 0 <= k < |sections| => RenderSection(sections[k], boardMode, showHBR, expanded))
  }

  /** With board mode on, every rendered section has "Executive Summary" in its title. */
  lemma BoardModeShowsOnlySummaries(answer: string, showHBR: bool, expanded: seq<string>)
    ensures var vs := RenderSections(answer, true, showHBR, expanded);
      forall k :: 0 <= k < |vs| && vs[k].Some? ==> Contains(vs[k].value.title, "Executive Summary")
  {
  }

  /** With HBR excluded, no rendered section mentions "HBR" in its title, whatever board mode says. */
  lemma HbrExcludedHidesHbr(answer: string, boardMode: bool, expanded: seq<string>)
    ensures var vs := RenderSections(answer, boardMode, false, expanded);
      forall k :: 0 <= k < |vs| && vs[k].Some? ==> !Contains(vs[k].value.title, "HBR")
  {
  }

  /**
   * A click on a header flips the open flag of every rendered section with
   * that title (titles are the keys, so equal titles flip together) and of
   * no other section; what is suppressed stays suppressed.
   */
  lemma ToggleFlipsOpen(section: string, boardMode: bool, showHBR: bool, expanded: seq<string>, t: string)
    ensures var before := RenderSection(section, boardMode, showHBR, expanded);
      var after := RenderSection(section, boardMode, showHBR, Toggle(expanded, t));
      && before.Some? == after.Some?
      && (before.Some? ==> after.value.title == before.value.title)
      && (before.Some? ==> (after.value.open <==> (if before.value.title == t then !before.value.open else before.value.open)))
  {
  }

  /** An answer with no boundary renders as a single section made of the whole answer. */
  lemma UnnumberedAnswerIsOneSection(answer: string, boardMode: bool, showHBR: bool, expanded: seq<string>)
    requires BoundaryFree(answer)
    ensures RenderSections(answer, boardMode, showHBR, expanded) == [RenderSection(answer, boardMode, showHBR, expanded)]
  {
    SplitBoundaryFree(answer);
  }

  /** The worked example: "1. A\nfoo\n2. B\nbar" is cut into "1. A\nfoo" and "2. B\nbar". */
  lemma NumberedAnswerExample()
    ensures SplitSections("1. A\nfoo\n2. B\nbar") == ["1. A\nfoo", "2. B\nbar"]
  {
    var a, b := "1. A\nfoo", "2. B\nbar";
    assert BoundaryFree(a) by {
      forall i: nat | i < |a| ensures !IsBoundary(a, i) {
        if i == 4 { assert a[5] == 'f'; }
      }
    }
    assert BoundaryFree(b) by {
      forall i: nat | i < |b| ensures !IsBoundary(b, i) {
        if i == 4 { assert b[5] == 'b'; }
      }
    }
    SplitAtBoundary(a, b);
    SplitBoundaryFree(b);
    assert a + "\n" + b == "1. A\nfoo\n2. B\nbar";
  }

  /** ... and those two sections have the titles "1. A", "2. B" and the contents "foo", "bar". */
  lemma NumberedSectionsExample()
    ensures Title("1. A\nfoo") == "1. A" && Content("1. A\nfoo") == "foo"
    ensures Title("2. B\nbar") == "2. B" && Content("2. B\nbar") == "bar"
  {
    assert '\n' !in "1. A" && '\n' !in "2. B";
    TitleContentOf("1. A", "foo");
    TitleContentOf("2. B", "bar");
    assert "1. A" + "\n" + "foo" == "1. A\nfoo" && "2. B" + "\n" + "bar" == "2. B\nbar";
  }
}
