# Executive console view logic, in Dafny

This project models the client-side view logic of the "Agentic Exec" executive
intelligence console (`app/page.tsx`): the single-page component that takes an
executive question, asks a question-answering service for an answer, and shows
the answer cut into numbered, collapsible sections next to citation cards.

What is modelled:

- **Answer sectioning** (module `Sections`). `answer.split(/\n(?=\d\.)/)` is
  `SplitSections`; each section's first line is its title and the remaining
  lines, joined with `"\n"`, its content (`SplitLines`, `Title`, `Content`).
  The split is proved to be the one and only "sectioning" of the answer
  (`IsSectioning`): its parts joined with `"\n"` give back the answer, every
  part after the first starts with an ASCII digit and `.`, and no part holds a
  boundary of its own. Rendering (`RenderSection`, `RenderSections`) applies
  the board-mode filter, then the HBR filter, then shows the content only for
  expanded titles.
- **Expanded titles** (module `Expansion`). `toggleSection` removes every copy
  of a present title (`RemoveAll`, the `filter`) or appends an absent one
  (`Toggle`). Toggling flips the membership of that title only, and keeps the
  list free of duplicates.
- **The component state** (module `Console`, class `Home`). The fields are
  `question`, `data`, `loading`, `expandedSections`, `history`, `showHBR` and
  `boardMode`, with the event handlers that change them. `HandleSubmit` is
  `handleSubmit`. The request is a parameter (`FetchOutcome`): either a parsed
  response or a thrown error. The history is capped at ten, most recent first
  (`PushHistory`, `ReplayKeepsMostRecent`).
- **Citation cards** (module `Citations`). The embeddable video address
  replaces the first `watch?v=` with `embed/` (`EmbedUrl`). A card shows the
  video frame only for a `"podcast"` citation with a non-empty URL, and shows
  the brief only for an `"hbr"` citation (`RenderCitation`).
- **The string operations these rely on** (module `Text`): `join`,
  `includes`, `replace` with a string pattern, and `trim`.

Four behaviours of the code are worth stating because a reader might expect
something else:

- The two filters make one conjunction: a section is rendered iff
  `(!boardMode || title has "Executive Summary") && (showHBR || !title has "HBR")`
  (`RenderSection`). In board mode with HBR excluded, an "Executive Summary"
  section whose title also mentions "HBR" is suppressed: passing the
  board-mode check does not skip the HBR check.
- Toggling an expanded title twice does not always restore the list. When the
  title was collapsed, the list comes back exactly (`ToggleTwiceAbsent`). When
  it was expanded, it moves to the end of the list; the members stay the same
  (`ToggleTwicePresent`). Only membership is ever read, so the page looks the
  same either way.
- In board mode the failure placeholder "System unavailable." is hidden,
  because its title has no "Executive Summary". After a failed request the
  answer card is then empty (`UnavailableRendering`, `FailedRequestAnswerCard`).
- `\d` matches a single digit, so a line starting with a two-digit number
  such as "10." does not start a new section; it stays in the previous one
  (`MultiDigitNoBoundary`).

## Model

| member | source | states |
|---|---|---|
| `Text.Join` | app/page.tsx:54 | `join`: the parts with the separator between neighbours; an empty list joins to "" |
| `Text.IndexOfFrom` | app/page.tsx:150-151 | the search behind `includes`/`replace`: the result is an occurrence of the pattern at or after the start, with none before it; no result means no occurrence at all |
| `Text.Contains` | app/page.tsx:56-57 | `includes` holds iff the pattern occurs somewhere in the text |
| `Text.ReplaceFirst` | app/page.tsx:151 | `replace` with a string pattern leaves a text without the pattern unchanged |
| `Text.ReplaceFirstAt` | app/page.tsx:151 | where the first occurrence is at `i`, the result is the text before `i`, the replacement, then the text after the occurrence |
| `Text.TrimStart` | app/page.tsx:24 | the result is a suffix of the text, everything dropped is white space, and it does not start with white space |
| `Text.TrimEnd` | app/page.tsx:24 | the result is a prefix of the text, everything dropped is white space, and it does not end with white space |
| `Text.Trim` | app/page.tsx:24 | `trim()` is no longer than the text and neither starts nor ends with white space |
| `Text.TrimIsSlice` | app/page.tsx:24 | `trim()` is a slice of the text with only white space before and after it |
| `Text.TrimEmptyIffBlank` | app/page.tsx:24 | `question.trim()` is empty exactly when every character of the question is white space |
| `Sections.SplitSections` | app/page.tsx:49 | the split never yields an empty list of sections |
| `Sections.SplitJoin` | app/page.tsx:49 | joining the sections with "\n" gives back the answer exactly |
| `Sections.SplitIsSectioning` | app/page.tsx:49 | the sections join back to the answer, every section after the first starts with a digit and '.', and no section holds a boundary |
| `Sections.SectioningUnique` | app/page.tsx:49 | any list of parts with those three properties equals the split: the split is the only sectioning |
| `Sections.SplitAtBoundary` | app/page.tsx:49 | a boundary-free head, "\n", then a text starting with digit-dot splits into the head followed by the sections of that text |
| `Sections.SplitBoundaryFree` | app/page.tsx:49 | an answer without a boundary splits into exactly itself |
| `Sections.SplitSingleIff` | app/page.tsx:49 | the split is the single whole answer iff the answer holds no `\n` followed by digit and '.' |
| `Sections.SplitCount` | app/page.tsx:49 | the number of sections is one plus the number of indices holding `\n`, a digit and '.' |
| `Sections.SplitHeadPrefix` | app/page.tsx:49 | the first section is a prefix of the answer and keeps a leading digit-dot |
| `Sections.MultiDigitNoBoundary` | app/page.tsx:49 | a newline followed by two digits is no boundary, because `\d` matches one digit |
| `Sections.NumberedAnswerExample` | app/page.tsx:49 | "1. A\nfoo\n2. B\nbar" is cut into "1. A\nfoo" and "2. B\nbar" |
| `Sections.SplitLines` | app/page.tsx:52 | `section.split("\n")` yields at least one line, and the first line is a newline-free prefix of the section ending at its first newline |
| `Sections.LinesNewlineFree` | app/page.tsx:52 | no line of a section holds a newline |
| `Sections.LinesJoin` | app/page.tsx:52 | the lines joined with "\n" give back the section |
| `Sections.LinesCount` | app/page.tsx:52 | a section has one more line than it has newlines |
| `Sections.SplitLinesAt` | app/page.tsx:52 | a newline-free first line, "\n", then the rest splits into that line followed by the lines of the rest |
| `Sections.Title` | app/page.tsx:53 | the title is the text up to the first newline of the section (all of it when there is none), and holds no newline |
| `Sections.Content` | app/page.tsx:54 | the content is the text after the first newline of the section, and "" when there is none |
| `Sections.TitleContent` | app/page.tsx:52-54 | the title holds no newline; with a newline in the section, title + "\n" + content is the section; without one, the title is the section and the content is "" |
| `Sections.TitleContentOf` | app/page.tsx:52-54 | for a first line `a` and the rest `b`, the title is `a` and the content is `b` |
| `Sections.NumberedSectionsExample` | app/page.tsx:52-54 | "1. A\nfoo" has title "1. A" and content "foo", and "2. B\nbar" has title "2. B" and content "bar" |
| `Sections.RenderSections` | app/page.tsx:51 | one entry per section, in order: entry k is the rendering of section k |
| `Sections.RenderSection` | app/page.tsx:52-77 | a section renders iff it passes both filters; a rendered section shows its own title, is open iff the title is expanded, and shows its content iff open |
| `Sections.BoardModeShowsOnlySummaries` | app/page.tsx:56 | with board mode on, every rendered section has "Executive Summary" in its title |
| `Sections.HbrExcludedHidesHbr` | app/page.tsx:57 | with HBR excluded, no rendered title mentions "HBR", whatever board mode says |
| `Sections.ToggleFlipsOpen` | app/page.tsx:59-65 | a click on a header flips the open flag of every rendered section with that title, changes no other section, and changes nothing about which sections are suppressed |
| `Sections.UnnumberedAnswerIsOneSection` | app/page.tsx:48-54 | an answer without a boundary renders as exactly one section, the whole answer |
| `Expansion.RemoveAll` | app/page.tsx:18 | `filter(t => t !== title)`: the result holds exactly the other titles of the list and is no longer than it |
| `Expansion.RemoveAllAppend` | app/page.tsx:18 | filtering distributes over concatenation, so the kept titles keep their order |
| `Expansion.RemoveAllCounts` | app/page.tsx:18 | every copy of the title is removed and every other title keeps its number of copies |
| `Expansion.RemoveAllAbsent` | app/page.tsx:18 | filtering out an absent title changes nothing |
| `Expansion.RemoveAllNoDuplicates` | app/page.tsx:18 | filtering keeps a duplicate-free list duplicate-free |
| `Expansion.Toggle` | app/page.tsx:15-20 | the toggled title is in the result iff it was not in the list; every other title keeps its membership |
| `Expansion.ToggleNoDuplicates` | app/page.tsx:15-20 | toggling keeps the list free of duplicates |
| `Expansion.ToggleTwiceAbsent` | app/page.tsx:15-20 | toggling a collapsed title twice gives back the same list |
| `Expansion.ToggleTwicePresent` | app/page.tsx:15-20 | toggling an expanded title twice moves it to the end and keeps the same members |
| `Citations.EmbedUrl` | app/page.tsx:149-152 | the embed URL is present iff the URL is, and is non-empty for a non-empty URL |
| `Citations.EmbedUrlAt` | app/page.tsx:149-152 | the first `watch?v=` is replaced by `embed/` and the rest of the URL is kept, so the URL is two characters shorter |
| `Citations.EmbedUrlUnchanged` | app/page.tsx:149-152 | a URL without `watch?v=` is used unchanged |
| `Citations.EmbedWatchUrl` | app/page.tsx:149-152 | `p + "watch?v=" + id`, where `p` has no marker, becomes `p + "embed/" + id` |
| `Citations.RenderCitation` | app/page.tsx:155-184 | the video frame shows iff the type is "podcast" and the URL is non-empty, and its source is the embed URL; the brief shows iff the type is "hbr" and holds the citation's text ("" when absent); the timestamp shows iff non-empty and is then the citation's; the source type and episode title are shown as they are |
| `Console.PushHistory` | app/page.tsx:39 | the question heads the new history, the rest is a prefix of the old history, and the length is one more than before, capped at ten |
| `Console.ReplayKeepsMostRecent` | app/page.tsx:39 | after any run of successful submissions, the history is the (at most ten) most recent questions, most recent first |
| `Console.ReversedDropOldest` | app/page.tsx:39 | leaving out the oldest question drops only the last entry of the most-recent-first order |
| `Console.EleventhDropsOldest` | app/page.tsx:39 | after eleven submissions the history is the last ten, most recent first, so the first question has been dropped |
| `Console.AnswerText` | app/page.tsx:136 | the answer card appears iff there is a response with a non-empty answer, and then shows that answer |
| `Console.UnavailableSection` | app/page.tsx:42 | the placeholder answer is one section whose title is the whole text and whose content is empty |
| `Console.UnavailableTitleUnmarked` | app/page.tsx:42 | the placeholder title mentions neither "Executive Summary" nor "HBR" |
| `Console.UnavailableRendering` | app/page.tsx:42 | after a failed request, the answer card holds nothing in board mode and the placeholder section otherwise |
| `Console.Home.constructor` | app/page.tsx:7-13 | initial state: empty question, no response, not loading, nothing expanded, empty history, HBR included, board mode off |
| `Console.Home.SetQuestion` | app/page.tsx:123 | typing sets the question and nothing else |
| `Console.Home.ToggleShowHBR` | app/page.tsx:105 | the "Include HBR" checkbox flips `showHBR` |
| `Console.Home.ToggleBoardMode` | app/page.tsx:110 | the "Board Mode" checkbox flips `boardMode` |
| `Console.Home.ToggleSection` | app/page.tsx:15-21 | the expanded list becomes `Toggle` of the old one, stays duplicate-free, and holds the title iff it did not before |
| `Console.Home.HandleSubmit` | app/page.tsx:23-46 | a blank question changes nothing. A parsed response is stored and the untrimmed question heads the history. A thrown request stores "System unavailable." and leaves the history alone. Loading ends false, and the history stays at most ten long |
| `Console.Home.AnswerView` | app/page.tsx:136-139 | the answer card appears iff the answer is non-empty, and holds the sections of that answer rendered under the current board mode, HBR filter and expanded titles |
| `Console.Home.SourcesView` | app/page.tsx:143-188 | one card per citation of the response, card k rendering citation k; no cards without a response or a citation list |
| `Console.BoardModeAnswerCard` | app/page.tsx:136-139 | in board mode every section the answer card renders has "Executive Summary" in its title |
| `Console.FailedRequestAnswerCard` | app/page.tsx:42-57 | after a failed request the answer card is empty in board mode and holds the placeholder section otherwise |

## Left out

- The request relay (`app/api/chat/route.ts`) is not part of this model. It only forwards the message to an external service over the network and passes the reply back.
- The network request and `response.json()` in `handleSubmit` (app/page.tsx:30-36) are the `FetchOutcome` parameter: a parsed `Response`, or `Thrown`.
- Console.Home.HandleSubmit: runs as one step. The state between `setLoading(true)`/`setData(null)` and the reply (loading true, no response) exists only inside the method. Overlapping submissions and a stale reply overwriting a newer one are not modelled, because there is no concurrency in the model.
- The response is typed `any` in the source. The model gives it an optional string answer and an optional list of citations with optional string fields; answers of other JSON types are not modelled.
- Citations.RenderCitation: shows `source_type` as it is. The `toUpperCase()` of app/page.tsx:158 is not modelled, because case mapping is library behaviour.
- Text.ReplaceFirst: the replacement text is used literally. JavaScript's `$`-patterns in replacement strings are not modelled; `"embed/"` contains none.
- Text.IsWhitespace: follows the ECMAScript white-space and line-terminator code points. JavaScript strings are UTF-16 code units and Dafny `char`s are Unicode scalar values. This makes no difference to the ASCII patterns searched here.
- JSX markup, styles, the history sidebar's list rendering, and React's re-rendering machinery (app/page.tsx:81-359) are left out. They only present the state modelled above.
- The "Download PDF" and "Copy Summary" buttons (app/page.tsx:114-115) have no handlers, so there is nothing to model.
- The open/closed state of the `<details>` brief disclosure (app/page.tsx:179-184) belongs to the browser, not to the component.
