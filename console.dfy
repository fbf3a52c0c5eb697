/**
 * The console component's state (`Home` in app/page.tsx): the question being
 * typed, the last response, the loading flag, the expanded section titles,
 * the session history and the two display filters, with the event handlers
 * that change them and the parts of the page derived from them.
 */
module Console {
  import opened Wrappers
  import opened Text
  import opened Expansion
  import opened Sections
  import opened Citations

  /** The parsed response of the question-answering service; both fields may be absent. */
  datatype Response = Response(answer: Option<string>, citations: Option<seq<Citation>>)

  /** How the request made by a submission ends: with a parsed body, or with a thrown error. */
  datatype FetchOutcome = Fetched(result: Response) | Thrown

  /** What a failed request leaves on screen. */
  const Unavailable: Response := Response(Some("System unavailable."), None)

  /** The session history keeps at most this many questions. */
  const HistoryLimit: nat := 10

  /** `[question, ...prev.slice(0, 9)]`. */
  function PushHistory(prev: seq<string>, question: string): (h: seq<string>)
    ensures |h| == if |prev| < HistoryLimit then |prev| + 1 else HistoryLimit
    ensures h[0] == question
    ensures h[1..] <= prev
  {
    [question] + prev[..if |prev| < HistoryLimit - 1 then |prev| else HistoryLimit - 1]
  }

  /** The history after the successful submissions `qs`, oldest first, from an empty session. */
  function Replay(qs: seq<string>): seq<string>
  {
    if qs == [] then [] else PushHistory(Replay(qs[..|qs| - 1]), qs[|qs| - 1])
  }

  /** `qs` in reverse order. */
  function Reversed(qs: seq<string>): (r: seq<string>)
    ensures |r| == |qs|
  {
    if qs == [] then [] else [qs[|qs| - 1]] + Reversed(qs[..|qs| - 1])
  }

  /** The history holds the (at most ten) most recent questions, most recent first. */
  lemma {:induction false} ReplayKeepsMostRecent(qs: seq<string>)
    ensures Replay(qs) == Reversed(qs)[..if |qs| < HistoryLimit then |qs| else HistoryLimit]
  {
    if qs != [] {
      var init := qs[..|qs| - 1];
      ReplayKeepsMostRecent(init);
      var r := Reversed(init);
      var n := if |init| < HistoryLimit - 1 then |init| else HistoryLimit - 1;
      assert Replay(init)[..n] == r[..n];
      assert Reversed(qs)[..n + 1] == [qs[|qs| - 1]] + r[..n];
    }
  }

  /** Reversing without the oldest question drops the last entry of the reversal. */
  lemma {:induction false} ReversedDropOldest(qs: seq<string>)
    requires |qs| > 0
    ensures Reversed(qs)[..|qs| - 1] == Reversed(qs[1..])
  {
    if |qs| > 1 {
      var init := qs[..|qs| - 1];
      ReversedDropOldest(init);
      assert qs[1..][..|qs| - 2] == init[1..];
      assert qs[1..][|qs| - 2] == qs[|qs| - 1];
      assert Reversed(qs[1..]) == [qs[|qs| - 1]] + Reversed(init[1..]);
      assert Reversed(qs)[..|qs| - 1] == [qs[|qs| - 1]] + Reversed(init)[..|init| - 1];
    }
  }

  /** After eleven questions the history is the last ten, most recent first: the first question is gone. */
  lemma EleventhDropsOldest(qs: seq<string>)
    requires |qs| == HistoryLimit + 1
    ensures Replay(qs) == Reversed(qs[1..])
  {
    ReplayKeepsMostRecent(qs);
    ReversedDropOldest(qs);
  }

  /** The answer card shows an answer only when the response's answer is truthy. */
  function AnswerText(data: Option<Response>): (a: Option<string>)
    ensures a.Some? ==> a.value != ""
    ensures a.Some? <==> data.Some? && Truthy(data.value.answer)
    ensures a.Some? ==> a == data.value.answer
  {
    if data.Some? && Truthy(data.value.answer) then data.value.answer else None
  }

  /** The placeholder answer is a single section: its whole text is the title, with no content. */
  lemma UnavailableSection()
    ensures SplitSections("System unavailable.") == ["System unavailable."]
    ensures Title("System unavailable.") == "System unavailable."
    ensures Content("System unavailable.") == ""
  {
    var a := "System unavailable.";
    assert '\n' !in a;
    NoNewlineBoundaryFree(a);
    SplitBoundaryFree(a);
    TitleContent(a);
  }

  /** The placeholder title mentions neither "Executive Summary" nor "HBR". */
  lemma UnavailableTitleUnmarked()
    ensures !Contains("System unavailable.", "Executive Summary")
    ensures !Contains("System unavailable.", "HBR")
  {
    var a := "System unavailable.";
    assert 'E' !in a && 'H' !in a;
    MissingFirstChar(a, "Executive Summary");
    MissingFirstChar(a, "HBR");
  }

  /** After a failed request the answer card holds nothing in board mode, and the placeholder section otherwise. */
  lemma UnavailableRendering(boardMode: bool, showHBR: bool, expanded: seq<string>)
    ensures var open := "System unavailable." in expanded;
      RenderSections("System unavailable.", boardMode, showHBR, expanded) ==
        [if boardMode then None
         else Some(SectionView("System unavailable.", open, if open then Some("") else None))]
  {
    UnavailableSection();
    UnavailableTitleUnmarked();
  }

  /** The console component. */
  class Home {
    var question: string
    var data: Option<Response>
    var loading: bool
    var expandedSections: seq<string>
    var history: seq<string>
    var showHBR: bool
    var boardMode: bool

    /** The history is capped and no title is listed twice as expanded. */
    ghost predicate Valid()
      reads this
    {
      |history| <= HistoryLimit && NoDuplicates(expandedSections)
    }

    /** The state on page load. */
    constructor ()
      ensures Valid()
      ensures question == "" && data == None && !loading
      ensures expandedSections == [] && history == []
      ensures showHBR && !boardMode
    {
      question := "";
      data := None;
      loading := false;
      expandedSections := [];
      history := [];
      showHBR := true;
      boardMode := false;
    }

    /** Typing in the question box. */
    method SetQuestion(q: string)
      modifies this`question
      ensures question == q
    {
      question := q;
    }

    /** The "Include HBR" checkbox. */
    method ToggleShowHBR()
      modifies this`showHBR
      ensures showHBR == !old(showHBR)
    {
      showHBR := !showHBR;
    }

    /** The "Board Mode" checkbox. */
    method ToggleBoardMode()
      modifies this`boardMode
      ensures boardMode == !old(boardMode)
    {
      boardMode := !boardMode;
    }

    /** `toggleSection(title)`: a click on a section header. */
    method ToggleSection(title: string)
      requires Valid()
      modifies this`expandedSections
      ensures Valid()
      ensures expandedSections == Toggle(old(expandedSections), title)
      ensures title in expandedSections <==> title !in old(expandedSections)
    {
      ToggleNoDuplicates(expandedSections, title);
      if title in expandedSections {
        expandedSections := RemoveAll(expandedSections, title);
      } else {
        expandedSections := expandedSections + [title];
      }
    }

    /**
     * `handleSubmit`: a blank question changes nothing. Otherwise the request
     * is made; a parsed body becomes the response and the question (untrimmed)
     * heads the history, while a thrown request shows the placeholder and
     * leaves the history alone. Either way loading is over at the end.
     */
    method HandleSubmit(outcome: FetchOutcome)
      requires Valid()
      modifies this`loading, this`data, this`history
      ensures Valid()
      ensures IsBlank(question) ==> unchanged(this)
      ensures !IsBlank(question) ==> !loading
      ensures !IsBlank(question) && outcome.Fetched? ==>
        data == Some(outcome.result) && history == PushHistory(old(history), question)
      ensures !IsBlank(question) && outcome.Thrown? ==>
        data == Some(Unavailable) && history == old(history)
    {
      TrimEmptyIffBlank(question);
      if Trim(question) == "" {
        return;
      }

      loading := true;
      data := None;

      match outcome {
        case Fetched(result) =>
          data := Some(result);
          history := PushHistory(history, question);
        case Thrown =>
          data := Some(Unavailable);
      }

      loading := false;
    }

    /** The answer card: the rendered sections of a truthy answer, under the current filters. */
    function AnswerView(): (v: Option<seq<Option<SectionView>>>)
      reads this
      ensures v.Some? <==> AnswerText(data).Some?
      ensures v.Some? ==> |v.value| == |SplitSections(AnswerText(data).value)|
      ensures v.Some? ==> v.value == RenderSections(AnswerText(data).value, boardMode, showHBR, expandedSections)
    {
      match AnswerText(data)
      case None => None
      case Some(a) => Some(RenderSections(a, boardMode, showHBR, expandedSections))
    }

    /** The sources panel: one card per citation of the response, and none without a list. */
    function SourcesView(): (cards: seq<CitationView>)
      reads this
      ensures data.Some? && data.value.citations.Some? ==>
        |cards| == |data.value.citations.value| &&
        forall k :: 0 <= k < |cards| ==> cards[k] == RenderCitation(data.value.citations.value[k])
      ensures data.None? || data.value.citations.None? ==> cards == []
    {
      var cs := if data.Some? && data.value.citations.Some? then data.value.citations.value else [];
      seq(|cs|, k requires 0 <= k < |cs| => RenderCitation(cs[k]))
    }
  }

  /** In board mode, every section the answer card renders is an "Executive Summary" section. */
  lemma BoardModeAnswerCard(h: Home)
    requires h.boardMode && h.AnswerView().Some?
    ensures forall k :: 0 <= k < |h.AnswerView().value| && h.AnswerView().value[k].Some? ==>
      Contains(h.AnswerView().value[k].value.title, "Executive Summary")
  {
    BoardModeShowsOnlySummaries(AnswerText(h.data).value, h.showHBR, h.expandedSections);
  }

  /** After a failed request the answer card is empty in board mode and holds the placeholder section otherwise. */
  lemma FailedRequestAnswerCard(h: Home)
    requires h.data == Some(Unavailable)
    ensures var open := "System unavailable." in h.expandedSections;
      h.AnswerView() == Some([if h.boardMode then None
        else Some(SectionView("System unavailable.", open, if open then Some("") else None))])
  {
    UnavailableRendering(h.boardMode, h.showHBR, h.expandedSections);
  }
}
