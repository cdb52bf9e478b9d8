/** The per-character runs of the sliding text: each character of the target text is shown as
    one run carrying a display text and a style. The five styles stand in for the WPF `Style`
    objects the control builds (a run with no style at all is `Unstyled`). */
module Runs {

  datatype Style = Unstyled | NextPending | NextIncorrect | SubmittedCorrect | SubmittedIncorrect {

    /** The styles of a position the cursor has already passed. */
    predicate IsSubmitted() {
      this == SubmittedCorrect || this == SubmittedIncorrect
    }

    /** The styles of the position under the cursor. */
    predicate IsNext() {
      this == NextPending || this == NextIncorrect
    }
  }

  datatype Run = Run(text: string, style: Style)

  /** Builds one fresh, unstyled run per character of `text`, in order, the run at position i
      showing exactly the i-th character. */
  function InitializeRuns(text: string): (runs: seq<Run>)
    ensures |runs| == |text|
    ensures forall i :: 0 <= i < |text| ==> runs[i].text == [text[i]] && runs[i].style == Unstyled
  {
    if text == [] then []
    else InitializeRuns(text[..|text| - 1]) + [Run([text[|text| - 1]], Unstyled)]
  }

  /** The runs with the style of position i replaced (its display text is kept). */
  function Restyle(runs: seq<Run>, i: nat, style: Style): seq<Run>
    requires i < |runs|
  {
    runs[i := runs[i].(style := style)]
  }
}
