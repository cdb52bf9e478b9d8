/** The keystroke-evaluation state machine of the sliding-text control, without any UI objects.
    Every array access of the control that can fail is modelled: an index out of range raises an
    exception that nothing in the application catches, so it is modelled as a terminal `Crash`. */
module SlidingText {
  import opened Runs

  /** The state of one control. `index` is a process-wide static field in the control; it is
      modelled per control, which is the same thing as long as a single control exists. */
  datatype Control = Control(
    text: string,         // the target text to type
    runs: seq<Run>,       // one run per character, built from the text by InitializeRuns
    index: nat,           // the cursor: the position of the next character to type
    lastCorrect: bool,    // false once a wrong key was pressed at the cursor position
    lastInput: string)    // the last input string handed to the evaluator

  /** Which access went out of range. */
  datatype Site = NextCharRead | RunWrite

  datatype Fault = IndexOutOfRange(site: Site, at: int, length: nat)

  datatype Outcome = Ok(control: Control) | Crash(fault: Fault)

  /** The character to type next, as a one-character string. */
  function NextChar(c: Control): (s: string)
    requires c.index < |c.text|
    ensures |s| == 1 && s[0] == c.text[c.index]
  {
    [c.text[c.index]]
  }

  /** The last input is exactly the character to type next. It compares against the target
      text, never against the display text of the runs. */
  predicate Matches(c: Control) {
    c.index < |c.text| && c.lastInput == NextChar(c)
  }

  /** The evaluation does not run out of bounds: the next character can be read, the run under
      the cursor exists, and on a match so does the run after it. */
  predicate Safe(c: Control) {
    && c.index < |c.text|
    && c.index < |c.runs|
    && (Matches(c) ==> c.index + 1 < |c.runs|)
  }

  /** The input matched: the current run is marked submitted (correct unless a wrong key was
      pressed here before), the next run is marked pending, and the cursor advances. */
  function EvaluateMatch(c: Control): (r: Outcome)
    requires Matches(c)
    ensures r.Crash? <==> c.index + 1 >= |c.runs|
    ensures r.Crash? ==> r.fault.site == RunWrite
    ensures r.Ok? ==> r.control.index == c.index + 1 && r.control.lastCorrect
    ensures r.Ok? ==> r.control.text == c.text && r.control.lastInput == c.lastInput
    ensures r.Ok? ==> |r.control.runs| == |c.runs|
    ensures r.Ok? ==> r.control.runs[c.index].text == c.runs[c.index].text
    ensures r.Ok? && c.lastCorrect ==> r.control.runs[c.index].style == SubmittedCorrect
    ensures r.Ok? && !c.lastCorrect ==> r.control.runs[c.index].style == SubmittedIncorrect
    ensures r.Ok? ==> r.control.runs[c.index + 1] == c.runs[c.index + 1].(style := NextPending)
    ensures r.Ok? ==> forall j :: 0 <= j < |c.runs| && j != c.index && j != c.index + 1 ==>
                        r.control.runs[j] == c.runs[j]
  {
    if c.index >= |c.runs| then
      Crash(IndexOutOfRange(RunWrite, c.index, |c.runs|))
    else
      var submitted := if c.lastCorrect then SubmittedCorrect else SubmittedIncorrect;
      var runs := Restyle(c.runs, c.index, submitted);
      // the pending mark is written to the following run without a bounds check
      if c.index + 1 >= |runs| then
        Crash(IndexOutOfRange(RunWrite, c.index + 1, |runs|))
      else
        Ok(c.(runs := Restyle(runs, c.index + 1, NextPending), index := c.index + 1, lastCorrect := true))
  }

  /** No input yet (right after a refresh): the run under the cursor is marked pending and
      nothing else changes. */
  function EvaluateEmpty(c: Control): (r: Outcome)
    requires c.index < |c.text| && c.lastInput == ""
    ensures r.Crash? <==> c.index >= |c.runs|
    ensures r.Ok? ==> r.control.(runs := c.runs) == c
    ensures r.Ok? ==> |r.control.runs| == |c.runs|
    ensures r.Ok? ==> r.control.runs[c.index] == c.runs[c.index].(style := NextPending)
    ensures r.Ok? ==> forall j :: 0 <= j < |c.runs| && j != c.index ==> r.control.runs[j] == c.runs[j]
  {
    if c.index >= |c.runs| then
      Crash(IndexOutOfRange(RunWrite, c.index, |c.runs|))
    else
      Ok(c.(runs := Restyle(c.runs, c.index, NextPending)))
  }

  /** A wrong key: the flag drops, the run under the cursor is marked incorrect, and an expected
      space is shown as an underscore so that the mistake is visible. The cursor stays. */
  function EvaluateWrong(c: Control): (r: Outcome)
    requires c.index < |c.text| && c.lastInput != "" && !Matches(c)
    ensures r.Crash? <==> c.index >= |c.runs|
    ensures r.Ok? ==> r.control.(runs := c.runs, lastCorrect := true) == c.(lastCorrect := true)
    ensures r.Ok? ==> !r.control.lastCorrect
    ensures r.Ok? ==> |r.control.runs| == |c.runs|
    ensures r.Ok? ==> r.control.runs[c.index].style == NextIncorrect
    ensures r.Ok? && c.text[c.index] == ' ' ==> r.control.runs[c.index].text == "_"
    ensures r.Ok? && c.text[c.index] != ' ' ==> r.control.runs[c.index].text == c.runs[c.index].text
    ensures r.Ok? ==> forall j :: 0 <= j < |c.runs| && j != c.index ==> r.control.runs[j] == c.runs[j]
  {
    if c.index >= |c.runs| then
      Crash(IndexOutOfRange(RunWrite, c.index, |c.runs|))
    else
      var shown := if NextChar(c) == " " then "_" else c.runs[c.index].text;
      Ok(c.(runs := c.runs[c.index := Run(shown, NextIncorrect)], lastCorrect := false))
  }

  /** Evaluates the last input against the character under the cursor. */
  function Evaluate(c: Control): (r: Outcome)
    ensures r.Ok? <==> Safe(c)
    ensures c.index >= |c.text| ==> r == Crash(IndexOutOfRange(NextCharRead, c.index, |c.text|))
    ensures r.Ok? ==> r.control.text == c.text && r.control.lastInput == c.lastInput
    ensures r.Ok? ==> |r.control.runs| == |c.runs|
    ensures r.Ok? && Matches(c) ==> r.control.index == c.index + 1
    ensures r.Ok? && !Matches(c) ==> r.control.index == c.index
  {
    // reading the next character fails past the end of the text
    if c.index >= |c.text| then Crash(IndexOutOfRange(NextCharRead, c.index, |c.text|))
    else if Matches(c) then EvaluateMatch(c)
    else if c.lastInput == "" then EvaluateEmpty(c)
    else EvaluateWrong(c)
  }

  /** A new control before its template is applied: the field initialisers give the cursor at
      the start, the flag set and no input; there are no runs yet. */
  function Initial(text: string): Control {
    Control(text, [], 0, true, "")
  }

  /** Applying the template rebuilds the runs from the current text and keeps everything else:
      the cursor, the flag and the last input are not reset. */
  function ApplyTemplate(c: Control): (r: Control)
    ensures r.(runs := c.runs) == c
    ensures |r.runs| == |c.text|
    ensures forall i :: 0 <= i < |c.text| ==> r.runs[i] == Run([c.text[i]], Unstyled)
  {
    c.(runs := InitializeRuns(c.text))
  }

  /** The state after the template is applied to a new control. */
  function Template(text: string): Control {
    ApplyTemplate(Initial(text))
  }

  /** Once loaded, the control marks the run under the cursor as pending. */
  function Loaded(c: Control): (r: Outcome)
    ensures r.Crash? <==> c.index >= |c.runs|
    ensures r.Ok? ==> r.control.(runs := c.runs) == c && |r.control.runs| == |c.runs|
    ensures r.Ok? ==> r.control.runs[c.index] == c.runs[c.index].(style := NextPending)
    ensures r.Ok? ==> forall j :: 0 <= j < |c.runs| && j != c.index ==> r.control.runs[j] == c.runs[j]
  {
    if c.index >= |c.runs| then Crash(IndexOutOfRange(RunWrite, c.index, |c.runs|))
    else Ok(c.(runs := Restyle(c.runs, c.index, NextPending)))
  }

  /** Resets the control for its current text: fresh runs showing the text, the cursor at the
      start with the first run pending, the flag set and no input. Nothing of the previous state
      survives but the text; an empty text cannot be evaluated and crashes. */
  function Refresh(c: Control): (r: Outcome)
    ensures r.Crash? <==> c.text == []
    ensures r.Crash? ==> r.fault == IndexOutOfRange(NextCharRead, 0, 0)
    ensures r.Ok? ==> r.control.text == c.text && r.control.index == 0
    ensures r.Ok? ==> r.control.lastCorrect && r.control.lastInput == ""
    ensures r.Ok? ==> |r.control.runs| == |c.text|
    ensures r.Ok? ==> forall i :: 0 <= i < |c.text| ==> r.control.runs[i].text == [c.text[i]]
    ensures r.Ok? ==> r.control.runs[0].style == NextPending
    ensures r.Ok? ==> forall i :: 0 < i < |c.text| ==> r.control.runs[i].style == Unstyled
  {
    Evaluate(Template(c.text))
  }

  /** Loading a freshly templated control leaves it in the same state as a refresh does; both
      fail on an empty text (at different accesses). */
  lemma LoadedAgreesWithRefresh(c: Control)
    ensures Loaded(Template(c.text)).Ok? <==> Refresh(c).Ok?
    ensures Refresh(c).Ok? ==> Loaded(Template(c.text)) == Refresh(c)
  {
  }
}
