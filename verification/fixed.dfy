/** The evaluation step as evidently intended: the pending mark is only written when there is a
    following run, so matching the last character completes the text, and keystrokes after the
    end are ignored. Everywhere the original step succeeds the two agree. */
module Fixed {
  import opened Runs
  import opened SlidingText
  import opened Dispatch
  import opened Layout
  import opened Typing

  function EvaluateFixed(c: Control): (r: Outcome)
    ensures c.index >= |c.text| ==> r == Ok(c)
    ensures Evaluate(c).Ok? ==> r == Evaluate(c)
    ensures WellFormed(c) ==> r.Ok? && WellFormed(r.control)
    ensures r.Ok? && c.index < |c.text| ==> (r.control.index == c.index + 1 <==> Matches(c))
    ensures r.Ok? ==> r.control.text == c.text && r.control.lastInput == c.lastInput
  {
    if c.index >= |c.text| then Ok(c)
    else if Matches(c) && c.index + 1 == |c.runs| then
      var submitted := if c.lastCorrect then SubmittedCorrect else SubmittedIncorrect;
      Ok(c.(runs := Restyle(c.runs, c.index, submitted), index := c.index + 1, lastCorrect := true))
    else
      var r := Evaluate(c);
      if r.Ok? && WellFormed(c) then EvaluatePreservesLayout(c); r else r
  }

  function HandleFixed(c: Control, e: Event): (r: Outcome)
    ensures Handle(c, e).Ok? ==> r == Handle(c, e)
    ensures WellFormed(c) ==> r.Ok? && WellFormed(r.control)
    ensures r.Ok? ==> r.control.text == c.text
  {
    match Input(e)
    case None => Ok(c)
    case Some(s) => EvaluateFixed(c.(lastInput := s))
  }

  /** One correct keystroke with the corrected step: the cursor advances, the flag is set, the
      current run is submitted and only the current and the next run change. */
  lemma CorrectKeystrokeFixed(c: Control)
    requires WellFormed(c) && c.index < |c.text| && c.text[c.index] != '\r'
    ensures HandleFixed(c, Keystroke(c.text[c.index])).Ok?
    ensures var d := HandleFixed(c, Keystroke(c.text[c.index])).control;
            && d.text == c.text && d.index == c.index + 1 && d.lastCorrect && WellFormed(d)
            && d.runs[c.index] == c.runs[c.index].(style := if c.lastCorrect then SubmittedCorrect else SubmittedIncorrect)
            && (forall j :: 0 <= j < |c.runs| && j != c.index + 1 ==> d.runs[j].text == c.runs[j].text)
            && (c.index + 1 < |c.runs| ==> d.runs[c.index + 1].text == c.runs[c.index + 1].text)
            && (forall j :: 0 <= j < c.index ==> d.runs[j] == c.runs[j])
  {
  }

  /** Typing the rest of the text without a mistake brings the cursor to the end: every
      remaining run is submitted, correct except the current one if it was mistyped before,
      and nothing before the cursor or in the display texts changes. */
  lemma {:induction false} TypingCompletes(c: Control)
    requires WellFormed(c)
    requires forall j :: c.index <= j < |c.text| ==> c.text[j] != '\r'
    ensures Feed(HandleFixed, c, Keystrokes(c.text[c.index..])).Ok?
    ensures var d := Feed(HandleFixed, c, Keystrokes(c.text[c.index..])).control;
            && d.text == c.text && d.index == |c.text| && WellFormed(d)
            && (forall j :: 0 <= j < c.index ==> d.runs[j] == c.runs[j])
            && (forall j :: c.index <= j < |c.text| ==> d.runs[j].text == c.runs[j].text)
            && (forall j :: c.index < j < |c.text| ==> d.runs[j].style == SubmittedCorrect)
            && (c.index < |c.text| ==> d.lastCorrect)
            && (c.index < |c.text| ==>
                  d.runs[c.index].style == if c.lastCorrect then SubmittedCorrect else SubmittedIncorrect)
    decreases |c.text| - c.index
  {
    if c.index < |c.text| {
      var e := Keystroke(c.text[c.index]);
      var rest := Keystrokes(c.text[c.index + 1..]);
      assert Keystrokes(c.text[c.index..]) == [e] + rest;
      CorrectKeystrokeFixed(c);
      var c1 := HandleFixed(c, e).control;
      assert Feed(HandleFixed, c, [e] + rest) == Feed(HandleFixed, c1, rest);
      assert c1.text[c1.index..] == c.text[c.index + 1..];
      TypingCompletes(c1);
    } else {
      assert Keystrokes(c.text[c.index..]) == [];
    }
  }

  /** After a refresh, typing the whole text without a mistake completes it with every
      character submitted correctly and shown as itself. */
  lemma FlawlessTypingFinishes(c: Control)
    requires c.text != []
    requires forall j :: 0 <= j < |c.text| ==> c.text[j] != '\r'
    ensures Refresh(c).Ok?
    ensures Feed(HandleFixed, Refresh(c).control, Keystrokes(c.text)).Ok?
    ensures var d := Feed(HandleFixed, Refresh(c).control, Keystrokes(c.text)).control;
            && d.text == c.text && |d.runs| == |c.text| && d.index == |c.text| && d.lastCorrect
            && forall j :: 0 <= j < |c.text| ==> d.runs[j] == Run([c.text[j]], SubmittedCorrect)
  {
    RefreshEstablishesLayout(c);
    var c0 := Refresh(c).control;
    assert c0.text[c0.index..] == c.text;
    TypingCompletes(c0);
  }

  /** With the corrected step the same keystrokes on "abc" complete the text, the second
      character marked as submitted after a mistake. */
  lemma AbcScenarioCompletes(c: Control)
    requires c.text == "abc"
    ensures Refresh(c).Ok?
    ensures Feed(HandleFixed, Refresh(c).control, AbcWithOneMistake())
            == Ok(Control("abc", [Run("a", SubmittedCorrect), Run("b", SubmittedIncorrect), Run("c", SubmittedCorrect)],
                          3, true, "c"))
  {
  }
}
