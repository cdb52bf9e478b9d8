/** The shape every reachable control keeps: the runs line up with the text, the positions
    before the cursor are submitted, the one under it is marked next, the ones after it are
    unstyled, and every run shows its own character (or an underscore for a space). */
module Layout {
  import opened Runs
  import opened SlidingText
  import opened Dispatch

  predicate StyleLayout(c: Control) {
    && |c.runs| == |c.text|
    && c.index <= |c.text|
    && (forall j :: 0 <= j < c.index ==> c.runs[j].style.IsSubmitted())
    && (c.index < |c.runs| ==> c.runs[c.index].style.IsNext())
    && (forall j :: c.index < j < |c.runs| ==> c.runs[j].style == Unstyled)
  }

  /** Run j shows the j-th character, except that an expected space that was mistyped is shown
      as an underscore. */
  predicate DisplayFaithful(c: Control) {
    && |c.runs| == |c.text|
    && forall j :: 0 <= j < |c.runs| ==>
         c.runs[j].text == [c.text[j]] || (c.text[j] == ' ' && c.runs[j].text == "_")
  }

  predicate WellFormed(c: Control) {
    StyleLayout(c) && DisplayFaithful(c)
  }

  /** A refresh yields a well-formed control with the cursor at the start and no underscores. */
  lemma RefreshEstablishesLayout(c: Control)
    requires c.text != []
    ensures Refresh(c).Ok? && WellFormed(Refresh(c).control)
    ensures forall j :: 0 <= j < |c.text| ==> Refresh(c).control.runs[j].text == [c.text[j]]
  {
  }

  /** On a well-formed control the evaluation stays in bounds everywhere except when the last
      character is matched, where the write to the following run falls off the end. */
  lemma WellFormedSafety(c: Control)
    requires WellFormed(c)
    ensures Evaluate(c).Ok? <==> c.index < |c.text| && !(Matches(c) && c.index + 1 == |c.text|)
  {
  }

  /** Every successful evaluation step keeps a control well-formed. */
  lemma EvaluatePreservesLayout(c: Control)
    requires WellFormed(c) && Evaluate(c).Ok?
    ensures WellFormed(Evaluate(c).control)
  {
  }

  /** Every successfully handled keyboard event keeps a control well-formed. */
  lemma HandlePreservesLayout(c: Control, e: Event)
    requires WellFormed(c) && Handle(c, e).Ok?
    ensures WellFormed(Handle(c, e).control)
  {
  }

  /** Only the run under the cursor can change what it shows, only to an underscore, and only
      when a space was expected and something else was typed. */
  lemma UnderscoreOnlyForMistypedSpace(c: Control, j: nat)
    requires Evaluate(c).Ok? && j < |c.runs|
    requires Evaluate(c).control.runs[j].text != c.runs[j].text
    ensures j == c.index && c.text[j] == ' ' && Evaluate(c).control.runs[j].text == "_"
    ensures c.lastInput != "" && !Matches(c)
  {
  }

  /** Two controls that differ only in what their runs display evaluate alike: the display
      text never takes part in deciding a match. */
  lemma DisplayTextIrrelevant(c: Control, d: Control)
    requires d.text == c.text && d.index == c.index && d.lastCorrect == c.lastCorrect
    requires d.lastInput == c.lastInput && |d.runs| == |c.runs|
    requires forall j :: 0 <= j < |c.runs| ==> d.runs[j].style == c.runs[j].style
    ensures Evaluate(d).Ok? <==> Evaluate(c).Ok?
    ensures Evaluate(c).Ok? ==>
              && Evaluate(d).control.index == Evaluate(c).control.index
              && Evaluate(d).control.lastCorrect == Evaluate(c).control.lastCorrect
              && forall j :: 0 <= j < |c.runs| ==>
                   Evaluate(d).control.runs[j].style == Evaluate(c).control.runs[j].style
  {
  }

  /** Re-applying the template part-way through a text keeps the cursor but unstyles the runs
      already typed, so the style layout is lost. */
  lemma ReapplyingTemplateLosesLayout(c: Control)
    requires WellFormed(c) && c.index > 0
    ensures ApplyTemplate(c).index == c.index
    ensures !StyleLayout(ApplyTemplate(c))
  {
    assert ApplyTemplate(c).runs[0].style == Unstyled;
  }
}
