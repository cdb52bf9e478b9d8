/** The two keyboard handlers of the control's hidden text box, which decide what reaches the
    evaluator: text input other than a carriage return is evaluated as typed, and the space bar
    (which never arrives as text input) is evaluated as a single space. */
module Dispatch {
  import opened SlidingText

  datatype Key = Space | OtherKey

  datatype Event =
    | TextInput(input: string)   // a text composition, case sensitive
    | KeyDown(key: Key)          // a key press, seen before the text box handles it

  datatype Option<T> = None | Some(value: T)

  /** The input string an event hands to the evaluator, if any. */
  function Input(e: Event): Option<string> {
    match e
    case TextInput(t) => if t == "\r" then None else Some(t)
    case KeyDown(k) => if k == Space then Some(" ") else None
  }

  /** Delivers one keyboard event to the control. */
  function Handle(c: Control, e: Event): (r: Outcome)
    ensures e == TextInput("\r") ==> r == Ok(c)
    ensures e.KeyDown? && e.key != Space ==> r == Ok(c)
    ensures e.TextInput? && e.input != "\r" && r.Ok? ==>
              r.control.lastInput == e.input
              && (r.control.index == c.index + 1 <==> c.index < |c.text| && e.input == [c.text[c.index]])
    ensures e == KeyDown(Space) && r.Ok? ==>
              r.control.lastInput == " "
              && (r.control.index == c.index + 1 <==> c.index < |c.text| && c.text[c.index] == ' ')
    ensures e.TextInput? && |e.input| > 1 && r.Ok? ==>
              r.control.index == c.index && !r.control.lastCorrect
    ensures r.Ok? ==> r.control.text == c.text && |r.control.runs| == |c.runs|
    ensures r.Ok? ==> r.control.index == c.index || r.control.index == c.index + 1
  {
    match Input(e)
    case None => Ok(c)
    case Some(s) => Evaluate(c.(lastInput := s))
  }

  /** Pressing the space bar has the same effect as typing a space. */
  lemma SpaceKeyIsSpaceText(c: Control)
    ensures Handle(c, KeyDown(Space)) == Handle(c, TextInput(" "))
  {
  }

  /** A wrong keystroke: some input other than the expected character. */
  predicate Wrong(c: Control, e: Event) {
    Input(e).Some? && Input(e).value != "" && !Matches(c.(lastInput := Input(e).value))
  }

  /** Pressing the same wrong key again leaves the whole state as it is. */
  lemma WrongKeystrokeIdempotent(c: Control, e: Event)
    requires Wrong(c, e) && Handle(c, e).Ok?
    ensures Handle(Handle(c, e).control, e) == Handle(c, e)
  {
  }

  /** A carriage return in the text can never be typed: the text box drops it, so the cursor
      stays in front of it whatever is pressed. */
  lemma CarriageReturnBlocks(c: Control, e: Event)
    requires c.index < |c.text| && c.text[c.index] == '\r'
    ensures Handle(c, e).Ok? ==> Handle(c, e).control.index == c.index
  {
  }
}
