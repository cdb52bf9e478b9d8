/** Sequences of keyboard events fed to a control, and what typing a whole text does to it. */
module Typing {
  import opened Runs
  import opened SlidingText
  import opened Dispatch
  import opened Layout

  /** The event that types one character: the space bar for a space, text input otherwise. */
  function Keystroke(ch: char): Event {
    if ch == ' ' then KeyDown(Space) else TextInput([ch])
  }

  /** The events that type `s` character by character. */
  function Keystrokes(s: string): (events: seq<Event>)
    ensures |events| == |s|
    ensures forall i :: 0 <= i < |s| ==> events[i] == Keystroke(s[i])
  {
    if s == [] then [] else [Keystroke(s[0])] + Keystrokes(s[1..])
  }

  /** Delivers the events one after another; a crash ends the run. */
  function Feed(handle: (Control, Event) -> Outcome, c: Control, events: seq<Event>): Outcome
    decreases |events|
  {
    if events == [] then Ok(c)
    else
      match handle(c, events[0])
      case Crash(f) => Crash(f)
      case Ok(c1) => Feed(handle, c1, events[1..])
  }

  /** The keystroke for the character under the cursor hands exactly that character to the
      evaluator, unless it is a carriage return, which the text box drops. */
  lemma KeystrokeMatches(c: Control)
    requires c.index < |c.text| && c.text[c.index] != '\r'
    ensures Input(Keystroke(c.text[c.index])) == Some(NextChar(c))
    ensures Matches(c.(lastInput := NextChar(c)))
  {
  }

  /** Typing the rest of the text without a single mistake never gets to the end: matching the
      last character writes to the run after it, which does not exist. */
  lemma {:induction false} TypingToTheEndCrashes(c: Control)
    requires WellFormed(c) && c.index < |c.text|
    requires forall j :: c.index <= j < |c.text| ==> c.text[j] != '\r'
    ensures Feed(Handle, c, Keystrokes(c.text[c.index..]))
            == Crash(IndexOutOfRange(RunWrite, |c.text|, |c.text|))
    decreases |c.text| - c.index
  {
    var e := Keystroke(c.text[c.index]);
    assert Keystrokes(c.text[c.index..]) == [e] + Keystrokes(c.text[c.index + 1..]);
    KeystrokeMatches(c);
    if c.index + 1 < |c.text| {
      HandlePreservesLayout(c, e);
      TypingToTheEndCrashes(Handle(c, e).control);
    }
  }

  /** After a refresh, typing the text without a single mistake crashes on its last character. */
  lemma FlawlessTypingCrashes(c: Control)
    requires c.text != []
    requires forall j :: 0 <= j < |c.text| ==> c.text[j] != '\r'
    ensures Refresh(c).Ok?
    ensures Feed(Handle, Refresh(c).control, Keystrokes(c.text))
            == Crash(IndexOutOfRange(RunWrite, |c.text|, |c.text|))
  {
    RefreshEstablishesLayout(c);
    var c0 := Refresh(c).control;
    assert c0.text[c0.index..] == c.text;
    TypingToTheEndCrashes(c0);
  }

  /** Whatever events arrive, a well-formed control that has not crashed keeps its cursor
      inside the text: the cursor can never pass the last character. */
  lemma {:induction false} CursorNeverReachesEnd(c: Control, events: seq<Event>)
    requires WellFormed(c) && c.index < |c.text|
    ensures Feed(Handle, c, events).Ok? ==>
              WellFormed(Feed(Handle, c, events).control)
              && Feed(Handle, c, events).control.text == c.text
              && Feed(Handle, c, events).control.index < |c.text|
    decreases |events|
  {
    if events != [] && Handle(c, events[0]).Ok? {
      var c1 := Handle(c, events[0]).control;
      HandlePreservesLayout(c, events[0]);
      if Input(events[0]).Some? {
        WellFormedSafety(c.(lastInput := Input(events[0]).value));
      }
      CursorNeverReachesEnd(c1, events[1..]);
    }
  }

  /** After a refresh no sequence of events, with or without mistakes, brings the cursor to the
      end of the text. */
  lemma NoTextCanBeCompleted(c: Control, events: seq<Event>)
    requires c.text != []
    ensures Refresh(c).Ok?
    ensures Feed(Handle, Refresh(c).control, events).Ok? ==>
              Feed(Handle, Refresh(c).control, events).control.index < |c.text|
  {
    RefreshEstablishesLayout(c);
    CursorNeverReachesEnd(Refresh(c).control, events);
  }

  /** The keystrokes a, x, b, c on the text "abc": one mistake at the second character, then the
      rest typed correctly. */
  function AbcWithOneMistake(): seq<Event> {
    [TextInput("a"), TextInput("x"), TextInput("b"), TextInput("c")]
  }

  /** On "abc" the wrong key marks the second character and the final "c" crashes the control. */
  lemma AbcScenarioCrashes(c: Control)
    requires c.text == "abc"
    ensures Refresh(c).Ok?
    ensures Feed(Handle, Refresh(c).control, AbcWithOneMistake()[..3])
            == Ok(Control("abc", [Run("a", SubmittedCorrect), Run("b", SubmittedIncorrect), Run("c", NextPending)],
                          2, true, "b"))
    ensures Feed(Handle, Refresh(c).control, AbcWithOneMistake()) == Crash(IndexOutOfRange(RunWrite, 3, 3))
  {
  }
}
