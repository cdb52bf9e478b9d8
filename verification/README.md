# QWERTY sliding-text control: keystroke evaluation in Dafny

A headless model of the typing-practice control `SlidingText`. The control shows a target text
as one run per character, listens to a hidden text box, and styles each run as the user types:
the character to type next is marked pending (or incorrect after a wrong key), typed characters
are marked submitted correct or submitted incorrect, and an expected space that was mistyped is
shown as `_`. Here the control is an immutable `Control` value (text, runs, cursor, last-input
flag, last input string), and every handler is a pure function from a control to an `Outcome`.

The C# code indexes its arrays without bounds checks, and nothing in the application catches the
resulting `IndexOutOfRangeException`. The model therefore does not forbid those inputs with
preconditions. Each out-of-range access is an explicit `Crash(IndexOutOfRange(site, at, length))`,
and the contracts say exactly when it happens.

Modules, one per concern of the control:

- `Runs` (`runs.dfy`): the five run styles, the run record, building the runs for a text.
- `SlidingText` (`sliding_text.dfy`): the control state, `_nextChar`, the three branches of
  `EvaulateInput`, applying the template, `Loaded` and `Refresh`.
- `Dispatch` (`dispatch.dfy`): the `PreviewTextInput` and `PreviewKeyDown` handlers as one
  event handler.
- `Layout` (`layout.dfy`): the style-layout and display invariants and their preservation.
- `Typing` (`typing.dfy`): feeding event sequences; typing a whole text with the code as written.
- `Fixed` (`fixed.dfy`): the corrected step (see Findings) and typing a whole text with it.

The cursor is a `static` field in the control, so all controls in a process share it. The
model keeps it per control. That is the same thing while only one control exists, which is
how the application uses it.

## Model

| member | source | states |
|---|---|---|
| Runs.InitializeRuns | Source/QUERTY.SlidingTextControl/SlidingText.cs:228-240 | exactly one run per character of the text, in order; run i shows the i-th character and has no style |
| SlidingText.NextChar | Source/QUERTY.SlidingTextControl/SlidingText.cs:71 | the next character is the one-character string of the text at the cursor; it exists only while the cursor is inside the text |
| SlidingText.EvaluateMatch | Source/QUERTY.SlidingTextControl/SlidingText.cs:332-347 | on a match the cursor advances by exactly one and the flag is set. The current run becomes SubmittedCorrect if the flag was set and SubmittedIncorrect if not. The next run becomes NextPending and no other run changes. The step crashes exactly when there is no run after the current one, because that write is unguarded |
| SlidingText.EvaluateEmpty | Source/QUERTY.SlidingTextControl/SlidingText.cs:350-354 | with no input yet, only the style of the run under the cursor changes, to NextPending; every other field and run is unchanged |
| SlidingText.EvaluateWrong | Source/QUERTY.SlidingTextControl/SlidingText.cs:355-363 | on a non-empty wrong input the flag drops, the cursor stays, and the run under the cursor becomes NextIncorrect. It shows `_` when a space was expected and keeps its text otherwise. No other run changes |
| SlidingText.Evaluate | Source/QUERTY.SlidingTextControl/SlidingText.cs:330-365 | succeeds exactly when the next character and the runs it writes are in range. Past the end of the text it crashes on reading the next character. The cursor moves by one on a match and otherwise not at all. The text and the input are never changed |
| SlidingText.Loaded | Source/QUERTY.SlidingTextControl/SlidingText.cs:275-278 | marks only the run under the cursor as NextPending; it crashes when the cursor is past the runs |
| SlidingText.Refresh | Source/QUERTY.SlidingTextControl/SlidingText.cs:252-266 | resets the cursor to 0, sets the flag and clears the input. It rebuilds one run per character showing that character, which undoes every `_`. Run 0 is NextPending and the rest are unstyled. It crashes exactly when the text is empty |
| SlidingText.ApplyTemplate | Source/QUERTY.SlidingTextControl/SlidingText.cs:180-191 | applying the template rebuilds one unstyled run per character of the current text, each showing its own character. It keeps the cursor, the flag and the last input, which it never resets. On a new control these come from the field initialisers at lines 52, 67 and 81 |
| SlidingText.LoadedAgreesWithRefresh | Source/QUERTY.SlidingTextControl/SlidingText.cs:191-278 | loading a freshly templated control and refreshing it give the same state, and both fail on an empty text |
| Dispatch.Handle | Source/QUERTY.SlidingTextControl/SlidingText.cs:285-310 | a text input of `"\r"` and any key other than space leave the state unchanged. Any other text is evaluated as typed: the cursor advances iff it equals the next character, so a multi-character input never advances and drops the flag. The space key is evaluated as `" "` |
| Dispatch.SpaceKeyIsSpaceText | Source/QUERTY.SlidingTextControl/SlidingText.cs:302-310 | pressing the space key has the same effect as the text input `" "` |
| Dispatch.WrongKeystrokeIdempotent | Source/QUERTY.SlidingTextControl/SlidingText.cs:355-363 | delivering the same wrong keystroke twice gives the same whole state as delivering it once |
| Dispatch.CarriageReturnBlocks | Source/QUERTY.SlidingTextControl/SlidingText.cs:285-293 | when the expected character is a carriage return, no event moves the cursor |
| Layout.RefreshEstablishesLayout | Source/QUERTY.SlidingTextControl/SlidingText.cs:252-266 | a refresh of a non-empty text yields a well-formed control with no `_` substitutions |
| Layout.WellFormedSafety | Source/QUERTY.SlidingTextControl/SlidingText.cs:332-346 | on a well-formed control, evaluation crashes exactly when the cursor is past the text or the last character is matched |
| Layout.EvaluatePreservesLayout | Source/QUERTY.SlidingTextControl/SlidingText.cs:330-365 | every successful step keeps the layout: runs before the cursor submitted, the run at the cursor NextPending or NextIncorrect, runs after it unstyled, each run showing its character or `_` for a space |
| Layout.HandlePreservesLayout | Source/QUERTY.SlidingTextControl/SlidingText.cs:285-310 | every successfully handled keyboard event keeps that layout |
| Layout.ReapplyingTemplateLosesLayout | Source/QUERTY.SlidingTextControl/SlidingText.cs:180-191 | applying the template again to a well-formed control past its first character keeps the cursor, but the typed runs become unstyled, so the style layout no longer holds |
| Layout.UnderscoreOnlyForMistypedSpace | Source/QUERTY.SlidingTextControl/SlidingText.cs:358-361 | a run's display text changes only at the cursor, only to `_`, only when a space is expected and a non-empty wrong input was given |
| Layout.DisplayTextIrrelevant | Source/QUERTY.SlidingTextControl/SlidingText.cs:332 | two controls that differ only in their runs' display texts evaluate alike. They succeed or fail together and end with the same cursor, flag and styles, so a `_` never affects correctness |
| Typing.KeystrokeMatches | Source/QUERTY.SlidingTextControl/SlidingText.cs:285-310 | the keystroke for any expected character other than a carriage return hands exactly that character to the evaluator, which then matches |
| Typing.TypingToTheEndCrashes | Source/QUERTY.SlidingTextControl/SlidingText.cs:344 | typing the rest of the text without a mistake, from any well-formed control, always crashes on the last character, writing one past the runs |
| Typing.FlawlessTypingCrashes | Source/QUERTY.SlidingTextControl/SlidingText.cs:344 | after a refresh, typing a non-empty text without a mistake crashes on its last character |
| Typing.CursorNeverReachesEnd | Source/QUERTY.SlidingTextControl/SlidingText.cs:330-365 | from a well-formed control with the cursor inside the text, any sequence of events that does not crash leaves the control well-formed, with the same text and the cursor still inside it |
| Typing.NoTextCanBeCompleted | Source/QUERTY.SlidingTextControl/SlidingText.cs:252-266 | after a refresh of a non-empty text, no sequence of events, with or without mistakes, brings the cursor to the end of the text without crashing |
| Typing.AbcScenarioCrashes | Source/QUERTY.SlidingTextControl/SlidingText.cs:330-365 | on "abc", keys a, x, b give cursor 2 with styles SubmittedCorrect, SubmittedIncorrect, NextPending; the final c crashes |
| Fixed.EvaluateFixed | Source/QUERTY.SlidingTextControl/SlidingText.cs:330-365 | agrees with the original step wherever that succeeds. It never fails on a well-formed control and keeps it well-formed. It ignores input once the cursor is past the end |
| Fixed.HandleFixed | Source/QUERTY.SlidingTextControl/SlidingText.cs:285-310 | agrees with the original handler wherever that succeeds, and never fails on a well-formed control |
| Fixed.CorrectKeystrokeFixed | Source/QUERTY.SlidingTextControl/SlidingText.cs:332-346 | with the corrected step, one correct keystroke advances the cursor by one and sets the flag. It submits the current run, keeps the control well-formed and changes no earlier run and no display text |
| Fixed.TypingCompletes | Source/QUERTY.SlidingTextControl/SlidingText.cs:332-346 | with the corrected step, typing the rest of the text without a mistake brings the cursor to the end. Every remaining run is submitted: correct, except the current one if it was mistyped before. Earlier runs and display texts are unchanged |
| Fixed.FlawlessTypingFinishes | Source/QUERTY.SlidingTextControl/SlidingText.cs:252-266 | with the corrected step, typing the whole text after a refresh finishes with every run SubmittedCorrect and showing its own character |
| Fixed.AbcScenarioCompletes | Source/QUERTY.SlidingTextControl/SlidingText.cs:330-365 | with the corrected step, the keys a, x, b, c complete "abc" with styles SubmittedCorrect, SubmittedIncorrect, SubmittedCorrect |

## Left out

- Rendering and animation (`AnimateTextBlockSlide`, `AnimateToStart`, `MeasureString`, the slid distance and character width): floating-point layout and animation timing against the UI framework. They write no evaluation state, but the slide animation can throw. On a match it runs between the pending-mark write and the cursor increment (line 345). At line 382 it builds a duration from `SlideTimeMS * timeFactor`. The factor is negative when the margin is still further left than the slid distance, for example while the 500 ms animation back to the start (line 400) is running after a refresh. It is infinite when the two are equal. Either case throws and ends the process. This crash path is not modelled: `EvaluateMatch` returns `Ok` whenever the runs it writes exist.
- The UI plumbing: the style and brush objects (replaced by the `Style` enumeration), the dependency properties, the template part lookup, the event hookup, the inline collection of the text block, and the `TextChanged` handler that clears the text box (it changes no evaluation state).
- Sharing of the static cursor between several controls: the cursor is modelled per control.
- The template's runs are added to the text block's inline collection without clearing it (line 238). Re-applying the template to a control part-way through a text keeps the cursor and flag, as `SlidingText.ApplyTemplate` states. The runs come back unstyled, so the style layout no longer holds until the next `Refresh` (`Layout.ReapplyingTemplateLosesLayout`). The template's duplicated inlines are display only and not modelled.
- State left behind by a crash: an exception can leave a write half done, for example the current run submitted while the cursor has not advanced. Nothing catches the exception, so the process ends and `Crash` is terminal.
- A `null` text and a null run array: strings are always values here.
- UTF-16: the text is modelled as a sequence of Unicode scalar values (Dafny `char`). A character outside the Basic Multilingual Plane is not modelled. In C# it is two `char`s and so two runs, and neither half can ever be matched by a one-character input.
- The view models, commands, application start-up, result control and value converters: binding, command and start-up glue and floating-point width arithmetic, with no evaluation logic. The length guard in `UpdateCommand` is not wired to the refresh command, so `Refresh` is modelled for every text, the empty one included.
- Mistake counting, a finished signal and typing statistics: the control has none of these, so none is modelled.

## Findings

| source | as written | input that shows it | evidently intended | confidence | as-written member | corrected member |
|---|---|---|---|---|---|---|
| Source/QUERTY.SlidingTextControl/SlidingText.cs:344 | on a match the next run is marked pending through `_textAsRuns[_index + 1]` with no bounds check | any non-empty text typed correctly to its last character, e.g. text "a" and the key a after a refresh: the write goes to index 1 of a one-run array | mark the next run only when there is one, so the cursor reaches the end of the text; ignore keystrokes once it has | not executed; high | Typing.TypingToTheEndCrashes | Fixed.TypingCompletes |
