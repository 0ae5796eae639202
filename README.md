# textual-wizard: field validation and navigation, in Dafny

This project models the core of `textual-wizard`, a small library that walks a user through an
ordered list of typed questions in a Textual terminal UI and returns a dict of answers keyed by
question name. There are two parts.

- **The field declarations** (`inputs.dfy`, module `Inputs`, after `src/textual_wizard/inputs.py`).
  - The text-like fields `Text`, `Email`, `URL`, `Integer` and `Number` form one `BaseText` class, told
    apart by a `Kind`.
  - Its constructor extends the caller's validator list in place: the class's additional validators
    come after the caller's, and the `Length(1)` "You must provide a value." check comes last unless
    blanks are allowed.
  - `is_value_accepted` accepts a blank value outright when blanks are allowed. Otherwise it reports
    the first validator that refuses the value.
  - `parse_result` returns the default value for an allowed blank. Otherwise it applies the class's
    own parse: the identity, `int`, or `float`.
  - A `Select` takes its first option's value as its default when none is given.
- **The wizard** (`wizard.dfy`, module `Wizard`, after `src/textual_wizard/wizard.py`).
  - `WizardApp` is a class whose fields are what the app changes while it runs: the question index,
    the answers, the error text and label, the Back and Next buttons, the per-question widgets and
    whether the app is still running.
  - Each method is proved to produce the state that a pure transition function (`Watched`,
    `WithError`, `Handled`, `Validated`, `Proceeded`, `Advanced`, `AfterGoto`, `Edited`) gives for the
    old state.
  - The properties are proved as lemmas about those functions. `Consistent` is preserved by every
    transition: only the active widget is shown, Next is disabled exactly while an error is shown, and
    Back exactly at question 0.
  - The other proved properties:
    - a forward move is blocked while the input is invalid, and a backward move never is;
    - an answer is recorded only when moving forward past its question;
    - the exit map has one entry per question;
    - duplicate names are detected while composing.

`wrappers.dfy` holds the `Option` and `Result` types both modules use.

Textual's validators are foreign code. Each is an opaque pair: the predicate it applies, and the first
failure description it reports. Only the `Length(1)` check the field adds itself is given its meaning.
The email check is an opaque predicate standing for the match against `EMAIL_REGEX`, with its fixed
message. The `URL()`, `Integer()` and `Number()` validators are parameters of `Kind`.

Behaviours of the code that the model keeps as written:

- Going back records nothing: `goto` stores the current answer only when
  `question_index >= self.question_index` (wizard.py:109).
- A `Select` default is never checked against its options (inputs.py:244-246).
- In the validator list, the class's additional validator comes before the non-empty check
  (inputs.py:79-88). So an empty email field reports the email message first when the email
  predicate refuses `""`.
- Duplicate names are found while `compose` runs, so the answers and widgets of the earlier questions
  are already registered when `QuestionNameNotUnique` is raised (wizard.py:162-174).
  `Wizard.WizardApp.Compose` states that partial state.
- The UI's validation is Textual's `Input.validate`, which has no blank shortcut. An `allow_blank`
  field whose validators refuse `""` (an `Integer` left blank, say) therefore blocks Next, even though
  `is_value_accepted("")` accepts it. `Wizard.WidgetValidationMatchesAcceptance` states exactly where
  the two agree.

## Model

| member | source | states |
|---|---|---|
| Inputs.AdditionalValidators | src/textual_wizard/inputs.py:163-202 | the validators each class adds: none for `Text`, the email match with "Must be a valid email address." for `Email`, `URL()`, `Integer()`, `Number()`; its place in the composed list is stated by `Inputs.ComposedFailureOrder` |
| Inputs.ClassDefault | src/textual_wizard/inputs.py:145-200 | the class's `default_value`: `""` for the text classes, the int `0` for `Integer` and for `Number`; `Inputs.BaseText.constructor` states when it is used |
| Inputs.ComposeValidators | src/textual_wizard/inputs.py:77-90 | the list `__init__` leaves: the caller's validators, then the class's, then `Length(1)` unless blanks are allowed; `Inputs.ComposedFailureOrder` and `Inputs.RequiredFieldRejectsBlank` state what it means for validation |
| Inputs.OrElse | src/textual_wizard/inputs.py:82-85 | Python's `a or b` on an optional string, where both `None` and `""` fall through |
| Inputs.FirstFailure | src/textual_wizard/inputs.py:127-132 | none is found iff every validator accepts; a found index is in range, refuses the value, and every earlier validator accepts it |
| Inputs.FailureReason | src/textual_wizard/inputs.py:127-130 | no reason iff every validator accepts the value |
| Inputs.Acceptance | src/textual_wizard/inputs.py:124-134 | a blank value is valid when blanks are allowed; otherwise valid iff every validator accepts; an invalid result carries the description of the first refusing validator |
| Inputs.BaseText.IsValueAccepted | src/textual_wizard/inputs.py:117-134 | the loop over the field's validators returns exactly `Acceptance` for its list and blank flag |
| Inputs.FailureReasonAppend | src/textual_wizard/inputs.py:127-132 | the first failure of `a + b` is that of `a` when `a` has one, else that of `b` |
| Inputs.ComposedFailureOrder | src/textual_wizard/inputs.py:77-90 | for the composed list, the caller's validators report first, then the class's, then "You must provide a value." for an empty value; a non-empty value the others accept is valid |
| Inputs.RequiredFieldRejectsBlank | src/textual_wizard/inputs.py:87-88 | a field that refuses blanks refuses `""`, whatever its other validators |
| Inputs.BaseText.constructor | src/textual_wizard/inputs.py:50-91 | a given list object is kept and extended in place to caller + additional + (non-empty check unless blanks allowed); `None` gives a fresh list; placeholder is `placeholder or initial_value or ""`; the initial value is `initial_value or ""`; the default is the given one or the class's |
| Inputs.ParseInt | src/textual_wizard/inputs.py:190-191 | `int(s)` succeeds exactly on an optional sign followed by decimal digits |
| Inputs.ParseIntRoundTrip | src/textual_wizard/inputs.py:190-191 | `int(str(n)) == n` for every integer |
| Inputs.ParseIntTen | tests/test_inputs.py:49 | `int("10") == 10` |
| Inputs.ParseAs | src/textual_wizard/inputs.py:145-205 | identity for Text, Email and URL; for Integer, success iff the text is an integer literal, otherwise `ValueError` on that text; Number reads the float of the text |
| Inputs.BaseText.ParseResult | src/textual_wizard/inputs.py:136-139 | an allowed blank yields the default unchanged; it fails only on an Integer field given non-integer text, with `ValueError` on that text; otherwise the per-class value (a Number field's float error is not modelled) |
| Inputs.IntegerFieldRoundTrip | src/textual_wizard/inputs.py:180-191 | an Integer field parses the decimal text of any integer back to that integer |
| Inputs.AcceptedValueParses | src/textual_wizard/inputs.py:105-115 | a value `is_value_accepted` accepts always parses, given that the Integer validator admits only integer literals and is still in the list |
| Inputs.NewSelect | src/textual_wizard/inputs.py:221-246 | construction succeeds iff a default is given or there is an option; the default is the given one, else the first option's value; otherwise `IndexError` |
| Wizard.ActiveFailure | src/textual_wizard/wizard.py:73-79 | the failure the active widget reports: never one for a `Select`, the first refusing validator's description for an `Input`; `Wizard.Validated` and `Wizard.WidgetValidationMatchesAcceptance` relate it to the source's checks |
| Wizard.AnswerFor | src/textual_wizard/wizard.py:109-119 | the value `goto` stores: a `Select`'s selection, with no selection (`NoSelection`) as `None`, or `parse_result` of an `Input`'s text with its `ValueError`; `Wizard.ProceededForward` and `Wizard.GotoParseFailure` state its effect |
| Wizard.AsWidget | src/textual_wizard/inputs.py:93-103 | `as_widget`: an `Input` holding the initial value and the field's own validator list, or a `Select` on its default value (`Select.as_widget`, inputs.py:248-258); `Wizard.ComposedIsConsistent` proves the resulting widgets match their questions |
| Wizard.Shown | src/textual_wizard/wizard.py:126-136 | hide the active widget, move to the target, show it and disable Back exactly at 0; `Wizard.ShownConsistent` proves it keeps the app consistent |
| Wizard.Advanced | src/textual_wizard/wizard.py:121-136 | past the last question exit with the answers, otherwise `Shown`; `Wizard.ProceededForward` states both outcomes |
| Wizard.Proceeded | src/textual_wizard/wizard.py:105-136 | clear the error, record the answer when moving forward (a parse error crashes the app), then `Advanced`; `Wizard.ProceededConsistent` and `Wizard.ProceededForward` state its properties |
| Wizard.AfterGoto | src/textual_wizard/wizard.py:99-136 | `goto`: validate, stop on a refused forward move, otherwise `Proceeded`; `Wizard.GotoConsistent`, `Wizard.GotoForwardBlocked`, `Wizard.GotoBackward`, `Wizard.GotoForwardRecords` and `Wizard.GotoParseFailure` state its properties |
| Wizard.Edited | src/textual_wizard/wizard.py:58-60 | the active input takes the new text and its validation result is handled; `Wizard.EditedConsistent` states its properties |
| Wizard.Watched | src/textual_wizard/wizard.py:42-56 | without an error: label hidden, Next enabled, active widget not invalid; with one: active widget invalid, label shown with the text, Next disabled; nothing else changes |
| Wizard.WithError | src/textual_wizard/wizard.py:38-40 | the error text becomes the argument; index, answers, status and Back are kept |
| Wizard.Handled | src/textual_wizard/wizard.py:62-71 | true iff the result is absent or passing; the error becomes `None` or the first failure, through `set_error` |
| Wizard.InputValidate | src/textual_wizard/wizard.py:77 | absent iff the input has no validators; passes iff every validator accepts; a failure carries the first refusing validator's description |
| Wizard.Validated | src/textual_wizard/wizard.py:73-79 | true iff the active widget reports no failure; an input's error becomes its failure; a `Select` is left untouched |
| Wizard.SelectAlwaysValid | src/textual_wizard/wizard.py:73-79 | the active `Select` question never fails validation and nothing changes |
| Wizard.WidgetValidationMatchesAcceptance | src/textual_wizard/wizard.py:73-79 | the widget's verdict and message equal `is_value_accepted`'s except on an allowed blank, where the field accepts but the widget still reports any failure |
| Wizard.DuplicateNameFound | src/textual_wizard/wizard.py:164-168 | a name already registered means the names are not unique |
| Wizard.ComposeStep | src/textual_wizard/wizard.py:162-180 | one round of the loop on a new name extends uniqueness, the `None` answers and the widget list by one question |
| Wizard.ComposedIsConsistent | src/textual_wizard/wizard.py:158-180 | after composing unique questions the app is consistent at question 0 |
| Wizard.WithErrorConsistent | src/textual_wizard/wizard.py:38-56 | setting the error keeps the app consistent and keeps every widget's content |
| Wizard.ValidatedConsistent | src/textual_wizard/wizard.py:73-79 | validation keeps the app consistent and keeps every widget's content |
| Wizard.RecordedConsistent | src/textual_wizard/wizard.py:119 | storing the active answer keeps the answer keys equal to the question names |
| Wizard.ShownConsistent | src/textual_wizard/wizard.py:126-136 | hiding the active widget and showing the target keeps the app consistent |
| Wizard.ProceededConsistent | src/textual_wizard/wizard.py:105-136 | the unblocked part of `goto` keeps the app consistent |
| Wizard.GotoConsistent | src/textual_wizard/wizard.py:99-136 | `goto` keeps the app consistent, whichever way it goes |
| Wizard.GotoForwardBlocked | src/textual_wizard/wizard.py:101-103 | a forward move on an invalid input keeps index, answers, status and visibility, and shows the failure with Next disabled |
| Wizard.GotoBackward | src/textual_wizard/wizard.py:105-136 | a backward move is never blocked, clears the error, records nothing and shows only the target, with Back disabled exactly at 0 |
| Wizard.ProceededForward | src/textual_wizard/wizard.py:108-136 | moving forward records the parsed answer under the question's name, keeps every other answer, clears the error, then exits with the answers or shows only the target |
| Wizard.GotoForwardRecords | src/textual_wizard/wizard.py:99-136 | an unblocked forward `goto` records the answer under its name and keeps the others; past the last question it exits with the answers without moving, otherwise it shows only the target |
| Wizard.GotoParseFailure | src/textual_wizard/wizard.py:115-118 | a parse that raises ends the app with that error and records nothing |
| Wizard.ExitedAnswersCoverQuestions | src/textual_wizard/wizard.py:121-124 | the exit result has exactly the question names as keys |
| Wizard.EditedConsistent | src/textual_wizard/wizard.py:58-60 | an edit keeps the app consistent, and the error becomes the new value's first failure |
| Wizard.WizardApp.constructor | src/textual_wizard/wizard.py:19-88 | a fresh app at question 0 with no answers, no error, Back disabled and Next enabled |
| Wizard.WizardApp.Compose | src/textual_wizard/wizard.py:158-180 | raises iff the names are not unique; on success the answers map every name to `None`, there is one widget per question with all but the first hidden, and the app is consistent; on failure, the state holds the questions before the first repeated name |
| Wizard.WizardApp.WatchErrorText | src/textual_wizard/wizard.py:42-56 | the new state is `Watched` of the old one |
| Wizard.WizardApp.SetError | src/textual_wizard/wizard.py:38-40 | the new state is `WithError` of the old: the watcher runs only when the value changes |
| Wizard.WizardApp.HandleValidationResult | src/textual_wizard/wizard.py:62-71 | result and new state are `Handled` of the old state |
| Wizard.WizardApp.ValidateInput | src/textual_wizard/wizard.py:73-79 | result and new state are `Validated` of the old state |
| Wizard.WizardApp.Goto | src/textual_wizard/wizard.py:99-136 | the new state is `AfterGoto` of the old, and the app stays consistent |
| Wizard.WizardApp.Proceed | src/textual_wizard/wizard.py:105-124 | the new state is `Proceeded` of the old |
| Wizard.WizardApp.AdvanceTo | src/textual_wizard/wizard.py:121-136 | the new state is `Advanced` of the old: exit past the end, otherwise move and show |
| Wizard.WizardApp.NextQuestion | src/textual_wizard/wizard.py:138-142 | `goto(question_index + 1)`; the app stays consistent |
| Wizard.WizardApp.PreviousQuestion | src/textual_wizard/wizard.py:144-147 | `goto(question_index - 1)` while Back is enabled; the app stays consistent |
| Wizard.WizardApp.OnInputSubmitted | src/textual_wizard/wizard.py:149-151 | Enter acts as Next |
| Wizard.WizardApp.OnInputChanged | src/textual_wizard/wizard.py:58-60 | the new state is `Edited` of the old, and the app stays consistent |

## Left out

- `inq_ask` and the line-prompt mode are not modelled: they are terminal I/O loops. `Inputs.AcceptedValueParses` states the property that mode relies on.
- `as_widget`'s rendering attributes (placeholder, `input_type`, `border_title`, focus), the `Header`, `Container` and CSS, and Textual's own `-valid`/`-invalid` classes are left out: they are rendering only.
- Inputs.BaseText.ParseResult: a `Number` field never fails here, while `float(value)` raises `ValueError` on non-numeric text (inputs.py:204-205); the same gap as `Inputs.ParseAs` below.
- Inputs.ParseAs: `float(value)` of a `Number` field is kept symbolic as `FloatOf(value)`, and its `ValueError` on non-numeric text is not modelled, because floating point is out of scope.
- Inputs.ParseInt: the whitespace, underscore and non-ASCII digit forms Python's `int` also accepts are not modelled. Only sign and ASCII digits are.
- The meaning of Textual's `URL()`, `Integer()`, `Number()` and `Regex(EMAIL_REGEX)` validators, and their own failure descriptions, are not modelled. That code is foreign, so they are opaque parameters.
- The `Wizard` facade, `set_questions`, `run()` and cancellation (closing the app yields `None`) are left out: they are Textual's app lifecycle. Each run is one fresh `WizardApp`, so `Compose` requires the initial state. The class-level `answers` and `input_widgets` that the source shares between instances are not modelled.
- Changing a `Select`'s selection has no handler in the source. The lemmas hold for any selection in the widget.
- With no questions at all, the mount-time watcher indexes `input_widgets[0]` and fails. `Consistent` requires at least one question.
- The watcher run that Textual performs when the app mounts is left out, since it sets what the initial state already holds.
- Wizard.WizardApp.Goto: `goto(-1)` is excluded by `requires 0 <= target`. It is only reachable by pressing the disabled Back button, which Textual does not deliver.
- Wizard.WizardApp.Goto: calls after the app has exited or crashed are excluded (`status == Running`), because the app no longer processes events then.
- Focus handling, `exit()` tearing down the UI, and the exception itself propagating out of Textual are left out. A raised `ValueError` becomes the `Crashed` status.
