/**
  The navigation state machine of the wizard (`WizardApp` in `textual_wizard/wizard.py`).

  The app shows one question at a time. `goto` is its only transition: a forward move is refused
  while the active input does not validate, a backward move never is, the answer of a question is
  recorded only when moving forward past it, and moving forward past the last question ends the
  run with the answers. The widgets are reduced to the flags the app changes on them (hidden,
  invalid, disabled), and the reactive `error_text` watcher to an explicit update.
 */
module Wizard {
  import opened Wrappers
  import opened Inputs

  /** The `answers` dict: question name to parsed value, or `None`. */
  type Answers = map<string, Option<Value>>

  /** A non-absent result of Textual's `Input.validate`. */
  datatype InputValidation = Passed | Failed(firstDescription: string)

  /** What a widget holds: an `Input` with its text and its copy of the field's validators, or a `Select`. */
  datatype Control = InputControl(value: string, validators: seq<Validator>) | SelectControl(selection: Option<Value>)

  /** An input widget with the `hidden` and `invalid` CSS classes the app toggles on it. */
  datatype Widget = Widget(control: Control, hidden: bool, invalid: bool)

  /** Whether the app is still running, has exited with its answers, or died of an exception. */
  datatype Status = Running | Exited(result: Answers) | Crashed(error: ParseError)

  /** `QuestionNameNotUnique`, raised while composing. */
  datatype ComposeError = QuestionNameNotUnique(name: string)

  /** Everything `WizardApp` changes while it runs. */
  datatype AppState = AppState(
    questionIndex: int,
    answers: Answers,
    errorText: Option<string>,
    errorLabel: string,
    errorLabelHidden: bool,
    backDisabled: bool,
    nextDisabled: bool,
    widgets: seq<Widget>,
    status: Status)

  /** The class attributes' values: at question 0, no answers, no error, Back disabled and Next enabled. */
  const InitialState: AppState :=
    AppState(0, map[], None, "", true, true, false, [], Running)

  /** `active_input` exists. */
  predicate HasActive(s: AppState)
  {
    0 <= s.questionIndex < |s.widgets|
  }

  /** The names of the first `n` questions. */
  function NamesBefore(qs: seq<Question>, n: nat): set<string>
    requires n <= |qs|
  {
    if n == 0 then {} else NamesBefore(qs, n - 1) + {qs[n - 1].Name()}
  }

  /** The set of question names. */
  function NameSet(qs: seq<Question>): set<string>
  {
    NamesBefore(qs, |qs|)
  }

  lemma {:induction false} NamesBeforeMembers(qs: seq<Question>, n: nat, name: string)
    requires n <= |qs|
    ensures name in NamesBefore(qs, n) <==> exists k :: 0 <= k < n && qs[k].Name() == name
  {
    if n > 0 {
      NamesBeforeMembers(qs, n - 1, name);
    }
  }

  /** No two of the first `n` questions share a name. */
  predicate UniqueBefore(qs: seq<Question>, n: nat)
    requires n <= |qs|
  {
    forall a, b :: 0 <= a < b < n ==> qs[a].Name() != qs[b].Name()
  }

  /** No two questions share a name. */
  predicate UniqueNames(qs: seq<Question>)
  {
    UniqueBefore(qs, |qs|)
  }

  /** The names of the first `n` questions mapped to `None`. */
  function AnswersBefore(qs: seq<Question>, n: nat): Answers
    requires n <= |qs|
  {
    map name | name in NamesBefore(qs, n) :: None
  }

  /** Every question name mapped to `None`. */
  function InitialAnswers(qs: seq<Question>): Answers
  {
    AnswersBefore(qs, |qs|)
  }

  /** The validator lists of the text questions. */
  function Footprint(qs: seq<Question>): set<object>
  {
    set k | 0 <= k < |qs| && qs[k].TextField? :: qs[k].field.validators
  }

  /** `as_widget`: an `Input` holding the initial value, or a `Select` on its default value. */
  function AsWidget(q: Question): Widget
    reads if q.TextField? then {q.field.validators} else {}
  {
    match q
    case TextField(f) => Widget(InputControl(f.initialValue, f.validators.items), false, false)
    case SelectField(sel) => Widget(SelectControl(Some(sel.defaultValue)), false, false)
  }

  /** The widgets `compose` builds for the first `n` questions: in order, all but the first hidden. */
  ghost predicate WidgetsBefore(qs: seq<Question>, n: nat, ws: seq<Widget>)
    requires n <= |qs|
    reads Footprint(qs)
  {
    && |ws| == n
    && forall k :: 0 <= k < n ==> ws[k] == AsWidget(qs[k]).(hidden := k != 0)
  }

  /** The widgets `compose` builds for `qs`: one per question. */
  ghost predicate WidgetsFor(qs: seq<Question>, ws: seq<Widget>)
    reads Footprint(qs)
  {
    WidgetsBefore(qs, |qs|, ws)
  }

  /**
    The invariant of a composed app: one widget per question, of the question's own type; only the
    active widget is visible, and only it can be marked invalid, exactly while an error is shown;
    Next is disabled and the error label visible exactly while there is an error; Back is disabled
    exactly at the first question; and the answers have the question names as their keys.
   */
  ghost predicate Consistent(qs: seq<Question>, s: AppState)
  {
    && |qs| > 0 && |s.widgets| == |qs|
    && 0 <= s.questionIndex < |qs|
    && (forall k :: 0 <= k < |qs| ==> s.widgets[k].hidden == (k != s.questionIndex))
    && (forall k :: 0 <= k < |qs| ==> s.widgets[k].invalid == (k == s.questionIndex && s.errorText.Some?))
    && (forall k :: 0 <= k < |qs| ==> (s.widgets[k].control.SelectControl? <==> qs[k].SelectField?))
    && s.nextDisabled == s.errorText.Some?
    && s.errorLabelHidden == s.errorText.None?
    && (s.errorText.Some? ==> s.errorLabel == s.errorText.value)
    && s.backDisabled == (s.questionIndex == 0)
    && UniqueNames(qs)
    && s.answers.Keys == NameSet(qs)
  }

  /**
    `watch_error_text`: without an error, the label is hidden, Next enabled and the active input
    normal; with one, the active input is marked invalid, the label shows the error and Next is
    disabled. Nothing else changes.
   */
  function Watched(s: AppState): (t: AppState)
    requires HasActive(s)
    ensures t.nextDisabled == s.errorText.Some? && t.errorLabelHidden == s.errorText.None?
    ensures t.errorLabel == if s.errorText.Some? then s.errorText.value else s.errorLabel
    ensures |t.widgets| == |s.widgets| && t.widgets[s.questionIndex].invalid == s.errorText.Some?
    ensures forall k :: 0 <= k < |s.widgets| && k != s.questionIndex ==> t.widgets[k] == s.widgets[k]
    ensures t.widgets[s.questionIndex].control == s.widgets[s.questionIndex].control
    ensures t.widgets[s.questionIndex].hidden == s.widgets[s.questionIndex].hidden
    ensures t.(nextDisabled := s.nextDisabled, errorLabelHidden := s.errorLabelHidden,
               errorLabel := s.errorLabel, widgets := s.widgets) == s
  {
    var i := s.questionIndex;
    var w := s.widgets[i];
    if s.errorText.None? then
      s.(errorLabelHidden := true, nextDisabled := false, widgets := s.widgets[i := w.(invalid := false)])
    else
      s.(widgets := s.widgets[i := w.(invalid := true)], errorLabelHidden := false,
         errorLabel := s.errorText.value, nextDisabled := true)
  }

  /** `set_error`: the reactive attribute runs its watcher only when its value changes. */
  function WithError(s: AppState, error: Option<string>): (t: AppState)
    requires HasActive(s)
    ensures t.errorText == error && t.questionIndex == s.questionIndex && |t.widgets| == |s.widgets|
    ensures t.answers == s.answers && t.status == s.status && t.backDisabled == s.backDisabled
  {
    if error == s.errorText then s else Watched(s.(errorText := error))
  }

  /** `handle_validation_result`: an absent or passing result clears the error and gives true. */
  function Handled(s: AppState, vr: Option<InputValidation>): (r: (bool, AppState))
    requires HasActive(s)
    ensures r.0 <==> vr.None? || vr.value.Passed?
    ensures r.1.errorText == if r.0 then None else Some(vr.value.firstDescription)
    ensures r.1 == WithError(s, r.1.errorText)
  {
    if vr.None? || vr.value.Passed? then (true, WithError(s, None))
    else (false, WithError(s, Some(vr.value.firstDescription)))
  }

  /**
    Textual's `Input.validate` on an input whose validators are `vs`: absent when there are none;
    otherwise every validator runs and the first description of the first failure is reported.
    Unlike `is_value_accepted`, it has no blank shortcut.
   */
  function InputValidate(vs: seq<Validator>, value: string): (r: Option<InputValidation>)
    ensures r.None? <==> |vs| == 0
    ensures r.Some? ==> (r.value.Passed? <==> FailureReason(vs, value).None?)
    ensures r.Some? && r.value.Failed? ==> FailureReason(vs, value) == Some(r.value.firstDescription)
  {
    if |vs| == 0 then None
    else match FailureReason(vs, value)
      case None => Some(Passed)
      case Some(d) => Some(Failed(d))
  }

  /** The failure the active widget reports when validated: never one for a `Select`. */
  function ActiveFailure(s: AppState): Option<string>
    requires HasActive(s)
  {
    match s.widgets[s.questionIndex].control
    case SelectControl(_) => None
    case InputControl(value, vs) => FailureReason(vs, value)
  }

  /** `validate_input`: an `Input` is validated and its result handled; a `Select` passes untouched. */
  function Validated(s: AppState): (r: (bool, AppState))
    requires HasActive(s)
    ensures r.0 <==> ActiveFailure(s).None?
    ensures r.1.questionIndex == s.questionIndex && |r.1.widgets| == |s.widgets|
    ensures r.1.answers == s.answers && r.1.status == s.status && r.1.backDisabled == s.backDisabled
    ensures s.widgets[s.questionIndex].control.InputControl? ==> r.1.errorText == ActiveFailure(s)
    ensures s.widgets[s.questionIndex].control.SelectControl? ==> r.1 == s
  {
    match s.widgets[s.questionIndex].control
    case SelectControl(_) => (true, s)
    case InputControl(value, vs) => Handled(s, InputValidate(vs, value))
  }

  /**
    The value recorded for a question from its widget: the selection of a `Select` (`None` for no
    selection), `parse_result` of the text of an `Input`, `None` when question and widget disagree.
   */
  function AnswerFor(q: Question, c: Control): Result<Option<Value>, ParseError>
  {
    match q
    case SelectField(_) =>
      (match c
       case SelectControl(selection) => Success(selection)
       case InputControl(value, _) => Success(Some(Str(value))))
    case TextField(f) =>
      (match c
       case SelectControl(_) => Success(None)
       case InputControl(value, _) =>
         (match f.ParseResult(value)
          case Success(v) => Success(Some(v))
          case Failure(e) => Failure(e)))
  }

  /** Hides the active widget, moves to `target`, shows it, and disables Back exactly at question 0. */
  function Shown(s: AppState, target: int): AppState
    requires HasActive(s) && 0 <= target < |s.widgets|
  {
    var ws := s.widgets[s.questionIndex := s.widgets[s.questionIndex].(hidden := true)];
    s.(widgets := ws[target := ws[target].(hidden := false)], questionIndex := target,
       backDisabled := target == 0)
  }

  /** The end of `goto`: past the last question the app exits with its answers, otherwise it moves. */
  function Advanced(qs: seq<Question>, s: AppState, target: int): AppState
    requires HasActive(s) && |s.widgets| == |qs| && 0 <= target
  {
    if target >= |qs| then s.(status := Exited(s.answers)) else Shown(s, target)
  }

  /**
    The unblocked part of `goto`: clear the error, record the active question's answer when moving
    forward (an exception raised by parsing ends the app), and then exit or move.
   */
  function Proceeded(qs: seq<Question>, s: AppState, target: int): AppState
    requires HasActive(s) && |s.widgets| == |qs| && 0 <= target
  {
    var i := s.questionIndex;
    var cleared := WithError(s, None);
    if target >= i then
      match AnswerFor(qs[i], cleared.widgets[i].control)
      case Failure(e) => cleared.(status := Crashed(e))
      case Success(a) => Advanced(qs, cleared.(answers := cleared.answers[qs[i].Name() := a]), target)
    else Advanced(qs, cleared, target)
  }

  /** `goto(target)`: validate the active input, refuse a forward move when it is invalid, else proceed. */
  function AfterGoto(qs: seq<Question>, s: AppState, target: int): AppState
    requires HasActive(s) && |s.widgets| == |qs| && 0 <= target
  {
    var checked := Validated(s);
    if !checked.0 && target >= s.questionIndex then checked.1 else Proceeded(qs, checked.1, target)
  }

  /** The user types `value` into the active `Input`, and `on_input_changed` handles its validation. */
  function Edited(s: AppState, value: string): AppState
    requires HasActive(s) && s.widgets[s.questionIndex].control.InputControl?
  {
    var i := s.questionIndex;
    var vs := s.widgets[i].control.validators;
    var typed := s.(widgets := s.widgets[i := s.widgets[i].(control := InputControl(value, vs))]);
    Handled(typed, InputValidate(vs, value)).1
  }

  /** `compose` stops at question `i` when its name is already registered: the names are not unique. */
  lemma DuplicateNameFound(qs: seq<Question>, i: nat)
    requires i < |qs| && qs[i].Name() in NamesBefore(qs, i)
    ensures !UniqueNames(qs)
  {
    NamesBeforeMembers(qs, i, qs[i].Name());
  }

  /** One round of `compose`'s loop, on a name not registered yet. */
  lemma ComposeStep(qs: seq<Question>, i: nat, ws: seq<Widget>, w: Widget)
    requires i < |qs| && UniqueBefore(qs, i) && qs[i].Name() !in NamesBefore(qs, i)
    requires WidgetsBefore(qs, i, ws) && w == AsWidget(qs[i]).(hidden := i != 0)
    ensures UniqueBefore(qs, i + 1)
    ensures AnswersBefore(qs, i + 1) == AnswersBefore(qs, i)[qs[i].Name() := None]
    ensures WidgetsBefore(qs, i + 1, ws + [w])
  {
    NamesBeforeMembers(qs, i, qs[i].Name());
  }

  /** The composed app, on a fresh app whose questions all have distinct names, is consistent. */
  lemma ComposedIsConsistent(qs: seq<Question>, ws: seq<Widget>)
    requires |qs| > 0 && UniqueNames(qs) && WidgetsFor(qs, ws)
    ensures Consistent(qs, InitialState.(answers := InitialAnswers(qs), widgets := ws))
  {
    forall k | 0 <= k < |qs|
      ensures ws[k].hidden == (k != 0) && !ws[k].invalid
      ensures ws[k].control.SelectControl? <==> qs[k].SelectField?
    {
      assert ws[k] == AsWidget(qs[k]).(hidden := k != 0);
    }
  }

  /** In a consistent state the active widget of a `Select` question never blocks a move. */
  lemma SelectAlwaysValid(qs: seq<Question>, s: AppState)
    requires Consistent(qs, s) && qs[s.questionIndex].SelectField?
    ensures ActiveFailure(s).None? && Validated(s).0 && Validated(s).1 == s
  {
  }

  /** Setting the error keeps a consistent app consistent. */
  lemma WithErrorConsistent(qs: seq<Question>, s: AppState, error: Option<string>)
    requires Consistent(qs, s)
    ensures Consistent(qs, WithError(s, error))
    ensures WithError(s, error).widgets[s.questionIndex].control == s.widgets[s.questionIndex].control
    ensures forall k :: 0 <= k < |qs| ==> WithError(s, error).widgets[k].control == s.widgets[k].control
  {
    var t := WithError(s, error);
    if error != s.errorText {
      var u := s.(errorText := error);
      assert t == Watched(u);
      forall k | 0 <= k < |qs|
        ensures t.widgets[k].invalid == (k == t.questionIndex && t.errorText.Some?)
        ensures t.widgets[k].hidden == (k != t.questionIndex)
      {
        if k != s.questionIndex { assert t.widgets[k] == s.widgets[k]; }
      }
    }
  }

  /** Validating the active input keeps a consistent app consistent. */
  lemma ValidatedConsistent(qs: seq<Question>, s: AppState)
    requires Consistent(qs, s)
    ensures Consistent(qs, Validated(s).1)
    ensures forall k :: 0 <= k < |qs| ==> Validated(s).1.widgets[k].control == s.widgets[k].control
  {
    if s.widgets[s.questionIndex].control.InputControl? {
      WithErrorConsistent(qs, s, Validated(s).1.errorText);
    }
  }

  /** Recording the active question's answer keeps the keys of the answers. */
  lemma RecordedConsistent(qs: seq<Question>, s: AppState, a: Option<Value>)
    requires Consistent(qs, s)
    ensures Consistent(qs, s.(answers := s.answers[qs[s.questionIndex].Name() := a]))
  {
    NamesBeforeMembers(qs, |qs|, qs[s.questionIndex].Name());
  }

  /** Moving to another question once the error is cleared keeps a consistent app consistent. */
  lemma ShownConsistent(qs: seq<Question>, s: AppState, target: int)
    requires Consistent(qs, s) && s.errorText.None? && 0 <= target < |qs|
    ensures Consistent(qs, Shown(s, target))
  {
    var t := Shown(s, target);
    forall k | 0 <= k < |qs|
      ensures t.widgets[k].hidden == (k != target) && !t.widgets[k].invalid
      ensures t.widgets[k].control == s.widgets[k].control
    {
    }
  }

  /** The unblocked part of `goto` keeps a consistent app consistent. */
  lemma ProceededConsistent(qs: seq<Question>, s: AppState, target: int)
    requires Consistent(qs, s) && 0 <= target
    ensures Consistent(qs, Proceeded(qs, s, target))
  {
    var i := s.questionIndex;
    var cleared := WithError(s, None);
    WithErrorConsistent(qs, s, None);
    if target >= i {
      match AnswerFor(qs[i], cleared.widgets[i].control) {
        case Failure(e) =>
        case Success(a) =>
          var recorded := cleared.(answers := cleared.answers[qs[i].Name() := a]);
          RecordedConsistent(qs, cleared, a);
          if target < |qs| { ShownConsistent(qs, recorded, target); }
      }
    } else {
      ShownConsistent(qs, cleared, target);
    }
  }

  /** `goto` keeps a consistent app consistent, whichever way it goes. */
  lemma GotoConsistent(qs: seq<Question>, s: AppState, target: int)
    requires Consistent(qs, s) && 0 <= target
    ensures Consistent(qs, AfterGoto(qs, s, target))
  {
    ValidatedConsistent(qs, s);
    if Validated(s).0 || target < s.questionIndex {
      ProceededConsistent(qs, Validated(s).1, target);
    }
  }

  /**
    A forward `goto` while the active input is invalid changes neither the question nor the
    answers: it shows the input's first failure, which disables Next.
   */
  lemma GotoForwardBlocked(qs: seq<Question>, s: AppState, target: int)
    requires Consistent(qs, s) && target >= s.questionIndex && ActiveFailure(s).Some?
    ensures var t := AfterGoto(qs, s, target);
      && t.questionIndex == s.questionIndex && t.answers == s.answers && t.status == s.status
      && t.errorText == ActiveFailure(s) && t.nextDisabled && !t.errorLabelHidden
      && t.errorLabel == ActiveFailure(s).value
      && t.widgets[s.questionIndex].invalid
      && forall k :: 0 <= k < |qs| ==> t.widgets[k].hidden == s.widgets[k].hidden
  {
    WithErrorConsistent(qs, s, ActiveFailure(s));
  }

  /**
    A backward `goto` is never blocked: it clears the error, records nothing, moves to the target
    and shows it alone, with Back disabled exactly at the first question.
   */
  lemma GotoBackward(qs: seq<Question>, s: AppState, target: int)
    requires Consistent(qs, s) && 0 <= target < s.questionIndex
    ensures var t := AfterGoto(qs, s, target);
      && t.questionIndex == target && t.answers == s.answers && t.status == s.status
      && t.errorText.None? && !t.nextDisabled && t.backDisabled == (target == 0)
      && forall k :: 0 <= k < |qs| ==> t.widgets[k].hidden == (k != target)
  {
    GotoConsistent(qs, s, target);
  }

  /** The unblocked forward part of `goto` records the parsed answer, then exits or moves. */
  lemma ProceededForward(qs: seq<Question>, s: AppState, target: int, a: Option<Value>)
    requires Consistent(qs, s) && target >= s.questionIndex
    requires AnswerFor(qs[s.questionIndex], s.widgets[s.questionIndex].control) == Success(a)
    ensures var t := Proceeded(qs, s, target);
      && var name := qs[s.questionIndex].Name();
      && t.answers == s.answers[name := a]
      && (forall n :: n in s.answers && n != name ==> t.answers[n] == s.answers[n])
      && t.errorText.None? && !t.nextDisabled
      && (target >= |qs| ==>
            (t.status == Exited(t.answers) && t.questionIndex == s.questionIndex &&
             forall k :: 0 <= k < |qs| ==> t.widgets[k].hidden == s.widgets[k].hidden))
      && (target < |qs| ==>
            (t.status == s.status && t.questionIndex == target &&
             forall k :: 0 <= k < |qs| ==> t.widgets[k].hidden == (k != target)))
  {
    var cleared := WithError(s, None);
    WithErrorConsistent(qs, s, None);
    var recorded := cleared.(answers := s.answers[qs[s.questionIndex].Name() := a]);
    RecordedConsistent(qs, cleared, a);
    if target < |qs| { ShownConsistent(qs, recorded, target); }
  }

  /**
    An unblocked forward `goto` records the active question's answer under its name and leaves
    every other answer as it was; it then exits with the answers past the last question, without
    moving, or moves to the target and shows it alone.
   */
  lemma GotoForwardRecords(qs: seq<Question>, s: AppState, target: int, a: Option<Value>)
    requires Consistent(qs, s) && target >= s.questionIndex && ActiveFailure(s).None?
    requires AnswerFor(qs[s.questionIndex], s.widgets[s.questionIndex].control) == Success(a)
    ensures var t := AfterGoto(qs, s, target);
      && var name := qs[s.questionIndex].Name();
      && t.answers == s.answers[name := a]
      && (forall n :: n in s.answers && n != name ==> t.answers[n] == s.answers[n])
      && t.errorText.None? && !t.nextDisabled
      && (target >= |qs| ==>
            (t.status == Exited(t.answers) && t.questionIndex == s.questionIndex &&
             forall k :: 0 <= k < |qs| ==> t.widgets[k].hidden == s.widgets[k].hidden))
      && (target < |qs| ==>
            (t.status == s.status && t.questionIndex == target &&
             forall k :: 0 <= k < |qs| ==> t.widgets[k].hidden == (k != target)))
  {
    ValidatedConsistent(qs, s);
    ProceededForward(qs, Validated(s).1, target, a);
  }

  /** A forward `goto` whose parse raises ends the app with that error, recording nothing. */
  lemma GotoParseFailure(qs: seq<Question>, s: AppState, target: int, e: ParseError)
    requires Consistent(qs, s) && target >= s.questionIndex && ActiveFailure(s).None?
    requires AnswerFor(qs[s.questionIndex], s.widgets[s.questionIndex].control) == Failure(e)
    ensures var t := AfterGoto(qs, s, target);
      t.status == Crashed(e) && t.answers == s.answers && t.questionIndex == s.questionIndex
  {
    var checked := Validated(s);
    if s.widgets[s.questionIndex].control.InputControl? {
      WithErrorConsistent(qs, s, checked.1.errorText);
    }
    WithErrorConsistent(qs, checked.1, None);
  }

  /** When `goto` ends the run, the result has exactly one entry per question, keyed by its name. */
  lemma ExitedAnswersCoverQuestions(qs: seq<Question>, s: AppState, target: int)
    requires Consistent(qs, s) && s.status == Running && 0 <= target
    ensures AfterGoto(qs, s, target).status.Exited? ==>
      AfterGoto(qs, s, target).status.result.Keys == NameSet(qs)
  {
    GotoConsistent(qs, s, target);
  }

  /** Typing into the active input keeps a consistent app consistent; the error becomes the new value's first failure. */
  lemma EditedConsistent(qs: seq<Question>, s: AppState, value: string)
    requires Consistent(qs, s) && s.widgets[s.questionIndex].control.InputControl?
    ensures Consistent(qs, Edited(s, value))
    ensures Edited(s, value).errorText == FailureReason(s.widgets[s.questionIndex].control.validators, value)
  {
    var i := s.questionIndex;
    var vs := s.widgets[i].control.validators;
    var typed := s.(widgets := s.widgets[i := s.widgets[i].(control := InputControl(value, vs))]);
    assert Consistent(qs, typed);
    WithErrorConsistent(qs, typed, Handled(typed, InputValidate(vs, value)).1.errorText);
  }

  /**
    The widget's validation and `is_value_accepted` agree except on a blank value of a field that
    allows blanks: there the field accepts it, while the widget still runs every validator.
   */
  lemma WidgetValidationMatchesAcceptance(allowBlank: bool, vs: seq<Validator>, value: string)
    ensures !(allowBlank && |value| == 0) ==>
      (Acceptance(allowBlank, vs, value).Invalid? <==>
         InputValidate(vs, value).Some? && InputValidate(vs, value).value.Failed?)
    ensures !(allowBlank && |value| == 0) && Acceptance(allowBlank, vs, value).Invalid? ==>
      InputValidate(vs, value) == Some(Failed(Acceptance(allowBlank, vs, value).failureReason))
    ensures allowBlank && |value| == 0 ==>
      Acceptance(allowBlank, vs, value) == Valid &&
      (FailureReason(vs, value).Some? ==> InputValidate(vs, value) == Some(Failed(FailureReason(vs, value).value)))
  {
    if !(allowBlank && |value| == 0) {
      match FirstFailure(vs, value) {
        case None =>
        case Some(k) =>
          assert Acceptance(allowBlank, vs, value) == Invalid(vs[k].description);
      }
    }
  }

  /** The Textual app: its fields are those of `AppState`, plus the fixed question list. */
  class WizardApp {
    const questions: seq<Question>
    var questionIndex: int
    var answers: Answers
    var errorText: Option<string>
    var errorLabel: string
    var errorLabelHidden: bool
    var backDisabled: bool
    var nextDisabled: bool
    var inputWidgets: seq<Widget>
    var status: Status

    ghost function State(): AppState
      reads this
    {
      AppState(questionIndex, answers, errorText, errorLabel, errorLabelHidden, backDisabled,
               nextDisabled, inputWidgets, status)
    }

    ghost predicate Valid()
      reads this
    {
      Consistent(questions, State())
    }

    /** A fresh app (the class attributes' values) given its questions by `set_questions`. */
    constructor (questions: seq<Question>)
      ensures this.questions == questions && State() == InitialState
    {
      this.questions := questions;
      questionIndex := 0;
      answers := map[];
      errorText := None;
      errorLabel := "";
      errorLabelHidden := true;
      backDisabled := true;
      nextDisabled := false;
      inputWidgets := [];
      status := Running;
    }

    /**
      `compose`: in question order, raise `QuestionNameNotUnique` on a name already registered;
      otherwise build the question's widget, register its answer as `None` and keep the widget,
      hidden unless it is the first. On success the app is consistent.
     */
    method Compose() returns (raised: Option<ComposeError>)
      requires State() == InitialState
      modifies this
      ensures raised.None? <==> UniqueNames(questions)
      ensures raised.None? ==>
        answers == InitialAnswers(questions) && WidgetsFor(questions, inputWidgets)
      ensures raised.None? && |questions| > 0 ==> Valid()
      ensures raised.Some? ==>
        exists j :: (0 <= j < |questions| &&
          UniqueBefore(questions, j) && questions[j].Name() in NamesBefore(questions, j) &&
          raised == Some(QuestionNameNotUnique(questions[j].Name())) &&
          answers == AnswersBefore(questions, j) && WidgetsBefore(questions, j, inputWidgets))
      ensures State() == InitialState.(answers := answers, widgets := inputWidgets)
    {
      raised := None;
      var i := 0;
      while i < |questions|
        invariant 0 <= i <= |questions|
        invariant UniqueBefore(questions, i)
        invariant answers == AnswersBefore(questions, i)
        invariant WidgetsBefore(questions, i, inputWidgets)
        invariant State() == InitialState.(answers := answers, widgets := inputWidgets)
      {
        var q := questions[i];
        if q.Name() in answers {
          raised := Some(QuestionNameNotUnique(q.Name()));
          DuplicateNameFound(questions, i);
          assert 0 <= i < |questions| && UniqueBefore(questions, i) &&
            questions[i].Name() in NamesBefore(questions, i) &&
            raised == Some(QuestionNameNotUnique(questions[i].Name())) &&
            answers == AnswersBefore(questions, i) && WidgetsBefore(questions, i, inputWidgets);
          return;
        }
        var wid := AsWidget(q);
        if i != 0 {
          wid := wid.(hidden := true);
        }
        ComposeStep(questions, i, inputWidgets, wid);
        answers := answers[q.Name() := None];
        inputWidgets := inputWidgets + [wid];
        i := i + 1;
      }
      if |questions| > 0 {
        ComposedIsConsistent(questions, inputWidgets);
      }
    }

    /** `watch_error_text`, made explicit. */
    method WatchErrorText()
      requires HasActive(State())
      modifies this
      ensures State() == Watched(old(State()))
    {
      var w := inputWidgets[questionIndex];
      if errorText.None? {
        errorLabelHidden := true;
        nextDisabled := false;
        inputWidgets := inputWidgets[questionIndex := w.(invalid := false)];
      } else {
        inputWidgets := inputWidgets[questionIndex := w.(invalid := true)];
        errorLabelHidden := false;
        errorLabel := errorText.value;
        nextDisabled := true;
      }
    }

    /** `set_error`: assigning the reactive `error_text` runs the watcher when the value changes. */
    method SetError(error: Option<string>)
      requires HasActive(State())
      modifies this
      ensures State() == WithError(old(State()), error)
    {
      if error != errorText {
        errorText := error;
        WatchErrorText();
      }
    }

    /** `handle_validation_result`. */
    method HandleValidationResult(vr: Option<InputValidation>) returns (ok: bool)
      requires HasActive(State())
      modifies this
      ensures (ok, State()) == Handled(old(State()), vr)
    {
      if vr.None? || vr.value.Passed? {
        SetError(None);
        ok := true;
      } else {
        SetError(Some(vr.value.firstDescription));
        ok := false;
      }
    }

    /** `validate_input`. */
    method ValidateInput() returns (ok: bool)
      requires HasActive(State())
      modifies this
      ensures (ok, State()) == Validated(old(State()))
    {
      match inputWidgets[questionIndex].control {
        case SelectControl(_) =>
          ok := true;
        case InputControl(value, vs) =>
          ok := HandleValidationResult(InputValidate(vs, value));
      }
    }

    /** `goto`: the app's single transition. */
    method Goto(target: int)
      requires Valid() && status == Running && 0 <= target
      modifies this
      ensures State() == AfterGoto(questions, old(State()), target)
      ensures Valid()
    {
      GotoConsistent(questions, State(), target);
      var valid := ValidateInput();
      if !valid && target >= questionIndex {
        return;
      }
      Proceed(target);
    }

    /** The unblocked part of `goto`. */
    method Proceed(target: int)
      requires HasActive(State()) && |inputWidgets| == |questions| && 0 <= target
      modifies this
      ensures State() == Proceeded(questions, old(State()), target)
    {
      var i := questionIndex;
      SetError(None);
      if target >= i {
        var answer := AnswerFor(questions[i], inputWidgets[i].control);
        match answer {
          case Failure(e) =>
            status := Crashed(e);
            return;
          case Success(a) =>
            answers := answers[questions[i].Name() := a];
        }
      }
      AdvanceTo(target);
    }

    /** The end of `goto`: exit past the last question, otherwise hide, move and show. */
    method AdvanceTo(target: int)
      requires HasActive(State()) && |inputWidgets| == |questions| && 0 <= target
      modifies this
      ensures State() == Advanced(questions, old(State()), target)
    {
      if target >= |questions| {
        status := Exited(answers);
        return;
      }
      inputWidgets := inputWidgets[questionIndex := inputWidgets[questionIndex].(hidden := true)];
      questionIndex := target;
      inputWidgets := inputWidgets[target := inputWidgets[target].(hidden := false)];
      backDisabled := questionIndex == 0;
    }

    /** Next button: `goto(question_index + 1)`. */
    method NextQuestion()
      requires Valid() && status == Running
      modifies this
      ensures State() == AfterGoto(questions, old(State()), old(questionIndex) + 1)
      ensures Valid()
    {
      Goto(questionIndex + 1);
    }

    /** Back button: `goto(question_index - 1)`, only reachable while Back is enabled. */
    method PreviousQuestion()
      requires Valid() && status == Running && !backDisabled
      modifies this
      ensures State() == AfterGoto(questions, old(State()), old(questionIndex) - 1)
      ensures Valid()
    {
      Goto(questionIndex - 1);
    }

    /** Enter in an input acts as the Next button. */
    method OnInputSubmitted()
      requires Valid() && status == Running
      modifies this
      ensures State() == AfterGoto(questions, old(State()), old(questionIndex) + 1)
      ensures Valid()
    {
      NextQuestion();
    }

    /** The user edits the active input to `value`; `on_input_changed` handles its validation result. */
    method OnInputChanged(value: string)
      requires Valid() && status == Running && inputWidgets[questionIndex].control.InputControl?
      modifies this
      ensures State() == Edited(old(State()), value)
      ensures Valid()
    {
      EditedConsistent(questions, State(), value);
      var i := questionIndex;
      var vs := inputWidgets[i].control.validators;
      inputWidgets := inputWidgets[i := inputWidgets[i].(control := InputControl(value, vs))];
      var _ := HandleValidationResult(InputValidate(vs, value));
    }
  }
}
