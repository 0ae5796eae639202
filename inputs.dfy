/**
  The field declarations of the wizard (`textual_wizard/inputs.py`): the text-like fields with their
  ordered validator lists, the blank shortcut of `is_value_accepted`, the first-failure rule, the
  per-type parsing of answers, and the default rule of `Select`.

  Textual's validators are foreign code. Each one is modelled as an opaque pair: the predicate it
  applies to the input and the first failure description it reports. Only the `Length(1)` check
  that the field adds itself is given its concrete meaning.
 */
module Inputs {
  import opened Wrappers

  /** A validator as the field sees it: does it accept a string, and what does it say when it does not. */
  datatype Validator = Validator(accepts: string -> bool, description: string)

  /** The outcome of `is_value_accepted`: `failure_reason` only exists when the value is refused. */
  datatype ValidationResult = Valid | Invalid(failureReason: string)

  /** A parsed answer: a string, a Python `int`, or the `float` that Python reads from a literal. */
  datatype Value = Str(text: string) | Int(number: int) | FloatOf(literal: string)

  /** The `ValueError` that Python's `int` raises on a string it cannot read. */
  datatype ParseError = ValueError(text: string)

  /** The `IndexError` of `options[0]` when a `Select` gets no options and no default. */
  datatype InitError = IndexError

  const RequiredMessage: string := "You must provide a value."
  const EmailMessage: string := "Must be a valid email address."

  /** `Length(1, failure_description=...)`: what a field that refuses blanks appends last. */
  const NonEmptyCheck: Validator := Validator((s: string) => |s| >= 1, RequiredMessage)

  /**
    The concrete text-like field classes. The validators each class adds come from Textual and
    are parameters here: the email regex match, `URL()`, `Integer()` and `Number()`.
   */
  datatype Kind =
    | TextKind
    | EmailKind(matchesEmailRegex: string -> bool)
    | UrlKind(url: Validator)
    | IntegerKind(integer: Validator)
    | NumberKind(number: Validator)

  /** The class attribute `additional_validators` (`None` for `Text`, which adds nothing). */
  function AdditionalValidators(kind: Kind): seq<Validator>
  {
    match kind
    case TextKind => []
    case EmailKind(matches) => [Validator(matches, EmailMessage)]
    case UrlKind(url) => [url]
    case IntegerKind(integer) => [integer]
    case NumberKind(number) => [number]
  }

  /** The class attribute `default_value`: `""` for the text classes, `0` for `Integer` and `Number`. */
  function ClassDefault(kind: Kind): Value
  {
    match kind
    case IntegerKind(_) => Int(0)
    case NumberKind(_) => Int(0)
    case _ => Str("")
  }

  /** The validator list `BaseText.__init__` leaves behind, given the caller's list. */
  function ComposeValidators(user: seq<Validator>, kind: Kind, allowBlank: bool): seq<Validator>
  {
    user + AdditionalValidators(kind) + (if allowBlank then [] else [NonEmptyCheck])
  }

  /** Python's `a or b` on an optional string: `None` and `""` both fall through to `b`. */
  function OrElse(a: Option<string>, b: string): string
  {
    if a.Some? && a.value != "" then a.value else b
  }

  /** Index of the first validator of `vs` that refuses `s`, or `None` when they all accept it. */
  function FirstFailure(vs: seq<Validator>, s: string): (r: Option<nat>)
    ensures r.None? <==> forall k :: 0 <= k < |vs| ==> vs[k].accepts(s)
    ensures r.Some? ==> r.value < |vs| && !vs[r.value].accepts(s)
    ensures r.Some? ==> forall k :: 0 <= k < r.value ==> vs[k].accepts(s)
    decreases |vs|
  {
    if |vs| == 0 then None
    else if !vs[0].accepts(s) then Some(0)
    else match FirstFailure(vs[1..], s)
      case None => None
      case Some(k) => Some(k + 1)
  }

  /** The description of the first validator of `vs` that refuses `s`. */
  function FailureReason(vs: seq<Validator>, s: string): (r: Option<string>)
    ensures r.None? <==> forall k :: 0 <= k < |vs| ==> vs[k].accepts(s)
  {
    match FirstFailure(vs, s)
    case None => None
    case Some(k) => Some(vs[k].description)
  }

  /**
    What `is_value_accepted` answers for a field whose validator list is `vs`: a blank value is
    accepted outright when blanks are allowed; otherwise the value is accepted exactly when every
    validator accepts it, and refused with the description of the first validator that does not.
   */
  function Acceptance(allowBlank: bool, vs: seq<Validator>, value: string): (r: ValidationResult)
    ensures allowBlank && |value| == 0 ==> r == Valid
    ensures !(allowBlank && |value| == 0) ==>
      (r.Valid? <==> forall k :: 0 <= k < |vs| ==> vs[k].accepts(value))
    ensures r.Invalid? ==>
      exists k :: 0 <= k < |vs| && !vs[k].accepts(value) && r.failureReason == vs[k].description
        && forall j :: 0 <= j < k ==> vs[j].accepts(value)
  {
    if allowBlank && |value| == 0 then Valid
    else match FirstFailure(vs, value)
      case None => Valid
      case Some(k) => Invalid(vs[k].description)
  }

  /** The first failure of a concatenation is the first failure of its left part, if it has one. */
  lemma {:induction false} FailureReasonAppend(a: seq<Validator>, b: seq<Validator>, s: string)
    ensures FailureReason(a + b, s) ==
      if FailureReason(a, s).Some? then FailureReason(a, s) else FailureReason(b, s)
  {
    var ab := a + b;
    assert forall j :: 0 <= j < |a| ==> ab[j] == a[j];
    assert forall j :: 0 <= j < |b| ==> ab[|a| + j] == b[j];
    match FirstFailure(a, s) {
      case Some(k) =>
        match FirstFailure(ab, s) {
          case None =>
          case Some(m) =>
            assert m == k;
        }
      case None =>
        match FirstFailure(b, s) {
          case None =>
            forall j | 0 <= j < |ab| ensures ab[j].accepts(s) {
              if j >= |a| { assert ab[j] == b[j - |a|]; }
            }
          case Some(k) =>
            assert ab[|a| + k] == b[k];
            match FirstFailure(ab, s) {
              case None =>
              case Some(m) =>
                assert m == |a| + k;
            }
        }
    }
  }

  /**
    Validator order decides the reported failure: the caller's validators speak first, then the
    class's additional validators, and the non-empty check last.
   */
  lemma ComposedFailureOrder(user: seq<Validator>, kind: Kind, allowBlank: bool, s: string)
    requires !(allowBlank && |s| == 0)
    ensures var r := Acceptance(allowBlank, ComposeValidators(user, kind, allowBlank), s);
      && (FailureReason(user, s).Some? ==> r == Invalid(FailureReason(user, s).value))
      && (FailureReason(user, s).None? && FailureReason(AdditionalValidators(kind), s).Some? ==>
            r == Invalid(FailureReason(AdditionalValidators(kind), s).value))
      && (FailureReason(user, s).None? && FailureReason(AdditionalValidators(kind), s).None? ==>
            r == if |s| == 0 then Invalid(RequiredMessage) else Valid)
  {
    var add := AdditionalValidators(kind);
    var last: seq<Validator> := if allowBlank then [] else [NonEmptyCheck];
    FailureReasonAppend(user, add, s);
    FailureReasonAppend(user + add, last, s);
    assert ComposeValidators(user, kind, allowBlank) == user + add + last;
    if !allowBlank {
      assert last[0] == NonEmptyCheck;
      assert FailureReason(last, s) == if |s| == 0 then Some(RequiredMessage) else None;
    }
  }

  /** A field that refuses blanks refuses the empty string, whatever its other validators say. */
  lemma RequiredFieldRejectsBlank(user: seq<Validator>, kind: Kind)
    ensures Acceptance(false, ComposeValidators(user, kind, false), "").Invalid?
  {
    var vs := ComposeValidators(user, kind, false);
    assert vs[|vs| - 1] == NonEmptyCheck;
    assert !vs[|vs| - 1].accepts("");
  }

  /** `"0"` to `"9"`. */
  predicate IsDigit(c: char)
  {
    '0' <= c <= '9'
  }

  predicate AllDigits(s: string)
  {
    forall k :: 0 <= k < |s| ==> IsDigit(s[k])
  }

  /** The number a string of decimal digits denotes. */
  function DigitsValue(s: string): (n: nat)
    requires AllDigits(s)
  {
    if |s| == 0 then 0
    else DigitsValue(s[..|s| - 1]) * 10 + (s[|s| - 1] as int - '0' as int)
  }

  /** The text Python's `int` reads: an optional sign followed by at least one decimal digit. */
  predicate IsIntLiteral(s: string)
  {
    if |s| > 0 && (s[0] == '+' || s[0] == '-') then |s| > 1 && AllDigits(s[1..])
    else |s| > 0 && AllDigits(s)
  }

  /** Python's `int(s)` on decimal text. */
  function ParseInt(s: string): (r: Option<int>)
    ensures r.Some? <==> IsIntLiteral(s)
  {
    if |s| > 0 && (s[0] == '+' || s[0] == '-') then
      if |s| > 1 && AllDigits(s[1..]) then
        var magnitude: int := DigitsValue(s[1..]);
        Some(if s[0] == '-' then -magnitude else magnitude)
      else None
    else if |s| > 0 && AllDigits(s) then Some(DigitsValue(s))
    else None
  }

  /** Python's `str(n)` for a natural number: its decimal digits, without leading zeros. */
  function Decimal(n: nat): string
  {
    if n < 10 then [('0' as int + n) as char]
    else Decimal(n / 10) + [('0' as int + n % 10) as char]
  }

  /** Python's `str(n)` for any integer. */
  function IntText(n: int): string
  {
    if n < 0 then "-" + Decimal(-n) else Decimal(n)
  }

  lemma {:induction false} DecimalDigits(n: nat)
    ensures |Decimal(n)| > 0 && Decimal(n)[0] != '-' && Decimal(n)[0] != '+'
    ensures AllDigits(Decimal(n)) && DigitsValue(Decimal(n)) == n
    decreases n
  {
    if n >= 10 {
      DecimalDigits(n / 10);
      var s := Decimal(n);
      assert s[..|s| - 1] == Decimal(n / 10);
    }
  }

  /** `int(str(n)) == n`: the integer parse reads back every integer it could be given as text. */
  lemma ParseIntRoundTrip(n: int)
    ensures ParseInt(IntText(n)) == Some(n)
  {
    if n < 0 {
      DecimalDigits(-n);
      assert IntText(n)[1..] == Decimal(-n);
    } else {
      DecimalDigits(n);
    }
  }

  /** `int("10") == 10`. */
  lemma ParseIntTen()
    ensures ParseInt("10") == Some(10)
  {
    assert "10"[..1] == "1" && "1"[..0] == "";
    assert DigitsValue("1") == 1;
  }

  /**
    `_parse_result` of each class: the identity for `Text`, `Email` and `URL`; `int` for `Integer`,
    which raises `ValueError` on text it cannot read; `float` for `Number`, kept symbolic.
   */
  function ParseAs(kind: Kind, value: string): (r: Result<Value, ParseError>)
    ensures kind.TextKind? || kind.EmailKind? || kind.UrlKind? ==> r == Success(Str(value))
    ensures kind.IntegerKind? ==> (r.Success? <==> IsIntLiteral(value))
    ensures kind.IntegerKind? && r.Success? ==> r.value.Int? && ParseInt(value) == Some(r.value.number)
    ensures kind.IntegerKind? && r.Failure? ==> r.error == ValueError(value)
    ensures kind.NumberKind? ==> r == Success(FloatOf(value))
  {
    match kind
    case IntegerKind(_) =>
      (match ParseInt(value)
       case Some(n) => Success(Int(n))
       case None => Failure(ValueError(value)))
    case NumberKind(_) => Success(FloatOf(value))
    case _ => Success(Str(value))
  }

  /** The validator list a field keeps, as a Python list: the caller's list object is reused. */
  class ValidatorList {
    var items: seq<Validator>

    constructor (items: seq<Validator>)
      ensures this.items == items
    {
      this.items := items;
    }
  }

  /** A text-like field: `Text`, `Email`, `URL`, `Integer` or `Number`, told apart by `kind`. */
  class BaseText {
    const name: string
    const caption: string
    const kind: Kind
    const validators: ValidatorList
    const placeholder: string
    const initialValue: string
    const allowBlank: bool
    const defaultValue: Value

    /**
      `BaseText.__init__`. A given `validators` list is extended in place (`+=`, then `append`)
      and becomes the field's own list; `None` starts a fresh one.
     */
    constructor (name: string, caption: string, kind: Kind, validators: ValidatorList?,
                 placeholder: Option<string>, initialValue: Option<string>, allowBlank: bool,
                 defaultValue: Option<Value>)
      modifies validators
      ensures this.name == name && this.caption == caption && this.kind == kind
      ensures validators != null ==>
        (this.validators == validators &&
         validators.items == ComposeValidators(old(validators.items), kind, allowBlank))
      ensures validators == null ==>
        (fresh(this.validators) && this.validators.items == ComposeValidators([], kind, allowBlank))
      ensures this.placeholder == OrElse(placeholder, OrElse(initialValue, ""))
      ensures this.initialValue == OrElse(initialValue, "")
      ensures this.allowBlank == allowBlank
      ensures this.defaultValue == if defaultValue.Some? then defaultValue.value else ClassDefault(kind)
    {
      var list: ValidatorList;
      if validators == null {
        list := new ValidatorList([]);
      } else {
        list := validators;
      }
      list.items := list.items + AdditionalValidators(kind);
      this.name := name;
      this.caption := caption;
      this.kind := kind;
      this.placeholder := OrElse(placeholder, OrElse(initialValue, ""));
      this.defaultValue := if defaultValue.Some? then defaultValue.value else ClassDefault(kind);
      this.initialValue := OrElse(initialValue, "");
      if !allowBlank {
        list.items := list.items + [NonEmptyCheck];
      }
      this.validators := list;
      this.allowBlank := allowBlank;
    }

    /** `is_value_accepted`: the blank shortcut, then the validators in order until one refuses. */
    method IsValueAccepted(value: string) returns (result: ValidationResult)
      ensures result == Acceptance(allowBlank, validators.items, value)
    {
      result := Valid;
      if allowBlank && |value| == 0 {
        return;
      }
      var vs := validators.items;
      for i := 0 to |vs|
        invariant forall k :: 0 <= k < i ==> vs[k].accepts(value)
      {
        if !vs[i].accepts(value) {
          result := Invalid(vs[i].description);
          assert FirstFailure(vs, value) == Some(i);
          return;
        }
      }
    }

    /**
      `parse_result`: a blank value of a field that allows blanks yields `default_value` itself,
      without parsing; any other value goes through the class's `_parse_result`.
     */
    function ParseResult(value: string): (r: Result<Value, ParseError>)
      ensures |value| == 0 && allowBlank ==> r == Success(defaultValue)
      ensures r.Failure? <==> kind.IntegerKind? && !(|value| == 0 && allowBlank) && !IsIntLiteral(value)
      ensures r.Failure? ==> r.error == ValueError(value)
      ensures !(|value| == 0 && allowBlank) && (kind.TextKind? || kind.EmailKind? || kind.UrlKind?) ==>
        r == Success(Str(value))
      ensures !(|value| == 0 && allowBlank) && kind.IntegerKind? && r.Success? ==>
        r == Success(Int(ParseInt(value).value))
      ensures !(|value| == 0 && allowBlank) && kind.NumberKind? ==> r == Success(FloatOf(value))
    {
      if |value| == 0 && allowBlank then Success(defaultValue) else ParseAs(kind, value)
    }
  }

  /**
    A value the field accepts can be parsed, provided the field still holds its class's validator
    and, for `Integer`, Textual's integer validator accepts only text that `int` can read.
   */
  lemma AcceptedValueParses(f: BaseText, value: string)
    requires f.kind.IntegerKind? ==>
      (forall s :: f.kind.integer.accepts(s) ==> IsIntLiteral(s)) && f.kind.integer in f.validators.items
    requires Acceptance(f.allowBlank, f.validators.items, value).Valid?
    ensures f.ParseResult(value).Success?
  {
    if f.kind.IntegerKind? && !(|value| == 0 && f.allowBlank) {
      var vs := f.validators.items;
      var k :| 0 <= k < |vs| && vs[k] == f.kind.integer;
      assert vs[k].accepts(value);
    }
  }

  /** An `Integer` field reads back every integer written in decimal, whether blanks are allowed or not. */
  lemma IntegerFieldRoundTrip(f: BaseText, n: int)
    requires f.kind.IntegerKind?
    ensures f.ParseResult(IntText(n)) == Success(Int(n))
  {
    ParseIntRoundTrip(n);
  }

  /** `Select`: a fixed list of `(label, value)` options and the value selected at first. */
  datatype Select = Select(name: string, caption: string, options: seq<(string, Value)>, defaultValue: Value)

  /** `Select.__init__`: without a default, the first option's value is selected. */
  function NewSelect(name: string, caption: string, options: seq<(string, Value)>, defaultValue: Option<Value>)
    : (r: Result<Select, InitError>)
    ensures r.Success? <==> defaultValue.Some? || |options| > 0
    ensures r.Success? ==> r.value.name == name && r.value.caption == caption && r.value.options == options
    ensures r.Success? && defaultValue.Some? ==> r.value.defaultValue == defaultValue.value
    ensures r.Success? && defaultValue.None? ==> r.value.defaultValue == options[0].1
    ensures r.Failure? ==> r.error == IndexError
  {
    match defaultValue
    case Some(v) => Success(Select(name, caption, options, v))
    case None =>
      if |options| == 0 then Failure(IndexError)
      else Success(Select(name, caption, options, options[0].1))
  }

  /** One question of a wizard (`InputType`): a text-like field or a `Select`. */
  datatype Question = TextField(field: BaseText) | SelectField(select: Select)
  {
    /** The key of the question's answer. */
    function Name(): string
    {
      match this
      case TextField(f) => f.name
      case SelectField(s) => s.name
    }
  }
}
