/** Form checking: the helpers of `validate` in utils.js (scripts/utils.js:106-119) and the submit handler of
    `initFormValidation` in main.js (scripts/main.js:281-319). */
module FormValidation {
  import opened Wrappers
  import opened Strings
  import opened Js

  /** The regular expression `^[^\s@]+@[^\s@]+\.[^\s@]+$`, read as a statement about positions: the `@` at `i`
      and the `.` at `j` split the string into three non-empty runs free of whitespace and of `@`. */
  ghost predicate EmailPattern(s: string)
  {
    exists i, j :: 0 < i && i + 1 < j && j + 1 < |s| && s[i] == '@' && s[j] == '.' &&
                   forall k :: 0 <= k < |s| ==> !JsIsSpace(s[k]) && (s[k] == '@' ==> k == i)
  }

  /** The position of the first `c` in `s`, if any. */
  function IndexOf(s: string, c: char): (r: Option<nat>)
    ensures r.None? ==> c !in s
    ensures r.Some? ==> r.value < |s| && s[r.value] == c && c !in s[..r.value]
  {
    if s == [] then None
    else if s[0] == c then Some(0)
    else
      var r := IndexOf(s[1..], c);
      assert s[1..] == s[1..][..|s| - 1];
      if r.None? then None
      else
        assert s[..r.value + 1] == [s[0]] + s[1..][..r.value];
        Some(r.value + 1)
  }

  /** `validate.email(value)`: no whitespace, a single `@` with something before it, and after it a `.` that
      is neither the first nor the last character. An accepted address has at least five characters. */
  predicate Email(s: string)
    ensures Email(s) ==> |s| >= 5 && '@' in s && forall k :: 0 <= k < |s| ==> !JsIsSpace(s[k])
  {
    All(s, c => !JsIsSpace(c)) &&
    match IndexOf(s, '@')
    case None => false
    case Some(i) =>
      var domain := s[i + 1..];
      i > 0 && '@' !in domain && |domain| >= 3 && '.' in domain[1..|domain| - 1]
  }

  /** The test accepts exactly the strings the regular expression matches. */
  lemma EmailMatchesPattern(s: string)
    ensures Email(s) <==> EmailPattern(s)
  {
    if Email(s) {
      EmailSound(s);
    }
    if EmailPattern(s) {
      var i, j :| 0 < i && i + 1 < j && j + 1 < |s| && s[i] == '@' && s[j] == '.' &&
                  forall k :: 0 <= k < |s| ==> !JsIsSpace(s[k]) && (s[k] == '@' ==> k == i);
      EmailComplete(s, i, j);
    }
  }

  /** A string the test accepts splits at its `@` and at an inner `.` of the domain as the expression requires. */
  lemma EmailSound(s: string)
    requires Email(s)
    ensures EmailPattern(s)
  {
    var i := IndexOf(s, '@').value;
    var domain := s[i + 1..];
    var inner := domain[1..|domain| - 1];
    var d :| 0 <= d < |inner| && inner[d] == '.';
    var j := i + 2 + d;
    assert s[j] == '.';
    assert forall k :: 0 <= k < i ==> s[k] == s[..i][k];
    assert forall k :: i < k < |s| ==> s[k] == domain[k - i - 1];
    assert forall k :: 0 <= k < |s| ==> !JsIsSpace(s[k]);
  }

  /** A match of the expression with its `@` at `i` and its `.` at `j` passes the test. */
  lemma EmailComplete(s: string, i: nat, j: nat)
    requires 0 < i && i + 1 < j && j + 1 < |s| && s[i] == '@' && s[j] == '.'
    requires forall k :: 0 <= k < |s| ==> !JsIsSpace(s[k]) && (s[k] == '@' ==> k == i)
    ensures Email(s)
  {
    AtFirst(s, i);
    var domain := s[i + 1..];
    assert domain[1..|domain| - 1][j - i - 2] == '.';
    assert '@' !in domain by {
      forall k | 0 <= k < |domain|
        ensures domain[k] != '@'
      {
        assert domain[k] == s[i + 1 + k];
      }
    }
  }

  /** An `@` with none before it is the one `IndexOf` finds. */
  lemma AtFirst(s: string, i: nat)
    requires i < |s| && s[i] == '@' && forall k :: 0 <= k < |s| && s[k] == '@' ==> k == i
    ensures IndexOf(s, '@') == Some(i)
  {
    assert s[i] in s;
  }

  /** `validate.required(value)`, with `None` for `null` and `undefined`: a value is present exactly when it
      exists and holds a character that is not whitespace. */
  predicate Required(value: Option<string>)
    ensures Required(value) <==> value.Some? && exists k :: 0 <= k < |value.value| && !JsIsSpace(value.value[k])
  {
    if value.Some? then
      TrimEmpty(value.value, JsIsSpace);
      JsTrim(value.value) != ""
    else false
  }

  /** `validate.minLength(value, min)`: `value.length` counts UTF-16 code units, so the bound is inclusive and,
      on text without characters outside the Basic Multilingual Plane, bounds the number of characters. */
  predicate MinLength(value: string, min: int)
    ensures (forall k :: 0 <= k < |value| ==> value[k] as int <= 0xFFFF) ==> (MinLength(value, min) <==> |value| >= min)
    ensures min <= |value| ==> MinLength(value, min)
  {
    Utf16LengthBmp(value);
    Utf16Length(value) >= min
  }

  /** `validate.maxLength(value, max)`: inclusive, and on text inside the Basic Multilingual Plane a bound on
      the number of characters. */
  predicate MaxLength(value: string, max: int)
    ensures (forall k :: 0 <= k < |value| ==> value[k] as int <= 0xFFFF) ==> (MaxLength(value, max) <==> |value| <= max)
    ensures MaxLength(value, max) ==> |value| <= max
  {
    Utf16LengthBmp(value);
    Utf16Length(value) <= max
  }

  /** What the submit handler accepts in one `[required]` input (scripts/main.js:292-307): a value that is not
      blank, and for an email input that is not empty, one the email expression matches. This is the
      conjunction of the `validate` helpers: present, and an email when it is one. */
  predicate InputOk(value: string, isEmail: bool)
    ensures InputOk(value, isEmail) <==> Required(Some(value)) && (isEmail ==> Email(value))
  {
    assert value == "" ==> JsTrim(value) == "";
    JsTrim(value) != "" && (isEmail && value != "" ==> Email(value))
  }

  /** A `form[data-validate]`: its `[required]` inputs, each an email input or not, their values and `error`
      classes, the values `form.reset()` restores, and whether it has a `.form-success` element and that is shown. */
  class Form {
    const isEmail: seq<bool>
    const defaults: seq<string>
    const hasSuccess: bool
    var values: seq<string>
    var error: seq<bool>
    var successShown: bool

    predicate Valid()
      reads this
    {
      |values| == |error| == |isEmail| == |defaults|
    }

    constructor(isEmail: seq<bool>, defaults: seq<string>, hasSuccess: bool)
      requires |defaults| == |isEmail|
      ensures Valid() && this.isEmail == isEmail && this.defaults == defaults && this.hasSuccess == hasSuccess
      ensures values == defaults && !successShown && forall k :: 0 <= k < |error| ==> !error[k]
    {
      this.isEmail := isEmail;
      this.defaults := defaults;
      this.hasSuccess := hasSuccess;
      values := defaults;
      error := seq(|isEmail|, _ => false);
      successShown := false;
    }

    /** The submit handler (scripts/main.js:285-316): every input is marked `error` exactly when it fails the
        check, the form is valid exactly when none fails, and a valid form with a success message shows it and
        is reset. */
    method Submit() returns (isValid: bool)
      requires Valid()
      modifies this
      ensures Valid()
      ensures forall k :: 0 <= k < |error| ==> error[k] == !InputOk(old(values)[k], isEmail[k])
      ensures isValid <==> forall k :: 0 <= k < |isEmail| ==> InputOk(old(values)[k], isEmail[k])
      ensures isValid ==> forall k :: 0 <= k < |error| ==> !error[k]
      ensures isValid && hasSuccess ==> successShown && values == defaults
      ensures !(isValid && hasSuccess) ==> successShown == old(successShown) && values == old(values)
    {
      isValid := true;
      var k := 0;
      while k < |values|
        invariant 0 <= k <= |values| && Valid() && values == old(values) && successShown == old(successShown)
        invariant forall i :: 0 <= i < k ==> error[i] == !InputOk(values[i], isEmail[i])
        invariant isValid <==> forall i :: 0 <= i < k ==> InputOk(values[i], isEmail[i])
      {
        var value := values[k];
        if JsTrim(value) == "" {
          isValid := false;
          error := error[k := true];
        } else {
          error := error[k := false];
        }
        if isEmail[k] && value != "" {
          if !Email(value) {
            isValid := false;
            error := error[k := true];
          }
        }
        k := k + 1;
      }
      if isValid && hasSuccess {
        successShown := true;
        values := defaults;
      }
    }
  }
}
