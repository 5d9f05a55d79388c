/** Field validation of the consultation form (tyh.js `validateField`):
    the verdict on a field's trimmed value, decided by its `type`, and the
    error marker the function leaves on the field. */
module FormValidation {
  import opened JsText

  /** The `type` attribute of the field, as far as the rules look at it. */
  datatype FieldType = Email | Tel | OtherType

  datatype Verdict = Valid | Invalid(message: string)

  const EmailMessage: string := "Please enter a valid email address"
  const PhoneMessage: string := "Please enter a valid phone number"
  const RequiredMessage: string := "This field is required"

  // ---------------------------------------------------------------------
  // The e-mail rule: /^[^\s@]+@[^\s@]+\.[^\s@]+$/

  predicate NoSpaceOrAt(s: string)
  {
    forall i | 0 <= i < |s| :: !IsSpace(s[i]) && s[i] != '@'
  }

  /** `at` and `dot` are the positions of the literal `@` and `.` in a match
      of the e-mail expression: three non-empty runs of characters that are
      neither white space nor `@` around them. */
  ghost predicate EmailSplit(s: string, at: int, dot: int)
  {
    0 < at && at + 1 < dot && dot + 1 < |s| && s[at] == '@' && s[dot] == '.' &&
    NoSpaceOrAt(s[..at]) && NoSpaceOrAt(s[at + 1..dot]) && NoSpaceOrAt(s[dot + 1..])
  }

  /** The whole text matches the e-mail expression. */
  ghost predicate EmailPattern(s: string)
  {
    exists at, dot :: EmailSplit(s, at, dot)
  }

  /** The e-mail rule read directly: no white space, exactly one `@`, with
      something before it, and after it a `.` that is neither the first nor
      the last character. */
  predicate ValidEmail(s: string)
  {
    NoSpace(s) && '@' in s &&
    var at := IndexOf(s, '@');
    var domain := s[at + 1..];
    at > 0 && '@' !in domain && |domain| >= 3 && '.' in domain[1..|domain| - 1]
  }

  /** The direct reading decides exactly the texts the expression matches. */
  lemma EmailPatternIff(s: string)
    ensures EmailPattern(s) <==> ValidEmail(s)
  {
    if ValidEmail(s) {
      ValidEmailMatches(s);
    }
    if EmailPattern(s) {
      var at, dot :| EmailSplit(s, at, dot);
      MatchIsValidEmail(s, at, dot);
    }
  }

  /** A text accepted by the direct reading splits at its `@` and at a `.`
      of the domain. */
  lemma ValidEmailMatches(s: string)
    requires ValidEmail(s)
    ensures EmailPattern(s)
  {
    var at := IndexOf(s, '@');
    var domain := s[at + 1..];
    var j :| 0 <= j < |domain| - 2 && domain[1..|domain| - 1][j] == '.';
    var dot := at + 2 + j;
    assert s[dot] == '.';
    assert s[at + 1..dot] == domain[..j + 1];
    assert s[dot + 1..] == domain[j + 2..];
    assert EmailSplit(s, at, dot);
  }

  /** A match of the expression has its `@` as the only one, and the
      direct reading accepts it. */
  lemma MatchIsValidEmail(s: string, at: int, dot: int)
    requires EmailSplit(s, at, dot)
    ensures ValidEmail(s)
  {
    assert '@' in s[..at + 1];
    assert IndexOf(s, '@') == at;
    var domain := s[at + 1..];
    assert domain == s[at + 1..dot] + [s[dot]] + s[dot + 1..];
    assert '@' !in domain;
    assert domain[1..|domain| - 1][dot - at - 2] == '.';
    forall i | 0 <= i < |s| ensures !IsSpace(s[i]) {
      if i < at {
        assert s[..at][i] == s[i];
      } else if at < i < dot {
        assert s[at + 1..dot][i - at - 1] == s[i];
      } else if dot < i {
        assert s[dot + 1..][i - dot - 1] == s[i];
      }
    }
  }

  // ---------------------------------------------------------------------
  // The telephone rule: /^[\+]?[\d\s\-\(\)]{10,}$/

  /** A member of the class [\d\s\-\(\)]; `\d` is the ASCII digits. */
  predicate PhoneChar(c: char)
  {
    ('0' <= c <= '9') || IsSpace(c) || c == '-' || c == '(' || c == ')'
  }

  /** Ten or more characters of the class. */
  predicate PhoneRun(t: string)
  {
    |t| >= 10 && forall i | 0 <= i < |t| :: PhoneChar(t[i])
  }

  /** The telephone expression as an alternation: the run alone, or a `+`
      followed by the run. */
  ghost predicate PhonePattern(s: string)
  {
    PhoneRun(s) || (|s| > 0 && s[0] == '+' && PhoneRun(s[1..]))
  }

  /** The telephone rule read directly: strip one leading `+` if there is
      one, and what is left must be a run. */
  predicate ValidPhone(s: string)
  {
    var body := if |s| > 0 && s[0] == '+' then s[1..] else s;
    PhoneRun(body)
  }

  /** Since `+` is not in the class, the optional `+` can only be the
      leading one, and the direct reading agrees with the expression. */
  lemma PhonePatternIff(s: string)
    ensures PhonePattern(s) <==> ValidPhone(s)
  {
    if |s| > 0 && s[0] == '+' {
      assert !PhoneChar(s[0]);
    }
  }

  // ---------------------------------------------------------------------
  // The verdict

  /** The verdict of `validateField` on a field of the given type, whose
      `required` flag is as given and whose raw `value` is `raw`. */
  function Check(kind: FieldType, required: bool, raw: string): (v: Verdict)
    ensures kind == Email ==> (v.Valid? <==> EmailPattern(Trim(raw)))
    ensures kind == Tel ==> (v.Valid? <==> PhonePattern(Trim(raw)))
    ensures kind == OtherType ==> (v.Invalid? <==> required && AllSpace(raw))
    ensures v.Invalid? ==> v.message == match kind
      case Email => EmailMessage
      case Tel => PhoneMessage
      case OtherType => RequiredMessage
  {
    var value := Trim(raw);
    EmailPatternIff(value);
    PhonePatternIff(value);
    TrimEmptyIff(raw);
    match kind
    case Email => if ValidEmail(value) then Valid else Invalid(EmailMessage)
    case Tel => if ValidPhone(value) then Valid else Invalid(PhoneMessage)
    case OtherType => if required && value == [] then Invalid(RequiredMessage) else Valid
  }

  /** The rules see only the trimmed value: surrounding white space never
      changes a verdict. */
  lemma CheckSeesTrimmedValue(kind: FieldType, required: bool, raw: string)
    ensures Check(kind, required, raw) == Check(kind, required, Trim(raw))
  {
    TrimIdempotent(raw);
  }

  /** An e-mail or telephone field with a blank value fails even when it is
      not required, because only the expression is consulted. */
  lemma TypedFieldsRejectBlank(required: bool, raw: string)
    requires AllSpace(raw)
    ensures Check(Email, required, raw) == Invalid(EmailMessage)
    ensures Check(Tel, required, raw) == Invalid(PhoneMessage)
  {
    TrimEmptyIff(raw);
    assert !ValidEmail([]);
  }

  /** Lower-case letters are neither white space nor `@`. */
  lemma LowercaseWord(w: string)
    requires forall i | 0 <= i < |w| :: 'a' <= w[i] <= 'z'
    ensures NoSpaceOrAt(w)
  {
  }

  /** An ordinary address is accepted. */
  lemma AcceptsPlainAddress()
    ensures ValidEmail("user@example.com")
  {
    var s := "user@example.com";
    assert s[..4] == "user" && s[5..12] == "example" && s[13..] == "com";
    LowercaseWord("user");
    LowercaseWord("example");
    LowercaseWord("com");
    assert EmailSplit(s, 4, 12);
    MatchIsValidEmail(s, 4, 12);
  }

  /** An address with nothing after the `@`, one with white space instead
      of an `@`, and one with nothing before the `@` are rejected. */
  lemma RejectsMalformedAddresses()
    ensures !ValidEmail("user@") && !ValidEmail("user example.com") && !ValidEmail("@example.com")
  {
    assert IsSpace("user example.com"[4]);
    assert IndexOf("@example.com", '@') == 0;
  }

  /** A formatted international number is accepted; five digits are too few. */
  lemma PhoneExamples()
    ensures ValidPhone("+1 (555) 123-4567") && !ValidPhone("12345")
  {
    assert "+1 (555) 123-4567"[1..] == "1 (555) 123-4567";
  }

  // ---------------------------------------------------------------------
  // The field and its error marker

  /** An input of the form: its type and `required` flag from the markup, its
      current value, whether it carries the `error` class, and the texts of
      the `.error-message` elements under its parent, in document order. */
  class FormField {
    const kind: FieldType
    const required: bool
    var value: string
    var hasErrorClass: bool
    var errorMessages: seq<string>

    /** The marker is consistent: at most one message, present exactly when
        the `error` class is. */
    ghost predicate Marked()
      reads this
    {
      |errorMessages| <= 1 && (hasErrorClass <==> |errorMessages| == 1)
    }

    constructor (kind: FieldType, required: bool, value: string)
      ensures this.kind == kind && this.required == required && this.value == value
      ensures !hasErrorClass && errorMessages == []
      ensures Marked()
    {
      this.kind := kind;
      this.required := required;
      this.value := value;
      hasErrorClass := false;
      errorMessages := [];
    }

    /** `validateField`: removes the `error` class and the first error
        message under the parent, decides the verdict, and when it is
        negative adds the class and appends one message. */
    method Validate() returns (isValid: bool)
      modifies this
      ensures isValid == Check(kind, required, value).Valid?
      ensures value == old(value) && hasErrorClass == !isValid
      ensures errorMessages ==
        (if old(errorMessages) == [] then [] else old(errorMessages)[1..]) +
        (if isValid then [] else [Check(kind, required, value).message])
      ensures old(Marked()) ==> Marked() && (|errorMessages| == 1 <==> !isValid)
    {
      hasErrorClass := false;
      if errorMessages != [] {
        errorMessages := errorMessages[1..];
      }
      var verdict := Check(kind, required, value);
      isValid := verdict.Valid?;
      if !isValid {
        hasErrorClass := true;
        errorMessages := errorMessages + [verdict.message];
      }
    }
  }

  /** Validating twice in a row leaves one marker, not two: the second call
      removes the message the first one added. */
  method ValidateTwice(field: FormField) returns (first: bool, second: bool)
    requires field.Marked()
    modifies field
    ensures first == second && field.Marked()
    ensures |field.errorMessages| == (if second then 0 else 1)
  {
    first := field.Validate();
    second := field.Validate();
  }
}
