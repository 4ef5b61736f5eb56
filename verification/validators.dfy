/**
  The four field rules of the registration form. Each takes the already
  trimmed value of its field and returns whether the field is valid together
  with the status the form shows for it: `Success`, or `Error` with the one
  message of the first rule that failed.
 */
module Validators {
  import opened Wrappers
  import opened Text
  import EmailPattern

  /** What the form shows next to one field. */
  datatype Status = Success | Error(message: string)

  /** The boolean a rule returns and the status it shows. */
  datatype Verdict = Verdict(valid: bool, status: Status)

  /** A verdict is valid exactly when it shows success, and errors carry text. */
  predicate WellFormed(v: Verdict) {
    && (v.valid <==> v.status == Success)
    && (v.status.Error? ==> v.status.message != "")
  }

  const UsernameRequired := "Username is required"
  const EmailRequired := "Email is required"
  const EmailInvalid := "Provide a valid email address"
  const PasswordRequired := "Password is required"
  const PasswordTooShort := "Password must be at least 8 characters"
  const PasswordNeedsNumber := "Password must contain at least one number"
  const PasswordNeedsCapital := "Password must contain at least one capital letter"
  const PasswordNeedsLowercase := "Password must contain at least one lowercase letter"
  const PasswordNeedsSpecial := "Password must contain at least one special character"
  const ConfirmRequired := "Please confirm your password"
  const PasswordsDiffer := "Passwords doesn't match"

  /** Minimum password length. */
  const MinPasswordLength := 8

  // ---------------------------------------------------------------------------
  // Username
  // ---------------------------------------------------------------------------

  function ValidateUsername(value: string): (r: Verdict)
    ensures WellFormed(r)
    ensures r.valid <==> value != ""
    ensures !r.valid ==> r.status == Error(UsernameRequired)
  {
    if value == "" then Verdict(false, Error(UsernameRequired))
    else Verdict(true, Success)
  }

  // ---------------------------------------------------------------------------
  // Email
  // ---------------------------------------------------------------------------

  /**
    `validateEmail` evaluates the pattern on the lower-cased value before the
    empty check; the empty check still decides the message.
   */
  function ValidateEmail(value: string): (r: Verdict)
    ensures WellFormed(r)
    ensures r.valid <==> value != "" && EmailPattern.Matches(LowerAscii(value))
    ensures value == "" ==> r.status == Error(EmailRequired)
    ensures value != "" && !r.valid ==> r.status == Error(EmailInvalid)
  {
    var lowered := LowerAscii(value);
    var isValidEmail := EmailPattern.IsEmail(lowered);
    if value == "" then Verdict(false, Error(EmailRequired))
    else if !isValidEmail then Verdict(false, Error(EmailInvalid))
    else Verdict(true, Success)
  }

  /** A non-empty value without an '@' is always reported as malformed. */
  lemma EmailWithoutAtIsInvalid(value: string)
    requires value != ""
    requires forall k | 0 <= k < |value| :: value[k] != '@'
    ensures ValidateEmail(value).status == Error(EmailInvalid)
  {
  }

  // ---------------------------------------------------------------------------
  // Password
  // ---------------------------------------------------------------------------

  /** The characters of `/[!@#$%^&*()_+\-=\[\]{};':"\\|,.<>\/?]+/`. */
  const SpecialChars := "!@#$%^&*()_+-=[]{};':\"\\|,.<>/?"

  /** A special character is printable ASCII and neither a digit, a letter nor whitespace. */
  predicate IsSpecial(c: char)
    ensures IsSpecial(c) ==> '!' <= c <= '~'
    ensures IsSpecial(c) ==> !IsDigit(c) && !IsAsciiLetter(c) && !IsWhitespace(c)
  {
    SpecialCharsArePunctuation();
    c in SpecialChars
  }

  lemma SpecialCharsArePunctuation()
    ensures forall k | 0 <= k < |SpecialChars| ::
              '!' <= SpecialChars[k] <= '~' && !IsDigit(SpecialChars[k]) && !IsAsciiLetter(SpecialChars[k])
  {
  }

  /** `/\d/.test`: some character is a digit. */
  predicate HasNumber(s: string) {
    exists k | 0 <= k < |s| :: IsDigit(s[k])
  }

  /** `/[A-Z]/.test`: some character is a capital. */
  predicate HasCapital(s: string) {
    exists k | 0 <= k < |s| :: IsUpper(s[k])
  }

  /** `/[a-z]/.test`: some character is a lowercase letter. */
  predicate HasLowercase(s: string) {
    exists k | 0 <= k < |s| :: IsLower(s[k])
  }

  /** The special-character test: some character is special. */
  predicate HasSpecial(s: string) {
    exists k | 0 <= k < |s| :: IsSpecial(s[k])
  }

  /** The checks of `validatePassword`, in the order it applies them. */
  datatype PasswordRule = Required | MinLength | Number | Capital | Lowercase | Special

  const PasswordRules: seq<PasswordRule> := [Required, MinLength, Number, Capital, Lowercase, Special]

  predicate Satisfies(value: string, rule: PasswordRule) {
    match rule
    case Required => value != ""
    case MinLength => |value| >= MinPasswordLength
    case Number => HasNumber(value)
    case Capital => HasCapital(value)
    case Lowercase => HasLowercase(value)
    case Special => HasSpecial(value)
  }

  function RuleMessage(rule: PasswordRule): string {
    match rule
    case Required => PasswordRequired
    case MinLength => PasswordTooShort
    case Number => PasswordNeedsNumber
    case Capital => PasswordNeedsCapital
    case Lowercase => PasswordNeedsLowercase
    case Special => PasswordNeedsSpecial
  }

  /** The first rule of `rules` that `value` violates, if any. */
  function FirstViolated(rules: seq<PasswordRule>, value: string): (r: Option<PasswordRule>)
    ensures r.None? <==> forall k | 0 <= k < |rules| :: Satisfies(value, rules[k])
    ensures r.Some? ==> exists k | 0 <= k < |rules| ::
              && rules[k] == r.value
              && !Satisfies(value, rules[k])
              && forall m | 0 <= m < k :: Satisfies(value, rules[m])
  {
    if |rules| == 0 then None
    else if !Satisfies(value, rules[0]) then Some(rules[0])
    else
      var rest := FirstViolated(rules[1..], value);
      assert rest.Some? ==> exists k | 0 <= k < |rules| ::
        && rules[k] == rest.value
        && !Satisfies(value, rules[k])
        && forall m | 0 <= m < k :: Satisfies(value, rules[m]) by {
        if rest.Some? {
          var k :| 0 <= k < |rules[1..]| && rules[1..][k] == rest.value
                   && !Satisfies(value, rules[1..][k])
                   && forall m | 0 <= m < k :: Satisfies(value, rules[1..][m]);
          assert forall m | 0 < m < k + 1 :: rules[m] == rules[1..][m - 1];
        }
      }
      rest
  }

  /** A password every rule accepts. */
  predicate StrongPassword(value: string) {
    && |value| >= MinPasswordLength
    && HasNumber(value) && HasCapital(value) && HasLowercase(value) && HasSpecial(value)
  }

  function ValidatePassword(value: string): (r: Verdict)
    ensures WellFormed(r)
    ensures r.valid <==> StrongPassword(value)
    ensures value == "" ==> r.status == Error(PasswordRequired)
  {
    if value == "" then Verdict(false, Error(PasswordRequired))
    else if |value| < MinPasswordLength then Verdict(false, Error(PasswordTooShort))
    else if !HasNumber(value) then Verdict(false, Error(PasswordNeedsNumber))
    else if !HasCapital(value) then Verdict(false, Error(PasswordNeedsCapital))
    else if !HasLowercase(value) then Verdict(false, Error(PasswordNeedsLowercase))
    else if !HasSpecial(value) then Verdict(false, Error(PasswordNeedsSpecial))
    else Verdict(true, Success)
  }

  /**
    The message shown is the one of the first rule, in source order, that the
    value violates; success exactly when none is violated.
   */
  lemma PasswordFirstFailureWins(value: string)
    ensures ValidatePassword(value).status ==
      match FirstViolated(PasswordRules, value)
      case None => Success
      case Some(rule) => Error(RuleMessage(rule))
  {
    var rules := PasswordRules;
    assert rules[0] == Required && rules[1] == MinLength && rules[2] == Number;
    assert rules[3] == Capital && rules[4] == Lowercase && rules[5] == Special;
    assert rules[1..] == [MinLength, Number, Capital, Lowercase, Special];
    assert rules[1..][1..] == [Number, Capital, Lowercase, Special];
    assert rules[1..][1..][1..] == [Capital, Lowercase, Special];
    assert rules[1..][1..][1..][1..] == [Lowercase, Special];
    assert rules[1..][1..][1..][1..][1..] == [Special];
    assert rules[1..][1..][1..][1..][1..][1..] == [];
  }

  // ---------------------------------------------------------------------------
  // Password confirmation
  // ---------------------------------------------------------------------------

  function ValidateConfirmPassword(confirm: string, password: string): (r: Verdict)
    ensures WellFormed(r)
    ensures r.valid <==> confirm != "" && confirm == password
    ensures confirm == "" ==> r.status == Error(ConfirmRequired)
    ensures confirm != "" && confirm != password ==> r.status == Error(PasswordsDiffer)
  {
    if confirm == "" then Verdict(false, Error(ConfirmRequired))
    else if confirm != password then Verdict(false, Error(PasswordsDiffer))
    else Verdict(true, Success)
  }

  /** An accepted confirmation repeats a non-empty password exactly. */
  lemma ConfirmedPasswordIsRepeated(confirm: string, password: string)
    requires ValidateConfirmPassword(confirm, password).valid
    ensures confirm == password && password != ""
  {
  }
}
