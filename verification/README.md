# Registration form validation, modelled in Dafny

This project models the client-side validation of a four-field registration form: username, email, password and password confirmation. The source is `src/js/script.js`.

- **Field rules.** Each of the four rules takes a trimmed value. It returns whether the value is acceptable, and it marks the field on the page either as a success or as an error carrying one message.
  - The username must be non-empty.
  - The email, once lower-cased, must match one fixed regular expression.
  - The password goes through an ordered chain of checks, and the first one that fails supplies the message: required, at least 8 characters, a digit, a capital, a lowercase letter, a special character.
  - The confirmation must be non-empty and equal to the password.
- **Submit.** `isValidForm` trims all four values and runs all four rules. It does not stop at the first failure, so every field gets a status. It returns the conjunction of the four results.
- **Keystroke.** `validateInput` runs only the rule for the field being typed in. The confirmation is still compared with the trimmed password.

How the model is laid out:

- `wrappers.dfy`: `Option`.
- `text.dfy`:
  - the character classes the rules use;
  - the ECMAScript whitespace set, which `trim` strips and `\s` matches;
  - `Trim`, ASCII lower-casing, and first/last occurrence of a character.
- `email_pattern.dfy`:
  - The email regular expression is written twice.
  - The first version is a set of ghost predicates that follow the pattern's structure. Every `+`, `*` and concatenation is an existential choice of split point.
  - The second is a compiled recogniser that makes no choices. It splits at the last `@`, because a domain never contains one. It splits dot-separated runs at their first `.`. A host name's top label starts after its last `.`.
  - The `...Correct` lemmas prove that the two versions accept the same strings.
- `validators.dfy`: the four rules. The page marker is a `Status`: either `Success` or `Error(message)`, with the source's message texts.
- `form.dfy`:
  - The page's error and success markers become a map from field to the status last shown. `setError` and `setSuccess` become map updates.
  - The form data read at one instant is a `Snapshot`.
  - `IsValidForm` and `ValidateInput` act on these two.
- `scenarios.dfy`: concrete inputs and the statuses the rules give them.

## Model

| member | source | states |
|---|---|---|
| Text.Trim | src/js/script.js:137-140 | The result is an infix of the input with whitespace both before and after it, and it neither starts nor ends with whitespace. It is empty exactly when the input is all whitespace. |
| Text.TrimIdempotent | src/js/script.js:137-140 | Trimming an already trimmed value changes nothing. |
| Text.IsWhitespace | src/js/script.js:137-140 | The characters `trim` strips and `\s` matches (ECMAScript WhiteSpace and LineTerminator). Every one of them is a single UTF-16 code unit. |
| Text.LowerAscii | src/js/script.js:59 | Lower-casing keeps the length, maps each A-Z to its lowercase letter, leaves every other character alone, and leaves no capital behind. |
| Text.LowerAsciiKeepsLowercase | src/js/script.js:59 | Lower-casing leaves a value without capitals unchanged. |
| EmailPattern.DotAtomCorrect | src/js/script.js:58 | The deterministic recogniser, which splits at the first dot, accepts exactly the dot-separated atoms `A(\.A)*` of the pattern. |
| EmailPattern.LocalPartCorrect | src/js/script.js:58 | The recogniser accepts exactly the pattern's local parts: a dot-atom or a quoted string. |
| EmailPattern.OctetsCorrect | src/js/script.js:58 | The recogniser accepts exactly `n` dot-separated groups of one to three digits. |
| EmailPattern.IpLiteralCorrect | src/js/script.js:58 | The recogniser accepts exactly the bracketed dotted quads. |
| EmailPattern.LabelsCorrect | src/js/script.js:58 | The recogniser accepts exactly the `(label\.)+` prefixes of a host name. |
| EmailPattern.LabelsShape | src/js/script.js:58 | A `(label\.)+` run ends with a dot and holds only label characters and dots. |
| EmailPattern.HostNameCorrect | src/js/script.js:58 | The recogniser, which takes the text after the last dot as the top label, accepts exactly the host names of the pattern. |
| EmailPattern.OctetsShape | src/js/script.js:58 | Digit groups hold only digits and dots. |
| EmailPattern.DomainCorrect | src/js/script.js:58 | The recogniser accepts exactly the pattern's domains: an IP literal or a host name. |
| EmailPattern.DomainHasNoAt | src/js/script.js:58 | No domain the pattern accepts contains an '@'. |
| EmailPattern.Matches | src/js/script.js:58 | The language of the anchored pattern, written out split point by split point. |
| EmailPattern.MatchShape | src/js/script.js:58 | Every accepted string holds an '@' and ends with a letter or a ']', so a trailing line terminator is rejected. |
| EmailPattern.MatchesCorrect | src/js/script.js:58-59 | The recogniser accepts exactly the strings the anchored pattern matches, and every way of matching splits at the last '@'. |
| EmailPattern.IsEmail | src/js/script.js:59 | `regex.test` on the pattern: true exactly when the anchored pattern matches. |
| Validators.ValidateUsername | src/js/script.js:45-53 | Valid exactly when the value is non-empty. Otherwise the error is "Username is required". The status is success exactly when valid. |
| Validators.ValidateEmail | src/js/script.js:56-73 | Valid exactly when the value is non-empty and its lower-cased form matches the pattern. An empty value gets "Email is required", which takes precedence over "Provide a valid email address". |
| Validators.EmailWithoutAtIsInvalid | src/js/script.js:56-69 | A non-empty value with no '@' is always reported as malformed. |
| Validators.IsSpecial | src/js/script.js:80 | Membership in the special-character class. Every special character is printable ASCII and is neither a digit, a letter nor whitespace. |
| Validators.HasNumber | src/js/script.js:77 | `/\d/.test` is true exactly when some character is an ASCII digit. |
| Validators.HasCapital | src/js/script.js:78 | `/[A-Z]/.test` is true exactly when some character is an ASCII capital. |
| Validators.HasLowercase | src/js/script.js:79 | `/[a-z]/.test` is true exactly when some character is an ASCII lowercase letter. |
| Validators.HasSpecial | src/js/script.js:80 | The special-character test is true exactly when some character is special. |
| Validators.FirstViolated | src/js/script.js:82-113 | Reference definition of the check chain. It returns the first rule in the list that the value breaks, with every earlier rule holding. It returns nothing exactly when all rules hold. |
| Validators.ValidatePassword | src/js/script.js:76-117 | Valid exactly when the value has at least 8 characters, a digit, a capital, a lowercase letter and a special character. An empty value gets "Password is required". |
| Validators.PasswordFirstFailureWins | src/js/script.js:82-116 | The status shown carries the message of the first check, in source order, that the value fails. It is success exactly when no check fails. |
| Validators.ValidateConfirmPassword | src/js/script.js:120-133 | Valid exactly when the confirmation is non-empty and equal to the password. Otherwise the message is "Please confirm your password" for an empty confirmation and "Passwords doesn't match" for a different one. |
| Validators.ConfirmedPasswordIsRepeated | src/js/script.js:120-133 | An accepted confirmation repeats a non-empty password exactly. |
| Form.ParseField | src/js/script.js:160-175 | An input name selects a field exactly when it is that field's `name` attribute. |
| Form.FieldVerdict | src/js/script.js:137-149 | Every field's verdict is valid exactly when it shows success, and every error carries a message. |
| Form.FieldValidIff | src/js/script.js:137-149 | Each field's rule accepts exactly the raw values whose trimmed form satisfies that field's condition. The confirmation is compared with the trimmed password. |
| Form.AllFieldsValid | src/js/script.js:152 | "Every field valid" is the conjunction of the four fields' results. |
| Form.IsValidForm | src/js/script.js:136-153 | After a submit, every field shows its own rule's status. The answer is true exactly when every field is valid. |
| Form.FormValidIff | src/js/script.js:136-153 | A submit succeeds exactly when the trimmed username is non-empty, the lower-cased trimmed email matches, the trimmed password is strong and the trimmed confirmation equals it. |
| Form.IsValidFormIdempotent | src/js/script.js:136-153 | Submitting the same data twice gives the same answer and the same display as submitting once. |
| Form.IsValidFormIgnoresPreviousDisplay | src/js/script.js:25-42 | Every status a submit shows, and its answer, are independent of what the page showed before. |
| Form.FieldStatusIsLocal | src/js/script.js:137-149 | A field's status after a submit depends only on the raw values its rule reads. The confirmation reads the password as well. |
| Form.ValidateInput | src/js/script.js:155-177 | A keystroke in a known field gives that field the status of the per-field rule that a submit uses, with the confirmation compared against the trimmed password. Every other field keeps what it showed, and no other entry appears. An unknown name changes nothing. |
| Form.KeystrokeShowsSubmitStatus | src/js/script.js:155-177 | Whatever the page showed before, a keystroke in field `f` shows what a submit of the same data shows for `f`. |
| Form.KeystrokesAgreeWithSubmit | src/js/script.js:6-11 | Typing in each of the four fields in turn leaves the page showing exactly what a submit shows. |
| Form.BlankUsernameIsRequired | src/js/script.js:137-147 | An all-whitespace username is reported as required and the form is invalid. |
| Form.ValidFormConfirmsPassword | src/js/script.js:146-152 | A valid form's confirmation equals its password, and the password is non-empty. |
| Scenarios.ShortPasswordFailsOnLength | src/js/script.js:87-90 | "short" fails on the length check, before any character-class check. |
| Scenarios.LowercasePasswordFailsOnCapital | src/js/script.js:97-100 | A long password with a digit but no capital fails on the capital check. |
| Scenarios.MinimalStrongPassword | src/js/script.js:76-116 | An 8-character password with one character of each class is accepted. |
| Scenarios.BacktickIsNotSpecial | src/js/script.js:80 | A backtick is not a special character, so a password whose only symbol is a backtick fails the last check. |
| Scenarios.ConfirmationComparesExactly | src/js/script.js:126-129 | The confirmation comparison is exact and case-sensitive. |
| Scenarios.EmptyValuesAreRequired | src/js/script.js:45-133 | Each rule reports its own "required" message on an empty value. |
| Scenarios.UpperCaseAddressIsValid | src/js/script.js:59 | Matching is done on the lower-cased value, so an upper-case address is accepted. |
| Scenarios.NoAtIsInvalid | src/js/script.js:66-67 | "abc" is reported as malformed. |
| Scenarios.BareHostIsInvalid | src/js/script.js:58 | A domain without a dot ("a@b") is rejected. |
| Scenarios.DoubleAtIsInvalid | src/js/script.js:58 | "x@@y.com" is rejected. |
| Scenarios.QuotedLocalPartWithAt | src/js/script.js:58 | A quoted local part may itself contain an '@'. |
| Scenarios.IpLiteralDomainIsValid | src/js/script.js:58 | A bracketed dotted quad is accepted as a domain. |
| Scenarios.LongOctetIsInvalid | src/js/script.js:58 | A four-digit group inside brackets is rejected. |

## Left out

- The DOM and event wiring (lines 3-22) is not modelled. This covers looking up the form and its inputs, registering `keyup` and `submit` listeners, `preventDefault`, and logging "IS VALID FORM". The model's entry points are the two drivers, applied to a snapshot of the form data.
- `setError` and `setSuccess` (lines 25-42) are modelled only by their effect: the status a field shows. CSS classes and the text node are presentation.
- The form data is a `Snapshot` holding the four values `isValidForm` reads (lines 137-140). If one of them were missing, its `.trim()` would throw before any field's status changes. A missing value is not represented. `FormData` itself is not modelled.
- Form.ValidateInput: for a name that is not one of the four, the model returns the display unchanged. The handler is attached to every input (line 7). For such a name, line 158 either throws, if the name is absent from the form data, or falls through to the `default` branch. Both happen before any `setError` or `setSuccess` call. The exception itself is not modelled.
- Text.LowerAscii: lower-casing is modelled for A-Z only, whereas `toLowerCase` applies full Unicode case mapping. The only mapping that changes whether the pattern matches is one that produces an ASCII letter from a non-ASCII character: KELVIN SIGN (U+212A) becomes 'k', and the pattern accepts that 'k' in a domain label. So `Validators.ValidateEmail` rejects an address with a Kelvin sign in its domain, which the source accepts.
- Validators.ValidatePassword: length is counted in Unicode scalar values, whereas JavaScript counts UTF-16 code units. A password holding characters outside the Basic Multilingual Plane can therefore reach 8 in the source with fewer characters than the model needs.
- Strings are sequences of Unicode scalar values. JavaScript's regular expressions without the `u` flag work on UTF-16 code units. Apart from the counting above, this changes nothing. Every character the pattern names is a single code unit: the ASCII characters, and every `\s` character and line terminator (`Text.IsWhitespace` states this). So a surrogate half never belongs to a named class. It is matched by a negated class or by `.` exactly when the whole character it belongs to is.
- The regular-expression engine itself is not modelled. The email pattern is written out as the language it denotes, and a recogniser is proved to decide it.
