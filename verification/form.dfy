/**
  The two drivers of the registration form: whole-form validation on submit
  and single-field validation on each keystroke. The page's error/success
  markers are modelled as a map from field to the status last shown.
 */
module Form {
  import opened Wrappers
  import opened Text
  import opened Validators
  import EmailPattern

  /** The four inputs of the form. */
  datatype Field = Username | Email | Password | Password2

  /** The `name` attribute of each input. */
  function Name(f: Field): string {
    match f
    case Username => "username"
    case Email => "email"
    case Password => "password"
    case Password2 => "password2"
  }

  /** The input a `name` attribute denotes, if it is one of the four. */
  function ParseField(name: string): (r: Option<Field>)
    ensures forall f: Field :: r == Some(f) <==> name == Name(f)
  {
    if name == "username" then Some(Username)
    else if name == "email" then Some(Email)
    else if name == "password" then Some(Password)
    else if name == "password2" then Some(Password2)
    else None
  }

  /** Every field of the form. */
  const AllFields: set<Field> := {Username, Email, Password, Password2}

  lemma FieldCases(f: Field)
    ensures f == Username || f == Email || f == Password || f == Password2
  {
  }

  /** The raw (untrimmed) values of the four inputs, read at one instant. */
  datatype Snapshot = Snapshot(username: string, email: string, password: string, password2: string)

  /** The status shown next to each field; a field not yet validated has no entry. */
  type StatusMap = map<Field, Status>

  /** What one submit produces: the aggregate boolean and the statuses now shown. */
  datatype Submission = Submission(valid: bool, shown: StatusMap)

  /**
    The verdict the rule for `field` gives on `snap`, after trimming; the
    confirmation is compared with the trimmed password of the same snapshot.
   */
  function FieldVerdict(field: Field, snap: Snapshot): (v: Verdict)
    ensures WellFormed(v)
  {
    match field
    case Username => ValidateUsername(Trim(snap.username))
    case Email => ValidateEmail(Trim(snap.email))
    case Password => ValidatePassword(Trim(snap.password))
    case Password2 => ValidateConfirmPassword(Trim(snap.password2), Trim(snap.password))
  }

  /** The conjunction over all fields is the conjunction of the four. */
  lemma AllFieldsValid(snap: Snapshot)
    ensures (forall f: Field :: FieldVerdict(f, snap).valid) <==>
      && FieldVerdict(Username, snap).valid && FieldVerdict(Email, snap).valid
      && FieldVerdict(Password, snap).valid && FieldVerdict(Password2, snap).valid
  {
    forall f: Field ensures
      && FieldVerdict(Username, snap).valid && FieldVerdict(Email, snap).valid
      && FieldVerdict(Password, snap).valid && FieldVerdict(Password2, snap).valid
      ==> FieldVerdict(f, snap).valid
    {
      FieldCases(f);
    }
  }

  /**
    `isValidForm`: trims the four values, runs all four rules without
    stopping at the first failure, shows every field's status and returns
    the conjunction.
   */
  function IsValidForm(snap: Snapshot, shown: StatusMap): (r: Submission)
    ensures forall f: Field :: f in r.shown && r.shown[f] == FieldVerdict(f, snap).status
    ensures r.valid <==> forall f: Field :: FieldVerdict(f, snap).valid
  {
    var statuses := map f | f in AllFields :: FieldVerdict(f, snap).status;
    assert forall f: Field :: f in AllFields by {
      forall f: Field ensures f in AllFields {
        FieldCases(f);
      }
    }
    AllFieldsValid(snap);
    Submission(
      && FieldVerdict(Username, snap).valid && FieldVerdict(Email, snap).valid
      && FieldVerdict(Password, snap).valid && FieldVerdict(Password2, snap).valid,
      shown + statuses)
  }

  /**
    `validateInput`: runs the one rule for the input called `name` and shows
    its status, which is the status a submit of the same snapshot shows for
    that field; no other field changes, and an unknown name changes nothing.
   */
  function ValidateInput(name: string, snap: Snapshot, shown: StatusMap): (r: StatusMap)
    ensures forall g: Field :: g in r <==> g in shown || ParseField(name) == Some(g)
    ensures forall g: Field | g in r ::
              r[g] == if ParseField(name) == Some(g) then FieldVerdict(g, snap).status else shown[g]
  {
    match ParseField(name)
    case Some(Username) =>
      shown[Username := ValidateUsername(Trim(snap.username)).status]
    case Some(Email) =>
      shown[Email := ValidateEmail(Trim(snap.email)).status]
    case Some(Password) =>
      shown[Password := ValidatePassword(Trim(snap.password)).status]
    case Some(Password2) =>
      var passwordValue := Trim(snap.password);
      shown[Password2 := ValidateConfirmPassword(Trim(snap.password2), passwordValue).status]
    case None =>
      shown
  }

  // ---------------------------------------------------------------------------
  // Properties of the drivers
  // ---------------------------------------------------------------------------

  /**
    The form is valid exactly when the trimmed username is non-empty, the
    lower-cased trimmed email matches the pattern, the trimmed password is
    strong and the trimmed confirmation repeats it.
   */
  lemma FormValidIff(snap: Snapshot, shown: StatusMap)
    ensures IsValidForm(snap, shown).valid <==>
      && Trim(snap.username) != ""
      && EmailPattern.Matches(LowerAscii(Trim(snap.email)))
      && StrongPassword(Trim(snap.password))
      && Trim(snap.password2) == Trim(snap.password)
  {
    AllFieldsValid(snap);
    FieldValidIff(Username, snap);
    FieldValidIff(Email, snap);
    FieldValidIff(Password, snap);
    FieldValidIff(Password2, snap);
  }

  /** What each field's rule accepts, stated on the raw snapshot. */
  ghost predicate Accepts(f: Field, snap: Snapshot) {
    match f
    case Username => Trim(snap.username) != ""
    case Email => Trim(snap.email) != "" && EmailPattern.Matches(LowerAscii(Trim(snap.email)))
    case Password => StrongPassword(Trim(snap.password))
    case Password2 => Trim(snap.password2) != "" && Trim(snap.password2) == Trim(snap.password)
  }

  lemma FieldValidIff(f: Field, snap: Snapshot)
    ensures FieldVerdict(f, snap).valid <==> Accepts(f, snap)
  {
    match f
    case Username =>
    case Email =>
    case Password =>
    case Password2 =>
  }

  /** Submitting twice on the same snapshot gives the same answer and the same display. */
  lemma IsValidFormIdempotent(snap: Snapshot, shown: StatusMap)
    ensures IsValidForm(snap, IsValidForm(snap, shown).shown) == IsValidForm(snap, shown)
  {
    var once := IsValidForm(snap, shown);
    var twice := IsValidForm(snap, once.shown);
    assert twice.shown.Keys == once.shown.Keys;
    assert forall f | f in twice.shown :: twice.shown[f] == once.shown[f];
  }

  /** The answer and the four fields shown do not depend on what was shown before. */
  lemma IsValidFormIgnoresPreviousDisplay(snap: Snapshot, shown1: StatusMap, shown2: StatusMap)
    ensures IsValidForm(snap, shown1).valid == IsValidForm(snap, shown2).valid
    ensures forall f: Field ::
              IsValidForm(snap, shown1).shown[f] == IsValidForm(snap, shown2).shown[f]
  {
  }

  /** The raw values the rule for `f` reads agree in `s1` and `s2`. */
  predicate SameInputs(f: Field, s1: Snapshot, s2: Snapshot) {
    match f
    case Username => s1.username == s2.username
    case Email => s1.email == s2.email
    case Password => s1.password == s2.password
    case Password2 => s1.password == s2.password && s1.password2 == s2.password2
  }

  /**
    Each field's status depends only on its own value (the confirmation also
    on the password), so editing one field leaves the others' statuses alone.
   */
  lemma FieldStatusIsLocal(f: Field, s1: Snapshot, s2: Snapshot, shown1: StatusMap, shown2: StatusMap)
    requires SameInputs(f, s1, s2)
    ensures IsValidForm(s1, shown1).shown[f] == IsValidForm(s2, shown2).shown[f]
  {
    assert FieldVerdict(f, s1) == FieldVerdict(f, s2);
  }

  /**
    Typing in each of the four fields in turn, on one snapshot, leaves the
    page showing exactly what a submit of that snapshot shows.
   */
  lemma KeystrokesAgreeWithSubmit(snap: Snapshot, shown: StatusMap)
    ensures ValidateInput(Name(Password2), snap,
              ValidateInput(Name(Password), snap,
                ValidateInput(Name(Email), snap,
                  ValidateInput(Name(Username), snap, shown))))
            == IsValidForm(snap, shown).shown
  {
    var r := IsValidForm(snap, shown).shown;
    var m1 := ValidateInput(Name(Username), snap, shown);
    KeystrokeShowsSubmitStatus(Username, snap, shown, shown);
    var m2 := ValidateInput(Name(Email), snap, m1);
    KeystrokeShowsSubmitStatus(Email, snap, shown, m1);
    var m3 := ValidateInput(Name(Password), snap, m2);
    KeystrokeShowsSubmitStatus(Password, snap, shown, m2);
    var m4 := ValidateInput(Name(Password2), snap, m3);
    KeystrokeShowsSubmitStatus(Password2, snap, shown, m3);
    OverwriteAllFields(shown, r);
  }

  /** A display holding all four fields is any display with the four fields overwritten. */
  lemma OverwriteAllFields(shown: StatusMap, r: StatusMap)
    requires forall f: Field :: f in r
    ensures r == shown[Username := r[Username]][Email := r[Email]][Password := r[Password]][Password2 := r[Password2]]
  {
    var m := shown[Username := r[Username]][Email := r[Email]][Password := r[Password]][Password2 := r[Password2]];
    forall f: Field ensures f in m && m[f] == r[f] {
      FieldCases(f);
    }
    assert m.Keys == r.Keys;
  }

  /**
    A keystroke in field `f` shows what a submit of the same snapshot shows
    for `f`, whatever the page showed before, and touches nothing else.
   */
  lemma KeystrokeShowsSubmitStatus(f: Field, snap: Snapshot, shown: StatusMap, current: StatusMap)
    ensures ValidateInput(Name(f), snap, current) == current[f := IsValidForm(snap, shown).shown[f]]
  {
    assert ParseField(Name(f)) == Some(f);
    var typed := ValidateInput(Name(f), snap, current);
    var expected := current[f := IsValidForm(snap, shown).shown[f]];
    assert typed.Keys == expected.Keys;
    assert forall g | g in typed :: typed[g] == expected[g];
  }

  /** A username of whitespace only trims to empty and is reported as required. */
  lemma BlankUsernameIsRequired(snap: Snapshot, shown: StatusMap)
    requires AllWhitespace(snap.username)
    ensures IsValidForm(snap, shown).shown[Username] == Error(UsernameRequired)
    ensures !IsValidForm(snap, shown).valid
  {
  }

  /** A valid form always carries a confirmation equal to a non-empty password. */
  lemma ValidFormConfirmsPassword(snap: Snapshot, shown: StatusMap)
    ensures IsValidForm(snap, shown).valid ==> Trim(snap.password2) == Trim(snap.password) != ""
  {
    FormValidIff(snap, shown);
  }
}
