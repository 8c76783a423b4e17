/** The form rules: registration (`CustomUserCreationForm`, limited to the
    full-name field, the uniqueness and password checks and the name
    derivation in `save`), the cross-field rule of `ChangeStatusForm` and
    the case-insensitive uniqueness of `CategoryForm.clean_name`. */
module Forms {
  import opened Common
  import opened PyText
  import opened Validators
  import opened Models

  /** The part of Django's `User` the registration form reads and writes. */
  class User {
    var username: string
    var email: string
    var firstName: string
    var lastName: string
    var isStaff: bool

    /** The unsaved user `UserCreationForm.save(commit=False)` hands back:
        login and email from the form, no names yet, not staff. */
    constructor (username: string, email: string)
      ensures this.username == username && this.email == email
      ensures firstName == "" && lastName == "" && !isStaff
    {
      this.username := username;
      this.email := email;
      firstName := "";
      lastName := "";
      isStaff := false;
    }
  }

  // ---------------------------------------------------------------------
  // The full_name field

  const FullNameMaxLength: nat := 254

  /** A character of the class `[а-яёА-ЯЁ\s\-]`. */
  predicate IsFullNameChar(c: char) {
    || ('а' <= c <= 'я') || c == 'ё'
    || ('А' <= c <= 'Я') || c == 'Ё'
    || IsSpace(c) || c == '-'
  }

  /** `^[а-яёА-ЯЁ\s\-]+$` matches: one character or more, all in the class.
      (A trailing newline, which `$` may stand before, is in the class.) */
  predicate MatchesFullNamePattern(v: string) {
    v != [] && forall i :: 0 <= i < |v| ==> IsFullNameChar(v[i])
  }

  datatype FullNameError = Required | NotCyrillic | TooLong | NullCharacter | TooFewParts | EmptyPart

  /** `forms.CharField(max_length=254, validators=[RegexValidator(...)])`
      cleaning a submitted full name: the value is stripped; an empty value
      is a required-field error and nothing else is checked; otherwise the
      validators run in their order (the pattern, the length, then the
      null-character check every `CharField` carries) and every failure is
      reported. */
  function CleanFullNameField(raw: string): (r: Result<string, seq<FullNameError>>)
    ensures r.Ok? <==> MatchesFullNamePattern(Strip(raw)) && |Strip(raw)| <= FullNameMaxLength
    ensures r.Ok? ==> r.value == Strip(raw)
    ensures r.Err? ==> (Required in r.error <==> Strip(raw) == [])
    ensures r.Err? ==> (NotCyrillic in r.error <==> Strip(raw) != [] && !MatchesFullNamePattern(Strip(raw)))
    ensures r.Err? ==> (TooLong in r.error <==> |Strip(raw)| > FullNameMaxLength)
    ensures r.Err? ==> (NullCharacter in r.error <==> ContainsNul(Strip(raw)))
  {
    var v := Strip(raw);
    if v == [] then Err([Required])
    else
      var errors := (if MatchesFullNamePattern(v) then [] else [NotCyrillic])
                  + (if |v| > FullNameMaxLength then [TooLong] else [])
                  + (if ContainsNul(v) then [NullCharacter] else []);
      if errors == [] then Ok(v) else Err(errors)
  }

  /** Cleaning is stable: the cleaned full name, submitted again, is
      accepted unchanged. */
  lemma CleanedFullNameIsStable(raw: string)
    requires CleanFullNameField(raw).Ok?
    ensures CleanFullNameField(CleanFullNameField(raw).value) == CleanFullNameField(raw)
  {
    StripIdempotent(raw);
  }

  /** Every part `split()` finds in an accepted full name is made of
      Cyrillic letters and hyphens only: the whitespace the pattern lets in
      only ever separates parts. */
  lemma AcceptedNamePartsAreCyrillic(raw: string)
    requires CleanFullNameField(raw).Ok?
    ensures var parts := Split(CleanFullNameField(raw).value);
      forall i, k :: 0 <= i < |parts| && 0 <= k < |parts[i]| ==>
        ('а' <= parts[i][k] <= 'я') || parts[i][k] == 'ё'
        || ('А' <= parts[i][k] <= 'Я') || parts[i][k] == 'Ё' || parts[i][k] == '-'
  {
    var v := Strip(raw);
    SplitYieldsWords(v);
    SplitTokensFromText(v);
    assert forall c :: c in v ==> IsFullNameChar(c);
  }

  /** `clean_full_name`: at least two whitespace-separated parts, then a
      check of every part for emptiness. The second check never fires:
      `split()` yields no empty token, so the only error is TooFewParts. */
  method CleanFullName(fullName: string) returns (r: Result<string, FullNameError>)
    ensures r.Err? <==> |Split(fullName)| < 2
    ensures r.Err? ==> r.error == TooFewParts
    ensures r.Ok? ==> r.value == fullName
  {
    var parts := Split(Strip(fullName));
    SplitIgnoresStrip(fullName);
    if |parts| < 2 {
      return Err(TooFewParts);
    }
    SplitYieldsWords(Strip(fullName));
    var i := 0;
    while i < |parts|
      invariant 0 <= i <= |parts|
    {
      assert IsWord(parts[i]);
      if parts[i] == "" {
        return Err(EmptyPart);
      }
      i := i + 1;
    }
    return Ok(fullName);
  }

  // ---------------------------------------------------------------------
  // Uniqueness and password checks

  datatype RegistrationError = UsernameTaken | EmailTaken | PasswordMismatch

  /** `clean_username`: refused when some existing user has exactly this
      login (case matters). */
  function CleanUsername(users: set<User>, username: string): (r: Result<string, RegistrationError>)
    reads users
    ensures r.Err? <==> exists u :: u in users && u.username == username
    ensures r.Err? ==> r.error == UsernameTaken
    ensures r.Ok? ==> r.value == username
  {
    if exists u :: u in users && u.username == username then Err(UsernameTaken) else Ok(username)
  }

  /** `clean_email`: refused when some existing user has exactly this email. */
  function CleanEmail(users: set<User>, email: string): (r: Result<string, RegistrationError>)
    reads users
    ensures r.Err? <==> exists u :: u in users && u.email == email
    ensures r.Err? ==> r.error == EmailTaken
    ensures r.Ok? ==> r.value == email
  {
    if exists u :: u in users && u.email == email then Err(EmailTaken) else Ok(email)
  }

  /** Once a user is stored, a second registration with the same login or
      the same email is refused. */
  lemma SecondRegistrationRefused(users: set<User>, u: User)
    requires u in users
    ensures CleanUsername(users, u.username) == Err(UsernameTaken)
    ensures CleanEmail(users, u.email) == Err(EmailTaken)
  {
  }

  /** The login check is exact: a login differing only in letter case from
      every stored one passes. */
  lemma LoginCheckIsCaseSensitive(u: User)
    requires u.username == "ivan"
    ensures CleanUsername({u}, "Ivan") == Ok("Ivan")
  {
    assert "Ivan"[0] != "ivan"[0];
  }

  /** `clean_password2`. A password that did not pass its own field check is
      absent from the cleaned data; absent and empty are written "" here,
      since Python treats both as false. */
  function CleanPassword2(password1: string, password2: string): (r: Result<string, RegistrationError>)
    ensures r.Err? <==> password1 != "" && password2 != "" && password1 != password2
    ensures r.Err? ==> r.error == PasswordMismatch
    ensures r.Ok? ==> r.value == password2
  {
    if password1 != "" && password2 != "" && password1 != password2 then Err(PasswordMismatch)
    else Ok(password2)
  }

  // ---------------------------------------------------------------------
  // save(): first and last name from the full name

  datatype Names = Names(first: string, last: string)

  /** The names `save` gives the user for a full name: the second token is
      the first name; the first token, followed by the third when there is
      one, is the last name. */
  function DerivedNames(fullName: string): (names: Names)
    ensures |Split(fullName)| < 2 ==> names == Names("", "")
    ensures |Split(fullName)| == 2 ==> names == Names(Split(fullName)[1], Split(fullName)[0])
    ensures |Split(fullName)| > 2 ==> names == Names(Split(fullName)[1], Split(fullName)[0] + " " + Split(fullName)[2])
  {
    SplitIgnoresStrip(fullName);
    var parts := Split(Strip(fullName));
    if |parts| >= 2 then
      Names(parts[1], if |parts| > 2 then parts[0] + " " + parts[2] else parts[0])
    else
      Names("", "")
  }

  /** `CustomUserCreationForm.save`, given the user `super().save(commit=False)`
      returned: sets the two names step by step, then the email. Writing the
      row to the database is not modelled. */
  method Save(user: User, fullName: string, email: string)
    modifies user
    ensures user.firstName == DerivedNames(fullName).first
    ensures user.lastName == DerivedNames(fullName).last
    ensures user.email == email
    ensures user.username == old(user.username) && user.isStaff == old(user.isStaff)
  {
    var nameParts := Split(Strip(fullName));
    if |nameParts| >= 2 {
      user.firstName := nameParts[1];
      user.lastName := nameParts[0];
      if |nameParts| > 2 {
        user.lastName := nameParts[0] + " " + nameParts[2];
      }
    } else {
      user.firstName := "";
      user.lastName := "";
    }
    user.email := email;
  }

  predicate AllWords(ws: seq<string>) {
    forall i :: 0 <= i < |ws| ==> IsWord(ws[i])
  }

  /** "Surname Name": the first name is the second word, the last name the
      first. */
  lemma NamesOfTwoWords(surname: string, name: string)
    requires IsWord(surname) && IsWord(name)
    ensures DerivedNames(Join([surname, name])) == Names(name, surname)
  {
    SplitIgnoresStrip(Join([surname, name]));
    SplitJoin([surname, name]);
  }

  /** "Surname Name Patronymic ...": the first name is the second word, the
      last name is the first and third words joined by a space, and no later
      word appears anywhere. */
  lemma NamesOfThreeOrMoreWords(ws: seq<string>)
    requires |ws| >= 3 && AllWords(ws)
    ensures DerivedNames(Join(ws)) == Names(ws[1], ws[0] + " " + ws[2])
    ensures Split(DerivedNames(Join(ws)).last) == [ws[0], ws[2]]
    ensures Split(DerivedNames(Join(ws)).first) == [ws[1]]
  {
    SplitIgnoresStrip(Join(ws));
    SplitJoin(ws);
    assert Join([ws[0], ws[2]]) == ws[0] + " " + ws[2];
    SplitJoin([ws[0], ws[2]]);
    assert Join([ws[1]]) == ws[1];
    SplitJoin([ws[1]]);
  }

  /** The name derivation is total, and once `clean_full_name` has accepted
      the name (two parts or more) both names are non-empty and the first
      name is a single word: the empty-name branch of `save` is reached only
      by a name the form refuses. */
  lemma AcceptedNameGivesBothNames(fullName: string)
    requires |Split(fullName)| >= 2
    ensures IsWord(DerivedNames(fullName).first)
    ensures DerivedNames(fullName).last != ""
  {
    SplitIgnoresStrip(fullName);
    SplitYieldsWords(fullName);
  }

  /** A run of Cyrillic letters is a word. */
  lemma CyrillicWord(w: string)
    requires w != []
    requires forall i :: 0 <= i < |w| ==> 'А' <= w[i] <= 'я'
    ensures IsWord(w)
  {
  }

  lemma JoinExample()
    ensures Join(["Иванов", "Иван", "Иванович"]) == "Иванов Иван Иванович"
  {
  }

  /** The names derived from "Иванов Иван Иванович". */
  lemma IvanovNames(ws: seq<string>)
    requires ws == ["Иванов", "Иван", "Иванович"]
    ensures DerivedNames(Join(ws)) == Names("Иван", "Иванов Иванович")
  {
    assert ws[0] + " " + ws[2] == "Иванов Иванович";
    CyrillicWord(ws[0]);
    CyrillicWord(ws[1]);
    CyrillicWord(ws[2]);
    assert AllWords(ws);
    NamesOfThreeOrMoreWords(ws);
  }

  /** Registering "Иванов Иван Иванович" gives first name "Иван" and last
      name "Иванов Иванович", and no staff flag. */
  method RegisterExample() returns (fullName: string, first: string, last: string, staff: bool)
    ensures fullName == "Иванов Иван Иванович"
    ensures first == "Иван" && last == "Иванов Иванович" && !staff
  {
    var user := new User("ivan", "ivan@example.com");
    var ws := ["Иванов", "Иван", "Иванович"];
    fullName := Join(ws);
    IvanovNames(ws);
    JoinExample();
    Save(user, fullName, "ivan@example.com");
    first, last, staff := user.firstName, user.lastName, user.isStaff;
  }

  // ---------------------------------------------------------------------
  // ChangeStatusForm.clean

  datatype StatusFormError = DesignImageRequired | AdminCommentRequired

  /** The errors `ChangeStatusForm.clean` adds, in order: the design image is
      required for "completed", the comment for "in_progress".
      `adminComment` is the comment as `clean()` reads it from the cleaned
      data: already stripped by its field, with an absent comment written
      "". So a comment of only whitespace counts as missing too. */
  function CrossFieldErrors(status: string, designImage: Option<Upload>, adminComment: string): (errs: seq<StatusFormError>)
    ensures DesignImageRequired in errs <==> status == Completed && designImage.None?
    ensures AdminCommentRequired in errs <==> status == InProgress && adminComment == ""
    ensures |errs| <= 1
  {
    (if status == Completed && designImage.None? then [DesignImageRequired] else [])
    + (if status == InProgress && adminComment == "" then [AdminCommentRequired] else [])
  }

  /** A status the model allows never needs a design image: the rule is
      written for "completed", and the finished choice is "complited". */
  lemma NoChoiceNeedsDesignImage(status: string, designImage: Option<Upload>, adminComment: string)
    requires IsStatusChoice(status)
    ensures DesignImageRequired !in CrossFieldErrors(status, designImage, adminComment)
    ensures CrossFieldErrors(status, designImage, adminComment) != []
        <==> status == InProgress && adminComment == ""
  {
  }

  /** The status form with its error list. */
  class ChangeStatusForm {
    var errors: seq<StatusFormError>

    constructor ()
      ensures errors == []
    {
      errors := [];
    }

    /** `clean`: adds the cross-field errors one `add_error` at a time. */
    method Clean(status: string, designImage: Option<Upload>, adminComment: string)
      modifies this
      ensures errors == old(errors) + CrossFieldErrors(status, designImage, adminComment)
    {
      if status == Completed && designImage.None? {
        errors := errors + [DesignImageRequired];
      }
      if status == InProgress && adminComment == "" {
        errors := errors + [AdminCommentRequired];
      }
    }
  }

  // ---------------------------------------------------------------------
  // CategoryForm.clean_name

  datatype CategoryError = CategoryNameTaken

  /** Two names equal under the database's case-insensitive comparison. */
  predicate SameNameIgnoringCase(a: string, b: string) {
    Lower(a) == Lower(b)
  }

  /** `clean_name`: refused when a category other than the one being edited
      (`instancePk`, None for a new one) has the same name ignoring case. */
  function CleanCategoryName(categories: map<nat, string>, instancePk: Option<nat>, name: string): (r: Result<string, CategoryError>)
    ensures r.Err? <==> exists pk :: pk in categories && instancePk != Some(pk) && SameNameIgnoringCase(categories[pk], name)
    ensures r.Ok? ==> r.value == name
  {
    if exists pk :: pk in categories && instancePk != Some(pk) && SameNameIgnoringCase(categories[pk], name)
    then Err(CategoryNameTaken)
    else Ok(name)
  }

  /** No two categories share a name ignoring case. */
  ghost predicate CaseDistinct(categories: map<nat, string>) {
    forall p, q :: p in categories && q in categories && p != q ==> !SameNameIgnoringCase(categories[p], categories[q])
  }

  /** Saving a name `clean_name` accepted, whether as a new category or over
      the edited one, keeps category names distinct ignoring case. */
  lemma CleanNameKeepsNamesDistinct(categories: map<nat, string>, pk: nat, name: string)
    requires CaseDistinct(categories)
    requires CleanCategoryName(categories, Some(pk), name).Ok?
    ensures CaseDistinct(categories[pk := name])
  {
    var c := categories[pk := name];
    forall p, q | p in c && q in c && p != q
      ensures !SameNameIgnoringCase(c[p], c[q])
    {
      if p == pk {
        assert !SameNameIgnoringCase(categories[q], name);
      } else if q == pk {
        assert !SameNameIgnoringCase(categories[p], name);
      }
    }
  }

  /** Re-saving a category under its own name, in any letter case, passes
      when the names were distinct. */
  lemma ResaveOwnNamePasses(categories: map<nat, string>, pk: nat, name: string)
    requires CaseDistinct(categories)
    requires pk in categories && SameNameIgnoringCase(categories[pk], name)
    ensures CleanCategoryName(categories, Some(pk), name) == Ok(name)
  {
    if exists p :: p in categories && Some(pk) != Some(p) && SameNameIgnoringCase(categories[p], name) {
      var p :| p in categories && Some(pk) != Some(p) && SameNameIgnoringCase(categories[p], name);
      assert SameNameIgnoringCase(categories[p], categories[pk]);
      assert false;
    }
  }
}
