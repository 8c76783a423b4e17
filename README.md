# Design-request tracker: validation rules and request lifecycle

A Dafny model of the core of a small Django application in which users
submit design requests (title, description, category, floor-plan image) and
administrators triage them. The model covers three pieces of logic:

- **Upload validation** (`validators.dfy`). This covers `validate_file_size`
  and `validate_image_extension_and_size`. An upload is a (name, size) pair.
  The size bound is 2 MiB inclusive. The extension is taken as
  `os.path.splitext` (POSIX) takes it, lower-cased, and checked against
  `.jpg .jpeg .png .bmp`. The size is checked first.
- **Form rules** (`forms.dfy`). This covers the registration form's
  full-name field, with its Cyrillic pattern and its 254-character limit.
  It also covers `clean_full_name`, the exact-match login and email
  uniqueness checks, `clean_password2`, and the surname/first-name
  derivation in `save`. Finally it covers the cross-field rule of the
  status form and the case-insensitive category-name check.
- **Request lifecycle** (`views.dfy`). The `RequestStore` class stands in
  for the database: a map from primary key to request and a map from
  primary key to category name. Its methods model `create_request`,
  `delete_request`, `user_dashboard`, `home`, and the cascade that deleting
  a category performs on its requests. Each method's postcondition states
  the whole new state. The store invariant `Valid()` holds after every
  method. It says that every request points at an existing category, has a
  status from the declared choices, and has a plan image that the form's
  file field and the validators accepted (`StoredRowValid`).

Supporting modules: `pytext.dfy` gives Python's `str.isspace`, `strip()`,
`split()`, `" ".join`, `rfind` and ASCII `lower()`. `models.dfy` gives the
two entities, the status vocabulary and the default `-created_at` ordering,
which `SortNewestFirst` implements by insertion. `common.dfy` has Option
and Result.

QuerySets are modelled as sequences of primary keys in listing order.

### The status spelling

`DesignRequest.STATUS_CHOICES` (main/models.py:31-35) spells the finished
state `complited`. The status form (main/forms.py:182), the home page
(main/views.py:41) and the deletion guard (main/views.py:80) all compare
against `completed`. A single spelling was evidently intended; the model
keeps the code's two. The lemmas show the consequences:

- `HomeNeverShowsChoices`: while every stored status is a declared choice,
  the home page has nothing to show.
- `DeletableChoices`: an owner can delete a `complited` request, not only a
  `new` one.
- `NoChoiceNeedsDesignImage`: no declared status ever requires a design
  image.

The deletion guard blocks only `completed` and `in_progress`, so `new` is
not the only deletable status.

## Model

| member | source | states |
|---|---|---|
| Validators.ValidateFileSize | main/models.py:9-12 | passes exactly when the size is at most 2·1024·1024 bytes; otherwise the size error |
| Validators.SizeBoundary | main/models.py:11 | exactly 2 MiB passes the size check; 2 MiB + 1 fails it |
| Validators.SplitExt | main/models.py:17 | `os.path.splitext`: root + extension is the name; the extension is empty or starts at a dot and holds no further dot and no slash; it is non-empty exactly when a non-dot character lies between the last slash and the last dot, so leading dots of the last path component never start one |
| Validators.Extension | main/models.py:17 | the compared extension is empty or a dot followed by no dot, no slash and no capital letter; it is empty exactly when `splitext` finds none |
| Validators.ExtensionIsLoweredTail | main/models.py:17 | the compared extension is the lower-cased tail of the name |
| Validators.ValidateImage | main/models.py:14-19 | a passing upload is at most 2 MiB; an oversized upload gets the size error whatever its name |
| Validators.ExtensionOfDottedName | main/models.py:17 | for `base.e`, where the last path component of base holds a non-dot character and e has no dot or slash, `splitext` gives (base, `.e`) |
| Validators.NoExtensionAfterOnlyDots | main/models.py:16-18 | when only dots (or nothing) lie between the last slash and the last dot, `splitext` splits off no extension and the compared extension is empty |
| Validators.DottedMember | main/models.py:16-18 | `.y` is whitelisted exactly when y is jpg, jpeg, png or bmp |
| Validators.AcceptsDottedName | main/models.py:14-19 | for `base.e`, where the last path component of base holds a non-dot character and e has no dot or slash, the upload is accepted iff the size is at most 2 MiB and lower(e) is jpg, jpeg, png or bmp |
| Validators.VerdictOfExtension | main/models.py:14-19 | with its extension known, an upload passes iff it is at most 2 MiB and the extension is whitelisted |
| Validators.DottedExample | main/models.py:14-19 | a name whose last dot is preceded, within the last path component, by a non-dot character is accepted iff the size is at most 2 MiB and the lower-cased text after that dot is whitelisted |
| Validators.NoDotRefused | main/models.py:16-19 | a name with no dot is refused whatever its size |
| Validators.ExtensionIgnoresCase | main/models.py:17 | names equal up to ASCII case have the same lower-cased extension |
| Validators.CaseInsensitive | main/models.py:17-18 | names equal up to ASCII case get the same verdict |
| Validators.UpperCaseAccepted | main/models.py:17-18 | `PLAN.JPG` is accepted |
| Validators.MixedCaseAccepted | main/models.py:17-18 | `x.Png` of exactly 2 MiB is accepted |
| Validators.LastSuffixAccepted | main/models.py:17 | `a.gif.png` is accepted |
| Validators.LastSuffixRefused | main/models.py:17-19 | `a.png.gif` is refused for its extension |
| Validators.GifRefused | main/models.py:14-19 | `plan.gif` is refused for its extension; oversized, it reports the size error instead |
| Validators.DoubleDotAccepted | main/models.py:17-18 | `photo..jpg` has extension `.jpg` and is accepted |
| Validators.HiddenFileRefused | main/models.py:17-19 | `.png` has no extension under splitext and is refused |
| Validators.LeadingDotsRefused | main/models.py:17-19 | `..png` has no extension under splitext and is refused |
| Validators.HiddenFileInDirectoryRefused | main/models.py:17-19 | `dir/.png` has no extension, because only the last path component counts, and is refused |
| Models.StatusVocabulary | main/models.py:31-41 | the default status `new` is a choice; `completed` is not; there are three choices |
| Models.InsertNewestFirst | main/models.py:50 | inserting a key into a newest-first listing keeps it newest-first and adds exactly that key |
| Models.SortNewestFirst | main/models.py:50 | lists every given key exactly once, ordered by created_at descending |
| PyText.LastIndexOf | main/models.py:17 | `rfind`: -1 or an index holding the character, with none after it |
| PyText.LastIndexOfAppend | main/models.py:17 | appending text without the character does not move `rfind` |
| PyText.SplitYieldsWords | main/forms.py:82-88 | every token of `split()` is non-empty and free of whitespace, so the empty-part check can never fire |
| PyText.SplitJoin | main/forms.py:82 | `split()` of words joined by spaces gives back exactly those words |
| PyText.SplitIgnoresStrip | main/forms.py:97 | `strip()` before `split()` does not change the tokens |
| PyText.StripIdempotent | main/forms.py:13 | stripping a stripped value changes nothing |
| Forms.CleanFullNameField | main/forms.py:13-18 | accepted iff the stripped value is non-empty, at most 254 characters, and every character is а-я, ё, А-Я, Ё, whitespace or `-`; every failing check is reported: the pattern, the length, and the NUL-character check of every `CharField` |
| Forms.AcceptedNamePartsAreCyrillic | main/forms.py:15-16 | the pattern `^[а-яёА-ЯЁ\s\-]+$`: every part `split()` finds in an accepted full name consists of Cyrillic letters and hyphens only |
| Forms.CleanedFullNameIsStable | main/forms.py:13-18 | an accepted full name, cleaned and submitted again, is accepted unchanged |
| Forms.CleanFullName | main/forms.py:77-89 | refuses exactly when `split()` gives fewer than 2 tokens, and then only with the too-few-parts error |
| Forms.CleanUsername | main/forms.py:49-56 | refuses exactly when an existing user has an identical login |
| Forms.CleanEmail | main/forms.py:58-65 | refuses exactly when an existing user has an identical email |
| Forms.SecondRegistrationRefused | main/forms.py:53-65 | once a user is stored, its login and its email are both refused to a later registration |
| Forms.LoginCheckIsCaseSensitive | main/forms.py:54 | `Ivan` passes when only `ivan` exists |
| Forms.CleanPassword2 | main/forms.py:67-75 | refuses exactly when both passwords are present and differ |
| Forms.Save | main/forms.py:91-115 | sets the first and last names derived from the full name and the email; leaves login and staff flag alone |
| Forms.DerivedNames | main/forms.py:97-110 | the names `save` derives, stated on the tokens of the unstripped name: none for fewer than 2 tokens; (token 1, token 0) for 2; (token 1, token 0 + " " + token 2) for more |
| Forms.NamesOfTwoWords | main/forms.py:100-102 | for "A B", the first name is B and the last name is A |
| Forms.NamesOfThreeOrMoreWords | main/forms.py:100-105 | for "A B C ...", the first name is B and the last name is "A C"; splitting the last name gives exactly [A, C], so a fourth word never appears |
| Forms.AcceptedNameGivesBothNames | main/forms.py:97-106 | whenever `clean_full_name` accepts, the first name is one word and the last name is non-empty |
| Forms.RegisterExample | main/forms.py:91-112 | "Иванов Иван Иванович" gives first name Иван, last name "Иванов Иванович", and no staff flag |
| Forms.IvanovNames | main/forms.py:97-105 | the names derived from "Иванов Иван Иванович" are Иван and "Иванов Иванович" |
| Forms.CrossFieldErrors | main/forms.py:171-187 | design-image error iff the status is `completed` and there is no image; comment error iff `in_progress` and no comment; at most one error |
| Forms.ChangeStatusForm.Clean | main/forms.py:182-185 | appends exactly the cross-field errors to the form's errors |
| Forms.NoChoiceNeedsDesignImage | main/forms.py:182 | no status among the declared choices gets the design-image error; only `in_progress` without a comment gets any error |
| Forms.CleanCategoryName | main/forms.py:218-225 | refuses exactly when a category other than the edited one has the same name ignoring case |
| Forms.CleanNameKeepsNamesDistinct | main/forms.py:222-224 | storing an accepted name, new or over the edited category, keeps names distinct ignoring case |
| Forms.ResaveOwnNamePasses | main/forms.py:223 | re-saving a category under its own name, in any case, passes |
| Views.IsAdmin | main/views.py:10-12 | a user is an administrator exactly when the staff flag is set |
| Views.RegisteredUserIsNotAdmin | main/views.py:10-12 | `is_admin` is false for a freshly registered user |
| Views.CleanedRequestFormIsStable | main/forms.py:118-149 | `DesignRequestForm` gives the same verdict when title and description are replaced by their cleaned values |
| Views.LongFileNameRefused | main/models.py:40 | a 101-character image name the validators accept is refused by the form's file field, whose `max_length` is 100 |
| Views.DeletionBlocked | main/views.py:80 | deletion is refused exactly for `completed` and `in_progress` |
| Views.DeletableChoices | main/views.py:80 | among the declared statuses, exactly `new` and `complited` pass the deletion guard |
| Views.HomeNeverShowsChoices | main/views.py:41 | while every status is a declared choice, no request has status `completed` |
| Views.RequestStore.CreateRequest | main/views.py:56-72 | stores a request iff the request is a POST and the form is valid; the new record is owned by the caller, has status `new` and a fresh key, and all other records are unchanged; otherwise the store is unchanged |
| Views.RequestStore.DeleteRequest | main/views.py:74-90 | not-found iff the request is missing or not the caller's; refused iff the status is `completed` or `in_progress`; deleted iff the request is a POST, and then exactly that record goes; a GET or any refusal changes nothing |
| Views.RequestStore.DeleteCategory | main/models.py:39 | the category is removed; no remaining request references it; requests of other categories remain, unchanged |
| Views.RequestStore.UserDashboard | main/views.py:48-55 | lists exactly the caller's requests, restricted to the given status when the filter is non-empty; each once, newest first |
| Views.RequestStore.Home | main/views.py:39-47 | shows min(4, n) requests of the n with status `completed`, each once, newest first, none older than any omitted one; counts the `in_progress` requests |

## Left out

- `admin_dashboard`, `change_status` and `manage_categories` are named in main/urls.py:11-13 but have no implementation in main/views.py. They are not modelled, so the model has no status transition and no category creation.
- `register`, `CustomLoginView`, `login()`, the `login_required` decorator, flash messages, `render`/`redirect` and templates are presentation and session handling. The caller of each view is given by primary key and is assumed authenticated.
- Password hashing and Django's password-strength and email-syntax checks inside `UserCreationForm` are foreign library code.
- `agree_to_terms` (main/forms.py:23-27) is left out; its only rule is Django's required check.
- Image decoding and storage behind `ImageField` are left out. So is the image field's own check of the extension against the formats Pillow knows; the four whitelisted extensions are among them. An upload is only a name and a size.
- The ORM and the database are replaced by maps. `created_at` is a parameter and primary keys come from a counter. Rows created at the same instant come out in no particular order, as in SQL.
- Races between the uniqueness pre-checks and the inserts are left out. That concern belongs to the database's unique constraints.
- The cascade from deleting a user (main/models.py:36) is left out: no core operation deletes users. The category table's own `max_length=100` and `unique=True` constraints are also left out.
- Forms.Save: the final `user.save()` write to the database is left out.
- PyText.Lower folds ASCII letters only, whereas Python's `lower()` is full Unicode. No non-ASCII character lowers to a letter of `jpg`, `jpeg`, `png` or `bmp`, so upload verdicts are unaffected.
- Forms.CleanCategoryName compares names with that ASCII fold. This is SQLite's `LIKE`, which Django uses for `iexact`. Backends that fold non-ASCII letters (for example `UPPER()` on PostgreSQL) would also treat Cyrillic case variants as equal.
- Widget attributes, labels, placeholders, help texts and verbose names have no behaviour and are left out.
