/** The request handlers over an in-memory stand-in for the database:
    `is_admin`, `home`, `user_dashboard`, `create_request`, `delete_request`,
    and the cascade that deleting a category performs on its requests.
    The caller is given by primary key; the login decorator, rendering,
    redirects and flash messages are not modelled. */
module Views {
  import opened Common
  import opened PyText
  import opened Validators
  import opened Models
  import opened Forms

  /** `is_admin`: the staff flag alone decides. */
  function IsAdmin(u: User): (admin: bool)
    reads u
    ensures admin <==> u.isStaff
  {
    u.isStaff
  }

  /** A freshly registered user is not an administrator: neither the user
      `UserCreationForm` builds nor `save` sets the staff flag. */
  method RegisteredUserIsNotAdmin(username: string, email: string, fullName: string) returns (admin: bool)
    ensures !admin
  {
    var u := new User(username, email);
    Save(u, fullName, email);
    admin := IsAdmin(u);
  }

  // ---------------------------------------------------------------------
  // DesignRequestForm

  /** What a user submits to `create_request`. `planImage` is None when no
      file was sent. */
  datatype RequestInput = RequestInput(
    title: string,
    description: string,
    category: nat,
    planImage: Option<Upload>)

  const TitleMaxLength: nat := 200

  /** The `max_length` the form's file field takes from the model's
      `ImageField`: Django's default of 100 characters for the file name. */
  const FileNameMaxLength: nat := 100

  /** What the form's file field itself demands of an upload: a name of at
      most 100 characters that is not empty, and a file that is not
      empty. */
  predicate UploadFieldValid(u: Upload) {
    u.name != [] && |u.name| <= FileNameMaxLength && u.size > 0
  }

  /** A text field's cleaned value: stripped, required, free of NUL
      characters, and within `maxLength` when one is given. */
  predicate TextFieldValid(raw: string, maxLength: Option<nat>) {
    && Strip(raw) != ""
    && (maxLength.Some? ==> |Strip(raw)| <= maxLength.value)
    && !ContainsNul(Strip(raw))
  }

  /** `DesignRequestForm.is_valid()`: every field required; the title at
      most 200 characters once stripped; the category an existing one; the
      plan image accepted by the file field and then passing
      `validate_image_extension_and_size`. */
  predicate RequestFormValid(categories: map<nat, string>, input: RequestInput) {
    && TextFieldValid(input.title, Some(TitleMaxLength))
    && TextFieldValid(input.description, None)
    && input.category in categories
    && input.planImage.Some?
    && UploadFieldValid(input.planImage.value)
    && ValidateImage(input.planImage.value) == Pass
  }

  /** Cleaning is stable: the form with its text fields replaced by their
      cleaned values gets the same verdict. */
  lemma CleanedRequestFormIsStable(categories: map<nat, string>, input: RequestInput)
    ensures RequestFormValid(categories, input)
        <==> RequestFormValid(categories, input.(title := Strip(input.title), description := Strip(input.description)))
  {
    StripIdempotent(input.title);
    StripIdempotent(input.description);
  }

  /** An image name the validators accept can still be refused by the form
      for its length: 97 letters and `.png` make 101 characters. */
  lemma LongFileNameRefused(categories: map<nat, string>, title: string, description: string, category: nat)
    ensures var name := seq(97, _ => 'a') + ".png";
      && |name| == 101
      && ValidateImage(Upload(name, 10)) == Pass
      && !RequestFormValid(categories, RequestInput(title, description, category, Some(Upload(name, 10))))
  {
    var base := seq(97, _ => 'a');
    assert base + ".png" == base + "." + "png";
    AcceptsDottedName(base, "png", 10);
    assert Lower("png") == "png";
  }

  /** Deleting is refused for the statuses listed in `delete_request`. */
  function DeletionBlocked(status: string): (blocked: bool)
    ensures blocked <==> status == Completed || status == InProgress
  {
    status in [Completed, InProgress]
  }

  /** Among the statuses the model allows, the owner may delete a new
      request and a "complited" one; only "in_progress" is protected, since
      the guard names "completed", which no request has. */
  lemma DeletableChoices(status: string)
    requires IsStatusChoice(status)
    ensures !DeletionBlocked(status) <==> status == New || status == Complited
  {
  }

  /** The primary keys `home` lists before ordering and slicing. */
  function CompletedIds(rows: Rows): (ids: set<nat>)
    ensures forall id :: id in ids <==> id in rows && rows[id].status == Completed
  {
    set id | id in rows && rows[id].status == Completed
  }

  /** The primary keys `home` counts. */
  function InProgressIds(rows: Rows): (ids: set<nat>)
    ensures forall id :: id in ids <==> id in rows && rows[id].status == InProgress
  {
    set id | id in rows && rows[id].status == InProgress
  }

  /** While every request has a status from the model's choices, the home
      page has no finished request to show. */
  lemma HomeNeverShowsChoices(rows: Rows)
    requires forall id :: id in rows ==> IsStatusChoice(rows[id].status)
    ensures CompletedIds(rows) == {}
  {
    forall id | id in rows
      ensures rows[id].status != Completed
    {
      assert IsStatusChoice(rows[id].status);
    }
  }

  /** A stored request under primary key `id`: the key matches the row and
      lies below the next one handed out, the category exists, the status is
      one of the choices and the plan image is one the form's file field and
      the validators accepted. */
  predicate StoredRowValid(id: nat, row: DesignRequest, categories: map<nat, string>, nextId: nat) {
    && row.id == id
    && id < nextId
    && row.category in categories
    && IsStatusChoice(row.status)
    && UploadFieldValid(row.planImage)
    && ValidateImage(row.planImage) == Pass
  }

  datatype DeleteOutcome = NotFound | Refused | ConfirmationPage | Deleted

  /** The design-request and category tables. */
  class RequestStore {
    var requests: Rows
    var categories: map<nat, string>
    var nextId: nat

    /** Every stored request is valid under its primary key. */
    ghost predicate Valid()
      reads this
    {
      forall id :: id in requests ==> StoredRowValid(id, requests[id], categories, nextId)
    }

    constructor (categories: map<nat, string>)
      ensures Valid()
      ensures requests == map[] && this.categories == categories && nextId == 1
    {
      requests := map[];
      this.categories := categories;
      nextId := 1;
    }

    /** `create_request`: on a POST with a valid form, stores one new request
        owned by the caller with status "new", whatever was submitted;
        otherwise stores nothing. Returns the new primary key. */
    method CreateRequest(caller: nat, isPost: bool, input: RequestInput, now: int) returns (created: Option<nat>)
      requires Valid()
      modifies this
      ensures Valid()
      ensures created.Some? <==> isPost && RequestFormValid(old(categories), input)
      ensures created.None? ==> requests == old(requests) && nextId == old(nextId)
      ensures created.Some? ==>
        && created.value !in old(requests)
        && requests == old(requests)[created.value := DesignRequest(
             created.value, caller, Strip(input.title), Strip(input.description),
             input.category, input.planImage.value, New, now, None, None)]
      ensures categories == old(categories)
    {
      if !isPost || !RequestFormValid(categories, input) {
        return None;
      }
      var id := nextId;
      var designRequest := DesignRequest(
        id, caller, Strip(input.title), Strip(input.description),
        input.category, input.planImage.value, DefaultStatus, now, None, None);
      designRequest := designRequest.(owner := caller);
      designRequest := designRequest.(status := New);
      requests := requests[id := designRequest];
      nextId := nextId + 1;
      created := Some(id);
    }

    /** `delete_request`: a request that is missing or not the caller's is
        not found; one whose status is "completed" or "in_progress" is
        refused; otherwise a GET shows the confirmation and a POST deletes
        exactly that request. */
    method DeleteRequest(caller: nat, id: nat, isPost: bool) returns (outcome: DeleteOutcome)
      requires Valid()
      modifies this
      ensures Valid()
      ensures outcome == NotFound <==> id !in old(requests) || old(requests)[id].owner != caller
      ensures outcome == Refused <==>
        id in old(requests) && old(requests)[id].owner == caller && DeletionBlocked(old(requests)[id].status)
      ensures outcome == Deleted <==>
        id in old(requests) && old(requests)[id].owner == caller && !DeletionBlocked(old(requests)[id].status) && isPost
      ensures outcome == Deleted ==> requests == old(requests) - {id}
      ensures outcome != Deleted ==> requests == old(requests)
      ensures categories == old(categories) && nextId == old(nextId)
    {
      if id !in requests || requests[id].owner != caller {
        return NotFound;
      }
      if DeletionBlocked(requests[id].status) {
        return Refused;
      }
      if isPost {
        requests := requests - {id};
        return Deleted;
      }
      return ConfirmationPage;
    }

    /** Deleting category `catId`: its requests go first (the cascade on
        `DesignRequest.category`), then the category. */
    method DeleteCategory(catId: nat)
      requires Valid()
      modifies this
      ensures Valid()
      ensures categories == old(categories) - {catId}
      ensures forall id :: id in requests ==> requests[id].category != catId
      ensures forall id :: id in requests ==> id in old(requests) && requests[id] == old(requests)[id]
      ensures forall id :: id in old(requests) && old(requests)[id].category != catId ==> id in requests
      ensures nextId == old(nextId)
    {
      requests := map id | id in requests && requests[id].category != catId :: requests[id];
      categories := categories - {catId};
    }

    /** `user_dashboard`: the caller's requests, narrowed to one status when
        a non-empty filter is given, newest first. */
    method UserDashboard(caller: nat, statusFilter: string) returns (listing: seq<nat>)
      ensures NewestFirst(requests, listing)
      ensures forall id :: id in listing <==>
        id in requests && requests[id].owner == caller && (statusFilter == "" || requests[id].status == statusFilter)
      ensures forall i, j :: 0 <= i < j < |listing| ==> listing[i] != listing[j]
    {
      var userRequests := set id | id in requests && requests[id].owner == caller;
      if statusFilter != "" {
        userRequests := set id | id in userRequests && requests[id].status == statusFilter;
      }
      listing := SortNewestFirst(requests, userRequests);
      NoRepeats(listing, userRequests);
    }

    /** `home`: the newest four requests (or fewer) with status "completed",
        newest first, and the number of requests in progress. */
    method Home() returns (shown: seq<nat>, inProgressCount: nat)
      ensures |shown| == if |CompletedIds(requests)| < 4 then |CompletedIds(requests)| else 4
      ensures NewestFirst(requests, shown)
      ensures forall i :: 0 <= i < |shown| ==> shown[i] in CompletedIds(requests)
      ensures forall i, j :: 0 <= i < j < |shown| ==> shown[i] != shown[j]
      ensures forall id, i :: id in CompletedIds(requests) && id !in shown && 0 <= i < |shown| ==>
        requests[id].createdAt <= requests[shown[i]].createdAt
      ensures inProgressCount == |InProgressIds(requests)|
    {
      var completed := CompletedIds(requests);
      var ordered := SortNewestFirst(requests, completed);
      NoRepeats(ordered, completed);
      shown := if |ordered| <= 4 then ordered else ordered[..4];
      forall id, i | id in completed && id !in shown && 0 <= i < |shown|
        ensures requests[id].createdAt <= requests[shown[i]].createdAt
      {
        var k :| 0 <= k < |ordered| && ordered[k] == id;
        assert shown[i] == ordered[i];
        assert k >= |shown|;
      }
      inProgressCount := |InProgressIds(requests)|;
    }
  }

  /** A sequence holding the elements of a set once each has no repeats. */
  lemma NoRepeats(s: seq<nat>, ids: set<nat>)
    requires multiset(s) == multiset(ids)
    ensures forall i, j :: 0 <= i < j < |s| ==> s[i] != s[j]
  {
    forall i, j | 0 <= i < j < |s|
      ensures s[i] != s[j]
    {
      assert s == s[..j] + s[j..];
      assert s[i] in multiset(s[..j]);
      assert s[j] in multiset(s[j..]);
      assert multiset(s) == multiset(s[..j]) + multiset(s[j..]);
      assert multiset(ids)[s[j]] <= 1;
    }
  }
}
