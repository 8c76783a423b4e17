/** The two persistent entities, Category and DesignRequest, with the status
    vocabulary and the default listing order (`-created_at`). */
module Models {
  import opened Common
  import opened Validators

  // Status values. The model's choices spell the finished state
  // "complited"; the forms and views compare against "completed", which
  // is not a choice. Both spellings are kept, as the program has them.
  const New: string := "new"
  const InProgress: string := "in_progress"
  const Complited: string := "complited"
  const Completed: string := "completed"

  /** `DesignRequest.STATUS_CHOICES`, in declaration order. */
  const StatusChoices: seq<string> := [New, InProgress, Complited]

  /** The `default=` of the status field. */
  const DefaultStatus: string := New

  predicate IsStatusChoice(s: string) {
    s in StatusChoices
  }

  /** One row of the design-request table. `owner` and `category` are the
      primary keys of the referenced user and category; `createdAt` is the
      creation time, supplied by the caller. */
  datatype DesignRequest = DesignRequest(
    id: nat,
    owner: nat,
    title: string,
    description: string,
    category: nat,
    planImage: Upload,
    status: string,
    createdAt: int,
    designImage: Option<Upload>,
    adminComment: Option<string>)

  /** The design-request table, keyed by primary key. */
  type Rows = map<nat, DesignRequest>

  /** The default status is one of the choices, and the spelling the views
      compare against is not. */
  lemma StatusVocabulary()
    ensures IsStatusChoice(DefaultStatus)
    ensures !IsStatusChoice(Completed)
    ensures |StatusChoices| == 3
  {
  }

  // ---------------------------------------------------------------------
  // Meta.ordering = ['-created_at']

  /** `ids` lists rows of the table, newest first. */
  ghost predicate NewestFirst(rows: Rows, ids: seq<nat>) {
    && (forall i :: 0 <= i < |ids| ==> ids[i] in rows)
    && (forall i, j :: 0 <= i < j < |ids| ==> rows[ids[i]].createdAt >= rows[ids[j]].createdAt)
  }

  /** Every row listed in `ids` was created at `t` or earlier. */
  ghost predicate NoNewerThan(rows: Rows, ids: seq<nat>, t: int) {
    forall i :: 0 <= i < |ids| ==> ids[i] in rows && rows[ids[i]].createdAt <= t
  }

  /** Puts `x` into a newest-first listing in front of the first row that is
      not newer than it. */
  function InsertNewestFirst(rows: Rows, x: nat, s: seq<nat>): (r: seq<nat>)
    requires x in rows
    requires NewestFirst(rows, s)
    ensures NewestFirst(rows, r)
    ensures multiset(r) == multiset(s) + multiset{x}
    ensures forall t :: NoNewerThan(rows, s, t) && rows[x].createdAt <= t ==> NoNewerThan(rows, r, t)
    decreases |s|
  {
    if s == [] || rows[s[0]].createdAt <= rows[x].createdAt then
      ConsNewestFirst(rows, x, s);
      [x] + s
    else
      NewestFirstTail(rows, s);
      var rest := InsertNewestFirst(rows, x, s[1..]);
      ConsNewestFirst(rows, s[0], rest);
      [s[0]] + rest
  }

  /** The tail of a newest-first listing is newest-first, no newer than its
      head, and no newer than any bound on the whole listing. */
  lemma NewestFirstTail(rows: Rows, s: seq<nat>)
    requires s != [] && NewestFirst(rows, s)
    ensures NewestFirst(rows, s[1..])
    ensures NoNewerThan(rows, s[1..], rows[s[0]].createdAt)
    ensures forall t :: NoNewerThan(rows, s, t) ==> NoNewerThan(rows, s[1..], t)
    ensures multiset(s) == multiset{s[0]} + multiset(s[1..])
  {
    assert s == [s[0]] + s[1..];
  }

  /** A row no older than everything in a newest-first listing can go in
      front of it, and the result is no newer than anything both are. */
  lemma ConsNewestFirst(rows: Rows, y: nat, t: seq<nat>)
    requires y in rows
    requires NewestFirst(rows, t)
    requires NoNewerThan(rows, t, rows[y].createdAt)
    ensures NewestFirst(rows, [y] + t)
    ensures forall b :: NoNewerThan(rows, t, b) && rows[y].createdAt <= b ==> NoNewerThan(rows, [y] + t, b)
  {
    var r := [y] + t;
    assert forall i :: 0 < i < |r| ==> r[i] == t[i - 1];
  }

  /** The rows with primary keys `ids`, in the model's default order: every
      key exactly once, newest first (rows created at the same time in no
      particular order). */
  method SortNewestFirst(rows: Rows, ids: set<nat>) returns (out: seq<nat>)
    requires ids <= rows.Keys
    ensures NewestFirst(rows, out)
    ensures multiset(out) == multiset(ids)
    ensures forall x :: x in out <==> x in ids
    ensures |out| == |ids|
  {
    out := [];
    var rest := ids;
    while rest != {}
      invariant rest <= ids
      invariant NewestFirst(rows, out)
      invariant multiset(out) == multiset(ids - rest)
      decreases rest
    {
      var x :| x in rest;
      assert ids - (rest - {x}) == (ids - rest) + {x};
      out := InsertNewestFirst(rows, x, out);
      rest := rest - {x};
    }
    assert ids - rest == ids;
    assert forall x :: x in out <==> x in multiset(out);
    assert |out| == |multiset(out)| == |multiset(ids)| == |ids|;
  }
}
