/**
 * The browser-side leave workflow over the hosted database: reading one's
 * balance, listing, submitting, counting the manager's and the admin's
 * inboxes, and the two approval updates. The `users` and `leaves` tables are
 * in-memory sequences (the `leaves` table, which the updates change, is
 * held by a `LeaveStore`); the signed-in user's id, the clock and a failing
 * database call are parameters.
 */
module Leaves {
  import opened Wrappers
  import Seqs

  /** A row of the `users` table (the columns this code reads). */
  datatype UserRow = UserRow(
    id: string,
    vacationDays: Option<int>,
    usedDays: Option<int>,
    managerId: Option<string>)

  /** A row of the `leaves` table. */
  datatype Leave = Leave(
    id: int,
    userId: string,
    leaveType: Option<string>,
    from: Option<string>,
    to: Option<string>,
    comment: Option<string>,
    status: string,
    createdAt: int,
    managerId: Option<string>,
    managerApprovalAt: Option<string>,
    adminId: Option<string>,
    adminApprovalAt: Option<string>)

  /** The fields `submitLeave` copies from its argument. */
  datatype Submission = Submission(
    leaveType: Option<string>,
    from: Option<string>,
    to: Option<string>,
    comment: Option<string>)

  /** How an async call ends: with a value, or by throwing. */
  datatype Call<T> = Returned(value: T) | Threw(error: string)

  /** Thrown when the code dereferences the missing user of a signed-out session. */
  const NotSignedIn: string := "TypeError: no signed-in user"

  /** The error `.single()` reports when the query does not return exactly one row. */
  const NotSingleRow: string := "PGRST116"

  ghost predicate UniqueUserIds(users: seq<UserRow>) {
    forall i, j :: 0 <= i < j < |users| ==> users[i].id != users[j].id
  }

  ghost predicate UniqueLeaveIds(leaves: seq<Leave>) {
    forall i, j :: 0 <= i < j < |leaves| ==> leaves[i].id != leaves[j].id
  }

  // ---------------------------------------------------------------------
  // Balance

  /** `v || 0` on a nullable number column. */
  function OrZero(v: Option<int>): int {
    match v
    case Some(n) => n
    case None => 0
  }

  /** The answer of `meDays`. */
  datatype Days = Days(left: int, total: int)

  /**
   * `meDays()`: no session gives zero days; otherwise the caller's single
   * `users` row gives `left = total - used`, missing values read as 0 and
   * nothing clamped; a failing query, or one that does not find exactly one
   * row, throws.
   */
  function MeDays(users: seq<UserRow>, session: Option<string>, fault: Option<string>): (r: Call<Days>)
    ensures session.None? ==> r == Returned(Days(0, 0))
    ensures session.Some? && fault.Some? ==> r == Threw(fault.value)
    ensures session.Some? && fault.None?
            ==> (r.Returned? <==> Seqs.Count(users, (u: UserRow) => u.id == session.value) == 1)
    ensures session.Some? && r.Returned?
            ==> exists i :: 0 <= i < |users| && users[i].id == session.value
                            && r.value.total == OrZero(users[i].vacationDays)
                            && r.value.left == r.value.total - OrZero(users[i].usedDays)
  {
    match session
    case None => Returned(Days(0, 0))
    case Some(uid) =>
      if fault.Some? then Threw(fault.value)
      else
        var rows := Seqs.Filter(users, (u: UserRow) => u.id == uid);
        if |rows| != 1 then Threw(NotSingleRow)
        else
          assert rows[0] in rows;
          var total := OrZero(rows[0].vacationDays);
          var used := OrZero(rows[0].usedDays);
          Returned(Days(total - used, total))
  }

  /** A signed-in caller whose row exists (ids being unique) gets its own balance. */
  lemma MeDaysOwnRow(users: seq<UserRow>, i: nat)
    requires UniqueUserIds(users)
    requires i < |users|
    ensures MeDays(users, Some(users[i].id), None)
            == Returned(Days(OrZero(users[i].vacationDays) - OrZero(users[i].usedDays),
                             OrZero(users[i].vacationDays)))
  {
    var uid := users[i].id;
    var p := (u: UserRow) => u.id == uid;
    Seqs.FilterSingle(users, i, p);
    assert Seqs.Filter(users, p) == [users[i]];
  }

  /** The balance is not clamped: more used than granted leaves a negative balance. */
  lemma MeDaysNotClamped()
    ensures MeDays([UserRow("u", Some(20), Some(25), None)], Some("u"), None) == Returned(Days(-5, 20))
  {
    MeDaysOwnRow([UserRow("u", Some(20), Some(25), None)], 0);
  }

  // ---------------------------------------------------------------------
  // Listing

  /** The answer of a `select`: the rows, or the error. */
  datatype QueryResult = Rows(rows: seq<Leave>) | QueryFailed(error: string)

  function CreatedAt(l: Leave): int {
    l.createdAt
  }

  /** `if (status)`: only a non-empty status filters. */
  predicate Filters(status: Option<string>) {
    status.Some? && status.value != ""
  }

  /**
   * `listLeaves(status)`: every row, or with a status given only the rows
   * in that status, newest first.
   */
  function ListLeaves(leaves: seq<Leave>, status: Option<string>, fault: Option<string>): (r: QueryResult)
    ensures fault.Some? ==> r == QueryFailed(fault.value)
    ensures fault.None? ==> r.Rows?
    ensures r.Rows? ==> Seqs.SortedDesc(r.rows, CreatedAt)
    ensures r.Rows? && !Filters(status) ==> multiset(r.rows) == multiset(leaves)
    ensures r.Rows? && Filters(status)
            ==> (forall l :: l in r.rows ==> l in leaves && l.status == status.value)
                && (forall l :: l in leaves && l.status == status.value ==> l in r.rows)
                && multiset(r.rows) == multiset(Seqs.Filter(leaves, (l: Leave) => l.status == status.value))
                && multiset(r.rows) <= multiset(leaves)
  {
    if fault.Some? then QueryFailed(fault.value)
    else
      var selected := if Filters(status) then Seqs.Filter(leaves, (l: Leave) => l.status == status.value) else leaves;
      var rows := Seqs.SortDesc(selected, CreatedAt);
      assert forall l :: l in rows <==> l in selected by {
        forall l ensures l in rows <==> l in selected {
          assert l in rows <==> l in multiset(rows);
        }
      }
      Rows(rows)
  }

  // ---------------------------------------------------------------------
  // Inbox counts

  /** The answer of an inbox count: the number, and the error when the query failed. */
  datatype InboxCount = InboxCount(count: nat, error: Option<string>)

  /** The owner of `l` has `m` as manager (the inner join on `users`). */
  predicate ReportsTo(users: seq<UserRow>, l: Leave, m: string) {
    exists i :: 0 <= i < |users| && users[i].id == l.userId && users[i].managerId == Some(m)
  }

  /** A row waiting for manager `m`: submitted, and owned by one of `m`'s reports. */
  predicate InManagerInbox(users: seq<UserRow>, m: string, l: Leave) {
    l.status == "submitted" && ReportsTo(users, l, m)
  }

  /** A row waiting for an admin. */
  predicate InAdminInbox(l: Leave) {
    l.status == "manager_approved"
  }

  /**
   * `managerInboxCount()`: how many rows wait for the caller as manager;
   * 0 with the error when the query fails; a signed-out caller throws.
   */
  function ManagerInboxCount(leaves: seq<Leave>, users: seq<UserRow>, session: Option<string>, fault: Option<string>)
    : (r: Call<InboxCount>)
    ensures session.None? ==> r == Threw(NotSignedIn)
    ensures session.Some? && fault.Some? ==> r == Returned(InboxCount(0, fault))
    ensures session.Some? && fault.None?
            ==> r.Returned? && r.value.error.None?
                && r.value.count == |set i: nat | i < |leaves| && InManagerInbox(users, session.value, leaves[i])|
  {
    match session
    case None => Threw(NotSignedIn)
    case Some(uid) =>
      if fault.Some? then Returned(InboxCount(0, fault))
      else
        var p := (l: Leave) => InManagerInbox(users, uid, l);
        Seqs.CountPositions(leaves, p);
        assert Seqs.Positions(leaves, p) == set i: nat | i < |leaves| && InManagerInbox(users, uid, leaves[i]);
        Returned(InboxCount(Seqs.Count(leaves, p), None))
  }

  /** `adminInboxCount()`: how many rows are manager-approved; 0 with the error when the query fails. */
  function AdminInboxCount(leaves: seq<Leave>, fault: Option<string>): (r: InboxCount)
    ensures fault.Some? ==> r == InboxCount(0, fault)
    ensures fault.None? ==> r.error.None? && r.count == |set i: nat | i < |leaves| && InAdminInbox(leaves[i])|
  {
    if fault.Some? then InboxCount(0, fault)
    else
      Seqs.CountPositions(leaves, InAdminInbox);
      assert Seqs.Positions(leaves, InAdminInbox) == set i: nat | i < |leaves| && InAdminInbox(leaves[i]);
      InboxCount(Seqs.Count(leaves, InAdminInbox), None)
  }

  // ---------------------------------------------------------------------
  // Updates

  /** `update(...).eq('id', id)`: applies `f` to every row with that id and keeps the others. */
  function UpdateWhereId(rows: seq<Leave>, id: int, f: Leave -> Leave): (r: seq<Leave>)
    ensures |r| == |rows|
    ensures forall i :: 0 <= i < |rows| && rows[i].id == id ==> r[i] == f(rows[i])
    ensures forall i :: 0 <= i < |rows| && rows[i].id != id ==> r[i] == rows[i]
  {
    seq(|rows|, i requires 0 <= i < |rows| => if rows[i].id == id then f(rows[i]) else rows[i])
  }

  /** With unique ids the update touches at most one row. */
  lemma UpdateOne(rows: seq<Leave>, k: nat, f: Leave -> Leave)
    requires UniqueLeaveIds(rows)
    requires k < |rows|
    ensures UpdateWhereId(rows, rows[k].id, f) == rows[k := f(rows[k])]
  {
  }

  /** The columns `managerApprove` writes, whatever the row's status was. */
  function ManagerStamp(l: Leave, uid: string, now: string): Leave {
    l.(status := "manager_approved", managerApprovalAt := Some(now), managerId := Some(uid))
  }

  /** The columns `adminFinalize` writes, whatever the row's status was. */
  function AdminStamp(l: Leave, approved: bool, uid: string, now: string): Leave {
    l.(status := if approved then "approved" else "rejected", adminApprovalAt := Some(now), adminId := Some(uid))
  }

  /** The table after `managerApprove(id)` by `uid` at `now`. */
  function ManagerApproved(rows: seq<Leave>, id: int, uid: string, now: string): seq<Leave> {
    UpdateWhereId(rows, id, (l: Leave) => ManagerStamp(l, uid, now))
  }

  /** The table after `adminFinalize(id, approved)` by `uid` at `now`. */
  function AdminFinalized(rows: seq<Leave>, id: int, approved: bool, uid: string, now: string): seq<Leave> {
    UpdateWhereId(rows, id, (l: Leave) => AdminStamp(l, approved, uid, now))
  }

  /** The row `submitLeave(p)` inserts for `uid`; the database fills id, status and creation time. */
  function NewLeave(id: int, uid: string, p: Submission, status: string, createdAt: int): Leave {
    Leave(id, uid, p.leaveType, p.from, p.to, p.comment, status, createdAt, None, None, None, None)
  }

  /**
   * A manager approval moves the row with that id into the admin inbox,
   * from any prior status (there is no guard), and out of the approving
   * manager's own inbox; every other row is kept.
   */
  lemma ManagerApproveMovesToAdmin(rows: seq<Leave>, users: seq<UserRow>, k: nat, uid: string, now: string, m: string)
    requires UniqueLeaveIds(rows)
    requires k < |rows|
    ensures ManagerApproved(rows, rows[k].id, uid, now)[k].status == "manager_approved"
    ensures AdminInboxCount(ManagerApproved(rows, rows[k].id, uid, now), None).count
            == AdminInboxCount(rows, None).count + (if InAdminInbox(rows[k]) then 0 else 1)
    ensures Seqs.Count(ManagerApproved(rows, rows[k].id, uid, now), (l: Leave) => InManagerInbox(users, m, l))
            + (if InManagerInbox(users, m, rows[k]) then 1 else 0)
            == Seqs.Count(rows, (l: Leave) => InManagerInbox(users, m, l))
  {
    var f := (l: Leave) => ManagerStamp(l, uid, now);
    UpdateOne(rows, k, f);
    Seqs.CountUpdate(rows, k, f(rows[k]), InAdminInbox);
    Seqs.CountUpdate(rows, k, f(rows[k]), (l: Leave) => InManagerInbox(users, m, l));
  }

  /**
   * An admin decision takes the row with that id out of the admin inbox,
   * from any prior status, and leaves it approved or rejected.
   */
  lemma AdminFinalizeLeavesAdminInbox(rows: seq<Leave>, k: nat, approved: bool, uid: string, now: string)
    requires UniqueLeaveIds(rows)
    requires k < |rows|
    ensures AdminFinalized(rows, rows[k].id, approved, uid, now)[k].status == (if approved then "approved" else "rejected")
    ensures AdminInboxCount(AdminFinalized(rows, rows[k].id, approved, uid, now), None).count
            + (if InAdminInbox(rows[k]) then 1 else 0)
            == AdminInboxCount(rows, None).count
  {
    var f := (l: Leave) => AdminStamp(l, approved, uid, now);
    UpdateOne(rows, k, f);
    Seqs.CountUpdate(rows, k, f(rows[k]), InAdminInbox);
  }

  /** Approving again with the same caller and time changes nothing: the update is not guarded. */
  lemma ManagerApproveIdempotent(rows: seq<Leave>, id: int, uid: string, now: string)
    ensures ManagerApproved(ManagerApproved(rows, id, uid, now), id, uid, now) == ManagerApproved(rows, id, uid, now)
  {
  }

  /**
   * A submission by a report of `m`, when the status column defaults to
   * `submitted`, adds one to `m`'s inbox.
   */
  lemma SubmitReachesManagerInbox(rows: seq<Leave>, users: seq<UserRow>, id: int, uid: string, p: Submission,
                                  createdAt: int, m: string, j: nat)
    requires j < |users| && users[j].id == uid && users[j].managerId == Some(m)
    ensures Seqs.Count(rows + [NewLeave(id, uid, p, "submitted", createdAt)], (l: Leave) => InManagerInbox(users, m, l))
            == Seqs.Count(rows, (l: Leave) => InManagerInbox(users, m, l)) + 1
  {
    var row := NewLeave(id, uid, p, "submitted", createdAt);
    assert ReportsTo(users, row, m);
    Seqs.CountAppend(rows, row, (l: Leave) => InManagerInbox(users, m, l));
  }

  // ---------------------------------------------------------------------
  // The tables

  /**
   * The `leaves` table. Inserted rows get the next value of the id
   * sequence and the `status` column's default.
   */
  class LeaveStore {
    var leaves: seq<Leave>
    var nextId: int
    const defaultStatus: string

    /** Leave ids are a primary key drawn from the sequence. */
    ghost predicate Valid()
      reads this
    {
      UniqueLeaveIds(leaves) && forall i :: 0 <= i < |leaves| ==> leaves[i].id < nextId
    }

    constructor (defaultStatus: string)
      ensures Valid()
      ensures leaves == [] && this.defaultStatus == defaultStatus
    {
      this.leaves := [];
      this.nextId := 1;
      this.defaultStatus := defaultStatus;
    }

    /**
     * `submitLeave(p)`: inserts one row owned by the caller, with the
     * submitted type, dates and comment copied as they are (no check that
     * `from` precedes `to`). A signed-out caller throws; a failing insert
     * returns its error and inserts nothing.
     */
    method SubmitLeave(session: Option<string>, p: Submission, createdAt: int, fault: Option<string>)
      returns (r: Call<Option<string>>)
      requires Valid()
      modifies this
      ensures Valid()
      ensures session.None? ==> r == Threw(NotSignedIn) && leaves == old(leaves)
      ensures session.Some? && fault.Some? ==> r == Returned(fault) && leaves == old(leaves)
      ensures session.Some? && fault.None?
              ==> r == Returned(None)
                  && |leaves| == |old(leaves)| + 1
                  && leaves[..|old(leaves)|] == old(leaves)
                  && (forall i :: 0 <= i < |old(leaves)| ==> old(leaves)[i].id != leaves[|old(leaves)|].id)
                  && leaves[|old(leaves)|] == NewLeave(old(nextId), session.value, p, defaultStatus, createdAt)
    {
      if session.None? {
        return Threw(NotSignedIn);
      }
      if fault.Some? {
        return Returned(fault);
      }
      var row := NewLeave(nextId, session.value, p, defaultStatus, createdAt);
      leaves := leaves + [row];
      nextId := nextId + 1;
      r := Returned(None);
    }

    /**
     * `managerApprove(id)`: sets the row with that id to `manager_approved`,
     * stamped with the caller and the time, whatever its status was; every
     * other row is kept. A missing id changes nothing and is no error.
     */
    method ManagerApprove(session: Option<string>, id: int, now: string, fault: Option<string>)
      returns (r: Call<Option<string>>)
      requires Valid()
      modifies this`leaves
      ensures Valid()
      ensures session.None? ==> r == Threw(NotSignedIn) && leaves == old(leaves)
      ensures session.Some? && fault.Some? ==> r == Returned(fault) && leaves == old(leaves)
      ensures session.Some? && fault.None?
              ==> r == Returned(None) && leaves == ManagerApproved(old(leaves), id, session.value, now)
      ensures |leaves| == |old(leaves)|
      ensures forall i :: 0 <= i < |leaves| && old(leaves)[i].id != id ==> leaves[i] == old(leaves)[i]
    {
      if session.None? {
        return Threw(NotSignedIn);
      }
      if fault.Some? {
        return Returned(fault);
      }
      leaves := ManagerApproved(leaves, id, session.value, now);
      r := Returned(None);
    }

    /**
     * `adminFinalize(id, approved)`: sets the row with that id to `approved`
     * or `rejected`, stamped with the caller and the time, whatever its
     * status was; every other row is kept.
     */
    method AdminFinalize(session: Option<string>, id: int, approved: bool, now: string, fault: Option<string>)
      returns (r: Call<Option<string>>)
      requires Valid()
      modifies this`leaves
      ensures Valid()
      ensures session.None? ==> r == Threw(NotSignedIn) && leaves == old(leaves)
      ensures session.Some? && fault.Some? ==> r == Returned(fault) && leaves == old(leaves)
      ensures session.Some? && fault.None?
              ==> r == Returned(None) && leaves == AdminFinalized(old(leaves), id, approved, session.value, now)
      ensures |leaves| == |old(leaves)|
      ensures forall i :: 0 <= i < |leaves| && old(leaves)[i].id != id ==> leaves[i] == old(leaves)[i]
    {
      if session.None? {
        return Threw(NotSignedIn);
      }
      if fault.Some? {
        return Returned(fault);
      }
      leaves := AdminFinalized(leaves, id, approved, session.value, now);
      r := Returned(None);
    }
  }
}
