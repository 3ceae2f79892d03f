/**
 * One pass of `syncDeviceLogs` (src/server.js, lines 28-85) over the in-memory
 * users table: the per-event pass that writes each logged code's status to its
 * first matching non-admin row, then the absence sweep that forces admins to
 * "active" and unlogged non-admins to "inactive". Every write is conditional on
 * a mismatch.
 */
module Reconcile {
  import opened Wrappers
  import opened DeviceLogs
  import opened UserStore

  /** One `update({ status }).eq('id', id)` call the pass issues. */
  datatype Write = Write(id: string, status: string)

  predicate NoDuplicates(writes: seq<Write>) {
    forall p, q :: 0 <= p < q < |writes| ==> writes[p] != writes[q]
  }

  // ---------------------------------------------------------------------------
  // What the pass leaves in the table
  // ---------------------------------------------------------------------------

  /**
   * Row j after the per-event pass has handled the codes in `done` (lines 40-60):
   * the first row carrying a logged code whose lookup did not fail takes that
   * code's status, unless it is an admin.
   */
  ghost function EventRow(u: seq<User>, st: map<string, Status>, done: set<string>, failed: set<string>, j: int): User
    requires 0 <= j < |u|
  {
    var code := u[j].employeeId;
    if code in done && code in st && code !in failed && IsFirstMatch(u, j) && !IsAdmin(u[j])
    then u[j].(status := st[code].Text())
    else u[j]
  }

  ghost function EventPassOver(u: seq<User>, st: map<string, Status>, done: set<string>, failed: set<string>): seq<User> {
    seq(|u|, j requires 0 <= j < |u| => EventRow(u, st, done, failed, j))
  }

  /** The table after the whole per-event pass. */
  ghost function EventPass(u: seq<User>, st: map<string, Status>, failed: set<string>): seq<User> {
    EventPassOver(u, st, st.Keys, failed)
  }

  /** The status the absence sweep (lines 68-84) gives a row, if it gives one. */
  function SweepTarget(u: User, st: map<string, Status>): Option<string> {
    if IsAdmin(u) then Some(Active.Text())
    else if u.employeeId !in st then Some(Inactive.Text())
    else None
  }

  function SweepRow(u: User, st: map<string, Status>): User {
    match SweepTarget(u, st)
    case Some(target) => u.(status := target)
    case None => u
  }

  /** The table once the sweep has visited rows 0 .. i-1. */
  function SweepUpTo(u: seq<User>, st: map<string, Status>, i: int): seq<User> {
    seq(|u|, j requires 0 <= j < |u| => if j < i then SweepRow(u[j], st) else u[j])
  }

  function Sweep(u: seq<User>, st: map<string, Status>): seq<User> {
    SweepUpTo(u, st, |u|)
  }

  /**
   * The table after a whole pass. `allUsersRead` is false when the read of all
   * users fails, and then the sweep is skipped; a read that returns no rows
   * leaves nothing to sweep.
   */
  ghost function Reconciled(u: seq<User>, st: map<string, Status>, failed: set<string>, allUsersRead: bool): seq<User> {
    var afterEvents := EventPass(u, st, failed);
    if allUsersRead then Sweep(afterEvents, st) else afterEvents
  }

  /** The writes that turn `before` into `after`: one per row whose status differs. */
  ghost function Changes(before: seq<User>, after: seq<User>): set<Write> {
    set j | 0 <= j < |before| && j < |after| && before[j].status != after[j].status :: Write(after[j].id, after[j].status)
  }

  /**
   * `writes` are exactly the updates that turn `before` into `after`: one per
   * row whose status changed, none repeated.
   */
  ghost predicate WritesRecord(writes: seq<Write>, before: seq<User>, after: seq<User>) {
    && NoDuplicates(writes)
    && (set w | w in writes) == Changes(before, after)
    && |writes| == |Changes(before, after)|
  }

  // ---------------------------------------------------------------------------
  // Properties of a pass
  // ---------------------------------------------------------------------------

  /** Writes set only `status`: length, ids, employee ids and roles are preserved. */
  lemma ReconciledChangesOnlyStatus(u: seq<User>, st: map<string, Status>, failed: set<string>, allUsersRead: bool)
    ensures SameRowsBesidesStatus(u, Reconciled(u, st, failed, allUsersRead))
    ensures DistinctIds(u) ==> DistinctIds(Reconciled(u, st, failed, allUsersRead))
  {
  }

  /**
   * The per-event pass changes a row only if it is not an admin, it is the first
   * row carrying a logged code whose lookup succeeded, and its stored status
   * differs from that code's computed status.
   */
  lemma EventPassTouchesOnlyFirstMatches(u: seq<User>, st: map<string, Status>, failed: set<string>, j: int)
    requires 0 <= j < |u|
    ensures EventPass(u, st, failed)[j] != u[j] ==>
      && !IsAdmin(u[j])
      && IsFirstMatch(u, j)
      && u[j].employeeId in st
      && u[j].employeeId !in failed
      && u[j].status != st[u[j].employeeId].Text()
  {
  }

  /** After a pass, the first non-admin row of every logged code whose lookup succeeded holds that code's status. */
  lemma ReconciledFirstMatchHoldsStatus(u: seq<User>, st: map<string, Status>, failed: set<string>, allUsersRead: bool, j: int)
    requires 0 <= j < |u|
    requires u[j].employeeId in st && u[j].employeeId !in failed
    requires IsFirstMatch(u, j) && !IsAdmin(u[j])
    ensures Reconciled(u, st, failed, allUsersRead)[j].status == st[u[j].employeeId].Text()
  {
  }

  /** A non-admin row sharing a logged code with an earlier row is never modified. */
  lemma ReconciledSparesDuplicates(u: seq<User>, st: map<string, Status>, failed: set<string>, allUsersRead: bool, j: int)
    requires 0 <= j < |u|
    requires u[j].employeeId in st && !IsFirstMatch(u, j) && !IsAdmin(u[j])
    ensures Reconciled(u, st, failed, allUsersRead)[j] == u[j]
  {
  }

  /** When the read of all users succeeds, every admin row ends "active", logged or not. */
  lemma ReconciledAdminsActive(u: seq<User>, st: map<string, Status>, failed: set<string>, j: int)
    requires 0 <= j < |u| && IsAdmin(u[j])
    ensures Reconciled(u, st, failed, true)[j].status == "active"
  {
  }

  /** When the read of all users succeeds, every non-admin row without a log ends "inactive". */
  lemma ReconciledAbsentInactive(u: seq<User>, st: map<string, Status>, failed: set<string>, j: int)
    requires 0 <= j < |u| && !IsAdmin(u[j]) && u[j].employeeId !in st
    ensures Reconciled(u, st, failed, true)[j].status == "inactive"
  {
  }

  /** When that read fails, admin rows and rows without a log are left as they were. */
  lemma SkippedSweepChangesNothing(u: seq<User>, st: map<string, Status>, failed: set<string>, j: int)
    requires 0 <= j < |u| && (IsAdmin(u[j]) || u[j].employeeId !in st)
    ensures Reconciled(u, st, failed, false)[j] == u[j]
  {
  }

  /** A second pass over the same logs finds nothing to change, so it issues no write. */
  lemma ReconciledIdempotent(u: seq<User>, st: map<string, Status>, failed: set<string>, allUsersRead: bool)
    ensures Reconciled(Reconciled(u, st, failed, allUsersRead), st, failed, allUsersRead) == Reconciled(u, st, failed, allUsersRead)
    ensures Changes(Reconciled(u, st, failed, allUsersRead), Reconciled(Reconciled(u, st, failed, allUsersRead), st, failed, allUsersRead)) == {}
  {
    var r := Reconciled(u, st, failed, allUsersRead);
    var m := EventPass(u, st, failed);
    assert SameRowsBesidesStatus(u, r);
    forall j | 0 <= j < |r|
      ensures IsFirstMatch(r, j) == IsFirstMatch(u, j)
    {
      assert forall k :: 0 <= k < |r| ==> r[k].employeeId == u[k].employeeId;
    }
    var m2 := EventPass(r, st, failed);
    forall j | 0 <= j < |r|
      ensures m2[j] == r[j]
    {
      assert r[j].employeeId == u[j].employeeId && r[j].role == u[j].role;
    }
    assert m2 == r;
  }

  // ---------------------------------------------------------------------------
  // Steps of the pass
  // ---------------------------------------------------------------------------

  /** Handling a code whose first row is a non-admin updates that row alone. */
  lemma EventStepUpdate(u: seq<User>, st: map<string, Status>, done: set<string>, failed: set<string>, code: string, j: int)
    requires code in st && code !in done && code !in failed
    requires 0 <= j < |u| && u[j].employeeId == code && IsFirstMatch(u, j) && !IsAdmin(u[j])
    ensures EventPassOver(u, st, done, failed)[j] == u[j]
    ensures EventPassOver(u, st, done + {code}, failed) ==
      EventPassOver(u, st, done, failed)[j := u[j].(status := st[code].Text())]
  {
  }

  /** Handling a code with no row, an admin first row, or a failed lookup changes nothing. */
  lemma EventStepSkip(u: seq<User>, st: map<string, Status>, done: set<string>, failed: set<string>, code: string)
    requires forall j :: 0 <= j < |u| && u[j].employeeId == code && IsFirstMatch(u, j) ==> code in failed || IsAdmin(u[j])
    ensures EventPassOver(u, st, done + {code}, failed) == EventPassOver(u, st, done, failed)
  {
  }

  /**
   * During the per-event pass, the lookup by employee id sees the rows of the
   * original table (only statuses differ): it finds nothing exactly when no
   * original row carries the code, and otherwise starts with the first such row.
   */
  lemma LookupDuringEventPass(u: seq<User>, st: map<string, Status>, done: set<string>, failed: set<string>, code: string)
    ensures |EventPassOver(u, st, done, failed)| == |u|
    ensures Matching(EventPassOver(u, st, done, failed), code) == [] ==>
      forall j :: 0 <= j < |u| ==> u[j].employeeId != code
    ensures Matching(EventPassOver(u, st, done, failed), code) != [] ==>
      exists j :: && 0 <= j < |u| && u[j].employeeId == code && IsFirstMatch(u, j)
                  && Matching(EventPassOver(u, st, done, failed), code)[0] == EventPassOver(u, st, done, failed)[j]
  {
    var cur := EventPassOver(u, st, done, failed);
    MatchingFirst(cur, code);
    assert forall k :: 0 <= k < |cur| ==> cur[k].employeeId == u[k].employeeId;
    if Matching(cur, code) != [] {
      var j :| 0 <= j < |cur| && cur[j].employeeId == code && IsFirstMatch(cur, j) && Matching(cur, code)[0] == cur[j];
      assert IsFirstMatch(u, j);
    }
  }

  /** A row the sweep targets was left alone by the per-event pass. */
  lemma SweptRowsUntouchedByEvents(u: seq<User>, st: map<string, Status>, failed: set<string>, j: int)
    requires 0 <= j < |u|
    requires SweepTarget(EventPass(u, st, failed)[j], st).Some?
    ensures EventPass(u, st, failed)[j] == u[j]
  {
  }

  /** Recording one more write of a row whose status was still the original keeps the writes equal to the changes. */
  lemma ChangesAfterWrite(before: seq<User>, cur: seq<User>, j: int, status: string)
    requires |before| == |cur| && DistinctIds(cur) && 0 <= j < |cur|
    requires cur[j].status == before[j].status && status != before[j].status
    ensures Write(cur[j].id, status) !in Changes(before, cur)
    ensures Changes(before, cur[j := cur[j].(status := status)]) == Changes(before, cur) + {Write(cur[j].id, status)}
  {
    var next := cur[j := cur[j].(status := status)];
    forall w | w in Changes(before, next)
      ensures w in Changes(before, cur) + {Write(cur[j].id, status)}
    {
      var k :| 0 <= k < |before| && k < |next| && before[k].status != next[k].status && w == Write(next[k].id, next[k].status);
      if k != j {
        assert w in Changes(before, cur);
      }
    }
    assert Write(next[j].id, next[j].status) in Changes(before, next);
  }

  // ---------------------------------------------------------------------------
  // The pass
  // ---------------------------------------------------------------------------

  /**
   * One `update({ status }).eq('id', id)` by the id of row j (lines 56, 72, 80),
   * recorded in `writes`. The row still holds its status from `before`, and the
   * new status differs from it.
   */
  method IssueWrite(store: Store, id: string, ghost j: int, status: string, ghost before: seq<User>, writes: seq<Write>)
    returns (allWrites: seq<Write>)
    requires store.Valid() && 0 <= j < store.rows.Length == |before| && store.rows[j].id == id
    requires store.rows[j].status == before[j].status && status != before[j].status
    requires WritesRecord(writes, before, store.rows[..])
    modifies store.rows
    ensures store.Valid()
    ensures store.rows[..] == old(store.rows[..])[j := old(store.rows[j]).(status := status)]
    ensures allWrites == writes + [Write(id, status)]
    ensures WritesRecord(allWrites, before, store.rows[..])
  {
    ghost var cur := store.rows[..];
    SetStatusOfOneRow(cur, j, status);
    ChangesAfterWrite(before, cur, j, status);
    store.UpdateStatus(id, status);
    allWrites := writes + [Write(id, status)];
  }

  /**
   * Lines 41-59 for one logged code: look up its rows (skipped when the lookup
   * errs), and write the code's status to the first row found unless that row
   * is an admin or already holds it.
   */
  method UpdateEmployee(store: Store, empCode: string, employeeStatus: map<string, Status>, failedLookups: set<string>,
                        ghost before: seq<User>, ghost done: set<string>, writes: seq<Write>)
    returns (allWrites: seq<Write>)
    requires empCode in employeeStatus && empCode !in done
    requires store.Valid()
    requires store.rows[..] == EventPassOver(before, employeeStatus, done, failedLookups)
    requires WritesRecord(writes, before, store.rows[..])
    modifies store.rows
    ensures store.Valid()
    ensures store.rows[..] == EventPassOver(before, employeeStatus, done + {empCode}, failedLookups)
    ensures WritesRecord(allWrites, before, store.rows[..])
  {
    allWrites := writes;
    var status := employeeStatus[empCode];
    if empCode in failedLookups {
      EventStepSkip(before, employeeStatus, done, failedLookups, empCode);
      return;
    }
    ghost var cur := store.rows[..];
    LookupDuringEventPass(before, employeeStatus, done, failedLookups, empCode);
    var users := store.SelectByEmployee(empCode);
    if |users| == 0 {
      EventStepSkip(before, employeeStatus, done, failedLookups, empCode);
      return;
    }
    var user := users[0];
    ghost var j :| 0 <= j < |before| && before[j].employeeId == empCode && IsFirstMatch(before, j) && user == cur[j];
    if IsAdmin(user) {
      EventStepSkip(before, employeeStatus, done, failedLookups, empCode);
      return;
    }
    EventStepUpdate(before, employeeStatus, done, failedLookups, empCode, j);
    if user.status != status.Text() {
      allWrites := IssueWrite(store, user.id, j, status.Text(), before, allWrites);
    } else {
      assert cur[j := user.(status := status.Text())] == cur;
    }
  }

  /**
   * Lines 40-60: for each logged code, in some order, look up its rows and
   * write its status to the first one unless that row is an admin or already
   * holds it. A code whose lookup errs, or that has no row, is skipped.
   */
  method UpdateFromEvents(store: Store, employeeStatus: map<string, Status>, failedLookups: set<string>)
    returns (writes: seq<Write>)
    requires store.Valid()
    modifies store.rows
    ensures store.Valid()
    ensures store.rows[..] == EventPass(old(store.rows[..]), employeeStatus, failedLookups)
    ensures WritesRecord(writes, old(store.rows[..]), store.rows[..])
  {
    ghost var before := store.rows[..];
    writes := [];
    var pending := employeeStatus.Keys;
    ghost var done: set<string> := {};
    while pending != {}
      invariant pending + done == employeeStatus.Keys && pending !! done
      invariant store.Valid()
      invariant store.rows[..] == EventPassOver(before, employeeStatus, done, failedLookups)
      invariant WritesRecord(writes, before, store.rows[..])
      decreases pending
    {
      var empCode :| empCode in pending;
      writes := UpdateEmployee(store, empCode, employeeStatus, failedLookups, before, done, writes);
      pending := pending - {empCode};
      done := done + {empCode};
    }
  }

  /**
   * Lines 66-84: visit every row of a fresh read of the table; force admins to
   * "active" and non-admins without a log to "inactive", writing only on a
   * mismatch. `before` and `failedLookups` are those of the per-event pass that
   * produced the current table; `writes` are that pass's updates.
   */
  method SweepAbsent(store: Store, employeeStatus: map<string, Status>, ghost before: seq<User>,
                     ghost failedLookups: set<string>, writes: seq<Write>)
    returns (allWrites: seq<Write>)
    requires store.Valid()
    requires store.rows[..] == EventPass(before, employeeStatus, failedLookups)
    requires WritesRecord(writes, before, store.rows[..])
    modifies store.rows
    ensures store.Valid()
    ensures store.rows[..] == Sweep(old(store.rows[..]), employeeStatus)
    ensures WritesRecord(allWrites, before, store.rows[..])
  {
    allWrites := writes;
    var allUsers := store.rows[..];
    var i := 0;
    while i < |allUsers|
      invariant 0 <= i <= |allUsers|
      invariant store.Valid()
      invariant store.rows[..] == SweepUpTo(allUsers, employeeStatus, i)
      invariant WritesRecord(allWrites, before, store.rows[..])
    {
      var user := allUsers[i];
      ghost var cur := store.rows[..];
      assert cur[i] == user;
      if SweepTarget(user, employeeStatus).Some? {
        SweptRowsUntouchedByEvents(before, employeeStatus, failedLookups, i);
      }
      if IsAdmin(user) {
        if user.status != Active.Text() {
          allWrites := IssueWrite(store, user.id, i, Active.Text(), before, allWrites);
        }
      } else if user.employeeId !in employeeStatus {
        if user.status != Inactive.Text() {
          allWrites := IssueWrite(store, user.id, i, Inactive.Text(), before, allWrites);
        }
      }
      assert store.rows[..] == SweepUpTo(allUsers, employeeStatus, i + 1);
      i := i + 1;
    }
  }

  /**
   * `syncDeviceLogs` once both device responses have been read (lines 28-85).
   * `failedLookups` holds the codes whose select by `employee_id` errs;
   * `allUsersReadFails` says whether the select of all users errs. Returns the
   * updates issued, in order.
   */
  method SyncDeviceLogs(store: Store, inLogs: seq<Log>, outLogs: seq<Log>, failedLookups: set<string>, allUsersReadFails: bool)
    returns (writes: seq<Write>)
    requires store.Valid()
    modifies store.rows
    ensures store.Valid()
    ensures store.rows[..] == Reconciled(old(store.rows[..]), LatestStatus(inLogs + outLogs), failedLookups, !allUsersReadFails)
    ensures WritesRecord(writes, old(store.rows[..]), store.rows[..])
  {
    var employeeStatus := ComputeStatus(inLogs, outLogs);
    ghost var before := store.rows[..];
    writes := UpdateFromEvents(store, employeeStatus, failedLookups);
    if !allUsersReadFails {
      var allUsers := store.rows[..];
      if |allUsers| > 0 {
        writes := SweepAbsent(store, employeeStatus, before, failedLookups, writes);
      }
    }
  }

  /** Two passes over the same logs with nothing changing in between: the second issues no write. */
  method SyncTwice(store: Store, inLogs: seq<Log>, outLogs: seq<Log>, failedLookups: set<string>, allUsersReadFails: bool)
    returns (first: seq<Write>, second: seq<Write>)
    requires store.Valid()
    modifies store.rows
    ensures store.Valid()
    ensures store.rows[..] == Reconciled(old(store.rows[..]), LatestStatus(inLogs + outLogs), failedLookups, !allUsersReadFails)
    ensures WritesRecord(first, old(store.rows[..]), store.rows[..])
    ensures second == []
  {
    first := SyncDeviceLogs(store, inLogs, outLogs, failedLookups, allUsersReadFails);
    ghost var once := store.rows[..];
    ghost var st := LatestStatus(inLogs + outLogs);
    assert once == Reconciled(old(store.rows[..]), st, failedLookups, !allUsersReadFails);
    ReconciledIdempotent(old(store.rows[..]), st, failedLookups, !allUsersReadFails);
    second := SyncDeviceLogs(store, inLogs, outLogs, failedLookups, allUsersReadFails);
    assert store.rows[..] == Reconciled(once, st, failedLookups, !allUsersReadFails);
  }

  /**
   * A worked pass, logs first: E1 punches out at 1000 and in at 1005, E2 punches
   * in at 900. Both become active, E1 from its later log.
   */
  lemma WorkedExampleStatus()
    ensures LatestStatus([Log("E1", Some("OUT"), 1000), Log("E1", Some("IN"), 1005), Log("E2", Some("IN"), 900)])
            == map["E1" := Active, "E2" := Active]
  {
    var logs := [Log("E1", Some("OUT"), 1000), Log("E1", Some("IN"), 1005), Log("E2", Some("IN"), 900)];
    assert Codes(logs) == {"E1", "E2"} by {
      assert logs[0] in logs && logs[2] in logs;
    }
    assert ToLower("IN") == "in";
    assert LatestOf(logs, "E1") == Some(logs[1]);
    assert LatestOf(logs, "E2") == Some(logs[2]);
  }

  /**
   * The same pass on the table: E1 and E2 stored inactive, E3 active with no
   * log, E4 an admin stored inactive. E1 and E2 become active, E3 inactive as
   * absent, E4 active as an admin.
   */
  lemma WorkedExamplePass()
    ensures var table := [User("1", "E1", "staff", "inactive"), User("2", "E2", "staff", "inactive"),
                          User("3", "E3", "staff", "active"), User("4", "E4", "admin", "inactive")];
            Reconciled(table, map["E1" := Active, "E2" := Active], {}, true) ==
              [User("1", "E1", "staff", "active"), User("2", "E2", "staff", "active"),
               User("3", "E3", "staff", "inactive"), User("4", "E4", "admin", "active")]
  {
    var table := [User("1", "E1", "staff", "inactive"), User("2", "E2", "staff", "inactive"),
                  User("3", "E3", "staff", "active"), User("4", "E4", "admin", "inactive")];
    assert IsFirstMatch(table, 0) && IsFirstMatch(table, 1);
  }
}
