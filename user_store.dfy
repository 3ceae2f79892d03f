/**
 * The `users` table the sync reads and writes, held in memory: a select by
 * `employee_id` and an update of `status` by `id` (the store calls of
 * src/server.js, lines 41-44, 56, 72 and 80). The select of every row at line
 * 63 is a read of the whole array, `rows[..]`, made by the sweep's caller.
 */
module UserStore {

  /** A row of the `users` table. `role` and `status` are free text, as stored. */
  datatype User = User(id: string, employeeId: string, role: string, status: string)

  /** Lines 51 and 69: a row is an admin when its role is exactly "admin". */
  predicate IsAdmin(u: User) {
    u.role == "admin"
  }

  /** `id` is the table's primary key. */
  ghost predicate DistinctIds(u: seq<User>) {
    forall p, q :: 0 <= p < q < |u| ==> u[p].id != u[q].id
  }

  /** No row before j has the employee id of row j. */
  ghost predicate IsFirstMatch(u: seq<User>, j: int)
    requires 0 <= j < |u|
  {
    forall k :: 0 <= k < j ==> u[k].employeeId != u[j].employeeId
  }

  /** `b` is `a` with at most the `status` of some rows changed. */
  ghost predicate SameRowsBesidesStatus(a: seq<User>, b: seq<User>) {
    |a| == |b| && forall j :: 0 <= j < |a| ==> b[j] == a[j].(status := b[j].status)
  }

  /** The rows `select * … eq('employee_id', code)` returns, in table order. */
  function Matching(u: seq<User>, code: string): seq<User> {
    if u == [] then []
    else Matching(u[..|u| - 1], code) + (if u[|u| - 1].employeeId == code then [u[|u| - 1]] else [])
  }

  /** The select finds nothing exactly when no row carries `code`; otherwise its first row is the first such row. */
  lemma {:induction false} MatchingFirst(u: seq<User>, code: string)
    ensures Matching(u, code) == [] <==> forall j :: 0 <= j < |u| ==> u[j].employeeId != code
    ensures Matching(u, code) != [] ==>
      exists j :: 0 <= j < |u| && u[j].employeeId == code && IsFirstMatch(u, j) && Matching(u, code)[0] == u[j]
  {
    if u != [] {
      var front := u[..|u| - 1];
      MatchingFirst(front, code);
      var last := if u[|u| - 1].employeeId == code then [u[|u| - 1]] else [];
      assert Matching(u, code) == Matching(front, code) + last;
      if Matching(front, code) != [] {
        var j :| 0 <= j < |front| && front[j].employeeId == code && IsFirstMatch(front, j) && Matching(front, code)[0] == front[j];
        assert IsFirstMatch(u, j);
      } else {
        assert forall j :: 0 <= j < |u| - 1 ==> u[j] == front[j];
        if u[|u| - 1].employeeId == code {
          assert IsFirstMatch(u, |u| - 1);
        }
      }
    }
  }

  /** The rows after `.update({ status }).eq('id', id)`: every row with that id gets the new status. */
  function SetStatusWhere(u: seq<User>, id: string, status: string): seq<User> {
    seq(|u|, j requires 0 <= j < |u| => if u[j].id == id then u[j].(status := status) else u[j])
  }

  /** With distinct ids, an update by the id of row j changes row j's status and nothing else. */
  lemma SetStatusOfOneRow(u: seq<User>, j: int, status: string)
    requires DistinctIds(u) && 0 <= j < |u|
    ensures SetStatusWhere(u, u[j].id, status) == u[j := u[j].(status := status)]
    ensures DistinctIds(SetStatusWhere(u, u[j].id, status))
  {
  }

  class Store {
    var rows: array<User>

    ghost predicate Valid()
      reads this, rows
    {
      DistinctIds(rows[..])
    }

    constructor (initial: seq<User>)
      requires DistinctIds(initial)
      ensures Valid() && fresh(rows) && rows[..] == initial
    {
      rows := new User[|initial|](j requires 0 <= j < |initial| => initial[j]);
    }

    /** `select('*').eq('employee_id', code)`: the matching rows, in table order. */
    method SelectByEmployee(code: string) returns (found: seq<User>)
      ensures found == Matching(rows[..], code)
    {
      found := [];
      var i := 0;
      while i < rows.Length
        invariant 0 <= i <= rows.Length
        invariant found == Matching(rows[..i], code)
      {
        assert rows[..i + 1][..i] == rows[..i];
        if rows[i].employeeId == code {
          found := found + [rows[i]];
        }
        i := i + 1;
      }
      assert rows[..i] == rows[..];
    }

    /** `update({ status }).eq('id', id)`: sets `status` on every row with that id. */
    method UpdateStatus(id: string, status: string)
      requires Valid()
      modifies rows
      ensures Valid()
      ensures rows[..] == SetStatusWhere(old(rows[..]), id, status)
    {
      var i := 0;
      while i < rows.Length
        invariant 0 <= i <= rows.Length
        invariant forall j :: 0 <= j < i ==> rows[j] == SetStatusWhere(old(rows[..]), id, status)[j]
        invariant forall j :: i <= j < rows.Length ==> rows[j] == old(rows[j])
      {
        if rows[i].id == id {
          rows[i] := rows[i].(status := status);
        }
        i := i + 1;
      }
    }
  }
}
