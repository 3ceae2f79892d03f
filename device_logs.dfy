/**
 * The punch logs of the in-door and out-door attendance devices, their merge
 * into one newest-first stream, and the first-wins map from employee code to
 * status built by walking that stream (src/server.js, lines 28-37).
 */
module DeviceLogs {
  import opened Wrappers

  /** One punch log as the device API returns it; `LogDate` is an integer timestamp here. */
  datatype Log = Log(employeeCode: string, punchDirection: Option<string>, logDate: int)

  /** The status computed for an employee code. */
  datatype Status = Active | Inactive {
    /** The text stored in the `status` column of the users table. */
    function Text(): string {
      match this
      case Active => "active"
      case Inactive => "inactive"
    }
  }

  // ---------------------------------------------------------------------------
  // Punch direction
  // ---------------------------------------------------------------------------

  function LowerChar(ch: char): char {
    if 'A' <= ch <= 'Z' then (ch as int - 'A' as int + 'a' as int) as char else ch
  }

  function ToLower(s: string): string {
    seq(|s|, i requires 0 <= i < |s| => LowerChar(s[i]))
  }

  /** `log.PunchDirection?.toLowerCase() === 'in'`: a missing direction never punches in. */
  predicate PunchesIn(direction: Option<string>) {
    direction.Some? && ToLower(direction.value) == "in"
  }

  /** The comparison is case-insensitive and nothing else: exactly the four spellings of "in" qualify. */
  lemma PunchesInSpellings(direction: Option<string>)
    ensures PunchesIn(direction) <==> direction in {Some("in"), Some("In"), Some("iN"), Some("IN")}
  {
    if direction.Some? {
      var d := direction.value;
      if ToLower(d) == "in" {
        assert |d| == 2;
        assert ToLower(d)[0] == LowerChar(d[0]) == 'i';
        assert ToLower(d)[1] == LowerChar(d[1]) == 'n';
        assert d == [d[0], d[1]];
      }
    }
  }

  /** Line 35: "in" gives active, anything else (a missing direction included) inactive. */
  function DirectionStatus(direction: Option<string>): Status {
    if PunchesIn(direction) then Active else Inactive
  }

  // ---------------------------------------------------------------------------
  // Merge: concatenation sorted newest first (line 28)
  // ---------------------------------------------------------------------------

  ghost predicate NewestFirst(s: seq<Log>) {
    forall i, j :: 0 <= i < j < |s| ==> s[i].logDate >= s[j].logDate
  }

  /** The head of a newest-first stream is at least as new as every log in it. */
  lemma HeadIsNewest(s: seq<Log>)
    requires NewestFirst(s) && s != []
    ensures forall y :: y in multiset(s) ==> y.logDate <= s[0].logDate
  {
    forall y | y in multiset(s)
      ensures y.logDate <= s[0].logDate
    {
      var k :| 0 <= k < |s| && s[k] == y;
    }
  }

  /** A log older than the head of a newest-first stream can follow that head. */
  lemma BelowHead(s: seq<Log>, x: Log)
    requires NewestFirst(s) && s != [] && x.logDate < s[0].logDate
    ensures forall y :: y in multiset(s[1..]) + multiset{x} ==> y.logDate <= s[0].logDate
  {
    forall y | y in multiset(s[1..]) + multiset{x}
      ensures y.logDate <= s[0].logDate
    {
      if y != x {
        var k :| 0 <= k < |s[1..]| && s[1..][k] == y;
        assert s[k + 1] == y;
      }
    }
  }

  /** Putting a log in front of a newest-first stream of logs no newer than it keeps it newest first. */
  lemma PrependNewest(h: Log, t: seq<Log>)
    requires NewestFirst(t)
    requires forall y :: y in multiset(t) ==> y.logDate <= h.logDate
    ensures NewestFirst([h] + t)
  {
    forall k | 0 <= k < |t|
      ensures t[k].logDate <= h.logDate
    {
      assert t[k] in multiset(t);
    }
  }

  /**
   * Inserts `x` in front of the first log that is not newer than it. When `x`
   * preceded every log of `s` in the input, this keeps equal timestamps in input
   * order, as the stable `Array.prototype.sort` does.
   */
  function Insert(x: Log, s: seq<Log>): seq<Log> {
    if s == [] || x.logDate >= s[0].logDate then [x] + s
    else [s[0]] + Insert(x, s[1..])
  }

  /** Inserting adds exactly `x` to the stream. */
  lemma {:induction false} InsertAddsOne(x: Log, s: seq<Log>)
    ensures multiset(Insert(x, s)) == multiset(s) + multiset{x}
  {
    if s != [] && x.logDate < s[0].logDate {
      InsertAddsOne(x, s[1..]);
      assert s == [s[0]] + s[1..];
      assert multiset(s) == multiset{s[0]} + multiset(s[1..]);
    }
  }

  /** Inserting into a newest-first stream keeps it newest first. */
  lemma {:induction false} InsertKeepsOrder(x: Log, s: seq<Log>)
    requires NewestFirst(s)
    ensures NewestFirst(Insert(x, s))
  {
    if s == [] {
    } else if x.logDate >= s[0].logDate {
      HeadIsNewest(s);
      PrependNewest(x, s);
    } else {
      assert NewestFirst(s[1..]);
      var tail := Insert(x, s[1..]);
      InsertKeepsOrder(x, s[1..]);
      InsertAddsOne(x, s[1..]);
      BelowHead(s, x);
      PrependNewest(s[0], tail);
    }
  }

  /** A stable sort by descending timestamp (insertion sort). */
  function SortNewestFirst(s: seq<Log>): (r: seq<Log>)
    ensures NewestFirst(r)
    ensures multiset(r) == multiset(s)
  {
    if s == [] then []
    else
      var rest := SortNewestFirst(s[1..]);
      InsertKeepsOrder(s[0], rest);
      InsertAddsOne(s[0], rest);
      assert s == [s[0]] + s[1..];
      Insert(s[0], rest)
  }

  /** Line 28: the in-device logs followed by the out-device logs, sorted newest first. */
  function MergeLogs(inLogs: seq<Log>, outLogs: seq<Log>): (r: seq<Log>)
    ensures NewestFirst(r)
    ensures multiset(r) == multiset(inLogs) + multiset(outLogs)
  {
    SortNewestFirst(inLogs + outLogs)
  }

  // ---------------------------------------------------------------------------
  // Latest log per employee code
  // ---------------------------------------------------------------------------

  /** The employee codes that appear in `s`. */
  function Codes(s: seq<Log>): set<string> {
    set l | l in s :: l.employeeCode
  }

  /** The first log of `s` for `code`, scanning from the front. */
  function FirstOf(s: seq<Log>, code: string): (r: Option<Log>)
    ensures r.Some? ==> r.value in s && r.value.employeeCode == code
    ensures r.None? <==> code !in Codes(s)
  {
    if s == [] then None
    else if s[0].employeeCode == code then Some(s[0])
    else
      assert s == [s[0]] + s[1..];
      FirstOf(s[1..], code)
  }

  /** The log for `code` with the greatest timestamp; among equal timestamps, the one earliest in `s`. */
  function LatestOf(s: seq<Log>, code: string): (r: Option<Log>)
    ensures r.Some? ==> r.value in s && r.value.employeeCode == code
    ensures r.None? <==> code !in Codes(s)
  {
    if s == [] then None
    else
      assert s == [s[0]] + s[1..];
      var rest := LatestOf(s[1..], code);
      if s[0].employeeCode != code then rest
      else if rest.None? || s[0].logDate >= rest.value.logDate then Some(s[0])
      else rest
  }

  /** Position i holds the latest log for `code`: no log of that code is newer, and none before i is as new. */
  ghost predicate IsLatest(s: seq<Log>, code: string, i: int) {
    && 0 <= i < |s|
    && s[i].employeeCode == code
    && (forall j :: 0 <= j < |s| && s[j].employeeCode == code ==> s[j].logDate <= s[i].logDate)
    && (forall j :: 0 <= j < i && s[j].employeeCode == code ==> s[j].logDate < s[i].logDate)
  }

  /** LatestOf picks the log at the position IsLatest describes. */
  lemma {:induction false} LatestOfIsLatest(s: seq<Log>, code: string)
    ensures LatestOf(s, code).Some? ==> exists i :: IsLatest(s, code, i) && s[i] == LatestOf(s, code).value
  {
    if s != [] {
      var t := s[1..];
      LatestOfIsLatest(t, code);
      var rest := LatestOf(t, code);
      assert forall j :: 1 <= j < |s| ==> s[j] == t[j - 1];
      if rest.Some? {
        var i :| IsLatest(t, code, i) && t[i] == rest.value;
        if s[0].employeeCode == code && s[0].logDate >= rest.value.logDate {
          forall j | 1 <= j < |s| && s[j].employeeCode == code
            ensures s[j].logDate <= s[0].logDate
          {
            assert t[j - 1].logDate <= t[i].logDate;
          }
          assert IsLatest(s, code, 0);
        } else {
          forall j | 0 <= j < |s| && s[j].employeeCode == code
            ensures s[j].logDate <= s[i + 1].logDate
            ensures j < i + 1 ==> s[j].logDate < s[i + 1].logDate
          {
            if j > 0 {
              assert t[j - 1].logDate <= t[i].logDate;
            }
          }
          assert IsLatest(s, code, i + 1);
        }
      } else if s[0].employeeCode == code {
        forall j | 1 <= j < |s|
          ensures s[j].employeeCode != code
        {
          assert t[j - 1] in t;
        }
        assert IsLatest(s, code, 0);
      }
    }
  }

  /** Inserting a log into a newest-first stream changes the first log of a code only when the inserted one is at least as new. */
  lemma {:induction false} FirstOfInsert(x: Log, s: seq<Log>, code: string)
    requires NewestFirst(s)
    ensures FirstOf(Insert(x, s), code) ==
      if x.employeeCode != code then FirstOf(s, code)
      else if FirstOf(s, code).None? || x.logDate >= FirstOf(s, code).value.logDate then Some(x)
      else FirstOf(s, code)
  {
    var first := FirstOf(s, code);
    if s == [] || x.logDate >= s[0].logDate {
      var r := [x] + s;
      assert Insert(x, s) == r;
      if x.employeeCode == code {
        assert FirstOf(r, code) == Some(x);
        if first.Some? {
          var k :| 0 <= k < |s| && s[k] == first.value;
          assert first.value.logDate <= s[0].logDate;
        }
      } else {
        assert r[1..] == s;
        assert FirstOf(r, code) == FirstOf(s, code);
      }
    } else {
      var tail := Insert(x, s[1..]);
      FirstOfInsert(x, s[1..], code);
      var r := [s[0]] + tail;
      assert Insert(x, s) == r;
      if s[0].employeeCode == code {
        assert FirstOf(r, code) == Some(s[0]) == first;
      } else {
        assert r[1..] == tail;
        assert FirstOf(r, code) == FirstOf(tail, code);
        assert first == FirstOf(s[1..], code);
      }
    }
  }

  /**
   * The first log of a code in the sorted stream is its latest log: the sort by
   * timestamp followed by first-wins is the same as picking the maximum
   * timestamp, with ties going to the earlier position.
   */
  lemma {:induction false} FirstOfSortIsLatest(s: seq<Log>, code: string)
    ensures FirstOf(SortNewestFirst(s), code) == LatestOf(s, code)
  {
    if s != [] {
      FirstOfSortIsLatest(s[1..], code);
      FirstOfInsert(s[0], SortNewestFirst(s[1..]), code);
    }
  }

  /** Appending a log changes nothing for a code already seen. */
  lemma {:induction false} FirstOfAppend(s: seq<Log>, x: Log, code: string)
    ensures FirstOf(s + [x], code) ==
      if FirstOf(s, code).Some? then FirstOf(s, code)
      else if x.employeeCode == code then Some(x)
      else None
  {
    if s != [] {
      assert (s + [x])[1..] == s[1..] + [x];
      FirstOfAppend(s[1..], x, code);
    } else {
      assert [] + [x] == [x];
    }
  }

  // ---------------------------------------------------------------------------
  // The `employeeStatus` map (lines 29-37)
  // ---------------------------------------------------------------------------

  /** The status every logged employee code should get: that of its latest log. */
  function LatestStatus(logs: seq<Log>): map<string, Status> {
    map code | code in Codes(logs) :: DirectionStatus(LatestOf(logs, code).value.punchDirection)
  }

  /** One entry per employee code found in either device's logs, and no other. */
  lemma LatestStatusKeys(inLogs: seq<Log>, outLogs: seq<Log>)
    ensures LatestStatus(inLogs + outLogs).Keys == Codes(inLogs) + Codes(outLogs)
  {
    var all := inLogs + outLogs;
    forall code | code in Codes(inLogs) + Codes(outLogs)
      ensures code in Codes(all)
    {
      if code in Codes(inLogs) {
        var l :| l in inLogs && l.employeeCode == code;
        assert l in all;
      } else {
        var l :| l in outLogs && l.employeeCode == code;
        assert l in all;
      }
    }
  }

  /**
   * Latest event wins: a logged code is active exactly when its latest log
   * (greatest timestamp; on ties the earliest in the in-logs-then-out-logs
   * order) punches in.
   */
  lemma LatestEventWins(inLogs: seq<Log>, outLogs: seq<Log>, code: string)
    requires code in Codes(inLogs + outLogs)
    ensures code in LatestStatus(inLogs + outLogs)
    ensures exists i :: && IsLatest(inLogs + outLogs, code, i)
                        && (LatestStatus(inLogs + outLogs)[code] == Active <==> PunchesIn((inLogs + outLogs)[i].punchDirection))
  {
    LatestOfIsLatest(inLogs + outLogs, code);
  }

  /**
   * The map the `forEach` walk over `s` builds (lines 31-36): a code not yet in
   * the map gets the status of the log at hand; a code already in it keeps its
   * status.
   */
  function FirstWins(s: seq<Log>): map<string, Status> {
    if s == [] then map[]
    else
      var seen := FirstWins(s[..|s| - 1]);
      var log := s[|s| - 1];
      if log.employeeCode in seen then seen
      else seen[log.employeeCode := DirectionStatus(log.punchDirection)]
  }

  /** Each code's status from its first log in `s`. */
  function FirstLogStatus(s: seq<Log>): map<string, Status> {
    map code | code in Codes(s) :: DirectionStatus(FirstOf(s, code).value.punchDirection)
  }

  /** The codes of `s + [x]` are those of `s` and the code of `x`. */
  lemma CodesAppend(s: seq<Log>, x: Log)
    ensures Codes(s + [x]) == Codes(s) + {x.employeeCode}
  {
    forall l | l in s + [x]
      ensures l in s || l == x
    {
      var k :| 0 <= k < |s + [x]| && (s + [x])[k] == l;
      if k < |s| {
        assert s[k] == l;
      }
    }
  }

  /** A log appended to `s` sets the status of its code only when the code is new. */
  lemma FirstLogStatusAppend(s: seq<Log>, x: Log)
    ensures FirstLogStatus(s + [x]) ==
      if x.employeeCode in Codes(s) then FirstLogStatus(s)
      else FirstLogStatus(s)[x.employeeCode := DirectionStatus(x.punchDirection)]
  {
    var before := FirstLogStatus(s);
    var after := FirstLogStatus(s + [x]);
    var expected := if x.employeeCode in Codes(s) then before
      else before[x.employeeCode := DirectionStatus(x.punchDirection)];
    assert after.Keys == expected.Keys by {
      CodesAppend(s, x);
    }
    forall code | code in after.Keys
      ensures after[code] == expected[code]
    {
      FirstOfAppend(s, x, code);
    }
  }

  /** The walk gives every code of `s`, and only those, the status of its first log in `s`. */
  lemma {:induction false} FirstWinsIsFirstLog(s: seq<Log>)
    ensures FirstWins(s) == FirstLogStatus(s)
  {
    if s == [] {
      assert Codes(s) == {};
    } else {
      var front := s[..|s| - 1];
      var log := s[|s| - 1];
      assert s == front + [log];
      FirstWinsIsFirstLog(front);
      FirstLogStatusAppend(front, log);
    }
  }

  /** The first-wins walk over the merged stream builds exactly LatestStatus of the concatenation. */
  lemma MergedFirstWinsIsLatest(inLogs: seq<Log>, outLogs: seq<Log>)
    ensures FirstWins(MergeLogs(inLogs, outLogs)) == LatestStatus(inLogs + outLogs)
  {
    var merged := MergeLogs(inLogs, outLogs);
    var all := inLogs + outLogs;
    FirstWinsIsFirstLog(merged);
    assert multiset(merged) == multiset(all);
    forall code
      ensures code in Codes(merged) <==> code in Codes(all)
      ensures FirstOf(merged, code) == LatestOf(all, code)
    {
      FirstOfSortIsLatest(all, code);
      if code in Codes(merged) {
        var l :| l in merged && l.employeeCode == code;
        assert l in multiset(all);
      }
      if code in Codes(all) {
        var l :| l in all && l.employeeCode == code;
        assert l in multiset(merged);
      }
    }
  }

  /**
   * Lines 28-37: merge the two devices' logs newest first, then walk them and
   * let the first log of each employee code decide its status.
   */
  method ComputeStatus(inLogs: seq<Log>, outLogs: seq<Log>) returns (employeeStatus: map<string, Status>)
    ensures employeeStatus == LatestStatus(inLogs + outLogs)
  {
    var allLogs := MergeLogs(inLogs, outLogs);
    employeeStatus := map[];
    var i := 0;
    assert allLogs[..0] == [];
    while i < |allLogs|
      invariant 0 <= i <= |allLogs|
      invariant employeeStatus == FirstWins(allLogs[..i])
    {
      var log := allLogs[i];
      if log.employeeCode !in employeeStatus {
        employeeStatus := employeeStatus[log.employeeCode := DirectionStatus(log.punchDirection)];
      }
      assert allLogs[..i + 1][..i] == allLogs[..i];
      i := i + 1;
    }
    assert employeeStatus == LatestStatus(inLogs + outLogs) by {
      assert allLogs[..i] == allLogs;
      MergedFirstWinsIsLatest(inLogs, outLogs);
    }
  }
}
