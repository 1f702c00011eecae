/** The `attendance` table: at most one row per user per day, recorded by
    `markAttendance`, read newest first, and summarised by `getUserStatistics`
    (convex/attendance.ts, row shape from convex/schema.ts). */
module Attendance {
  import opened Db
  import Users

  /** A row of `attendance`. `date` is the caller's day key and `time` its
      display time; `createdAt` is the wall-clock time the caller supplies. */
  datatype Record = Record(
    id: DocId,
    userId: string,
    personName: string,
    personId: string,
    date: string,
    time: string,
    createdAt: int)

  datatype MarkStatus = AlreadyMarked | Marked

  /** What `markAttendance` returns: `{ status, id }`. */
  datatype MarkResult = MarkResult(status: MarkStatus, id: DocId)

  /** The table after one `markAttendance`, with the call's result. */
  datatype Marking = Marking(rows: seq<Record>, nextId: DocId, result: MarkResult)

  /** The row is the given user's row for the given day. */
  predicate HasKey(r: Record, userId: string, date: string)
  {
    r.userId == userId && r.date == date
  }

  /** Rows are kept in insertion order, so their ids strictly increase. */
  predicate Chronological(rows: seq<Record>)
  {
    forall i, j :: 0 <= i < j < |rows| ==> rows[i].id < rows[j].id
  }

  /** Ids strictly decrease: newest first. */
  predicate NewestFirst(rows: seq<Record>)
  {
    forall i, j :: 0 <= i < j < |rows| ==> rows[i].id > rows[j].id
  }

  /** Every id handed out so far lies below the table's id counter. */
  predicate IdsBelow(rows: seq<Record>, n: DocId)
  {
    forall i :: 0 <= i < |rows| ==> rows[i].id < n
  }

  /** At most one row per `(userId, date)`. */
  predicate UniqueKeys(rows: seq<Record>)
  {
    forall i, j :: 0 <= i < j < |rows| ==> !HasKey(rows[j], rows[i].userId, rows[i].date)
  }

  /** The lookup in `markAttendance`: the oldest row for `(userId, date)`. */
  function FirstWithKey(rows: seq<Record>, userId: string, date: string): (r: Option<Record>)
    ensures r.None? <==> forall i :: 0 <= i < |rows| ==> !HasKey(rows[i], userId, date)
    ensures r.Some? ==>
      exists i :: 0 <= i < |rows| && rows[i] == r.value && HasKey(r.value, userId, date) &&
        forall j :: 0 <= j < i ==> !HasKey(rows[j], userId, date)
  {
    if |rows| == 0 then None
    else if HasKey(rows[0], userId, date) then Some(rows[0])
    else
      var r := FirstWithKey(rows[1..], userId, date);
      assert forall i :: 1 <= i < |rows| ==> rows[i] == rows[1..][i - 1];
      r
  }

  /** How many rows the table holds for `(userId, date)`. */
  function KeyCount(rows: seq<Record>, userId: string, date: string): (n: nat)
    ensures n <= |rows|
    ensures n == 0 <==> forall i :: 0 <= i < |rows| ==> !HasKey(rows[i], userId, date)
  {
    if |rows| == 0 then 0
    else
      var last := |rows| - 1;
      KeyCount(rows[..last], userId, date) + (if HasKey(rows[last], userId, date) then 1 else 0)
  }

  /** `markAttendance` as a function of the table before the call: when a row
      for `(userId, date)` exists the table is left alone and that row's id is
      returned as `already_marked`; otherwise exactly one row with the given
      fields is appended under a fresh id and returned as `marked`. */
  function Mark(rows: seq<Record>, nextId: DocId, userId: string, personName: string, personId: string,
                date: string, time: string, now: int): (m: Marking)
    ensures (exists i :: 0 <= i < |rows| && HasKey(rows[i], userId, date)) ==>
      m.rows == rows && m.nextId == nextId && m.result.status == AlreadyMarked &&
      exists i :: 0 <= i < |rows| && HasKey(rows[i], userId, date) && rows[i].id == m.result.id
    ensures (forall i :: 0 <= i < |rows| ==> !HasKey(rows[i], userId, date)) ==>
      m.rows == rows + [Record(nextId, userId, personName, personId, date, time, now)] &&
      m.nextId == nextId + 1 && m.result == MarkResult(Marked, nextId)
  {
    match FirstWithKey(rows, userId, date)
    case Some(existing) => Marking(rows, nextId, MarkResult(AlreadyMarked, existing.id))
    case None =>
      Marking(rows + [Record(nextId, userId, personName, personId, date, time, now)], nextId + 1,
              MarkResult(Marked, nextId))
  }

  /** The lookup over a table with one more row at the end: an older match wins. */
  lemma {:induction false} FirstWithKeyAppend(rows: seq<Record>, x: Record, userId: string, date: string)
    ensures FirstWithKey(rows + [x], userId, date) ==
      if FirstWithKey(rows, userId, date).Some? then FirstWithKey(rows, userId, date)
      else if HasKey(x, userId, date) then Some(x)
      else None
  {
    if |rows| > 0 {
      assert (rows + [x])[1..] == rows[1..] + [x];
      FirstWithKeyAppend(rows[1..], x, userId, date);
    }
  }

  /** A table with unique keys holds at most one row for any `(userId, date)`. */
  lemma {:induction false} UniqueKeysAtMostOne(rows: seq<Record>, userId: string, date: string)
    requires UniqueKeys(rows)
    ensures KeyCount(rows, userId, date) <= 1
  {
    if |rows| > 0 {
      var last := |rows| - 1;
      assert UniqueKeys(rows[..last]);
      UniqueKeysAtMostOne(rows[..last], userId, date);
      if HasKey(rows[last], userId, date) {
        assert forall i :: 0 <= i < last ==> !HasKey(rows[..last][i], userId, date);
      }
    }
  }

  /** The call's returned id is fresh: no earlier row carries it. */
  lemma MarkedIdIsFresh(rows: seq<Record>, nextId: DocId, userId: string, personName: string,
                        personId: string, date: string, time: string, now: int)
    requires IdsBelow(rows, nextId)
    ensures var m := Mark(rows, nextId, userId, personName, personId, date, time, now);
      IdsBelow(m.rows, m.nextId) &&
      (m.result.status == Marked ==> forall i :: 0 <= i < |rows| ==> rows[i].id != m.result.id)
  {
  }

  /** `markAttendance` keeps every invariant of the table: ids in creation
      order and below the counter, and at most one row per `(userId, date)`. */
  lemma MarkPreservesInvariant(rows: seq<Record>, nextId: DocId, userId: string, personName: string,
                               personId: string, date: string, time: string, now: int)
    requires Chronological(rows) && IdsBelow(rows, nextId) && UniqueKeys(rows)
    ensures var m := Mark(rows, nextId, userId, personName, personId, date, time, now);
      Chronological(m.rows) && IdsBelow(m.rows, m.nextId) && UniqueKeys(m.rows)
  {
  }

  /** Two calls for the same user and day, whatever the other arguments:
      `marked` then `already_marked` with the same id, the second call changes
      nothing, and exactly one row for the key remains. */
  lemma MarkIdempotent(rows: seq<Record>, nextId: DocId, userId: string, date: string,
                       name1: string, person1: string, time1: string, now1: int,
                       name2: string, person2: string, time2: string, now2: int)
    requires UniqueKeys(rows)
    ensures var m1 := Mark(rows, nextId, userId, name1, person1, date, time1, now1);
      var m2 := Mark(m1.rows, m1.nextId, userId, name2, person2, date, time2, now2);
      (m1.result.status == Marked <==> forall i :: 0 <= i < |rows| ==> !HasKey(rows[i], userId, date)) &&
      m2.result == MarkResult(AlreadyMarked, m1.result.id) &&
      m2.rows == m1.rows && m2.nextId == m1.nextId &&
      KeyCount(m2.rows, userId, date) == 1
  {
    var m1 := Mark(rows, nextId, userId, name1, person1, date, time1, now1);
    var added := Record(nextId, userId, name1, person1, date, time1, now1);
    FirstWithKeyAppend(rows, added, userId, date);
    UniqueKeysAtMostOne(m1.rows, userId, date);
    assert HasKey(added, userId, date);
    if FirstWithKey(rows, userId, date).None? {
      assert m1.rows[|rows|] == added;
    }
  }

  /** The rows dated `date`, oldest first: `records.filter(r => r.date === d)`. */
  function DatedOn(rows: seq<Record>, date: string): (r: seq<Record>)
    ensures |r| <= |rows|
    ensures forall x :: x in r <==> x in rows && x.date == date
    ensures Chronological(rows) ==> Chronological(r)
  {
    if |rows| == 0 then []
    else
      var rest := DatedOn(rows[1..], date);
      assert forall x :: x in rows <==> x == rows[0] || x in rows[1..] by {
        assert rows == [rows[0]] + rows[1..];
      }
      if rows[0].date == date then
        OlderThanTail(rows, rest);
        [rows[0]] + rest
      else rest
  }

  /** In a table in creation order, the oldest row is older than every row
      drawn from the rest of the table. */
  lemma OlderThanTail(rows: seq<Record>, rest: seq<Record>)
    requires |rows| > 0
    requires forall x :: x in rest ==> x in rows[1..]
    ensures Chronological(rows) ==> forall k :: 0 <= k < |rest| ==> rows[0].id < rest[k].id
  {
    if Chronological(rows) {
      forall k | 0 <= k < |rest| ensures rows[0].id < rest[k].id {
        assert rest[k] in rows[1..];
        var j :| 0 <= j < |rows[1..]| && rows[1..][j] == rest[k];
        assert rows[j + 1] == rest[k];
      }
    }
  }

  /** The filter keeps each row dated `date` as many times as the table holds
      it, and no other row. */
  lemma {:induction false} DatedOnMultiset(rows: seq<Record>, date: string)
    ensures forall x :: multiset(DatedOn(rows, date))[x] == if x.date == date then multiset(rows)[x] else 0
  {
    if |rows| > 0 {
      assert rows == [rows[0]] + rows[1..];
      DatedOnMultiset(rows[1..], date);
    }
  }

  /** `getTodayAttendance(date)`: exactly the rows dated `date`, newest first. */
  function TodayAttendance(rows: seq<Record>, date: string): (r: seq<Record>)
    ensures forall x :: x in r <==> x in rows && x.date == date
    ensures |r| == |DatedOn(rows, date)|
    ensures Chronological(rows) ==> NewestFirst(r)
  {
    var dated := DatedOn(rows, date);
    var r := Reverse(dated);
    assert forall x :: x in r <==> x in dated by {
      assert multiset(r) == multiset(dated);
      forall x ensures x in r <==> x in dated {
        assert x in r <==> x in multiset(r);
        assert x in dated <==> x in multiset(dated);
      }
    }
    r
  }

  /** `getAllAttendance`: every row exactly once, newest first. */
  function AllAttendance(rows: seq<Record>): (r: seq<Record>)
    ensures |r| == |rows| && multiset(r) == multiset(rows)
    ensures forall i :: 0 <= i < |rows| ==> r[i] == rows[|rows| - 1 - i]
    ensures Chronological(rows) ==> NewestFirst(r)
  {
    Reverse(rows)
  }

  /** A non-empty list holds its first element. */
  lemma HeadIsMember(s: seq<Record>)
    ensures |s| > 0 ==> s[0] in s
  {
  }

  /** The rest of a newest-first list holds every member but its head. */
  lemma NewestFirstTail(s: seq<Record>)
    requires |s| > 0 && NewestFirst(s)
    ensures forall x :: x in s[1..] <==> x in s && x != s[0]
  {
    assert s == [s[0]] + s[1..];
    forall x | x in s[1..] ensures x != s[0] {
      var k :| 0 <= k < |s[1..]| && s[1..][k] == x;
      assert s[k + 1] == x;
    }
  }

  /** A newest-first list is determined by the rows it holds: two such lists
      with the same members are equal, so the contract of `TodayAttendance`
      pins its result down. */
  lemma {:induction false} NewestFirstDetermined(s: seq<Record>, t: seq<Record>)
    requires NewestFirst(s) && NewestFirst(t)
    requires forall x :: x in s <==> x in t
    ensures s == t
  {
    if |s| > 0 && |t| > 0 {
      assert s[0] in t && t[0] in s;
      var i :| 0 <= i < |t| && t[i] == s[0];
      var j :| 0 <= j < |s| && s[j] == t[0];
      assert s[0].id >= s[j].id && t[0].id >= t[i].id;
      NewestFirstTail(s);
      NewestFirstTail(t);
      NewestFirstDetermined(s[1..], t[1..]);
    } else {
      HeadIsMember(s);
      HeadIsMember(t);
    }
  }

  /** The users who have a row dated `date`. */
  function UsersPresentOn(rows: seq<Record>, date: string): set<string>
  {
    set x | x in rows && x.date == date :: x.userId
  }

  /** The users present on a day, split at the oldest row. */
  lemma UsersPresentOnCons(rows: seq<Record>, date: string)
    requires |rows| > 0
    ensures UsersPresentOn(rows, date) ==
      (if rows[0].date == date then {rows[0].userId} else {}) + UsersPresentOn(rows[1..], date)
  {
    assert rows == [rows[0]] + rows[1..];
    assert forall x :: x in rows <==> x == rows[0] || x in rows[1..];
  }

  /** Dropping the oldest row keeps keys unique, and no later row shares its key. */
  lemma UniqueKeysTail(rows: seq<Record>)
    requires |rows| > 0 && UniqueKeys(rows)
    ensures UniqueKeys(rows[1..])
    ensures forall x :: x in rows[1..] ==> !HasKey(x, rows[0].userId, rows[0].date)
  {
    var rest := rows[1..];
    forall i, j | 0 <= i < j < |rest| ensures !HasKey(rest[j], rest[i].userId, rest[i].date) {
      assert rest[i] == rows[i + 1] && rest[j] == rows[j + 1];
    }
    forall x | x in rest ensures !HasKey(x, rows[0].userId, rows[0].date) {
      var k :| 0 <= k < |rest| && rest[k] == x;
      assert rows[k + 1] == x;
    }
  }

  /** With at most one row per `(userId, date)`, the row count for a day is the
      number of distinct users present that day. */
  lemma {:induction false} PresentCountsDistinctUsers(rows: seq<Record>, users: seq<Users.User>, date: string)
    requires UniqueKeys(rows)
    ensures UserStatistics(rows, users, date).presentToday == |UsersPresentOn(rows, date)|
  {
    if |rows| > 0 {
      var rest := rows[1..];
      UniqueKeysTail(rows);
      PresentCountsDistinctUsers(rest, users, date);
      UsersPresentOnCons(rows, date);
      if rows[0].date == date {
        assert rows[0].userId !in UsersPresentOn(rest, date);
      }
    }
  }

  /** Euclidean division brackets its dividend. */
  lemma DivBrackets(n: nat, d: nat)
    requires d > 0
    ensures d * (n / d) <= n < d * (n / d) + d
  {
  }

  /** A positive factor can be cancelled from a strict inequality. */
  lemma MulCancel(d: nat, a: nat, b: nat)
    requires d > 0 && d * a < d * b
    ensures a < b
  {
  }

  /** `Math.round(100 * part / whole)` for non-negative operands: the nearest
      integer, halves rounded up. JavaScript evaluates the division and the
      product in floating point; the model uses exact integer arithmetic. */
  function RoundedPercent(part: nat, whole: nat): (p: nat)
    requires whole > 0
    ensures 2 * whole * p - whole <= 200 * part < 2 * whole * p + whole
    ensures part <= whole ==> p <= 100
  {
    var n, d := 200 * part + whole, 2 * whole;
    var p := n / d;
    DivBrackets(n, d);
    if part <= whole then
      assert d * p < d * 101;
      MulCancel(d, p, 101);
      p
    else
      p
  }

  /** The record returned by `getUserStatistics`. */
  datatype Statistics = Statistics(totalUsers: int, presentToday: int, absentToday: int, attendanceRate: int)

  /** `getUserStatistics`, with the current day passed in as `today`.
      `presentToday` counts the rows dated `today` (not distinct users);
      `absentToday` is not clamped and goes below zero when today's rows
      outnumber the users. */
  function UserStatistics(records: seq<Record>, users: seq<Users.User>, today: string): (s: Statistics)
    ensures s.totalUsers == |users|
    ensures s.presentToday == |TodayAttendance(records, today)|
    ensures s.presentToday + s.absentToday == s.totalUsers
    ensures s.totalUsers == 0 ==> s.attendanceRate == 0
    ensures s.totalUsers > 0 ==>
      2 * s.totalUsers * s.attendanceRate - s.totalUsers <= 200 * s.presentToday
                                                         < 2 * s.totalUsers * s.attendanceRate + s.totalUsers
    ensures s.presentToday <= s.totalUsers ==> 0 <= s.attendanceRate <= 100
  {
    var present := |DatedOn(records, today)|;
    var total := |users|;
    Statistics(total, present, total - present, if total > 0 then RoundedPercent(present, total) else 0)
  }

  /** The absent count is not clamped: one row today and no registered users
      gives an absent count of -1. */
  lemma AbsentCanBeNegative(r: Record)
    ensures UserStatistics([r], [], r.date).absentToday == -1
  {
    assert DatedOn([r], r.date) == [r];
  }

  /** The in-memory `attendance` table: rows in insertion order and the
      counter from which fresh ids are drawn. */
  class AttendanceTable {
    var rows: seq<Record>
    var nextId: DocId

    ghost predicate Valid()
      reads this
    {
      Chronological(rows) && IdsBelow(rows, nextId) && UniqueKeys(rows)
    }

    constructor ()
      ensures Valid() && rows == []
    {
      rows := [];
      nextId := 0;
    }

    /** `markAttendance`: look the key up; insert a row only when it is absent. */
    method MarkAttendance(userId: string, personName: string, personId: string, date: string,
                          time: string, now: int) returns (res: MarkResult)
      requires Valid()
      modifies this
      ensures Valid()
      ensures Marking(rows, nextId, res) == Mark(old(rows), old(nextId), userId, personName, personId, date, time, now)
    {
      MarkPreservesInvariant(rows, nextId, userId, personName, personId, date, time, now);
      var existing := FirstWithKey(rows, userId, date);
      if existing.Some? {
        return MarkResult(AlreadyMarked, existing.value.id);
      }
      var id := nextId;
      rows := rows + [Record(id, userId, personName, personId, date, time, now)];
      nextId := nextId + 1;
      res := MarkResult(Marked, id);
    }
  }
}
