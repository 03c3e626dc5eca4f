/**
 * The attendance ledger behind the time-in, time-out, list and delete handlers.
 *
 * Each (user, UTC day) has at most one entry, which goes NoEntry -> Open -> Closed.
 * The clock is a parameter: `now` is the instant of the request in milliseconds.
 */
module TimeLogController {
  import opened Common
  import opened TimeLogModel

  /**
   * The duration `diffMs` in hours, rounded to two decimals as `toFixed(2)` does,
   * in hundredths of an hour: the magnitude is rounded half up and the sign put back.
   */
  function CentiHours(diffMs: int): (r: int)
    ensures diffMs >= 0 ==> 0 <= r && 36000 * r - 18000 <= diffMs < 36000 * r + 18000
    ensures diffMs < 0 ==> r <= 0 && 36000 * -r - 18000 <= -diffMs < 36000 * -r + 18000
  {
    if diffMs >= 0 then (diffMs + 18000) / 36000 else -((-diffMs + 18000) / 36000)
  }

  /** Clocking in at 09:00 and out at 17:30 gives 8.50 hours. */
  lemma HalfPastFiveExample(day: nat)
    ensures var timeIn := day * DayMs + 9 * HourMs;
            var timeOut := day * DayMs + 17 * HourMs + 30 * 60_000;
            CentiHours(timeOut - timeIn) == 850
  {
  }

  /** A session that starts and ends on the same UTC day lasts at most 24.00 hours either way. */
  lemma SameDayDurationBound(timeIn: nat, timeOut: nat)
    requires DayKey(timeIn) == DayKey(timeOut)
    ensures -2400 <= CentiHours(timeOut - timeIn) <= 2400
  {
    assert timeIn - timeIn % DayMs == timeOut - timeOut % DayMs;
  }

  /** An entry as the controller leaves it: dated by its start, and with a duration exactly when closed. */
  ghost predicate WellFormed(e: Entry)
  {
    && e.date == DayKey(e.timeIn)
    && (e.timeOut.None? ==> e.totalHours == 0)
    && (e.timeOut.Some? ==>
          DayKey(e.timeOut.value) == e.date && e.totalHours == CentiHours(e.timeOut.value - e.timeIn))
  }

  /** No two entries share a (user, date) pair. */
  ghost predicate OnePerDay(s: seq<Entry>)
  {
    forall i, j :: 0 <= i < j < |s| ==> s[i].user != s[j].user || s[i].date != s[j].date
  }

  ghost predicate DistinctIds(s: seq<Entry>)
  {
    forall i, j :: 0 <= i < j < |s| ==> s[i].id != s[j].id
  }

  /** `findOne({ user, date })`: the index of the first entry of `user` on `date`. */
  function FindFor(s: seq<Entry>, user: UserId, date: nat): (r: Option<nat>)
    ensures r.Some? ==> r.value < |s| && s[r.value].user == user && s[r.value].date == date
    ensures r.Some? ==> forall k :: 0 <= k < r.value ==> s[k].user != user || s[k].date != date
    ensures r.None? ==> forall k :: 0 <= k < |s| ==> s[k].user != user || s[k].date != date
  {
    if s == [] then None
    else if s[0].user == user && s[0].date == date then Some(0)
    else match FindFor(s[1..], user, date)
      case None => None
      case Some(k) => Some(k + 1)
  }

  /** `findOne({ _id: logId, user })`: the index of the entry with that id, if the caller owns it. */
  function FindOwned(s: seq<Entry>, user: UserId, logId: LogId): (r: Option<nat>)
    ensures r.Some? ==> r.value < |s| && s[r.value].id == logId && s[r.value].user == user
    ensures r.None? ==> forall k :: 0 <= k < |s| ==> s[k].id != logId || s[k].user != user
  {
    if s == [] then None
    else if s[0].id == logId && s[0].user == user then Some(0)
    else match FindOwned(s[1..], user, logId)
      case None => None
      case Some(k) => Some(k + 1)
  }

  /** `find({ user })`: the caller's entries, each exactly as often as in the store. */
  function Owned(s: seq<Entry>, user: UserId): (r: seq<Entry>)
    ensures forall e :: e in r ==> e.user == user
    ensures forall e: Entry :: e.user == user ==> multiset(r)[e] == multiset(s)[e]
    ensures |r| <= |s|
  {
    if s == [] then []
    else
      var rest := Owned(s[1..], user);
      assert s == [s[0]] + s[1..];
      assert multiset(s) == multiset{s[0]} + multiset(s[1..]);
      if s[0].user == user then
        assert multiset([s[0]] + rest) == multiset{s[0]} + multiset(rest);
        [s[0]] + rest
      else
        rest
  }

  ghost predicate NewestFirst(s: seq<Entry>)
  {
    forall i, j :: 0 <= i < j < |s| ==> s[i].date >= s[j].date
  }

  ghost predicate StrictlyNewestFirst(s: seq<Entry>)
  {
    forall i, j :: 0 <= i < j < |s| ==> s[i].date > s[j].date
  }

  /** No two entries of `s` fall on the same date. */
  ghost predicate DistinctDates(s: seq<Entry>)
  {
    forall i, j :: 0 <= i < j < |s| ==> s[i].date != s[j].date
  }

  /** Putting an entry no older than all of `t` in front of `t` keeps the order (strictly, if it is newer). */
  lemma Prepend(x: Entry, t: seq<Entry>)
    ensures NewestFirst(t) && (forall y :: y in t ==> y.date <= x.date) ==> NewestFirst([x] + t)
    ensures StrictlyNewestFirst(t) && (forall y :: y in t ==> y.date < x.date) ==> StrictlyNewestFirst([x] + t)
  {
    var r := [x] + t;
    forall i, j | 0 < i < j < |r| ensures r[i] == t[i - 1] && r[j] == t[j - 1] { }
    forall j | 0 < j < |r| ensures r[j] in t { assert r[j] == t[j - 1]; }
  }

  /** The head of an ordered sequence is its newest entry, and the rest stays ordered. */
  lemma HeadIsNewest(s: seq<Entry>)
    requires s != []
    ensures NewestFirst(s) ==> NewestFirst(s[1..]) && forall y :: y in s ==> y.date <= s[0].date
    ensures StrictlyNewestFirst(s) ==> StrictlyNewestFirst(s[1..]) && forall y :: y in s[1..] ==> y.date < s[0].date
  {
    forall y | y in s ensures exists k :: 0 <= k < |s| && s[k] == y { }
    forall y | y in s[1..] ensures exists k :: 1 <= k < |s| && s[k] == y {
      var k :| 0 <= k < |s[1..]| && s[1..][k] == y;
      assert s[k + 1] == y;
    }
  }

  /** Inserts `e` in front of the first entry that is not newer than it. */
  function InsertNewestFirst(e: Entry, s: seq<Entry>): (r: seq<Entry>)
    ensures multiset(r) == multiset(s) + multiset{e}
  {
    if s == [] then [e]
    else if e.date >= s[0].date then [e] + s
    else
      assert s == [s[0]] + s[1..];
      [s[0]] + InsertNewestFirst(e, s[1..])
  }

  /** Insertion adds `e` and nothing else. */
  lemma InsertedMembers(e: Entry, s: seq<Entry>)
    ensures forall x :: x in InsertNewestFirst(e, s) ==> x == e || x in s
  {
    var r := InsertNewestFirst(e, s);
    forall x | x in r ensures x == e || x in s {
      assert x in multiset(r);
    }
  }

  /** Insertion keeps a newest-first sequence newest first, and strictly so when `e`'s date is new. */
  lemma {:induction false} InsertKeepsOrder(e: Entry, s: seq<Entry>)
    ensures NewestFirst(s) ==> NewestFirst(InsertNewestFirst(e, s))
    ensures StrictlyNewestFirst(s) && (forall x :: x in s ==> x.date != e.date) ==>
              StrictlyNewestFirst(InsertNewestFirst(e, s))
  {
    if s != [] {
      HeadIsNewest(s);
      if e.date >= s[0].date {
        Prepend(e, s);
      } else {
        assert forall x :: x in s[1..] ==> x in s;
        InsertKeepsOrder(e, s[1..]);
        var tail := InsertNewestFirst(e, s[1..]);
        InsertedMembers(e, s[1..]);
        if NewestFirst(s) {
          assert forall y :: y in tail ==> y.date <= s[0].date;
        }
        if StrictlyNewestFirst(s) {
          assert forall y :: y in tail ==> y.date < s[0].date;
        }
        Prepend(s[0], tail);
      }
    }
  }

  /** `.sort({ date: -1 })`: the entries ordered by date, newest first. */
  function SortNewestFirst(s: seq<Entry>): (r: seq<Entry>)
    ensures multiset(r) == multiset(s)
    ensures NewestFirst(r)
    ensures DistinctDates(s) ==> StrictlyNewestFirst(r)
  {
    if s == [] then []
    else
      assert s == [s[0]] + s[1..];
      assert DistinctDates(s) ==> DistinctDates(s[1..]) by {
        if DistinctDates(s) {
          forall i, j | 0 <= i < j < |s[1..]| ensures s[1..][i].date != s[1..][j].date {
            assert s[1..][i] == s[i + 1] && s[1..][j] == s[j + 1];
          }
        }
      }
      var rest := SortNewestFirst(s[1..]);
      assert DistinctDates(s) ==> forall x :: x in rest ==> x.date != s[0].date by {
        if DistinctDates(s) {
          forall x | x in rest ensures x.date != s[0].date {
            assert x in multiset(rest);
            var k :| 0 <= k < |s[1..]| && s[1..][k] == x;
            assert s[k + 1] == x;
          }
        }
      }
      InsertKeepsOrder(s[0], rest);
      InsertNewestFirst(s[0], rest)
  }

  /** The first entry of a one-per-day store clashes with no later entry, and the rest is one-per-day too. */
  lemma OnePerDayTail(s: seq<Entry>)
    requires s != [] && OnePerDay(s)
    ensures OnePerDay(s[1..])
    ensures forall y :: y in s[1..] && y.user == s[0].user ==> y.date != s[0].date
  {
    forall y | y in s[1..] ensures exists k :: 1 <= k < |s| && s[k] == y {
      var k :| 0 <= k < |s[1..]| && s[1..][k] == y;
      assert s[k + 1] == y;
    }
  }

  /** Putting an entry with a date not yet present in front of a date-distinct sequence keeps it date-distinct. */
  lemma PrependDistinct(x: Entry, t: seq<Entry>)
    requires DistinctDates(t) && forall y :: y in t ==> y.date != x.date
    ensures DistinctDates([x] + t)
  {
    var r := [x] + t;
    forall i, j | 0 <= i < j < |r| ensures r[i].date != r[j].date {
      assert r[j] == t[j - 1];
      if i > 0 { assert r[i] == t[i - 1]; }
    }
  }

  /** Two entries of one user never share a date when the store has one entry per (user, date). */
  lemma {:induction false} OwnedDistinctDates(s: seq<Entry>, user: UserId)
    requires OnePerDay(s)
    ensures DistinctDates(Owned(s, user))
  {
    if s != [] {
      OnePerDayTail(s);
      OwnedDistinctDates(s[1..], user);
      var rest := Owned(s[1..], user);
      if s[0].user == user {
        forall x | x in rest ensures x.date != s[0].date {
          assert x in multiset(rest);
          assert x in s[1..];
        }
        PrependDistinct(s[0], rest);
      }
    }
  }

  /** What `getLogs` answers for `user`: that user's entries, newest first. */
  function LogsOf(s: seq<Entry>, user: UserId): (r: seq<Entry>)
    ensures forall e :: e in r ==> e.user == user
    ensures forall e: Entry :: e.user == user ==> multiset(r)[e] == multiset(s)[e]
    ensures NewestFirst(r)
  {
    var owned := Owned(s, user);
    var r := SortNewestFirst(owned);
    assert forall e :: e in r ==> e in owned by {
      forall e | e in r ensures e in owned { assert e in multiset(r); }
    }
    r
  }

  /** With one entry per (user, date), the listing has no ties: dates strictly decrease. */
  lemma LogsOfStrictlyNewestFirst(s: seq<Entry>, user: UserId)
    requires OnePerDay(s)
    ensures StrictlyNewestFirst(LogsOf(s, user))
  {
    OwnedDistinctDates(s, user);
  }

  /** Removing the entry at `k` keeps the order of all the others. */
  function RemoveAt(s: seq<Entry>, k: nat): (r: seq<Entry>)
    requires k < |s|
    ensures |r| == |s| - 1
    ensures forall i :: 0 <= i < k ==> r[i] == s[i]
    ensures forall i :: k <= i < |r| ==> r[i] == s[i + 1]
  {
    s[..k] + s[k + 1..]
  }

  /** The attendance store: the TimeLog collection, and the source of fresh ids. */
  class Ledger {
    var entries: seq<Entry>
    var nextId: LogId

    ghost predicate Valid()
      reads this
    {
      && (forall i :: 0 <= i < |entries| ==> WellFormed(entries[i]) && entries[i].id < nextId)
      && DistinctIds(entries)
      && OnePerDay(entries)
    }

    constructor ()
      ensures Valid() && entries == [] && nextId == 0
    {
      entries := [];
      nextId := 0;
    }

    /** `timeIn`: opens today's entry unless `user` already has one for today, open or closed. */
    method TimeIn(user: UserId, now: nat) returns (r: Reply<Entry>)
      requires Valid()
      modifies this
      ensures Valid()
      ensures FindFor(old(entries), user, DayKey(now)).Some? ==>
                r == Rejected(400, "Already timed in today") && unchanged(this)
      ensures FindFor(old(entries), user, DayKey(now)).None? ==>
                && r == Ok(201, NewEntry(old(nextId), user, DayKey(now), now))
                && r.value.IsOpen() && r.value.totalHours == 0
                && entries == old(entries) + [r.value]
                && nextId == old(nextId) + 1
    {
      var today := DayKey(now);
      var existing := FindFor(entries, user, today);
      if existing.Some? {
        return Rejected(400, "Already timed in today");
      }
      var log := NewEntry(nextId, user, today, now);
      entries := entries + [log];
      nextId := nextId + 1;
      r := Ok(201, log);
    }

    /**
     * `timeOut`: closes today's entry, stamping `now` and the rounded duration.
     * Only today's entry is looked at, so an entry left open on an earlier day stays open.
     */
    method TimeOut(user: UserId, now: nat) returns (r: Reply<Entry>)
      requires Valid()
      modifies this
      ensures Valid()
      ensures nextId == old(nextId) && |entries| == |old(entries)|
      ensures var f := FindFor(old(entries), user, DayKey(now));
              f.None? || !old(entries)[f.value].IsOpen() ==>
                r == Rejected(400, "No active time-in") && entries == old(entries)
      ensures var f := FindFor(old(entries), user, DayKey(now));
              f.Some? && old(entries)[f.value].IsOpen() ==>
                var e := old(entries)[f.value];
                && r == Ok(200, e.(timeOut := Some(now), totalHours := CentiHours(now - e.timeIn)))
                && entries == old(entries)[f.value := r.value]
      ensures forall i :: 0 <= i < |entries| && old(entries)[i].date != DayKey(now) ==>
                entries[i] == old(entries)[i]
      ensures r.Ok? ==> -2400 <= r.value.totalHours <= 2400
    {
      var today := DayKey(now);
      var found := FindFor(entries, user, today);
      if found.None? || !entries[found.value].IsOpen() {
        return Rejected(400, "No active time-in");
      }
      var log := entries[found.value];
      SameDayDurationBound(log.timeIn, now);
      log := log.(timeOut := Some(now), totalHours := CentiHours(now - log.timeIn));
      entries := entries[found.value := log];
      r := Ok(200, log);
    }

    /** `getLogs`: exactly the caller's entries, newest first. */
    function GetLogs(user: UserId): (r: seq<Entry>)
      reads this
      ensures forall e :: e in r <==> e in entries && e.user == user
      ensures NewestFirst(r)
    {
      var r := LogsOf(entries, user);
      assert forall e :: e in r <==> e in multiset(r);
      r
    }

    /** With the store consistent, the caller's entries have distinct dates, strictly newest first. */
    lemma GetLogsStrictlyNewestFirst(user: UserId)
      requires Valid()
      ensures StrictlyNewestFirst(GetLogs(user))
    {
      LogsOfStrictlyNewestFirst(entries, user);
    }

    /**
     * `deleteLog`: removes the caller's entry with id `logId`, open or closed;
     * 404 when no entry with that id belongs to the caller.
     */
    method DeleteLog(user: UserId, logId: LogId) returns (r: Reply<string>)
      requires Valid()
      modifies this
      ensures Valid()
      ensures nextId == old(nextId)
      ensures FindOwned(old(entries), user, logId).None? ==>
                r == Rejected(404, "Log not found") && entries == old(entries)
      ensures FindOwned(old(entries), user, logId).Some? ==>
                && r == Ok(200, "Log deleted successfully")
                && entries == RemoveAt(old(entries), FindOwned(old(entries), user, logId).value)
      ensures r.Ok? ==> forall e :: e in GetLogs(user) ==> e.id != logId
    {
      var found := FindOwned(entries, user, logId);
      if found.None? {
        return Rejected(404, "Log not found");
      }
      var k := found.value;
      ghost var before := entries;
      entries := RemoveAt(entries, k);
      forall e | e in entries ensures e.id != logId {
        var i :| 0 <= i < |entries| && entries[i] == e;
        if i < k { assert before[i] == e; } else { assert before[i + 1] == e; }
      }
      r := Ok(200, "Log deleted successfully");
    }
  }
}
