/**
 * The dashboard's derivations from the fetched logs: today's status, which
 * action the header offers, the marker on each calendar cell, the calendar
 * grid itself, and month navigation.
 *
 * The browser's clock and time zone are parameters: `today` and each cell's
 * `day` are the UTC day numbers the page obtains from `toISOString()`.
 */
module Dashboard {
  import opened Common
  import opened TimeLogModel
  import TimeLogController

  /** The `activeSession` state: the open log of today and today's day number. */
  datatype Session = Session(logId: LogId, date: nat)

  /** What the header shows in place of the clock button. */
  datatype HeaderAction = CompletedBadge | TimeOutButton | TimeInButton

  /** The marker on one calendar cell. */
  datatype CellMarker = NoLog | Completed | InProgress

  /** How a request made through the context ended: resolved, or thrown with the server's `message` ("" when none). */
  datatype CallOutcome = Resolved | Thrown(serverMessage: string)

  /** `logs.some(log => log.date === today && log.timeOut)`. */
  function HasCompletedToday(logs: seq<Entry>, today: nat): (r: bool)
    ensures r <==> exists i :: 0 <= i < |logs| && logs[i].date == today && !logs[i].IsOpen()
  {
    if logs == [] then false
    else if logs[0].date == today && !logs[0].IsOpen() then true
    else
      var rest := HasCompletedToday(logs[1..], today);
      assert rest ==> exists i :: 1 <= i < |logs| && logs[i].date == today && !logs[i].IsOpen() by {
        if rest {
          var i :| 0 <= i < |logs[1..]| && logs[1..][i].date == today && !logs[1..][i].IsOpen();
          assert logs[i + 1] == logs[1..][i];
        }
      }
      rest
  }

  /** `logs.find(log => log.date === today && !log.timeOut)`: the index of the first open log of `today`. */
  function FirstOpenOn(logs: seq<Entry>, today: nat): (r: Option<nat>)
    ensures r.Some? ==> r.value < |logs| && logs[r.value].date == today && logs[r.value].IsOpen()
    ensures r.Some? ==> forall j :: 0 <= j < r.value ==> logs[j].date != today || !logs[j].IsOpen()
    ensures r.None? ==> forall j :: 0 <= j < |logs| ==> logs[j].date != today || !logs[j].IsOpen()
  {
    if logs == [] then None
    else if logs[0].date == today && logs[0].IsOpen() then Some(0)
    else match FirstOpenOn(logs[1..], today)
      case None => None
      case Some(k) => Some(k + 1)
  }

  /** The session `checkActiveSession` records: today's first open log, or none. */
  function ActiveSessionOf(logs: seq<Entry>, today: nat): (r: Option<Session>)
    ensures r.None? <==> forall j :: 0 <= j < |logs| ==> logs[j].date != today || !logs[j].IsOpen()
    ensures r.Some? ==> r.value.date == today
    ensures r.Some? ==>
              exists i :: 0 <= i < |logs| && logs[i].id == r.value.logId && logs[i].date == today && logs[i].IsOpen()
  {
    match FirstOpenOn(logs, today)
    case None => None
    case Some(k) => Some(Session(logs[k].id, today))
  }

  /** The header's choice: the completed badge first, then the time-out button, then the time-in button. */
  function HeaderActionFor(completedToday: bool, active: Option<Session>): (r: HeaderAction)
    ensures r == CompletedBadge <==> completedToday
    ensures r == TimeOutButton <==> !completedToday && active.Some?
    ensures r == TimeInButton <==> !completedToday && active.None?
  {
    if completedToday then CompletedBadge
    else if active.Some? then TimeOutButton
    else TimeInButton
  }

  /** What the header shows for the logs the page holds. */
  function HeaderFor(logs: seq<Entry>, today: nat): (r: HeaderAction)
    ensures r == CompletedBadge <==> exists i :: 0 <= i < |logs| && logs[i].date == today && !logs[i].IsOpen()
    ensures r == TimeOutButton <==>
              && (forall j :: 0 <= j < |logs| ==> logs[j].date != today || logs[j].IsOpen())
              && (exists i :: 0 <= i < |logs| && logs[i].date == today && logs[i].IsOpen())
    ensures r == TimeInButton <==> forall j :: 0 <= j < |logs| ==> logs[j].date != today
  {
    HeaderActionFor(HasCompletedToday(logs, today), ActiveSessionOf(logs, today))
  }

  /** `logs.find(l => l.date === day)`: the index of the first log of `day`. */
  function FirstOn(logs: seq<Entry>, day: nat): (r: Option<nat>)
    ensures r.Some? ==> r.value < |logs| && logs[r.value].date == day
    ensures r.Some? ==> forall j :: 0 <= j < r.value ==> logs[j].date != day
    ensures r.None? ==> forall j :: 0 <= j < |logs| ==> logs[j].date != day
  {
    if logs == [] then None
    else if logs[0].date == day then Some(0)
    else match FirstOn(logs[1..], day)
      case None => None
      case Some(k) => Some(k + 1)
  }

  /** The marker of the cell for `day`, read from the first log of that day. */
  function CellStatus(logs: seq<Entry>, day: nat): (r: CellMarker)
    ensures r == NoLog <==> forall j :: 0 <= j < |logs| ==> logs[j].date != day
    ensures r == Completed ==> exists i :: 0 <= i < |logs| && logs[i].date == day && !logs[i].IsOpen()
    ensures r == InProgress ==> exists i :: 0 <= i < |logs| && logs[i].date == day && logs[i].IsOpen()
  {
    match FirstOn(logs, day)
    case None => NoLog
    case Some(k) => if logs[k].IsOpen() then InProgress else Completed
  }

  /** With at most one log per date, today's cell shows the same status as the header. */
  lemma CellAgreesWithHeader(logs: seq<Entry>, today: nat)
    requires TimeLogController.DistinctDates(logs)
    ensures CellStatus(logs, today) == Completed <==> HeaderFor(logs, today) == CompletedBadge
    ensures CellStatus(logs, today) == InProgress <==> HeaderFor(logs, today) == TimeOutButton
    ensures CellStatus(logs, today) == NoLog <==> HeaderFor(logs, today) == TimeInButton
  {
    match FirstOn(logs, today)
    case None =>
    case Some(k) =>
      assert forall j :: 0 <= j < |logs| && logs[j].date == today ==> j == k;
  }

  /** A log is in the listing for `user` exactly when it is one of that user's entries in the store. */
  lemma InListing(s: seq<Entry>, user: UserId, e: Entry)
    ensures e in TimeLogController.LogsOf(s, user) <==> e in s && e.user == user
  {
    var r := TimeLogController.LogsOf(s, user);
    if e.user == user {
      assert multiset(r)[e] == multiset(s)[e];
      assert e in r <==> e in multiset(r);
      assert e in s <==> e in multiset(s);
    }
  }

  /** The listing holds a log of `user` dated `today` exactly when the store does. */
  lemma ListingHasDay(s: seq<Entry>, user: UserId, today: nat)
    ensures (exists i :: 0 <= i < |TimeLogController.LogsOf(s, user)| && TimeLogController.LogsOf(s, user)[i].date == today)
            <==> TimeLogController.FindFor(s, user, today).Some?
  {
    var logs := TimeLogController.LogsOf(s, user);
    var f := TimeLogController.FindFor(s, user, today);
    if i :| 0 <= i < |logs| && logs[i].date == today {
      InListing(s, user, logs[i]);
    }
    if f.Some? {
      InListing(s, user, s[f.value]);
      var i :| 0 <= i < |logs| && logs[i] == s[f.value];
    }
  }

  /**
   * On the listing the server returns, the time-in button is offered exactly when
   * the server would accept a time-in, that is when the user has no entry for today.
   */
  lemma TimeInShownIff(s: seq<Entry>, user: UserId, today: nat)
    ensures HeaderFor(TimeLogController.LogsOf(s, user), today) == TimeInButton
            <==> TimeLogController.FindFor(s, user, today).None?
  {
    ListingHasDay(s, user, today);
  }

  /**
   * On the listing the server returns, the completed badge shows exactly when the
   * user has a closed entry for today.
   */
  lemma CompletedShownIff(s: seq<Entry>, user: UserId, today: nat)
    ensures HeaderFor(TimeLogController.LogsOf(s, user), today) == CompletedBadge
            <==> exists i :: 0 <= i < |s| && s[i].user == user && s[i].date == today && !s[i].IsOpen()
  {
    var logs := TimeLogController.LogsOf(s, user);
    if i :| 0 <= i < |logs| && logs[i].date == today && !logs[i].IsOpen() {
      InListing(s, user, logs[i]);
    }
    if i :| 0 <= i < |s| && s[i].user == user && s[i].date == today && !s[i].IsOpen() {
      InListing(s, user, s[i]);
      var j :| 0 <= j < |logs| && logs[j] == s[i];
    }
  }

  /**
   * With one entry per (user, date), as the ledger keeps, the time-out button is
   * offered exactly when the server would close today's entry.
   */
  lemma TimeOutShownIff(s: seq<Entry>, user: UserId, today: nat)
    requires TimeLogController.OnePerDay(s)
    ensures HeaderFor(TimeLogController.LogsOf(s, user), today) == TimeOutButton
            <==> (TimeLogController.FindFor(s, user, today).Some? &&
                  s[TimeLogController.FindFor(s, user, today).value].IsOpen())
  {
    var logs := TimeLogController.LogsOf(s, user);
    var f := TimeLogController.FindFor(s, user, today);
    forall e | e in logs && e.date == today ensures f.Some? && e == s[f.value] {
      InListing(s, user, e);
      var j :| 0 <= j < |s| && s[j] == e;
      assert f.Some? && s[f.value].user == s[j].user && s[f.value].date == s[j].date;
    }
    if f.Some? {
      InListing(s, user, s[f.value]);
      var i :| 0 <= i < |logs| && logs[i] == s[f.value];
    }
  }

  /**
   * `getDaysInMonth`: `firstDay` empty slots (the weekday of the 1st), then the
   * days 1 to `daysInMonth`. The page obtains both numbers from the `Date` library.
   */
  method GetDaysInMonth(firstDay: nat, daysInMonth: nat) returns (days: seq<Option<nat>>)
    ensures |days| == firstDay + daysInMonth
    ensures forall k :: 0 <= k < firstDay ==> days[k].None?
    ensures forall k :: firstDay <= k < |days| ==> days[k] == Some(k - firstDay + 1)
  {
    days := [];
    var i := 0;
    while i < firstDay
      invariant 0 <= i <= firstDay && |days| == i
      invariant forall k :: 0 <= k < i ==> days[k].None?
    {
      days := days + [None];
      i := i + 1;
    }
    var d := 1;
    while d <= daysInMonth
      invariant 1 <= d <= daysInMonth + 1
      invariant |days| == firstDay + d - 1
      invariant forall k :: 0 <= k < firstDay ==> days[k].None?
      invariant forall k :: firstDay <= k < |days| ==> days[k] == Some(k - firstDay + 1)
    {
      days := days + [Some(d)];
      d := d + 1;
    }
  }

  /** A calendar month: the full year and the month index 0 to 11, as `Date` reports them. */
  datatype YearMonth = YearMonth(year: int, month: int)

  /** `new Date(y, ...)` reads a year argument from 0 to 99 as 1900 + y. */
  function FullYear(yearArg: int): int
  {
    if 0 <= yearArg <= 99 then 1900 + yearArg else yearArg
  }

  /** The month of `new Date(yearArg, monthArg, 1)`: an out-of-range month carries into the year. */
  function MakeMonth(yearArg: int, monthArg: int): (r: YearMonth)
    ensures 0 <= r.month < 12
    ensures 12 * r.year + r.month == 12 * FullYear(yearArg) + monthArg
  {
    YearMonth(FullYear(yearArg) + monthArg / 12, monthArg % 12)
  }

  /** `prevMonth`: the 1st of the month before. */
  function PrevMonth(c: YearMonth): (r: YearMonth)
    ensures 0 <= r.month < 12
    ensures 12 * r.year + r.month == 12 * FullYear(c.year) + c.month - 1
  {
    MakeMonth(c.year, c.month - 1)
  }

  /** `nextMonth`: the 1st of the month after. */
  function NextMonth(c: YearMonth): (r: YearMonth)
    ensures 0 <= r.month < 12
    ensures 12 * r.year + r.month == 12 * FullYear(c.year) + c.month + 1
  {
    MakeMonth(c.year, c.month + 1)
  }

  /** Away from the years `Date` reads as two-digit years, the previous month is one month earlier, wrapping the year. */
  lemma PrevMonthWraps(c: YearMonth)
    requires 0 <= c.month < 12 && !(0 <= c.year <= 99)
    ensures c.month == 0 ==> PrevMonth(c) == YearMonth(c.year - 1, 11)
    ensures c.month > 0 ==> PrevMonth(c) == YearMonth(c.year, c.month - 1)
  {
  }

  /** Away from the years `Date` reads as two-digit years, the next month is one month later, wrapping the year. */
  lemma NextMonthWraps(c: YearMonth)
    requires 0 <= c.month < 12 && !(0 <= c.year <= 99)
    ensures c.month == 11 ==> NextMonth(c) == YearMonth(c.year + 1, 0)
    ensures c.month < 11 ==> NextMonth(c) == YearMonth(c.year, c.month + 1)
  {
  }

  /** Going back a month and then forward restores the month, outside the years 0 to 100. */
  lemma NextAfterPrev(c: YearMonth)
    requires 0 <= c.month < 12 && (c.year < 0 || c.year > 100)
    ensures NextMonth(PrevMonth(c)) == c
  {
    PrevMonthWraps(c);
    NextMonthWraps(PrevMonth(c));
  }

  /** Going forward a month and then back restores the month, outside the years -1 to 99. */
  lemma PrevAfterNext(c: YearMonth)
    requires 0 <= c.month < 12 && (c.year < -1 || c.year >= 100)
    ensures PrevMonth(NextMonth(c)) == c
  {
    NextMonthWraps(c);
    PrevMonthWraps(NextMonth(c));
  }

  /** At January of year 100 the round trip fails: year 99 is read back as 1999. */
  lemma NextAfterPrevAtYear100()
    ensures PrevMonth(YearMonth(100, 0)) == YearMonth(99, 11)
    ensures NextMonth(PrevMonth(YearMonth(100, 0))) == YearMonth(2000, 0)
  {
  }

  /** Message shown when time-out is requested without an open session. */
  const NoActiveSession := "No active time-in session found"
  /** Message shown when the time-out request fails without a server message. */
  const TimeOutFailed := "Failed to clock out. Please try again."

  /** The dashboard's own state: the open session, the error banner, the time-out dialog and the month shown. */
  class DashboardView {
    var activeSession: Option<Session>
    var apiError: Option<string>
    var isProcessing: bool
    var timeOutModalOpen: bool
    var shown: YearMonth

    /** The month shown is a real month. */
    ghost predicate Valid()
      reads this
    {
      0 <= shown.month < 12
    }

    /** The page opens on the current month with no session, no error and no dialog. */
    constructor (current: YearMonth)
      requires 0 <= current.month < 12
      ensures Valid() && shown == current
      ensures activeSession.None? && apiError.None? && !isProcessing && !timeOutModalOpen
    {
      activeSession := None;
      apiError := None;
      isProcessing := false;
      timeOutModalOpen := false;
      shown := current;
    }

    /** `checkActiveSession`: records today's first open log, or clears the session. */
    method CheckActiveSession(logs: seq<Entry>, today: nat)
      modifies this
      ensures activeSession == ActiveSessionOf(logs, today)
      ensures apiError == old(apiError) && isProcessing == old(isProcessing)
      ensures timeOutModalOpen == old(timeOutModalOpen) && shown == old(shown)
    {
      var k := FirstOpenOn(logs, today);
      if k.Some? {
        activeSession := Some(Session(logs[k.value].id, today));
      } else {
        activeSession := None;
      }
    }

    /**
     * `handleTimeOut`: without an open session it shows an error and makes no request.
     * Otherwise it makes the request; success closes the dialog, failure shows the
     * server's message or a default one. `called` says whether the request was made.
     */
    method HandleTimeOut(outcome: CallOutcome) returns (called: bool)
      modifies this
      ensures called <==> old(activeSession).Some?
      ensures !called ==> apiError == Some(NoActiveSession) && isProcessing == old(isProcessing)
                          && timeOutModalOpen == old(timeOutModalOpen)
      ensures called ==> !isProcessing
      ensures called && outcome.Resolved? ==> apiError.None? && !timeOutModalOpen
      ensures called && outcome.Thrown? ==>
                && timeOutModalOpen == old(timeOutModalOpen)
                && apiError == Some(if outcome.serverMessage != "" then outcome.serverMessage else TimeOutFailed)
      ensures activeSession == old(activeSession) && shown == old(shown)
    {
      if activeSession.None? {
        apiError := Some(NoActiveSession);
        return false;
      }
      isProcessing := true;
      apiError := None;
      match outcome {
        case Resolved =>
          timeOutModalOpen := false;
        case Thrown(message) =>
          apiError := Some(if message != "" then message else TimeOutFailed);
      }
      isProcessing := false;
      return true;
    }

    /** The chevron to the left: shows the previous month. */
    method ShowPrevMonth()
      requires Valid()
      modifies this
      ensures Valid() && shown == PrevMonth(old(shown))
      ensures activeSession == old(activeSession) && apiError == old(apiError)
      ensures isProcessing == old(isProcessing) && timeOutModalOpen == old(timeOutModalOpen)
    {
      shown := PrevMonth(shown);
    }

    /** The chevron to the right: shows the next month. */
    method ShowNextMonth()
      requires Valid()
      modifies this
      ensures Valid() && shown == NextMonth(old(shown))
      ensures activeSession == old(activeSession) && apiError == old(apiError)
      ensures isProcessing == old(isProcessing) && timeOutModalOpen == old(timeOutModalOpen)
    {
      shown := NextMonth(shown);
    }
  }
}
