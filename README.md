# OJT time tracking: a Dafny model of the attendance and account core

This project models the core of an on-the-job-training time tracker: an Express and
Mongoose back end plus a React client.

What it models:

- **The attendance ledger.** A trainee clocks in once per UTC day. Clocking out closes
  that day's entry and fixes its duration in hours, to two decimals. The listing returns
  the trainee's own entries, newest first. Delete is owner-checked.
- **The account store.** Registration validates its input, refuses duplicate emails and
  defaults the goal to 400 hours. Login fails generically.
- **The password-reset challenge.** The server stores only the sha256 digest of a random
  token, valid for one hour. The challenge is single-use and cleared on success.
- **The User and TimeLog schemas.** This covers their `trim` and `lowercase` setters,
  their defaults and their required fields.
- **The client's derivations:**
  - hours logged, hours remaining and percent of the goal;
  - today's status and the header button;
  - calendar cell markers;
  - the calendar grid and month navigation;
  - the ordered checks of the reset-password form.

Modelling choices:

- Time is whole milliseconds since the epoch. The ISO day `toISOString().split("T")[0]` is
  the UTC day number `now / 86_400_000`, which orders the same way the date strings do.
- Durations are integer hundredths of an hour (`CentiHours`). `toFixed(2)` rounds the
  magnitude half up, and the sign is then put back.
- sha256 is the free constructor `Digest.Sha256`, so it is injective. A bcrypt hash is
  `PasswordHash.Bcrypt(secret, salt)`. The `password` field has type `PasswordHash`,
  so no plain `string` can be stored there. This is a claim about the field's type only:
  the symbolic hash value still carries its secret, as `Digest` carries its preimage.
- The following are parameters: the random reset token, the salt, the clock, whether an
  email could be sent, and the outcome of client HTTP requests.
- A missing request-body string is `""`. The handlers' `!x` checks treat it the same way
  as absence.
- Mongoose applies the schema's `lowercase` and `trim` setters to query filters as well as
  to stored documents. So every email lookup uses `NormalizeEmail`.
- A field that is only white space passes the handler's `!x` check. It then trims to `""`
  and fails the schema's `required` validator inside `User.create`. The handler answers
  that case with 500 "Registration failed", and the model does the same.
- State-changing handlers are methods of the classes `Ledger` and `AccountStore`. Each
  class has an invariant `Valid()`, which every method keeps:
  - `Ledger.Valid()`: at most one entry per (user, day), ids unique, and each entry's
    duration consistent with its stamps. Each handler reads the clock once (`now`);
    see "## Left out" for the two readings the source makes.
  - `AccountStore.Valid()`: accounts in stored form, emails unique, ids fresh.
- The client's stateful parts are the classes `ContextState`, `DashboardView` and
  `ResetForm`.

## Model

| member | source | states |
|---|---|---|
| TimeLogModel.DayKey | backend/src/controllers/timeLogController.js:7 | The day key of an instant is the UTC day that contains it: `86_400_000 · day <= now < 86_400_000 · (day + 1)`. |
| TimeLogModel.NewEntry | backend/src/models/TimeLog.js:3-25 | A new entry carries the given id, user, date and `timeIn`, has no `timeOut`, and has the schema's default of 0 hours. |
| TimeLogController.CentiHours | backend/src/controllers/timeLogController.js:49-50 | The duration in hundredths of an hour is the one nearest to `diffMs / 36000`. Ties are rounded away from zero. |
| TimeLogController.HalfPastFiveExample | backend/src/controllers/timeLogController.js:47-50 | A worked example, not a general property: clocking in at 09:00 and out at 17:30 on any day gives 8.50 hours. |
| TimeLogController.SameDayDurationBound | backend/src/controllers/timeLogController.js:34-50 | A stamp pair on one UTC day yields a duration between -24.00 and 24.00 hours. |
| TimeLogController.FindFor | backend/src/controllers/timeLogController.js:9-12 | `findOne({user, date})` returns the first entry of that user on that date, or none when there is none. |
| TimeLogController.FindOwned | backend/src/controllers/timeLogController.js:75 | `findOne({_id, user})` returns an entry with that id owned by that user, or none when no such entry exists. |
| TimeLogController.Owned | backend/src/controllers/timeLogController.js:62 | `find({user})` holds only that user's entries, each exactly as often as in the store. |
| TimeLogController.InsertNewestFirst | backend/src/controllers/timeLogController.js:63 | Insertion adds exactly the one entry (multiset). |
| TimeLogController.InsertKeepsOrder | backend/src/controllers/timeLogController.js:63 | Insertion keeps a newest-first sequence newest first. It keeps it strictly so when the new date is not present. |
| TimeLogController.SortNewestFirst | backend/src/controllers/timeLogController.js:63 | `sort({date: -1})` returns a permutation of its input ordered by date, newest first. The order is strict when the dates are distinct. |
| TimeLogController.OwnedDistinctDates | backend/src/controllers/timeLogController.js:9-24 | In a store with one entry per (user, date), one user's entries have distinct dates. |
| TimeLogController.LogsOf | backend/src/controllers/timeLogController.js:62-65 | The listing is exactly the user's entries (multiset), newest first. |
| TimeLogController.LogsOfStrictlyNewestFirst | backend/src/controllers/timeLogController.js:62-65 | With one entry per (user, date), the listing's dates strictly decrease. |
| TimeLogController.RemoveAt | backend/src/controllers/timeLogController.js:83 | Deleting position k keeps every other entry, in order. |
| TimeLogController.Ledger.TimeIn | backend/src/controllers/timeLogController.js:5-27 | If the user has any entry for today, open or closed: 400 "Already timed in today", store unchanged. Otherwise it appends exactly one open entry (today, `now`, 0 hours), answers 201 with it, and keeps one entry per (user, day). |
| TimeLogController.Ledger.TimeOut | backend/src/controllers/timeLogController.js:32-54 | No entry for today, or today's entry already closed: 400 "No active time-in", store unchanged. Otherwise only today's entry changes: it gets `timeOut = now` and the rounded duration, bounded by ±24 h. Entries of other days, including one left open, are unchanged. |
| TimeLogController.Ledger.GetLogs | backend/src/controllers/timeLogController.js:59-66 | An entry is listed exactly when it is in the store and belongs to the caller, and the list is newest first. |
| TimeLogController.Ledger.GetLogsStrictlyNewestFirst | backend/src/controllers/timeLogController.js:62-65 | On a consistent store, the caller's listing has strictly decreasing dates. |
| TimeLogController.Ledger.DeleteLog | backend/src/controllers/timeLogController.js:71-85 | No entry with that id owned by the caller: 404 "Log not found", store unchanged. Otherwise it removes exactly that entry, open or closed, and keeps the rest in order. The caller's listing then has no entry with that id. |
| UserModel.TrimStart | backend/src/models/User.js:5-7 | The result is a suffix of the input, the removed prefix is all white space, and the result does not start with white space. |
| UserModel.TrimEnd | backend/src/models/User.js:5-7 | The result is a prefix of the input, the removed suffix is all white space, and the result does not end with white space. |
| UserModel.Trim | backend/src/models/User.js:5-7 | A trimmed value neither starts nor ends with white space. |
| UserModel.TrimEmptyIff | backend/src/models/User.js:5-7 | A value trims to "" exactly when it is all white space. |
| UserModel.TrimIdempotent | backend/src/models/User.js:5-7 | Trimming a trimmed value changes nothing. |
| UserModel.ToLower | backend/src/models/User.js:7 | Lower-casing keeps the length and leaves no upper-case letter. |
| UserModel.ToLowerTrimStart | backend/src/models/User.js:7 | Lower-casing commutes with dropping leading white space. |
| UserModel.ToLowerTrimEnd | backend/src/models/User.js:7 | Lower-casing commutes with dropping trailing white space. |
| UserModel.NormalizeEmailForm | backend/src/models/User.js:7 | A stored email has no upper-case letter and neither starts nor ends with white space. |
| UserModel.NormalizeEmailEmptyIff | backend/src/models/User.js:7 | An email normalises to "" exactly when it is all white space. |
| UserModel.NormalizeEmailIdempotent | backend/src/models/User.js:7 | A stored (lower-cased, trimmed) email is a fixed point of the setters, so a stored email matches itself in a query. |
| UserModel.RequiredHoursOrDefault | backend/src/controllers/authController.js:63 | `requiredHours \|\| 400` is never 0. It is the given goal when that is present and non-zero, and exactly 400 when it is missing or 0. |
| UserModel.NewAccount | backend/src/controllers/authController.js:58-64 | The document `User.create` builds keeps the given id and hash. Its goal is `requiredHours \|\| 400`: the given goal when that is non-zero, and 400 when it is missing or 0. It has no reset challenge. |
| UserModel.NewAccountRejectedIff | backend/src/models/User.js:5-11 | The schema's `required` validators refuse the registration document exactly when the name, the institution or the email is all white space. |
| UserModel.NewAccountStoredForm | backend/src/models/User.js:5-11 | An account built by registration that passes `required` is in stored form. Its fields are trimmed and its email normalised, and it has no reset challenge. |
| AuthController.FindByEmail | backend/src/controllers/authController.js:48 | `findOne({email})` returns an account with that stored email, or none when no account has it. |
| AuthController.FindByEmailAppended | backend/src/controllers/authController.js:48 | An email no earlier account has is found at the account appended with it. |
| AuthController.FindById | backend/src/controllers/authController.js:10 | `findById` returns the account with that id, or none when there is none. |
| AuthController.FindByChallenge | backend/src/controllers/authController.js:228-231 | Returns an account holding the digest with an expiry strictly after `now`, or none when no account does. |
| AuthController.CheckRegistration | backend/src/controllers/authController.js:36-46 | Rejects with 400 exactly when a field is missing or the password is shorter than 6. A missing field is reported first. |
| AuthController.CheckResetInput | backend/src/controllers/authController.js:209-219 | Rejects with 400 exactly when the token is missing or the new password is shorter than 6. |
| AuthController.IssueChallenge | backend/src/controllers/authController.js:171-181 | Afterwards the token's digest is accepted at the issuing instant, and no field other than the two reset fields changes. |
| AuthController.CompleteReset | backend/src/controllers/authController.js:239-247 | Afterwards no challenge is accepted at any time, the new password checks against the hash, and no field other than the password and the two reset fields changes. |
| AuthController.ChallengeAcceptedWithinWindow | backend/src/controllers/authController.js:228-231 | A challenge issued at t makes the token's lookup succeed at any instant before t + 3,600,000 ms. When no other account holds the same digest, the account found is the one the challenge was issued to. |
| AuthController.ChallengeRefusedAfterWindow | backend/src/controllers/authController.js:228-231 | From t + 3,600,000 ms on, the challenge is refused (expiry must be strictly later than now). |
| AuthController.OtherTokenRefused | backend/src/controllers/authController.js:222-231 | Any token other than the issued one is refused. |
| AuthController.ResetTokenSingleUse | backend/src/controllers/authController.js:240-247 | When no other account holds the token's digest, after a successful reset the same token finds no account at any later time. |
| AuthController.AccountStore.Register | backend/src/controllers/authController.js:26-89 | Invalid input gets the 400 answer, store unchanged. A registered email (after the setters) gets 409 "Email already registered", store unchanged. A field that trims to "" gets 500 "Registration failed". Otherwise it appends exactly the new account, with a bcrypt hash, trimmed fields, the normalised email, a goal defaulting to 400 and the next id, and answers 201. After a 201, logging in with the same email and password succeeds for the new account. |
| AuthController.AccountStore.Append | backend/src/controllers/authController.js:58-64 | `User.create` with a fresh id and an unused email appends exactly that account, keeps the store valid, and makes the email find it. |
| AuthController.AccountStore.Save | backend/src/controllers/authController.js:181 | `user.save()` (here and at line 247) after only the reset fields or the password changed replaces exactly that account and keeps the store valid. |
| AuthController.AccountStore.Login | backend/src/controllers/authController.js:94-119 | A missing field gets 400. Every other failure gets the identical 401 "Invalid credentials", and an unknown email always fails. Success means an account with that email whose hash matches the password. |
| AuthController.AccountStore.LoginSucceedsIff | backend/src/controllers/authController.js:105-119 | With emails unique, login succeeds exactly when some account has that email and that password. |
| AuthController.AccountStore.GetCurrentUser | backend/src/controllers/authController.js:7-16 | It answers 404 "User not found" exactly when no account has the id. Otherwise it answers 200 with the account of that id: every field of the stored account (id, name, institution, email, goal, reset digest and expiry) except the password. |
| AuthController.AccountStore.ForgotPassword | backend/src/controllers/authController.js:151-197 | A missing email gets 400. An unknown email gets the same 200 message as a known one and changes nothing. For a known email, only that account changes: it gets the digest and an expiry of now + 1 h, replacing any earlier pair. The answer is 200, or 500 if the mail fails, after the save. |
| AuthController.AccountStore.ResetPassword | backend/src/controllers/authController.js:203-254 | Input checks come before any lookup. No account holding the digest with a later expiry: 400 "Invalid or expired reset token", store unchanged. Otherwise only that account changes: new hash, both reset fields cleared, answer 200. |
| TimeLogContext.EffectiveGoal | frontend/src/context/TimeLogContext.jsx:57-62 | `requiredHours \|\| 400` is never 0, so neither formula divides by zero. |
| TimeLogContext.TotalCenti | frontend/src/context/TimeLogContext.jsx:50-53 | The total of non-negative hours is non-negative, and the total of logs that are all open with 0 hours is 0. With `TotalSingle` and `TotalAppend` it is exactly the sum of the logs' `totalHours`. |
| TimeLogContext.TotalSingle | frontend/src/context/TimeLogContext.jsx:50-53 | A single log adds exactly its own `totalHours`. |
| TimeLogContext.TotalAppend | frontend/src/context/TimeLogContext.jsx:50-53 | The total of two runs of logs is the sum of their totals. |
| TimeLogContext.TotalPermutation | frontend/src/context/TimeLogContext.jsx:50-53 | The total does not depend on the order of the logs. |
| TimeLogContext.Closed | backend/src/models/TimeLog.js:18 | Selects exactly the logs that have a `timeOut`. |
| TimeLogContext.OpenLogsAddNothing | backend/src/models/TimeLog.js:18-22 | Open logs keep the default 0 hours, so the total equals the total of the closed logs. |
| TimeLogContext.Remaining | frontend/src/context/TimeLogContext.jsx:57 | Remaining hours are never negative, total + remaining reaches the goal, and remaining is 0 or exactly what is missing. |
| TimeLogContext.Progress | frontend/src/context/TimeLogContext.jsx:60-63 | Progress never exceeds 100 percent, and it is non-negative for a non-negative total and a positive goal. `ProgressBelowCap` gives its value below the cap. |
| TimeLogContext.ProgressBelowCap | frontend/src/context/TimeLogContext.jsx:60-63 | Below the cap, progress is exactly total / goal in percent: progress · goal = total, with the total in hundredths of an hour. |
| TimeLogContext.ProgressFullIff | frontend/src/context/TimeLogContext.jsx:60-63 | Under a positive goal, progress is 100 exactly when the total reaches the goal. |
| TimeLogContext.DoneIff | frontend/src/context/TimeLogContext.jsx:57-63 | Under a positive goal, nothing remains exactly when progress is 100. |
| TimeLogContext.ServerTotal | frontend/src/context/TimeLogContext.jsx:43-53 | The total over the server's listing equals the total over the user's entries in the store. |
| TimeLogContext.ContextState.FetchUser | frontend/src/context/TimeLogContext.jsx:20-36 | Without a token nothing changes. Otherwise the goal becomes the profile's non-zero goal, or 400 when it is missing, zero or the request fails. It is never 0 afterwards. |
| TimeLogContext.ContextState.FetchLogs | frontend/src/context/TimeLogContext.jsx:39-75 | Without a token nothing changes. On success the logs are replaced and total, remaining and progress agree with them. On failure the logs are empty, total 0, remaining the whole goal and progress 0. Loading is off at the end. |
| TimeLogContext.ContextState.FailureStateConsistent | frontend/src/context/TimeLogContext.jsx:66-71 | Under a positive goal, the failure state agrees with the formulas applied to no logs. |
| Dashboard.HasCompletedToday | frontend/src/pages/Dashboard.jsx:110-113 | Holds exactly when some log is dated today and has a `timeOut`. |
| Dashboard.FirstOpenOn | frontend/src/pages/Dashboard.jsx:118 | Returns the first log dated today without a `timeOut`, or none when there is none. |
| Dashboard.ActiveSessionOf | frontend/src/pages/Dashboard.jsx:116-124 | There is a session exactly when some log of today is open. The session names an open log of today and today's date. |
| Dashboard.HeaderActionFor | frontend/src/pages/Dashboard.jsx:363-387 | The header's choice in priority order: the Completed badge exactly when today is completed, the Time Out button exactly when not completed and a session is active, and the Time In button otherwise. |
| Dashboard.HeaderFor | frontend/src/pages/Dashboard.jsx:110-124 | On the page's logs: the badge exactly when a closed log is dated today, Time Out exactly when no log of today is closed and one is open, and Time In exactly when no log is dated today. |
| Dashboard.FirstOn | frontend/src/pages/Dashboard.jsx:583 | Returns the first log of the cell's date, or none when there is none. |
| Dashboard.CellStatus | frontend/src/pages/Dashboard.jsx:583-611 | "No log" exactly when no log has the date. "Completed" only for a closed log of that date, and "In Progress" only for an open one. |
| Dashboard.CellAgreesWithHeader | frontend/src/pages/Dashboard.jsx:583-611 | With one log per date, today's cell and the header agree: completed, in progress or no log match the badge, Time Out and Time In. |
| Dashboard.InListing | backend/src/controllers/timeLogController.js:62-65 | A log appears in the user's listing exactly when it is one of the user's entries in the store. |
| Dashboard.TimeInShownIff | frontend/src/pages/Dashboard.jsx:363-387 | On the server's listing, the Time In button is shown exactly when the server would accept a time-in (no entry today). |
| Dashboard.CompletedShownIff | frontend/src/pages/Dashboard.jsx:363-371 | On the server's listing, the Completed badge shows exactly when the user has a closed entry today. |
| Dashboard.TimeOutShownIff | frontend/src/pages/Dashboard.jsx:363-378 | With one entry per (user, day), the Time Out button is shown exactly when the server would close today's entry. |
| Dashboard.GetDaysInMonth | frontend/src/pages/Dashboard.jsx:252-261 | The grid has firstDay + daysInMonth slots: firstDay empty ones, then slot firstDay + d - 1 holds day d. |
| Dashboard.MakeMonth | frontend/src/pages/Dashboard.jsx:246-251 | `new Date(y, m, 1)` gives a month in 0..11 with 12·year + month = 12·y' + m, where y' is y read with the two-digit-year rule. |
| Dashboard.PrevMonth | frontend/src/pages/Dashboard.jsx:246-248 | `new Date(y, m - 1, 1)` is a valid month exactly one month before (y, m), with y read by the two-digit-year rule. |
| Dashboard.NextMonth | frontend/src/pages/Dashboard.jsx:249-251 | `new Date(y, m + 1, 1)` is a valid month exactly one month after (y, m), with y read by the two-digit-year rule. |
| Dashboard.PrevMonthWraps | frontend/src/pages/Dashboard.jsx:246-248 | Outside years 0..99, the previous month of January is December of the year before, and otherwise it is the month before. |
| Dashboard.NextMonthWraps | frontend/src/pages/Dashboard.jsx:249-251 | Outside years 0..99, the next month of December is January of the year after, and otherwise it is the month after. |
| Dashboard.NextAfterPrev | frontend/src/pages/Dashboard.jsx:246-251 | Next after previous restores the month for years outside 0..100. |
| Dashboard.PrevAfterNext | frontend/src/pages/Dashboard.jsx:246-251 | Previous after next restores the month for years outside -1..99. |
| Dashboard.NextAfterPrevAtYear100 | frontend/src/pages/Dashboard.jsx:246-251 | At January of year 100, previous then next gives January 2000, because `Date` reads year 99 as 1999. |
| Dashboard.DashboardView.CheckActiveSession | frontend/src/pages/Dashboard.jsx:116-128 | The session becomes today's first open log (with today's date), or none, and nothing else changes. |
| Dashboard.DashboardView.HandleTimeOut | frontend/src/pages/Dashboard.jsx:177-197 | Without a session it sets "No active time-in session found" and makes no request. Otherwise it makes the request. Success clears the error and closes the dialog. Failure shows the server's message, or "Failed to clock out. Please try again." Processing is off at the end. |
| Dashboard.DashboardView.ShowPrevMonth | frontend/src/pages/Dashboard.jsx:246-248 | The shown month becomes the previous month and stays a valid month. |
| Dashboard.DashboardView.ShowNextMonth | frontend/src/pages/Dashboard.jsx:249-251 | The shown month becomes the next month and stays a valid month. |
| ResetPasswordPage.FirstFailure | frontend/src/pages/ResetPassword.jsx:30-45 | Input passes exactly when the token is present, the passwords match and the length is at least 6. Otherwise the message is that of the first failed check, in the order token, match, length. |
| ResetPasswordPage.ClientChecksMatchServer | frontend/src/pages/ResetPassword.jsx:30-49 | Whatever the form sends passes the server's own input checks. Of the inputs those checks accept, it holds back only a mismatched confirmation. |
| ResetPasswordPage.ResetForm.HandleSubmit | frontend/src/pages/ResetPassword.jsx:27-54 | The request is sent exactly when all checks pass. Otherwise the first failure's message is set and `resetSuccess` is unchanged. When the request is sent the error is cleared, and `resetSuccess` becomes true only if the call reports success. |

## Left out

- JSON Web Tokens, the `protect` middleware and the `token` in register and login
  answers: the caller's id is a parameter.
- Email transport. Only whether sending the reset link failed is a parameter. The
  confirmation email after a reset swallows its own errors, so it changes no answer.
- The 500 answers for database errors other than the schema's `required` validator
  ("Login failed", "Failed to fetch user", "Error resetting password"). The store is a
  sequence that does not fail.
- Concurrency: the read-then-create race in `timeIn` (no unique index on (user, date)), and
  React state staleness. One example is `initialize` calling `fetchLogs` with the goal from
  before `fetchUser` ran. Operations are modelled as sequential.
- TimeLogController.CentiHours: the IEEE behaviour of `toFixed(2)` at exact ties is not
  modelled. Ties are rounded half up on the exact value.
- TimeLogContext.Progress: it is an exact real rather than a double, and display
  formatting (`formatHours`, `formatPercent`) is not modelled.
- One clock reading per request. `timeIn` reads the clock for the day key
  (timeLogController.js:7) and again for the stamp (line 23), around an `await`; `timeOut`
  does the same (lines 34 and 47). The model uses a single `now` for both. A request that
  straddles UTC midnight could, in the source, date an entry on day D and stamp it on day
  D + 1, so the date-and-stamp agreement inside `Ledger.Valid()` holds only under this
  assumption.
- Time zones: the calendar builds cell dates in local time while the server keys days in
  UTC. Both `today` and each cell's day are taken as UTC day numbers.
- Dashboard.GetDaysInMonth: the weekday of the 1st and the month's length come from the
  `Date` library and are inputs.
- UserModel.ToLower: only ASCII letters are lower-cased. Full Unicode case mapping is not
  modelled.
- String lengths count characters, not UTF-16 code units.
- The goal is an integer number of hours. Fractional or non-numeric `requiredHours`
  values are not modelled.
- `deleteLog` is modelled as the controller function. No route in `timeLogRoutes.js`
  reaches it.
- `updateRequiredHours` (called by the profile page) exists neither in the client context
  nor on the server.
- The order between entries with equal dates after `sort({date: -1})` is not modelled.
  With one entry per (user, day) there are none.
- `getCurrentUser` returns the stored reset digest and expiry along with the profile.
  `PublicUser` keeps them, as the source does.
- The context's `timeIn`, `timeOut` and `deleteLog` wrappers are left out. Each one posts a
  request and then calls `fetchLogs`, or rethrows the error.
- The `createdAt` and `updatedAt` fields that `{ timestamps: true }` adds to both schemas
  (User.js:13, TimeLog.js:24): no handler reads them, so `Account` and `Entry` leave them out.
- Rendering, routing, modals, timers and redirects are left out.
