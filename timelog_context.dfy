/**
 * The client's time-log context: it keeps the signed-in user's logs and goal,
 * and derives from them the three figures the dashboard shows: hours logged,
 * hours remaining and percentage of the goal reached.
 *
 * Hours are kept in hundredths (as the server rounds them), so the goal of `h`
 * hours is `100 * h` here; the percentage is an exact `real`.
 */
module TimeLogContext {
  import opened Common
  import opened TimeLogModel
  import TimeLogController
  import UserModel

  /** `requiredHours || 400`: a goal of 0 (the initial state) is replaced by the default goal. */
  function EffectiveGoal(requiredHours: int): (r: int)
    ensures r != 0
    ensures requiredHours != 0 ==> r == requiredHours
    ensures requiredHours == 0 ==> r == UserModel.DefaultRequiredHours
  {
    UserModel.RequiredHoursOrDefault(Some(requiredHours))
  }

  /** The `reduce` in `fetchLogs`: the logs' hours added up from the first log to the last. */
  function TotalCenti(logs: seq<Entry>): (r: int)
    ensures (forall i :: 0 <= i < |logs| ==> logs[i].totalHours >= 0) ==> r >= 0
    ensures (forall i :: 0 <= i < |logs| ==> logs[i].IsOpen() && logs[i].totalHours == 0) ==> r == 0
  {
    if logs == [] then 0 else TotalCenti(logs[..|logs| - 1]) + logs[|logs| - 1].totalHours
  }

  /** A single log adds exactly its own hours. */
  lemma TotalSingle(x: Entry)
    ensures TotalCenti([x]) == x.totalHours
  {
    assert [x][..0] == [];
  }

  /** The total of two runs of logs is the sum of their totals. */
  lemma {:induction false} TotalAppend(a: seq<Entry>, b: seq<Entry>)
    ensures TotalCenti(a + b) == TotalCenti(a) + TotalCenti(b)
    decreases |b|
  {
    if b != [] {
      var b' := b[..|b| - 1];
      assert (a + b)[..|a + b| - 1] == a + b';
      TotalAppend(a, b');
    } else {
      assert a + b == a;
    }
  }

  /** The total does not depend on the order in which the server lists the logs. */
  lemma {:induction false} TotalPermutation(a: seq<Entry>, b: seq<Entry>)
    requires multiset(a) == multiset(b)
    ensures TotalCenti(a) == TotalCenti(b)
    decreases |a|
  {
    if a != [] {
      var x := a[|a| - 1];
      var a' := a[..|a| - 1];
      assert a == a' + [x];
      assert x in multiset(b);
      var k :| 0 <= k < |b| && b[k] == x;
      var b' := b[..k] + b[k + 1..];
      assert b == b[..k] + [x] + b[k + 1..];
      assert multiset(b) == multiset(b[..k]) + multiset{x} + multiset(b[k + 1..]);
      assert multiset(a) == multiset(a') + multiset{x};
      assert multiset(b') == multiset(b[..k]) + multiset(b[k + 1..]);
      assert multiset(a') == multiset(a) - multiset{x};
      assert multiset(b') == multiset(b) - multiset{x};
      TotalPermutation(a', b');
      TotalAppend(b[..k], [x]);
      TotalAppend(b[..k] + [x], b[k + 1..]);
      TotalAppend(b[..k], b[k + 1..]);
    } else {
      assert |b| == |multiset(b)|;
    }
  }

  /** The closed logs, in order. */
  function Closed(logs: seq<Entry>): (r: seq<Entry>)
    ensures forall e :: e in r <==> e in logs && !e.IsOpen()
  {
    if logs == [] then []
    else if logs[|logs| - 1].IsOpen() then Closed(logs[..|logs| - 1])
    else Closed(logs[..|logs| - 1]) + [logs[|logs| - 1]]
  }

  /**
   * An open log still has the schema's default of 0 hours, so the total counts
   * only the closed logs.
   */
  lemma {:induction false} OpenLogsAddNothing(logs: seq<Entry>)
    requires forall i :: 0 <= i < |logs| && logs[i].IsOpen() ==> logs[i].totalHours == 0
    ensures TotalCenti(logs) == TotalCenti(Closed(logs))
  {
    if logs != [] {
      var init := logs[..|logs| - 1];
      OpenLogsAddNothing(init);
      var last := logs[|logs| - 1];
      if !last.IsOpen() {
        TotalAppend(Closed(init), [last]);
      }
    }
  }

  /** `Math.max(0, goal - total)`: the hundredths of an hour still to log. */
  function Remaining(totalCenti: int, requiredHours: int): (r: int)
    ensures r >= 0
    ensures totalCenti + r >= 100 * EffectiveGoal(requiredHours)
    ensures r == 0 || totalCenti + r == 100 * EffectiveGoal(requiredHours)
  {
    var left := 100 * EffectiveGoal(requiredHours) - totalCenti;
    if left > 0 then left else 0
  }

  /** `Math.min(100, total / goal * 100)`: the percentage of the goal reached, capped at 100. */
  function Progress(totalCenti: int, requiredHours: int): (r: real)
    ensures r <= 100.0
    ensures EffectiveGoal(requiredHours) > 0 && totalCenti >= 0 ==> r >= 0.0
  {
    var ratio := totalCenti as real / EffectiveGoal(requiredHours) as real;
    if ratio < 100.0 then ratio else 100.0
  }

  /** Below the cap, progress is exactly `total / goal`, in percent (hours are in hundredths). */
  lemma ProgressBelowCap(totalCenti: int, requiredHours: int)
    ensures Progress(totalCenti, requiredHours) < 100.0 ==>
              Progress(totalCenti, requiredHours) * EffectiveGoal(requiredHours) as real == totalCenti as real
  {
  }

  /** Progress reads 100 exactly when the logged hours reach the goal. */
  lemma ProgressFullIff(totalCenti: int, requiredHours: int)
    requires EffectiveGoal(requiredHours) > 0
    ensures Progress(totalCenti, requiredHours) == 100.0 <==> totalCenti >= 100 * EffectiveGoal(requiredHours)
  {
    var g := EffectiveGoal(requiredHours) as real;
    var ratio := totalCenti as real / g;
    assert ratio * g == totalCenti as real;
    if ratio < 100.0 {
      assert ratio * g < 100.0 * g;
    } else {
      assert ratio * g >= 100.0 * g;
    }
  }

  /** With a positive goal, nothing remains exactly when progress is full. */
  lemma DoneIff(totalCenti: int, requiredHours: int)
    requires EffectiveGoal(requiredHours) > 0
    ensures Remaining(totalCenti, requiredHours) == 0 <==> Progress(totalCenti, requiredHours) == 100.0
  {
    ProgressFullIff(totalCenti, requiredHours);
  }

  /**
   * The logs the server lists for a user add up to the same total as that user's
   * entries in the store, whatever order they come in.
   */
  lemma ServerTotal(s: seq<Entry>, user: UserId)
    ensures TotalCenti(TimeLogController.LogsOf(s, user)) == TotalCenti(TimeLogController.Owned(s, user))
  {
    TotalPermutation(TimeLogController.LogsOf(s, user), TimeLogController.Owned(s, user));
  }

  /** The context's state: the last logs fetched, the goal, and the figures derived from them. */
  class ContextState {
    var logs: seq<Entry>
    var requiredHours: int
    var loading: bool
    var totalHours: int
    var remainingHours: int
    var progress: real

    /** The three figures agree with the logs and the goal. */
    ghost predicate Consistent()
      reads this
    {
      && totalHours == TotalCenti(logs)
      && remainingHours == Remaining(totalHours, requiredHours)
      && progress == Progress(totalHours, requiredHours)
    }

    /** The state before anything is fetched: no logs, no goal, every figure 0. */
    constructor ()
      ensures logs == [] && requiredHours == 0 && !loading
      ensures totalHours == 0 && remainingHours == 0 && progress == 0.0
    {
      logs := [];
      requiredHours := 0;
      loading := false;
      totalHours := 0;
      remainingHours := 0;
      progress := 0.0;
    }

    /**
     * `fetchUser`: without a token nothing happens; otherwise the goal becomes the
     * profile's `requiredHours` when that is set and non-zero, and 400 when it is
     * missing, zero, or the request fails.
     */
    method FetchUser(hasToken: bool, response: Fetch<Option<int>>)
      modifies this
      ensures !hasToken ==> unchanged(this)
      ensures hasToken ==> requiredHours != 0
      ensures hasToken && response.Received? && response.body.Some? && response.body.value != 0 ==>
                requiredHours == response.body.value
      ensures hasToken && !(response.Received? && response.body.Some? && response.body.value != 0) ==>
                requiredHours == UserModel.DefaultRequiredHours
      ensures logs == old(logs) && loading == old(loading) && totalHours == old(totalHours)
      ensures remainingHours == old(remainingHours) && progress == old(progress)
    {
      if !hasToken {
        return;
      }
      match response
      case Received(user) =>
        if user.Some? && user.value != 0 {
          requiredHours := user.value;
        } else {
          requiredHours := UserModel.DefaultRequiredHours;
        }
      case Failed =>
        requiredHours := UserModel.DefaultRequiredHours;
    }

    /**
     * `fetchLogs`: without a token nothing happens. A successful request replaces the
     * logs and recomputes the three figures from them; a failed one empties the logs
     * and resets the figures to nothing logged, the whole goal remaining and 0 percent.
     */
    method FetchLogs(hasToken: bool, response: Fetch<seq<Entry>>)
      modifies this
      ensures !hasToken ==> unchanged(this)
      ensures hasToken ==> !loading && requiredHours == old(requiredHours)
      ensures hasToken && response.Received? ==> logs == response.body && Consistent()
      ensures hasToken && response.Failed? ==>
                && logs == [] && totalHours == 0 && progress == 0.0
                && remainingHours == 100 * EffectiveGoal(requiredHours)
    {
      if !hasToken {
        return;
      }
      loading := true;
      match response {
      case Received(fetched) =>
        logs := fetched;
        var total := TotalCenti(fetched);
        totalHours := total;
        remainingHours := Remaining(total, requiredHours);
        progress := Progress(total, requiredHours);
      case Failed =>
        logs := [];
        totalHours := 0;
        remainingHours := 100 * EffectiveGoal(requiredHours);
        progress := 0.0;
      }
      loading := false;
    }

    /** After a failed fetch under a positive goal the figures still agree with the (empty) logs. */
    lemma FailureStateConsistent()
      requires logs == [] && totalHours == 0 && progress == 0.0
      requires remainingHours == 100 * EffectiveGoal(requiredHours)
      requires EffectiveGoal(requiredHours) > 0
      ensures Consistent()
    {
    }
  }
}
