/** The daily activity log: the per-(user, day) upsert of log-activity (HP.js:329-398) and the
    first-to-last step delta of get-step-progress (HP.js:295-327). */
module Activity {

  import opened JsValues
  import opened DayKeys
  import opened Tables
  import opened Documents

  /** The body of a log-activity request; `logDate` is the parsed date when one was sent. */
  datatype ActivityRequest = ActivityRequest(
    username: JsValue,
    logDate: Option<int>,
    steps: JsValue,
    workout: JsValue,
    workoutDuration: JsValue,
    sleep: JsValue)

  const MissingFields: string := "All fields are required."
  const ActivityError: string := "Server error while logging activity."
  const ActivityUpdated: string := "Activity log updated successfully."
  const ActivityCreated: string := "Activity log created successfully."

  /** The presence check: every field truthy, so a 0 is refused like a missing field. */
  predicate AllPresent(req: ActivityRequest) {
    && Truthy(req.username)
    && Truthy(req.steps)
    && Truthy(req.workout)
    && Truthy(req.workoutDuration)
    && Truthy(req.sleep)
  }

  /** The day key the request is filed under. */
  function ActivityKey(req: ActivityRequest, clock: Clock): int {
    LocalDayKey(Instant(req.logDate, clock.now), clock.tzOffsetMin)
  }

  /** The lookup filter: the user's log dated in [key, key + 1 day). */
  function OnDay(username: JsValue, key: int): DailyLog -> bool {
    (log: DailyLog) => log.username == username && InDay(log.date, key)
  }

  predicate HasLogOnDay(logs: seq<DailyLog>, username: JsValue, key: int) {
    Any(logs, OnDay(username, key))
  }

  /** The existing log with its four measurements assigned from the request. */
  function Overwrite(log: DailyLog, req: ActivityRequest): DailyLog {
    log.(steps := req.steps, workout := req.workout,
         workoutDuration := req.workoutDuration, sleepHours := req.sleep)
  }

  /** The log a request creates. */
  function NewLog(req: ActivityRequest, key: int): DailyLog {
    DailyLog(req.username, key, req.steps, req.workout, req.workoutDuration, req.sleep)
  }

  /** The schema accepts the request's values (the date plays no part in it). */
  predicate ValidActivity(req: ActivityRequest) {
    ValidDailyLog(NewLog(req, 0))
  }

  /** POST /log-activity. */
  function LogActivity(logs: seq<DailyLog>, req: ActivityRequest, clock: Clock): (o: Outcome<DailyLog>)
    ensures !AllPresent(req) ==> o == Outcome(Response(400, MissingFields), logs)
    ensures AllPresent(req) && !ValidActivity(req) ==> o == Outcome(Response(500, ActivityError), logs)
    ensures o.reply == Response(200, ActivityUpdated)
        <==> AllPresent(req) && ValidActivity(req) && HasLogOnDay(logs, req.username, ActivityKey(req, clock))
    ensures o.reply == Response(201, ActivityCreated)
        <==> AllPresent(req) && ValidActivity(req) && !HasLogOnDay(logs, req.username, ActivityKey(req, clock))
    ensures StatusOf(o.reply) == 200 ==>
        exists i :: 0 <= i < |logs| && OnDay(req.username, ActivityKey(req, clock))(logs[i])
                    && o.rows == logs[i := Overwrite(logs[i], req)]
    ensures StatusOf(o.reply) == 201 ==> o.rows == logs + [NewLog(req, ActivityKey(req, clock))]
  {
    if !AllPresent(req) then Outcome(Response(400, MissingFields), logs)
    else
      var key := ActivityKey(req, clock);
      var i := FirstIndex(logs, OnDay(req.username, key));
      if i < |logs| then
        var updated := Overwrite(logs[i], req);
        if !ValidDailyLog(updated) then Outcome(Response(500, ActivityError), logs)
        else Outcome(Response(200, ActivityUpdated), logs[i := updated])
      else
        var created := NewLog(req, key);
        if !ValidDailyLog(created) then Outcome(Response(500, ActivityError), logs)
        else Outcome(Response(201, ActivityCreated), logs + [created])
  }

  /** The (username, date) pair a log is filed under. */
  function DailyLogKey(log: DailyLog): (JsValue, int) {
    (log.username, log.date)
  }

  /** Every stored date is a day key and no user has two logs with the same key. */
  predicate DayKeyed(logs: seq<DailyLog>) {
    (forall i :: 0 <= i < |logs| ==> IsDayBoundary(logs[i].date)) && UniqueKeys(logs, DailyLogKey)
  }

  /** At most one log per (username, UTC day). */
  predicate OneLogPerDay(logs: seq<DailyLog>) {
    forall i, j :: 0 <= i < j < |logs| && logs[i].username == logs[j].username ==>
      UtcMidnight(logs[i].date) != UtcMidnight(logs[j].date)
  }

  /** The invariant of the DailyLog collection: every log passed the schema and it is keyed
      by day. */
  predicate LogsInvariant(logs: seq<DailyLog>) {
    (forall i :: 0 <= i < |logs| ==> ValidDailyLog(logs[i])) && DayKeyed(logs)
  }

  lemma DayKeyedHasOneLogPerDay(logs: seq<DailyLog>)
    requires DayKeyed(logs)
    ensures OneLogPerDay(logs)
  {
    forall i, j | 0 <= i < j < |logs| && logs[i].username == logs[j].username
      ensures UtcMidnight(logs[i].date) != UtcMidnight(logs[j].date)
    {
      assert DailyLogKey(logs[i]) != DailyLogKey(logs[j]);
      UtcMidnightOfDay(logs[i].date, logs[i].date);
      UtcMidnightOfDay(logs[j].date, logs[j].date);
    }
  }

  /** On a day-keyed collection the range lookup is an exact lookup on (username, key). */
  lemma OnDayIsExactKey(logs: seq<DailyLog>, username: JsValue, key: int, i: nat)
    requires DayKeyed(logs) && IsDayBoundary(key) && i < |logs|
    ensures OnDay(username, key)(logs[i]) <==> logs[i].username == username && logs[i].date == key
  {
    UtcMidnightOfDay(logs[i].date, key);
    UtcMidnightOfDay(logs[i].date, logs[i].date);
  }

  /** log-activity keeps the collection's invariant, hence at most one log per user and day. */
  lemma LogActivityKeepsInvariant(logs: seq<DailyLog>, req: ActivityRequest, clock: Clock)
    requires LogsInvariant(logs)
    ensures LogsInvariant(LogActivity(logs, req, clock).rows)
    ensures OneLogPerDay(LogActivity(logs, req, clock).rows)
  {
    var o := LogActivity(logs, req, clock);
    var key := ActivityKey(req, clock);
    var i := FirstIndex(logs, OnDay(req.username, key));
    if StatusOf(o.reply) == 200 {
      OnDayIsExactKey(logs, req.username, key, i);
      UniqueKeysUpdate(logs, i, Overwrite(logs[i], req), DailyLogKey);
    } else if StatusOf(o.reply) == 201 {
      forall j | 0 <= j < |logs|
        ensures DailyLogKey(logs[j]) != DailyLogKey(NewLog(req, key))
      {
        OnDayIsExactKey(logs, req.username, key, j);
      }
      UniqueKeysAppend(logs, NewLog(req, key), DailyLogKey);
    }
    DayKeyedHasOneLogPerDay(o.rows);
  }

  /** Removing a user's logs keeps the invariant of the rest. */
  lemma DeleteManyKeepsLogsInvariant(logs: seq<DailyLog>, p: DailyLog -> bool)
    requires LogsInvariant(logs)
    ensures LogsInvariant(DeleteMany(logs, p))
  {
    DeleteManyKeepsAll(logs, p, (l: DailyLog) => ValidDailyLog(l) && IsDayBoundary(l.date));
    UniqueKeysDeleteMany(logs, p, DailyLogKey);
  }

  // ---------------------------------------------------------------- step progress

  const NoUsername: string := "Username is required."
  const NoStepData: string := "No step data found for the user."

  function OfUser(username: JsValue): DailyLog -> bool {
    (log: DailyLog) => log.username == username
  }

  /** Position e holds a log of the user dated no later than any other of theirs. */
  predicate IsEarliest(logs: seq<DailyLog>, username: JsValue, e: int) {
    && 0 <= e < |logs| && logs[e].username == username
    && forall j :: 0 <= j < |logs| && logs[j].username == username ==> logs[e].date <= logs[j].date
  }

  /** Position l holds a log of the user dated no earlier than any other of theirs. */
  predicate IsLatest(logs: seq<DailyLog>, username: JsValue, l: int) {
    && 0 <= l < |logs| && logs[l].username == username
    && forall j :: 0 <= j < |logs| && logs[j].username == username ==> logs[j].date <= logs[l].date
  }

  /** `findOne({ username }).sort({ date: 1 })`: a log of the user with the smallest date;
      among equal dates the first in natural order. |logs| when the user has none. */
  function EarliestIndex(logs: seq<DailyLog>, username: JsValue): (i: nat)
    ensures i <= |logs|
    ensures i == |logs| <==> !Any(logs, OfUser(username))
    ensures i < |logs| ==> IsEarliest(logs, username, i)
  {
    if |logs| == 0 then 0
    else
      var rest := EarliestIndex(logs[1..], username) + 1;
      assert forall j :: 1 <= j < |logs| ==> logs[j] == logs[1..][j - 1];
      if logs[0].username != username then rest
      else if rest < |logs| && logs[rest].date < logs[0].date then rest
      else 0
  }

  /** `findOne({ username }).sort({ date: -1 })`: a log of the user with the largest date. */
  function LatestIndex(logs: seq<DailyLog>, username: JsValue): (i: nat)
    ensures i <= |logs|
    ensures i == |logs| <==> !Any(logs, OfUser(username))
    ensures i < |logs| ==> IsLatest(logs, username, i)
  {
    if |logs| == 0 then 0
    else
      var rest := LatestIndex(logs[1..], username) + 1;
      assert forall j :: 1 <= j < |logs| ==> logs[j] == logs[1..][j - 1];
      if logs[0].username != username then rest
      else if rest < |logs| && logs[0].date < logs[rest].date then rest
      else 0
  }

  datatype StepProgress = StepProgress(initialSteps: real, latestSteps: real, progress: real)

  /** GET /get-step-progress: the reply and, on success, its numbers. Stored steps are
      numbers, as the schema guarantees. */
  function GetStepProgress(logs: seq<DailyLog>, username: JsValue): (r: (Reply, Option<StepProgress>))
    requires forall j :: 0 <= j < |logs| ==> logs[j].steps.Num?
    ensures !Truthy(username) ==> r == (Response(400, NoUsername), None)
    ensures Truthy(username) && !Any(logs, OfUser(username)) ==> r == (Response(404, NoStepData), None)
    ensures r.1.Some? <==> Truthy(username) && Any(logs, OfUser(username))
    ensures r.1.Some? ==> r.0 == Response(200, "")
    ensures r.1.Some? ==>
      exists e, l :: IsEarliest(logs, username, e) && IsLatest(logs, username, l)
        && r.1.value == StepProgress(logs[e].steps.n, logs[l].steps.n, logs[l].steps.n - logs[e].steps.n)
  {
    if !Truthy(username) then (Response(400, NoUsername), None)
    else
      var e := EarliestIndex(logs, username);
      var l := LatestIndex(logs, username);
      if e == |logs| || l == |logs| then (Response(404, NoStepData), None)
      else
        (Response(200, ""),
         Some(StepProgress(logs[e].steps.n, logs[l].steps.n, logs[l].steps.n - logs[e].steps.n)))
  }

  /** On a day-keyed collection the user's earliest log is unique, so the order MongoDB gives
      to equal dates cannot change the reported progress. */
  lemma EarliestLogIsUnique(logs: seq<DailyLog>, username: JsValue, e: nat, e': nat)
    requires DayKeyed(logs)
    requires IsEarliest(logs, username, e) && IsEarliest(logs, username, e')
    ensures e == e'
  {
    assert logs[e].date == logs[e'].date;
    assert DailyLogKey(logs[e]) == DailyLogKey(logs[e']);
  }
}
