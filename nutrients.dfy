/** The `NutrientLog` and `NutrientGoals` collections: log-nutrients (HP.js:759-820), the
    weekly totals of get-weekly-nutrients (HP.js:631-638) and set-nutrient-goals
    (HP.js:859-925). */
module Nutrients {

  import opened JsValues
  import opened DayKeys
  import opened Tables
  import opened Documents

  // ---------------------------------------------------------------- log-nutrients

  /** The body of a log-nutrients request; `logDate` is the parsed date when one was sent. */
  datatype NutrientRequest = NutrientRequest(
    username: JsValue,
    logDate: Option<int>,
    calories: JsValue,
    protein: JsValue,
    fats: JsValue,
    carbohydrates: JsValue,
    water: JsValue)

  const NutrientFieldsMissing: string := "All nutrient fields are required."
  const NutrientError: string := "Server error while logging nutrients."
  const NutrientUpdated: string := "Nutrient log updated successfully."
  const NutrientCreated: string := "Nutrient log created successfully."

  /** The presence check: every field truthy, so a 0 is refused like a missing field. */
  predicate AllNutrientsPresent(req: NutrientRequest) {
    && Truthy(req.username)
    && Truthy(req.calories)
    && Truthy(req.protein)
    && Truthy(req.fats)
    && Truthy(req.carbohydrates)
    && Truthy(req.water)
  }

  /** The day key: the local midnight of the instant, shifted back by the offset. */
  function NutrientKey(req: NutrientRequest, clock: Clock): int {
    LocalDayKey(Instant(req.logDate, clock.now), clock.tzOffsetMin)
  }

  /** The lookup filter: the user's log dated in [key, key + 1 day). */
  function NutrientsOnDay(username: JsValue, key: int): NutrientLog -> bool {
    (log: NutrientLog) => log.username == username && InDay(log.date, key)
  }

  predicate HasNutrientsOnDay(logs: seq<NutrientLog>, username: JsValue, key: int) {
    Any(logs, NutrientsOnDay(username, key))
  }

  /** The existing log with its five nutrient fields assigned from the request. */
  function OverwriteNutrients(log: NutrientLog, req: NutrientRequest): NutrientLog {
    log.(calories := req.calories, protein := req.protein, fats := req.fats,
         carbohydrates := req.carbohydrates, water := req.water)
  }

  /** The log a request creates under the given date. */
  function NewNutrientLog(req: NutrientRequest, date: int): NutrientLog {
    NutrientLog(req.username, date, req.calories, req.protein, req.fats, req.carbohydrates, req.water)
  }

  /** The schema accepts the request's values (the date plays no part in it). */
  predicate ValidNutrients(req: NutrientRequest) {
    ValidNutrientLog(NewNutrientLog(req, 0))
  }

  /** POST /log-nutrients as written. Line 769 assigns `utcDate` before its `const`
      declaration on line 770: a ReferenceError in the temporal dead zone, thrown before the
      `try`, so the handler's promise rejects and no response is ever sent. */
  function LogNutrientsAsWritten(logs: seq<NutrientLog>, req: NutrientRequest): (o: Outcome<NutrientLog>)
    ensures o.rows == logs
    ensures o.reply == Response(400, NutrientFieldsMissing) <==> !AllNutrientsPresent(req)
    ensures o.reply == NoResponse <==> AllNutrientsPresent(req)
  {
    if !AllNutrientsPresent(req) then Outcome(Response(400, NutrientFieldsMissing), logs)
    else Outcome(NoResponse, logs)
  }

  /** POST /log-nutrients without the stray assignment: the per-(user, day) upsert. */
  function LogNutrients(logs: seq<NutrientLog>, req: NutrientRequest, clock: Clock): (o: Outcome<NutrientLog>)
    ensures !AllNutrientsPresent(req) ==> o == Outcome(Response(400, NutrientFieldsMissing), logs)
    ensures AllNutrientsPresent(req) && !ValidNutrients(req) ==> o == Outcome(Response(500, NutrientError), logs)
    ensures o.reply == Response(200, NutrientUpdated)
        <==> AllNutrientsPresent(req) && ValidNutrients(req)
             && HasNutrientsOnDay(logs, req.username, NutrientKey(req, clock))
    ensures o.reply == Response(201, NutrientCreated)
        <==> AllNutrientsPresent(req) && ValidNutrients(req)
             && !HasNutrientsOnDay(logs, req.username, NutrientKey(req, clock))
    ensures StatusOf(o.reply) == 200 ==>
        exists i :: 0 <= i < |logs| && NutrientsOnDay(req.username, NutrientKey(req, clock))(logs[i])
                    && o.rows == logs[i := OverwriteNutrients(logs[i], req)]
    ensures StatusOf(o.reply) == 201 ==> o.rows == logs + [NewNutrientLog(req, NutrientKey(req, clock))]
  {
    if !AllNutrientsPresent(req) then Outcome(Response(400, NutrientFieldsMissing), logs)
    else
      var key := NutrientKey(req, clock);
      var i := FirstIndex(logs, NutrientsOnDay(req.username, key));
      if i < |logs| then
        var updated := OverwriteNutrients(logs[i], req);
        if !ValidNutrientLog(updated) then Outcome(Response(500, NutrientError), logs)
        else Outcome(Response(200, NutrientUpdated), logs[i := updated])
      else
        var created := NewNutrientLog(req, key);
        if !ValidNutrientLog(created) then Outcome(Response(500, NutrientError), logs)
        else Outcome(Response(201, NutrientCreated), logs + [created])
  }

  /** Every request that passes the presence check is answered by the intended handler and
      silently dropped by the handler as written. */
  lemma TemporalDeadZoneDropsValidRequests(logs: seq<NutrientLog>, req: NutrientRequest, clock: Clock)
    requires AllNutrientsPresent(req)
    ensures LogNutrientsAsWritten(logs, req) == Outcome(NoResponse, logs)
    ensures StatusOf(LogNutrients(logs, req, clock).reply) in {200, 201, 500}
  {
  }

  /** The (username, date) pair a nutrient log is filed under. */
  function NutrientLogKey(log: NutrientLog): (JsValue, int) {
    (log.username, log.date)
  }

  /** Every stored date is a day key and no user has two logs with the same key. */
  predicate NutrientsDayKeyed(logs: seq<NutrientLog>) {
    (forall i :: 0 <= i < |logs| ==> IsDayBoundary(logs[i].date)) && UniqueKeys(logs, NutrientLogKey)
  }

  /** The invariant of the NutrientLog collection. */
  predicate NutrientLogsInvariant(logs: seq<NutrientLog>) {
    (forall i :: 0 <= i < |logs| ==> ValidNutrientLog(logs[i])) && NutrientsDayKeyed(logs)
  }

  /** On a day-keyed collection the range lookup is an exact lookup on (username, key). */
  lemma NutrientsOnDayIsExactKey(logs: seq<NutrientLog>, username: JsValue, key: int, i: nat)
    requires NutrientsDayKeyed(logs) && IsDayBoundary(key) && i < |logs|
    ensures NutrientsOnDay(username, key)(logs[i]) <==> logs[i].username == username && logs[i].date == key
  {
    UtcMidnightOfDay(logs[i].date, key);
    UtcMidnightOfDay(logs[i].date, logs[i].date);
  }

  /** log-nutrients keeps the invariant: at most one log per user and day, all valid. */
  lemma LogNutrientsKeepsInvariant(logs: seq<NutrientLog>, req: NutrientRequest, clock: Clock)
    requires NutrientLogsInvariant(logs)
    ensures NutrientLogsInvariant(LogNutrients(logs, req, clock).rows)
  {
    var o := LogNutrients(logs, req, clock);
    var key := NutrientKey(req, clock);
    var i := FirstIndex(logs, NutrientsOnDay(req.username, key));
    if StatusOf(o.reply) == 200 {
      NutrientsOnDayIsExactKey(logs, req.username, key, i);
      UniqueKeysUpdate(logs, i, OverwriteNutrients(logs[i], req), NutrientLogKey);
    } else if StatusOf(o.reply) == 201 {
      forall j | 0 <= j < |logs|
        ensures NutrientLogKey(logs[j]) != NutrientLogKey(NewNutrientLog(req, key))
      {
        NutrientsOnDayIsExactKey(logs, req.username, key, j);
      }
      UniqueKeysAppend(logs, NewNutrientLog(req, key), NutrientLogKey);
    }
  }

  // ---------------------------------------------------------------- weekly totals

  /** A numeric nutrient field; the schema keeps every stored one a number. */
  function Amount(v: JsValue): real {
    if v.Num? then v.n else 0.0
  }

  /** The running total of one field over the logs, in their order. */
  function Total(logs: seq<NutrientLog>, field: NutrientLog -> JsValue): real {
    if |logs| == 0 then 0.0
    else Total(logs[..|logs| - 1], field) + Amount(field(logs[|logs| - 1]))
  }

  /** The sum of a field no smaller than zero in every log is no smaller than zero. */
  lemma {:induction false} TotalNonNegative(logs: seq<NutrientLog>, field: NutrientLog -> JsValue)
    requires forall i :: 0 <= i < |logs| ==> IsNumberAtLeast(field(logs[i]), 0.0)
    ensures Total(logs, field) >= 0.0
  {
    if |logs| > 0 {
      TotalNonNegative(logs[..|logs| - 1], field);
    }
  }

  /** The `forEach` accumulation of protein, carbohydrates and fats over a week's logs. */
  method WeeklyTotals(logs: seq<NutrientLog>) returns (protein: real, carbs: real, fat: real)
    ensures protein == Total(logs, (l: NutrientLog) => l.protein)
    ensures carbs == Total(logs, (l: NutrientLog) => l.carbohydrates)
    ensures fat == Total(logs, (l: NutrientLog) => l.fats)
  {
    protein, carbs, fat := 0.0, 0.0, 0.0;
    var k := 0;
    while k < |logs|
      invariant 0 <= k <= |logs|
      invariant protein == Total(logs[..k], (l: NutrientLog) => l.protein)
      invariant carbs == Total(logs[..k], (l: NutrientLog) => l.carbohydrates)
      invariant fat == Total(logs[..k], (l: NutrientLog) => l.fats)
    {
      assert logs[..k + 1][..k] == logs[..k];
      protein := protein + Amount(logs[k].protein);
      carbs := carbs + Amount(logs[k].carbohydrates);
      fat := fat + Amount(logs[k].fats);
      k := k + 1;
    }
    assert logs[..k] == logs;
  }

  // ---------------------------------------------------------------- set-nutrient-goals

  /** The body of a set-nutrient-goals request: the username and the six goal fields. */
  datatype GoalsRequest = GoalsRequest(username: JsValue, goals: GoalValues)

  const GoalsUsernameRequired: string := "Username is required."
  const GoalsUpdated: string := "Nutrient goals updated successfully."
  const GoalsSet: string := "Nutrient goals set successfully."
  const GoalsError: string := "Server error while setting nutrient goals."

  /** The `findOne({ username })` filter. */
  function GoalsOf(username: JsValue): NutrientGoals -> bool {
    (d: NutrientGoals) => d.username == username
  }

  /** `field = supplied !== undefined ? supplied : field` on all six goal fields. */
  function MergeGoals(stored: GoalValues, supplied: GoalValues): GoalValues {
    GoalValues(
      IfDefined(supplied.caloriesGoal, stored.caloriesGoal),
      IfDefined(supplied.proteinGoal, stored.proteinGoal),
      IfDefined(supplied.fatsGoal, stored.fatsGoal),
      IfDefined(supplied.carbohydratesGoal, stored.carbohydratesGoal),
      IfDefined(supplied.waterGoal, stored.waterGoal),
      IfDefined(supplied.weightGoal, stored.weightGoal))
  }

  /** Every goal path at its schema default. */
  const DefaultGoals: GoalValues :=
    GoalValues(GoalDefault, GoalDefault, GoalDefault, GoalDefault, GoalDefault, GoalDefault)

  /** The goals a new document holds: Mongoose fills each undefined path with its default. */
  function NewGoals(supplied: GoalValues): GoalValues {
    MergeGoals(DefaultGoals, supplied)
  }

  /** No goal field was sent. */
  predicate NoGoalSupplied(g: GoalValues) {
    && g.caloriesGoal == Undefined
    && g.proteinGoal == Undefined
    && g.fatsGoal == Undefined
    && g.carbohydratesGoal == Undefined
    && g.waterGoal == Undefined
    && g.weightGoal == Undefined
  }

  /** POST /set-nutrient-goals. */
  function SetNutrientGoals(docs: seq<NutrientGoals>, req: GoalsRequest): (o: Outcome<NutrientGoals>)
    ensures !Truthy(req.username) ==> o == Outcome(Response(400, GoalsUsernameRequired), docs)
    ensures o.reply == Response(201, GoalsSet)
        <==> Truthy(req.username) && !Any(docs, GoalsOf(req.username))
             && ValidNutrientGoals(NutrientGoals(req.username, NewGoals(req.goals)))
    ensures o.reply == Response(201, GoalsSet) ==>
        o.rows == docs + [NutrientGoals(req.username, NewGoals(req.goals))]
    ensures o.reply == Response(200, GoalsUpdated) ==>
        exists i :: 0 <= i < |docs| && docs[i].username == req.username
                    && o.rows == docs[i := docs[i].(goals := MergeGoals(docs[i].goals, req.goals))]
    ensures Truthy(req.username) && Any(docs, GoalsOf(req.username)) ==>
        o.reply in {Response(200, GoalsUpdated), Response(500, GoalsError)}
    ensures var i := FirstIndex(docs, GoalsOf(req.username));
      Truthy(req.username) && i < |docs| ==>
        var merged := docs[i].(goals := MergeGoals(docs[i].goals, req.goals));
        && (o.reply == Response(200, GoalsUpdated) <==> ValidNutrientGoals(merged))
        && (o.reply == Response(200, GoalsUpdated) ==> o.rows == docs[i := merged])
    ensures StatusOf(o.reply) != 200 && StatusOf(o.reply) != 201 ==> o.rows == docs
  {
    if !Truthy(req.username) then Outcome(Response(400, GoalsUsernameRequired), docs)
    else
      var i := FirstIndex(docs, GoalsOf(req.username));
      if i < |docs| then
        var updated := docs[i].(goals := MergeGoals(docs[i].goals, req.goals));
        if !ValidNutrientGoals(updated) then Outcome(Response(500, GoalsError), docs)
        else Outcome(Response(200, GoalsUpdated), docs[i := updated])
      else
        var created := NutrientGoals(req.username, NewGoals(req.goals));
        if !ValidNutrientGoals(created) then Outcome(Response(500, GoalsError), docs)
        else Outcome(Response(201, GoalsSet), docs + [created])
  }

  /** A merged field is the supplied value exactly when one was supplied, and keeps the
      stored value otherwise. */
  lemma MergeGoalsFieldwise(stored: GoalValues, supplied: GoalValues)
    ensures var m := MergeGoals(stored, supplied);
      && (supplied.caloriesGoal != Undefined ==> m.caloriesGoal == supplied.caloriesGoal)
      && (supplied.caloriesGoal == Undefined ==> m.caloriesGoal == stored.caloriesGoal)
      && (supplied.proteinGoal != Undefined ==> m.proteinGoal == supplied.proteinGoal)
      && (supplied.proteinGoal == Undefined ==> m.proteinGoal == stored.proteinGoal)
      && (supplied.fatsGoal != Undefined ==> m.fatsGoal == supplied.fatsGoal)
      && (supplied.fatsGoal == Undefined ==> m.fatsGoal == stored.fatsGoal)
      && (supplied.carbohydratesGoal != Undefined ==> m.carbohydratesGoal == supplied.carbohydratesGoal)
      && (supplied.carbohydratesGoal == Undefined ==> m.carbohydratesGoal == stored.carbohydratesGoal)
      && (supplied.waterGoal != Undefined ==> m.waterGoal == supplied.waterGoal)
      && (supplied.waterGoal == Undefined ==> m.waterGoal == stored.waterGoal)
      && (supplied.weightGoal != Undefined ==> m.weightGoal == supplied.weightGoal)
      && (supplied.weightGoal == Undefined ==> m.weightGoal == stored.weightGoal)
  {
  }

  /** Merging the same values twice stores what merging once does; merging nothing changes
      nothing. */
  lemma MergeGoalsIdempotent(stored: GoalValues, supplied: GoalValues)
    ensures MergeGoals(MergeGoals(stored, supplied), supplied) == MergeGoals(stored, supplied)
    ensures NoGoalSupplied(supplied) ==> MergeGoals(stored, supplied) == stored
  {
  }

  /** The update path leaves the number of goal documents unchanged; a request without goal
      fields leaves the user's document exactly as it was. */
  lemma SetNutrientGoalsUpdateInPlace(docs: seq<NutrientGoals>, req: GoalsRequest)
    requires Truthy(req.username) && Any(docs, GoalsOf(req.username))
    ensures |SetNutrientGoals(docs, req).rows| == |docs|
    ensures NoGoalSupplied(req.goals) && (forall i :: 0 <= i < |docs| ==> ValidNutrientGoals(docs[i])) ==>
        SetNutrientGoals(docs, req) == Outcome(Response(200, GoalsUpdated), docs)
  {
    var i := FirstIndex(docs, GoalsOf(req.username));
    if NoGoalSupplied(req.goals) {
      assert docs[i].(goals := MergeGoals(docs[i].goals, req.goals)) == docs[i];
    }
  }

  /** A second identical request finds the document the first one updated and merges the
      same values into it again. */
  lemma UpdatedGoalsStayPut(docs: seq<NutrientGoals>, req: GoalsRequest, i: nat)
    requires i < |docs| && i == FirstIndex(docs, GoalsOf(req.username))
    ensures var once := docs[i := docs[i].(goals := MergeGoals(docs[i].goals, req.goals))];
      && FirstIndex(once, GoalsOf(req.username)) == i
      && once[i := once[i].(goals := MergeGoals(once[i].goals, req.goals))] == once
  {
    var updated := docs[i].(goals := MergeGoals(docs[i].goals, req.goals));
    FirstIndexAfterUpdate(docs, i, updated, GoalsOf(req.username));
    MergeGoalsIdempotent(docs[i].goals, req.goals);
  }

  /** A second identical request finds the document the first one created and merges the
      same values into it again. */
  lemma CreatedGoalsStayPut(docs: seq<NutrientGoals>, req: GoalsRequest)
    requires FirstIndex(docs, GoalsOf(req.username)) == |docs|
    ensures var once := docs + [NutrientGoals(req.username, NewGoals(req.goals))];
      && FirstIndex(once, GoalsOf(req.username)) == |docs|
      && once[|docs| := once[|docs|].(goals := MergeGoals(once[|docs|].goals, req.goals))] == once
  {
    var created := NutrientGoals(req.username, NewGoals(req.goals));
    FirstIndexAfterAppend(docs, created, GoalsOf(req.username));
    MergeGoalsIdempotent(DefaultGoals, req.goals);
  }

  /** Sending the same request twice stores what sending it once does. */
  lemma SetNutrientGoalsTwiceIsOnce(docs: seq<NutrientGoals>, req: GoalsRequest)
    ensures var once := SetNutrientGoals(docs, req).rows;
      SetNutrientGoals(once, req).rows == once
  {
    var once := SetNutrientGoals(docs, req);
    if Truthy(req.username) {
      var i := FirstIndex(docs, GoalsOf(req.username));
      if StatusOf(once.reply) == 200 {
        UpdatedGoalsStayPut(docs, req, i);
      } else if StatusOf(once.reply) == 201 {
        CreatedGoalsStayPut(docs, req);
      }
    }
  }

  function GoalsOwner(d: NutrientGoals): JsValue {
    d.username
  }

  /** The invariant of the NutrientGoals collection: every document valid, at most one
      per user (set-nutrient-goals creates one only for a user who has none). */
  predicate GoalsInvariant(docs: seq<NutrientGoals>) {
    (forall i :: 0 <= i < |docs| ==> ValidNutrientGoals(docs[i])) && UniqueKeys(docs, GoalsOwner)
  }

  /** set-nutrient-goals keeps the invariant. */
  lemma SetNutrientGoalsKeepsInvariant(docs: seq<NutrientGoals>, req: GoalsRequest)
    requires GoalsInvariant(docs)
    ensures GoalsInvariant(SetNutrientGoals(docs, req).rows)
  {
    var o := SetNutrientGoals(docs, req);
    if Truthy(req.username) {
      var i := FirstIndex(docs, GoalsOf(req.username));
      if StatusOf(o.reply) == 200 {
        UniqueKeysUpdate(docs, i, docs[i].(goals := MergeGoals(docs[i].goals, req.goals)), GoalsOwner);
      } else if StatusOf(o.reply) == 201 {
        forall j | 0 <= j < |docs|
          ensures GoalsOwner(docs[j]) != req.username
        {
          assert !GoalsOf(req.username)(docs[j]);
        }
        UniqueKeysAppend(docs, NutrientGoals(req.username, NewGoals(req.goals)), GoalsOwner);
      }
    }
  }
}
