/** The log-nutrients draft of generated2.js: no presence check, an exact (username, date)
    lookup, `Object.assign` of the five nutrient fields on a match, `create` otherwise. The
    lines that declare `date` are commented out. */
module Generated2 {

  import opened JsValues
  import opened DayKeys
  import opened Tables
  import opened Documents
  import opened Store
  import Nutrients

  /** The `findOne({ username, date })` filter: the exact key, not a day range. */
  function AtNutrientKey(username: JsValue, date: int): NutrientLog -> bool {
    (log: NutrientLog) => log.username == username && log.date == date
  }

  /** As written: `date` is never declared, so evaluating the lookup's filter throws a
      ReferenceError inside the `try` and every request is answered 500 with nothing saved. */
  function LogNutrientsAsWritten(logs: seq<NutrientLog>, req: Nutrients.NutrientRequest): (o: Outcome<NutrientLog>)
    ensures o.rows == logs
    ensures o.reply == Response(500, Nutrients.NutrientError)
  {
    Outcome(Response(500, Nutrients.NutrientError), logs)
  }

  /** The key of the commented-out lines: the instant of `logDate || Date.now()` with its UTC
      time of day zeroed. */
  function DraftKey(req: Nutrients.NutrientRequest, clock: Clock): int {
    UtcMidnight(Instant(req.logDate, clock.now))
  }

  /** POST /log-nutrients of generated2.js with `date` declared as the commented-out lines
      intended. There is no 400 path: a missing field is refused by the schema (500). */
  function LogNutrients(logs: seq<NutrientLog>, req: Nutrients.NutrientRequest, clock: Clock): (o: Outcome<NutrientLog>)
    ensures StatusOf(o.reply) in {200, 201, 500}
    ensures o.reply == Response(200, Nutrients.NutrientUpdated)
        <==> Nutrients.ValidNutrients(req) && Any(logs, AtNutrientKey(req.username, DraftKey(req, clock)))
    ensures o.reply == Response(201, Nutrients.NutrientCreated)
        <==> Nutrients.ValidNutrients(req) && !Any(logs, AtNutrientKey(req.username, DraftKey(req, clock)))
    ensures StatusOf(o.reply) == 500 ==> o == Outcome(Response(500, Nutrients.NutrientError), logs)
    ensures StatusOf(o.reply) == 200 ==>
        exists i :: 0 <= i < |logs| && logs[i].username == req.username && logs[i].date == DraftKey(req, clock)
                    && o.rows == logs[i := Nutrients.OverwriteNutrients(logs[i], req)]
    ensures StatusOf(o.reply) == 201 ==>
        o.rows == logs + [Nutrients.NewNutrientLog(req, DraftKey(req, clock))]
  {
    var date := DraftKey(req, clock);
    var i := FirstIndex(logs, AtNutrientKey(req.username, date));
    if i < |logs| then
      var updated := Nutrients.OverwriteNutrients(logs[i], req);
      if !ValidNutrientLog(updated) then Outcome(Response(500, Nutrients.NutrientError), logs)
      else Outcome(Response(200, Nutrients.NutrientUpdated), logs[i := updated])
    else
      var created := Nutrients.NewNutrientLog(req, date);
      if !ValidNutrientLog(created) then Outcome(Response(500, Nutrients.NutrientError), logs)
      else Outcome(Response(201, Nutrients.NutrientCreated), logs + [created])
  }

  /** The undeclared `date` turns every request the schema accepts, which the intended
      handler saves, into a 500 that saves nothing. */
  lemma UndeclaredDateRefusesEveryRequest(logs: seq<NutrientLog>, req: Nutrients.NutrientRequest, clock: Clock)
    requires Nutrients.ValidNutrients(req)
    ensures LogNutrientsAsWritten(logs, req).reply == Response(500, Nutrients.NutrientError)
    ensures StatusOf(LogNutrients(logs, req, clock).reply) in {200, 201}
    ensures !Any(logs, AtNutrientKey(req.username, DraftKey(req, clock))) ==>
        |LogNutrients(logs, req, clock).rows| == |logs| + 1
  {
  }

  /** The update overwrites the five nutrient fields and nothing else. */
  lemma OverwriteKeepsKey(log: NutrientLog, req: Nutrients.NutrientRequest)
    ensures var u := Nutrients.OverwriteNutrients(log, req);
      && u.username == log.username && u.date == log.date
      && u.calories == req.calories && u.protein == req.protein && u.fats == req.fats
      && u.carbohydrates == req.carbohydrates && u.water == req.water
  {
  }

  /** The draft keeps the invariant of the NutrientLog collection. */
  lemma LogNutrientsKeepsInvariant(logs: seq<NutrientLog>, req: Nutrients.NutrientRequest, clock: Clock)
    requires Nutrients.NutrientLogsInvariant(logs)
    ensures Nutrients.NutrientLogsInvariant(LogNutrients(logs, req, clock).rows)
  {
    var o := LogNutrients(logs, req, clock);
    var date := DraftKey(req, clock);
    var i := FirstIndex(logs, AtNutrientKey(req.username, date));
    if StatusOf(o.reply) == 200 {
      UniqueKeysUpdate(logs, i, Nutrients.OverwriteNutrients(logs[i], req), Nutrients.NutrientLogKey);
    } else if StatusOf(o.reply) == 201 {
      forall j | 0 <= j < |logs|
        ensures Nutrients.NutrientLogKey(logs[j]) != Nutrients.NutrientLogKey(Nutrients.NewNutrientLog(req, date))
      {
        assert !AtNutrientKey(req.username, date)(logs[j]);
      }
      UniqueKeysAppend(logs, Nutrients.NewNutrientLog(req, date), Nutrients.NutrientLogKey);
    }
  }

  /** On a collection keyed by day, with the server's clock at UTC, the exact lookup finds
      what HP.js's range lookup finds, so for a request with every field present the draft
      stores what HP.js's corrected handler stores. */
  lemma AgreesWithRangeLookupAtUtc(logs: seq<NutrientLog>, req: Nutrients.NutrientRequest, clock: Clock)
    requires Nutrients.NutrientLogsInvariant(logs)
    requires clock.tzOffsetMin == 0 && Nutrients.AllNutrientsPresent(req)
    ensures LogNutrients(logs, req, clock) == Nutrients.LogNutrients(logs, req, clock)
  {
    var key := Nutrients.NutrientKey(req, clock);
    KeysAgreeOnlyAtUtc(Instant(req.logDate, clock.now));
    assert key == DraftKey(req, clock);
    forall j | 0 <= j < |logs|
      ensures Nutrients.NutrientsOnDay(req.username, key)(logs[j]) == AtNutrientKey(req.username, key)(logs[j])
    {
      Nutrients.NutrientsOnDayIsExactKey(logs, req.username, key, j);
    }
    FirstIndexSameFilter(logs, Nutrients.NutrientsOnDay(req.username, key), AtNutrientKey(req.username, key));
  }

  /** The handler as it runs with `date` declared: `Object.assign` on the fetched log and a
      save, or a create. */
  method LogNutrientsHandler(db: Db, req: Nutrients.NutrientRequest, clock: Clock) returns (reply: Reply)
    modifies db`nutrientLogs
    ensures Outcome(reply, db.nutrientLogs) == LogNutrients(old(db.nutrientLogs), req, clock)
    ensures old(db.Valid()) ==> db.Valid()
  {
    if db.Valid() {
      LogNutrientsKeepsInvariant(db.nutrientLogs, req, clock);
    }
    var date := UtcMidnight(Instant(req.logDate, clock.now));
    var i := FirstIndex(db.nutrientLogs, AtNutrientKey(req.username, date));
    if i < |db.nutrientLogs| {
      var log := db.nutrientLogs[i];
      log := log.(calories := req.calories, protein := req.protein, fats := req.fats,
                  carbohydrates := req.carbohydrates, water := req.water);
      if !ValidNutrientLog(log) {
        return Response(500, Nutrients.NutrientError);
      }
      db.nutrientLogs := db.nutrientLogs[i := log];
      return Response(200, Nutrients.NutrientUpdated);
    }
    var log := NutrientLog(req.username, date, req.calories, req.protein, req.fats, req.carbohydrates, req.water);
    if !ValidNutrientLog(log) {
      return Response(500, Nutrients.NutrientError);
    }
    db.nutrientLogs := db.nutrientLogs + [log];
    reply := Response(201, Nutrients.NutrientCreated);
  }
}
