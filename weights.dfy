/** The `weightLog` collection: log-weight (HP.js:968-1028), an upsert keyed on the UTC
    midnight of the instant. */
module Weights {

  import opened JsValues
  import opened DayKeys
  import opened Tables
  import opened Documents

  /** The body of a log-weight request; `logDate` is the parsed date when one was sent. */
  datatype WeightRequest = WeightRequest(username: JsValue, logDate: Option<int>, weight: JsValue)

  const WeightFieldsMissing: string := "Username and weight are required."
  const WeightUnchanged: string := "Weight value is the same as the existing one. No update needed."
  const WeightUpdated: string := "Weight log updated successfully."
  const WeightCreated: string := "Weight log created successfully."
  const WeightError: string := "Server error while logging weight."

  /** `weightDate.setUTCHours(0, 0, 0, 0)`: the key is the UTC midnight of the instant. */
  function WeightKey(req: WeightRequest, clock: Clock): int {
    UtcMidnight(Instant(req.logDate, clock.now))
  }

  /** The exact-match filter `{ username, date: normalizedDate }`. */
  function AtWeightKey(username: JsValue, key: int): WeightLog -> bool {
    (log: WeightLog) => log.username == username && log.date == key
  }

  /** POST /log-weight. `updateOne` runs no validators, so the update path stores any
      number; a weight it cannot cast to a number makes it throw (500). A `$set` to the
      value already stored modifies nothing and is answered with 400. */
  function LogWeight(logs: seq<WeightLog>, req: WeightRequest, clock: Clock): (o: Outcome<WeightLog>)
    ensures !Truthy(req.username) || !Truthy(req.weight) ==> o == Outcome(Response(400, WeightFieldsMissing), logs)
    ensures Truthy(req.username) && Truthy(req.weight) && Any(logs, AtWeightKey(req.username, WeightKey(req, clock))) ==>
        o.reply in {Response(200, WeightUpdated), Response(400, WeightUnchanged), Response(500, WeightError)}
    ensures o.reply == Response(500, WeightError) && Any(logs, AtWeightKey(req.username, WeightKey(req, clock))) ==>
        !req.weight.Num?
    ensures Truthy(req.username) && Truthy(req.weight) && Any(logs, AtWeightKey(req.username, WeightKey(req, clock)))
            && !req.weight.Num? ==>
        o == Outcome(Response(500, WeightError), logs)
    ensures o.reply == Response(400, WeightUnchanged) ==>
        o.rows == logs && exists i :: 0 <= i < |logs| && AtWeightKey(req.username, WeightKey(req, clock))(logs[i])
                                       && logs[i].weight == req.weight
    ensures o.reply == Response(200, WeightUpdated) ==>
        exists i :: 0 <= i < |logs| && AtWeightKey(req.username, WeightKey(req, clock))(logs[i])
                    && logs[i].weight != req.weight && req.weight.Num?
                    && o.rows == logs[i := logs[i].(weight := req.weight)]
    ensures o.reply == Response(201, WeightCreated)
        <==> Truthy(req.username) && Truthy(req.weight)
             && !Any(logs, AtWeightKey(req.username, WeightKey(req, clock)))
             && ValidWeightLog(WeightLog(req.username, WeightKey(req, clock), req.weight))
    ensures o.reply == Response(201, WeightCreated) ==>
        o.rows == logs + [WeightLog(req.username, WeightKey(req, clock), req.weight)]
    ensures Truthy(req.username) && Truthy(req.weight) && !Any(logs, AtWeightKey(req.username, WeightKey(req, clock)))
            && !ValidWeightLog(WeightLog(req.username, WeightKey(req, clock), req.weight)) ==>
        o == Outcome(Response(500, WeightError), logs)
    ensures StatusOf(o.reply) != 200 && StatusOf(o.reply) != 201 ==> o.rows == logs
    ensures var i := FirstIndex(logs, AtWeightKey(req.username, WeightKey(req, clock)));
      Truthy(req.username) && Truthy(req.weight) && i < |logs| && req.weight.Num? ==>
        && (o.reply == Response(400, WeightUnchanged) <==> logs[i].weight == req.weight)
        && (logs[i].weight != req.weight ==>
              o == Outcome(Response(200, WeightUpdated), logs[i := logs[i].(weight := req.weight)]))
  {
    if !Truthy(req.username) || !Truthy(req.weight) then Outcome(Response(400, WeightFieldsMissing), logs)
    else
      var key := WeightKey(req, clock);
      var i := FirstIndex(logs, AtWeightKey(req.username, key));
      if i < |logs| then
        if !req.weight.Num? then Outcome(Response(500, WeightError), logs)
        else if logs[i].weight == req.weight then Outcome(Response(400, WeightUnchanged), logs)
        else Outcome(Response(200, WeightUpdated), logs[i := logs[i].(weight := req.weight)])
      else
        var created := WeightLog(req.username, key, req.weight);
        if !ValidWeightLog(created) then Outcome(Response(500, WeightError), logs)
        else Outcome(Response(201, WeightCreated), logs + [created])
  }

  /** The (username, date) pair a weight log is filed under. */
  function WeightLogKey(log: WeightLog): (JsValue, int) {
    (log.username, log.date)
  }

  /** What log-weight keeps of its collection: every date a UTC day boundary, at most one
      log per (user, day), a non-empty username and a numeric weight. The 30..300 bounds are
      checked only when a log is created. */
  predicate WeightLogsInvariant(logs: seq<WeightLog>) {
    && (forall i :: 0 <= i < |logs| ==> IsDayBoundary(logs[i].date))
    && (forall i :: 0 <= i < |logs| ==> IsRequiredString(logs[i].username) && logs[i].weight.Num?)
    && UniqueKeys(logs, WeightLogKey)
  }

  /** log-weight keeps its invariant. */
  lemma LogWeightKeepsInvariant(logs: seq<WeightLog>, req: WeightRequest, clock: Clock)
    requires WeightLogsInvariant(logs)
    ensures WeightLogsInvariant(LogWeight(logs, req, clock).rows)
  {
    var o := LogWeight(logs, req, clock);
    var key := WeightKey(req, clock);
    var i := FirstIndex(logs, AtWeightKey(req.username, key));
    if StatusOf(o.reply) == 200 {
      UniqueKeysUpdate(logs, i, logs[i].(weight := req.weight), WeightLogKey);
    } else if StatusOf(o.reply) == 201 {
      forall j | 0 <= j < |logs|
        ensures WeightLogKey(logs[j]) != WeightLogKey(WeightLog(req.username, key, req.weight))
      {
        assert !AtWeightKey(req.username, key)(logs[j]);
      }
      UniqueKeysAppend(logs, WeightLog(req.username, key, req.weight), WeightLogKey);
    }
  }

  /** Two requests of the same user for instants in the same UTC day address the same log:
      a second weight that day updates the first instead of adding a log. */
  lemma SameDayWeightsUpdate(logs: seq<WeightLog>, first: WeightRequest, second: WeightRequest, clock: Clock)
    requires LogWeight(logs, first, clock).reply == Response(201, WeightCreated)
    requires second.username == first.username && second.weight.Num? && second.weight != first.weight
    requires second.weight.n != 0.0
    requires InDay(Instant(second.logDate, clock.now), WeightKey(first, clock))
    ensures LogWeight(LogWeight(logs, first, clock).rows, second, clock).reply == Response(200, WeightUpdated)
  {
    var rows := LogWeight(logs, first, clock).rows;
    var key := WeightKey(first, clock);
    UtcMidnightOfDay(Instant(second.logDate, clock.now), key);
    assert WeightKey(second, clock) == key;
    assert AtWeightKey(second.username, key)(rows[|logs|]);
  }

  /** The update path skips the schema's 30..300 bounds: a stored 70 becomes 500. */
  lemma LogWeightUpdateSkipsBounds()
    ensures var logs := [WeightLog(Str("ann"), 0, Num(70.0))];
      var o := LogWeight(logs, WeightRequest(Str("ann"), Some(3600000), Num(500.0)), Clock(0, 0));
      && o.reply == Response(200, WeightUpdated)
      && o.rows == [WeightLog(Str("ann"), 0, Num(500.0))]
      && !ValidWeightLog(o.rows[0])
  {
    var logs := [WeightLog(Str("ann"), 0, Num(70.0))];
    var req := WeightRequest(Str("ann"), Some(3600000), Num(500.0));
    UtcMidnightOfDay(3600000, 0);
    assert AtWeightKey(req.username, WeightKey(req, Clock(0, 0)))(logs[0]);
  }
}
