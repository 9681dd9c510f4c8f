/** The request handlers of HP.js as the server runs them: each reads a collection, decides,
    and saves or deletes, and each is proved to leave exactly the reply and collection its
    specification function describes, keeping the database valid. */
module Server {

  import opened JsValues
  import opened DayKeys
  import opened Tables
  import opened Documents
  import opened Store
  import opened Accounts
  import opened Activity
  import opened Nutrients
  import opened Weights
  import opened Workouts

  /** POST /register. */
  method Register(db: Db, req: RegisterRequest, hash: string -> string) returns (reply: Reply)
    modifies db`users
    ensures Outcome(reply, db.users) == Accounts.Register(old(db.users), req, hash)
    ensures old(db.Valid()) ==> db.Valid()
  {
    if db.Valid() {
      RegisterKeepsInvariant(db.users, req, hash);
    }
    var existing := FirstIndex(db.users, Named(req.username));
    if existing < |db.users| {
      return Response(400, UsernameTaken);
    }
    if !req.password.Str? {
      return Response(500, ServerError);
    }
    var user := NewUser(req, hash(req.password.s));
    if !ValidUser(user) {
      return Response(500, ServerError);
    }
    db.users := db.users + [user];
    reply := Response(201, Registered);
  }

  /** POST /update-user-profile: the password is hashed first, then the fields merged. */
  method UpdateUserProfile(db: Db, req: ProfileRequest, hash: string -> string) returns (reply: Reply)
    modifies db`users
    ensures Outcome(reply, db.users) == Accounts.UpdateUserProfile(old(db.users), req, hash)
    ensures old(db.Valid()) ==> db.Valid()
  {
    if db.Valid() {
      UpdateUserProfileKeepsInvariant(db.users, req, hash);
    }
    var i := FirstIndex(db.users, Named(req.username));
    if i == |db.users| {
      return Response(404, ProfileUserMissing);
    }
    var user := db.users[i];
    var updatedPassword := user.password;
    if Truthy(req.newPassword) {
      if !req.newPassword.Str? {
        return Response(500, ProfileError);
      }
      updatedPassword := Str(hash(req.newPassword.s));
    }
    user := user.(dob := Or(req.newDob, user.dob),
                  weight := Or(req.weight, user.weight),
                  height := Or(req.height, user.height),
                  gender := Or(req.gender, user.gender),
                  goal := Or(req.goal, user.goal),
                  password := updatedPassword);
    if !ValidUser(user) {
      return Response(500, ProfileError);
    }
    db.users := db.users[i := user];
    reply := Response(200, "");
  }

  /** DELETE /delete-user-account. */
  method DeleteUserAccount(db: Db, username: JsValue) returns (reply: Reply)
    modifies db`users, db`dailyLogs
    ensures Outcome2(reply, db.users, db.dailyLogs)
         == Accounts.DeleteUserAccount(old(db.users), old(db.dailyLogs), username)
    ensures old(db.Valid()) ==> db.Valid()
  {
    if !Truthy(username) {
      return Response(400, UsernameRequired);
    }
    var i := FirstIndex(db.users, Named(username));
    if i == |db.users| {
      return Response(404, AccountMissing);
    }
    if db.Valid() {
      DeleteUserAccountRemovesExactlyTheUser(db.users, db.dailyLogs, username);
      DeleteManyKeepsLogsInvariant(db.dailyLogs, OfUser(username));
    }
    db.users := RemoveAt(db.users, i);
    db.dailyLogs := DeleteMany(db.dailyLogs, OfUser(username));
    reply := Response(200, AccountDeleted);
  }

  /** POST /log-activity. */
  method LogActivity(db: Db, req: ActivityRequest, clock: Clock) returns (reply: Reply)
    modifies db`dailyLogs
    ensures Outcome(reply, db.dailyLogs) == Activity.LogActivity(old(db.dailyLogs), req, clock)
    ensures old(db.Valid()) ==> db.Valid()
  {
    if db.Valid() {
      LogActivityKeepsInvariant(db.dailyLogs, req, clock);
    }
    if !AllPresent(req) {
      return Response(400, MissingFields);
    }
    var key := ActivityKey(req, clock);
    var i := FirstIndex(db.dailyLogs, OnDay(req.username, key));
    if i < |db.dailyLogs| {
      var log := Overwrite(db.dailyLogs[i], req);
      if !ValidDailyLog(log) {
        return Response(500, ActivityError);
      }
      db.dailyLogs := db.dailyLogs[i := log];
      return Response(200, ActivityUpdated);
    }
    var log := NewLog(req, key);
    if !ValidDailyLog(log) {
      return Response(500, ActivityError);
    }
    db.dailyLogs := db.dailyLogs + [log];
    reply := Response(201, ActivityCreated);
  }

  /** POST /log-nutrients, without the stray assignment to `utcDate`. */
  method LogNutrients(db: Db, req: NutrientRequest, clock: Clock) returns (reply: Reply)
    modifies db`nutrientLogs
    ensures Outcome(reply, db.nutrientLogs) == Nutrients.LogNutrients(old(db.nutrientLogs), req, clock)
    ensures old(db.Valid()) ==> db.Valid()
  {
    if db.Valid() {
      LogNutrientsKeepsInvariant(db.nutrientLogs, req, clock);
    }
    if !AllNutrientsPresent(req) {
      return Response(400, NutrientFieldsMissing);
    }
    var key := NutrientKey(req, clock);
    var i := FirstIndex(db.nutrientLogs, NutrientsOnDay(req.username, key));
    if i < |db.nutrientLogs| {
      var log := OverwriteNutrients(db.nutrientLogs[i], req);
      if !ValidNutrientLog(log) {
        return Response(500, NutrientError);
      }
      db.nutrientLogs := db.nutrientLogs[i := log];
      return Response(200, NutrientUpdated);
    }
    var log := NewNutrientLog(req, key);
    if !ValidNutrientLog(log) {
      return Response(500, NutrientError);
    }
    db.nutrientLogs := db.nutrientLogs + [log];
    reply := Response(201, NutrientCreated);
  }

  /** POST /set-nutrient-goals: the six fields of the existing document are reassigned in
      place, or a new document is inserted. */
  method SetNutrientGoals(db: Db, req: GoalsRequest) returns (reply: Reply)
    modifies db`goals
    ensures Outcome(reply, db.goals) == Nutrients.SetNutrientGoals(old(db.goals), req)
    ensures old(db.Valid()) ==> db.Valid()
  {
    if db.Valid() {
      SetNutrientGoalsKeepsInvariant(db.goals, req);
    }
    if !Truthy(req.username) {
      return Response(400, GoalsUsernameRequired);
    }
    var i := FirstIndex(db.goals, GoalsOf(req.username));
    if i < |db.goals| {
      var doc := db.goals[i];
      var g := doc.goals;
      g := g.(caloriesGoal := IfDefined(req.goals.caloriesGoal, g.caloriesGoal));
      g := g.(proteinGoal := IfDefined(req.goals.proteinGoal, g.proteinGoal));
      g := g.(fatsGoal := IfDefined(req.goals.fatsGoal, g.fatsGoal));
      g := g.(carbohydratesGoal := IfDefined(req.goals.carbohydratesGoal, g.carbohydratesGoal));
      g := g.(waterGoal := IfDefined(req.goals.waterGoal, g.waterGoal));
      g := g.(weightGoal := IfDefined(req.goals.weightGoal, g.weightGoal));
      doc := doc.(goals := g);
      if !ValidNutrientGoals(doc) {
        return Response(500, GoalsError);
      }
      db.goals := db.goals[i := doc];
      return Response(200, GoalsUpdated);
    }
    var doc := NutrientGoals(req.username, NewGoals(req.goals));
    if !ValidNutrientGoals(doc) {
      return Response(500, GoalsError);
    }
    db.goals := db.goals + [doc];
    reply := Response(201, GoalsSet);
  }

  /** POST /log-weight. */
  method LogWeight(db: Db, req: WeightRequest, clock: Clock) returns (reply: Reply)
    modifies db`weightLogs
    ensures Outcome(reply, db.weightLogs) == Weights.LogWeight(old(db.weightLogs), req, clock)
    ensures old(db.Valid()) ==> db.Valid()
  {
    if db.Valid() {
      LogWeightKeepsInvariant(db.weightLogs, req, clock);
    }
    if !Truthy(req.username) || !Truthy(req.weight) {
      return Response(400, WeightFieldsMissing);
    }
    var key := WeightKey(req, clock);
    var i := FirstIndex(db.weightLogs, AtWeightKey(req.username, key));
    if i < |db.weightLogs| {
      if !req.weight.Num? {
        return Response(500, WeightError);
      }
      if db.weightLogs[i].weight == req.weight {
        return Response(400, WeightUnchanged);
      }
      db.weightLogs := db.weightLogs[i := db.weightLogs[i].(weight := req.weight)];
      return Response(200, WeightUpdated);
    }
    var log := WeightLog(req.username, key, req.weight);
    if !ValidWeightLog(log) {
      return Response(500, WeightError);
    }
    db.weightLogs := db.weightLogs + [log];
    reply := Response(201, WeightCreated);
  }

  /** POST /log-workout; `id` is the ObjectId the driver assigns, `now` the current time. */
  method LogWorkout(db: Db, req: WorkoutRequest, id: string, now: int) returns (reply: Reply)
    modifies db`workouts
    ensures Outcome(reply, db.workouts) == Workouts.LogWorkout(old(db.workouts), req, id, now)
    ensures old(db.Valid()) && (forall i :: 0 <= i < |old(db.workouts)| ==> old(db.workouts)[i].id != id) ==>
        db.Valid()
  {
    if db.Valid() && forall i :: 0 <= i < |db.workouts| ==> db.workouts[i].id != id {
      LogWorkoutKeepsInvariant(db.workouts, req, id, now);
    }
    if !AllWorkoutFieldsPresent(req) {
      return Response(400, WorkoutFieldsMissing);
    }
    if IsNegative(req.duration) {
      return Response(400, NegativeDuration);
    }
    if !IsIntensity(req.intensity) {
      return Response(400, BadIntensity);
    }
    var workout := NewWorkout(req, id, now);
    if !ValidWorkout(workout) {
      return Response(500, WorkoutError);
    }
    var owned := Count(db.workouts, OwnedBy(req.username));
    if owned >= MaxWorkouts {
      return Response(500, WorkoutError);
    }
    var clash := FirstIndex(db.workouts, (w: Workout) => PlanKey(w) == (req.username, req.name));
    if clash < |db.workouts| {
      return Response(400, DuplicateName);
    }
    db.workouts := db.workouts + [workout];
    reply := Response(201, WorkoutLogged);
  }

  /** DELETE /delete-workout. */
  method DeleteWorkout(db: Db, id: JsValue) returns (reply: Reply)
    modifies db`workouts, db`statuses
    ensures Outcome2(reply, db.workouts, db.statuses)
         == Workouts.DeleteWorkout(old(db.workouts), old(db.statuses), id)
    ensures old(db.Valid()) ==> db.Valid()
  {
    if db.Valid() {
      DeleteWorkoutKeepsStatusesInvariant(db.workouts, db.statuses, id);
    }
    if !Truthy(id) {
      return Response(400, WorkoutIdRequired);
    }
    if !id.Str? {
      return Response(500, DeleteWorkoutError);
    }
    var i := FirstIndex(db.workouts, HasId(id.s));
    if i == |db.workouts| {
      return Response(404, WorkoutMissing);
    }
    if db.Valid() {
      DeleteWorkoutRemovesExactlyThePlan(db.workouts, db.statuses, id);
    }
    db.workouts := RemoveAt(db.workouts, i);
    db.statuses := DeleteMany(db.statuses, ForWorkout(id.s));
    reply := Response(200, WorkoutDeleted);
  }

  /** One iteration of the loop, on the first of the items left: find the row with its key
      and save the new status, or save a new row; false when `save()` refuses the document.
      Either way the rest of the loop is what remains of `ApplyItems`. */
  method UpsertOne(db: Db, username: JsValue, items: seq<StatusItem>) returns (saved: bool)
    requires |items| > 0
    modifies db`statuses
    ensures saved ==> ApplyItems(old(db.statuses), username, items) == ApplyItems(db.statuses, username, items[1..])
    ensures !saved ==> ApplyItems(old(db.statuses), username, items) == Applied(false, db.statuses)
  {
    ApplyItemsStep(db.statuses, username, items);
    var item := items[0];
    var i := FirstIndex(db.statuses, AtStatusKey(username, item.id, item.date));
    if i < |db.statuses| {
      var row := db.statuses[i].(status := item.status);
      if !ValidWorkoutStatus(row) {
        return false;
      }
      db.statuses := db.statuses[i := row];
    } else {
      var row := WorkoutStatus(username, item.id, item.status, item.date);
      if !ValidWorkoutStatus(row) {
        return false;
      }
      db.statuses := db.statuses + [row];
    }
    saved := true;
  }

  /** The `for` loop over the items, one upsert per item, stopping at the first save that
      fails; `saved` is false when one did. */
  method SaveStatuses(db: Db, username: JsValue, list: seq<StatusItem>) returns (saved: bool)
    modifies db`statuses
    ensures Applied(saved, db.statuses) == ApplyItems(old(db.statuses), username, list)
  {
    var k := 0;
    while k < |list|
      invariant 0 <= k <= |list|
      invariant ApplyItems(db.statuses, username, list[k..]) == ApplyItems(old(db.statuses), username, list)
    {
      assert list[k..][1..] == list[k + 1..];
      saved := UpsertOne(db, username, list[k..]);
      if !saved {
        return;
      }
      k := k + 1;
    }
    assert list[k..] == [];
    saved := true;
  }

  /** PUT /update-workout-status. */
  method UpdateWorkoutStatus(db: Db, username: JsValue, items: Option<seq<StatusItem>>) returns (reply: Reply)
    modifies db`statuses
    ensures Outcome(reply, db.statuses) == Workouts.UpdateWorkoutStatus(old(db.statuses), username, items)
    ensures old(db.Valid()) ==> db.Valid()
  {
    if !Truthy(username) || items.None? || |items.value| == 0 {
      return Response(400, StatusRequestInvalid);
    }
    if db.Valid() {
      ApplyItemsKeepsInvariant(db.statuses, username, items.value);
    }
    var saved := SaveStatuses(db, username, items.value);
    if !saved {
      return Response(500, StatusesError);
    }
    reply := Response(200, StatusesUpdated);
  }
}
