/** The set-nutrient-goals draft of lab3Improve.js: a username check, a check that at least
    one goal field was sent, then one `findOneAndUpdate` with `upsert`, `runValidators` and
    `omitUndefined`. */
module Lab3Improve {

  import opened JsValues
  import opened Tables
  import opened Documents
  import opened Store
  import opened Nutrients

  const ValidUsernameRequired: string := "Valid username is required."
  const NoGoalField: string := "At least one goal field must be provided."

  /** The six goal fields in the order the request lists them. */
  function GoalList(g: GoalValues): (vs: seq<JsValue>)
    ensures |vs| == 6
  {
    [g.caloriesGoal, g.proteinGoal, g.fatsGoal, g.carbohydratesGoal, g.waterGoal, g.weightGoal]
  }

  /** `[...].some((value) => value !== undefined)`. */
  predicate HasAtLeastOneGoal(g: GoalValues) {
    exists k :: 0 <= k < |GoalList(g)| && GoalList(g)[k] != Undefined
  }

  /** The presence check fails exactly when no goal field was sent. */
  lemma HasAtLeastOneGoalIff(g: GoalValues)
    ensures HasAtLeastOneGoal(g) <==> !NoGoalSupplied(g)
  {
    if !NoGoalSupplied(g) {
      var vs := GoalList(g);
      if g.caloriesGoal != Undefined { assert vs[0] != Undefined; }
      else if g.proteinGoal != Undefined { assert vs[1] != Undefined; }
      else if g.fatsGoal != Undefined { assert vs[2] != Undefined; }
      else if g.carbohydratesGoal != Undefined { assert vs[3] != Undefined; }
      else if g.waterGoal != Undefined { assert vs[4] != Undefined; }
      else { assert vs[5] != Undefined; }
    }
  }

  /** POST /set-nutrient-goals of lab3Improve.js. The update validators check only the paths
      sent. An inserted document takes its username from the filter and holds only the goal
      paths sent: `omitUndefined` drops the others and, without `setDefaultsOnInsert`, Mongoose 5
      writes no defaults on an upsert. The document the driver returns is never `isNew`, so
      every success is a 200 "updated". */
  function UpsertGoals(docs: seq<NutrientGoals>, req: GoalsRequest): (o: Outcome<NutrientGoals>)
    ensures !Truthy(req.username) ==> o == Outcome(Response(400, ValidUsernameRequired), docs)
    ensures Truthy(req.username) && !HasAtLeastOneGoal(req.goals) ==> o == Outcome(Response(400, NoGoalField), docs)
    ensures o.reply in {Response(400, ValidUsernameRequired), Response(400, NoGoalField),
                        Response(200, GoalsUpdated), Response(500, GoalsError)}
    ensures o.reply != Response(200, GoalsUpdated) ==> o.rows == docs
    ensures o.reply == Response(200, GoalsUpdated) ==> Any(o.rows, GoalsOf(req.username))
    ensures o.reply == Response(200, GoalsUpdated) && Any(docs, GoalsOf(req.username)) ==>
        exists i :: 0 <= i < |docs| && docs[i].username == req.username
                    && o.rows == docs[i := docs[i].(goals := MergeGoals(docs[i].goals, req.goals))]
    ensures o.reply == Response(200, GoalsUpdated) && !Any(docs, GoalsOf(req.username)) ==>
        o.rows == docs + [NutrientGoals(req.username, req.goals)]
    ensures o.reply == Response(200, GoalsUpdated)
        <==> && Truthy(req.username) && HasAtLeastOneGoal(req.goals) && ValidGoalValues(req.goals)
             && (Any(docs, GoalsOf(req.username)) || IsRequiredString(req.username))
  {
    if !Truthy(req.username) then Outcome(Response(400, ValidUsernameRequired), docs)
    else if !HasAtLeastOneGoal(req.goals) then Outcome(Response(400, NoGoalField), docs)
    else if !ValidGoalValues(req.goals) then Outcome(Response(500, GoalsError), docs)
    else
      var i := FirstIndex(docs, GoalsOf(req.username));
      if i < |docs| then
        var updated := docs[i].(goals := MergeGoals(docs[i].goals, req.goals));
        assert docs[i := updated][i] == updated;
        Outcome(Response(200, GoalsUpdated), docs[i := updated])
      else
        var created := NutrientGoals(req.username, req.goals);
        if !ValidNutrientGoals(created) then Outcome(Response(500, GoalsError), docs)
        else
          assert (docs + [created])[|docs|] == created;
          Outcome(Response(200, GoalsUpdated), docs + [created])
  }

  /** Merged goals pass the schema exactly when the stored and the supplied ones do. */
  lemma MergeGoalsValid(stored: GoalValues, supplied: GoalValues)
    requires ValidGoalValues(stored)
    ensures ValidGoalValues(MergeGoals(stored, supplied)) <==> ValidGoalValues(supplied)
  {
    MergeGoalsFieldwise(stored, supplied);
  }

  /** On a valid collection, for a request naming a user and some goal, the single upsert
      succeeds exactly when the find-then-save handler of HP.js and lab3ToImprove.js does
      (its 201 folded into the 200). For a user with goals both store the same merge; for a
      new user the find-then-save document is the upserted one with the defaults filled in. */
  lemma UpsertAgreesWithFindThenSave(docs: seq<NutrientGoals>, req: GoalsRequest)
    requires GoalsInvariant(docs)
    requires Truthy(req.username) && HasAtLeastOneGoal(req.goals)
    ensures UpsertGoals(docs, req).reply == Response(200, GoalsUpdated)
        <==> SetNutrientGoals(docs, req).reply in {Response(200, GoalsUpdated), Response(201, GoalsSet)}
    ensures Any(docs, GoalsOf(req.username)) ==> UpsertGoals(docs, req).rows == SetNutrientGoals(docs, req).rows
    ensures var a := UpsertGoals(docs, req).rows;
      !Any(docs, GoalsOf(req.username)) && |a| > |docs| ==>
        SetNutrientGoals(docs, req).rows == a[|docs| := a[|docs|].(goals := NewGoals(a[|docs|].goals))]
  {
    var i := FirstIndex(docs, GoalsOf(req.username));
    if i < |docs| {
      MergeGoalsValid(docs[i].goals, req.goals);
    } else {
      MergeGoalsValid(DefaultGoals, req.goals);
    }
  }

  /** The upsert keeps the invariant of the NutrientGoals collection. */
  lemma UpsertGoalsKeepsInvariant(docs: seq<NutrientGoals>, req: GoalsRequest)
    requires GoalsInvariant(docs)
    ensures GoalsInvariant(UpsertGoals(docs, req).rows)
  {
    var o := UpsertGoals(docs, req);
    if o.reply == Response(200, GoalsUpdated) {
      if Any(docs, GoalsOf(req.username)) {
        UpsertAgreesWithFindThenSave(docs, req);
        SetNutrientGoalsKeepsInvariant(docs, req);
      } else {
        var created := NutrientGoals(req.username, req.goals);
        forall j | 0 <= j < |docs|
          ensures GoalsOwner(docs[j]) != GoalsOwner(created)
        {
          assert !GoalsOf(req.username)(docs[j]);
        }
        UniqueKeysAppend(docs, created, GoalsOwner);
      }
    }
  }

  /** The handler as it runs: one upsert against the collection. */
  method SetNutrientGoalsHandler(db: Db, req: GoalsRequest) returns (reply: Reply)
    modifies db`goals
    ensures Outcome(reply, db.goals) == UpsertGoals(old(db.goals), req)
    ensures old(db.Valid()) ==> db.Valid()
  {
    if db.Valid() {
      UpsertGoalsKeepsInvariant(db.goals, req);
    }
    if !Truthy(req.username) {
      return Response(400, ValidUsernameRequired);
    }
    var list := GoalList(req.goals);
    var someGoal := false;
    var k := 0;
    while k < |list|
      invariant 0 <= k <= |list|
      invariant someGoal <==> exists j :: 0 <= j < k && list[j] != Undefined
    {
      someGoal := someGoal || list[k] != Undefined;
      k := k + 1;
    }
    if !someGoal {
      return Response(400, NoGoalField);
    }
    if !ValidGoalValues(req.goals) {
      return Response(500, GoalsError);
    }
    var i := FirstIndex(db.goals, GoalsOf(req.username));
    if i < |db.goals| {
      db.goals := db.goals[i := db.goals[i].(goals := MergeGoals(db.goals[i].goals, req.goals))];
    } else {
      var created := NutrientGoals(req.username, req.goals);
      if !ValidNutrientGoals(created) {
        return Response(500, GoalsError);
      }
      db.goals := db.goals + [created];
    }
    reply := Response(200, GoalsUpdated);
  }
}
