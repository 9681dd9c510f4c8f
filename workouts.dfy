/** The `Workout` and `WorkoutStatus` collections: log-workout with the ten-plan save hook
    and the unique (username, name) index (HP.js:1138-1151, 1171-1229), delete-workout with
    its cascade to the statuses (HP.js:1298-1333) and the bulk status upsert of
    update-workout-status (HP.js:1390-1451). */
module Workouts {

  import opened JsValues
  import opened Tables
  import opened Documents

  // ---------------------------------------------------------------- log-workout

  /** The body of a log-workout request. */
  datatype WorkoutRequest = WorkoutRequest(
    username: JsValue,
    name: JsValue,
    exercises: JsValue,
    duration: JsValue,
    intensity: JsValue)

  /** The most workout plans a user may own (the pre-save hook). */
  const MaxWorkouts: nat := 10

  const WorkoutFieldsMissing: string := "All fields are required: username, name, exercises, duration, intensity."
  const NegativeDuration: string := "Duration must be greater than or equal to 0."
  const BadIntensity: string := "Intensity must be one of: Low, Medium, High."
  const DuplicateName: string := "Workout name must be unique for each user."
  const WorkoutError: string := "Server error while logging workout."
  const WorkoutLogged: string := "Workout logged successfully."

  predicate AllWorkoutFieldsPresent(req: WorkoutRequest) {
    && Truthy(req.username)
    && Truthy(req.name)
    && Truthy(req.exercises)
    && Truthy(req.duration)
    && Truthy(req.intensity)
  }

  /** `duration < 0` on a number. */
  predicate IsNegative(v: JsValue) {
    v.Num? && v.n < 0.0
  }

  /** `["Low", "Medium", "High"].includes(intensity)`. */
  predicate IsIntensity(v: JsValue) {
    v.Str? && v.s in Intensities
  }

  /** `countDocuments({ username })`'s filter. */
  function OwnedBy(username: JsValue): Workout -> bool {
    (w: Workout) => w.username == username
  }

  /** The key of the unique index. */
  function PlanKey(w: Workout): (JsValue, JsValue) {
    (w.username, w.name)
  }

  /** A plan of that user with that name exists. */
  predicate NameTaken(workouts: seq<Workout>, username: JsValue, name: JsValue) {
    exists i :: 0 <= i < |workouts| && PlanKey(workouts[i]) == (username, name)
  }

  /** The document a request creates; its ObjectId and date are supplied by the caller. */
  function NewWorkout(req: WorkoutRequest, id: string, now: int): Workout {
    Workout(id, req.username, req.name, req.exercises, req.duration, req.intensity, now)
  }

  /** POST /log-workout. `save()` validates, then runs the hook that refuses an eleventh
      plan, then meets the unique index (error code 11000 answered with 400). */
  function LogWorkout(workouts: seq<Workout>, req: WorkoutRequest, id: string, now: int): (o: Outcome<Workout>)
    ensures !AllWorkoutFieldsPresent(req) ==> o == Outcome(Response(400, WorkoutFieldsMissing), workouts)
    ensures AllWorkoutFieldsPresent(req) && IsNegative(req.duration) ==>
        o == Outcome(Response(400, NegativeDuration), workouts)
    ensures AllWorkoutFieldsPresent(req) && !IsNegative(req.duration) && !IsIntensity(req.intensity) ==>
        o == Outcome(Response(400, BadIntensity), workouts)
    ensures AllWorkoutFieldsPresent(req) && Count(workouts, OwnedBy(req.username)) >= MaxWorkouts ==>
        StatusOf(o.reply) != 201
    ensures o.reply == Response(201, WorkoutLogged)
        <==> && AllWorkoutFieldsPresent(req) && ValidWorkout(NewWorkout(req, id, now))
             && Count(workouts, OwnedBy(req.username)) < MaxWorkouts
             && !NameTaken(workouts, req.username, req.name)
    ensures o.reply == Response(201, WorkoutLogged) ==> o.rows == workouts + [NewWorkout(req, id, now)]
    ensures o.reply == Response(400, DuplicateName) ==> NameTaken(workouts, req.username, req.name)
    ensures AllWorkoutFieldsPresent(req) && ValidWorkout(NewWorkout(req, id, now))
            && Count(workouts, OwnedBy(req.username)) < MaxWorkouts && NameTaken(workouts, req.username, req.name) ==>
        o == Outcome(Response(400, DuplicateName), workouts)
    ensures AllWorkoutFieldsPresent(req) && ValidWorkout(NewWorkout(req, id, now))
            && Count(workouts, OwnedBy(req.username)) >= MaxWorkouts ==>
        o == Outcome(Response(500, WorkoutError), workouts)
    ensures AllWorkoutFieldsPresent(req) && !IsNegative(req.duration) && IsIntensity(req.intensity)
            && !ValidWorkout(NewWorkout(req, id, now)) ==>
        o == Outcome(Response(500, WorkoutError), workouts)
    ensures o.reply != Response(201, WorkoutLogged) ==> o.rows == workouts
  {
    if !AllWorkoutFieldsPresent(req) then Outcome(Response(400, WorkoutFieldsMissing), workouts)
    else if IsNegative(req.duration) then Outcome(Response(400, NegativeDuration), workouts)
    else if !IsIntensity(req.intensity) then Outcome(Response(400, BadIntensity), workouts)
    else
      var created := NewWorkout(req, id, now);
      if !ValidWorkout(created) then Outcome(Response(500, WorkoutError), workouts)
      else if Count(workouts, OwnedBy(req.username)) >= MaxWorkouts then Outcome(Response(500, WorkoutError), workouts)
      else if NameTaken(workouts, req.username, req.name) then Outcome(Response(400, DuplicateName), workouts)
      else Outcome(Response(201, WorkoutLogged), workouts + [created])
  }

  function WorkoutIdOf(w: Workout): string {
    w.id
  }

  /** No user owns more than ten plans. */
  ghost predicate WithinCap(workouts: seq<Workout>) {
    forall u :: Count(workouts, OwnedBy(u)) <= MaxWorkouts
  }

  /** The invariant of the Workout collection: every plan valid, ObjectIds distinct, the
      unique (username, name) index, at most ten plans per user. */
  ghost predicate WorkoutsInvariant(workouts: seq<Workout>) {
    && (forall i :: 0 <= i < |workouts| ==> ValidWorkout(workouts[i]))
    && UniqueKeys(workouts, WorkoutIdOf)
    && UniqueKeys(workouts, PlanKey)
    && WithinCap(workouts)
  }

  /** log-workout keeps the invariant when the new ObjectId is fresh: in particular no user
      ever ends up with more than ten plans. */
  lemma LogWorkoutKeepsInvariant(workouts: seq<Workout>, req: WorkoutRequest, id: string, now: int)
    requires WorkoutsInvariant(workouts)
    requires forall i :: 0 <= i < |workouts| ==> workouts[i].id != id
    ensures WorkoutsInvariant(LogWorkout(workouts, req, id, now).rows)
  {
    var o := LogWorkout(workouts, req, id, now);
    if o.reply == Response(201, WorkoutLogged) {
      var created := NewWorkout(req, id, now);
      UniqueKeysAppend(workouts, created, WorkoutIdOf);
      UniqueKeysAppend(workouts, created, PlanKey);
      forall u
        ensures Count(o.rows, OwnedBy(u)) <= MaxWorkouts
      {
        CountAppend(workouts, created, OwnedBy(u));
      }
    }
  }

  // ---------------------------------------------------------------- delete-workout

  const WorkoutIdRequired: string := "Workout id is required."
  const DeleteWorkoutError: string := "Server error while deleting the workout."
  const WorkoutMissing: string := "Workout not found."
  const WorkoutDeleted: string := "Workout and associated statuses deleted successfully."

  /** The `findByIdAndDelete(id)` filter. */
  function HasId(id: string): Workout -> bool {
    (w: Workout) => w.id == id
  }

  /** The `deleteMany({ workoutId: id })` filter. */
  function ForWorkout(id: string): WorkoutStatus -> bool {
    (s: WorkoutStatus) => s.workoutId == id
  }

  /** DELETE /delete-workout. An id that is not a string cannot be cast to an ObjectId (500). */
  function DeleteWorkout(workouts: seq<Workout>, statuses: seq<WorkoutStatus>, id: JsValue)
    : (o: Outcome2<Workout, WorkoutStatus>)
    ensures !Truthy(id) ==> o == Outcome2(Response(400, WorkoutIdRequired), workouts, statuses)
    ensures Truthy(id) && !id.Str? ==> o == Outcome2(Response(500, DeleteWorkoutError), workouts, statuses)
    ensures o.reply == Response(404, WorkoutMissing) <==> Truthy(id) && id.Str? && !Any(workouts, HasId(id.s))
    ensures o.reply == Response(200, WorkoutDeleted) <==> Truthy(id) && id.Str? && Any(workouts, HasId(id.s))
    ensures o.reply != Response(200, WorkoutDeleted) ==> o.parents == workouts && o.children == statuses
    ensures o.reply == Response(200, WorkoutDeleted) ==>
        && |o.parents| == |workouts| - 1
        && (forall x :: x in o.parents ==> x in workouts)
        && (forall x :: x in o.children <==> x in statuses && x.workoutId != id.s)
  {
    if !Truthy(id) then Outcome2(Response(400, WorkoutIdRequired), workouts, statuses)
    else if !id.Str? then Outcome2(Response(500, DeleteWorkoutError), workouts, statuses)
    else
      var i := FirstIndex(workouts, HasId(id.s));
      if i == |workouts| then Outcome2(Response(404, WorkoutMissing), workouts, statuses)
      else
        Outcome2(Response(200, WorkoutDeleted), RemoveAt(workouts, i),
                 DeleteMany(statuses, ForWorkout(id.s)))
  }

  /** Deleting a plan keeps the invariant, leaves no plan with that id and no status that
      refers to it, and keeps every other plan. */
  lemma DeleteWorkoutRemovesExactlyThePlan(workouts: seq<Workout>, statuses: seq<WorkoutStatus>, id: JsValue)
    requires WorkoutsInvariant(workouts)
    requires DeleteWorkout(workouts, statuses, id).reply == Response(200, WorkoutDeleted)
    ensures var o := DeleteWorkout(workouts, statuses, id);
      && WorkoutsInvariant(o.parents)
      && !Any(o.parents, HasId(id.s))
      && (forall x :: x in workouts && x.id != id.s ==> x in o.parents)
      && !Any(o.children, ForWorkout(id.s))
  {
    var i := FirstIndex(workouts, HasId(id.s));
    var rest := RemoveAt(workouts, i);
    var o := DeleteWorkout(workouts, statuses, id);
    assert o.parents == rest;
    UniqueKeysRemoveAt(workouts, i, WorkoutIdOf);
    UniqueKeysRemoveAt(workouts, i, PlanKey);
    forall j | 0 <= j < |rest|
      ensures rest[j].id != id.s && ValidWorkout(rest[j])
    {
      var j' := if j < i then j else j + 1;
      assert rest[j] == workouts[j'];
      assert WorkoutIdOf(workouts[j']) != WorkoutIdOf(workouts[i]) || j' == i;
    }
    forall x | x in workouts && x.id != id.s
      ensures x in rest
    {
      var k :| 0 <= k < |workouts| && workouts[k] == x;
      if k < i {
        assert rest[k] == x;
      } else {
        assert rest[k - 1] == x;
      }
    }
    forall u
      ensures Count(rest, OwnedBy(u)) <= MaxWorkouts
    {
      CountRemoveAt(workouts, i, OwnedBy(u));
    }
    forall j | 0 <= j < |o.children|
      ensures !ForWorkout(id.s)(o.children[j])
    {
      assert o.children[j] in o.children;
    }
  }

  /** The cascade keeps the invariant of the statuses. */
  lemma DeleteWorkoutKeepsStatusesInvariant(workouts: seq<Workout>, statuses: seq<WorkoutStatus>, id: JsValue)
    requires StatusesInvariant(statuses)
    ensures StatusesInvariant(DeleteWorkout(workouts, statuses, id).children)
  {
    if id.Str? {
      DeleteManyKeepsAll(statuses, ForWorkout(id.s), ValidWorkoutStatus);
      UniqueKeysDeleteMany(statuses, ForWorkout(id.s), StatusKey);
    }
  }

  /** Removing a document never raises a count. */
  lemma {:induction false} CountRemoveAt(s: seq<Workout>, i: nat, p: Workout -> bool)
    requires i < |s|
    ensures Count(RemoveAt(s, i), p) <= Count(s, p)
  {
    if i > 0 {
      assert RemoveAt(s, i)[1..] == RemoveAt(s[1..], i - 1);
      CountRemoveAt(s[1..], i - 1, p);
    } else {
      assert RemoveAt(s, i) == s[1..];
    }
  }

  // ---------------------------------------------------------------- update-workout-status

  /** One element of `updatedWorkouts`; `date` is the parsed date. */
  datatype StatusItem = StatusItem(id: string, status: JsValue, date: int)

  /** The outcome of processing the items: whether every save succeeded, and the rows. */
  datatype Applied = Applied(ok: bool, rows: seq<WorkoutStatus>)

  const StatusRequestInvalid: string := "Invalid data. Username and updated workouts are required."
  const StatusesUpdated: string := "Workout statuses updated successfully."
  const StatusesError: string := "Error saving workout statuses"

  /** The key of a status row: (username, workoutId, date). */
  function StatusKey(s: WorkoutStatus): (JsValue, string, int) {
    (s.username, s.workoutId, s.date)
  }

  /** The `findOne({ username, workoutId: id, date })` filter. */
  function AtStatusKey(username: JsValue, id: string, date: int): WorkoutStatus -> bool {
    (s: WorkoutStatus) => StatusKey(s) == (username, id, date)
  }

  /** One iteration of the loop: overwrite the status of the row with the item's key, or
      insert a row; None when `save()` refuses the document. */
  function UpsertStatus(rows: seq<WorkoutStatus>, username: JsValue, item: StatusItem): (r: Option<seq<WorkoutStatus>>)
    ensures r.Some? ==> |r.value| == |rows| || r.value == rows + [WorkoutStatus(username, item.id, item.status, item.date)]
    ensures r.None? <==> !ValidWorkoutStatus(WorkoutStatus(username, item.id, item.status, item.date))
  {
    var i := FirstIndex(rows, AtStatusKey(username, item.id, item.date));
    if i < |rows| then
      var updated := rows[i].(status := item.status);
      if !ValidWorkoutStatus(updated) then None else Some(rows[i := updated])
    else
      var created := WorkoutStatus(username, item.id, item.status, item.date);
      if !ValidWorkoutStatus(created) then None else Some(rows + [created])
  }

  /** The key of a row is listed by one of the items of that user. */
  predicate Listed(username: JsValue, items: seq<StatusItem>, row: WorkoutStatus) {
    exists t :: 0 <= t < |items| && StatusKey(row) == (username, items[t].id, items[t].date)
  }

  /** The loop over the items, in order, stopping at the first save that fails; the rows
      written before it stay written. */
  function ApplyItems(rows: seq<WorkoutStatus>, username: JsValue, items: seq<StatusItem>): (r: Applied)
    ensures |rows| <= |r.rows|
    decreases |items|
  {
    if |items| == 0 then Applied(true, rows)
    else
      match UpsertStatus(rows, username, items[0])
      case None => Applied(false, rows)
      case Some(next) => ApplyItems(next, username, items[1..])
  }

  /** Existing rows keep their keys and positions through the loop, and a row whose key no
      item lists is untouched. */
  lemma {:induction false} ApplyItemsFrame(rows: seq<WorkoutStatus>, username: JsValue, items: seq<StatusItem>)
    ensures var r := ApplyItems(rows, username, items);
      && (forall j :: 0 <= j < |rows| ==> StatusKey(r.rows[j]) == StatusKey(rows[j]))
      && (forall j :: 0 <= j < |rows| && !Listed(username, items, rows[j]) ==> r.rows[j] == rows[j])
    decreases |items|
  {
    if |items| > 0 && UpsertStatus(rows, username, items[0]).Some? {
      var next := UpsertStatus(rows, username, items[0]).value;
      UpsertStatusFrame(rows, username, items[0]);
      ApplyItemsFrame(next, username, items[1..]);
      assert forall j :: 0 <= j < |rows| && !Listed(username, items, rows[j]) ==>
                           (next[j] == rows[j] && !Listed(username, items[1..], next[j])) by {
        assert forall t :: 0 <= t < |items[1..]| ==> items[1..][t] == items[t + 1];
      }
    }
  }

  /** One step of the loop: a refused first item stops it, a saved one leaves the rest of
      the items to run on the new rows. */
  lemma ApplyItemsStep(rows: seq<WorkoutStatus>, username: JsValue, items: seq<StatusItem>)
    requires |items| > 0
    ensures UpsertStatus(rows, username, items[0]).None? ==> ApplyItems(rows, username, items) == Applied(false, rows)
    ensures UpsertStatus(rows, username, items[0]).Some? ==>
        ApplyItems(rows, username, items) == ApplyItems(UpsertStatus(rows, username, items[0]).value, username, items[1..])
  {
  }

  /** One upsert keeps the keys of the existing rows and changes only the row with the
      item's key. */
  lemma UpsertStatusFrame(rows: seq<WorkoutStatus>, username: JsValue, item: StatusItem)
    requires UpsertStatus(rows, username, item).Some?
    ensures var next := UpsertStatus(rows, username, item).value;
      && |rows| <= |next|
      && (forall j :: 0 <= j < |rows| ==> StatusKey(next[j]) == StatusKey(rows[j]))
      && (forall j :: 0 <= j < |rows| && StatusKey(rows[j]) != (username, item.id, item.date) ==> next[j] == rows[j])
  {
  }

  /** PUT /update-workout-status. */
  function UpdateWorkoutStatus(statuses: seq<WorkoutStatus>, username: JsValue, items: Option<seq<StatusItem>>)
    : (o: Outcome<WorkoutStatus>)
    ensures !Truthy(username) || items.None? || |items.value| == 0 ==>
        o == Outcome(Response(400, StatusRequestInvalid), statuses)
    ensures o.reply in {Response(400, StatusRequestInvalid), Response(200, StatusesUpdated), Response(500, StatusesError)}
    ensures o.reply == Response(200, StatusesUpdated) ==> ApplyItems(statuses, username, items.value) == Applied(true, o.rows)
    ensures Truthy(username) && items.Some? && |items.value| > 0 ==>
        && o.rows == ApplyItems(statuses, username, items.value).rows
        && (o.reply == Response(200, StatusesUpdated) <==> ApplyItems(statuses, username, items.value).ok)
        && (o.reply == Response(500, StatusesError) <==> !ApplyItems(statuses, username, items.value).ok)
  {
    if !Truthy(username) || items.None? || |items.value| == 0 then Outcome(Response(400, StatusRequestInvalid), statuses)
    else
      var a := ApplyItems(statuses, username, items.value);
      if a.ok then Outcome(Response(200, StatusesUpdated), a.rows)
      else Outcome(Response(500, StatusesError), a.rows)
  }

  /** The status the first row with the key holds, as `findOne` reads it. */
  function Lookup(rows: seq<WorkoutStatus>, username: JsValue, id: string, date: int): Option<JsValue> {
    var i := FirstIndex(rows, AtStatusKey(username, id, date));
    if i < |rows| then Some(rows[i].status) else None
  }

  /** The status of the last item with the key, None when no item has it. */
  function LastStatus(items: seq<StatusItem>, id: string, date: int): (r: Option<JsValue>)
    ensures r.None? <==> forall t :: 0 <= t < |items| ==> (items[t].id, items[t].date) != (id, date)
    ensures r.Some? ==> exists t :: 0 <= t < |items| && (items[t].id, items[t].date) == (id, date)
                                    && items[t].status == r.value
                                    && forall t' :: t < t' < |items| ==> (items[t'].id, items[t'].date) != (id, date)
  {
    if |items| == 0 then None
    else
      var rest := LastStatus(items[1..], id, date);
      assert forall t :: 0 < t < |items| ==> items[t] == items[1..][t - 1];
      if rest.Some? then
        var t :| 0 <= t < |items[1..]| && (items[1..][t].id, items[1..][t].date) == (id, date)
                 && items[1..][t].status == rest.value
                 && forall t' :: t < t' < |items[1..]| ==> (items[1..][t'].id, items[1..][t'].date) != (id, date);
        assert (items[t + 1].id, items[t + 1].date) == (id, date);
        rest
      else if (items[0].id, items[0].date) == (id, date) then Some(items[0].status)
      else None
  }

  /** After one upsert the key of the item reads the item's status and every other key
      reads what it read before. */
  lemma UpsertStatusLookup(rows: seq<WorkoutStatus>, username: JsValue, item: StatusItem,
                           u: JsValue, id: string, date: int)
    requires UpsertStatus(rows, username, item).Some?
    ensures Lookup(UpsertStatus(rows, username, item).value, u, id, date)
         == if (u, id, date) == (username, item.id, item.date) then Some(item.status) else Lookup(rows, u, id, date)
  {
    var next := UpsertStatus(rows, username, item).value;
    var p := AtStatusKey(username, item.id, item.date);
    var q := AtStatusKey(u, id, date);
    var i := FirstIndex(rows, p);
    if i < |rows| {
      FirstIndexAfterUpdate(rows, i, rows[i].(status := item.status), q);
    } else {
      FirstIndexAfterAppend(rows, WorkoutStatus(username, item.id, item.status, item.date), q);
    }
  }

  /** When every save succeeds, each key listed for the user reads the status of its last
      occurrence in the list, and every other key reads what it read before. */
  lemma {:induction false} ApplyItemsLastWins(rows: seq<WorkoutStatus>, username: JsValue, items: seq<StatusItem>,
                                              u: JsValue, id: string, date: int)
    requires ApplyItems(rows, username, items).ok
    ensures Lookup(ApplyItems(rows, username, items).rows, u, id, date)
         == if u == username && LastStatus(items, id, date).Some? then LastStatus(items, id, date)
            else Lookup(rows, u, id, date)
    decreases |items|
  {
    if |items| > 0 {
      var next := UpsertStatus(rows, username, items[0]).value;
      ApplyItemsLastWins(next, username, items[1..], u, id, date);
      UpsertStatusLookup(rows, username, items[0], u, id, date);
    }
  }

  /** The invariant of the WorkoutStatus collection: every row valid, one row per key. */
  predicate StatusesInvariant(statuses: seq<WorkoutStatus>) {
    (forall i :: 0 <= i < |statuses| ==> ValidWorkoutStatus(statuses[i])) && UniqueKeys(statuses, StatusKey)
  }

  /** One upsert keeps the invariant. */
  lemma UpsertStatusKeepsInvariant(rows: seq<WorkoutStatus>, username: JsValue, item: StatusItem)
    requires StatusesInvariant(rows)
    requires UpsertStatus(rows, username, item).Some?
    ensures StatusesInvariant(UpsertStatus(rows, username, item).value)
  {
    var p := AtStatusKey(username, item.id, item.date);
    var i := FirstIndex(rows, p);
    if i < |rows| {
      UniqueKeysUpdate(rows, i, rows[i].(status := item.status), StatusKey);
    } else {
      var created := WorkoutStatus(username, item.id, item.status, item.date);
      forall j | 0 <= j < |rows|
        ensures StatusKey(rows[j]) != StatusKey(created)
      {
        assert !p(rows[j]);
      }
      UniqueKeysAppend(rows, created, StatusKey);
    }
  }

  /** The whole loop keeps the invariant, also when it stops at a failed save. */
  lemma {:induction false} ApplyItemsKeepsInvariant(rows: seq<WorkoutStatus>, username: JsValue, items: seq<StatusItem>)
    requires StatusesInvariant(rows)
    ensures StatusesInvariant(ApplyItems(rows, username, items).rows)
    decreases |items|
  {
    if |items| > 0 && UpsertStatus(rows, username, items[0]).Some? {
      UpsertStatusKeepsInvariant(rows, username, items[0]);
      ApplyItemsKeepsInvariant(UpsertStatus(rows, username, items[0]).value, username, items[1..]);
    }
  }
}
