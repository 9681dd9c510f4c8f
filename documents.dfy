/** The documents of the seven collections, the schema checks `save()` runs on them, and the
    outcome of a handler: the response it sends and the collection it leaves behind. Field
    values are kept as the JavaScript values the handler assigned. */
module Documents {

  import opened JsValues

  // ---------------------------------------------------------------- responses

  /** The response a handler sends: a status with the `error` (or `message`) text of its
      JSON body, or nothing at all when the handler's promise rejects outside its `try`. */
  datatype Reply = Response(status: int, message: string) | NoResponse

  /** A handler's effect on one collection. */
  datatype Outcome<T> = Outcome(reply: Reply, rows: seq<T>)

  /** A handler's effect on two collections (a document and its dependants). */
  datatype Outcome2<S, T> = Outcome2(reply: Reply, parents: seq<S>, children: seq<T>)

  /** The status code of a reply; 0 when no response is sent. */
  function StatusOf(r: Reply): int {
    match r
    case Response(status, _) => status
    case NoResponse => 0
  }

  // ---------------------------------------------------------------- schema paths

  /** A required `String` path: Mongoose's required validator also refuses "". */
  predicate IsRequiredString(v: JsValue) {
    v.Str? && v.s != ""
  }

  /** A required `Number` path with `min: lo`. */
  predicate IsNumberAtLeast(v: JsValue, lo: real) {
    v.Num? && lo <= v.n
  }

  /** A required `Number` path with `min: lo, max: hi`. */
  predicate IsNumberWithin(v: JsValue, lo: real, hi: real) {
    v.Num? && lo <= v.n <= hi
  }

  /** An optional `Number` path with `min: lo`: absent, null, or a number no less than lo. */
  predicate IsOptionalNumberAtLeast(v: JsValue, lo: real) {
    v == Undefined || v == Null || IsNumberAtLeast(v, lo)
  }

  /** A required `Date` path: a time value or a non-empty date string. */
  predicate IsRequiredDate(v: JsValue) {
    v.Num? || (v.Str? && v.s != "")
  }

  /** A required `String` path with an `enum` list. */
  predicate IsOneOf(v: JsValue, options: seq<string>) {
    v.Str? && v.s in options
  }

  // ---------------------------------------------------------------- users

  /** A document of the `User` model (HP.js:29-37). */
  datatype User = User(
    username: JsValue,
    password: JsValue,
    dob: JsValue,
    height: JsValue,
    weight: JsValue,
    gender: JsValue,
    goal: JsValue)

  predicate ValidUser(u: User) {
    && IsRequiredString(u.username)
    && IsRequiredDate(u.dob)
    && IsRequiredString(u.password)
    && u.height.Num?
    && u.weight.Num?
    && IsRequiredString(u.gender)
    && IsRequiredString(u.goal)
  }

  // ---------------------------------------------------------------- daily logs

  const WorkoutKinds: seq<string> := [
    "None", "Back Workouts", "Chest Workouts", "Leg Workouts", "Arm Workouts",
    "Core Workouts", "Cardio Workouts", "Full-Body Workouts",
    "Flexibility and Mobility Workouts"]

  /** A document of the `DailyLog` model (HP.js:267-288); `date` is a time value. */
  datatype DailyLog = DailyLog(
    username: JsValue,
    date: int,
    steps: JsValue,
    workout: JsValue,
    workoutDuration: JsValue,
    sleepHours: JsValue)

  predicate ValidDailyLog(l: DailyLog) {
    && IsRequiredString(l.username)
    && IsNumberAtLeast(l.steps, 0.0)
    && IsOneOf(l.workout, WorkoutKinds)
    && IsNumberAtLeast(l.workoutDuration, 0.0)
    && IsNumberWithin(l.sleepHours, 0.0, 24.0)
  }

  // ---------------------------------------------------------------- nutrients

  /** A document of the `NutrientLog` model (HP.js:473-483). */
  datatype NutrientLog = NutrientLog(
    username: JsValue,
    date: int,
    calories: JsValue,
    protein: JsValue,
    fats: JsValue,
    carbohydrates: JsValue,
    water: JsValue)

  predicate ValidNutrientLog(l: NutrientLog) {
    && IsRequiredString(l.username)
    && IsNumberAtLeast(l.calories, 0.0)
    && IsNumberAtLeast(l.protein, 0.0)
    && IsNumberAtLeast(l.fats, 0.0)
    && IsNumberAtLeast(l.carbohydrates, 0.0)
    && IsNumberAtLeast(l.water, 0.0)
  }

  /** The six goal fields of the `NutrientGoals` model, in schema order. */
  datatype GoalValues = GoalValues(
    caloriesGoal: JsValue,
    proteinGoal: JsValue,
    fatsGoal: JsValue,
    carbohydratesGoal: JsValue,
    waterGoal: JsValue,
    weightGoal: JsValue)

  /** A document of the `NutrientGoals` model (HP.js:486-496). */
  datatype NutrientGoals = NutrientGoals(username: JsValue, goals: GoalValues)

  /** The schema default of every goal path is `true`, which the `Number` path casts to 1. */
  const GoalDefault: JsValue := Num(1.0)

  predicate ValidGoalValues(g: GoalValues) {
    && IsOptionalNumberAtLeast(g.caloriesGoal, 0.0)
    && IsOptionalNumberAtLeast(g.proteinGoal, 0.0)
    && IsOptionalNumberAtLeast(g.fatsGoal, 0.0)
    && IsOptionalNumberAtLeast(g.carbohydratesGoal, 0.0)
    && IsOptionalNumberAtLeast(g.waterGoal, 0.0)
    && IsOptionalNumberAtLeast(g.weightGoal, 0.0)
  }

  predicate ValidNutrientGoals(d: NutrientGoals) {
    IsRequiredString(d.username) && ValidGoalValues(d.goals)
  }

  // ---------------------------------------------------------------- weight

  /** A document of the `weightLog` model (HP.js:958-964). */
  datatype WeightLog = WeightLog(username: JsValue, date: int, weight: JsValue)

  predicate ValidWeightLog(l: WeightLog) {
    IsRequiredString(l.username) && IsNumberWithin(l.weight, 30.0, 300.0)
  }

  // ---------------------------------------------------------------- workouts

  const Intensities: seq<string> := ["Low", "Medium", "High"]

  /** A document of the `Workout` model (HP.js:1129-1136); `id` is its ObjectId. */
  datatype Workout = Workout(
    id: string,
    username: JsValue,
    name: JsValue,
    exercises: JsValue,
    duration: JsValue,
    intensity: JsValue,
    date: int)

  predicate ValidWorkout(w: Workout) {
    && IsRequiredString(w.username)
    && IsRequiredString(w.name)
    && IsRequiredString(w.exercises)
    && IsNumberAtLeast(w.duration, 0.0)
    && IsOneOf(w.intensity, Intensities)
  }

  const StatusValues: seq<string> := ["No", "Yes"]

  /** A document of the `WorkoutStatus` model (HP.js:1335-1358). */
  datatype WorkoutStatus = WorkoutStatus(
    username: JsValue,
    workoutId: string,
    status: JsValue,
    date: int)

  predicate ValidWorkoutStatus(s: WorkoutStatus) {
    IsRequiredString(s.username) && IsOneOf(s.status, StatusValues)
  }
}
