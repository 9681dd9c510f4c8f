# Fitness tracker backend: a verified model

The modelled system is an Express server over MongoDB (through Mongoose). Users register, sign in and
edit their profiles. They keep one activity log, one nutrient log and one weight log per
day, set nutrient goals, keep up to ten named workout plans, and tick off workout statuses.
Every request handler is one sequential read-then-write against a collection. This project
treats each collection as an in-memory table: a sequence of documents in natural order.
It models each state-changing handler as:

- a **specification function** from the old collection and the request to an `Outcome`:
  the reply (status code and message, or no response at all) and the collection left behind;
- an **imperative method** on the class `Store.Db`, which holds the seven collections as
  fields. The method does what the handler does, step by step. It is proved to leave exactly
  the reply and collection of its specification function, and to keep `Db.Valid()`.

The read-only handlers that are modelled (sign-in, get-step-progress and the weekly
nutrient totals) have only a specification function, or a loop over a sequence.

The model covers the handlers of `HP.js` and the six drafts of some of them (`complexity.js`,
`complexity2.js`, `generated.js`, `generated2.js`, `lab3ToImprove.js`, `lab3Improve.js`).

Modules:

- `JsValues`: the scalar values (undefined, null, boolean, number, string) a request field can hold and their truthiness (ToBoolean, section 9.2
  of ECMA-262 5.1). Also the two merge rules the handlers use, `a || b` and
  `a !== undefined ? a : b`.
- `DayKeys`: the day keys as integer millisecond arithmetic. `setUTCHours(0,0,0,0)` gives
  the day's first instant, `Day(t)·msPerDay` (section 15.9.1.2 of ECMA-262 5.1).
  `setHours(0,0,0,0)` minus the time-zone offset uses an offset that is a fixed parameter.
- `Tables`: `findOne`, `countDocuments`, `deleteMany` and `findOneAndDelete` over a sequence,
  and unique indexes.
- `Documents`: the seven schemas as datatypes, and the validators `save()` runs as predicates.
- `Accounts`, `Activity`, `Nutrients`, `Weights`, `Workouts`: one specification function per
  handler, the invariant of each collection, and the lemmas.
- `Store`: the database class. `Server`: the handlers of `HP.js` as methods.
- `Generated`, `Generated2`, `Lab3Improve`: the drafts that differ from `HP.js`.
  `complexity.js`, `complexity2.js` and `lab3ToImprove.js` repeat the code of `HP.js`, so one
  function models each pair, and the rows below cite both files.

Boundaries of the model:

- The library versions are those the code is written against: Mongoose 5 (the
  `useNewUrlParser`/`useUnifiedTopology` options, `nModified`, `omitUndefined`) and Express 4.

- bcrypt is the parameter `hash: string -> string`. `bcrypt.compare(p, h)` holds exactly when
  `hash(p)` is `h`, and hashing a value that is not a string throws.
- The clock is a parameter `Clock(now, tzOffsetMin)`. A `logDate` arrives already parsed, as
  `Option<int>` milliseconds.
- ObjectIds that the driver assigns are parameters.

## Model

| member | source | states |
|---|---|---|
| JsValues.MergeRulesDiffer | HP.js:170-174 | `x || y` and `x !== undefined ? x : y` differ exactly when x is a falsy value other than undefined (0, "", false, null) and differs from y |
| JsValues.IfDefinedIdempotent | HP.js:879-892 | applying an `!== undefined` merge twice with the same value stores what applying it once does |
| DayKeys.UtcMidnight | HP.js:977-978 | the log-weight key is a day boundary and the input lies in the day it starts |
| DayKeys.LocalDayKey | HP.js:342-347 | local midnight minus the offset is a UTC day boundary, and the local wall-clock time lies in the day it starts |
| DayKeys.UtcMidnightOfDay | HP.js:978 | a boundary k is the UTC midnight of t exactly when t lies in [k, k + 1 day) |
| DayKeys.UtcMidnightNormalises | HP.js:977-978 | the key is a multiple of 86 400 000, no later than the input and less than one day before it, and normalising it again changes nothing |
| DayKeys.SameUtcKeyIffSameDay | HP.js:983-986 | two instants get the same log-weight key exactly when they lie in the same UTC day |
| DayKeys.LocalDayKeyIsUtcMidnightOfLocalTime | complexity2.js:9-14 | the local key is the UTC midnight of the local time, and lies the offset before local midnight |
| DayKeys.KeysAgreeOnlyAtUtc | HP.js:345-347 | at offset 0 the local key is the UTC key; at 60 minutes west the epoch falls under the previous day |
| Tables.FirstIndex | HP.js:104 | `findOne` returns the first matching document in natural order, or nothing when none matches |
| Tables.Count | HP.js:1142-1144 | `countDocuments` is zero exactly when nothing matches, and at most the collection size |
| Tables.DeleteMany | HP.js:252 | `deleteMany` keeps exactly the non-matching documents, and removes as many as match |
| Tables.DeleteManyMultiset | HP.js:252 | `deleteMany` keeps every copy of a non-matching document and no copy of a matching one, so it is exact also when equal documents are stored |
| Tables.RemoveAt | HP.js:245 | removing one document keeps the others in order |
| Accounts.Register | HP.js:47-84 | 400 "Username is already taken." exactly when the username exists; 201 exactly when it is new and the user passes the schema, appending one user with the hashed password; otherwise unchanged, with 400 or 500 |
| Server.Register | complexity.js:1-38 | the register handler leaves the reply and users of `Accounts.Register` and keeps the database valid |
| Accounts.RegisterKeepsInvariant | complexity.js:6-28 | registration keeps usernames unique and every user valid |
| Accounts.RegisterStoresHashOnly | complexity.js:13-25 | after a 201 the old users are untouched and the new user stores `hash(password)`, not the plaintext |
| Accounts.SignIn | HP.js:99-123 | an unknown username and a wrong password for a known user both give 400 "Invalid username or password."; a non-string password for a known user gives 500; only 200, 400 or 500 are sent |
| Accounts.SignInAcceptsExactlyTheStoredHash | HP.js:104-118 | with unique usernames, sign-in succeeds exactly when the user's stored password is the hash of the one given |
| Accounts.RegisterThenSignIn | HP.js:1677-1683 | a user who has just registered can sign in with the same password |
| Accounts.UpdateUserProfile | HP.js:151-188 | 404 "User not found" exactly when the username is unknown; for a known user and a password that hashes, 200 exactly when the merged user passes the schema, replacing that user (the one `findOne` returns) by the merge; a truthy non-string password gives 500; otherwise nothing changes |
| Accounts.MergeProfileFields | HP.js:163-175 | dob, weight, height, gender and goal change only to a truthy supplied value; the password becomes `hash(newPassword)` only for a truthy new password; the username never changes |
| Accounts.UpdateUserProfileKeepsInvariant | HP.js:170-178 | the profile update keeps usernames unique and every user valid |
| Server.UpdateUserProfile | HP.js:157-186 | the handler hashes the new password first, then merges the fields, and leaves the reply and users of `Accounts.UpdateUserProfile` |
| Accounts.DeleteUserAccount | HP.js:235-265 | 400 for an empty username; 404 with nothing deleted for an unknown one; otherwise one user fewer and exactly the other users' daily logs kept |
| Accounts.DeleteUserAccountRemovesExactlyTheUser | HP.js:245-252 | after the delete no user of that name is left, every other user remains and usernames stay unique |
| Server.DeleteUserAccount | HP.js:239-258 | the handler deletes the user, then that user's logs, and leaves the replies and collections of `Accounts.DeleteUserAccount` |
| Activity.LogActivity | HP.js:329-398 | 400 when a field is falsy (0 included), collection unchanged; 200 exactly when a log of the user lies in [key, key + 1 day), overwriting its four measurements in place; 201 exactly when none does, appending one log dated key; 500 with no change when the schema refuses |
| Activity.DayKeyedHasOneLogPerDay | HP.js:267-288 | a collection with day-boundary dates and a unique (username, date) pair holds at most one log per user and UTC day |
| Activity.OnDayIsExactKey | HP.js:351-357 | on such a collection the range lookup finds exactly the log with that (username, key) |
| Activity.LogActivityKeepsInvariant | HP.js:351-392 | log-activity keeps every log valid and at most one log per user and day |
| Activity.DeleteManyKeepsLogsInvariant | HP.js:252 | removing a user's logs keeps the invariant of the rest |
| Server.LogActivity | HP.js:334-397 | the handler leaves the reply and logs of `Activity.LogActivity` and keeps the database valid |
| Activity.EarliestIndex | HP.js:304 | `findOne({username}).sort({date: 1})` finds a log of the user dated no later than any other of theirs, or nothing when the user has none |
| Activity.LatestIndex | HP.js:305 | `sort({date: -1})` finds a log of the user dated no earlier than any other of theirs |
| Activity.GetStepProgress | HP.js:295-327 | 400 without a username; 404 when the user has no log; otherwise the progress is the latest log's steps minus the earliest's |
| Activity.EarliestLogIsUnique | HP.js:304-313 | with one log per user and day, the earliest log is unique, so the order of equal dates cannot change the progress |
| Nutrients.LogNutrientsAsWritten | HP.js:759-773 | as written: 400 exactly when a field is falsy; otherwise no response, and the collection is never changed |
| Nutrients.TemporalDeadZoneDropsValidRequests | complexity2.js:5-14 | every request that passes the presence check gets no response as written, and 200, 201 or 500 from the corrected handler |
| Nutrients.LogNutrients | complexity2.js:1-62 | corrected: 400 when a field is falsy; 200 exactly when a log of the user lies in [key, key + 1 day), overwriting its five nutrient fields; 201 exactly when none does, appending one log dated key; 500 with no change when the schema refuses |
| Nutrients.NutrientsOnDayIsExactKey | complexity2.js:17-23 | on a day-keyed collection the range lookup finds exactly the log with that (username, key) |
| Nutrients.LogNutrientsKeepsInvariant | complexity2.js:25-57 | the corrected handler keeps every log valid and at most one log per user and day |
| Server.LogNutrients | HP.js:774-819 | the corrected handler leaves the reply and logs of `Nutrients.LogNutrients` and keeps the database valid |
| Nutrients.TotalNonNegative | HP.js:631-638 | a total of a field that the schema keeps non-negative is non-negative |
| Nutrients.WeeklyTotals | HP.js:634-638 | the `forEach` loop accumulates the protein, carbohydrate and fat totals of the logs in order |
| Nutrients.SetNutrientGoals | HP.js:859-925 | 400 without a username; 201 exactly when the user has no goals document and the new one is valid, appending it with defaults for missing fields; for a user with goals, 200 exactly when the merge into the document `findOne` returns is valid, replacing that document by the merge, else 500; 500 leaves the collection unchanged |
| Server.SetNutrientGoals | lab3ToImprove.js:1-87 | the handler reassigns the six fields of the existing document in place, or inserts one, and leaves the reply and documents of `Nutrients.SetNutrientGoals` |
| Nutrients.MergeGoalsFieldwise | lab3ToImprove.js:22-40 | each merged goal field is the supplied value when it is not undefined, and the stored value otherwise |
| Nutrients.MergeGoalsIdempotent | HP.js:879-892 | merging the same values twice stores what merging once does; merging nothing changes nothing |
| Nutrients.SetNutrientGoalsUpdateInPlace | lab3ToImprove.js:42-50 | the update path keeps the number of goal documents; a request with no goal field leaves the document exactly as it was, with 200 |
| Nutrients.UpdatedGoalsStayPut | lab3ToImprove.js:17-42 | after an update the same document is still the user's first, and merging the request into it again changes nothing |
| Nutrients.CreatedGoalsStayPut | lab3ToImprove.js:17-70 | after a create the new document is the user's first, and merging the request into it changes nothing |
| Nutrients.SetNutrientGoalsTwiceIsOnce | lab3ToImprove.js:19-78 | sending the same request twice stores what sending it once does |
| Nutrients.SetNutrientGoalsKeepsInvariant | lab3ToImprove.js:54-78 | a document is created only for a user who has none, so each user keeps at most one valid goals document |
| Weights.LogWeight | HP.js:968-1028 | 400 when username or weight is falsy; with a log at the key and a number: 400 "same" exactly when that log already holds the weight, with no change, and otherwise 200 replacing that log's weight; 500 for a non-number; without a log at the key: 201 exactly when the new log is valid, appending it, and 500 with no change otherwise |
| Weights.LogWeightKeepsInvariant | HP.js:983-1015 | log-weight keeps day-boundary dates and at most one log per (username, key) |
| Weights.SameDayWeightsUpdate | HP.js:977-1007 | a second, different weight of the same user in the same UTC day updates the log the first created |
| Weights.LogWeightUpdateSkipsBounds | HP.js:992-995 | `updateOne` runs no validators: a stored 70 can become 500, outside the schema's 30..300 |
| Server.LogWeight | HP.js:971-1021 | the handler leaves the reply and logs of `Weights.LogWeight` and keeps the database valid |
| Workouts.LogWorkout | HP.js:1171-1229 | 400 for a falsy field, a negative duration or an unknown intensity, in that order; a plan the schema refuses gives 500; a valid plan gives 500 when the user already owns ten, 400 "must be unique" when the name is taken, and 201 exactly otherwise, appending exactly that plan; nothing changes except on 201 |
| Workouts.LogWorkoutKeepsInvariant | HP.js:1138-1151 | with a fresh ObjectId, log-workout keeps plans valid, ids and (username, name) unique, and no user above ten plans |
| Server.LogWorkout | HP.js:1175-1212 | the handler leaves the reply and plans of `Workouts.LogWorkout` and keeps the database valid |
| Workouts.DeleteWorkout | HP.js:1298-1333 | 400 for a falsy id; 500 with no change for a truthy id that is not a string (no ObjectId cast); 404 exactly when no plan has that id; 200 exactly when one does, removing it and exactly the statuses with that workout id; otherwise nothing changes |
| Workouts.DeleteWorkoutRemovesExactlyThePlan | HP.js:1312-1321 | after the delete no plan has the id, every other plan remains, no status refers to the id, and the invariant holds |
| Workouts.DeleteWorkoutKeepsStatusesInvariant | HP.js:1321 | the cascade keeps one valid status row per key |
| Workouts.CountRemoveAt | HP.js:1312 | removing a plan never raises a user's plan count |
| Server.DeleteWorkout | HP.js:1305-1327 | the handler leaves the replies and collections of `Workouts.DeleteWorkout` and keeps the database valid |
| Workouts.UpsertStatus | HP.js:1413-1437 | one iteration either keeps the row count, overwriting a status, or appends the new row; it fails exactly when the row is invalid |
| Workouts.UpsertStatusFrame | HP.js:1413-1425 | one upsert keeps the keys of existing rows and changes only the row with the item's key |
| Workouts.ApplyItems | HP.js:1405-1439 | the loop never shrinks the collection |
| Workouts.ApplyItemsFrame | HP.js:1405-1439 | the loop keeps every existing row's key and leaves rows whose key no item lists unchanged |
| Workouts.UpdateWorkoutStatus | HP.js:1390-1451 | 400 for a falsy username or a missing or empty list, with no change; otherwise the rows the loop leaves, including the saves before a failed one, with 200 exactly when every save succeeds and 500 exactly when one fails |
| Workouts.LastStatus | HP.js:1405-1406 | the status of the last item with a key, or none when no item has it |
| Workouts.UpsertStatusLookup | HP.js:1413-1425 | after one upsert the item's key reads the item's status and every other key reads as before |
| Workouts.ApplyItemsLastWins | HP.js:1405-1439 | when every save succeeds, after the loop each listed key reads the status of its last occurrence in the list, and every other key reads as before |
| Workouts.UpsertStatusKeepsInvariant | HP.js:1423-1437 | one upsert keeps one valid row per (username, workoutId, date) |
| Workouts.ApplyItemsKeepsInvariant | HP.js:1405-1450 | the loop keeps the invariant, also when it stops at a failed save |
| Server.UpsertOne | HP.js:1412-1437 | one iteration finds the row with the item's key and sets its status, or creates the row; it reports failure exactly when the save fails and then changes nothing, otherwise the rest of the loop continues from the new rows |
| Server.SaveStatuses | HP.js:1405-1439 | the `for` loop leaves the rows and success flag of `Workouts.ApplyItems`, stopping at the first failed save |
| Server.UpdateWorkoutStatus | HP.js:1394-1444 | the handler checks the request, runs the loop and leaves the reply and rows of `Workouts.UpdateWorkoutStatus`, keeping the database valid |
| Store.Db.constructor | HP.js:39-1358 | the seven collections of the `mongoose.model` declarations (lines 39, 290, 483, 496, 964, 1153 and 1358) start empty, and the empty database is valid |
| Generated.AssignIfTruthyIsMerge | generated.js:14-23 | the five `if (x) user.x = x` statements and the conditional re-hash store what the `||` merge of HP.js stores, for every user and request |
| Generated.UpdateProfile | generated.js:1-36 | 404 "User not found" exactly when the username is unknown; for a known user and a password that hashes, 200 "Profile updated successfully" exactly when the conditionally assigned user passes the schema, replacing that user; a truthy non-string password gives 500; otherwise nothing changes |
| Generated.UpdateProfileAgreesWithMerge | generated.js:14-29 | the draft leaves the same users and status as HP.js's handler for every request; only the success message differs |
| Generated.UpdateProfileKeepsInvariant | generated.js:7-26 | the draft handler keeps every user valid and usernames unique |
| Generated.UpdateUserProfile | generated.js:7-26 | the fields are assigned one statement at a time, then the user is saved, leaving the reply and users of `Generated.UpdateProfile` and a valid database |
| Generated2.LogNutrientsAsWritten | generated2.js:16-18 | as written, every request ends in 500 and nothing is saved |
| Generated2.LogNutrients | generated2.js:11-56 | with `date` declared: no 400 path; 200 exactly when the schema accepts the values and a log has exactly that (username, date), overwriting only the five nutrient fields; 201 exactly when none has it, appending one log; 500 with no change |
| Generated2.UndeclaredDateRefusesEveryRequest | generated2.js:12-18 | every request the schema accepts, which the intended handler saves with 200 or 201, gets 500 as written |
| Generated2.OverwriteKeepsKey | generated2.js:22-28 | `Object.assign` sets the five nutrient fields and keeps username and date |
| Generated2.LogNutrientsKeepsInvariant | generated2.js:18-46 | the exact-key upsert keeps every log valid and at most one log per (username, key) |
| Generated2.AgreesWithRangeLookupAtUtc | generated2.js:17-18 | for a request with every field truthy, on a day-keyed collection with the clock at UTC, the exact lookup stores what HP.js's range lookup stores |
| Generated2.LogNutrientsHandler | generated2.js:16-52 | the handler with `date` declared leaves the reply and logs of `Generated2.LogNutrients` and keeps the database valid |
| Lab3Improve.GoalList | lab3Improve.js:17-24 | the six goal fields, in request order |
| Lab3Improve.HasAtLeastOneGoalIff | lab3Improve.js:17-30 | the `.some(value !== undefined)` check fails exactly when no goal field was sent |
| Lab3Improve.UpsertGoals | lab3Improve.js:1-64 | 400 "Valid username is required."; 400 "At least one goal field must be provided."; 200 exactly when the sent goals pass the update validators (and, for a new document, the username is a string), merging the sent fields into the user's document or inserting a document with only the sent fields; there is no 201; otherwise nothing changes |
| Lab3Improve.MergeGoalsValid | lab3Improve.js:43-47 | over valid stored goals, the merged goals pass the validators exactly when the supplied ones do |
| Lab3Improve.UpsertAgreesWithFindThenSave | lab3Improve.js:33-56 | on a valid collection, for a named user and some goal, the upsert succeeds exactly when the find-then-save handler gives 200 or 201; for a user with goals both store the same; for a new user the find-then-save document is the upserted one with the defaults filled in |
| Lab3Improve.UpsertGoalsKeepsInvariant | lab3Improve.js:33-49 | the upsert keeps at most one valid goals document per user |
| Lab3Improve.SetNutrientGoalsHandler | lab3Improve.js:12-57 | the handler runs the presence loop, then one upsert, leaving the reply and documents of `Lab3Improve.UpsertGoals` and a valid database |

## Left out

- Express routing, body parsing, static files, `app.listen`, the MongoDB connection and console
  logging. Only the reply's status and message and the collections are modelled.
- Database and network failures. A write that the store refuses appears only as the schema
  validation, or the save hook, that refuses it.
- Concurrency. Each request runs alone, so the check-then-act races of the workout cap and of
  every find-then-save upsert are not modelled.
- Object and array request values. `bodyParser.json()`, the extended `urlencoded` parser and
  Express's query parser can hand a handler an array or an object. Mongoose 5 reads an array
  on a `String` path as `$in` and passes an object with `$` keys through as query operators,
  so `?username=ann&username=bob` makes delete-user-account remove one account and both users'
  daily logs. Every contract is over scalar fields only.
- Casting. `Number` paths accept only numbers and `String` paths only non-empty strings: the
  string-to-number, boolean and ObjectId casts of Mongoose are not modelled. `Date` paths
  (`IsRequiredDate`) accept every number and every non-empty string, so a `dob` of "abc",
  which Mongoose's Date cast refuses with a 500, is stored by the model. A `duration` sent
  as a numeric string is compared as a number only when it is one.
- Date parsing. `new Date(logDate)` on a date string is not modelled: a date arrives as a
  number of milliseconds. The time-zone offset is one fixed number, so daylight-saving
  changes are not modelled. The `logDate ? … : new Date()` test is approximated by the
  presence of a parsed date.
- Floating point. Sums are exact reals. The averages of get-weekly-nutrients and
  get-monthly-nutrients (a division by a possibly zero count) and the `toFixed` of the
  workout progress are not modelled.
- The read-only endpoints (check-username, get-user-profile, get-old-password,
  verify-old-password, get-daily-log, the calorie, nutrient, weight, workout and
  workout-status queries) and `populate`. Exceptions: the step delta of get-step-progress
  and the `forEach` totals of get-weekly-nutrients. The weekly `weeklyWorkouts` counting
  dictionary is not modelled either.
- Workouts.StatusItem: every item of update-workout-status carries an `id` and a parsed
  `date`. An item without `date` is created with the schema default (the current time), and
  one without `id` fails the required `workoutId` check, a 500 inside the loop; neither case
  is modelled. Nor is a truthy `updatedWorkouts` that is not an array: an object or a number
  makes the `for…of` throw, and a string fails the `workoutId` check on its first character,
  so each ends in 500 with nothing saved.
- delete-daily-log and update-workout: they are not among the modelled handlers.
- save-workout-status: it refers to the undeclared `workoutId` and `status`.
- The supertest suite at the end of `HP.js`. It redeclares `mongoose` and `app`, so it serves
  as evidence for properties (`Accounts.RegisterThenSignIn`) and is not modelled as code.
- bcrypt internals: the salt and the cost factor. `hash` is a function parameter.
- The `details` field of 500 replies, and the bodies of success replies (the saved
  documents).
- A handler promise that rejects outside its `try` sends no response; it is modelled as
  `NoResponse` for that request. Express 4 does not catch the rejection. Before Node 15 the
  request hangs and the server goes on; from Node 15 on the unhandled rejection ends the
  process, so every later request fails too. That exit is not modelled.
- Weights.LogWeight: `nModified === 0` is read as Mongoose 5 reports it, where storing the same
  weight modifies nothing. From Mongoose 6 on the result has `modifiedCount` instead,
  `result.nModified` is `undefined`, `undefined === 0` is false, and every update answers 200.
- Workouts.LogWorkout: Mongoose runs the schema validators before the pre-save hook, so an
  invalid plan gets 500 before the count is taken. The model keeps that order; a refused
  plan gets the same 500 either way.
- Workouts.LogWorkoutKeepsInvariant, Server.LogWorkout: the ObjectId is a parameter, and
  the invariant is kept only when it is fresh, which the driver guarantees.
- Lab3Improve.UpsertGoals: the success message depends on `isNew` of the returned document.
  That is false for every document `findOneAndUpdate` returns, so the message is always the
  "updated" one. Under Mongoose 5 an upsert writes no defaults (`setDefaultsOnInsert` is off),
  so an inserted document holds only the goals sent; from Mongoose 6 on it would hold the
  defaults too, and `omitUndefined` no longer exists.
- Activity.GetStepProgress: stored steps are numbers, as the schema guarantees. Among logs
  with equal dates MongoDB's choice is left open; `Activity.EarliestLogIsUnique` shows that
  it cannot matter on a valid collection.
- Nutrients.SetNutrientGoals: the schema default `true` of each goal path is cast to 1 by the
  `Number` path, so a missing goal in a new document is 1.

## Findings

| source | as written | input that shows it | evidently intended | confidence | as-written member | corrected member |
|---|---|---|---|---|---|---|
| HP.js:769-772 | `utcDate = localDate.utc;` assigns to `utcDate` before its `const` declaration on the next line. That is a ReferenceError in the temporal dead zone, thrown outside the `try`, so no response is sent and nothing is saved | any request with all six fields truthy, e.g. username "ann", calories 500, protein 30, fats 10, carbohydrates 60, water 2 (`Nutrients.TemporalDeadZoneDropsValidRequests`) | compute the local-midnight key on line 770 and run the upsert | high; not executed | Nutrients.LogNutrientsAsWritten | Nutrients.LogNutrients |
| complexity2.js:11-14 | the same assignment before the `const` declaration | the same request (`Nutrients.TemporalDeadZoneDropsValidRequests`) | the same key and upsert | high; not executed | Nutrients.LogNutrientsAsWritten | Nutrients.LogNutrients |
| generated2.js:12-18 | the declaration of `date` is commented out, so the lookup's filter throws a ReferenceError inside the `try`, and every request gets 500 | any request the schema accepts, e.g. username "ann", calories 500, protein 30, fats 10, carbohydrates 60, water 2 (`Generated2.UndeclaredDateRefusesEveryRequest`) | `date` is the instant of `logDate` or now, with its UTC time of day zeroed, as the commented lines say | high; not executed | Generated2.LogNutrientsAsWritten | Generated2.LogNutrients |
