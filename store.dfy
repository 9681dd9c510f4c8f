/** The MongoDB database the server talks to: its seven collections, each a table of
    documents in natural order that the handlers replace as they save and delete. */
module Store {

  import opened Documents
  import Accounts
  import Activity
  import Nutrients
  import Weights
  import Workouts

  class Db {
    var users: seq<User>
    var dailyLogs: seq<DailyLog>
    var nutrientLogs: seq<NutrientLog>
    var goals: seq<NutrientGoals>
    var weightLogs: seq<WeightLog>
    var workouts: seq<Workout>
    var statuses: seq<WorkoutStatus>

    /** What the modelled handlers keep true of every collection: unique usernames, one log
        per user and day, one goals document per user, the workout cap and indexes, one
        status per (user, workout, date). Every document passes its schema, except that a
        weight log updated by `updateOne`, which runs no validators, is only known to hold a
        number (see `Weights.WeightLogsInvariant`). */
    ghost predicate Valid()
      reads this
    {
      && Accounts.UsersInvariant(users)
      && Activity.LogsInvariant(dailyLogs)
      && Nutrients.NutrientLogsInvariant(nutrientLogs)
      && Nutrients.GoalsInvariant(goals)
      && Weights.WeightLogsInvariant(weightLogs)
      && Workouts.WorkoutsInvariant(workouts)
      && Workouts.StatusesInvariant(statuses)
    }

    /** A fresh, empty database. */
    constructor ()
      ensures Valid()
      ensures users == [] && dailyLogs == [] && nutrientLogs == [] && goals == []
      ensures weightLogs == [] && workouts == [] && statuses == []
    {
      users := [];
      dailyLogs := [];
      nutrientLogs := [];
      goals := [];
      weightLogs := [];
      workouts := [];
      statuses := [];
    }
  }
}
