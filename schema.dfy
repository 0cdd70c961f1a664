/** The application's tables (user_config, user_goal, training_config, exercise, workout,
    workout_exercise, user_workout) as row types, the database as an object holding one
    table per field, and the constraints the schema declares on them. */
module Schema {
  import opened Common
  import opened Tables

  /** A user id: the primary key of the user table, a string. */
  type UserId = string

  /** A clock value (targetDate); never inspected by the model. */
  type Timestamp = int

  /** user_config: the user's biometric settings. weight and height are double precision. */
  datatype UserConfig = UserConfig(
    userId: UserId, weightUnit: string, heightUnit: string, age: int, gender: string,
    weight: real, height: real, lang: string, activityLevel: string)

  /** user_goal: the user's goal. */
  datatype UserGoal = UserGoal(userId: UserId, primaryGoal: string, targetDate: Timestamp, targetWeight: real)

  /** training_config: the user's training preferences; the two tag lists are stored
      as comma-joined strings. */
  datatype TrainingConfig = TrainingConfig(
    userId: UserId, trainingFrequency: int, workoutDuration: int, experienceLevel: string,
    timePreference: string, preferredWorkoutTypes: string, availableEquipment: string)

  /** exercise: a catalog entry. */
  datatype Exercise = Exercise(name: string, image: string, videoUrl: string, muscleGroups: string, equipment: string)

  /** workout: a named routine header. */
  datatype Workout = Workout(name: string, duration: int)

  /** workout_exercise: one entry of a workout, with the exercise's name copied in. */
  datatype WorkoutExercise = WorkoutExercise(name: string, workoutId: int, exerciseId: int, sets: int, reps: int)

  /** user_workout: a workout assigned to a user on a day. */
  datatype UserWorkout = UserWorkout(userId: UserId, workoutId: int, assignedDay: string)

  // The unique constraints on userId of the three settings tables.

  ghost predicate OneConfigPerUser(recs: seq<Record<UserConfig>>) {
    forall i, j :: 0 <= i < j < |recs| ==> recs[i].value.userId != recs[j].value.userId
  }

  ghost predicate OneGoalPerUser(recs: seq<Record<UserGoal>>) {
    forall i, j :: 0 <= i < j < |recs| ==> recs[i].value.userId != recs[j].value.userId
  }

  ghost predicate OneTrainingConfigPerUser(recs: seq<Record<TrainingConfig>>) {
    forall i, j :: 0 <= i < j < |recs| ==> recs[i].value.userId != recs[j].value.userId
  }

  // The foreign keys.

  ghost predicate ConfigOwnersExist(recs: seq<Record<UserConfig>>, users: set<UserId>) {
    forall x :: x in recs ==> x.value.userId in users
  }

  ghost predicate GoalOwnersExist(recs: seq<Record<UserGoal>>, users: set<UserId>) {
    forall x :: x in recs ==> x.value.userId in users
  }

  ghost predicate TrainingConfigOwnersExist(recs: seq<Record<TrainingConfig>>, users: set<UserId>) {
    forall x :: x in recs ==> x.value.userId in users
  }

  /** workout_exercise.workoutId references workout.id; workout_exercise.exerciseId references exercise.id. */
  ghost predicate EntriesReferenceExisting(entries: seq<Record<WorkoutExercise>>, workoutIds: set<int>, exerciseIds: set<int>) {
    forall x :: x in entries ==> x.value.workoutId in workoutIds && x.value.exerciseId in exerciseIds
  }

  /** user_workout.userId references user.id; user_workout.workoutId references workout.id.
      No constraint relates assignedDay to anything. */
  ghost predicate AssignmentsReferenceExisting(assignments: seq<Record<UserWorkout>>, users: set<UserId>, workoutIds: set<int>) {
    forall x :: x in assignments ==> x.value.userId in users && x.value.workoutId in workoutIds
  }

  /** Every constraint the schema declares holds of these tables. */
  ghost predicate Consistent(
    users: set<UserId>, userConfigs: Table<UserConfig>, userGoals: Table<UserGoal>,
    trainingConfigs: Table<TrainingConfig>, exercises: Table<Exercise>, workouts: Table<Workout>,
    workoutExercises: Table<WorkoutExercise>, userWorkouts: Table<UserWorkout>)
  {
    && WellNumbered(userConfigs) && WellNumbered(userGoals) && WellNumbered(trainingConfigs)
    && WellNumbered(exercises) && WellNumbered(workouts) && WellNumbered(workoutExercises)
    && WellNumbered(userWorkouts)
    && OneConfigPerUser(userConfigs.records)
    && OneGoalPerUser(userGoals.records)
    && OneTrainingConfigPerUser(trainingConfigs.records)
    && ConfigOwnersExist(userConfigs.records, users)
    && GoalOwnersExist(userGoals.records, users)
    && TrainingConfigOwnersExist(trainingConfigs.records, users)
    && EntriesReferenceExisting(workoutExercises.records, Ids(workouts.records), Ids(exercises.records))
    && AssignmentsReferenceExisting(userWorkouts.records, users, Ids(workouts.records))
  }

  /** The database. Each field is one table; routers replace a field's value as they write. */
  class Db {
    var users: set<UserId>
    var userConfigs: Table<UserConfig>
    var userGoals: Table<UserGoal>
    var trainingConfigs: Table<TrainingConfig>
    var exercises: Table<Exercise>
    var workouts: Table<Workout>
    var workoutExercises: Table<WorkoutExercise>
    var userWorkouts: Table<UserWorkout>

    /** Every constraint the schema declares holds. */
    ghost predicate Valid()
      reads this
    {
      Consistent(users, userConfigs, userGoals, trainingConfigs, exercises, workouts, workoutExercises, userWorkouts)
    }

    /** A fresh database with the given registered users and empty application tables. */
    constructor (registered: set<UserId>)
      ensures Valid()
      ensures users == registered
      ensures userConfigs == Empty() && userGoals == Empty() && trainingConfigs == Empty()
      ensures exercises == Empty() && workouts == Empty() && workoutExercises == Empty()
      ensures userWorkouts == Empty()
    {
      users := registered;
      userConfigs, userGoals, trainingConfigs := Empty(), Empty(), Empty();
      exercises, workouts, workoutExercises := Empty(), Empty(), Empty();
      userWorkouts := Empty();
    }
  }
}
