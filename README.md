# Workout tracker: routers and schema

A model of the server side of a workout-tracking web application. The application keeps its data
in a relational database: per-user settings (`user_config`), goals (`user_goal`) and training
preferences (`training_config`); an exercise catalog (`exercise`); workouts (`workout`) made of
ordered entries (`workout_exercise`); and assignments of workouts to users on a weekday
(`user_workout`). Remote procedures ("routers") validate their input against a schema and read
and write those tables. A seed script fills the exercise catalog from a list.

The model is organised as follows:

- `common.dfy` (`Common`): optional values, results, and validation issues with their paths
  and messages. It also holds the errors a procedure can end with.
- `tables.dfy` (`Tables`): a table is a value holding its rows in insertion order and the next
  value of its identity column. The module has the statements the routers issue: single- and
  multi-row insert, a refused insert, select/delete by a condition, update by a condition,
  `findFirst`, and lookup by id.
- `schema.dfy` (`Schema`): the row types, the constraints the schema declares (unique `userId`
  in the three settings tables, and the foreign keys), and the database `Db`. `Db` is an
  object with one field per table, which procedures reassign as they write.
- `workout.dfy`, `training_config.dfy`, `user_goal.dfy`, `user_config.dfy`, `user_workout.dfy`:
  one module per router. Each procedure that writes is a module-level method taking the database
  `db: Db`, which it modifies. It keeps `Db.Valid()`
  (every declared constraint holds). Its new state is given by a function of the old state, and
  lemmas prove what the router promises about that function.
- `seed_exercises.dfy` (`SeedExercises`): the seed loop, as a method with a loop invariant
  tying it to the fold `Seeded`.

A signed-in user's id is a parameter of the procedures that read the session. They require that
the user exists, because authentication guarantees it. The database refuses what its
constraints forbid: an insert with a duplicate `userId` or a dangling reference, and a delete
that would leave a dangling reference. Such a refusal is a `Failure` of the procedure, and the
refused statement changes no rows. A refused insert has still drawn its value from the identity
sequence (`Tables.Refused`), as PostgreSQL sequences do.

## Model

| member | source | states |
|---|---|---|
| Common.MinIssues | src/server/api/routers/workout.ts:20 | a `.min(lo, msg)` check reports an issue exactly when the number is below `lo` |
| Common.RangeIssues | src/server/api/routers/workout.ts:21-24 | a `.min().max()` chain reports nothing exactly when the number lies in `[lo, hi]` |
| Common.EnumElementIssues | src/server/api/routers/training-config.ts:22-49 | an array of enum values reports nothing exactly when every element is an allowed option; each issue is an invalid-enum-value issue naming the options and an element of the array |
| Tables.Refused | src/server/db/schema.ts:122-128 | a refused insert keeps the rows; the id it drew is used up; the table stays well numbered |
| Tables.InsertFresh | src/server/api/routers/workout.ts:90-100 | a single-row insert hands out an id no row has, adds exactly that id, and keeps the ids increasing and below the counter |
| Tables.InsertAll | src/server/api/routers/workout.ts:126 | a multi-row insert keeps every old row in front and appends one row per value, in order, with consecutive ids from the counter |
| Tables.InsertAllFresh | src/server/api/routers/workout.ts:126 | a multi-row insert keeps the table well numbered, loses no id, and every row it adds has an id at or above the old counter |
| Tables.Select | src/server/db/seed-exercises.ts:20-23 | a selection holds exactly the rows meeting the condition, in table order (a subsequence), with increasing ids when the table has them |
| Tables.SelectEmpty | src/server/db/seed-exercises.ts:24 | nothing is selected exactly when no row meets the condition |
| Tables.FoundIsOnly | src/server/api/routers/user-config.ts:19-25 | when at most one row can meet the condition (a unique column), `findFirst` finds nothing exactly when nothing is selected, and otherwise finds the only selected row |
| Tables.SelectSingle | src/server/api/routers/training-config.ts:75 | when one row alone meets the condition, the selection is that row |
| Tables.SelectWellNumbered | src/server/api/routers/workout.ts:134-138 | a delete keeps the survivors' ids and order, keeps the table well numbered, and adds no id |
| Tables.IdIdentifies | src/server/db/schema.ts:178-185 | in a table with increasing ids, two rows with the same id are the same row |
| Tables.UpdateWhere | src/server/api/routers/user-goal.ts:42-45 | an update keeps the number of rows and every row's id |
| Tables.UpdateWhereUnchanged | src/server/api/routers/user-goal.ts:42-45 | an update that sets each matching row to the values it already has changes nothing |
| Tables.FindFirst | src/server/api/routers/user-goal.ts:37-39 | `findFirst` yields nothing exactly when no row meets the condition; otherwise it yields a row of the table that meets it |
| Tables.Lookup | src/server/api/routers/workout.ts:54-59 | a relational `with` join yields a row of the referenced table with the referenced id |
| Schema.Db.constructor | src/server/db/schema.ts:122-253 | a new database with empty application tables satisfies every declared constraint |
| WorkoutRouter.EntryIssues | src/server/api/routers/workout.ts:19-29 | an entry reports nothing exactly when its exercise id is at least 1, its sets lie in 1..10 and its reps in 1..100; each issue's path is `exercises[i].field` |
| WorkoutRouter.EntriesIssues | src/server/api/routers/workout.ts:18-30 | a list of entries reports nothing exactly when every entry is acceptable |
| WorkoutRouter.CreateWorkoutIssues | src/server/api/routers/workout.ts:8-32 | the create schema reports no issue exactly when the name is non-empty, the duration lies in 15..120, and the entry list is non-empty with every entry acceptable |
| WorkoutRouter.RequestedExercises | src/server/api/routers/workout.ts:75-77 | the fetched rows are exactly the catalog rows whose id was requested |
| WorkoutRouter.MissingIds | src/server/api/routers/workout.ts:79-82 | the missing ids are exactly the requested ids not found, in request order |
| WorkoutRouter.MissingIdsCounts | src/server/api/routers/workout.ts:80-82 | each missing id is listed as often as it was requested; a found id is never listed |
| WorkoutRouter.MissingFromCatalog | src/server/api/routers/workout.ts:75-82 | checking the requested ids against the fetched rows gives the same missing list as checking them against the whole catalog |
| WorkoutRouter.MissingIdsAgree | src/server/api/routers/workout.ts:80-82 | the missing list depends only on which requested ids are found |
| WorkoutRouter.ChildRows | src/server/api/routers/workout.ts:108-124 | the entry rows are built exactly when every entry's exercise was fetched; otherwise the first failure names an id that was not fetched. On success there is one row per entry, in order, with the workout id, the entry's exercise id, sets and reps, and the name of a fetched exercise with that id |
| WorkoutRouter.EntryLookupNeverFails | src/server/api/routers/workout.ts:112-116 | once the missing-id check has passed, "Exercise with ID ... not found" cannot be raised |
| WorkoutRouter.RowsAppended | src/server/api/routers/workout.ts:117-126 | inserting the built rows appends them after the old rows with consecutive ids and keeps the table well numbered |
| WorkoutRouter.EntriesAppended | src/server/api/routers/workout.ts:106-126 | the entry rows of a create whose exercises all exist are appended one per entry, in entry order, with consecutive fresh ids; each carries the new workout's id, the entry's exercise id, sets and reps, and that exercise's catalog name; every new row references the workout and an existing exercise |
| WorkoutRouter.HeaderAndEntriesInserted | src/server/api/routers/workout.ts:90-126 | inserting the header and then its entries keeps every schema constraint, and the header's id was unused |
| WorkoutRouter.InsertWithEntries | src/server/api/routers/workout.ts:90-128 | the header gets the next workout id and is appended; the entry rows are appended as `AddEntries` describes; the database stays valid |
| WorkoutRouter.Create | src/server/api/routers/workout.ts:70-129 | an invalid input fails with the schema's issues. Otherwise, if some requested exercise is missing, it fails with the missing ids (in request order) and writes nothing. Otherwise it succeeds with the header's fresh id, name and duration, and the header and its entries are stored |
| WorkoutRouter.Delete | src/server/api/routers/workout.ts:131-141 | every entry of the workout is removed and nothing else is. If an assignment still refers to the workout, the header delete is refused (the entries are already gone). Otherwise exactly the workout with that id is removed, and success is reported even when there was none |
| WorkoutRouter.GetById | src/server/api/routers/workout.ts:49-68 | it fails with "Workout not found" exactly when no workout has the id. Otherwise it returns that workout with exactly its entries, each joined with the catalog exercise it references |
| WorkoutRouter.WithExercises | src/server/api/routers/workout.ts:55-59 | each entry row is paired with the catalog row of its exercise id; the entries are kept in order |
| TrainingConfigRouter.TagListIssues | src/server/api/routers/training-config.ts:22-49 | a tag list reports nothing exactly when it is non-empty and every tag is an allowed option |
| TrainingConfigRouter.TrainingConfigIssues | src/server/api/routers/training-config.ts:7-50 | the schema reports no issue exactly when the frequency lies in 1..7, the duration in 15..120, the two enumerations hold allowed values, and the two tag lists are non-empty and drawn from their options |
| TrainingConfigRouter.Split | src/server/api/routers/training-config.ts:72-73 | reading a stored list back (the `split(",")` of src/app/(loggedIn)/settings/page.tsx, lines 134-135, the inverse of the join here) yields at least one piece, and no piece contains a comma |
| TrainingConfigRouter.JoinSplit | src/server/api/routers/training-config.ts:72-73 | joining the pieces of a split string gives the string back |
| TrainingConfigRouter.SplitPrefix | src/server/api/routers/training-config.ts:72-73 | a comma-free prefix is glued to the first piece of what follows |
| TrainingConfigRouter.SplitJoin | src/server/api/routers/training-config.ts:80-81 | a non-empty list of comma-free tags survives joining with commas and splitting again |
| TrainingConfigRouter.TagsCommaFree | src/server/api/routers/training-config.ts:22-49 | no tag the schema accepts contains a comma |
| TrainingConfigRouter.StoredTagsDecode | src/server/api/routers/training-config.ts:72-81 | an accepted tag list is recovered from its stored comma-joined form |
| TrainingConfigRouter.UpsertStoresOne | src/server/api/routers/training-config.ts:63-83 | after the upsert the caller has exactly one row, holding the input with its tag lists joined; an existing row keeps its id; `findFirst` finds that row; the table stays well numbered with one row per user |
| TrainingConfigRouter.UpdateStoresOne | src/server/api/routers/training-config.ts:67-75 | the update path overwrites the caller's only row in place and keeps its id |
| TrainingConfigRouter.InsertStoresOne | src/server/api/routers/training-config.ts:76-82 | the insert path appends the caller's only row |
| TrainingConfigRouter.UpsertIdempotent | src/server/api/routers/training-config.ts:63-83 | storing the same input twice leaves the table as storing it once |
| TrainingConfigRouter.UpsertKeepsOthers | src/server/api/routers/training-config.ts:75 | other users' rows are neither changed nor removed, and none is added |
| TrainingConfigRouter.UpsertKeepsOwners | src/server/db/schema.ts:159-172 | every row still belongs to a registered user |
| TrainingConfigRouter.UpsertConsistent | src/server/db/schema.ts:159-172 | storing the caller's preferences keeps every schema constraint |
| TrainingConfigRouter.Create | src/server/api/routers/training-config.ts:60-84 | an invalid input fails with the schema's issues and changes nothing; an accepted input succeeds, and the table becomes the upsert of the caller's preferences |
| TrainingConfigRouter.GetTrainingConfig | src/server/api/routers/training-config.ts:53-59 | it yields null exactly when the caller has no row; otherwise it yields the caller's only row |
| UserGoalRouter.UserGoalIssues | src/server/api/routers/user-goal.ts:7-24 | the schema reports no issue exactly when the goal is one of the five options, the date is valid and the weight is at least 0; at most one issue per key |
| UserGoalRouter.UpsertStoresOne | src/server/api/routers/user-goal.ts:37-51 | after the upsert the caller has exactly one goal row, holding the input; an existing row keeps its id; the table stays well numbered with one row per user |
| UserGoalRouter.UpdateStoresOne | src/server/api/routers/user-goal.ts:41-45 | the update through the found row's id overwrites that row and leaves every other row as it was |
| UserGoalRouter.UpdateOnlyRow | src/server/api/routers/user-goal.ts:45 | since ids are distinct, the update by id changes that row and no other |
| UserGoalRouter.InsertStoresOne | src/server/api/routers/user-goal.ts:46-50 | the insert path appends the caller's only goal row |
| UserGoalRouter.UpsertIdempotent | src/server/api/routers/user-goal.ts:37-51 | storing the same goal twice leaves the table as storing it once |
| UserGoalRouter.OverwriteAgain | src/server/api/routers/user-goal.ts:42-45 | repeating the same update changes nothing |
| UserGoalRouter.UpsertKeepsOthers | src/server/api/routers/user-goal.ts:45 | other users' goal rows are neither changed nor removed, and none is added |
| UserGoalRouter.UpdateKeepsOthers | src/server/api/routers/user-goal.ts:45 | the update through the caller's row leaves every other user's row in place |
| UserGoalRouter.UpsertKeepsOwners | src/server/db/schema.ts:143-153 | every goal row still belongs to a registered user |
| UserGoalRouter.UpsertConsistent | src/server/db/schema.ts:143-153 | storing the caller's goal keeps every schema constraint |
| UserGoalRouter.Create | src/server/api/routers/user-goal.ts:34-52 | an invalid input fails with the schema's issues and changes nothing; an accepted input succeeds, and the table becomes the upsert of the caller's goal |
| UserGoalRouter.GetUserGoal | src/server/api/routers/user-goal.ts:27-33 | it yields null exactly when the caller has no goal row; otherwise it yields the caller's only row |
| UserConfigRouter.CreateStoresOne | src/server/api/routers/user-config.ts:26-33 | a caller without settings gets exactly their row appended, with the next id; a caller with settings keeps the rows unchanged; afterwards the caller has a row, and the table stays well numbered with one row per user |
| UserConfigRouter.SecondCreateRefused | src/server/db/schema.ts:124-128 | a second create for the same caller, with any input, is refused by the unique `userId` and leaves the first row in place |
| UserConfigRouter.CreateConsistent | src/server/db/schema.ts:122-137 | inserting the caller's settings keeps every schema constraint |
| UserConfigRouter.Create | src/server/api/routers/user-config.ts:26-33 | it succeeds exactly when the caller had no settings row; otherwise it fails with the unique violation on `userId`; the table becomes `AfterCreate` of the old one |
| UserConfigRouter.GetUserConfig | src/server/api/routers/user-config.ts:19-25 | it yields null exactly when the caller has no row; otherwise it yields the caller's only row |
| UserWorkoutRouter.AfterAssign | src/server/api/routers/user-workout.ts:18-25 | every attempted assignment draws one id |
| UserWorkoutRouter.AssignConsistent | src/server/db/schema.ts:234-253 | an assignment keeps the table well numbered and every assignment's user and workout existing |
| UserWorkoutRouter.SameDayTwice | src/server/db/schema.ts:234-253 | two assignments of existing workouts to one user on one day are both stored, with consecutive ids: nothing limits a day to one workout |
| UserWorkoutRouter.Create | src/server/api/routers/user-workout.ts:7-28 | an unknown user fails on the `userId` foreign key, and an unknown workout on the `workoutId` key; otherwise the inserted row is returned with the next id and appended |
| UserWorkoutRouter.GetUserWorkouts | src/server/api/routers/user-workout.ts:31-46 | it returns exactly the given user's assignments, in table order, each with the workout it references |
| UserWorkoutRouter.WithWorkouts | src/server/api/routers/user-workout.ts:38-41 | each assignment is paired with the workout row it references; the assignments are kept in order |
| SeedExercises.StepFacts | src/server/db/seed-exercises.ts:20-35 | one iteration inserts the entry, with every column copied, exactly when its name is absent; afterwards the name is present and the old rows are kept |
| SeedExercises.ValuesInsert | src/server/db/seed-exercises.ts:25-31 | appending a row appends its values |
| SeedExercises.SeededExtends | src/server/db/seed-exercises.ts:18-36 | rows present before the seed are neither modified nor removed |
| SeedExercises.SeededValues | src/server/db/seed-exercises.ts:18-36 | the rows added are the first entries of each name not yet present, in list order, with their columns copied |
| SeedExercises.SeededNames | src/server/db/seed-exercises.ts:18-36 | afterwards every listed name is present, and no other name was added |
| SeedExercises.ListNamesCons | src/server/db/seed-exercises.ts:18 | the names of a list are its first name and the names of the rest |
| SeedExercises.SeededDistinct | src/server/db/seed-exercises.ts:19-24 | a catalog without duplicate names has none after the seed, even when the list repeats a name |
| SeedExercises.SeededNothingNew | src/server/db/seed-exercises.ts:24 | a seed whose names are all present changes nothing |
| SeedExercises.SeedIdempotent | src/server/db/seed-exercises.ts:18-36 | running the seed twice with the same list leaves the catalog as running it once |
| SeedExercises.SeededWellNumbered | src/server/db/seed-exercises.ts:25-31 | the seed keeps the catalog well numbered and only adds ids |
| SeedExercises.StepConsistent | src/server/db/schema.ts:178-185 | one iteration keeps every schema constraint |
| SeedExercises.Seed | src/server/db/seed-exercises.ts:18-36 | the loop leaves the catalog equal to the fold of `SeedStep` over the list, and the database valid |

## Left out

- `workout.getAll` (src/server/api/routers/workout.ts:35-47) lists every workout with its joined entries. It is `GetById` without the id filter and is not modelled separately.
- Timestamps: `createdAt` and `updatedAt` are not modelled, and neither is any other clock. `targetDate` is an opaque number, and `None` stands for a value that is not a valid date.
- Numbers: the schemas accept any number, fractional ones included (`z.number()` without `.int()`). The model's inputs are `int` wherever the column is an integer, so fractional inputs are excluded; `weight`, `height` and `targetWeight` are reals. The database refuses a fractional value for an integer column, and that refusal is not modelled. In `workout.create` a fractional `sets` or `reps` would be refused only at the entry insert (src/server/api/routers/workout.ts:126), after the header was stored, leaving a workout without entries; the model does not capture that outcome. The value ranges of the column types are not modelled either.
- The column length limits (`varchar(255)`) are not modelled. Neither are the schemas' rejections of inputs of the wrong JSON type, since the model's inputs are already typed.
- Authentication and sessions: the session user is a parameter, and it is assumed to be a registered user.
- Transactions and concurrency are not modelled. Each procedure runs alone, one statement after another, with no transaction, which is what the code does. So a refused header delete in `WorkoutRouter.Delete` keeps the already-deleted entries deleted. `workout.create` is not atomic either: its header insert and entry insert are separate statements. Nothing limits a user to one assignment per day (`UserWorkoutRouter.SameDayTwice`).
- WorkoutRouter.Create: the "Failed to create workout" branch (src/server/api/routers/workout.ts:102-104) is not modelled. An insert with `returning` always yields the inserted row, so that branch cannot be taken.
- WorkoutRouter.Create: error texts are not formatted. "Exercises not found with IDs: ..." is modelled as the list of missing ids.
- UserWorkoutRouter.Create: when both the user and the workout are unknown, the model reports the `userId` foreign key. Which violation the database reports first is its own choice.
- SeedExercises.Seed: reading and parsing the JSON file, logging, and the process exit (src/server/db/seed-exercises.ts:12-16, 32-44) are not modelled. The loop starts from the parsed list, and any id an entry carries is ignored, as the insert ignores it.
- WorkoutRouter.GetById: the entries are returned in table order. The database promises no order without `orderBy`, so the contract states only which entries are returned.
- UserWorkoutRouter.GetUserWorkouts: the assignments are returned in table order, which the database does not promise without `orderBy`. The contract states which assignments are returned, and that they are a subsequence of the table.
- The order of keys in a stored row, and the shape of the returned JSON objects, are not modelled.
