/** The workout router: compose a workout from catalog exercises, delete it, fetch it. */
module WorkoutRouter {
  import opened Common
  import opened Tables
  import opened Schema

  /** One requested entry of a new workout. */
  datatype ExerciseInput = ExerciseInput(exerciseId: int, sets: int, reps: int)

  /** The input of `create`: the header fields and the ordered entries. */
  datatype CreateWorkoutInput = CreateWorkoutInput(name: string, duration: int, exercises: seq<ExerciseInput>)

  /** A fetched workout entry with its catalog exercise attached. */
  datatype EntryDetail = EntryDetail(entry: Record<WorkoutExercise>, exercise: Record<Exercise>)

  /** What `getById` returns: the header and its entries. */
  datatype WorkoutDetail = WorkoutDetail(workout: Record<Workout>, entries: seq<EntryDetail>)

  // ---------------------------------------------------------------------------
  // Input validation (workoutSchema extended to createWorkoutSchema)

  /** The entries the schema accepts. */
  predicate AcceptableEntry(e: ExerciseInput) {
    1 <= e.exerciseId && 1 <= e.sets <= 10 && 1 <= e.reps <= 100
  }

  /** The inputs the schema accepts. */
  predicate Acceptable(input: CreateWorkoutInput) {
    && |input.name| >= 1
    && 15 <= input.duration <= 120
    && |input.exercises| >= 1
    && forall k :: 0 <= k < |input.exercises| ==> AcceptableEntry(input.exercises[k])
  }

  /** The issues reported for entry number `i`, field by field. */
  function EntryIssues(e: ExerciseInput, i: nat): (r: seq<Issue>)
    ensures r == [] <==> AcceptableEntry(e)
    ensures forall x :: x in r ==> |x.path| == 3 && x.path[..2] == [Key("exercises"), Index(i)]
  {
    var at := [Key("exercises"), Index(i)];
    MinIssues(at + [Key("exerciseId")], e.exerciseId, 1, "Exercise ID is required")
    + RangeIssues(at + [Key("sets")], e.sets, 1, 10, "Sets must be at least 1", "Sets cannot exceed 10")
    + RangeIssues(at + [Key("reps")], e.reps, 1, 100, "Reps must be at least 1", "Reps cannot exceed 100")
  }

  /** The issues of entries `from`, `from + 1`, ... in order. */
  function EntriesIssues(es: seq<ExerciseInput>, from: nat): (r: seq<Issue>)
    ensures r == [] <==> forall k :: 0 <= k < |es| ==> AcceptableEntry(es[k])
    decreases |es|
  {
    if es == [] then []
    else
      var rest := EntriesIssues(es[1..], from + 1);
      assert (forall k :: 0 <= k < |es| ==> AcceptableEntry(es[k]))
         <==> AcceptableEntry(es[0]) && (forall k :: 0 <= k < |es[1..]| ==> AcceptableEntry(es[1..][k])) by {
        if AcceptableEntry(es[0]) && (forall k :: 0 <= k < |es[1..]| ==> AcceptableEntry(es[1..][k])) {
          forall k | 0 <= k < |es| ensures AcceptableEntry(es[k]) {
            if k > 0 { assert es[k] == es[1..][k - 1]; }
          }
        }
      }
      EntryIssues(es[0], from) + rest
  }

  /** All issues of a create input, in the order the schema checks its keys: name, duration,
      the length of the entry list, then each entry. Empty exactly when the schema accepts. */
  function CreateWorkoutIssues(input: CreateWorkoutInput): (r: seq<Issue>)
    ensures r == [] <==> Acceptable(input)
  {
    (if |input.name| < 1 then [Issue([Key("name")], Text("Workout name is required"))] else [])
    + RangeIssues([Key("duration")], input.duration, 15, 120,
                  "Workout duration must be at least 15 minutes", "Workout duration cannot exceed 120 minutes")
    + (if |input.exercises| < 1 then [Issue([Key("exercises")], Text("At least one exercise is required"))] else [])
    + EntriesIssues(input.exercises, 0)
  }

  // ---------------------------------------------------------------------------
  // The exercise lookup of `create`

  /** The requested exercise ids, one per entry, in entry order. */
  function EntryIds(es: seq<ExerciseInput>): seq<int> {
    seq(|es|, k requires 0 <= k < |es| => es[k].exerciseId)
  }

  /** The catalog rows whose id was requested (`findMany` with `inArray`). */
  function RequestedExercises(catalog: seq<Record<Exercise>>, ids: seq<int>): (r: seq<Record<Exercise>>)
    ensures forall x :: x in r <==> x in catalog && x.id in ids
  {
    Select(catalog, (x: Record<Exercise>) => x.id in ids)
  }

  /** The requested ids that were not found: the input ids, in input order and with their
      repetitions, minus those in `found`. */
  function MissingIds(ids: seq<int>, found: set<int>): (r: seq<int>)
    ensures forall x :: x in r <==> x in ids && x !in found
    ensures Subsequence(r, ids)
  {
    if ids == [] then []
    else
      var rest := MissingIds(ids[1..], found);
      if ids[0] in found then
        SubsequenceSkip(rest, ids);
        rest
      else
        assert ([ids[0]] + rest)[1..] == rest;
        [ids[0]] + rest
  }

  /** Every missing id is listed as often as it was requested; found ids are not listed. */
  lemma {:induction false} MissingIdsCounts(ids: seq<int>, found: set<int>)
    ensures forall x :: multiset(MissingIds(ids, found))[x] == if x in found then 0 else multiset(ids)[x]
  {
    if ids != [] {
      MissingIdsCounts(ids[1..], found);
      assert ids == [ids[0]] + ids[1..];
    }
  }

  /** Requested ids found among the requested rows are exactly those found in the whole
      catalog, so the missing ids can be read off the catalog. */
  lemma {:induction false} MissingFromCatalog(catalog: seq<Record<Exercise>>, ids: seq<int>)
    ensures MissingIds(ids, Ids(RequestedExercises(catalog, ids))) == MissingIds(ids, Ids(catalog))
  {
    var found := Ids(RequestedExercises(catalog, ids));
    forall x | x in ids ensures x in found <==> x in Ids(catalog) {
      if x in Ids(catalog) {
        var y :| y in catalog && y.id == x;
        assert y in RequestedExercises(catalog, ids);
      }
    }
    MissingIdsAgree(ids, found, Ids(catalog));
  }

  lemma {:induction false} MissingIdsAgree(ids: seq<int>, f: set<int>, g: set<int>)
    requires forall x :: x in ids ==> (x in f <==> x in g)
    ensures MissingIds(ids, f) == MissingIds(ids, g)
  {
    if ids != [] {
      var head := ids[0];
      assert head in ids;
      assert forall x :: x in ids[1..] ==> x in ids;
      MissingIdsAgree(ids[1..], f, g);
      if ids[0] in f {
        assert MissingIds(ids, f) == MissingIds(ids[1..], f);
        assert MissingIds(ids, g) == MissingIds(ids[1..], g);
      } else {
        assert MissingIds(ids, f) == [ids[0]] + MissingIds(ids[1..], f);
        assert MissingIds(ids, g) == [ids[0]] + MissingIds(ids[1..], g);
      }
    }
  }

  /** The child rows of `create`: for each entry, in order, the catalog row with its id is
      looked up among `existing`; the first entry whose lookup fails aborts with
      "Exercise with ID ... not found". */
  function ChildRows(workoutId: int, entries: seq<ExerciseInput>, existing: seq<Record<Exercise>>): (r: Result<seq<WorkoutExercise>>)
    ensures r.Success? <==> forall k :: 0 <= k < |entries| ==> entries[k].exerciseId in Ids(existing)
    ensures r.Failure? ==> r.error.ExerciseNotFound? && r.error.id !in Ids(existing)
    ensures r.Success? ==> |r.value| == |entries|
    ensures r.Success? ==> forall k :: 0 <= k < |entries| ==>
      && r.value[k].workoutId == workoutId
      && r.value[k].exerciseId == entries[k].exerciseId
      && r.value[k].sets == entries[k].sets
      && r.value[k].reps == entries[k].reps
      && exists x :: x in existing && x.id == entries[k].exerciseId && x.value.name == r.value[k].name
    decreases |entries|
  {
    if entries == [] then Success([])
    else
      var e := entries[0];
      match FindFirst(existing, (x: Record<Exercise>) => x.id == e.exerciseId)
      case None =>
        Failure(ExerciseNotFound(e.exerciseId))
      case Some(found) =>
        match ChildRows(workoutId, entries[1..], existing)
        case Failure(err) =>
          assert exists k :: 1 <= k < |entries| && entries[k].exerciseId !in Ids(existing) by {
            var k :| 0 <= k < |entries[1..]| && entries[1..][k].exerciseId !in Ids(existing);
            assert entries[k + 1].exerciseId !in Ids(existing);
          }
          Failure(err)
        case Success(rest) =>
          var row := WorkoutExercise(found.value.name, workoutId, found.id, e.sets, e.reps);
          assert forall k :: 1 <= k < |entries| ==> entries[k] == entries[1..][k - 1];
          Success([row] + rest)
  }

  /** The per-entry "Exercise with ID ... not found" failure cannot happen once the
      missing-id check has passed. */
  lemma {:induction false} EntryLookupNeverFails(workoutId: int, entries: seq<ExerciseInput>, catalog: seq<Record<Exercise>>)
    requires MissingIds(EntryIds(entries), Ids(RequestedExercises(catalog, EntryIds(entries)))) == []
    ensures ChildRows(workoutId, entries, RequestedExercises(catalog, EntryIds(entries))).Success?
  {
    var ids := EntryIds(entries);
    forall k | 0 <= k < |entries|
      ensures entries[k].exerciseId in Ids(RequestedExercises(catalog, ids))
    {
      assert ids[k] in ids;
      assert ids[k] !in MissingIds(ids, Ids(RequestedExercises(catalog, ids)));
    }
  }

  // ---------------------------------------------------------------------------
  // The procedures

  /** The rows `create` appends to workout_exercise: one per entry, in entry order, each with the
      next identity id, the new workout's id, the entry's exercise id, sets and reps, and the name
      of the catalog row with that id when the row was written. */
  ghost predicate AppendsEntries(before: Table<WorkoutExercise>, after: Table<WorkoutExercise>, workoutId: int,
                                 entries: seq<ExerciseInput>, catalog: seq<Record<Exercise>>)
  {
    && |after.records| == |before.records| + |entries|
    && after.records[..|before.records|] == before.records
    && forall k :: 0 <= k < |entries| ==>
      var x := after.records[|before.records| + k];
      && x.id == before.nextId + k
      && x.value.workoutId == workoutId
      && x.value.exerciseId == entries[k].exerciseId
      && x.value.sets == entries[k].sets
      && x.value.reps == entries[k].reps
      && entries[k].exerciseId in Ids(catalog)
      && x.value.name == Lookup(catalog, entries[k].exerciseId).value.name
  }

  /** The rows built for the entries, as `ChildRows` describes them, appended to the entry table. */
  lemma {:induction false} RowsAppended(before: Table<WorkoutExercise>, workoutId: int, entries: seq<ExerciseInput>,
                                        rows: seq<WorkoutExercise>, catalog: seq<Record<Exercise>>)
    requires WellNumbered(before)
    requires |rows| == |entries|
    requires forall k :: 0 <= k < |entries| ==>
      && rows[k].workoutId == workoutId
      && rows[k].exerciseId == entries[k].exerciseId
      && rows[k].sets == entries[k].sets
      && rows[k].reps == entries[k].reps
      && entries[k].exerciseId in Ids(catalog)
      && rows[k].name == Lookup(catalog, entries[k].exerciseId).value.name
    ensures WellNumbered(InsertAll(before, rows))
    ensures AppendsEntries(before, InsertAll(before, rows), workoutId, entries, catalog)
    ensures forall x :: x in InsertAll(before, rows).records ==>
              x in before.records || (x.value.workoutId == workoutId && x.value.exerciseId in Ids(catalog))
  {
    var after := InsertAll(before, rows);
    InsertAllFresh(before, rows);
    var n := |before.records|;
    forall x | x in after.records
      ensures x in before.records || (x.value.workoutId == workoutId && x.value.exerciseId in Ids(catalog))
    {
      var i :| 0 <= i < |after.records| && after.records[i] == x;
      if i < n {
        assert after.records[..n][i] == x;
      }
    }
  }

  /** The entry table after `create` has inserted the entry rows of a workout whose exercises
      all exist: each entry's exercise is looked up among the requested catalog rows, and the
      rows built from them are inserted in entry order. */
  function AddEntries(table: Table<WorkoutExercise>, workoutId: int, entries: seq<ExerciseInput>,
                      catalog: seq<Record<Exercise>>): Table<WorkoutExercise>
    requires MissingIds(EntryIds(entries), Ids(catalog)) == []
  {
    MissingFromCatalog(catalog, EntryIds(entries));
    EntryLookupNeverFails(workoutId, entries, catalog);
    InsertAll(table, ChildRows(workoutId, entries, RequestedExercises(catalog, EntryIds(entries))).value)
  }

  /** When no requested exercise is missing from the catalog, the entry rows are appended as
      `AppendsEntries` says, the table stays well numbered, and every appended row refers to the
      new workout and to a catalog exercise. */
  lemma {:induction false} EntriesAppended(before: Table<WorkoutExercise>, workoutId: int,
                                           entries: seq<ExerciseInput>, catalog: seq<Record<Exercise>>)
    requires WellNumbered(before) && Increasing(catalog)
    requires MissingIds(EntryIds(entries), Ids(catalog)) == []
    ensures var after := AddEntries(before, workoutId, entries, catalog);
      && WellNumbered(after)
      && AppendsEntries(before, after, workoutId, entries, catalog)
      && forall x :: x in after.records ==>
           x in before.records || (x.value.workoutId == workoutId && x.value.exerciseId in Ids(catalog))
  {
    var ids := EntryIds(entries);
    var existing := RequestedExercises(catalog, ids);
    MissingFromCatalog(catalog, ids);
    EntryLookupNeverFails(workoutId, entries, catalog);
    var rows := ChildRows(workoutId, entries, existing).value;
    forall k | 0 <= k < |entries|
      ensures entries[k].exerciseId in Ids(catalog)
      ensures rows[k].name == Lookup(catalog, entries[k].exerciseId).value.name
    {
      var c :| c in existing && c.id == entries[k].exerciseId && c.value.name == rows[k].name;
      IdIdentifies(catalog, c, Lookup(catalog, entries[k].exerciseId));
    }
    RowsAppended(before, workoutId, entries, rows, catalog);
  }

  /** `workout.create`: validate, check that every requested exercise exists, insert the header,
      then insert one entry row per requested exercise. Returns the header's id, name and duration. */
  method Create(db: Db, input: CreateWorkoutInput) returns (r: Result<Record<Workout>>)
    requires db.Valid()
    modifies db`workouts, db`workoutExercises
    ensures db.Valid()
    ensures !Acceptable(input) ==> r == Failure(InvalidInput(CreateWorkoutIssues(input)))
    ensures Acceptable(input) ==>
      var missing := MissingIds(EntryIds(input.exercises), Ids(old(db.exercises.records)));
      && (missing != [] ==> r == Failure(ExercisesNotFound(missing)))
      && (missing == [] ==> r.Success?)
    ensures r.Failure? ==> db.workouts == old(db.workouts) && db.workoutExercises == old(db.workoutExercises)
    ensures r.Success? ==>
      && r.value == Record(old(db.workouts.nextId), Workout(input.name, input.duration))
      && r.value.id !in Ids(old(db.workouts.records))
      && db.workouts == Insert(old(db.workouts), Workout(input.name, input.duration))
      && db.workoutExercises == AddEntries(old(db.workoutExercises), r.value.id, input.exercises, old(db.exercises.records))
  {
    var issues := CreateWorkoutIssues(input);
    if issues != [] {
      return Failure(InvalidInput(issues));
    }
    var exerciseIds := EntryIds(input.exercises);
    var existing := RequestedExercises(db.exercises.records, exerciseIds);
    var missing := MissingIds(exerciseIds, Ids(existing));
    MissingFromCatalog(db.exercises.records, exerciseIds);
    if missing != [] {
      return Failure(ExercisesNotFound(missing));
    }

    var header := Workout(input.name, input.duration);
    var workoutId := InsertWithEntries(db, header, input.exercises);
    r := Success(Record(workoutId, header));
  }

  /** The write half of `create`: insert the header, then one entry row per requested exercise,
      each copying the name of the catalog row found for it. */
  method InsertWithEntries(db: Db, header: Workout, entries: seq<ExerciseInput>)
    returns (workoutId: int)
    requires db.Valid()
    requires MissingIds(EntryIds(entries), Ids(db.exercises.records)) == []
    modifies db`workouts, db`workoutExercises
    ensures db.Valid()
    ensures workoutId == old(db.workouts.nextId) && workoutId !in Ids(old(db.workouts.records))
    ensures db.workouts == Insert(old(db.workouts), header)
    ensures db.workoutExercises == AddEntries(old(db.workoutExercises), workoutId, entries, old(db.exercises.records))
  {
    workoutId := db.workouts.nextId;
    HeaderAndEntriesInserted(db.users, db.userConfigs, db.userGoals, db.trainingConfigs, db.exercises,
                             db.workouts, db.workoutExercises, db.userWorkouts, header, entries);
    db.workouts, db.workoutExercises :=
      Insert(db.workouts, header), AddEntries(db.workoutExercises, workoutId, entries, db.exercises.records);
  }

  /** Inserting the header and then the entry rows keeps every schema constraint, and the
      header's id is fresh. */
  lemma HeaderAndEntriesInserted(
    users: set<UserId>, userConfigs: Table<UserConfig>, userGoals: Table<UserGoal>,
    trainingConfigs: Table<TrainingConfig>, exercises: Table<Exercise>, workouts: Table<Workout>,
    workoutExercises: Table<WorkoutExercise>, userWorkouts: Table<UserWorkout>, header: Workout, entries: seq<ExerciseInput>)
    requires Consistent(users, userConfigs, userGoals, trainingConfigs, exercises, workouts, workoutExercises, userWorkouts)
    requires MissingIds(EntryIds(entries), Ids(exercises.records)) == []
    ensures workouts.nextId !in Ids(workouts.records)
    ensures Consistent(users, userConfigs, userGoals, trainingConfigs, exercises, Insert(workouts, header),
                       AddEntries(workoutExercises, workouts.nextId, entries, exercises.records), userWorkouts)
  {
    InsertFresh(workouts, header);
    EntriesAppended(workoutExercises, workouts.nextId, entries, exercises.records);
  }

  /** Whether some assignment refers to the workout. */
  predicate Assigned(assignments: seq<Record<UserWorkout>>, id: int) {
    exists x :: x in assignments && x.value.workoutId == id
  }

  /** `workout.delete`: delete the workout's entries, then the header. Reports success even when
      no workout had that id. The header delete is refused by the user_workout foreign key when an
      assignment still refers to the workout; the entries are then already gone. */
  method Delete(db: Db, id: int) returns (r: Result<bool>)
    requires db.Valid()
    modifies db`workouts, db`workoutExercises
    ensures db.Valid()
    ensures db.workoutExercises.nextId == old(db.workoutExercises.nextId)
    ensures forall x :: x in db.workoutExercises.records <==> x in old(db.workoutExercises.records) && x.value.workoutId != id
    ensures Subsequence(db.workoutExercises.records, old(db.workoutExercises.records))
    ensures Assigned(old(db.userWorkouts.records), id) ==>
      r == Failure(ForeignKeyViolation("user_workout", "workoutId")) && db.workouts == old(db.workouts)
    ensures !Assigned(old(db.userWorkouts.records), id) ==>
      && r == Success(true)
      && db.workouts.nextId == old(db.workouts.nextId)
      && (forall x :: x in db.workouts.records <==> x in old(db.workouts.records) && x.id != id)
      && Subsequence(db.workouts.records, old(db.workouts.records))
  {
    var keepEntry := (x: Record<WorkoutExercise>) => x.value.workoutId != id;
    SelectWellNumbered(db.workoutExercises, keepEntry);
    db.workoutExercises := Table(Select(db.workoutExercises.records, keepEntry), db.workoutExercises.nextId);

    if Assigned(db.userWorkouts.records, id) {
      return Failure(ForeignKeyViolation("user_workout", "workoutId"));
    }
    var keepWorkout := (x: Record<Workout>) => x.id != id;
    var before := db.workouts;
    SelectWellNumbered(before, keepWorkout);
    db.workouts := Table(Select(before.records, keepWorkout), before.nextId);
    forall w | w in Ids(before.records) && w != id ensures w in Ids(db.workouts.records) {
      var y :| y in before.records && y.id == w;
      assert y in db.workouts.records;
    }
    r := Success(true);
  }

  /** `workout.getById`: the workout with its entries and their exercises, or "Workout not found". */
  function GetById(db: Db, id: int): (r: Result<WorkoutDetail>)
    reads db
    requires db.Valid()
    ensures r.Failure? <==> id !in Ids(db.workouts.records)
    ensures r.Failure? ==> r.error == WorkoutNotFound
    ensures r.Success? ==> r.value.workout in db.workouts.records && r.value.workout.id == id
    ensures r.Success? ==> forall x :: x in db.workoutExercises.records && x.value.workoutId == id <==>
                                        x in EntryRows(r.value.entries)
    ensures r.Success? ==> forall k :: 0 <= k < |r.value.entries| ==>
      r.value.entries[k].exercise in db.exercises.records &&
      r.value.entries[k].exercise.id == r.value.entries[k].entry.value.exerciseId
  {
    match FindFirst(db.workouts.records, (x: Record<Workout>) => x.id == id)
    case None =>
      Failure(WorkoutNotFound)
    case Some(w) =>
      var children := Select(db.workoutExercises.records, (x: Record<WorkoutExercise>) => x.value.workoutId == id);
      Success(WorkoutDetail(w, WithExercises(children, db.exercises.records)))
  }

  /** Each entry row with the catalog row its exercise id refers to, in order. */
  function WithExercises(children: seq<Record<WorkoutExercise>>, catalog: seq<Record<Exercise>>): (r: seq<EntryDetail>)
    requires forall x :: x in children ==> x.value.exerciseId in Ids(catalog)
    ensures EntryRows(r) == children
    ensures forall k :: 0 <= k < |r| ==>
      r[k].exercise in catalog && r[k].exercise.id == r[k].entry.value.exerciseId
  {
    var r := seq(|children|, k requires 0 <= k < |children| =>
                 EntryDetail(children[k], Lookup(catalog, children[k].value.exerciseId)));
    assert EntryRows(r) == children;
    r
  }

  /** The entry rows of a fetched workout. */
  function EntryRows(es: seq<EntryDetail>): seq<Record<WorkoutExercise>> {
    seq(|es|, k requires 0 <= k < |es| => es[k].entry)
  }
}
