/** The training-config router: validate the caller's training preferences, store them (the
    two tag lists comma-joined) in the caller's single row, and read that row back. */
module TrainingConfigRouter {
  import opened Common
  import opened Tables
  import opened Schema

  /** The input of `create`. The two tag lists arrive as arrays of strings. */
  datatype TrainingConfigInput = TrainingConfigInput(
    trainingFrequency: int, workoutDuration: int, experienceLevel: string, timePreference: string,
    preferredWorkoutTypes: seq<string>, availableEquipment: seq<string>)

  const ExperienceLevels: seq<string> := ["beginner", "intermediate", "advanced"]
  const TimePreferences: seq<string> := ["morning", "afternoon", "evening", "flexible"]
  const WorkoutTypes: seq<string> :=
    ["strength", "cardio", "hiit", "yoga", "pilates", "crossfit", "bodyweight", "stretching"]
  const EquipmentTags: seq<string> :=
    ["dumbbells", "barbell", "kettlebells", "resistance_bands", "pull_up_bar", "bench", "treadmill", "none"]

  // ---------------------------------------------------------------------------
  // Input validation (trainingConfigSchema)

  /** The inputs the schema accepts. */
  predicate Acceptable(input: TrainingConfigInput) {
    && 1 <= input.trainingFrequency <= 7
    && 15 <= input.workoutDuration <= 120
    && input.experienceLevel in ExperienceLevels
    && input.timePreference in TimePreferences
    && |input.preferredWorkoutTypes| >= 1
    && (forall k :: 0 <= k < |input.preferredWorkoutTypes| ==> input.preferredWorkoutTypes[k] in WorkoutTypes)
    && |input.availableEquipment| >= 1
    && (forall k :: 0 <= k < |input.availableEquipment| ==> input.availableEquipment[k] in EquipmentTags)
  }

  /** The issues of one tag list: the length check, then one issue per tag outside the enumeration. */
  function TagListIssues(key: string, tags: seq<string>, options: seq<string>, minMsg: string): (r: seq<Issue>)
    ensures r == [] <==> |tags| >= 1 && forall k :: 0 <= k < |tags| ==> tags[k] in options
  {
    (if |tags| < 1 then [Issue([Key(key)], Text(minMsg))] else [])
    + EnumElementIssues([Key(key)], tags, options, 0)
  }

  /** All issues of a create input, key by key in the schema's order. An enumeration with an
      error map reports the map's message whatever is wrong with the value. */
  function TrainingConfigIssues(input: TrainingConfigInput): (r: seq<Issue>)
    ensures r == [] <==> Acceptable(input)
  {
    RangeIssues([Key("trainingFrequency")], input.trainingFrequency, 1, 7,
                "Training frequency must be at least 1 day", "Training frequency cannot exceed 7 days")
    + RangeIssues([Key("workoutDuration")], input.workoutDuration, 15, 120,
                  "Workout duration must be at least 15 minutes", "Workout duration cannot exceed 120 minutes")
    + (if input.experienceLevel in ExperienceLevels then []
       else [Issue([Key("experienceLevel")], Text("Please select your experience level"))])
    + (if input.timePreference in TimePreferences then []
       else [Issue([Key("timePreference")], Text("Please select your preferred workout time"))])
    + TagListIssues("preferredWorkoutTypes", input.preferredWorkoutTypes, WorkoutTypes,
                    "Please select at least one workout type")
    + TagListIssues("availableEquipment", input.availableEquipment, EquipmentTags,
                    "Please select your available equipment")
  }

  // ---------------------------------------------------------------------------
  // The comma-joined encoding of the tag lists

  /** `xs.join(",")`. */
  function Join(xs: seq<string>): string
    decreases |xs|
  {
    if |xs| == 0 then ""
    else if |xs| == 1 then xs[0]
    else xs[0] + "," + Join(xs[1..])
  }

  /** `s.split(",")`, as the settings page reads the stored lists back
      (src/app/(loggedIn)/settings/page.tsx:134-135): the pieces between commas. Never an empty
      list (`"".split(",")` is `[""]`), and no piece holds a comma. */
  function Split(s: string): (r: seq<string>)
    ensures |r| >= 1
    ensures forall k :: 0 <= k < |r| ==> ',' !in r[k]
    decreases |s|
  {
    if s == [] then [""]
    else if s[0] == ',' then [""] + Split(s[1..])
    else
      var rest := Split(s[1..]);
      [[s[0]] + rest[0]] + rest[1..]
  }

  /** Splitting a stored string and joining the pieces again gives the stored string back. */
  lemma {:induction false} JoinSplit(s: string)
    ensures Join(Split(s)) == s
    decreases |s|
  {
    if s != [] {
      JoinSplit(s[1..]);
      var rest := Split(s[1..]);
      if s[0] == ',' {
        assert Split(s) == [""] + rest;
        assert (([""] + rest)[1..]) == rest;
      } else {
        assert Split(s) == [[s[0]] + rest[0]] + rest[1..];
        if |rest| > 1 {
          assert ([[s[0]] + rest[0]] + rest[1..])[1..] == rest[1..];
          assert Join(rest) == rest[0] + "," + Join(rest[1..]);
        }
      }
      assert s == [s[0]] + s[1..];
    }
  }

  /** A comma-free prefix joins the first piece of what follows it. */
  lemma {:induction false} SplitPrefix(a: string, b: string)
    requires ',' !in a
    ensures Split(a + b) == [a + Split(b)[0]] + Split(b)[1..]
    decreases |a|
  {
    var r := Split(b);
    if a != [] {
      var s := a + b;
      assert s[0] == a[0] && s[1..] == a[1..] + b;
      assert a[0] in a;
      SplitPrefix(a[1..], b);
      var rest := Split(s[1..]);
      assert rest == [a[1..] + r[0]] + r[1..];
      assert Split(s) == [[a[0]] + rest[0]] + rest[1..];
      assert [a[0]] + (a[1..] + r[0]) == a + r[0];
    } else {
      assert a + b == b;
      assert a + r[0] == r[0];
      assert [r[0]] + r[1..] == r;
    }
  }

  /** Joining a non-empty list of comma-free tags and splitting the result gives the list back,
      order and repetitions included. */
  lemma {:induction false} SplitJoin(xs: seq<string>)
    requires |xs| >= 1
    requires forall k :: 0 <= k < |xs| ==> ',' !in xs[k]
    ensures Split(Join(xs)) == xs
    decreases |xs|
  {
    var head := xs[0];
    if |xs| == 1 {
      SplitPrefix(head, "");
      assert head + "" == head;
    } else {
      SplitJoin(xs[1..]);
      var tail := "," + Join(xs[1..]);
      assert Join(xs) == head + tail;
      SplitPrefix(head, tail);
      assert tail[1..] == Join(xs[1..]);
      assert Split(tail) == [""] + xs[1..];
      assert head + "" == head;
      assert xs == [head] + xs[1..];
    }
  }

  /** No tag the schema accepts contains a comma. */
  lemma TagsCommaFree(t: string)
    requires t in WorkoutTypes || t in EquipmentTags
    ensures ',' !in t
  {
  }

  /** An accepted tag list survives being stored and read back with `split(",")`. */
  lemma StoredTagsDecode(tags: seq<string>, options: seq<string>)
    requires options == WorkoutTypes || options == EquipmentTags
    requires |tags| >= 1 && forall k :: 0 <= k < |tags| ==> tags[k] in options
    ensures Split(Join(tags)) == tags
  {
    forall k | 0 <= k < |tags| ensures ',' !in tags[k] {
      TagsCommaFree(tags[k]);
    }
    SplitJoin(tags);
  }

  // ---------------------------------------------------------------------------
  // The stored row and the upsert

  /** The row values stored for `user`. */
  function Stored(user: UserId, input: TrainingConfigInput): TrainingConfig {
    TrainingConfig(user, input.trainingFrequency, input.workoutDuration, input.experienceLevel,
                   input.timePreference, Join(input.preferredWorkoutTypes), Join(input.availableEquipment))
  }

  /** `where(eq(trainingConfig.userId, user))`. */
  function OwnedBy(user: UserId): Record<TrainingConfig> -> bool {
    (x: Record<TrainingConfig>) => x.value.userId == user
  }

  /** `set({...input, preferredWorkoutTypes: joined, availableEquipment: joined})`: every column
      but userId takes the input's value. */
  function Overwrite(input: TrainingConfigInput): TrainingConfig -> TrainingConfig {
    (v: TrainingConfig) => v.(trainingFrequency := input.trainingFrequency, workoutDuration := input.workoutDuration,
            experienceLevel := input.experienceLevel, timePreference := input.timePreference,
            preferredWorkoutTypes := Join(input.preferredWorkoutTypes),
            availableEquipment := Join(input.availableEquipment))
  }

  /** The table after `create` has stored an accepted input: the caller's rows are updated in
      place when a row of theirs exists, otherwise one row is inserted. */
  function Upsert(t: Table<TrainingConfig>, user: UserId, input: TrainingConfigInput): Table<TrainingConfig> {
    if FindFirst(t.records, OwnedBy(user)).Some? then Table(UpdateWhere(t.records, OwnedBy(user), Overwrite(input)), t.nextId)
    else Insert(t, Stored(user, input))
  }

  /** The caller's rows. */
  function RowsOf(recs: seq<Record<TrainingConfig>>, user: UserId): seq<Record<TrainingConfig>> {
    Select(recs, OwnedBy(user))
  }

  /** After the upsert the caller has exactly one row, holding the input; the table keeps its
      numbering and its one-row-per-user constraint; an existing row keeps its id. */
  lemma UpsertStoresOne(t: Table<TrainingConfig>, user: UserId, input: TrainingConfigInput)
    requires WellNumbered(t) && OneTrainingConfigPerUser(t.records)
    ensures var u := Upsert(t, user, input);
      && WellNumbered(u)
      && OneTrainingConfigPerUser(u.records)
      && |RowsOf(u.records, user)| == 1
      && RowsOf(u.records, user)[0].value == Stored(user, input)
      && (forall x :: x in RowsOf(t.records, user) ==> RowsOf(u.records, user)[0].id == x.id)
      && FindFirst(u.records, OwnedBy(user)) == Some(RowsOf(u.records, user)[0])
  {
    var u := Upsert(t, user, input);
    var found := FindFirst(t.records, OwnedBy(user));
    if found.Some? {
      var i :| 0 <= i < |t.records| && t.records[i] == found.value;
      UpdateStoresOne(t, user, input, i);
    } else {
      InsertStoresOne(t, user, input);
    }
    var again := FindFirst(u.records, OwnedBy(user));
    var y := RowsOf(u.records, user)[0];
    assert y in RowsOf(u.records, user);
    assert again.Some?;
    assert again.value in RowsOf(u.records, user);
  }

  /** The update path: the caller's row `i` is overwritten in place. */
  lemma UpdateStoresOne(t: Table<TrainingConfig>, user: UserId, input: TrainingConfigInput, i: nat)
    requires WellNumbered(t) && OneTrainingConfigPerUser(t.records)
    requires i < |t.records| && t.records[i].value.userId == user
    ensures var u := Table(UpdateWhere(t.records, OwnedBy(user), Overwrite(input)), t.nextId);
      && WellNumbered(u)
      && OneTrainingConfigPerUser(u.records)
      && RowsOf(u.records, user) == [Record(t.records[i].id, Stored(user, input))]
      && RowsOf(t.records, user) == [t.records[i]]
  {
    var u := Table(UpdateWhere(t.records, OwnedBy(user), Overwrite(input)), t.nextId);
    assert forall j :: 0 <= j < |u.records| ==> u.records[j].value.userId == t.records[j].value.userId;
    assert u.records[i] == Record(t.records[i].id, Stored(user, input));
    SelectSingle(u.records, OwnedBy(user), i);
    SelectSingle(t.records, OwnedBy(user), i);
  }

  /** The insert path: the caller had no row, and one is appended. */
  lemma InsertStoresOne(t: Table<TrainingConfig>, user: UserId, input: TrainingConfigInput)
    requires WellNumbered(t) && OneTrainingConfigPerUser(t.records)
    requires forall x :: x in t.records ==> x.value.userId != user
    ensures var u := Insert(t, Stored(user, input));
      && WellNumbered(u)
      && OneTrainingConfigPerUser(u.records)
      && RowsOf(u.records, user) == [Record(t.nextId, Stored(user, input))]
      && RowsOf(t.records, user) == []
  {
    var u := Insert(t, Stored(user, input));
    InsertFresh(t, Stored(user, input));
    assert u.records == t.records + [Record(t.nextId, Stored(user, input))];
    forall j | 0 <= j < |t.records| ensures t.records[j].value.userId != user {
      assert t.records[j] in t.records;
    }
    SelectSingle(u.records, OwnedBy(user), |t.records|);
    SelectEmpty(t.records, OwnedBy(user));
  }

  /** Storing the same input twice leaves the table as storing it once. */
  lemma UpsertIdempotent(t: Table<TrainingConfig>, user: UserId, input: TrainingConfigInput)
    ensures Upsert(Upsert(t, user, input), user, input) == Upsert(t, user, input)
  {
    var u := Upsert(t, user, input);
    var w := Overwrite(input);
    if FindFirst(t.records, OwnedBy(user)).Some? {
      assert forall j :: 0 <= j < |u.records| && OwnedBy(user)(u.records[j]) ==> w(u.records[j].value) == u.records[j].value;
      var x := FindFirst(t.records, OwnedBy(user)).value;
      var i :| 0 <= i < |t.records| && t.records[i] == x;
      assert OwnedBy(user)(u.records[i]);
    } else {
      var last := Record(t.nextId, Stored(user, input));
      assert u.records == t.records + [last];
      assert last in u.records;
    }
    assert UpdateWhere(u.records, OwnedBy(user), w) == u.records;
  }

  /** Rows of other users are neither changed nor removed, and none is added. */
  lemma UpsertKeepsOthers(t: Table<TrainingConfig>, user: UserId, input: TrainingConfigInput)
    ensures forall x: Record<TrainingConfig> :: x.value.userId != user ==> (x in Upsert(t, user, input).records <==> x in t.records)
  {
    var u := Upsert(t, user, input);
    if FindFirst(t.records, OwnedBy(user)).Some? {
      forall x: Record<TrainingConfig> | x.value.userId != user ensures x in u.records <==> x in t.records {
        if x in u.records {
          var j :| 0 <= j < |u.records| && u.records[j] == x;
          assert t.records[j] == x;
        }
        if x in t.records {
          var j :| 0 <= j < |t.records| && t.records[j] == x;
          assert u.records[j] == x;
        }
      }
    } else {
      assert u.records == t.records + [Record(t.nextId, Stored(user, input))];
    }
  }

  /** Every stored row still belongs to a registered user when the caller is one. */
  lemma UpsertKeepsOwners(t: Table<TrainingConfig>, users: set<UserId>, user: UserId, input: TrainingConfigInput)
    requires TrainingConfigOwnersExist(t.records, users) && user in users
    ensures TrainingConfigOwnersExist(Upsert(t, user, input).records, users)
  {
    var u := Upsert(t, user, input);
    if FindFirst(t.records, OwnedBy(user)).Some? {
      forall x | x in u.records ensures x.value.userId in users {
        var j :| 0 <= j < |u.records| && u.records[j] == x;
        assert t.records[j] in t.records;
      }
    } else {
      assert u.records == t.records + [Record(t.nextId, Stored(user, input))];
    }
  }

  /** Storing the caller's preferences keeps every schema constraint. */
  lemma UpsertConsistent(
    users: set<UserId>, userConfigs: Table<UserConfig>, userGoals: Table<UserGoal>,
    trainingConfigs: Table<TrainingConfig>, exercises: Table<Exercise>, workouts: Table<Workout>,
    workoutExercises: Table<WorkoutExercise>, userWorkouts: Table<UserWorkout>, user: UserId, input: TrainingConfigInput)
    requires Consistent(users, userConfigs, userGoals, trainingConfigs, exercises, workouts, workoutExercises, userWorkouts)
    requires user in users
    ensures Consistent(users, userConfigs, userGoals, Upsert(trainingConfigs, user, input), exercises, workouts,
                       workoutExercises, userWorkouts)
  {
    UpsertStoresOne(trainingConfigs, user, input);
    UpsertKeepsOwners(trainingConfigs, users, user, input);
  }

  // ---------------------------------------------------------------------------
  // The procedures

  /** `trainingConfig.create` for the signed-in `user`: validate, then update the caller's row
      in place when there is one, otherwise insert it. */
  method Create(db: Db, user: UserId, input: TrainingConfigInput) returns (r: Result<()>)
    requires db.Valid() && user in db.users
    modifies db`trainingConfigs
    ensures db.Valid()
    ensures !Acceptable(input) ==>
      r == Failure(InvalidInput(TrainingConfigIssues(input))) && db.trainingConfigs == old(db.trainingConfigs)
    ensures Acceptable(input) ==>
      r == Success(()) && db.trainingConfigs == Upsert(old(db.trainingConfigs), user, input)
  {
    var issues := TrainingConfigIssues(input);
    if issues != [] {
      return Failure(InvalidInput(issues));
    }
    var existing := FindFirst(db.trainingConfigs.records, OwnedBy(user));
    UpsertConsistent(db.users, db.userConfigs, db.userGoals, db.trainingConfigs, db.exercises,
                     db.workouts, db.workoutExercises, db.userWorkouts, user, input);
    if existing.Some? {
      db.trainingConfigs := Table(UpdateWhere(db.trainingConfigs.records, OwnedBy(user), Overwrite(input)),
                                  db.trainingConfigs.nextId);
    } else {
      db.trainingConfigs := Insert(db.trainingConfigs, Stored(user, input));
    }
    r := Success(());
  }

  /** `trainingConfig.getTrainingConfig` for the signed-in `user`: the caller's row, or null. */
  function GetTrainingConfig(db: Db, user: UserId): (r: Option<Record<TrainingConfig>>)
    reads db
    requires db.Valid()
    ensures r.None? <==> RowsOf(db.trainingConfigs.records, user) == []
    ensures r.Some? ==> RowsOf(db.trainingConfigs.records, user) == [r.value]
  {
    FoundIsOnly(db.trainingConfigs.records, OwnedBy(user));
    FindFirst(db.trainingConfigs.records, OwnedBy(user))
  }
}
