/** The user-goal router: validate the caller's goal, store it in the caller's single goal row,
    and read that row back. */
module UserGoalRouter {
  import opened Common
  import opened Tables
  import opened Schema

  /** The input of `create`. `targetDate` is `None` when the value is not a valid date. */
  datatype UserGoalInput = UserGoalInput(primaryGoal: string, targetDate: Option<Timestamp>, targetWeight: real)

  const Goals: seq<string> := ["lose_weight", "gain_muscle", "maintain", "improve_endurance", "general_fitness"]

  // ---------------------------------------------------------------------------
  // Input validation (userGoalSchema)

  /** The inputs the schema accepts. A target weight of zero is accepted. */
  predicate Acceptable(input: UserGoalInput) {
    && input.primaryGoal in Goals
    && input.targetDate.Some?
    && input.targetWeight >= 0.0
  }

  /** All issues of a create input, key by key in the schema's order. */
  function UserGoalIssues(input: UserGoalInput): (r: seq<Issue>)
    ensures r == [] <==> Acceptable(input)
    ensures |r| <= 3
  {
    (if input.primaryGoal in Goals then [] else [Issue([Key("primaryGoal")], Text("Please select your primary goal"))])
    + (if input.targetDate.Some? then [] else [Issue([Key("targetDate")], Text("Please enter a valid target date"))])
    + (if input.targetWeight >= 0.0 then [] else [Issue([Key("targetWeight")], Text("Target weight must be greater than 0"))])
  }

  // ---------------------------------------------------------------------------
  // The upsert

  /** `where(eq(userGoals.userId, user))`. */
  function OwnedBy(user: UserId): Record<UserGoal> -> bool {
    (x: Record<UserGoal>) => x.value.userId == user
  }

  /** `where(eq(userGoals.id, id))`. */
  function HasId(id: int): Record<UserGoal> -> bool {
    (x: Record<UserGoal>) => x.id == id
  }

  /** `set(input)`: the three input columns take the input's values; userId is kept. */
  function Overwrite(input: UserGoalInput): UserGoal -> UserGoal
    requires input.targetDate.Some?
  {
    (v: UserGoal) => v.(primaryGoal := input.primaryGoal, targetDate := input.targetDate.value,
                        targetWeight := input.targetWeight)
  }

  /** The goal stored for `user`. */
  function Stored(user: UserId, input: UserGoalInput): UserGoal
    requires input.targetDate.Some?
  {
    UserGoal(user, input.primaryGoal, input.targetDate.value, input.targetWeight)
  }

  /** The table after `create` has stored an accepted input: the caller's first goal row is
      updated by its id when one exists, otherwise one row is inserted. */
  function Upsert(t: Table<UserGoal>, user: UserId, input: UserGoalInput): Table<UserGoal>
    requires input.targetDate.Some?
  {
    match FindFirst(t.records, OwnedBy(user))
    case Some(existing) => Table(UpdateWhere(t.records, HasId(existing.id), Overwrite(input)), t.nextId)
    case None => Insert(t, Stored(user, input))
  }

  /** The caller's goal rows. */
  function RowsOf(recs: seq<Record<UserGoal>>, user: UserId): seq<Record<UserGoal>> {
    Select(recs, OwnedBy(user))
  }

  /** After the upsert the caller has exactly one goal row, holding the input; the table keeps its
      numbering and its one-goal-per-user constraint; an existing row keeps its id and userId. */
  lemma UpsertStoresOne(t: Table<UserGoal>, user: UserId, input: UserGoalInput)
    requires input.targetDate.Some?
    requires WellNumbered(t) && OneGoalPerUser(t.records)
    ensures var u := Upsert(t, user, input);
      && WellNumbered(u)
      && OneGoalPerUser(u.records)
      && |RowsOf(u.records, user)| == 1
      && RowsOf(u.records, user)[0].value == Stored(user, input)
      && (forall x :: x in RowsOf(t.records, user) ==> RowsOf(u.records, user)[0].id == x.id)
      && FindFirst(u.records, OwnedBy(user)) == Some(RowsOf(u.records, user)[0])
  {
    var u := Upsert(t, user, input);
    var found := FindFirst(t.records, OwnedBy(user));
    if found.Some? {
      var i :| 0 <= i < |t.records| && t.records[i] == found.value;
      UpdateStoresOne(t, user, input, i);
    } else {
      InsertStoresOne(t, user, input);
    }
    var again := FindFirst(u.records, OwnedBy(user));
    var y := RowsOf(u.records, user)[0];
    assert y in RowsOf(u.records, user);
    assert again.Some?;
    assert again.value in RowsOf(u.records, user);
  }

  /** The update path: the caller's row `i` is overwritten through its id, and only that row
      has that id. */
  lemma UpdateStoresOne(t: Table<UserGoal>, user: UserId, input: UserGoalInput, i: nat)
    requires input.targetDate.Some?
    requires WellNumbered(t) && OneGoalPerUser(t.records)
    requires i < |t.records| && t.records[i].value.userId == user
    ensures var u := Table(UpdateWhere(t.records, HasId(t.records[i].id), Overwrite(input)), t.nextId);
      && WellNumbered(u)
      && OneGoalPerUser(u.records)
      && RowsOf(u.records, user) == [Record(t.records[i].id, Stored(user, input))]
      && RowsOf(t.records, user) == [t.records[i]]
      && (forall j :: 0 <= j < |t.records| && j != i ==> u.records[j] == t.records[j])
  {
    var u := Table(UpdateWhere(t.records, HasId(t.records[i].id), Overwrite(input)), t.nextId);
    UpdateOnlyRow(t.records, input, i);
    assert forall j :: 0 <= j < |u.records| ==> u.records[j].value.userId == t.records[j].value.userId;
    assert u.records[i] == Record(t.records[i].id, Stored(user, input));
    SelectSingle(u.records, OwnedBy(user), i);
    SelectSingle(t.records, OwnedBy(user), i);
  }

  /** Ids are distinct, so the update through row `i`'s id changes row `i` and no other. */
  lemma UpdateOnlyRow(recs: seq<Record<UserGoal>>, input: UserGoalInput, i: nat)
    requires input.targetDate.Some?
    requires Increasing(recs) && i < |recs|
    ensures var u := UpdateWhere(recs, HasId(recs[i].id), Overwrite(input));
      && u[i] == Record(recs[i].id, Overwrite(input)(recs[i].value))
      && forall j :: 0 <= j < |recs| && j != i ==> u[j] == recs[j]
  {
    var u := UpdateWhere(recs, HasId(recs[i].id), Overwrite(input));
    forall j | 0 <= j < |recs| && j != i ensures u[j] == recs[j] {
      assert recs[j].id != recs[i].id by {
        if j < i { assert recs[j].id < recs[i].id; }
        else { assert recs[i].id < recs[j].id; }
      }
    }
  }

  /** The insert path: the caller had no goal row, and one is appended. */
  lemma InsertStoresOne(t: Table<UserGoal>, user: UserId, input: UserGoalInput)
    requires input.targetDate.Some?
    requires WellNumbered(t) && OneGoalPerUser(t.records)
    requires forall x :: x in t.records ==> x.value.userId != user
    ensures var u := Insert(t, Stored(user, input));
      && WellNumbered(u)
      && OneGoalPerUser(u.records)
      && RowsOf(u.records, user) == [Record(t.nextId, Stored(user, input))]
      && RowsOf(t.records, user) == []
  {
    var u := Insert(t, Stored(user, input));
    InsertFresh(t, Stored(user, input));
    assert u.records == t.records + [Record(t.nextId, Stored(user, input))];
    forall j | 0 <= j < |t.records| ensures t.records[j].value.userId != user {
      assert t.records[j] in t.records;
    }
    SelectSingle(u.records, OwnedBy(user), |t.records|);
    SelectEmpty(t.records, OwnedBy(user));
  }

  /** Storing the same goal twice leaves the table as storing it once. */
  lemma UpsertIdempotent(t: Table<UserGoal>, user: UserId, input: UserGoalInput)
    requires input.targetDate.Some?
    requires WellNumbered(t) && OneGoalPerUser(t.records)
    ensures Upsert(Upsert(t, user, input), user, input) == Upsert(t, user, input)
  {
    var u := Upsert(t, user, input);
    UpsertStoresOne(t, user, input);
    var second := FindFirst(u.records, OwnedBy(user)).value;
    assert second.value == Stored(user, input);
    if FindFirst(t.records, OwnedBy(user)).Some? {
      var existing := FindFirst(t.records, OwnedBy(user)).value;
      assert existing in RowsOf(t.records, user);
      OverwriteAgain(t.records, existing.id, input);
    } else {
      InsertFresh(t, Stored(user, input));
      forall j | 0 <= j < |u.records| && HasId(second.id)(u.records[j])
        ensures Overwrite(input)(u.records[j].value) == u.records[j].value
      {
        assert u.records[j] in u.records;
      }
      UpdateWhereUnchanged(u.records, HasId(second.id), Overwrite(input));
    }
  }

  /** Overwriting the same rows with the same input a second time changes nothing. */
  lemma OverwriteAgain(recs: seq<Record<UserGoal>>, id: int, input: UserGoalInput)
    requires input.targetDate.Some?
    ensures var once := UpdateWhere(recs, HasId(id), Overwrite(input));
      UpdateWhere(once, HasId(id), Overwrite(input)) == once
  {
    var once := UpdateWhere(recs, HasId(id), Overwrite(input));
    forall j | 0 <= j < |once| && HasId(id)(once[j])
      ensures Overwrite(input)(once[j].value) == once[j].value
    {
      assert once[j].value == Overwrite(input)(recs[j].value);
    }
    UpdateWhereUnchanged(once, HasId(id), Overwrite(input));
  }

  /** Goal rows of other users are neither changed nor removed, and none is added. */
  lemma UpsertKeepsOthers(t: Table<UserGoal>, user: UserId, input: UserGoalInput)
    requires input.targetDate.Some?
    requires WellNumbered(t)
    ensures forall x: Record<UserGoal> :: x.value.userId != user ==>
              (x in Upsert(t, user, input).records <==> x in t.records)
  {
    var found := FindFirst(t.records, OwnedBy(user));
    if found.Some? {
      var i :| 0 <= i < |t.records| && t.records[i] == found.value;
      UpdateKeepsOthers(t.records, user, input, i);
    } else {
      assert Upsert(t, user, input).records == t.records + [Record(t.nextId, Stored(user, input))];
    }
  }

  /** The update through the caller's row `i` leaves every other user's row where it was. */
  lemma UpdateKeepsOthers(recs: seq<Record<UserGoal>>, user: UserId, input: UserGoalInput, i: nat)
    requires input.targetDate.Some?
    requires Increasing(recs) && i < |recs| && recs[i].value.userId == user
    ensures forall x: Record<UserGoal> :: x.value.userId != user ==>
              (x in UpdateWhere(recs, HasId(recs[i].id), Overwrite(input)) <==> x in recs)
  {
    var u := UpdateWhere(recs, HasId(recs[i].id), Overwrite(input));
    UpdateOnlyRow(recs, input, i);
    forall x: Record<UserGoal> | x in u && x.value.userId != user ensures x in recs {
      var j :| 0 <= j < |u| && u[j] == x;
      assert recs[j] == x;
    }
    forall x: Record<UserGoal> | x in recs && x.value.userId != user ensures x in u {
      var j :| 0 <= j < |recs| && recs[j] == x;
      assert u[j] == x;
    }
  }

  /** Storing the caller's goal keeps every schema constraint. */
  lemma UpsertConsistent(
    users: set<UserId>, userConfigs: Table<UserConfig>, userGoals: Table<UserGoal>,
    trainingConfigs: Table<TrainingConfig>, exercises: Table<Exercise>, workouts: Table<Workout>,
    workoutExercises: Table<WorkoutExercise>, userWorkouts: Table<UserWorkout>, user: UserId, input: UserGoalInput)
    requires input.targetDate.Some?
    requires Consistent(users, userConfigs, userGoals, trainingConfigs, exercises, workouts, workoutExercises, userWorkouts)
    requires user in users
    ensures Consistent(users, userConfigs, Upsert(userGoals, user, input), trainingConfigs, exercises, workouts,
                       workoutExercises, userWorkouts)
  {
    UpsertStoresOne(userGoals, user, input);
    UpsertKeepsOwners(userGoals, users, user, input);
  }

  /** Every goal row still belongs to a registered user when the caller is one. */
  lemma UpsertKeepsOwners(t: Table<UserGoal>, users: set<UserId>, user: UserId, input: UserGoalInput)
    requires input.targetDate.Some?
    requires GoalOwnersExist(t.records, users) && user in users
    ensures GoalOwnersExist(Upsert(t, user, input).records, users)
  {
    var u := Upsert(t, user, input);
    forall x | x in u.records ensures x.value.userId in users {
      var j :| 0 <= j < |u.records| && u.records[j] == x;
      if j < |t.records| {
        assert t.records[j] in t.records;
      }
    }
  }

  // ---------------------------------------------------------------------------
  // The procedures

  /** `userGoal.create` for the signed-in `user`: validate, then update the caller's goal row by
      its id when there is one, otherwise insert it. */
  method Create(db: Db, user: UserId, input: UserGoalInput) returns (r: Result<()>)
    requires db.Valid() && user in db.users
    modifies db`userGoals
    ensures db.Valid()
    ensures !Acceptable(input) ==>
      r == Failure(InvalidInput(UserGoalIssues(input))) && db.userGoals == old(db.userGoals)
    ensures Acceptable(input) ==>
      r == Success(()) && db.userGoals == Upsert(old(db.userGoals), user, input)
  {
    var issues := UserGoalIssues(input);
    if issues != [] {
      return Failure(InvalidInput(issues));
    }
    UpsertConsistent(db.users, db.userConfigs, db.userGoals, db.trainingConfigs, db.exercises,
                     db.workouts, db.workoutExercises, db.userWorkouts, user, input);
    var existing := FindFirst(db.userGoals.records, OwnedBy(user));
    if existing.Some? {
      db.userGoals := Table(UpdateWhere(db.userGoals.records, HasId(existing.value.id), Overwrite(input)),
                            db.userGoals.nextId);
    } else {
      db.userGoals := Insert(db.userGoals, Stored(user, input));
    }
    r := Success(());
  }

  /** `userGoal.getUserGoal` for the signed-in `user`: the caller's goal row, or null. */
  function GetUserGoal(db: Db, user: UserId): (r: Option<Record<UserGoal>>)
    reads db
    requires db.Valid()
    ensures r.None? <==> RowsOf(db.userGoals.records, user) == []
    ensures r.Some? ==> RowsOf(db.userGoals.records, user) == [r.value]
  {
    FoundIsOnly(db.userGoals.records, OwnedBy(user));
    FindFirst(db.userGoals.records, OwnedBy(user))
  }
}
