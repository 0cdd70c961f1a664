/** The user-config router: insert the caller's biometric settings once, and read them back. */
module UserConfigRouter {
  import opened Common
  import opened Tables
  import opened Schema

  /** The input of `create`. Any strings and numbers are accepted; nothing is range-checked. */
  datatype UserConfigInput = UserConfigInput(
    weightUnit: string, heightUnit: string, age: int, gender: string, weight: real, height: real,
    activityLevel: string, lang: string)

  /** The row values inserted for `user`. */
  function Stored(user: UserId, input: UserConfigInput): UserConfig {
    UserConfig(user, input.weightUnit, input.heightUnit, input.age, input.gender, input.weight, input.height,
               input.lang, input.activityLevel)
  }

  /** `where(eq(userConfig.userId, user))`. */
  function OwnedBy(user: UserId): Record<UserConfig> -> bool {
    (x: Record<UserConfig>) => x.value.userId == user
  }

  /** The caller's rows. */
  function RowsOf(recs: seq<Record<UserConfig>>, user: UserId): seq<Record<UserConfig>> {
    Select(recs, OwnedBy(user))
  }

  /** The table after `create`'s insert: refused by the unique userId when the caller already
      has a row (the id it drew is used up), otherwise the row is appended. */
  function AfterCreate(t: Table<UserConfig>, user: UserId, input: UserConfigInput): Table<UserConfig> {
    if FindFirst(t.records, OwnedBy(user)).Some? then Refused(t) else Insert(t, Stored(user, input))
  }

  /** A create for a caller without a row appends exactly their row and keeps the constraints;
      one for a caller with a row changes no row. */
  lemma CreateStoresOne(t: Table<UserConfig>, user: UserId, input: UserConfigInput)
    requires WellNumbered(t) && OneConfigPerUser(t.records)
    ensures var u := AfterCreate(t, user, input);
      && WellNumbered(u)
      && OneConfigPerUser(u.records)
      && (RowsOf(t.records, user) == [] ==> u.records == t.records + [Record(t.nextId, Stored(user, input))])
      && (RowsOf(t.records, user) != [] ==> u.records == t.records)
      && RowsOf(u.records, user) != []
  {
    var u := AfterCreate(t, user, input);
    SelectEmpty(t.records, OwnedBy(user));
    SelectEmpty(u.records, OwnedBy(user));
    if FindFirst(t.records, OwnedBy(user)).None? {
      InsertFresh(t, Stored(user, input));
      var last := Record(t.nextId, Stored(user, input));
      assert u.records == t.records + [last];
      assert last in u.records;
      forall i, j | 0 <= i < j < |u.records| ensures u.records[i].value.userId != u.records[j].value.userId {
        if j == |t.records| {
          assert t.records[i] in t.records;
        }
      }
    }
  }

  /** A second create for the same caller is refused, whatever its input, and the caller's row
      keeps the values of the first. */
  lemma SecondCreateRefused(t: Table<UserConfig>, user: UserId, first: UserConfigInput, second: UserConfigInput)
    requires WellNumbered(t) && OneConfigPerUser(t.records)
    ensures var once := AfterCreate(t, user, first);
      && FindFirst(once.records, OwnedBy(user)).Some?
      && AfterCreate(once, user, second).records == once.records
      && (RowsOf(t.records, user) == [] ==> RowsOf(once.records, user) == [Record(t.nextId, Stored(user, first))])
  {
    var once := AfterCreate(t, user, first);
    CreateStoresOne(t, user, first);
    SelectEmpty(once.records, OwnedBy(user));
    if RowsOf(t.records, user) == [] {
      SelectEmpty(t.records, OwnedBy(user));
      forall j | 0 <= j < |t.records| ensures t.records[j].value.userId != user {
        assert t.records[j] in t.records;
      }
      SelectSingle(once.records, OwnedBy(user), |t.records|);
    }
  }

  /** Inserting the caller's settings keeps every schema constraint. */
  lemma CreateConsistent(
    users: set<UserId>, userConfigs: Table<UserConfig>, userGoals: Table<UserGoal>,
    trainingConfigs: Table<TrainingConfig>, exercises: Table<Exercise>, workouts: Table<Workout>,
    workoutExercises: Table<WorkoutExercise>, userWorkouts: Table<UserWorkout>, user: UserId, input: UserConfigInput)
    requires Consistent(users, userConfigs, userGoals, trainingConfigs, exercises, workouts, workoutExercises, userWorkouts)
    requires user in users
    ensures Consistent(users, AfterCreate(userConfigs, user, input), userGoals, trainingConfigs, exercises, workouts,
                       workoutExercises, userWorkouts)
  {
    CreateStoresOne(userConfigs, user, input);
  }

  // ---------------------------------------------------------------------------
  // The procedures

  /** `userConfig.create` for the signed-in `user`: insert the caller's row; the database refuses
      it when the caller already has one. */
  method Create(db: Db, user: UserId, input: UserConfigInput) returns (r: Result<()>)
    requires db.Valid() && user in db.users
    modifies db`userConfigs
    ensures db.Valid()
    ensures db.userConfigs == AfterCreate(old(db.userConfigs), user, input)
    ensures r.Success? <==> RowsOf(old(db.userConfigs.records), user) == []
    ensures r.Failure? ==> r.error == UniqueViolation("user_config", "userId")
  {
    CreateConsistent(db.users, db.userConfigs, db.userGoals, db.trainingConfigs, db.exercises,
                     db.workouts, db.workoutExercises, db.userWorkouts, user, input);
    SelectEmpty(db.userConfigs.records, OwnedBy(user));
    var clash := FindFirst(db.userConfigs.records, OwnedBy(user));
    if clash.Some? {
      db.userConfigs := Refused(db.userConfigs);
      return Failure(UniqueViolation("user_config", "userId"));
    }
    db.userConfigs := Insert(db.userConfigs, Stored(user, input));
    r := Success(());
  }

  /** `userConfig.getUserConfig` for the signed-in `user`: the caller's row, or null. */
  function GetUserConfig(db: Db, user: UserId): (r: Option<Record<UserConfig>>)
    reads db
    requires db.Valid()
    ensures r.None? <==> RowsOf(db.userConfigs.records, user) == []
    ensures r.Some? ==> RowsOf(db.userConfigs.records, user) == [r.value]
  {
    FoundIsOnly(db.userConfigs.records, OwnedBy(user));
    FindFirst(db.userConfigs.records, OwnedBy(user))
  }
}
