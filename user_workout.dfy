/** The user-workout router: assign a workout to a user on a day, and list a user's assignments. */
module UserWorkoutRouter {
  import opened Common
  import opened Tables
  import opened Schema

  /** The input of `create`. The user is named by the input, not taken from the session, and the
      day is any string. */
  datatype AssignmentInput = AssignmentInput(userId: UserId, workoutId: int, assignedDay: string)

  /** A listed assignment with its workout attached. */
  datatype AssignmentDetail = AssignmentDetail(assignment: Record<UserWorkout>, workout: Record<Workout>)

  /** The table after `create`'s insert: refused by a foreign key when the user or the workout
      does not exist (the id it drew is used up), otherwise the row is appended. */
  function AfterAssign(t: Table<UserWorkout>, users: set<UserId>, workouts: seq<Record<Workout>>,
                       input: AssignmentInput): (u: Table<UserWorkout>)
    ensures u.nextId == t.nextId + 1
  {
    if input.userId in users && input.workoutId in Ids(workouts) then
      Insert(t, UserWorkout(input.userId, input.workoutId, input.assignedDay))
    else Refused(t)
  }

  /** An assignment keeps the table well numbered and every assignment's references satisfied. */
  lemma AssignConsistent(t: Table<UserWorkout>, users: set<UserId>, workouts: seq<Record<Workout>>,
                         input: AssignmentInput)
    requires WellNumbered(t) && AssignmentsReferenceExisting(t.records, users, Ids(workouts))
    ensures WellNumbered(AfterAssign(t, users, workouts, input))
    ensures AssignmentsReferenceExisting(AfterAssign(t, users, workouts, input).records, users, Ids(workouts))
  {
    if input.userId in users && input.workoutId in Ids(workouts) {
      var row := UserWorkout(input.userId, input.workoutId, input.assignedDay);
      InsertFresh(t, row);
      assert Insert(t, row).records == t.records + [Record(t.nextId, row)];
    }
  }

  /** Nothing ties an assignment to the days the user already has: two assignments of existing
      workouts to the same user on the same day both go in, as two rows with distinct ids, and
      every schema constraint still holds. */
  lemma SameDayTwice(t: Table<UserWorkout>, users: set<UserId>, workouts: seq<Record<Workout>>,
                     first: AssignmentInput, second: AssignmentInput)
    requires WellNumbered(t) && AssignmentsReferenceExisting(t.records, users, Ids(workouts))
    requires first.userId == second.userId && first.assignedDay == second.assignedDay
    requires first.userId in users && first.workoutId in Ids(workouts) && second.workoutId in Ids(workouts)
    ensures var after := AfterAssign(AfterAssign(t, users, workouts, first), users, workouts, second);
      && after.records == t.records + [Record(t.nextId, UserWorkout(first.userId, first.workoutId, first.assignedDay)),
                                       Record(t.nextId + 1, UserWorkout(second.userId, second.workoutId, second.assignedDay))]
      && WellNumbered(after)
      && AssignmentsReferenceExisting(after.records, users, Ids(workouts))
  {
    var once := AfterAssign(t, users, workouts, first);
    AssignConsistent(t, users, workouts, first);
    AssignConsistent(once, users, workouts, second);
    assert once.records == t.records + [Record(t.nextId, UserWorkout(first.userId, first.workoutId, first.assignedDay))];
  }

  /** `userWorkout.create`: insert the assignment row and return the inserted rows. The database
      refuses an unknown user or workout; when both are unknown the user key is reported. */
  method Create(db: Db, input: AssignmentInput) returns (r: Result<seq<Record<UserWorkout>>>)
    requires db.Valid()
    modifies db`userWorkouts
    ensures db.Valid()
    ensures db.userWorkouts == AfterAssign(old(db.userWorkouts), db.users, db.workouts.records, input)
    ensures input.userId !in db.users ==> r == Failure(ForeignKeyViolation("user_workout", "userId"))
    ensures input.userId in db.users && input.workoutId !in Ids(db.workouts.records) ==>
      r == Failure(ForeignKeyViolation("user_workout", "workoutId"))
    ensures input.userId in db.users && input.workoutId in Ids(db.workouts.records) ==>
      r == Success([Record(old(db.userWorkouts.nextId), UserWorkout(input.userId, input.workoutId, input.assignedDay))])
  {
    AssignConsistent(db.userWorkouts, db.users, db.workouts.records, input);
    if input.userId !in db.users {
      db.userWorkouts := Refused(db.userWorkouts);
      return Failure(ForeignKeyViolation("user_workout", "userId"));
    }
    if input.workoutId !in Ids(db.workouts.records) {
      db.userWorkouts := Refused(db.userWorkouts);
      return Failure(ForeignKeyViolation("user_workout", "workoutId"));
    }
    var id := db.userWorkouts.nextId;
    var row := UserWorkout(input.userId, input.workoutId, input.assignedDay);
    db.userWorkouts := Insert(db.userWorkouts, row);
    r := Success([Record(id, row)]);
  }

  /** The assignment rows of a listing. */
  function AssignmentRows(ds: seq<AssignmentDetail>): seq<Record<UserWorkout>> {
    seq(|ds|, k requires 0 <= k < |ds| => ds[k].assignment)
  }

  /** `userWorkout.getUserWorkouts`: the assignments of `userId`, in table order, each with its
      workout attached. */
  function GetUserWorkouts(db: Db, userId: UserId): (r: seq<AssignmentDetail>)
    reads db
    requires db.Valid()
    ensures forall x :: x in AssignmentRows(r) <==> x in db.userWorkouts.records && x.value.userId == userId
    ensures Subsequence(AssignmentRows(r), db.userWorkouts.records)
    ensures forall k :: 0 <= k < |r| ==> r[k].workout in db.workouts.records && r[k].workout.id == r[k].assignment.value.workoutId
  {
    var mine := Select(db.userWorkouts.records, (x: Record<UserWorkout>) => x.value.userId == userId);
    WithWorkouts(mine, db.workouts.records)
  }

  /** Each assignment row with the workout row it refers to, in order. */
  function WithWorkouts(rows: seq<Record<UserWorkout>>, workouts: seq<Record<Workout>>): (r: seq<AssignmentDetail>)
    requires forall x :: x in rows ==> x.value.workoutId in Ids(workouts)
    ensures AssignmentRows(r) == rows
    ensures forall k :: 0 <= k < |r| ==> r[k].workout in workouts && r[k].workout.id == r[k].assignment.value.workoutId
  {
    var r := seq(|rows|, k requires 0 <= k < |rows| =>
                 AssignmentDetail(rows[k], Lookup(workouts, rows[k].value.workoutId)));
    assert AssignmentRows(r) == rows;
    r
  }
}
