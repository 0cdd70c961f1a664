/** The exercise seed: walk an already-parsed list of catalog entries and insert each one unless
    an exercise with its name exists at that moment. */
module SeedExercises {
  import opened Common
  import opened Tables
  import opened Schema

  /** `where(eq(exercises.name, name))`. */
  function Named(name: string): Record<Exercise> -> bool {
    (x: Record<Exercise>) => x.value.name == name
  }

  /** One iteration: select the rows with the entry's name and insert the entry when there are none. */
  function SeedStep(t: Table<Exercise>, e: Exercise): Table<Exercise> {
    if |Select(t.records, Named(e.name))| == 0 then Insert(t, Exercise(e.name, e.image, e.videoUrl, e.muscleGroups, e.equipment))
    else t
  }

  /** The table after the loop has processed every entry of `list`, in order; each iteration sees
      the rows inserted by the earlier ones. */
  function Seeded(t: Table<Exercise>, list: seq<Exercise>): Table<Exercise>
    decreases |list|
  {
    if list == [] then t else Seeded(SeedStep(t, list[0]), list[1..])
  }

  /** The names present in a sequence of exercise rows. */
  function Names(recs: seq<Record<Exercise>>): set<string> {
    set x | x in recs :: x.value.name
  }

  /** The names of a list of entries. */
  function ListNames(list: seq<Exercise>): set<string> {
    set e | e in list :: e.name
  }

  /** No two rows share a name. */
  ghost predicate DistinctNames(recs: seq<Record<Exercise>>) {
    forall i, j :: 0 <= i < j < |recs| ==> recs[i].value.name != recs[j].value.name
  }

  /** The entries a seed over a table holding the names `seen` inserts, as an independent
      definition: every entry whose name is neither in `seen` nor carried by an earlier entry. */
  function Fresh(list: seq<Exercise>, seen: set<string>): seq<Exercise>
    decreases |list|
  {
    if list == [] then []
    else if list[0].name in seen then Fresh(list[1..], seen)
    else [list[0]] + Fresh(list[1..], seen + {list[0].name})
  }

  /** One iteration inserts the entry, with every column copied, exactly when its name is absent. */
  lemma StepFacts(t: Table<Exercise>, e: Exercise)
    ensures e.name in Names(t.records) ==> SeedStep(t, e) == t
    ensures e.name !in Names(t.records) ==> SeedStep(t, e) == Insert(t, e)
    ensures Names(SeedStep(t, e).records) == Names(t.records) + {e.name}
    ensures SeedStep(t, e).records[..|t.records|] == t.records
  {
    SelectEmpty(t.records, Named(e.name));
    if e.name in Names(t.records) {
      var x :| x in t.records && x.value.name == e.name;
      assert Named(e.name)(x);
    } else {
      var u := Insert(t, e);
      assert u.records == t.records + [Record(t.nextId, e)];
      assert forall x :: x in u.records <==> x in t.records || x == Record(t.nextId, e);
    }
  }

  /** Appending one row appends its values. */
  lemma ValuesInsert(t: Table<Exercise>, e: Exercise)
    ensures Values(Insert(t, e).records) == Values(t.records) + [e]
  {
    assert Insert(t, e).records == t.records + [Record(t.nextId, e)];
  }

  /** Pre-existing rows are never modified or removed: the seeded table extends the old one. */
  lemma {:induction false} SeededExtends(t: Table<Exercise>, list: seq<Exercise>)
    ensures |Seeded(t, list).records| >= |t.records|
    ensures Seeded(t, list).records[..|t.records|] == t.records
    decreases |list|
  {
    if list != [] {
      var s := SeedStep(t, list[0]);
      StepFacts(t, list[0]);
      SeededExtends(s, list[1..]);
      var u := Seeded(s, list[1..]);
      assert u.records[..|t.records|] == u.records[..|s.records|][..|t.records|];
    }
  }

  /** The inserted rows hold exactly the fresh entries, in list order: an entry whose name the
      table or an earlier entry already had is skipped. */
  lemma {:induction false} SeededValues(t: Table<Exercise>, list: seq<Exercise>)
    ensures Values(Seeded(t, list).records) == Values(t.records) + Fresh(list, Names(t.records))
    decreases |list|
  {
    if list != [] {
      var e := list[0];
      var s := SeedStep(t, e);
      StepFacts(t, e);
      SeededValues(s, list[1..]);
      assert Seeded(t, list) == Seeded(s, list[1..]);
      if e.name in Names(t.records) {
        assert Fresh(list, Names(t.records)) == Fresh(list[1..], Names(t.records));
      } else {
        ValuesInsert(t, e);
        var rest := Fresh(list[1..], Names(t.records) + {e.name});
        assert Fresh(list, Names(t.records)) == [e] + rest;
        assert Values(s.records) + rest == Values(t.records) + ([e] + rest);
      }
    }
  }

  /** After the seed every listed name is present, and no other name was added. */
  lemma {:induction false} SeededNames(t: Table<Exercise>, list: seq<Exercise>)
    ensures Names(Seeded(t, list).records) == Names(t.records) + ListNames(list)
    decreases |list|
  {
    if list != [] {
      StepFacts(t, list[0]);
      SeededNames(SeedStep(t, list[0]), list[1..]);
      assert Seeded(t, list) == Seeded(SeedStep(t, list[0]), list[1..]);
      ListNamesCons(list);
    }
  }

  lemma ListNamesCons(list: seq<Exercise>)
    requires list != []
    ensures ListNames(list) == {list[0].name} + ListNames(list[1..])
  {
    assert forall e :: e in list <==> e == list[0] || e in list[1..] by {
      assert list == [list[0]] + list[1..];
    }
  }

  /** A table without duplicate names has none after the seed. */
  lemma {:induction false} SeededDistinct(t: Table<Exercise>, list: seq<Exercise>)
    requires DistinctNames(t.records)
    ensures DistinctNames(Seeded(t, list).records)
    decreases |list|
  {
    if list != [] {
      var e := list[0];
      StepFacts(t, e);
      var s := SeedStep(t, e);
      if e.name !in Names(t.records) {
        assert s.records == t.records + [Record(t.nextId, e)];
        forall i | 0 <= i < |t.records| ensures s.records[i].value.name != e.name {
          assert t.records[i] in t.records;
        }
      }
      SeededDistinct(s, list[1..]);
    }
  }

  /** A seed whose names are all present already changes nothing. */
  lemma {:induction false} SeededNothingNew(t: Table<Exercise>, list: seq<Exercise>)
    requires ListNames(list) <= Names(t.records)
    ensures Seeded(t, list) == t
    decreases |list|
  {
    if list != [] {
      assert list[0] in list;
      StepFacts(t, list[0]);
      assert ListNames(list[1..]) <= ListNames(list) by {
        assert forall e :: e in list[1..] ==> e in list;
      }
      SeededNothingNew(t, list[1..]);
    }
  }

  /** Running the seed a second time with the same list leaves the table unchanged. */
  lemma SeedIdempotent(t: Table<Exercise>, list: seq<Exercise>)
    ensures Seeded(Seeded(t, list), list) == Seeded(t, list)
  {
    SeededNames(t, list);
    SeededNothingNew(Seeded(t, list), list);
  }

  /** The seed keeps the table well numbered and only adds ids. */
  lemma {:induction false} SeededWellNumbered(t: Table<Exercise>, list: seq<Exercise>)
    requires WellNumbered(t)
    ensures WellNumbered(Seeded(t, list))
    ensures Ids(t.records) <= Ids(Seeded(t, list).records)
    decreases |list|
  {
    if list != [] {
      StepFacts(t, list[0]);
      InsertFresh(t, list[0]);
      SeededWellNumbered(SeedStep(t, list[0]), list[1..]);
    }
  }

  /** One iteration keeps every schema constraint: it only adds a catalog row. */
  lemma StepConsistent(
    users: set<UserId>, userConfigs: Table<UserConfig>, userGoals: Table<UserGoal>,
    trainingConfigs: Table<TrainingConfig>, exercises: Table<Exercise>, workouts: Table<Workout>,
    workoutExercises: Table<WorkoutExercise>, userWorkouts: Table<UserWorkout>, e: Exercise)
    requires Consistent(users, userConfigs, userGoals, trainingConfigs, exercises, workouts, workoutExercises, userWorkouts)
    ensures Consistent(users, userConfigs, userGoals, trainingConfigs, SeedStep(exercises, e), workouts,
                       workoutExercises, userWorkouts)
  {
    StepFacts(exercises, e);
    InsertFresh(exercises, e);
  }

  /** `seedExercises`, from the parsed list on: one select and at most one insert per entry. */
  method Seed(db: Db, list: seq<Exercise>)
    requires db.Valid()
    modifies db`exercises
    ensures db.Valid()
    ensures db.exercises == Seeded(old(db.exercises), list)
  {
    for i := 0 to |list|
      invariant db.Valid()
      invariant Seeded(db.exercises, list[i..]) == Seeded(old(db.exercises), list)
    {
      var e := list[i];
      StepConsistent(db.users, db.userConfigs, db.userGoals, db.trainingConfigs, db.exercises,
                     db.workouts, db.workoutExercises, db.userWorkouts, e);
      assert list[i..][1..] == list[i + 1..];
      var existing := Select(db.exercises.records, Named(e.name));
      if |existing| == 0 {
        db.exercises := Insert(db.exercises, Exercise(e.name, e.image, e.videoUrl, e.muscleGroups, e.equipment));
      }
    }
  }
}
