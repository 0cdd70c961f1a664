/** Relational tables as values: each row carries the identity id the database generated
    for it, and each table keeps the next value of its identity sequence. */
module Tables {
  import opened Common

  /** A stored row: its generated id and its other columns. */
  datatype Record<R> = Record(id: int, value: R)

  /** A table: its rows in insertion order and the next id its identity column hands out.
      Identity columns start at 1. */
  datatype Table<R> = Table(records: seq<Record<R>>, nextId: int)

  function Empty<R>(): Table<R> { Table([], 1) }

  /** Every id lies in [1, nextId) and ids increase along the table, so they are distinct
      and `nextId` is fresh. */
  ghost predicate WellNumbered<R>(t: Table<R>) {
    && 1 <= t.nextId
    && (forall i :: 0 <= i < |t.records| ==> 1 <= t.records[i].id < t.nextId)
    && Increasing(t.records)
  }

  ghost predicate Increasing<R>(recs: seq<Record<R>>) {
    forall i, j :: 0 <= i < j < |recs| ==> recs[i].id < recs[j].id
  }

  /** The ids present in a sequence of rows. */
  function Ids<R(==)>(recs: seq<Record<R>>): set<int> {
    set x | x in recs :: x.id
  }

  /** The column values of a sequence of rows, ids dropped. */
  function Values<R>(recs: seq<Record<R>>): seq<R> {
    seq(|recs|, i requires 0 <= i < |recs| => recs[i].value)
  }

  /** `INSERT ... VALUES (v)`: one row with the next identity id. */
  function Insert<R>(t: Table<R>, v: R): Table<R> {
    Table(t.records + [Record(t.nextId, v)], t.nextId + 1)
  }

  /** An `INSERT` the database refuses (a unique or foreign-key violation) has already drawn its
      id from the identity sequence, which no rollback returns: the rows stay, the id is used up. */
  function Refused<R>(t: Table<R>): (r: Table<R>)
    ensures WellNumbered(t) ==> WellNumbered(r)
  {
    Table(t.records, t.nextId + 1)
  }

  /** A single-row insert hands out an id no existing row has, keeps every existing row,
      and keeps the table well numbered. */
  lemma InsertFresh<R>(t: Table<R>, v: R)
    requires WellNumbered(t)
    ensures t.nextId !in Ids(t.records)
    ensures WellNumbered(Insert(t, v))
    ensures Ids(Insert(t, v).records) == Ids(t.records) + {t.nextId}
  {
    var u := Insert(t, v);
    assert u.records == t.records + [Record(t.nextId, v)];
    assert forall x :: x in u.records <==> x in t.records || x == Record(t.nextId, v);
  }

  /** `INSERT ... VALUES (v0), (v1), ...`: one row per value, in order, with consecutive ids. */
  function InsertAll<R>(t: Table<R>, vs: seq<R>): (r: Table<R>)
    ensures r.nextId == t.nextId + |vs|
    ensures |r.records| == |t.records| + |vs|
    ensures r.records[..|t.records|] == t.records
    ensures forall i :: |t.records| <= i < |r.records| ==>
              r.records[i] == Record(t.nextId + (i - |t.records|), vs[i - |t.records|])
    decreases |vs|
  {
    if vs == [] then t
    else
      var r := InsertAll(Insert(t, vs[0]), vs[1..]);
      assert r.records[..|t.records| + 1][..|t.records|] == r.records[..|t.records|];
      r
  }

  /** A multi-row insert keeps the table well numbered and only adds ids at or above the old `nextId`. */
  lemma {:induction false} InsertAllFresh<R>(t: Table<R>, vs: seq<R>)
    requires WellNumbered(t)
    ensures WellNumbered(InsertAll(t, vs))
    ensures Ids(t.records) <= Ids(InsertAll(t, vs).records)
    ensures forall x :: x in InsertAll(t, vs).records ==> x in t.records || t.nextId <= x.id
    decreases |vs|
  {
    if vs != [] {
      InsertFresh(t, vs[0]);
      InsertAllFresh(Insert(t, vs[0]), vs[1..]);
    }
  }

  /** The rows for which `keep` holds, in table order: what survives `DELETE ... WHERE NOT keep`,
      and what `SELECT ... WHERE keep` returns. */
  function Select<R(==,!new)>(recs: seq<Record<R>>, keep: Record<R> -> bool): (r: seq<Record<R>>)
    ensures forall x :: x in r <==> x in recs && keep(x)
    ensures Increasing(recs) ==> Increasing(r)
    ensures Subsequence(r, recs)
    ensures |r| <= |recs|
  {
    if recs == [] then []
    else
      var rest := Select(recs[1..], keep);
      if keep(recs[0]) then
        assert Increasing(recs) ==> Increasing([recs[0]] + rest) by {
          if Increasing(recs) {
            forall j | 0 <= j < |rest| ensures recs[0].id < rest[j].id {
              assert rest[j] in recs[1..];
            }
          }
        }
        [recs[0]] + rest
      else
        assert Subsequence(rest, recs) by { SubsequenceSkip(rest, recs); }
        rest
  }

  /** Dropping the first element of `b` cannot help: a subsequence of `b[1..]` is one of `b`. */
  lemma {:induction false} SubsequenceSkip<T>(a: seq<T>, b: seq<T>)
    requires b != [] && Subsequence(a, b[1..])
    ensures Subsequence(a, b)
    decreases |b|, 1
  {
    if a != [] && a[0] == b[0] {
      SubsequenceTail(a, b[1..]);
    }
  }

  lemma {:induction false} SubsequenceTail<T>(a: seq<T>, c: seq<T>)
    requires a != [] && Subsequence(a, c)
    ensures Subsequence(a[1..], c)
    decreases |c|, 2
  {
    if a[0] != c[0] {
      SubsequenceTail(a, c[1..]);
    }
    SubsequenceSkip(a[1..], c);
  }

  /** Nothing is selected exactly when no row satisfies the condition. */
  lemma SelectEmpty<R(!new)>(recs: seq<Record<R>>, keep: Record<R> -> bool)
    ensures |Select(recs, keep)| == 0 <==> forall x :: x in recs ==> !keep(x)
  {
    var r := Select(recs, keep);
    if |r| != 0 { assert r[0] in r; }
  }

  /** In a table with increasing ids, a row is identified by its id. */
  lemma IdIdentifies<R>(recs: seq<Record<R>>, x: Record<R>, y: Record<R>)
    requires Increasing(recs) && x in recs && y in recs && x.id == y.id
    ensures x == y
  {
    var i :| 0 <= i < |recs| && recs[i] == x;
    var j :| 0 <= j < |recs| && recs[j] == y;
  }

  /** When exactly row `i` satisfies the condition, that row alone is selected. */
  lemma {:induction false} SelectSingle<R(!new)>(recs: seq<Record<R>>, keep: Record<R> -> bool, i: nat)
    requires i < |recs| && keep(recs[i])
    requires forall j :: 0 <= j < |recs| && j != i ==> !keep(recs[j])
    ensures Select(recs, keep) == [recs[i]]
    decreases |recs|
  {
    if i > 0 {
      SelectSingle(recs[1..], keep, i - 1);
    } else {
      forall x | x in recs[1..] ensures !keep(x) {
        var j :| 0 <= j < |recs[1..]| && recs[1..][j] == x;
        assert recs[j + 1] == x;
      }
      SelectEmpty(recs[1..], keep);
    }
  }

  /** When at most one row satisfies the condition, `findFirst` finds nothing exactly when nothing
      is selected, and otherwise finds the only selected row. */
  lemma FoundIsOnly<R(!new)>(recs: seq<Record<R>>, keep: Record<R> -> bool)
    requires forall i, j :: 0 <= i < j < |recs| && keep(recs[i]) ==> !keep(recs[j])
    ensures FindFirst(recs, keep).None? <==> Select(recs, keep) == []
    ensures FindFirst(recs, keep).Some? ==> Select(recs, keep) == [FindFirst(recs, keep).value]
  {
    var found := FindFirst(recs, keep);
    SelectEmpty(recs, keep);
    if found.Some? {
      var i :| 0 <= i < |recs| && recs[i] == found.value;
      SelectSingle(recs, keep, i);
    }
  }

  /** A `DELETE` keeps the table well numbered: the survivors keep their ids and order. */
  lemma SelectWellNumbered<R(!new)>(t: Table<R>, keep: Record<R> -> bool)
    requires WellNumbered(t)
    ensures WellNumbered(Table(Select(t.records, keep), t.nextId))
    ensures Ids(Select(t.records, keep)) <= Ids(t.records)
  {
    var r := Select(t.records, keep);
    forall i | 0 <= i < |r| ensures 1 <= r[i].id < t.nextId {
      assert r[i] in t.records;
    }
  }

  /** `UPDATE ... SET f WHERE p`: every row satisfying `p` gets new column values `f`; ids and
      order are kept. */
  function UpdateWhere<R>(recs: seq<Record<R>>, p: Record<R> -> bool, f: R -> R): (r: seq<Record<R>>)
    ensures |r| == |recs|
    ensures forall i :: 0 <= i < |recs| ==> r[i].id == recs[i].id
  {
    seq(|recs|, i requires 0 <= i < |recs| => if p(recs[i]) then Record(recs[i].id, f(recs[i].value)) else recs[i])
  }

  /** An update that sets every matching row to the values it already has changes nothing. */
  lemma UpdateWhereUnchanged<R>(recs: seq<Record<R>>, p: Record<R> -> bool, f: R -> R)
    requires forall j :: 0 <= j < |recs| && p(recs[j]) ==> f(recs[j].value) == recs[j].value
    ensures UpdateWhere(recs, p, f) == recs
  {
    var r := UpdateWhere(recs, p, f);
    assert forall j :: 0 <= j < |recs| ==> r[j] == recs[j];
  }

  /** `findFirst({ where: p })`: the first row satisfying `p`, if any. */
  function FindFirst<R(==,!new)>(recs: seq<Record<R>>, p: Record<R> -> bool): (r: Option<Record<R>>)
    ensures r.None? <==> forall x :: x in recs ==> !p(x)
    ensures r.Some? ==> r.value in recs && p(r.value)
  {
    if recs == [] then None
    else if p(recs[0]) then Some(recs[0])
    else FindFirst(recs[1..], p)
  }

  /** The row with a given id, as a relational `with` join fetches it; the id must exist. */
  function Lookup<R(==,!new)>(recs: seq<Record<R>>, id: int): (x: Record<R>)
    requires id in Ids(recs)
    ensures x in recs && x.id == id
  {
    var found := FindFirst(recs, (y: Record<R>) => y.id == id);
    assert found.Some? by {
      var y :| y in recs && y.id == id;
    }
    found.value
  }
}
